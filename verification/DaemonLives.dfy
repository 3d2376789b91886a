/** Runs of the daemon across restarts. What the logs say and what is live agree after every step exactly as long as no
    registration meets a log whose unclosed ids are not the ones waiting for the session, and no close takes an id of
    another registered session. */
module DaemonLives {
  import opened Common
  import opened Registry
  import R = Registry
  import opened RegistryRuns
  import O = Ownership
  import opened Daemon
  import D = Daemon
  import opened DaemonRuns
  import opened DaemonRestart

  datatype Step =
    | Served(call: Call, failures: Failures)
    | Restarted(order: seq<string>, now: nat)

  /** A daemon and the time of its last start-up from the logs, if it had one. */
  datatype Life = Life(daemon: Daemon, since: Option<nat>)

  function Born(maxSessions: nat, maxPending: nat, hasScope: bool): Life {
    Life(Fresh(maxSessions, maxPending, hasScope), None)
  }

  /** None when a restart does not come up. */
  function Next(l: Life, step: Step): Option<Life> {
    match step
    case Served(call, f) => Some(l.(daemon := Handle(l.daemon, call, f).0))
    case Restarted(order, now) =>
      var r := l.daemon.registry;
      match D.StartUp(r.maxSessions, r.maxPending, l.daemon.hasScope, l.daemon.logs, order, now)
      case None => None
      case Some(d) => Some(Life(d, Some(now)))
  }

  function Lives(l: Life, steps: seq<Step>): Option<Life> {
    if steps == [] then Some(l)
    else
      match Lives(l, steps[..|steps| - 1])
      case None => None
      case Some(before) => Next(before, steps[|steps| - 1])
  }

  /** A restart sees every log once, and the clock does not run backwards from one restart to the next. */
  ghost predicate Allowed(l: Life, step: Step) {
    step.Restarted? ==> Listing(step.order, l.daemon.logs) && (l.since.Some? ==> l.since.value <= step.now)
  }

  ghost predicate Possible(l: Life, steps: seq<Step>) {
    steps == [] ||
      var before := steps[..|steps| - 1];
      Possible(l, before) && (Lives(l, before).Some? ==> Allowed(Lives(l, before).value, steps[|steps| - 1]))
  }

  // ---------------------------------------------------------------- one step

  ghost predicate LifeInv(l: Life) {
    DaemonInv(l.daemon, l.since)
  }

  /** Replaying the log of `s` at time `now` answers what is live. */
  ghost predicate Fits(l: Life, s: string, now: nat) {
    ReplayFits(l.daemon.registry, s, now, Replay(LogOf(l.daemon.logs, s), now))
  }

  /** The logs and what is live agree: for every session, at every time its log can be asked about. */
  ghost predicate Agrees(l: Life) {
    forall s, now: nat :: Answerable(l.daemon.registry, s, now, l.since) ==> Fits(l, s, now)
  }

  ghost predicate SafeStep(l: Life, step: Step) {
    step.Served? ==> SafeCall(l.daemon, step.call, step.failures)
  }

  lemma InvAgrees(l: Life)
    requires LifeInv(l)
    ensures Agrees(l)
  {
    hide DaemonInv, ReplayFits;
    forall s, now: nat | Answerable(l.daemon.registry, s, now, l.since) ensures Fits(l, s, now) {
      ReplayFitsLive(l.daemon, s, now, l.since);
    }
  }

  lemma RebuiltKeepsTables(live: R.Registry, r: R.Registry, now: nat)
    requires R.Inv(live) && SessionsLasting(live.sessions)
    requires Rebuilt(live, r, live.sessions.Keys, now)
    ensures R.Inv(r) && SessionsLasting(r.sessions)
    ensures r.index.Keys <= live.index.Keys && r.pending == map[]
  {
    RebuiltSize(live, r, now);
    RebuiltIsBacked(live, r, now);
    RebuiltSessions(live, r, now);
    NothingPending(r);
    hide Rebuilt, IndexBacked, SessionsWellFormed, SessionsLasting, Total;
    RebuiltPlain(live, r, now);
  }

  lemma RebuiltPlain(live: R.Registry, r: R.Registry, now: nat)
    requires Rebuilt(live, r, live.sessions.Keys, now)
    ensures r.maxSessions == live.maxSessions && r.maxPending == live.maxPending
    ensures r.pending == map[] && r.pendingCount == 0 && r.index.Keys <= live.index.Keys
  {
  }

  lemma RebuiltSize(live: R.Registry, r: R.Registry, now: nat)
    requires Rebuilt(live, r, live.sessions.Keys, now)
    ensures |r.sessions| <= |live.sessions|
  {
    hide SessionRebuilt;
    SubsetSize(r.sessions.Keys, live.sessions.Keys);
    assert |r.sessions| == |r.sessions.Keys| && |live.sessions| == |live.sessions.Keys|;
  }

  lemma RebuiltSessions(live: R.Registry, r: R.Registry, now: nat)
    requires SessionsWellFormed(live.sessions) && SessionsLasting(live.sessions)
    requires Rebuilt(live, r, live.sessions.Keys, now)
    ensures SessionsWellFormed(r.sessions) && SessionsLasting(r.sessions)
  {
    hide Lasting, StrictlySorted;
    forall s | s in r.sessions ensures SessionRebuilt(live, r, s) {}
  }

  lemma RebuiltIsBacked(live: R.Registry, r: R.Registry, now: nat)
    requires Rebuilt(live, r, live.sessions.Keys, now)
    ensures IndexBacked(r)
  {
    hide StrictlySorted;
    forall c | c in r.index ensures Backed(r, c, r.index[c]) {
      assert SessionRebuilt(live, r, r.index[c]) && Owns(live, r.index[c], c);
    }
  }

  lemma NothingPending(r: R.Registry)
    ensures r.pending == map[] && r.pendingCount == 0 && r.maxPending >= 0 ==> PendingWellFormed(r)
  {
  }

  lemma RebuiltLogs(d: Daemon, r: R.Registry, now: nat, since: Option<nat>)
    requires DaemonInv(d, since) && (since.Some? ==> since.value <= now)
    requires Rebuilt(d.registry, r, d.registry.sessions.Keys, now)
    ensures LogsAgree(r, d.logs, Some(now))
  {
    var live := d.registry;
    hide R.Inv, Lasting, StrictlySorted, ReplayAll;
    forall s ensures LogAgrees(r, s, ReplayAll(LogOf(d.logs, s)), Some(now)) {
      assert LogAgrees(live, s, ReplayAll(LogOf(d.logs, s)), since);
      LiveExpiry(live, s);
      if s in r.sessions {
        assert SessionRebuilt(live, r, s);
        forall c ensures Owns(r, s, c) <==> Owns(live, s, c) {}
      }
    }
  }

  lemma LiveExpiry(r: R.Registry, s: string)
    requires R.Inv(r)
    ensures s in r.sessions ==> r.sessions[s].expiresAt == r.sessions[s].intent.expiresAt
  {
  }

  /** A restart always comes up, and what it brings back fits the logs from then on. */
  lemma RestartKeepsInv(l: Life, order: seq<string>, now: nat)
    requires LifeInv(l) && Allowed(l, Restarted(order, now))
    ensures Next(l, Restarted(order, now)).Some? && LifeInv(Next(l, Restarted(order, now)).value)
  {
    var d := l.daemon;
    RebuildFits(d, order, now, l.since);
    hide Rebuild, Rebuilt, LogsAgree, R.Inv, SessionsLasting, Listing;
    var r := Rebuild(R.Empty(d.registry.maxSessions, d.registry.maxPending), d.logs, order, now).value;
    RebuiltKeepsTables(d.registry, r, now);
    RebuiltLogs(d, r, now, l.since);
  }

  /** A safe step comes up and keeps the invariant. */
  lemma StepKeepsInv(l: Life, step: Step)
    requires LifeInv(l) && Allowed(l, step) && SafeStep(l, step)
    ensures Next(l, step).Some? && LifeInv(Next(l, step).value)
  {
    match step
    case Served(call, f) =>
      hide DaemonInv, Handle, SafeCall;
      HandleKeepsInv(l.daemon, call, f, l.since);
    case Restarted(order, now) => RestartKeepsInv(l, order, now);
  }

  /** A registration that goes through although the waiting ids are not those of the log makes log and live differ, at
      the very time of the registration. */
  lemma MismatchShows(l: Life, intent: Intent, now: nat, f: Failures)
    requires LifeInv(l) && !SafeStep(l, Served(CallRegister(intent, now), f))
    ensures Next(l, Served(CallRegister(intent, now), f)).Some?
    ensures !Agrees(Next(l, Served(CallRegister(intent, now), f)).value)
  {
    var d, s := l.daemon, intent.sessionId;
    var (d', a) := D.Register(d, intent, now, f);
    RegisterShape(d, intent, now, f);
    hide R.Register, D.Register, R.Inv, LogsAgree, SessionsLasting, Installed, Conflict, ValidateIntent;
    hide IdsMatchLog, ReplayFits;
    var r, r' := d.registry, d'.registry;
    RegisterEffect(r, intent, now);
    assert Installed(r, r', intent);
    ValidExactly(intent, now);
    InstalledLogsExactly(r, r', d.logs, intent, l.since);
    ReplayStays(d.logs, s, r, l.since);
    var log := LogOf(d.logs, s) + [IntentRegistered(Some(intent))];
    assert LogOf(d'.logs, s) == log;
    InstalledSession(r, r', intent);
    UnfitAfterRegister(r', log, LogOf(d.logs, s), intent, now, l.since);
    assert !Fits(Life(d', l.since), s, now) && Answerable(r', s, now, l.since);
  }

  /** A close that takes an id of another registered session leaves that id in the other session's log. */
  lemma TakingShows(l: Life, s: string, f: Failures)
    requires LifeInv(l) && !SafeStep(l, Served(CallClose(s), f))
    ensures Next(l, Served(CallClose(s), f)).Some? && !Agrees(Next(l, Served(CallClose(s), f)).value)
  {
    var d := l.daemon;
    var r, r', d' := d.registry, R.Deactivate(d.registry, s, Closed).0, D.Close(d, s, f).0;
    CloseShape(d, s, f);
    hide D.Close, R.Inv, SessionsLasting, ReplayFits, StrictlySorted, ReplayAll, Lasting;
    var c :| c in r.sessions[s].cgroupIds && ForeignOwned(r, s, c);
    var t := r.index[c];
    OwnedIsListed(r, t);
    assert Owns(r, t, c) && !Owns(r', t, c) && r'.sessions[t] == r.sessions[t];
    assert LogOf(d'.logs, t) == LogOf(d.logs, t);
    assert LogAgrees(r, t, ReplayAll(LogOf(d.logs, t)), l.since);
    ExpiresLater(r.sessions, t);
    StaleUnfit(r', t, c, LogOf(d.logs, t));
    assert !Fits(Life(d', l.since), t, 0) && Answerable(r', t, 0, l.since);
  }

  lemma ExpiresLater(sessions: map<string, Session>, s: string)
    requires SessionsLasting(sessions) && s in sessions
    ensures sessions[s].intent.expiresAt > 0
  {
    assert SessionLasting(sessions[s]);
  }

  lemma StaleUnfit(r: R.Registry, t: string, c: nat, log: seq<LogRecord>)
    requires t in r.sessions && !Owns(r, t, c) && ReplayAll(log).Some?
    requires var p := ReplayAll(log).value;
      p.intent.Some? && !p.closed && p.intent.value.expiresAt > 0 && c in p.ids
    ensures !ReplayFits(r, t, 0, Replay(log, 0))
  {
    hide ReplayAll;
  }

  lemma InstalledSession(r: R.Registry, r': R.Registry, intent: Intent)
    requires Installed(r, r', intent)
    ensures intent.sessionId in r'.sessions
    ensures var session := r'.sessions[intent.sessionId];
      session.intent == intent && session.status == Active && session.expiresAt == intent.expiresAt
  {
  }

  lemma UnfitAfterRegister(r: R.Registry, log: seq<LogRecord>, before: seq<LogRecord>, intent: Intent, now: nat,
                           since: Option<nat>)
    requires log == before + [IntentRegistered(Some(intent))] && ReplayAll(before).Some?
    requires intent.sessionId in r.sessions && r.sessions[intent.sessionId].intent == intent
    requires r.sessions[intent.sessionId].status == Active && r.sessions[intent.sessionId].expiresAt == intent.expiresAt
    requires intent.expiresAt > now && !LogAgrees(r, intent.sessionId, ReplayAll(log), since)
    ensures !ReplayFits(r, intent.sessionId, now, Replay(log, now))
  {
    ReplaySnoc(before, IntentRegistered(Some(intent)));
    hide ReplayAll;
  }

  // ---------------------------------------------------------------- over whole runs

  /** After every step the daemon is up and its logs agree with what is live. */
  ghost predicate AlwaysAgrees(l: Life, steps: seq<Step>) {
    && Lives(l, steps).Some? && Agrees(Lives(l, steps).value)
    && (steps != [] ==> AlwaysAgrees(l, steps[..|steps| - 1]))
  }

  /** Every registration that goes through meets a log whose unclosed ids are the ones waiting, and no close that goes
      through takes an id of another registered session; both can be looked at before the call. */
  ghost predicate AlwaysSafe(l: Life, steps: seq<Step>) {
    steps != [] ==>
      var before := steps[..|steps| - 1];
      AlwaysSafe(l, before) && (Lives(l, before).Some? ==> SafeStep(Lives(l, before).value, steps[|steps| - 1]))
  }

  /** Restart agreement, exactly: over every run of calls and restarts, with any failures and any reuse of ids, the
      daemon always comes up and replaying a session's log always yields what is live if and only if every registration
      that went through met a log whose unclosed ids were the ones waiting for the session, and no close that went
      through took an id of another registered session. */
  lemma {:induction false} AgreementExactly(maxSessions: nat, maxPending: nat, hasScope: bool, steps: seq<Step>)
    requires Possible(Born(maxSessions, maxPending, hasScope), steps)
    ensures var born := Born(maxSessions, maxPending, hasScope);
      && (AlwaysAgrees(born, steps) <==> AlwaysSafe(born, steps))
      && (AlwaysSafe(born, steps) ==> Lives(born, steps).Some? && LifeInv(Lives(born, steps).value))
    decreases |steps|
  {
    hide LifeInv, Agrees, SafeStep, Allowed, Next;
    var born := Born(maxSessions, maxPending, hasScope);
    if steps == [] {
      FreshInv(maxSessions, maxPending, hasScope);
      BornInv(born);
    } else {
      var before, step := steps[..|steps| - 1], steps[|steps| - 1];
      AgreementExactly(maxSessions, maxPending, hasScope, before);
      if AlwaysSafe(born, before) { AgreementStep(Lives(born, before).value, step); }
    }
  }

  lemma BornInv(born: Life)
    requires DaemonInv(born.daemon, born.since)
    ensures LifeInv(born) && Agrees(born)
  {
    InvAgrees(born);
  }

  lemma AgreementStep(l: Life, step: Step)
    requires LifeInv(l) && Allowed(l, step)
    ensures Next(l, step).Some? && Agrees(Next(l, step).value) <==> SafeStep(l, step)
    ensures SafeStep(l, step) ==> Next(l, step).Some? && LifeInv(Next(l, step).value)
  {
    hide LifeInv, Agrees, SafeStep, Allowed, Next;
    if SafeStep(l, step) {
      StepKeepsInv(l, step);
      InvAgrees(Next(l, step).value);
    } else {
      UnsafeSteps(l, step);
      match step.call
      case CallRegister(intent, now) => MismatchShows(l, intent, now, step.failures);
      case CallClose(s) => TakingShows(l, s, step.failures);
    }
  }

  lemma UnsafeSteps(l: Life, step: Step)
    ensures !SafeStep(l, step) ==> step.Served? && (step.call.CallRegister? || step.call.CallClose?)
  {
  }

  /** Restart agreement, the whole daemon: after any run that meets the condition, rebuilding from all logs in any
      directory order, at any time from the last restart on, never fails and gives the live registry restricted to the
      sessions that are open and not yet expired. */
  lemma RebuildAgreement(maxSessions: nat, maxPending: nat, hasScope: bool, steps: seq<Step>, order: seq<string>,
                         now: nat)
    requires var born := Born(maxSessions, maxPending, hasScope); Possible(born, steps) && AlwaysSafe(born, steps)
    requires var l := Lives(Born(maxSessions, maxPending, hasScope), steps);
      l.Some? ==> Allowed(l.value, Restarted(order, now))
    ensures var l := Lives(Born(maxSessions, maxPending, hasScope), steps);
      && l.Some?
      && var live := l.value.daemon.registry;
         var rebuilt := Rebuild(R.Empty(live.maxSessions, live.maxPending), l.value.daemon.logs, order, now);
         rebuilt.Some? && Rebuilt(live, rebuilt.value, live.sessions.Keys, now)
  {
    AgreementExactly(maxSessions, maxPending, hasScope, steps);
    hide AlwaysSafe, Lives, Possible, DaemonInv;
    var l := Lives(Born(maxSessions, maxPending, hasScope), steps).value;
    RebuildFits(l.daemon, order, now, l.since);
  }

  // ---------------------------------------------------------------- a run on the other side of the condition

  const NO_FAILURES := Failures(None, true)

  /** A session with an id expires, is not brought back by a restart, and is registered anew. */
  function StaleRun(a: Intent, registered: nat, c: nat, restarted: nat, b: Intent, now: nat): seq<Step> {
    [Served(CallRegister(a, registered), NO_FAILURES)]
    + [Served(CallDiscover(a.sessionId, c), NO_FAILURES)]
    + [Restarted([a.sessionId], restarted)]
    + [Served(CallRegister(b, now), NO_FAILURES)]
  }

  /** The daemon that holds one session. */
  function OneSession(hasScope: bool, a: Intent, status: Status, ids: seq<nat>, index: map<nat, string>,
                      log: seq<LogRecord>): Daemon
  {
    var s := a.sessionId;
    Daemon(Registry(2, 2, map[s := Session(a, a.expiresAt, status, ids)], index, map[], 0),
           hasScope, if hasScope then index.Keys else {}, map[s := log], true)
  }

  lemma FirstRegistered(hasScope: bool, a: Intent, now: nat)
    requires ValidateIntent(a, now).None?
    ensures Handle(Fresh(2, 2, hasScope), CallRegister(a, now), NO_FAILURES)
            == (OneSession(hasScope, a, Active, [], map[], [IntentRegistered(Some(a))]), None)
  {
    hide ValidateIntent, Handle, OneSession;
    var none: seq<LogRecord> := [];
    assert none + [IntentRegistered(Some(a))] == [IntentRegistered(Some(a))];
    RegisteredAnew(hasScope, a, now, map[], none);
  }

  lemma OneDiscovered(hasScope: bool, a: Intent, ids: seq<nat>, c: nat, log: seq<LogRecord>)
    requires (ids == [] || ids == [c]) && (hasScope ==> c != 0)
    ensures Handle(OneSession(hasScope, a, Active, ids, map[], log), CallDiscover(a.sessionId, c), NO_FAILURES)
            == (OneSession(hasScope, a, Active, [c], map[c := a.sessionId], log + [CgroupDiscovered(Some(c))]), None)
  {
    var s, d := a.sessionId, OneSession(hasScope, a, Active, ids, map[], log);
    DiscoverOnOne(d.registry, a, ids, c);
    hide R.Discover;
    var none: map<nat, string> := map[];
    assert none.Keys + {c} == none[c := s].Keys;
    assert Append(d.logs, s, CgroupDiscovered(Some(c))) == map[s := log + [CgroupDiscovered(Some(c))]];
  }

  lemma DiscoverOnOne(r: R.Registry, a: Intent, ids: seq<nat>, c: nat)
    requires r == Registry(2, 2, map[a.sessionId := Session(a, a.expiresAt, Active, ids)], map[], map[], 0)
    requires ids == [] || ids == [c]
    ensures var s := a.sessionId;
      R.Discover(r, s, c)
      == (Registry(2, 2, map[s := Session(a, a.expiresAt, Active, [c])], map[c := s], map[], 0), Ok(Attached))
  {
    assert AddId(ids, c) == [c];
    assert R.Discover(r, a.sessionId, c).0.sessions == map[a.sessionId := Session(a, a.expiresAt, Active, [c])];
  }

  /** The start-up leaves an expired session behind, together with its log. */
  lemma ExpiredNotRestored(hasScope: bool, a: Intent, c: nat, log: seq<LogRecord>, now: nat)
    requires log == [IntentRegistered(Some(a))] + [CgroupDiscovered(Some(c))] && a.expiresAt <= now
    ensures D.StartUp(2, 2, hasScope, map[a.sessionId := log], [a.sessionId], now)
            == Some(Daemon(R.Empty(2, 2), hasScope, {}, map[a.sessionId := log], true))
    ensures ReplayAll(log) == Some(Replaying(Some(a), [c], false))
  {
    var none: seq<LogRecord> := [];
    ReplaySnoc(none, IntentRegistered(Some(a)));
    assert none + [IntentRegistered(Some(a))] == [IntentRegistered(Some(a))];
    ReplaySnoc([IntentRegistered(Some(a))], CgroupDiscovered(Some(c)));
    var ids: seq<nat> := [];
    assert ids + [c] == [c];
    hide ReplayAll;
    var logs, order := map[a.sessionId := log], [a.sessionId];
    assert Replay(LogOf(logs, order[0]), now) == Some(None);
    assert order[1..] == [];
    assert Rebuild(R.Empty(2, 2), logs, order[1..], now) == Some(R.Empty(2, 2));
    assert R.Empty(2, 2).index.Keys == {};
  }

  lemma LivesSnoc(l: Life, steps: seq<Step>, step: Step)
    ensures Lives(l, steps + [step]) == if Lives(l, steps).Some? then Next(Lives(l, steps).value, step) else None
    ensures Possible(l, steps + [step]) <==>
      Possible(l, steps) && (Lives(l, steps).Some? ==> Allowed(Lives(l, steps).value, step))
  {
    hide Next, Allowed;
    assert (steps + [step])[..|steps|] == steps;
  }

  lemma SortOne(c: nat)
    ensures SortIds([c]) == [c]
  {
    assert [c][..0] == [] && SortIds([]) == [] && AddId([], c) == [c];
  }

  lemma NoSteps(l: Life)
    ensures Lives(l, []) == Some(l) && Possible(l, [])
  {
  }

  lemma OneSessionParts(hasScope: bool, a: Intent, status: Status, ids: seq<nat>, index: map<nat, string>,
                        log: seq<LogRecord>)
    ensures var d := OneSession(hasScope, a, status, ids, index, log);
      && d.registry.maxSessions == d.registry.maxPending == 2 && d.hasScope == hasScope
      && d.logs == map[a.sessionId := log] && d.registry.index == index
      && d.registry.sessions == map[a.sessionId := Session(a, a.expiresAt, status, ids)]
  {
  }

  /** A registration of a session that at most has a log. */
  lemma RegisteredAnew(hasScope: bool, b: Intent, now: nat, logs: map<string, seq<LogRecord>>, log: seq<LogRecord>)
    requires ValidateIntent(b, now).None? && ((logs == map[] && log == []) || logs == map[b.sessionId := log])
    ensures Handle(Daemon(R.Empty(2, 2), hasScope, {}, logs, true), CallRegister(b, now), NO_FAILURES)
            == (OneSession(hasScope, b, Active, [], map[], log + [IntentRegistered(Some(b))]), None)
  {
    var s, r := b.sessionId, R.Empty(2, 2);
    O.FreshRegister(r, b, now);
    hide ValidateIntent, R.Register;
    assert R.Register(r, b, now).0.sessions == map[s := Session(b, b.expiresAt, Active, [])];
    assert Append(logs, s, IntentRegistered(Some(b))) == map[s := log + [IntentRegistered(Some(b))]];
    assert R.Empty(2, 2).index.Keys == {};
  }

  /** Whatever the two registrations and the id: in that run the daemon comes up and the last registration goes through,
      and then the log gives the session an id which the live session does not own. */
  lemma StaleIdsComeBack(hasScope: bool, a: Intent, registered: nat, c: nat, restarted: nat, b: Intent, now: nat)
    requires ValidateIntent(a, registered).None? && ValidateIntent(b, now).None? && a.sessionId == b.sessionId
    requires a.expiresAt <= restarted && (hasScope ==> c != 0)
    ensures var l := Lives(Born(2, 2, hasScope), StaleRun(a, registered, c, restarted, b, now));
      && Possible(Born(2, 2, hasScope), StaleRun(a, registered, c, restarted, b, now))
      && l.Some?
      && l.value.daemon.registry.sessions == map[a.sessionId := Session(b, b.expiresAt, Active, [])]
      && l.value.daemon.registry.index == map[]
      && Replay(LogOf(l.value.daemon.logs, a.sessionId), now) == Some(Some(Recovered(b, [c])))
  {
    hide ValidateIntent, Lasting, Handle, D.StartUp, ReplayAll, OneSession, Lives, Possible;
    var s, born := a.sessionId, Born(2, 2, hasScope);
    var log1 := [IntentRegistered(Some(a))];
    var log2 := log1 + [CgroupDiscovered(Some(c))];
    var log3 := log2 + [IntentRegistered(Some(b))];
    var step1, step2 := Served(CallRegister(a, registered), NO_FAILURES), Served(CallDiscover(s, c), NO_FAILURES);
    var step3, step4 := Restarted([s], restarted), Served(CallRegister(b, now), NO_FAILURES);
    var d1 := OneSession(hasScope, a, Active, [], map[], log1);
    var d2 := OneSession(hasScope, a, Active, [c], map[c := s], log2);
    FirstRegistered(hasScope, a, registered);
    OneDiscovered(hasScope, a, [], c, log1);
    ExpiredNotRestored(hasScope, a, c, log2, restarted);
    OneSessionParts(hasScope, a, Active, [c], map[c := s], log2);
    OneSessionParts(hasScope, b, Active, [], map[], log3);
    NoSteps(born);
    LivesSnoc(born, [], step1);
    LivesSnoc(born, [step1], step2);
    LivesSnoc(born, [step1] + [step2], step3);
    LivesSnoc(born, [step1] + [step2] + [step3], step4);
    assert [] + [step1] == [step1];
    RegisteredAnew(hasScope, b, now, map[s := log2], log2);
    ReplaySnoc(log2, IntentRegistered(Some(b)));
    SortOne(c);
    ValidExactly(b, now);
    assert ReplayAll(log3) == Some(Replaying(Some(b), [c], false));
    var last := Lives(born, [step1] + [step2] + [step3] + [step4]).value;
    assert LogOf(last.daemon.logs, s) == log3;
  }
}
