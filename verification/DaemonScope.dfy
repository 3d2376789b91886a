/** The kernel's set of observed cgroups against the committed index, over runs with restarts, any failures and any
    reuse of ids; and exactly when a close goes through. */
module DaemonScope {
  import opened Common
  import opened Registry
  import R = Registry
  import opened RegistryRuns
  import O = Ownership
  import opened Daemon
  import D = Daemon
  import opened DaemonRuns
  import opened DaemonRestart
  import opened DaemonLives

  /** Every id the call would take over from the ids waiting for a session is still in the index. */
  predicate WaitingIndexed(d: Daemon, call: Call) {
    match call
    case CallRegister(intent, _) => forall c :: c in PendingOf(d.registry, intent.sessionId) ==> c in d.registry.index
    case CallDiscover(s, c) => c in PendingOf(d.registry, s) ==> c in d.registry.index
    case _ => true
  }

  lemma RegisterScope(d: Daemon, intent: Intent, now: nat, f: Failures)
    requires R.Inv(d.registry) && ScopeAgrees(d) && d.hasScope
    ensures var (d', a) := D.Register(d, intent, now, f);
      && R.Inv(d'.registry) && (a.Err? ==> Unchanged(d, d')) && d'.hasScope
      && (ScopeAgrees(d') <==> (a.Ok? ==> WaitingIndexed(d, CallRegister(intent, now))))
  {
    hide R.Register, R.Inv, Installed, Conflict, ValidateIntent;
    var r := d.registry;
    var (r', a) := R.Register(r, intent, now);
    RegisterEffect(r, intent, now);
    if a.Ok? {
      assert Installed(r, r', intent);
      InstalledKeepsInv(r, r', intent);
      InstalledKeys(r, r', intent);
      if forall c :: c in PendingOf(r, intent.sessionId) ==> c in r.index {
        assert r'.index.Keys == r.index.Keys;
      }
    }
  }

  lemma InstalledKeys(r: R.Registry, r': R.Registry, intent: Intent)
    requires Installed(r, r', intent)
    ensures forall c :: c in r'.index <==> c in r.index || c in PendingOf(r, intent.sessionId)
  {
  }

  lemma DiscoverScope(d: Daemon, s: string, c: nat, f: Failures)
    requires R.Inv(d.registry) && ScopeAgrees(d) && d.hasScope
    ensures var (d', a) := D.Discover(d, s, c, f);
      && R.Inv(d'.registry) && (a.Err? ==> Unchanged(d, d')) && d'.hasScope
      && (ScopeAgrees(d') <==> (a.Ok? ==> WaitingIndexed(d, CallDiscover(s, c))))
  {
    hide R.Inv;
    DiscoverSaga(d, s, c, f);
    DiscoverKeepsInv(d.registry, s, c);
    PendingUnknown(d.registry, s);
    var r' := R.Discover(d.registry, s, c).0;
    if c !in d.registry.index && R.Discover(d.registry, s, c).1.Ok? {
      DiscoveredKeys(d.registry, s, c);
      hide R.Discover, D.Discover;
      if c !in PendingOf(d.registry, s) { assert r'.index.Keys == d.registry.index.Keys + {c}; }
    }
  }

  lemma PendingUnknown(r: R.Registry, s: string)
    requires R.Inv(r)
    ensures s in r.sessions ==> PendingOf(r, s) == []
  {
  }

  lemma DiscoveredKeys(r: R.Registry, s: string, c: nat)
    requires R.Discover(r, s, c).1.Ok? && (s in r.sessions ==> PendingOf(r, s) == [])
    ensures R.Discover(r, s, c).0.index == if c in PendingOf(r, s) then r.index else r.index[c := s]
  {
  }

  /** One call, whatever fails and whatever ids are offered: the tables stay consistent, a failed call changes nothing,
      and kernel set and index still agree if and only if the call failed or every waiting id it takes over is in the
      index. */
  lemma ScopeStep(d: Daemon, call: Call, f: Failures)
    requires R.Inv(d.registry) && ScopeAgrees(d) && d.hasScope
    ensures var (d', failure) := Handle(d, call, f);
      && R.Inv(d'.registry) && (failure.Some? ==> Unchanged(d, d')) && d'.hasScope
      && (ScopeAgrees(d') <==> (failure.None? ==> WaitingIndexed(d, call)))
  {
    hide R.Inv;
    match call
    case CallRegister(intent, now) => RegisterScope(d, intent, now, f);
    case CallRenew(s, expiresAt, now) =>
      RenewKeepsInv(d.registry, s, expiresAt, now);
      O.RenewKeepsTables(d.registry, s, expiresAt, now);
      hide R.Renew;
    case CallClose(s) =>
      CloseSaga(d, s, f);
      PerformKeepsInv(d.registry, OpClose(s));
      hide D.Close;
    case CallDiscover(s, c) => DiscoverScope(d, s, c, f);
    case CallNote(s) =>
  }

  // ---------------------------------------------------------------- start-up

  lemma {:induction false} DiscoverAllKeepsInv(r: R.Registry, s: string, ids: seq<nat>)
    requires R.Inv(r)
    ensures DiscoverAll(r, s, ids).Some? ==> R.Inv(DiscoverAll(r, s, ids).value)
    decreases |ids|
  {
    hide R.Inv, R.Discover;
    if ids != [] {
      DiscoverKeepsInv(r, s, ids[0]);
      DiscoverAllKeepsInv(R.Discover(r, s, ids[0]).0, s, ids[1..]);
    }
  }

  lemma {:induction false} RebuildKeepsInv(r: R.Registry, logs: map<string, seq<LogRecord>>, order: seq<string>,
                                           now: nat)
    requires R.Inv(r)
    ensures Rebuild(r, logs, order, now).Some? ==> R.Inv(Rebuild(r, logs, order, now).value)
    decreases |order|
  {
    hide R.Inv, Replay, R.Register, DiscoverAll;
    if order != [] && Rebuild(r, logs, order, now).Some? {
      var recovered := Replay(LogOf(logs, order[0]), now).value;
      if recovered.Some? {
        var intent := recovered.value.intent;
        PerformKeepsInv(r, OpRegister(intent, now));
        DiscoverAllKeepsInv(R.Register(r, intent, now).0, order[0], recovered.value.ids);
      }
      RebuildKeepsInv(Restore(r, order[0], recovered, now).value, logs, order[1..], now);
    }
  }

  /** A start-up from any logs, in any order, begins with consistent tables and a kernel set that agrees with them. */
  lemma StartUpAgrees(maxSessions: nat, maxPending: nat, logs: map<string, seq<LogRecord>>, order: seq<string>,
                      now: nat)
    ensures var d := D.StartUp(maxSessions, maxPending, true, logs, order, now);
      d.Some? ==> R.Inv(d.value.registry) && ScopeAgrees(d.value) && d.value.hasScope
  {
    EmptyInv(maxSessions, maxPending);
    hide R.Inv, Rebuild;
    RebuildKeepsInv(R.Empty(maxSessions, maxPending), logs, order, now);
  }

  lemma EmptyInv(maxSessions: nat, maxPending: nat)
    ensures R.Inv(R.Empty(maxSessions, maxPending))
  {
  }

  // ---------------------------------------------------------------- over whole runs

  /** After every step kernel set and index agree. */
  ghost predicate AlwaysTracked(l: Life, steps: seq<Step>) {
    && (Lives(l, steps).Some? ==> ScopeAgrees(Lives(l, steps).value.daemon))
    && (steps != [] ==> AlwaysTracked(l, steps[..|steps| - 1]))
  }

  /** The step is not a call that goes through while a waiting id it takes over is missing from the index. */
  ghost predicate TakesIndexed(l: Life, step: Step) {
    step.Served? && Handle(l.daemon, step.call, step.failures).1.None? ==> WaitingIndexed(l.daemon, step.call)
  }

  ghost predicate AlwaysIndexed(l: Life, steps: seq<Step>) {
    steps != [] ==>
      var before := steps[..|steps| - 1];
      AlwaysIndexed(l, before) && (Lives(l, before).Some? ==> TakesIndexed(Lives(l, before).value, steps[|steps| - 1]))
  }

  lemma NextScope(l: Life, step: Step)
    requires R.Inv(l.daemon.registry) && ScopeAgrees(l.daemon) && l.daemon.hasScope
    ensures Next(l, step).Some? ==>
      var d := Next(l, step).value.daemon;
      R.Inv(d.registry) && d.hasScope && (ScopeAgrees(d) <==> TakesIndexed(l, step))
    ensures step.Served? ==> Next(l, step).Some?
  {
    hide R.Inv, ScopeAgrees, Handle, D.StartUp, WaitingIndexed;
    match step
    case Served(call, f) => ScopeStep(l.daemon, call, f);
    case Restarted(order, now) =>
      StartUpAgrees(l.daemon.registry.maxSessions, l.daemon.registry.maxPending, l.daemon.logs, order, now);
  }

  /** Scope saga, exactly: over every run of calls and restarts, with any failures and any ids, kernel set and index
      agree after every step if and only if no call that went through took over a waiting id that was missing from the
      index. */
  lemma {:induction false} ScopeSagaExactly(maxSessions: nat, maxPending: nat, steps: seq<Step>)
    ensures var born := Born(maxSessions, maxPending, true);
      && (AlwaysTracked(born, steps) <==> AlwaysIndexed(born, steps))
      && (AlwaysIndexed(born, steps) && Lives(born, steps).Some? ==>
            var d := Lives(born, steps).value.daemon; R.Inv(d.registry) && ScopeAgrees(d) && d.hasScope)
    decreases |steps|
  {
    hide R.Inv, ScopeAgrees, Next, TakesIndexed;
    var born := Born(maxSessions, maxPending, true);
    if steps == [] {
      BornAgrees(maxSessions, maxPending);
    } else {
      var before, step := steps[..|steps| - 1], steps[|steps| - 1];
      ScopeSagaExactly(maxSessions, maxPending, before);
      if AlwaysIndexed(born, before) && Lives(born, before).Some? {
        NextScope(Lives(born, before).value, step);
        RestartTakesNothing(Lives(born, before).value, step);
      }
    }
  }

  lemma RestartTakesNothing(l: Life, step: Step)
    ensures step.Restarted? ==> TakesIndexed(l, step)
  {
  }

  lemma BornAgrees(maxSessions: nat, maxPending: nat)
    ensures var d := Born(maxSessions, maxPending, true).daemon; R.Inv(d.registry) && ScopeAgrees(d) && d.hasScope
  {
    EmptyInv(maxSessions, maxPending);
  }

  /** Without a scope controller the kernel set is never touched. */
  lemma {:induction false} NothingTrackedWithoutScope(maxSessions: nat, maxPending: nat, steps: seq<Step>)
    ensures var l := Lives(Born(maxSessions, maxPending, false), steps);
      l.Some? ==> l.value.daemon.tracked == {} && !l.value.daemon.hasScope
    decreases |steps|
  {
    var born := Born(maxSessions, maxPending, false);
    hide Next;
    if steps != [] && Lives(born, steps).Some? {
      var before, step := steps[..|steps| - 1], steps[|steps| - 1];
      NothingTrackedWithoutScope(maxSessions, maxPending, before);
      NextWithoutScope(Lives(born, before).value, step);
    }
  }

  lemma NextWithoutScope(l: Life, step: Step)
    requires l.daemon.tracked == {} && !l.daemon.hasScope && Next(l, step).Some?
    ensures Next(l, step).value.daemon.tracked == {} && !Next(l, step).value.daemon.hasScope
  {
    hide R.Register, R.Renew, R.Discover, R.Deactivate, Append, Rebuild;
  }

  // ---------------------------------------------------------------- when a close goes through

  lemma CloseByTracked(d: Daemon, s: string, f: Failures)
    requires s in d.registry.sessions && StrictlySorted(d.registry.sessions[s].cgroupIds)
    requires ScopeAgrees(d) && d.hasScope && d.writable && f.persistOk && f.scopeFailsAt.None?
    ensures D.Close(d, s, f).1.Ok? <==> forall c :: c in d.registry.sessions[s].cgroupIds ==> c in d.registry.index
  {
    var ids := d.registry.sessions[s].cgroupIds;
    UntrackAllEffect(d.tracked, ids, 0, f);
    assert ids[0..] == ids;
  }

  /** After any run in which kernel set and index agree, and with nothing failing outside, a close succeeds if and only
      if the session exists and every id it lists is in the index; so one that was closed with ids attached and
      registered anew can be closed exactly when all its ids have been discovered again. */
  lemma CloseSucceedsExactly(maxSessions: nat, maxPending: nat, steps: seq<Step>, s: string, f: Failures)
    requires var born := Born(maxSessions, maxPending, true); AlwaysIndexed(born, steps) && Lives(born, steps).Some?
    requires Lives(Born(maxSessions, maxPending, true), steps).value.daemon.writable
    requires f.persistOk && f.scopeFailsAt.None?
    ensures var d := Lives(Born(maxSessions, maxPending, true), steps).value.daemon;
      D.Close(d, s, f).1.Ok? <==>
        s in d.registry.sessions && forall c :: c in d.registry.sessions[s].cgroupIds ==> c in d.registry.index
  {
    ScopeSagaExactly(maxSessions, maxPending, steps);
    hide Lives, AlwaysIndexed, D.Close, ScopeAgrees;
    var d := Lives(Born(maxSessions, maxPending, true), steps).value.daemon;
    if s in d.registry.sessions {
      assert StrictlySorted(d.registry.sessions[s].cgroupIds);
      CloseByTracked(d, s, f);
    } else {
      CloseShape(d, s, f);
    }
  }

  // ---------------------------------------------------------------- runs on the other side of the conditions

  lemma OneClosed(a: Intent, c: nat, log: seq<LogRecord>)
    requires c != 0
    ensures Handle(OneSession(true, a, Active, [c], map[c := a.sessionId], log), CallClose(a.sessionId), NO_FAILURES)
            == (OneSession(true, a, Closed, [c], map[], log + [SessionClosed]), None)
  {
    var s, d := a.sessionId, OneSession(true, a, Active, [c], map[c := a.sessionId], log);
    var one: map<nat, string> := map[c := s];
    assert IdSet([c]) == {c} && one - {c} == map[] && one.Keys - {c} == {};
    assert {c} - {c} == {} && UntrackAll({}, [c], 1, NO_FAILURES) == ({}, 1);
    assert Append(d.logs, s, SessionClosed) == map[s := log + [SessionClosed]];
    assert D.Close(d, s, NO_FAILURES).0.registry.sessions == map[s := Session(a, a.expiresAt, Closed, [c])];
  }

  lemma OneReopened(a: Intent, b: Intent, now: nat, c: nat, log: seq<LogRecord>)
    requires ValidateIntent(b, now).None? && a.sessionId == b.sessionId
    ensures Handle(OneSession(true, a, Closed, [c], map[], log), CallRegister(b, now), NO_FAILURES)
            == (OneSession(true, b, Active, [c], map[], log + [IntentRegistered(Some(b))]), None)
  {
    hide ValidateIntent;
    var s, d := b.sessionId, OneSession(true, a, Closed, [c], map[], log);
    assert d.registry.pending - {s} == d.registry.pending;
    assert R.Register(d.registry, b, now).0.sessions == map[s := Session(b, b.expiresAt, Active, [c])];
    assert Append(d.logs, s, IntentRegistered(Some(b))) == map[s := log + [IntentRegistered(Some(b))]];
  }

  /** A session gets an id, is closed, and is registered anew. */
  function ReopenedRun(a: Intent, registered: nat, c: nat, b: Intent, now: nat): seq<Step> {
    [] + [Served(CallRegister(a, registered), NO_FAILURES)] + [Served(CallDiscover(a.sessionId, c), NO_FAILURES)]
    + [Served(CallClose(a.sessionId), NO_FAILURES)] + [Served(CallRegister(b, now), NO_FAILURES)]
  }

  lemma ReopenedState(a: Intent, registered: nat, c: nat, b: Intent, now: nat) returns (log: seq<LogRecord>)
    requires ValidateIntent(a, registered).None? && ValidateIntent(b, now).None? && a.sessionId == b.sessionId && c != 0
    ensures Lives(Born(2, 2, true), ReopenedRun(a, registered, c, b, now))
            == Some(Life(OneSession(true, b, Active, [c], map[], log), None))
  {
    hide ValidateIntent, Handle, OneSession, Lives, Possible;
    var born, s := Born(2, 2, true), a.sessionId;
    var log1 := [IntentRegistered(Some(a))];
    var log2 := log1 + [CgroupDiscovered(Some(c))];
    var log3 := log2 + [SessionClosed];
    log := log3 + [IntentRegistered(Some(b))];
    FirstRegistered(true, a, registered);
    OneDiscovered(true, a, [], c, log1);
    OneClosed(a, c, log2);
    OneReopened(a, b, now, c, log3);
    var step1, step2 := Served(CallRegister(a, registered), NO_FAILURES), Served(CallDiscover(s, c), NO_FAILURES);
    var step3, step4 := Served(CallClose(s), NO_FAILURES), Served(CallRegister(b, now), NO_FAILURES);
    NoSteps(born);
    LivesSnoc(born, [], step1);
    LivesSnoc(born, [] + [step1], step2);
    LivesSnoc(born, [] + [step1] + [step2], step3);
    LivesSnoc(born, [] + [step1] + [step2] + [step3], step4);
  }

  /** In that run the session cannot be closed again, whatever the failures; once the id is discovered again it can. */
  lemma ReRegisteredCannotClose(a: Intent, registered: nat, c: nat, b: Intent, now: nat, f: Failures)
    requires ValidateIntent(a, registered).None? && ValidateIntent(b, now).None? && a.sessionId == b.sessionId && c != 0
    ensures var l := Lives(Born(2, 2, true), ReopenedRun(a, registered, c, b, now));
      && l.Some?
      && D.Close(l.value.daemon, b.sessionId, f).1 == Err(ScopeFailed)
      && var (again, found) := D.Discover(l.value.daemon, b.sessionId, c, NO_FAILURES);
         found.Ok? && D.Close(again, b.sessionId, NO_FAILURES).1.Ok?
  {
    var log := ReopenedState(a, registered, c, b, now);
    hide Lives;
    OneDiscovered(true, b, [c], c, log);
    OneClosed(b, c, log + [CgroupDiscovered(Some(c))]);
    hide D.Discover, OneSession, D.Close;
    LostIdBlocksClose(b, c, log, f);
  }

  lemma LostIdBlocksClose(b: Intent, c: nat, log: seq<LogRecord>, f: Failures)
    ensures D.Close(OneSession(true, b, Active, [c], map[], log), b.sessionId, f).1 == Err(ScopeFailed)
  {
    assert UntrackAll({}, [c], 0, f) == ({}, 0);
  }

  /** One closed session that still lists `c`, while another session waits for it. */
  function Awaited(a: Intent, s: string, c: nat, index: map<nat, string>, logs: map<string, seq<LogRecord>>): Daemon {
    Daemon(Registry(2, 2, map[a.sessionId := Session(a, a.expiresAt, Closed, [c])], index, map[s := [c]], 1),
           true, index.Keys, logs, true)
  }

  lemma AwaitedByOther(a: Intent, s: string, c: nat, log: seq<LogRecord>)
    requires c != 0 && s != a.sessionId
    ensures Handle(OneSession(true, a, Closed, [c], map[], log), CallDiscover(s, c), NO_FAILURES)
            == (Awaited(a, s, c, map[c := s], map[a.sessionId := log, s := [CgroupDiscovered(Some(c))]]), None)
  {
    var d := OneSession(true, a, Closed, [c], map[], log);
    assert Insert([], c) == [c];
    assert d.registry.pending[s := [c]] == map[s := [c]] && d.registry.index[c := s] == map[c := s];
    var none: seq<LogRecord> := [];
    assert none + [CgroupDiscovered(Some(c))] == [CgroupDiscovered(Some(c))];
    assert Append(d.logs, s, CgroupDiscovered(Some(c))) == map[a.sessionId := log, s := [CgroupDiscovered(Some(c))]];
    assert R.Discover(d.registry, s, c)
        == (Awaited(a, s, c, map[c := s], map[a.sessionId := log]).registry, Ok(MissingIntent));
    hide R.Discover;
    var one: map<nat, string> := map[c := s];
    assert d.tracked == {} && d.tracked + {c} == one.Keys;
  }

  lemma TakenByClose(a: Intent, s: string, c: nat, logs: map<string, seq<LogRecord>>)
    requires c != 0 && s != a.sessionId && a.sessionId in logs
    ensures Handle(Awaited(a, s, c, map[c := s], logs), CallClose(a.sessionId), NO_FAILURES)
            == (Awaited(a, s, c, map[], Append(logs, a.sessionId, SessionClosed)), None)
  {
    var d := Awaited(a, s, c, map[c := s], logs);
    var one: map<nat, string> := map[c := s];
    assert {c} - {c} == {} && UntrackAll({}, [c], 1, NO_FAILURES) == ({}, 1);
    assert one.Keys == {c} && IdSet([c]) == {c} && one - {c} == map[];
    assert D.Close(d, a.sessionId, NO_FAILURES).0.registry.sessions == d.registry.sessions;
    hide Append;
  }

  lemma TakenOver(a: Intent, b: Intent, now: nat, c: nat, logs: map<string, seq<LogRecord>>)
    requires ValidateIntent(b, now).None? && b.sessionId != a.sessionId
    ensures var (d, failure) := Handle(Awaited(a, b.sessionId, c, map[], logs), CallRegister(b, now), NO_FAILURES);
      failure.None? && d.registry.index == map[c := b.sessionId] && d.tracked == {}
  {
    hide ValidateIntent, R.Register;
    var d := Awaited(a, b.sessionId, c, map[], logs);
    RegisterWaiting(d.registry, a, b, now, c);
    var none: map<nat, string> := map[];
    assert none.Keys == {};
  }

  lemma RegisterWaiting(r: R.Registry, a: Intent, b: Intent, now: nat, c: nat)
    requires ValidateIntent(b, now).None? && b.sessionId != a.sessionId
    requires r == Awaited(a, b.sessionId, c, map[], map[]).registry
    ensures R.Register(r, b, now).1.Ok? && R.Register(r, b, now).0.index == map[c := b.sessionId]
  {
    hide ValidateIntent, R.Register;
    assert r.sessions.Keys == {a.sessionId} && |r.sessions| == |r.sessions.Keys|;
    assert PendingOf(r, b.sessionId) == [c];
    RegisterEffect(r, b, now);
    assert R.Register(r, b, now).0.index == map[c := b.sessionId];
  }

  /** A session is closed while it lists an id, another one waits for that id, the first is closed again, and the other
      is registered. */
  function LostRun(a: Intent, registered: nat, c: nat, b: Intent, now: nat): seq<Step> {
    [] + [Served(CallRegister(a, registered), NO_FAILURES)] + [Served(CallDiscover(a.sessionId, c), NO_FAILURES)]
    + [Served(CallClose(a.sessionId), NO_FAILURES)] + [Served(CallDiscover(b.sessionId, c), NO_FAILURES)]
    + [Served(CallClose(a.sessionId), NO_FAILURES)] + [Served(CallRegister(b, now), NO_FAILURES)]
  }

  /** With reuse the two sides can part, although every call of that run goes through: the second close takes the id
      from the session that waits for it, and its registration puts it into the index, where the kernel does not track
      it. */
  lemma ReuseLosesScope(a: Intent, registered: nat, c: nat, b: Intent, now: nat)
    requires ValidateIntent(a, registered).None? && ValidateIntent(b, now).None? && a.sessionId != b.sessionId && c != 0
    ensures var l := Lives(Born(2, 2, true), LostRun(a, registered, c, b, now));
      l.Some? && l.value.daemon.registry.index == map[c := b.sessionId] && l.value.daemon.tracked == {}
  {
    hide ValidateIntent, Handle, OneSession, Awaited, Lives, Possible, Append;
    var born, s := Born(2, 2, true), b.sessionId;
    var log1 := [IntentRegistered(Some(a))];
    var log2 := log1 + [CgroupDiscovered(Some(c))];
    var log3 := log2 + [SessionClosed];
    var logs := map[a.sessionId := log3, s := [CgroupDiscovered(Some(c))]];
    FirstRegistered(true, a, registered);
    OneDiscovered(true, a, [], c, log1);
    OneClosed(a, c, log2);
    AwaitedByOther(a, s, c, log3);
    TakenByClose(a, s, c, logs);
    TakenOver(a, b, now, c, Append(logs, a.sessionId, SessionClosed));
    var step1 := Served(CallRegister(a, registered), NO_FAILURES);
    var step2, step3 := Served(CallDiscover(a.sessionId, c), NO_FAILURES), Served(CallClose(a.sessionId), NO_FAILURES);
    var step4, step6 := Served(CallDiscover(s, c), NO_FAILURES), Served(CallRegister(b, now), NO_FAILURES);
    NoSteps(born);
    LivesSnoc(born, [], step1);
    LivesSnoc(born, [] + [step1], step2);
    LivesSnoc(born, [] + [step1] + [step2], step3);
    LivesSnoc(born, [] + [step1] + [step2] + [step3], step4);
    LivesSnoc(born, [] + [step1] + [step2] + [step3] + [step4], step3);
    LivesSnoc(born, [] + [step1] + [step2] + [step3] + [step4] + [step3], step6);
  }

  /** One closed session that still lists `c`, beside a registered one. */
  function Beside(a: Intent, c: nat, b: Intent, ids: seq<nat>, index: map<nat, string>,
                  logs: map<string, seq<LogRecord>>): Daemon
  {
    var sessions := map[a.sessionId := Session(a, a.expiresAt, Closed, [c]),
                        b.sessionId := Session(b, b.expiresAt, Active, ids)];
    Daemon(Registry(2, 2, sessions, index, map[], 0), true, index.Keys, logs, true)
  }

  lemma RegisteredBeside(a: Intent, c: nat, b: Intent, now: nat, log: seq<LogRecord>)
    requires ValidateIntent(b, now).None? && b.sessionId != a.sessionId
    ensures Handle(OneSession(true, a, Closed, [c], map[], log), CallRegister(b, now), NO_FAILURES)
            == (Beside(a, c, b, [], map[], map[a.sessionId := log, b.sessionId := [IntentRegistered(Some(b))]]), None)
  {
    hide ValidateIntent;
    var d := OneSession(true, a, Closed, [c], map[], log);
    var none: seq<LogRecord> := [];
    assert none + [IntentRegistered(Some(b))] == [IntentRegistered(Some(b))];
    assert d.registry.sessions.Keys == {a.sessionId} && |d.registry.sessions| == |d.registry.sessions.Keys|;
    assert d.registry.pending - {b.sessionId} == map[];
    assert R.Register(d.registry, b, now).0 == Beside(a, c, b, [], map[], map[]).registry;
    hide R.Register;
    assert Append(d.logs, b.sessionId, IntentRegistered(Some(b)))
        == map[a.sessionId := log, b.sessionId := [IntentRegistered(Some(b))]];
  }

  lemma DiscoveredBeside(a: Intent, c: nat, b: Intent, logs: map<string, seq<LogRecord>>)
    requires b.sessionId != a.sessionId && c != 0
    ensures Handle(Beside(a, c, b, [], map[], logs), CallDiscover(b.sessionId, c), NO_FAILURES)
            == (Beside(a, c, b, [c], map[c := b.sessionId], Append(logs, b.sessionId, CgroupDiscovered(Some(c)))), None)
  {
    var d := Beside(a, c, b, [], map[], logs);
    assert AddId([], c) == [c];
    assert R.Discover(d.registry, b.sessionId, c).0 == Beside(a, c, b, [c], map[c := b.sessionId], logs).registry;
    hide R.Discover, Append;
    var one: map<nat, string> := map[c := b.sessionId];
    assert d.tracked == {} && d.tracked + {c} == one.Keys;
  }

  lemma TakenFromActive(a: Intent, c: nat, b: Intent, logs: map<string, seq<LogRecord>>)
    requires b.sessionId != a.sessionId && c != 0
    ensures Handle(Beside(a, c, b, [c], map[c := b.sessionId], logs), CallClose(a.sessionId), NO_FAILURES)
            == (Beside(a, c, b, [c], map[], Append(logs, a.sessionId, SessionClosed)), None)
  {
    var d := Beside(a, c, b, [c], map[c := b.sessionId], logs);
    var one: map<nat, string> := map[c := b.sessionId];
    assert {c} - {c} == {} && UntrackAll({}, [c], 1, NO_FAILURES) == ({}, 1);
    assert one.Keys == {c} && IdSet([c]) == {c} && one - {c} == map[];
    assert D.Close(d, a.sessionId, NO_FAILURES).0.registry.sessions == d.registry.sessions;
    hide Append;
  }

  /** A session is closed while it lists an id, another one is registered and gets that id, and the first is closed
      again. */
  function TakenRun(a: Intent, registered: nat, c: nat, b: Intent, now: nat): seq<Step> {
    [] + [Served(CallRegister(a, registered), NO_FAILURES)] + [Served(CallDiscover(a.sessionId, c), NO_FAILURES)]
    + [Served(CallClose(a.sessionId), NO_FAILURES)] + [Served(CallRegister(b, now), NO_FAILURES)]
    + [Served(CallDiscover(b.sessionId, c), NO_FAILURES)] + [Served(CallClose(a.sessionId), NO_FAILURES)]
  }

  /** The second close takes the id from the session that is registered, and only that session's log still gives it. */
  lemma TakenIdStaysInLog(a: Intent, registered: nat, c: nat, b: Intent, now: nat)
    requires ValidateIntent(a, registered).None? && ValidateIntent(b, now).None? && a.sessionId != b.sessionId && c != 0
    ensures var l := Lives(Born(2, 2, true), TakenRun(a, registered, c, b, now));
      && l.Some? && b.sessionId in l.value.daemon.registry.sessions && l.value.daemon.registry.index == map[]
      && Replay(LogOf(l.value.daemon.logs, b.sessionId), now) == Some(Some(Recovered(b, [c])))
  {
    hide ValidateIntent, Handle, OneSession, Lives, Possible, Lasting;
    var born, s := Born(2, 2, true), b.sessionId;
    var log1 := [IntentRegistered(Some(a))];
    var log2 := log1 + [CgroupDiscovered(Some(c))];
    var log3 := log2 + [SessionClosed];
    var logs4 := map[a.sessionId := log3, s := [IntentRegistered(Some(b))]];
    var logs5 := Append(logs4, s, CgroupDiscovered(Some(c)));
    var logs6 := Append(logs5, a.sessionId, SessionClosed);
    ValidExactly(b, now);
    DiscoveredLogReplays(b, c, now);
    assert LogOf(logs6, s) == [IntentRegistered(Some(b))] + [CgroupDiscovered(Some(c))];
    FirstRegistered(true, a, registered);
    OneDiscovered(true, a, [], c, log1);
    OneClosed(a, c, log2);
    RegisteredBeside(a, c, b, now, log3);
    DiscoveredBeside(a, c, b, logs4);
    TakenFromActive(a, c, b, logs5);
    var step1 := Served(CallRegister(a, registered), NO_FAILURES);
    var step2, step3 := Served(CallDiscover(a.sessionId, c), NO_FAILURES), Served(CallClose(a.sessionId), NO_FAILURES);
    var step4, step5 := Served(CallRegister(b, now), NO_FAILURES), Served(CallDiscover(s, c), NO_FAILURES);
    hide Append, LogOf;
    NoSteps(born);
    LivesSnoc(born, [], step1);
    LivesSnoc(born, [] + [step1], step2);
    LivesSnoc(born, [] + [step1] + [step2], step3);
    LivesSnoc(born, [] + [step1] + [step2] + [step3], step4);
    LivesSnoc(born, [] + [step1] + [step2] + [step3] + [step4], step5);
    LivesSnoc(born, [] + [step1] + [step2] + [step3] + [step4] + [step5], step3);
  }

  lemma DiscoveredLogReplays(b: Intent, c: nat, now: nat)
    requires b.expiresAt > now
    ensures Replay([IntentRegistered(Some(b))] + [CgroupDiscovered(Some(c))], now) == Some(Some(Recovered(b, [c])))
  {
    var none: seq<LogRecord> := [];
    ReplaySnoc(none, IntentRegistered(Some(b)));
    assert none + [IntentRegistered(Some(b))] == [IntentRegistered(Some(b))];
    ReplaySnoc([IntentRegistered(Some(b))], CgroupDiscovered(Some(c)));
    var ids: seq<nat> := [];
    assert ids + [c] == [c];
    SortOne(c);
    hide ReplayAll;
  }
}
