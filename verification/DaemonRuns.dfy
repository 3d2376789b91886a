/** What each call of the daemon keeps: the kernel scope map and the committed index, and the agreement of the session
    logs with what is live. */
module DaemonRuns {
  import opened Common
  import opened Registry
  import R = Registry
  import opened RegistryRuns
  import opened Daemon
  import D = Daemon

  datatype Call =
    | CallRegister(intent: Intent, now: nat)
    | CallRenew(s: string, expiresAt: U64, now: nat)
    | CallClose(s: string)
    | CallDiscover(s: string, c: nat)
    | CallNote(s: string)

  function Handle(d: Daemon, call: Call, f: Failures): (Daemon, Option<DaemonError>) {
    match call
    case CallRegister(intent, now) =>
      var (d', a) := D.Register(d, intent, now, f); (d', if a.Ok? then None else Some(a.error))
    case CallRenew(s, expiresAt, now) =>
      var (d', a) := D.Renew(d, s, expiresAt, now, f); (d', if a.Ok? then None else Some(a.error))
    case CallClose(s) => var (d', a) := D.Close(d, s, f); (d', if a.Ok? then None else Some(a.error))
    case CallDiscover(s, c) => var (d', a) := D.Discover(d, s, c, f); (d', if a.Ok? then None else Some(a.error))
    case CallNote(s) => var (d', a) := D.Note(d, s, f); (d', if a.Ok? then None else Some(a.error))
  }

  // ---------------------------------------------------------------- the scope saga

  /** The kernel tracks exactly the ids of the committed index, and never id 0. */
  ghost predicate ScopeAgrees(d: Daemon) {
    && (d.hasScope ==> d.tracked == d.registry.index.Keys && 0 !in d.tracked)
    && (!d.hasScope ==> d.tracked == {})
  }

  /** What a failed call may change: nothing but the storage flag. */
  ghost predicate Unchanged(d: Daemon, d': Daemon) {
    d' == d.(writable := d'.writable)
  }

  lemma {:induction false} UntrackAllEffect(tracked: set<nat>, ids: seq<nat>, k: nat, f: Failures)
    requires k <= |ids| && StrictlySorted(ids)
    ensures var (t, n) := UntrackAll(tracked, ids, k, f);
      && k <= n && t == tracked - IdSet(ids[k..n]) && IdSet(ids[k..n]) <= tracked
      && (f.scopeFailsAt.None? && 0 !in tracked ==> (n == |ids| <==> IdSet(ids[k..]) <= tracked))
    decreases |ids| - k
  {
    var (t, n) := UntrackAll(tracked, ids, k, f);
    if n == k {
      assert ids[k..n] == [];
      if k < |ids| { assert ids[k] in ids[k..]; }
    } else {
      UntrackAllEffect(tracked - {ids[k]}, ids, k + 1, f);
      assert ids[k..n] == [ids[k]] + ids[k + 1..n];
      assert ids[k..] == [ids[k]] + ids[k + 1..];
      assert IdSet(ids[k..n]) == {ids[k]} + IdSet(ids[k + 1..n]);
      assert IdSet(ids[k..]) == {ids[k]} + IdSet(ids[k + 1..]);
      assert ids[k] !in ids[k + 1..];
    }
  }

  lemma CloseSaga(d: Daemon, s: string, f: Failures)
    requires R.Inv(d.registry) && ScopeAgrees(d)
    ensures var (d', a) := D.Close(d, s, f);
      && ScopeAgrees(d')
      && (a.Err? ==> Unchanged(d, d'))
      && (a.Ok? ==> d' == d.(registry := R.Deactivate(d.registry, s, Closed).0, tracked := d'.tracked,
                             logs := Append(d.logs, s, SessionClosed)))
  {
    if s in d.registry.sessions {
      var ids := d.registry.sessions[s].cgroupIds;
      UntrackAllEffect(d.tracked, ids, 0, f);
      if d.hasScope {
        var (t, n) := UntrackAll(d.tracked, ids, 0, f);
        assert ids[0..n] == ids[..n];
        if n == |ids| { assert ids[..n] == ids; }
      }
    }
  }

  /** A discovery either answers from the index, or commits registry, kernel map and log together, or nothing. */
  lemma DiscoverSaga(d: Daemon, s: string, c: nat, f: Failures)
    requires ScopeAgrees(d)
    ensures var (d', a) := D.Discover(d, s, c, f);
      && (a.Err? ==> Unchanged(d, d'))
      && (a.Ok? && c in d.registry.index ==> d' == d)
      && (a.Ok? && c !in d.registry.index ==>
            && R.Discover(d.registry, s, c).1.Ok?
            && (d.hasScope ==> c != 0)
            && d' == d.(registry := R.Discover(d.registry, s, c).0,
                        tracked := if d.hasScope then d.tracked + {c} else {},
                        logs := Append(d.logs, s, CgroupDiscovered(Some(c)))))
  {
    var (d', a) := D.Discover(d, s, c, f);
    if a.Err? && d.hasScope && c !in d.registry.index {
      assert d.tracked + {c} - {c} == d.tracked;
    }
  }

  // ---------------------------------------------------------------- logs against the live registry

  /** Everything `ValidateIntent` checks except that the expiry is later than a given time. */
  predicate Lasting(intent: Intent) {
    && intent.schemaVersion == 1
    && !Blank(intent.tenantId) && Ident(intent.tenantId, 63)
    && !Blank(intent.sessionId) && Ident(intent.sessionId, 128)
    && !Blank(intent.policyRef)
  }

  lemma ValidExactly(intent: Intent, now: nat)
    ensures ValidateIntent(intent, now).None? <==> Lasting(intent) && intent.expiresAt > now
  {
  }

  ghost predicate SessionsLasting(sessions: map<string, Session>) {
    forall s :: s in sessions ==> SessionLasting(sessions[s])
  }

  predicate SessionLasting(session: Session) {
    Lasting(session.intent) && session.intent.expiresAt > 0 && (session.status == Active || session.status == Closed)
  }

  predicate Owns(r: R.Registry, s: string, c: nat) {
    c in r.index && r.index[c] == s
  }

  /** The replay state of one log says what the live registry says about the session. `since` is the time of the last
      start-up from the logs, if there was one: of a session it did not bring back, and that was not registered since,
      the log only has to say that it is closed or was over by then. Before the first start-up from the logs, the log of
      a session that was never registered says which ids wait for it. */
  ghost predicate LogAgrees(r: R.Registry, s: string, p: Option<Replaying>, since: Option<nat>) {
    && p.Some?
    && if s in r.sessions then
         && p.value.intent == Some(r.sessions[s].intent)
         && p.value.closed == (r.sessions[s].status == Closed)
         && forall c :: c in p.value.ids <==> Owns(r, s, c)
       else if since.Some? then OverBy(p.value, since.value)
       else p.value.intent.None? && !p.value.closed && forall c :: c in p.value.ids <==> c in PendingOf(r, s)
  }

  predicate OverBy(p: Replaying, time: nat) {
    p.intent.Some? && !p.closed ==> p.intent.value.expiresAt <= time
  }

  ghost predicate LogsAgree(r: R.Registry, logs: map<string, seq<LogRecord>>, since: Option<nat>) {
    forall s :: LogAgrees(r, s, ReplayAll(LogOf(logs, s)), since)
  }

  lemma ReplaySnoc(log: seq<LogRecord>, rec: LogRecord)
    ensures ReplayAll(log + [rec]) == if ReplayAll(log).None? then None else ReplayStep(ReplayAll(log).value, rec)
  {
    assert (log + [rec])[..|log|] == log;
  }

  /** Two registries say the same about a session: its intent, whether it is closed and the ids it owns, or, when it is
      not known, the ids waiting for it. */
  ghost predicate SameFor(r: R.Registry, r': R.Registry, t: string) {
    && (t in r'.sessions <==> t in r.sessions)
    && if t !in r.sessions then PendingOf(r', t) == PendingOf(r, t)
       else
         && r'.sessions[t].intent == r.sessions[t].intent
         && r'.sessions[t].status == r.sessions[t].status
         && forall c :: Owns(r', t, c) <==> Owns(r, t, c)
  }

  /** One more record in one log keeps agreement if the registry moved for that session as the record says. */
  lemma AppendAgrees(r: R.Registry, r': R.Registry, logs: map<string, seq<LogRecord>>, s: string, rec: LogRecord,
                     since: Option<nat>)
    requires LogsAgree(r, logs, since)
    requires forall t :: t != s ==> SameFor(r, r', t)
    requires LogAgrees(r, s, ReplayAll(LogOf(logs, s)), since)
             ==> LogAgrees(r', s, ReplayStep(ReplayAll(LogOf(logs, s)).value, rec), since)
    ensures LogsAgree(r', Append(logs, s, rec), since)
  {
    forall t ensures LogAgrees(r', t, ReplayAll(LogOf(Append(logs, s, rec), t)), since) {
      assert LogAgrees(r, t, ReplayAll(LogOf(logs, t)), since);
      ReplayStays(logs, t, r, since);
      hide LogAgrees, LogsAgree, SameFor, ReplayStep, ReplayAll;
      if t == s {
        ReplaySnoc(LogOf(logs, s), rec);
      } else {
        assert LogOf(Append(logs, s, rec), t) == LogOf(logs, t);
        SameAgrees(r, r', t, ReplayAll(LogOf(logs, t)), since);
      }
    }
  }

  lemma SameAgrees(r: R.Registry, r': R.Registry, t: string, p: Option<Replaying>, since: Option<nat>)
    requires SameFor(r, r', t) && LogAgrees(r, t, p, since)
    ensures LogAgrees(r', t, p, since)
  {
  }

  // ---------------------------------------------------------------- the daemon invariant

  /** With a scope controller id 0 is neither in the index nor waiting: it cannot be tracked. */
  ghost predicate ZeroFree(d: Daemon) {
    d.hasScope ==> 0 !in d.registry.index && forall s :: s in d.registry.pending ==> 0 !in d.registry.pending[s]
  }

  ghost predicate DaemonInv(d: Daemon, since: Option<nat>) {
    && R.Inv(d.registry)
    && SessionsLasting(d.registry.sessions)
    && ZeroFree(d)
    && LogsAgree(d.registry, d.logs, since)
  }

  /** What a failed call may change: the storage flag, and what the kernel tracks. */
  ghost predicate NothingCommitted(d: Daemon, d': Daemon) {
    d' == d.(writable := d'.writable, tracked := if d.hasScope then d'.tracked else d.tracked)
  }

  /** The ids a log gives a session that is registered next: those since the last closing. */
  function UnclosedIds(log: seq<LogRecord>): seq<nat> {
    var p := ReplayAll(log);
    if p.Some? && !p.value.closed then p.value.ids else []
  }

  /** For a session that is not known, the ids waiting for it are exactly those its log will give it. */
  ghost predicate IdsMatchLog(r: R.Registry, logs: map<string, seq<LogRecord>>, s: string) {
    s !in r.sessions ==> forall c :: c in PendingOf(r, s) <==> c in UnclosedIds(LogOf(logs, s))
  }

  /** A listed id of the session belongs by now to another registered session. */
  ghost predicate TakesRegistered(r: R.Registry, s: string) {
    s in r.sessions && exists c :: c in r.sessions[s].cgroupIds && ForeignOwned(r, s, c)
  }

  predicate ForeignOwned(r: R.Registry, s: string, c: nat) {
    c in r.index && r.index[c] != s && r.index[c] in r.sessions
  }

  /** A registration that goes through meets a log whose unclosed ids are the ones waiting, and a close that goes
      through takes no id from another registered session. Both can be looked at before the call. */
  ghost predicate SafeCall(d: Daemon, call: Call, f: Failures) {
    Handle(d, call, f).1.None? ==>
      match call
      case CallRegister(intent, _) => IdsMatchLog(d.registry, d.logs, intent.sessionId)
      case CallClose(s) => !TakesRegistered(d.registry, s)
      case _ => true
  }

  // ---------------------------------------------------------------- registrations

  /** An unknown session owns only ids that wait for it. */
  lemma UnknownOwnsPending(r: R.Registry, s: string)
    requires R.Inv(r) && s !in r.sessions
    ensures forall c :: Owns(r, s, c) ==> c in PendingOf(r, s)
  {
    forall c | Owns(r, s, c) ensures c in PendingOf(r, s) { assert Backed(r, c, s); }
  }

  /** Before the first restart the condition on registrations always holds. */
  lemma MatchInFirstLife(d: Daemon, s: string)
    requires DaemonInv(d, None)
    ensures IdsMatchLog(d.registry, d.logs, s)
  {
    assert LogAgrees(d.registry, s, ReplayAll(LogOf(d.logs, s)), None);
  }

  /** A registration is not seen by the other sessions. */
  lemma InstalledSame(r: R.Registry, r': R.Registry, intent: Intent, t: string)
    requires Installed(r, r', intent) && !Conflict(r, intent.sessionId, PendingOf(r, intent.sessionId))
    requires t != intent.sessionId
    ensures SameFor(r, r', t)
  {
    var s := intent.sessionId;
    hide StrictlySorted;
    forall c | Owns(r, t, c) ensures c !in PendingOf(r, s) {}
  }

  /** A registered session owns the ids it owned and those that waited for it. */
  lemma InstalledOwns(r: R.Registry, r': R.Registry, intent: Intent)
    requires Installed(r, r', intent) && r.pending.Keys !! r.sessions.Keys
    ensures var s := intent.sessionId;
      && s in r'.sessions && r'.sessions[s].intent == intent && r'.sessions[s].status == Active
      && (forall c :: Owns(r', s, c) <==> Owns(r, s, c) || c in PendingOf(r, s))
      && (s in r.sessions ==> PendingOf(r, s) == [])
  {
    hide StrictlySorted;
  }

  /** After a registration the log agrees again if and only if the waiting ids were those of the log. */
  lemma InstalledLogsExactly(r: R.Registry, r': R.Registry, logs: map<string, seq<LogRecord>>, intent: Intent,
                             since: Option<nat>)
    requires R.Inv(r) && Installed(r, r', intent) && !Conflict(r, intent.sessionId, PendingOf(r, intent.sessionId))
    requires LogsAgree(r, logs, since)
    ensures var s := intent.sessionId; var log := LogOf(logs, s) + [IntentRegistered(Some(intent))];
      LogAgrees(r', s, ReplayAll(log), since) <==> IdsMatchLog(r, logs, s)
  {
    var s := intent.sessionId;
    ClosedOwnsNothing(r, s);
    if s !in r.sessions { UnknownOwnsPending(r, s); }
    InvParts(r);
    hide R.Inv, Installed, Conflict;
    InstalledOwns(r, r', intent);
    ReplaySnoc(LogOf(logs, s), IntentRegistered(Some(intent)));
    assert LogAgrees(r, s, ReplayAll(LogOf(logs, s)), since);
    hide LogsAgree, IndexBacked;
    RegisteredLog(r, r', intent, ReplayAll(LogOf(logs, s)), since);
    hide LogAgrees, ReplayStep, ReplayAll, PendingOf, Owns;
  }

  lemma RegisteredLog(r: R.Registry, r': R.Registry, intent: Intent, p: Option<Replaying>, since: Option<nat>)
    requires var s := intent.sessionId;
      && s in r'.sessions && r'.sessions[s].intent == intent && r'.sessions[s].status == Active
      && (forall c :: Owns(r', s, c) <==> Owns(r, s, c) || c in PendingOf(r, s))
      && (s in r.sessions ==> PendingOf(r, s) == [])
      && (s in r.sessions && r.sessions[s].status != Active ==> forall c :: !Owns(r, s, c))
      && (s !in r.sessions ==> forall c :: Owns(r, s, c) ==> c in PendingOf(r, s))
    requires LogAgrees(r, intent.sessionId, p, since)
    ensures var s := intent.sessionId; var after := ReplayStep(p.value, IntentRegistered(Some(intent)));
      LogAgrees(r', s, after, since) <==>
        s in r.sessions || forall c :: c in PendingOf(r, s) <==> c in if p.value.closed then [] else p.value.ids
  {
    hide Owns, PendingOf;
  }

  lemma InstalledLogs(r: R.Registry, r': R.Registry, logs: map<string, seq<LogRecord>>, intent: Intent,
                      since: Option<nat>)
    requires R.Inv(r) && Installed(r, r', intent) && !Conflict(r, intent.sessionId, PendingOf(r, intent.sessionId))
    requires LogsAgree(r, logs, since) && IdsMatchLog(r, logs, intent.sessionId)
    ensures LogsAgree(r', Append(logs, intent.sessionId, IntentRegistered(Some(intent))), since)
  {
    hide R.Inv, Installed, Conflict, LogsAgree, LogAgrees, IdsMatchLog, SameFor;
    InstalledLogsExactly(r, r', logs, intent, since);
    ReplayStays(logs, intent.sessionId, r, since);
    ReplaySnoc(LogOf(logs, intent.sessionId), IntentRegistered(Some(intent)));
    forall t ensures t != intent.sessionId ==> SameFor(r, r', t) {
      if t != intent.sessionId { InstalledSame(r, r', intent, t); }
    }
    AppendAgrees(r, r', logs, intent.sessionId, IntentRegistered(Some(intent)), since);
  }

  lemma ReplayStays(logs: map<string, seq<LogRecord>>, s: string, r: R.Registry, since: Option<nat>)
    requires LogsAgree(r, logs, since)
    ensures ReplayAll(LogOf(logs, s)).Some?
  {
    assert LogAgrees(r, s, ReplayAll(LogOf(logs, s)), since);
  }

  lemma InstalledLasting(d: Daemon, d': Daemon, intent: Intent)
    requires SessionsLasting(d.registry.sessions) && ZeroFree(d) && d'.hasScope == d.hasScope
    requires Installed(d.registry, d'.registry, intent) && Lasting(intent) && intent.expiresAt > 0
    ensures SessionsLasting(d'.registry.sessions) && ZeroFree(d')
  {
    hide Lasting, StrictlySorted;
  }

  /** A closed session owns no id. */
  lemma ClosedOwnsNothing(r: R.Registry, s: string)
    requires R.Inv(r)
    ensures s in r.sessions && r.sessions[s].status != Active ==> forall c :: !Owns(r, s, c)
  {
    forall c | Owns(r, s, c) && s in r.sessions ensures r.sessions[s].status == Active {
      assert Backed(r, c, s);
    }
  }

  lemma RegisterShape(d: Daemon, intent: Intent, now: nat, f: Failures)
    ensures var (d', a) := D.Register(d, intent, now, f); var (r', b) := R.Register(d.registry, intent, now);
      && (a.Err? ==> d' == d.(writable := d'.writable))
      && (a.Ok? ==> b.Ok? && d' == d.(registry := r',
                                      logs := Append(d.logs, intent.sessionId, IntentRegistered(Some(intent)))))
  {
    hide R.Register, Append;
    var b := R.Register(d.registry, intent, now).1;
    assert b.Ok? || b.Err?;
  }

  lemma RegisterCall(d: Daemon, intent: Intent, now: nat, f: Failures, since: Option<nat>)
    requires DaemonInv(d, since)
    requires D.Register(d, intent, now, f).1.Ok? ==> IdsMatchLog(d.registry, d.logs, intent.sessionId)
    ensures var (d', a) := D.Register(d, intent, now, f); DaemonInv(d', since) && (a.Err? ==> NothingCommitted(d, d'))
  {
    RegisterShape(d, intent, now, f);
    hide R.Register, D.Register, R.Inv, LogsAgree, SessionsLasting, Lasting, Installed, Conflict, ValidateIntent;
    hide IdsMatchLog, Append;
    var (d', a) := D.Register(d, intent, now, f);
    if a.Ok? {
      var r, r' := d.registry, d'.registry;
      RegisterEffect(r, intent, now);
      assert Installed(r, r', intent);
      ValidExactly(intent, now);
      InstalledKeepsInv(r, r', intent);
      InstalledLogs(r, r', d.logs, intent, since);
      InstalledLasting(d, d', intent);
    }
  }

  // ---------------------------------------------------------------- renewals

  lemma RenewedLogs(r: R.Registry, s: string, expiresAt: U64, now: nat, logs: map<string, seq<LogRecord>>,
                    since: Option<nat>)
    requires LogsAgree(r, logs, since) && R.Renew(r, s, expiresAt, now).1.Ok?
    requires SessionsLasting(r.sessions)
    ensures LogsAgree(R.Renew(r, s, expiresAt, now).0, Append(logs, s, IntentRenewed(Some(expiresAt))), since)
    ensures SessionsLasting(R.Renew(r, s, expiresAt, now).0.sessions)
  {
    var r' := R.Renew(r, s, expiresAt, now).0;
    RenewedOne(r, s, expiresAt, now, ReplayAll(LogOf(logs, s)), since);
    hide R.Renew, SameFor, LogAgrees, LogsAgree, ReplayAll, ReplayStep, SessionsLasting;
    AppendAgrees(r, r', logs, s, IntentRenewed(Some(expiresAt)), since);
  }

  lemma RenewedOne(r: R.Registry, s: string, expiresAt: U64, now: nat, p: Option<Replaying>, since: Option<nat>)
    requires R.Renew(r, s, expiresAt, now).1.Ok? && SessionsLasting(r.sessions)
    ensures var r' := R.Renew(r, s, expiresAt, now).0;
      && SessionsLasting(r'.sessions)
      && (forall t :: t != s ==> SameFor(r, r', t))
      && (LogAgrees(r, s, p, since) ==> LogAgrees(r', s, ReplayStep(p.value, IntentRenewed(Some(expiresAt))), since))
  {
    hide Lasting, Blank, Ident;
    var r' := R.Renew(r, s, expiresAt, now).0;
    forall t, c ensures Owns(r', t, c) <==> Owns(r, t, c) {}
    RenewedLasting(r.sessions[s], expiresAt);
  }

  lemma RenewedLasting(session: Session, expiresAt: U64)
    requires SessionLasting(session) && expiresAt > 0
    ensures SessionLasting(session.(expiresAt := expiresAt, intent := session.intent.(expiresAt := expiresAt),
                                    status := Active))
  {
    hide Blank, Ident;
  }

  lemma RenewCall(d: Daemon, s: string, expiresAt: U64, now: nat, f: Failures, since: Option<nat>)
    requires DaemonInv(d, since)
    ensures var (d', a) := D.Renew(d, s, expiresAt, now, f);
      DaemonInv(d', since) && (a.Err? ==> NothingCommitted(d, d'))
  {
    RenewTables(d.registry, s, expiresAt, now);
    hide R.Renew, R.Inv, LogsAgree, SessionsLasting;
    if D.Renew(d, s, expiresAt, now, f).1.Ok? {
      RenewKeepsInv(d.registry, s, expiresAt, now);
      RenewedLogs(d.registry, s, expiresAt, now, d.logs, since);
    }
  }

  lemma RenewTables(r: R.Registry, s: string, expiresAt: U64, now: nat)
    ensures R.Renew(r, s, expiresAt, now).0.index == r.index && R.Renew(r, s, expiresAt, now).0.pending == r.pending
  {
  }

  // ---------------------------------------------------------------- closes

  lemma ClosedLogs(r: R.Registry, s: string, logs: map<string, seq<LogRecord>>, since: Option<nat>)
    requires R.Inv(r) && LogsAgree(r, logs, since) && s in r.sessions && SessionsLasting(r.sessions)
    requires !TakesRegistered(r, s)
    ensures var r' := R.Deactivate(r, s, Closed).0;
      R.Inv(r') && SessionsLasting(r'.sessions) && LogsAgree(r', Append(logs, s, SessionClosed), since)
  {
    hide R.Inv, LogsAgree, LogAgrees, Lasting, Deactivated, SessionsLasting, TakesRegistered, SameFor;
    EndingEffect(r, OpClose(s));
    ClosedOne(r, s, logs, since);
    hide R.Deactivate;
    var r' := R.Deactivate(r, s, Closed).0;
    DeactivatedKeepsInv(r, r', {s});
    AppendAgrees(r, r', logs, s, SessionClosed, since);
  }

  /** What the other sessions and the log of the closed one see of a close that takes no id of a registered session. */
  lemma ClosedOne(r: R.Registry, s: string, logs: map<string, seq<LogRecord>>, since: Option<nat>)
    requires R.Inv(r) && s in r.sessions && SessionsLasting(r.sessions) && !TakesRegistered(r, s)
    ensures var r' := R.Deactivate(r, s, Closed).0;
      && SessionsLasting(r'.sessions)
      && (forall t :: t != s ==> SameFor(r, r', t))
      && var p := ReplayAll(LogOf(logs, s));
         LogAgrees(r, s, p, since) ==> LogAgrees(r', s, ReplayStep(p.value, SessionClosed), since)
  {
    hide R.Inv, TakesRegistered, SameFor, ReplayAll, SessionsLasting, Owns, R.Deactivate, Lasting;
    OwnedIsListed(r, s);
    ClosedSession(r, s);
    forall t ensures t != s ==> SameFor(r, R.Deactivate(r, s, Closed).0, t) {
      if t != s { ClosedSame(r, s, t); }
    }
  }

  lemma ClosedSession(r: R.Registry, s: string)
    requires s in r.sessions && SessionsLasting(r.sessions)
    requires forall c :: Owns(r, s, c) ==> c in r.sessions[s].cgroupIds
    ensures var r' := R.Deactivate(r, s, Closed).0;
      && SessionsLasting(r'.sessions) && s in r'.sessions && r'.sessions[s] == r.sessions[s].(status := Closed)
      && forall c :: !Owns(r', s, c)
  {
    hide Lasting;
  }

  lemma ClosedSame(r: R.Registry, s: string, t: string)
    requires s in r.sessions && t != s && !TakesRegistered(r, s)
    ensures SameFor(r, R.Deactivate(r, s, Closed).0, t)
  {
    forall c | t in r.sessions ensures Owns(R.Deactivate(r, s, Closed).0, t, c) <==> Owns(r, t, c) {
      if Owns(r, t, c) { assert ForeignOwned(r, s, c); }
    }
  }

  /** A known session lists every id it owns. */
  lemma OwnedIsListed(r: R.Registry, s: string)
    requires R.Inv(r) && s in r.sessions
    ensures forall c :: Owns(r, s, c) ==> c in r.sessions[s].cgroupIds && r.sessions[s].status == Active
  {
    forall c | Owns(r, s, c) ensures c in r.sessions[s].cgroupIds && r.sessions[s].status == Active {
      assert Backed(r, c, s);
    }
  }

  lemma CloseShape(d: Daemon, s: string, f: Failures)
    ensures var (d', a) := D.Close(d, s, f);
      && (a.Err? ==> NothingCommitted(d, d'))
      && (a.Ok? ==> s in d.registry.sessions
                    && d' == d.(registry := R.Deactivate(d.registry, s, Closed).0, tracked := d'.tracked,
                                logs := Append(d.logs, s, SessionClosed)))
  {
    hide Append;
  }

  lemma CloseCall(d: Daemon, s: string, f: Failures, since: Option<nat>)
    requires DaemonInv(d, since) && (D.Close(d, s, f).1.Ok? ==> !TakesRegistered(d.registry, s))
    ensures var (d', a) := D.Close(d, s, f); DaemonInv(d', since) && (a.Err? ==> NothingCommitted(d, d'))
  {
    CloseShape(d, s, f);
    hide R.Inv, LogsAgree, SessionsLasting, D.Close, TakesRegistered;
    if D.Close(d, s, f).1.Ok? { ClosedLogs(d.registry, s, d.logs, since); }
  }

  // ---------------------------------------------------------------- discoveries

  /** What the tables show of a discovery of an id that was not in the index. */
  ghost predicate Discovered(r: R.Registry, r': R.Registry, s: string, c: nat) {
    && r'.sessions.Keys == r.sessions.Keys
    && (forall t :: t in r.sessions ==> r'.sessions[t] == r.sessions[t].(cgroupIds := r'.sessions[t].cgroupIds))
    && r'.index.Keys <= r.index.Keys + {c}
    && (forall t, x :: t != s ==> (Owns(r', t, x) <==> Owns(r, t, x)))
    && (s in r.sessions ==> forall x :: Owns(r', s, x) <==> Owns(r, s, x) || x == c)
    && (s !in r.sessions ==> forall x :: x in PendingOf(r', s) <==> x in PendingOf(r, s) || x == c)
    && r'.pending == if s in r.sessions then r.pending else r.pending[s := PendingOf(r', s)]
  }

  lemma DiscoverIndex(r: R.Registry, s: string, c: nat)
    requires c !in r.index && R.Discover(r, s, c).1.Ok?
    ensures Discovered(r, R.Discover(r, s, c).0, s, c)
  {
    if s in r.sessions { AttachedTables(r, s, c); } else { PendedTables(r, s, c); }
    hide R.Discover;
  }

  lemma AttachedTables(r: R.Registry, s: string, c: nat)
    requires s in r.sessions && R.Discover(r, s, c).1.Ok?
    ensures var r' := R.Discover(r, s, c).0;
      && r' == r.(sessions := r'.sessions, index := r.index[c := s]) && r'.sessions.Keys == r.sessions.Keys
      && (forall t :: t in r.sessions ==> r'.sessions[t] == r.sessions[t].(cgroupIds := r'.sessions[t].cgroupIds))
  {
    hide AddId;
  }

  lemma PendedTables(r: R.Registry, s: string, c: nat)
    requires s !in r.sessions && c !in r.index && R.Discover(r, s, c).1.Ok?
    ensures var r' := R.Discover(r, s, c).0;
      && r'.sessions == r.sessions && r'.index.Keys <= r.index.Keys + {c}
      && (forall t, x :: t != s ==> (Owns(r', t, x) <==> Owns(r, t, x)))
      && (forall x :: x in PendingOf(r', s) <==> x in PendingOf(r, s) || x == c)
      && r'.pending == r.pending[s := PendingOf(r', s)]
  {
    if c in PendingOf(r, s) { assert r.pending == r.pending[s := PendingOf(r, s)]; }
  }

  lemma DiscoveredLogs(r: R.Registry, s: string, c: nat, logs: map<string, seq<LogRecord>>, since: Option<nat>)
    requires LogsAgree(r, logs, since) && c !in r.index && R.Discover(r, s, c).1.Ok?
    ensures LogsAgree(R.Discover(r, s, c).0, Append(logs, s, CgroupDiscovered(Some(c))), since)
  {
    DiscoverIndex(r, s, c);
    hide R.Discover, LogAgrees, SameFor, ReplayStep, Discovered, ReplayAll;
    var r' := R.Discover(r, s, c).0;
    forall t ensures t != s ==> SameFor(r, r', t) { if t != s { DiscoveredSame(r, r', s, c, t); } }
    DiscoveredLog(r, r', s, c, ReplayAll(LogOf(logs, s)), since);
    hide LogsAgree;
    AppendAgrees(r, r', logs, s, CgroupDiscovered(Some(c)), since);
  }

  lemma DiscoveredSame(r: R.Registry, r': R.Registry, s: string, c: nat, t: string)
    requires t != s && Discovered(r, r', s, c)
    ensures SameFor(r, r', t)
  {
  }

  lemma DiscoveredLog(r: R.Registry, r': R.Registry, s: string, c: nat, p: Option<Replaying>, since: Option<nat>)
    requires Discovered(r, r', s, c) && LogAgrees(r, s, p, since)
    ensures LogAgrees(r', s, ReplayStep(p.value, CgroupDiscovered(Some(c))), since)
  {
    hide Owns, PendingOf;
  }

  lemma DiscoveredLasting(d: Daemon, d': Daemon, s: string, c: nat)
    requires SessionsLasting(d.registry.sessions) && ZeroFree(d) && d'.hasScope == d.hasScope
    requires Discovered(d.registry, d'.registry, s, c) && (d.hasScope ==> c != 0)
    ensures SessionsLasting(d'.registry.sessions) && ZeroFree(d')
  {
    var r, r' := d.registry, d'.registry;
    hide Lasting, Owns;
    forall t | t in r'.sessions ensures SessionLasting(r'.sessions[t]) { assert SessionLasting(r.sessions[t]); }
    forall t | d.hasScope && t in r'.pending ensures 0 !in r'.pending[t] {
      if t == s && s !in r.sessions { assert r'.pending[t] == PendingOf(r', s); }
    }
  }

  lemma DiscoverShape(d: Daemon, s: string, c: nat, f: Failures)
    ensures var (d', a) := D.Discover(d, s, c, f);
      && (a.Err? ==> NothingCommitted(d, d'))
      && (a.Ok? && c in d.registry.index ==> d' == d)
      && (a.Ok? && c !in d.registry.index ==>
            && R.Discover(d.registry, s, c).1.Ok?
            && (d.hasScope ==> c != 0)
            && d' == d.(registry := R.Discover(d.registry, s, c).0, tracked := d'.tracked,
                        logs := Append(d.logs, s, CgroupDiscovered(Some(c)))))
  {
    OwnedElsewhere(d.registry, s, c);
    hide R.Discover, Append;
  }

  lemma OwnedElsewhere(r: R.Registry, s: string, c: nat)
    ensures c in r.index && r.index[c] != s ==> R.Discover(r, s, c).1.Err?
  {
  }

  lemma DiscoverCall(d: Daemon, s: string, c: nat, f: Failures, since: Option<nat>)
    requires DaemonInv(d, since)
    ensures var (d', a) := D.Discover(d, s, c, f); DaemonInv(d', since) && (a.Err? ==> NothingCommitted(d, d'))
  {
    DiscoverShape(d, s, c, f);
    hide R.Inv, LogsAgree, SessionsLasting, R.Discover, D.Discover, Append, Discovered;
    if D.Discover(d, s, c, f).1.Ok? && c !in d.registry.index {
      DiscoverKeepsInv(d.registry, s, c);
      DiscoverIndex(d.registry, s, c);
      DiscoveredLogs(d.registry, s, c, d.logs, since);
      DiscoveredLasting(d, D.Discover(d, s, c, f).0, s, c);
    }
  }

  // ---------------------------------------------------------------- any call

  lemma NoteCall(d: Daemon, s: string, f: Failures, since: Option<nat>)
    requires DaemonInv(d, since)
    ensures var (d', a) := D.Note(d, s, f); DaemonInv(d', since) && (a.Err? ==> NothingCommitted(d, d'))
  {
    hide R.Inv, SessionsLasting;
    AppendAgrees(d.registry, d.registry, d.logs, s, OtherRecord, since);
  }

  lemma HandleKeepsInv(d: Daemon, call: Call, f: Failures, since: Option<nat>)
    requires DaemonInv(d, since) && SafeCall(d, call, f)
    ensures var (d', failure) := Handle(d, call, f);
      && DaemonInv(d', since)
      && d'.hasScope == d.hasScope
      && (failure.Some? ==> NothingCommitted(d, d'))
  {
    HandleKeepsScope(d, call, f);
    hide DaemonInv, IdsMatchLog, TakesRegistered;
    match call
    case CallRegister(intent, now) => RegisterCall(d, intent, now, f, since);
    case CallRenew(s, expiresAt, now) => RenewCall(d, s, expiresAt, now, f, since);
    case CallClose(s) => CloseCall(d, s, f, since);
    case CallDiscover(s, c) => DiscoverCall(d, s, c, f, since);
    case CallNote(s) => NoteCall(d, s, f, since);
  }

  lemma HandleKeepsScope(d: Daemon, call: Call, f: Failures)
    ensures Handle(d, call, f).0.hasScope == d.hasScope
  {
    hide R.Register, R.Renew, R.Discover, R.Deactivate;
  }

  lemma FreshInv(maxSessions: nat, maxPending: nat, hasScope: bool)
    ensures DaemonInv(Fresh(maxSessions, maxPending, hasScope), None)
  {
    var d := Fresh(maxSessions, maxPending, hasScope);
    forall s ensures LogAgrees(d.registry, s, ReplayAll(LogOf(d.logs, s)), None) {}
  }
}
