/** Runs in which no cgroup id is offered under two session ids. The tables and the logs then hold every id only under
    the session it belongs to, so nothing is ever taken from another session and the kernel set follows the index
    through every restart, whatever the logs still say of sessions that are gone. */
module DaemonHome {
  import opened Common
  import opened Registry
  import R = Registry
  import opened RegistryRuns
  import O = Ownership
  import opened Daemon
  import D = Daemon
  import opened DaemonRuns
  import opened DaemonRestart
  import opened DaemonLives
  import opened DaemonScope

  /** `home` names the one session each id is offered under. */
  ghost predicate OfferedAtHome(steps: seq<Step>, home: nat -> string) {
    forall k :: 0 <= k < |steps| && steps[k].Served? ==> CallAtHome(steps[k].call, home)
  }

  ghost predicate CallAtHome(call: Call, home: nat -> string) {
    call.CallDiscover? ==> home(call.c) == call.s
  }

  ghost predicate RecordAtHome(rec: LogRecord, s: string, home: nat -> string) {
    rec.CgroupDiscovered? && rec.cgroup.Some? ==> home(rec.cgroup.value) == s
  }

  ghost predicate LogAtHome(log: seq<LogRecord>, s: string, home: nat -> string) {
    forall k :: 0 <= k < |log| ==> RecordAtHome(log[k], s, home)
  }

  ghost predicate LogsAtHome(logs: map<string, seq<LogRecord>>, home: nat -> string) {
    forall s :: s in logs ==> LogAtHome(logs[s], s, home)
  }

  ghost predicate HomeInv(d: Daemon, home: nat -> string) {
    R.Inv(d.registry) && AtHome(d.registry, home) && LogsAtHome(d.logs, home)
  }

  // ---------------------------------------------------------------- calls

  function OpOf(call: Call): Op
    requires !call.CallNote?
  {
    match call
    case CallRegister(intent, now) => OpRegister(intent, now)
    case CallRenew(s, expiresAt, now) => OpRenew(s, expiresAt, now)
    case CallClose(s) => OpClose(s)
    case CallDiscover(s, c) => OpDiscover(s, c)
  }

  /** A call commits what the registry answered without refusing, or leaves the registry alone. */
  lemma HandleCommits(d: Daemon, call: Call, f: Failures)
    ensures var r' := Handle(d, call, f).0.registry;
      r' != d.registry ==>
        !call.CallNote? && !Perform(d.registry, OpOf(call)).1.Refused? && r' == Perform(d.registry, OpOf(call)).0
  {
    hide R.Register, R.Renew, R.Deactivate, R.Discover, Append, UntrackAll;
    match call
    case CallRegister(intent, now) => RegisterShape(d, intent, now, f);
    case CallRenew(s, expiresAt, now) =>
      var a := R.Renew(d.registry, s, expiresAt, now).1;
      assert a.Ok? || a.Err?;
    case CallClose(s) =>
      CloseShape(d, s, f);
      var a := R.Deactivate(d.registry, s, Closed).1;
      assert a.Ok? || a.Err?;
    case CallDiscover(s, c) => DiscoverShape(d, s, c, f);
    case CallNote(s) =>
  }

  lemma HandleLogs(d: Daemon, call: Call, f: Failures, home: nat -> string)
    requires LogsAtHome(d.logs, home) && CallAtHome(call, home)
    ensures LogsAtHome(Handle(d, call, f).0.logs, home)
  {
    hide R.Register, R.Renew, R.Deactivate, R.Discover, UntrackAll;
  }

  lemma AtHomePendIndexed(r: R.Registry, home: nat -> string)
    requires AtHome(r, home)
    ensures O.PendIndexed(r)
  {
  }

  lemma PerformAtHome(r: R.Registry, op: Op, home: nat -> string)
    requires R.Inv(r) && AtHome(r, home) && !Perform(r, op).1.Refused? && (O.Offers(op) ==> home(op.c) == op.s)
    ensures R.Inv(Perform(r, op).0) && AtHome(Perform(r, op).0, home)
  {
    AtHomePendIndexed(r, home);
    hide R.Inv, AtHome, O.PendIndexed, Perform;
    PerformKeepsInv(r, op);
    O.PerformKeepsHome(r, op, home);
  }

  lemma HandleAtHome(d: Daemon, call: Call, f: Failures, home: nat -> string)
    requires HomeInv(d, home) && CallAtHome(call, home)
    ensures HomeInv(Handle(d, call, f).0, home)
  {
    hide R.Inv, AtHome, LogsAtHome, Handle, Perform;
    HandleCommits(d, call, f);
    HandleLogs(d, call, f, home);
    if Handle(d, call, f).0.registry != d.registry { PerformAtHome(d.registry, OpOf(call), home); }
  }

  // ---------------------------------------------------------------- restarts

  lemma {:induction false} ReplayAtHome(log: seq<LogRecord>, s: string, home: nat -> string)
    requires LogAtHome(log, s, home)
    ensures var p := ReplayAll(log); p.Some? ==> forall c :: c in p.value.ids ==> home(c) == s
    decreases |log|
  {
    if log != [] {
      ReplayAtHome(log[..|log| - 1], s, home);
      assert RecordAtHome(log[|log| - 1], s, home);
    }
  }

  lemma {:induction false} DiscoverAllAtHome(r: R.Registry, s: string, ids: seq<nat>, home: nat -> string)
    requires R.Inv(r) && AtHome(r, home) && forall c :: c in ids ==> home(c) == s
    ensures var r' := DiscoverAll(r, s, ids); r'.Some? ==> R.Inv(r'.value) && AtHome(r'.value, home)
    decreases |ids|
  {
    hide R.Inv, AtHome, R.Discover;
    if ids != [] && R.Discover(r, s, ids[0]).1.Ok? {
      PerformAtHome(r, OpDiscover(s, ids[0]), home);
      DiscoverAllAtHome(R.Discover(r, s, ids[0]).0, s, ids[1..], home);
    }
  }

  lemma RestoreAtHome(r: R.Registry, s: string, recovered: Option<Recovered>, now: nat, home: nat -> string)
    requires R.Inv(r) && AtHome(r, home)
    requires recovered.Some? ==> forall c :: c in recovered.value.ids ==> home(c) == s
    ensures var r' := Restore(r, s, recovered, now); r'.Some? ==> R.Inv(r'.value) && AtHome(r'.value, home)
  {
    hide R.Inv, AtHome, R.Register, DiscoverAll;
    if recovered.Some? && R.Register(r, recovered.value.intent, now).1.Ok? {
      PerformAtHome(r, OpRegister(recovered.value.intent, now), home);
      DiscoverAllAtHome(R.Register(r, recovered.value.intent, now).0, s, recovered.value.ids, home);
    }
  }

  lemma {:induction false} RebuildAtHome(r: R.Registry, logs: map<string, seq<LogRecord>>, order: seq<string>,
                                         now: nat, home: nat -> string)
    requires R.Inv(r) && AtHome(r, home) && LogsAtHome(logs, home)
    ensures var r' := Rebuild(r, logs, order, now); r'.Some? ==> R.Inv(r'.value) && AtHome(r'.value, home)
    decreases |order|
  {
    hide R.Inv, AtHome, Restore, ReplayAll;
    if order != [] && Rebuild(r, logs, order, now).Some? {
      var s := order[0];
      var recovered := Replay(LogOf(logs, s), now).value;
      ReplayAtHome(LogOf(logs, s), s, home);
      RestoreAtHome(r, s, recovered, now, home);
      RebuildAtHome(Restore(r, s, recovered, now).value, logs, order[1..], now, home);
    }
  }

  lemma NextAtHome(l: Life, step: Step, home: nat -> string)
    requires HomeInv(l.daemon, home) && (step.Served? ==> CallAtHome(step.call, home))
    ensures Next(l, step).Some? ==> HomeInv(Next(l, step).value.daemon, home)
  {
    match step
    case Served(call, f) =>
      hide HomeInv, Handle;
      HandleAtHome(l.daemon, call, f, home);
    case Restarted(order, now) =>
      var empty := R.Empty(l.daemon.registry.maxSessions, l.daemon.registry.maxPending);
      EmptyAtHome(l.daemon.registry.maxSessions, l.daemon.registry.maxPending, home);
      hide R.Inv, AtHome, LogsAtHome, Rebuild;
      RebuildAtHome(empty, l.daemon.logs, order, now, home);
  }

  lemma EmptyAtHome(maxSessions: nat, maxPending: nat, home: nat -> string)
    ensures R.Inv(R.Empty(maxSessions, maxPending)) && AtHome(R.Empty(maxSessions, maxPending), home)
  {
  }

  // ---------------------------------------------------------------- over whole runs

  lemma {:induction false} LivesAtHome(born: Life, steps: seq<Step>, home: nat -> string)
    requires HomeInv(born.daemon, home) && OfferedAtHome(steps, home)
    ensures Lives(born, steps).Some? ==> HomeInv(Lives(born, steps).value.daemon, home)
    decreases |steps|
  {
    hide HomeInv, Next, CallAtHome;
    if steps != [] {
      var before, step := steps[..|steps| - 1], steps[|steps| - 1];
      LivesAtHome(born, before, home);
      if Lives(born, before).Some? { NextAtHome(Lives(born, before).value, step, home); }
    }
  }

  lemma BornAtHome(maxSessions: nat, maxPending: nat, hasScope: bool, home: nat -> string)
    ensures HomeInv(Born(maxSessions, maxPending, hasScope).daemon, home)
  {
    EmptyAtHome(maxSessions, maxPending, home);
  }

  /** No id that waits for a session is missing from the index. */
  lemma AtHomeIndexed(d: Daemon, call: Call, home: nat -> string)
    requires AtHome(d.registry, home)
    ensures WaitingIndexed(d, call)
  {
  }

  lemma {:induction false} AtHomeAlwaysIndexed(born: Life, steps: seq<Step>, home: nat -> string)
    requires HomeInv(born.daemon, home) && OfferedAtHome(steps, home)
    ensures AlwaysIndexed(born, steps)
    decreases |steps|
  {
    hide HomeInv, TakesIndexed, CallAtHome;
    if steps != [] {
      var before, step := steps[..|steps| - 1], steps[|steps| - 1];
      AtHomeAlwaysIndexed(born, before, home);
      LivesAtHome(born, before, home);
      if Lives(born, before).Some? { TakesIndexedAtHome(Lives(born, before).value, step, home); }
    }
  }

  lemma TakesIndexedAtHome(l: Life, step: Step, home: nat -> string)
    requires HomeInv(l.daemon, home)
    ensures TakesIndexed(l, step)
  {
    hide R.Inv, AtHome, LogsAtHome, Handle, WaitingIndexed;
    if step.Served? { AtHomeIndexed(l.daemon, step.call, home); }
  }

  /** Scope saga, the usual case: in every run of calls and restarts with no id offered under two sessions, whatever
      fails and whatever stale ids the logs hold, kernel set and index agree after every step; and as long as the daemon
      comes up, after any further call the kernel tracks exactly the ids of the committed index, and a call that fails
      leaves registry, kernel set and logs as they were. */
  lemma ScopeSaga(maxSessions: nat, maxPending: nat, steps: seq<Step>, home: nat -> string, call: Call, f: Failures)
    requires OfferedAtHome(steps, home)
    ensures AlwaysTracked(Born(maxSessions, maxPending, true), steps)
    ensures AlwaysIndexed(Born(maxSessions, maxPending, true), steps)
    ensures var l := Lives(Born(maxSessions, maxPending, true), steps);
      l.Some? ==>
        var d := l.value.daemon;
        var (d', failure) := Handle(d, call, f);
        && d'.tracked == d'.registry.index.Keys
        && (failure.Some? ==> d'.registry == d.registry && d'.tracked == d.tracked && d'.logs == d.logs)
  {
    var born := Born(maxSessions, maxPending, true);
    BornAtHome(maxSessions, maxPending, true, home);
    AtHomeAlwaysIndexed(born, steps, home);
    ScopeSagaExactly(maxSessions, maxPending, steps);
    LivesAtHome(born, steps, home);
    hide Lives, AlwaysIndexed, AlwaysTracked, Handle, WaitingIndexed, R.Inv, AtHome, LogsAtHome;
    if Lives(born, steps).Some? {
      var d := Lives(born, steps).value.daemon;
      AtHomeIndexed(d, call, home);
      ScopeStep(d, call, f);
    }
  }

  // ---------------------------------------------------------------- the logs

  /** The step is not a registration that goes through although the waiting ids are not those of the log. */
  ghost predicate MatchesLog(l: Life, step: Step) {
    step.Served? && step.call.CallRegister? && Handle(l.daemon, step.call, step.failures).1.None? ==>
      IdsMatchLog(l.daemon.registry, l.daemon.logs, step.call.intent.sessionId)
  }

  ghost predicate AlwaysMatches(l: Life, steps: seq<Step>) {
    steps != [] ==>
      var before := steps[..|steps| - 1];
      AlwaysMatches(l, before) && (Lives(l, before).Some? ==> MatchesLog(Lives(l, before).value, steps[|steps| - 1]))
  }

  lemma SafeAtHome(l: Life, step: Step, home: nat -> string)
    requires HomeInv(l.daemon, home)
    ensures SafeStep(l, step) <==> MatchesLog(l, step)
  {
    hide R.Inv, LogsAtHome, Handle, IdsMatchLog;
  }

  lemma {:induction false} AlwaysSafeAtHome(born: Life, steps: seq<Step>, home: nat -> string)
    requires HomeInv(born.daemon, home) && OfferedAtHome(steps, home)
    ensures AlwaysSafe(born, steps) <==> AlwaysMatches(born, steps)
    decreases |steps|
  {
    hide HomeInv, SafeStep, MatchesLog, CallAtHome;
    if steps != [] {
      var before, step := steps[..|steps| - 1], steps[|steps| - 1];
      AlwaysSafeAtHome(born, before, home);
      LivesAtHome(born, before, home);
      if Lives(born, before).Some? { SafeAtHome(Lives(born, before).value, step, home); }
    }
  }

  /** Restart agreement, the usual case: with no id offered under two sessions, the daemon always comes up and its logs
      always agree with what is live if and only if every registration that went through met a log whose unclosed ids
      were the ones waiting for the session. */
  lemma AgreementAtHome(maxSessions: nat, maxPending: nat, hasScope: bool, steps: seq<Step>, home: nat -> string)
    requires Possible(Born(maxSessions, maxPending, hasScope), steps) && OfferedAtHome(steps, home)
    ensures var born := Born(maxSessions, maxPending, hasScope);
      AlwaysAgrees(born, steps) <==> AlwaysMatches(born, steps)
  {
    BornAtHome(maxSessions, maxPending, hasScope, home);
    AlwaysSafeAtHome(Born(maxSessions, maxPending, hasScope), steps, home);
    AgreementExactly(maxSessions, maxPending, hasScope, steps);
  }

  /** Without a restart every registration matches the log. */
  lemma {:induction false} FirstLifeMatches(maxSessions: nat, maxPending: nat, hasScope: bool, steps: seq<Step>,
                                            home: nat -> string)
    requires OfferedAtHome(steps, home) && forall k :: 0 <= k < |steps| ==> steps[k].Served?
    ensures var born := Born(maxSessions, maxPending, hasScope);
      && Possible(born, steps) && AlwaysMatches(born, steps)
      && Lives(born, steps).Some? && Lives(born, steps).value.since.None?
    decreases |steps|
  {
    if steps != [] {
      hide MatchesLog, LifeInv, Handle, HomeInv;
      var born, before, step := Born(maxSessions, maxPending, hasScope), steps[..|steps| - 1], steps[|steps| - 1];
      FirstLifeMatches(maxSessions, maxPending, hasScope, before, home);
      BornAtHome(maxSessions, maxPending, hasScope, home);
      AlwaysSafeAtHome(born, before, home);
      AgreementExactly(maxSessions, maxPending, hasScope, before);
      MatchesBeforeRestart(Lives(born, before).value, step);
    }
  }

  lemma MatchesBeforeRestart(l: Life, step: Step)
    requires LifeInv(l) && l.since.None?
    ensures MatchesLog(l, step)
  {
    hide DaemonInv, IdsMatchLog;
    if step.Served? && step.call.CallRegister? { MatchInFirstLife(l.daemon, step.call.intent.sessionId); }
  }

  /** Restart agreement in the first life: in a run without restarts and with no id offered under two sessions, with any
      failures, replaying a session's log at any time answers a session exactly when the live one exists, is not closed
      and expires later, with the same intent and exactly the ids the live index maps to it. */
  lemma RestartAgreement(maxSessions: nat, maxPending: nat, hasScope: bool, steps: seq<Step>, home: nat -> string,
                         s: string, now: nat)
    requires OfferedAtHome(steps, home) && forall k :: 0 <= k < |steps| ==> steps[k].Served?
    ensures var l := Lives(Born(maxSessions, maxPending, hasScope), steps); l.Some? && Fits(l.value, s, now)
  {
    var born := Born(maxSessions, maxPending, hasScope);
    hide LifeInv, AlwaysMatches, AlwaysSafe, Fits, Lives, Possible, HomeInv;
    FirstLifeMatches(maxSessions, maxPending, hasScope, steps, home);
    AgreementAtHome(maxSessions, maxPending, hasScope, steps, home);
    var l := Lives(born, steps).value;
    assert AlwaysAgrees(born, steps) && Agrees(l);
    assert Answerable(l.daemon.registry, s, now, l.since);
  }
}
