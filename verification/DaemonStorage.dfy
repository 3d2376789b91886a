/** What a call of the daemon answers, exactly, and storage that fails: from the first write that fails on nothing is
    committed any more, until the daemon is started again. */
module DaemonStorage {
  import opened Common
  import opened Registry
  import R = Registry
  import opened RegistryRuns
  import opened Daemon
  import D = Daemon
  import opened DaemonRuns
  import opened DaemonLives
  import opened DaemonScope
  import opened DaemonHome

  /** A discovery that the index answers already. */
  predicate Known(d: Daemon, call: Call) {
    call.CallDiscover? && call.c in d.registry.index && d.registry.index[call.c] == call.s
  }

  /** What the registry answers when it tries the call. */
  function Refusal(r: R.Registry, call: Call): Option<RegistryError> {
    match call
    case CallRegister(intent, now) => ErrorOf(R.Register(r, intent, now).1)
    case CallRenew(s, expiresAt, now) => ErrorOf(R.Renew(r, s, expiresAt, now).1)
    case CallClose(s) => ErrorOf(R.Deactivate(r, s, Closed).1)
    case CallDiscover(s, c) => ErrorOf(R.Discover(r, s, c).1)
    case CallNote(_) => None
  }

  function ErrorOf<T>(a: Answer<T>): Option<RegistryError> {
    if a.Err? then Some(a.error) else None
  }

  /** Every command of the call to the kernel scope map goes through. */
  ghost predicate ScopePasses(d: Daemon, call: Call, f: Failures) {
    d.hasScope ==>
      match call
      case CallClose(s) =>
        s in d.registry.sessions ==>
          var ids := d.registry.sessions[s].cgroupIds;
          forall k: nat :: k < |ids| ==> ids[k] != 0 && ids[k] in d.tracked && f.scopeFailsAt != Some(k)
      case CallDiscover(_, c) => c != 0 && f.scopeFailsAt != Some(0)
      case _ => true
  }

  /** The call gets as far as writing its record. */
  ghost predicate ChecksPass(d: Daemon, call: Call, f: Failures) {
    !Known(d, call) && Refusal(d.registry, call).None? && ScopePasses(d, call, f)
  }

  lemma {:induction false} UntrackAllExactly(tracked: set<nat>, ids: seq<nat>, k: nat, f: Failures)
    requires k <= |ids| && StrictlySorted(ids)
    ensures UntrackAll(tracked, ids, k, f).1 == |ids| <==>
      forall j: nat :: k <= j < |ids| ==> ids[j] != 0 && ids[j] in tracked && f.scopeFailsAt != Some(j)
    decreases |ids| - k
  {
    if k < |ids| && f.scopeFailsAt != Some(k) && Untrack(tracked, ids[k]).Some? {
      UntrackAllExactly(tracked - {ids[k]}, ids, k + 1, f);
      forall j: nat | k + 1 <= j < |ids| ensures ids[j] in tracked - {ids[k]} <==> ids[j] in tracked {}
    }
  }

  /** What every call answers, exactly: the registry's refusal if there is one, then a failing scope command, then a
      failing or unavailable storage. A call succeeds if and only if it is answered from the index or passes all three;
      and writing stays possible if and only if it was and the call has not met the storage in vain. */
  lemma AnswersExactly(d: Daemon, call: Call, f: Failures)
    requires SessionsWellFormed(d.registry.sessions)
    ensures var (d', failure) := Handle(d, call, f); var refusal := Refusal(d.registry, call);
      && (refusal.Some? && !Known(d, call) ==> failure == Some(RegistryRefused(refusal.value)))
      && (failure == Some(ScopeFailed) <==> !Known(d, call) && refusal.None? && !ScopePasses(d, call, f))
      && (failure == Some(StorageFailed) <==> ChecksPass(d, call, f) && (!d.writable || !f.persistOk))
      && (failure == None <==> Known(d, call) || (ChecksPass(d, call, f) && d.writable && f.persistOk))
      && (d'.writable <==> d.writable && failure != Some(StorageFailed))
      && (!d.writable || failure.Some? ==> d'.registry == d.registry && d'.logs == d.logs)
  {
    hide R.Register, R.Renew, R.Discover, Append, Lasting;
    match call
    case CallClose(s) =>
      if s in d.registry.sessions {
        assert StrictlySorted(d.registry.sessions[s].cgroupIds);
        UntrackAllExactly(d.tracked, d.registry.sessions[s].cgroupIds, 0, f);
      }
    case _ =>
  }

  /** The session whose log a call writes to, and the record it writes. */
  function LogRecordOf(call: Call): (string, LogRecord) {
    match call
    case CallRegister(intent, _) => (intent.sessionId, IntentRegistered(Some(intent)))
    case CallRenew(s, expiresAt, _) => (s, IntentRenewed(Some(expiresAt)))
    case CallClose(s) => (s, SessionClosed)
    case CallDiscover(s, c) => (s, CgroupDiscovered(Some(c)))
    case CallNote(s) => (s, OtherRecord)
  }

  /** A call that succeeds beyond the index commits what the registry makes of it together with exactly one record at
      the end of one log; the other logs stay as they are. */
  lemma CommitsExactly(d: Daemon, call: Call, f: Failures)
    requires Handle(d, call, f).1.None? && !Known(d, call)
    ensures var d', (s, rec) := Handle(d, call, f).0, LogRecordOf(call);
      && s in d'.logs && d'.logs[s] == (if s in d.logs then d.logs[s] else []) + [rec]
      && (forall t :: t != s ==> (t in d'.logs <==> t in d.logs) && (t in d.logs ==> d'.logs[t] == d.logs[t]))
      && d'.registry == if call.CallNote? then d.registry else Perform(d.registry, OpOf(call)).0
  {
    hide R.Register, R.Renew, R.Discover, R.Deactivate, UntrackAll;
    match call
    case CallRegister(intent, now) => RegisterShape(d, intent, now, f);
    case CallClose(s) => CloseShape(d, s, f);
    case CallDiscover(s, c) => DiscoverShape(d, s, c, f);
    case _ =>
  }

  /** What a call that succeeds tells its caller: whether a registration was of a new session, and whether a discovered
      id went to a known one. */
  lemma OutcomesExactly(d: Daemon, intent: Intent, now: nat, s: string, c: nat, f: Failures)
    ensures var a := D.Register(d, intent, now, f).1;
      a.Ok? ==> (a.value == Inserted <==> intent.sessionId !in d.registry.sessions)
    ensures var a := D.Discover(d, s, c, f).1; a.Ok? ==> (a.value == Attached <==> s in d.registry.sessions)
  {
    hide ValidateIntent, AttachAll, TakePending, Attach;
  }

  // ---------------------------------------------------------------- over runs

  /** Since the last start-up some call has met the storage in vain. */
  ghost predicate StorageFailedSince(born: Life, steps: seq<Step>) {
    steps != [] &&
    var before, step := steps[..|steps| - 1], steps[|steps| - 1];
    step.Served? &&
    (StorageFailedSince(born, before) ||
     (Lives(born, before).Some? &&
      Handle(Lives(born, before).value.daemon, step.call, step.failures).1 == Some(StorageFailed)))
  }

  lemma NextWritable(l: Life, step: Step)
    requires Next(l, step).Some?
    ensures step.Restarted? ==> Next(l, step).value.daemon.writable
    ensures step.Served? ==> (Next(l, step).value.daemon.writable <==>
      l.daemon.writable && Handle(l.daemon, step.call, step.failures).1 != Some(StorageFailed))
  {
    hide R.Register, R.Renew, R.Discover, R.Deactivate, Append, UntrackAll, Rebuild;
  }

  /** Writing is possible exactly as long as no call since the last start-up has answered that storage failed; a
      start-up that comes up makes it possible again. */
  lemma {:induction false} WritableExactly(maxSessions: nat, maxPending: nat, hasScope: bool, steps: seq<Step>)
    ensures var born := Born(maxSessions, maxPending, hasScope);
      Lives(born, steps).Some? ==>
        (Lives(born, steps).value.daemon.writable <==> !StorageFailedSince(born, steps))
    decreases |steps|
  {
    hide Handle, Next;
    var born := Born(maxSessions, maxPending, hasScope);
    if steps != [] && Lives(born, steps).Some? {
      var before, step := steps[..|steps| - 1], steps[|steps| - 1];
      WritableExactly(maxSessions, maxPending, hasScope, before);
      NextWritable(Lives(born, before).value, step);
    }
  }

  ghost predicate AllServed(steps: seq<Step>) {
    forall k :: 0 <= k < |steps| ==> steps[k].Served?
  }

  lemma ServedCommitsNothing(l: Life, step: Step)
    requires !l.daemon.writable && step.Served?
    ensures Next(l, step).Some?
    ensures var d := Next(l, step).value.daemon;
      !d.writable && d.registry == l.daemon.registry && d.logs == l.daemon.logs
  {
    hide R.Register, R.Renew, R.Discover, R.Deactivate, Append, UntrackAll;
  }

  /** Nothing was committed since, and the next call commits nothing either: it answers that storage failed exactly when
      its checks and scope commands pass. */
  ghost predicate Stuck(d: Daemon, later: Daemon, next: Call, g: Failures) {
    var (d', failure) := Handle(later, next, g);
    && later.registry == d.registry && later.logs == d.logs && !later.writable
    && d'.registry == d.registry && d'.logs == d.logs
    && (failure == Some(StorageFailed) <==> ChecksPass(later, next, g))
    && (failure == None <==> Known(later, next))
  }

  lemma {:induction false} StorageFailureSticks(l: Life, call: Call, f: Failures, more: seq<Step>, next: Call,
                                                g: Failures)
    requires Handle(l.daemon, call, f).1 == Some(StorageFailed) && AllServed(more)
    requires SessionsWellFormed(l.daemon.registry.sessions)
    ensures var after := Lives(l, [Served(call, f)] + more);
      after.Some? && Stuck(l.daemon, after.value.daemon, next, g)
    decreases |more|
  {
    hide Handle, ChecksPass, Known;
    var steps := [Served(call, f)] + more;
    if more == [] {
      assert steps == [Served(call, f)] && steps[..0] == [] && Lives(l, steps[..0]) == Some(l);
      AnswersExactly(l.daemon, call, f);
    } else {
      var before, step := more[..|more| - 1], more[|more| - 1];
      assert steps[..|steps| - 1] == [Served(call, f)] + before && steps[|steps| - 1] == step;
      StorageFailureSticks(l, call, f, before, next, g);
      ServedCommitsNothing(Lives(l, [Served(call, f)] + before).value, step);
    }
    hide Next, AllServed;
    AnswersExactly(Lives(l, steps).value.daemon, next, g);
  }

  /** Storage failure sticks: once some call of a run has answered that storage failed, then until a restart, whatever
      is called and whatever fails or works again, no call changes the registry or a log, and every call whose checks
      and scope commands pass answers that storage failed. */
  lemma StorageFailureIsFinal(maxSessions: nat, maxPending: nat, hasScope: bool, steps: seq<Step>, call: Call,
                              f: Failures, more: seq<Step>, next: Call, g: Failures)
    requires AllServed(more)
    requires var l := Lives(Born(maxSessions, maxPending, hasScope), steps);
      l.Some? && Handle(l.value.daemon, call, f).1 == Some(StorageFailed)
    ensures var l := Lives(Born(maxSessions, maxPending, hasScope), steps).value;
      var after := Lives(l, [Served(call, f)] + more);
      after.Some? && Stuck(l.daemon, after.value.daemon, next, g)
  {
    LivesKeepInv(maxSessions, maxPending, hasScope, steps);
    hide Lives, Handle, Stuck, AllServed;
    StorageFailureSticks(Lives(Born(maxSessions, maxPending, hasScope), steps).value, call, f, more, next, g);
  }

  /** Over every run from the start the tables stay consistent, whatever is called. */
  lemma {:induction false} LivesKeepInv(maxSessions: nat, maxPending: nat, hasScope: bool, steps: seq<Step>)
    ensures var l := Lives(Born(maxSessions, maxPending, hasScope), steps);
      l.Some? ==> R.Inv(l.value.daemon.registry)
    decreases |steps|
  {
    var born := Born(maxSessions, maxPending, hasScope);
    hide R.Inv, Next;
    if steps == [] {
      NothingHeld(maxSessions, maxPending);
    } else if Lives(born, steps).Some? {
      var before, step := steps[..|steps| - 1], steps[|steps| - 1];
      LivesKeepInv(maxSessions, maxPending, hasScope, before);
      NextKeepsInv(Lives(born, before).value, step);
    }
  }

  lemma NothingHeld(maxSessions: nat, maxPending: nat)
    ensures R.Inv(R.Empty(maxSessions, maxPending))
  {
  }

  lemma NextKeepsInv(l: Life, step: Step)
    requires R.Inv(l.daemon.registry) && Next(l, step).Some?
    ensures R.Inv(Next(l, step).value.daemon.registry)
  {
    hide R.Inv, Handle, Perform, Rebuild;
    match step
    case Served(call, f) =>
      HandleCommits(l.daemon, call, f);
      if !call.CallNote? { PerformKeepsInv(l.daemon.registry, OpOf(call)); }
    case Restarted(order, now) =>
      NothingHeld(l.daemon.registry.maxSessions, l.daemon.registry.maxPending);
      RebuildKeepsInv(R.Empty(l.daemon.registry.maxSessions, l.daemon.registry.maxPending), l.daemon.logs, order, now);
  }
}
