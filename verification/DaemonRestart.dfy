/** Restart: what the logs say is what was live, and rebuilding from them in any directory order gives the live
    registry restricted to the sessions that are open and not expired. */
module DaemonRestart {
  import opened Common
  import opened Registry
  import R = Registry
  import opened RegistryRuns
  import opened Daemon
  import D = Daemon
  import opened DaemonRuns

  ghost predicate Restorable(live: R.Registry, s: string, now: nat) {
    s in live.sessions && live.sessions[s].status != Closed && live.sessions[s].expiresAt > now
  }

  /** What replaying the log of `s` must answer. */
  ghost predicate ReplayFits(live: R.Registry, s: string, now: nat, answer: Option<Option<Recovered>>) {
    && answer.Some?
    && (answer.value.Some? <==> Restorable(live, s, now))
    && (answer.value.Some? ==>
          && answer.value.value.intent == live.sessions[s].intent
          && StrictlySorted(answer.value.value.ids)
          && forall c :: c in answer.value.value.ids <==> Owns(live, s, c))
  }

  /** The log of `s` can be asked about time `now`: not about the time before the last start-up, of a session that
      start-up did not bring back. */
  predicate Answerable(r: R.Registry, s: string, now: nat, since: Option<nat>) {
    s in r.sessions || since.None? || since.value <= now
  }

  lemma ReplayFitsLive(d: Daemon, s: string, now: nat, since: Option<nat>)
    requires DaemonInv(d, since) && Answerable(d.registry, s, now, since)
    ensures ReplayFits(d.registry, s, now, Replay(LogOf(d.logs, s), now))
  {
    assert LogAgrees(d.registry, s, ReplayAll(LogOf(d.logs, s)), since);
    assert s in d.registry.sessions ==> d.registry.sessions[s].expiresAt == d.registry.sessions[s].intent.expiresAt;
  }

  // ---------------------------------------------------------------- rebuilding

  /** `r` is the live registry cut down to the restorable sessions among `done`. */
  ghost predicate Rebuilt(live: R.Registry, r: R.Registry, done: set<string>, now: nat) {
    && r.maxSessions == live.maxSessions && r.maxPending == live.maxPending
    && r.pending == map[] && r.pendingCount == 0
    && (forall s :: s in r.sessions <==> s in done && Restorable(live, s, now))
    && (forall s :: s in r.sessions ==> SessionRebuilt(live, r, s))
    && (forall c :: c in r.index <==> c in live.index && live.index[c] in r.sessions)
    && (forall c :: c in r.index ==> r.index[c] == live.index[c])
  }

  ghost predicate SessionRebuilt(live: R.Registry, r: R.Registry, s: string)
    requires s in r.sessions
  {
    && s in live.sessions
    && r.sessions[s].intent == live.sessions[s].intent
    && r.sessions[s].expiresAt == live.sessions[s].expiresAt
    && r.sessions[s].status == Active
    && StrictlySorted(r.sessions[s].cgroupIds)
    && forall c :: c in r.sessions[s].cgroupIds <==> Owns(live, s, c)
  }

  /** A live session as a restart registers it: active, with no ids yet. */
  function Reborn(live: R.Registry, s: string): Session
    requires s in live.sessions
  {
    Session(live.sessions[s].intent, live.sessions[s].expiresAt, Active, [])
  }

  lemma {:induction false} DiscoverAllIsAttachAll(r: R.Registry, s: string, ids: seq<nat>)
    requires s in r.sessions && r.sessions[s].status == Active
    ensures var (r', a) := AttachAll(r, s, ids); DiscoverAll(r, s, ids) == if a.Ok? then Some(r') else None
    decreases |ids|
  {
    if ids != [] {
      var (r1, a) := Attach(r, s, ids[0]);
      if a.Ok? { DiscoverAllIsAttachAll(r1, s, ids[1..]); }
    }
  }

  lemma RoomForOneMore(live: R.Registry, r: R.Registry, s: string)
    requires r.sessions.Keys <= live.sessions.Keys && s in live.sessions && s !in r.sessions
    requires |live.sessions| <= live.maxSessions
    ensures |r.sessions| < live.maxSessions
  {
    SubsetSize(r.sessions.Keys + {s}, live.sessions.Keys);
    assert |r.sessions.Keys + {s}| == |r.sessions.Keys| + 1;
    assert |r.sessions| == |r.sessions.Keys| && |live.sessions| == |live.sessions.Keys|;
  }

  /** The first half of restoring a session: registering its intent never fails. */
  lemma RegisterRestored(live: R.Registry, r: R.Registry, done: set<string>, intent: Intent, now: nat)
    requires |live.sessions| <= live.maxSessions && SessionsLasting(live.sessions)
    requires Rebuilt(live, r, done, now) && intent.sessionId !in done
    requires Restorable(live, intent.sessionId, now) && intent == live.sessions[intent.sessionId].intent
    requires live.sessions[intent.sessionId].expiresAt == intent.expiresAt
    ensures R.Register(r, intent, now).1.Ok?
    ensures R.Register(r, intent, now).0 ==
            r.(sessions := r.sessions[intent.sessionId := Session(intent, intent.expiresAt, Active, [])])
  {
    var s := intent.sessionId;
    assert Lasting(intent);
    hide Lasting, ValidateIntent, R.Register;
    RoomForOneMore(live, r, s);
    ValidExactly(intent, now);
    RegisterEffect(r, intent, now);
    assert !Conflict(r, s, PendingOf(r, s));
    var r1 := R.Register(r, intent, now).0;
    assert Installed(r, r1, intent);
    FreshlyInstalled(live, r, r1, done, intent, now);
  }

  /** Restoring one more session never fails and adds exactly its part of the live index. */
  lemma RestoreOne(live: R.Registry, r: R.Registry, done: set<string>, s: string, recovered: Option<Recovered>,
                   now: nat)
    requires |live.sessions| <= live.maxSessions && SessionsLasting(live.sessions) && SessionsWellFormed(live.sessions)
    requires Rebuilt(live, r, done, now) && s !in done
    requires ReplayFits(live, s, now, Some(recovered))
    ensures Restore(r, s, recovered, now).Some?
    ensures Rebuilt(live, Restore(r, s, recovered, now).value, done + {s}, now)
  {
    if recovered.None? {
      StillRebuilt(live, r, done, s, now);
    } else {
      var intent, ids := recovered.value.intent, recovered.value.ids;
      assert intent.sessionId == s && intent.expiresAt == live.sessions[s].expiresAt;
      hide SessionsLasting, SessionsWellFormed, Rebuilt, R.Register, DiscoverAll, Restore;
      RegisterRestored(live, r, done, intent, now);
      AttachRestored(live, r, done, s, ids, now);
      RestoreInTwo(r, s, intent, ids, now);
    }
  }

  lemma RestoreInTwo(r: R.Registry, s: string, intent: Intent, ids: seq<nat>, now: nat)
    requires R.Register(r, intent, now).1.Ok?
    ensures Restore(r, s, Some(Recovered(intent, ids)), now) == DiscoverAll(R.Register(r, intent, now).0, s, ids)
  {
    hide R.Register, DiscoverAll;
  }

  lemma StillRebuilt(live: R.Registry, r: R.Registry, done: set<string>, s: string, now: nat)
    requires Rebuilt(live, r, done, now) && !Restorable(live, s, now)
    ensures Rebuilt(live, r, done + {s}, now)
  {
  }

  /** The second half: discovering its ids never fails. */
  lemma AttachRestored(live: R.Registry, r: R.Registry, done: set<string>, s: string, ids: seq<nat>, now: nat)
    requires Rebuilt(live, r, done, now) && s !in done && Restorable(live, s, now)
    requires forall c :: c in ids <==> Owns(live, s, c)
    ensures var r1 := r.(sessions := r.sessions[s := Reborn(live, s)]);
      var r2 := DiscoverAll(r1, s, ids);
      r2.Some? && Rebuilt(live, r2.value, done + {s}, now)
  {
    var r1 := r.(sessions := r.sessions[s := Reborn(live, s)]);
    DiscoverAllIsAttachAll(r1, s, ids);
    AttachAllEffect(r1, s, ids);
    assert !Conflict(r1, s, ids);
    hide Rebuilt;
    AttachedRebuilt(live, r, r1, AttachAll(r1, s, ids).0, done, s, ids, now);
  }

  lemma FirstIsIn(ids: seq<nat>)
    ensures ids == [] || exists c :: c in ids
  {
    assert ids != [] ==> ids[0] in ids;
  }

  lemma FreshlyInstalled(live: R.Registry, r: R.Registry, r1: R.Registry, done: set<string>, intent: Intent, now: nat)
    requires Rebuilt(live, r, done, now) && Installed(r, r1, intent) && intent.sessionId !in r.sessions
    ensures r1 == r.(sessions := r.sessions[intent.sessionId := Session(intent, intent.expiresAt, Active, [])])
  {
    var s := intent.sessionId;
    var got := r1.sessions[s].cgroupIds;
    FirstIsIn(got);
    assert r1.sessions == r.sessions[s := Session(intent, intent.expiresAt, Active, [])];
    assert r1.index == r.index;
    assert r.pending - {s} == r.pending;
  }

  lemma AttachedRebuilt(live: R.Registry, r: R.Registry, r1: R.Registry, r2: R.Registry, done: set<string>,
                        s: string, ids: seq<nat>, now: nat)
    requires Rebuilt(live, r, done, now) && s !in done && Restorable(live, s, now)
    requires r1 == r.(sessions := r.sessions[s := Reborn(live, s)])
    requires OnlySessionAndIndexDiffer(r1, r2, s) && AllAttached(r1, r2, s, ids)
    requires forall c :: c in ids <==> Owns(live, s, c)
    ensures Rebuilt(live, r2, done + {s}, now)
  {
    hide SessionRebuilt, OnlySessionAndIndexDiffer, AllAttached, Owns;
    SessionsStillRebuilt(live, r, r1, r2, done, s, ids, now);
    IndexStillRebuilt(live, r, r1, r2, s, ids);
  }

  lemma SessionsStillRebuilt(live: R.Registry, r: R.Registry, r1: R.Registry, r2: R.Registry, done: set<string>,
                             s: string, ids: seq<nat>, now: nat)
    requires (forall t :: t in r.sessions ==> SessionRebuilt(live, r, t)) && s in live.sessions
    requires r1 == r.(sessions := r.sessions[s := Reborn(live, s)])
    requires OnlySessionAndIndexDiffer(r1, r2, s) && AllAttached(r1, r2, s, ids)
    requires forall c :: c in ids <==> Owns(live, s, c)
    ensures forall t :: t in r2.sessions ==> SessionRebuilt(live, r2, t)
    ensures r2 == r.(sessions := r2.sessions, index := r2.index)
    ensures r2.sessions.Keys == r.sessions.Keys + {s}
  {
    forall t | t in r2.sessions ensures SessionRebuilt(live, r2, t) {
      if t != s { assert SessionRebuilt(live, r, t); }
    }
  }

  lemma IndexStillRebuilt(live: R.Registry, r: R.Registry, r1: R.Registry, r2: R.Registry, s: string, ids: seq<nat>)
    requires (forall c :: c in r.index <==> c in live.index && live.index[c] in r.sessions)
          && (forall c :: c in r.index ==> r.index[c] == live.index[c])
    requires r1.index == r.index && s in r1.sessions && s in r2.sessions && r2.sessions.Keys == r.sessions.Keys + {s}
    requires AllAttached(r1, r2, s, ids)
    requires forall c :: c in ids <==> Owns(live, s, c)
    ensures forall c :: c in r2.index <==> c in live.index && live.index[c] in r2.sessions
    ensures forall c :: c in r2.index ==> r2.index[c] == live.index[c]
  {
  }

  lemma {:induction false} RebuildRest(d: Daemon, r: R.Registry, order: seq<string>, done: set<string>, now: nat,
                                       since: Option<nat>)
    requires DaemonInv(d, since) && Rebuilt(d.registry, r, done, now) && (since.Some? ==> since.value <= now)
    requires forall k :: 0 <= k < |order| ==> order[k] !in done
    requires forall i, j :: 0 <= i < j < |order| ==> order[i] != order[j]
    ensures Rebuild(r, d.logs, order, now).Some?
    ensures Rebuilt(d.registry, Rebuild(r, d.logs, order, now).value, done + IdSetOf(order), now)
    decreases |order|
  {
    hide DaemonInv, Rebuilt, ReplayFits, Replay, Restore, SessionsLasting, SessionsWellFormed;
    if order == [] {
      assert done + IdSetOf(order) == done;
    } else {
      var s := order[0];
      ReplayFitsLive(d, s, now, since);
      DaemonParts(d, since);
      var recovered := Replay(LogOf(d.logs, s), now);
      assert ReplayFits(d.registry, s, now, recovered);
      FitsSome(d.registry, s, now, recovered);
      RestoreOne(d.registry, r, done, s, recovered.value, now);
      var r1 := Restore(r, s, recovered.value, now).value;
      RebuildRest(d, r1, order[1..], done + {s}, now, since);
      assert order == [s] + order[1..];
      assert done + {s} + IdSetOf(order[1..]) == done + IdSetOf(order);
    }
  }

  lemma FitsSome(live: R.Registry, s: string, now: nat, answer: Option<Option<Recovered>>)
    requires ReplayFits(live, s, now, answer)
    ensures answer.Some?
  {
  }

  lemma DaemonParts(d: Daemon, since: Option<nat>)
    requires DaemonInv(d, since)
    ensures |d.registry.sessions| <= d.registry.maxSessions
    ensures SessionsLasting(d.registry.sessions) && SessionsWellFormed(d.registry.sessions)
  {
  }

  function IdSetOf(order: seq<string>): set<string> {
    set s | s in order
  }

  /** A session without a log is not live. */
  lemma UnloggedNotLive(d: Daemon, s: string, since: Option<nat>)
    requires DaemonInv(d, since) && s !in d.logs
    ensures s !in d.registry.sessions
  {
    assert LogAgrees(d.registry, s, ReplayAll(LogOf(d.logs, s)), since);
  }

  /** A listing of the session directories: every log once, in any order, and whatever other names there are. */
  ghost predicate Listing(order: seq<string>, logs: map<string, seq<LogRecord>>) {
    (forall s :: s in logs ==> s in order) && forall i, j :: 0 <= i < j < |order| ==> order[i] != order[j]
  }

  /** Rebuilding from all logs in any directory order never fails and gives the live registry restricted to the sessions
      that are open and not yet expired. */
  lemma RebuildFits(d: Daemon, order: seq<string>, now: nat, since: Option<nat>)
    requires DaemonInv(d, since) && Listing(order, d.logs) && (since.Some? ==> since.value <= now)
    ensures var rebuilt := Rebuild(R.Empty(d.registry.maxSessions, d.registry.maxPending), d.logs, order, now);
      && rebuilt.Some?
      && Rebuilt(d.registry, rebuilt.value, d.registry.sessions.Keys, now)
  {
    hide DaemonInv;
    RebuildRest(d, R.Empty(d.registry.maxSessions, d.registry.maxPending), order, {}, now, since);
    forall s | s in d.registry.sessions ensures s in IdSetOf(order) {
      if s !in d.logs { UnloggedNotLive(d, s, since); }
    }
  }
}
