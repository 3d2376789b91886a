/** The code of `DaemonState`: clone, try, command, persist, commit, with the rollback loops, and the start-up loop.
    Every call is proved to do to the fields what the functions of module `Daemon` do to the value. */
module DaemonStateCode {
  import opened Common
  import opened Registry
  import opened SessionRegistryCode
  import opened Daemon
  import D = Daemon

  class DaemonState {
    const hasScope: bool
    var registry: SessionRegistry
    var tracked: set<nat>
    var logs: map<string, seq<LogRecord>>
    var storageWritable: bool

    function Value(): D.Daemon
      reads this, registry
    {
      D.Daemon.Daemon(registry.Value(), hasScope, tracked, logs, storageWritable)
    }

    constructor (maxSessions: nat, maxPending: nat, hasScope: bool)
      ensures Value() == Fresh(maxSessions, maxPending, hasScope)
    {
      this.hasScope := hasScope;
      registry := new SessionRegistry(maxSessions, maxPending);
      tracked, logs, storageWritable := {}, map[], true;
    }

    constructor FromLogs(registry: SessionRegistry, hasScope: bool, tracked: set<nat>,
                         logs: map<string, seq<LogRecord>>)
      ensures Value() == D.Daemon.Daemon(registry.Value(), hasScope, tracked, logs, true)
    {
      this.hasScope, this.registry := hasScope, registry;
      this.tracked, this.logs, storageWritable := tracked, logs, true;
    }

    method Persist(s: string, rec: LogRecord, f: Failures) returns (ok: bool)
      modifies this`logs, this`storageWritable
      ensures (Value(), ok) == D.Persist(old(Value()), s, rec, f)
    {
      if !storageWritable {
        return false;
      }
      if !f.persistOk {
        storageWritable := false;
        return false;
      }
      logs := logs[s := (if s in logs then logs[s] else []) + [rec]];
      return true;
    }

    method Register(intent: Intent, now: nat, f: Failures) returns (a: Outcome<RegisterOutcome>)
      modifies this
      ensures (Value(), a) == D.Register(old(Value()), intent, now, f)
    {
      var candidate := new SessionRegistry.Clone(registry);
      var tried := candidate.Register(intent, now);
      if tried.Err? {
        return Err(RegistryRefused(tried.error));
      }
      var ok := Persist(intent.sessionId, IntentRegistered(Some(intent)), f);
      if !ok {
        return Err(StorageFailed);
      }
      registry := candidate;
      return Ok(tried.value);
    }

    method Renew(s: string, expiresAt: U64, now: nat, f: Failures) returns (a: Outcome<()>)
      modifies this
      ensures (Value(), a) == D.Renew(old(Value()), s, expiresAt, now, f)
    {
      var candidate := new SessionRegistry.Clone(registry);
      var tried := candidate.Renew(s, expiresAt, now);
      if tried.Err? {
        return Err(RegistryRefused(tried.error));
      }
      var ok := Persist(s, IntentRenewed(Some(expiresAt)), f);
      if !ok {
        return Err(StorageFailed);
      }
      registry := candidate;
      return Ok(());
    }

    method Close(s: string, f: Failures) returns (a: Outcome<()>)
      modifies this
      ensures (Value(), a) == D.Close(old(Value()), s, f)
    {
      var candidate := new SessionRegistry.Clone(registry);
      var tried := candidate.Deactivate(s, Closed);
      if tried.Err? {
        return Err(RegistryRefused(tried.error));
      }
      var ids := tried.value.cgroupIds;
      var removed: seq<nat> := [];
      if hasScope {
        removed := UntrackEach(ids, f);
        assert removed == ids[..|removed|];
        if |removed| < |ids| {
          TrackEach(removed);
          return Err(ScopeFailed);
        }
      }
      var ok := Persist(s, SessionClosed, f);
      if !ok {
        if hasScope {
          assert removed == ids;
          TrackEach(removed);
        }
        return Err(StorageFailed);
      }
      registry := candidate;
      return Ok(());
    }

    /** Sends untrack commands until one fails; returns the ids that were removed. */
    method UntrackEach(ids: seq<nat>, f: Failures) returns (removed: seq<nat>)
      modifies this`tracked
      ensures (tracked, |removed|) == UntrackAll(old(tracked), ids, 0, f)
      ensures removed <= ids
    {
      removed := [];
      while |removed| < |ids|
        invariant removed <= ids
        invariant UntrackAll(old(tracked), ids, 0, f) == UntrackAll(tracked, ids, |removed|, f)
      {
        var k := |removed|;
        var next := Untrack(tracked, ids[k]);
        if f.scopeFailsAt == Some(k) || next.None? {
          return;
        }
        tracked := next.value;
        removed := removed + [ids[k]];
      }
    }

    /** Rollback: puts the removed ids back. */
    method TrackEach(ids: seq<nat>)
      modifies this`tracked
      ensures tracked == old(tracked) + IdSet(ids)
    {
      for k := 0 to |ids|
        invariant tracked == old(tracked) + IdSet(ids[..k])
      {
        assert IdSet(ids[..k + 1]) == IdSet(ids[..k]) + {ids[k]};
        tracked := tracked + {ids[k]};
      }
      assert ids[..|ids|] == ids;
    }

    method DiscoverCgroup(s: string, c: nat, f: Failures) returns (a: Outcome<AssociationOutcome>)
      modifies this
      ensures (Value(), a) == D.Discover(old(Value()), s, c, f)
    {
      if c in registry.cgroupIndex && registry.cgroupIndex[c] == s {
        return Ok(if s in registry.sessions then Attached else MissingIntent);
      }
      var candidate := new SessionRegistry.Clone(registry);
      var tried := candidate.DiscoverCgroup(s, c);
      if tried.Err? {
        return Err(RegistryRefused(tried.error));
      }
      if hasScope {
        var next := Track(tracked, c);
        if f.scopeFailsAt == Some(0) || next.None? {
          return Err(ScopeFailed);
        }
        tracked := next.value;
      }
      var ok := Persist(s, CgroupDiscovered(Some(c)), f);
      if !ok {
        if hasScope {
          tracked := tracked - {c};
        }
        return Err(StorageFailed);
      }
      registry := candidate;
      return Ok(tried.value);
    }
  }

  /** `replay_active_session`: one pass over the records, then the sort and the filter. */
  method ReplayActiveSession(records: seq<LogRecord>, now: nat) returns (r: Option<Option<Recovered>>)
    ensures r == Replay(records, now)
  {
    var intent: Option<Intent> := None;
    var ids: seq<nat> := [];
    var closed := false;
    for k := 0 to |records|
      invariant ReplayAll(records[..k]) == Some(Replaying(intent, ids, closed))
    {
      assert records[..k + 1][..k] == records[..k];
      match records[k]
      case IntentRegistered(value) =>
        if closed {
          ids := [];
        }
        if value.None? {
          ReplayFailsFrom(records, k + 1);
          return None;
        }
        intent := value;
        closed := false;
      case IntentRenewed(expiry) =>
        if intent.Some? && expiry.Some? {
          intent := Some(intent.value.(expiresAt := expiry.value));
        }
      case CgroupDiscovered(c) =>
        if c.Some? && c.value !in ids {
          ids := ids + [c.value];
        }
      case SessionClosed =>
        closed := true;
        ids := [];
      case OtherRecord =>
    }
    assert records[..|records|] == records;
    ids := SortIds(ids);
    if intent.Some? && !closed && intent.value.expiresAt > now {
      return Some(Some(Recovered(intent.value, ids)));
    }
    return Some(None);
  }

  /** Once a prefix cannot be replayed the whole log cannot. */
  lemma {:induction false} ReplayFailsFrom(records: seq<LogRecord>, k: nat)
    requires k <= |records| && ReplayAll(records[..k]).None?
    ensures ReplayAll(records).None?
    decreases |records| - k
  {
    if k == |records| {
      assert records[..k] == records;
    } else {
      assert records[..k + 1][..k] == records[..k];
      ReplayFailsFrom(records, k + 1);
    }
  }

  /** The loop of `new_with_scope` over the session directories. */
  method RebuildRegistry(maxSessions: nat, maxPending: nat, logs: map<string, seq<LogRecord>>, order: seq<string>,
                         now: nat)
    returns (ok: bool, registry: SessionRegistry)
    ensures var rebuilt := Rebuild(Empty(maxSessions, maxPending), logs, order, now);
      ok == rebuilt.Some? && (ok ==> registry.Value() == rebuilt.value)
  {
    registry := new SessionRegistry(maxSessions, maxPending);
    ok := true;
    for k := 0 to |order|
      invariant fresh(registry)
      invariant Rebuild(Empty(maxSessions, maxPending), logs, order, now)
             == Rebuild(registry.Value(), logs, order[k..], now)
    {
      var recovered := ReplayActiveSession(LogOf(logs, order[k]), now);
      if recovered.None? {
        return false, registry;
      }
      var restored := RestoreSession(registry, order[k], recovered.value, now);
      if !restored {
        return false, registry;
      }
    }
  }

  /** Start-up as a whole: rebuild, then track every id of the rebuilt index, giving up at the first refusal. */
  method StartUp(maxSessions: nat, maxPending: nat, hasScope: bool, logs: map<string, seq<LogRecord>>,
                 order: seq<string>, now: nat)
    returns (daemon: Option<DaemonState>)
    ensures var started := D.StartUp(maxSessions, maxPending, hasScope, logs, order, now);
      daemon.Some? == started.Some? && (daemon.Some? ==> daemon.value.Value() == started.value)
  {
    var ok, registry := RebuildRegistry(maxSessions, maxPending, logs, order, now);
    if !ok {
      return None;
    }
    var tracked: set<nat> := {};
    if hasScope {
      var rest := registry.cgroupIndex.Keys;
      while rest != {}
        invariant rest <= registry.cgroupIndex.Keys
        invariant tracked == registry.cgroupIndex.Keys - rest && 0 !in tracked
        decreases rest
      {
        var c :| c in rest;
        var next := Track(tracked, c);
        if next.None? {
          return None;
        }
        tracked := next.value;
        rest := rest - {c};
      }
    }
    var state := new DaemonState.FromLogs(registry, hasScope, tracked, logs);
    return Some(state);
  }

  method RestoreSession(registry: SessionRegistry, s: string, recovered: Option<Recovered>, now: nat)
    returns (ok: bool)
    modifies registry
    ensures var r := Restore(old(registry.Value()), s, recovered, now);
      ok == r.Some? && (ok ==> registry.Value() == r.value)
  {
    if recovered.None? {
      return true;
    }
    var a := registry.Register(recovered.value.intent, now);
    if a.Err? {
      return false;
    }
    var ids := recovered.value.ids;
    ghost var r1 := registry.Value();
    for k := 0 to |ids|
      invariant DiscoverAll(r1, s, ids) == DiscoverAll(registry.Value(), s, ids[k..])
    {
      var d := registry.DiscoverCgroup(s, ids[k]);
      if d.Err? {
        return false;
      }
    }
    return true;
  }
}
