/** The code of `SessionRegistry`: fields changed in place, ids attached and removed one at a time, early returns.
    Every method is proved to do to the fields what the functions of module `Registry` do to the value. */
module SessionRegistryCode {
  import opened Common
  import opened Registry
  import R = Registry

  class SessionRegistry {
    var maxSessions: nat
    var maxPending: nat
    var sessions: map<string, Session>
    var cgroupIndex: map<nat, string>
    var pending: map<string, seq<nat>>
    var pendingCount: int

    function Value(): R.Registry
      reads this
    {
      R.Registry.Registry(maxSessions, maxPending, sessions, cgroupIndex, pending, pendingCount)
    }

    constructor (maxSessions: nat, maxPending: nat)
      ensures Value() == Empty(maxSessions, maxPending)
    {
      this.maxSessions, this.maxPending := maxSessions, maxPending;
      sessions, cgroupIndex, pending, pendingCount := map[], map[], map[], 0;
    }

    /** `#[derive(Clone)]`. */
    constructor Clone(source: SessionRegistry)
      ensures Value() == source.Value()
    {
      maxSessions, maxPending := source.maxSessions, source.maxPending;
      sessions, cgroupIndex := source.sessions, source.cgroupIndex;
      pending, pendingCount := source.pending, source.pendingCount;
    }

    method Register(intent: Intent, now: nat) returns (a: Answer<RegisterOutcome>)
      modifies this
      ensures (Value(), a) == R.Register(old(Value()), intent, now)
    {
      var invalid := ValidateIntent(intent, now);
      if invalid.Some? {
        return Err(InvalidIntent(invalid.value));
      }
      a := RegisterChecked(intent);
    }

    method RegisterChecked(intent: Intent) returns (a: Answer<RegisterOutcome>)
      modifies this
      ensures (Value(), a) == RegisterValid(old(Value()), intent)
    {
      hide Admit, AttachAll, RegisterValid, TakePending, PendingOf;
      var s := intent.sessionId;
      ghost var before := Value();
      var outcome := AdmitSession(intent);
      RegisterSteps(before, intent);
      if outcome.Err? {
        return Err(outcome.error);
      }
      ghost var admitted := Value();
      var ids := RemovePending(s);
      PendingTaken(before, admitted, Value(), intent, ids);
      var attached := AttachEach(s, ids);
      return if attached.Err? then Err(attached.error) else outcome;
    }

    method AdmitSession(intent: Intent) returns (a: Answer<RegisterOutcome>)
      modifies this`sessions
      ensures a == if intent.sessionId in old(sessions) then Ok(Replaced)
                   else if |old(sessions)| >= maxSessions then Err(SessionCapacityReached(maxSessions))
                   else Ok(Inserted)
      ensures Value() == if a.Ok? then Admit(old(Value()), intent) else old(Value())
    {
      var s := intent.sessionId;
      if s in sessions {
        sessions := sessions[s := sessions[s].(intent := intent, expiresAt := intent.expiresAt, status := Active)];
        return Ok(Replaced);
      }
      if |sessions| >= maxSessions {
        return Err(SessionCapacityReached(maxSessions));
      }
      sessions := sessions[s := Session(intent, intent.expiresAt, Active, [])];
      return Ok(Inserted);
    }

    /** Takes the ids waiting for a session out of the pending table; no entry is an empty list. */
    method RemovePending(s: string) returns (ids: seq<nat>)
      modifies this`pending, this`pendingCount
      ensures ids == PendingOf(old(Value()), s)
      ensures pending == old(pending) - {s} && pendingCount == old(pendingCount) - |ids|
    {
      if s !in pending {
        assert pending - {s} == pending;
        return [];
      }
      ids := pending[s];
      pending := pending - {s};
      pendingCount := pendingCount - |ids|;
    }

    method AttachEach(s: string, ids: seq<nat>) returns (a: Answer<()>)
      modifies this
      ensures (Value(), a) == AttachAll(old(Value()), s, ids)
    {
      for k := 0 to |ids|
        invariant AttachAll(old(Value()), s, ids) == AttachAll(Value(), s, ids[k..])
      {
        var one := AttachKnownCgroup(s, ids[k]);
        if one.Err? {
          return one;
        }
      }
      return Ok(());
    }

    method AttachKnownCgroup(s: string, c: nat) returns (a: Answer<()>)
      modifies this
      ensures (Value(), a) == Attach(old(Value()), s, c)
    {
      if c in cgroupIndex && cgroupIndex[c] != s {
        return Err(CgroupAlreadyAssigned(c, cgroupIndex[c]));
      }
      if s !in sessions {
        return Err(SessionNotFound(s));
      }
      var state := sessions[s];
      if c !in state.cgroupIds {
        state := state.(cgroupIds := Insert(state.cgroupIds, c));
      }
      sessions := sessions[s := state];
      cgroupIndex := cgroupIndex[c := s];
      return Ok(());
    }

    method Renew(s: string, expiresAt: U64, now: nat) returns (a: Answer<()>)
      modifies this`sessions
      ensures (Value(), a) == R.Renew(old(Value()), s, expiresAt, now)
    {
      if expiresAt <= now {
        return Err(InvalidIntent(IntentExpired));
      }
      if s !in sessions {
        return Err(SessionNotFound(s));
      }
      var state := sessions[s];
      if state.status == Closed {
        return Err(SessionNotActive(s));
      }
      sessions := sessions[s := state.(expiresAt := expiresAt, intent := state.intent.(expiresAt := expiresAt),
                                       status := Active)];
      return Ok(());
    }

    /** The helper behind `close`, `degrade` and `expire`. */
    method Deactivate(s: string, status: Status) returns (a: Answer<Session>)
      modifies this`sessions, this`cgroupIndex
      ensures (Value(), a) == R.Deactivate(old(Value()), s, status)
    {
      if s !in sessions {
        return Err(SessionNotFound(s));
      }
      sessions := sessions[s := sessions[s].(status := status)];
      RemoveFromIndex(sessions[s].cgroupIds);
      return Ok(sessions[s]);
    }

    method RemoveFromIndex(ids: seq<nat>)
      modifies this`cgroupIndex
      ensures cgroupIndex == old(cgroupIndex) - IdSet(ids)
    {
      for k := 0 to |ids|
        invariant cgroupIndex == old(cgroupIndex) - IdSet(ids[..k])
      {
        assert IdSet(ids[..k + 1]) == IdSet(ids[..k]) + {ids[k]};
        cgroupIndex := cgroupIndex - {ids[k]};
      }
      assert ids[..|ids|] == ids;
    }

    method Expire(now: nat) returns (expired: set<string>)
      modifies this`sessions, this`cgroupIndex
      ensures (Value(), expired) == R.Expire(old(Value()), now)
    {
      hide R.Deactivate, R.Expire, EndedSoFar, DueSessions;
      expired := DueSessions(Value(), now);
      var rest := expired;
      ghost var r0 := Value();
      NoneEnded(r0, now);
      assert expired - rest == {};
      while rest != {}
        invariant rest <= expired
        invariant EndedSoFar(r0, Value(), expired - rest)
        decreases rest
      {
        var s :| s in rest;
        ghost var before, done := Value(), expired - rest;
        OneMoreEnded(r0, before, done, s);
        var _ := Deactivate(s, Expired);
        rest := rest - {s};
        assert expired - rest == done + {s};
      }
      assert expired - rest == expired;
      AllEnded(r0, Value(), now);
    }

    method AssociateCgroup(s: string, c: nat) returns (a: Answer<()>)
      modifies this
      ensures (Value(), a) == Associate(old(Value()), s, c)
    {
      if s !in sessions {
        return Err(SessionNotFound(s));
      }
      if sessions[s].status != Active {
        return Err(SessionNotActive(s));
      }
      a := AttachKnownCgroup(s, c);
    }

    method DiscoverCgroup(s: string, c: nat) returns (a: Answer<AssociationOutcome>)
      modifies this
      ensures (Value(), a) == Discover(old(Value()), s, c)
    {
      if s in sessions {
        var attached := AssociateCgroup(s, c);
        return if attached.Err? then Err(attached.error) else Ok(Attached);
      }
      if c in cgroupIndex && cgroupIndex[c] != s {
        return Err(CgroupAlreadyAssigned(c, cgroupIndex[c]));
      }
      if pendingCount >= maxPending {
        return Err(PendingCapacityReached(maxPending));
      }
      var ids := if s in pending then pending[s] else [];
      if c !in ids {
        pending := pending[s := Insert(ids, c)];
        pendingCount := pendingCount + 1;
        cgroupIndex := cgroupIndex[c := s];
      }
      return Ok(MissingIntent);
    }

    method ApplyRetention(tenant: string, now: nat) returns (purged: set<string>)
      modifies this`sessions, this`cgroupIndex
      ensures (Value(), purged) == Purge(old(Value()), tenant, now)
    {
      purged := EligibleSessions(Value(), tenant, now);
      var rest := purged;
      ghost var r0 := Value();
      while rest != {}
        invariant rest <= purged
        invariant sessions == r0.sessions - (purged - rest)
        invariant cgroupIndex == r0.index - IdsOf(r0, purged - rest)
        decreases rest
      {
        var s :| s in rest;
        ghost var done := purged - rest;
        RemoveFromIndex(sessions[s].cgroupIds);
        sessions := sessions - {s};
        rest := rest - {s};
        assert purged - rest == done + {s};
        IdsOfAdd(r0, done, s);
      }
      assert purged - rest == purged;
    }
  }

  /** Exactly these sessions have expired, and the ids they list are out of the index. */
  ghost predicate EndedSoFar(r0: R.Registry, r: R.Registry, done: set<string>) {
    && r == r0.(sessions := r.sessions, index := r0.index - IdsOf(r0, done))
    && r.sessions.Keys == r0.sessions.Keys && done <= r0.sessions.Keys
    && forall s :: s in r.sessions ==>
         r.sessions[s] == if s in done then r0.sessions[s].(status := Expired) else r0.sessions[s]
  }

  lemma NoneEnded(r0: R.Registry, now: nat)
    ensures EndedSoFar(r0, r0, {}) && DueSessions(r0, now) <= r0.sessions.Keys
  {
    assert IdsOf(r0, {}) == {} && r0.index - {} == r0.index;
  }

  lemma OneMoreEnded(r0: R.Registry, r: R.Registry, done: set<string>, s: string)
    requires EndedSoFar(r0, r, done)
    ensures s in r0.sessions ==> EndedSoFar(r0, R.Deactivate(r, s, Expired).0, done + {s})
  {
    if s in r0.sessions {
      IdsOfAdd(r0, done, s);
      hide IdsOf;
      assert r0.index - IdsOf(r0, done) - IdSet(r0.sessions[s].cgroupIds)
          == r0.index - (IdsOf(r0, done) + IdSet(r0.sessions[s].cgroupIds));
    }
  }

  lemma AllEnded(r0: R.Registry, r: R.Registry, now: nat)
    requires EndedSoFar(r0, r, DueSessions(r0, now))
    ensures (r, DueSessions(r0, now)) == R.Expire(r0, now)
  {
    hide IdsOf, DueSessions;
    assert r.sessions == R.Expire(r0, now).0.sessions;
  }

  lemma RegisterSteps(r: R.Registry, intent: Intent)
    ensures var s := intent.sessionId;
      RegisterValid(r, intent) ==
        if s !in r.sessions && |r.sessions| >= r.maxSessions then (r, Err(SessionCapacityReached(r.maxSessions)))
        else
          var (r', a) := AttachAll(TakePending(r, intent), s, PendingOf(r, s));
          (r', if a.Err? then Err(a.error) else Ok(if s in r.sessions then Replaced else Inserted))
  {
    hide AttachAll, TakePending, PendingOf;
  }

  lemma PendingTaken(before: R.Registry, admitted: R.Registry, after: R.Registry, intent: Intent, ids: seq<nat>)
    requires admitted == Admit(before, intent) && ids == PendingOf(admitted, intent.sessionId)
    requires after == admitted.(pending := admitted.pending - {intent.sessionId},
                                pendingCount := admitted.pendingCount - |ids|)
    ensures after == TakePending(before, intent) && ids == PendingOf(before, intent.sessionId)
  {
  }

  lemma IdsOfAdd(r: R.Registry, done: set<string>, s: string)
    requires s in r.sessions
    ensures IdsOf(r, done + {s}) == IdsOf(r, done) + IdSet(r.sessions[s].cgroupIds)
  {
  }
}
