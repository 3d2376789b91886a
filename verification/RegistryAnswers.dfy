/** What the registry answers, case by case and in the order of its checks, and how long it keeps a session: every
    condition is spelled out here again, against the source's own words and numbers. */
module RegistryAnswers {
  import opened Common
  import opened Registry
  import opened RegistryRuns

  // ---------------------------------------------------------------- intents

  /** At most so many ASCII letters, digits, dots, underscores and hyphens. */
  predicate Identifier(s: string, longest: nat) {
    |s| <= longest && forall i :: 0 <= i < |s| ==>
      var n := s[i] as int;
      48 <= n <= 57 || 65 <= n <= 90 || 97 <= n <= 122 || n == 46 || n == 95 || n == 45
  }

  lemma {:induction false} TrimEndKeepsFirst(s: string)
    requires s != "" && !IsSpace(s[0])
    ensures TrimEnd(s) != ""
    decreases |s|
  {
    if |s| > 1 && IsSpace(s[|s| - 1]) { TrimEndKeepsFirst(s[..|s| - 1]); }
  }

  lemma {:induction false} BlankIsTrimmed(s: string)
    ensures Blank(s) <==> Trim(s) == ""
    decreases |s|
  {
    hide IsSpace;
    if s != "" {
      if IsSpace(s[0]) {
        BlankIsTrimmed(s[1..]);
        assert Blank(s) <==> Blank(s[1..]) by {
          assert s == [s[0]] + s[1..];
        }
      } else {
        TrimEndKeepsFirst(s);
      }
    }
  }

  lemma IdentifierIsIdent(s: string, longest: nat)
    ensures Ident(s, longest) <==> Identifier(s, longest)
  {
    if Identifier(s, longest) {
      forall i | 0 <= i < |s| ensures IdentChar(s[i]) {}
    }
    if Ident(s, longest) {
      forall i | 0 <= i < |s| ensures
        var n := s[i] as int; 48 <= n <= 57 || 65 <= n <= 90 || 97 <= n <= 122 || n == 46 || n == 95 || n == 45
      {
        assert IdentChar(s[i]);
      }
    }
  }

  /** Tenant and session are named as they may be. */
  ghost predicate WellNamed(intent: Intent) {
    && Trim(intent.tenantId) != "" && Identifier(intent.tenantId, 63)
    && Trim(intent.sessionId) != "" && Identifier(intent.sessionId, 128)
  }

  /** The first check that fails decides, and an intent that passes them all is valid. */
  lemma ValidateIntentExactly(intent: Intent, now: nat)
    ensures var v, tenant, session := ValidateIntent(intent, now), intent.tenantId, intent.sessionId;
      && (v == Some(UnsupportedSchemaVersion(intent.schemaVersion)) <==> intent.schemaVersion != 1)
      && (v == Some(EmptyTenantId) <==> intent.schemaVersion == 1 && Trim(tenant) == "")
      && (v == Some(InvalidTenantId) <==>
            intent.schemaVersion == 1 && Trim(tenant) != "" && !Identifier(tenant, 63))
      && (v == Some(EmptySessionId) <==>
            intent.schemaVersion == 1 && Trim(tenant) != "" && Identifier(tenant, 63) && Trim(session) == "")
      && (v == Some(InvalidSessionId) <==>
            && intent.schemaVersion == 1 && Trim(tenant) != "" && Identifier(tenant, 63)
            && Trim(session) != "" && !Identifier(session, 128))
      && (v == Some(IntentExpired) <==> intent.schemaVersion == 1 && WellNamed(intent) && intent.expiresAt <= now)
      && (v == Some(EmptyPolicyRef) <==>
            && intent.schemaVersion == 1 && WellNamed(intent) && intent.expiresAt > now
            && Trim(intent.policyRef) == "")
      && (v == None <==>
            && intent.schemaVersion == 1 && WellNamed(intent) && intent.expiresAt > now
            && Trim(intent.policyRef) != "")
  {
    BlankIsTrimmed(intent.tenantId);
    BlankIsTrimmed(intent.sessionId);
    BlankIsTrimmed(intent.policyRef);
    IdentifierIsIdent(intent.tenantId, 63);
    IdentifierIsIdent(intent.sessionId, 128);
    hide Blank, Ident, Identifier, Trim;
  }

  // ---------------------------------------------------------------- registrations and renewals

  /** The first of the ids that another session owns. */
  ghost predicate FirstConflict(r: Registry, s: string, ids: seq<nat>, error: RegistryError) {
    exists k :: 0 <= k < |ids| && !Free(r, s, ids[k]) && (forall j :: 0 <= j < k ==> Free(r, s, ids[j]))
      && error == CgroupAlreadyAssigned(ids[k], r.index[ids[k]])
  }

  lemma {:induction false} AttachAllStops(r: Registry, s: string, ids: seq<nat>)
    requires s in r.sessions && AttachAll(r, s, ids).1.Err?
    ensures FirstConflict(r, s, ids, AttachAll(r, s, ids).1.error)
    decreases |ids|
  {
    var (r1, a) := Attach(r, s, ids[0]);
    if a.Ok? {
      AttachAllStops(r1, s, ids[1..]);
      hide FirstConflict, AttachAll;
      ConflictBehind(r, r1, s, ids, AttachAll(r1, s, ids[1..]).1.error);
    } else {
      assert !Free(r, s, ids[0]);
    }
  }

  lemma ConflictBehind(r: Registry, r1: Registry, s: string, ids: seq<nat>, error: RegistryError)
    requires ids != [] && Free(r, s, ids[0]) && r1.index == r.index[ids[0] := s]
    requires FirstConflict(r1, s, ids[1..], error)
    ensures FirstConflict(r, s, ids, error)
  {
    var rest := ids[1..];
    var k :| 0 <= k < |rest| && !Free(r1, s, rest[k]) && (forall j :: 0 <= j < k ==> Free(r1, s, rest[j]))
      && error == CgroupAlreadyAssigned(rest[k], r1.index[rest[k]]);
    forall j | 0 <= j < k + 1 ensures Free(r, s, ids[j]) {
      if j > 0 { assert Free(r1, s, rest[j - 1]); }
    }
    assert !Free(r, s, ids[k + 1]);
  }

  /** The answer to a registration, by the first obstacle: an invalid intent, no room for one more session, a waiting id
      that another session owns. It tells a new session from a replaced one. */
  lemma RegisterAnswers(r: Registry, intent: Intent, now: nat)
    ensures var s, a, invalid := intent.sessionId, Register(r, intent, now).1, ValidateIntent(intent, now);
      var full := s !in r.sessions && |r.sessions| >= r.maxSessions;
      && (invalid.Some? ==> a == Err(InvalidIntent(invalid.value)))
      && (invalid.None? && full ==> a == Err(SessionCapacityReached(r.maxSessions)))
      && (invalid.None? && !full && Conflict(r, s, PendingOf(r, s)) ==>
            a.Err? && FirstConflict(r, s, PendingOf(r, s), a.error))
      && (invalid.None? && !full && !Conflict(r, s, PendingOf(r, s)) ==>
            a == Ok(if s in r.sessions then Replaced else Inserted))
  {
    RegisterEffect(r, intent, now);
    var s := intent.sessionId;
    hide ValidateIntent, Conflict;
    if ValidateIntent(intent, now).None? && (s in r.sessions || |r.sessions| < r.maxSessions) {
      var r2, ids := TakePending(r, intent), PendingOf(r, s);
      if AttachAll(r2, s, ids).1.Err? {
        AttachAllStops(r2, s, ids);
        SameConflict(r2, r, s, ids, AttachAll(r2, s, ids).1.error);
      }
      hide AttachAll;
    }
  }

  lemma SameConflict(r: Registry, r': Registry, s: string, ids: seq<nat>, error: RegistryError)
    requires r.index == r'.index && FirstConflict(r, s, ids, error)
    ensures FirstConflict(r', s, ids, error)
  {
    var k :| 0 <= k < |ids| && !Free(r, s, ids[k]) && (forall j :: 0 <= j < k ==> Free(r, s, ids[j]))
      && error == CgroupAlreadyAssigned(ids[k], r.index[ids[k]]);
    forall j | 0 <= j < k ensures Free(r', s, ids[j]) { assert Free(r, s, ids[j]); }
    assert !Free(r', s, ids[k]);
  }

  /** The answer to a renewal, by the first obstacle: an expiry that is past already, no such session, a closed one.
      Otherwise the session is active until the new expiry, keeps its ids, and nothing else moves. */
  lemma RenewAnswers(r: Registry, s: string, expiresAt: U64, now: nat)
    ensures var (r', a) := Renew(r, s, expiresAt, now);
      && (a == Err(InvalidIntent(IntentExpired)) <==> expiresAt <= now)
      && (a == Err(SessionNotFound(s)) <==> expiresAt > now && s !in r.sessions)
      && (a == Err(SessionNotActive(s)) <==> expiresAt > now && s in r.sessions && r.sessions[s].status == Closed)
      && (a == Ok(()) <==> expiresAt > now && s in r.sessions && r.sessions[s].status != Closed)
      && (a.Err? ==> r' == r)
      && (a.Ok? ==> r' == r.(sessions := r'.sessions) && r'.sessions.Keys == r.sessions.Keys
                    && (forall t :: t in r.sessions && t != s ==> r'.sessions[t] == r.sessions[t])
                    && r'.sessions[s].status == Active && r'.sessions[s].expiresAt == expiresAt
                    && r'.sessions[s].intent == r.sessions[s].intent.(expiresAt := expiresAt)
                    && r'.sessions[s].cgroupIds == r.sessions[s].cgroupIds)
  {
  }

  // ---------------------------------------------------------------- associations

  /** The answer to an association, by the first obstacle: no such session, a session that is not active, an id that
      another session owns. Otherwise the session lists and owns the id, and nothing else moves. */
  lemma AssociateAnswers(r: Registry, s: string, c: nat)
    ensures var (r', a) := Associate(r, s, c);
      && (a == Err(SessionNotFound(s)) <==> s !in r.sessions)
      && (a == Err(SessionNotActive(s)) <==> s in r.sessions && r.sessions[s].status != Active)
      && (a.Err? && a.error.CgroupAlreadyAssigned? <==>
            s in r.sessions && r.sessions[s].status == Active && c in r.index && r.index[c] != s)
      && (a.Err? && a.error.CgroupAlreadyAssigned? ==> a.error == CgroupAlreadyAssigned(c, r.index[c]))
      && (a == Ok(()) <==> s in r.sessions && r.sessions[s].status == Active && (c in r.index ==> r.index[c] == s))
      && (a.Err? ==> r' == r)
      && (a.Ok? ==> OnlySessionAndIndexDiffer(r, r', s) && AllAttached(r, r', s, [c]))
  {
    if s in r.sessions { AttachEffect(r, s, c); }
  }

  /** The answer to a discovery. For a known session it is that of an association; for one that is not known yet an id
      that another session owns is refused, then a full waiting list, even if the id waits already; otherwise it waits,
      once, and its session owns it from now on unless it was waiting. */
  lemma DiscoverAnswers(r: Registry, s: string, c: nat)
    ensures var (r', a) := Discover(r, s, c); var waits := c in PendingOf(r, s);
      && (s in r.sessions ==> r' == Associate(r, s, c).0
                              && (a.Ok? <==> Associate(r, s, c).1.Ok?) && (a.Ok? ==> a.value == Attached)
                              && (a.Err? ==> Associate(r, s, c).1 == Err(a.error)))
      && (s !in r.sessions && c in r.index && r.index[c] != s ==> a == Err(CgroupAlreadyAssigned(c, r.index[c])))
      && (s !in r.sessions && (c in r.index ==> r.index[c] == s) && r.pendingCount >= r.maxPending ==>
            a == Err(PendingCapacityReached(r.maxPending)))
      && (s !in r.sessions && (c in r.index ==> r.index[c] == s) && r.pendingCount < r.maxPending ==>
            a == Ok(MissingIntent))
      && (a.Err? || (s !in r.sessions && waits) ==> r' == r)
      && (s !in r.sessions && a.Ok? && !waits ==>
            && (forall x :: x in PendingOf(r', s) <==> x in PendingOf(r, s) || x == c)
            && (forall t :: t != s ==> PendingOf(r', t) == PendingOf(r, t))
            && r' == r.(pending := r'.pending, pendingCount := r.pendingCount + 1, index := r.index[c := s]))
  {
    if s in r.sessions { AssociateAnswers(r, s, c); }
    hide Associate;
  }

  // ---------------------------------------------------------------- endings

  /** Closing and degrading: refused exactly for a session that is not there, and otherwise that session alone gets the
      status of its own kind of ending, with its ids still listed. */
  lemma EndAnswers(r: Registry, s: string)
    ensures Perform(r, OpClose(s)).1 == if s in r.sessions then Ended({s}) else Refused(SessionNotFound(s))
    ensures Perform(r, OpDegrade(s)).1 == if s in r.sessions then Ended({s}) else Refused(SessionNotFound(s))
    ensures s in r.sessions ==>
      && Perform(r, OpClose(s)).0.sessions == r.sessions[s := r.sessions[s].(status := Closed)]
      && Perform(r, OpDegrade(s)).0.sessions == r.sessions[s := r.sessions[s].(status := Degraded)]
  {
  }

  /** Expiring: a session ends exactly when it is active and its expiry has come, and then it is expired. */
  lemma ExpireExactly(r: Registry, now: nat, s: string)
    ensures var (r', gone) := Expire(r, now);
      && (s in gone <==> s in r.sessions && r.sessions[s].status == Active && r.sessions[s].expiresAt <= now)
      && (s in r'.sessions <==> s in r.sessions)
      && (s in gone ==> r'.sessions[s] == r.sessions[s].(status := Expired))
      && (s in r.sessions && s !in gone ==> r'.sessions[s] == r.sessions[s])
  {
  }

  // ---------------------------------------------------------------- retention

  /** The session is over, and its retention is too: 7, 30 or 365 days from its expiry, by tier. */
  ghost predicate RetentionOver(session: Session, now: nat) {
    && (session.status == Closed || session.status == Expired || (session.status == Active && session.expiresAt <= now))
    && (session.intent.tier == Short ==> SaturatingAdd(session.expiresAt, 7 * 86_400_000) <= now)
    && (session.intent.tier == Standard ==> SaturatingAdd(session.expiresAt, 30 * 86_400_000) <= now)
    && (session.intent.tier == Extended ==> SaturatingAdd(session.expiresAt, 365 * 86_400_000) <= now)
  }

  /** A purge takes exactly the sessions of the tenant whose retention is over, and removes those and nothing else. */
  lemma PurgeExactly(r: Registry, tenant: string, now: nat, s: string)
    ensures var (r', gone) := Purge(r, tenant, now);
      && (s in gone <==>
            s in r.sessions && r.sessions[s].intent.tenantId == tenant && RetentionOver(r.sessions[s], now))
      && (s in r'.sessions <==> s in r.sessions && s !in gone)
      && (s in r'.sessions ==> r'.sessions[s] == r.sessions[s])
  {
  }

  /** Only a purge makes a session go, at a time when its retention is over. */
  lemma OnlyPurgeRemoves(r: Registry, op: Op, s: string)
    requires s in r.sessions && !Perform(r, op).1.Refused? && s !in Perform(r, op).0.sessions
    ensures op.OpPurge? && r.sessions[s].intent.tenantId == op.tenant && RetentionOver(r.sessions[s], op.now)
  {
    hide ValidateIntent, Register, Renew, Attach, Deactivate, RetentionOver;
    match op
    case OpRegister(intent, now) => RegisterEffect(r, intent, now);
    case OpRenew(t, expiresAt, now) => RenewAnswers(r, t, expiresAt, now);
    case OpAssociate(t, c) => AssociateAnswers(r, t, c);
    case OpDiscover(t, c) =>
      DiscoverAnswers(r, t, c);
      AssociateAnswers(r, t, c);
    case OpClose(t) => EndAnswers(r, t);
    case OpDegrade(t) => EndAnswers(r, t);
    case OpExpire(now) => ExpireExactly(r, now, s);
    case OpPurge(tenant, now) => PurgeExactly(r, tenant, now, s);
  }

  /** The operation at place `j` of the run purges the session, whose retention is over then. */
  ghost predicate PurgedAt(maxSessions: nat, maxPending: nat, ops: seq<Op>, j: nat, s: string) {
    j < |ops| && ops[j].OpPurge? &&
    var r := CommitRun(maxSessions, maxPending, ops[..j]);
    s in r.sessions && r.sessions[s].intent.tenantId == ops[j].tenant && RetentionOver(r.sessions[s], ops[j].now)
  }

  /** Retention over whole runs: a session that was there and is not any more was purged in between, for its own tenant,
      at a time by which it was over and its retention too. So no purge before that time removes a session, and none
      ever removes a degraded one or an active one that has not expired. */
  lemma {:induction false} KeptUntilRetention(maxSessions: nat, maxPending: nat, ops: seq<Op>, k: nat, s: string)
    requires k <= |ops| && s in CommitRun(maxSessions, maxPending, ops[..k]).sessions
    requires s !in CommitRun(maxSessions, maxPending, ops).sessions
    ensures exists j :: k <= j < |ops| && PurgedAt(maxSessions, maxPending, ops, j, s)
    decreases |ops|
  {
    hide PurgedAt, Perform, CommitRun;
    assert ops[..|ops|] == ops;
    var n := |ops| - 1;
    assert ops[..n][..k] == ops[..k];
    if s in CommitRun(maxSessions, maxPending, ops[..n]).sessions {
      LastPurged(maxSessions, maxPending, ops, s);
    } else {
      KeptUntilRetention(maxSessions, maxPending, ops[..n], k, s);
      var j :| k <= j < n && PurgedAt(maxSessions, maxPending, ops[..n], j, s);
      PurgedEarlier(maxSessions, maxPending, ops, n, j, s);
    }
  }

  lemma LastPurged(maxSessions: nat, maxPending: nat, ops: seq<Op>, s: string)
    requires ops != [] && s in CommitRun(maxSessions, maxPending, ops[..|ops| - 1]).sessions
    requires s !in CommitRun(maxSessions, maxPending, ops).sessions
    ensures PurgedAt(maxSessions, maxPending, ops, |ops| - 1, s)
  {
    hide Perform, RetentionOver;
    OnlyPurgeRemoves(CommitRun(maxSessions, maxPending, ops[..|ops| - 1]), ops[|ops| - 1], s);
  }

  lemma PurgedEarlier(maxSessions: nat, maxPending: nat, ops: seq<Op>, n: nat, j: nat, s: string)
    requires n <= |ops| && PurgedAt(maxSessions, maxPending, ops[..n], j, s)
    ensures PurgedAt(maxSessions, maxPending, ops, j, s)
  {
    hide CommitRun, RetentionOver;
    assert ops[..n][..j] == ops[..j];
  }
}
