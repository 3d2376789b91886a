/** What the registry guarantees over whole runs: its tables stay consistent, and the reverse cgroup index answers
    exactly the history of discoveries and endings. */
module RegistryRuns {
  import opened Common
  import opened Registry

  datatype Op =
    | OpRegister(intent: Intent, now: nat)
    | OpRenew(s: string, expiresAt: U64, now: nat)
    | OpClose(s: string)
    | OpDegrade(s: string)
    | OpExpire(now: nat)
    | OpAssociate(s: string, c: nat)
    | OpDiscover(s: string, c: nat)
    | OpPurge(tenant: string, now: nat)

  datatype Reply =
    | Refused(error: RegistryError)
    | Registered(outcome: RegisterOutcome)
    | Renewed
    | Ended(sessions: set<string>)
    | Associated(association: AssociationOutcome)

  function Perform(r: Registry, op: Op): (Registry, Reply) {
    match op
    case OpRegister(intent, now) =>
      var (r', a) := Register(r, intent, now);
      (r', if a.Ok? then Registered(a.value) else Refused(a.error))
    case OpRenew(s, expiresAt, now) =>
      var (r', a) := Renew(r, s, expiresAt, now);
      (r', if a.Ok? then Renewed else Refused(a.error))
    case OpClose(s) =>
      var (r', a) := Deactivate(r, s, Closed);
      (r', if a.Ok? then Ended({s}) else Refused(a.error))
    case OpDegrade(s) =>
      var (r', a) := Deactivate(r, s, Degraded);
      (r', if a.Ok? then Ended({s}) else Refused(a.error))
    case OpExpire(now) => var (r', gone) := Expire(r, now); (r', Ended(gone))
    case OpAssociate(s, c) =>
      var (r', a) := Associate(r, s, c);
      (r', if a.Ok? then Associated(Attached) else Refused(a.error))
    case OpDiscover(s, c) =>
      var (r', a) := Discover(r, s, c);
      (r', if a.Ok? then Associated(a.value) else Refused(a.error))
    case OpPurge(tenant, now) => var (r', gone) := Purge(r, tenant, now); (r', Ended(gone))
  }

  // ---------------------------------------------------------------- attaching a list of ids

  ghost predicate Conflict(r: Registry, s: string, ids: seq<nat>) {
    exists c :: c in ids && c in r.index && r.index[c] != s
  }

  /** Only the session `s` and the index can differ between two registries. */
  ghost predicate OnlySessionAndIndexDiffer(r: Registry, r': Registry, s: string)
    requires s in r.sessions
  {
    && r' == r.(sessions := r'.sessions, index := r'.index)
    && r'.sessions.Keys == r.sessions.Keys
    && (forall t :: t in r.sessions && t != s ==> r'.sessions[t] == r.sessions[t])
    && r'.sessions[s] == r.sessions[s].(cgroupIds := r'.sessions[s].cgroupIds)
    && (StrictlySorted(r.sessions[s].cgroupIds) ==> StrictlySorted(r'.sessions[s].cgroupIds))
  }

  /** All the ids are listed by `s` and owned by `s`, and nothing else moved. */
  ghost predicate AllAttached(r: Registry, r': Registry, s: string, ids: seq<nat>)
    requires s in r.sessions && s in r'.sessions
  {
    && (forall x :: x in r'.sessions[s].cgroupIds <==> x in r.sessions[s].cgroupIds || x in ids)
    && (forall c :: c in r'.index <==> c in r.index || c in ids)
    && (forall c :: c in r'.index ==> r'.index[c] == if c in ids then s else r.index[c])
  }

  /** The first id can be attached. */
  ghost predicate Free(r: Registry, s: string, c: nat) {
    c in r.index ==> r.index[c] == s
  }

  lemma AttachEffect(r: Registry, s: string, c: nat)
    requires s in r.sessions
    ensures var (r', a) := Attach(r, s, c);
      && (a.Ok? <==> Free(r, s, c))
      && (a.Err? ==> r' == r && a.error.CgroupAlreadyAssigned?)
      && (a.Ok? ==> OnlySessionAndIndexDiffer(r, r', s) && AllAttached(r, r', s, [c]))
  {
  }

  lemma DifferTransitive(r: Registry, r1: Registry, r2: Registry, s: string)
    requires s in r.sessions && OnlySessionAndIndexDiffer(r, r1, s) && OnlySessionAndIndexDiffer(r1, r2, s)
    ensures OnlySessionAndIndexDiffer(r, r2, s)
  {
    hide StrictlySorted;
  }

  lemma AttachedTogether(r: Registry, r1: Registry, r2: Registry, s: string, c: nat, ids: seq<nat>)
    requires s in r.sessions && s in r1.sessions && s in r2.sessions
    requires AllAttached(r, r1, s, [c]) && AllAttached(r1, r2, s, ids)
    ensures AllAttached(r, r2, s, [c] + ids)
  {
    assert forall x :: x in [c] + ids <==> x == c || x in ids;
  }

  lemma ConflictBehindFirst(r: Registry, r1: Registry, s: string, c: nat, ids: seq<nat>)
    requires s in r.sessions && s in r1.sessions && AllAttached(r, r1, s, [c]) && Free(r, s, c)
    ensures Conflict(r, s, [c] + ids) <==> Conflict(r1, s, ids)
  {
    assert forall x :: x in [c] + ids <==> x == c || x in ids;
    if x :| x in [c] + ids && x in r.index && r.index[x] != s {
      assert x in ids && x in r1.index && r1.index[x] != s;
    }
    if x :| x in ids && x in r1.index && r1.index[x] != s {
      assert x in [c] + ids && x in r.index && r.index[x] != s;
    }
  }

  lemma ConflictAtFirst(r: Registry, s: string, c: nat, ids: seq<nat>)
    requires !Free(r, s, c)
    ensures Conflict(r, s, [c] + ids)
  {
    assert c in [c] + ids;
  }

  lemma {:induction false} AttachAllEffect(r: Registry, s: string, ids: seq<nat>)
    requires s in r.sessions
    ensures var (r', a) := AttachAll(r, s, ids);
      && OnlySessionAndIndexDiffer(r, r', s)
      && (a.Err? <==> Conflict(r, s, ids))
      && (a.Err? ==> a.error.CgroupAlreadyAssigned?)
      && (a.Ok? ==> AllAttached(r, r', s, ids))
    decreases |ids|
  {
    if ids != [] {
      var c, rest := ids[0], ids[1..];
      assert ids == [c] + rest;
      AttachEffect(r, s, c);
      hide Attach, Free, Conflict, AllAttached;
      var r1 := Attach(r, s, c).0;
      if Free(r, s, c) {
        AttachAllEffect(r1, s, rest);
        var r2 := AttachAll(r1, s, rest).0;
        DifferTransitive(r, r1, r2, s);
        ConflictBehindFirst(r, r1, s, c, rest);
        if AttachAll(r1, s, rest).1.Ok? { AttachedTogether(r, r1, r2, s, c, rest); }
      } else {
        ConflictAtFirst(r, s, c, rest);
      }
    }
  }

  /** What a successful register leaves: the session active under the new intent, its pending ids moved into its list
      and into the index, everything else untouched. */
  ghost predicate Installed(r: Registry, r': Registry, intent: Intent) {
    var s, ids := intent.sessionId, PendingOf(r, intent.sessionId);
    && r' == r.(sessions := r'.sessions, index := r'.index,
                pending := r.pending - {s}, pendingCount := r.pendingCount - |ids|)
    && SessionInstalled(r.sessions, r'.sessions, intent, ids)
    && (forall c :: c in r'.index <==> c in r.index || c in ids)
    && (forall c :: c in r'.index ==> r'.index[c] == if c in ids then s else r.index[c])
  }

  ghost predicate SessionInstalled(ss: map<string, Session>, ss': map<string, Session>, intent: Intent, ids: seq<nat>) {
    var s := intent.sessionId;
    && ss'.Keys == ss.Keys + {s}
    && (forall t :: t in ss && t != s ==> ss'[t] == ss[t])
    && ss'[s] == Session(intent, intent.expiresAt, Active, ss'[s].cgroupIds)
    && (forall x :: x in ss'[s].cgroupIds <==> (s in ss && x in ss[s].cgroupIds) || x in ids)
    && ((s in ss ==> StrictlySorted(ss[s].cgroupIds)) ==> StrictlySorted(ss'[s].cgroupIds))
  }

  lemma RegisterValidEffect(r: Registry, intent: Intent)
    requires intent.sessionId in r.sessions || |r.sessions| < r.maxSessions
    ensures var s := intent.sessionId; var (r', a) := RegisterValid(r, intent);
      && (a.Ok? <==> !Conflict(r, s, PendingOf(r, s)))
      && (a.Ok? ==> Installed(r, r', intent))
      && (a.Err? ==> a.error.CgroupAlreadyAssigned?)
  {
    var s, ids := intent.sessionId, PendingOf(r, intent.sessionId);
    var r2 := TakePending(r, intent);
    AttachAllEffect(r2, s, ids);
    assert Conflict(r2, s, ids) == Conflict(r, s, ids);
    var (r', a) := AttachAll(r2, s, ids);
    if a.Ok? {
      assert r2.sessions.Keys == r.sessions.Keys + {s};
      assert SessionInstalled(r.sessions, r'.sessions, intent, ids);
    }
  }

  /** `register` succeeds exactly when the intent is valid, there is room, and no id pending for the session is owned
      by another one; a conflict is the only refusal that leaves anything behind. */
  lemma RegisterEffect(r: Registry, intent: Intent, now: nat)
    ensures var s := intent.sessionId; var (r', a) := Register(r, intent, now);
      && (a.Ok? ==> Installed(r, r', intent))
      && (a.Ok? <==>
            && ValidateIntent(intent, now).None?
            && (s in r.sessions || |r.sessions| < r.maxSessions)
            && !Conflict(r, s, PendingOf(r, s)))
      && (a.Err? && a.error.CgroupAlreadyAssigned? ==> Conflict(r, s, PendingOf(r, s)))
      && (a.Err? && !a.error.CgroupAlreadyAssigned? ==> r' == r)
  {
    if intent.sessionId in r.sessions || |r.sessions| < r.maxSessions { RegisterValidEffect(r, intent); }
  }

  /** What an ending leaves: the ended sessions inactive or gone, and their ids out of the index. */
  ghost predicate Deactivated(r: Registry, r': Registry, gone: set<string>) {
    && r' == r.(sessions := r'.sessions, index := r'.index)
    && gone <= r.sessions.Keys
    && r'.sessions.Keys <= r.sessions.Keys <= r'.sessions.Keys + gone
    && (forall s :: s in r'.sessions && s !in gone ==> r'.sessions[s] == r.sessions[s])
    && (forall s :: s in r'.sessions && s in gone ==>
          && r'.sessions[s] == r.sessions[s].(status := r'.sessions[s].status)
          && r'.sessions[s].status != Active)
    && r'.index == r.index - IdsOf(r, gone)
  }

  lemma EndingEffect(r: Registry, op: Op)
    requires op.OpClose? || op.OpDegrade? || op.OpExpire? || op.OpPurge?
    ensures Perform(r, op).1.Ended? ==> Deactivated(r, Perform(r, op).0, Perform(r, op).1.sessions)
    ensures !Perform(r, op).1.Ended? ==> Perform(r, op).1.Refused? && Perform(r, op).0 == r
  {
    if (op.OpClose? || op.OpDegrade?) && op.s in r.sessions {
      assert IdsOf(r, {op.s}) == IdSet(r.sessions[op.s].cgroupIds);
    }
  }

  // ---------------------------------------------------------------- the invariant, operation by operation

  lemma InvParts(r: Registry)
    requires Inv(r)
    ensures IndexBacked(r) && r.pending.Keys !! r.sessions.Keys
  {
  }

  lemma InstalledKeepsSessions(ss: map<string, Session>, ss': map<string, Session>, intent: Intent, ids: seq<nat>)
    requires SessionsWellFormed(ss) && SessionInstalled(ss, ss', intent, ids)
    ensures SessionsWellFormed(ss')
    ensures |ss'| == |ss| + if intent.sessionId in ss then 0 else 1
  {
    assert |ss'| == |ss'.Keys| && |ss| == |ss.Keys|;
    if intent.sessionId in ss { assert ss'.Keys == ss.Keys; }
  }

  lemma InstalledKeepsPending(r: Registry, r': Registry, intent: Intent)
    requires PendingWellFormed(r) && Installed(r, r', intent)
    ensures PendingWellFormed(r')
  {
    var s := intent.sessionId;
    if s in r.pending { TotalRemove(r.pending, s); } else { assert r.pending - {s} == r.pending; }
  }

  lemma InstalledKeepsIndex(r: Registry, r': Registry, intent: Intent)
    requires IndexBacked(r) && Installed(r, r', intent)
    ensures IndexBacked(r')
  {
    forall c | c in r'.index ensures Backed(r', c, r'.index[c]) {
      if c !in PendingOf(r, intent.sessionId) { assert Backed(r, c, r.index[c]); }
    }
  }

  lemma InstalledKeepsInv(r: Registry, r': Registry, intent: Intent)
    requires Inv(r) && Installed(r, r', intent)
    requires intent.sessionId in r.sessions || |r.sessions| < r.maxSessions
    ensures Inv(r')
  {
    InstalledKeepsSessions(r.sessions, r'.sessions, intent, PendingOf(r, intent.sessionId));
    InstalledKeepsPending(r, r', intent);
    InstalledKeepsIndex(r, r', intent);
  }

  lemma DeactivatedKeepsInv(r: Registry, r': Registry, gone: set<string>)
    requires Inv(r) && Deactivated(r, r', gone)
    ensures Inv(r')
  {
    SubsetSize(r'.sessions.Keys, r.sessions.Keys);
    forall c | c in r'.index ensures Backed(r', c, r'.index[c]) {
      assert Backed(r, c, r.index[c]);
      assert c !in IdsOf(r, gone);
    }
  }

  lemma SubsetSize<T>(a: set<T>, b: set<T>)
    requires a <= b
    ensures |a| <= |b|
  {
    assert b == a + (b - a);
  }

  lemma RenewKeepsInv(r: Registry, s: string, expiresAt: U64, now: nat)
    requires Inv(r)
    ensures Inv(Renew(r, s, expiresAt, now).0)
  {
    var r' := Renew(r, s, expiresAt, now).0;
    if r' != r {
      assert r'.sessions.Keys == r.sessions.Keys;
      forall c | c in r'.index ensures Backed(r', c, r'.index[c]) {
        assert Backed(r, c, r.index[c]);
      }
    }
  }

  lemma AttachKeepsInv(r: Registry, s: string, c: nat)
    requires Inv(r) && s in r.sessions && r.sessions[s].status == Active
    ensures Inv(Attach(r, s, c).0)
  {
    var r' := Attach(r, s, c).0;
    assert r'.sessions.Keys == r.sessions.Keys;
    forall x | x in r'.index ensures Backed(r', x, r'.index[x]) {
      if x != c || x in r.index { assert Backed(r, x, r.index[x]); }
    }
  }

  lemma DiscoverKeepsInv(r: Registry, s: string, c: nat)
    requires Inv(r)
    ensures Inv(Discover(r, s, c).0)
  {
    var (r', a) := Discover(r, s, c);
    if s in r.sessions {
      if r.sessions[s].status == Active {
        hide Attach;
        AttachKeepsInv(r, s, c);
      }
    } else if r' != r {
      PendKeepsInv(r, s, c);
    }
  }

  /** Keeping an id for a session that is not known yet. */
  lemma PendKeepsInv(r: Registry, s: string, c: nat)
    requires Inv(r) && s !in r.sessions && r.pendingCount < r.maxPending && c !in PendingOf(r, s)
    ensures var ids := Insert(PendingOf(r, s), c);
      Inv(r.(pending := r.pending[s := ids], pendingCount := r.pendingCount + 1, index := r.index[c := s]))
  {
    var ids := Insert(PendingOf(r, s), c);
    hide Total, StrictlySorted, Backed, Insert, IndexBacked, PendingWellFormed, SessionsWellFormed;
    PendKeepsPending(r, s, c, ids);
    PendKeepsIndex(r, s, c, ids);
  }

  lemma PendKeepsPending(r: Registry, s: string, c: nat, ids: seq<nat>)
    requires PendingWellFormed(r) && s !in r.sessions && r.pendingCount < r.maxPending && c !in PendingOf(r, s)
    requires ids == Insert(PendingOf(r, s), c)
    ensures PendingWellFormed(r.(pending := r.pending[s := ids], pendingCount := r.pendingCount + 1,
                                 index := r.index[c := s]))
  {
    hide Total, StrictlySorted, Insert;
    var r' := r.(pending := r.pending[s := ids], pendingCount := r.pendingCount + 1, index := r.index[c := s]);
    assert StrictlySorted(PendingOf(r, s)) by {
      if s !in r.pending { EmptySorted(); }
    }
    InsertSorted(PendingOf(r, s), c);
    TotalUpdate(r.pending, s, ids);
    assert r'.pending.Keys == r.pending.Keys + {s};
  }

  lemma EmptySorted()
    ensures StrictlySorted([])
  {
  }

  lemma PendKeepsIndex(r: Registry, s: string, c: nat, ids: seq<nat>)
    requires IndexBacked(r) && c in ids && forall x :: x in PendingOf(r, s) ==> x in ids
    ensures IndexBacked(r.(pending := r.pending[s := ids], pendingCount := r.pendingCount + 1,
                           index := r.index[c := s]))
  {
    var r' := r.(pending := r.pending[s := ids], pendingCount := r.pendingCount + 1, index := r.index[c := s]);
    forall x | x in r'.index ensures Backed(r', x, r'.index[x]) {
      if x != c { assert Backed(r, x, r.index[x]); }
    }
  }

  lemma RefusedUnchanged(r: Registry, op: Op)
    ensures Perform(r, op).1.Refused? && !op.OpRegister? ==> Perform(r, op).0 == r
  {
    hide Register, Expire, Purge;
  }

  /** Every operation that is not refused keeps the tables consistent, whatever ids are offered; a refused operation
      changes nothing, except a `register` stopped halfway by a cgroup conflict. */
  lemma PerformKeepsInv(r: Registry, op: Op)
    requires Inv(r)
    ensures !Perform(r, op).1.Refused? ==> Inv(Perform(r, op).0)
    ensures Perform(r, op).1.Refused? && !(op.OpRegister? && Perform(r, op).1.error.CgroupAlreadyAssigned?)
            ==> Perform(r, op).0 == r
  {
    RefusedUnchanged(r, op);
    hide Inv, Register, Renew, Attach, Discover, Deactivate, Expire, Purge, Installed, Deactivated, ValidateIntent;
    match op
    case OpRegister(intent, now) =>
      RegisterEffect(r, intent, now);
      if Register(r, intent, now).1.Ok? { InstalledKeepsInv(r, Register(r, intent, now).0, intent); }
    case OpRenew(s, expiresAt, now) => RenewKeepsInv(r, s, expiresAt, now);
    case OpAssociate(s, c) => if Associate(r, s, c).1.Ok? { AttachKeepsInv(r, s, c); }
    case OpDiscover(s, c) => DiscoverKeepsInv(r, s, c);
    case _ =>
      EndingEffect(r, op);
      if Perform(r, op).1.Ended? { DeactivatedKeepsInv(r, Perform(r, op).0, Perform(r, op).1.sessions); }
  }

  /** A run that keeps only what succeeds, as the daemon does with its clones. */
  function CommitRun(maxSessions: nat, maxPending: nat, ops: seq<Op>): Registry
    decreases |ops|
  {
    if ops == [] then Empty(maxSessions, maxPending)
    else
      var r := CommitRun(maxSessions, maxPending, ops[..|ops| - 1]);
      var (r', reply) := Perform(r, ops[|ops| - 1]);
      if reply.Refused? then r else r'
  }

  lemma {:induction false} CommitRunKeepsInv(maxSessions: nat, maxPending: nat, ops: seq<Op>)
    ensures Inv(CommitRun(maxSessions, maxPending, ops))
    decreases |ops|
  {
    if ops != [] {
      CommitRunKeepsInv(maxSessions, maxPending, ops[..|ops| - 1]);
      PerformKeepsInv(CommitRun(maxSessions, maxPending, ops[..|ops| - 1]), ops[|ops| - 1]);
    }
  }

  // ---------------------------------------------------------------- ownership

  /** Every id is listed, owned or awaited only by the one session it belongs to. */
  ghost predicate AtHome(r: Registry, home: nat -> string) {
    && (forall c :: c in r.index ==> r.index[c] == home(c))
    && SessionsAtHome(r.sessions, home)
    && (forall s, c :: s in r.pending && c in r.pending[s] ==> home(c) == s && c in r.index)
  }

  ghost predicate SessionsAtHome(sessions: map<string, Session>, home: nat -> string) {
    forall s, c :: s in sessions && c in sessions[s].cgroupIds ==> home(c) == s
  }

  lemma InstalledFollows(r: Registry, r': Registry, intent: Intent, home: nat -> string)
    requires AtHome(r, home) && Installed(r, r', intent)
    ensures AtHome(r', home) && r'.index == r.index
  {
    assert r'.index == r.index;
    var s := intent.sessionId;
    forall t, c | t in r'.sessions && c in r'.sessions[t].cgroupIds ensures home(c) == t {
      if t != s { assert r'.sessions[t] == r.sessions[t]; }
    }
  }

  /** The ids listed by ended sessions are, within the index, exactly the ids those sessions own. */
  lemma OwnersGone(r: Registry, gone: set<string>, home: nat -> string)
    requires IndexBacked(r) && r.pending.Keys !! r.sessions.Keys && AtHome(r, home)
    requires gone <= r.sessions.Keys
    ensures forall c :: c in r.index ==> (c in IdsOf(r, gone) <==> r.index[c] in gone)
  {
    forall c | c in r.index ensures c in IdsOf(r, gone) <==> r.index[c] in gone {
      assert Backed(r, c, r.index[c]);
    }
  }

  lemma DeactivatedFollows(r: Registry, r': Registry, gone: set<string>, home: nat -> string)
    requires IndexBacked(r) && r.pending.Keys !! r.sessions.Keys && AtHome(r, home)
    requires Deactivated(r, r', gone)
    ensures AtHome(r', home)
    ensures forall c :: c in r'.index <==> c in r.index && r.index[c] !in gone
  {
    OwnersGone(r, gone, home);
    SessionsStayHome(r.sessions, r'.sessions, home);
  }

  lemma SessionsStayHome(ss: map<string, Session>, ss': map<string, Session>, home: nat -> string)
    requires SessionsAtHome(ss, home) && ss'.Keys <= ss.Keys
    requires forall s :: s in ss' ==> ss'[s].cgroupIds == ss[s].cgroupIds
    ensures SessionsAtHome(ss', home)
  {
  }

  lemma RenewFollowsHome(r: Registry, s: string, expiresAt: U64, now: nat, home: nat -> string)
    requires AtHome(r, home)
    ensures AtHome(Renew(r, s, expiresAt, now).0, home)
    ensures Renew(r, s, expiresAt, now).0.index == r.index
  {
  }

  lemma AttachFollows(r: Registry, s: string, c: nat, home: nat -> string)
    requires AtHome(r, home) && home(c) == s && s in r.sessions
    ensures var (r', a) := Attach(r, s, c); a.Ok? && AtHome(r', home) && r'.index == r.index[c := s]
  {
    var r' := Attach(r, s, c).0;
    forall t, x | t in r'.sessions && x in r'.sessions[t].cgroupIds ensures home(x) == t {
      if t != s { assert r'.sessions[t] == r.sessions[t]; }
    }
  }

  lemma PendFollows(r: Registry, s: string, c: nat, home: nat -> string)
    requires AtHome(r, home) && home(c) == s && s !in r.sessions
    ensures var (r', a) := Discover(r, s, c);
      AtHome(r', home) && (if a.Ok? then r'.index == r.index[c := s] else r' == r)
  {
    var (r', a) := Discover(r, s, c);
    if a.Ok? {
      if c in PendingOf(r, s) { assert r.index[c := s] == r.index; }
      forall t, x | t in r'.pending && x in r'.pending[t] ensures home(x) == t && x in r'.index {
        if t != s { assert r'.pending[t] == r.pending[t]; }
      }
    }
  }

  // ---------------------------------------------------------------- sessions over time

  /** A session that expired and is renewed is active again until its new expiry and lists the same ids, but owns none
      of them: the renewal does not bring the index entries back. */
  lemma RenewRevivesWithoutIds(r: Registry, s: string, expired: nat, expiresAt: U64, now: nat)
    requires s in r.sessions && Due(r.sessions[s], expired)
    ensures var r1 := Expire(r, expired).0; var (r2, a) := Renew(r1, s, expiresAt, now);
      && (a.Ok? <==> expiresAt > now)
      && (a.Ok? ==>
            && r2.sessions[s].cgroupIds == r.sessions[s].cgroupIds
            && (forall t :: Due(r2.sessions[s], t) <==> expiresAt <= t)
            && (forall c :: c in r.sessions[s].cgroupIds ==> c !in r2.index))
  {
    var r1 := Expire(r, expired).0;
    forall c | c in r.sessions[s].cgroupIds ensures c !in r1.index {
      assert s in DueSessions(r, expired) && c in IdsOf(r, DueSessions(r, expired));
    }
  }

  /** Expiring and purging at the same time commute: a session that is past its retention is purged whether or not its
      expiry was noticed, and the tables are the same either way. */
  lemma PurgeAndExpireCommute(r: Registry, tenant: string, now: nat)
    ensures Purge(Expire(r, now).0, tenant, now).1 == Purge(r, tenant, now).1
    ensures Purge(Expire(r, now).0, tenant, now).0 == Expire(Purge(r, tenant, now).0, now).0
  {
    EndedSetsAgree(r, tenant, now);
    SessionsCommute(r, tenant, now);
    IndexCommutes(r, tenant, now);
  }

  lemma SessionsCommute(r: Registry, tenant: string, now: nat)
    ensures Purge(Expire(r, now).0, tenant, now).0.sessions == Expire(Purge(r, tenant, now).0, now).0.sessions
  {
    EndedSetsAgree(r, tenant, now);
    hide IdsOf, DueSessions, EligibleSessions;
  }

  lemma IndexCommutes(r: Registry, tenant: string, now: nat)
    ensures Purge(Expire(r, now).0, tenant, now).0.index == Expire(Purge(r, tenant, now).0, now).0.index
  {
    var due, gone := DueSessions(r, now), EligibleSessions(r, tenant, now);
    EndedSetsAgree(r, tenant, now);
    hide IdsOf, DueSessions, EligibleSessions;
    IdsKept(r, Expire(r, now).0, gone);
    IdsKept(r, Purge(r, tenant, now).0, due - gone);
    IdsSplit(r, due, gone);
    TakenTogether(r.index, IdsOf(r, due), IdsOf(r, gone));
    TakenTogether(r.index, IdsOf(r, gone), IdsOf(r, due - gone));
    assert IdsOf(r, gone) + IdsOf(r, due - gone) == IdsOf(r, due) + IdsOf(r, gone);
  }

  lemma TakenTogether(index: map<nat, string>, a: set<nat>, b: set<nat>)
    ensures index - a - b == index - (a + b)
  {
  }

  lemma EndedSetsAgree(r: Registry, tenant: string, now: nat)
    ensures EligibleSessions(Expire(r, now).0, tenant, now) == EligibleSessions(r, tenant, now)
    ensures DueSessions(Purge(r, tenant, now).0, now) == DueSessions(r, now) - EligibleSessions(r, tenant, now)
    ensures DueSessions(r, now) <= r.sessions.Keys && EligibleSessions(r, tenant, now) <= r.sessions.Keys
  {
  }

  lemma IdsKept(r: Registry, r': Registry, ss: set<string>)
    requires ss <= r.sessions.Keys && ss <= r'.sessions.Keys
    requires forall s :: s in ss ==> r'.sessions[s].cgroupIds == r.sessions[s].cgroupIds
    ensures IdsOf(r', ss) == IdsOf(r, ss)
  {
  }

  lemma IdsSplit(r: Registry, due: set<string>, gone: set<string>)
    ensures IdsOf(r, due - gone) + IdsOf(r, gone) == IdsOf(r, due) + IdsOf(r, gone)
  {
    forall c | c in IdsOf(r, due) ensures c in IdsOf(r, due - gone) + IdsOf(r, gone) {
      var s :| s in due && s in r.sessions && c in r.sessions[s].cgroupIds;
      assert s in due - gone || s in gone;
    }
  }

  /** One purge leaves nothing to purge at that time, and waiting never makes a session ineligible. */
  lemma PurgeIsComplete(r: Registry, tenant: string, now: nat, later: nat)
    requires now <= later
    ensures Purge(Purge(r, tenant, now).0, tenant, now).1 == {}
    ensures Purge(r, tenant, now).1 <= Purge(r, tenant, later).1
  {
    assert EligibleSessions(Purge(r, tenant, now).0, tenant, now) == {};
  }
}
