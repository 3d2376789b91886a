/** The session registry of crates/apolysis-accountability/src/session.rs, and the intent checks it applies
    (crates/apolysis-accountability/src/intent.rs).

    `Registry` is the value the registry holds and the functions below say what each operation does to it; the class
    `SessionRegistry` is the code, with one field per field of the source, its loops, and its early returns. */
module Registry {
  import opened Common

  // ---------------------------------------------------------------- intents

  datatype RetentionTier = Short | Standard | Extended

  const DAY_MS: nat := 86_400_000

  function RetentionWindowMs(tier: RetentionTier): nat {
    match tier
    case Short => 7 * DAY_MS
    case Standard => 30 * DAY_MS
    case Extended => 365 * DAY_MS
  }

  /** `declaration` stands for the declared actions, resources and workload selectors, which are only stored. */
  datatype Intent = Intent(
    schemaVersion: nat,
    tenantId: string,
    tier: RetentionTier,
    sessionId: string,
    expiresAt: U64,
    policyRef: string,
    declaration: seq<string>)

  datatype IntentError =
    | UnsupportedSchemaVersion(version: nat)
    | EmptyTenantId | InvalidTenantId
    | EmptySessionId | InvalidSessionId
    | EmptyPolicyRef | IntentExpired

  predicate Blank(s: string) {
    forall i :: 0 <= i < |s| ==> IsSpace(s[i])
  }

  predicate IdentChar(c: char) {
    'a' <= c <= 'z' || 'A' <= c <= 'Z' || '0' <= c <= '9' || c == '.' || c == '_' || c == '-'
  }

  predicate Ident(s: string, maxLen: nat) {
    |s| <= maxLen && forall i :: 0 <= i < |s| ==> IdentChar(s[i])
  }

  function ValidateIntent(intent: Intent, now: nat): Option<IntentError> {
    if intent.schemaVersion != 1 then Some(UnsupportedSchemaVersion(intent.schemaVersion))
    else if Blank(intent.tenantId) then Some(EmptyTenantId)
    else if !Ident(intent.tenantId, 63) then Some(InvalidTenantId)
    else if Blank(intent.sessionId) then Some(EmptySessionId)
    else if !Ident(intent.sessionId, 128) then Some(InvalidSessionId)
    else if intent.expiresAt <= now then Some(IntentExpired)
    else if Blank(intent.policyRef) then Some(EmptyPolicyRef)
    else None
  }

  // ---------------------------------------------------------------- the value

  datatype Status = Active | Degraded | Expired | Closed

  datatype Session = Session(intent: Intent, expiresAt: U64, status: Status, cgroupIds: seq<nat>)

  datatype RegistryError =
    | InvalidIntent(reason: IntentError)
    | SessionCapacityReached(capacity: nat)
    | PendingCapacityReached(capacity: nat)
    | SessionNotFound(sessionId: string)
    | SessionNotActive(sessionId: string)
    | CgroupAlreadyAssigned(cgroupId: nat, owner: string)

  datatype RegisterOutcome = Inserted | Replaced
  datatype AssociationOutcome = Attached | MissingIntent

  datatype Registry = Registry(
    maxSessions: nat,
    maxPending: nat,
    sessions: map<string, Session>,
    index: map<nat, string>,
    pending: map<string, seq<nat>>,
    pendingCount: int)

  type Answer<+T> = Result<T, RegistryError>

  function Empty(maxSessions: nat, maxPending: nat): Registry {
    Registry(maxSessions, maxPending, map[], map[], map[], 0)
  }

  // ---------------------------------------------------------------- sorted id lists

  predicate StrictlySorted(ids: seq<nat>) {
    forall i, j :: 0 <= i < j < |ids| ==> ids[i] < ids[j]
  }

  /** `push` followed by `sort_unstable` on a list that was already sorted. */
  function Insert(ids: seq<nat>, c: nat): (r: seq<nat>)
    ensures |r| == |ids| + 1
    ensures forall x :: x in r <==> x in ids || x == c
  {
    if ids == [] || c < ids[0] then [c] + ids
    else
      assert ids == [ids[0]] + ids[1..];
      [ids[0]] + Insert(ids[1..], c)
  }

  lemma {:induction false} InsertSorted(ids: seq<nat>, c: nat)
    requires StrictlySorted(ids) && c !in ids
    ensures StrictlySorted(Insert(ids, c))
    decreases |ids|
  {
    if ids != [] && ids[0] < c {
      InsertSorted(ids[1..], c);
      var rest := Insert(ids[1..], c);
      forall k | 0 <= k < |rest| ensures ids[0] < rest[k] {
        assert rest[k] in rest;
      }
    }
  }

  function AddId(ids: seq<nat>, c: nat): (r: seq<nat>)
    ensures forall x :: x in r <==> x in ids || x == c
    ensures StrictlySorted(ids) ==> StrictlySorted(r)
  {
    if c in ids then ids
    else
      assert StrictlySorted(ids) ==> StrictlySorted(Insert(ids, c)) by {
        if StrictlySorted(ids) { InsertSorted(ids, c); }
      }
      Insert(ids, c)
  }

  function IdSet(ids: seq<nat>): set<nat> {
    set c | c in ids
  }

  // ---------------------------------------------------------------- operations

  function PendingOf(r: Registry, s: string): seq<nat> {
    if s in r.pending then r.pending[s] else []
  }

  function Attach(r: Registry, s: string, c: nat): (Registry, Answer<()>) {
    if c in r.index && r.index[c] != s then (r, Err(CgroupAlreadyAssigned(c, r.index[c])))
    else if s !in r.sessions then (r, Err(SessionNotFound(s)))
    else
      var state := r.sessions[s];
      (r.(sessions := r.sessions[s := state.(cgroupIds := AddId(state.cgroupIds, c))], index := r.index[c := s]),
       Ok(()))
  }

  /** Attaches a list of ids one by one and stops at the first conflict. */
  function AttachAll(r: Registry, s: string, ids: seq<nat>): (Registry, Answer<()>)
    decreases |ids|
  {
    if ids == [] then (r, Ok(()))
    else
      var (r1, a) := Attach(r, s, ids[0]);
      if a.Err? then (r1, a) else AttachAll(r1, s, ids[1..])
  }

  function Admit(r: Registry, intent: Intent): Registry {
    var s := intent.sessionId;
    var ids := if s in r.sessions then r.sessions[s].cgroupIds else [];
    r.(sessions := r.sessions[s := Session(intent, intent.expiresAt, Active, ids)])
  }

  /** The session made active under the new intent, and its pending entry taken out. */
  function TakePending(r: Registry, intent: Intent): Registry {
    Admit(r, intent).(pending := r.pending - {intent.sessionId},
                      pendingCount := r.pendingCount - |PendingOf(r, intent.sessionId)|)
  }

  /** What `register` does once the intent has passed its checks. */
  function RegisterValid(r: Registry, intent: Intent): (Registry, Answer<RegisterOutcome>) {
    var s := intent.sessionId;
    if s !in r.sessions && |r.sessions| >= r.maxSessions then (r, Err(SessionCapacityReached(r.maxSessions)))
    else
      var (r', a) := AttachAll(TakePending(r, intent), s, PendingOf(r, s));
      (r', if a.Err? then Err(a.error) else Ok(if s in r.sessions then Replaced else Inserted))
  }

  function Register(r: Registry, intent: Intent, now: nat): (Registry, Answer<RegisterOutcome>) {
    var invalid := ValidateIntent(intent, now);
    if invalid.Some? then (r, Err(InvalidIntent(invalid.value))) else RegisterValid(r, intent)
  }

  function Renew(r: Registry, s: string, expiresAt: U64, now: nat): (Registry, Answer<()>) {
    if expiresAt <= now then (r, Err(InvalidIntent(IntentExpired)))
    else if s !in r.sessions then (r, Err(SessionNotFound(s)))
    else if r.sessions[s].status == Closed then (r, Err(SessionNotActive(s)))
    else
      var state := r.sessions[s];
      (r.(sessions := r.sessions[s := state.(expiresAt := expiresAt,
                                             intent := state.intent.(expiresAt := expiresAt),
                                             status := Active)]),
       Ok(()))
  }

  function Deactivate(r: Registry, s: string, status: Status): (Registry, Answer<Session>) {
    if s !in r.sessions then (r, Err(SessionNotFound(s)))
    else
      var state := r.sessions[s].(status := status);
      (r.(sessions := r.sessions[s := state], index := r.index - IdSet(state.cgroupIds)), Ok(state))
  }

  predicate Due(state: Session, now: nat) {
    state.status == Active && state.expiresAt <= now
  }

  function DueSessions(r: Registry, now: nat): set<string> {
    set s | s in r.sessions && Due(r.sessions[s], now)
  }

  function IdsOf(r: Registry, ss: set<string>): set<nat> {
    set s, c | s in ss && s in r.sessions && c in r.sessions[s].cgroupIds :: c
  }

  function Expire(r: Registry, now: nat): (Registry, set<string>) {
    var due := DueSessions(r, now);
    (r.(sessions := map s | s in r.sessions :: if s in due then r.sessions[s].(status := Expired) else r.sessions[s],
        index := r.index - IdsOf(r, due)),
     due)
  }

  function Associate(r: Registry, s: string, c: nat): (Registry, Answer<()>) {
    if s !in r.sessions then (r, Err(SessionNotFound(s)))
    else if r.sessions[s].status != Active then (r, Err(SessionNotActive(s)))
    else Attach(r, s, c)
  }

  function Discover(r: Registry, s: string, c: nat): (Registry, Answer<AssociationOutcome>) {
    if s in r.sessions then
      var (r1, a) := Associate(r, s, c);
      (r1, if a.Err? then Err(a.error) else Ok(Attached))
    else if c in r.index && r.index[c] != s then (r, Err(CgroupAlreadyAssigned(c, r.index[c])))
    else if r.pendingCount >= r.maxPending then (r, Err(PendingCapacityReached(r.maxPending)))
    else if c in PendingOf(r, s) then (r, Ok(MissingIntent))
    else
      (r.(pending := r.pending[s := Insert(PendingOf(r, s), c)],
          pendingCount := r.pendingCount + 1,
          index := r.index[c := s]),
       Ok(MissingIntent))
  }

  predicate RetentionEligible(state: Session, now: nat) {
    && (state.status == Closed || state.status == Expired || Due(state, now))
    && SaturatingAdd(state.expiresAt, RetentionWindowMs(state.intent.tier)) <= now
  }

  function EligibleSessions(r: Registry, tenant: string, now: nat): set<string> {
    set s | s in r.sessions && r.sessions[s].intent.tenantId == tenant && RetentionEligible(r.sessions[s], now)
  }

  function Purge(r: Registry, tenant: string, now: nat): (Registry, set<string>) {
    var gone := EligibleSessions(r, tenant, now);
    (r.(sessions := r.sessions - gone, index := r.index - IdsOf(r, gone)), gone)
  }

  // ---------------------------------------------------------------- the registry invariant

  /** Total number of pending ids. */
  ghost function Total(pending: map<string, seq<nat>>): nat {
    if pending == map[] then 0
    else
      var s :| s in pending;
      |pending[s]| + Total(pending - {s})
  }

  /** An owner is backed by what the tables say: an active session listing the id, or a pending entry listing it. */
  ghost predicate Backed(r: Registry, c: nat, s: string) {
    || (s in r.sessions && r.sessions[s].status == Active && c in r.sessions[s].cgroupIds)
    || (s in r.pending && c in r.pending[s])
  }

  ghost predicate IndexBacked(r: Registry) {
    forall c :: c in r.index ==> Backed(r, c, r.index[c])
  }

  ghost predicate SessionsWellFormed(sessions: map<string, Session>) {
    forall s :: s in sessions ==>
      && StrictlySorted(sessions[s].cgroupIds)
      && sessions[s].intent.sessionId == s
      && sessions[s].expiresAt == sessions[s].intent.expiresAt
  }

  ghost predicate PendingWellFormed(r: Registry) {
    && (forall s :: s in r.pending ==> StrictlySorted(r.pending[s]) && r.pending[s] != [])
    && r.pending.Keys !! r.sessions.Keys
    && r.pendingCount == Total(r.pending) <= r.maxPending
  }

  ghost predicate Inv(r: Registry) {
    && |r.sessions| <= r.maxSessions
    && SessionsWellFormed(r.sessions)
    && PendingWellFormed(r)
    && IndexBacked(r)
  }

  lemma {:induction false} TotalRemove(pending: map<string, seq<nat>>, s: string)
    requires s in pending
    ensures Total(pending) == |pending[s]| + Total(pending - {s})
    decreases |pending|
  {
    var t :| t in pending && Total(pending) == |pending[t]| + Total(pending - {t});
    if t != s {
      TotalRemove(pending - {t}, s);
      TotalRemove(pending - {s}, t);
      assert pending - {t} - {s} == pending - {s} - {t};
    }
  }

  lemma TotalUpdate(pending: map<string, seq<nat>>, s: string, ids: seq<nat>)
    ensures Total(pending[s := ids]) == Total(pending) + |ids| - |if s in pending then pending[s] else []|
  {
    TotalRemove(pending[s := ids], s);
    assert pending[s := ids] - {s} == pending - {s};
    if s in pending { TotalRemove(pending, s); } else { assert pending - {s} == pending; }
  }
}
