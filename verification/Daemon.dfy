/** The daemon's two-phase updates and its restart, crates/apolysis-daemon/src/state.rs, as functions on values.

    A call clones the registry, tries the change on the clone, sends commands to the kernel scope map, persists one log
    record and only then commits the clone; a failure rolls the scope commands back. `Failures` says what fails during
    one call for reasons outside the daemon. At start-up the registry is rebuilt by replaying every session's log. */
module Daemon {
  import opened Common
  import opened Registry
  import R = Registry

  datatype LogRecord =
    | IntentRegistered(intent: Option<Intent>)
    | IntentRenewed(expiresAt: Option<U64>)
    | CgroupDiscovered(cgroup: Option<nat>)
    | SessionClosed
    | OtherRecord

  datatype DaemonError = RegistryRefused(error: RegistryError) | ScopeFailed | StorageFailed

  type Outcome<+T> = Result<T, DaemonError>

  /** `tracked` is the kernel map of observed cgroups; without a scope controller it is never touched. */
  datatype Daemon = Daemon(
    registry: R.Registry,
    hasScope: bool,
    tracked: set<nat>,
    logs: map<string, seq<LogRecord>>,
    writable: bool)

  /** What goes wrong outside the daemon during one call: the position of the first scope command that fails, if any,
      and whether the log record can be written. Rollback commands are not subject to it. */
  datatype Failures = Failures(scopeFailsAt: Option<nat>, persistOk: bool)

  function Fresh(maxSessions: nat, maxPending: nat, hasScope: bool): Daemon {
    Daemon(R.Empty(maxSessions, maxPending), hasScope, {}, map[], true)
  }

  // ---------------------------------------------------------------- kernel scope map

  function Track(tracked: set<nat>, c: nat): Option<set<nat>> {
    if c == 0 then None else Some(tracked + {c})
  }

  function Untrack(tracked: set<nat>, c: nat): Option<set<nat>> {
    if c == 0 || c !in tracked then None else Some(tracked - {c})
  }

  /** Untracks the ids one by one; `k` is the position of the next command. Returns what is still tracked and how many
      commands succeeded before the first failure. */
  function UntrackAll(tracked: set<nat>, ids: seq<nat>, k: nat, f: Failures): (r: (set<nat>, nat))
    requires k <= |ids|
    ensures k <= r.1 <= |ids|
    decreases |ids| - k
  {
    if k == |ids| || f.scopeFailsAt == Some(k) || Untrack(tracked, ids[k]).None? then (tracked, k)
    else UntrackAll(Untrack(tracked, ids[k]).value, ids, k + 1, f)
  }

  // ---------------------------------------------------------------- persistence

  function LogOf(logs: map<string, seq<LogRecord>>, s: string): seq<LogRecord> {
    if s in logs then logs[s] else []
  }

  function Append(logs: map<string, seq<LogRecord>>, s: string, rec: LogRecord): map<string, seq<LogRecord>> {
    logs[s := LogOf(logs, s) + [rec]]
  }

  /** The first write failure makes the storage unavailable for good. */
  function Persist(d: Daemon, s: string, rec: LogRecord, f: Failures): (Daemon, bool) {
    if !d.writable then (d, false)
    else if !f.persistOk then (d.(writable := false), false)
    else (d.(logs := Append(d.logs, s, rec)), true)
  }

  // ---------------------------------------------------------------- the calls

  function Register(d: Daemon, intent: Intent, now: nat, f: Failures): (Daemon, Outcome<RegisterOutcome>) {
    var (candidate, a) := R.Register(d.registry, intent, now);
    if a.Err? then (d, Err(RegistryRefused(a.error)))
    else
      var (d1, ok) := Persist(d, intent.sessionId, IntentRegistered(Some(intent)), f);
      if !ok then (d1, Err(StorageFailed)) else (d1.(registry := candidate), Ok(a.value))
  }

  function Renew(d: Daemon, s: string, expiresAt: U64, now: nat, f: Failures): (Daemon, Outcome<()>) {
    var (candidate, a) := R.Renew(d.registry, s, expiresAt, now);
    if a.Err? then (d, Err(RegistryRefused(a.error)))
    else
      var (d1, ok) := Persist(d, s, IntentRenewed(Some(expiresAt)), f);
      if !ok then (d1, Err(StorageFailed)) else (d1.(registry := candidate), Ok(()))
  }

  function Close(d: Daemon, s: string, f: Failures): (Daemon, Outcome<()>) {
    var (candidate, a) := R.Deactivate(d.registry, s, Closed);
    if a.Err? then (d, Err(RegistryRefused(a.error)))
    else
      var ids := a.value.cgroupIds;
      var (tracked, n) := if d.hasScope then UntrackAll(d.tracked, ids, 0, f) else (d.tracked, |ids|);
      if n < |ids| then (d.(tracked := tracked + IdSet(ids[..n])), Err(ScopeFailed))
      else
        var (d1, ok) := Persist(d.(tracked := tracked), s, SessionClosed, f);
        if !ok then (d1.(tracked := if d.hasScope then tracked + IdSet(ids) else tracked), Err(StorageFailed))
        else (d1.(registry := candidate), Ok(()))
  }

  function Discover(d: Daemon, s: string, c: nat, f: Failures): (Daemon, Outcome<AssociationOutcome>) {
    if c in d.registry.index && d.registry.index[c] == s then
      (d, Ok(if s in d.registry.sessions then Attached else MissingIntent))
    else
      var (candidate, a) := R.Discover(d.registry, s, c);
      if a.Err? then (d, Err(RegistryRefused(a.error)))
      else if d.hasScope && (f.scopeFailsAt == Some(0) || Track(d.tracked, c).None?) then (d, Err(ScopeFailed))
      else
        var d1 := if d.hasScope then d.(tracked := Track(d.tracked, c).value) else d;
        var (d2, ok) := Persist(d1, s, CgroupDiscovered(Some(c)), f);
        if !ok then (d2.(tracked := if d.hasScope then d2.tracked - {c} else d2.tracked), Err(StorageFailed))
        else (d2.(registry := candidate), Ok(a.value))
  }

  /** Any other record the writer appends to a session's log. */
  function Note(d: Daemon, s: string, f: Failures): (Daemon, Outcome<()>) {
    var (d1, ok) := Persist(d, s, OtherRecord, f);
    (d1, if ok then Ok(()) else Err(StorageFailed))
  }

  // ---------------------------------------------------------------- replay

  datatype Replaying = Replaying(intent: Option<Intent>, ids: seq<nat>, closed: bool)

  datatype Recovered = Recovered(intent: Intent, ids: seq<nat>)

  function ReplayStep(p: Replaying, rec: LogRecord): Option<Replaying> {
    match rec
    case IntentRegistered(None) => None
    case IntentRegistered(Some(i)) => Some(Replaying(Some(i), if p.closed then [] else p.ids, false))
    case IntentRenewed(e) =>
      Some(if p.intent.Some? && e.Some? then p.(intent := Some(p.intent.value.(expiresAt := e.value))) else p)
    case CgroupDiscovered(c) =>
      Some(if c.Some? && c.value !in p.ids then p.(ids := p.ids + [c.value]) else p)
    case SessionClosed => Some(p.(ids := [], closed := true))
    case OtherRecord => Some(p)
  }

  /** State after all the records; None when a record cannot be replayed. */
  function ReplayAll(records: seq<LogRecord>): Option<Replaying> {
    if records == [] then Some(Replaying(None, [], false))
    else
      var p := ReplayAll(records[..|records| - 1]);
      if p.None? then None else ReplayStep(p.value, records[|records| - 1])
  }

  function SortIds(ids: seq<nat>): (r: seq<nat>)
    ensures StrictlySorted(r)
    ensures forall c :: c in r <==> c in ids
  {
    if ids == [] then []
    else
      assert ids == ids[..|ids| - 1] + [ids[|ids| - 1]];
      AddId(SortIds(ids[..|ids| - 1]), ids[|ids| - 1])
  }

  function Recover(p: Replaying, now: nat): Option<Recovered> {
    if p.intent.Some? && !p.closed && p.intent.value.expiresAt > now then
      Some(Recovered(p.intent.value, SortIds(p.ids)))
    else None
  }

  /** `replay_active_session`: an error, or the session to restore if there is one. */
  function Replay(records: seq<LogRecord>, now: nat): Option<Option<Recovered>> {
    var p := ReplayAll(records);
    if p.None? then None else Some(Recover(p.value, now))
  }

  /** `discover_cgroup` for each recovered id in turn; None on the first refusal. */
  function DiscoverAll(r: R.Registry, s: string, ids: seq<nat>): Option<R.Registry>
    decreases |ids|
  {
    if ids == [] then Some(r)
    else
      var (r1, a) := R.Discover(r, s, ids[0]);
      if a.Err? then None else DiscoverAll(r1, s, ids[1..])
  }

  function Restore(r: R.Registry, s: string, recovered: Option<Recovered>, now: nat): Option<R.Registry> {
    if recovered.None? then Some(r)
    else
      var (r1, a) := R.Register(r, recovered.value.intent, now);
      if a.Err? then None else DiscoverAll(r1, s, recovered.value.ids)
  }

  /** The start-up loop of `new_with_scope` over the session directories, in the order the file system lists them; a
      directory without a log is skipped. */
  function Rebuild(r: R.Registry, logs: map<string, seq<LogRecord>>, order: seq<string>, now: nat): Option<R.Registry>
    decreases |order|
  {
    if order == [] then Some(r)
    else
      var recovered := Replay(LogOf(logs, order[0]), now);
      if recovered.None? then None
      else
        var r1 := Restore(r, order[0], recovered.value, now);
        if r1.None? then None else Rebuild(r1.value, logs, order[1..], now)
  }

  /** Start-up: the registry is rebuilt from the logs and the ids of its index are tracked anew; None when the daemon
      does not come up. The logs stay as they are. */
  function StartUp(maxSessions: nat, maxPending: nat, hasScope: bool, logs: map<string, seq<LogRecord>>,
                   order: seq<string>, now: nat): Option<Daemon>
  {
    var r := Rebuild(R.Empty(maxSessions, maxPending), logs, order, now);
    if r.None? || (hasScope && 0 in r.value.index) then None
    else Some(Daemon(r.value, hasScope, if hasScope then r.value.index.Keys else {}, logs, true))
  }
}
