/** Host capture, restore planning and restore execution, crates/apolysis-validation/src/lib.rs, over an abstract file
    system.

    A path is the list of its components from the root. The functions say what each step does to the file system and
    what it answers; the class `Host` is the code, with its loops. `hash` is the checksum, a parameter; service commands
    are recorded in the order they are issued. */
module Restore {
  import opened Common

  type Path = seq<string>

  type Mode = m: nat | m < 0x1000

  datatype Node = File(bytes: Bytes, mode: Mode) | Link(target: string) | Dir

  type Fs = map<Path, Node>

  datatype Source = Source(id: string, path: Path)

  datatype Kind = RegularFile | Symlink | Missing

  datatype BackupEntry = BackupEntry(
    id: string,
    originalPath: Path,
    kind: Kind,
    backupPath: Option<Path>,
    checksum: Option<Bytes>,
    target: Option<string>,
    mode: Option<Mode>)

  datatype Manifest = Manifest(schemaVersion: nat, entries: seq<BackupEntry>)

  datatype Action =
    | RestoreRegularFile(id: string, fromBackup: Path, path: Path, mode: Option<Mode>)
    | RestoreSymlink(id: string, target: string, path: Path)
    | EnsureMissing(id: string, path: Path)
    | RemoveValidationPath(path: Path)

  datatype ServiceState = ServiceState(name: string, activeState: string, unitFileState: string)

  /** A service that reads some of the captured files. */
  datatype Managed = Managed(service: string, entryIds: seq<string>)

  /** One action of a plan: on the file system, or on a service. */
  datatype Step = OnFiles(action: Action) | OnService(state: ServiceState)

  datatype Plan = Plan(schemaVersion: nat, steps: seq<Step>)

  /** What the service controller is asked to do. */
  datatype Command = SetUnitFile(name: string, state: string) | SetActive(name: string, state: string)

  /** Whether a command succeeds, after the commands issued before it. */
  type Controller = (seq<Command>, Command) -> bool

  /** The host: its files, and the service commands issued to it. */
  datatype World = World(fs: Fs, issued: seq<Command>)

  datatype Failure =
    | NotADirectory | NotAFileOrLink | CannotWriteBackup | CannotCreateDirectory
    | MissingBackupPath | MissingTarget | BackupMissing | ChecksumMismatch
    | UnsupportedVersion | NotAbsolute | UnknownEntry | KindMismatch | PathMismatch | BackupPathMismatch
    | TargetMismatch
    | DirectoryInTheWay | CopyFailed | Interrupted
    | UnknownManagedEntry | MissingServiceState | UncapturedService | ServiceMismatch | ServiceFailed

  type Answer<+T> = Result<T, Failure>

  type Hash = Bytes -> Bytes

  // ---------------------------------------------------------------- file system steps

  /** Permission bits of a file newly written by the process. */
  const NEW_FILE_MODE: Mode := 420

  function Parent(p: Path): Path
    requires p != []
  {
    p[..|p| - 1]
  }

  /** `create_dir_all`; None when something that is not a directory is in the way. */
  function CreateDirs(fs: Fs, p: Path): Option<Fs>
    decreases |p|
  {
    if p == [] then Some(fs)
    else
      var above := CreateDirs(fs, Parent(p));
      if above.None? then None
      else if p !in above.value then Some(above.value[p := Dir])
      else if above.value[p].Dir? then above
      else None
  }

  /** Writing a whole file; None when a directory or a link is in the way. */
  function WriteFile(fs: Fs, p: Path, bytes: Bytes, mode: Mode): Option<Fs> {
    if p in fs && !fs[p].File? then None else Some(fs[p := File(bytes, mode)])
  }

  function Subtree(fs: Fs, p: Path): set<Path> {
    set q | q in fs && p <= q
  }

  /** A file stands where a directory on the way to `p` should be, so that looking `p` up is an error and not a miss. */
  predicate BelowFile(fs: Fs, p: Path) {
    exists k :: 0 < k < |p| && FileAt(fs, p[..k])
  }

  predicate FileAt(fs: Fs, p: Path) {
    p in fs && fs[p].File?
  }

  /** `remove_path_if_present`. */
  function RemovePath(fs: Fs, p: Path): (Fs, Answer<()>) {
    if p == [] then (fs, Err(NotAbsolute))
    else if BelowFile(fs, p) then (fs, Err(NotADirectory))
    else if p !in fs then (fs, Ok(()))
    else if fs[p].Dir? then (fs - Subtree(fs, p), Ok(()))
    else (fs - {p}, Ok(()))
  }

  // ---------------------------------------------------------------- capture

  predicate SafeChar(c: char) {
    'a' <= c <= 'z' || 'A' <= c <= 'Z' || '0' <= c <= '9' || c == '-' || c == '_'
  }

  function SafeBackupName(id: string): string {
    seq(|id|, i requires 0 <= i < |id| => if SafeChar(id[i]) then id[i] else '_')
  }

  function BackupPathOf(id: string): Path {
    ["files", SafeBackupName(id)]
  }

  function CaptureSource(hash: Hash, fs: Fs, root: Path, s: Source): (Fs, Answer<BackupEntry>) {
    if BelowFile(fs, s.path) then (fs, Err(NotADirectory))
    else if s.path !in fs then (fs, Ok(BackupEntry(s.id, s.path, Missing, None, None, None, None)))
    else match fs[s.path]
      case Link(target) => (fs, Ok(BackupEntry(s.id, s.path, Symlink, None, None, Some(target), Some(511))))
      case Dir => (fs, Err(NotAFileOrLink))
      case File(bytes, mode) =>
        var written := WriteFile(fs, root + BackupPathOf(s.id), bytes, NEW_FILE_MODE);
        if written.None? then (fs, Err(CannotWriteBackup))
        else
          (written.value,
           Ok(BackupEntry(s.id, s.path, RegularFile, Some(BackupPathOf(s.id)), Some(hash(bytes)), None, Some(mode))))
  }

  /** The capture loop from some point on, with the entries gathered so far. */
  function CaptureFrom(hash: Hash, fs: Fs, root: Path, sources: seq<Source>, entries: seq<BackupEntry>)
    : (Fs, Answer<Manifest>)
    decreases |sources|
  {
    if sources == [] then (fs, Ok(Manifest(1, entries)))
    else
      var (fs1, a) := CaptureSource(hash, fs, root, sources[0]);
      if a.Err? then (fs1, Err(a.error)) else CaptureFrom(hash, fs1, root, sources[1..], entries + [a.value])
  }

  function Capture(hash: Hash, fs: Fs, root: Path, sources: seq<Source>): (Fs, Answer<Manifest>) {
    var prepared := CreateDirs(fs, root + ["files"]);
    if prepared.None? then (fs, Err(CannotCreateDirectory))
    else CaptureFrom(hash, prepared.value, root, sources, [])
  }

  // ---------------------------------------------------------------- sorting

  /** Lexicographic order of names. */
  predicate NameBefore(a: string, b: string) {
    b != "" && (a == "" || a[0] < b[0] || (a[0] == b[0] && NameBefore(a[1..], b[1..])))
  }

  /** Lexicographic order of paths, component by component. */
  predicate PathBefore(a: Path, b: Path) {
    b != [] && (a == [] || NameBefore(a[0], b[0]) || (a[0] == b[0] && PathBefore(a[1..], b[1..])))
  }

  function InsertPath(ps: seq<Path>, p: Path): (r: seq<Path>)
    ensures forall x :: x in r <==> x in ps || x == p
  {
    if ps == [] || PathBefore(p, ps[0]) then [p] + ps
    else if ps[0] == p then ps
    else
      assert ps == [ps[0]] + ps[1..];
      [ps[0]] + InsertPath(ps[1..], p)
  }

  /** `sort` and `dedup`. */
  function SortPaths(ps: seq<Path>): (r: seq<Path>)
    ensures forall x :: x in r <==> x in ps
  {
    if ps == [] then []
    else
      assert ps == ps[..|ps| - 1] + [ps[|ps| - 1]];
      InsertPath(SortPaths(ps[..|ps| - 1]), ps[|ps| - 1])
  }

  function InsertManaged(ms: seq<Managed>, m: Managed): (r: seq<Managed>)
    ensures multiset(r) == multiset(ms) + multiset{m}
  {
    if ms == [] || NameBefore(m.service, ms[0].service) then
      assert multiset([m] + ms) == multiset{m} + multiset(ms);
      [m] + ms
    else
      assert ms == [ms[0]] + ms[1..];
      [ms[0]] + InsertManaged(ms[1..], m)
  }

  /** The stable `sort_by` on the service name. */
  function SortManaged(ms: seq<Managed>): (r: seq<Managed>)
    ensures multiset(r) == multiset(ms)
  {
    if ms == [] then []
    else
      assert ms == ms[..|ms| - 1] + [ms[|ms| - 1]];
      InsertManaged(SortManaged(ms[..|ms| - 1]), ms[|ms| - 1])
  }

  // ---------------------------------------------------------------- plan

  /** No item behind place `k` has the name. */
  predicate NoneBehind<T>(items: seq<T>, nameOf: T -> string, name: string, k: int) {
    forall j :: 0 <= j < |items| && k < j ==> nameOf(items[j]) != name
  }

  /** The last of some items under a name, as when items are collected into a map. */
  function LastNamed<T>(items: seq<T>, nameOf: T -> string, name: string): (r: Option<T>)
    ensures r.Some? ==> r.value in items && nameOf(r.value) == name
    ensures r.None? ==> forall k :: 0 <= k < |items| ==> nameOf(items[k]) != name
    ensures r.Some? ==> exists k :: 0 <= k < |items| && items[k] == r.value && NoneBehind(items, nameOf, name, k)
  {
    if items == [] then None
    else if nameOf(items[|items| - 1]) == name then Some(items[|items| - 1])
    else LastNamed(items[..|items| - 1], nameOf, name)
  }

  /** The manifest entry an id stands for. */
  function EntryOf(entries: seq<BackupEntry>, id: string): Option<BackupEntry> {
    LastNamed(entries, (e: BackupEntry) => e.id, id)
  }

  function VerifyBackupCopy(hash: Hash, fs: Fs, root: Path, entry: BackupEntry, backup: Path): Answer<()> {
    if root + backup !in fs || !fs[root + backup].File? then Err(BackupMissing)
    else if entry.checksum != Some(hash(fs[root + backup].bytes)) then Err(ChecksumMismatch)
    else Ok(())
  }

  function PlanEntry(hash: Hash, fs: Fs, root: Path, e: BackupEntry): Answer<Action> {
    match e.kind
    case RegularFile =>
      if e.backupPath.None? then Err(MissingBackupPath)
      else
        var v := VerifyBackupCopy(hash, fs, root, e, e.backupPath.value);
        if v.Err? then Err(v.error) else Ok(RestoreRegularFile(e.id, e.backupPath.value, e.originalPath, e.mode))
    case Symlink =>
      if e.target.None? then Err(MissingTarget) else Ok(RestoreSymlink(e.id, e.target.value, e.originalPath))
    case Missing => Ok(EnsureMissing(e.id, e.originalPath))
  }

  function PlanFrom(hash: Hash, fs: Fs, root: Path, entries: seq<BackupEntry>, actions: seq<Action>)
    : Answer<seq<Action>>
    decreases |entries|
  {
    if entries == [] then Ok(actions)
    else
      var a := PlanEntry(hash, fs, root, entries[0]);
      if a.Err? then Err(a.error) else PlanFrom(hash, fs, root, entries[1..], actions + [a.value])
  }

  function Removals(owned: seq<Path>): seq<Action> {
    seq(|owned|, i requires 0 <= i < |owned| => RemoveValidationPath(owned[i]))
  }

  /** The state captured for a service. */
  function StateOf(services: seq<ServiceState>, name: string): Option<ServiceState> {
    LastNamed(services, (s: ServiceState) => s.name, name)
  }

  function PlanService(manifest: Manifest, services: seq<ServiceState>, managed: Managed): Answer<ServiceState> {
    if exists id :: id in managed.entryIds && EntryOf(manifest.entries, id).None? then Err(UnknownManagedEntry)
    else
      var state := StateOf(services, managed.service);
      if state.None? then Err(MissingServiceState) else Ok(state.value)
  }

  function PlanServices(manifest: Manifest, services: seq<ServiceState>, managed: seq<Managed>,
                        states: seq<ServiceState>): Answer<seq<ServiceState>>
    decreases |managed|
  {
    if managed == [] then Ok(states)
    else
      var a := PlanService(manifest, services, managed[0]);
      if a.Err? then Err(a.error) else PlanServices(manifest, services, managed[1..], states + [a.value])
  }

  function FileSteps(actions: seq<Action>): seq<Step> {
    seq(|actions|, i requires 0 <= i < |actions| => OnFiles(actions[i]))
  }

  function ServiceSteps(states: seq<ServiceState>): seq<Step> {
    seq(|states|, i requires 0 <= i < |states| => OnService(states[i]))
  }

  lemma NoSteps()
    ensures FileSteps([]) == [] && Removals([]) == [] && ServiceSteps([]) == []
  {
  }

  lemma FileStepsSnoc(actions: seq<Action>, action: Action)
    ensures FileSteps(actions + [action]) == FileSteps(actions) + [OnFiles(action)]
  {
  }

  lemma RemovalsSnoc(owned: seq<Path>, k: nat)
    requires k < |owned|
    ensures Removals(owned[..k + 1]) == Removals(owned[..k]) + [RemoveValidationPath(owned[k])]
  {
  }

  lemma ServiceStepsSnoc(states: seq<ServiceState>, k: nat)
    requires k < |states|
    ensures ServiceSteps(states[..k + 1]) == ServiceSteps(states[..k]) + [OnService(states[k])]
  {
  }

  /** `plan_restore`: one action per entry in order, then the validation-owned paths sorted and each once, then the
      managed services in the order of their names. */
  function PlanRestore(hash: Hash, fs: Fs, root: Path, manifest: Manifest, owned: seq<Path>,
                       services: seq<ServiceState>, managed: seq<Managed>): Answer<Plan>
  {
    var a := PlanFrom(hash, fs, root, manifest.entries, []);
    if a.Err? then Err(a.error)
    else
      var s := PlanServices(manifest, services, SortManaged(managed), []);
      if s.Err? then Err(s.error)
      else Ok(Plan(1, FileSteps(a.value + Removals(SortPaths(owned))) + ServiceSteps(s.value)))
  }

  // ---------------------------------------------------------------- execution

  /** The kind of entry an action stands for. */
  function KindOf(action: Action): Kind {
    match action
    case RestoreRegularFile(_, _, _, _) => RegularFile
    case RestoreSymlink(_, _, _) => Symlink
    case _ => Missing
  }

  function CheckAction(hash: Hash, fs: Fs, root: Path, manifest: Manifest, action: Action): Answer<()> {
    if action.path == [] then Err(NotAbsolute)
    else if action.RemoveValidationPath? then Ok(())
    else
      var found := EntryOf(manifest.entries, action.id);
      if found.None? then Err(UnknownEntry)
      else
        var e := found.value;
        if e.kind != KindOf(action) then Err(KindMismatch)
        else if e.originalPath != action.path then Err(PathMismatch)
        else match action
          case RestoreRegularFile(_, from, _, _) =>
            if e.backupPath.None? then Err(MissingBackupPath)
            else if e.backupPath.value != from then Err(BackupPathMismatch)
            else VerifyBackupCopy(hash, fs, root, e, from)
          case RestoreSymlink(_, target, _) => if e.target != Some(target) then Err(TargetMismatch) else Ok(())
          case EnsureMissing(_, _) => Ok(())
          case RemoveValidationPath(_) => Ok(())
  }

  function CheckService(services: seq<ServiceState>, state: ServiceState): Answer<()> {
    var captured := StateOf(services, state.name);
    if captured.None? then Err(UncapturedService)
    else if captured.value.activeState != state.activeState then Err(ServiceMismatch)
    else if captured.value.unitFileState != state.unitFileState then Err(ServiceMismatch)
    else Ok(())
  }

  function CheckStep(hash: Hash, fs: Fs, root: Path, manifest: Manifest, services: seq<ServiceState>, step: Step)
    : Answer<()>
  {
    match step
    case OnFiles(action) => CheckAction(hash, fs, root, manifest, action)
    case OnService(state) => CheckService(services, state)
  }

  function CheckAll(hash: Hash, fs: Fs, root: Path, manifest: Manifest, services: seq<ServiceState>, steps: seq<Step>)
    : Answer<()>
    decreases |steps|
  {
    if steps == [] then Ok(())
    else
      var a := CheckStep(hash, fs, root, manifest, services, steps[0]);
      if a.Err? then a else CheckAll(hash, fs, root, manifest, services, steps[1..])
  }

  /** `verify_restore_execution_inputs`. */
  function VerifyInputs(hash: Hash, fs: Fs, root: Path, plan: Plan, manifest: Manifest, services: seq<ServiceState>)
    : Answer<()>
  {
    if plan.schemaVersion != 1 || manifest.schemaVersion != 1 then Err(UnsupportedVersion)
    else CheckAll(hash, fs, root, manifest, services, plan.steps)
  }

  /** The name beside `p` that a restored file is first copied to. */
  function TempPath(p: Path, pid: string): Path
    requires p != []
  {
    Parent(p) + ["." + p[|p| - 1] + ".apolysis-restore." + pid]
  }

  function SetMode(node: Node, mode: Option<Mode>): Node {
    if node.File? && mode.Some? then node.(mode := mode.value) else node
  }

  function RestoreFile(fs: Fs, root: Path, from: Path, to: Path, mode: Option<Mode>, pid: string): (Fs, Answer<()>) {
    if to == [] then (fs, Err(NotAbsolute))
    else
      var prepared := CreateDirs(fs, Parent(to));
      if prepared.None? then (fs, Err(CannotCreateDirectory))
      else
        var fs1 := prepared.value;
        var temp := TempPath(to, pid);
        if to in fs1 && fs1[to].Dir? then (fs1, Err(DirectoryInTheWay))
        else if root + from !in fs1 || !fs1[root + from].File? then (fs1, Err(CopyFailed))
        else
          var backup := fs1[root + from];
          var copied := WriteFile(fs1, temp, backup.bytes, backup.mode);
          if copied.None? then (fs1, Err(CopyFailed))
          else (copied.value[to := SetMode(copied.value[temp], mode)] - {temp}, Ok(()))
  }

  function RestoreLink(fs: Fs, target: string, path: Path): (Fs, Answer<()>) {
    if path == [] then (fs, Err(NotAbsolute))
    else
      var prepared := CreateDirs(fs, Parent(path));
      if prepared.None? then (fs, Err(CannotCreateDirectory))
      else
        var (fs1, a) := RemovePath(prepared.value, path);
        if a.Err? then (fs1, a) else (fs1[path := Link(target)], Ok(()))
  }

  function Apply(fs: Fs, root: Path, action: Action, pid: string): (Fs, Answer<()>) {
    match action
    case RestoreRegularFile(_, from, to, mode) => RestoreFile(fs, root, from, to, mode, pid)
    case RestoreSymlink(_, target, path) => RestoreLink(fs, target, path)
    case EnsureMissing(_, path) => RemovePath(fs, path)
    case RemoveValidationPath(path) => RemovePath(fs, path)
  }

  /** First the unit file state, then the active state; a command that fails was issued all the same. */
  function RestoreService(issued: seq<Command>, state: ServiceState, controller: Controller)
    : (seq<Command>, Answer<()>)
  {
    var first, second := SetUnitFile(state.name, state.unitFileState), SetActive(state.name, state.activeState);
    if !controller(issued, first) then (issued + [first], Err(ServiceFailed))
    else if !controller(issued + [first], second) then (issued + [first] + [second], Err(ServiceFailed))
    else (issued + [first] + [second], Ok(()))
  }

  function Perform(w: World, root: Path, step: Step, controller: Controller, pid: string): (World, Answer<()>) {
    match step
    case OnFiles(action) => var (fs1, a) := Apply(w.fs, root, action, pid); (w.(fs := fs1), a)
    case OnService(state) => var (issued, a) := RestoreService(w.issued, state, controller); (w.(issued := issued), a)
  }

  /** What fails for a reason outside the model: these actions, and the service commands the controller refuses. */
  datatype Surroundings = Surroundings(faults: set<nat>, controller: Controller)

  /** The execution loop. */
  function RunFrom(w: World, root: Path, steps: seq<Step>, k: nat, sur: Surroundings, pid: string): (World, Answer<nat>)
    requires k <= |steps|
    decreases |steps| - k
  {
    if k == |steps| then (w, Ok(k))
    else if k in sur.faults then (w, Err(Interrupted))
    else
      var (w1, a) := Perform(w, root, steps[k], sur.controller, pid);
      if a.Err? then (w1, Err(a.error)) else RunFrom(w1, root, steps, k + 1, sur, pid)
  }

  /** `execute_restore_plan`. */
  function Execute(hash: Hash, w: World, root: Path, plan: Plan, manifest: Manifest, services: seq<ServiceState>,
                   sur: Surroundings, pid: string): (World, Answer<nat>)
  {
    var v := VerifyInputs(hash, w.fs, root, plan, manifest, services);
    if v.Err? then (w, Err(v.error)) else RunFrom(w, root, plan.steps, 0, sur, pid)
  }

  // ---------------------------------------------------------------- the code

  class Host {
    var fs: Fs
    var issued: seq<Command>
    const hash: Hash
    const pid: string

    function Value(): World
      reads this
    {
      World(fs, issued)
    }

    constructor (fs: Fs, hash: Hash, pid: string)
      ensures Value() == World(fs, []) && this.hash == hash && this.pid == pid
    {
      this.fs, this.issued, this.hash, this.pid := fs, [], hash, pid;
    }

    method CaptureBackupManifest(root: Path, sources: seq<Source>) returns (a: Answer<Manifest>)
      modifies this`fs
      ensures (fs, a) == Capture(hash, old(fs), root, sources)
    {
      var prepared := CreateDirs(fs, root + ["files"]);
      if prepared.None? {
        return Err(CannotCreateDirectory);
      }
      fs := prepared.value;
      var entries: seq<BackupEntry> := [];
      for k := 0 to |sources|
        invariant Capture(hash, old(fs), root, sources) == CaptureFrom(hash, fs, root, sources[k..], entries)
      {
        var (fs1, captured) := CaptureSource(hash, fs, root, sources[k]);
        fs := fs1;
        if captured.Err? {
          return Err(captured.error);
        }
        entries := entries + [captured.value];
      }
      return Ok(Manifest(1, entries));
    }

    method PlanRestoreActions(root: Path, manifest: Manifest, owned: seq<Path>, services: seq<ServiceState>,
                              managed: seq<Managed>) returns (a: Answer<Plan>)
      ensures a == PlanRestore(hash, fs, root, manifest, owned, services, managed)
    {
      hide FileSteps, ServiceSteps, Removals, PlanEntry;
      var steps: seq<Step> := [];
      ghost var actions: seq<Action> := [];
      NoSteps();
      for k := 0 to |manifest.entries|
        invariant steps == FileSteps(actions)
        invariant PlanFrom(hash, fs, root, manifest.entries, [])
               == PlanFrom(hash, fs, root, manifest.entries[k..], actions)
      {
        var planned := PlanEntry(hash, fs, root, manifest.entries[k]);
        if planned.Err? {
          return Err(planned.error);
        }
        FileStepsSnoc(actions, planned.value);
        steps := steps + [OnFiles(planned.value)];
        actions := actions + [planned.value];
      }
      assert manifest.entries[|manifest.entries|..] == [];
      var sorted := SortPaths(owned);
      ghost var files := actions;
      assert files + [] == files && sorted[..0] == [];
      for k := 0 to |sorted|
        invariant steps == FileSteps(actions)
        invariant actions == files + Removals(sorted[..k])
      {
        ghost var removal := RemoveValidationPath(sorted[k]);
        FileStepsSnoc(actions, removal);
        RemovalsSnoc(sorted, k);
        assert files + Removals(sorted[..k]) + [removal] == files + Removals(sorted[..k + 1]);
        steps := steps + [OnFiles(RemoveValidationPath(sorted[k]))];
        actions := actions + [removal];
      }
      assert sorted[..|sorted|] == sorted;
      var states := PlanServiceStates(manifest, services, SortManaged(managed));
      if states.Err? {
        return Err(states.error);
      }
      ghost var before := steps;
      assert before + [] == before && states.value[..0] == [];
      for k := 0 to |states.value|
        invariant steps == before + ServiceSteps(states.value[..k])
      {
        ServiceStepsSnoc(states.value, k);
        var step := OnService(states.value[k]);
        assert before + ServiceSteps(states.value[..k]) + [step] == before + ServiceSteps(states.value[..k + 1]);
        steps := steps + [step];
      }
      assert states.value[..|states.value|] == states.value;
      return Ok(Plan(1, steps));
    }

    method PlanServiceStates(manifest: Manifest, services: seq<ServiceState>, managed: seq<Managed>)
      returns (a: Answer<seq<ServiceState>>)
      ensures a == PlanServices(manifest, services, managed, [])
    {
      var states: seq<ServiceState> := [];
      for k := 0 to |managed|
        invariant PlanServices(manifest, services, managed, [])
               == PlanServices(manifest, services, managed[k..], states)
      {
        for i := 0 to |managed[k].entryIds|
          invariant forall j :: 0 <= j < i ==> EntryOf(manifest.entries, managed[k].entryIds[j]).Some?
        {
          if EntryOf(manifest.entries, managed[k].entryIds[i]).None? {
            assert managed[k].entryIds[i] in managed[k].entryIds;
            return Err(UnknownManagedEntry);
          }
        }
        var state := StateOf(services, managed[k].service);
        if state.None? {
          return Err(MissingServiceState);
        }
        states := states + [state.value];
      }
      return Ok(states);
    }

    method VerifyRestoreInputs(root: Path, plan: Plan, manifest: Manifest, services: seq<ServiceState>)
      returns (a: Answer<()>)
      ensures a == VerifyInputs(hash, fs, root, plan, manifest, services)
    {
      if plan.schemaVersion != 1 || manifest.schemaVersion != 1 {
        return Err(UnsupportedVersion);
      }
      for k := 0 to |plan.steps|
        invariant CheckAll(hash, fs, root, manifest, services, plan.steps)
               == CheckAll(hash, fs, root, manifest, services, plan.steps[k..])
      {
        var checked := CheckStep(hash, fs, root, manifest, services, plan.steps[k]);
        if checked.Err? {
          return checked;
        }
      }
      return Ok(());
    }

    method ExecuteRestorePlan(root: Path, plan: Plan, manifest: Manifest, services: seq<ServiceState>,
                              sur: Surroundings)
      returns (a: Answer<nat>)
      modifies this
      ensures (Value(), a) == Execute(hash, old(Value()), root, plan, manifest, services, sur, pid)
    {
      var verified := VerifyRestoreInputs(root, plan, manifest, services);
      if verified.Err? {
        return Err(verified.error);
      }
      var applied := 0;
      while applied < |plan.steps|
        invariant 0 <= applied <= |plan.steps|
        invariant RunFrom(old(Value()), root, plan.steps, 0, sur, pid)
               == RunFrom(Value(), root, plan.steps, applied, sur, pid)
      {
        if applied in sur.faults {
          return Err(Interrupted);
        }
        var (after, done) := Perform(Value(), root, plan.steps[applied], sur.controller, pid);
        fs, issued := after.fs, after.issued;
        if done.Err? {
          return Err(done.error);
        }
        applied := applied + 1;
      }
      return Ok(applied);
    }
  }
}
