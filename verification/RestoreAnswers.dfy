/** What capture, planning, the checks and the execution answer, exactly, for any manifest and any plan, and what they
    leave behind when they stop. */
module RestoreAnswers {
  import opened Common
  import opened Restore
  import opened RestoreProof
  import opened RestoreSuccess

  // ---------------------------------------------------------------- orders and names

  /** Lexicographic order: a proper prefix, or smaller at the first place where the two differ. */
  ghost predicate Earlier(a: string, b: string) {
    a < b || exists k :: 0 <= k < |a| && k < |b| && a[k] < b[k] && a[..k] == b[..k]
  }

  lemma FirstOfPrefix<T>(a: seq<T>, b: seq<T>, k: nat)
    requires k <= |a| && k <= |b| && a[..k] == b[..k]
    ensures k > 0 ==> a[0] == b[0]
  {
    if k > 0 { assert a[..k][0] == b[..k][0]; }
  }

  lemma {:induction false} NameBeforeExactly(a: string, b: string)
    ensures NameBefore(a, b) <==> Earlier(a, b)
    decreases |a|
  {
    if a != "" && b != "" {
      if a[0] == b[0] {
        NameBeforeExactly(a[1..], b[1..]);
        EarlierBehind(a, b);
      } else {
        if a[0] < b[0] { assert a[..0] == b[..0]; }
        if Earlier(a, b) {
          var k :| 0 <= k < |a| && k < |b| && a[k] < b[k] && a[..k] == b[..k];
          FirstOfPrefix(a, b, k);
        }
      }
    }
  }

  lemma EarlierBehind(a: string, b: string)
    requires a != "" && b != "" && a[0] == b[0]
    ensures Earlier(a, b) <==> Earlier(a[1..], b[1..])
  {
    assert a < b <==> a[1..] < b[1..] by { PrefixBehind(a, b); }
    if k :| 0 <= k < |a| && k < |b| && a[k] < b[k] && a[..k] == b[..k] { SplitBehind(a, b, k); }
    if k :| 0 <= k < |a| - 1 && k < |b| - 1 && a[1..][k] < b[1..][k] && a[1..][..k] == b[1..][..k] {
      SplitInFront(a, b, k);
      assert a[k + 1] < b[k + 1];
    }
  }

  lemma PrefixBehind<T>(a: seq<T>, b: seq<T>)
    requires a != [] && b != [] && a[0] == b[0]
    ensures a < b <==> a[1..] < b[1..]
  {
    assert a == [a[0]] + a[1..] && b == [b[0]] + b[1..];
  }

  lemma SplitBehind(a: string, b: string, k: nat)
    requires a != "" && b != "" && a[0] == b[0] && k < |a| && k < |b| && a[k] < b[k] && a[..k] == b[..k]
    ensures Earlier(a[1..], b[1..])
  {
    assert a[1..][k - 1] < b[1..][k - 1];
    assert a[1..][..k - 1] == a[..k][1..] == b[..k][1..] == b[1..][..k - 1];
  }

  lemma SplitInFront<T>(a: seq<T>, b: seq<T>, k: nat)
    requires a != [] && b != [] && a[0] == b[0] && k + 1 < |a| && k + 1 < |b| && a[1..][..k] == b[1..][..k]
    ensures a[..k + 1] == b[..k + 1]
  {
    assert a[..k + 1] == [a[0]] + a[1..][..k] && b[..k + 1] == [b[0]] + b[1..][..k];
  }

  /** The same, component by component. */
  ghost predicate PathEarlier(a: Path, b: Path) {
    a < b || exists k :: 0 <= k < |a| && k < |b| && Earlier(a[k], b[k]) && a[..k] == b[..k]
  }

  lemma NotEarlier(a: string)
    ensures !Earlier(a, a)
  {
  }

  lemma {:induction false} PathBeforeExactly(a: Path, b: Path)
    ensures PathBefore(a, b) <==> PathEarlier(a, b)
    decreases |a|
  {
    hide NameBefore, Earlier;
    if a != [] && b != [] {
      NameBeforeExactly(a[0], b[0]);
      NotEarlier(a[0]);
      if a[0] == b[0] {
        PathBeforeExactly(a[1..], b[1..]);
        PathEarlierBehind(a, b);
      } else {
        if Earlier(a[0], b[0]) { assert a[..0] == b[..0]; }
        if PathEarlier(a, b) {
          var k :| 0 <= k < |a| && k < |b| && Earlier(a[k], b[k]) && a[..k] == b[..k];
          FirstOfPrefix(a, b, k);
        }
      }
    }
  }

  lemma PathEarlierBehind(a: Path, b: Path)
    requires a != [] && b != [] && a[0] == b[0]
    ensures PathEarlier(a, b) <==> PathEarlier(a[1..], b[1..])
  {
    hide Earlier;
    NotEarlier(a[0]);
    PrefixBehind(a, b);
    if k :| 0 <= k < |a| && k < |b| && Earlier(a[k], b[k]) && a[..k] == b[..k] { PathSplitBehind(a, b, k); }
    if k :| 0 <= k < |a| - 1 && k < |b| - 1 && Earlier(a[1..][k], b[1..][k]) && a[1..][..k] == b[1..][..k] {
      SplitInFront(a, b, k);
      assert Earlier(a[k + 1], b[k + 1]);
    }
  }

  lemma PathSplitBehind(a: Path, b: Path, k: nat)
    requires a != [] && b != [] && a[0] == b[0] && k < |a| && k < |b| && Earlier(a[k], b[k]) && a[..k] == b[..k]
    ensures PathEarlier(a[1..], b[1..])
  {
    NotEarlier(a[0]);
    hide Earlier;
    assert Earlier(a[1..][k - 1], b[1..][k - 1]);
    assert a[1..][..k - 1] == a[..k][1..] == b[..k][1..] == b[1..][..k - 1];
  }

  /** The managed inputs of one service, in order. */
  function OfService(ms: seq<Managed>, service: string): seq<Managed> {
    if ms == [] then []
    else (if ms[0].service == service then [ms[0]] else []) + OfService(ms[1..], service)
  }

  lemma {:induction false} InsertedLast(ms: seq<Managed>, m: Managed, service: string)
    requires ByName(ms)
    ensures OfService(InsertManaged(ms, m), service) ==
      OfService(ms, service) + if m.service == service then [m] else []
    decreases |ms|
  {
    hide NameBefore, OfService;
    OfServiceFirst(ms, m, service);
    if ms == [] {
      OfNone(service);
    } else if NameBefore(m.service, ms[0].service) {
      if m.service == service { NoneLater(ms, service); }
    } else {
      InsertedLast(ms[1..], m, service);
      OfServiceFirst(InsertManaged(ms[1..], m), ms[0], service);
      OfServiceFirst(ms[1..], ms[0], service);
      assert ms == [ms[0]] + ms[1..];
    }
  }

  lemma OfNone(service: string)
    ensures OfService([], service) == []
  {
  }

  lemma OfServiceFirst(ms: seq<Managed>, m: Managed, service: string)
    ensures OfService([m] + ms, service) == (if m.service == service then [m] else []) + OfService(ms, service)
  {
    assert ([m] + ms)[1..] == ms;
  }

  /** A name before the first of an ordered list is not in it. */
  lemma {:induction false} NoneLater(ms: seq<Managed>, service: string)
    requires ByName(ms) && (ms != [] ==> NameBefore(service, ms[0].service))
    ensures OfService(ms, service) == []
    decreases |ms|
  {
    if ms != [] {
      NamesOrdered(service, ms[0].service, ms[0].service);
      NamesOrdered(service, service, service);
      if |ms| > 1 {
        NamesOrdered(ms[0].service, ms[1].service, service);
        NamesOrdered(service, ms[0].service, ms[1].service);
      }
      NoneLater(ms[1..], service);
    }
  }

  lemma {:induction false} OfServiceSnoc(ms: seq<Managed>, m: Managed, service: string)
    ensures OfService(ms + [m], service) == OfService(ms, service) + if m.service == service then [m] else []
    decreases |ms|
  {
    if ms != [] {
      assert (ms + [m])[1..] == ms[1..] + [m];
      OfServiceSnoc(ms[1..], m, service);
    } else {
      assert (ms + [m])[1..] == [];
    }
  }

  /** The sort of the managed inputs is stable: those of one service keep their order. */
  lemma {:induction false} SortManagedStable(ms: seq<Managed>, service: string)
    ensures OfService(SortManaged(ms), service) == OfService(ms, service)
    decreases |ms|
  {
    if ms != [] {
      var before, last := ms[..|ms| - 1], ms[|ms| - 1];
      assert SortManaged(ms) == InsertManaged(SortManaged(before), last);
      hide OfService, SortManaged, InsertManaged, ByName;
      SortManagedStable(before, service);
      SortManagedByName(before);
      InsertedLast(SortManaged(before), last, service);
      OfServiceSnoc(before, last, service);
      assert ms == before + [last];
    }
  }

  /** A backup name is the id with everything but ASCII letters, digits, hyphens and underscores made an underscore. */
  lemma SafeBackupNameExactly(id: string)
    ensures |SafeBackupName(id)| == |id|
    ensures forall i :: 0 <= i < |id| ==>
      var n, kept := id[i] as int, SafeBackupName(id)[i] == id[i];
      if 48 <= n <= 57 || 65 <= n <= 90 || 97 <= n <= 122 || n == 45 || n == 95 then kept
      else SafeBackupName(id)[i] == 95 as char
  {
  }

  /** A restored file is first copied to a name of its own beside its path. */
  lemma TempPathExactly(p: Path, pid: string)
    requires p != []
    ensures |TempPath(p, pid)| == |p| && TempPath(p, pid)[..|p| - 1] == p[..|p| - 1]
    ensures TempPath(p, pid)[|p| - 1] == "." + p[|p| - 1] + ".apolysis-restore." + pid
  {
  }

  // ---------------------------------------------------------------- capture

  /** What the capture of one source answers and writes: nothing is written unless the source is a file, and then one
      backup copy with its bytes. */
  lemma CaptureSourceExactly(hash: Hash, fs: Fs, root: Path, s: Source)
    ensures var (fs', a) := CaptureSource(hash, fs, root, s); var copy := root + ["files", SafeBackupName(s.id)];
      var below := exists q :: q in fs && fs[q].File? && q < s.path && q != [];
      && (below ==> a == Err(NotADirectory) && fs' == fs)
      && (!below && s.path !in fs ==>
            a == Ok(BackupEntry(s.id, s.path, Missing, None, None, None, None)) && fs' == fs)
      && (!below && s.path in fs && fs[s.path].Dir? ==> a == Err(NotAFileOrLink) && fs' == fs)
      && (!below && s.path in fs && fs[s.path].Link? ==>
            && a == Ok(BackupEntry(s.id, s.path, Symlink, None, None, Some(fs[s.path].target), Some(0x1FF)))
            && fs' == fs)
      && (!below && FileAt(fs, s.path) && copy in fs && !fs[copy].File? ==> a == Err(CannotWriteBackup) && fs' == fs)
      && (!below && FileAt(fs, s.path) && (copy in fs ==> fs[copy].File?) ==>
            && a == Ok(BackupEntry(s.id, s.path, RegularFile, Some(["files", SafeBackupName(s.id)]),
                                   Some(hash(fs[s.path].bytes)), None, Some(fs[s.path].mode)))
            && fs' == fs[copy := File(fs[s.path].bytes, 0x1A4)])
  {
    BelowFileExactly(fs, s.path);
    hide BelowFile;
  }

  lemma BelowFileExactly(fs: Fs, p: Path)
    ensures BelowFile(fs, p) <==> exists q :: q in fs && fs[q].File? && q < p && q != []
  {
    if BelowFile(fs, p) {
      var k :| 0 < k < |p| && FileAt(fs, p[..k]);
      assert p[..k] in fs && fs[p[..k]].File? && p[..k] < p && p[..k] != [];
    }
    if q :| q in fs && fs[q].File? && q < p && q != [] {
      assert q == p[..|q|];
      assert FileAt(fs, p[..|q|]);
    }
  }

  /** The capture went well up to source `k`, failed there and stopped. */
  ghost predicate StoppedAt(hash: Hash, fs: Fs, root: Path, sources: seq<Source>, entries: seq<BackupEntry>, k: nat,
                            after: Fs, error: Failure)
  {
    k < |sources| &&
    var (before, gathered) := CaptureFrom(hash, fs, root, sources[..k], entries);
    gathered.Ok? && CaptureSource(hash, before, root, sources[k]) == (after, Err(error))
  }

  /** A capture that fails has captured the sources before the failing one and stopped there. */
  lemma {:induction false} CaptureStops(hash: Hash, fs: Fs, root: Path, sources: seq<Source>,
                                        entries: seq<BackupEntry>)
    requires CaptureFrom(hash, fs, root, sources, entries).1.Err?
    ensures var (after, a) := CaptureFrom(hash, fs, root, sources, entries);
      exists k :: StoppedAt(hash, fs, root, sources, entries, k, after, a.error)
    decreases |sources|
  {
    hide CaptureSource;
    var (fs1, a) := CaptureSource(hash, fs, root, sources[0]);
    var (after, all) := CaptureFrom(hash, fs, root, sources, entries);
    if a.Err? {
      assert sources[..0] == [];
      assert StoppedAt(hash, fs, root, sources, entries, 0, after, all.error);
    } else {
      CaptureStops(hash, fs1, root, sources[1..], entries + [a.value]);
      var k: nat :| StoppedAt(hash, fs1, root, sources[1..], entries + [a.value], k, after, all.error);
      assert sources[..k + 1][0] == sources[0] && sources[..k + 1][1..] == sources[1..][..k];
      assert StoppedAt(hash, fs, root, sources, entries, k + 1, after, all.error);
    }
  }

  /** A capture does not start, and writes nothing, exactly when something stands in the way of its directory. */
  lemma CaptureStarts(hash: Hash, fs: Fs, root: Path, sources: seq<Source>)
    ensures (exists q :: q <= root + ["files"] && q != [] && !FreeOrDir(fs, q)) ==>
      Capture(hash, fs, root, sources) == (fs, Err(CannotCreateDirectory))
    ensures (forall q :: q <= root + ["files"] && q != [] ==> FreeOrDir(fs, q)) ==>
      CreateDirs(fs, root + ["files"]).Some? &&
      Capture(hash, fs, root, sources) ==
        CaptureFrom(hash, CreateDirs(fs, root + ["files"]).value, root, sources, [])
  {
    CreateDirsExactly(fs, root + ["files"]);
    hide CreateDirs, CaptureFrom, FreeOrDir;
  }

  // ---------------------------------------------------------------- plans

  /** What one entry is planned to, exactly. */
  lemma PlanEntryExactly(hash: Hash, fs: Fs, root: Path, e: BackupEntry)
    ensures var a, copy := PlanEntry(hash, fs, root, e), root + if e.backupPath.Some? then e.backupPath.value else [];
      var readable := e.backupPath.Some? && copy in fs && fs[copy].File?;
      && (e.kind.RegularFile? && e.backupPath.None? ==> a == Err(MissingBackupPath))
      && (e.kind.RegularFile? && e.backupPath.Some? && !readable ==> a == Err(BackupMissing))
      && (e.kind.RegularFile? && readable && e.checksum != Some(hash(fs[copy].bytes)) ==> a == Err(ChecksumMismatch))
      && (e.kind.RegularFile? && readable && e.checksum == Some(hash(fs[copy].bytes)) ==>
            a == Ok(RestoreRegularFile(e.id, e.backupPath.value, e.originalPath, e.mode)))
      && (e.kind.Symlink? && e.target.None? ==> a == Err(MissingTarget))
      && (e.kind.Symlink? && e.target.Some? ==> a == Ok(RestoreSymlink(e.id, e.target.value, e.originalPath)))
      && (e.kind.Missing? ==> a == Ok(EnsureMissing(e.id, e.originalPath)))
  {
  }

  /** What one managed service is planned to, exactly: all the files it reads must have entries, and a state must have
      been captured, of which the last one counts. */
  lemma PlanServiceExactly(manifest: Manifest, services: seq<ServiceState>, m: Managed)
    ensures var a := PlanService(manifest, services, m);
      var known := forall id :: id in m.entryIds ==> HasEntry(manifest, id);
      && (!known ==> a == Err(UnknownManagedEntry))
      && (known && (forall k :: 0 <= k < |services| ==> services[k].name != m.service) ==>
            a == Err(MissingServiceState))
      && (known && (exists k :: 0 <= k < |services| && services[k].name == m.service) ==>
            exists k: nat :: LastState(services, m.service, k) && a == Ok(services[k]))
  {
    forall id ensures EntryOf(manifest.entries, id).Some? <==> HasEntry(manifest, id) {}
    hide EntryOf, HasEntry;
    StateOfExactly(services, m.service);
    hide StateOf, LastState;
  }

  ghost predicate HasEntry(manifest: Manifest, id: string) {
    exists k :: 0 <= k < |manifest.entries| && manifest.entries[k].id == id
  }

  ghost predicate LastState(services: seq<ServiceState>, name: string, k: nat) {
    k < |services| && services[k].name == name && forall j :: k < j < |services| ==> services[j].name != name
  }

  lemma StateOfExactly(services: seq<ServiceState>, name: string)
    ensures var state := StateOf(services, name);
      && (state.None? <==> forall k :: 0 <= k < |services| ==> services[k].name != name)
      && (state.Some? ==> exists k: nat :: LastState(services, name, k) && state.value == services[k])
  {
    var nameOf := (s: ServiceState) => s.name;
    var state := LastNamed(services, nameOf, name);
    if state.Some? {
      var k :| 0 <= k < |services| && services[k] == state.value && NoneBehind(services, nameOf, name, k);
      assert forall j :: k < j < |services| ==> nameOf(services[j]) != name;
      assert LastState(services, name, k);
    } else {
      assert forall k :: 0 <= k < |services| ==> nameOf(services[k]) != name;
    }
  }

  ghost predicate LastEntry(entries: seq<BackupEntry>, id: string, k: nat) {
    k < |entries| && entries[k].id == id && forall j :: k < j < |entries| ==> entries[j].id != id
  }

  lemma EntryOfExactly(entries: seq<BackupEntry>, id: string)
    ensures var e := EntryOf(entries, id);
      && (e.None? <==> forall k :: 0 <= k < |entries| ==> entries[k].id != id)
      && (e.Some? ==> exists k: nat :: LastEntry(entries, id, k) && e.value == entries[k])
  {
    var idOf := (e: BackupEntry) => e.id;
    var e := LastNamed(entries, idOf, id);
    if e.Some? {
      var k :| 0 <= k < |entries| && entries[k] == e.value && NoneBehind(entries, idOf, id, k);
      assert forall j :: k < j < |entries| ==> idOf(entries[j]) != id;
      assert LastEntry(entries, id, k);
    } else {
      assert forall k :: 0 <= k < |entries| ==> idOf(entries[k]) != id;
    }
  }

  // ---------------------------------------------------------------- the checks before an execution

  /** The action is one the manifest entry stands for. */
  ghost predicate StandsFor(hash: Hash, fs: Fs, root: Path, e: BackupEntry, action: Action) {
    match action
    case RestoreRegularFile(_, from, to, _) =>
      && e.kind == RegularFile && e.originalPath == to && e.backupPath == Some(from)
      && root + from in fs && fs[root + from].File? && e.checksum == Some(hash(fs[root + from].bytes))
    case RestoreSymlink(_, target, path) => e.kind == Symlink && e.originalPath == path && e.target == Some(target)
    case EnsureMissing(_, path) => e.kind == Missing && e.originalPath == path
    case RemoveValidationPath(_) => false
  }

  /** Which actions of any plan pass, exactly: none on the root, any removal of a validation-owned path, and otherwise
      those the last manifest entry of their id stands for, with an intact copy for a file. */
  lemma CheckActionExactly(hash: Hash, fs: Fs, root: Path, manifest: Manifest, action: Action)
    ensures CheckAction(hash, fs, root, manifest, action).Ok? <==>
      action.path != [] &&
      (action.RemoveValidationPath? ||
       exists k: nat :: LastEntry(manifest.entries, action.id, k)
                        && StandsFor(hash, fs, root, manifest.entries[k], action))
  {
    if !action.RemoveValidationPath? {
      EntryOfExactly(manifest.entries, action.id);
      hide EntryOf;
      var found := EntryOf(manifest.entries, action.id);
      if found.Some? {
        var k: nat :| LastEntry(manifest.entries, action.id, k) && found.value == manifest.entries[k];
        forall j: nat | LastEntry(manifest.entries, action.id, j) ensures j == k {}
        OneCheck(hash, fs, root, manifest, action, k);
      }
    }
  }

  lemma OneCheck(hash: Hash, fs: Fs, root: Path, manifest: Manifest, action: Action, k: nat)
    requires !action.RemoveValidationPath? && k < |manifest.entries|
    requires EntryOf(manifest.entries, action.id) == Some(manifest.entries[k])
    ensures CheckAction(hash, fs, root, manifest, action).Ok? <==>
      action.path != [] && StandsFor(hash, fs, root, manifest.entries[k], action)
  {
    hide EntryOf;
  }

  /** What a failed check says, in the order of the checks. */
  lemma CheckFailures(hash: Hash, fs: Fs, root: Path, manifest: Manifest, action: Action)
    requires !action.RemoveValidationPath?
    ensures var a, found := CheckAction(hash, fs, root, manifest, action), EntryOf(manifest.entries, action.id);
      var kind := if action.RestoreRegularFile? then RegularFile
        else if action.RestoreSymlink? then Symlink else Missing;
      var kept := action.path != [] && found.Some? && found.value.kind == kind;
      var here := kept && found.value.originalPath == action.path;
      && (a == Err(NotAbsolute) <==> action.path == [])
      && (a == Err(UnknownEntry) <==> action.path != [] && found.None?)
      && (a == Err(KindMismatch) <==> action.path != [] && found.Some? && found.value.kind != kind)
      && (a == Err(PathMismatch) <==> kept && found.value.originalPath != action.path)
      && (a == Err(TargetMismatch) <==>
            action.RestoreSymlink? && here && found.value.target != Some(action.target))
      && (a == Err(MissingBackupPath) <==> action.RestoreRegularFile? && here && found.value.backupPath.None?)
      && (a == Err(BackupPathMismatch) <==>
            && action.RestoreRegularFile? && here && found.value.backupPath.Some?
            && found.value.backupPath != Some(action.fromBackup))
  {
    hide EntryOf;
  }

  /** A service step passes exactly when both its states are those of the last state captured for that service. */
  lemma CheckServiceExactly(services: seq<ServiceState>, state: ServiceState)
    ensures CheckService(services, state).Ok? <==>
      exists k: nat :: LastState(services, state.name, k) && services[k] == state
    ensures CheckService(services, state) == Err(UncapturedService) <==>
      forall k :: 0 <= k < |services| ==> services[k].name != state.name
    ensures CheckService(services, state) == Err(ServiceMismatch) <==>
      exists k: nat :: LastState(services, state.name, k) && services[k] != state
  {
    StateOfExactly(services, state.name);
    hide StateOf;
    if StateOf(services, state.name).Some? {
      var k: nat :| LastState(services, state.name, k) && StateOf(services, state.name).value == services[k];
      forall j: nat | LastState(services, state.name, j) ensures j == k {}
    }
  }

  /** The steps of a plan pass exactly when each passes on its own. */
  lemma {:induction false} EveryStepChecked(hash: Hash, fs: Fs, root: Path, manifest: Manifest,
                                            services: seq<ServiceState>, steps: seq<Step>)
    ensures CheckAll(hash, fs, root, manifest, services, steps).Ok? <==>
      forall step :: step in steps ==> CheckStep(hash, fs, root, manifest, services, step).Ok?
    decreases |steps|
  {
    hide CheckStep;
    if steps != [] {
      assert steps == [steps[0]] + steps[1..];
      EveryStepChecked(hash, fs, root, manifest, services, steps[1..]);
    }
  }

  /** Which plans are let through, exactly. */
  lemma VerifyInputsExactly(hash: Hash, fs: Fs, root: Path, plan: Plan, manifest: Manifest,
                            services: seq<ServiceState>)
    ensures VerifyInputs(hash, fs, root, plan, manifest, services).Ok? <==>
      && plan.schemaVersion == 1 && manifest.schemaVersion == 1
      && (forall step :: step in plan.steps && step.OnFiles? ==>
            CheckAction(hash, fs, root, manifest, step.action).Ok?)
      && (forall step :: step in plan.steps && step.OnService? ==> CheckService(services, step.state).Ok?)
    ensures plan.schemaVersion != 1 || manifest.schemaVersion != 1 ==>
      VerifyInputs(hash, fs, root, plan, manifest, services) == Err(UnsupportedVersion)
  {
    EveryStepChecked(hash, fs, root, manifest, services, plan.steps);
    hide CheckAll, CheckAction, CheckService;
    forall step ensures CheckStep(hash, fs, root, manifest, services, step).Ok? <==>
      if step.OnFiles? then CheckAction(hash, fs, root, manifest, step.action).Ok?
      else CheckService(services, step.state).Ok? {}
    hide CheckStep;
  }

  // ---------------------------------------------------------------- why an action fails

  /** Removals fail on the root and below a file, and then change nothing. */
  lemma RemoveFailures(fs: Fs, p: Path)
    ensures var (fs', a) := RemovePath(fs, p);
      && (a == Err(NotAbsolute) <==> p == [])
      && (a == Err(NotADirectory) <==> p != [] && BelowFile(fs, p))
      && (a == Ok(()) <==> p != [] && !BelowFile(fs, p))
      && (a.Err? ==> fs' == fs)
  {
    hide BelowFile;
  }

  /** Restoring a file fails, in this order, on the root, when a directory cannot be created, when one is in the way,
      and when the copy cannot be read or its first name cannot be written; nothing changes then but that directories
      may have been added. */
  lemma RestoreFileFailures(fs: Fs, root: Path, from: Path, to: Path, mode: Option<Mode>, pid: string)
    ensures var (fs', a) := RestoreFile(fs, root, from, to, mode, pid);
      var way, blocked := to != [] && WayFree(fs, to), to in fs && fs[to].Dir?;
      && (a == Err(NotAbsolute) <==> to == [])
      && (a == Err(CannotCreateDirectory) <==> to != [] && !WayFree(fs, to))
      && (a == Err(DirectoryInTheWay) <==> way && blocked)
      && (a == Err(CopyFailed) <==>
            way && !blocked &&
            (!FileAt(fs, root + from) || (TempPath(to, pid) in fs && !fs[TempPath(to, pid)].File?)))
      && (a.Err? ==> fs' == fs || (to != [] && OnlyDirsAdded(fs, fs', Parent(to))))
  {
    if to != [] {
      WayToParent(fs, to);
      CreateDirsEffect(fs, Parent(to));
      assert !(to <= Parent(to)) && !(TempPath(to, pid) <= Parent(to));
    }
    hide CreateDirs, WayFree;
  }

  /** Restoring a link fails only on the root and when a directory cannot be created. */
  lemma RestoreLinkFailures(fs: Fs, target: string, path: Path)
    ensures var (fs', a) := RestoreLink(fs, target, path);
      && (a == Err(NotAbsolute) <==> path == [])
      && (a == Err(CannotCreateDirectory) <==> path != [] && !WayFree(fs, path))
      && (a.Ok? <==> path != [] && WayFree(fs, path))
      && (a.Err? ==> fs' == fs)
  {
    if path != [] {
      WayToParent(fs, path);
      if WayFree(fs, path) { NoFileOnCreatedWay(fs, path); }
    }
    hide CreateDirs, WayFree, BelowFile;
  }

  /** A service is restored by two commands; when the first is refused the second is not issued. */
  lemma ServiceFailures(issued: seq<Command>, state: ServiceState, controller: Controller)
    ensures var (after, a) := RestoreService(issued, state, controller);
      var first, second := SetUnitFile(state.name, state.unitFileState), SetActive(state.name, state.activeState);
      && (a == Ok(()) <==> controller(issued, first) && controller(issued + [first], second))
      && (a.Err? ==> a.error == ServiceFailed)
      && after == issued + if controller(issued, first) then [first, second] else [first]
  {
    var first, second := SetUnitFile(state.name, state.unitFileState), SetActive(state.name, state.activeState);
    assert issued + [first] + [second] == issued + [first, second];
  }

  // ---------------------------------------------------------------- where an execution stops

  /** The host after the first `k` steps, each done in turn. */
  function Done(w: World, root: Path, steps: seq<Step>, k: nat, controller: Controller, pid: string): World
    requires k <= |steps|
  {
    if k == 0 then w else Perform(Done(w, root, steps, k - 1, controller, pid), root, steps[k - 1], controller, pid).0
  }

  /** The first `k` steps were not interrupted and went well. */
  ghost predicate WentWell(w: World, root: Path, steps: seq<Step>, k: nat, sur: Surroundings, pid: string)
    requires k <= |steps|
  {
    forall j: nat :: j < k ==> j !in sur.faults && DoneWell(w, root, steps, j, sur, pid)
  }

  ghost predicate DoneWell(w: World, root: Path, steps: seq<Step>, j: nat, sur: Surroundings, pid: string)
    requires j < |steps|
  {
    Perform(Done(w, root, steps, j, sur.controller, pid), root, steps[j], sur.controller, pid).1.Ok?
  }

  lemma {:induction false} RunStops(w: World, root: Path, steps: seq<Step>, k: nat, sur: Surroundings, pid: string)
    requires k <= |steps| && WentWell(w, root, steps, k, sur, pid)
    ensures var (after, a) := RunFrom(Done(w, root, steps, k, sur.controller, pid), root, steps, k, sur, pid);
      if a.Ok? then
        && WentWell(w, root, steps, |steps|, sur, pid)
        && after == Done(w, root, steps, |steps|, sur.controller, pid) && a.value == |steps|
      else exists m: nat :: StopsAt(w, root, steps, m, sur, pid, after, a.error)
    decreases |steps| - k
  {
    hide Perform;
    if k < |steps| {
      var before := Done(w, root, steps, k, sur.controller, pid);
      var (after, a) := RunFrom(before, root, steps, k, sur, pid);
      if k in sur.faults || Perform(before, root, steps[k], sur.controller, pid).1.Err? {
        assert StopsAt(w, root, steps, k, sur, pid, after, a.error);
      } else {
        assert DoneWell(w, root, steps, k, sur, pid);
        RunStops(w, root, steps, k + 1, sur, pid);
      }
    }
  }

  /** Step `m` is the first that is interrupted or fails: an interrupted one changes nothing, and a failing one is the
      last that changes anything. */
  ghost predicate StopsAt(w: World, root: Path, steps: seq<Step>, m: nat, sur: Surroundings, pid: string, after: World,
                          error: Failure)
  {
    m < |steps| && WentWell(w, root, steps, m, sur, pid) &&
    var before := Done(w, root, steps, m, sur.controller, pid);
    if m in sur.faults then after == before && error == Interrupted
    else Perform(before, root, steps[m], sur.controller, pid) == (after, Err(error))
  }

  /** An execution answers Ok exactly with the number of steps of the plan, all of them done in order; otherwise nothing
      was changed, when the checks fail, or every step before the failing one was done and none behind it. */
  lemma ExecuteStops(hash: Hash, w: World, root: Path, plan: Plan, manifest: Manifest, services: seq<ServiceState>,
                     sur: Surroundings, pid: string)
    ensures var (after, a) := Execute(hash, w, root, plan, manifest, services, sur, pid);
      var v := VerifyInputs(hash, w.fs, root, plan, manifest, services);
      if v.Err? then after == w && a == Err(v.error)
      else if a.Ok? then
        && WentWell(w, root, plan.steps, |plan.steps|, sur, pid)
        && after == Done(w, root, plan.steps, |plan.steps|, sur.controller, pid) && a.value == |plan.steps|
      else exists m: nat :: StopsAt(w, root, plan.steps, m, sur, pid, after, a.error)
  {
    hide VerifyInputs, RunFrom, StopsAt;
    assert Done(w, root, plan.steps, 0, sur.controller, pid) == w;
    RunStops(w, root, plan.steps, 0, sur, pid);
  }
}
