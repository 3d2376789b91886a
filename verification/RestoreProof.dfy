/** Capture and restore are inverse: when capture, planning and execution all answer Ok, every captured path is again
    what it was when it was captured, whatever happened in between. */
module RestoreProof {
  import opened Common
  import opened Restore

  /** Same node, or absent in both. */
  ghost predicate SameAt(fs: Fs, fs': Fs, p: Path) {
    (p in fs' <==> p in fs) && (p in fs ==> fs'[p] == fs[p])
  }

  // ---------------------------------------------------------------- what each step leaves alone

  lemma BelowParent(p: Path, q: Path)
    requires p != [] && q <= Parent(p)
    ensures q < p
  {
    assert p[..|q|] == Parent(p)[..|q|];
  }

  /** Nothing changed but that some directories at or above `p` were added. */
  ghost predicate OnlyDirsAdded(fs: Fs, fs': Fs, p: Path) {
    && (forall q :: q in fs ==> q in fs' && fs'[q] == fs[q])
    && (forall q :: q in fs' ==> q in fs || (fs'[q] == Dir && q <= p))
  }

  lemma {:induction false} CreateDirsEffect(fs: Fs, p: Path)
    ensures CreateDirs(fs, p).Some? ==> OnlyDirsAdded(fs, CreateDirs(fs, p).value, p)
    decreases |p|
  {
    if p != [] && CreateDirs(fs, p).Some? {
      CreateDirsEffect(fs, Parent(p));
      var above, fs' := CreateDirs(fs, Parent(p)).value, CreateDirs(fs, p).value;
      forall q | q in fs' && q !in fs ensures fs'[q] == Dir && q <= p {
        if q != p {
          assert q in above;
          BelowParent(p, q);
        }
      }
    }
  }

  /** The paths an action may touch: its own, what is under it, the directories above it and the temporary name. */
  ghost predicate Touches(action: Action, pid: string, q: Path)
    requires action.path != []
  {
    || action.path <= q
    || ((action.RestoreRegularFile? || action.RestoreSymlink?) && q < action.path)
    || (action.RestoreRegularFile? && q == TempPath(action.path, pid))
  }

  lemma ApplyLeavesAlone(fs: Fs, root: Path, action: Action, pid: string, q: Path)
    requires Apply(fs, root, action, pid).1.Ok?
    requires action.path != [] && !Touches(action, pid, q)
    ensures SameAt(fs, Apply(fs, root, action, pid).0, q)
  {
    if action.RestoreRegularFile? || action.RestoreSymlink? {
      CreateDirsEffect(fs, Parent(action.path));
      var prepared := CreateDirs(fs, Parent(action.path)).value;
      if q <= Parent(action.path) { BelowParent(action.path, q); }
      assert (q in prepared ==> q in fs) && (q in fs ==> q in prepared && prepared[q] == fs[q]);
    }
  }

  /** An action only ever adds directories where it is not aiming, so a backup copy stays what it was or is gone. */
  lemma ApplyKeepsFile(fs: Fs, root: Path, action: Action, pid: string, q: Path)
    requires Apply(fs, root, action, pid).1.Ok?
    requires action.path != [] && q != action.path && q != TempPath(action.path, pid)
    ensures var fs' := Apply(fs, root, action, pid).0;
      q in fs' && fs'[q].File? ==> q in fs && fs'[q] == fs[q]
  {
    if action.RestoreRegularFile? || action.RestoreSymlink? {
      CreateDirsEffect(fs, Parent(action.path));
      var prepared := CreateDirs(fs, Parent(action.path)).value;
      assert q in prepared && prepared[q].File? ==> q in fs && prepared[q] == fs[q];
    }
  }

  // ---------------------------------------------------------------- what a capture records

  /** The entry says what is at its path. */
  ghost predicate Describes(hash: Hash, fs: Fs, e: BackupEntry) {
    match e.kind
    case Missing => e.originalPath !in fs
    case Symlink =>
      && e.originalPath in fs && fs[e.originalPath].Link?
      && e.target == Some(fs[e.originalPath].target)
    case RegularFile =>
      && e.originalPath in fs && fs[e.originalPath].File?
      && e.checksum == Some(hash(fs[e.originalPath].bytes))
      && e.mode == Some(fs[e.originalPath].mode)
      && e.backupPath == Some(BackupPathOf(e.id))
  }

  predicate EntryFor(s: Source, e: BackupEntry) {
    e.id == s.id && e.originalPath == s.path
  }

  ghost predicate OutsideRoot(sources: seq<Source>, root: Path) {
    forall i :: 0 <= i < |sources| ==> !(root <= sources[i].path)
  }

  /** What capture may have changed so far: directories created above, and anything under the root. */
  ghost predicate OnlyDirsOutside(before: Fs, fs: Fs, root: Path) {
    forall q :: !(root <= q) ==>
      (q in before ==> q in fs && fs[q] == before[q]) && (q in fs && q !in before ==> fs[q] == Dir)
  }

  lemma CaptureSourceDescribes(hash: Hash, before: Fs, fs: Fs, root: Path, s: Source)
    requires OnlyDirsOutside(before, fs, root) && !(root <= s.path)
    requires CaptureSource(hash, fs, root, s).1.Ok?
    ensures var (fs', a) := CaptureSource(hash, fs, root, s);
      && OnlyDirsOutside(before, fs', root)
      && Describes(hash, before, a.value) && a.value.originalPath == s.path && a.value.id == s.id
  {
    assert root <= root + BackupPathOf(s.id);
  }

  lemma {:induction false} CaptureFromDescribes(hash: Hash, before: Fs, fs: Fs, root: Path, sources: seq<Source>,
                                                entries: seq<BackupEntry>)
    requires OnlyDirsOutside(before, fs, root) && OutsideRoot(sources, root)
    requires CaptureFrom(hash, fs, root, sources, entries).1.Ok?
    requires forall i :: 0 <= i < |entries| ==> Describes(hash, before, entries[i])
    ensures var m := CaptureFrom(hash, fs, root, sources, entries).1.value;
      && m.schemaVersion == 1
      && |m.entries| == |entries| + |sources|
      && entries <= m.entries
      && (forall i :: 0 <= i < |m.entries| ==> Describes(hash, before, m.entries[i]))
      && (forall i :: 0 <= i < |sources| ==> EntryFor(sources[i], m.entries[|entries| + i]))
    decreases |sources|
  {
    if sources != [] {
      CaptureSourceDescribes(hash, before, fs, root, sources[0]);
      var (fs1, a) := CaptureSource(hash, fs, root, sources[0]);
      var more := entries + [a.value];
      CaptureFromDescribes(hash, before, fs1, root, sources[1..], more);
      var m := CaptureFrom(hash, fs, root, sources, entries).1.value;
      assert m == CaptureFrom(hash, fs1, root, sources[1..], more).1.value;
      assert m.entries[|entries|] == more[|entries|];
      forall i | 0 <= i < |sources| ensures EntryFor(sources[i], m.entries[|entries| + i]) {
        if i > 0 { assert EntryFor(sources[1..][i - 1], m.entries[|more| + (i - 1)]); }
      }
    }
  }

  lemma CaptureDescribes(hash: Hash, fs: Fs, root: Path, sources: seq<Source>)
    requires OutsideRoot(sources, root) && Capture(hash, fs, root, sources).1.Ok?
    ensures var m := Capture(hash, fs, root, sources).1.value;
      && |m.entries| == |sources|
      && (forall i :: 0 <= i < |sources| ==> Describes(hash, fs, m.entries[i]))
      && (forall i :: 0 <= i < |sources| ==> EntryFor(sources[i], m.entries[i]))
  {
    CreateDirsEffect(fs, root + ["files"]);
    var prepared := CreateDirs(fs, root + ["files"]).value;
    assert OnlyDirsOutside(fs, prepared, root);
    CaptureFromDescribes(hash, fs, prepared, root, sources, []);
  }

  // ---------------------------------------------------------------- what a plan orders

  /** The action restores the entry. */
  predicate ActionFor(e: BackupEntry, action: Action) {
    match e.kind
    case RegularFile =>
      e.backupPath.Some? && action == RestoreRegularFile(e.id, e.backupPath.value, e.originalPath, e.mode)
    case Symlink => e.target.Some? && action == RestoreSymlink(e.id, e.target.value, e.originalPath)
    case Missing => action == EnsureMissing(e.id, e.originalPath)
  }

  lemma {:induction false} PlanFromOrders(hash: Hash, fs: Fs, root: Path, entries: seq<BackupEntry>,
                                          actions: seq<Action>)
    requires PlanFrom(hash, fs, root, entries, actions).Ok?
    ensures var all := PlanFrom(hash, fs, root, entries, actions).value;
      && |all| == |actions| + |entries| && actions <= all
      && forall i :: 0 <= i < |entries| ==> ActionFor(entries[i], all[|actions| + i])
    decreases |entries|
  {
    if entries != [] {
      var a := PlanEntry(hash, fs, root, entries[0]).value;
      PlanFromOrders(hash, fs, root, entries[1..], actions + [a]);
      var all := PlanFrom(hash, fs, root, entries, actions).value;
      assert all[|actions|] == (actions + [a])[|actions|];
      forall i | 0 <= i < |entries| ensures ActionFor(entries[i], all[|actions| + i]) {
        if i > 0 { assert ActionFor(entries[1..][i - 1], all[|actions + [a]| + (i - 1)]); }
      }
    }
  }

  // ---------------------------------------------------------------- what an execution checks first

  lemma {:induction false} CheckAllMeans(hash: Hash, fs: Fs, root: Path, manifest: Manifest,
                                         services: seq<ServiceState>, steps: seq<Step>, k: nat)
    requires CheckAll(hash, fs, root, manifest, services, steps).Ok? && k < |steps|
    ensures CheckStep(hash, fs, root, manifest, services, steps[k]).Ok?
    decreases |steps|
  {
    hide CheckStep;
    if k > 0 { CheckAllMeans(hash, fs, root, manifest, services, steps[1..], k - 1); }
  }

  ghost predicate CollisionFree(hash: Hash) {
    forall a: Bytes, b: Bytes :: hash(a) == hash(b) ==> a == b
  }

  /** The backup copy an action reads holds the captured bytes, or cannot be read any more. */
  ghost predicate BackupGood(captured: Fs, fs: Fs, root: Path, action: Action) {
    action.RestoreRegularFile? && root + action.fromBackup in fs && fs[root + action.fromBackup].File? ==>
      && action.path in captured && captured[action.path].File?
      && fs[root + action.fromBackup].bytes == captured[action.path].bytes
  }

  /** The checks made before execution compare the copy's checksum with a manifest entry for the same path, so even
      when two ids share a backup name a copy that passes holds the captured bytes. */
  lemma CheckedBackupGood(hash: Hash, captured: Fs, fs: Fs, root: Path, manifest: Manifest, action: Action)
    requires CollisionFree(hash)
    requires forall i :: 0 <= i < |manifest.entries| ==> Describes(hash, captured, manifest.entries[i])
    requires CheckAction(hash, fs, root, manifest, action).Ok?
    ensures action.path != [] && BackupGood(captured, fs, root, action)
  {
    if action.RestoreRegularFile? {
      var e := EntryOf(manifest.entries, action.id).value;
      assert e in manifest.entries;
      assert Describes(hash, captured, e);
    }
  }

  // ---------------------------------------------------------------- what an execution does

  /** No source lies under another, under a validation-owned path, or has the name a restore first copies to. */
  ghost predicate SourcesApart(sources: seq<Source>, owned: seq<Path>, pid: string) {
    && (forall i, j :: 0 <= i < |sources| && 0 <= j < |sources| ==> !(sources[i].path < sources[j].path))
    && (forall i, j :: 0 <= i < |sources| && 0 <= j < |sources| && sources[j].path != [] ==>
          sources[i].path != TempPath(sources[j].path, pid))
    && (forall i, j :: 0 <= i < |sources| && 0 <= j < |owned| ==> !(owned[j] <= sources[i].path))
  }

  /** What the actions of a plan are, one by one: the entries in order, then removals of validation-owned paths. */
  ghost predicate Ordered(sources: seq<Source>, entries: seq<BackupEntry>, owned: seq<Path>, actions: seq<Action>) {
    && |entries| == |sources| && |actions| == |sources| + |owned|
    && (forall i :: 0 <= i < |sources| ==> entries[i].originalPath == sources[i].path)
    && (forall i :: 0 <= i < |sources| ==> ActionFor(entries[i], actions[i]))
    && (forall j :: 0 <= j < |owned| ==> actions[|sources| + j] == RemoveValidationPath(owned[j]))
  }

  /** An action puts back what its entry describes, given a good backup copy. */
  lemma ApplyRestores(hash: Hash, captured: Fs, fs: Fs, root: Path, e: BackupEntry, action: Action, pid: string)
    requires Describes(hash, captured, e) && ActionFor(e, action) && e.originalPath != []
    requires BackupGood(captured, fs, root, action)
    requires Apply(fs, root, action, pid).1.Ok?
    ensures SameAt(captured, Apply(fs, root, action, pid).0, e.originalPath)
  {
    var p := e.originalPath;
    if e.kind.RegularFile? {
      var prepared := CreateDirs(fs, Parent(p)).value;
      var backup := root + e.backupPath.value;
      CreateDirsEffect(fs, Parent(p));
      assert backup in prepared && prepared[backup].File?;
      assert backup in fs && prepared[backup] == fs[backup];
      TempApart(p, pid);
    }
  }

  lemma TempApart(p: Path, pid: string)
    requires p != []
    ensures TempPath(p, pid) != p
  {
    var name := p[|p| - 1];
    assert TempPath(p, pid)[|p| - 1] == "." + name + ".apolysis-restore." + pid;
    assert |TempPath(p, pid)[|p| - 1]| > |name|;
  }

  /** The backup copies still to be read are good after any action of the plan. */
  lemma ApplyKeepsBackups(captured: Fs, fs: Fs, root: Path, action: Action, later: Action, pid: string)
    requires Apply(fs, root, action, pid).1.Ok? && action.path != []
    requires BackupGood(captured, fs, root, later)
    requires later.RestoreRegularFile? ==>
      root + later.fromBackup != action.path && root + later.fromBackup != TempPath(action.path, pid)
    ensures BackupGood(captured, Apply(fs, root, action, pid).0, root, later)
  {
    if later.RestoreRegularFile? {
      ApplyKeepsFile(fs, root, action, pid, root + later.fromBackup);
    }
  }

  /** A backup copy never has the path or the temporary name of a source outside the root. */
  lemma BackupApart(root: Path, id: string, p: Path, pid: string)
    requires p != [] && !(root <= p)
    ensures root + BackupPathOf(id) != p && root + BackupPathOf(id) != TempPath(p, pid)
  {
    var backup, temp := root + BackupPathOf(id), TempPath(p, pid);
    if root <= Parent(p) { BelowParent(p, root); }
    assert root <= root + ["files"] && root <= backup;
    assert backup[..|backup| - 1] == root + ["files"];
    assert temp[..|temp| - 1] == Parent(p);
  }

  /** The situation before action `k`: earlier sources are back, and the copies still to be read are good. */
  ghost predicate Progress(captured: Fs, fs: Fs, root: Path, sources: seq<Source>, actions: seq<Action>, k: nat)
    requires |sources| <= |actions|
  {
    && (forall i :: 0 <= i < |sources| && i < k ==> SameAt(captured, fs, sources[i].path))
    && (forall i :: k <= i < |sources| ==> BackupGood(captured, fs, root, actions[i]))
  }

  lemma StepProgress(hash: Hash, captured: Fs, fs: Fs, root: Path, sources: seq<Source>, entries: seq<BackupEntry>,
                     owned: seq<Path>, actions: seq<Action>, k: nat, pid: string)
    requires Ordered(sources, entries, owned, actions) && SourcesApart(sources, owned, pid) && OutsideRoot(sources,
        root)
    requires forall i :: 0 <= i < |entries| ==> Describes(hash, captured, entries[i])
    requires forall i :: 0 <= i < |actions| ==> actions[i].path != []
    requires k < |actions| && Progress(captured, fs, root, sources, actions, k)
    requires Apply(fs, root, actions[k], pid).1.Ok?
    ensures Progress(captured, Apply(fs, root, actions[k], pid).0, root, sources, actions, k + 1)
  {
    var fs' := Apply(fs, root, actions[k], pid).0;
    if k < |sources| {
      assert ActionFor(entries[k], actions[k]) && actions[k].path == sources[k].path;
      ApplyRestores(hash, captured, fs, root, entries[k], actions[k], pid);
    } else {
      assert actions[k] == RemoveValidationPath(owned[k - |sources|]);
    }
    hide Apply, BackupGood, Describes;
    forall i | 0 <= i < |sources| && i < k + 1 ensures SameAt(captured, fs', sources[i].path) {
      if i != k && sources[i].path != actions[k].path {
        assert SameAt(captured, fs, sources[i].path);
        assert !Touches(actions[k], pid, sources[i].path);
        ApplyLeavesAlone(fs, root, actions[k], pid, sources[i].path);
      }
    }
    forall i | k + 1 <= i < |sources| ensures BackupGood(captured, fs', root, actions[i]) {
      LaterBackup(hash, captured, root, entries[i], actions[i], actions[k].path, pid);
      ApplyKeepsBackups(captured, fs, root, actions[k], actions[i], pid);
    }
  }

  lemma LaterBackup(hash: Hash, captured: Fs, root: Path, e: BackupEntry, later: Action, p: Path, pid: string)
    requires Describes(hash, captured, e) && ActionFor(e, later) && p != [] && !(root <= p)
    ensures later.RestoreRegularFile? ==> root + later.fromBackup != p && root + later.fromBackup != TempPath(p, pid)
  {
    BackupApart(root, e.id, p, pid);
  }

  /** The file actions alone, in order. */
  function ApplyFrom(fs: Fs, root: Path, actions: seq<Action>, k: nat, faults: set<nat>, pid: string): (Fs, Answer<nat>)
    requires k <= |actions|
    decreases |actions| - k
  {
    if k == |actions| then (fs, Ok(k))
    else if k in faults then (fs, Err(Interrupted))
    else
      var (fs1, a) := Apply(fs, root, actions[k], pid);
      if a.Err? then (fs1, Err(a.error)) else ApplyFrom(fs1, root, actions, k + 1, faults, pid)
  }

  lemma {:induction false} ApplyFromRestores(hash: Hash, captured: Fs, fs: Fs, root: Path, sources: seq<Source>,
                                             entries: seq<BackupEntry>, owned: seq<Path>, actions: seq<Action>, k: nat,
                                             faults: set<nat>, pid: string)
    requires Ordered(sources, entries, owned, actions) && SourcesApart(sources, owned, pid) && OutsideRoot(sources,
        root)
    requires forall i :: 0 <= i < |entries| ==> Describes(hash, captured, entries[i])
    requires forall i :: 0 <= i < |actions| ==> actions[i].path != []
    requires k <= |actions| && Progress(captured, fs, root, sources, actions, k)
    requires ApplyFrom(fs, root, actions, k, faults, pid).1.Ok?
    ensures forall i :: 0 <= i < |sources| ==>
      SameAt(captured, ApplyFrom(fs, root, actions, k, faults, pid).0, sources[i].path)
    decreases |actions| - k
  {
    hide Apply, SourcesApart, Describes;
    if k < |actions| {
      StepProgress(hash, captured, fs, root, sources, entries, owned, actions, k, pid);
      ApplyFromRestores(hash, captured, Apply(fs, root, actions[k], pid).0, root, sources, entries, owned, actions,
          k + 1,
                        faults, pid);
    }
  }

  lemma PlanOrders(hash: Hash, fs: Fs, root: Path, sources: seq<Source>, manifest: Manifest, owned: seq<Path>,
                   services: seq<ServiceState>, managed: seq<Managed>)
    returns (actions: seq<Action>, states: seq<ServiceState>)
    requires PlanRestore(hash, fs, root, manifest, owned, services, managed).Ok?
    requires |manifest.entries| == |sources|
    requires forall i :: 0 <= i < |sources| ==> manifest.entries[i].originalPath == sources[i].path
    ensures PlanRestore(hash, fs, root, manifest, owned, services, managed).value.steps
            == FileSteps(actions) + ServiceSteps(states)
    ensures Ordered(sources, manifest.entries, SortPaths(owned), actions)
    ensures PlanServices(manifest, services, SortManaged(managed), []) == Ok(states)
  {
    hide PlanFrom, PlanServices, FileSteps, ServiceSteps, SortPaths, SortManaged, ActionFor;
    PlanFromOrders(hash, fs, root, manifest.entries, []);
    actions := PlanFrom(hash, fs, root, manifest.entries, []).value + Removals(SortPaths(owned));
    states := PlanServices(manifest, services, SortManaged(managed), []).value;
  }

  lemma CheckedPlan(hash: Hash, captured: Fs, fs: Fs, root: Path, plan: Plan, manifest: Manifest,
                    services: seq<ServiceState>, actions: seq<Action>, states: seq<ServiceState>, k: nat)
    requires CollisionFree(hash) && VerifyInputs(hash, fs, root, plan, manifest, services).Ok? && k < |actions|
    requires plan.steps == FileSteps(actions) + ServiceSteps(states)
    requires forall i :: 0 <= i < |manifest.entries| ==> Describes(hash, captured, manifest.entries[i])
    ensures actions[k].path != [] && BackupGood(captured, fs, root, actions[k])
  {
    assert plan.steps[k] == OnFiles(actions[k]);
    hide CheckAction, CheckService, BackupGood, Describes, CollisionFree;
    CheckAllMeans(hash, fs, root, manifest, services, plan.steps, k);
    CheckedBackupGood(hash, captured, fs, root, manifest, actions[k]);
  }

  /** The commands that restore some services, in order. */
  function CommandsOf(states: seq<ServiceState>): seq<Command> {
    if states == [] then []
    else [SetUnitFile(states[0].name, states[0].unitFileState)] + [SetActive(states[0].name, states[0].activeState)]
         + CommandsOf(states[1..])
  }

  /** The service steps issue their commands in order and leave the files alone. */
  lemma {:induction false} RunServices(w: World, root: Path, steps: seq<Step>, k: nat, states: seq<ServiceState>,
                                       sur: Surroundings, pid: string)
    requires k <= |steps| && steps[k..] == ServiceSteps(states)
    ensures var (after, a) := RunFrom(w, root, steps, k, sur, pid);
      after.fs == w.fs && (a.Ok? ==> after.issued == w.issued + CommandsOf(states))
    decreases |steps| - k
  {
    if states == [] {
      assert w.issued + [] == w.issued;
    } else {
      assert steps[k] == steps[k..][0] == OnService(states[0]);
      assert steps[k + 1..] == steps[k..][1..] == ServiceSteps(states[1..]);
      var (issued, a) := RestoreService(w.issued, states[0], sur.controller);
      if k !in sur.faults && a.Ok? {
        RunServices(w.(issued := issued), root, steps, k + 1, states[1..], sur, pid);
        SameCommands(w.issued, states);
      }
    }
  }

  lemma SameCommands(issued: seq<Command>, states: seq<ServiceState>)
    requires states != []
    ensures var s := states[0];
      issued + [SetUnitFile(s.name, s.unitFileState)] + [SetActive(s.name, s.activeState)] + CommandsOf(states[1..])
      == issued + CommandsOf(states)
  {
  }

  /** A run over file steps and then service steps does the file actions first; if it succeeds so do they, and what is
      issued are the service commands in order. */
  lemma {:induction false} RunSplits(w: World, root: Path, steps: seq<Step>, actions: seq<Action>, k: nat,
                                     states: seq<ServiceState>, sur: Surroundings, pid: string)
    requires k <= |actions| && steps == FileSteps(actions) + ServiceSteps(states)
    requires RunFrom(w, root, steps, k, sur, pid).1.Ok?
    ensures ApplyFrom(w.fs, root, actions, k, sur.faults, pid).1.Ok?
    ensures var after := RunFrom(w, root, steps, k, sur, pid).0;
      && after.fs == ApplyFrom(w.fs, root, actions, k, sur.faults, pid).0
      && after.issued == w.issued + CommandsOf(states)
    decreases |actions| - k
  {
    hide Apply;
    if k == |actions| {
      assert steps[k..] == ServiceSteps(states);
      RunServices(w, root, steps, k, states, sur, pid);
    } else {
      assert steps[k] == OnFiles(actions[k]);
      RunSplits(w.(fs := Apply(w.fs, root, actions[k], pid).0), root, steps, actions, k + 1, states, sur, pid);
    }
  }

  lemma ApartFromSorted(sources: seq<Source>, owned: seq<Path>, pid: string)
    requires SourcesApart(sources, owned, pid)
    ensures SourcesApart(sources, SortPaths(owned), pid)
  {
    var sorted := SortPaths(owned);
    forall i, j | 0 <= i < |sources| && 0 <= j < |sorted| ensures !(sorted[j] <= sources[i].path) {
      assert sorted[j] in owned;
      var k :| 0 <= k < |owned| && owned[k] == sorted[j];
    }
  }

  /** Capture/restore identity: capture on one file system, plan on any other, execute on any third. If all three answer
      Ok, every captured path is exactly what it was at capture: same kind, same bytes or link target, same file mode,
      or absent. Nothing is assumed of the backup directory: its copies are checked again before anything is changed. */
  lemma RestoreIdentity(hash: Hash, before: Fs, planned: Fs, now: World, root: Path, sources: seq<Source>,
                        owned: seq<Path>, services: seq<ServiceState>, managed: seq<Managed>, sur: Surroundings,
                        pid: string)
    requires CollisionFree(hash) && SourcesApart(sources, owned, pid) && OutsideRoot(sources, root)
    requires Capture(hash, before, root, sources).1.Ok?
    requires var m := Capture(hash, before, root, sources).1.value;
      var plan := PlanRestore(hash, planned, root, m, owned, services, managed);
      plan.Ok? && Execute(hash, now, root, plan.value, m, services, sur, pid).1.Ok?
    ensures var m := Capture(hash, before, root, sources).1.value;
      var plan := PlanRestore(hash, planned, root, m, owned, services, managed).value;
      var after := Execute(hash, now, root, plan, m, services, sur, pid).0;
      forall i :: 0 <= i < |sources| ==> SameAt(before, after.fs, sources[i].path)
  {
    CaptureDescribes(hash, before, root, sources);
    var m := Capture(hash, before, root, sources).1.value;
    var actions, states := PlanOrders(hash, planned, root, sources, m, owned, services, managed);
    var plan := PlanRestore(hash, planned, root, m, owned, services, managed).value;
    ApartFromSorted(sources, owned, pid);
    hide Capture, PlanRestore, VerifyInputs, Describes, SourcesApart, Ordered, BackupGood, ApplyFrom, RunFrom,
        SortPaths;
    assert VerifyInputs(hash, now.fs, root, plan, m, services).Ok?;
    RunSplits(now, root, plan.steps, actions, 0, states, sur, pid);
    forall k | 0 <= k < |actions| ensures actions[k].path != [] && BackupGood(before, now.fs, root, actions[k]) {
      CheckedPlan(hash, before, now.fs, root, plan, m, services, actions, states, k);
    }
    OrderedSizes(sources, m.entries, SortPaths(owned), actions);
    assert Progress(before, now.fs, root, sources, actions, 0);
    ApplyFromRestores(hash, before, now.fs, root, sources, m.entries, SortPaths(owned), actions, 0, sur.faults, pid);
  }

  lemma OrderedSizes(sources: seq<Source>, entries: seq<BackupEntry>, owned: seq<Path>, actions: seq<Action>)
    requires Ordered(sources, entries, owned, actions)
    ensures |actions| == |sources| + |owned|
  {
  }

  lemma {:induction false} RemovalsKeepAbsent(fs: Fs, root: Path, actions: seq<Action>, k: nat, faults: set<nat>,
                                              pid: string, p: Path)
    requires k <= |actions| && forall i :: k <= i < |actions| ==> actions[i].RemoveValidationPath?
    requires p !in fs
    ensures p !in ApplyFrom(fs, root, actions, k, faults, pid).0
    decreases |actions| - k
  {
    if k < |actions| && k !in faults {
      var (fs1, a) := Apply(fs, root, actions[k], pid);
      if a.Ok? { RemovalsKeepAbsent(fs1, root, actions, k + 1, faults, pid, p); }
    }
  }

  lemma {:induction false} LateRemovalsHold(fs: Fs, root: Path, actions: seq<Action>, n: nat, k: nat, faults: set<nat>,
                                            pid: string)
    requires n <= |actions| && k <= |actions| && forall i :: n <= i < |actions| ==> actions[i].RemoveValidationPath?
    requires ApplyFrom(fs, root, actions, k, faults, pid).1.Ok?
    ensures forall i :: n <= i < |actions| && k <= i ==>
        actions[i].path !in ApplyFrom(fs, root, actions, k, faults, pid).0
    decreases |actions| - k
  {
    if k < |actions| {
      var fs1 := Apply(fs, root, actions[k], pid).0;
      LateRemovalsHold(fs1, root, actions, n, k + 1, faults, pid);
      if n <= k { RemovalsKeepAbsent(fs1, root, actions, k + 1, faults, pid, actions[k].path); }
    }
  }

  /** Whatever was captured and whatever happened since: after a plan was executed with success no validation-owned path
      is left. */
  lemma RestoreRemovesOwned(hash: Hash, planned: Fs, now: World, root: Path, manifest: Manifest, owned: seq<Path>,
                            services: seq<ServiceState>, managed: seq<Managed>, sur: Surroundings, pid: string)
    requires var plan := PlanRestore(hash, planned, root, manifest, owned, services, managed);
      plan.Ok? && Execute(hash, now, root, plan.value, manifest, services, sur, pid).1.Ok?
    ensures var plan := PlanRestore(hash, planned, root, manifest, owned, services, managed).value;
      var after := Execute(hash, now, root, plan, manifest, services, sur, pid).0;
      forall p :: p in owned ==> p !in after.fs
  {
    hide PlanRestore, VerifyInputs, Apply, RunFrom, ApplyFrom, Ordered, SortPaths;
    var plan := PlanRestore(hash, planned, root, manifest, owned, services, managed).value;
    var n, sorted := |manifest.entries|, SortPaths(owned);
    var sources := seq(n, i requires 0 <= i < n => Source("", manifest.entries[i].originalPath));
    var actions, states := PlanOrders(hash, planned, root, sources, manifest, owned, services, managed);
    RemovalsLast(sources, manifest.entries, sorted, actions);
    RunSplits(now, root, plan.steps, actions, 0, states, sur, pid);
    LateRemovalsHold(now.fs, root, actions, n, 0, sur.faults, pid);
    forall p | p in owned ensures p !in Execute(hash, now, root, plan, manifest, services, sur, pid).0.fs {
      var j :| 0 <= j < |sorted| && sorted[j] == p;
      assert actions[n + j] == RemoveValidationPath(sorted[j]);
    }
  }

  lemma RemovalsLast(sources: seq<Source>, entries: seq<BackupEntry>, owned: seq<Path>, actions: seq<Action>)
    requires Ordered(sources, entries, owned, actions)
    ensures |actions| == |sources| + |owned|
    ensures forall j :: 0 <= j < |owned| ==> actions[|sources| + j] == RemoveValidationPath(owned[j])
    ensures forall i :: |sources| <= i < |actions| ==> actions[i].RemoveValidationPath?
  {
    forall i | |sources| <= i < |actions| ensures actions[i].RemoveValidationPath? {
      assert actions[|sources| + (i - |sources|)] == RemoveValidationPath(owned[i - |sources|]);
    }
  }

  /** And the commands issued restore, service by service in the order of their names, the captured unit file state and
      then the captured active state, all of them after the last file action. */
  lemma RestoreServicesInOrder(hash: Hash, planned: Fs, now: World, root: Path, manifest: Manifest, owned: seq<Path>,
                               services: seq<ServiceState>, managed: seq<Managed>, sur: Surroundings, pid: string)
    requires var plan := PlanRestore(hash, planned, root, manifest, owned, services, managed);
      plan.Ok? && Execute(hash, now, root, plan.value, manifest, services, sur, pid).1.Ok?
    ensures var plan := PlanRestore(hash, planned, root, manifest, owned, services, managed).value;
      var after := Execute(hash, now, root, plan, manifest, services, sur, pid).0;
      && after.issued == now.issued + CommandsOf(ManagedStates(services, SortManaged(managed)))
      && ByName(SortManaged(managed))
      && (forall m :: m in managed ==> Supported(manifest, services, m))
  {
    var plan, sorted := PlanRestore(hash, planned, root, manifest, owned, services, managed).value,
        SortManaged(managed);
    var n := |manifest.entries|;
    var sources := seq(n, i requires 0 <= i < n => Source("", manifest.entries[i].originalPath));
    var actions, states := PlanOrders(hash, planned, root, sources, manifest, owned, services, managed);
    hide PlanRestore, VerifyInputs, RunFrom, ApplyFrom, Ordered, SortPaths, Supported, PlanServices;
    RunSplits(now, root, plan.steps, actions, 0, states, sur, pid);
    PlannedStates(manifest, services, sorted, []);
    assert [] + ManagedStates(services, sorted) == ManagedStates(services, sorted);
    SortManagedByName(managed);
    forall m | m in managed ensures m in sorted { assert m in multiset(sorted); }
  }

  /** A state was captured for the service, and entries for all the files it reads. */
  ghost predicate Supported(manifest: Manifest, services: seq<ServiceState>, m: Managed) {
    && StateOf(services, m.service).Some?
    && forall id :: id in m.entryIds ==> EntryOf(manifest.entries, id).Some?
  }

  /** The captured states of the managed services, where there is one. */
  function ManagedStates(services: seq<ServiceState>, managed: seq<Managed>): seq<ServiceState> {
    if managed == [] then []
    else
      var state := StateOf(services, managed[0].service);
      (if state.Some? then [state.value] else []) + ManagedStates(services, managed[1..])
  }

  lemma {:induction false} PlannedStates(manifest: Manifest, services: seq<ServiceState>, managed: seq<Managed>,
                                         states: seq<ServiceState>)
    requires PlanServices(manifest, services, managed, states).Ok?
    ensures PlanServices(manifest, services, managed, states).value == states + ManagedStates(services, managed)
    ensures forall m :: m in managed ==> Supported(manifest, services, m)
    decreases |managed|
  {
    if managed != [] {
      var state := PlanService(manifest, services, managed[0]).value;
      PlannedStates(manifest, services, managed[1..], states + [state]);
      assert managed == [managed[0]] + managed[1..];
      assert states + [state] + ManagedStates(services, managed[1..]) == states + ManagedStates(services, managed);
    } else {
      assert states + [] == states;
    }
  }

  // ---------------------------------------------------------------- the orders of a plan

  lemma {:induction false} NamesOrdered(a: string, b: string, c: string)
    ensures NameBefore(a, b) && NameBefore(b, c) ==> NameBefore(a, c)
    ensures !NameBefore(a, a)
    ensures a == b || NameBefore(a, b) || NameBefore(b, a)
    decreases |a|
  {
    if a != "" && b != "" {
      NamesOrdered(a[1..], b[1..], if c != "" then c[1..] else "");
      assert a == [a[0]] + a[1..] && b == [b[0]] + b[1..];
    } else if a != "" {
      NamesOrdered(a[1..], "", "");
    }
  }

  lemma {:induction false} PathsOrdered(a: Path, b: Path, c: Path)
    ensures PathBefore(a, b) && PathBefore(b, c) ==> PathBefore(a, c)
    ensures !PathBefore(a, a)
    ensures a == b || PathBefore(a, b) || PathBefore(b, a)
    decreases |a|
  {
    hide NameBefore;
    if a != [] && b != [] {
      NamesOrdered(a[0], b[0], if c != [] then c[0] else "");
      PathsOrdered(a[1..], b[1..], if c != [] then c[1..] else []);
      assert a == [a[0]] + a[1..] && b == [b[0]] + b[1..];
    } else if a != [] {
      NamesOrdered(a[0], "", "");
      PathsOrdered(a[1..], [], []);
    }
  }

  ghost predicate Ascending(ps: seq<Path>) {
    forall i, j :: 0 <= i < j < |ps| ==> PathBefore(ps[i], ps[j])
  }

  lemma {:induction false} InsertPathAscending(ps: seq<Path>, p: Path)
    requires Ascending(ps)
    ensures Ascending(InsertPath(ps, p))
    decreases |ps|
  {
    hide PathBefore;
    var r := InsertPath(ps, p);
    if ps != [] {
      PathsOrdered(p, ps[0], ps[0]);
      if PathBefore(p, ps[0]) {
        forall j | 0 <= j < |ps| ensures PathBefore(p, ps[j]) { PathsOrdered(p, ps[0], ps[j]); }
      } else if ps[0] != p {
        InsertPathAscending(ps[1..], p);
        var rest := InsertPath(ps[1..], p);
        forall j | 0 <= j < |rest| ensures PathBefore(ps[0], rest[j]) { assert rest[j] in rest; }
      }
    }
  }

  /** The validation-owned paths of a plan are removed in ascending order, each once. */
  lemma {:induction false} SortPathsAscending(ps: seq<Path>)
    ensures Ascending(SortPaths(ps))
    decreases |ps|
  {
    if ps != [] {
      SortPathsAscending(ps[..|ps| - 1]);
      InsertPathAscending(SortPaths(ps[..|ps| - 1]), ps[|ps| - 1]);
    }
  }

  ghost predicate ByName(ms: seq<Managed>) {
    forall i, j :: 0 <= i < j < |ms| ==> !NameBefore(ms[j].service, ms[i].service)
  }

  lemma {:induction false} InsertManagedByName(ms: seq<Managed>, m: Managed)
    requires ByName(ms)
    ensures ByName(InsertManaged(ms, m))
    decreases |ms|
  {
    hide NameBefore;
    if ms != [] {
      if NameBefore(m.service, ms[0].service) {
        forall j | 0 <= j < |ms| ensures !NameBefore(ms[j].service, m.service) {
          NamesOrdered(ms[j].service, m.service, ms[0].service);
          NamesOrdered(ms[0].service, ms[j].service, ms[0].service);
        }
      } else {
        InsertManagedByName(ms[1..], m);
        var rest := InsertManaged(ms[1..], m);
        forall j | 0 <= j < |rest| ensures !NameBefore(rest[j].service, ms[0].service) {
          assert rest[j] in multiset(rest);
          assert rest[j] in ms[1..] || rest[j] == m;
        }
      }
    }
  }

  /** The services of a plan come in the order of their names. */
  lemma {:induction false} SortManagedByName(ms: seq<Managed>)
    ensures ByName(SortManaged(ms))
    decreases |ms|
  {
    if ms != [] {
      SortManagedByName(ms[..|ms| - 1]);
      InsertManagedByName(SortManaged(ms[..|ms| - 1]), ms[|ms| - 1]);
    }
  }
}
