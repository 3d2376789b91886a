/** When an execution goes through: exactly which file systems, copies and surroundings let a restore plan run to its
    end, as far as can be looked at before it starts. */
module RestoreSuccess {
  import opened Common
  import opened Restore
  import opened RestoreProof
  import opened RestorePlan

  // ---------------------------------------------------------------- one action

  predicate FreeOrDir(fs: Fs, q: Path) {
    q in fs ==> fs[q].Dir?
  }

  /** Every directory on the way to `p` is there or can be created. */
  ghost predicate WayFree(fs: Fs, p: Path) {
    forall q :: q < p && q != [] ==> FreeOrDir(fs, q)
  }

  lemma {:induction false} CreateDirsExactly(fs: Fs, p: Path)
    ensures CreateDirs(fs, p).Some? <==> forall q :: q <= p && q != [] ==> FreeOrDir(fs, q)
    decreases |p|
  {
    if p != [] {
      CreateDirsExactly(fs, Parent(p));
      CreateDirsEffect(fs, Parent(p));
      WaySplits(fs, p);
      if CreateDirs(fs, Parent(p)).Some? {
        assert p !in CreateDirs(fs, Parent(p)).value <==> p !in fs;
      }
    }
  }

  lemma UpToParent(p: Path, q: Path)
    requires p != [] && q < p
    ensures q <= Parent(p)
  {
    assert q == p[..|q|] == Parent(p)[..|q|];
  }

  lemma WaySplits(fs: Fs, p: Path)
    requires p != []
    ensures WayFree(fs, p) <==> forall q :: q <= Parent(p) && q != [] ==> FreeOrDir(fs, q)
    ensures (WayFree(fs, p) && FreeOrDir(fs, p)) <==> forall q :: q <= p && q != [] ==> FreeOrDir(fs, q)
  {
    if WayFree(fs, p) {
      forall q | q <= Parent(p) && q != [] ensures FreeOrDir(fs, q) { BelowParent(p, q); }
    }
    if forall q :: q <= Parent(p) && q != [] ==> FreeOrDir(fs, q) {
      forall q | q < p && q != [] ensures FreeOrDir(fs, q) { UpToParent(p, q); }
    }
    if WayFree(fs, p) && FreeOrDir(fs, p) {
      forall q | q <= p && q != [] ensures FreeOrDir(fs, q) { if q != p { assert q < p; } }
    }
    if forall q :: q <= p && q != [] ==> FreeOrDir(fs, q) {
      forall q | q < p && q != [] ensures FreeOrDir(fs, q) { assert q <= p; }
      assert p <= p;
    }
  }

  lemma WayToParent(fs: Fs, p: Path)
    requires p != []
    ensures CreateDirs(fs, Parent(p)).Some? <==> WayFree(fs, p)
  {
    CreateDirsExactly(fs, Parent(p));
    WaySplits(fs, p);
  }

  /** Nothing is in the way of the action, and the copy it reads is there. */
  ghost predicate Clear(fs: Fs, root: Path, action: Action, pid: string) {
    action.path != [] &&
    match action
    case RestoreRegularFile(_, from, to, _) =>
      && WayFree(fs, to)
      && (to in fs ==> !fs[to].Dir?)
      && FileAt(fs, root + from)
      && (TempPath(to, pid) in fs ==> fs[TempPath(to, pid)].File?)
    case RestoreSymlink(_, _, path) => WayFree(fs, path)
    case _ => !BelowFile(fs, action.path)
  }

  lemma ApplyExactly(fs: Fs, root: Path, action: Action, pid: string)
    ensures Apply(fs, root, action, pid).1.Ok? <==> Clear(fs, root, action, pid)
  {
    if action.path != [] && !action.EnsureMissing? && !action.RemoveValidationPath? {
      var p := action.path;
      WayToParent(fs, p);
      CreateDirsEffect(fs, Parent(p));
      assert !(p <= Parent(p)) && !(TempPath(p, pid) <= Parent(p));
      if action.RestoreSymlink? && WayFree(fs, p) { NoFileOnCreatedWay(fs, p); }
    }
  }

  lemma NoFileOnCreatedWay(fs: Fs, p: Path)
    requires p != [] && WayFree(fs, p) && CreateDirs(fs, Parent(p)).Some?
    ensures !BelowFile(CreateDirs(fs, Parent(p)).value, p)
  {
    CreateDirsEffect(fs, Parent(p));
    var prepared := CreateDirs(fs, Parent(p)).value;
    forall k | 0 < k < |p| ensures !FileAt(prepared, p[..k]) {
      assert p[..k] < p && FreeOrDir(fs, p[..k]);
    }
  }

  // ---------------------------------------------------------------- one action after another

  /** What the later action looks at is not where the earlier one makes a difference. */
  ghost predicate Undisturbed(root: Path, action: Action, later: Action, pid: string)
    requires action.path != [] && later.path != []
  {
    && !(action.path < later.path)
    && (action.RestoreRegularFile? ==> !(TempPath(action.path, pid) < later.path))
    && (later.RestoreRegularFile? ==>
          && later.path != action.path && !(later.path < action.path)
          && Aside(action, TempPath(later.path, pid))
          && Aside(action, root + later.fromBackup)
          && (action.RestoreRegularFile? ==> root + later.fromBackup != TempPath(action.path, pid)))
  }

  predicate Aside(action: Action, q: Path) {
    !(action.path <= q) && !(q < action.path)
  }

  /** Where an action neither aims nor copies to, it can only create a directory on its way. */
  lemma ApplyAt(fs: Fs, root: Path, action: Action, pid: string, q: Path)
    requires Apply(fs, root, action, pid).1.Ok? && action.path != [] && !(action.path <= q)
    requires action.RestoreRegularFile? ==> q != TempPath(action.path, pid)
    ensures var fs' := Apply(fs, root, action, pid).0;
      SameAt(fs, fs', q) || (q < action.path && q !in fs && q in fs' && fs'[q] == Dir)
  {
    if q < action.path {
      if action.RestoreRegularFile? || action.RestoreSymlink? { CreateDirsEffect(fs, Parent(action.path)); }
    } else {
      ApplyLeavesAlone(fs, root, action, pid, q);
    }
  }

  /** The temporary name is free again afterwards. */
  lemma ApplyAtTemp(fs: Fs, root: Path, action: Action, pid: string)
    requires Apply(fs, root, action, pid).1.Ok? && action.RestoreRegularFile?
    ensures action.path != [] && TempPath(action.path, pid) !in Apply(fs, root, action, pid).0
    ensures TempPath(action.path, pid) in fs ==> fs[TempPath(action.path, pid)].File?
  {
    ApplyExactly(fs, root, action, pid);
  }

  lemma WayUndisturbed(fs: Fs, root: Path, action: Action, later: Action, pid: string)
    requires Apply(fs, root, action, pid).1.Ok? && action.path != [] && later.path != []
    requires Undisturbed(root, action, later, pid)
    ensures var fs' := Apply(fs, root, action, pid).0;
      && (WayFree(fs', later.path) <==> WayFree(fs, later.path))
      && (BelowFile(fs', later.path) <==> BelowFile(fs, later.path))
  {
    var fs' := Apply(fs, root, action, pid).0;
    hide Apply;
    forall q | q < later.path
      ensures FreeOrDir(fs', q) <==> FreeOrDir(fs, q)
      ensures FileAt(fs', q) <==> FileAt(fs, q)
    {
      PrefixOfPrefix(action.path, q, later.path);
      ApplyAt(fs, root, action, pid, q);
    }
    forall k | 0 < k < |later.path| ensures FileAt(fs', later.path[..k]) <==> FileAt(fs, later.path[..k]) {}
  }

  lemma PrefixOfPrefix(a: Path, b: Path, c: Path)
    requires b < c
    ensures a <= b ==> a < c
  {
    if a <= b { assert a == b[..|a|] == c[..|a|]; }
  }

  /** Whether a later action is clear does not change. */
  lemma ClearUndisturbed(fs: Fs, root: Path, action: Action, later: Action, pid: string)
    requires Apply(fs, root, action, pid).1.Ok? && action.path != [] && later.path != []
    requires Undisturbed(root, action, later, pid)
    ensures Clear(Apply(fs, root, action, pid).0, root, later, pid) <==> Clear(fs, root, later, pid)
  {
    WayUndisturbed(fs, root, action, later, pid);
    hide Apply, WayFree, BelowFile;
    if later.RestoreRegularFile? {
      var to, temp, copy := later.path, TempPath(later.path, pid), root + later.fromBackup;
      if action.RestoreRegularFile? { ApplyAtTemp(fs, root, action, pid); }
      if !(action.RestoreRegularFile? && to == TempPath(action.path, pid)) { ApplyAt(fs, root, action, pid, to); }
      if !(action.RestoreRegularFile? && temp == TempPath(action.path, pid)) { ApplyAt(fs, root, action, pid, temp); }
      ApplyAt(fs, root, action, pid, copy);
    }
  }

  ghost predicate AllUndisturbed(root: Path, actions: seq<Action>, pid: string) {
    && (forall k :: 0 <= k < |actions| ==> actions[k].path != [])
    && (forall i, j :: 0 <= i < j < |actions| ==> Undisturbed(root, actions[i], actions[j], pid))
  }

  ghost predicate ClearAt(fs: Fs, root: Path, actions: seq<Action>, k: nat, pid: string)
    requires k < |actions|
  {
    Clear(fs, root, actions[k], pid)
  }

  /** The file actions all succeed exactly when each is clear from the start and none is interrupted. */
  lemma {:induction false} ApplyFromExactly(fs: Fs, root: Path, actions: seq<Action>, k: nat, faults: set<nat>,
                                            pid: string)
    requires k <= |actions| && AllUndisturbed(root, actions, pid)
    ensures ApplyFrom(fs, root, actions, k, faults, pid).1.Ok? <==>
      forall i: nat :: k <= i < |actions| ==> ClearAt(fs, root, actions, i, pid) && i !in faults
    decreases |actions| - k
  {
    hide Apply, Clear, Undisturbed;
    if k < |actions| {
      ApplyExactly(fs, root, actions[k], pid);
      assert ClearAt(fs, root, actions, k, pid) <==> Apply(fs, root, actions[k], pid).1.Ok?;
      if k !in faults && Apply(fs, root, actions[k], pid).1.Ok? {
        var fs1 := Apply(fs, root, actions[k], pid).0;
        ApplyFromExactly(fs1, root, actions, k + 1, faults, pid);
        forall i: nat | k + 1 <= i < |actions|
          ensures ClearAt(fs1, root, actions, i, pid) <==> ClearAt(fs, root, actions, i, pid)
        {
          ClearUndisturbed(fs, root, actions[k], actions[i], pid);
        }
      }
    }
  }

  // ---------------------------------------------------------------- services

  /** The controller accepts the commands one after the other. */
  predicate Accepts(controller: Controller, issued: seq<Command>, commands: seq<Command>)
    decreases |commands|
  {
    commands == [] ||
    (controller(issued, commands[0]) && Accepts(controller, issued + [commands[0]], commands[1..]))
  }

  predicate Spared(faults: set<nat>, lo: nat, hi: nat) {
    forall k: nat :: lo <= k < hi ==> k !in faults
  }

  lemma {:induction false} RunServicesExactly(w: World, root: Path, steps: seq<Step>, k: nat, states: seq<ServiceState>,
                                              sur: Surroundings, pid: string)
    requires k <= |steps| && steps[k..] == ServiceSteps(states)
    ensures RunFrom(w, root, steps, k, sur, pid).1.Ok? <==>
      Spared(sur.faults, k, |steps|) && Accepts(sur.controller, w.issued, CommandsOf(states))
    decreases |steps| - k
  {
    if states != [] {
      assert steps[k] == steps[k..][0] == OnService(states[0]);
      assert steps[k + 1..] == steps[k..][1..] == ServiceSteps(states[1..]);
      ServiceAccepted(w.issued, states, sur.controller);
      var (issued, a) := RestoreService(w.issued, states[0], sur.controller);
      hide RestoreService, Accepts, CommandsOf;
      if k !in sur.faults && a.Ok? {
        RunServicesExactly(w.(issued := issued), root, steps, k + 1, states[1..], sur, pid);
      }
    }
  }

  lemma ServiceAccepted(issued: seq<Command>, states: seq<ServiceState>, controller: Controller)
    requires states != []
    ensures var (after, a) := RestoreService(issued, states[0], controller);
      Accepts(controller, issued, CommandsOf(states)) <==>
        a.Ok? && Accepts(controller, after, CommandsOf(states[1..]))
  {
    var s := states[0];
    var first, second := SetUnitFile(s.name, s.unitFileState), SetActive(s.name, s.activeState);
    var rest := CommandsOf(states[1..]);
    var commands := CommandsOf(states);
    assert commands[0] == first && commands[1..] == [second] + rest;
    assert ([second] + rest)[1..] == rest;
    hide CommandsOf;
  }

  lemma {:induction false} RunExactly(w: World, root: Path, steps: seq<Step>, actions: seq<Action>, k: nat,
                                      states: seq<ServiceState>, sur: Surroundings, pid: string)
    requires k <= |actions| && steps == FileSteps(actions) + ServiceSteps(states)
    ensures RunFrom(w, root, steps, k, sur, pid).1.Ok? <==>
      && ApplyFrom(w.fs, root, actions, k, sur.faults, pid).1.Ok?
      && Spared(sur.faults, |actions|, |steps|)
      && Accepts(sur.controller, w.issued, CommandsOf(states))
    decreases |actions| - k
  {
    hide Apply, Accepts, CommandsOf, Spared;
    if k == |actions| {
      assert steps[k..] == ServiceSteps(states);
      RunServicesExactly(w, root, steps, k, states, sur, pid);
    } else {
      assert steps[k] == OnFiles(actions[k]);
      if k !in sur.faults && Apply(w.fs, root, actions[k], pid).1.Ok? {
        RunExactly(w.(fs := Apply(w.fs, root, actions[k], pid).0), root, steps, actions, k + 1, states, sur, pid);
      }
    }
  }

  // ---------------------------------------------------------------- the checks made first

  lemma {:induction false} CheckAllExactly(hash: Hash, fs: Fs, root: Path, manifest: Manifest,
                                           services: seq<ServiceState>, steps: seq<Step>)
    ensures CheckAll(hash, fs, root, manifest, services, steps).Ok? <==>
      forall k :: 0 <= k < |steps| ==> CheckStep(hash, fs, root, manifest, services, steps[k]).Ok?
    decreases |steps|
  {
    hide CheckStep;
    if steps != [] {
      CheckAllExactly(hash, fs, root, manifest, services, steps[1..]);
      if forall k :: 0 <= k < |steps| ==> CheckStep(hash, fs, root, manifest, services, steps[k]).Ok? {
        forall k | 0 <= k < |steps[1..]| ensures CheckStep(hash, fs, root, manifest, services, steps[1..][k]).Ok? {
          assert steps[1..][k] == steps[k + 1];
        }
      }
      if CheckAll(hash, fs, root, manifest, services, steps).Ok? {
        forall k | 0 <= k < |steps| ensures CheckStep(hash, fs, root, manifest, services, steps[k]).Ok? {
          if k > 0 { assert steps[k] == steps[1..][k - 1]; }
        }
      }
    }
  }

  ghost predicate DistinctIds(sources: seq<Source>) {
    forall i, j :: 0 <= i < j < |sources| ==> sources[i].id != sources[j].id
  }

  lemma {:induction false} NamedIsFound<T>(items: seq<T>, nameOf: T -> string, i: nat)
    requires i < |items|
    ensures LastNamed(items, nameOf, nameOf(items[i])).Some?
    decreases |items|
  {
    if i < |items| - 1 { NamedIsFound(items[..|items| - 1], nameOf, i); }
  }

  lemma EntryIsFound(sources: seq<Source>, entries: seq<BackupEntry>, i: nat)
    requires DistinctIds(sources) && |entries| == |sources| && i < |entries|
    requires forall k :: 0 <= k < |sources| ==> EntryFor(sources[k], entries[k])
    ensures EntryOf(entries, entries[i].id) == Some(entries[i])
  {
    var idOf := (e: BackupEntry) => e.id;
    NamedIsFound(entries, idOf, i);
    var found := LastNamed(entries, idOf, entries[i].id);
    assert found.value in entries && found.value.id == entries[i].id;
    var j :| 0 <= j < |entries| && entries[j] == found.value;
    assert EntryFor(sources[i], entries[i]) && EntryFor(sources[j], entries[j]);
  }

  /** The action of an entry passes the checks exactly when its path is not the root and its copy is intact. */
  lemma CheckedExactly(hash: Hash, before: Fs, fs: Fs, root: Path, manifest: Manifest, e: BackupEntry, action: Action)
    requires CollisionFree(hash) && Describes(hash, before, e) && ActionFor(e, action)
    requires EntryOf(manifest.entries, e.id) == Some(e)
    ensures CheckAction(hash, fs, root, manifest, action).Ok? <==>
      e.originalPath != []
      && (e.kind.RegularFile? ==> HoldsBackup(fs, root, SafeBackupName(e.id), before[e.originalPath].bytes))
  {
    hide EntryOf;
  }

  lemma {:induction false} ManagedStatesChecked(services: seq<ServiceState>, managed: seq<Managed>, k: nat)
    requires k < |ManagedStates(services, managed)|
    ensures CheckService(services, ManagedStates(services, managed)[k]).Ok?
    decreases |managed|
  {
    var state := StateOf(services, managed[0].service);
    var rest := ManagedStates(services, managed[1..]);
    if state.None? {
      ManagedStatesChecked(services, managed[1..], k);
    } else if k > 0 {
      ManagedStatesChecked(services, managed[1..], k - 1);
      assert ManagedStates(services, managed)[k] == rest[k - 1];
    }
  }

  /** Every captured file's copy holds the captured bytes. */
  ghost predicate CopiesIntact(before: Fs, fs: Fs, root: Path, sources: seq<Source>) {
    forall i :: 0 <= i < |sources| ==> CopyIntact(before, fs, root, sources[i])
  }

  predicate CopyIntact(before: Fs, fs: Fs, root: Path, s: Source) {
    FileAt(before, s.path) ==> HoldsBackup(fs, root, SafeBackupName(s.id), before[s.path].bytes)
  }

  /** What a plan for a captured manifest consists of. */
  ghost predicate PlanOf(hash: Hash, before: Fs, sources: seq<Source>, owned: seq<Path>, services: seq<ServiceState>,
                         managed: seq<Managed>, m: Manifest, plan: Plan, actions: seq<Action>)
  {
    && m.schemaVersion == plan.schemaVersion == 1
    && |m.entries| == |sources|
    && (forall i :: 0 <= i < |sources| ==> Describes(hash, before, m.entries[i]))
    && (forall i :: 0 <= i < |sources| ==> EntryFor(sources[i], m.entries[i]))
    && Ordered(sources, m.entries, owned, actions)
    && plan.steps == FileSteps(actions) + ServiceSteps(ManagedStates(services, managed))
  }

  lemma PlanIs(hash: Hash, before: Fs, planned: Fs, root: Path, sources: seq<Source>, owned: seq<Path>,
               services: seq<ServiceState>, managed: seq<Managed>) returns (actions: seq<Action>)
    requires OutsideRoot(sources, root) && Capture(hash, before, root, sources).1.Ok?
    requires var m := Capture(hash, before, root, sources).1.value;
      PlanRestore(hash, planned, root, m, owned, services, managed).Ok?
    ensures var m := Capture(hash, before, root, sources).1.value;
      var plan := PlanRestore(hash, planned, root, m, owned, services, managed).value;
      PlanOf(hash, before, sources, SortPaths(owned), services, SortManaged(managed), m, plan, actions)
  {
    CaptureDescribes(hash, before, root, sources);
    CapturedVersion(hash, before, root, sources);
    var m := Capture(hash, before, root, sources).1.value;
    var states;
    actions, states := PlanOrders(hash, planned, root, sources, m, owned, services, managed);
    PlannedStates(m, services, SortManaged(managed), []);
    assert states == ManagedStates(services, SortManaged(managed));
    PlannedVersion(hash, planned, root, m, owned, services, managed);
    hide Capture, PlanRestore, Ordered, Describes, ManagedStates;
  }

  lemma CapturedVersion(hash: Hash, fs: Fs, root: Path, sources: seq<Source>)
    requires OutsideRoot(sources, root) && Capture(hash, fs, root, sources).1.Ok?
    ensures Capture(hash, fs, root, sources).1.value.schemaVersion == 1
  {
    CreateDirsEffect(fs, root + ["files"]);
    var prepared := CreateDirs(fs, root + ["files"]).value;
    assert OnlyDirsOutside(fs, prepared, root);
    CaptureFromDescribes(hash, fs, prepared, root, sources, []);
  }

  lemma PlannedVersion(hash: Hash, fs: Fs, root: Path, m: Manifest, owned: seq<Path>, services: seq<ServiceState>,
                       managed: seq<Managed>)
    ensures var plan := PlanRestore(hash, fs, root, m, owned, services, managed);
      plan.Ok? ==> plan.value.schemaVersion == 1
  {
    hide PlanFrom, PlanServices;
  }

  lemma SourceChecked(hash: Hash, before: Fs, fs: Fs, root: Path, sources: seq<Source>, m: Manifest, action: Action,
                      i: nat)
    requires CollisionFree(hash) && DistinctIds(sources) && |m.entries| == |sources| && i < |sources|
    requires forall k :: 0 <= k < |sources| ==> EntryFor(sources[k], m.entries[k])
    requires Describes(hash, before, m.entries[i]) && ActionFor(m.entries[i], action)
    ensures CheckAction(hash, fs, root, m, action).Ok? <==>
      sources[i].path != [] && CopyIntact(before, fs, root, sources[i])
  {
    EntryIsFound(sources, m.entries, i);
    CheckedExactly(hash, before, fs, root, m, m.entries[i], action);
    assert EntryFor(sources[i], m.entries[i]);
    hide CheckAction, HoldsBackup, SafeBackupName, CollisionFree, EntryOf;
  }

  /** The checks before execution pass exactly when no path is the root and every copy is intact. */
  lemma VerifiedExactly(hash: Hash, before: Fs, fs: Fs, root: Path, sources: seq<Source>, owned: seq<Path>,
                        services: seq<ServiceState>, managed: seq<Managed>, m: Manifest, plan: Plan,
                        actions: seq<Action>)
    requires CollisionFree(hash) && DistinctIds(sources)
    requires PlanOf(hash, before, sources, owned, services, managed, m, plan, actions)
    ensures VerifyInputs(hash, fs, root, plan, m, services).Ok? <==>
      (forall k :: 0 <= k < |actions| ==> actions[k].path != []) && CopiesIntact(before, fs, root, sources)
  {
    hide CheckAction, Describes, ActionFor, CollisionFree, EntryFor, DistinctIds, CheckService, CopyIntact;
    CheckAllExactly(hash, fs, root, m, services, plan.steps);
    forall k | 0 <= k < |actions|
      ensures CheckStep(hash, fs, root, m, services, plan.steps[k]).Ok? <==>
        actions[k].path != [] && (k < |sources| ==> CopyIntact(before, fs, root, sources[k]))
    {
      assert plan.steps[k] == OnFiles(actions[k]);
      ActionChecked(hash, before, fs, root, sources, owned, m, actions, k);
    }
    StepsChecked(hash, fs, root, m, services, managed, plan.steps, actions);
    VerifiedAll(hash, before, fs, root, sources, m, services, plan.steps, actions);
  }

  lemma ActionChecked(hash: Hash, before: Fs, fs: Fs, root: Path, sources: seq<Source>, owned: seq<Path>, m: Manifest,
                      actions: seq<Action>, k: nat)
    requires CollisionFree(hash) && DistinctIds(sources) && Ordered(sources, m.entries, owned, actions)
    requires forall i :: 0 <= i < |sources| ==> Describes(hash, before, m.entries[i])
    requires forall i :: 0 <= i < |sources| ==> EntryFor(sources[i], m.entries[i])
    requires k < |actions|
    ensures CheckAction(hash, fs, root, m, actions[k]).Ok? <==>
      actions[k].path != [] && (k < |sources| ==> CopyIntact(before, fs, root, sources[k]))
  {
    hide Describes, CollisionFree, DistinctIds, CopyIntact;
    if k < |sources| {
      SourceChecked(hash, before, fs, root, sources, m, actions[k], k);
      assert EntryFor(sources[k], m.entries[k]) && ActionFor(m.entries[k], actions[k]);
      hide CheckAction;
    } else {
      assert actions[k] == RemoveValidationPath(owned[k - |sources|]);
    }
  }

  lemma StepsChecked(hash: Hash, fs: Fs, root: Path, m: Manifest, services: seq<ServiceState>, managed: seq<Managed>,
                     steps: seq<Step>, actions: seq<Action>)
    requires steps == FileSteps(actions) + ServiceSteps(ManagedStates(services, managed))
    ensures forall k :: |actions| <= k < |steps| ==> CheckStep(hash, fs, root, m, services, steps[k]).Ok?
  {
    hide CheckAction, CheckService, ManagedStates;
    var states := ManagedStates(services, managed);
    forall k | |actions| <= k < |steps| ensures CheckStep(hash, fs, root, m, services, steps[k]).Ok? {
      assert steps[k] == OnService(states[k - |actions|]);
      ManagedStatesChecked(services, managed, k - |actions|);
    }
  }

  lemma VerifiedAll(hash: Hash, before: Fs, fs: Fs, root: Path, sources: seq<Source>, m: Manifest,
                    services: seq<ServiceState>, steps: seq<Step>, actions: seq<Action>)
    requires |sources| <= |actions| <= |steps|
    requires forall k :: 0 <= k < |actions| ==> (CheckStep(hash, fs, root, m, services, steps[k]).Ok? <==>
        actions[k].path != [] && (k < |sources| ==> CopyIntact(before, fs, root, sources[k])))
    requires forall k :: |actions| <= k < |steps| ==> CheckStep(hash, fs, root, m, services, steps[k]).Ok?
    ensures (forall k :: 0 <= k < |steps| ==> CheckStep(hash, fs, root, m, services, steps[k]).Ok?) <==>
      (forall k :: 0 <= k < |actions| ==> actions[k].path != []) && CopiesIntact(before, fs, root, sources)
  {
    hide CheckStep, CopyIntact;
  }

  // ---------------------------------------------------------------- the paths of a plan

  /** No path the restore works on is in the way of another: beyond `SourcesApart`, the sources differ, neither contain
      the backup directory nor lie in it, none is above a validation-owned path, nothing lies below a temporary name,
      and validation-owned paths are not nested. */
  ghost predicate PathsApart(sources: seq<Source>, owned: seq<Path>, root: Path, pid: string) {
    && SourcesApart(sources, owned, pid) && OutsideRoot(sources, root)
    && (forall i, j :: 0 <= i < j < |sources| ==> sources[i].path != sources[j].path)
    && (forall i :: 0 <= i < |sources| ==> !(sources[i].path <= root))
    && (forall i, j :: 0 <= i < |sources| && 0 <= j < |sources| ==> NotBelowTemp(sources[i].path, sources[j].path, pid))
    && (forall i, p :: 0 <= i < |sources| && p in owned ==>
          !(sources[i].path < p) && NotBelowTemp(sources[i].path, p, pid))
    && (forall p, q :: p in owned && q in owned ==> !(p < q))
  }

  predicate NotBelowTemp(p: Path, q: Path, pid: string) {
    p != [] ==> !(TempPath(p, pid) < q)
  }

  lemma SourcesUndisturbed(hash: Hash, before: Fs, root: Path, sources: seq<Source>, owned: seq<Path>,
                           entries: seq<BackupEntry>, actions: seq<Action>, i: nat, j: nat, pid: string)
    requires PathsApart(sources, owned, root, pid) && i < j < |sources|
    requires |entries| == |sources| <= |actions|
    requires EntryFor(sources[i], entries[i]) && EntryFor(sources[j], entries[j])
    requires ActionFor(entries[i], actions[i]) && ActionFor(entries[j], actions[j])
    requires Describes(hash, before, entries[j])
    ensures actions[i].path != [] && actions[j].path != [] && Undisturbed(root, actions[i], actions[j], pid)
  {
    var p, q := sources[i].path, sources[j].path;
    assert actions[i].path == p && actions[j].path == q && p != [] && q != [];
    assert NotBelowTemp(p, q, pid) && NotBelowTemp(q, p, pid);
    if actions[j].RestoreRegularFile? {
      var copy := root + BackupPathOf(entries[j].id);
      assert actions[j].fromBackup == BackupPathOf(entries[j].id);
      BackupApart(root, entries[j].id, p, pid);
      CopyAside(root, BackupPathOf(entries[j].id), p);
      TempAside(p, q, pid);
    }
  }

  lemma CopyAside(root: Path, below: Path, p: Path)
    ensures p <= root + below ==> p <= root || root <= p
    ensures root + below <= p ==> root <= p
  {
    var copy := root + below;
    assert copy[..|root|] == root;
    if p <= copy {
      assert |p| <= |root| ==> p == copy[..|p|] == root[..|p|];
      assert |p| > |root| ==> p[..|root|] == copy[..|root|];
    }
    if copy <= p { assert p[..|root|] == copy[..|root|]; }
  }

  lemma TempAside(p: Path, q: Path, pid: string)
    requires q != []
    ensures p <= TempPath(q, pid) ==> p < q || p == TempPath(q, pid)
  {
    var temp := TempPath(q, pid);
    assert temp[..|q| - 1] == Parent(q);
    if p <= temp { assert |p| < |q| ==> p == temp[..|p|] == q[..|p|]; }
  }

  lemma PlanUndisturbed(hash: Hash, before: Fs, root: Path, sources: seq<Source>, owned: seq<Path>,
                        entries: seq<BackupEntry>, actions: seq<Action>, pid: string)
    requires PathsApart(sources, owned, root, pid) && Ordered(sources, entries, owned, actions) && [] !in owned
    requires forall i :: 0 <= i < |sources| ==> Describes(hash, before, entries[i])
    requires forall i :: 0 <= i < |sources| ==> EntryFor(sources[i], entries[i])
    ensures AllUndisturbed(root, actions, pid)
  {
    hide Describes, Undisturbed;
    PathsOfPlan(root, sources, owned, entries, actions, pid);
    forall i, j | 0 <= i < j < |actions| ensures Undisturbed(root, actions[i], actions[j], pid) {
      if j < |sources| {
        SourcesUndisturbed(hash, before, root, sources, owned, entries, actions, i, j, pid);
      } else {
        OwnedUndisturbed(root, sources, owned, entries, actions, i, j, pid);
      }
    }
  }

  lemma PathsOfPlan(root: Path, sources: seq<Source>, owned: seq<Path>, entries: seq<BackupEntry>,
                    actions: seq<Action>, pid: string)
    requires PathsApart(sources, owned, root, pid) && Ordered(sources, entries, owned, actions) && [] !in owned
    ensures forall k :: 0 <= k < |actions| ==> actions[k].path != []
    ensures forall k :: 0 <= k < |sources| ==> actions[k].path == sources[k].path
  {
    hide SourcesApart, OutsideRoot, NotBelowTemp;
    forall k | 0 <= k < |sources| ensures actions[k].path == sources[k].path {
      assert ActionFor(entries[k], actions[k]);
    }
    forall k | 0 <= k < |actions| ensures actions[k].path != [] {
      if k < |sources| {
        assert [] <= root;
      } else {
        assert actions[|sources| + (k - |sources|)] == RemoveValidationPath(owned[k - |sources|]);
      }
    }
  }

  lemma OwnedUndisturbed(root: Path, sources: seq<Source>, owned: seq<Path>, entries: seq<BackupEntry>,
                         actions: seq<Action>, i: nat, j: nat, pid: string)
    requires PathsApart(sources, owned, root, pid) && Ordered(sources, entries, owned, actions)
    requires |sources| <= j < |actions| && i < j && actions[i].path != [] && actions[j].path != []
    requires forall k :: 0 <= k < |sources| ==> actions[k].path == sources[k].path
    ensures Undisturbed(root, actions[i], actions[j], pid)
  {
    hide SourcesApart, OutsideRoot, ActionFor;
    var p := owned[j - |sources|];
    assert actions[|sources| + (j - |sources|)] == RemoveValidationPath(p) && p in owned;
    if i < |sources| {
      assert !(sources[i].path < p) && NotBelowTemp(sources[i].path, p, pid);
    } else {
      var q := owned[i - |sources|];
      assert actions[|sources| + (i - |sources|)] == RemoveValidationPath(q) && q in owned;
      assert !(q < p);
    }
  }

  lemma ApartSorted(sources: seq<Source>, owned: seq<Path>, root: Path, pid: string)
    requires PathsApart(sources, owned, root, pid)
    ensures PathsApart(sources, SortPaths(owned), root, pid)
  {
    ApartFromSorted(sources, owned, pid);
    hide SourcesApart, OutsideRoot, NotBelowTemp;
  }

  // ---------------------------------------------------------------- the whole execution

  /** Nothing is in the way of putting back what was at the source's path. */
  ghost predicate SourceClear(before: Fs, fs: Fs, s: Source, pid: string) {
    if s.path !in before then !BelowFile(fs, s.path)
    else
      WayFree(fs, s.path) &&
      (before[s.path].File? ==>
        && (s.path in fs ==> !fs[s.path].Dir?)
        && (s.path != [] && TempPath(s.path, pid) in fs ==> fs[TempPath(s.path, pid)].File?))
  }

  lemma SourceClearExactly(hash: Hash, before: Fs, fs: Fs, root: Path, s: Source, e: BackupEntry, action: Action,
                           pid: string)
    requires Describes(hash, before, e) && EntryFor(s, e) && ActionFor(e, action) && s.path != []
    requires CopyIntact(before, fs, root, s)
    ensures Clear(fs, root, action, pid) <==> SourceClear(before, fs, s, pid)
  {
    hide WayFree, BelowFile;
    if e.kind.RegularFile? { assert root + BackupPathOf(e.id) == root + ["files", SafeBackupName(e.id)]; }
  }

  lemma AllClearExactly(hash: Hash, before: Fs, fs: Fs, root: Path, sources: seq<Source>, owned: seq<Path>,
                        entries: seq<BackupEntry>, actions: seq<Action>, pid: string)
    requires Ordered(sources, entries, owned, actions) && CopiesIntact(before, fs, root, sources)
    requires forall i :: 0 <= i < |sources| ==> Describes(hash, before, entries[i])
    requires forall i :: 0 <= i < |sources| ==> EntryFor(sources[i], entries[i])
    requires forall k :: 0 <= k < |actions| ==> actions[k].path != []
    ensures (forall i: nat :: i < |actions| ==> ClearAt(fs, root, actions, i, pid)) <==>
      && (forall i :: 0 <= i < |sources| ==> SourceClear(before, fs, sources[i], pid))
      && (forall p :: p in owned ==> !BelowFile(fs, p))
  {
    hide Clear, SourceClear, Describes, CopyIntact, BelowFile;
    forall i: nat | i < |sources|
      ensures ClearAt(fs, root, actions, i, pid) <==> SourceClear(before, fs, sources[i], pid)
    {
      assert ActionFor(entries[i], actions[i]) && EntryFor(sources[i], entries[i]);
      assert actions[i].path == sources[i].path;
      SourceClearExactly(hash, before, fs, root, sources[i], entries[i], actions[i], pid);
    }
    forall j: nat | j < |owned| ensures ClearAt(fs, root, actions, |sources| + j, pid) <==> !BelowFile(fs, owned[j]) {
      RemovalClear(fs, root, owned[j], pid);
    }
    OwnedCovered(fs, root, sources, owned, actions, pid);
  }

  lemma RemovalClear(fs: Fs, root: Path, p: Path, pid: string)
    ensures Clear(fs, root, RemoveValidationPath(p), pid) <==> p != [] && !BelowFile(fs, p)
  {
  }

  lemma OwnedCovered(fs: Fs, root: Path, sources: seq<Source>, owned: seq<Path>, actions: seq<Action>, pid: string)
    requires |actions| == |sources| + |owned|
    requires forall j: nat :: j < |owned| ==>
      (ClearAt(fs, root, actions, |sources| + j, pid) <==> !BelowFile(fs, owned[j]))
    ensures (forall i: nat :: |sources| <= i < |actions| ==> ClearAt(fs, root, actions, i, pid)) <==>
      forall p :: p in owned ==> !BelowFile(fs, p)
  {
    hide ClearAt, BelowFile;
    if forall p :: p in owned ==> !BelowFile(fs, p) {
      forall i: nat | |sources| <= i < |actions| ensures ClearAt(fs, root, actions, i, pid) {
        assert owned[i - |sources|] in owned && i == |sources| + (i - |sources|);
      }
    }
    if forall i: nat :: |sources| <= i < |actions| ==> ClearAt(fs, root, actions, i, pid) {
      forall p | p in owned ensures !BelowFile(fs, p) {
        var j :| 0 <= j < |owned| && owned[j] == p;
        assert ClearAt(fs, root, actions, |sources| + j, pid);
      }
    }
  }

  /** When a restore goes through, exactly: let the paths be apart and the ids differ, and let a capture and a plan for
      it have answered Ok, on any two file systems. Then the execution on a third answers Ok if and only if, looked at
      before it starts, every backup copy holds the captured bytes, nothing is in the way of any source or validation-
      owned path, no step is interrupted, and the service controller accepts the commands. */
  lemma RestoreSucceedsExactly(hash: Hash, before: Fs, planned: Fs, now: World, root: Path, sources: seq<Source>,
                               owned: seq<Path>, services: seq<ServiceState>, managed: seq<Managed>,
                               sur: Surroundings, pid: string)
    requires CollisionFree(hash) && PathsApart(sources, owned, root, pid) && DistinctIds(sources)
    requires Capture(hash, before, root, sources).1.Ok?
    requires var m := Capture(hash, before, root, sources).1.value;
      PlanRestore(hash, planned, root, m, owned, services, managed).Ok?
    ensures var m := Capture(hash, before, root, sources).1.value;
      var plan := PlanRestore(hash, planned, root, m, owned, services, managed).value;
      Execute(hash, now, root, plan, m, services, sur, pid).1.Ok? <==>
        && CopiesIntact(before, now.fs, root, sources)
        && (forall i :: 0 <= i < |sources| ==> SourceClear(before, now.fs, sources[i], pid))
        && (forall p :: p in owned ==> p != [] && !BelowFile(now.fs, p))
        && Spared(sur.faults, 0, |plan.steps|)
        && Accepts(sur.controller, now.issued, CommandsOf(ManagedStates(services, SortManaged(managed))))
  {
    var m := Capture(hash, before, root, sources).1.value;
    var plan := PlanRestore(hash, planned, root, m, owned, services, managed).value;
    var actions := PlanIs(hash, before, planned, root, sources, owned, services, managed);
    ApartSorted(sources, owned, root, pid);
    hide Capture, PlanRestore, CollisionFree, PathsApart, DistinctIds, SortPaths, SourceClear, BelowFile;
    PlanSucceedsExactly(hash, before, now, root, sources, SortPaths(owned), services, SortManaged(managed), m, plan,
                        actions, sur, pid);
  }

  lemma PlanSucceedsExactly(hash: Hash, before: Fs, now: World, root: Path, sources: seq<Source>, owned: seq<Path>,
                            services: seq<ServiceState>, managed: seq<Managed>, m: Manifest, plan: Plan,
                            actions: seq<Action>, sur: Surroundings, pid: string)
    requires CollisionFree(hash) && PathsApart(sources, owned, root, pid) && DistinctIds(sources)
    requires PlanOf(hash, before, sources, owned, services, managed, m, plan, actions)
    ensures Execute(hash, now, root, plan, m, services, sur, pid).1.Ok? <==>
      && CopiesIntact(before, now.fs, root, sources)
      && (forall i :: 0 <= i < |sources| ==> SourceClear(before, now.fs, sources[i], pid))
      && (forall p :: p in owned ==> p != [] && !BelowFile(now.fs, p))
      && Spared(sur.faults, 0, |plan.steps|)
      && Accepts(sur.controller, now.issued, CommandsOf(ManagedStates(services, managed)))
  {
    hide CollisionFree, DistinctIds, VerifyInputs, RunFrom, ApplyFrom, Accepts, CommandsOf, ManagedStates;
    hide Describes, ActionFor, SourceClear, BelowFile, CopyIntact, ClearAt, PathsApart, AllUndisturbed;
    VerifiedExactly(hash, before, now.fs, root, sources, owned, services, managed, m, plan, actions);
    if [] in owned {
      RootOwned(sources, m.entries, owned, actions);
    } else if CopiesIntact(before, now.fs, root, sources) {
      PathsOfPlan(root, sources, owned, m.entries, actions, pid);
      PlanUndisturbed(hash, before, root, sources, owned, m.entries, actions, pid);
      RunExactly(now, root, plan.steps, actions, 0, ManagedStates(services, managed), sur, pid);
      ApplyFromExactly(now.fs, root, actions, 0, sur.faults, pid);
      AllClearExactly(hash, before, now.fs, root, sources, owned, m.entries, actions, pid);
      SparedInTwo(sur.faults, |actions|, |plan.steps|);
    }
  }

  lemma RootOwned(sources: seq<Source>, entries: seq<BackupEntry>, owned: seq<Path>, actions: seq<Action>)
    requires Ordered(sources, entries, owned, actions) && [] in owned
    ensures exists k :: 0 <= k < |actions| && actions[k].path == []
  {
    var j :| 0 <= j < |owned| && owned[j] == [];
    assert actions[|sources| + j].path == [];
  }

  lemma SparedInTwo(faults: set<nat>, n: nat, hi: nat)
    requires n <= hi
    ensures Spared(faults, 0, hi) <==> Spared(faults, 0, n) && Spared(faults, n, hi)
  {
  }
}
