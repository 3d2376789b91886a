/** The file system stays a tree: what is there has directories above it, through capture and restore. So what a restore
    removes is gone with all that was below it, and what it puts back is reachable. */
module RestoreTree {
  import opened Common
  import opened Restore
  import opened RestoreProof
  import opened RestoreSuccess

  /** Above everything there are directories. */
  ghost predicate Tree(fs: Fs) {
    forall q :: q in fs ==> DirsAbove(fs, q)
  }

  ghost predicate DirsAbove(fs: Fs, q: Path) {
    forall k :: 0 < k < |q| ==> DirAt(fs, q[..k])
  }

  predicate DirAt(fs: Fs, q: Path) {
    q in fs && fs[q].Dir?
  }

  lemma {:induction false} CreatedDirs(fs: Fs, p: Path)
    requires CreateDirs(fs, p).Some?
    ensures var fs' := CreateDirs(fs, p).value; forall k :: 0 < k <= |p| ==> DirAt(fs', p[..k])
    decreases |p|
  {
    if p != [] {
      CreatedDirs(fs, Parent(p));
      var above, fs' := CreateDirs(fs, Parent(p)).value, CreateDirs(fs, p).value;
      assert p[..|p|] == p;
      forall k | 0 < k < |p| ensures DirAt(fs', p[..k]) {
        assert p[..k] == Parent(p)[..k];
        assert DirAt(above, p[..k]);
      }
    }
  }

  lemma CreateDirsKeepsTree(fs: Fs, p: Path)
    requires Tree(fs) && CreateDirs(fs, p).Some?
    ensures Tree(CreateDirs(fs, p).value)
  {
    CreatedDirs(fs, p);
    CreateDirsEffect(fs, p);
    var fs' := CreateDirs(fs, p).value;
    hide CreateDirs;
    forall q | q in fs' ensures DirsAbove(fs', q) {
      if q in fs {
        assert DirsAbove(fs, q);
        forall k | 0 < k < |q| ensures DirAt(fs', q[..k]) { assert DirAt(fs, q[..k]); }
      } else {
        forall k | 0 < k < |q| ensures DirAt(fs', q[..k]) { assert q[..k] == p[..k]; }
      }
    }
  }

  /** What something is below is a directory. */
  lemma NothingBelow(fs: Fs, p: Path, q: Path)
    requires Tree(fs) && p != [] && p < q
    ensures q in fs ==> DirAt(fs, p)
  {
    if q in fs {
      assert DirsAbove(fs, q) && p == q[..|p|];
      assert DirAt(fs, q[..|p|]);
    }
  }

  /** A node that is no directory can be put below directories, and one can be taken away with what is below it. */
  lemma PutKeepsTree(fs: Fs, p: Path, node: Node)
    requires Tree(fs) && p != [] && !DirAt(fs, p) && DirsAbove(fs, p)
    ensures Tree(fs[p := node])
  {
    var fs' := fs[p := node];
    forall q | q in fs' ensures DirsAbove(fs', q) {
      if q != p { assert DirsAbove(fs, q); }
      forall k | 0 < k < |q| ensures DirAt(fs', q[..k]) { assert DirAt(fs, q[..k]); }
    }
  }

  lemma DropKeepsTree(fs: Fs, gone: set<Path>)
    requires Tree(fs) && forall p, q :: p in gone && q in fs && p <= q ==> q in gone
    ensures Tree(fs - gone)
  {
    var fs' := fs - gone;
    forall q | q in fs' ensures DirsAbove(fs', q) {
      assert DirsAbove(fs, q);
      forall k | 0 < k < |q| ensures DirAt(fs', q[..k]) {
        assert DirAt(fs, q[..k]);
        assert q[..k] <= q;
      }
    }
  }

  /** A removal that succeeds leaves nothing at the path or below it, and everything else as it was. */
  lemma RemoveExactly(fs: Fs, p: Path)
    requires Tree(fs) && RemovePath(fs, p).1.Ok?
    ensures var fs' := RemovePath(fs, p).0;
      Tree(fs') && forall q :: (q in fs' <==> q in fs && !(p <= q)) && (q in fs' ==> fs'[q] == fs[q])
  {
    forall q | q in fs && p <= q && !DirAt(fs, p) ensures q == p {
      if q != p { NothingBelow(fs, p, q); }
    }
    forall a, b | a in Subtree(fs, p) && b in fs && a <= b ensures b in Subtree(fs, p) {
      assert b[..|p|] == a[..|p|];
    }
    DropKeepsTree(fs, Subtree(fs, p));
    if p in fs && !fs[p].Dir? { DropKeepsTree(fs, {p}); }
  }

  /** An action that succeeds keeps the tree. */
  lemma ApplyKeepsTree(fs: Fs, root: Path, action: Action, pid: string)
    requires Tree(fs) && Apply(fs, root, action, pid).1.Ok?
    ensures Tree(Apply(fs, root, action, pid).0)
  {
    match action
    case RestoreRegularFile(_, from, to, mode) => RestoreFileKeepsTree(fs, root, from, to, mode, pid);
    case RestoreSymlink(_, target, path) => RestoreLinkKeepsTree(fs, target, path);
    case EnsureMissing(_, path) => RemoveExactly(fs, path);
    case RemoveValidationPath(path) => RemoveExactly(fs, path);
  }

  lemma WayAbove(fs: Fs, p: Path)
    requires p != [] && CreateDirs(fs, Parent(p)).Some?
    ensures DirsAbove(CreateDirs(fs, Parent(p)).value, p)
  {
    CreatedDirs(fs, Parent(p));
    var fs' := CreateDirs(fs, Parent(p)).value;
    forall k | 0 < k < |p| ensures DirAt(fs', p[..k]) { assert p[..k] == Parent(p)[..k]; }
  }

  lemma RestoreFileKeepsTree(fs: Fs, root: Path, from: Path, to: Path, mode: Option<Mode>, pid: string)
    requires Tree(fs) && RestoreFile(fs, root, from, to, mode, pid).1.Ok?
    ensures Tree(RestoreFile(fs, root, from, to, mode, pid).0)
  {
    var fs1, temp := CreateDirs(fs, Parent(to)).value, TempPath(to, pid);
    CreateDirsKeepsTree(fs, Parent(to));
    WayAbove(fs, to);
    forall k | 0 < k < |temp| ensures DirAt(fs1, temp[..k]) { assert temp[..k] == to[..k]; }
    var backup := fs1[root + from];
    var node := File(backup.bytes, backup.mode);
    PutKeepsTree(fs1, temp, node);
    var fs2 := fs1[temp := node];
    TempApart(to, pid);
    forall k | 0 < k < |to| ensures DirAt(fs2, to[..k]) { assert |to[..k]| < |temp| && DirAt(fs1, to[..k]); }
    PutKeepsTree(fs2, to, SetMode(node, mode));
    var fs3 := fs2[to := SetMode(node, mode)];
    forall q | q in fs3 && temp <= q ensures q in {temp} { if q != temp { NothingBelow(fs3, temp, q); } }
    DropKeepsTree(fs3, {temp});
  }

  lemma RestoreLinkKeepsTree(fs: Fs, target: string, path: Path)
    requires Tree(fs) && RestoreLink(fs, target, path).1.Ok?
    ensures Tree(RestoreLink(fs, target, path).0)
  {
    CreateDirsKeepsTree(fs, Parent(path));
    WayAbove(fs, path);
    var prepared := CreateDirs(fs, Parent(path)).value;
    RemoveExactly(prepared, path);
    var fs1 := RemovePath(prepared, path).0;
    forall k | 0 < k < |path| ensures DirAt(fs1, path[..k]) {
      assert DirAt(prepared, path[..k]) && !(path <= path[..k]);
    }
    PutKeepsTree(fs1, path, Link(target));
  }

  lemma {:induction false} ApplyFromKeepsTree(fs: Fs, root: Path, actions: seq<Action>, k: nat, faults: set<nat>,
                                              pid: string)
    requires Tree(fs) && k <= |actions| && ApplyFrom(fs, root, actions, k, faults, pid).1.Ok?
    ensures Tree(ApplyFrom(fs, root, actions, k, faults, pid).0)
    decreases |actions| - k
  {
    hide Apply, Tree;
    if k < |actions| {
      ApplyKeepsTree(fs, root, actions[k], pid);
      ApplyFromKeepsTree(Apply(fs, root, actions[k], pid).0, root, actions, k + 1, faults, pid);
    }
  }

  /** The same for a capture. */
  lemma CaptureSourceKeepsTree(hash: Hash, fs: Fs, root: Path, s: Source)
    requires Tree(fs) && DirAt(fs, root + ["files"]) && DirsAbove(fs, root + ["files"])
    ensures var fs' := CaptureSource(hash, fs, root, s).0;
      Tree(fs') && DirAt(fs', root + ["files"]) && DirsAbove(fs', root + ["files"])
  {
    var dir, copy := root + ["files"], root + BackupPathOf(s.id);
    assert copy == dir + [SafeBackupName(s.id)];
    if CaptureSource(hash, fs, root, s).0 != fs {
      var node := File(fs[s.path].bytes, NEW_FILE_MODE);
      forall k | 0 < k < |copy| ensures DirAt(fs, copy[..k]) {
        if k == |dir| { assert copy[..k] == dir; } else { assert copy[..k] == dir[..k]; }
      }
      PutKeepsTree(fs, copy, node);
      forall k | 0 < k < |dir| ensures DirAt(fs[copy := node], dir[..k]) { assert DirAt(fs, dir[..k]); }
    }
  }

  lemma {:induction false} CaptureFromKeepsTree(hash: Hash, fs: Fs, root: Path, sources: seq<Source>,
                                                entries: seq<BackupEntry>)
    requires Tree(fs) && DirAt(fs, root + ["files"]) && DirsAbove(fs, root + ["files"])
    ensures Tree(CaptureFrom(hash, fs, root, sources, entries).0)
    decreases |sources|
  {
    hide CaptureSource, Tree, DirsAbove, DirAt;
    if sources != [] {
      CaptureSourceKeepsTree(hash, fs, root, sources[0]);
      var (fs1, a) := CaptureSource(hash, fs, root, sources[0]);
      if a.Ok? { CaptureFromKeepsTree(hash, fs1, root, sources[1..], entries + [a.value]); }
    }
  }

  /** A capture, complete or not, keeps the tree. */
  lemma CaptureKeepsTree(hash: Hash, fs: Fs, root: Path, sources: seq<Source>)
    requires Tree(fs)
    ensures Tree(Capture(hash, fs, root, sources).0)
  {
    var dir := root + ["files"];
    if CreateDirs(fs, dir).Some? {
      CreateDirsKeepsTree(fs, dir);
      CreatedDirs(fs, dir);
      assert dir[..|dir|] == dir;
      hide CreateDirs, Tree;
      CaptureFromKeepsTree(hash, CreateDirs(fs, dir).value, root, sources, []);
    }
  }

  /** An execution that succeeds keeps the tree. */
  lemma ExecuteKeepsTree(hash: Hash, planned: Fs, now: World, root: Path, manifest: Manifest, owned: seq<Path>,
                         services: seq<ServiceState>, managed: seq<Managed>, sur: Surroundings, pid: string)
    requires Tree(now.fs)
    requires var plan := PlanRestore(hash, planned, root, manifest, owned, services, managed);
      plan.Ok? && Execute(hash, now, root, plan.value, manifest, services, sur, pid).1.Ok?
    ensures var plan := PlanRestore(hash, planned, root, manifest, owned, services, managed).value;
      Tree(Execute(hash, now, root, plan, manifest, services, sur, pid).0.fs)
  {
    var plan := PlanRestore(hash, planned, root, manifest, owned, services, managed).value;
    var sources := seq(|manifest.entries|, i requires 0 <= i < |manifest.entries| =>
      Source("", manifest.entries[i].originalPath));
    var actions, states := PlanOrders(hash, planned, root, sources, manifest, owned, services, managed);
    hide PlanRestore, VerifyInputs, ApplyFrom, RunFrom, Ordered, Tree;
    RunSplits(now, root, plan.steps, actions, 0, states, sur, pid);
    ApplyFromKeepsTree(now.fs, root, actions, 0, sur.faults, pid);
  }

  /** After a restore on a tree nothing is left at a validation-owned path or anywhere below it, nor below what was put
      back; and everything that is there has its directories. */
  lemma NothingLeftBelow(hash: Hash, planned: Fs, now: World, root: Path, manifest: Manifest, owned: seq<Path>,
                         services: seq<ServiceState>, managed: seq<Managed>, sur: Surroundings, pid: string, p: Path,
                         q: Path)
    requires Tree(now.fs) && p != [] && p <= q
    requires var plan := PlanRestore(hash, planned, root, manifest, owned, services, managed);
      plan.Ok? && Execute(hash, now, root, plan.value, manifest, services, sur, pid).1.Ok?
    ensures var plan := PlanRestore(hash, planned, root, manifest, owned, services, managed).value;
      var after := Execute(hash, now, root, plan, manifest, services, sur, pid).0.fs;
      && Tree(after)
      && (p in owned ==> q !in after)
      && (p < q && !DirAt(after, p) ==> q !in after)
  {
    ExecuteKeepsTree(hash, planned, now, root, manifest, owned, services, managed, sur, pid);
    RestoreRemovesOwned(hash, planned, now, root, manifest, owned, services, managed, sur, pid);
    hide PlanRestore, Execute;
    var plan := PlanRestore(hash, planned, root, manifest, owned, services, managed).value;
    var after := Execute(hash, now, root, plan, manifest, services, sur, pid).0.fs;
    if p < q { NothingBelow(after, p, q); } else { assert p == q; }
  }
}
