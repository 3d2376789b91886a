/** When a restore plan goes through: exactly which captures can be planned at all. */
module RestorePlan {
  import opened Common
  import opened Restore
  import opened RestoreProof

  /** The bytes the backup of some name ends up with: those of the last file among the sources that has this name. */
  function LastBytes(fs: Fs, sources: seq<Source>, name: string): Option<Bytes> {
    if sources == [] then None
    else
      var s := sources[|sources| - 1];
      if SafeBackupName(s.id) == name && s.path in fs && fs[s.path].File? then Some(fs[s.path].bytes)
      else LastBytes(fs, sources[..|sources| - 1], name)
  }

  /** The backups written so far are those of the sources handled so far. */
  ghost predicate BackedUp(before: Fs, fs: Fs, root: Path, done: seq<Source>) {
    forall name :: LastBytes(before, done, name).Some? ==> HoldsBackup(fs, root, name, LastBytes(before, done,
        name).value)
  }

  predicate HoldsBackup(fs: Fs, root: Path, name: string, bytes: Bytes) {
    var p := root + ["files", name]; p in fs && fs[p].File? && fs[p].bytes == bytes
  }

  lemma CaptureSourceBacksUp(hash: Hash, before: Fs, fs: Fs, root: Path, done: seq<Source>, s: Source)
    requires OnlyDirsOutside(before, fs, root) && !(root <= s.path) && BackedUp(before, fs, root, done)
    requires CaptureSource(hash, fs, root, s).1.Ok?
    ensures BackedUp(before, CaptureSource(hash, fs, root, s).0, root, done + [s])
  {
    var fs', all := CaptureSource(hash, fs, root, s).0, done + [s];
    assert all[..|all| - 1] == done;
    assert (s.path in before && before[s.path].File?) <==> (s.path in fs && fs[s.path].File?);
    forall name | LastBytes(before, all, name).Some?
      ensures HoldsBackup(fs', root, name, LastBytes(before, all, name).value)
    {
      var p, own := root + ["files", name], root + BackupPathOf(s.id);
      if name != SafeBackupName(s.id) {
        assert p[|p| - 1] == name && own[|own| - 1] == SafeBackupName(s.id);
      }
      if LastBytes(before, done, name).Some? { assert HoldsBackup(fs, root, name, LastBytes(before, done,
          name).value); }
    }
  }

  lemma {:induction false} CaptureFromBacksUp(hash: Hash, before: Fs, fs: Fs, root: Path, sources: seq<Source>,
                                              entries: seq<BackupEntry>, done: seq<Source>)
    requires OnlyDirsOutside(before, fs, root) && OutsideRoot(sources, root) && BackedUp(before, fs, root, done)
    requires CaptureFrom(hash, fs, root, sources, entries).1.Ok?
    ensures BackedUp(before, CaptureFrom(hash, fs, root, sources, entries).0, root, done + sources)
    decreases |sources|
  {
    if sources == [] {
      assert done + sources == done;
    } else {
      var s := sources[0];
      CaptureSourceDescribes(hash, before, fs, root, s);
      CaptureSourceBacksUp(hash, before, fs, root, done, s);
      var (fs1, a) := CaptureSource(hash, fs, root, s);
      hide CaptureSource, BackedUp, OnlyDirsOutside;
      CaptureFromBacksUp(hash, before, fs1, root, sources[1..], entries + [a.value], done + [s]);
      assert done + [s] + sources[1..] == done + sources;
    }
  }

  lemma CaptureBacksUp(hash: Hash, fs: Fs, root: Path, sources: seq<Source>)
    requires OutsideRoot(sources, root) && Capture(hash, fs, root, sources).1.Ok?
    ensures BackedUp(fs, Capture(hash, fs, root, sources).0, root, sources)
  {
    CreateDirsEffect(fs, root + ["files"]);
    var prepared := CreateDirs(fs, root + ["files"]).value;
    assert OnlyDirsOutside(fs, prepared, root);
    CaptureFromBacksUp(hash, fs, prepared, root, sources, [], []);
    assert [] + sources == sources;
  }

  /** Two captured files share the name of their backup copies and differ. */
  ghost predicate NamesClash(fs: Fs, sources: seq<Source>) {
    exists i, j :: 0 <= i < |sources| && 0 <= j < |sources| && Clash(fs, sources[i], sources[j])
  }

  predicate Clash(fs: Fs, s: Source, t: Source) {
    && SafeBackupName(s.id) == SafeBackupName(t.id)
    && s.path in fs && fs[s.path].File? && t.path in fs && fs[t.path].File?
    && fs[s.path].bytes != fs[t.path].bytes
  }

  lemma {:induction false} LastBytesOf(fs: Fs, sources: seq<Source>, i: nat)
    requires i < |sources| && sources[i].path in fs && fs[sources[i].path].File?
    ensures LastBytes(fs, sources, SafeBackupName(sources[i].id)).Some?
    ensures !NamesClash(fs, sources) ==>
      LastBytes(fs, sources, SafeBackupName(sources[i].id)) == Some(fs[sources[i].path].bytes)
    decreases |sources|
  {
    hide SafeBackupName;
    var n := |sources| - 1;
    var last := sources[n];
    if SafeBackupName(last.id) == SafeBackupName(sources[i].id) && last.path in fs && fs[last.path].File? {
      assert Clash(fs, sources[i], last) ==> NamesClash(fs, sources);
    } else {
      var before := sources[..n];
      LastBytesOf(fs, before, i);
      if NamesClash(fs, before) {
        var a, b :| 0 <= a < |before| && 0 <= b < |before| && Clash(fs, before[a], before[b]);
        assert Clash(fs, sources[a], sources[b]);
      }
    }
  }

  lemma {:induction false} PlanFromExactly(hash: Hash, fs: Fs, root: Path, entries: seq<BackupEntry>,
                                           actions: seq<Action>)
    ensures PlanFrom(hash, fs, root, entries, actions).Ok? <==>
      forall i :: 0 <= i < |entries| ==> PlanEntry(hash, fs, root, entries[i]).Ok?
    decreases |entries|
  {
    hide PlanEntry;
    if entries != [] {
      var a := PlanEntry(hash, fs, root, entries[0]);
      if a.Ok? {
        PlanFromExactly(hash, fs, root, entries[1..], actions + [a.value]);
        forall i | 0 <= i < |entries|
          ensures PlanEntry(hash, fs, root, entries[i]).Ok? <==>
              i == 0 || PlanEntry(hash, fs, root, entries[1..][i - 1]).Ok? {}
        if forall i :: 0 <= i < |entries| ==> PlanEntry(hash, fs, root, entries[i]).Ok? {
          forall i | 0 <= i < |entries[1..]| ensures PlanEntry(hash, fs, root, entries[1..][i]).Ok? {
            assert entries[1..][i] == entries[i + 1];
          }
        }
      }
    }
  }

  /** A described entry can be planned exactly when it is no file or its backup copy holds the described bytes. */
  lemma PlanEntryExactly(hash: Hash, captured: Fs, fs: Fs, root: Path, e: BackupEntry)
    requires CollisionFree(hash) && Describes(hash, captured, e)
    ensures PlanEntry(hash, fs, root, e).Ok? <==>
      (e.kind.RegularFile? ==> HoldsBackup(fs, root, SafeBackupName(e.id), captured[e.originalPath].bytes))
  {
  }

  /** Whatever has happened to the files: a manifest whose names clash is never planned. */
  lemma ClashIsNeverPlanned(hash: Hash, before: Fs, planned: Fs, root: Path, sources: seq<Source>, owned: seq<Path>,
                            services: seq<ServiceState>, managed: seq<Managed>)
    requires CollisionFree(hash) && OutsideRoot(sources, root) && Capture(hash, before, root, sources).1.Ok?
    requires NamesClash(before, sources)
    ensures var m := Capture(hash, before, root, sources).1.value;
      PlanRestore(hash, planned, root, m, owned, services, managed).Err?
  {
    CaptureDescribes(hash, before, root, sources);
    var m := Capture(hash, before, root, sources).1.value;
    var i, j :| 0 <= i < |sources| && 0 <= j < |sources| && Clash(before, sources[i], sources[j]);
    hide Capture, CollisionFree, PlanEntry, SafeBackupName, PlanFrom;
    assert EntryFor(sources[i], m.entries[i]) && EntryFor(sources[j], m.entries[j]);
    assert Describes(hash, before, m.entries[i]) && Describes(hash, before, m.entries[j]);
    PlanEntryExactly(hash, before, planned, root, m.entries[i]);
    PlanEntryExactly(hash, before, planned, root, m.entries[j]);
    PlanFromExactly(hash, planned, root, m.entries, []);
  }

  /** When a plan goes through: straight after a capture that answered Ok, planning succeeds if and only if no two
      captured files share the name of their backup copies and differ, and the managed services are supported; a capture
      whose names clash can never be restored. */
  lemma PlanAfterCaptureExactly(hash: Hash, before: Fs, root: Path, sources: seq<Source>, owned: seq<Path>,
                                services: seq<ServiceState>, managed: seq<Managed>)
    requires CollisionFree(hash) && OutsideRoot(sources, root) && Capture(hash, before, root, sources).1.Ok?
    ensures var (after, m) := Capture(hash, before, root, sources);
      PlanRestore(hash, after, root, m.value, owned, services, managed).Ok? <==>
        !NamesClash(before, sources) && PlanServices(m.value, services, SortManaged(managed), []).Ok?
  {
    var (after, a) := Capture(hash, before, root, sources);
    var m := a.value;
    if NamesClash(before, sources) {
      ClashIsNeverPlanned(hash, before, after, root, sources, owned, services, managed);
    } else {
      CaptureDescribes(hash, before, root, sources);
      CaptureBacksUp(hash, before, root, sources);
      hide Capture, PlanEntry, SafeBackupName, PlanFrom, PlanServices;
      forall i | 0 <= i < |m.entries| ensures PlanEntry(hash, after, root, m.entries[i]).Ok? {
        EntryIsPlanned(hash, before, after, root, sources, m.entries[i], i);
      }
      PlanFromExactly(hash, after, root, m.entries, []);
    }
  }

  lemma EntryIsPlanned(hash: Hash, before: Fs, after: Fs, root: Path, sources: seq<Source>, e: BackupEntry, i: nat)
    requires CollisionFree(hash) && i < |sources| && Describes(hash, before, e) && EntryFor(sources[i], e)
    requires BackedUp(before, after, root, sources) && !NamesClash(before, sources)
    ensures PlanEntry(hash, after, root, e).Ok?
  {
    hide PlanEntry, SafeBackupName, CollisionFree;
    PlanEntryExactly(hash, before, after, root, e);
    if e.kind.RegularFile? { LastBytesOf(before, sources, i); }
  }

  /** Two different files whose ids become the same backup name. */
  const TWO_FILES: Fs := map[["x"] := File([1], NEW_FILE_MODE), ["y"] := File([2], NEW_FILE_MODE)]
  const TWO_SOURCES := [Source("a_b", ["x"]), Source("a/b", ["y"])]

  /** Such a capture is met: it answers Ok, and can never be planned. */
  lemma ClashIsMet(hash: Hash)
    ensures var root := ["r"];
      OutsideRoot(TWO_SOURCES, root) && Capture(hash, TWO_FILES, root, TWO_SOURCES).1.Ok?
    ensures NamesClash(TWO_FILES, TWO_SOURCES)
  {
    var root := ["r"];
    assert SafeBackupName("a_b") == SafeBackupName("a/b") == "a_b";
    assert Clash(TWO_FILES, TWO_SOURCES[0], TWO_SOURCES[1]);
    assert TWO_SOURCES[0].path[0] == "x" && TWO_SOURCES[1].path[0] == "y" && root[0] == "r";
    MakesBackupDir();
    var fs1 := CreateDirs(TWO_FILES, root + ["files"]).value;
    hide CreateDirs, SafeBackupName;
    var backup := root + ["files", "a_b"];
    assert |backup| == 3;
    var fs2 := fs1[backup := File([1], NEW_FILE_MODE)];
    assert CaptureSource(hash, fs1, root, TWO_SOURCES[0]).0 == fs2;
    var a := CaptureSource(hash, fs1, root, TWO_SOURCES[0]).1.value;
    var b := CaptureSource(hash, fs2, root, TWO_SOURCES[1]);
    assert b.1.Ok?;
    assert TWO_SOURCES[1..] == [TWO_SOURCES[1]] && TWO_SOURCES[1..][1..] == [];
    assert CaptureFrom(hash, b.0, root, [], [] + [a] + [b.1.value]).1.Ok?;
    hide CaptureSource;
    assert CaptureFrom(hash, fs2, root, TWO_SOURCES[1..], [] + [a]).1.Ok?;
  }

  lemma MakesBackupDir()
    ensures CreateDirs(TWO_FILES, ["r"] + ["files"]) == Some(TWO_FILES[["r"] := Dir][["r", "files"] := Dir])
  {
    var p := ["r"] + ["files"];
    assert p == ["r", "files"] && Parent(p) == ["r"] && Parent(["r"]) == [];
    assert ["r"][0] == "r" && ["x"][0] == "x" && ["y"][0] == "y" && |p| == 2;
    assert CreateDirs(TWO_FILES, ["r"]) == Some(TWO_FILES[["r"] := Dir]);
  }
}
