/** The rotating JSONL file of crates/apolysis-store/src/lib.rs.

    Files are numbered: 0 is the active path and `k` is the archive path with suffix `.k`. `JsonlStore` is the code; the
    functions say what one append does to the files; the lemmas say what the files hold after any number of appends. */
module Rotation {
  import opened Common

  datatype Policy = Policy(maxFileBytes: nat, maxArchivedFiles: nat)

  /** `validate_rotation_policy`. */
  predicate ValidPolicy(policy: Option<Policy>) {
    policy.Some? ==> policy.value.maxFileBytes > 0 && policy.value.maxArchivedFiles > 0
  }

  datatype PolicyError = NoFileBytes | NoArchives

  datatype Store = Store(files: map<nat, Bytes>, currentBytes: U64)

  function LineLen(line: Bytes): U64 {
    SaturatingAdd(|line|, 1)
  }

  predicate ShouldRotate(policy: Option<Policy>, currentBytes: nat, lineLen: nat) {
    policy.Some? && currentBytes > 0 && SaturatingAdd(currentBytes, lineLen) > policy.value.maxFileBytes
  }

  /** The names in use after a rotation: every file moves up one, number `max` is dropped, higher ones stay. */
  function ShiftedKeys(keys: set<nat>, max: nat): set<nat> {
    {0} + MovedUp(keys, max) + (set i | i in keys && i > max)
  }

  function MovedUp(keys: set<nat>, max: nat): set<nat> {
    set i | i in keys && i < max :: i + 1
  }

  function Shift(files: map<nat, Bytes>, max: nat): map<nat, Bytes>
    requires 0 in files
  {
    map i | i in ShiftedKeys(files.Keys, max) :: if i == 0 then [] else if i <= max then files[i - 1] else files[i]
  }

  function AppendLine(s: Store, policy: Option<Policy>, line: Bytes): Store
    requires 0 in s.files
  {
    var s1 := if ShouldRotate(policy, s.currentBytes, LineLen(line)) then
                Store(Shift(s.files, policy.value.maxArchivedFiles), 0) else s;
    Store(s1.files[0 := s1.files[0] + line + [NEWLINE]], SaturatingAdd(s1.currentBytes, LineLen(line)))
  }

  /** Half-way through a rotation: files above `index + 1` have moved up, `index + 1` is free, the rest is untouched. */
  ghost predicate Moved(before: map<nat, Bytes>, files: map<nat, Bytes>, max: nat, index: nat) {
    && (forall i :: i in files <==> i != index + 1 && MovedFrom(i, max, index) in before)
    && (forall i :: i in files ==> files[i] == before[MovedFrom(i, max, index)])
  }

  function MovedFrom(i: nat, max: nat, index: nat): nat {
    if index + 2 <= i <= max then i - 1 else i
  }

  lemma MovedNone(before: map<nat, Bytes>, max: nat)
    requires max > 0
    ensures Moved(before, before - {max}, max, max - 1)
  {
  }

  lemma MoveOne(before: map<nat, Bytes>, files: map<nat, Bytes>, max: nat, index: nat)
    requires Moved(before, files, max, index) && 1 <= index < max
    ensures index + 1 !in files
    ensures Moved(before, if index in files then files[index + 1 := files[index]] - {index} else files, max, index - 1)
  {
    var after := if index in files then files[index + 1 := files[index]] - {index} else files;
    forall i ensures i in after <==> i != index && MovedFrom(i, max, index - 1) in before {
      assert i in files <==> i != index + 1 && MovedFrom(i, max, index) in before;
      assert index in files <==> index in before;
    }
  }

  lemma MovedAll(before: map<nat, Bytes>, files: map<nat, Bytes>, max: nat)
    requires 0 in before && max > 0 && Moved(before, files, max, 0)
    ensures 0 in files && 1 !in files
    ensures (files[1 := files[0]] - {0})[0 := []] == Shift(before, max)
  {
    var after := (files[1 := files[0]] - {0})[0 := []];
    assert forall i :: i in after <==> i == 0 || i == 1 || (i in files && i != 0);
    forall i ensures i in after <==> i in ShiftedKeys(before.Keys, max) {
      if 1 <= i <= max { assert i - 1 in before <==> i in ShiftedKeys(before.Keys, max); }
    }
  }

  // ---------------------------------------------------------------- the code

  class JsonlStore {
    var files: map<nat, Bytes>
    var currentBytes: U64
    const rotation: Option<Policy>

    function Value(): Store
      reads this
    {
      Store(files, currentBytes)
    }

    /** Creates or truncates the active file among the files already there. */
    constructor (rotation: Option<Policy>, existing: map<nat, Bytes>)
      ensures this.rotation == rotation
      ensures Value() == Store(existing[0 := []], 0)
    {
      this.rotation := rotation;
      files := existing[0 := []];
      currentBytes := 0;
    }

    method Append(line: Bytes)
      requires 0 in files && ValidPolicy(rotation)
      modifies this
      ensures Value() == AppendLine(old(Value()), rotation, line)
      ensures 0 in files
    {
      var lineLen := LineLen(line);
      if ShouldRotate(rotation, currentBytes, lineLen) {
        Rotate();
      }
      files := files[0 := files[0] + line];
      files := files[0 := files[0] + [NEWLINE]];
      currentBytes := SaturatingAdd(currentBytes, lineLen);
    }

    /** Whatever archives exist, gaps included: each rename has a free target, and the files move up by one. */
    method Rotate()
      requires 0 in files && rotation.Some? && rotation.value.maxArchivedFiles > 0
      modifies this
      ensures Value() == Store(Shift(old(files), rotation.value.maxArchivedFiles), 0)
    {
      hide Moved, Shift;
      var max := rotation.value.maxArchivedFiles;
      MovedNone(files, max);
      files := files - {max};
      var index := max - 1;
      while index >= 1
        invariant 0 <= index < max
        invariant Moved(old(files), files, max, index)
      {
        MoveOne(old(files), files, max, index);
        if index in files {
          Rename(index, index + 1);
        }
        index := index - 1;
      }
      MovedAll(old(files), files, max);
      Rename(0, 1);
      files := files[0 := []];
      currentBytes := 0;
    }

    /** A rename that must not hit an existing file. */
    method Rename(source: nat, target: nat)
      requires source in files && target !in files
      modifies this`files
      ensures files == old(files)[target := old(files)[source]] - {source}
    {
      files := files[target := files[source]] - {source};
    }
  }

  /** `create_with_rotation`: a policy without bytes or without archives is refused, and otherwise the active file is
      created or truncated. */
  method Create(rotation: Option<Policy>, existing: map<nat, Bytes>) returns (r: Result<JsonlStore, PolicyError>)
    ensures r == Err(NoFileBytes) <==> rotation.Some? && rotation.value.maxFileBytes == 0
    ensures r == Err(NoArchives) <==>
      rotation.Some? && rotation.value.maxFileBytes > 0 && rotation.value.maxArchivedFiles == 0
    ensures r.Ok? <==> ValidPolicy(rotation)
    ensures r.Ok? ==> fresh(r.value) && r.value.rotation == rotation && r.value.Value() == Store(existing[0 := []], 0)
  {
    if rotation.Some? {
      if rotation.value.maxFileBytes == 0 {
        return Err(NoFileBytes);
      }
      if rotation.value.maxArchivedFiles == 0 {
        return Err(NoArchives);
      }
    }
    var store := new JsonlStore(rotation, existing);
    return Ok(store);
  }

  // ---------------------------------------------------------------- history

  function Content(lines: seq<Bytes>): Bytes {
    if lines == [] then [] else Content(lines[..|lines| - 1]) + lines[|lines| - 1] + [NEWLINE]
  }

  function Flatten(chunks: seq<seq<Bytes>>): seq<Bytes> {
    if chunks == [] then [] else Flatten(chunks[..|chunks| - 1]) + chunks[|chunks| - 1]
  }

  /** File `k` holds, record by record, the chunk that is `k` places from the newest. */
  ghost predicate Represents(files: map<nat, Bytes>, chunks: seq<seq<Bytes>>) {
    && (forall k: nat :: k in files <==> k < |chunks|)
    && (forall k: nat :: k in files ==> files[k] == Content(chunks[|chunks| - 1 - k]))
  }

  /** The chunks after one more line: grown, or rotated with the oldest dropped once all archive names are taken. */
  function AppendChunk(chunks: seq<seq<Bytes>>, policy: Option<Policy>, currentBytes: nat, line: Bytes): seq<seq<Bytes>>
    requires chunks != []
  {
    if ShouldRotate(policy, currentBytes, LineLen(line)) then
      (if |chunks| <= policy.value.maxArchivedFiles then chunks else chunks[1..]) + [[line]]
    else chunks[..|chunks| - 1] + [chunks[|chunks| - 1] + [line]]
  }

  datatype Run = Run(store: Store, chunks: seq<seq<Bytes>>)

  function AppendAll(policy: Option<Policy>, lines: seq<Bytes>): (r: Run)
    ensures 0 in r.store.files && r.chunks != []
  {
    if lines == [] then Run(Store(map[0 := []], 0), [[]])
    else
      var before := AppendAll(policy, lines[..|lines| - 1]);
      var line := lines[|lines| - 1];
      Run(AppendLine(before.store, policy, line), AppendChunk(before.chunks, policy, before.store.currentBytes, line))
  }

  ghost predicate ChunkFits(policy: Policy, chunk: seq<Bytes>) {
    SaturatingAdd(|Content(chunk)|, 0) <= policy.maxFileBytes || |chunk| == 1
  }

  ghost predicate IsSuffix(s: seq<Bytes>, lines: seq<Bytes>) {
    |s| <= |lines| && lines[|lines| - |s|..] == s
  }

  /** The chunks, oldest to newest, are a suffix of everything appended, and nothing is lost before the archives are
      full. */
  ghost predicate SuffixKept(policy: Option<Policy>, lines: seq<Bytes>, chunks: seq<seq<Bytes>>) {
    && IsSuffix(Flatten(chunks), lines)
    && (|Flatten(chunks)| < |lines| ==> policy.Some? && |chunks| == policy.value.maxArchivedFiles + 1)
  }

  ghost predicate WithinPolicy(policy: Option<Policy>, chunks: seq<seq<Bytes>>) {
    && chunks != []
    && (policy.None? ==> |chunks| == 1)
    && (policy.Some? ==> |chunks| <= policy.value.maxArchivedFiles + 1)
    && (policy.Some? ==> forall i :: 0 <= i < |chunks| ==> ChunkFits(policy.value, chunks[i]))
    && (forall i :: 0 <= i < |chunks| - 1 ==> chunks[i] != [])
  }

  /** No rotation came early: the first record of every later chunk did not fit behind the chunk before it. */
  ghost predicate NeverEarly(policy: Option<Policy>, chunks: seq<seq<Bytes>>) {
    forall i :: 0 <= i < |chunks| - 1 ==> DidNotFit(policy, chunks[i], chunks[i + 1])
  }

  ghost predicate DidNotFit(policy: Option<Policy>, chunk: seq<Bytes>, next: seq<Bytes>) {
    && policy.Some? && next != []
    && SaturatingAdd(|Content(chunk)|, LineLen(next[0])) > policy.value.maxFileBytes
  }

  /** What the files hold: whole records, a suffix of everything appended, never more or larger files than the policy
      allows, and no empty file once something was appended. */
  ghost predicate History(policy: Option<Policy>, lines: seq<Bytes>, r: Run) {
    && Represents(r.store.files, r.chunks)
    && WithinPolicy(policy, r.chunks)
    && SuffixKept(policy, lines, r.chunks)
    && NeverEarly(policy, r.chunks)
    && r.store.currentBytes == SaturatingAdd(|Content(r.chunks[|r.chunks| - 1])|, 0)
    && (lines != [] ==> r.chunks[|r.chunks| - 1] != [])
  }

  lemma ContentSnoc(lines: seq<Bytes>, line: Bytes)
    ensures Content(lines + [line]) == Content(lines) + line + [NEWLINE]
  {
    assert (lines + [line])[..|lines|] == lines;
  }

  lemma FlattenSnoc(chunks: seq<seq<Bytes>>, chunk: seq<Bytes>)
    ensures Flatten(chunks + [chunk]) == Flatten(chunks) + chunk
  {
    assert (chunks + [chunk])[..|chunks|] == chunks;
  }

  lemma {:induction false} FlattenDropFirst(chunks: seq<seq<Bytes>>)
    requires chunks != []
    ensures Flatten(chunks) == chunks[0] + Flatten(chunks[1..])
    decreases |chunks|
  {
    if |chunks| == 1 {
      assert chunks[..0] == [] && chunks[1..] == [];
    } else {
      var init, last := chunks[..|chunks| - 1], chunks[|chunks| - 1];
      FlattenDropFirst(init);
      assert Flatten(chunks) == Flatten(init) + last;
      hide Flatten;
      WithoutFirst(chunks);
      FlattenSnoc(init[1..], last);
      Regroup(chunks[0], Flatten(init[1..]), last);
    }
  }

  lemma WithoutFirst(chunks: seq<seq<Bytes>>)
    requires |chunks| > 1
    ensures chunks[1..] == chunks[..|chunks| - 1][1..] + [chunks[|chunks| - 1]]
  {
  }

  lemma Regroup(a: seq<Bytes>, b: seq<Bytes>, c: seq<Bytes>)
    ensures a + b + c == a + (b + c)
  {
  }

  lemma EmptyContent()
    ensures Content([]) == []
  {
  }

  lemma ShiftedKeysExactly(keys: set<nat>, n: nat, max: nat)
    requires 0 < n <= max + 1 && max > 0 && forall k: nat :: k in keys <==> k < n
    ensures forall k: nat :: k in ShiftedKeys(keys, max) <==> k < (if n <= max then n + 1 else n)
  {
    forall k: nat ensures k in ShiftedKeys(keys, max) <==> k < (if n <= max then n + 1 else n) {
      if k > 0 {
        var j: nat := k - 1;
        assert (j in keys && j < max) <==> k in MovedUp(keys, max);
      }
    }
  }

  /** Moving every file up one place is dropping nothing, or the oldest chunk, and opening an empty one. */
  lemma ShiftRepresents(files: map<nat, Bytes>, chunks: seq<seq<Bytes>>, max: nat)
    requires Represents(files, chunks) && 0 < |chunks| <= max + 1 && max > 0
    ensures Represents(Shift(files, max), (if |chunks| <= max then chunks else chunks[1..]) + [[]])
  {
    hide Content, MovedUp;
    var kept := if |chunks| <= max then chunks else chunks[1..];
    ShiftedKeysExactly(files.Keys, |chunks|, max);
    hide ShiftedKeys;
    var shifted, all := Shift(files, max), kept + [[]];
    EmptyContent();
    forall k | k in shifted ensures shifted[k] == Content(all[|all| - 1 - k]) {
      if k > 0 {
        assert k - 1 in files && k <= max;
        assert all[|all| - 1 - k] == chunks[|chunks| - 1 - (k - 1)];
      }
    }
  }

  lemma GrowRepresents(files: map<nat, Bytes>, chunks: seq<seq<Bytes>>, line: Bytes)
    requires Represents(files, chunks) && chunks != []
    ensures Represents(files[0 := files[0] + line + [NEWLINE]],
                       chunks[..|chunks| - 1] + [chunks[|chunks| - 1] + [line]])
  {
    ContentSnoc(chunks[|chunks| - 1], line);
  }

  lemma AppendRepresents(r: Run, policy: Option<Policy>, line: Bytes)
    requires ValidPolicy(policy) && 0 in r.store.files && r.chunks != [] && Represents(r.store.files, r.chunks)
    requires policy.Some? ==> |r.chunks| <= policy.value.maxArchivedFiles + 1
    ensures Represents(AppendLine(r.store, policy, line).files, AppendChunk(r.chunks, policy, r.store.currentBytes,
        line))
  {
    if ShouldRotate(policy, r.store.currentBytes, LineLen(line)) {
      var max := policy.value.maxArchivedFiles;
      ShiftRepresents(r.store.files, r.chunks, max);
      var kept := if |r.chunks| <= max then r.chunks else r.chunks[1..];
      hide Represents, Shift;
      GrowRepresents(Shift(r.store.files, max), kept + [[]], line);
      var grown := kept + [[]];
      assert grown[..|grown| - 1] == kept && grown[|grown| - 1] + [line] == [line];
    } else {
      GrowRepresents(r.store.files, r.chunks, line);
    }
  }

  lemma EmptyHistory(policy: Option<Policy>)
    requires ValidPolicy(policy)
    ensures History(policy, [], AppendAll(policy, []))
  {
    var none: seq<Bytes> := [];
    assert [none][..0] == [];
    assert AppendAll(policy, none).chunks == [none];
  }

  /** Rotation history: starting with no archives, after any appends the files read oldest to newest are a whole-record
      suffix of everything appended; only a full set of archives ever loses the oldest chunk; every file is within the
      budget or holds exactly one record. */
  lemma {:induction false} RotationHistory(policy: Option<Policy>, lines: seq<Bytes>)
    requires ValidPolicy(policy)
    ensures History(policy, lines, AppendAll(policy, lines))
    decreases |lines|
  {
    hide AppendLine, AppendChunk, ValidPolicy, History;
    if lines == [] {
      EmptyHistory(policy);
    } else {
      var init, line := lines[..|lines| - 1], lines[|lines| - 1];
      RotationHistory(policy, init);
      AppendHistory(policy, init, AppendAll(policy, init), line);
      assert lines == init + [line];
    }
  }

  lemma SuffixSnoc(s: seq<Bytes>, lines: seq<Bytes>, line: Bytes)
    requires IsSuffix(s, lines)
    ensures IsSuffix(s + [line], lines + [line])
  {
  }

  lemma SuffixTail(first: seq<Bytes>, rest: seq<Bytes>, lines: seq<Bytes>)
    requires IsSuffix(first + rest, lines)
    ensures IsSuffix(rest, lines)
  {
    var s := first + rest;
    assert lines[|lines| - |rest|..] == lines[|lines| - |s|..][|first|..] == s[|first|..] == rest;
  }

  lemma AppendSuffix(policy: Option<Policy>, lines: seq<Bytes>, chunks: seq<seq<Bytes>>, currentBytes: nat, line: Bytes)
    requires chunks != [] && WithinPolicy(policy, chunks) && SuffixKept(policy, lines, chunks)
    ensures SuffixKept(policy, lines + [line], AppendChunk(chunks, policy, currentBytes, line))
  {
    hide WithinPolicy, ChunkFits, Flatten, IsSuffix;
    if ShouldRotate(policy, currentBytes, LineLen(line)) {
      if |chunks| <= policy.value.maxArchivedFiles {
        FlattenSnoc(chunks, [line]);
        SuffixSnoc(Flatten(chunks), lines, line);
      } else {
        FlattenDropFirst(chunks);
        SuffixTail(chunks[0], Flatten(chunks[1..]), lines);
        FlattenSnoc(chunks[1..], [line]);
        SuffixSnoc(Flatten(chunks[1..]), lines, line);
        SuffixSize(policy, chunks);
      }
    } else {
      var init, last := chunks[..|chunks| - 1], chunks[|chunks| - 1];
      assert chunks == init + [last];
      FlattenSnoc(init, last);
      FlattenSnoc(init, last + [line]);
      assert Flatten(init) + (last + [line]) == Flatten(chunks) + [line];
      SuffixSnoc(Flatten(chunks), lines, line);
    }
    SuffixLength(Flatten(chunks), lines);
    SuffixLength(Flatten(AppendChunk(chunks, policy, currentBytes, line)), lines + [line]);
  }

  lemma SuffixLength(s: seq<Bytes>, lines: seq<Bytes>)
    requires IsSuffix(s, lines)
    ensures |s| <= |lines|
  {
  }

  lemma SuffixSize(policy: Option<Policy>, chunks: seq<seq<Bytes>>)
    requires WithinPolicy(policy, chunks)
    ensures chunks != [] && (policy.Some? ==> |chunks| <= policy.value.maxArchivedFiles + 1)
  {
  }

  lemma AppendWithin(policy: Option<Policy>, chunks: seq<seq<Bytes>>, currentBytes: nat, line: Bytes)
    requires WithinPolicy(policy, chunks)
    requires currentBytes == SaturatingAdd(|Content(chunks[|chunks| - 1])|, 0)
    ensures WithinPolicy(policy, AppendChunk(chunks, policy, currentBytes, line))
  {
    var last := chunks[|chunks| - 1];
    ContentSnoc(last, line);
    assert last == [] ==> last + [line] == [line];
  }

  lemma AppendHistory(policy: Option<Policy>, lines: seq<Bytes>, r: Run, line: Bytes)
    requires ValidPolicy(policy) && 0 in r.store.files && History(policy, lines, r)
    ensures History(policy, lines + [line], Run(AppendLine(r.store, policy, line),
                                               AppendChunk(r.chunks, policy, r.store.currentBytes, line)))
  {
    hide Represents, SuffixKept, WithinPolicy, NeverEarly, AppendLine, AppendChunk, ValidPolicy;
    var chunks, bytes := r.chunks, r.store.currentBytes;
    SuffixSize(policy, chunks);
    AppendRepresents(r, policy, line);
    AppendSuffix(policy, lines, chunks, bytes, line);
    AppendWithin(policy, chunks, bytes, line);
    AppendNeverEarly(policy, chunks, bytes, line);
    AppendCounts(r, policy, line);
  }

  lemma AppendNeverEarly(policy: Option<Policy>, chunks: seq<seq<Bytes>>, currentBytes: nat, line: Bytes)
    requires chunks != [] && NeverEarly(policy, chunks)
    requires currentBytes == SaturatingAdd(|Content(chunks[|chunks| - 1])|, 0)
    ensures NeverEarly(policy, AppendChunk(chunks, policy, currentBytes, line))
  {
    hide Content;
    var last, after := chunks[|chunks| - 1], AppendChunk(chunks, policy, currentBytes, line);
    if ShouldRotate(policy, currentBytes, LineLen(line)) {
      assert DidNotFit(policy, last, [line]);
    }
    var shift := |chunks| - (|after| - if ShouldRotate(policy, currentBytes, LineLen(line)) then 1 else 0);
    forall i | 0 <= i < |after| - 1 ensures DidNotFit(policy, after[i], after[i + 1]) {
      if i + shift + 1 < |chunks| { assert DidNotFit(policy, chunks[i + shift], chunks[i + shift + 1]); }
    }
  }

  /** The byte counter follows the active file, saturating like it. */
  lemma AppendCounts(r: Run, policy: Option<Policy>, line: Bytes)
    requires 0 in r.store.files && r.chunks != []
    requires r.store.currentBytes == SaturatingAdd(|Content(r.chunks[|r.chunks| - 1])|, 0)
    ensures var chunks := AppendChunk(r.chunks, policy, r.store.currentBytes, line);
      && chunks != [] && chunks[|chunks| - 1] != []
      && AppendLine(r.store, policy, line).currentBytes == SaturatingAdd(|Content(chunks[|chunks| - 1])|, 0)
  {
    hide Shift, Content;
    EmptyContent();
    assert [] + [line] == [line];
    ContentSnoc(r.chunks[|r.chunks| - 1], line);
    ContentSnoc([], line);
  }
}
