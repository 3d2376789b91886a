/** The store object of crates/apolysis-store/src/hash_chain.rs and what it guarantees: appends build a verifiable
    chain, a file cut anywhere is recovered to its surviving records, recovery agrees with verification on any bytes,
    and two verified files with the same last hash hold the same records unless the digest was broken. */
module HashChainStores {
  import opened Common
  import opened HashChain

  /** The value of a store: the bytes of its file, and the sequence and hash the next record continues from. */
  datatype Chain = Chain(file: Bytes, sequence: U64, previousHash: Bytes)

  const EMPTY_CHAIN := Chain([], 0, ZERO_HASH)

  function Line<V>(c: Codec<V>, r: ChainRecord<V>): Bytes {
    c.printRecord(r) + [NEWLINE]
  }

  function NextRecord<V>(c: Codec<V>, chain: Chain, schemaVersion: U32, payload: V): ChainRecord<V> {
    var sequence := NextSequence(chain.sequence);
    ChainRecord(schemaVersion, sequence, chain.previousHash,
                CalculateHash(c, schemaVersion, sequence, chain.previousHash, payload), payload)
  }

  function Append<V>(c: Codec<V>, chain: Chain, schemaVersion: U32, payload: V): Chain {
    var r := NextRecord(c, chain, schemaVersion, payload);
    Chain(chain.file + Line(c, r), r.sequence, r.recordHash)
  }

  datatype Recovery<V> = Recovery(chain: Chain, nextSequence: U64, quarantined: Option<Bytes>,
                                  records: seq<ChainRecord<V>>)

  /** `create_or_recover` on the bytes found at the path; a missing file reads as no bytes. */
  function Recover<V>(c: Codec<V>, bytes: Bytes): Result<Recovery<V>, StoreError> {
    match ValidateSpec(c, bytes)
    case Err(e) => Err(e)
    case Ok(scan) =>
      var quarantined := if scan.validLen < |bytes| then Some(bytes[scan.validLen..]) else None;
      Ok(Recovery(Chain(bytes[..scan.validLen], scan.sequence, scan.previousHash),
                  NextSequence(scan.sequence), quarantined, scan.records))
  }

  class HashChainStore<V(==)> {
    const codec: Codec<V>
    var file: Bytes
    var sequence: U64
    var previousHash: Bytes

    function Value(): Chain
      reads this
    {
      Chain(file, sequence, previousHash)
    }

    constructor (codec: Codec<V>, file: Bytes, sequence: U64, previousHash: Bytes)
      ensures this.codec == codec
      ensures Value() == Chain(file, sequence, previousHash)
    {
      this.codec, this.file, this.sequence, this.previousHash := codec, file, sequence, previousHash;
    }

    method AppendJson(schemaVersion: U32, payload: Bytes) returns (r: Result<ChainRecord<V>, StoreError>)
      modifies this
      ensures codec.parseValue(payload).None? ==> r == Err(InvalidPayload) && Value() == old(Value())
      ensures codec.parseValue(payload).Some? ==>
        var v := codec.parseValue(payload).value;
        && r == Ok(NextRecord(codec, old(Value()), schemaVersion, v))
        && Value() == Append(codec, old(Value()), schemaVersion, v)
    {
      var parsed := codec.parseValue(payload);
      if parsed.None? {
        return Err(InvalidPayload);
      }
      var canonicalPayload := codec.printValue(parsed.value);
      var next := NextSequence(sequence);
      var recordHash := EncodeHex(codec.digest(Framed(schemaVersion, next, previousHash, canonicalPayload)));
      var record := ChainRecord(schemaVersion, next, previousHash, recordHash, parsed.value);
      file := file + codec.printRecord(record);
      file := file + [NEWLINE];
      sequence := next;
      previousHash := record.recordHash;
      return Ok(record);
    }
  }

  /** `create_or_recover`: the store continues the valid prefix and the tail goes to a quarantine file. */
  method CreateOrRecover<V(==)>(c: Codec<V>, bytes: Bytes)
    returns (r: Result<Recovery<V>, StoreError>, store: HashChainStore<V>)
    ensures r == Recover(c, bytes)
    ensures r.Ok? ==> fresh(store) && store.codec == c && store.Value() == r.value.chain
  {
    var validation := ValidateExisting(c, bytes);
    if validation.Err? {
      store := new HashChainStore(c, [], 0, ZERO_HASH);
      return Err(validation.error), store;
    }
    var scan := validation.value;
    var file := bytes;
    var quarantined: Option<Bytes> := None;
    if scan.validLen < |bytes| {
      quarantined := Some(bytes[scan.validLen..]);
      file := bytes[..scan.validLen];
    } else {
      assert bytes[..scan.validLen] == bytes;
    }
    store := new HashChainStore(c, file, scan.sequence, scan.previousHash);
    return Ok(Recovery(store.Value(), NextSequence(scan.sequence), quarantined, scan.records)), store;
  }

  // ---------------------------------------------------------------- chains of records

  function Image<V>(c: Codec<V>, records: seq<ChainRecord<V>>): Bytes {
    if records == [] then [] else Image(c, records[..|records| - 1]) + Line(c, records[|records| - 1])
  }

  function LastSequence<V>(records: seq<ChainRecord<V>>): U64 {
    if records == [] then 0 else records[|records| - 1].sequence
  }

  function LastHash<V>(records: seq<ChainRecord<V>>): Bytes {
    if records == [] then ZERO_HASH else records[|records| - 1].recordHash
  }

  /** Record `i` continues the ones before it. */
  predicate Linked<V>(c: Codec<V>, records: seq<ChainRecord<V>>, i: nat)
    requires i < |records|
  {
    var r := records[i];
    && r.sequence == NextSequence(LastSequence(records[..i]))
    && r.previousHash == LastHash(records[..i])
    && r.recordHash == CalculateHash(c, r.schemaVersion, r.sequence, r.previousHash, r.payload)
  }

  ghost predicate ChainOk<V>(c: Codec<V>, records: seq<ChainRecord<V>>) {
    forall i :: 0 <= i < |records| ==> Linked(c, records, i)
  }

  /** A store whose file holds exactly these records, and which continues from the last of them. */
  ghost predicate Holds<V>(c: Codec<V>, chain: Chain, records: seq<ChainRecord<V>>) {
    && ChainOk(c, records)
    && chain == Chain(Image(c, records), LastSequence(records), LastHash(records))
  }

  lemma ChainPrefix<V>(c: Codec<V>, records: seq<ChainRecord<V>>, k: nat)
    requires ChainOk(c, records) && k <= |records|
    ensures ChainOk(c, records[..k])
  {
    forall i | 0 <= i < k ensures Linked(c, records[..k], i) {
      assert records[..k][..i] == records[..i];
      assert Linked(c, records, i);
    }
  }

  lemma ChainSnoc<V>(c: Codec<V>, records: seq<ChainRecord<V>>, r: ChainRecord<V>)
    requires ChainOk(c, records)
    requires Linked(c, records + [r], |records|)
    ensures ChainOk(c, records + [r])
  {
    forall i | 0 <= i < |records + [r]| ensures Linked(c, records + [r], i) {
      if i < |records| {
        assert (records + [r])[..i] == records[..i];
        assert Linked(c, records, i);
      }
    }
  }

  lemma ImageSnoc<V>(c: Codec<V>, records: seq<ChainRecord<V>>, r: ChainRecord<V>)
    ensures Image(c, records + [r]) == Image(c, records) + Line(c, r)
  {
    assert (records + [r])[..|records|] == records;
  }

  lemma {:induction false} ImagePrefix<V>(c: Codec<V>, records: seq<ChainRecord<V>>, k: nat)
    requires k <= |records|
    ensures Image(c, records[..k]) <= Image(c, records)
    decreases |records|
  {
    if k == |records| {
      assert records[..k] == records;
    } else {
      var init := records[..|records| - 1];
      assert init[..k] == records[..k];
      ImagePrefix(c, init, k);
    }
  }

  /** One append extends the records by the one it returns. */
  lemma AppendHolds<V>(c: Codec<V>, chain: Chain, records: seq<ChainRecord<V>>, schemaVersion: U32, payload: V)
    requires Holds(c, chain, records)
    ensures Holds(c, Append(c, chain, schemaVersion, payload), records + [NextRecord(c, chain, schemaVersion, payload)])
  {
    var r := NextRecord(c, chain, schemaVersion, payload);
    assert (records + [r])[..|records|] == records;
    ChainSnoc(c, records, r);
    ImageSnoc(c, records, r);
  }

  datatype Input<V> = Input(schemaVersion: U32, payload: V)

  /** A store after a list of appends, and the records they returned. */
  function AppendAll<V>(c: Codec<V>, chain: Chain, inputs: seq<Input<V>>): (Chain, seq<ChainRecord<V>>)
    decreases |inputs|
  {
    if inputs == [] then (chain, [])
    else
      var (chain1, records) := AppendAll(c, chain, inputs[..|inputs| - 1]);
      var last := inputs[|inputs| - 1];
      (Append(c, chain1, last.schemaVersion, last.payload),
       records + [NextRecord(c, chain1, last.schemaVersion, last.payload)])
  }

  lemma {:induction false} AppendAllHolds<V>(c: Codec<V>, chain: Chain, records: seq<ChainRecord<V>>,
                                             inputs: seq<Input<V>>)
    requires Holds(c, chain, records)
    ensures var (chain', added) := AppendAll(c, chain, inputs); Holds(c, chain', records + added)
    decreases |inputs|
  {
    if inputs == [] {
      assert records + [] == records;
    } else {
      var init, last := inputs[..|inputs| - 1], inputs[|inputs| - 1];
      AppendAllHolds(c, chain, records, init);
      var (chain1, added) := AppendAll(c, chain, init);
      AppendHolds(c, chain1, records + added, last.schemaVersion, last.payload);
      var r := NextRecord(c, chain1, last.schemaVersion, last.payload);
      assert records + added + [r] == records + (added + [r]);
    }
  }

  // ---------------------------------------------------------------- scanning an image

  lemma OwnLineValidates<V(!new)>(c: Codec<V>, records: seq<ChainRecord<V>>, j: nat)
    requires Lawful(c) && ChainOk(c, records) && j < |records|
    ensures ValidateLine(c, c.printRecord(records[j]), NextSequence(LastSequence(records[..j])), LastHash(records[..j]))
         == Ok(records[j])
  {
    assert Linked(c, records, j);
  }

  /** A printed line at its place is found by the search for the next newline. */
  lemma LineFound(bytes: Bytes, start: nat, text: Bytes)
    requires start + |text| < |bytes| && bytes[start..start + |text|] == text && bytes[start + |text|] == NEWLINE
    requires NEWLINE !in text
    ensures NextNewline(bytes, start) == start + |text|
  {
    forall i | start <= i < start + |text| ensures bytes[i] != NEWLINE {
      assert bytes[i] == text[i - start];
      assert text[i - start] in text;
    }
  }

  lemma LineScans<V(!new)>(c: Codec<V>, bytes: Bytes, records: seq<ChainRecord<V>>, j: nat)
    requires Lawful(c) && ChainOk(c, records) && j < |records|
    requires Image(c, records) <= bytes
    ensures var start := |Image(c, records[..j])|;
      var end := |Image(c, records[..j + 1])| - 1;
      && start <= end < |bytes| && NextNewline(bytes, start) == end
      && ValidateLine(c, bytes[start..end], NextSequence(LastSequence(records[..j])), LastHash(records[..j]))
         == Ok(records[j])
  {
    hide ValidateLine, LastSequence, LastHash, ChainOk, Image;
    OwnLineValidates(c, records, j);
    var r := records[j];
    var before, text := Image(c, records[..j]), c.printRecord(r);
    assert records[..j + 1] == records[..j] + [r];
    ImageSnoc(c, records[..j], r);
    ImagePrefix(c, records, j + 1);
    hide NextNewline, Lawful;
    assert before + (text + [NEWLINE]) <= bytes;
    PieceOf(bytes, before, text);
    LineFound(bytes, |before|, text);
  }

  lemma PieceOf(bytes: Bytes, before: Bytes, text: Bytes)
    requires before + (text + [NEWLINE]) <= bytes
    ensures var start := |before|;
      && start + |text| < |bytes| && bytes[start..start + |text|] == text && bytes[start + |text|] == NEWLINE
  {
    var whole, start := before + (text + [NEWLINE]), |before|;
    assert bytes[..|whole|] == whole;
    assert bytes[start..start + |text|] == whole[start..start + |text|] == text;
    assert bytes[start + |text|] == whole[start + |text|] == NEWLINE;
  }

  /** Scanning an image followed by a tail without newline finds exactly its records and stops at the tail. */
  lemma {:induction false} ScanImage<V(!new)>(c: Codec<V>, bytes: Bytes, records: seq<ChainRecord<V>>, j: nat)
    requires Lawful(c) && ChainOk(c, records) && j <= |records|
    requires Image(c, records) <= bytes && NEWLINE !in bytes[|Image(c, records)|..]
    requires |Image(c, records[..j])| <= |bytes|
    ensures ScanFrom(c, bytes, |Image(c, records[..j])|, LastSequence(records[..j]), LastHash(records[..j]),
                     records[..j])
         == Scan(LastSequence(records), LastHash(records), |Image(c, records)|, records, None)
    decreases |records| - j
  {
    hide ScanFrom, ValidateLine, ChainOk, Lawful, Image;
    var start := |Image(c, records[..j])|;
    if j == |records| {
      assert records[..j] == records;
      NoNewlineFrom(bytes, start);
      ScanStops(c, bytes, start, LastSequence(records), LastHash(records), records);
    } else {
      LineScans(c, bytes, records, j);
      ImagePrefix(c, records, j + 1);
      var end := |Image(c, records[..j + 1])| - 1;
      ScanGoesOn(c, bytes, start, LastSequence(records[..j]), LastHash(records[..j]), records[..j], end, records[j]);
      hide NextNewline;
      SnocLast(records, j);
      ScanImage(c, bytes, records, j + 1);
    }
  }

  lemma NoNewlineFrom(bytes: Bytes, start: nat)
    requires start <= |bytes| && NEWLINE !in bytes[start..]
    ensures NextNewline(bytes, start) == |bytes|
  {
    forall i | start <= i < |bytes| ensures bytes[i] != NEWLINE { assert bytes[start..][i - start] == bytes[i]; }
  }

  lemma SnocLast<V>(records: seq<ChainRecord<V>>, j: nat)
    requires j < |records|
    ensures records[..j + 1] == records[..j] + [records[j]]
    ensures LastSequence(records[..j + 1]) == records[j].sequence && LastHash(records[..j + 1]) == records[j].recordHash
  {
  }

  lemma ScanWhole<V(!new)>(c: Codec<V>, records: seq<ChainRecord<V>>, tail: Bytes)
    requires Lawful(c) && ChainOk(c, records) && NEWLINE !in tail
    ensures ScanFile(c, Image(c, records) + tail)
         == Scan(LastSequence(records), LastHash(records), |Image(c, records)|, records, None)
  {
    var bytes := Image(c, records) + tail;
    assert bytes[|Image(c, records)|..] == tail;
    assert records[..0] == [];
    ScanImage(c, bytes, records, 0);
  }

  // ---------------------------------------------------------------- torn writes

  /** The records up to and including number `i`. */
  function UpTo<V>(records: seq<ChainRecord<V>>, i: nat): seq<ChainRecord<V>>
    requires i < |records|
  {
    records[..i + 1]
  }

  /** How many records lie whole within the first `n` bytes. */
  function Whole<V>(c: Codec<V>, records: seq<ChainRecord<V>>, n: nat): (k: nat)
    ensures k <= |records|
  {
    if records == [] then 0
    else if |Image(c, records)| <= n then |records|
    else Whole(c, records[..|records| - 1], n)
  }

  lemma {:induction false} WholeExactly<V>(c: Codec<V>, records: seq<ChainRecord<V>>, n: nat)
    ensures forall i :: 0 <= i < |records| ==> (i < Whole(c, records, n) <==> |Image(c, UpTo(records, i))| <= n)
    decreases |records|
  {
    if records != [] {
      var init := records[..|records| - 1];
      WholeExactly(c, init, n);
      forall i | 0 <= i < |records| ensures i < Whole(c, records, n) <==> |Image(c, UpTo(records, i))| <= n {
        ImagePrefix(c, records, i + 1);
        if i < |records| - 1 {
          assert UpTo(init, i) == UpTo(records, i);
        } else {
          assert UpTo(records, i) == records;
        }
      }
    }
  }

  lemma LineIsOneLine<V(!new)>(c: Codec<V>, r: ChainRecord<V>)
    requires Lawful(c)
    ensures NEWLINE !in c.printRecord(r)
  {
  }

  /** A cut image is the image of its whole records and part of the next line, which has no newline. */
  lemma {:induction false} CutImage<V(!new)>(c: Codec<V>, records: seq<ChainRecord<V>>, n: nat)
    requires Lawful(c) && n <= |Image(c, records)|
    ensures var k := Whole(c, records, n);
      && |Image(c, records[..k])| <= n
      && Image(c, records)[..n] == Image(c, records[..k]) + Image(c, records)[|Image(c, records[..k])|..n]
      && NEWLINE !in Image(c, records)[|Image(c, records[..k])|..n]
    decreases |records|
  {
    hide Lawful;
    var whole := Image(c, records);
    if records != [] && n < |whole| {
      assert NEWLINE !in c.printRecord(records[|records| - 1]) by { LineIsOneLine(c, records[|records| - 1]); }
      var init, last := records[..|records| - 1], records[|records| - 1];
      var k := Whole(c, init, n);
      assert init[..k] == records[..k];
      assert records == init + [last];
      ImageSnoc(c, init, last);
      assert Whole(c, records, n) == k;
      hide Image;
      var m := |Image(c, init)|;
      if n <= m {
        hide Whole;
        CutImage(c, init, n);
        assert whole[..n] == Image(c, init)[..n];
        assert whole[|Image(c, records[..k])|..n] == Image(c, init)[|Image(c, init[..k])|..n];
      } else {
        assert k == |init| && init[..k] == init by { WholeAll(c, init, n); }
        hide Whole;
        CutBehind(Image(c, init), c.printRecord(last), whole, n);
      }
    } else {
      assert records[..|records|] == records;
      assert whole[..n] == whole;
    }
  }

  /** A cut within the last line. */
  lemma CutBehind(init: Bytes, line: Bytes, whole: Bytes, n: nat)
    requires whole == init + line + [NEWLINE] && |init| < n < |whole| && NEWLINE !in line
    ensures whole[..n] == init + whole[|init|..n] && NEWLINE !in whole[|init|..n]
  {
    assert whole[|init|..n] == line[..n - |init|];
  }

  lemma WholeAll<V>(c: Codec<V>, records: seq<ChainRecord<V>>, n: nat)
    requires |Image(c, records)| <= n
    ensures Whole(c, records, n) == |records| && records[..|records|] == records
  {
  }

  /** Torn-write recovery: whatever was appended and wherever the file is cut, recovery succeeds, returns exactly the
      records whose newline survived, quarantines the rest, and appends after it give a file that verifies and holds
      the survivors and the new records. */
  lemma TornWriteRecovery<V(!new)>(c: Codec<V>, inputs: seq<Input<V>>, n: nat, more: seq<Input<V>>)
    requires Lawful(c) && n <= |AppendAll(c, EMPTY_CHAIN, inputs).0.file|
    ensures var (chain, records) := AppendAll(c, EMPTY_CHAIN, inputs);
      var k := Whole(c, records, n);
      var recovered := Recover(c, chain.file[..n]);
      && (forall i :: 0 <= i < |records| ==> (i < k <==> |Image(c, UpTo(records, i))| <= n))
      && recovered.Ok?
      && recovered.value.records == records[..k]
      && recovered.value.chain.file == Image(c, records[..k])
      && (recovered.value.quarantined.Some? <==> |Image(c, records[..k])| < n)
      && var (chain', added) := AppendAll(c, recovered.value.chain, more);
         Passes(c, chain'.file) && ScanFile(c, chain'.file).records == records[..k] + added
  {
    hide Holds, Whole, Recover, Image, Lawful, Passes, AppendAll, ScanFile;
    var (chain, records) := AppendAll(c, EMPTY_CHAIN, inputs);
    NothingHeld(c);
    AppendAllHolds(c, EMPTY_CHAIN, [], inputs);
    assert [] + records == records;
    HeldFile(c, chain, records);
    var k := Whole(c, records, n);
    WholeExactly(c, records, n);
    RecoverCut(c, records, n);
    var recovered := Recover(c, chain.file[..n]).value;
    HeldFile(c, recovered.chain, records[..k]);
    AppendAllHolds(c, recovered.chain, records[..k], more);
    var (chain', added) := AppendAll(c, recovered.chain, more);
    HeldVerifies(c, chain', records[..k] + added);
  }

  lemma NothingHeld<V>(c: Codec<V>)
    ensures Holds(c, EMPTY_CHAIN, [])
  {
  }

  lemma HeldFile<V>(c: Codec<V>, chain: Chain, records: seq<ChainRecord<V>>)
    requires Holds(c, chain, records)
    ensures ChainOk(c, records) && chain.file == Image(c, records)
  {
  }

  /** A file that holds linked records and nothing else verifies, and reports them. */
  lemma HeldVerifies<V(!new)>(c: Codec<V>, chain: Chain, records: seq<ChainRecord<V>>)
    requires Lawful(c) && Holds(c, chain, records)
    ensures Passes(c, chain.file) && ScanFile(c, chain.file).records == records
  {
    ScanWhole(c, records, []);
    hide ScanFile, Lawful;
    assert chain.file + [] == chain.file;
  }

  /** Recovering a cut image keeps the whole records and continues from the last of them. */
  lemma RecoverCut<V(!new)>(c: Codec<V>, records: seq<ChainRecord<V>>, n: nat)
    requires Lawful(c) && ChainOk(c, records) && n <= |Image(c, records)|
    ensures var k := Whole(c, records, n);
      var recovered := Recover(c, Image(c, records)[..n]);
      && recovered.Ok? && recovered.value.records == records[..k] && Holds(c, recovered.value.chain, records[..k])
      && (recovered.value.quarantined.Some? <==> |Image(c, records[..k])| < n)
  {
    var k := Whole(c, records, n);
    CutImage(c, records, n);
    ChainPrefix(c, records, k);
    hide ChainOk, Lawful, Whole, ScanFile;
    var tail := Image(c, records)[|Image(c, records[..k])|..n];
    ScanWhole(c, records[..k], tail);
    assert Image(c, records)[..n][..|Image(c, records[..k])|] == Image(c, records[..k]);
  }

  // ---------------------------------------------------------------- any alternation of appends and crashes

  datatype StoreStep<V> = Appended(input: Input<V>) | CrashedAt(length: nat)

  /** What is left of a file cut to some length. */
  function Cut(bytes: Bytes, length: nat): (r: Bytes)
    ensures r <= bytes
  {
    if length <= |bytes| then bytes[..length] else bytes
  }

  /** The store after a run of appends and of crashes followed by a recovery, and the records that ought to be in it: an
      append adds one, a crash keeps those whose line lies whole within the cut. None when a recovery fails. */
  function StoreRun<V>(c: Codec<V>, steps: seq<StoreStep<V>>): Option<(Chain, seq<ChainRecord<V>>)>
    decreases |steps|
  {
    if steps == [] then Some((EMPTY_CHAIN, []))
    else
      match StoreRun(c, steps[..|steps| - 1])
      case None => None
      case Some((chain, records)) =>
        match steps[|steps| - 1]
        case Appended(input) =>
          Some((Append(c, chain, input.schemaVersion, input.payload),
                records + [NextRecord(c, chain, input.schemaVersion, input.payload)]))
        case CrashedAt(length) =>
          var bytes := Cut(chain.file, length);
          match Recover(c, bytes)
          case Err(_) => None
          case Ok(recovery) => Some((recovery.chain, records[..Whole(c, records, |bytes|)]))
  }

  /** Torn-write recovery over whole lives: whatever is appended, and however often the file is cut anywhere and
      recovered, every recovery succeeds, and the file then verifies and holds exactly the records that ought to be in
      it. */
  lemma {:induction false} CrashesAndAppends<V(!new)>(c: Codec<V>, steps: seq<StoreStep<V>>)
    requires Lawful(c)
    ensures StoreRun(c, steps).Some?
    ensures var (chain, records) := StoreRun(c, steps).value;
      Holds(c, chain, records) && Passes(c, chain.file) && ScanFile(c, chain.file).records == records
    decreases |steps|
  {
    hide Holds, Lawful, Passes, ScanFile, Recover, Whole, Append, NextRecord;
    if steps == [] {
      NothingHeld(c);
    } else {
      CrashesAndAppends(c, steps[..|steps| - 1]);
      var (chain, records) := StoreRun(c, steps[..|steps| - 1]).value;
      match steps[|steps| - 1]
      case Appended(input) => AppendHolds(c, chain, records, input.schemaVersion, input.payload);
      case CrashedAt(length) => CrashHolds(c, chain, records, length);
    }
    var (chain, records) := StoreRun(c, steps).value;
    HeldVerifies(c, chain, records);
  }

  lemma CrashHolds<V(!new)>(c: Codec<V>, chain: Chain, records: seq<ChainRecord<V>>, length: nat)
    requires Lawful(c) && Holds(c, chain, records)
    ensures var bytes := Cut(chain.file, length); var recovered := Recover(c, bytes);
      recovered.Ok? && Holds(c, recovered.value.chain, records[..Whole(c, records, |bytes|)])
  {
    hide Holds, Lawful, Recover, Whole, Image;
    HeldFile(c, chain, records);
    var n := |Cut(chain.file, length)|;
    assert Cut(chain.file, length) == chain.file[..n];
    RecoverCut(c, records, n);
  }

  // ---------------------------------------------------------------- recovery against verification

  lemma {:induction false} ScanPrefix<V>(c: Codec<V>, bytes: Bytes, start: nat, sequence: U64, previousHash: Bytes,
                                         records: seq<ChainRecord<V>>)
    requires start <= |bytes|
    ensures var scan := ScanFrom(c, bytes, start, sequence, previousHash, records);
      ScanFrom(c, bytes[..scan.validLen], start, sequence, previousHash, records) == scan.(bad := None)
    decreases |bytes| - start
  {
    hide ScanFrom, ValidateLine;
    var end := NextNewline(bytes, start);
    if end == |bytes| {
      ScanStops(c, bytes, start, sequence, previousHash, records);
      PrefixStops(c, bytes, start, sequence, previousHash, records);
    } else {
      match ValidateLine(c, bytes[start..end], NextSequence(sequence), previousHash)
      case Err(_) =>
        ScanMeetsBad(c, bytes, start, sequence, previousHash, records);
        PrefixStops(c, bytes, start, sequence, previousHash, records);
      case Ok(r) =>
        ScanPrefix(c, bytes, end + 1, r.sequence, r.recordHash, records + [r]);
        ScanGoesOn(c, bytes, start, sequence, previousHash, records, end, r);
        var kept := bytes[..ScanFrom(c, bytes, start, sequence, previousHash, records).validLen];
        assert end + 1 <= |kept|;
        assert kept[start..end] == bytes[start..end];
        LineFound(kept, start, bytes[start..end]);
        ScanGoesOn(c, kept, start, sequence, previousHash, records, end, r);
    }
  }

  /** When the scan stops at `start`, cutting there leaves nothing more to scan. */
  lemma PrefixStops<V>(c: Codec<V>, bytes: Bytes, start: nat, sequence: U64, previousHash: Bytes,
                       records: seq<ChainRecord<V>>)
    requires start <= |bytes|
    ensures ScanFrom(c, bytes[..start], start, sequence, previousHash, records)
         == Scan(sequence, previousHash, start, records, None)
  {
    ScanStops(c, bytes[..start], start, sequence, previousHash, records);
  }

  lemma ScanFilePrefix<V>(c: Codec<V>, bytes: Bytes)
    ensures var scan := ScanFile(c, bytes); ScanFile(c, bytes[..scan.validLen]) == scan.(bad := None)
  {
    ScanPrefix(c, bytes, 0, 0, ZERO_HASH, []);
  }

  /** Recovery and read-only verification agree on arbitrary bytes: recovery rejects exactly when the first bad line is
      followed by at least one more byte; otherwise it reports what verification reports, splits the bytes into the
      kept prefix and the quarantined rest, and what it keeps verifies and is left alone by a second recovery. */
  lemma RecoverAgreesWithVerify<V>(c: Codec<V>, bytes: Bytes)
    ensures var scan := ScanFile(c, bytes);
      var recovered := Recover(c, bytes);
      && (recovered.Err? <==> scan.bad.Some? && scan.bad.value.end + 1 < |bytes|)
      && (recovered.Ok? ==>
            var r := recovered.value;
            && r.records == scan.records && |r.chain.file| == scan.validLen
            && r.chain.sequence == scan.sequence && r.chain.previousHash == scan.previousHash
            && bytes == r.chain.file + (if r.quarantined.Some? then r.quarantined.value else [])
            && (Passes(c, bytes) <==> r.quarantined.None?)
            && Passes(c, r.chain.file)
            && Recover(c, r.chain.file) == Ok(r.(quarantined := None)))
  {
    var scan := ScanFile(c, bytes);
    ScanFilePrefix(c, bytes);
    hide ScanFile;
    var kept := bytes[..scan.validLen];
    assert kept[..|kept|] == kept;
    assert bytes == kept + bytes[scan.validLen..];
  }

  // ---------------------------------------------------------------- uniqueness

  function Message<V>(c: Codec<V>, r: ChainRecord<V>): Bytes {
    Framed(r.schemaVersion, r.sequence, r.previousHash, c.printValue(r.payload))
  }

  /** The two record lists exhibit a broken digest: two different hashed messages with one digest, or a message that
      hashes to the starting value. */
  ghost predicate DigestBroken<V>(c: Codec<V>, a: seq<ChainRecord<V>>, b: seq<ChainRecord<V>>) {
    || (exists i, j :: 0 <= i < |a| && 0 <= j < |b| && Collide(c, a[i], b[j]))
    || (exists i :: 0 <= i < |a| && HashesToZero(c, a[i]))
    || (exists j :: 0 <= j < |b| && HashesToZero(c, b[j]))
  }

  predicate Collide<V>(c: Codec<V>, r: ChainRecord<V>, s: ChainRecord<V>) {
    Message(c, r) != Message(c, s) && c.digest(Message(c, r)) == c.digest(Message(c, s))
  }

  predicate HashesToZero<V>(c: Codec<V>, r: ChainRecord<V>) {
    Hex(c.digest(Message(c, r))) == ZERO_HASH
  }

  lemma HashWidth<V(!new)>(c: Codec<V>, records: seq<ChainRecord<V>>)
    requires Lawful(c) && ChainOk(c, records)
    ensures |LastHash(records)| == 64
  {
    if records != [] { assert Linked(c, records, |records| - 1); }
  }

  lemma BrokenInPrefix<V>(c: Codec<V>, a: seq<ChainRecord<V>>, b: seq<ChainRecord<V>>, m: nat, n: nat)
    requires m <= |a| && n <= |b| && DigestBroken(c, a[..m], b[..n])
    ensures DigestBroken(c, a, b)
  {
    hide Collide, HashesToZero;
    if i, j :| 0 <= i < m && 0 <= j < n && Collide(c, a[..m][i], b[..n][j]) {
      assert a[..m][i] == a[i] && b[..n][j] == b[j];
    } else if i :| 0 <= i < m && HashesToZero(c, a[..m][i]) {
      assert a[..m][i] == a[i];
    } else {
      var j :| 0 <= j < n && HashesToZero(c, b[..n][j]);
      assert b[..n][j] == b[j];
    }
  }

  /** Equal last hashes mean equal digests; equal messages mean equal records that continue from equal hashes. */
  lemma LastMessages<V(!new)>(c: Codec<V>, a: seq<ChainRecord<V>>, b: seq<ChainRecord<V>>)
    requires Lawful(c) && ChainOk(c, a) && ChainOk(c, b) && LastHash(a) == LastHash(b)
    requires a != [] && b != []
    ensures var r, s := a[|a| - 1], b[|b| - 1];
      && c.digest(Message(c, r)) == c.digest(Message(c, s))
      && (Message(c, r) == Message(c, s) ==> r == s && LastHash(a[..|a| - 1]) == LastHash(b[..|b| - 1]))
  {
    var m, n := |a| - 1, |b| - 1;
    var r, s := a[m], b[n];
    assert Linked(c, a, m) && Linked(c, b, n);
    HexInjective(c.digest(Message(c, r)), c.digest(Message(c, s)));
    if Message(c, r) == Message(c, s) {
      ChainPrefix(c, a, m);
      ChainPrefix(c, b, n);
      HashWidth(c, a[..m]);
      HashWidth(c, b[..n]);
      FramedInjective(r.schemaVersion, r.sequence, r.previousHash, c.printValue(r.payload),
                      s.schemaVersion, s.sequence, s.previousHash, c.printValue(s.payload));
      assert c.parseValue(c.printValue(r.payload)) == Some(r.payload);
    }
  }

  lemma ZeroPreimage<V>(c: Codec<V>, b: seq<ChainRecord<V>>)
    requires ChainOk(c, b) && b != [] && LastHash(b) == ZERO_HASH
    ensures HashesToZero(c, b[|b| - 1])
  {
    assert Linked(c, b, |b| - 1);
  }

  lemma LastCollide<V>(c: Codec<V>, a: seq<ChainRecord<V>>, b: seq<ChainRecord<V>>)
    requires a != [] && b != [] && Collide(c, a[|a| - 1], b[|b| - 1])
    ensures DigestBroken(c, a, b)
  {
  }

  lemma ZeroBreaks<V>(c: Codec<V>, a: seq<ChainRecord<V>>, b: seq<ChainRecord<V>>)
    requires (a != [] && HashesToZero(c, a[|a| - 1])) || (b != [] && HashesToZero(c, b[|b| - 1]))
    ensures DigestBroken(c, a, b)
  {
  }

  lemma SameButLast<V>(a: seq<V>, b: seq<V>)
    requires a != [] && b != [] && a[..|a| - 1] == b[..|b| - 1] && a[|a| - 1] == b[|b| - 1]
    ensures a == b
  {
    assert a == a[..|a| - 1] + [a[|a| - 1]] && b == b[..|b| - 1] + [b[|b| - 1]];
  }

  /** Same last hash, same records, or the digest is broken. */
  lemma {:induction false} SameHashSameRecords<V(!new)>(c: Codec<V>, a: seq<ChainRecord<V>>, b: seq<ChainRecord<V>>)
    requires Lawful(c) && ChainOk(c, a) && ChainOk(c, b) && LastHash(a) == LastHash(b)
    ensures a == b || DigestBroken(c, a, b)
    decreases |a|
  {
    hide ChainOk, Message, Lawful, HashesToZero, DigestBroken, Collide;
    if a == [] && b == [] {
    } else if a == [] {
      ZeroPreimage(c, b);
      ZeroBreaks(c, a, b);
    } else if b == [] {
      ZeroPreimage(c, a);
      ZeroBreaks(c, a, b);
    } else {
      var m, n := |a| - 1, |b| - 1;
      LastMessages(c, a, b);
      ChainPrefix(c, a, m);
      ChainPrefix(c, b, n);
      if Message(c, a[m]) != Message(c, b[n]) {
        LastCollide(c, a, b);
      } else {
        hide LastHash;
        SameHashSameRecords(c, a[..m], b[..n]);
        if DigestBroken(c, a[..m], b[..n]) {
          BrokenInPrefix(c, a, b, m, n);
        } else {
          SameButLast(a, b);
        }
      }
    }
  }

  lemma ValidLineLinks<V>(c: Codec<V>, line: Bytes, records: seq<ChainRecord<V>>, r: ChainRecord<V>)
    requires ValidateLine(c, line, NextSequence(LastSequence(records)), LastHash(records)) == Ok(r)
    ensures Linked(c, records + [r], |records|)
  {
    assert (records + [r])[..|records|] == records;
  }

  /** The records of any scan are linked, and the scan reports their last sequence and hash. */
  lemma {:induction false} ScanIsLinked<V>(c: Codec<V>, bytes: Bytes, start: nat, records: seq<ChainRecord<V>>)
    requires start <= |bytes| && ChainOk(c, records)
    ensures var scan := ScanFrom(c, bytes, start, LastSequence(records), LastHash(records), records);
      && ChainOk(c, scan.records)
      && scan.sequence == LastSequence(scan.records) && scan.previousHash == LastHash(scan.records)
    decreases |bytes| - start
  {
    hide ValidateLine, ChainOk, Linked, ScanFrom, NextNewline, NextSequence;
    var end := NextNewline(bytes, start);
    if end == |bytes| {
      ScanStops(c, bytes, start, LastSequence(records), LastHash(records), records);
    } else {
      var v := ValidateLine(c, bytes[start..end], NextSequence(LastSequence(records)), LastHash(records));
      if v.Ok? {
        ValidLineLinks(c, bytes[start..end], records, v.value);
        ChainSnoc(c, records, v.value);
        ScanGoesOn(c, bytes, start, LastSequence(records), LastHash(records), records, end, v.value);
        ScanIsLinked(c, bytes, end + 1, records + [v.value]);
      } else {
        ScanMeetsBad(c, bytes, start, LastSequence(records), LastHash(records), records);
      }
    }
  }

  /** Chain uniqueness: two files that verify and report the same last hash hold the same records, unless they exhibit
      a collision of the digest or a preimage of the starting hash. */
  lemma ChainUniqueness<V(!new)>(c: Codec<V>, f: Bytes, g: Bytes)
    requires Lawful(c) && Passes(c, f) && Passes(c, g)
    requires ScanFile(c, f).previousHash == ScanFile(c, g).previousHash
    ensures var a, b := ScanFile(c, f).records, ScanFile(c, g).records; a == b || DigestBroken(c, a, b)
  {
    ScanIsLinked(c, f, 0, []);
    ScanIsLinked(c, g, 0, []);
    SameHashSameRecords(c, ScanFile(c, f).records, ScanFile(c, g).records);
  }

  // ---------------------------------------------------------------- what is written and what is kept, field by field

  /** The sequence number of record `k` of a fresh store: they count from one, and stay at the largest. */
  function Numbered(k: nat): U64 {
    if k < U64_MAX then k + 1 else U64_MAX
  }

  lemma {:induction false} AppendedLength<V>(c: Codec<V>, inputs: seq<Input<V>>)
    ensures |AppendAll(c, EMPTY_CHAIN, inputs).1| == |inputs|
    ensures inputs != [] ==> AppendAll(c, EMPTY_CHAIN, inputs).0.sequence == Numbered(|inputs| - 1)
    ensures inputs == [] ==> AppendAll(c, EMPTY_CHAIN, inputs).0.sequence == 0
    decreases |inputs|
  {
    if inputs != [] { AppendedLength(c, inputs[..|inputs| - 1]); }
  }

  /** Record by record: what was appended as number `k` carries the given version and payload, the number of its place,
      the hash of the record before it, or sixty-four zeros, and the hash of exactly these. */
  lemma {:induction false} AppendedExactly<V>(c: Codec<V>, inputs: seq<Input<V>>, k: nat)
    requires k < |inputs|
    ensures var records := AppendAll(c, EMPTY_CHAIN, inputs).1;
      |records| == |inputs| && InPlace(c, records, inputs, k)
    decreases |inputs|
  {
    hide InPlace, AppendAll;
    var n := |inputs| - 1;
    AppendedLength(c, inputs);
    LastAppended(c, inputs);
    if k < n {
      AppendedExactly(c, inputs[..n], k);
      StillInPlace(c, AppendAll(c, EMPTY_CHAIN, inputs).1, inputs, n, k);
    }
  }

  /** Record `k` is what was appended as number `k`. */
  ghost predicate InPlace<V>(c: Codec<V>, records: seq<ChainRecord<V>>, inputs: seq<Input<V>>, k: nat)
    requires k < |records| == |inputs|
  {
    var r := records[k];
    && r.schemaVersion == inputs[k].schemaVersion && r.payload == inputs[k].payload && r.sequence == Numbered(k)
    && r.previousHash == (if k == 0 then ZERO_HASH else records[k - 1].recordHash)
    && r.recordHash == CalculateHash(c, inputs[k].schemaVersion, Numbered(k), r.previousHash, inputs[k].payload)
  }

  lemma StillInPlace<V>(c: Codec<V>, records: seq<ChainRecord<V>>, inputs: seq<Input<V>>, n: nat, k: nat)
    requires k < n <= |records| == |inputs| && InPlace(c, records[..n], inputs[..n], k)
    ensures InPlace(c, records, inputs, k)
  {
    hide CalculateHash, Numbered;
    assert inputs[..n][k] == inputs[k];
  }

  /** The last record, and the ones before it. */
  lemma LastAppended<V>(c: Codec<V>, inputs: seq<Input<V>>)
    requires inputs != []
    ensures var n, records := |inputs| - 1, AppendAll(c, EMPTY_CHAIN, inputs).1;
      |records| == n + 1 && records[..n] == AppendAll(c, EMPTY_CHAIN, inputs[..n]).1 && InPlace(c, records, inputs, n)
  {
    hide CalculateHash, Line;
    var n := |inputs| - 1;
    AppendedLength(c, inputs[..n]);
    LastHashOfAll(c, inputs[..n]);
    assert AppendAll(c, EMPTY_CHAIN, inputs).1[..n] == AppendAll(c, EMPTY_CHAIN, inputs[..n]).1;
  }

  lemma LastHashOfAll<V>(c: Codec<V>, inputs: seq<Input<V>>)
    ensures var (chain, records) := AppendAll(c, EMPTY_CHAIN, inputs);
      chain.previousHash == if inputs == [] then ZERO_HASH else
        (AppendedLength(c, inputs); records[|inputs| - 1].recordHash)
  {
    AppendedLength(c, inputs);
  }

  /** A file of records is the printed records, each with one line feed behind it and none inside. */
  lemma {:induction false} ImageLines<V(!new)>(c: Codec<V>, records: seq<ChainRecord<V>>)
    requires Lawful(c)
    ensures records == [] ==> Image(c, records) == []
    ensures records != [] ==>
      var n, r := |records| - 1, records[|records| - 1];
      Image(c, records) == Image(c, records[..n]) + c.printRecord(r) + [10] && 10 !in c.printRecord(r)
  {
    if records != [] {
      var n := |records| - 1;
      ImageSnoc(c, records[..n], records[n]);
      assert records == records[..n] + [records[n]];
      LineIsOneLine(c, records[n]);
      hide Lawful, Image;
      var before, text := Image(c, records[..n]), c.printRecord(records[n]);
      assert before + (text + [NEWLINE]) == before + text + [NEWLINE];
    }
  }

  /** Recovery loses nothing: whenever it succeeds, the kept file and the quarantined bytes together are the bytes that
      were found; something is quarantined exactly when something is left over, and that is one line at most; the store
      goes on with the number behind the last record. */
  lemma RecoverConserves<V(!new)>(c: Codec<V>, bytes: Bytes)
    requires Recover(c, bytes).Ok?
    ensures var r := Recover(c, bytes).value; var rest := bytes[|r.chain.file|..];
      && r.chain.file <= bytes
      && r.quarantined == (if rest == [] then None else Some(rest))
      && (forall i :: 0 <= i < |rest| - 1 ==> rest[i] != NEWLINE)
      && r.chain.sequence == LastSequence(r.records) && r.chain.previousHash == LastHash(r.records)
      && r.nextSequence == (if r.chain.sequence < U64_MAX then r.chain.sequence + 1 else U64_MAX)
  {
    ScanIsLinked(c, bytes, 0, []);
    var scan := ScanFile(c, bytes);
    RestIsOneLine(c, bytes, 0, 0, ZERO_HASH, []);
    var rest := bytes[scan.validLen..];
    forall i | 0 <= i < |rest| - 1 ensures rest[i] != NEWLINE { assert rest[i] == bytes[scan.validLen + i]; }
    hide ScanFile;
  }

  /** Behind the valid part the next newline is that of the bad line, or there is none. */
  lemma {:induction false} RestIsOneLine<V>(c: Codec<V>, bytes: Bytes, start: nat, sequence: U64, previousHash: Bytes,
                                            records: seq<ChainRecord<V>>)
    requires start <= |bytes|
    ensures var scan := ScanFrom(c, bytes, start, sequence, previousHash, records);
      forall i :: scan.validLen <= i < (if scan.bad.Some? then scan.bad.value.end else |bytes|) ==> bytes[i] != NEWLINE
    decreases |bytes| - start
  {
    hide ValidateLine;
    var end := NextNewline(bytes, start);
    if end < |bytes| {
      var v := ValidateLine(c, bytes[start..end], NextSequence(sequence), previousHash);
      if v.Ok? {
        RestIsOneLine(c, bytes, end + 1, v.value.sequence, v.value.recordHash, records + [v.value]);
      }
    }
  }

  /** A rejection names the line: the number it should have had, and what was wrong with it. */
  lemma {:induction false} RejectionNamesLine<V>(c: Codec<V>, bytes: Bytes, start: nat, records: seq<ChainRecord<V>>)
    requires start <= |bytes|
    requires ScanFrom(c, bytes, start, LastSequence(records), LastHash(records), records).bad.Some?
    ensures var scan := ScanFrom(c, bytes, start, LastSequence(records), LastHash(records), records);
      var bad := scan.bad.value;
      && bad.sequence == NextSequence(LastSequence(scan.records)) && bytes[bad.end] == NEWLINE
      && ValidateLine(c, bytes[scan.validLen..bad.end], bad.sequence, LastHash(scan.records)) == Err(bad.detail)
    decreases |bytes| - start
  {
    hide ValidateLine, NextSequence, ScanFrom;
    var end := NextNewline(bytes, start);
    if end == |bytes| { ScanStops(c, bytes, start, LastSequence(records), LastHash(records), records); }
    var v := ValidateLine(c, bytes[start..end], NextSequence(LastSequence(records)), LastHash(records));
    if v.Ok? {
      ScanGoesOn(c, bytes, start, LastSequence(records), LastHash(records), records, end, v.value);
      RejectionNamesLine(c, bytes, end + 1, records + [v.value]);
    } else {
      ScanMeetsBad(c, bytes, start, LastSequence(records), LastHash(records), records);
    }
  }

  /** Recovery rejects a file with the number and the fault of its first bad line. */
  lemma RecoverRejects<V>(c: Codec<V>, bytes: Bytes)
    requires Recover(c, bytes).Err?
    ensures var scan := ScanFile(c, bytes);
      scan.bad.Some? && Recover(c, bytes).error == Integrity(scan.bad.value.sequence, scan.bad.value.detail)
      && scan.bad.value.sequence == NextSequence(LastSequence(scan.records))
      && ValidateLine(c, bytes[scan.validLen..scan.bad.value.end], scan.bad.value.sequence, LastHash(scan.records))
         == Err(scan.bad.value.detail)
  {
    RejectionNamesLine(c, bytes, 0, []);
    hide ValidateLine, NextSequence;
  }
}
