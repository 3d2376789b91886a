/** The hash-chain store of crates/apolysis-store/src/hash_chain.rs: record framing, line validation, the scan shared by
    read-only verification and recovery, appending, and recovery with quarantine, over raw bytes.

    JSON and SHA-256 are parameters: `Codec` carries a printer and a parser for records and for payload values and a
    digest, and `Lawful` states all that is assumed of them. Nothing is assumed about collisions. */
module HashChain {
  import opened Common

  type U32 = n: nat | n <= 0xFFFF_FFFF

  /** Sixty-four ASCII zeros. */
  const ZERO_HASH: Bytes := Repeat(48, 64)

  function Repeat(b: Byte, n: nat): (r: Bytes)
    ensures |r| == n
  {
    if n == 0 then [] else Repeat(b, n - 1) + [b]
  }

  datatype ChainRecord<V> = ChainRecord(
    schemaVersion: U32,
    sequence: U64,
    previousHash: Bytes,
    recordHash: Bytes,
    payload: V)

  datatype Codec<!V> = Codec(
    printRecord: ChainRecord<V> -> Bytes,
    parseRecord: Bytes -> Option<ChainRecord<V>>,
    printValue: V -> Bytes,
    parseValue: Bytes -> Option<V>,
    digest: Bytes -> Bytes)

  ghost predicate Lawful<V(!new)>(c: Codec<V>) {
    && (forall r :: c.parseRecord(c.printRecord(r)) == Some(r))
    && (forall r :: NEWLINE !in c.printRecord(r))
    && (forall v :: c.parseValue(c.printValue(v)) == Some(v))
    && (forall m :: |c.digest(m)| == 32)
  }

  // ---------------------------------------------------------------- framing

  /** `to_be_bytes`. */
  function BigEndian(n: nat, width: nat): (r: Bytes)
    ensures |r| == width
  {
    if width == 0 then [] else BigEndian(n / 256, width - 1) + [n % 256]
  }

  function Pow256(width: nat): (p: nat)
    ensures p > 0
  {
    if width == 0 then 1 else 256 * Pow256(width - 1)
  }

  lemma {:induction false} BigEndianInjective(m: nat, n: nat, width: nat)
    requires m < Pow256(width) && n < Pow256(width)
    requires BigEndian(m, width) == BigEndian(n, width)
    ensures m == n
    decreases width
  {
    if width > 0 {
      var a, b := BigEndian(m, width), BigEndian(n, width);
      assert a[..width - 1] == BigEndian(m / 256, width - 1) && a[width - 1] == m % 256;
      assert b[..width - 1] == BigEndian(n / 256, width - 1) && b[width - 1] == n % 256;
      BigEndianInjective(m / 256, n / 256, width - 1);
    }
  }

  /** Most significant byte first: byte `i` is the digit of `n` to the base 256 that has `width - 1 - i` digits behind
      it. */
  lemma {:induction false} BigEndianBytes(n: nat, width: nat, i: nat)
    requires i < width
    ensures BigEndian(n, width)[i] == n / Pow256(width - 1 - i) % 256
    decreases width
  {
    if i < width - 1 {
      BigEndianBytes(n / 256, width - 1, i);
      DivideTwice(n, Pow256(width - 2 - i));
    }
  }

  lemma DivideTwice(n: nat, p: nat)
    requires p > 0
    ensures n / 256 / p == n / (256 * p)
  {
    var m, t := n / 256, n % 256;
    DivMod(m, p);
    var q, s := m / p, m % p;
    Grouped(256, p, q);
    assert n == 256 * p * q + (256 * s + t) && 256 * s + t < 256 * p;
    Quotient(256 * p, q, 256 * s + t);
  }

  lemma DivMod(m: nat, p: nat)
    requires p > 0
    ensures m == p * (m / p) + m % p && m % p < p
  {
  }

  lemma Grouped(a: nat, b: nat, c: nat)
    ensures a * b * c == a * (b * c)
  {
  }

  lemma Quotient(p: nat, q: nat, r: nat)
    requires r < p
    ensures (p * q + r) / p == q
  {
    DivMod(p * q + r, p);
    var d := (p * q + r) / p;
    FactorLess(p, q, d + 1);
    FactorLess(p, d, q + 1);
  }

  lemma FactorLess(p: nat, a: nat, b: nat)
    ensures p * a < p * b ==> a < b
  {
    if a >= b { assert p * a == p * b + p * (a - b); }
  }

  /** The number some bytes spell, read with the most significant one first. */
  function Spelled(bytes: Bytes): nat {
    if bytes == [] then 0 else 256 * Spelled(bytes[..|bytes| - 1]) + bytes[|bytes| - 1]
  }

  lemma {:induction false} BigEndianSpells(n: nat, width: nat)
    requires n < Pow256(width)
    ensures Spelled(BigEndian(n, width)) == n
    decreases width
  {
    if width > 0 {
      var b := BigEndian(n, width);
      assert b[..width - 1] == BigEndian(n / 256, width - 1);
      BigEndianSpells(n / 256, width - 1);
    }
  }

  /** A hexadecimal digit as the byte that is written. */
  function HexDigit(n: nat): (d: Byte)
    requires n < 16
  {
    LowerHexDigit(n) as int
  }

  function Hex(bytes: Bytes): (r: Bytes)
    ensures |r| == 2 * |bytes|
    ensures forall i :: 0 <= i < |bytes| ==>
        r[2 * i] == HexDigit(bytes[i] / 16) && r[2 * i + 1] == HexDigit(bytes[i] % 16)
  {
    if bytes == [] then []
    else
      var rest := Hex(bytes[..|bytes| - 1]);
      var b := bytes[|bytes| - 1];
      rest + [HexDigit(b / 16), HexDigit(b % 16)]
  }

  /** `encode_hex`. */
  method EncodeHex(bytes: Bytes) returns (output: Bytes)
    ensures output == Hex(bytes)
  {
    output := [];
    for k := 0 to |bytes|
      invariant output == Hex(bytes[..k])
    {
      assert bytes[..k + 1][..k] == bytes[..k];
      output := output + [HexDigit(bytes[k] / 16)];
      output := output + [HexDigit(bytes[k] % 16)];
    }
    assert bytes[..|bytes|] == bytes;
  }

  lemma HexInjective(a: Bytes, b: Bytes)
    requires Hex(a) == Hex(b)
    ensures a == b
  {
    var ha, hb := Hex(a), Hex(b);
    assert |a| == |b|;
    forall i | 0 <= i < |a| ensures a[i] == b[i] {
      assert ha[2 * i] == hb[2 * i] && ha[2 * i + 1] == hb[2 * i + 1];
      assert a[i] / 16 == b[i] / 16 && a[i] % 16 == b[i] % 16;
    }
  }

  function Framed(schemaVersion: U32, sequence: U64, previousHash: Bytes, payload: Bytes): Bytes {
    BigEndian(schemaVersion, 4) + BigEndian(sequence, 8) + previousHash + payload
  }

  function CalculateHash<V>(c: Codec<V>, schemaVersion: U32, sequence: U64, previousHash: Bytes, payload: V): Bytes {
    Hex(c.digest(Framed(schemaVersion, sequence, previousHash, c.printValue(payload))))
  }

  /** The bytes that are hashed: four spell the schema version and eight the sequence, most significant first, then
      comes the previous hash and then the payload. */
  lemma FramedLayout(schemaVersion: U32, sequence: U64, previousHash: Bytes, payload: Bytes)
    ensures var f, n := Framed(schemaVersion, sequence, previousHash, payload), |previousHash|;
      && |f| == 12 + n + |payload|
      && Spelled(f[..4]) == schemaVersion && Spelled(f[4..12]) == sequence
      && (forall i :: 0 <= i < 4 ==> f[i] == schemaVersion / Pow256(3 - i) % 256)
      && (forall i :: 4 <= i < 12 ==> f[i] == sequence / Pow256(11 - i) % 256)
      && f[12..12 + n] == previousHash && f[12 + n..] == payload
  {
    var f := Framed(schemaVersion, sequence, previousHash, payload);
    assert f[..4] == BigEndian(schemaVersion, 4) && f[4..12] == BigEndian(sequence, 8);
    WordPowers();
    BigEndianSpells(schemaVersion, 4);
    BigEndianSpells(sequence, 8);
    forall i | 0 <= i < 4 ensures f[i] == schemaVersion / Pow256(3 - i) % 256 {
      BigEndianBytes(schemaVersion, 4, i);
      assert f[i] == f[..4][i];
    }
    forall i | 4 <= i < 12 ensures f[i] == sequence / Pow256(11 - i) % 256 {
      BigEndianBytes(sequence, 8, i - 4);
      assert f[i] == f[4..12][i - 4];
    }
  }

  lemma WordPowers()
    ensures Pow256(4) == 0x1_0000_0000 && Pow256(8) == 0x1_0000_0000_0000_0000
  {
    assert Pow256(2) == 0x1_0000 && Pow256(4) == 0x1_0000 * Pow256(2) && Pow256(6) == 0x1_0000 * Pow256(4)
        && Pow256(8) == 0x1_0000 * Pow256(6);
  }

  const HEX_DIGITS: Bytes := [48, 49, 50, 51, 52, 53, 54, 55, 56, 57, 97, 98, 99, 100, 101, 102]

  /** A record hash is written with two lower-case digits per byte of the digest, the high one first; and the chain
      starts from sixty-four zeros. */
  lemma HashText<V>(c: Codec<V>, schemaVersion: U32, sequence: U64, previousHash: Bytes, payload: V, i: nat)
    requires var digest := c.digest(Framed(schemaVersion, sequence, previousHash, c.printValue(payload)));
      i < |digest|
    ensures var digest := c.digest(Framed(schemaVersion, sequence, previousHash, c.printValue(payload)));
      var text := CalculateHash(c, schemaVersion, sequence, previousHash, payload);
      && |text| == 2 * |digest|
      && text[2 * i] == HEX_DIGITS[digest[i] / 16] && text[2 * i + 1] == HEX_DIGITS[digest[i] % 16]
    ensures |ZERO_HASH| == 64 && forall k :: 0 <= k < 64 ==> ZERO_HASH[k] == HEX_DIGITS[0]
  {
    hide Framed;
    forall d | 0 <= d < 16 ensures HexDigit(d) == HEX_DIGITS[d] {}
    RepeatIs(48, 64);
  }

  lemma {:induction false} RepeatIs(b: Byte, n: nat)
    ensures forall k :: 0 <= k < n ==> Repeat(b, n)[k] == b
    decreases n
  {
    if n > 0 { RepeatIs(b, n - 1); }
  }

  /** With hashes of one width the framing is unambiguous. */
  lemma FramedInjective(v1: U32, s1: U64, h1: Bytes, p1: Bytes, v2: U32, s2: U64, h2: Bytes, p2: Bytes)
    requires |h1| == |h2|
    requires Framed(v1, s1, h1, p1) == Framed(v2, s2, h2, p2)
    ensures v1 == v2 && s1 == s2 && h1 == h2 && p1 == p2
  {
    var f, g := Framed(v1, s1, h1, p1), Framed(v2, s2, h2, p2);
    assert f[..4] == BigEndian(v1, 4) && g[..4] == BigEndian(v2, 4);
    assert f[4..12] == BigEndian(s1, 8) && g[4..12] == BigEndian(s2, 8);
    assert f[12..12 + |h1|] == h1 && g[12..12 + |h2|] == h2;
    assert f[12 + |h1|..] == p1 && g[12 + |h2|..] == p2;
    WordPowers();
    BigEndianInjective(v1, v2, 4);
    BigEndianInjective(s1, s2, 8);
  }

  // ---------------------------------------------------------------- one line

  datatype LineError = InvalidJson | WrongSequence | PreviousHashMismatch | RecordHashMismatch

  /** `saturating_add(1)`. */
  function NextSequence(sequence: U64): U64 {
    SaturatingAdd(sequence, 1)
  }

  function ValidateLine<V>(c: Codec<V>, line: Bytes, sequence: U64, previousHash: Bytes)
    : Result<ChainRecord<V>, LineError>
  {
    var parsed := c.parseRecord(line);
    if parsed.None? then Err(InvalidJson)
    else
      var r := parsed.value;
      if r.sequence != sequence then Err(WrongSequence)
      else if r.previousHash != previousHash then Err(PreviousHashMismatch)
      else if r.recordHash != CalculateHash(c, r.schemaVersion, r.sequence, r.previousHash, r.payload) then
        Err(RecordHashMismatch)
      else Ok(r)
  }

  /** What a line is rejected for, exactly: the first of no record, another sequence than expected, another previous
      hash, and a hash that is not that of the record's own contents. */
  lemma ValidateLineExactly<V>(c: Codec<V>, line: Bytes, sequence: U64, previousHash: Bytes)
    ensures var v, r := ValidateLine(c, line, sequence, previousHash), c.parseRecord(line);
      && (v == Err(InvalidJson) <==> r.None?)
      && (v == Err(WrongSequence) <==> r.Some? && r.value.sequence != sequence)
      && (v == Err(PreviousHashMismatch) <==>
            r.Some? && r.value.sequence == sequence && r.value.previousHash != previousHash)
      && (v == Err(RecordHashMismatch) <==>
            && r.Some? && r.value.sequence == sequence && r.value.previousHash == previousHash
            && r.value.recordHash != CalculateHash(c, r.value.schemaVersion, sequence, previousHash, r.value.payload))
      && (v.Ok? <==>
            && r.Some? && r.value.sequence == sequence && r.value.previousHash == previousHash
            && r.value.recordHash == CalculateHash(c, r.value.schemaVersion, sequence, previousHash, r.value.payload))
      && (v.Ok? ==> v.value == r.value)
  {
    hide CalculateHash;
  }

  // ---------------------------------------------------------------- the scan

  datatype BadLine = BadLine(end: nat, sequence: U64, detail: LineError)

  /** What both validations find: the state after the longest valid run of complete lines, where it ends, its records,
      and the first complete line that is bad, if any. */
  datatype Scan<V> = Scan(
    sequence: U64,
    previousHash: Bytes,
    validLen: nat,
    records: seq<ChainRecord<V>>,
    bad: Option<BadLine>)

  function NextNewline(bytes: Bytes, start: nat): (i: nat)
    requires start <= |bytes|
    ensures start <= i <= |bytes|
    ensures forall j :: start <= j < i ==> bytes[j] != NEWLINE
    ensures i < |bytes| ==> bytes[i] == NEWLINE
    decreases |bytes| - start
  {
    if start == |bytes| || bytes[start] == NEWLINE then start else NextNewline(bytes, start + 1)
  }

  function ScanFrom<V>(c: Codec<V>, bytes: Bytes, start: nat, sequence: U64, previousHash: Bytes,
                       records: seq<ChainRecord<V>>): (scan: Scan<V>)
    requires start <= |bytes|
    ensures start <= scan.validLen <= |bytes|
    ensures scan.bad.Some? ==> scan.validLen <= scan.bad.value.end < |bytes|
    decreases |bytes| - start
  {
    var end := NextNewline(bytes, start);
    if end == |bytes| then Scan(sequence, previousHash, start, records, None)
    else
      match ValidateLine(c, bytes[start..end], NextSequence(sequence), previousHash)
      case Ok(r) => ScanFrom(c, bytes, end + 1, r.sequence, r.recordHash, records + [r])
      case Err(detail) =>
        Scan(sequence, previousHash, start, records, Some(BadLine(end, NextSequence(sequence), detail)))
  }

  lemma ScanStops<V>(c: Codec<V>, bytes: Bytes, start: nat, sequence: U64, previousHash: Bytes,
                     records: seq<ChainRecord<V>>)
    requires start <= |bytes| && NextNewline(bytes, start) == |bytes|
    ensures ScanFrom(c, bytes, start, sequence, previousHash, records)
         == Scan(sequence, previousHash, start, records, None)
  {
  }

  lemma ScanGoesOn<V>(c: Codec<V>, bytes: Bytes, start: nat, sequence: U64, previousHash: Bytes,
                      records: seq<ChainRecord<V>>, end: nat, r: ChainRecord<V>)
    requires start <= end < |bytes| && NextNewline(bytes, start) == end
    requires ValidateLine(c, bytes[start..end], NextSequence(sequence), previousHash) == Ok(r)
    ensures ScanFrom(c, bytes, start, sequence, previousHash, records)
         == ScanFrom(c, bytes, end + 1, r.sequence, r.recordHash, records + [r])
  {
    hide ValidateLine;
  }

  lemma ScanMeetsBad<V>(c: Codec<V>, bytes: Bytes, start: nat, sequence: U64, previousHash: Bytes,
                        records: seq<ChainRecord<V>>)
    requires start <= |bytes| && NextNewline(bytes, start) < |bytes|
    requires ValidateLine(c, bytes[start..NextNewline(bytes, start)], NextSequence(sequence), previousHash).Err?
    ensures var scan := ScanFrom(c, bytes, start, sequence, previousHash, records);
      && scan == Scan(sequence, previousHash, start, records, scan.bad) && scan.bad.Some?
      && scan.bad.value.end == NextNewline(bytes, start) && scan.bad.value.sequence == NextSequence(sequence)
      && Err(scan.bad.value.detail)
         == ValidateLine(c, bytes[start..NextNewline(bytes, start)], NextSequence(sequence), previousHash)
  {
    hide ValidateLine;
  }

  function ScanFile<V>(c: Codec<V>, bytes: Bytes): (scan: Scan<V>)
    ensures scan.validLen <= |bytes|
    ensures scan.bad.Some? ==> scan.validLen <= scan.bad.value.end < |bytes|
  {
    ScanFrom(c, bytes, 0, 0, ZERO_HASH, [])
  }

  /** `HashChainStore::verify`: passed exactly when nothing is bad and nothing is left over. */
  predicate Passes<V>(c: Codec<V>, bytes: Bytes) {
    var scan := ScanFile(c, bytes);
    scan.bad.None? && scan.validLen == |bytes|
  }

  ghost predicate IsNewlineList(bytes: Bytes, ps: seq<nat>) {
    && (forall i, j :: 0 <= i < j < |ps| ==> ps[i] < ps[j])
    && (forall k :: 0 <= k < |ps| ==> ps[k] < |bytes| && bytes[ps[k]] == NEWLINE)
    && (forall i :: 0 <= i < |bytes| && bytes[i] == NEWLINE ==> i in ps)
  }

  method NewlinePositions(bytes: Bytes) returns (ps: seq<nat>)
    ensures IsNewlineList(bytes, ps)
  {
    ps := [];
    for i := 0 to |bytes|
      invariant forall a, b :: 0 <= a < b < |ps| ==> ps[a] < ps[b]
      invariant forall k :: 0 <= k < |ps| ==> ps[k] < i && bytes[ps[k]] == NEWLINE
      invariant forall j :: 0 <= j < i && bytes[j] == NEWLINE ==> j in ps
    {
      if bytes[i] == NEWLINE {
        ps := ps + [i];
      }
    }
  }

  /** The next newline after the ones already handled is the next position in the list. */
  lemma NextInList(bytes: Bytes, ps: seq<nat>, k: nat, start: nat)
    requires IsNewlineList(bytes, ps) && k <= |ps|
    requires start == if k == 0 then 0 else ps[k - 1] + 1
    ensures start <= |bytes| && (k < |ps| ==> ps[k] < |bytes|)
    ensures NextNewline(bytes, start) == if k < |ps| then ps[k] else |bytes|
  {
    var i := NextNewline(bytes, start);
    if i < |bytes| {
      var m :| 0 <= m < |ps| && ps[m] == i;
      assert m >= k;
    }
  }

  /** Whether bytes follow the last newline. */
  predicate TrailingBytes(bytes: Bytes, positions: seq<nat>) {
    if positions == [] then bytes != [] else positions[|positions| - 1] + 1 < |bytes|
  }

  /** That is: there are bytes, and the last is no newline. */
  lemma TrailingExactly(bytes: Bytes, ps: seq<nat>)
    requires IsNewlineList(bytes, ps)
    ensures TrailingBytes(bytes, ps) <==> bytes != [] && bytes[|bytes| - 1] != NEWLINE
  {
    assert forall k :: 0 <= k < |ps| - 1 ==> ps[k] < ps[|ps| - 1];
  }

  /** Something follows a complete line exactly when a later complete line does, or bytes follow the last newline. */
  lemma SomethingFollows(bytes: Bytes, ps: seq<nat>, k: nat)
    requires IsNewlineList(bytes, ps) && k < |ps|
    ensures (k + 1 < |ps| || TrailingBytes(bytes, ps)) <==> ps[k] + 1 < |bytes|
  {
    if k + 1 < |ps| { assert ps[k] < ps[k + 1]; }
  }

  /** The loop that `verify_existing` and `validate_existing` have in common: line after line until one is bad. The
      number of records is then the index of the bad line. */
  method ScanLines<V(==)>(c: Codec<V>, bytes: Bytes, positions: seq<nat>) returns (scan: Scan<V>)
    requires IsNewlineList(bytes, positions)
    ensures scan == ScanFile(c, bytes)
    ensures scan.bad.Some? ==> |scan.records| < |positions| && scan.bad.value.end == positions[|scan.records|]
  {
    hide ValidateLine, IsNewlineList, NextNewline, ScanFrom;
    var sequence: U64, previousHash, validLen: nat, records: seq<ChainRecord<V>> := 0, ZERO_HASH, 0, [];
    var start: nat := 0;
    ghost var goal := ScanFile(c, bytes);
    for k := 0 to |positions|
      invariant |records| == k
      invariant start == validLen == (if k == 0 then 0 else positions[k - 1] + 1) <= |bytes|
      invariant goal == ScanFrom(c, bytes, start, sequence, previousHash, records)
    {
      NextInList(bytes, positions, k, start);
      var newline := positions[k];
      match ValidateLine(c, bytes[start..newline], NextSequence(sequence), previousHash)
      case Ok(record) =>
        ScanGoesOn(c, bytes, start, sequence, previousHash, records, newline, record);
        sequence := record.sequence;
        previousHash := record.recordHash;
        records := records + [record];
        validLen := newline + 1;
        start := newline + 1;
      case Err(detail) =>
        ScanMeetsBad(c, bytes, start, sequence, previousHash, records);
        return Scan(sequence, previousHash, validLen, records, Some(BadLine(newline, NextSequence(sequence), detail)));
    }
    NextInList(bytes, positions, |positions|, start);
    ScanStops(c, bytes, start, sequence, previousHash, records);
    return Scan(sequence, previousHash, validLen, records, None);
  }

  /** `verify_existing`. */
  method VerifyExisting<V(==)>(c: Codec<V>, bytes: Bytes) returns (scan: Scan<V>)
    ensures scan == ScanFile(c, bytes)
  {
    var positions := NewlinePositions(bytes);
    scan := ScanLines(c, bytes, positions);
  }

  datatype StoreError = InvalidPayload | Integrity(sequence: U64, detail: LineError)

  /** `validate_existing`, which recovery uses: the same scan, but a bad line is tolerated only as the very end. */
  function ValidateSpec<V>(c: Codec<V>, bytes: Bytes): Result<Scan<V>, StoreError> {
    var scan := ScanFile(c, bytes);
    if scan.bad.Some? && scan.bad.value.end + 1 < |bytes| then
      Err(Integrity(scan.bad.value.sequence, scan.bad.value.detail))
    else Ok(scan)
  }

  method ValidateExisting<V(==)>(c: Codec<V>, bytes: Bytes) returns (r: Result<Scan<V>, StoreError>)
    ensures r == ValidateSpec(c, bytes)
  {
    var positions := NewlinePositions(bytes);
    var trailingBytes := TrailingBytes(bytes, positions);
    var scan := ScanLines(c, bytes, positions);
    if scan.bad.Some? {
      var lineIndex := |scan.records|;
      var hasLaterCompleteLine := lineIndex + 1 < |positions|;
      SomethingFollows(bytes, positions, lineIndex);
      if hasLaterCompleteLine || trailingBytes {
        return Err(Integrity(scan.bad.value.sequence, scan.bad.value.detail));
      }
    }
    return Ok(scan);
  }
}
