/** What is assumed of the JSON codec and the digest is no contradiction: here is a codec that has it. */
module HashChainCodec {
  import opened Common
  import opened HashChain

  const COMMA: Byte := 44

  predicate Plain(text: Bytes) {
    NEWLINE !in text && COMMA !in text
  }

  lemma HexIsPlain(bytes: Bytes)
    ensures Plain(Hex(bytes))
  {
    var text := Hex(bytes);
    forall i | 0 <= i < |text| ensures text[i] != NEWLINE && text[i] != COMMA {
      var k := i / 2;
      assert text[2 * k] == HexDigit(bytes[k] / 16) && text[2 * k + 1] == HexDigit(bytes[k] % 16);
      assert i == 2 * k || i == 2 * k + 1;
    }
  }

  /** Four fields in hexadecimal, separated by commas. */
  function PrintRecord(r: ChainRecord<Bytes>): Bytes {
    Hex(BigEndian(r.schemaVersion, 4) + BigEndian(r.sequence, 8))
    + ([COMMA] + (Hex(r.previousHash) + ([COMMA] + (Hex(r.recordHash) + ([COMMA] + Hex(r.payload))))))
  }

  ghost function ParseRecord(bytes: Bytes): Option<ChainRecord<Bytes>> {
    if exists r :: PrintRecord(r) == bytes then
      var r :| PrintRecord(r) == bytes;
      Some(r)
    else None
  }

  lemma FieldNotLonger(a: Bytes, x: Bytes, b: Bytes, y: Bytes)
    requires Plain(a) && a + ([COMMA] + x) == b + ([COMMA] + y)
    ensures |a| <= |b|
  {
    var s, t := a + ([COMMA] + x), b + ([COMMA] + y);
    forall i | 0 <= i < |a| ensures s[i] != COMMA { assert s[i] == a[i] && a[i] in a; }
    assert t[|b|] == COMMA;
  }

  lemma FirstField(a: Bytes, x: Bytes, b: Bytes, y: Bytes)
    requires Plain(a) && Plain(b) && a + ([COMMA] + x) == b + ([COMMA] + y)
    ensures a == b && x == y
  {
    FieldNotLonger(a, x, b, y);
    FieldNotLonger(b, y, a, x);
    var s, t := a + ([COMMA] + x), b + ([COMMA] + y);
    assert s[..|a|] == a && t[..|b|] == b;
    assert s[|a| + 1..] == x && t[|b| + 1..] == y;
  }

  lemma HeaderInjective(v1: U32, s1: U64, v2: U32, s2: U64)
    requires BigEndian(v1, 4) + BigEndian(s1, 8) == BigEndian(v2, 4) + BigEndian(s2, 8)
    ensures v1 == v2 && s1 == s2
  {
    var none: Bytes := [];
    assert forall s: Bytes :: s + none + none == s;
    FramedInjective(v1, s1, none, none, v2, s2, none, none);
  }

  lemma PrintInjective(r: ChainRecord<Bytes>, s: ChainRecord<Bytes>)
    requires PrintRecord(r) == PrintRecord(s)
    ensures r == s
  {
    hide Hex, BigEndian, Plain;
    var h1 := BigEndian(r.schemaVersion, 4) + BigEndian(r.sequence, 8);
    var h2 := BigEndian(s.schemaVersion, 4) + BigEndian(s.sequence, 8);
    HexIsPlain(h1);
    HexIsPlain(h2);
    HexIsPlain(r.previousHash);
    HexIsPlain(s.previousHash);
    HexIsPlain(r.recordHash);
    HexIsPlain(s.recordHash);
    var c1, c2 := Hex(r.recordHash) + ([COMMA] + Hex(r.payload)), Hex(s.recordHash) + ([COMMA] + Hex(s.payload));
    var b1, b2 := Hex(r.previousHash) + ([COMMA] + c1), Hex(s.previousHash) + ([COMMA] + c2);
    FirstField(Hex(h1), b1, Hex(h2), b2);
    FirstField(Hex(r.previousHash), c1, Hex(s.previousHash), c2);
    FirstField(Hex(r.recordHash), Hex(r.payload), Hex(s.recordHash), Hex(s.payload));
    HexInjective(h1, h2);
    HexInjective(r.previousHash, s.previousHash);
    HexInjective(r.recordHash, s.recordHash);
    HexInjective(r.payload, s.payload);
    HeaderInjective(r.schemaVersion, r.sequence, s.schemaVersion, s.sequence);
  }

  lemma PrintIsOneLine(r: ChainRecord<Bytes>)
    ensures NEWLINE !in PrintRecord(r)
  {
    HexIsPlain(BigEndian(r.schemaVersion, 4) + BigEndian(r.sequence, 8));
    HexIsPlain(r.previousHash);
    HexIsPlain(r.recordHash);
    HexIsPlain(r.payload);
    hide Hex, BigEndian;
  }

  /** For byte payloads. */
  lemma LawfulCodecExists() returns (c: Codec<Bytes>)
    ensures Lawful(c)
  {
    c := Codec(PrintRecord, ParseRecord, (v: Bytes) => v, (b: Bytes) => Some(b), (m: Bytes) => Repeat(0, 32));
    forall r ensures c.parseRecord(c.printRecord(r)) == Some(r) {
      assert PrintRecord(r) == PrintRecord(r);
      PrintInjective(ParseRecord(PrintRecord(r)).value, r);
    }
    forall r ensures NEWLINE !in c.printRecord(r) { PrintIsOneLine(r); }
    hide PrintRecord, ParseRecord;
  }
}
