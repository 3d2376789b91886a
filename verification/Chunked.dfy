/** The chunked-body decoder of crates/apolysis-daemon/src/adapter.rs, against the chunked transfer coding of section
    7.1 of RFC 9112. UTF-8 decoding is a parameter. */
module Chunked {
  import opened Common

  type Utf8 = Bytes -> Option<string>

  const CR: Byte := 13
  const LF: Byte := 10
  const CRLF: Bytes := [CR, LF]

  datatype DecodeError =
    | MissingSizeTerminator
    | SizeNotUtf8
    | InvalidSize
    | SizeOverflow
    | EndedInsideChunk
    | MissingTrailingCrlf

  /** `Panicked` is the unchecked addition of two behind the checked one: when it leaves the machine word the program
      stops there, or at the slice that follows. */
  datatype Outcome = Decoded(data: Bytes) | Failed(error: DecodeError) | Panicked

  // ---------------------------------------------------------------- size lines

  function HexValue(c: char): Option<nat> {
    if '0' <= c <= '9' then Some(c as int - '0' as int)
    else if 'a' <= c <= 'f' then Some(c as int - 'a' as int + 10)
    else if 'A' <= c <= 'F' then Some(c as int - 'A' as int + 10)
    else None
  }

  function HexNumber(digits: string): Option<nat> {
    if digits == "" then Some(0)
    else
      match (HexNumber(digits[..|digits| - 1]), HexValue(digits[|digits| - 1]))
      case (Some(high), Some(low)) => Some(high * 16 + low)
      case _ => None
  }

  /** `usize::from_str_radix(token, 16)`. */
  function ParseSize(token: string): Option<nat> {
    var digits := if |token| > 1 && token[0] == '+' then token[1..] else token;
    if digits == "" then None
    else
      var n := HexNumber(digits);
      if n.Some? && n.value <= U64_MAX then n else None
  }

  function UpToSemicolon(s: string): string {
    if s == "" || s[0] == ';' then "" else [s[0]] + UpToSemicolon(s[1..])
  }

  /** The size a line announces; chunk extensions behind a semicolon and outer white space do not matter. */
  function LineSize(line: Bytes, utf8: Utf8): Result<nat, DecodeError> {
    match utf8(line)
    case None => Err(SizeNotUtf8)
    case Some(text) =>
      match ParseSize(Trim(UpToSemicolon(text)))
      case None => Err(InvalidSize)
      case Some(n) => Ok(n)
  }

  // ---------------------------------------------------------------- decoding

  predicate CrlfAt(bytes: Bytes, i: nat) {
    i + 2 <= |bytes| && bytes[i] == CR && bytes[i + 1] == LF
  }

  /** `find_crlf`: the first line end at or behind `start`. */
  function FindCrlf(bytes: Bytes, start: nat): (r: Option<nat>)
    ensures r.Some? ==> start <= r.value && r.value + 2 <= |bytes| && CrlfAt(bytes, r.value)
    ensures forall k: nat :: start <= k && (r.Some? ==> k < r.value) ==> !CrlfAt(bytes, k)
    decreases |bytes| - start
  {
    if start + 2 > |bytes| then None
    else if CrlfAt(bytes, start) then Some(start)
    else FindCrlf(bytes, start + 1)
  }

  function Prepend(data: Bytes, outcome: Outcome): Outcome {
    if outcome.Decoded? then Decoded(data + outcome.data) else outcome
  }

  lemma PrependPrepend(a: Bytes, b: Bytes, outcome: Outcome)
    ensures Prepend(a, Prepend(b, outcome)) == Prepend(a + b, outcome) && Prepend([], outcome) == outcome
  {
    if outcome.Decoded? { assert a + (b + outcome.data) == a + b + outcome.data && [] + outcome.data == outcome.data; }
  }

  lemma PrependStops(a: Bytes, outcome: Outcome)
    ensures !outcome.Decoded? ==> Prepend(a, outcome) == outcome
    ensures outcome == Decoded([]) ==> Prepend(a, outcome) == Decoded(a)
  {
    assert a + [] == a;
  }

  /** What the bytes from `index` on decode to. */
  function DecodeFrom(body: Bytes, index: nat, utf8: Utf8): Outcome
    requires index <= |body|
    decreases |body| - index
  {
    match FindCrlf(body, index)
    case None => Failed(MissingSizeTerminator)
    case Some(sizeEnd) =>
      match LineSize(body[index..sizeEnd], utf8)
      case Err(e) => Failed(e)
      case Ok(size) => DecodeChunk(body, sizeEnd + 2, size, utf8)
  }

  function DecodeChunk(body: Bytes, at: nat, size: nat, utf8: Utf8): Outcome
    requires at <= |body|
    decreases |body| - at
  {
    var end := at + size;
    if size == 0 then Decoded([])
    else if end > U64_MAX then Failed(SizeOverflow)
    else if end + 2 > U64_MAX then Panicked
    else if |body| < end + 2 then Failed(EndedInsideChunk)
    else if !CrlfAt(body, end) then Failed(MissingTrailingCrlf)
    else Prepend(body[at..end], DecodeFrom(body, end + 2, utf8))
  }

  /** `decode_chunked_body`. The index only grows, so the loop ends on every input, and every slice is in bounds. */
  method DecodeChunkedBody(body: Bytes, utf8: Utf8) returns (outcome: Outcome)
    ensures outcome == DecodeFrom(body, 0, utf8)
  {
    hide FindCrlf, LineSize, CrlfAt, Prepend;
    var decoded: Bytes, index := [], 0;
    ghost var goal := DecodeFrom(body, 0, utf8);
    PrependPrepend([], [], goal);
    while true
      invariant index <= |body|
      invariant goal == Prepend(decoded, DecodeFrom(body, index, utf8))
      decreases |body| - index
    {
      ghost var whole := DecodeFrom(body, index, utf8);
      PrependStops(decoded, whole);
      var found := FindCrlf(body, index);
      if found.None? {
        return Failed(MissingSizeTerminator);
      }
      var sizeEnd := found.value;
      var size := LineSize(body[index..sizeEnd], utf8);
      if size.Err? {
        return Failed(size.error);
      }
      index := sizeEnd + 2;
      if size.value == 0 {
        return Decoded(decoded);
      }
      var chunkEnd := index + size.value;
      if chunkEnd > U64_MAX {
        return Failed(SizeOverflow);
      }
      if chunkEnd + 2 > U64_MAX {
        return Panicked;
      }
      if |body| < chunkEnd + 2 {
        return Failed(EndedInsideChunk);
      }
      if !CrlfAt(body, chunkEnd) {
        return Failed(MissingTrailingCrlf);
      }
      PrependPrepend(decoded, body[index..chunkEnd], DecodeFrom(body, chunkEnd + 2, utf8));
      decoded := decoded + body[index..chunkEnd];
      index := chunkEnd + 2;
    }
  }

  // ---------------------------------------------------------------- encoding

  /** A chunk as it is sent: its size line, whatever extensions that has, and its data. */
  datatype Chunk = Chunk(line: Bytes, data: Bytes)

  ghost predicate CrlfFree(line: Bytes) {
    forall i: nat :: !CrlfAt(line, i)
  }

  ghost predicate GoodLine(line: Bytes, size: nat, utf8: Utf8) {
    CrlfFree(line) && LineSize(line, utf8) == Ok(size)
  }

  ghost predicate GoodChunk(c: Chunk, utf8: Utf8) {
    c.data != [] && GoodLine(c.line, |c.data|, utf8)
  }

  ghost predicate GoodChunks(chunks: seq<Chunk>, utf8: Utf8) {
    forall i :: 0 <= i < |chunks| ==> GoodChunk(chunks[i], utf8)
  }

  function Encoded(chunks: seq<Chunk>): Bytes {
    if chunks == [] then [] else chunks[0].line + CRLF + chunks[0].data + CRLF + Encoded(chunks[1..])
  }

  function Data(chunks: seq<Chunk>): Bytes {
    if chunks == [] then [] else chunks[0].data + Data(chunks[1..])
  }

  /** The body is the chunks, then a size line that announces `size`, then anything. */
  ghost predicate ChunksThenLine(body: Bytes, chunks: seq<Chunk>, line: Bytes, size: nat, rest: Bytes, utf8: Utf8) {
    && GoodChunks(chunks, utf8) && GoodLine(line, size, utf8)
    && body == Encoded(chunks) + line + CRLF + rest
  }

  lemma LineFound(body: Bytes, index: nat, line: Bytes, rest: Bytes)
    requires index <= |body| && CrlfFree(line) && body[index..] == line + CRLF + rest
    ensures FindCrlf(body, index) == Some(index + |line|) && body[index..index + |line|] == line
    ensures index + |line| + 2 <= |body| && body[index + |line| + 2..] == rest
  {
    var tail, n := body[index..], |line|;
    forall j: nat | j < |tail| ensures body[index + j] == tail[j] {}
    assert tail[n] == CR && tail[n + 1] == LF;
    assert CrlfAt(body, index + n);
    forall k: nat | index <= k < index + n ensures !CrlfAt(body, k) {
      assert !CrlfAt(line, k - index);
      assert body[k] == line[k - index];
      if k + 1 < index + n { assert body[k + 1] == line[k + 1 - index]; }
    }
    assert tail[..n] == line && tail[n + 2..] == rest;
    assert body[index..index + n] == tail[..n] && body[index + n + 2..] == tail[n + 2..];
  }

  lemma FoundLine(body: Bytes, index: nat) returns (line: Bytes)
    requires index <= |body| && FindCrlf(body, index).Some?
    ensures var end := FindCrlf(body, index).value;
      && CrlfFree(line) && line == body[index..end] && body[index..] == line + CRLF + body[end + 2..]
  {
    var end := FindCrlf(body, index).value;
    line := body[index..end];
    forall i: nat | i + 2 <= |line| ensures line[i] != CR || line[i + 1] != LF {
      assert !CrlfAt(body, index + i);
      assert body[index + i] == line[i] && body[index + i + 1] == line[i + 1];
    }
    assert body[end..end + 2] == CRLF;
    assert body[index..] == body[index..end] + body[end..end + 2] + body[end + 2..];
  }

  lemma DecodeLine(body: Bytes, index: nat, sizeEnd: nat, size: nat, utf8: Utf8)
    requires index <= |body| && FindCrlf(body, index) == Some(sizeEnd)
    requires LineSize(body[index..sizeEnd], utf8) == Ok(size)
    ensures sizeEnd + 2 <= |body| && DecodeFrom(body, index, utf8) == DecodeChunk(body, sizeEnd + 2, size, utf8)
  {
    hide FindCrlf, LineSize, DecodeChunk, CrlfAt;
  }

  lemma NotFailedFindsLine(body: Bytes, index: nat, utf8: Utf8)
    requires index <= |body| && !DecodeFrom(body, index, utf8).Failed?
    ensures FindCrlf(body, index).Some? && LineSize(body[index..FindCrlf(body, index).value], utf8).Ok?
  {
    hide FindCrlf, LineSize, DecodeChunk, CrlfAt;
  }

  lemma DecodeData(body: Bytes, at: nat, size: nat, utf8: Utf8)
    requires size > 0 && at + size + 2 <= |body| <= U64_MAX && CrlfAt(body, at + size)
    ensures DecodeChunk(body, at, size, utf8)
            == Prepend(body[at..at + size], DecodeFrom(body, at + size + 2, utf8))
  {
    hide DecodeFrom, CrlfAt, Prepend;
  }

  lemma DecodeOneChunk(body: Bytes, index: nat, c: Chunk, tail: Bytes, utf8: Utf8)
    requires index <= |body| <= U64_MAX && GoodChunk(c, utf8)
    requires body[index..] == c.line + CRLF + c.data + CRLF + tail
    ensures var next := index + |c.line| + |c.data| + 4;
      && next <= |body| && body[next..] == tail
      && DecodeFrom(body, index, utf8) == Prepend(c.data, DecodeFrom(body, next, utf8))
  {
    hide DecodeFrom, DecodeChunk, FindCrlf, LineSize, CrlfAt, Prepend, CrlfFree;
    var rest, at := c.data + CRLF + tail, index + |c.line| + 2;
    assert body[index..] == c.line + CRLF + rest;
    LineFound(body, index, c.line, rest);
    ChunkParts(body, at, c.data, tail);
    DecodeLine(body, index, at - 2, |c.data|, utf8);
    DecodeData(body, at, |c.data|, utf8);
  }

  lemma ChunkParts(body: Bytes, at: nat, data: Bytes, tail: Bytes)
    requires at <= |body| && body[at..] == data + CRLF + tail
    ensures var end := at + |data|;
      && end + 2 <= |body| && body[at..end] == data && CrlfAt(body, end) && body[end + 2..] == tail
  {
    var rest, n := data + CRLF + tail, |data|;
    assert body[at + n] == rest[n] && body[at + n + 1] == rest[n + 1];
    assert body[at..at + n] == rest[..n] && body[at + n + 2..] == rest[n + 2..];
  }

  lemma {:induction false} DecodeChunks(body: Bytes, index: nat, chunks: seq<Chunk>, tail: Bytes, utf8: Utf8)
    requires index <= |body| <= U64_MAX && GoodChunks(chunks, utf8)
    requires body[index..] == Encoded(chunks) + tail
    ensures var next := index + |Encoded(chunks)|;
      && next <= |body| && body[next..] == tail
      && DecodeFrom(body, index, utf8) == Prepend(Data(chunks), DecodeFrom(body, next, utf8))
    decreases |chunks|
  {
    hide DecodeFrom, GoodChunk;
    if chunks == [] {
      assert Encoded(chunks) + tail == tail;
      PrependPrepend([], [], DecodeFrom(body, index, utf8));
    } else {
      var c, more := chunks[0], Encoded(chunks[1..]) + tail;
      assert Encoded(chunks) + tail == c.line + CRLF + c.data + CRLF + more;
      DecodeOneChunk(body, index, c, more, utf8);
      var next := index + |c.line| + |c.data| + 4;
      DecodeChunks(body, next, chunks[1..], tail, utf8);
      PrependPrepend(c.data, Data(chunks[1..]), DecodeFrom(body, index + |Encoded(chunks)|, utf8));
    }
  }

  /** A decode that reaches a last line or stops at the overflow read well-formed chunks up to there. */
  lemma {:induction false} ChunksRead(body: Bytes, index: nat, utf8: Utf8)
    returns (chunks: seq<Chunk>, line: Bytes, size: nat, rest: Bytes)
    requires index <= |body| && !DecodeFrom(body, index, utf8).Failed?
    ensures ChunksThenLine(body[index..], chunks, line, size, rest, utf8)
    ensures DecodeFrom(body, index, utf8).Decoded? ==> size == 0 && DecodeFrom(body, index, utf8).data == Data(chunks)
    ensures DecodeFrom(body, index, utf8).Panicked? ==>
      U64_MAX < index + |Encoded(chunks)| + |line| + 2 + size + 2 <= U64_MAX + 2 && size > 0
    decreases |body| - index
  {
    hide FindCrlf, LineSize, CrlfAt, CrlfFree, Data, Encoded, GoodChunks, DecodeChunk, Prepend, DecodeFrom;
    NotFailedFindsLine(body, index, utf8);
    var first := FoundLine(body, index);
    var at := FindCrlf(body, index).value + 2;
    var n := LineSize(first, utf8).value;
    var end := at + n;
    DecodeLine(body, index, at - 2, n, utf8);
    ChunkDecoded(body, at, n, utf8);
    if n == 0 || end + 2 > U64_MAX {
      chunks, line, size, rest := [], first, n, body[at..];
      NoChunks(line + CRLF + rest, utf8);
      Regroup(Encoded([]), line, rest);
    } else {
      DecodedPieces(body[at..end], DecodeFrom(body, end + 2, utf8));
      var more;
      more, line, size, rest := ChunksRead(body, end + 2, utf8);
      var c := Chunk(first, body[at..end]);
      chunks := [c] + more;
      assert GoodChunk(c, utf8);
      Regroup(Encoded(more), line, rest);
      Assembled(body, index, at, end, c, more, line + CRLF + rest, utf8);
      Regroup(Encoded(chunks), line, rest);
    }
  }

  /** The three ways on from a chunk's size that do not fail. */
  lemma ChunkDecoded(body: Bytes, at: nat, size: nat, utf8: Utf8)
    requires at <= |body| && !DecodeChunk(body, at, size, utf8).Failed?
    ensures size == 0 ==> DecodeChunk(body, at, size, utf8) == Decoded([])
    ensures size > 0 && at + size + 2 > U64_MAX ==>
      DecodeChunk(body, at, size, utf8) == Panicked && at + size <= U64_MAX
    ensures size > 0 && at + size + 2 <= U64_MAX ==>
      && at + size + 2 <= |body| && CrlfAt(body, at + size)
      && DecodeChunk(body, at, size, utf8) == Prepend(body[at..at + size], DecodeFrom(body, at + size + 2, utf8))
  {
    hide DecodeFrom, CrlfAt, Prepend;
  }

  lemma DecodedPieces(data: Bytes, outcome: Outcome)
    ensures Prepend(data, outcome).Decoded? ==> outcome.Decoded? && Prepend(data, outcome).data == data + outcome.data
    ensures !Prepend(data, outcome).Decoded? ==> Prepend(data, outcome) == outcome
  {
  }

  lemma NoChunks(tail: Bytes, utf8: Utf8)
    ensures Encoded([]) + tail == tail && |Encoded([])| == 0 && Data([]) == [] && GoodChunks([], utf8)
  {
  }

  lemma Regroup(a: Bytes, line: Bytes, rest: Bytes)
    ensures a + line + CRLF + rest == a + (line + CRLF + rest)
  {
  }

  lemma Assembled(body: Bytes, index: nat, at: nat, end: nat, c: Chunk, more: seq<Chunk>, tail: Bytes, utf8: Utf8)
    requires index <= at <= end && end + 2 <= |body| && CrlfAt(body, end)
    requires GoodChunk(c, utf8) && GoodChunks(more, utf8)
    requires body[index..] == c.line + CRLF + body[at..] && c.data == body[at..end]
    requires body[end + 2..] == Encoded(more) + tail
    ensures body[index..] == Encoded([c] + more) + tail
    ensures |Encoded([c] + more)| == |c.line| + |c.data| + 4 + |Encoded(more)|
    ensures Data([c] + more) == c.data + Data(more) && GoodChunks([c] + more, utf8)
  {
    hide LineSize, CrlfFree;
    assert body[end..end + 2] == CRLF;
    assert ([c] + more)[1..] == more;
    assert body[at..] == body[at..end] + body[end..end + 2] + body[end + 2..];
  }

  /** Decoding succeeds with some data exactly when the body starts with chunks that carry that data, each announced by
      a line with its size, and a line with size zero; what follows that line is not looked at. */
  lemma DecodedExactly(body: Bytes, data: Bytes, utf8: Utf8)
    requires |body| <= U64_MAX
    ensures DecodeFrom(body, 0, utf8) == Decoded(data)
            <==> exists chunks, line, rest :: ChunksThenLine(body, chunks, line, 0, rest, utf8) && Data(chunks) == data
  {
    assert body[0..] == body;
    if DecodeFrom(body, 0, utf8) == Decoded(data) {
      var chunks, line, size, rest := ChunksRead(body, 0, utf8);
      assert ChunksThenLine(body, chunks, line, 0, rest, utf8);
    }
    if chunks, line, rest :| ChunksThenLine(body, chunks, line, 0, rest, utf8) && Data(chunks) == data {
      ChunkedRoundTrip(body, chunks, line, rest, utf8);
    }
  }

  /** The round trip: chunks with any data, line ends inside it included, any extensions on their size lines, and any
      bytes behind the last line. */
  lemma ChunkedRoundTrip(body: Bytes, chunks: seq<Chunk>, line: Bytes, rest: Bytes, utf8: Utf8)
    requires |body| <= U64_MAX && ChunksThenLine(body, chunks, line, 0, rest, utf8)
    ensures DecodeFrom(body, 0, utf8) == Decoded(Data(chunks))
  {
    hide DecodeFrom, GoodChunks, GoodLine, Encoded, Data, Prepend;
    var tail := line + CRLF + rest;
    assert body[0..] == body == Encoded(chunks) + tail;
    hide ChunksThenLine;
    DecodeChunks(body, 0, chunks, tail, utf8);
    LastLine(body, |Encoded(chunks)|, line, rest, utf8);
    PrependStops(Data(chunks), Decoded([]));
  }

  lemma LastLine(body: Bytes, index: nat, line: Bytes, rest: Bytes, utf8: Utf8)
    requires index <= |body| && GoodLine(line, 0, utf8) && body[index..] == line + CRLF + rest
    ensures DecodeFrom(body, index, utf8) == Decoded([])
  {
    LineFound(body, index, line, rest);
    hide FindCrlf, LineSize, CrlfFree, DecodeFrom, CrlfAt;
    DecodeLine(body, index, index + |line|, 0, utf8);
  }

  /** Behind the chunks a line announces one that ends within two bytes of the largest machine word. */
  ghost predicate NearlyTooLong(body: Bytes, chunks: seq<Chunk>, line: Bytes, size: nat, rest: Bytes, utf8: Utf8) {
    && ChunksThenLine(body, chunks, line, size, rest, utf8) && size > 0
    && U64_MAX - 2 < |Encoded(chunks)| + |line| + 2 + size <= U64_MAX
  }

  /** The unchecked addition overflows exactly when such a line stands behind good chunks. */
  lemma PanicsExactly(body: Bytes, utf8: Utf8)
    requires |body| <= U64_MAX
    ensures DecodeFrom(body, 0, utf8) == Panicked
            <==> exists chunks, line, size: nat, rest :: NearlyTooLong(body, chunks, line, size, rest, utf8)
  {
    hide DecodeFrom, ChunksThenLine, Encoded;
    assert body[0..] == body;
    if DecodeFrom(body, 0, utf8) == Panicked {
      var chunks, line, size, rest := ChunksRead(body, 0, utf8);
      assert NearlyTooLong(body, chunks, line, size, rest, utf8);
    }
    if chunks, line, size: nat, rest :| NearlyTooLong(body, chunks, line, size, rest, utf8) {
      NearlyTooLongPanics(body, chunks, line, size, rest, utf8);
    }
  }

  lemma NearlyTooLongPanics(body: Bytes, chunks: seq<Chunk>, line: Bytes, size: nat, rest: Bytes, utf8: Utf8)
    requires |body| <= U64_MAX && NearlyTooLong(body, chunks, line, size, rest, utf8)
    ensures DecodeFrom(body, 0, utf8) == Panicked
  {
    hide DecodeFrom, GoodChunks, GoodLine, Encoded, Data, Prepend;
    var tail := line + CRLF + rest;
    assert body[0..] == Encoded(chunks) + tail;
    DecodeChunks(body, 0, chunks, tail, utf8);
    LongLine(body, |Encoded(chunks)|, line, size, rest, utf8);
    PrependStops(Data(chunks), Panicked);
  }

  lemma LongLine(body: Bytes, index: nat, line: Bytes, size: nat, rest: Bytes, utf8: Utf8)
    requires index <= |body| && GoodLine(line, size, utf8) && body[index..] == line + CRLF + rest
    requires size > 0 && U64_MAX - 2 < index + |line| + 2 + size <= U64_MAX
    ensures DecodeFrom(body, index, utf8) == Panicked
  {
    LineFound(body, index, line, rest);
    hide FindCrlf, LineSize, CrlfFree, DecodeFrom, CrlfAt;
    DecodeLine(body, index, index + |line|, size, utf8);
  }

  // ---------------------------------------------------------------- the sender's own size lines

  function Hex(n: nat): string {
    if n < 16 then [LowerHexDigit(n)] else Hex(n / 16) + [LowerHexDigit(n % 16)]
  }

  lemma DigitValue(n: nat)
    requires n < 16
    ensures HexValue(LowerHexDigit(n)) == Some(n) && !IsSpace(LowerHexDigit(n))
    ensures LowerHexDigit(n) != ';' && LowerHexDigit(n) != '+'
    ensures LowerHexDigit(n) as int < 128
  {
  }

  ghost predicate PlainHex(s: string) {
    s != "" && forall i :: 0 <= i < |s| ==> !IsSpace(s[i]) && s[i] != ';' && s[i] != '+' && s[i] as int < 128
  }

  lemma {:induction false} HexRead(n: nat)
    ensures HexNumber(Hex(n)) == Some(n) && PlainHex(Hex(n))
  {
    hide LowerHexDigit, HexValue, IsSpace;
    DigitValue(n % 16);
    if n < 16 {
      assert [LowerHexDigit(n)][..0] == "";
    } else {
      HexRead(n / 16);
      var s := Hex(n);
      assert s[..|s| - 1] == Hex(n / 16) && s[|s| - 1] == LowerHexDigit(n % 16);
    }
  }

  function AsBytes(s: string): Bytes
    requires forall i :: 0 <= i < |s| ==> s[i] as int < 128
  {
    seq(|s|, i requires 0 <= i < |s| => s[i] as int)
  }

  /** UTF-8 reads ASCII characters one by one, in front of whatever follows. */
  ghost predicate LawfulUtf8(utf8: Utf8) {
    && utf8([]) == Some("")
    && forall s: string, more: Bytes ::
         (forall i :: 0 <= i < |s| ==> s[i] as int < 128) && utf8(more).Some? ==>
         utf8(AsBytes(s) + more) == Some(s + utf8(more).value)
  }

  lemma {:induction false} UpToSemicolonOf(s: string, more: string)
    requires forall i :: 0 <= i < |s| ==> s[i] != ';'
    requires more == "" || more[0] == ';'
    ensures UpToSemicolon(s + more) == s
  {
    if s != "" {
      assert (s + more)[1..] == s[1..] + more;
      UpToSemicolonOf(s[1..], more);
    } else {
      assert s + more == more;
    }
  }

  /** A size in hexadecimal, with an extension behind a semicolon or none, is a line that announces that size; with
      `DecodedExactly`, everything a conforming sender produces is decoded. */
  lemma SizeLineRead(n: nat, extension: Bytes, utf8: Utf8)
    requires LawfulUtf8(utf8) && n <= U64_MAX
    requires utf8(extension).Some? && (utf8(extension).value == "" || utf8(extension).value[0] == ';')
    ensures PlainHex(Hex(n)) && LineSize(AsBytes(Hex(n)) + extension, utf8) == Ok(n)
  {
    HexRead(n);
    var s, more := Hex(n), utf8(extension).value;
    assert utf8(AsBytes(s) + extension) == Some(s + more);
    UpToSemicolonOf(s, more);
    assert TrimStart(s) == s && TrimEnd(s) == s;
  }

  /** So a conforming sender's chunk is a good one, whatever extension without a line end it carries. */
  lemma SentChunkIsGood(data: Bytes, extension: Bytes, utf8: Utf8)
    requires LawfulUtf8(utf8) && 0 < |data| <= U64_MAX && CrlfFree(extension)
    requires utf8(extension).Some? && (utf8(extension).value == "" || utf8(extension).value[0] == ';')
    ensures PlainHex(Hex(|data|)) && GoodChunk(Chunk(AsBytes(Hex(|data|)) + extension, data), utf8)
  {
    hide LineSize, Hex, LawfulUtf8;
    SizeLineRead(|data|, extension, utf8);
    hide PlainHex;
    SizeLineHasNoLineEnd(Hex(|data|), extension);
    hide CrlfFree;
  }

  lemma SizeLineHasNoLineEnd(size: string, extension: Bytes)
    requires PlainHex(size) && CrlfFree(extension)
    ensures CrlfFree(AsBytes(size) + extension)
  {
    var line := AsBytes(size) + extension;
    forall i: nat | i + 2 <= |line| ensures line[i] != CR || line[i + 1] != LF {
      if i < |size| {
        assert !IsSpace(size[i]);
      } else {
        assert !CrlfAt(extension, i - |size|);
      }
    }
  }

  function DecodeAscii(bytes: Bytes): Option<string> {
    if exists i :: 0 <= i < |bytes| && bytes[i] >= 128 then None
    else Some(seq(|bytes|, i requires 0 <= i < |bytes| => bytes[i] as char))
  }

  /** What is asked of UTF-8 decoding is no contradiction: plain ASCII decoding has it. */
  lemma AsciiIsLawful()
    ensures LawfulUtf8(DecodeAscii)
  {
    assert DecodeAscii([]).value == "";
    forall s: string, more: Bytes | (forall i :: 0 <= i < |s| ==> s[i] as int < 128) && DecodeAscii(more).Some?
      ensures DecodeAscii(AsBytes(s) + more) == Some(s + DecodeAscii(more).value)
    {
      var all := AsBytes(s) + more;
      forall i | 0 <= i < |all| ensures all[i] < 128 {
        if i >= |s| { assert all[i] == more[i - |s|]; }
      }
      assert DecodeAscii(all).value == s + DecodeAscii(more).value;
    }
  }

  // ---------------------------------------------------------------- a body that overflows

  function Pow16(k: nat): nat {
    if k == 0 then 1 else 16 * Pow16(k - 1)
  }

  lemma {:induction false} HexLength(n: nat, k: nat)
    requires n < Pow16(k + 1) && (k > 0 ==> Pow16(k) <= n)
    ensures |Hex(n)| == k + 1
    decreases k
  {
    if k > 0 {
      if k > 1 { assert Pow16(k) == 16 * Pow16(k - 1); }
      HexLength(n / 16, k - 1);
    }
  }

  lemma WordInHex()
    ensures Pow16(16) == U64_MAX + 1 && Pow16(15) == 0x1000_0000_0000_0000
  {
    assert Pow16(4) == 0x1_0000;
    assert Pow16(8) == 0x1_0000_0000;
    assert Pow16(12) == 0x1_0000_0000_0000;
  }

  /** The largest size whose chunk still ends within the machine word behind its own size line. */
  const LARGEST_SIZE: nat := U64_MAX - 18

  /** The overflow is met, whatever decoder is used: a body of eighteen bytes that announces this size and ends. */
  lemma OverflowMet(utf8: Utf8)
    requires LawfulUtf8(utf8)
    ensures PlainHex(Hex(LARGEST_SIZE)) && DecodeFrom(AsBytes(Hex(LARGEST_SIZE)) + CRLF, 0, utf8) == Panicked
  {
    hide Hex, LawfulUtf8, LineSize, DecodeFrom, GoodLine;
    var n := LARGEST_SIZE;
    WordInHex();
    HexLength(n, 15);
    NoExtension(n, utf8);
    LongFirstLine(AsBytes(Hex(n)), n, utf8);
  }

  lemma LongFirstLine(line: Bytes, size: nat, utf8: Utf8)
    requires GoodLine(line, size, utf8) && size > 0 && U64_MAX - 2 < |line| + 2 + size <= U64_MAX
    ensures DecodeFrom(line + CRLF, 0, utf8) == Panicked
  {
    hide GoodLine, DecodeFrom;
    var body := line + CRLF;
    assert body[0..] == line + CRLF + [];
    LongLine(body, 0, line, size, [], utf8);
  }

  lemma NoExtension(n: nat, utf8: Utf8)
    requires LawfulUtf8(utf8) && n <= U64_MAX
    ensures PlainHex(Hex(n)) && GoodLine(AsBytes(Hex(n)), n, utf8)
  {
    hide LineSize, Hex;
    SizeLineRead(n, [], utf8);
    hide LawfulUtf8;
    SizeLineHasNoLineEnd(Hex(n), []);
    assert AsBytes(Hex(n)) + [] == AsBytes(Hex(n));
  }
}
