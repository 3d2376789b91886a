/** Which bodies are refused, and why, exactly; and which tokens are sizes. */
module ChunkedFailures {
  import opened Common
  import opened Chunked

  // ---------------------------------------------------------------- sizes

  const LOWER_DIGITS := "0123456789abcdef"
  const UPPER_DIGITS := "0123456789ABCDEF"

  /** A hexadecimal digit is read by its value, whatever its case, and nothing else is one. */
  lemma HexValueExactly(c: char, d: nat)
    ensures HexValue(c) == Some(d) <==> d < 16 && (c == LOWER_DIGITS[d] || c == UPPER_DIGITS[d])
  {
    forall k: nat | k < 16
      ensures LOWER_DIGITS[k] as int == (if k < 10 then 48 + k else 87 + k)
      ensures UPPER_DIGITS[k] as int == (if k < 10 then 48 + k else 55 + k)
    {
    }
  }

  /** The number some hexadecimal digits spell: each counts for its value times sixteen to the number of digits behind
      it. None when a character is no digit. */
  function Spelled(digits: string): Option<nat> {
    if digits == "" then Some(0)
    else
      match (HexValue(digits[0]), Spelled(digits[1..]))
      case (Some(d), Some(n)) => Some(d * Pow16(|digits| - 1) + n)
      case _ => None
  }

  lemma Shifted(d: nat, p: nat, n: nat, e: nat)
    ensures d * (16 * p) + (n * 16 + e) == (d * p + n) * 16 + e
  {
  }

  lemma {:induction false} SpelledSnoc(digits: string, c: char)
    ensures Spelled(digits + [c]) ==
      if Spelled(digits).Some? && HexValue(c).Some? then Some(Spelled(digits).value * 16 + HexValue(c).value) else None
    decreases |digits|
  {
    hide HexValue;
    var all := digits + [c];
    if digits == "" {
      assert all[1..] == "" && Pow16(0) == 1;
    } else {
      assert all[1..] == digits[1..] + [c];
      SpelledSnoc(digits[1..], c);
      if HexValue(digits[0]).Some? && Spelled(digits[1..]).Some? && HexValue(c).Some? {
        Shifted(HexValue(digits[0]).value, Pow16(|digits| - 1), Spelled(digits[1..]).value, HexValue(c).value);
      }
    }
  }

  lemma {:induction false} HexNumberSpelled(digits: string)
    ensures HexNumber(digits) == Spelled(digits)
    decreases |digits|
  {
    if digits != "" {
      var before, c := digits[..|digits| - 1], digits[|digits| - 1];
      HexNumberSpelled(before);
      SpelledSnoc(before, c);
      assert digits == before + [c];
      hide HexValue, Spelled;
    }
  }

  /** A token is a size exactly when it spells it in hexadecimal digits of either case, at least one and leading zeros
      included, behind a plus sign or none, and the size fits the machine word. */
  lemma ParseSizeExactly(token: string, n: nat)
    ensures ParseSize(token) == Some(n) <==>
      n <= U64_MAX &&
      ((token != "" && Spelled(token) == Some(n)) || (|token| > 1 && token[0] == '+' && Spelled(token[1..]) == Some(n)))
  {
    var digits := if |token| > 1 && token[0] == '+' then token[1..] else token;
    HexNumberSpelled(digits);
    assert HexValue('+').None?;
    assert token != "" && token[0] == '+' ==> Spelled(token).None?;
    hide HexValue, HexNumber, Spelled;
  }

  /** What a size line announces: what stands before the first semicolon, without white space around it, as a size. */
  lemma LineSizeExactly(line: Bytes, utf8: Utf8)
    ensures var a, text := LineSize(line, utf8), utf8(line);
      && (a == Err(SizeNotUtf8) <==> text.None?)
      && (text.Some? ==>
            exists front: string :: UpTo(text.value, front, ';') &&
              (if ParseSize(Trim(front)).Some? then a == Ok(ParseSize(Trim(front)).value) else a == Err(InvalidSize)))
  {
    if utf8(line).Some? { UpToSemicolonExactly(utf8(line).value); }
    hide ParseSize, Trim;
  }

  /** The text in front of the first `stop`, or all of it when there is none. */
  ghost predicate UpTo(text: string, front: string, stop: char) {
    front <= text && stop !in front && (|front| < |text| ==> text[|front|] == stop)
  }

  lemma {:induction false} UpToSemicolonExactly(s: string)
    ensures UpTo(s, UpToSemicolon(s), ';')
    decreases |s|
  {
    if s != "" && s[0] != ';' {
      UpToSemicolonExactly(s[1..]);
      assert s == [s[0]] + s[1..];
    }
  }

  /** A line end is a carriage return and a line feed. */
  lemma CrlfExactly(bytes: Bytes, i: nat)
    ensures CrlfAt(bytes, i) <==> i + 1 < |bytes| && bytes[i] == 13 && bytes[i + 1] == 10
    ensures CRLF == [13, 10]
  {
  }

  // ---------------------------------------------------------------- failures

  /** A line announces a chunk of `size` bytes, whose data starts at `at`. */
  ghost predicate Announces(tail: Bytes, line: Bytes, size: nat, rest: Bytes, utf8: Utf8) {
    GoodLine(line, size, utf8) && size > 0 && tail == line + CRLF + rest
  }

  /** The fault that the bytes from place `at` on begin with. */
  ghost predicate FaultAt(tail: Bytes, at: nat, error: DecodeError, utf8: Utf8) {
    match error
    case MissingSizeTerminator => CrlfFree(tail)
    case SizeNotUtf8 => exists line, rest :: BadLine(tail, line, rest, error, utf8)
    case InvalidSize => exists line, rest :: BadLine(tail, line, rest, error, utf8)
    case SizeOverflow =>
      exists line, size: nat, rest :: Announces(tail, line, size, rest, utf8) && at + |line| + 2 + size > U64_MAX
    case EndedInsideChunk =>
      exists line, size: nat, rest :: Announces(tail, line, size, rest, utf8)
        && at + |line| + 2 + size + 2 <= U64_MAX && |rest| < size + 2
    case MissingTrailingCrlf =>
      exists line, size: nat, rest :: Announces(tail, line, size, rest, utf8)
        && at + |line| + 2 + size + 2 <= U64_MAX && |rest| >= size + 2 && !CrlfAt(rest, size)
  }

  ghost predicate BadLine(tail: Bytes, line: Bytes, rest: Bytes, error: DecodeError, utf8: Utf8) {
    CrlfFree(line) && LineSize(line, utf8) == Err(error) && tail == line + CRLF + rest
  }

  lemma NoLineFound(body: Bytes, index: nat)
    requires index <= |body|
    ensures FindCrlf(body, index).None? <==> CrlfFree(body[index..])
  {
    var tail := body[index..];
    if FindCrlf(body, index).None? {
      forall i: nat | i + 2 <= |tail| ensures tail[i] != CR || tail[i + 1] != LF {
        assert !CrlfAt(body, index + i);
        assert tail[i] == body[index + i] && tail[i + 1] == body[index + i + 1];
      }
    } else {
      var k := FindCrlf(body, index).value;
      assert tail[k - index] == body[k] && tail[k + 1 - index] == body[k + 1];
      assert CrlfAt(tail, k - index);
    }
  }

  /** What stands at `index` when the line there is found. */
  lemma LineAt(body: Bytes, index: nat, utf8: Utf8) returns (line: Bytes, rest: Bytes)
    requires index <= |body| && FindCrlf(body, index).Some?
    ensures CrlfFree(line) && body[index..] == line + CRLF + rest
    ensures var end := FindCrlf(body, index).value;
      line == body[index..end] && end == index + |line| && end + 2 <= |body| && rest == body[end + 2..]
  {
    line := FoundLine(body, index);
    rest := body[FindCrlf(body, index).value + 2..];
  }

  /** How a chunk's data and its end are looked at, from the bytes behind the size line. */
  lemma ChunkFails(body: Bytes, at: nat, size: nat, rest: Bytes, utf8: Utf8, error: DecodeError)
    requires at <= |body| && size > 0 && rest == body[at..]
    ensures at + size > U64_MAX ==> DecodeChunk(body, at, size, utf8) == Failed(SizeOverflow)
    ensures at + size + 2 <= U64_MAX && |rest| < size + 2 ==>
      DecodeChunk(body, at, size, utf8) == Failed(EndedInsideChunk)
    ensures at + size + 2 <= U64_MAX && |rest| >= size + 2 && !CrlfAt(rest, size) ==>
      DecodeChunk(body, at, size, utf8) == Failed(MissingTrailingCrlf)
    ensures at + size + 2 <= U64_MAX && |rest| >= size + 2 && CrlfAt(rest, size) ==>
      CrlfAt(body, at + size) &&
      DecodeChunk(body, at, size, utf8) == Prepend(body[at..at + size], DecodeFrom(body, at + size + 2, utf8))
    ensures U64_MAX - 2 < at + size <= U64_MAX ==> DecodeChunk(body, at, size, utf8) == Panicked
  {
    hide DecodeFrom, Prepend;
    if |rest| >= size + 2 { assert rest[size] == body[at + size] && rest[size + 1] == body[at + size + 1]; }
  }

  lemma LineFails(body: Bytes, index: nat, utf8: Utf8)
    requires index <= |body|
    ensures FindCrlf(body, index).None? ==> DecodeFrom(body, index, utf8) == Failed(MissingSizeTerminator)
    ensures FindCrlf(body, index).Some? ==>
      var a := LineSize(body[index..FindCrlf(body, index).value], utf8);
      && (a.Err? ==> DecodeFrom(body, index, utf8) == Failed(a.error))
      && (a.Ok? ==>
            DecodeFrom(body, index, utf8) == DecodeChunk(body, FindCrlf(body, index).value + 2, a.value, utf8))
  {
    hide LineSize, DecodeChunk, CrlfAt;
  }

  /** The size line is refused only as no text or as no size. */
  lemma LineErrors(line: Bytes, utf8: Utf8)
    ensures LineSize(line, utf8).Err? ==>
      LineSize(line, utf8).error == SizeNotUtf8 || LineSize(line, utf8).error == InvalidSize
  {
    hide ParseSize, Trim, UpToSemicolon;
  }

  /** A fault makes the decoding fail, with that error. */
  lemma FaultFails(body: Bytes, index: nat, error: DecodeError, utf8: Utf8)
    requires index <= |body| && FaultAt(body[index..], index, error, utf8)
    ensures DecodeFrom(body, index, utf8) == Failed(error)
  {
    hide DecodeFrom, DecodeChunk, LineSize, CrlfFree, CrlfAt, FindCrlf;
    LineFails(body, index, utf8);
    NoLineFound(body, index);
    if error.SizeNotUtf8? || error.InvalidSize? {
      var line, rest :| BadLine(body[index..], line, rest, error, utf8);
      LineFound(body, index, line, rest);
    } else if !error.MissingSizeTerminator? {
      var line, size, rest := FaultyChunk(body[index..], index, error, utf8);
      hide FaultAt;
      LineFound(body, index, line, rest);
      ChunkFails(body, index + |line| + 2, size, rest, utf8, error);
    }
  }

  /** The chunk of a fault that is not the size line's. */
  lemma FaultyChunk(tail: Bytes, at: nat, error: DecodeError, utf8: Utf8)
    returns (line: Bytes, size: nat, rest: Bytes)
    requires FaultAt(tail, at, error, utf8)
    requires error.SizeOverflow? || error.EndedInsideChunk? || error.MissingTrailingCrlf?
    ensures Announces(tail, line, size, rest, utf8)
    ensures var end := at + |line| + 2 + size;
      match error
      case SizeOverflow => end > U64_MAX
      case EndedInsideChunk => end + 2 <= U64_MAX && |rest| < size + 2
      case _ => end + 2 <= U64_MAX && |rest| >= size + 2 && !CrlfAt(rest, size)
  {
    hide GoodLine, CrlfAt;
    match error
    case SizeOverflow =>
      line, size, rest :| Announces(tail, line, size, rest, utf8) && at + |line| + 2 + size > U64_MAX;
    case EndedInsideChunk =>
      line, size, rest :| Announces(tail, line, size, rest, utf8)
        && at + |line| + 2 + size + 2 <= U64_MAX && |rest| < size + 2;
    case MissingTrailingCrlf =>
      line, size, rest :| Announces(tail, line, size, rest, utf8)
        && at + |line| + 2 + size + 2 <= U64_MAX && |rest| >= size + 2 && !CrlfAt(rest, size);
  }

  /** The one line at the front is faulty, or announces a whole chunk behind which the decoding fails. */
  lemma FailsAtFirst(body: Bytes, index: nat, utf8: Utf8)
    requires index <= |body| && DecodeFrom(body, index, utf8).Failed?
    ensures FaultAt(body[index..], index, DecodeFrom(body, index, utf8).error, utf8) ||
      exists line, size: nat, rest :: ChunkFollowed(body, index, line, size, rest, utf8)
  {
    hide DecodeFrom, DecodeChunk, LineSize, CrlfFree, CrlfAt, FindCrlf, Prepend;
    LineFails(body, index, utf8);
    NoLineFound(body, index);
    if FindCrlf(body, index).Some? {
      var line, rest := LineAt(body, index, utf8);
      LineErrors(line, utf8);
      var a := LineSize(line, utf8);
      if a.Err? {
        assert BadLine(body[index..], line, rest, a.error, utf8);
      } else {
        SizeZero(body, index + |line| + 2, utf8);
        assert GoodLine(line, a.value, utf8);
        ChunkStarts(body, index, line, a.value, rest, utf8);
      }
    }
  }

  lemma SizeZero(body: Bytes, at: nat, utf8: Utf8)
    requires at <= |body|
    ensures DecodeChunk(body, at, 0, utf8) == Decoded([])
  {
  }

  lemma ChunkStarts(body: Bytes, index: nat, line: Bytes, size: nat, rest: Bytes, utf8: Utf8)
    requires index <= |body| && GoodLine(line, size, utf8) && body[index..] == line + CRLF + rest && size > 0
    requires DecodeFrom(body, index, utf8).Failed? && index + |line| + 2 <= |body| && rest == body[index + |line| + 2..]
    requires DecodeFrom(body, index, utf8) == DecodeChunk(body, index + |line| + 2, size, utf8)
    ensures FaultAt(body[index..], index, DecodeFrom(body, index, utf8).error, utf8) ||
      ChunkFollowed(body, index, line, size, rest, utf8)
  {
    hide DecodeFrom, DecodeChunk, GoodLine, CrlfAt, Prepend;
    assert Announces(body[index..], line, size, rest, utf8);
    ChunkFails(body, index + |line| + 2, size, rest, utf8, MissingSizeTerminator);
    var outcome := DecodeFrom(body, index, utf8);
    if |rest| >= size + 2 && index + |line| + 2 + size + 2 <= U64_MAX && CrlfAt(rest, size) {
      DecodedPieces(body[index + |line| + 2..index + |line| + 2 + size],
                    DecodeFrom(body, index + |line| + 2 + size + 2, utf8));
    }
  }

  /** A whole chunk stands at `index`, and the decoding behind it fails the same way. */
  ghost predicate ChunkFollowed(body: Bytes, index: nat, line: Bytes, size: nat, rest: Bytes, utf8: Utf8)
    requires index <= |body|
  {
    && Announces(body[index..], line, size, rest, utf8) && |rest| >= size + 2 && CrlfAt(rest, size)
    && var next := index + |line| + 2 + size + 2;
       next <= |body| && DecodeFrom(body, next, utf8) == DecodeFrom(body, index, utf8)
  }

  lemma {:induction false} FaultFound(body: Bytes, index: nat, utf8: Utf8) returns (chunks: seq<Chunk>, tail: Bytes)
    requires index <= |body| && DecodeFrom(body, index, utf8).Failed?
    ensures GoodChunks(chunks, utf8) && body[index..] == Encoded(chunks) + tail
    ensures FaultAt(tail, index + |Encoded(chunks)|, DecodeFrom(body, index, utf8).error, utf8)
    decreases |body| - index
  {
    hide DecodeFrom, FaultAt, GoodChunks, Encoded, GoodLine, CrlfAt;
    FailsAtFirst(body, index, utf8);
    if FaultAt(body[index..], index, DecodeFrom(body, index, utf8).error, utf8) {
      chunks, tail := [], body[index..];
      NoChunks(tail, utf8);
    } else {
      var line, size: nat, rest :| ChunkFollowed(body, index, line, size, rest, utf8);
      var at, end := index + |line| + 2, index + |line| + 2 + size;
      Behind(body, index, line, size, rest, utf8);
      var more;
      more, tail := FaultFound(body, end + 2, utf8);
      var c := Chunk(line, body[at..end]);
      chunks := [c] + more;
      assert GoodChunk(c, utf8);
      Assembled(body, index, at, end, c, more, tail, utf8);
    }
  }

  lemma Behind(body: Bytes, index: nat, line: Bytes, size: nat, rest: Bytes, utf8: Utf8)
    requires index <= |body| && ChunkFollowed(body, index, line, size, rest, utf8)
    ensures var at := index + |line| + 2;
      at + size + 2 <= |body| && rest == body[at..] && CrlfAt(body, at + size) && |body[at..at + size]| == size
  {
    hide DecodeFrom, GoodLine;
    var at, tail := index + |line| + 2, body[index..];
    assert tail[|line| + 2..] == rest && body[at..] == tail[|line| + 2..];
    assert rest[size] == body[at + size] && rest[size + 1] == body[at + size + 1];
  }

  /** Behind good chunks comes a fault. */
  ghost predicate ChunksThenFault(body: Bytes, chunks: seq<Chunk>, tail: Bytes, error: DecodeError, utf8: Utf8) {
    GoodChunks(chunks, utf8) && body == Encoded(chunks) + tail && FaultAt(tail, |Encoded(chunks)|, error, utf8)
  }

  /** A body is refused with an error exactly when behind good chunks it goes on with that fault: no line end any more,
      a size line that is no text or no size, a chunk that would end beyond the machine word, one that is not all there,
      or one without a line end behind it. */
  lemma FailedExactly(body: Bytes, error: DecodeError, utf8: Utf8)
    requires |body| <= U64_MAX
    ensures DecodeFrom(body, 0, utf8) == Failed(error) <==>
      exists chunks, tail :: ChunksThenFault(body, chunks, tail, error, utf8)
  {
    hide DecodeFrom, FaultAt, GoodChunks, Encoded;
    assert body[0..] == body;
    if DecodeFrom(body, 0, utf8) == Failed(error) {
      var chunks, tail := FaultFound(body, 0, utf8);
      assert ChunksThenFault(body, chunks, tail, error, utf8);
    }
    if chunks, tail :| ChunksThenFault(body, chunks, tail, error, utf8) {
      DecodeChunks(body, 0, chunks, tail, utf8);
      assert body[|Encoded(chunks)|..] == tail;
      FaultFails(body, |Encoded(chunks)|, error, utf8);
      PrependStops(Data(chunks), Failed(error));
    }
  }
}
