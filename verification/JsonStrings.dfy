/** The JSON string printers of crates/apolysis-core/src/lib.rs and crates/apolysis-visibility/src/lib.rs, and the
    string-list scanner of crates/apolysis-policy/src/lib.rs. Text is a sequence of characters; every delimiter the
    scanner looks at is ASCII. */
module JsonStrings {
  import opened Common

  datatype ScanError =
    | NotAnArray
    | ArrayNotClosed
    | ExpectedString
    | StringNotClosed
    | UnsupportedEscape(c: char)
    | ExpectedComma

  // ---------------------------------------------------------------- printing

  const QUOTE := '"'
  const BACKSLASH := '\\'

  /** Unicode category Cc. */
  predicate IsControl(c: char) {
    c as int <= 0x1F || 0x7F <= c as int <= 0x9F
  }

  /** The control characters that have a short escape, and everything that is not a control character. */
  predicate Friendly(c: char) {
    !IsControl(c) || c == '\n' || c == '\r' || c == '\t'
  }

  ghost predicate AllFriendly(s: string) {
    forall i :: 0 <= i < |s| ==> Friendly(s[i])
  }

  function Escape(c: char): string {
    if c == QUOTE then [BACKSLASH, QUOTE]
    else if c == BACKSLASH then [BACKSLASH, BACKSLASH]
    else if c == '\n' then [BACKSLASH, 'n']
    else if c == '\r' then [BACKSLASH, 'r']
    else if c == '\t' then [BACKSLASH, 't']
    else if IsControl(c) then [BACKSLASH, 'u', '0', '0', LowerHexDigit(c as int / 16), LowerHexDigit(c as int % 16)]
    else [c]
  }

  function EscapeAll(s: string): string {
    if s == "" then "" else Escape(s[0]) + EscapeAll(s[1..])
  }

  function Quoted(s: string): string {
    [QUOTE] + EscapeAll(s) + [QUOTE]
  }

  function JoinQuoted(values: seq<string>): string {
    if values == [] then ""
    else if |values| == 1 then Quoted(values[0])
    else Quoted(values[0]) + "," + JoinQuoted(values[1..])
  }

  /** The array printer. */
  function PrintedArray(values: seq<string>): string {
    "[" + JoinQuoted(values) + "]"
  }

  lemma {:induction false} EscapeAllSnoc(s: string, c: char)
    ensures EscapeAll(s + [c]) == EscapeAll(s) + Escape(c)
  {
    if s == "" {
      assert s + [c] == [c] && [c][1..] == "";
    } else {
      assert (s + [c])[1..] == s[1..] + [c];
      EscapeAllSnoc(s[1..], c);
    }
  }

  /** `json_string`. */
  method JsonString(value: string) returns (out: string)
    ensures out == Quoted(value)
  {
    hide Escape;
    out := [QUOTE];
    for i := 0 to |value|
      invariant out == [QUOTE] + EscapeAll(value[..i])
    {
      EscapeAllSnoc(value[..i], value[i]);
      assert value[..i + 1] == value[..i] + [value[i]];
      out := out + Escape(value[i]);
    }
    assert value[..|value|] == value;
    out := out + [QUOTE];
  }

  // ---------------------------------------------------------------- specification of the scanner

  predicate IsAsciiSpace(c: char) {
    c == ' ' || c == '\t' || c == '\n' || c == '\r' || c as int == 12
  }

  function DropSpace(s: string): (r: string)
    ensures |r| <= |s|
  {
    if s != "" && IsAsciiSpace(s[0]) then DropSpace(s[1..]) else s
  }

  predicate OccursAt(s: string, pattern: string, k: nat) {
    k + |pattern| <= |s| && s[k..k + |pattern|] == pattern
  }

  /** The first occurrence of a text, as `str::find` gives it. */
  function Find(s: string, pattern: string): (r: Option<nat>)
    ensures r.Some? ==> r.value + |pattern| <= |s| && OccursAt(s, pattern, r.value)
    ensures forall k: nat :: (r.Some? ==> k < r.value) ==> !OccursAt(s, pattern, k)
  {
    FindFrom(s, pattern, 0)
  }

  function FindFrom(s: string, pattern: string, from: nat): (r: Option<nat>)
    ensures r.Some? ==> from <= r.value && OccursAt(s, pattern, r.value)
    ensures forall k: nat :: from <= k && (r.Some? ==> k < r.value) ==> !OccursAt(s, pattern, k)
    decreases |s| - from
  {
    if from + |pattern| > |s| then None
    else if OccursAt(s, pattern, from) then Some(from)
    else FindFrom(s, pattern, from + 1)
  }

  /** The text from the value of the first `"key"` on. */
  function ValueText(input: string, key: string): Option<string> {
    var pattern := [QUOTE] + key + [QUOTE];
    match Find(input, pattern)
    case None => None
    case Some(at) =>
      var rest := input[at + |pattern|..];
      match Find(rest, ":")
      case None => None
      case Some(colon) => Some(DropSpace(rest[colon + 1..]))
  }

  /** Where the delimiter scan is: how deep, and whether inside a string or just behind a backslash in one. */
  datatype Lex = Lex(depth: int, inString: bool, escaped: bool)

  function LexStep(l: Lex, c: char, open: char, close: char): Lex {
    if l.inString then
      if l.escaped then l.(escaped := false)
      else if c == BACKSLASH then l.(escaped := true)
      else if c == QUOTE then l.(inString := false)
      else l
    else if c == QUOTE then l.(inString := true)
    else if c == open then l.(depth := l.depth + 1)
    else if c == close then l.(depth := l.depth - 1)
    else l
  }

  function LexAll(l: Lex, s: string, open: char, close: char): Lex {
    if s == "" then l else LexStep(LexAll(l, s[..|s| - 1], open, close), s[|s| - 1], open, close)
  }

  /** Nesting depth, outside strings, behind a text. */
  function Depth(s: string, open: char, close: char): int {
    LexAll(Lex(0, false, false), s, open, close).depth
  }

  /** Behind place `k` every delimiter that was opened is closed again. */
  predicate BalancedBehind(s: string, k: nat, open: char, close: char) {
    k < |s| && Depth(s[..k + 1], open, close) == 0
  }

  /** The first place from `k` on behind which the nesting is back to zero. */
  function ClosesAt(s: string, k: nat, open: char, close: char): (r: Option<nat>)
    ensures r.Some? ==> k <= r.value && BalancedBehind(s, r.value, open, close)
    ensures forall j: nat :: k <= j && (r.Some? ==> j < r.value) ==> !BalancedBehind(s, j, open, close)
    decreases |s| - k
  {
    if k >= |s| then None
    else if BalancedBehind(s, k, open, close) then Some(k)
    else ClosesAt(s, k + 1, open, close)
  }

  function Unescape(c: char): Option<char> {
    if c == QUOTE || c == BACKSLASH || c == '/' then Some(c)
    else if c == 'n' then Some('\n')
    else if c == 'r' then Some('\r')
    else if c == 't' then Some('\t')
    else None
  }

  /** Puts what was read before in front of what the rest reads as. */
  function Behind<T>(front: seq<T>, r: Result<seq<T>, ScanError>): Result<seq<T>, ScanError> {
    if r.Ok? then Ok(front + r.value) else r
  }

  lemma BehindBehind<T>(a: seq<T>, b: seq<T>, r: Result<seq<T>, ScanError>)
    ensures Behind(a, Behind(b, r)) == Behind(a + b, r) && Behind([], r) == r
    ensures Behind(a, Ok(b)) == Ok(a + b)
    ensures r.Err? ==> Behind(a, r) == r
  {
    if r.Ok? { assert a + (b + r.value) == a + b + r.value && [] + r.value == r.value; }
  }

  /** The string whose text, up to its closing quote, starts `s`. */
  function BodyValue(s: string, escaped: bool): Result<string, ScanError> {
    if s == "" then Err(StringNotClosed)
    else if escaped then
      match Unescape(s[0])
      case Some(c) => Behind([c], BodyValue(s[1..], false))
      case None => Err(UnsupportedEscape(s[0]))
    else if s[0] == BACKSLASH then BodyValue(s[1..], true)
    else if s[0] == QUOTE then Ok("")
    else Behind([s[0]], BodyValue(s[1..], false))
  }

  function StringValue(s: string): Result<string, ScanError> {
    if s == "" || s[0] != QUOTE then Err(ExpectedString) else BodyValue(s[1..], false)
  }

  /** Length of the text up to and including its closing quote. */
  function BodyLength(s: string, escaped: bool): (r: Result<nat, ScanError>)
    ensures r.Ok? ==> 1 <= r.value <= |s|
  {
    if s == "" then Err(StringNotClosed)
    else if !escaped && s[0] == QUOTE then Ok(1)
    else
      match BodyLength(s[1..], !escaped && s[0] == BACKSLASH)
      case Ok(n) => Ok(n + 1)
      case Err(e) => Err(e)
  }

  function StringLength(s: string): (r: Result<nat, ScanError>)
    ensures r.Ok? ==> 2 <= r.value <= |s|
  {
    if s == "" || s[0] != QUOTE then Err(ExpectedString)
    else
      match BodyLength(s[1..], false)
      case Ok(n) => Ok(n + 1)
      case Err(e) => Err(e)
  }

  /** The strings of a comma-separated text; stray commas are skipped. */
  function Items(s: string): Result<seq<string>, ScanError>
    decreases |s|
  {
    if s == "" then Ok([])
    else if s[0] == ',' then Items(DropSpace(s[1..]))
    else
      match StringValue(s)
      case Err(e) => Err(e)
      case Ok(value) =>
        match StringLength(s)
        case Err(e) => Err(e)
        case Ok(n) =>
          var rest := DropSpace(s[n..]);
          if rest == "" then Ok([value])
          else if rest[0] == ',' then Behind([value], Items(DropSpace(rest[1..])))
          else Err(ExpectedComma)
  }

  lemma ItemsEdges(s: string)
    ensures s == "" ==> Items(s) == Ok([])
    ensures s != "" && s[0] == ',' ==> Items(s) == Items(DropSpace(s[1..]))
    ensures s != "" && s[0] != ',' && StringValue(s).Err? ==> Items(s) == Err(StringValue(s).error)
    ensures s != "" && s[0] != ',' && StringValue(s).Ok? && StringLength(s).Err? ==>
        Items(s) == Err(StringLength(s).error)
  {
    hide DropSpace, StringValue, StringLength;
  }

  lemma ItemsStep(s: string, rest: string)
    requires StringValue(s).Ok? && StringLength(s).Ok? && rest == DropSpace(s[StringLength(s).value..])
    ensures rest == "" ==> Items(s) == Ok([StringValue(s).value])
    ensures rest != "" && rest[0] == ',' ==>
      Items(s) == Behind([StringValue(s).value], Items(DropSpace(rest[1..])))
    ensures rest != "" && rest[0] != ',' ==> Items(s) == Err(ExpectedComma)
  {
    hide StringLength, DropSpace;
    assert s[0] == QUOTE;
  }

  /** What a list field of a policy document holds. */
  function ListField(input: string, key: string): Result<seq<string>, ScanError> {
    match ValueText(input, key)
    case None => Ok([])
    case Some(text) =>
      if text == "" || text[0] != '[' then Err(NotAnArray)
      else
        match ClosesAt(text, 0, '[', ']')
        case None => Err(ArrayNotClosed)
        case Some(end) => if end == 0 then Err(ArrayNotClosed) else Items(DropSpace(text[1..end]))
  }

  // ---------------------------------------------------------------- the code

  method SkipJsonWhitespace(input: string, start: nat) returns (index: nat)
    requires start <= |input|
    ensures start <= index <= |input| && input[index..] == DropSpace(input[start..])
  {
    index := start;
    while index < |input| && IsAsciiSpace(input[index])
      invariant start <= index <= |input|
      invariant DropSpace(input[start..]) == DropSpace(input[index..])
    {
      index := index + 1;
    }
  }

  method JsonValueStart(input: string, key: string) returns (start: Option<nat>)
    ensures start.Some? <==> ValueText(input, key).Some?
    ensures start.Some? ==> start.value <= |input| && Some(input[start.value..]) == ValueText(input, key)
  {
    hide OccursAt, DropSpace;
    var pattern := [QUOTE] + key + [QUOTE];
    var keyStart := Find(input, pattern);
    if keyStart.None? { return None; }
    var afterKey := keyStart.value + |pattern|;
    var colon := Find(input[afterKey..], ":");
    if colon.None? { return None; }
    assert input[afterKey..][colon.value + 1..] == input[afterKey + colon.value + 1..];
    var index := SkipJsonWhitespace(input, afterKey + colon.value + 1);
    return Some(index);
  }

  /** `matching_delimiter`: the first place at which the nesting outside strings returns to zero. The depth is a
      natural number here, so it provably never goes below zero. */
  method MatchingDelimiter(input: string, start: nat, open: char, close: char) returns (end: Option<nat>)
    requires start < |input| && input[start] == open && open != close && QUOTE != open
    ensures end.Some? <==> ClosesAt(input[start..], 0, open, close).Some?
    ensures end.Some? ==> start < end.value && end.value - start == ClosesAt(input[start..], 0, open, close).value
  {
    var depth: nat, inString, escaped := 0, false, false;
    var text := input[start..];
    for offset := 0 to |text|
      invariant Lex(depth, inString, escaped) == LexAll(Lex(0, false, false), text[..offset], open, close)
      invariant offset > 0 ==> depth > 0
      invariant offset == 0 ==> !inString
      invariant ClosesAt(text, 0, open, close) == ClosesAt(text, offset, open, close)
    {
      assert text[..offset + 1][..offset] == text[..offset];
      var c := text[offset];
      if inString {
        if escaped {
          escaped := false;
        } else if c == BACKSLASH {
          escaped := true;
        } else if c == QUOTE {
          inString := false;
        }
        continue;
      }
      if c == QUOTE {
        inString := true;
      } else if c == open {
        depth := depth + 1;
      } else if c == close {
        depth := depth - 1;
        if depth == 0 {
          return Some(start + offset);
        }
      }
    }
    return None;
  }

  method ParseJsonStringAt(input: string, start: nat) returns (r: Result<string, ScanError>)
    requires start <= |input|
    ensures r == StringValue(input[start..])
  {
    if start >= |input| || input[start] != QUOTE {
      return Err(ExpectedString);
    }
    var out, escaped := "", false;
    BehindBehind("", "", BodyValue(input[start + 1..], false));
    for i := start + 1 to |input|
      invariant BodyValue(input[start + 1..], false) == Behind(out, BodyValue(input[i..], escaped))
    {
      var c := input[i];
      assert input[i..][1..] == input[i + 1..];
      if escaped {
        var u := Unescape(c);
        if u.None? {
          return Err(UnsupportedEscape(c));
        }
        BehindBehind(out, [u.value], BodyValue(input[i + 1..], false));
        out, escaped := out + [u.value], false;
        continue;
      }
      if c == BACKSLASH {
        escaped := true;
      } else if c == QUOTE {
        assert out + "" == out;
        return Ok(out);
      } else {
        BehindBehind(out, [c], BodyValue(input[i + 1..], false));
        out := out + [c];
      }
    }
    return Err(StringNotClosed);
  }

  method ConsumedJsonStringLen(input: string) returns (r: Result<nat, ScanError>)
    ensures r == StringLength(input)
  {
    if input == "" || input[0] != QUOTE {
      return Err(ExpectedString);
    }
    var escaped := false;
    for offset := 0 to |input| - 1
      invariant BodyLength(input[1..], false).Ok? <==> BodyLength(input[1 + offset..], escaped).Ok?
      invariant BodyLength(input[1..], false).Ok? ==>
          BodyLength(input[1..], false).value == offset + BodyLength(input[1 + offset..], escaped).value
      invariant BodyLength(input[1..], false).Err? ==>
          BodyLength(input[1..], false) == BodyLength(input[1 + offset..], escaped)
    {
      var c := input[1 + offset];
      assert input[1 + offset..][1..] == input[1 + offset + 1..];
      if escaped {
        escaped := false;
      } else if c == BACKSLASH {
        escaped := true;
      } else if c == QUOTE {
        return Ok(offset + 2);
      }
    }
    return Err(StringNotClosed);
  }

  method ParseJsonStringArrayItems(input: string) returns (r: Result<seq<string>, ScanError>)
    ensures r == Items(DropSpace(input))
  {
    hide *;
    var items: seq<string> := [];
    ghost var goal := Items(DropSpace(input));
    assert input[0..] == input;
    BehindBehind([], [], goal);
    var index := SkipJsonWhitespace(input, 0);
    while index < |input|
      invariant index <= |input|
      invariant goal == Behind(items, Items(input[index..]))
    {
      var text := input[index..];
      assert text[0] == input[index];
      ItemsEdges(text);
      BehindBehind(items, [], Items(text));
      if input[index] == ',' {
        assert text[1..] == input[index + 1..];
        index := SkipJsonWhitespace(input, index + 1);
        continue;
      }
      var value := ParseJsonStringAt(input, index);
      if value.Err? { return Err(value.error); }
      var consumed := ConsumedJsonStringLen(text);
      if consumed.Err? { return Err(consumed.error); }
      assert text[consumed.value..] == input[index + consumed.value..];
      index := SkipJsonWhitespace(input, index + consumed.value);
      ItemsStep(text, input[index..]);
      BehindBehind(items, [value.value], Ok([]));
      if index < |input| && input[index] == ',' {
        assert input[index..][1..] == input[index + 1..];
        index := SkipJsonWhitespace(input, index + 1);
        BehindBehind(items, [value.value], Items(input[index..]));
      } else if index < |input| {
        return Err(ExpectedComma);
      } else {
        assert input[index..] == "";
        ItemsEdges("");
        BehindBehind(items, [value.value], Items(""));
        BehindBehind([value.value], [], Items(""));
        assert [value.value] + [] == [value.value];
      }
      items := items + [value.value];
    }
    assert input[index..] == "";
    ItemsEdges("");
    BehindBehind(items, [], Ok([]));
    assert items + [] == items;
    return Ok(items);
  }

  /** `json_string_array` of the policy reader. */
  method JsonStringArray(input: string, key: string) returns (r: Result<seq<string>, ScanError>)
    ensures r == ListField(input, key)
  {
    var valueStart := JsonValueStart(input, key);
    if valueStart.None? { return Ok([]); }
    var start := valueStart.value;
    if start >= |input| || input[start] != '[' {
      return Err(NotAnArray);
    }
    var end := MatchingDelimiter(input, start, '[', ']');
    if end.None? { return Err(ArrayNotClosed); }
    assert input[start..][1..end.value - start] == input[start + 1..end.value];
    r := ParseJsonStringArrayItems(input[start + 1..end.value]);
  }

  // ---------------------------------------------------------------- strings

  /** Which texts spell which strings: plain characters for themselves, and the six two-character escapes. */
  ghost predicate Spells(body: string, value: string) {
    if body == "" then value == ""
    else if body[0] == QUOTE || value == "" then false
    else if body[0] == BACKSLASH then
      |body| >= 2 && Unescape(body[1]) == Some(value[0]) && Spells(body[2..], value[1..])
    else body[0] == value[0] && Spells(body[1..], value[1..])
  }

  /** The first `n` characters are a quote, a spelling of the string, and a quote. */
  ghost predicate StartsSpelled(s: string, n: nat, value: string) {
    2 <= n <= |s| && s[0] == s[n - 1] == QUOTE && Spells(s[1..n - 1], value)
  }

  /** A text reads as a string exactly when it is a quote, a spelling of that string, a quote, and anything. */
  lemma StringValueExactly(s: string, value: string)
    ensures StringValue(s) == Ok(value) <==> exists n: nat :: StartsSpelled(s, n, value)
  {
    if StringValue(s) == Ok(value) {
      var n := SpellingFound(s[1..], value);
      assert s[1..][..n] == s[1..n + 1];
      assert StartsSpelled(s, n + 2, value);
    }
    if n: nat :| StartsSpelled(s, n, value) {
      SpellingRead(s[1..n - 1], value, s[n..]);
      assert s[1..n - 1] + [QUOTE] + s[n..] == s[1..];
    }
  }

  lemma {:induction false} SpellingRead(body: string, value: string, rest: string)
    requires Spells(body, value)
    ensures BodyValue(body + [QUOTE] + rest, false) == Ok(value)
    decreases |body|
  {
    var s := body + [QUOTE] + rest;
    if body == "" {
      assert s[0] == QUOTE;
    } else if body[0] == BACKSLASH {
      SpellingRead(body[2..], value[1..], rest);
      assert s[1..][1..] == body[2..] + [QUOTE] + rest;
      assert value == [value[0]] + value[1..];
    } else {
      SpellingRead(body[1..], value[1..], rest);
      assert s[1..] == body[1..] + [QUOTE] + rest;
      assert value == [value[0]] + value[1..];
    }
  }

  lemma {:induction false} SpellingFound(s: string, value: string) returns (n: nat)
    requires BodyValue(s, false) == Ok(value)
    ensures n < |s| && s[n] == QUOTE && Spells(s[..n], value)
    decreases |s|
  {
    if s[0] == QUOTE {
      n := 0;
    } else if s[0] == BACKSLASH {
      var m := SpellingFound(s[1..][1..], value[1..]);
      n := m + 2;
      assert s[..n][2..] == s[1..][1..][..m];
    } else {
      var m := SpellingFound(s[1..], value[1..]);
      n := m + 1;
      assert s[..n][1..] == s[1..][..m];
    }
  }

  lemma {:induction false} EscapedBody(s: string, rest: string)
    ensures BodyValue(EscapeAll(s) + [QUOTE] + rest, false)
            == if AllFriendly(s) then Ok(s) else Err(UnsupportedEscape('u'))
  {
    if s != "" {
      EscapedBody(s[1..], rest);
      EscapedBodyStep(s, rest);
    }
  }

  lemma EscapedBodyStep(s: string, rest: string)
    requires s != ""
    requires BodyValue(EscapeAll(s[1..]) + [QUOTE] + rest, false)
             == if AllFriendly(s[1..]) then Ok(s[1..]) else Err(UnsupportedEscape('u'))
    ensures BodyValue(EscapeAll(s) + [QUOTE] + rest, false)
            == if AllFriendly(s) then Ok(s) else Err(UnsupportedEscape('u'))
  {
    hide Escape, BodyValue, Friendly;
    var tail := EscapeAll(s[1..]) + [QUOTE] + rest;
    EscapedChar(s[0], tail);
    assert EscapeAll(s) + [QUOTE] + rest == Escape(s[0]) + tail;
    assert s == [s[0]] + s[1..];
    assert AllFriendly(s) <==> Friendly(s[0]) && AllFriendly(s[1..]);
  }

  lemma EscapedChar(c: char, tail: string)
    ensures BodyValue(Escape(c) + tail, false)
            == if Friendly(c) then Behind([c], BodyValue(tail, false)) else Err(UnsupportedEscape('u'))
  {
    var s := Escape(c) + tail;
    if |Escape(c)| == 2 {
      assert s[1..][1..] == tail;
    } else if |Escape(c)| == 1 {
      assert s[1..] == tail;
    } else {
      assert s[1..][0] == 'u';
    }
  }

  lemma {:induction false} EscapedLength(s: string, rest: string)
    ensures BodyLength(EscapeAll(s) + [QUOTE] + rest, false) == Ok(|EscapeAll(s)| + 1)
  {
    if s != "" {
      EscapedLength(s[1..], rest);
      EscapedLengthStep(s, rest);
    }
  }

  lemma EscapedLengthStep(s: string, rest: string)
    requires s != ""
    requires BodyLength(EscapeAll(s[1..]) + [QUOTE] + rest, false) == Ok(|EscapeAll(s[1..])| + 1)
    ensures BodyLength(EscapeAll(s) + [QUOTE] + rest, false) == Ok(|EscapeAll(s)| + 1)
  {
    hide Escape, BodyLength;
    var tail := EscapeAll(s[1..]) + [QUOTE] + rest;
    assert EscapeAll(s) + [QUOTE] + rest == Escape(s[0]) + tail;
    CharLength(s[0], tail);
  }

  lemma CharLength(c: char, tail: string)
    requires BodyLength(tail, false).Ok?
    ensures BodyLength(Escape(c) + tail, false) == Ok(|Escape(c)| + BodyLength(tail, false).value)
  {
    var e := Escape(c);
    if |e| == 1 {
      PlainLength(e, tail);
    } else {
      var more := e[2..];
      assert forall i :: 0 <= i < |more| ==> more[i] != QUOTE && more[i] != BACKSLASH;
      PairLength(e[1], more, tail);
      hide BodyLength;
      assert e == [BACKSLASH] + ([e[1]] + more);
      hide Escape;
      assert [BACKSLASH] + ([e[1]] + more) + tail == [BACKSLASH] + ([e[1]] + (more + tail));
    }
  }

  lemma PairLength(x: char, more: string, tail: string)
    requires forall i :: 0 <= i < |more| ==> more[i] != QUOTE && more[i] != BACKSLASH
    requires BodyLength(tail, false).Ok?
    ensures BodyLength([BACKSLASH] + ([x] + (more + tail)), false) == Ok(|more| + 2 + BodyLength(tail, false).value)
  {
    hide BodyLength;
    PlainLength(more, tail);
    LengthStep(x, more + tail, true);
    LengthStep(BACKSLASH, [x] + (more + tail), false);
  }

  lemma LengthStep(c: char, s: string, escaped: bool)
    requires escaped || c != QUOTE
    ensures var rest := BodyLength(s, !escaped && c == BACKSLASH);
      rest.Ok? ==> BodyLength([c] + s, escaped) == Ok(rest.value + 1)
  {
    assert ([c] + s)[1..] == s;
  }

  lemma {:induction false} PlainLength(plain: string, tail: string)
    requires forall i :: 0 <= i < |plain| ==> plain[i] != QUOTE && plain[i] != BACKSLASH
    requires BodyLength(tail, false).Ok?
    ensures BodyLength(plain + tail, false) == Ok(|plain| + BodyLength(tail, false).value)
  {
    if plain == "" {
      assert plain + tail == tail;
    } else {
      assert (plain + tail)[1..] == plain[1..] + tail;
      PlainLength(plain[1..], tail);
    }
  }

  /** A printed string, whatever follows it, is read back exactly when its control characters all have short escapes;
      and its extent is always found. */
  lemma PrintedStringReads(s: string, rest: string)
    ensures StringValue(Quoted(s) + rest) == if AllFriendly(s) then Ok(s) else Err(UnsupportedEscape('u'))
    ensures StringLength(Quoted(s) + rest) == Ok(|Quoted(s)|)
  {
    assert (Quoted(s) + rest)[1..] == EscapeAll(s) + [QUOTE] + rest;
    EscapedBody(s, rest);
    EscapedLength(s, rest);
  }

  // ---------------------------------------------------------------- lists

  ghost predicate Readable(values: seq<string>) {
    forall i :: 0 <= i < |values| ==> AllFriendly(values[i])
  }

  lemma QuotedStart(s: string, rest: string)
    ensures var t := Quoted(s) + rest; t != "" && t[0] == QUOTE && t[|Quoted(s)|..] == rest && DropSpace(t) == t
  {
  }

  lemma LastItem(value: string)
    ensures Items(Quoted(value)) == if AllFriendly(value) then Ok([value]) else Err(UnsupportedEscape('u'))
  {
    PrintedStringReads(value, "");
    QuotedStart(value, "");
    hide StringValue, StringLength, AllFriendly, Quoted;
    assert Quoted(value) + "" == Quoted(value);
  }

  lemma NextItem(value: string, next: string, rest: string)
    ensures Items(Quoted(value) + ("," + (Quoted(next) + rest)))
            == if AllFriendly(value) then Behind([value], Items(Quoted(next) + rest)) else Err(UnsupportedEscape('u'))
  {
    var tail := Quoted(next) + rest;
    var text, after := Quoted(value) + ("," + tail), "," + tail;
    hide StringLength, AllFriendly, Quoted;
    PrintedStringReads(value, after);
    QuotedStart(value, after);
    QuotedStart(next, rest);
    assert after[1..] == tail && DropSpace(after) == after;
    if AllFriendly(value) {
      assert StringValue(text) == Ok(value) && StringLength(text).Ok?;
      hide Items, StringValue, DropSpace;
      ItemsStep(text, after);
    }
  }

  lemma {:induction false} ItemsOfPrinted(values: seq<string>)
    ensures Items(JoinQuoted(values)) == if Readable(values) then Ok(values) else Err(UnsupportedEscape('u'))
    decreases |values|
  {
    if |values| == 1 {
      LastItem(values[0]);
      assert values == [values[0]];
    } else if values != [] {
      ItemsOfPrinted(values[1..]);
      var rest := StartsQuoted(values[1..]);
      NextItem(values[0], values[1], rest);
      hide Items, AllFriendly, Quoted, Readable;
      JoinedInTwo(values);
      hide JoinQuoted;
      ReadableInTwo(values);
      assert [values[0]] + values[1..] == values;
    }
  }

  lemma JoinedInTwo(values: seq<string>)
    requires |values| > 1
    ensures JoinQuoted(values) == Quoted(values[0]) + ("," + JoinQuoted(values[1..]))
  {
    hide Quoted;
    Regroup(Quoted(values[0]), ",", JoinQuoted(values[1..]));
  }

  lemma Regroup(a: string, b: string, c: string)
    ensures a + b + c == a + (b + c)
  {
  }

  lemma ReadableInTwo(values: seq<string>)
    requires values != []
    ensures Readable(values) <==> AllFriendly(values[0]) && Readable(values[1..])
  {
    hide AllFriendly;
    assert values == [values[0]] + values[1..];
  }

  lemma StartsQuoted(values: seq<string>) returns (rest: string)
    requires values != []
    ensures JoinQuoted(values) == Quoted(values[0]) + rest
  {
    hide Quoted;
    if |values| == 1 {
      rest := "";
    } else {
      rest := "," + JoinQuoted(values[1..]);
    }
    assert Quoted(values[0]) + rest == JoinQuoted(values);
  }

  // ---------------------------------------------------------------- nesting

  lemma {:induction false} LexConcat(l: Lex, a: string, b: string, open: char, close: char)
    ensures LexAll(l, a + b, open, close) == LexAll(LexAll(l, a, open, close), b, open, close)
    decreases |b|
  {
    if b == "" {
      assert a + b == a;
    } else {
      LexConcat(l, a, b[..|b| - 1], open, close);
      assert (a + b)[..|a + b| - 1] == a + b[..|b| - 1];
    }
  }

  /** Scanning `s` at depth `d` outside strings comes back to where it was without the depth ever changing. */
  ghost predicate Flat(s: string, inString: bool, out: bool, d: int, open: char, close: char) {
    && LexAll(Lex(d, inString, false), s, open, close) == Lex(d, out, false)
    && forall k :: 0 <= k <= |s| ==> LexAll(Lex(d, inString, false), s[..k], open, close).depth == d
  }

  lemma FlatConcat(a: string, b: string, x: bool, y: bool, z: bool, d: int, open: char, close: char)
    requires Flat(a, x, y, d, open, close)
    requires Flat(b, y, z, d, open, close)
    ensures Flat(a + b, x, z, d, open, close)
  {
    hide LexAll;
    LexConcat(Lex(d, x, false), a, b, open, close);
    forall k | 0 <= k <= |a + b| ensures LexAll(Lex(d, x, false), (a + b)[..k], open, close).depth == d {
      if k <= |a| {
        assert (a + b)[..k] == a[..k];
      } else {
        assert (a + b)[..k] == a + b[..k - |a|];
        LexConcat(Lex(d, x, false), a, b[..k - |a|], open, close);
      }
    }
  }

  lemma FlatChar(c: char, x: bool, y: bool, d: int, open: char, close: char)
    requires LexStep(Lex(d, x, false), c, open, close) == Lex(d, y, false)
    ensures Flat([c], x, y, d, open, close)
  {
    assert [c][..0] == "" && [c][..1] == [c];
  }

  lemma FlatPair(c: char, d: int, open: char, close: char)
    ensures Flat([BACKSLASH, c], true, true, d, open, close)
  {
    var s := [BACKSLASH, c];
    assert s[..1] == [BACKSLASH] && s[..2] == s && s[..1][..0] == "";
    assert LexAll(Lex(d, true, false), s[..1], open, close) == Lex(d, true, true);
  }

  lemma {:induction false} FlatPlain(s: string, d: int, open: char, close: char)
    requires forall i :: 0 <= i < |s| ==> s[i] != QUOTE && s[i] != BACKSLASH
    ensures Flat(s, true, true, d, open, close)
    decreases |s|
  {
    if s != "" {
      FlatPlain(s[1..], d, open, close);
      FlatChar(s[0], true, true, d, open, close);
      FlatConcat([s[0]], s[1..], true, true, true, d, open, close);
      assert s == [s[0]] + s[1..];
    }
  }

  lemma FlatEscape(c: char, d: int, open: char, close: char)
    ensures Flat(Escape(c), true, true, d, open, close)
  {
    var e := Escape(c);
    hide Flat;
    if |e| == 1 {
      FlatChar(c, true, true, d, open, close);
    } else {
      FlatPair(e[1], d, open, close);
      FlatPlain(e[2..], d, open, close);
      FlatConcat([BACKSLASH, e[1]], e[2..], true, true, true, d, open, close);
      assert e == [BACKSLASH, e[1]] + e[2..];
    }
  }

  lemma {:induction false} FlatEscapeAll(s: string, d: int, open: char, close: char)
    ensures Flat(EscapeAll(s), true, true, d, open, close)
  {
    if s == "" {
      FlatPlain("", d, open, close);
    } else {
      FlatEscape(s[0], d, open, close);
      FlatEscapeAll(s[1..], d, open, close);
      FlatConcat(Escape(s[0]), EscapeAll(s[1..]), true, true, true, d, open, close);
    }
  }

  /** Brackets, quotes and backslashes inside a printed string never move the nesting depth. */
  lemma PrintedStringIsFlat(s: string, d: int, open: char, close: char)
    requires open != QUOTE && close != QUOTE
    ensures Flat(Quoted(s), false, false, d, open, close)
  {
    hide Flat;
    FlatEscapeAll(s, d, open, close);
    FlatChar(QUOTE, false, true, d, open, close);
    FlatChar(QUOTE, true, false, d, open, close);
    FlatConcat([QUOTE], EscapeAll(s), false, true, true, d, open, close);
    FlatConcat([QUOTE] + EscapeAll(s), [QUOTE], false, true, false, d, open, close);
  }

  lemma {:induction false} PrintedItemsAreFlat(values: seq<string>, d: int)
    ensures Flat(JoinQuoted(values), false, false, d, '[', ']')
    decreases |values|
  {
    hide Flat;
    if values == [] {
      FlatNothing(d);
    } else {
      PrintedStringIsFlat(values[0], d, '[', ']');
      if |values| > 1 {
        PrintedItemsAreFlat(values[1..], d);
        FlatChar(',', false, false, d, '[', ']');
        FlatConcat(Quoted(values[0]), ",", false, false, false, d, '[', ']');
        FlatConcat(Quoted(values[0]) + ",", JoinQuoted(values[1..]), false, false, false, d, '[', ']');
      }
    }
  }

  lemma FlatNothing(d: int)
    ensures Flat("", false, false, d, '[', ']')
  {
  }

  /** The bracket that opens a printed array is matched by the array's own last bracket. */
  lemma PrintedArrayCloses(values: seq<string>, rest: string)
    ensures ClosesAt(PrintedArray(values) + rest, 0, '[', ']') == Some(|PrintedArray(values)| - 1)
  {
    var body := JoinQuoted(values);
    var text := PrintedArray(values) + rest;
    var l := Lex(0, false, false);
    LexOne(l, '[');
    PrintedItemsAreFlat(values, 1);
    hide LexAll;
    forall k: nat | k <= |body| ensures !BalancedBehind(text, k, '[', ']') {
      assert text[..k + 1] == "[" + body[..k];
      LexConcat(l, "[", body[..k], '[', ']');
    }
    LexConcat(l, "[", body, '[', ']');
    LexConcat(l, "[" + body, "]", '[', ']');
    LexOne(Lex(1, false, false), ']');
    assert text[..|body| + 2] == "[" + body + "]";
    assert BalancedBehind(text, |body| + 1, '[', ']');
    hide BalancedBehind;
    assert ClosesAt(text, 0, '[', ']').Some?;
  }

  lemma LexOne(l: Lex, c: char)
    ensures LexAll(l, [c], '[', ']') == LexStep(l, c, '[', ']')
  {
    assert [c][..0] == "";
  }

  // ---------------------------------------------------------------- the round trip

  /** Between the first quoted key of the document and place `colon` there is no colon. */
  predicate NoColonBetween(document: string, key: string, colon: nat) {
    var quoted := [QUOTE] + key + [QUOTE];
    var first := Find(document, quoted);
    first.Some? && first.value + |quoted| <= colon <= |document| && ':' !in document[first.value + |quoted|..colon]
  }

  /** A document with a field in it: what is before, the quoted key, a gap, the colon, white space, the rest. */
  function Document(pre: string, key: string, gap: string, space: string, text: string): string {
    pre + ([QUOTE] + key + [QUOTE]) + gap + ":" + space + text
  }

  /** Where the colon of that field is. */
  function ColonAt(pre: string, key: string, gap: string): nat {
    |pre| + |key| + 2 + |gap|
  }

  ghost predicate FieldShape(gap: string, space: string, text: string) {
    && ':' !in gap && (forall i :: 0 <= i < |space| ==> IsAsciiSpace(space[i]))
    && text != "" && !IsAsciiSpace(text[0])
  }

  lemma FieldParts(pre: string, key: string, gap: string, space: string, text: string)
    ensures var document, colon := Document(pre, key, gap, space, text), ColonAt(pre, key, gap);
      var quoted := [QUOTE] + key + [QUOTE];
      && OccursAt(document, quoted, |pre|)
      && |document| == colon + 1 + |space| + |text|
      && document[colon] == ':' && document[colon + 1..] == space + text
      && document[|pre| + |quoted|..colon] == gap
  {
  }

  /** Exactly when the scanner finds a field's value: whatever stands around the field, also the quoted key itself
      elsewhere, the text read as its value is the field's own if and only if no colon stands between the first quoted
      key of the document and the field's colon. */
  lemma ValueTextExactly(pre: string, key: string, gap: string, space: string, text: string)
    requires FieldShape(gap, space, text)
    ensures var document := Document(pre, key, gap, space, text);
      ValueText(document, key) == Some(text) <==> NoColonBetween(document, key, ColonAt(pre, key, gap))
  {
    var document, colon := Document(pre, key, gap, space, text), ColonAt(pre, key, gap);
    var quoted := [QUOTE] + key + [QUOTE];
    FieldParts(pre, key, gap, space, text);
    hide Document, OccursAt, Find, ValueText;
    FindAtMost(document, quoted, |pre|);
    var from := Find(document, quoted).value + |quoted|;
    if NoColonBetween(document, key, colon) {
      OwnColonRead(document, key, from, colon, space, text);
    } else {
      OtherColonRead(document, key, from, colon, text);
    }
  }

  lemma FindAtMost(s: string, pattern: string, at: nat)
    requires OccursAt(s, pattern, at)
    ensures Find(s, pattern).Some? && Find(s, pattern).value <= at
  {
  }

  lemma OwnColonRead(document: string, key: string, from: nat, colon: nat, space: string, text: string)
    requires var quoted := [QUOTE] + key + [QUOTE];
      Find(document, quoted).Some? && from == Find(document, quoted).value + |quoted|
    requires from <= colon < |document| && document[colon] == ':' && ':' !in document[from..colon]
    requires document[colon + 1..] == space + text && FieldShape("", space, text)
    ensures ValueText(document, key) == Some(text)
  {
    hide Find;
    var rest := document[from..];
    assert rest == document[from..colon] + ":" + document[colon + 1..];
    FindColon(document[from..colon], document[colon + 1..]);
    assert rest[colon - from + 1..] == document[colon + 1..];
    DropSpaceOf(space, text);
  }

  lemma OtherColonRead(document: string, key: string, from: nat, colon: nat, text: string)
    requires var quoted := [QUOTE] + key + [QUOTE];
      Find(document, quoted).Some? && from == Find(document, quoted).value + |quoted|
    requires from <= colon < |document| && document[colon] == ':' && ':' in document[from..colon]
    requires |text| < |document| - colon
    ensures ValueText(document, key) != Some(text)
  {
    hide Find;
    var rest, own := document[from..], ":" + document[colon + 1..];
    assert rest == document[from..colon] + own && own[0] == ':';
    var k := FirstColon(document[from..colon], document[colon + 1..]);
    assert rest == document[from..colon] + ":" + document[colon + 1..];
    assert rest[k + 1..] == document[from..colon][k + 1..] + own;
    DropSpaceKeeps(document[from..colon][k + 1..], own);
  }

  lemma FirstColon(a: string, b: string) returns (k: nat)
    requires ':' in a
    ensures k < |a| && Find(a + ":" + b, ":") == Some(k)
  {
    var s := a + ":" + b;
    var at: nat :| at < |a| && a[at] == ':';
    assert s[at..at + 1] == ":";
    hide OccursAt;
    FindAtMost(s, ":", at);
    k := Find(s, ":").value;
  }

  /** White space is only dropped in front of the first character that is none. */
  lemma {:induction false} DropSpaceKeeps(a: string, b: string)
    requires b != "" && !IsAsciiSpace(b[0])
    ensures |DropSpace(a + b)| >= |b|
    decreases |a|
  {
    if a == "" {
      assert a + b == b;
    } else {
      assert (a + b)[1..] == a[1..] + b;
      DropSpaceKeeps(a[1..], b);
    }
  }

  lemma FindColon(gap: string, rest: string)
    requires ':' !in gap
    ensures Find(gap + ":" + rest, ":") == Some(|gap|)
  {
    var s := gap + ":" + rest;
    assert OccursAt(s, ":", |gap|);
    forall k: nat | k < |gap| ensures !OccursAt(s, ":", k) {
      assert s[k..k + 1][0] == gap[k];
    }
    hide OccursAt;
  }

  lemma {:induction false} DropSpaceOf(space: string, text: string)
    requires forall i :: 0 <= i < |space| ==> IsAsciiSpace(space[i])
    requires text != "" && !IsAsciiSpace(text[0])
    ensures DropSpace(space + text) == text
  {
    if space == "" {
      assert space + text == text;
    } else {
      assert (space + text)[1..] == space[1..] + text;
      DropSpaceOf(space[1..], text);
    }
  }

  /** The list round trip, on every list: the printed array that stands as the value of a field reads back as the same
      list, whatever follows it, exactly when every control character of every string has a short escape; with any other
      control character the scanner refuses its own printer's escape. The only condition on the document is the exact
      one of `ValueTextExactly`. */
  lemma ListRoundTrip(pre: string, key: string, gap: string, space: string, values: seq<string>, post: string)
    requires FieldShape(gap, space, PrintedArray(values) + post)
    requires NoColonBetween(Document(pre, key, gap, space, PrintedArray(values) + post), key, ColonAt(pre, key, gap))
    ensures ListField(Document(pre, key, gap, space, PrintedArray(values) + post), key)
            == if Readable(values) then Ok(values) else Err(UnsupportedEscape('u'))
  {
    var text := PrintedArray(values) + post;
    var end := |PrintedArray(values)| - 1;
    hide Find, ClosesAt, Items, Readable, ValueText, Document, NoColonBetween;
    ValueTextExactly(pre, key, gap, space, text);
    PrintedArrayCloses(values, post);
    assert text[1..end] == JoinQuoted(values);
    ItemsOfPrinted(values);
    assert JoinQuoted(values) == "" || JoinQuoted(values)[0] == QUOTE;
    assert DropSpace(JoinQuoted(values)) == JoinQuoted(values);
  }

  /** If the field's own key comes first the condition holds. */
  lemma FirstKeyIsOwn(pre: string, key: string, gap: string, space: string, text: string)
    requires FieldShape(gap, space, text)
    requires Find(Document(pre, key, gap, space, text), [QUOTE] + key + [QUOTE]) == Some(|pre|)
    ensures NoColonBetween(Document(pre, key, gap, space, text), key, ColonAt(pre, key, gap))
  {
    FieldParts(pre, key, gap, space, text);
    hide Document;
  }

  /** A document that starts with the key needs no hypothesis at all. */
  lemma FirstFieldRoundTrip(key: string, values: seq<string>, post: string)
    ensures ListField(Document("{", key, "", "", PrintedArray(values) + post), key) == Ok(values) <==> Readable(values)
  {
    var quoted, text := [QUOTE] + key + [QUOTE], PrintedArray(values) + post;
    var input := Document("{", key, "", "", text);
    FieldParts("{", key, "", "", text);
    assert input[0..|quoted|][0] == '{';
    assert !OccursAt(input, quoted, 0);
    hide Find, ListField, Readable, Document, OccursAt;
    FirstKeyIsOwn("{", key, "", "", text);
    ListRoundTrip("{", key, "", "", values, post);
  }

  /** The other side of the condition is met: when an earlier list holds the key's own name as a string and another
      field lies between, the scanner takes that other field's list. */
  lemma EarlierValueMisread(ys: seq<string>, xs: seq<string>)
    requires Readable(ys)
    ensures var document := "{\"a\":[\"k\"],\"b\":" + PrintedArray(ys) + ",\"k\":" + PrintedArray(xs) + "}";
      ListField(document, "k") == Ok(ys)
  {
    hide Readable, ListField, OccursAt, Find, PrintedArray, Document;
    var pre, gap, post := "{\"a\":[", "],\"b\"", ",\"k\":" + PrintedArray(xs) + "}";
    MisreadShape(PrintedArray(ys), PrintedArray(xs));
    PrintedStarts(ys, post);
    FirstAtSix(Document(pre, "k", gap, "", PrintedArray(ys) + post));
    FirstKeyIsOwn(pre, "k", gap, "", PrintedArray(ys) + post);
    ListRoundTrip(pre, "k", gap, "", ys, post);
  }

  lemma PrintedStarts(values: seq<string>, post: string)
    ensures var text := PrintedArray(values) + post; text != "" && !IsAsciiSpace(text[0])
  {
    hide JoinQuoted;
  }

  lemma MisreadShape(ys: string, xs: string)
    ensures var post := ",\"k\":" + xs + "}";
      var document := Document("{\"a\":[", "k", "],\"b\"", "", ys + post);
      && document == "{\"a\":[\"k\"],\"b\":" + ys + ",\"k\":" + xs + "}"
      && |document| >= 9 && document[..9] == "{\"a\":[" + ([QUOTE] + "k" + [QUOTE])
  {
    var start, post := "{\"a\":[" + ([QUOTE] + "k" + [QUOTE]), ",\"k\":" + xs + "}";
    var document := Document("{\"a\":[", "k", "],\"b\"", "", ys + post);
    assert document == start + ("],\"b\":" + ys + post);
    assert document[..9] == start;
    assert document == "{\"a\":[\"k\"],\"b\":" + (ys + post);
  }

  lemma FirstAtSix(document: string)
    requires |document| >= 9 && document[..9] == "{\"a\":[" + ([QUOTE] + "k" + [QUOTE])
    ensures Find(document, [QUOTE] + "k" + [QUOTE]) == Some(6)
  {
    var quoted, start := [QUOTE] + "k" + [QUOTE], "{\"a\":[" + ([QUOTE] + "k" + [QUOTE]);
    assert document[6..9] == document[..9][6..9] == quoted;
    assert OccursAt(document, quoted, 6);
    forall k: nat | k < 6 ensures !OccursAt(document, quoted, k) {
      if k + 3 <= |document| {
        var piece := document[k..k + 3];
        assert piece[0] == start[k] && piece[1] == start[k + 1];
        assert quoted[0] == QUOTE && quoted[1] == 'k';
      }
    }
    hide OccursAt;
  }

  /** A list with any other control character is refused, at the printer's own escape. */
  lemma ControlCharacterRefused(key: string, c: char, post: string)
    requires !Friendly(c)
    ensures ListField(Document("{", key, "", "", PrintedArray([[c]]) + post), key) != Ok([[c]])
  {
    assert [[c]][0][0] == c;
    assert !AllFriendly([[c]][0]);
    hide ListField, PrintedArray, Document;
    FirstFieldRoundTrip(key, [[c]], post);
  }
}
