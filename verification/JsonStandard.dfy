/** The printer and the scanner against the standard: strings of section 7 of RFC 8259, read by a decoder of their own;
    and what the scanner makes of texts the printer never writes. */
module JsonStandard {
  import opened Common
  import opened JsonStrings

  // ---------------------------------------------------------------- the standard

  function HexCode(c: char): Option<nat> {
    var n := c as int;
    if 48 <= n <= 57 then Some(n - 48)
    else if 97 <= n <= 102 then Some(n - 87)
    else if 65 <= n <= 70 then Some(n - 55)
    else None
  }

  /** The sixteen-bit unit four hexadecimal digits spell. */
  function CodeUnit(digits: string): Option<nat> {
    if |digits| != 4 then None
    else
      match (HexCode(digits[0]), HexCode(digits[1]), HexCode(digits[2]), HexCode(digits[3]))
      case (Some(a), Some(b), Some(c), Some(d)) => Some(4096 * a + 256 * b + 16 * c + d)
      case _ => None
  }

  function CodeChar(digits: string): Option<char> {
    var n := CodeUnit(digits);
    if n.None? || 0xD800 <= n.value < 0xE000 || n.value >= 0x1_0000 then None else Some(n.value as char)
  }

  /** What a two-character escape stands for. */
  function ShortEscape(c: char): Option<char> {
    if c == '"' || c == '\\' || c == '/' then Some(c)
    else if c == 'b' then Some(8 as char)
    else if c == 'f' then Some(12 as char)
    else if c == 'n' then Some(10 as char)
    else if c == 'r' then Some(13 as char)
    else if c == 't' then Some(9 as char)
    else None
  }

  function Front(c: char, rest: Option<string>): Option<string> {
    if rest.Some? then Some([c] + rest.value) else None
  }

  /** The string between the quotes, or None when the text is not one. Escaped surrogates, which the printer never
      writes, are left out. */
  function Standard(s: string): Option<string>
    decreases |s|
  {
    if s == "" then Some("")
    else if s[0] == '\\' then
      if |s| >= 6 && s[1] == 'u' then
        var c := CodeChar(s[2..6]);
        if c.Some? then Front(c.value, Standard(s[6..])) else None
      else if |s| >= 2 && ShortEscape(s[1]).Some? then Front(ShortEscape(s[1]).value, Standard(s[2..]))
      else None
    else if s[0] == '"' || s[0] as int < 0x20 then None
    else Front(s[0], Standard(s[1..]))
  }

  // ---------------------------------------------------------------- the printer

  /** Exactly the quote, the backslash and the control characters of both blocks are escaped. */
  lemma EscapedExactly(c: char)
    ensures Escape(c) == [c] <==> c != '"' && c != '\\' && !(c as int <= 0x1F || 0x7F <= c as int <= 0x9F)
  {
  }

  lemma DigitCode(n: nat)
    requires n < 16
    ensures HexCode(LowerHexDigit(n)) == Some(n)
  {
  }

  /** A standard reader reads one printed character back. */
  lemma StandardReadsChar(c: char, tail: string)
    ensures Standard(Escape(c) + tail) == Front(c, Standard(tail))
  {
    var s := Escape(c) + tail;
    if |Escape(c)| == 6 {
      DigitCode(c as int / 16);
      DigitCode(c as int % 16);
      DigitCode(0);
      assert s[2..6] == ['0', '0', LowerHexDigit(c as int / 16), LowerHexDigit(c as int % 16)] && s[6..] == tail;
      hide LowerHexDigit, HexCode, IsControl;
      assert CodeUnit(s[2..6]) == Some(c as int);
    } else if |Escape(c)| == 2 {
      assert s[2..] == tail && s[1] != 'u';
    } else {
      assert s[1..] == tail;
    }
  }

  /** Whatever the string: a standard reader gets exactly it from what the printer puts between the quotes, the digits
      of a control character's escape included. */
  lemma {:induction false} StandardReadsPrinted(s: string)
    ensures Standard(EscapeAll(s)) == Some(s)
    decreases |s|
  {
    hide Escape, Standard;
    if s != "" {
      StandardReadsPrinted(s[1..]);
      StandardReadsChar(s[0], EscapeAll(s[1..]));
      assert s == [s[0]] + s[1..];
    } else {
      NothingIsRead();
    }
  }

  lemma NothingIsRead()
    ensures Standard("") == Some("")
  {
  }

  // ---------------------------------------------------------------- the scanner

  /** The escapes the scanner reads are six, and it reads them as the standard does. */
  lemma UnescapeExactly(c: char)
    ensures Unescape(c).Some? <==> c == '"' || c == '\\' || c == '/' || c == 'n' || c == 'r' || c == 't'
    ensures Unescape(c).Some? ==> Unescape(c) == ShortEscape(c)
  {
  }

  /** What the scanner reads without raw control characters is what a standard reader reads. */
  lemma {:induction false} ScannerIsStandard(body: string, value: string)
    requires Spells(body, value) && forall i :: 0 <= i < |body| ==> body[i] as int >= 0x20
    ensures Standard(body) == Some(value)
    decreases |body|
  {
    if body != "" {
      if body[0] == BACKSLASH {
        UnescapeExactly(body[1]);
        ScannerIsStandard(body[2..], value[1..]);
      } else {
        ScannerIsStandard(body[1..], value[1..]);
      }
      assert value == [value[0]] + value[1..];
    }
  }

  /** The text goes on as a spelling up to place `n`. */
  ghost predicate SpelledUpTo(s: string, n: nat, value: string) {
    n <= |s| && Spells(s[..n], value)
  }

  lemma {:induction false} BodyErrors(s: string) returns (n: nat, value: string)
    requires BodyValue(s, false).Err?
    ensures SpelledUpTo(s, n, value)
    ensures BodyValue(s, false) == Err(StringNotClosed) ==> n == |s| || (n + 1 == |s| && s[n] == BACKSLASH)
    ensures BodyValue(s, false) != Err(StringNotClosed) ==>
      n + 1 < |s| && s[n] == BACKSLASH && Unescape(s[n + 1]).None?
      && BodyValue(s, false) == Err(UnsupportedEscape(s[n + 1]))
    decreases |s|
  {
    if s == "" {
      n, value := 0, "";
    } else if s[0] == BACKSLASH {
      if |s| == 1 || Unescape(s[1]).None? {
        n, value := 0, "";
        assert s[..0] == "";
      } else {
        assert s[1..][1..] == s[2..];
        var m, v := BodyErrors(s[2..]);
        n, value := m + 2, [Unescape(s[1]).value] + v;
        assert s[..n][2..] == s[2..][..m] && value[1..] == v;
      }
    } else {
      var m, v := BodyErrors(s[1..]);
      n, value := m + 1, [s[0]] + v;
      assert s[..n][1..] == s[1..][..m] && value[1..] == v;
    }
  }

  /** Why a text is no string: it does not start with a quote, or goes on as a spelling up to its end or a last lone
      backslash, or goes on as one up to an escape that is not read, and that one is named. */
  lemma StringErrors(s: string)
    requires StringValue(s).Err?
    ensures s == "" || s[0] != '"' ==> StringValue(s) == Err(ExpectedString)
    ensures s != "" && s[0] == '"' ==>
      exists n: nat, value :: SpelledUpTo(s[1..], n, value) &&
        (if StringValue(s) == Err(StringNotClosed) then n + 1 == |s| || (n + 2 == |s| && s[n + 1] == '\\')
         else n + 2 < |s| && s[n + 1] == '\\' && Unescape(s[n + 2]).None?
              && StringValue(s) == Err(UnsupportedEscape(s[n + 2])))
  {
    if s != "" && s[0] == '"' {
      var n, value := BodyErrors(s[1..]);
      assert SpelledUpTo(s[1..], n, value);
    }
  }

  /** The extent of a string is up to its own closing quote, and is refused for the reason its value is: no quote at the
      start, or none at the end. */
  lemma StringLengthExactly(s: string)
    ensures StringLength(s) == Err(ExpectedString) <==> s == "" || s[0] != '"'
    ensures StringLength(s).Err? && StringLength(s) != Err(ExpectedString) ==> StringLength(s) == Err(StringNotClosed)
    ensures StringValue(s).Ok? ==> StringLength(s).Ok? && StartsSpelled(s, StringLength(s).value, StringValue(s).value)
  {
    if s != "" && s[0] == '"' {
      BodyLengthErrors(s[1..], false);
      if StringValue(s).Ok? {
        BodyLengthExactly(s[1..]);
        var n := StringLength(s).value;
        assert s[1..][..n - 2] == s[1..n - 1];
      }
    }
  }

  lemma {:induction false} BodyLengthErrors(s: string, escaped: bool)
    ensures BodyLength(s, escaped).Err? ==> BodyLength(s, escaped) == Err(StringNotClosed)
    decreases |s|
  {
    if s != "" && (escaped || s[0] != QUOTE) { BodyLengthErrors(s[1..], !escaped && s[0] == BACKSLASH); }
  }

  /** The first character, or pair, of a string's text that can be read. */
  lemma ValueStep(s: string)
    requires BodyValue(s, false).Ok?
    ensures s != ""
    ensures s[0] == QUOTE ==> BodyValue(s, false) == Ok("")
    ensures s[0] == BACKSLASH ==>
      && |s| >= 2 && Unescape(s[1]).Some?
      && BodyValue(s, false) == Behind([Unescape(s[1]).value], BodyValue(s[2..], false))
    ensures s[0] != QUOTE && s[0] != BACKSLASH ==> BodyValue(s, false) == Behind([s[0]], BodyValue(s[1..], false))
  {
    hide Unescape, Behind;
    if s != "" && s[0] == BACKSLASH {
      assert BodyValue(s, false) == BodyValue(s[1..], true);
      if |s| >= 2 { assert s[1..][1..] == s[2..]; }
    }
  }

  lemma LengthSteps(s: string)
    requires s != ""
    ensures s[0] == QUOTE ==> BodyLength(s, false) == Ok(1)
    ensures s[0] == BACKSLASH && |s| >= 2 ==> BodyLength(s, false) == Longer(BodyLength(s[2..], false), 2)
    ensures s[0] != QUOTE && s[0] != BACKSLASH ==> BodyLength(s, false) == Longer(BodyLength(s[1..], false), 1)
  {
    if s[0] == QUOTE {
      OnlyQuote(s);
    } else {
      OneLonger(s, false);
      if s[0] == BACKSLASH && |s| >= 2 {
        assert s[1..][1..] == s[2..];
        OneLonger(s[1..], true);
      }
    }
    hide BodyLength;
  }

  lemma OnlyQuote(s: string)
    requires s != "" && s[0] == QUOTE
    ensures BodyLength(s, false) == Ok(1)
  {
  }

  lemma OneLonger(s: string, escaped: bool)
    requires s != "" && (escaped || s[0] != QUOTE)
    ensures BodyLength(s, escaped) == Longer(BodyLength(s[1..], !escaped && s[0] == BACKSLASH), 1)
  {
  }

  function Longer(r: Result<nat, ScanError>, n: nat): Result<nat, ScanError> {
    if r.Ok? then Ok(r.value + n) else r
  }

  lemma {:induction false} BodyLengthExactly(s: string)
    requires BodyValue(s, false).Ok?
    ensures BodyLength(s, false).Ok? && s[BodyLength(s, false).value - 1] == QUOTE
    ensures Spells(s[..BodyLength(s, false).value - 1], BodyValue(s, false).value)
    decreases |s|
  {
    hide BodyLength, BodyValue;
    ValueStep(s);
    LengthSteps(s);
    var k := if s[0] == QUOTE then 0 else if s[0] == BACKSLASH then 2 else 1;
    if k == 0 {
      assert s[..0] == "";
    } else {
      BodyLengthExactly(s[k..]);
      var m, value := BodyLength(s[k..], false).value, BodyValue(s[k..], false).value;
      assert s[..m + k - 1][k..] == s[k..][..m - 1];
      assert BodyValue(s, false).value[1..] == value;
    }
  }

  // ---------------------------------------------------------------- stray commas

  /** A comma, or white space as ASCII has it: tab, line feed, form feed, carriage return, space. */
  predicate GapChar(c: char) {
    var n := c as int;
    n == 44 || n == 9 || n == 10 || n == 12 || n == 13 || n == 32
  }

  predicate Gap(gap: string) {
    forall i :: 0 <= i < |gap| ==> GapChar(gap[i])
  }

  lemma {:induction false} GapSkipped(gap: string, rest: string)
    requires Gap(gap) && (rest == "" || !GapChar(rest[0]))
    ensures Items(DropSpace(gap + rest)) == Items(rest)
    decreases |gap|
  {
    var s := gap + rest;
    if gap == "" {
      assert s == rest;
    } else {
      assert s[1..] == gap[1..] + rest;
      GapSkipped(gap[1..], rest);
      hide Items;
      if s[0] == ',' { ItemsEdges(s); }
    }
  }

  /** A gap with a comma is space, a comma, and a gap. */
  lemma {:induction false} GapFromComma(gap: string, rest: string) returns (k: nat)
    requires Gap(gap) && ',' in gap
    ensures k < |gap| && gap[k] == ',' && DropSpace(gap + rest) == gap[k..] + rest
    decreases |gap|
  {
    assert (gap + rest)[1..] == gap[1..] + rest;
    if gap[0] == ',' {
      k := 0;
      assert gap[0..] == gap;
    } else {
      assert gap == [gap[0]] + gap[1..];
      var j := GapFromComma(gap[1..], rest);
      k := j + 1;
      assert gap[k..] == gap[1..][j..];
    }
  }

  /** The texts of some strings, each behind a gap, with a gap at the end. */
  function Gapped(values: seq<string>, gaps: seq<string>): string
    requires |gaps| == |values| + 1
  {
    if values == [] then gaps[0] else gaps[0] + (Quoted(values[0]) + Gapped(values[1..], gaps[1..]))
  }

  lemma OneGapped(value: string, gap: string, rest: string)
    requires AllFriendly(value) && Gap(gap) && (',' in gap || rest == "") && (rest == "" || !GapChar(rest[0]))
    ensures Items(Quoted(value) + (gap + rest)) == Behind([value], Items(rest))
  {
    var text, after := Quoted(value) + (gap + rest), gap + rest;
    PrintedStringReads(value, after);
    QuotedStart(value, after);
    hide Quoted, AllFriendly, StringValue, StringLength;
    if ',' in gap {
      var k := GapFromComma(gap, rest);
      var tail := gap[k..] + rest;
      assert tail[1..] == gap[k + 1..] + rest;
      GapSkipped(gap[k + 1..], rest);
      hide Items, DropSpace;
      ItemsStep(text, DropSpace(after));
    } else {
      SpaceDropped(gap);
      assert gap + rest == gap;
      hide Items, DropSpace;
      ItemsStep(text, DropSpace(after));
      ItemsEdges("");
      assert Behind([value], Ok([])) == Ok([value]) by { assert [value] + [] == [value]; }
    }
  }

  lemma {:induction false} SpaceDropped(gap: string)
    requires Gap(gap) && ',' !in gap
    ensures DropSpace(gap) == ""
    decreases |gap|
  {
    if gap != "" {
      assert gap == [gap[0]] + gap[1..];
      SpaceDropped(gap[1..]);
    }
  }

  /** Commas and white space around and between the strings do not matter, as long as a comma stands between any two:
      leading, trailing and doubled commas are skipped. */
  lemma {:induction false} StrayCommasSkipped(values: seq<string>, gaps: seq<string>)
    requires |gaps| == |values| + 1 && Readable(values) && forall i :: 0 <= i < |gaps| ==> Gap(gaps[i])
    requires forall i :: 0 < i < |values| ==> ',' in gaps[i]
    ensures Items(DropSpace(Gapped(values, gaps))) == Ok(values)
    decreases |values|
  {
    hide Items, DropSpace, Quoted, AllFriendly;
    ItemsEdges("");
    if values == [] {
      GapSkipped(gaps[0], "");
      assert gaps[0] + "" == gaps[0];
    } else {
      var last := if |values| == 1 then "" else Quoted(values[1]) + Gapped(values[2..], gaps[2..]);
      var behind := Gapped(values[1..], gaps[1..]);
      StrayCommasSkipped(values[1..], gaps[1..]);
      GapAndRest(values, gaps);
      assert behind == gaps[1] + last;
      NotGap(values, gaps, last);
      GapSkipped(gaps[1], last);
      OneGapped(values[0], gaps[1], last);
      NotGap(values, gaps, Quoted(values[0]) + behind);
      GapSkipped(gaps[0], Quoted(values[0]) + behind);
      assert [values[0]] + values[1..] == values;
    }
  }

  lemma GapAndRest(values: seq<string>, gaps: seq<string>)
    requires |gaps| == |values| + 1 && values != []
    ensures Gapped(values[1..], gaps[1..]) ==
      gaps[1] + if |values| == 1 then "" else Quoted(values[1]) + Gapped(values[2..], gaps[2..])
  {
    hide Quoted;
    if |values| > 1 {
      assert values[1..][1..] == values[2..] && gaps[1..][1..] == gaps[2..];
    } else {
      assert gaps[1] + "" == gaps[1];
    }
  }

  lemma NotGap(values: seq<string>, gaps: seq<string>, text: string)
    requires text == "" || exists s: string, rest: string :: text == Quoted(s) + rest
    ensures text == "" || !GapChar(text[0])
  {
  }

  /** Between two strings without a comma the scanner stops. */
  lemma MissingComma(value: string, space: string, rest: string)
    requires AllFriendly(value) && Gap(space) && ',' !in space && rest != "" && !GapChar(rest[0])
    ensures Items(Quoted(value) + (space + rest)) == Err(ExpectedComma)
  {
    var text, after := Quoted(value) + (space + rest), space + rest;
    PrintedStringReads(value, after);
    QuotedStart(value, after);
    SpaceInFront(space, rest);
    hide Quoted, AllFriendly, StringValue, StringLength, Items, DropSpace;
    ItemsStep(text, rest);
  }

  lemma {:induction false} SpaceInFront(space: string, rest: string)
    requires Gap(space) && ',' !in space && rest != "" && !GapChar(rest[0])
    ensures DropSpace(space + rest) == rest
    decreases |space|
  {
    if space == "" {
      assert space + rest == rest;
    } else {
      assert (space + rest)[1..] == space[1..] + rest;
      assert space == [space[0]] + space[1..];
      SpaceInFront(space[1..], rest);
    }
  }

  // ---------------------------------------------------------------- the field as a whole

  /** A field that is not there is an empty list: its quoted key does not occur, or no colon stands anywhere behind the
      first place where it does. */
  lemma MissingFieldIsEmpty(input: string, key: string)
    requires forall k: nat :: OccursAt(input, [QUOTE] + key + [QUOTE], k) ==> ':' !in input[k + |key| + 2..]
    ensures ListField(input, key) == Ok([])
  {
    var pattern := [QUOTE] + key + [QUOTE];
    var at := Find(input, pattern);
    if at.Some? {
      assert |pattern| == |key| + 2 && OccursAt(input, pattern, at.value);
      NoColon(input[at.value + |pattern|..]);
    }
    hide OccursAt, DropSpace, Items, ClosesAt;
  }

  lemma NoColon(rest: string)
    requires ':' !in rest
    ensures Find(rest, ":").None?
  {
    forall k: nat ensures !OccursAt(rest, ":", k) {
      if k < |rest| { assert rest[k] in rest; }
    }
  }

  /** A field whose value is no list is refused, and so is a list that is not closed. */
  lemma FieldRefused(input: string, key: string)
    requires ValueText(input, key).Some?
    ensures var text := ValueText(input, key).value;
      && (text == "" || text[0] != '[' ==> ListField(input, key) == Err(NotAnArray))
      && (text != "" && text[0] == '[' && (forall k: nat :: !BalancedBehind(text, k, '[', ']')) ==>
            ListField(input, key) == Err(ArrayNotClosed))
  {
    hide ValueText, Items, BalancedBehind;
  }
}
