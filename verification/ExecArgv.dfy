/** Command-line capture: the kernel-side writer of ebpf/observer/apolysis_observer.bpf.c fills a fixed payload buffer,
    crates/apolysis-observer/src/abi.rs reads it back, live.rs decorates the text with markers and process_context.rs
    strips them again. A byte of the buffer is modelled as one character. */
module ExecArgv {
  import opened Common

  const PAYLOAD_LEN: nat := 256
  const ARG_LEN: nat := 32
  const ARGC_LIMIT: nat := 8
  const PREFIX := "argv:"
  const NUL := 0 as char

  type WithoutNul = s: string | NUL !in s

  /** A user string: unreadable, or the characters before its terminating NUL. */
  datatype UserString = Fault | Text(chars: WithoutNul)

  /** One slot of the argv array. */
  datatype Slot = Unreadable | Null | Pointer(target: UserString)

  function SlotAt(argv: seq<Slot>, i: nat): Slot {
    if i < |argv| then argv[i] else Unreadable
  }

  /** What the writer has produced: the text before the offset, and the two truncation flags. */
  datatype Written = Written(text: string, argvTruncated: bool, payloadTruncated: bool)

  function AppendArg(b: Written, arg: UserString): Written {
    if |b.text| >= PAYLOAD_LEN - ARG_LEN then b.(argvTruncated := true, payloadTruncated := true)
    else
      var text := if |b.text| > |PREFIX| then b.text + " " else b.text;
      match arg
      case Fault => b.(text := text, argvTruncated := true)
      case Text(chars) =>
        if |chars| >= ARG_LEN - 1 then Written(text + chars[..ARG_LEN - 1], true, true)
        else b.(text := text + chars)
  }

  lemma AppendArgCases(b: Written, arg: UserString, text: string, n: nat)
    requires text == if |b.text| > |PREFIX| then b.text + " " else b.text
    requires arg.Text? ==> n == if |arg.chars| >= ARG_LEN - 1 then ARG_LEN - 1 else |arg.chars|
    ensures |b.text| >= PAYLOAD_LEN - ARG_LEN ==> AppendArg(b, arg) == Written(b.text, true, true)
    ensures |b.text| < PAYLOAD_LEN - ARG_LEN && arg.Fault? ==>
        AppendArg(b, arg) == Written(text, true, b.payloadTruncated)
    ensures |b.text| < PAYLOAD_LEN - ARG_LEN && arg.Text? && n == ARG_LEN - 1 ==>
      AppendArg(b, arg) == Written(text + arg.chars[..n], true, true)
    ensures |b.text| < PAYLOAD_LEN - ARG_LEN && arg.Text? && n < ARG_LEN - 1 ==>
      AppendArg(b, arg) == Written(text + arg.chars[..n], b.argvTruncated, b.payloadTruncated)
  {
    if arg.Text? && n < ARG_LEN - 1 { assert arg.chars[..n] == arg.chars; }
  }

  /** The argv loop from slot `i` on, with the check for a ninth argument at its end. */
  function ReadFrom(argv: seq<Slot>, i: nat, b: Written): Written
    requires i <= ARGC_LIMIT
    decreases ARGC_LIMIT - i
  {
    var slot := SlotAt(argv, i);
    if i == ARGC_LIMIT then (if slot.Pointer? then b.(argvTruncated := true) else b)
    else match slot
      case Unreadable => b.(argvTruncated := true)
      case Null => b
      case Pointer(target) => ReadFrom(argv, i + 1, AppendArg(b, target))
  }

  // ---------------------------------------------------------------- the code

  class PendingExec {
    const payload: array<char>
    var argvTruncated: bool
    var payloadTruncated: bool

    /** The buffer has its size and is zero from the offset on, so the text is NUL-terminated there. */
    ghost predicate Clean(offset: nat)
      reads this, payload
    {
      && payload.Length == PAYLOAD_LEN && |PREFIX| <= offset < PAYLOAD_LEN
      && forall i :: offset <= i < PAYLOAD_LEN ==> payload[i] == NUL
    }

    ghost function Value(offset: nat): Written
      reads this, payload
      requires Clean(offset)
    {
      Written(payload[..offset], argvTruncated, payloadTruncated)
    }

    constructor ()
      ensures fresh(payload) && payload.Length == PAYLOAD_LEN && forall i :: 0 <= i < PAYLOAD_LEN ==> payload[i] == NUL
      ensures !argvTruncated && !payloadTruncated
    {
      payload := new char[PAYLOAD_LEN](_ => NUL);
      argvTruncated, payloadTruncated := false, false;
    }

    /** `bpf_probe_read_user_str` into the buffer at `off`: at most ARG_LEN bytes with the NUL, or a zeroed window and a
        negative answer. */
    method ProbeReadUserStr(off: nat, arg: UserString) returns (length: int)
      requires payload.Length == PAYLOAD_LEN && off + ARG_LEN <= PAYLOAD_LEN
      requires forall i :: off <= i < PAYLOAD_LEN ==> payload[i] == NUL
      modifies payload
      ensures payload[..off] == old(payload[..off])
      ensures arg.Fault? ==> length < 0 && forall i :: off <= i < PAYLOAD_LEN ==> payload[i] == NUL
      ensures arg.Text? ==>
        var n := if |arg.chars| >= ARG_LEN - 1 then ARG_LEN - 1 else |arg.chars|;
        && length == n + 1 && payload[..off + n] == old(payload[..off]) + arg.chars[..n]
        && forall i :: off + n <= i < PAYLOAD_LEN ==> payload[i] == NUL
    {
      if arg.Fault? {
        for i := 0 to ARG_LEN
          invariant payload[..off] == old(payload[..off])
          invariant forall j :: off <= j < PAYLOAD_LEN ==> payload[j] == NUL
        {
          payload[off + i] := NUL;
        }
        return -1;
      }
      var n := if |arg.chars| >= ARG_LEN - 1 then ARG_LEN - 1 else |arg.chars|;
      for i := 0 to n
        invariant payload[..off] == old(payload[..off])
        invariant payload[off..off + i] == arg.chars[..i]
        invariant forall j :: off + i <= j < PAYLOAD_LEN ==> payload[j] == NUL
      {
        payload[off + i] := arg.chars[i];
        assert payload[off..off + i + 1] == payload[off..off + i] + [payload[off + i]];
      }
      payload[off + n] := NUL;
      assert payload[..off + n] == payload[..off] + payload[off..off + n];
      return n + 1;
    }

    method AppendExecArgvArg(offset: nat, arg: UserString) returns (newOffset: nat)
      requires Clean(offset)
      modifies this, payload
      ensures Clean(newOffset) && Value(newOffset) == AppendArg(old(Value(offset)), arg)
    {
      hide AppendArg;
      var off := offset;
      ghost var before := Value(offset);
      AppendArgCases(before, arg, if offset > |PREFIX| then before.text + " " else before.text,
                     if arg.Fault? then 0 else if |arg.chars| >= ARG_LEN - 1 then ARG_LEN - 1 else |arg.chars|);
      if off >= payload.Length - ARG_LEN {
        argvTruncated, payloadTruncated := true, true;
        return off;
      }
      if off > |PREFIX| {
        payload[off] := ' ';
        off := off + 1;
        assert payload[..off] == old(payload[..offset]) + " ";
      }
      // The code bounds the offset once more here for the kernel verifier; it is never out of bounds.
      if off > payload.Length - ARG_LEN {
        assert false;
      }
      var length := ProbeReadUserStr(off, arg);
      if length < 0 {
        argvTruncated := true;
        return off;
      }
      if length == ARG_LEN {
        argvTruncated, payloadTruncated := true, true;
        return off + ARG_LEN - 1;
      }
      if length > 0 {
        off := off + (length - 1);
      }
      return off;
    }

    method WritePrefix()
      requires payload.Length == PAYLOAD_LEN && forall i :: 0 <= i < PAYLOAD_LEN ==> payload[i] == NUL
      modifies payload
      ensures Clean(|PREFIX|) && payload[..|PREFIX|] == PREFIX
    {
      for k := 0 to |PREFIX|
        invariant payload[..k] == PREFIX[..k]
        invariant forall i :: k <= i < PAYLOAD_LEN ==> payload[i] == NUL
      {
        payload[k] := PREFIX[k];
        assert payload[..k + 1] == payload[..k] + [payload[k]];
      }
    }

    /** The whole read: no write ever leaves the buffer, and the text ends in a NUL at the offset. */
    method ReadExecArgv(argv: seq<Slot>) returns (offset: nat)
      requires payload.Length == PAYLOAD_LEN && forall i :: 0 <= i < PAYLOAD_LEN ==> payload[i] == NUL
      requires !argvTruncated && !payloadTruncated
      modifies this, payload
      ensures Clean(offset) && Value(offset) == ReadFrom(argv, 0, Written(PREFIX, false, false))
    {
      WritePrefix();
      offset := |PREFIX|;
      for i := 0 to ARGC_LIMIT
        invariant Clean(offset)
        invariant ReadFrom(argv, 0, Written(PREFIX, false, false)) == ReadFrom(argv, i, Value(offset))
      {
        var slot := SlotAt(argv, i);
        if slot.Unreadable? {
          argvTruncated := true;
          return;
        }
        if slot.Null? {
          return;
        }
        offset := AppendExecArgvArg(offset, slot.target);
      }
      if SlotAt(argv, ARGC_LIMIT).Pointer? {
        argvTruncated := true;
      }
    }
  }

  /** `fixed_string`: the characters before the first NUL. */
  function FixedString(bytes: string): (r: string)
    ensures r <= bytes && NUL !in r
    ensures |r| < |bytes| ==> bytes[|r|] == NUL
  {
    if bytes == [] || bytes[0] == NUL then []
    else
      assert forall c :: c in [bytes[0]] + FixedString(bytes[1..]) <==> c == bytes[0] || c in FixedString(bytes[1..]);
      [bytes[0]] + FixedString(bytes[1..])
  }

  // ---------------------------------------------------------------- what the text is

  /** Joining the way the writer does: no separator while nothing has been written. */
  function Packed(args: seq<string>): string {
    if args == [] then ""
    else
      var before := Packed(args[..|args| - 1]);
      if before == "" then args[|args| - 1] else before + " " + args[|args| - 1]
  }

  /** The arguments joined by single spaces. */
  function Joined(args: seq<string>): string {
    if args == [] then ""
    else if |args| == 1 then args[0]
    else Joined(args[..|args| - 1]) + " " + args[|args| - 1]
  }

  function TotalLength(args: seq<string>): nat {
    if args == [] then 0 else TotalLength(args[..|args| - 1]) + |args[|args| - 1]|
  }

  lemma {:induction false} PackedLength(args: seq<string>)
    ensures args != [] ==> |Joined(args)| == TotalLength(args) + |args| - 1
    ensures args != [] ==> |Packed(args)| <= TotalLength(args) + |args| - 1
    ensures args != [] && args[0] == "" ==>
        |Packed(args)| <= TotalLength(args) + (if |args| >= 2 then |args| - 2 else 0)
    decreases |args|
  {
    if |args| > 1 { PackedLength(args[..|args| - 1]); }
  }

  lemma {:induction false} PackedNonEmpty(args: seq<string>)
    requires args != [] && args[0] != ""
    ensures Packed(args) == Joined(args) && Packed(args) != ""
    decreases |args|
  {
    if |args| > 1 { PackedNonEmpty(args[..|args| - 1]); }
  }

  /** The writer's text is the ordinary join exactly when the first argument is non-empty or there is at most one. */
  lemma PackedIsJoinedExactly(args: seq<string>)
    ensures Packed(args) == Joined(args) <==> |args| <= 1 || args[0] != ""
  {
    if args != [] {
      PackedLength(args);
      if args[0] != "" { PackedNonEmpty(args); }
    }
  }

  /** The strings the slots point to up to the first null slot. */
  function Args(argv: seq<Slot>, n: nat): seq<string>
    requires n <= |argv| && forall i :: 0 <= i < n ==> argv[i].Pointer? && argv[i].target.Text?
  {
    seq(n, i requires 0 <= i < n => argv[i].target.chars)
  }

  /** Flags once set stay set. */
  lemma {:induction false} FlagsStay(argv: seq<Slot>, i: nat, b: Written)
    requires i <= ARGC_LIMIT
    ensures b.argvTruncated ==> ReadFrom(argv, i, b).argvTruncated
    ensures b.payloadTruncated ==> ReadFrom(argv, i, b).payloadTruncated
    decreases ARGC_LIMIT - i
  {
    if i < ARGC_LIMIT && SlotAt(argv, i).Pointer? { FlagsStay(argv, i + 1, AppendArg(b, argv[i].target)); }
  }

  /** The number of arguments a read without truncation found: they were all readable, short, and at most eight. */
  ghost predicate CompleteRead(argv: seq<Slot>, n: nat) {
    && n <= ARGC_LIMIT && n <= |argv|
    && (forall i :: 0 <= i < n ==> argv[i].Pointer? && argv[i].target.Text? && |argv[i].target.chars| < ARG_LEN - 1)
    && (n < ARGC_LIMIT ==> SlotAt(argv, n).Null?)
    && (n == ARGC_LIMIT ==> !SlotAt(argv, n).Pointer?)
  }

  lemma {:induction false} ReadFromComplete(argv: seq<Slot>, i: nat, b: Written) returns (n: nat)
    requires i <= ARGC_LIMIT && i <= |argv|
    requires forall k :: 0 <= k < i ==> argv[k].Pointer? && argv[k].target.Text? && |argv[k].target.chars| < ARG_LEN - 1
    requires b == Written(PREFIX + Packed(Args(argv, i)), false, false)
    requires !ReadFrom(argv, i, b).argvTruncated
    ensures CompleteRead(argv, n)
    ensures ReadFrom(argv, i, b) == Written(PREFIX + Packed(Args(argv, n)), false, false)
    decreases ARGC_LIMIT - i
  {
    if i == ARGC_LIMIT || SlotAt(argv, i).Null? {
      n := i;
    } else {
      var next := AppendArg(b, argv[i].target);
      FlagsStay(argv, i + 1, next);
      hide AppendArg, Args, Packed;
      OneMoreRead(argv, i, b);
      n := ReadFromComplete(argv, i + 1, next);
    }
  }

  /** An argument that sets no flag is short and is packed behind the ones before it. */
  lemma OneMoreRead(argv: seq<Slot>, i: nat, b: Written)
    requires i < |argv| && argv[i].Pointer? && !AppendArg(b, argv[i].target).argvTruncated
    requires forall k :: 0 <= k < i ==> argv[k].Pointer? && argv[k].target.Text?
    requires b == Written(PREFIX + Packed(Args(argv, i)), false, false)
    ensures argv[i].target.Text? && |argv[i].target.chars| < ARG_LEN - 1
    ensures AppendArg(b, argv[i].target) == Written(PREFIX + Packed(Args(argv, i + 1)), false, false)
  {
    var before, arg := Packed(Args(argv, i)), argv[i].target;
    assert arg.Text?;
    assert Args(argv, i + 1)[..i] == Args(argv, i) && Args(argv, i + 1)[i] == arg.chars;
    hide Args;
    assert Packed(Args(argv, i + 1)) == if before == "" then arg.chars else before + " " + arg.chars;
    hide Packed;
    assert PREFIX + before + " " + arg.chars == PREFIX + (before + " " + arg.chars);
    assert PREFIX + "" == PREFIX;
  }

  /** If the argv flag is not set, every argument was captured whole and the text is the prefix and the packed
      arguments; the payload flag is then not set either. */
  lemma UntruncatedText(argv: seq<Slot>) returns (n: nat)
    requires !ReadFrom(argv, 0, Written(PREFIX, false, false)).argvTruncated
    ensures CompleteRead(argv, n)
    ensures ReadFrom(argv, 0, Written(PREFIX, false, false)) == Written(PREFIX + Packed(Args(argv, n)), false, false)
  {
    assert Args(argv, 0) == [];
    assert PREFIX + "" == PREFIX;
    n := ReadFromComplete(argv, 0, Written(PREFIX, false, false));
  }

  // ---------------------------------------------------------------- what any argv is written to

  /** The number of leading slots that hold a pointer, up to the limit. */
  ghost predicate Leading(argv: seq<Slot>, n: nat) {
    && n <= ARGC_LIMIT && Pointers(argv, n)
    && (n < ARGC_LIMIT ==> n == |argv| || !argv[n].Pointer?)
  }

  predicate Pointers(argv: seq<Slot>, n: nat) {
    n <= |argv| && forall j :: 0 <= j < n ==> argv[j].Pointer?
  }

  /** What is kept of one argument: at most thirty-one characters, and nothing of an unreadable one. */
  function Clip(arg: UserString): string {
    if arg.Fault? then "" else if |arg.chars| > 31 then arg.chars[..31] else arg.chars
  }

  function Clipped(argv: seq<Slot>, m: nat): seq<string>
    requires Pointers(argv, m)
  {
    seq(m, j requires 0 <= j < m => Clip(argv[j].target))
  }

  /** Before argument `j` there is room for one more. */
  predicate Room(argv: seq<Slot>, j: nat)
    requires Pointers(argv, j)
  {
    5 + |Packed(Clipped(argv, j))| < 224
  }

  /** Of `n` arguments the first `m` are taken: there is room before each of these and none before the next. */
  ghost predicate Taken(argv: seq<Slot>, n: nat, m: nat)
    requires Pointers(argv, n)
  {
    m <= n && (forall j: nat :: j < m ==> Room(argv, j)) && (m < n ==> !Room(argv, m))
  }

  ghost predicate SomeLong(argv: seq<Slot>, m: nat)
    requires Pointers(argv, m)
  {
    exists j: nat :: j < m && argv[j].target.Text? && |argv[j].target.chars| >= 31
  }

  ghost predicate SomeFault(argv: seq<Slot>, m: nat)
    requires Pointers(argv, m)
  {
    exists j: nat :: j < m && argv[j].target.Fault?
  }

  /** What has been written after `n` pointers, of which `m` were taken. */
  ghost predicate WrittenAfter(argv: seq<Slot>, n: nat, m: nat, b: Written)
    requires Pointers(argv, n)
  {
    && Taken(argv, n, m)
    && b.text == "argv:" + Packed(Clipped(argv, m))
    && (b.payloadTruncated <==> m < n || SomeLong(argv, m))
    && (b.argvTruncated <==> m < n || SomeLong(argv, m) || SomeFault(argv, m))
  }

  /** What one argument adds when there is room. */
  lemma ArgumentAdded(b: Written, arg: UserString, before: string)
    requires b.text == "argv:" + before && |b.text| < 224
    ensures var after, long := AppendArg(b, arg), arg.Text? && |arg.chars| >= 31;
      && after.text == "argv:" + (if before == "" then Clip(arg) else before + " " + Clip(arg))
      && (after.payloadTruncated <==> b.payloadTruncated || long)
      && (after.argvTruncated <==> b.argvTruncated || long || arg.Fault?)
  {
    var last, text := Clip(arg), if |b.text| > |PREFIX| then b.text + " " else b.text;
    var n := if arg.Fault? then 0 else if |arg.chars| >= ARG_LEN - 1 then ARG_LEN - 1 else |arg.chars|;
    if arg.Text? { assert arg.chars[..n] == last; }
    AppendArgCases(b, arg, text, n);
    hide AppendArg, Clip;
    if before == "" {
      assert PREFIX + before + last == PREFIX + last && PREFIX + before == PREFIX;
    } else {
      assert PREFIX + before + " " + last == PREFIX + (before + " " + last);
    }
    assert text + "" == text;
  }

  lemma PackedSnoc(argv: seq<Slot>, i: nat)
    requires Pointers(argv, i + 1)
    ensures var before, last := Packed(Clipped(argv, i)), Clip(argv[i].target);
      Packed(Clipped(argv, i + 1)) == if before == "" then last else before + " " + last
  {
    assert Clipped(argv, i + 1)[..i] == Clipped(argv, i) && Clipped(argv, i + 1)[i] == Clip(argv[i].target);
  }

  lemma OneMoreTaken(argv: seq<Slot>, i: nat, b: Written)
    requires Pointers(argv, i + 1) && WrittenAfter(argv, i, i, b) && Room(argv, i)
    ensures WrittenAfter(argv, i + 1, i + 1, AppendArg(b, argv[i].target))
  {
    ArgumentAdded(b, argv[i].target, Packed(Clipped(argv, i)));
    PackedSnoc(argv, i);
    LongSnoc(argv, i);
    FaultSnoc(argv, i);
    hide Packed, Clipped, Clip, AppendArg, SomeLong, SomeFault;
  }

  lemma LongSnoc(argv: seq<Slot>, i: nat)
    requires Pointers(argv, i + 1)
    ensures SomeLong(argv, i + 1) <==>
      SomeLong(argv, i) || (argv[i].target.Text? && |argv[i].target.chars| >= 31)
  {
  }

  lemma FaultSnoc(argv: seq<Slot>, i: nat)
    requires Pointers(argv, i + 1)
    ensures SomeFault(argv, i + 1) <==> SomeFault(argv, i) || argv[i].target.Fault?
  {
  }

  lemma NoMoreTaken(argv: seq<Slot>, i: nat, m: nat, b: Written)
    requires Pointers(argv, i + 1) && WrittenAfter(argv, i, m, b) && (m < i || !Room(argv, i))
    ensures WrittenAfter(argv, i + 1, m, AppendArg(b, argv[i].target))
  {
    assert |b.text| == 5 + |Packed(Clipped(argv, m))|;
  }

  lemma {:induction false} ReadExactly(argv: seq<Slot>, i: nat, k: nat, b: Written) returns (n: nat, m: nat)
    requires i <= ARGC_LIMIT && Pointers(argv, i) && WrittenAfter(argv, i, k, b)
    ensures Leading(argv, n) && Taken(argv, n, m)
    ensures var r := ReadFrom(argv, i, b);
      && r.text == "argv:" + Packed(Clipped(argv, m))
      && (r.payloadTruncated <==> m < n || SomeLong(argv, m))
      && (r.argvTruncated <==>
            || m < n || SomeLong(argv, m) || SomeFault(argv, m)
            || (n < ARGC_LIMIT && (n == |argv| || argv[n].Unreadable?))
            || (n == ARGC_LIMIT && n < |argv| && argv[n].Pointer?))
    decreases ARGC_LIMIT - i
  {
    hide SomeLong, SomeFault, Packed, Clipped, AppendArg, Room;
    if i == ARGC_LIMIT || !SlotAt(argv, i).Pointer? {
      n, m := i, k;
    } else {
      var next := AppendArg(b, argv[i].target);
      if k == i && Room(argv, i) {
        OneMoreTaken(argv, i, b);
        n, m := ReadExactly(argv, i + 1, i + 1, next);
      } else {
        NoMoreTaken(argv, i, k, b);
        n, m := ReadExactly(argv, i + 1, k, next);
      }
    }
  }

  /** What any argv is written to, exactly: of the leading pointers, at most eight, as many are taken as find room in
      224 bytes; the text is what is kept of them, packed. The payload flag is set if and only if one of them found no
      room or a taken one is longer than thirty characters; the argv flag if and only if that is so, a taken one could
      not be read, the slot behind them could not be read, or there is a ninth. */
  lemma WrittenExactly(argv: seq<Slot>) returns (n: nat, m: nat)
    ensures Leading(argv, n) && Taken(argv, n, m)
    ensures var r := ReadFrom(argv, 0, Written(PREFIX, false, false));
      && r.text == "argv:" + Packed(Clipped(argv, m))
      && (r.payloadTruncated <==> m < n || SomeLong(argv, m))
      && (r.argvTruncated <==>
            || m < n || SomeLong(argv, m) || SomeFault(argv, m)
            || (n < 8 && (n == |argv| || argv[n].Unreadable?)) || (n == 8 && n < |argv| && argv[n].Pointer?))
  {
    assert Clipped(argv, 0) == [] && PREFIX + "" == PREFIX;
    n, m := ReadExactly(argv, 0, 0, Written(PREFIX, false, false));
  }

  /** Reading the buffer back gives the text before the offset, when that text has no NUL in it. */
  lemma ReadBack(buffer: string, offset: nat)
    requires offset < |buffer| && buffer[offset] == NUL && NUL !in buffer[..offset]
    ensures FixedString(buffer) == buffer[..offset]
  {
    var r, text := FixedString(buffer), buffer[..offset];
    forall i | 0 <= i < offset ensures buffer[i] != NUL { assert text[i] in text; }
    forall i | 0 <= i < |r| ensures buffer[i] != NUL { assert r[i] in r; }
    assert |r| == offset;
  }

  // ---------------------------------------------------------------- markers

  const RESOURCE_MARKER := "resource_truncated:true"
  const ARGV_MARKER := "argv_truncated:true"
  const PAYLOAD_MARKER := "payload_truncated:true"

  predicate IsMarker(m: string) {
    m == RESOURCE_MARKER || m == ARGV_MARKER || m == PAYLOAD_MARKER
  }

  function JoinComma(parts: seq<string>): string {
    if parts == [] then ""
    else if |parts| == 1 then parts[0]
    else parts[0] + "," + JoinComma(parts[1..])
  }

  function Flag(on: bool, marker: string): seq<string> {
    if on then [marker] else []
  }

  /** `raw_event_from_record`, the payload part. */
  function Decorate(payload: string, resource: bool, argv: bool, truncated: bool): string {
    var markers := Flag(resource, RESOURCE_MARKER) + Flag(argv, ARGV_MARKER) + Flag(truncated, PAYLOAD_MARKER);
    if markers == [] then payload
    else JoinComma(if payload == "" then markers else [payload] + markers)
  }

  predicate EndsWith(s: string, suffix: string) {
    |suffix| <= |s| && s[|s| - |suffix|..] == suffix
  }

  function StripMarker(value: string, marker: string): string {
    if EndsWith(value, "," + marker) then value[..|value| - |marker| - 1] else value
  }

  function StripAll(value: string): string {
    StripMarker(StripMarker(StripMarker(value, PAYLOAD_MARKER), ARGV_MARKER), RESOURCE_MARKER)
  }

  /** `exec_command`. */
  function ExecCommand(payload: string): Option<string> {
    if !(PREFIX <= payload || "argv=" <= payload) then None
    else
      var command := Trim(StripAll(payload[|PREFIX|..]));
      if command == "" then None else Some(command)
  }

  /** Markers differ in the character before their common ending. */
  lemma MarkersDiffer(s: string, a: string, b: string)
    requires IsMarker(a) && IsMarker(b)
    requires EndsWith(s, "," + a) && EndsWith(s, "," + b)
    ensures a == b
  {
    assert RESOURCE_MARKER[|RESOURCE_MARKER| - 16] == 'e' && ARGV_MARKER[|ARGV_MARKER| - 16] == 'v'
        && PAYLOAD_MARKER[|PAYLOAD_MARKER| - 16] == 'd';
    assert ("," + a)[|a| + 1 - 16] == s[|s| - 16] == ("," + b)[|b| + 1 - 16];
  }

  lemma StripsOwn(s: string, marker: string)
    ensures EndsWith(s + "," + marker, "," + marker) && StripMarker(s + "," + marker, marker) == s
  {
    var v := s + "," + marker;
    assert v == s + ("," + marker);
    assert v[|v| - |"," + marker|..] == "," + marker;
  }

  function CommaTail(markers: seq<string>): string {
    if markers == [] then "" else "," + markers[0] + CommaTail(markers[1..])
  }

  lemma {:induction false} CommaTailConcat(a: seq<string>, b: seq<string>)
    ensures CommaTail(a + b) == CommaTail(a) + CommaTail(b)
    decreases |a|
  {
    if a == [] {
      assert a + b == b;
    } else {
      assert (a + b)[1..] == a[1..] + b;
      CommaTailConcat(a[1..], b);
    }
  }

  lemma {:induction false} JoinCommaIsTail(t: string, markers: seq<string>)
    ensures JoinComma([t] + markers) == t + CommaTail(markers)
    decreases |markers|
  {
    assert ([t] + markers)[1..] == markers;
    if markers != [] {
      assert markers == [markers[0]] + markers[1..];
      JoinCommaIsTail(markers[0], markers[1..]);
    }
  }

  function Suffix(on: bool, marker: string): string {
    if on then "," + marker else ""
  }

  /** A decorated text is the text followed by one comma and marker per flag. */
  lemma DecorateShape(t: string, r: bool, a: bool, p: bool)
    requires t != ""
    ensures Decorate(t, r, a, p) == t + Suffix(r, "resource_truncated:true") + Suffix(a, "argv_truncated:true")
        + Suffix(p, "payload_truncated:true")
  {
    var rs, ms, ps := Flag(r, RESOURCE_MARKER), Flag(a, ARGV_MARKER), Flag(p, PAYLOAD_MARKER);
    TailOfFlag(r, RESOURCE_MARKER);
    TailOfFlag(a, ARGV_MARKER);
    TailOfFlag(p, PAYLOAD_MARKER);
    hide CommaTail, JoinComma, Flag, Suffix;
    JoinCommaIsTail(t, rs + ms + ps);
    CommaTailConcat(rs + ms, ps);
    CommaTailConcat(rs, ms);
    assert t + (CommaTail(rs) + CommaTail(ms) + CommaTail(ps)) == t + CommaTail(rs) + CommaTail(ms) + CommaTail(ps);
    NoTail();
  }

  lemma NoTail()
    ensures CommaTail([]) == ""
  {
  }

  lemma TailOfFlag(on: bool, marker: string)
    ensures CommaTail(Flag(on, marker)) == Suffix(on, marker)
  {
    assert "," + marker + "" == "," + marker;
  }

  /** The text itself must not look decorated where a marker that was not added would be looked for. */
  predicate Survives(body: string, r: bool, a: bool, p: bool) {
    && (!r && !a && !p ==> !EndsWith(body, "," + PAYLOAD_MARKER))
    && (!r && !a ==> !EndsWith(body, "," + ARGV_MARKER))
    && (!r ==> !EndsWith(body, "," + RESOURCE_MARKER))
  }

  lemma StripNone(s: string, own: string, other: string)
    requires IsMarker(own) && IsMarker(other)
    requires own != other
    ensures StripMarker(s + "," + own, other) == s + "," + own
  {
    hide IsMarker;
    StripsOwn(s, own);
    if EndsWith(s + "," + own, "," + other) { MarkersDiffer(s + "," + own, own, other); }
  }

  lemma StripShortens(s: string, marker: string)
    ensures StripMarker(s, marker) == s <==> !EndsWith(s, "," + marker)
    ensures |StripMarker(s, marker)| <= |s|
    ensures StripMarker(s, marker) != s ==> |StripMarker(s, marker)| < |s|
  {
  }

  lemma MarkersApart()
    ensures IsMarker(RESOURCE_MARKER) && IsMarker(ARGV_MARKER) && IsMarker(PAYLOAD_MARKER)
    ensures RESOURCE_MARKER != ARGV_MARKER && ARGV_MARKER != PAYLOAD_MARKER && PAYLOAD_MARKER != RESOURCE_MARKER
  {
    assert RESOURCE_MARKER[0] == 'r' && ARGV_MARKER[0] == 'a' && PAYLOAD_MARKER[0] == 'p';
  }

  /** Stripping a decorated text gives the text back exactly when the text survives. */
  lemma StripDecoratedExactly(body: string, r: bool, a: bool, p: bool)
    ensures StripAll(body + Suffix(r, RESOURCE_MARKER) + Suffix(a, ARGV_MARKER) + Suffix(p, PAYLOAD_MARKER)) == body
            <==> Survives(body, r, a, p)
  {
    hide StripMarker, EndsWith, IsMarker;
    MarkersApart();
    var t1 := body + Suffix(r, RESOURCE_MARKER);
    var t2 := t1 + Suffix(a, ARGV_MARKER);
    var t3 := t2 + Suffix(p, PAYLOAD_MARKER);
    // First the payload marker, then the argv marker, then the resource marker.
    StripOne(t1, a, ARGV_MARKER, p, PAYLOAD_MARKER);
    StripOne(body, r, RESOURCE_MARKER, a, ARGV_MARKER);
    StripOne(body, r, RESOURCE_MARKER, p, PAYLOAD_MARKER);
    StripShortens(body, PAYLOAD_MARKER);
    StripShortens(body, ARGV_MARKER);
    StripShortens(body, RESOURCE_MARKER);
    StripOne(body, false, ARGV_MARKER, r, RESOURCE_MARKER);
    var s1 := StripMarker(t3, PAYLOAD_MARKER);
    var s2 := StripMarker(s1, ARGV_MARKER);
    var s3 := StripMarker(s2, RESOURCE_MARKER);
    StripShortens(s1, ARGV_MARKER);
    StripShortens(s2, RESOURCE_MARKER);
    assert t1 + "" == t1 && body + "" == body && t2 + "" == t2;
    if r || a || p {
      assert s1 == t2;
    }
    if r || a {
      assert s2 == t1;
    }
  }

  /** Stripping a marker takes it off when it is there, and meets nothing when another marker ends the text. */
  lemma StripOne(s: string, before: bool, own: string, on: bool, marker: string)
    requires IsMarker(own) && IsMarker(marker)
    requires own != marker
    ensures on ==> StripMarker(s + Suffix(before, own) + Suffix(on, marker), marker) == s + Suffix(before, own)
    ensures !on && before ==>
      StripMarker(s + Suffix(before, own) + Suffix(on, marker), marker) == s + Suffix(before, own) + Suffix(on, marker)
  {
    hide StripMarker, EndsWith, IsMarker;
    StripsOwn(s + Suffix(before, own), marker);
    StripNone(s, own, marker);
    assert s + Suffix(before, own) + ("," + marker) == s + Suffix(before, own) + "," + marker;
    assert s + ("," + own) + "" == s + "," + own;
  }

  /** Command recovery: from the decorated text of an exec record the command comes back, trimmed, whenever the text
      does not look decorated itself. */
  lemma CommandRecovered(body: string, r: bool, a: bool, p: bool)
    requires Survives(body, r, a, p)
    ensures ExecCommand(Decorate(PREFIX + body, r, a, p)) == if Trim(body) == "" then None else Some(Trim(body))
  {
    hide StripAll, Trim, Decorate, Survives, Suffix;
    DecorateShape(PREFIX + body, r, a, p);
    StripDecoratedExactly(body, r, a, p);
    var rs, ms, ps := Suffix(r, RESOURCE_MARKER), Suffix(a, ARGV_MARKER), Suffix(p, PAYLOAD_MARKER);
    assert PREFIX + body + rs + ms + ps == PREFIX + (body + rs + ms + ps);
    CommandOf(body + rs + ms + ps);
  }

  lemma CommandOf(tail: string)
    ensures ExecCommand(PREFIX + tail) == if Trim(StripAll(tail)) == "" then None else Some(Trim(StripAll(tail)))
  {
    hide StripAll, Trim;
    assert (PREFIX + tail)[|PREFIX|..] == tail;
  }

  /** What the writer leaves: the text, then a NUL, somewhere within the buffer. */
  ghost predicate Stored(buffer: string, text: string) {
    |text| < |buffer| && buffer[..|text|] == text && buffer[|text|] == NUL
  }

  /** What is read from user strings holds no NUL, so the text behind the prefix holds none. */
  lemma {:induction false} ReadHoldsNoNul(argv: seq<Slot>, i: nat, b: Written)
    requires i <= ARGC_LIMIT && NUL !in b.text
    ensures NUL !in ReadFrom(argv, i, b).text
    decreases ARGC_LIMIT - i
  {
    if i < ARGC_LIMIT && SlotAt(argv, i).Pointer? {
      AppendedHoldsNoNul(b, argv[i].target);
      ReadHoldsNoNul(argv, i + 1, AppendArg(b, argv[i].target));
    }
  }

  lemma AppendedHoldsNoNul(b: Written, arg: UserString)
    requires NUL !in b.text
    ensures NUL !in AppendArg(b, arg).text
  {
  }

  /** End to end: an untruncated argv with a non-empty first argument, written, read back, decorated with any flag the
      path may have set, and stripped, is the arguments joined by spaces, trimmed. */
  lemma ExecRoundTrip(argv: seq<Slot>, buffer: string, resource: bool) returns (n: nat)
    requires !ReadFrom(argv, 0, Written(PREFIX, false, false)).argvTruncated
    requires Stored(buffer, ReadFrom(argv, 0, Written(PREFIX, false, false)).text)
    requires SlotAt(argv, 0).Pointer? ==> SlotAt(argv, 0).target != Text("")
    ensures CompleteRead(argv, n)
    ensures var body := Joined(Args(argv, n));
      Survives(body, resource, false, false) ==>
      ExecCommand(Decorate(FixedString(buffer), resource, false, false))
      == if Trim(body) == "" then None else Some(Trim(body))
  {
    n := UntruncatedText(argv);
    PackedIsJoinedExactly(Args(argv, n));
    var body := Joined(Args(argv, n));
    ReadHoldsNoNul(argv, 0, Written(PREFIX, false, false));
    hide ReadFrom, ExecCommand, Decorate, Survives, Trim, Joined, Packed, CompleteRead;
    ReadBack(buffer, |PREFIX + body|);
    if Survives(body, resource, false, false) { CommandRecovered(body, resource, false, false); }
  }

  /** The other side is met: behind an empty first argument the separator is missing. */
  lemma EmptyFirstArgument(second: string)
    ensures Packed(["", second]) == second && Joined(["", second]) == " " + second
  {
    var none: seq<string> := [];
    var first, args := [""], ["", second];
    assert args[..|args| - 1] == first && first[..|first| - 1] == none;
    assert Packed(none) == "" && Packed(first) == "" && Joined(first) == "";
    assert "" + " " + second == " " + second;
  }

  /** Both spellings of the prefix are read alike, and nothing else is an exec command. */
  lemma PrefixExactly(payload: string)
    ensures ExecCommand(payload).Some? ==> "argv:" <= payload || "argv=" <= payload
    ensures ExecCommand("argv=" + payload) == ExecCommand("argv:" + payload)
    ensures "argv:" <= payload ==> ExecCommand(payload) == ExecCommand("argv:" + payload[5..])
    ensures "argv=" <= payload ==> ExecCommand(payload) == ExecCommand("argv:" + payload[5..])
  {
    hide StripAll, Trim;
    assert ("argv=" + payload)[5..] == payload && ("argv:" + payload)[5..] == payload;
    if "argv:" <= payload || "argv=" <= payload { assert ("argv:" + payload[5..])[5..] == payload[5..]; }
  }

  lemma CommaBefore(markers: seq<string>)
    requires markers != []
    ensures "," + JoinComma(markers) == CommaTail(markers)
  {
    assert markers == [markers[0]] + markers[1..];
    JoinCommaIsTail(markers[0], markers[1..]);
    assert "," + (markers[0] + CommaTail(markers[1..])) == "," + markers[0] + CommaTail(markers[1..]);
  }

  /** Without a text the markers stand alone: no comma in front of the first. */
  lemma DecorateEmpty(r: bool, a: bool, p: bool)
    ensures var d := Decorate("", r, a, p);
      if !r && !a && !p then d == ""
      else "," + d == Suffix(r, RESOURCE_MARKER) + Suffix(a, ARGV_MARKER) + Suffix(p, PAYLOAD_MARKER)
  {
    var rs, ms, ps := Flag(r, RESOURCE_MARKER), Flag(a, ARGV_MARKER), Flag(p, PAYLOAD_MARKER);
    TailOfFlag(r, RESOURCE_MARKER);
    TailOfFlag(a, ARGV_MARKER);
    TailOfFlag(p, PAYLOAD_MARKER);
    hide CommaTail, JoinComma, Suffix;
    CommaTailConcat(rs + ms, ps);
    CommaTailConcat(rs, ms);
    if rs + ms + ps != [] { CommaBefore(rs + ms + ps); }
  }
}
