/** Small datatypes shared by every module of the model. */
module Common {

  datatype Option<+T> = None | Some(value: T)

  datatype Result<+T, +E> = Ok(value: T) | Err(error: E)

  /** A byte of a file, a buffer or a message body. */
  type Byte = b: int | 0 <= b < 256

  type Bytes = seq<Byte>

  const NEWLINE: Byte := 10

  /** Largest value of the 64-bit counters and lengths of the source. */
  const U64_MAX: nat := 0xFFFF_FFFF_FFFF_FFFF

  type U64 = n: nat | n <= U64_MAX

  /** `saturating_add` on 64-bit counters. */
  function SaturatingAdd(a: nat, b: nat): (r: U64) {
    if a + b <= U64_MAX then a + b else U64_MAX
  }

  function RemoveAt<T>(s: seq<T>, i: nat): (r: seq<T>)
    requires i < |s|
  {
    s[..i] + s[i + 1..]
  }

  /** Unicode White_Space, which `str::trim` removes. */
  predicate IsSpace(c: char) {
    var n := c as int;
    || 9 <= n <= 13 || n == 32 || n == 0x85 || n == 0xA0 || n == 0x1680
    || 0x2000 <= n <= 0x200A || n == 0x2028 || n == 0x2029 || n == 0x202F || n == 0x205F || n == 0x3000
  }

  /** Those are twenty-five characters. */
  lemma SpacesExactly(c: char)
    ensures IsSpace(c) <==> c as int in {
        9, 10, 11, 12, 13, 32, 133, 160, 5760, 8192, 8193, 8194, 8195, 8196, 8197, 8198, 8199, 8200, 8201, 8202,
        8232, 8233, 8239, 8287, 12288}
  {
  }

  function TrimStart(s: string): string {
    if s != "" && IsSpace(s[0]) then TrimStart(s[1..]) else s
  }

  function TrimEnd(s: string): string {
    if s != "" && IsSpace(s[|s| - 1]) then TrimEnd(s[..|s| - 1]) else s
  }

  /** `str::trim`. */
  function Trim(s: string): string {
    TrimEnd(TrimStart(s))
  }

  ghost predicate AllSpace(s: string) {
    forall i :: 0 <= i < |s| ==> IsSpace(s[i])
  }

  lemma {:induction false} TrimStartExactly(s: string) returns (front: string)
    ensures s == front + TrimStart(s) && AllSpace(front)
    ensures TrimStart(s) != "" ==> !IsSpace(TrimStart(s)[0])
    decreases |s|
  {
    hide IsSpace;
    front := "";
    if s != "" && IsSpace(s[0]) {
      var more := TrimStartExactly(s[1..]);
      front := [s[0]] + more;
    }
  }

  lemma {:induction false} TrimEndExactly(s: string) returns (back: string)
    ensures s == TrimEnd(s) + back && AllSpace(back) && TrimEnd(s) <= s
    ensures TrimEnd(s) != "" ==> !IsSpace(TrimEnd(s)[|TrimEnd(s)| - 1])
    decreases |s|
  {
    hide IsSpace;
    back := "";
    if s != "" && IsSpace(s[|s| - 1]) {
      var more := TrimEndExactly(s[..|s| - 1]);
      back := more + [s[|s| - 1]];
      assert s == s[..|s| - 1] + [s[|s| - 1]];
    } else {
      assert s + "" == s;
    }
  }

  /** Trimming takes white space off both ends and nothing else, and leaves none there. */
  lemma TrimExactly(s: string) returns (front: string, back: string)
    ensures s == front + Trim(s) + back && AllSpace(front) && AllSpace(back)
    ensures Trim(s) != "" ==> !IsSpace(Trim(s)[0]) && !IsSpace(Trim(s)[|Trim(s)| - 1])
  {
    front := TrimStartExactly(s);
    back := TrimEndExactly(TrimStart(s));
    assert front + (Trim(s) + back) == front + Trim(s) + back;
  }

  function LowerHexDigit(n: nat): char
    requires n < 16
  {
    if n < 10 then ('0' as int + n) as char else ('a' as int + (n - 10)) as char
  }
}
