/** Bytes, the characters a line ends with, and the two failure types the other modules share. */
module Bytes {

  newtype byte = x: int | 0 <= x < 256

  type Source = seq<byte>

  const TAB: byte := 0x09
  const LF: byte := 0x0A
  const FF: byte := 0x0C
  const CR: byte := 0x0D
  const SPACE: byte := 0x20

  datatype Option<+T> = None | Some(value: T)

  datatype Result<+T, +E> = Success(value: T) | Failure(error: E)

  /** Rust's `u8::is_ascii_whitespace`: vertical tab is not a member. */
  predicate IsWhitespace(b: byte) {
    b == SPACE || b == TAB || b == LF || b == FF || b == CR
  }

  /** LINE SEPARATOR (U+2028) or PARAGRAPH SEPARATOR (U+2029), spelled in UTF-8, begins at `i`. */
  predicate SeparatorAt(s: Source, i: int) {
    0 <= i && i + 2 < |s| && s[i] == 0xE2 && s[i + 1] == 0x80 && (s[i + 2] == 0xA8 || s[i + 2] == 0xA9)
  }

  /** The width of the line terminator that begins at `i`, or `None` when none does. */
  function TerminatorWidth(s: Source, i: nat): (w: Option<nat>)
    ensures w.Some? ==> i < |s| && 1 <= w.value <= 3 && i + w.value <= |s|
    ensures w.None? <==> i >= |s| || (s[i] != CR && s[i] != LF && !SeparatorAt(s, i))
  {
    if i >= |s| then None
    else if s[i] == CR && i + 1 < |s| && s[i + 1] == LF then Some(2)
    else if s[i] == CR || s[i] == LF then Some(1)
    else if SeparatorAt(s, i) then Some(3)
    else None
  }

  function Min(a: nat, b: nat): nat { if a <= b then a else b }

  function Max(a: nat, b: nat): nat { if a >= b then a else b }

  lemma {:induction false} Regroup<T>(a: seq<T>, b: seq<T>, c: seq<T>, d: seq<T>)
    ensures a + (b + (c + d)) == a + b + c + d
  {
  }

  lemma {:induction false} SliceOfSlice<T>(s: seq<T>, a: nat, b: nat, c: nat, d: nat)
    requires a <= b <= |s| && c <= d <= b - a
    ensures s[a..b][c..d] == s[a + c..a + d]
  {
    var l, r := s[a..b][c..d], s[a + c..a + d];
    forall i | 0 <= i < |l|
      ensures l[i] == r[i]
    {
      assert l[i] == s[a..b][c + i];
    }
  }

  lemma {:induction false} DropInTwo<T>(s: seq<T>, a: nat, m: nat)
    requires a <= m <= |s|
    ensures s[a..] == s[a..m] + s[m..]
  {
  }

  lemma {:induction false} TakeAndDrop<T>(s: seq<T>, m: nat)
    requires m <= |s|
    ensures s == s[..m] + s[m..]
  {
  }

  lemma {:induction false} HasMember(b: seq<nat>)
    ensures b == [] || exists x: nat :: x in b
  {
    if b != [] { assert b[0] in b; }
  }
}
