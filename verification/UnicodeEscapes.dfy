/** `\uXXXX` and `\u{X...}`, section 12.9.4 of ECMA-262 (2023), read digit by digit in 32 bits. */
module UnicodeEscapes {
  import opened Bytes

  const MAX_CHAR: nat := 0x10FFFF

  datatype Escape = Escape(width: nat, scalar: nat)

  function Digit(b: byte): (d: Option<nat>)
    ensures d.Some? ==> d.value < 16
  {
    if 0x30 <= b <= 0x39 then Some(b as int - 0x30)
    else if 0x61 <= b <= 0x66 then Some(b as int - 0x57)
    else if 0x41 <= b <= 0x46 then Some(b as int - 0x37)
    else None
  }

  /** How many hexadecimal digits stand at `i`. */
  function DigitRun(bytes: Source, i: nat): (n: nat)
    ensures i <= |bytes| ==> i + n <= |bytes|
    ensures forall k | i <= k < i + n && k < |bytes| :: Digit(bytes[k]).Some?
    ensures i + n < |bytes| ==> Digit(bytes[i + n]).None?
    decreases |bytes| - i
  {
    if i < |bytes| && Digit(bytes[i]).Some? then 1 + DigitRun(bytes, i + 1) else 0
  }

  function Power(n: nat): (p: nat)
    ensures p >= 1
  {
    if n == 0 then 1 else 16 * Power(n - 1)
  }

  /** What a digit with `n` digits behind it is worth. */
  function Worth(digit: nat, n: nat): nat {
    digit * Power(n)
  }

  /** The value of `n` digits at `i`, each by its place. */
  function Value(bytes: Source, i: nat, n: nat): nat
    requires i + n <= |bytes| && forall k | i <= k < i + n :: Digit(bytes[k]).Some?
    decreases n
  {
    if n == 0 then 0 else Worth(Digit(bytes[i]).value, n - 1) + Value(bytes, i + 1, n - 1)
  }

  lemma {:induction false} Sixteenfold(d: nat, p: nat)
    ensures d * (16 * p) == (d * p) * 16
  {
  }

  lemma {:induction false} DigitBound(d: nat, p: nat)
    requires d < 16
    ensures d * p + p <= 16 * p
  {
    assert (15 - d) * p >= 0;
  }

  /** One more digit behind: what was there counts sixteen times as much. */
  lemma {:induction false} ValueAppend(bytes: Source, i: nat, n: nat)
    requires i + n < |bytes| && forall k | i <= k <= i + n :: Digit(bytes[k]).Some?
    ensures Value(bytes, i, n + 1) == Value(bytes, i, n) * 16 + Digit(bytes[i + n]).value
    decreases n
  {
    if n > 0 {
      ValueAppend(bytes, i + 1, n - 1);
      Sixteenfold(Digit(bytes[i]).value, Power(n - 1));
    } else {
      assert Power(0) == 1;
    }
  }

  lemma {:induction false} ValueGrows(bytes: Source, i: nat, m: nat, n: nat)
    requires m <= n && i + n <= |bytes| && forall k | i <= k < i + n :: Digit(bytes[k]).Some?
    ensures Value(bytes, i, m) <= Value(bytes, i, n)
    decreases n - m
  {
    if m < n {
      ValueAppend(bytes, i, n - 1);
      ValueGrows(bytes, i, m, n - 1);
    }
  }

  lemma {:induction false} ValueBound(bytes: Source, i: nat, n: nat)
    requires i + n <= |bytes| && forall k | i <= k < i + n :: Digit(bytes[k]).Some?
    ensures Value(bytes, i, n) < Power(n)
    decreases n
  {
    if n > 0 {
      ValueBound(bytes, i + 1, n - 1);
      DigitBound(Digit(bytes[i]).value, Power(n - 1));
    }
  }

  predicate IsScalar(v: nat) {
    v <= MAX_CHAR && !(0xD800 <= v <= 0xDFFF)
  }

  function HasPrefix(bytes: Source): bool {
    |bytes| >= 2 && bytes[0] == 0x5C && bytes[1] == 0x75
  }

  predicate IsBraced(bytes: Source) {
    |bytes| > 2 && bytes[2] == 0x7B
  }

  /** The escape `bytes` begin with, by the value of its digits. */
  function Decoded(bytes: Source): Option<Escape> {
    if !HasPrefix(bytes) then None
    else if IsBraced(bytes) then
      var n := DigitRun(bytes, 3);
      if n > 0 && 3 + n < |bytes| && bytes[3 + n] == 0x7D && IsScalar(Value(bytes, 3, n))
      then Some(Escape(3 + n + 1, Value(bytes, 3, n))) else None
    else if DigitRun(bytes, 2) >= 4 && IsScalar(Value(bytes, 2, 4)) then Some(Escape(6, Value(bytes, 2, 4)))
    else None
  }

  lemma {:induction false} RunHolds(bytes: Source, i: nat, k: nat)
    requires i <= k <= |bytes| && forall j | i <= j < k :: Digit(bytes[j]).Some?
    ensures DigitRun(bytes, i) >= k - i
    decreases k - i
  {
    if i < k { RunHolds(bytes, i + 1, k); }
  }

  /** However many digits there are, the value stays within 32 bits until it is seen to be too large. */
  method UnicodeEscape(bytes: Source) returns (r: Option<Escape>)
    ensures r == Decoded(bytes)
  {
    if !HasPrefix(bytes) { return None; }
    var braced := IsBraced(bytes);
    var first: nat := if braced then 3 else 2;
    var cursor, digits, value := first, 0, 0;
    while (braced || digits < 4) && cursor < |bytes| && Digit(bytes[cursor]).Some?
      invariant cursor == first + digits <= |bytes| && (braced || digits <= 4)
      invariant forall k | first <= k < cursor :: Digit(bytes[k]).Some?
      invariant value == Value(bytes, first, digits) <= MAX_CHAR
      decreases |bytes| - cursor
    {
      var digit := Digit(bytes[cursor]).value;
      ValueAppend(bytes, first, digits);
      assert value * 16 + digit < 0x1_0000_0000;
      value := value * 16 + digit;
      if value > MAX_CHAR {
        TooLarge(bytes, first, digits + 1, braced);
        return None;
      }
      digits, cursor := digits + 1, cursor + 1;
    }
    RunHolds(bytes, first, cursor);
    if braced {
      if digits == 0 || cursor >= |bytes| || bytes[cursor] != 0x7D { return None; }
      cursor := cursor + 1;
    } else if digits != 4 {
      return None;
    }
    r := if IsScalar(value) then Some(Escape(cursor, value)) else None;
  }

  lemma {:induction false} TooLarge(bytes: Source, first: nat, n: nat, braced: bool)
    requires HasPrefix(bytes) && braced == IsBraced(bytes) && first == (if braced then 3 else 2)
    requires first + n <= |bytes| && forall k | first <= k < first + n :: Digit(bytes[k]).Some?
    requires Value(bytes, first, n) > MAX_CHAR && (braced || n <= 4)
    ensures Decoded(bytes) == None
  {
    RunHolds(bytes, first, first + n);
    if braced {
      ValueGrows(bytes, first, n, DigitRun(bytes, first));
    } else {
      ValueBound(bytes, first, n);
      assert Power(4) == 0x10000 by { assert Power(3)
                                     == 0x1000 by { assert Power(2) == 0x100 by { assert Power(1) == 0x10; } } }
      PowerGrows(n, 4);
    }
  }

  lemma {:induction false} PowerGrows(m: nat, n: nat)
    requires m <= n
    ensures Power(m) <= Power(n)
    decreases n - m
  {
    if m < n { PowerGrows(m, n - 1); }
  }
}
