/** Line starts, and the byte offset a client's line-and-character position names. */
module Positions {
  import opened Bytes

  /** A line begins at `x`: the very start, or right behind a terminator that a CRLF pair does not continue. */
  predicate IsLineStart(s: Source, x: nat) {
    || x == 0
    || (x <= |s| && (s[x - 1] == LF || (s[x - 1] == CR && (x == |s| || s[x] != LF))))
  }

  /** `lines` holds the line starts of `s`, all of them and nothing else, in order. */
  ghost predicate IsLineTable(s: Source, lines: seq<nat>) {
    && (forall i, j | 0 <= i < j < |lines| :: lines[i] < lines[j])
    && (forall x: nat :: x in lines <==> IsLineStart(s, x))
  }

  method LineCheckpoints(source: Source) returns (lines: seq<nat>)
    ensures IsLineTable(source, lines)
  {
    lines := [0];
    var index: nat := 0;
    while index < |source|
      invariant index <= |source|
      invariant lines != [] && lines[|lines| - 1] <= index
      invariant index > 0 && source[index - 1] == CR && index < |source| ==> source[index] != LF
      invariant forall i, j | 0 <= i < j < |lines| :: lines[i] < lines[j]
      invariant forall x <- lines :: x <= index
      invariant forall x: nat | x <= index :: x in lines <==> IsLineStart(source, x)
    {
      if source[index] == CR && index + 1 < |source| && source[index + 1] == LF {
        index := index + 2;
        lines := lines + [index];
      } else if source[index] == CR || source[index] == LF {
        index := index + 1;
        lines := lines + [index];
      } else {
        index := index + 1;
      }
    }
  }

  /** A table is determined by the source alone. */
  lemma {:induction false} LineTableUnique(s: Source, a: seq<nat>, b: seq<nat>)
    requires IsLineTable(s, a) && IsLineTable(s, b)
    ensures a == b
  {
    SortedSameElements(a, b);
  }

  lemma {:induction false} SortedSameElements(a: seq<nat>, b: seq<nat>)
    requires forall i, j | 0 <= i < j < |a| :: a[i] < a[j]
    requires forall i, j | 0 <= i < j < |b| :: b[i] < b[j]
    requires forall x: nat :: x in a <==> x in b
    ensures a == b
    decreases |a|
  {
    if a == [] {
      HasMember(b);
    } else {
      assert a[0] in b && b != [] && b[0] in a;
      assert a[0] == b[0];
      forall x: nat
        ensures x in a[1..] <==> x in b[1..]
      {
        assert x in a <==> x == a[0] || x in a[1..];
        assert x in b <==> x == b[0] || x in b[1..];
      }
      SortedSameElements(a[1..], b[1..]);
      assert a == [a[0]] + a[1..] && b == [b[0]] + b[1..];
    }
  }

  /** Line `n` stops where line `n + 1` starts, less the one terminator in between; the last stops at the end. */
  function LineEnd(source: Source, lines: seq<nat>, n: nat): (end: nat)
    requires n < |lines|
    requires n + 1 < |lines| ==> 0 < lines[n + 1] <= |source|
  {
    var start := lines[n];
    var rawEnd := if n + 1 < |lines| then lines[n + 1] else |source|;
    if rawEnd > start && rawEnd > 0 && rawEnd <= |source| && source[rawEnd - 1] == LF then
      if rawEnd > start + 1 && source[rawEnd - 2] == CR then rawEnd - 2 else rawEnd - 1
    else if rawEnd > start && rawEnd > 0 && rawEnd <= |source| && source[rawEnd - 1] == CR then rawEnd - 1
    else rawEnd
  }

  lemma {:induction false} BetweenLines(source: Source, lines: seq<nat>, n: nat, x: nat)
    requires IsLineTable(source, lines) && n < |lines|
    requires lines[n] < x <= |source| && (n + 1 < |lines| ==> x < lines[n + 1])
    ensures !IsLineStart(source, x)
  {
    forall k | 0 <= k < |lines|
      ensures lines[k] != x
    {
      if k < n { assert lines[k] < lines[n]; } else if n + 1 < k { assert lines[n + 1] < lines[k]; }
    }
    assert x !in lines;
  }

  /** A line holds no terminator byte, and exactly one terminator stands between it and the next. */
  lemma {:induction false} LineHoldsNoTerminator(source: Source, lines: seq<nat>, n: nat)
    requires IsLineTable(source, lines) && n < |lines|
    ensures n + 1 < |lines| ==> 0 < lines[n + 1] <= |source|
    ensures lines[n] <= LineEnd(source, lines, n) <= |source|
    ensures forall i | lines[n] <= i < LineEnd(source, lines, n) :: source[i] != CR && source[i] != LF
    ensures n + 1 < |lines| ==> TerminatorWidth(source, LineEnd(source, lines, n))
                                == Some(lines[n + 1] - LineEnd(source, lines, n))
    ensures n + 1 == |lines| ==> LineEnd(source, lines, n) == |source|
  {
    assert lines[n] in lines;
    if n + 1 < |lines| { assert lines[n + 1] in lines; }
    var start, end := lines[n], LineEnd(source, lines, n);
    var rawEnd := if n + 1 < |lines| then lines[n + 1] else |source|;
    forall x: nat | start < x <= |source| && (n + 1 < |lines| ==> x < lines[n + 1])
      ensures !IsLineStart(source, x)
    {
      BetweenLines(source, lines, n, x);
    }
    if n + 1 == |lines| && start < |source| { assert !IsLineStart(source, |source|); }
    forall i | start <= i < end
      ensures source[i] != CR && source[i] != LF
    {
      assert !IsLineStart(source, i + 1) || i + 1 == rawEnd;
      if i + 2 < rawEnd { assert !IsLineStart(source, i + 2); }
    }
  }

  // ---- UTF-8, section 4 of RFC 3629 ----

  datatype PositionEncoding = Utf8 | Utf16 | Utf32

  predicate IsTail(b: byte) {
    0x80 <= b <= 0xBF
  }

  /** The width of the well-formed UTF-8 character `s` begins with, when it begins with one. */
  function CharWidth(s: Source): (w: Option<nat>)
    ensures w.Some? ==> 1 <= w.value <= 4 && w.value <= |s|
  {
    if s == [] then None
    else if s[0] <= 0x7F then Some(1)
    else if 0xC2 <= s[0] <= 0xDF then
      if |s| >= 2 && IsTail(s[1]) then Some(2) else None
    else if 0xE0 <= s[0] <= 0xEF then
      if |s| >= 3 && SecondOfThree(s[0], s[1]) && IsTail(s[2]) then Some(3) else None
    else if 0xF0 <= s[0] <= 0xF4 then
      if |s| >= 4 && SecondOfFour(s[0], s[1]) && IsTail(s[2]) && IsTail(s[3]) then Some(4) else None
    else None
  }

  /** Only the bytes of the character itself are read. */
  lemma {:induction false} CharWidthIsLocal(s: Source, t: Source, w: nat)
    requires CharWidth(s) == Some(w) && w <= |t| && t[..w] == s[..w]
    ensures CharWidth(t) == Some(w)
  {
    assert forall i | 0 <= i < w :: t[..w][i] == t[i] && s[..w][i] == s[i];
  }

  /** No overlong form (E0) and no surrogate (ED). */
  predicate SecondOfThree(first: byte, second: byte) {
    if first == 0xE0 then 0xA0 <= second <= 0xBF
    else if first == 0xED then 0x80 <= second <= 0x9F
    else IsTail(second)
  }

  /** No overlong form (F0) and nothing past U+10FFFF (F4). */
  predicate SecondOfFour(first: byte, second: byte) {
    if first == 0xF0 then 0x90 <= second <= 0xBF
    else if first == 0xF4 then 0x80 <= second <= 0x8F
    else IsTail(second)
  }

  predicate ValidUtf8(s: Source) {
    s == [] || (CharWidth(s).Some? && ValidUtf8(s[CharWidth(s).value..]))
  }

  /** The code units one character of UTF-8 width `w` takes. */
  function CharUnits(w: nat, encoding: PositionEncoding): nat {
    match encoding
    case Utf8 => w
    case Utf16 => if w == 4 then 2 else 1
    case Utf32 => 1
  }

  function Units(s: Source, encoding: PositionEncoding): nat
    requires ValidUtf8(s)
  {
    if s == [] then 0
    else CharUnits(CharWidth(s).value, encoding) + Units(s[CharWidth(s).value..], encoding)
  }

  /** Offset `o` of `text` is a character boundary with exactly `k` units in front of it. */
  ghost predicate Stands(text: Source, o: int, k: nat, encoding: PositionEncoding) {
    0 <= o <= |text| && ValidUtf8(text[..o]) && Units(text[..o], encoding) == k
  }

  /** The boundary with `k` units in front of it, searched for from the left. */
  function Find(text: Source, k: nat, encoding: PositionEncoding): Option<nat>
    requires ValidUtf8(text)
    decreases |text|
  {
    if k == 0 then Some(0)
    else if text == [] then None
    else
      var w := CharWidth(text).value;
      var u := CharUnits(w, encoding);
      if u > k then None
      else
        Ahead(Find(text[w..], k - u, encoding), w)
  }

  /** A boundary past the first character is that character and a boundary of the rest. */
  lemma {:induction false} StandsBehindFirst(text: Source, o: int, k: nat, encoding: PositionEncoding)
    requires ValidUtf8(text) && text != [] && o > 0
    ensures var w := CharWidth(text).value;
            var u := CharUnits(w, encoding);
            Stands(text, o, k, encoding) <==> u <= k && Stands(text[w..], o - w, k - u, encoding)
  {
    var w := CharWidth(text).value;
    if w <= o <= |text| {
      assert text[..o][..w] == text[..w];
      CharWidthIsLocal(text, text[..o], w);
      assert text[..o][w..] == text[w..][..o - w];
    }
  }

  /** One step of the search. */
  lemma {:induction false} FindStep(text: Source, k: nat, encoding: PositionEncoding, o: int)
    requires ValidUtf8(text) && text != [] && o > 0
    ensures var w := CharWidth(text).value;
            var u := CharUnits(w, encoding);
            (Find(text, k, encoding) == Some(o)
             <==> k > 0 && u <= k && o >= w && Find(text[w..], k - u, encoding) == Some(o - w))
  {
  }

  /** The search answers exactly the boundary asked for, and nothing when there is none. */
  lemma {:induction false} FindIsExact(text: Source, k: nat, encoding: PositionEncoding, o: int)
    requires ValidUtf8(text)
    ensures (o >= 0 && Find(text, k, encoding) == Some(o)) <==> Stands(text, o, k, encoding)
    decreases |text|
  {
    if o == 0 {
      assert text[..0] == [];
    } else if o > 0 && text != [] {
      var w := CharWidth(text).value;
      var u := CharUnits(w, encoding);
      StandsBehindFirst(text, o, k, encoding);
      FindStep(text, k, encoding, o);
      if u <= k {
        FindIsExact(text[w..], k - u, encoding, o - w);
      }
    }
  }

  /** Counting bytes: the units of a UTF-8 text are its length. */
  lemma {:induction false} Utf8UnitsAreBytes(s: Source)
    requires ValidUtf8(s)
    ensures Units(s, Utf8) == |s|
    decreases |s|
  {
    if s != [] { Utf8UnitsAreBytes(s[CharWidth(s).value..]); }
  }

  /** What a position names: a boundary of line `n`, terminator excluded, `k` units from its start. */
  ghost predicate Names(source: Source, lines: seq<nat>, n: nat, k: nat, encoding: PositionEncoding, o: int)
    requires IsLineTable(source, lines)
  {
    && n < |lines|
    && (n + 1 < |lines| ==> 0 < lines[n + 1] <= |source|)
    && var start, end := lines[n], LineEnd(source, lines, n);
    && start <= end <= |source|
    && (encoding != Utf8 ==> ValidUtf8(source[start..end]))
    && Stands(source[start..end], o - start, k, encoding)
  }

  /** A byte count names the offset that many bytes in, when a character ends there. */
  lemma {:induction false} NamesInBytes(source: Source, lines: seq<nat>, n: nat, k: nat, o: int)
    requires IsLineTable(source, lines) && n < |lines|
    requires n + 1 < |lines| ==> 0 < lines[n + 1] <= |source|
    requires lines[n] <= LineEnd(source, lines, n) <= |source|
    ensures Names(source, lines, n, k, Utf8, o)
       <==> o == lines[n] + k && o <= LineEnd(source, lines, n) && ValidUtf8(source[lines[n]..o])
  {
    var start, end := lines[n], LineEnd(source, lines, n);
    if start <= o <= end {
      SliceOfSlice(source, start, end, 0, o - start);
      if ValidUtf8(source[start..o]) { Utf8UnitsAreBytes(source[start..o]); }
    }
  }

  /** One round of the walk below: the search of the rest, one character on. */
  lemma {:induction false} WalkStep(rest: Source, k: nat, relative: nat, encoding: PositionEncoding)
    requires ValidUtf8(rest) && rest != [] && k > 0
    ensures var w := CharWidth(rest).value;
            var u := CharUnits(w, encoding);
            && ValidUtf8(rest[w..])
            && Ahead(Find(rest, k, encoding), relative)
               == if u > k then None else Ahead(Find(rest[w..], k - u, encoding), relative + w)
  {
  }

  /** The walk over a line's characters. */
  method Walk(text: Source, character: nat, encoding: PositionEncoding) returns (r: Option<nat>)
    requires ValidUtf8(text)
    ensures r == Find(text, character, encoding)
  {
    var units: nat, relative: nat := 0, 0;
    var rest := text;
    while relative < |text|
      invariant relative + |rest| == |text| && units <= character
      invariant ValidUtf8(rest)
      invariant Find(text, character, encoding) == Ahead(Find(rest, character - units, encoding), relative)
    {
      if units == character { return Some(relative); }
      WalkStep(rest, character - units, relative, encoding);
      var w := CharWidth(rest).value;
      units := units + CharUnits(w, encoding);
      if units > character { return None; }
      relative := relative + w;
      rest := rest[w..];
    }
    r := if units == character then Some(relative) else None;
  }

  function Ahead(found: Option<nat>, width: nat): Option<nat> {
    match found
    case Some(o) => Some(width + o)
    case None => None
  }

  /**
   * The offset of a position, or `None` for a line that does not exist, a character past its end, one
   * inside a character, and, unless counting bytes, a line that is not UTF-8.
   */
  method ByteOffset(source: Source, lines: seq<nat>, line: nat, character: nat, encoding: PositionEncoding)
    returns (r: Option<nat>)
    requires IsLineTable(source, lines)
    ensures forall o: int :: Names(source, lines, line, character, encoding, o) <==> o >= 0 && r == Some(o)
  {
    if line >= |lines| { return None; }
    LineHoldsNoTerminator(source, lines, line);
    var start, end := lines[line], LineEnd(source, lines, line);
    if encoding == Utf8 {
      var offset := start + character;
      r := if offset <= end && ValidUtf8(source[start..offset]) then Some(offset) else None;
      forall o: int
        ensures Names(source, lines, line, character, Utf8, o) <==> o >= 0 && r == Some(o)
      {
        NamesInBytes(source, lines, line, character, o);
      }
      return;
    }
    var text := source[start..end];
    if !ValidUtf8(text) { return None; }
    var found := Walk(text, character, encoding);
    r := Ahead(found, start);
    forall o: int
      ensures Names(source, lines, line, character, encoding, o) <==> o >= 0 && r == Some(o)
    {
      FindIsExact(text, character, encoding, o - start);
    }
  }
}
