/**
 * The gap between two visible bytes of a text that faithful edits make: when it holds a blank line, and how
 * many lines it is long.
 */
module Gaps {
  import opened Arrivals
  import opened Bytes
  import opened Collapse
  import opened Edits
  import opened Fusions
  import opened LineNumbers
  import opened Outlines

  /** A blank line of `s` lies behind `from`, and ends no further than `to`. */
  ghost predicate BlankBetween(s: Source, from: int, to: int) {
    exists l: nat :: BlankWithin(s, l, from, to)
  }

  ghost predicate BlankWithin(s: Source, l: nat, from: int, to: int) {
    && BlankLine(s, LineStarts(s), l)
    && from < LineStarts(s)[l] && LineStop(s, LineStarts(s), l) <= to
  }

  /** A line that begins at `x` and shows nothing up to a place no further than `to` where a line begins is blank. */
  lemma {:induction false} BlankFromBoundary(s: Source, x: nat, z: nat, from: int, to: int)
    requires LineBoundary(s, x) && LineBoundary(s, z) && from < x < z <= to && z <= |s|
    requires forall i | x <= i < z :: SymAt(s, i) != Ink
    ensures BlankBetween(s, from, to)
  {
    LineStartsTable(s);
    var starts := LineStarts(s);
    var l :| 0 <= l < |starts| && starts[l] == x;
    var m :| 0 <= m < |starts| && starts[m] == z;
    InOrderOfStarts(starts, l, m);
    InOrderOfStarts(starts, l + 1, m);
    assert BlankWithin(s, l, from, to);
  }

  /** The line a break is part of ends in front of the next visible byte, or in front of the next carriage return. */
  lemma {:induction false} BreakEnds(s: Source, t: nat, to: nat) returns (z: nat)
    requires t < to < |s| && SymAt(s, t) == Break && (SymAt(s, to) == Ink || s[to] == CR)
    ensures t < z <= to && LineBoundary(s, z)
    ensures forall i | t <= i < z :: SymAt(s, i) == Break
  {
    if s[t] == CR && s[t + 1] == LF {
      z := t + 2;
    } else if s[t] == CR || s[t] == LF {
      z := t + 1;
    } else if SeparatorAt(s, t) {
      assert InSeparator(s, t + 1) && InSeparator(s, t + 2);
      z := t + 3;
    } else if SeparatorAt(s, t - 1) {
      assert InSeparator(s, t + 1);
      z := t + 2;
    } else {
      z := t + 1;
    }
  }

  /** A walk that has seen a line break last passed blanks alone since. */
  lemma {:induction false} LastBreak(cells: seq<Cell>) returns (t: nat)
    requires Walk(cells, START).gap == Broken
    ensures t < |cells| && cells[t].sym == Break
    ensures forall i | t < i < |cells| :: cells[i].sym == Blank
    decreases |cells|
  {
    var n := |cells| - 1;
    assert cells == cells[..n] + [cells[n]];
    WalkOne(cells[..n], cells[n]);
    if cells[n].sym == Break {
      t := n;
    } else {
      t := LastBreak(cells[..n]);
    }
  }

  /** A cut that hides nothing on either side is clean. */
  lemma {:induction false} PrefixIsClean(x: Source, s: Source)
    requires x <= s && Cells(x) <= Cells(s)
    ensures CleanCut(s, |x|)
  {
    assert s == x + s[|x|..];
    if x != [] { assert Cells(x)[|x| - 1] == Cells(s)[|x| - 1]; }
    if !CleanCut(s, |x|) { HiddenAtSeam(x, s[|x|..]); }
  }

  /** A carriage return ends `front` and a line feed begins `rest`. */
  predicate Meet(front: Source, rest: Source) {
    front != [] && rest != [] && front[|front| - 1] == CR && rest[0] == LF
  }

  // ---- blank lines that stay ----

  /** In front of a line the edits leave alone, and behind code, the text written has broken the line. */
  lemma {:induction false} BrokenInFront(source: Source, spans: seq<ByteSpan>, edits: seq<Edit>, k: nat, p: nat, x: nat)
    requires Fair(source, spans, edits) && Amid(source, edits, k, x)
    requires p < x && Shown(source, p) && Survives(edits, p) && LineBoundary(source, x)
    ensures Walk(Cells(Front(source, spans, edits, k, x)), START).gap == Broken
  {
    var b := Blanked(source, spans);
    var cells := Cells(b)[..x];
    SurvivorIsBare(source, spans, edits, p);
    BlankedSymAt(source, spans, p);
    BlankedSymAt(source, spans, x - 1);
    assert cells[p].sym == Ink && cells[x - 1].sym == Break;
    WalkLast(cells);
    WalkUnseen(cells, START);
    Arrives(source, spans, edits, k, x);
  }

  /** Where the last line in front of a place begins, when nothing has been seen on it. */
  lemma {:induction false} BoundaryInFront(w: Source, out: Source) returns (x: nat)
    requires w <= out && Cells(w) <= Cells(out) && |w| < |out|
    requires Walk(Cells(w), START).gap == Broken && !Meet(w, out[|w|..])
    ensures 0 < x <= |w| && LineBoundary(out, x) && SymAt(out, x - 1) == Break
    ensures forall i | x <= i < |w| :: SymAt(out, i) != Ink
  {
    var t := LastBreak(Cells(w));
    x := t + 1;
    forall i | 0 <= i < |w|
      ensures SymAt(out, i) == Cells(w)[i].sym && out[i] == w[i]
    {
      assert Cells(w)[i] == Cells(out)[i];
    }
    PrefixIsClean(w, out);
    if x < |w| {
      assert SymAt(out, x) == Blank;
    } else {
      assert out[|w|..][0] == out[|w|];
    }
  }

  /** The first line that begins behind a line the edits leave alone. */
  lemma {:induction false} BoundaryBehind(w: Source, out: Source, to: nat) returns (z: nat)
    requires w <= out && Cells(w) <= Cells(out) && w != []
    requires Cells(w)[|w| - 1].sym == Break && |w| <= to < |out| && SymAt(out, to) == Ink
    ensures |w| <= z <= to && LineBoundary(out, z)
    ensures forall i | |w| <= i < z :: SymAt(out, i) != Ink
  {
    assert Cells(w)[|w| - 1] == Cells(out)[|w| - 1];
    PrefixIsClean(w, out);
    if out[|w| - 1] == CR && out[|w|] == LF {
      z := |w| + 1;
    } else {
      z := |w|;
    }
  }

  /** What is written in front of line `a`, and of the line behind it. */
  ghost predicate LeftAlone(source: Source, edits: seq<Edit>, k: nat, a: nat) {
    var starts := LineStarts(source);
    && a + 1 < |starts| && Amid(source, edits, k, starts[a]) && Amid(source, edits, k, starts[a + 1])
  }

  /** A blank line the edits leave alone lies between edits. */
  lemma {:induction false} UntouchedIsAmid(source: Source, edits: seq<Edit>, a: nat) returns (k: nat)
    requires Ordered(edits, 0, |source|) && Untouched(source, edits, a) && a + 1 < |LineStarts(source)|
    ensures LeftAlone(source, edits, k, a)
  {
    LineStartsTable(source);
    OrderedBounds(edits, 0, |source|);
    InOrderOfStarts(LineStarts(source), a, a + 1);
    k := EditsBefore(edits, |edits|, LineStarts(source)[a], LineStarts(source)[a + 1]);
    if k > 0 { assert edits[k - 1] in edits; }
  }

  lemma {:induction false} EditsBefore(edits: seq<Edit>, n: nat, x: nat, y: nat) returns (k: nat)
    requires n <= |edits| && forall e <- edits :: e.span.end <= x || y <= e.span.start
    requires n < |edits| ==> y <= edits[n].span.start
    ensures k <= n && (k > 0 ==> edits[k - 1].span.end <= x) && (k < |edits| ==> y <= edits[k].span.start)
  {
    if n > 0 && y <= edits[n - 1].span.start {
      k := EditsBefore(edits, n - 1, x, y);
    } else {
      k := n;
      if n > 0 { assert edits[n - 1] in edits; }
    }
  }

  lemma {:induction false} StartsAreLines(source: Source, a: nat)
    requires a < |LineStarts(source)|
    ensures LineBoundary(source, LineStarts(source)[a])
    ensures a > 0 ==> 0 < LineStarts(source)[a] && LineStarts(source)[a - 1] < LineStarts(source)[a]
    ensures a > 0 ==> SymAt(source, LineStarts(source)[a] - 1) == Break
  {
    LineStartsTable(source);
    if a > 0 { InOrderOfStarts(LineStarts(source), a - 1, a); }
  }

  /** The line is copied: nothing of it is seen, and it ends as it did. */
  lemma {:induction false} LineArrives(source: Source, spans: seq<ByteSpan>, edits: seq<Edit>, k: nat, a: nat)
    requires Fair(source, spans, edits) && LeftAlone(source, edits, k, a) && BlankLine(source, LineStarts(source), a)
    ensures var x, y := LineStarts(source)[a], LineStarts(source)[a + 1];
            var w, v := Front(source, spans, edits, k, x), Front(source, spans, edits, k, y);
            && x < y <= |source| && v == w + source[x..y] && |v| <= |Cells(v)|
            && Cells(v)[|v| - 1].sym == Break
            && forall i | |w| <= i < |v| :: Cells(v)[i].sym != Ink
  {
    hide Front, Fair, LineBoundary, Blanked, Covered, SymAt, LineStarts;
    var x, y := LineStarts(source)[a], LineStarts(source)[a + 1];
    var b, w, v := Blanked(source, spans), Front(source, spans, edits, k, x), Front(source, spans, edits, k, y);
    StartsAreLines(source, a + 1);
    StretchArrives(source, spans, edits, k, x, y);
    FrontGoesOn(source, spans, edits, k, x, y);
    forall i | |w| <= i < |v|
      ensures Cells(v)[i].sym != Ink && (i == |v| - 1 ==> Cells(v)[i].sym == Break)
    {
      BlankedSymAt(source, spans, x + (i - |w|));
      assert Cells(v)[i] == Cells(b)[x..y][i - |w|];
    }
  }

  lemma {:induction false} SeamOfLine(source: Source, out: Source, w: Source, x: nat, y: nat)
    requires x < y <= |source| && w + source[x..y] <= out
    ensures |w| < |out| && (Meet(w, out[|w|..]) <==> Meet(w, source[x..]))
  {
    assert (w + source[x..y])[|w|] == source[x];
  }

  /**
   * A blank line between code and code that the edits leave alone is a blank line of the text they make,
   * unless it begins with a line feed and is put behind a carriage return.
   */
  lemma {:induction false} BlankLineStays(source: Source, spans: seq<ByteSpan>, edits: seq<Edit>, k: nat, p: nat,
                                          a: nat, q: nat)
    requires Fair(source, spans, edits) && LeftAlone(source, edits, k, a) && BlankLine(source, LineStarts(source), a)
    requires p < LineStarts(source)[a] && LineStarts(source)[a + 1] <= q
    requires Shown(source, p) && Survives(edits, p) && Shown(source, q) && Survives(edits, q)
    requires LineStarts(source)[a] <= |source|
    requires !Meet(Front(source, spans, edits, k, LineStarts(source)[a]), source[LineStarts(source)[a]..])
    ensures BlankBetween(Apply(source, edits), Landed(edits, p), Landed(edits, q))
  {
    hide Front, Walk, Survives, LineBoundary, CleanCut, SymAt, BlankBetween, Amid, AllFaithful, Taken;
    var out, x, y := Apply(source, edits), LineStarts(source)[a], LineStarts(source)[a + 1];
    var w, v := Front(source, spans, edits, k, x), Front(source, spans, edits, k, y);
    StartsAreLines(source, a);
    InkLandsInFront(source, spans, edits, p, k, x);
    InkLandsBehind(source, spans, edits, q, k, y);
    BrokenInFront(source, spans, edits, k, p, x);
    FrontIsPrefix(source, spans, edits, k, x);
    FrontIsPrefix(source, spans, edits, k, y);
    LineArrives(source, spans, edits, k, a);
    SeamOfLine(source, out, w, x, y);
    var b := BoundaryInFront(w, out);
    var z := BoundaryBehind(v, out, Landed(edits, q));
    BlankStretch(out, w, v, b, z, Landed(edits, p), Landed(edits, q));
  }

  lemma {:induction false} BlankStretch(out: Source, w: Source, v: Source, x: nat, z: nat, from: nat, to: nat)
    requires Cells(v) <= Cells(out) && |w| <= |v| <= |out| && from < |w| && from < |out| && SymAt(out, from) == Ink
    requires 0 < x <= |w| && LineBoundary(out, x) && forall i | x <= i < |w| :: SymAt(out, i) != Ink
    requires |v| <= z <= to <= |out| && LineBoundary(out, z) && forall i | |v| <= i < z :: SymAt(out, i) != Ink
    requires |w| < |v| && forall i | |w| <= i < |v| :: Cells(v)[i].sym != Ink
    requires SymAt(out, x - 1) == Break
    ensures BlankBetween(out, from, to)
  {
    forall i | |w| <= i < |v|
      ensures SymAt(out, i) != Ink
    {
      assert Cells(v)[i] == Cells(out)[i];
    }
    BlankFromBoundary(out, x, z, from, to);
  }

  // ---- without lone carriage returns ----

  lemma {:induction false} FrontHasNoLoneCR(source: Source, spans: seq<ByteSpan>, edits: seq<Edit>, k: nat, x: nat)
    requires Fair(source, spans, edits) && Amid(source, edits, k, x) && WholeTerminators(source, x)
    requires NoLoneCR(source) && forall e <- edits :: KeepsPairs(source, e)
    ensures NoLoneCR(Front(source, spans, edits, k, x))
    decreases k
  {
    hide Front, NoLoneCR, Fair;
    if k == 0 {
      StartIsAmid(source, spans, edits);
      FrontGoesOn(source, spans, edits, 0, 0, x);
      NothingInFront(source, spans, edits);
      NoLoneCRSlice(source, 0, x);
      assert [] + source[0..x] == source[0..x];
    } else {
      var e := edits[k - 1];
      assert e in edits;
      AmidEnds(source, spans, edits, k - 1);
      FrontHasNoLoneCR(source, spans, edits, k - 1, e.span.start);
      FrontOfEdit(source, spans, edits, k - 1);
      FrontGoesOn(source, spans, edits, k, e.span.end, x);
      NoLoneCRSlice(source, e.span.end, x);
      NoLoneCRJoin(Front(source, spans, edits, k - 1, e.span.start), e.replacement);
      NoLoneCRJoin(Front(source, spans, edits, k, e.span.end), source[e.span.end..x]);
    }
  }

  lemma {:induction false} NothingInFront(source: Source, spans: seq<ByteSpan>, edits: seq<Edit>)
    requires Fair(source, spans, edits) && Amid(source, edits, 0, 0)
    ensures Front(source, spans, edits, 0, 0) == []
  {
    assert edits[..0] == [];
  }

  /** Without lone carriage returns no line is put behind one. */
  lemma {:induction false} PairedLineStays(source: Source, spans: seq<ByteSpan>, edits: seq<Edit>, k: nat, p: nat,
                                           a: nat, q: nat)
    requires Fair(source, spans, edits) && LeftAlone(source, edits, k, a) && BlankLine(source, LineStarts(source), a)
    requires p < LineStarts(source)[a] && LineStarts(source)[a + 1] <= q
    requires Shown(source, p) && Survives(edits, p) && Shown(source, q) && Survives(edits, q)
    requires NoLoneCR(source) && forall e <- edits :: KeepsPairs(source, e)
    ensures BlankBetween(Apply(source, edits), Landed(edits, p), Landed(edits, q))
  {
    StartsAreLines(source, a);
    FrontHasNoLoneCR(source, spans, edits, k, LineStarts(source)[a]);
    BlankLineStays(source, spans, edits, k, p, a, q);
  }

  // ---- exactly when a gap keeps a blank line ----

  /** No code lies between `p` and `q`. */
  ghost predicate Clear(source: Source, spans: seq<ByteSpan>, p: nat, q: nat)
    requires q <= |source|
  {
    forall i | p < i < q :: SymAt(source, i) != Ink || Covered(spans, i)
  }

  lemma {:induction false} NoneIsNoInk(cells: seq<Cell>)
    requires Inks(cells) == 0
    ensures NoInk(cells)
    decreases |cells|
  {
    if cells != [] {
      NoneIsNoInk(cells[1..]);
      assert forall i | 1 <= i < |cells| :: cells[i] == cells[1..][i - 1];
    }
  }

  /** Where there is no code between two visible bytes of the source, there is none where they land. */
  lemma {:induction false} GapIsClear(source: Source, spans: seq<ByteSpan>, edits: seq<Edit>, p: nat, q: nat)
    requires Fair(source, spans, edits)
    requires Shown(source, p) && Survives(edits, p) && Shown(source, q) && Survives(edits, q)
    requires p < q && Clear(source, spans, p, q)
    ensures 0 <= Landed(edits, p) < Landed(edits, q) < |Apply(source, edits)|
    ensures SymAt(Apply(source, edits), Landed(edits, p)) == Ink && SymAt(Apply(source, edits), Landed(edits, q)) == Ink
    ensures forall i | Landed(edits, p) < i < Landed(edits, q) :: SymAt(Apply(source, edits), i) != Ink
  {
    hide Front, Walk, Marks, Survives, Covered, Taken, AllFaithful;
    var j := InkArrives(source, spans, edits, p);
    var k := InkArrives(source, spans, edits, q);
    InkLandsInFront(source, spans, edits, p, k, q);
    var v, w := Front(source, spans, edits, j, p + 1), Front(source, spans, edits, k, q);
    Arrives(source, spans, edits, j, p + 1);
    Arrives(source, spans, edits, k, q);
    FrontIsPrefix(source, spans, edits, j, p + 1);
    FrontIsPrefix(source, spans, edits, k, q);
    MarksCount(Cells(v), START);
    MarksCount(Cells(w), START);
    ClearIsNoInk(source, spans, p, q);
    RestShowsNothing(Cells(v), Cells(w), Cells(Apply(source, edits)));
    forall i | Landed(edits, p) < i < Landed(edits, q)
      ensures SymAt(Apply(source, edits), i) != Ink
    {
      assert Cells(w)[i] == Cells(Apply(source, edits))[i];
    }
  }

  lemma {:induction false} ClearIsNoInk(source: Source, spans: seq<ByteSpan>, p: nat, q: nat)
    requires p < q <= |source| && Clear(source, spans, p, q)
    ensures var cells := Cells(Blanked(source, spans));
            |Marks(cells[..p + 1], START)| == |Marks(cells[..q], START)|
  {
    var cells := Cells(Blanked(source, spans));
    var gap := cells[p + 1..q];
    forall i | 0 <= i < |gap|
      ensures gap[i].sym != Ink
    {
      BlankedSymAt(source, spans, p + 1 + i);
    }
    NoInkIsNone(gap);
    assert cells[..q] == cells[..p + 1] + gap;
    InksJoin(cells[..p + 1], gap);
    MarksCount(cells[..p + 1], START);
    MarksCount(cells[..q], START);
  }

  lemma {:induction false} RestShowsNothing(v: seq<Cell>, w: seq<Cell>, all: seq<Cell>)
    requires v <= all && w <= all && |v| <= |w| && Inks(v) == Inks(w)
    ensures forall i | |v| <= i < |w| :: w[i].sym != Ink
  {
    assert w == v + w[|v|..];
    InksJoin(v, w[|v|..]);
    NoneIsNoInk(w[|v|..]);
    assert forall i | |v| <= i < |w| :: w[i] == w[|v|..][i - |v|];
  }

  /** The line breaks between `from` and `to` are one carriage return and one line feed, side by side. */
  ghost predicate OnePair(s: Source, from: int, to: int) {
    exists c: nat :: OnlyPairAt(s, c, from, to)
  }

  ghost predicate OnlyPairAt(s: Source, c: nat, from: int, to: int) {
    && from + 1 < c < to < |s| && PairAt(s, c)
    && forall i: nat | from < i < to && SymAt(s, i) == Break :: i == c - 1 || i == c
  }

  lemma {:induction false} OnePairIsNoBlank(s: Source, from: nat, to: nat)
    requires from < to < |s| && SymAt(s, from) == Ink && OnePair(s, from, to)
    ensures !BlankBetween(s, from, to)
  {
    var c: nat :| OnlyPairAt(s, c, from, to);
    forall l: nat
      ensures !BlankWithin(s, l, from, to)
    {
      if l + 1 < |LineStarts(s)| { PairHasOneBoundary(s, c, from, to, l); }
    }
  }

  lemma {:induction false} PairHasOneBoundary(s: Source, c: nat, from: nat, to: nat, l: nat)
    requires from < to < |s| && SymAt(s, from) == Ink && OnlyPairAt(s, c, from, to)
    requires l + 1 < |LineStarts(s)|
    ensures !(from < LineStarts(s)[l] && LineStarts(s)[l + 1] <= to)
  {
    var x, z := LineStarts(s)[l], LineStarts(s)[l + 1];
    StartsAreLines(s, l);
    StartsAreLines(s, l + 1);
    assert PairAt(s, c) && s[c - 1] == CR;
  }

  /** A gap without code that holds another line break beside a pair holds a blank line. */
  lemma {:induction false} MoreThanPair(s: Source, c: nat, t: nat, from: nat, to: nat)
    requires from + 1 < c < to < |s| && PairAt(s, c) && SymAt(s, to) == Ink
    requires forall i: nat | from < i < to :: SymAt(s, i) != Ink
    requires from < t < to && SymAt(s, t) == Break && t != c - 1 && t != c
    ensures BlankBetween(s, from, to)
  {
    assert LineBoundary(s, c + 1);
    if t < c {
      var z := BreakEnds(s, t, c - 1);
      BlankFromBoundary(s, z, c + 1, from, to);
    } else {
      var z := BreakEnds(s, t, to);
      BlankFromBoundary(s, c + 1, z, from, to);
    }
  }

  /**
   * Between two bytes of code with no code between them, and a blank line the edits leave alone, the text has
   * a blank line unless all that is left of the line breaks is a carriage return and a line feed side by side.
   */
  lemma {:induction false} GapKeepsBlank(source: Source, spans: seq<ByteSpan>, edits: seq<Edit>, k: nat, p: nat, a: nat,
                                         q: nat)
    requires Fair(source, spans, edits) && LeftAlone(source, edits, k, a) && BlankLine(source, LineStarts(source), a)
    requires p < LineStarts(source)[a] && LineStarts(source)[a + 1] <= q
    requires Shown(source, p) && Survives(edits, p) && Shown(source, q) && Survives(edits, q)
    requires p < q && Clear(source, spans, p, q)
    ensures var out := Apply(source, edits);
            BlankBetween(out, Landed(edits, p), Landed(edits, q)) <==> !OnePair(out, Landed(edits, p), Landed(edits, q))
  {
    hide Front, Walk, Survives, LineBoundary, CleanCut, SymAt, BlankBetween, AllFaithful, Taken, OnePair, Clear;
    var out, x := Apply(source, edits), LineStarts(source)[a];
    var from, to := Landed(edits, p), Landed(edits, q);
    GapIsClear(source, spans, edits, p, q);
    if OnePair(out, from, to) {
      OnePairIsNoBlank(out, from, to);
    } else if Meet(Front(source, spans, edits, k, x), source[x..]) {
      MetLine(source, spans, edits, k, p, a, q);
      AnotherBreak(out, |Front(source, spans, edits, k, x)|, from, to);
    } else {
      BlankLineStays(source, spans, edits, k, p, a, q);
    }
  }

  lemma {:induction false} AnotherBreak(s: Source, c: nat, from: nat, to: nat)
    requires from + 1 < c < to < |s| && PairAt(s, c) && SymAt(s, to) == Ink
    requires forall i: nat | from < i < to :: SymAt(s, i) != Ink
    requires !OnePair(s, from, to)
    ensures BlankBetween(s, from, to)
  {
    assert !OnlyPairAt(s, c, from, to);
    var t: nat :| from < t < to && SymAt(s, t) == Break && t != c - 1 && t != c;
    MoreThanPair(s, c, t, from, to);
  }

  /** A line put behind a carriage return makes a pair with it. */
  lemma {:induction false} MetLine(source: Source, spans: seq<ByteSpan>, edits: seq<Edit>, k: nat, p: nat, a: nat,
                                   q: nat)
    requires Fair(source, spans, edits) && LeftAlone(source, edits, k, a) && BlankLine(source, LineStarts(source), a)
    requires p < LineStarts(source)[a] <= |source| && LineStarts(source)[a + 1] <= q
    requires Shown(source, p) && Survives(edits, p) && Shown(source, q) && Survives(edits, q)
    requires Meet(Front(source, spans, edits, k, LineStarts(source)[a]), source[LineStarts(source)[a]..])
    ensures var c := |Front(source, spans, edits, k, LineStarts(source)[a])|;
            Landed(edits, p) + 1 < c < Landed(edits, q) && PairAt(Apply(source, edits), c)
  {
    hide Front, Walk, Survives, LineBoundary, CleanCut, BlankBetween, AllFaithful, Taken;
    var out, x, y := Apply(source, edits), LineStarts(source)[a], LineStarts(source)[a + 1];
    var w, v := Front(source, spans, edits, k, x), Front(source, spans, edits, k, y);
    InkLandsInFront(source, spans, edits, p, k, x);
    InkLandsBehind(source, spans, edits, q, k, y);
    FrontIsPrefix(source, spans, edits, k, x);
    FrontIsPrefix(source, spans, edits, k, y);
    LineArrives(source, spans, edits, k, a);
    SeamOfLine(source, out, w, x, y);
  }

  // ---- how long a gap is ----

  lemma {:induction false} LinesEndedJoin(x: seq<byte>, y: seq<byte>)
    ensures LinesEnded(x + y) == LinesEnded(x) + LinesEnded(y)
    decreases |y|
  {
    if y == [] {
      assert x + y == x;
    } else {
      var n := |y| - 1;
      assert (x + y)[..|x + y| - 1] == x + y[..n];
      LinesEndedJoin(x, y[..n]);
    }
  }

  /** The bytes that end a line in `a..z`. */
  ghost function EndedIn(s: Source, a: nat, z: nat): nat
    requires a <= z <= |s|
  {
    LinesEnded(BreakBytes(Cells(s)[a..z]))
  }

  lemma {:induction false} EndedCounts(s: Source, a: nat, z: nat)
    requires a <= z <= |s|
    ensures LineNumber(s, z) + Pairs(s, z) == LineNumber(s, a) + Pairs(s, a) + EndedIn(s, a, z)
  {
    LineNumberCounts(s, a);
    LineNumberCounts(s, z);
    var cells := Cells(s);
    assert cells[..z] == cells[..a] + cells[a..z];
    BreakBytesJoin(cells[..a], cells[a..z]);
    LinesEndedJoin(BreakBytes(cells[..a]), BreakBytes(cells[a..z]));
  }

  /** `m` bytes of `s` from `i` on are those of `t` from `j` on. */
  ghost predicate Alike(s: Source, i: nat, t: Source, j: nat, m: nat) {
    i + m <= |s| && j + m <= |t| && s[i..i + m] == t[j..j + m]
  }

  lemma {:induction false} AlikeAt(s: Source, i: nat, t: Source, j: nat, m: nat, d: nat)
    requires Alike(s, i, t, j, m) && d < m
    ensures s[i + d] == t[j + d]
  {
    assert s[i..i + m][d] == t[j..j + m][d];
  }

  /** Stretches that read alike hold as many pairs. */
  lemma {:induction false} AlikeHoldsPairs(s: Source, i: nat, t: Source, j: nat, m: nat)
    requires 0 < m && Alike(s, i, t, j, m)
    ensures Pairs(s, i + m - 1) - Pairs(s, i) == Pairs(t, j + m - 1) - Pairs(t, j)
    decreases m
  {
    if m > 1 {
      assert s[i..i + m][..m - 1] == s[i..i + (m - 1)] && t[j..j + m][..m - 1] == t[j..j + (m - 1)];
      AlikeHoldsPairs(s, i, t, j, m - 1);
      AlikeAt(s, i, t, j, m, m - 1);
      AlikeAt(s, i, t, j, m, m - 2);
    }
  }

  /** A carriage return in front of `x` is put in front of a line feed at `y`. */
  function SeamPair(source: Source, x: nat, y: nat): nat {
    if 0 < x <= y < |source| && source[x - 1] == CR && source[y] == LF then 1 else 0
  }

  /** The pairs of the gap are those of its two halves, and the one put together at the seam. */
  lemma {:induction false} GapPairs(source: Source, out: Source, p: nat, x: nat, y: nat, q: nat, at: nat)
    requires p < x <= y <= q < |source|
    requires LineBoundary(source, x) && LineBoundary(source, y)
    requires Alike(out, at, source, p, x - p) && Alike(out, at + (x - p), source, y, q + 1 - y)
    ensures Pairs(out, at + (x - p) + (q - y)) - Pairs(out, at)
         == (Pairs(source, x) - Pairs(source, p)) + (Pairs(source, q) - Pairs(source, y)) + SeamPair(source, x, y)
  {
    var c := at + (x - p);
    AlikeHoldsPairs(out, at, source, p, x - p);
    AlikeHoldsPairs(out, c, source, y, q + 1 - y);
    assert out[c - 1] == out[at..at + (x - p)][x - p - 1] == source[p..x][x - p - 1];
    assert out[c] == out[c..c + (q + 1 - y)][0] == source[y..q + 1][0];
    assert PairAt(out, c) <==> SeamPair(source, x, y) == 1;
    assert !PairAt(source, x);
  }

  /** A gap that reads as its two halves, closed from one line to another, is shorter by the lines in between. */
  lemma {:induction false} GapIsShorter(source: Source, out: Source, p: nat, x: nat, y: nat, q: nat, at: nat)
    requires p < x <= y <= q < |source| && LineBoundary(source, x) && LineBoundary(source, y)
    requires Alike(out, at, source, p, x - p) && Alike(out, at + (x - p), source, y, q + 1 - y)
    requires at + (x - p) + (q - y) <= |out|
    requires EndedIn(out, at, at + (x - p) + (q - y)) == EndedIn(source, p, x) + EndedIn(source, y, q)
    ensures LineNumber(out, at + (x - p) + (q - y)) + SeamPair(source, x, y)
         == LineNumber(out, at) + (LineNumber(source, x) - LineNumber(source, p))
            + (LineNumber(source, q) - LineNumber(source, y))
  {
    hide Pairs, LineNumber, LineBoundary, EndedIn, Alike, SeamPair;
    GapPairs(source, out, p, x, y, q, at);
    EndedCounts(out, at, at + (x - p) + (q - y));
    EndedCounts(source, p, x);
    EndedCounts(source, y, q);
  }
}
