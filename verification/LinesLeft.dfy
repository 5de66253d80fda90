/**
 * The lines of a text that is read byte by byte: how many there are, and where there is a blank one.
 */
module LinesLeft {
  import opened Arrivals
  import opened Bytes
  import opened Collapse
  import opened Edits
  import opened Gaps
  import opened LineNumbers
  import opened Outlines
  import opened Residues
  import opened Seams

  // ---- blank lines, by the bytes that end lines ----

  predicate EndsAt(s: Source, i: nat) {
    i < |s| && SymAt(s, i) == Break && EndsLine(s[i])
  }

  /** At `u` and at `v` two lines end, and the second shows nothing. */
  ghost predicate TwoEnd(s: Source, u: nat, v: nat) {
    && u < v && EndsAt(s, u) && EndsAt(s, v)
    && (forall w | u < w < v :: SymAt(s, w) != Ink)
    && !(v == u + 1 && s[u] == CR && s[v] == LF)
  }

  /** The first place behind a line's last byte at which a line begins. */
  function BehindEnd(s: Source, u: nat): nat {
    if u + 1 < |s| && s[u] == CR && s[u + 1] == LF then u + 2 else u + 1
  }

  lemma {:induction false} LineBehindEnd(s: Source, u: nat)
    requires EndsAt(s, u)
    ensures BehindEnd(s, u) <= |s| && LineBoundary(s, BehindEnd(s, u))
  {
    BoundaryByLastByte(s, u + 1);
    if u + 1 < |s| && s[u] == CR && s[u + 1] == LF { BoundaryByLastByte(s, u + 2); }
  }

  /** Between two visible bytes there is a blank line just where two lines end and show nothing in between. */
  lemma {:induction false} BlankIsTwoEnds(s: Source, from: nat, to: nat)
    requires from < to < |s| && SymAt(s, from) == Ink && SymAt(s, to) == Ink
    ensures BlankBetween(s, from, to) <==> exists u: nat, v: nat :: from < u && v < to && TwoEnd(s, u, v)
  {
    if l: nat :| BlankWithin(s, l, from, to) {
      EndsOfBlank(s, l, from, to);
    } else if u: nat, v: nat :| from < u && v < to && TwoEnd(s, u, v) {
      LineBehindEnd(s, u);
      LineBehindEnd(s, v);
      BlankFromBoundary(s, BehindEnd(s, u), BehindEnd(s, v), from, to);
    }
  }

  lemma {:induction false} EndsOfBlank(s: Source, l: nat, from: nat, to: nat)
    requires BlankWithin(s, l, from, to) && from < to < |s| && SymAt(s, from) == Ink && SymAt(s, to) == Ink
    ensures exists u: nat, v: nat :: from < u && v < to && TwoEnd(s, u, v)
  {
    LineStartsTable(s);
    var x, z := LineStarts(s)[l], LineStop(s, LineStarts(s), l);
    InOrderOfStarts(LineStarts(s), l, l + 1);
    BoundaryByLastByte(s, x);
    BoundaryByLastByte(s, z);
    assert TwoEnd(s, x - 1, z - 1);
  }

  // ---- blank lines of what is left ----

  /** Byte `i` ends a line, and stays. */
  ghost predicate EndStays(source: Source, left: seq<Source>, i: nat) {
    EndsAt(source, i) && i < |left| && left[i] == [source[i]]
  }

  /** No visible byte stays between `i` and `j`. */
  ghost predicate NoneShows(source: Source, left: seq<Source>, i: nat, j: nat)
    requires j <= |source| && j <= |left|
  {
    forall m | i < m < j && left[m] == [source[m]] :: SymAt(source, m) != Ink
  }

  /**
   * The bytes `i` and `j` end lines and stay, nothing is left to see in between, and they do not come to stand
   * side by side as a carriage return and a line feed.
   */
  ghost predicate TwoEndLeft(source: Source, left: seq<Source>, i: nat, j: nat) {
    && i < j && EndStays(source, left, i) && EndStays(source, left, j) && NoneShows(source, left, i, j)
    && !(source[i] == CR && source[j] == LF && Gone(left, i + 1, j))
  }

  /** Between `p` and `q` two line endings stay with nothing to see in between. */
  ghost predicate BlankIsLeft(source: Source, left: seq<Source>, p: nat, q: nat) {
    exists i: nat, j: nat :: p < i && j < q && TwoEndLeft(source, left, i, j)
  }

  /** Byte `i` stays and is visible. */
  ghost predicate InkStays(source: Source, left: seq<Source>, i: nat) {
    i < |source| && i < |left| && left[i] == [source[i]] && SymAt(source, i) == Ink
  }

  lemma {:induction false} EndIsSeen(source: Source, left: seq<Source>, i: nat)
    requires Legible(source, left) && i < |left| && left[i] != []
    ensures EndsAt(RestIn(left, 0, |left|), Place(left, i)) <==> EndStays(source, left, i)
  {
    hide RestIn;
    SeenAsItWas(source, left, i);
  }

  lemma {:induction false} NothingIsSeen(source: Source, left: seq<Source>, i: nat, j: nat)
    requires Legible(source, left) && i < j < |left| && left[i] != [] && left[j] != []
    ensures Place(left, i) < Place(left, j) < |RestIn(left, 0, |left|)|
    ensures (forall w | Place(left, i) < w < Place(left, j) :: SymAt(RestIn(left, 0, |left|), w) != Ink)
       <==> NoneShows(source, left, i, j)
  {
    hide RestIn;
    var out := RestIn(left, 0, |left|);
    PlacesRise(left, i, j);
    ByteLands(source, left, j);
    if NoneShows(source, left, i, j) {
      forall w | Place(left, i) < w < Place(left, j)
        ensures SymAt(out, w) != Ink
      {
        var m := ByteOf(source, left, |left|, w);
        PlacesTell(left, i, m);
        PlacesTell(left, m, j);
        SeenAsItWas(source, left, m);
      }
    } else {
      var m :| i < m < j && left[m] == [source[m]] && SymAt(source, m) == Ink;
      PlacesTell(left, i, m);
      PlacesTell(left, m, j);
      SeenAsItWas(source, left, m);
    }
  }

  lemma {:induction false} TwoAreSeen(source: Source, left: seq<Source>, i: nat, j: nat)
    requires Legible(source, left) && i < j < |left| && left[i] != [] && left[j] != []
    ensures TwoEnd(RestIn(left, 0, |left|), Place(left, i), Place(left, j)) <==> TwoEndLeft(source, left, i, j)
  {
    hide RestIn;
    EndIsSeen(source, left, i);
    EndIsSeen(source, left, j);
    NothingIsSeen(source, left, i, j);
    SideBySide(source, left, i, j);
    ByteLands(source, left, i);
    ByteLands(source, left, j);
  }

  /**
   * Between two visible bytes that stay, what is left holds a blank line if and only if two line endings stay
   * between them with nothing to see in between, and not just a carriage return and a line feed side by side.
   */
  lemma {:induction false} BlankLineLeft(source: Source, left: seq<Source>, p: nat, q: nat)
    requires Legible(source, left) && InkStays(source, left, p) && InkStays(source, left, q) && p < q
    ensures var out := RestIn(left, 0, |left|);
            BlankBetween(out, Place(left, p), Place(left, q)) <==> BlankIsLeft(source, left, p, q)
  {
    hide RestIn, BlankBetween, TwoEnd, TwoEndLeft, Legible;
    var out := RestIn(left, 0, |left|);
    var from, to := Place(left, p), Place(left, q);
    SeenAsItWas(source, left, p);
    SeenAsItWas(source, left, q);
    PlacesTell(left, p, q);
    BlankIsTwoEnds(out, from, to);
    if u: nat, v: nat :| from < u && v < to && TwoEnd(out, u, v) {
      EndsAreBytes(source, left, u, v, p, q);
    } else if i: nat, j: nat :| p < i && j < q && TwoEndLeft(source, left, i, j) {
      BytesAreEnds(source, left, i, j, p, q);
    }
  }

  lemma {:induction false} EndsAreBytes(source: Source, left: seq<Source>, u: nat, v: nat, p: nat, q: nat)
    requires Legible(source, left) && InkStays(source, left, p) && InkStays(source, left, q)
    requires TwoEnd(RestIn(left, 0, |left|), u, v) && Place(left, p) < u && v < Place(left, q)
    ensures BlankIsLeft(source, left, p, q)
  {
    hide RestIn;
    SeenAsItWas(source, left, q);
    var i := ByteOf(source, left, |left|, u);
    var j := ByteOf(source, left, |left|, v);
    PlacesTell(left, p, i);
    PlacesTell(left, i, j);
    PlacesTell(left, j, q);
    TwoAreSeen(source, left, i, j);
  }

  lemma {:induction false} BytesAreEnds(source: Source, left: seq<Source>, i: nat, j: nat, p: nat, q: nat)
    requires Legible(source, left) && InkStays(source, left, p) && InkStays(source, left, q)
    requires TwoEndLeft(source, left, i, j) && p < i && j < q
    ensures Place(left, p) < Place(left, i) && Place(left, j) < Place(left, q)
    ensures TwoEnd(RestIn(left, 0, |left|), Place(left, i), Place(left, j))
  {
    hide RestIn;
    PlacesTell(left, p, i);
    PlacesTell(left, j, q);
    TwoAreSeen(source, left, i, j);
  }

  // ---- one carriage return and one line feed ----

  /** The bytes `i` and `j` are a carriage return and a line feed that come to stand side by side. */
  ghost predicate PairLeft(source: Source, left: seq<Source>, i: nat, j: nat) {
    && i < j < |source| && j < |left| && source[i] == CR && source[j] == LF
    && left[i] == [CR] && left[j] == [LF] && Gone(left, i + 1, j)
  }

  /** No other byte of a line break between `p` and `q` stays. */
  ghost predicate NoOtherBreak(source: Source, left: seq<Source>, p: nat, q: nat, i: nat, j: nat)
    requires q <= |source| && q <= |left|
  {
    forall m | p < m < q && left[m] == [source[m]] && SymAt(source, m) == Break :: m == i || m == j
  }

  /**
   * Of the line breaks between `p` and `q` one carriage return and one line feed behind it stay, and nothing in
   * between.
   */
  ghost predicate OnlyPairLeft(source: Source, left: seq<Source>, p: nat, q: nat)
    requires q <= |source| && q <= |left|
  {
    exists i: nat, j: nat :: p < i && j < q && PairLeft(source, left, i, j) && NoOtherBreak(source, left, p, q, i, j)
  }

  lemma {:induction false} PairIsSeen(source: Source, left: seq<Source>, i: nat, j: nat)
    requires Legible(source, left) && i < j < |left| && left[i] != [] && left[j] != []
    ensures PairLeft(source, left, i, j)
       <==> Place(left, j) == Place(left, i) + 1 && PairAt(RestIn(left, 0, |left|), Place(left, j))
  {
    hide RestIn;
    ByteLands(source, left, i);
    ByteLands(source, left, j);
    SideBySide(source, left, i, j);
  }

  lemma {:induction false} NoOtherIsSeen(source: Source, left: seq<Source>, p: nat, q: nat, i: nat, j: nat)
    requires Legible(source, left) && InkStays(source, left, p) && InkStays(source, left, q)
    requires p < i < j < q && left[i] != [] && left[j] != []
    ensures Place(left, q) < |RestIn(left, 0, |left|)|
    ensures (forall u: nat | Place(left, p) < u < Place(left, q) && SymAt(RestIn(left, 0, |left|), u) == Break ::
               u == Place(left, i) || u == Place(left, j))
       <==> NoOtherBreak(source, left, p, q, i, j)
  {
    hide RestIn, Legible;
    var out := RestIn(left, 0, |left|);
    SeenAsItWas(source, left, q);
    if NoOtherBreak(source, left, p, q, i, j) {
      forall u: nat | Place(left, p) < u < Place(left, q) && SymAt(out, u) == Break
        ensures u == Place(left, i) || u == Place(left, j)
      {
        var m := ByteBetween(source, left, p, q, u);
        SeenAsItWas(source, left, m);
      }
    } else {
      var m :| p < m < q && left[m] == [source[m]] && SymAt(source, m) == Break && m != i && m != j;
      SeenAsItWas(source, left, m);
      PlacesTell(left, p, m);
      PlacesTell(left, m, q);
      PlacesTell(left, m, i);
      PlacesTell(left, m, j);
    }
  }

  /** Whose byte it is that stands between those of `p` and `q`. */
  lemma {:induction false} ByteBetween(source: Source, left: seq<Source>, p: nat, q: nat, u: nat) returns (m: nat)
    requires Legible(source, left) && InkStays(source, left, p) && InkStays(source, left, q)
    requires Place(left, p) < u < Place(left, q)
    ensures p < m < q && left[m] != [] && Place(left, m) == u
  {
    hide RestIn;
    SeenAsItWas(source, left, q);
    m := ByteOf(source, left, |left|, u);
    PlacesTell(left, p, m);
    PlacesTell(left, m, q);
  }

  /** That the line breaks of a gap are one pair is read off what stays of it. */
  lemma {:induction false} OnePairIsLeft(source: Source, left: seq<Source>, p: nat, q: nat)
    requires Legible(source, left) && InkStays(source, left, p) && InkStays(source, left, q) && p < q
    ensures OnePair(RestIn(left, 0, |left|), Place(left, p), Place(left, q)) <==> OnlyPairLeft(source, left, p, q)
  {
    hide RestIn, Legible, PairLeft, NoOtherBreak, PairAt;
    var out := RestIn(left, 0, |left|);
    SeenAsItWas(source, left, q);
    if c: nat :| OnlyPairAt(out, c, Place(left, p), Place(left, q)) {
      var i := ByteBetween(source, left, p, q, c - 1);
      var j := ByteBetween(source, left, p, q, c);
      PlacesTell(left, i, j);
      PairIsSeen(source, left, i, j);
      NoOtherIsSeen(source, left, p, q, i, j);
    }
    if i: nat, j: nat :| p < i && j < q && PairLeft(source, left, i, j) && NoOtherBreak(source, left, p, q, i, j) {
      PairIsBytes(source, left, i, j);
      PairIsSeen(source, left, i, j);
      NoOtherIsSeen(source, left, p, q, i, j);
      PlacesTell(left, p, i);
      PlacesTell(left, j, q);
      assert OnlyPairAt(out, Place(left, j), Place(left, p), Place(left, q));
    }
  }

  lemma {:induction false} PairIsBytes(source: Source, left: seq<Source>, i: nat, j: nat)
    requires PairLeft(source, left, i, j)
    ensures i < j < |left| && left[i] != [] && left[j] != []
  {
  }

  // ---- line numbers ----

  /** Every byte of a line break stays. */
  ghost predicate BreaksStay(source: Source, left: seq<Source>) {
    forall i | 0 <= i < |source| && i < |left| && SymAt(source, i) == Break :: left[i] == [source[i]]
  }

  /** In front of every place what is left has the line breaks of the source. */
  lemma {:induction false} BreaksInFront(source: Source, left: seq<Source>, i: nat)
    requires Legible(source, left) && BreaksStay(source, left) && i <= |left|
    ensures Place(left, i) <= |RestIn(left, 0, |left|)|
    ensures BreakBytes(Cells(RestIn(left, 0, |left|))[..Place(left, i)]) == BreakBytes(Cells(source)[..i])
  {
    hide RestIn;
    PlacesRise(left, i, |left|);
    if i == 0 {
      PlaceOfStart(left);
    } else {
      BreaksInFront(source, left, i - 1);
      OneMoreByte(source, left, i - 1);
    }
  }

  lemma {:induction false} PlaceOfStart(left: seq<Source>)
    ensures Place(left, 0) == 0
  {
  }

  lemma {:induction false} OneMoreByte(source: Source, left: seq<Source>, i: nat)
    requires Legible(source, left) && BreaksStay(source, left) && i < |left|
    requires Place(left, i) <= |RestIn(left, 0, |left|)| && Place(left, i + 1) <= |RestIn(left, 0, |left|)|
    requires BreakBytes(Cells(RestIn(left, 0, |left|))[..Place(left, i)]) == BreakBytes(Cells(source)[..i])
    ensures BreakBytes(Cells(RestIn(left, 0, |left|))[..Place(left, i + 1)]) == BreakBytes(Cells(source)[..i + 1])
  {
    var out, c, u := Cells(RestIn(left, 0, |left|)), Cells(source)[i], Place(left, i);
    assert Cells(source)[..i + 1] == Cells(source)[..i] + [c];
    BreakBytesJoin(Cells(source)[..i], [c]);
    assert [c][1..] == [];
    if left[i] == [] {
      assert Place(left, i + 1) == u;
    } else {
      SeenAsItWas(source, left, i);
      ByteLands(source, left, i);
      assert out[..u + 1] == out[..u] + [out[u]];
      BreakBytesJoin(out[..u], [out[u]]);
      assert [out[u]][1..] == [];
    }
  }

  /** Where all line breaks stay, a byte that stays moves up by the pairs that are put together in front of it. */
  lemma {:induction false} StaysByPairs(source: Source, left: seq<Source>, i: nat)
    requires Legible(source, left) && BreaksStay(source, left)
    requires i < |left| && left[i] == [source[i]]
    ensures MovedByPairs(source, RestIn(left, 0, |left|), Place(left, i), i)
  {
    hide RestIn, BreakBytes;
    ByteLands(source, left, i);
    BreaksInFront(source, left, i);
    LineNumberCounts(source, i);
    LineNumberCounts(RestIn(left, 0, |left|), Place(left, i));
  }

  // ---- a gap that is closed ----

  lemma {:induction false} NumbersRise(s: Source, a: nat, b: nat)
    requires a <= b <= |s|
    ensures LineNumber(s, a) <= LineNumber(s, b)
    ensures a < b && LineBoundary(s, b) ==> LineNumber(s, a) < LineNumber(s, b)
    decreases b
  {
    if a < b { NumbersRise(s, a, b - 1); }
  }

  /** Where the last line begins that has a higher number. */
  lemma {:induction false} LastBoundary(s: Source, a: nat, b: nat) returns (z: nat)
    requires a <= b <= |s| && LineNumber(s, a) < LineNumber(s, b)
    ensures a < z <= b && LineBoundary(s, z)
    ensures LineNumber(s, z - 1) + 1 == LineNumber(s, z) == LineNumber(s, b)
    decreases b
  {
    if LineBoundary(s, b) { z := b; } else { z := LastBoundary(s, a, b - 1); }
  }

  /** Where nothing shows between two visible bytes, they have a blank line between them if they are two lines apart. */
  lemma {:induction false} TwoLinesApart(s: Source, from: nat, to: nat)
    requires from < to < |s| && forall i | from < i < to :: SymAt(s, i) != Ink
    ensures BlankBetween(s, from, to) <==> LineNumber(s, from) + 2 <= LineNumber(s, to)
  {
    hide LineNumber, LineBoundary;
    if l: nat :| BlankWithin(s, l, from, to) {
      LineStartsTable(s);
      var x, z := LineStarts(s)[l], LineStop(s, LineStarts(s), l);
      InOrderOfStarts(LineStarts(s), l, l + 1);
      NumbersRise(s, from, x);
      NumbersRise(s, x, z);
      NumbersRise(s, z, to);
    } else if LineNumber(s, from) + 2 <= LineNumber(s, to) {
      var z := LastBoundary(s, from, to);
      var x := LastBoundary(s, from, z - 1);
      BlankFromBoundary(s, x, z, from, to);
    }
  }

  /** The bytes from `p` to `x` and from `y` to `q` stay, and nothing in between. */
  ghost predicate ClosesGap(source: Source, left: seq<Source>, p: nat, x: nat, y: nat, q: nat) {
    && p < x <= y <= q < |source| && |left| == |source|
    && Remains(source, left, p, x) && Gone(left, x, y) && Remains(source, left, y, q + 1)
  }

  lemma {:induction false} ClosedPlaces(source: Source, left: seq<Source>, p: nat, x: nat, y: nat, q: nat)
    requires ClosesGap(source, left, p, x, y, q)
    ensures forall m | p <= m <= x :: Place(left, m) == Place(left, p) + (m - p)
    ensures forall m | y <= m <= q + 1 :: Place(left, m) == Place(left, p) + (x - p) + (m - y)
  {
    hide RestIn;
    forall m | p <= m <= x
      ensures Place(left, m) == Place(left, p) + (m - p)
    {
      PlaceInRun(source, left, p, m);
    }
    RestInTwo(left, 0, x, y);
    GoneLeavesNothing(left, x, y);
    assert Place(left, y) == Place(left, x) == Place(left, p) + (x - p);
    forall m | y <= m <= q + 1
      ensures Place(left, m) == Place(left, p) + (x - p) + (m - y)
    {
      PlaceInRun(source, left, y, m);
    }
  }

  lemma {:induction false} PlaceInRun(source: Source, left: seq<Source>, a: nat, m: nat)
    requires a <= m && Remains(source, left, a, m)
    ensures Place(left, m) == Place(left, a) + (m - a)
  {
    RestInTwo(left, 0, a, m);
    RemainsIsText(source, left, a, m);
  }

  /** A stretch that stays is read and seen as it was. */
  lemma {:induction false} RunIsSeen(source: Source, left: seq<Source>, a: nat, m: nat)
    requires Legible(source, left) && a < m && Remains(source, left, a, m)
    ensures Place(left, a) + (m - a) <= |RestIn(left, 0, |left|)|
    ensures var out, at := RestIn(left, 0, |left|), Place(left, a);
            out[at..at + (m - a)] == source[a..m] && Cells(out)[at..at + (m - a)] == Cells(source)[a..m]
  {
    hide RestIn;
    var out, at := RestIn(left, 0, |left|), Place(left, a);
    forall i | a <= i < m
      ensures at + (i - a) < |out| && out[at + (i - a)] == source[i] && SymAt(out, at + (i - a)) == SymAt(source, i)
    {
      PlaceInRun(source, left, a, i);
      SeenAsItWas(source, left, i);
    }
    PlaceInRun(source, left, a, m);
    PlacesRise(left, m, |left|);
    SeenAlike(source, out, a, at, m - a);
  }

  lemma {:induction false} SeenAlike(s: Source, t: Source, a: nat, b: nat, n: nat)
    requires a + n <= |s| && b + n <= |t|
    requires forall i | a <= i < a + n :: t[b + (i - a)] == s[i] && SymAt(t, b + (i - a)) == SymAt(s, i)
    ensures t[b..b + n] == s[a..a + n] && Cells(t)[b..b + n] == Cells(s)[a..a + n]
  {
    hide SymAt;
    var u, v := t[b..b + n], s[a..a + n];
    forall k | 0 <= k < n
      ensures u[k] == v[k] && Cells(t)[b..b + n][k] == Cells(s)[a..a + n][k]
    {
      assert t[b + ((a + k) - a)] == s[a + k];
    }
  }

  /** How a gap reads that is closed. */
  lemma {:induction false} ClosedReads(source: Source, left: seq<Source>, p: nat, x: nat, y: nat, q: nat)
    requires Legible(source, left) && ClosesGap(source, left, p, x, y, q)
    ensures var out, at := RestIn(left, 0, |left|), Place(left, p);
            && Place(left, q) == at + (x - p) + (q - y) < |out|
            && Alike(out, at, source, p, x - p) && Alike(out, at + (x - p), source, y, q + 1 - y)
            && EndedIn(out, at, at + (x - p) + (q - y)) == EndedIn(source, p, x) + EndedIn(source, y, q)
  {
    hide RestIn, Legible, BreakBytes, LinesEnded;
    var out, at, to := RestIn(left, 0, |left|), Place(left, p), Place(left, q);
    ClosedPlaces(source, left, p, x, y, q);
    RunIsSeen(source, left, p, x);
    RunIsSeen(source, left, y, q + 1);
    assert Place(left, y) == at + (x - p);
    var cells, half, rest := Cells(out), Cells(source)[p..x], Cells(source)[y..q];
    assert cells[at + (x - p)..to] == cells[at + (x - p)..to + 1][..q - y];
    assert Cells(source)[y..q + 1][..q - y] == rest;
    assert cells[at..to] == half + rest;
    BreakBytesJoin(half, rest);
    LinesEndedJoin(BreakBytes(half), BreakBytes(rest));
  }

  /** Between the places where a closed gap comes to begin and to end no visible byte stands, if none did. */
  lemma {:induction false} ClosedShowsNothing(source: Source, left: seq<Source>, p: nat, x: nat, y: nat, q: nat)
    requires Legible(source, left) && ClosesGap(source, left, p, x, y, q)
    requires forall i | p < i < x || y <= i < q :: SymAt(source, i) != Ink
    ensures forall u | Place(left, p) < u < Place(left, q) ::
              u < |RestIn(left, 0, |left|)| && SymAt(RestIn(left, 0, |left|), u) != Ink
  {
    hide RestIn;
    forall u | Place(left, p) < u < Place(left, q)
      ensures u < |RestIn(left, 0, |left|)| && SymAt(RestIn(left, 0, |left|), u) != Ink
    {
      var m := ByteOf(source, left, q, u);
      PlacesTell(left, p, m);
      SeenAsItWas(source, left, m);
    }
  }

  /** A gap closed from one line to another loses the lines in between, and one more where a pair is put together. */
  lemma {:induction false} ClosedLoses(source: Source, left: seq<Source>, p: nat, x: nat, y: nat, q: nat)
    requires Legible(source, left) && ClosesGap(source, left, p, x, y, q)
    requires LineBoundary(source, x) && LineBoundary(source, y)
    ensures var out := RestIn(left, 0, |left|);
            && Place(left, p) <= Place(left, q) < |out|
            && LineNumber(out, Place(left, q)) + SeamPair(source, x, y)
               == LineNumber(out, Place(left, p)) + (LineNumber(source, x) - LineNumber(source, p))
                  + (LineNumber(source, q) - LineNumber(source, y))
  {
    hide RestIn, Legible, LineBoundary, Pairs, LineNumber, EndedIn, Alike, SeamPair;
    ClosedReads(source, left, p, x, y, q);
    GapIsShorter(source, RestIn(left, 0, |left|), p, x, y, q, Place(left, p));
  }

  // ---- where nothing forms ----

  /** Edits that, those that touch put together, keep what is seen put no separator together. */
  lemma {:induction false} FairFormsNothing(source: Source, spans: seq<ByteSpan>, edits: seq<Edit>, left: seq<Source>)
    requires Ordered(edits, 0, |source|) && Leaves(source, edits, left)
    requires AllDiscreet(source, spans, edits) && Fair(source, spans, Merge(edits))
    requires Apply(source, Merge(edits)) == Apply(source, edits)
    requires Bytewise(source, left) && SeparatorsWhole(source, left)
    requires forall i: nat | InkStays(source, left, i) :: Survives(edits, i)
    ensures NothingForms(left)
  {
    hide RestIn, Fair, AllDiscreet;
    AppliedIsRest(source, edits, left);
    forall i: nat, j: nat, k: nat | SpellsAt(left, i, j, k)
      ensures k == i + 2
    {
      if SymAt(source, i) == Break {
        assert SeparatorAt(source, i);
        assert Remains(source, left, i, i + 3);
      } else {
        assert InkStays(source, left, i);
        DiscreetIsUpright(source, spans, edits);
        MergeLands(edits, i, 0, |source|);
        var m := InkArrives(source, spans, Merge(edits), i);
        SpelledOut(source, left, i, j, k);
        assert false;
      }
    }
  }

  /** Bytes that come to spell a separator stand side by side. */
  lemma {:induction false} SpelledOut(source: Source, left: seq<Source>, i: nat, j: nat, k: nat)
    requires Bytewise(source, left) && SpellsAt(left, i, j, k)
    ensures SeparatorAt(RestIn(left, 0, |left|), Place(left, i))
  {
    hide RestIn;
    ByteLands(source, left, i);
    ByteLands(source, left, j);
    ByteLands(source, left, k);
    SideBySide(source, left, i, j);
    SideBySide(source, left, j, k);
  }
}
