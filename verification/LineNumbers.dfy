/**
 * Line numbers: an edit that writes back exactly the line breaks it takes moves no surviving byte to
 * another line.
 */
module LineNumbers {
  import opened Bytes
  import opened Edits
  import opened Outlines

  /** No edit takes the byte at `i`. */
  predicate Survives(edits: seq<Edit>, i: nat) {
    forall e <- edits :: i < e.span.start || e.span.end <= i
  }

  /** Where a surviving byte lands: every edit in front of it has changed the length by its own amount. */
  function Landed(edits: seq<Edit>, i: int): int {
    if edits == [] then i
    else
      var e := edits[0];
      if e.span.end <= i then Landed(edits[1..], i) + |e.replacement| - (e.span.end - e.span.start) else i
  }

  /** Edits behind a place have no part in where it lands. */
  lemma {:induction false} LandsBeforeTail(edits: seq<Edit>, tail: seq<Edit>, i: nat)
    requires forall e <- tail :: i < e.span.end
    ensures Landed(edits + tail, i) == Landed(edits, i)
    decreases |edits|
  {
    if edits == [] {
      assert edits + tail == tail;
      if tail != [] { assert tail[0] in tail; }
    } else {
      assert (edits + tail)[1..] == edits[1..] + tail;
      LandsBeforeTail(edits[1..], tail, i);
    }
  }

  /** Behind edits that all end in front a place lands as far on as it stands. */
  lemma {:induction false} LandsFurtherOn(edits: seq<Edit>, y: int, i: int)
    requires y <= i && forall e <- edits :: e.span.end <= y
    ensures Landed(edits, i) == Landed(edits, y) + i - y
    decreases |edits|
  {
    if edits != [] {
      assert edits[0] in edits && forall e <- edits[1..] :: e in edits;
      LandsFurtherOn(edits[1..], y, i);
    }
  }

  lemma {:induction false} LandsBehindLast(edits: seq<Edit>, last: Edit, i: int)
    requires last.span.start <= last.span.end <= i && forall e <- edits :: e.span.end <= i
    ensures Landed(edits + [last], i)
         == Landed(edits, i) + |last.replacement| - (last.span.end - last.span.start)
    decreases |edits|
  {
    if edits == [] {
      assert [last][1..] == [] && edits + [last] == [last];
    } else {
      assert edits[0] in edits && forall e <- edits[1..] :: e in edits;
      assert (edits + [last])[1..] == edits[1..] + [last];
      LandsBehindLast(edits[1..], last, i);
    }
  }

  lemma {:induction false} NoEditMoves(source: Source, i: nat)
    requires i <= |source|
    ensures Landed([], i) == |Written(source, [], i)|
  {
  }

  /** A place lands behind what is written in front of it. */
  lemma {:induction false} LandsBehindWritten(source: Source, edits: seq<Edit>, i: nat)
    requires Ordered(edits, 0, |source|) && EndBy(edits, i) && i <= |source|
    ensures Landed(edits, i) == |Written(source, edits, i)|
    decreases |edits|
  {
    hide Landed, Ordered, Written;
    if edits == [] {
      NoEditMoves(source, i);
    } else {
      OrderedBounds(edits, 0, |source|);
      var n := |edits| - 1;
      OrderedPrefix(edits, 0, |source|, |source|);
      EndsInFront(edits, 0, |source|);
      LandsBehindWritten(source, edits[..n], edits[n].span.start);
      assert edits == edits[..n] + [edits[n]] && edits[..|edits|] == edits;
      WrittenLast(source, edits, |edits|, i);
      LandsBehindLast(edits[..n], edits[n], i);
      LandsFurtherOn(edits[..n], edits[n].span.start, i);
    }
  }

  /** The bytes of the line breaks of `cells`, in order. */
  function BreakBytes(cells: seq<Cell>): seq<byte> {
    if cells == [] then []
    else (if cells[0].sym == Break then [cells[0].b] else []) + BreakBytes(cells[1..])
  }

  lemma {:induction false} BreakBytesJoin(x: seq<Cell>, y: seq<Cell>)
    ensures BreakBytes(x + y) == BreakBytes(x) + BreakBytes(y)
    decreases |x|
  {
    if x == [] {
      assert x + y == y;
      assert [] + BreakBytes(y) == BreakBytes(y);
    } else {
      assert (x + y)[1..] == x[1..] + y;
      BreakBytesJoin(x[1..], y);
    }
  }

  /** The edit writes back the line breaks it takes. */
  ghost predicate KeepsBreaks(source: Source, e: Edit) {
    && e.span.start <= e.span.end <= |source|
    && BreakBytes(Cells(e.replacement)) == BreakBytes(Cells(source)[e.span.start..e.span.end])
  }

  /** Byte `k` of `out` is byte `i` of the source, behind the same line breaks. */
  ghost predicate SamePlace(source: Source, out: Source, k: int, i: nat) {
    && i < |source| && 0 <= k < |out| && out[k] == source[i]
    && BreakBytes(Cells(out)[..k]) == BreakBytes(Cells(source)[..i])
  }

  ghost predicate AllKeepBreaks(source: Source, edits: seq<Edit>) {
    forall e <- edits :: KeepsBreaks(source, e)
  }

  // ---- seams at which no separator is put together ----

  /** A byte a separator may go on with. */
  predicate GoesOn(b: byte) {
    b == 0x80 || b == 0xA8 || b == 0xA9
  }

  /** The text begins with no such byte. */
  predicate BeginsAnew(s: Source) {
    s == [] || !GoesOn(s[0])
  }

  /** The edit cuts no separator and shows nothing; and if it leaves nothing, what follows begins anew. */
  ghost predicate CleanSeam(source: Source, e: Edit) {
    && e.span.start <= e.span.end <= |source| && CleanCut(source, e.span.start) && CleanCut(source, e.span.end)
    && NoInk(Cells(e.replacement))
    && (e.replacement == [] ==> BeginsAnew(source[e.span.end..]))
  }

  ghost predicate CleanSeams(source: Source, edits: seq<Edit>) {
    forall e <- edits :: CleanSeam(source, e)
  }

  lemma {:induction false} CleanRest(source: Source, edits: seq<Edit>)
    requires edits != [] && CleanSeams(source, edits)
    ensures CleanSeam(source, edits[0]) && CleanSeams(source, edits[1..])
  {
    assert edits[0] in edits;
    assert forall e <- edits[1..] :: e in edits;
  }

  lemma {:induction false} NoInkBeginsAnew(r: Source, y: Source)
    requires NoInk(Cells(r)) && (r == [] ==> BeginsAnew(y))
    ensures BeginsAnew(r + y)
  {
    if r != [] { assert Cells(r)[0].sym != Ink && (r + y)[0] == r[0]; }
  }

  /** What is written from a place on begins anew, if the source does there. */
  lemma {:induction false} ApplyBeginsAnew(source: Source, edits: seq<Edit>, cursor: nat)
    requires Ordered(edits, cursor, |source|) && CleanSeams(source, edits) && BeginsAnew(source[cursor..])
    ensures BeginsAnew(ApplyFrom(source, edits, cursor))
    decreases |edits|
  {
    if edits != [] {
      var e := edits[0];
      CleanRest(source, edits);
      ApplyUnfold(source, edits, cursor);
      var rest := ApplyFrom(source, edits[1..], e.span.end);
      if cursor < e.span.start {
        assert ApplyFrom(source, edits, cursor)[0] == source[cursor] == source[cursor..][0];
      } else {
        if e.replacement == [] { ApplyBeginsAnew(source, edits[1..], e.span.end); }
        NoInkBeginsAnew(e.replacement, rest);
        assert source[cursor..e.span.start] + (e.replacement + rest) == e.replacement + rest;
      }
    }
  }

  lemma {:induction false} AnewIsClean(x: Source, y: Source)
    requires BeginsAnew(y)
    ensures CleanCut(x + y, |x|) && Cells(x + y) == Cells(x) + Cells(y)
  {
    if y != [] { assert (x + y)[|x|] == y[0]; }
    CellsJoin(x, y);
  }

  lemma {:induction false} NoInkIsClean(x: Source, y: Source)
    requires NoInk(Cells(x))
    ensures Cells(x + y) == Cells(x) + Cells(y)
  {
    CutAfterNoInk(x, y);
    CellsJoin(x, y);
  }

  /** The text is seen as its parts are: the stretch copied, what the first edit leaves, and the rest. */
  lemma {:induction false} ApplyIsSeen(source: Source, edits: seq<Edit>, cursor: nat)
    requires Ordered(edits, cursor, |source|) && CleanSeams(source, edits) && CleanCut(source, cursor) && edits != []
    ensures var e := edits[0];
            && cursor <= e.span.start <= e.span.end <= |source|
            && Ordered(edits[1..], e.span.end, |source|) && CleanCut(source, e.span.end)
            && CleanSeams(source, edits[1..])
            && Cells(ApplyFrom(source, edits, cursor))
               == Cells(source)[cursor..e.span.start]
                  + (Cells(e.replacement) + Cells(ApplyFrom(source, edits[1..], e.span.end)))
  {
    var e := edits[0];
    CleanRest(source, edits);
    ApplyUnfold(source, edits, cursor);
    CellsSlice(source, cursor, e.span.start);
    var rest := ApplyFrom(source, edits[1..], e.span.end);
    if e.replacement == [] { ApplyBeginsAnew(source, edits[1..], e.span.end); }
    NoInkIsClean(e.replacement, rest);
    NoInkBeginsAnew(e.replacement, rest);
    AnewIsClean(source[cursor..e.span.start], e.replacement + rest);
  }

  lemma {:induction false} TailIsSeen(source: Source, cursor: nat)
    requires cursor <= |source| && CleanCut(source, cursor)
    ensures Cells(ApplyFrom(source, [], cursor)) == Cells(source)[cursor..]
  {
    CellsSlice(source, cursor, |source|);
    assert source[cursor..] == source[cursor..|source|];
  }

  /** Edits that write back the line breaks they take leave the line breaks of the source, byte for byte. */
  lemma {:induction false} BreaksFrom(source: Source, edits: seq<Edit>, cursor: nat)
    requires Ordered(edits, cursor, |source|) && CleanSeams(source, edits) && CleanCut(source, cursor)
    requires AllKeepBreaks(source, edits)
    ensures BreakBytes(Cells(ApplyFrom(source, edits, cursor))) == BreakBytes(Cells(source)[cursor..])
    decreases |edits|
  {
    hide CleanSeams, CleanCut, ApplyFrom, KeepsBreaks;
    if edits == [] {
      TailIsSeen(source, cursor);
    } else {
      var e := edits[0];
      ApplyIsSeen(source, edits, cursor);
      BreaksOfRest(source, edits);
      BreaksFrom(source, edits[1..], e.span.end);
      BreaksInThree(source, e, cursor, Cells(ApplyFrom(source, edits[1..], e.span.end)));
      BreakBytesJoin(Cells(source)[cursor..e.span.end], Cells(source)[e.span.end..]);
      assert Cells(source)[cursor..] == Cells(source)[cursor..e.span.end] + Cells(source)[e.span.end..];
    }
  }

  /** What is copied in front of an edit and what it leaves have the line breaks of the source up to its end. */
  lemma {:induction false} BreaksInThree(source: Source, e: Edit, cursor: nat, rest: seq<Cell>)
    requires KeepsBreaks(source, e) && cursor <= e.span.start
    ensures BreakBytes(Cells(source)[cursor..e.span.start] + (Cells(e.replacement) + rest))
         == BreakBytes(Cells(source)[cursor..e.span.end]) + BreakBytes(rest)
  {
    var cells, r := Cells(source), Cells(e.replacement);
    BreakBytesJoin(r, rest);
    BreakBytesJoin(cells[cursor..e.span.start], r + rest);
    BreakBytesJoin(cells[cursor..e.span.start], cells[e.span.start..e.span.end]);
    assert cells[cursor..e.span.end] == cells[cursor..e.span.start] + cells[e.span.start..e.span.end];
    ThreeBytes(BreakBytes(cells[cursor..e.span.start]), BreakBytes(r), BreakBytes(rest));
  }

  lemma {:induction false} ThreeBytes(a: seq<byte>, b: seq<byte>, c: seq<byte>)
    ensures a + (b + c) == (a + b) + c
  {
  }

  lemma {:induction false} BreaksOfRest(source: Source, edits: seq<Edit>)
    requires edits != [] && AllKeepBreaks(source, edits)
    ensures KeepsBreaks(source, edits[0]) && AllKeepBreaks(source, edits[1..])
  {
    assert edits[0] in edits;
    assert forall e <- edits[1..] :: e in edits;
  }

  lemma {:induction false} EditsKeepBreaks(source: Source, edits: seq<Edit>)
    requires Ordered(edits, 0, |source|) && CleanSeams(source, edits) && AllKeepBreaks(source, edits)
    ensures BreakBytes(Cells(Apply(source, edits))) == BreakBytes(Cells(source))
  {
    BreaksFrom(source, edits, 0);
    assert Cells(source)[0..] == Cells(source);
  }

  /** Byte `k` of what is written from `cursor` on is byte `i` of the source, behind the same line breaks. */
  ghost predicate PlacedFrom(source: Source, out: Source, cursor: nat, k: int, i: nat) {
    && cursor <= i < |source| && 0 <= k < |out| && out[k] == source[i]
    && BreakBytes(Cells(out)[..k]) == BreakBytes(Cells(source)[cursor..i])
  }

  lemma {:induction false} SurvivorPlaced(source: Source, edits: seq<Edit>, cursor: nat, i: nat)
    requires Ordered(edits, cursor, |source|) && CleanSeams(source, edits) && CleanCut(source, cursor)
    requires AllKeepBreaks(source, edits) && cursor <= i < |source| && Survives(edits, i)
    ensures PlacedFrom(source, ApplyFrom(source, edits, cursor), cursor, Landed(edits, i) - cursor, i)
    decreases |edits|
  {
    hide CleanSeams, CleanCut, KeepsBreaks, PlacedFrom, Cells, ApplyFrom;
    if edits == [] {
      TailPlaced(source, cursor, i);
    } else {
      var e := edits[0];
      ApplyIsSeen(source, edits, cursor);
      ApplyUnfold(source, edits, cursor);
      if i < e.span.start {
        PlacedInFront(source, e, ApplyFrom(source, edits, cursor), cursor, i);
      } else {
        assert e in edits && forall f <- edits[1..] :: f in edits;
        BreaksOfRest(source, edits);
        SurvivorPlaced(source, edits[1..], e.span.end, i);
        PlacedBehind(source, e, ApplyFrom(source, edits[1..], e.span.end), ApplyFrom(source, edits, cursor), cursor,
                     Landed(edits[1..], i) - e.span.end, i);
      }
    }
  }

  lemma {:induction false} TailPlaced(source: Source, cursor: nat, i: nat)
    requires cursor <= i < |source| && CleanCut(source, cursor)
    ensures PlacedFrom(source, ApplyFrom(source, [], cursor), cursor, i - cursor, i)
  {
    TailIsSeen(source, cursor);
    assert Cells(source)[cursor..][..i - cursor] == Cells(source)[cursor..i];
  }

  lemma {:induction false} PlacedInFront(source: Source, e: Edit, out: Source, cursor: nat, i: nat)
    requires cursor <= i < e.span.start <= |source| && source[cursor..e.span.start] <= out
    requires Cells(source)[cursor..e.span.start] <= Cells(out)
    ensures PlacedFrom(source, out, cursor, i - cursor, i)
  {
    var run := Cells(source)[cursor..e.span.start];
    assert out[..e.span.start - cursor][i - cursor] == source[cursor..e.span.start][i - cursor];
    assert Cells(out)[..i - cursor] == run[..i - cursor] == Cells(source)[cursor..i];
  }

  lemma {:induction false} PlacedBehind(source: Source, e: Edit, rest: Source, out: Source, cursor: nat, k: int, i: nat)
    requires KeepsBreaks(source, e) && cursor <= e.span.start && PlacedFrom(source, rest, e.span.end, k, i)
    requires out == source[cursor..e.span.start] + (e.replacement + rest)
    requires Cells(out) == Cells(source)[cursor..e.span.start] + (Cells(e.replacement) + Cells(rest))
    ensures PlacedFrom(source, out, cursor, e.span.start - cursor + |e.replacement| + k, i)
  {
    var at := e.span.start - cursor + |e.replacement| + k;
    var cells := Cells(source);
    assert Cells(out)[..at] == cells[cursor..e.span.start] + (Cells(e.replacement) + Cells(rest)[..k]);
    BreaksInThree(source, e, cursor, Cells(rest)[..k]);
    BreakBytesJoin(cells[cursor..e.span.end], cells[e.span.end..i]);
    assert cells[cursor..i] == cells[cursor..e.span.end] + cells[e.span.end..i];
  }

  /** In front of every byte that stays stand the line breaks that stood there. */
  lemma {:induction false} SurvivorKeepsPlace(source: Source, edits: seq<Edit>, i: nat)
    requires Ordered(edits, 0, |source|) && CleanSeams(source, edits)
    requires AllKeepBreaks(source, edits) && i < |source| && Survives(edits, i)
    ensures SamePlace(source, Apply(source, edits), Landed(edits, i), i)
  {
    SurvivorPlaced(source, edits, 0, i);
    assert Cells(source)[0..i] == Cells(source)[..i];
  }

  // ---- numbers ----

  /** The number of the line offset `i` is on: the lines that begin behind the start, up to `i`. */
  function LineNumber(s: Source, i: nat): nat
    requires i <= |s|
  {
    if i == 0 then 0 else LineNumber(s, i - 1) + (if LineBoundary(s, i) then 1 else 0)
  }

  /** A carriage return and a line feed behind it, which are one line ending. */
  predicate PairAt(s: Source, i: nat) {
    0 < i < |s| && s[i - 1] == CR && s[i] == LF
  }

  /** The pairs whose line feed stands no further than `i`. */
  function Pairs(s: Source, i: nat): nat {
    if i == 0 then 0 else Pairs(s, i - 1) + (if PairAt(s, i) then 1 else 0)
  }

  lemma {:induction false} PairsOneMore(t: Source, b: byte)
    ensures Pairs(t + [b], |t| + 1) == Pairs(t, |t|) + (if t != [] && t[|t| - 1] == CR && b == LF then 1 else 0)
  {
    PairsOfFront(t, [b], |t|);
    if t != [] { assert PairAt(t + [b], |t|) <==> t[|t| - 1] == CR && b == LF; }
  }

  /** The pairs of a text are those of it in front of any other text. */
  lemma {:induction false} PairsOfFront(x: Source, y: Source, i: nat)
    requires i <= |x|
    ensures i < |x| ==> Pairs(x + y, i) == Pairs(x, i)
    ensures i == |x| ==> Pairs(x, i) == (if i == 0 then 0 else Pairs(x + y, i - 1))
    ensures i == |x| ==> Pairs(x + y, i) == Pairs(x, i) + (if PairAt(x + y, i) then 1 else 0)
    decreases i
  {
    if i > 0 { PairsOfFront(x, y, i - 1); }
  }

  /** A byte of a line break that ends it, if it is not the carriage return of a pair. */
  predicate EndsLine(b: byte) {
    b == CR || b == LF || b == 0xA8 || b == 0xA9
  }

  /** The bytes among `breaks` that end a line, the carriage return of a pair counted like any other. */
  function LinesEnded(breaks: seq<byte>): nat {
    if breaks == [] then 0
    else LinesEnded(breaks[..|breaks| - 1]) + (if EndsLine(breaks[|breaks| - 1]) then 1 else 0)
  }

  /** A line number is read off the line breaks in front, but for the pairs among them. */
  lemma {:induction false} LineNumberCounts(s: Source, i: nat)
    requires i <= |s|
    ensures LineNumber(s, i) + Pairs(s, i) == LinesEnded(BreakBytes(Cells(s)[..i]))
  {
    if i > 0 {
      hide BreakBytes, LinesEnded, LineBoundary, PairAt;
      LineNumberCounts(s, i - 1);
      var front, c := Cells(s)[..i - 1], Cells(s)[i - 1];
      assert Cells(s)[..i] == front + [c];
      OneMoreBreak(front, c);
      BoundaryByLastByte(s, i);
    } else {
      assert Cells(s)[..0] == [];
    }
  }

  lemma {:induction false} OneMoreBreak(front: seq<Cell>, c: Cell)
    ensures LinesEnded(BreakBytes(front + [c]))
         == LinesEnded(BreakBytes(front)) + if c.sym == Break && EndsLine(c.b) then 1 else 0
  {
    BreakBytesJoin(front, [c]);
    var breaks := BreakBytes(front);
    assert [c][1..] == [];
    assert BreakBytes([c]) == if c.sym == Break then [c.b] else [];
    assert breaks + [] == breaks;
    assert (breaks + [c.b])[..|breaks|] == breaks;
  }

  lemma {:induction false} BoundaryByLastByte(s: Source, i: nat)
    requires 0 < i <= |s|
    ensures (if LineBoundary(s, i) then 1 else 0) + (if PairAt(s, i) then 1 else 0)
         == if SymAt(s, i - 1) == Break && EndsLine(s[i - 1]) then 1 else 0
  {
  }

  /** Byte `k` of `out` is byte `i` of the source, on the line of the same number. */
  ghost predicate SameLine(source: Source, out: Source, k: int, i: nat) {
    i < |source| && 0 <= k < |out| && out[k] == source[i] && LineNumber(out, k) == LineNumber(source, i)
  }

  /** Byte `k` of `out` is byte `i` of the source, and its line moved up by as many lines as there are pairs more. */
  ghost predicate MovedByPairs(source: Source, out: Source, k: int, i: nat) {
    && i < |source| && 0 <= k < |out| && out[k] == source[i]
    && LineNumber(out, k) + Pairs(out, k) == LineNumber(source, i) + Pairs(source, i)
  }

  /**
   * Edits that write back the line breaks they take move a byte they leave up by as many lines as they
   * put pairs together in front of it, and so leave it on its line if and only if they put together none.
   */
  lemma {:induction false} SurvivorKeepsLine(source: Source, edits: seq<Edit>, i: nat)
    requires Ordered(edits, 0, |source|) && CleanSeams(source, edits)
    requires AllKeepBreaks(source, edits) && i < |source| && Survives(edits, i)
    ensures MovedByPairs(source, Apply(source, edits), Landed(edits, i), i)
    ensures SameLine(source, Apply(source, edits), Landed(edits, i), i)
       <==> Pairs(Apply(source, edits), Landed(edits, i)) == Pairs(source, i)
  {
    SurvivorKeepsPlace(source, edits, i);
    LineNumberCounts(source, i);
    LineNumberCounts(Apply(source, edits), Landed(edits, i));
  }

  // ---- without lone carriage returns ----

  /** Every carriage return is half of a CRLF pair. */
  predicate NoLoneCR(s: Source) {
    forall k | 0 <= k < |s| :: s[k] == CR ==> k + 1 < |s| && s[k + 1] == LF
  }

  lemma {:induction false} NoLoneCRJoin(x: Source, y: Source)
    requires NoLoneCR(x) && NoLoneCR(y)
    ensures NoLoneCR(x + y)
  {
  }

  lemma {:induction false} NoLoneCRSlice(s: Source, a: nat, z: nat)
    requires NoLoneCR(s) && a <= z <= |s| && WholeTerminators(s, z)
    ensures NoLoneCR(s[a..z])
  {
  }

  /** The carriage returns among `breaks`. */
  function Returns(breaks: seq<byte>): nat {
    if breaks == [] then 0
    else Returns(breaks[..|breaks| - 1]) + (if breaks[|breaks| - 1] == CR then 1 else 0)
  }

  /** Without a lone carriage return there is one pair for every carriage return. */
  lemma {:induction false} PairsAreReturns(s: Source, i: nat)
    requires NoLoneCR(s) && i <= |s|
    ensures Pairs(s, i) == Returns(BreakBytes(Cells(s)[..i]))
  {
    if i > 0 {
      hide BreakBytes, Returns;
      PairsAreReturns(s, i - 1);
      var front, c := Cells(s)[..i - 1], Cells(s)[i - 1];
      assert Cells(s)[..i] == front + [c];
      OneMoreReturn(front, c);
    } else {
      assert Cells(s)[..0] == [];
    }
  }

  lemma {:induction false} OneMoreReturn(front: seq<Cell>, c: Cell)
    ensures Returns(BreakBytes(front + [c]))
         == Returns(BreakBytes(front)) + if c.sym == Break && c.b == CR then 1 else 0
  {
    BreakBytesJoin(front, [c]);
    var breaks := BreakBytes(front);
    assert [c][1..] == [];
    assert BreakBytes([c]) == if c.sym == Break then [c.b] else [];
    assert breaks + [] == breaks;
    assert (breaks + [c.b])[..|breaks|] == breaks;
  }

  /** The edit cuts no terminator, and what it leaves has no lone carriage return. */
  ghost predicate KeepsPairs(source: Source, e: Edit) {
    && e.span.start <= e.span.end <= |source|
    && WholeTerminators(source, e.span.start) && WholeTerminators(source, e.span.end)
    && NoLoneCR(e.replacement)
  }

  lemma {:induction false} ApplyHasNoLoneCR(source: Source, edits: seq<Edit>, cursor: nat)
    requires Ordered(edits, cursor, |source|) && NoLoneCR(source)
    requires forall e <- edits :: KeepsPairs(source, e)
    ensures NoLoneCR(ApplyFrom(source, edits, cursor))
    decreases |edits|
  {
    if edits == [] {
      assert source[cursor..|source|] == source[cursor..];
      NoLoneCRSlice(source, cursor, |source|);
    } else {
      var e := edits[0];
      assert e in edits;
      ApplyHasNoLoneCR(source, edits[1..], e.span.end);
      NoLoneCRSlice(source, cursor, e.span.start);
      var rest := ApplyFrom(source, edits[1..], e.span.end);
      NoLoneCRJoin(e.replacement, rest);
      NoLoneCRJoin(source[cursor..e.span.start], e.replacement + rest);
    }
  }

  /** Without lone carriage returns no pair is put together: every byte that is left stays on its line. */
  lemma {:induction false} PairedSurvivorKeepsLine(source: Source, edits: seq<Edit>, i: nat)
    requires Ordered(edits, 0, |source|) && CleanSeams(source, edits)
    requires AllKeepBreaks(source, edits) && i < |source| && Survives(edits, i)
    requires NoLoneCR(source) && forall e <- edits :: KeepsPairs(source, e)
    ensures SameLine(source, Apply(source, edits), Landed(edits, i), i)
  {
    SurvivorKeepsLine(source, edits, i);
    SurvivorKeepsPlace(source, edits, i);
    ApplyHasNoLoneCR(source, edits, 0);
    PairsAreReturns(source, i);
    PairsAreReturns(Apply(source, edits), Landed(edits, i));
  }
}
