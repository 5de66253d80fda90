/**
 * A run of comments that fuses what it stands between changes the outline: the two visible bytes touch in
 * the text the edits make, and blanks stand between them in the source. What the edits do elsewhere cannot
 * make up for it, since no edit adds a visible byte and no seam does.
 */
module Fusions {
  import opened Bytes
  import opened Edits
  import opened Layouts
  import opened LineNumbers
  import opened Outlines
  import opened Scanning
  import opened Seams

  // ---- counting visible bytes ----

  function Inks(cells: seq<Cell>): nat {
    if cells == [] then 0 else (if cells[0].sym == Ink then 1 else 0) + Inks(cells[1..])
  }

  lemma {:induction false} InksJoin(x: seq<Cell>, y: seq<Cell>)
    ensures Inks(x + y) == Inks(x) + Inks(y)
    decreases |x|
  {
    if x == [] {
      assert x + y == y;
    } else {
      assert (x + y)[1..] == x[1..] + y;
      InksJoin(x[1..], y);
    }
  }

  lemma {:induction false} MarksCount(cells: seq<Cell>, st: State)
    ensures |Marks(cells, st)| == Inks(cells)
    decreases |cells|
  {
    if cells != [] { MarksCount(cells[1..], Step(st, cells[0].sym)); }
  }

  lemma {:induction false} NoInkIsNone(cells: seq<Cell>)
    requires NoInk(cells)
    ensures Inks(cells) == 0
    decreases |cells|
  {
    if cells != [] {
      assert forall i | 0 <= i < |cells[1..]| :: cells[1..][i] == cells[i + 1];
      NoInkIsNone(cells[1..]);
    }
  }

  /** Where every visible byte of one text is visible in another there are no more of them. */
  lemma {:induction false} InksAtMost(v: seq<Cell>, w: seq<Cell>)
    requires |v| == |w| && forall i | 0 <= i < |v| :: v[i].sym == Ink ==> w[i].sym == Ink
    ensures Inks(v) <= Inks(w)
    ensures (exists i :: 0 <= i < |v| && v[i].sym != Ink && w[i].sym == Ink) ==> Inks(v) < Inks(w)
    decreases |v|
  {
    if v != [] {
      assert forall i | 0 <= i < |v[1..]| :: v[1..][i] == v[i + 1] && w[1..][i] == w[i + 1];
      InksAtMost(v[1..], w[1..]);
      if i :| 0 <= i < |v| && v[i].sym != Ink && w[i].sym == Ink {
        if i > 0 { assert v[1..][i - 1].sym != Ink && w[1..][i - 1].sym == Ink; }
      }
    }
  }

  /** Two texts put together show no more than they show apart, and less where the seam makes a separator. */
  lemma {:induction false} InksAtSeam(x: Source, y: Source)
    ensures Inks(Cells(x + y)) <= Inks(Cells(x)) + Inks(Cells(y))
    ensures !CleanCut(x + y, |x|) ==> Inks(Cells(x + y)) < Inks(Cells(x)) + Inks(Cells(y))
  {
    var v, w := Cells(x + y), Cells(x) + Cells(y);
    InksJoin(Cells(x), Cells(y));
    forall i | 0 <= i < |v| && v[i].sym == Ink
      ensures w[i].sym == Ink
    {
      ShownApart(x, y, i);
    }
    if !CleanCut(x + y, |x|) {
      HiddenAtSeam(x, y);
      assert v[|x| - 1].sym != Ink && w[|x| - 1].sym == Ink;
    }
    InksAtMost(v, w);
  }

  lemma {:induction false} ShownApart(x: Source, y: Source, i: nat)
    requires i < |x + y| && SymAt(x + y, i) == Ink
    ensures i < |x| ==> SymAt(x, i) == Ink
    ensures i >= |x| ==> SymAt(y, i - |x|) == Ink
  {
    var s := x + y;
    if i < |x| {
      assert s[i] == x[i];
      assert forall j: int | j <= i && SeparatorAt(x, j) :: SeparatorAt(s, j);
    } else {
      assert s[i] == y[i - |x|];
      assert forall j: int | SeparatorAt(y, j) :: SeparatorAt(s, |x| + j);
      var k := i - |x|;
      assert SeparatorAt(y, k) ==> SeparatorAt(s, i);
      assert SeparatorAt(y, k - 1) ==> SeparatorAt(s, i - 1);
      assert SeparatorAt(y, k - 2) ==> SeparatorAt(s, i - 2);
    }
  }

  /** A separator across a seam hides the byte in front of it, which is shown where the text ends there. */
  lemma {:induction false} HiddenAtSeam(x: Source, y: Source)
    requires !CleanCut(x + y, |x|)
    ensures x != [] && SymAt(x + y, |x| - 1) != Ink && SymAt(x, |x| - 1) == Ink
  {
    var s, p := x + y, |x|;
    if SeparatorAt(s, p - 1) {
      assert x[p - 1] == 0xE2;
    } else {
      assert SeparatorAt(s, p - 2) && x[p - 1] == 0x80;
    }
  }

  // ---- what the edits leave to see ----

  lemma {:induction false} SurvivorIsBare(source: Source, spans: seq<ByteSpan>, edits: seq<Edit>, i: nat)
    requires Taken(spans, edits) && i < |source| && Survives(edits, i)
    ensures !Covered(spans, i) && Blanked(source, spans)[i] == source[i]
  {
    forall k | 0 <= k < |spans|
      ensures !(spans[k].start <= i < spans[k].end)
    {
      assert Takes(edits, spans[k]);
    }
  }

  /** A stretch no edit reaches into is the same in the blanked source, and as much of it is seen. */
  lemma {:induction false} StretchIsSeen(source: Source, spans: seq<ByteSpan>, edits: seq<Edit>, a: nat, z: nat)
    requires a <= z <= |source| && CleanCut(source, a) && CleanCut(source, z)
    requires Taken(spans, edits) && forall i | a <= i < z :: Survives(edits, i)
    ensures Inks(Cells(source[a..z])) == Inks(Cells(Blanked(source, spans))[a..z])
  {
    var b := Blanked(source, spans);
    forall i | a <= i < z
      ensures b[i] == source[i]
    {
      SurvivorIsBare(source, spans, edits, i);
    }
    assert source[a..z] == b[a..z];
    BlankedSeparator(source, spans, a - 1);
    BlankedSeparator(source, spans, a - 2);
    BlankedSeparator(source, spans, z - 1);
    BlankedSeparator(source, spans, z - 2);
    CellsSlice(b, a, z);
  }

  lemma {:induction false} SurvivesBetween(edits: seq<Edit>, k: nat, n: nat, i: nat)
    requires Ordered(edits, 0, n) && k <= |edits|
    requires k > 0 ==> edits[k - 1].span.end <= i
    requires i < (if k < |edits| then edits[k].span.start else n)
    ensures Survives(edits, i)
  {
    OrderedBounds(edits, 0, n);
    forall e | e in edits
      ensures i < e.span.start || e.span.end <= i
    {
      var j :| 0 <= j < |edits| && edits[j] == e;
    }
  }

  /** Of the text in front of a place no more is seen than is left in the source. */
  lemma {:induction false} FrontIsSeen(source: Source, spans: seq<ByteSpan>, edits: seq<Edit>, k: nat, x: nat)
    requires Ordered(edits, 0, |source|) && AllDiscreet(source, spans, edits) && Taken(spans, edits)
    requires k <= |edits| && x <= (if k < |edits| then edits[k].span.start else |source|)
    requires Ordered(edits[..k], 0, |source|) && EndBy(edits[..k], x) && x <= |source| && CleanCut(source, x)
    ensures Inks(Cells(Written(source, edits[..k], x))) <= Inks(Cells(Blanked(source, spans))[..x])
    decreases k
  {
    hide AllDiscreet, Taken, CleanCut, Blanked, Covered;
    var cells := Cells(Blanked(source, spans));
    if k == 0 {
      CleanAtEnds(source);
      assert edits[..0] == [] && source[..x] == source[0..x] && cells[..x] == cells[0..x];
      StretchIsSeenBetween(source, spans, edits, 0, 0, x);
    } else {
      var e := edits[k - 1];
      WrittenLast(source, edits, k, x);
      DiscreetAt(source, spans, edits, k - 1);
      StretchIsSeenBetween(source, spans, edits, k, e.span.end, x);
      FrontIsSeen(source, spans, edits, k - 1, e.span.start);
      var front, run := Written(source, edits[..k - 1], e.span.start), source[e.span.end..x];
      InksAtSeam(front, e.replacement + run);
      InksAtSeam(e.replacement, run);
      InksInThree(cells, e.span.start, e.span.end, x);
    }
  }

  lemma {:induction false} InksInThree(cells: seq<Cell>, a: nat, m: nat, x: nat)
    requires a <= m <= x <= |cells|
    ensures Inks(cells[..x]) == Inks(cells[..a]) + Inks(cells[a..m]) + Inks(cells[m..x])
    ensures Inks(cells[a..]) == Inks(cells[a..m]) + Inks(cells[m..x]) + Inks(cells[x..])
  {
    assert cells[..x] == cells[..a] + (cells[a..m] + cells[m..x]);
    assert cells[a..] == cells[a..m] + (cells[m..x] + cells[x..]);
    InksJoin(cells[..a], cells[a..m] + cells[m..x]);
    InksJoin(cells[a..m], cells[m..x]);
    InksJoin(cells[a..m], cells[m..x] + cells[x..]);
    InksJoin(cells[m..x], cells[x..]);
  }

  lemma {:induction false} DiscreetAt(source: Source, spans: seq<ByteSpan>, edits: seq<Edit>, k: nat)
    requires AllDiscreet(source, spans, edits) && k < |edits|
    ensures var e := edits[k];
            && e.span.start < e.span.end <= |source|
            && CleanCut(source, e.span.start) && CleanCut(source, e.span.end)
            && Inks(Cells(e.replacement)) == 0
            && Inks(Cells(Blanked(source, spans))[e.span.start..e.span.end]) == 0
  {
    var e := edits[k];
    assert e in edits;
    NoInkIsNone(Cells(e.replacement));
    NoInkIsNone(Cells(Blanked(source, spans))[e.span.start..e.span.end]);
  }

  lemma {:induction false} StretchIsSeenBetween(source: Source, spans: seq<ByteSpan>, edits: seq<Edit>, k: nat, a: nat,
                                                z: nat)
    requires Ordered(edits, 0, |source|) && Taken(spans, edits) && k <= |edits|
    requires a <= z <= |source| && CleanCut(source, a) && CleanCut(source, z)
    requires k > 0 ==> edits[k - 1].span.end <= a
    requires z <= (if k < |edits| then edits[k].span.start else |source|)
    ensures Inks(Cells(source[a..z])) == Inks(Cells(Blanked(source, spans))[a..z])
  {
    forall i | a <= i < z
      ensures Survives(edits, i)
    {
      SurvivesBetween(edits, k, |source|, i);
    }
    StretchIsSeen(source, spans, edits, a, z);
  }

  /** Of the text behind a place no more is seen than is left in the source. */
  lemma {:induction false} RestIsSeen(source: Source, spans: seq<ByteSpan>, edits: seq<Edit>, k: nat, x: nat)
    requires Ordered(edits, 0, |source|) && AllDiscreet(source, spans, edits) && Taken(spans, edits)
    requires k <= |edits| && Ordered(edits[k..], x, |source|) && CleanCut(source, x)
    requires k > 0 ==> edits[k - 1].span.end <= x
    ensures x <= |source|
    ensures Inks(Cells(ApplyFrom(source, edits[k..], x))) <= Inks(Cells(Blanked(source, spans))[x..])
    decreases |edits| - k
  {
    hide AllDiscreet, Taken, CleanCut, Blanked, Covered;
    var cells := Cells(Blanked(source, spans));
    OrderedBounds(edits[k..], x, |source|);
    if k == |edits| {
      assert edits[k..] == [] && source[x..] == source[x..|source|] && cells[x..] == cells[x..|source|];
      CleanAtEnds(source);
      StretchIsSeenBetween(source, spans, edits, k, x, |source|);
    } else {
      var e := edits[k];
      ApplyStep(source, edits, k, x);
      DiscreetAt(source, spans, edits, k);
      StretchIsSeenBetween(source, spans, edits, k, x, e.span.start);
      RestIsSeen(source, spans, edits, k + 1, e.span.end);
      var run, rest := source[x..e.span.start], ApplyFrom(source, edits[k + 1..], e.span.end);
      InksAtSeam(run, e.replacement + rest);
      InksAtSeam(e.replacement, rest);
      InksInThree(cells, x, e.span.start, e.span.end);
    }
  }

  lemma {:induction false} CleanAtEnds(source: Source)
    ensures CleanCut(source, 0) && CleanCut(source, |source|)
  {
  }

  // ---- the edits of a run ----

  /** Each of the comments `i..j` has an edit that takes just it and leaves nothing. */
  ghost predicate LeavesNothing(comments: seq<Comment>, edits: seq<Edit>, i: nat, j: nat)
    requires i <= j < |comments|
  {
    forall m | i <= m <= j :: Edit(comments[m].span, []) in edits
  }

  /** Behind the edit of one comment of the run comes that of the next. */
  lemma {:induction false} EditOfNext(edits: seq<Edit>, k: nat, f: Edit, n: nat)
    requires Ordered(edits, 0, n) && Upright(edits) && k < |edits| && f in edits
    requires edits[k].span.end == f.span.start
    ensures k + 1 < |edits| && edits[k + 1] == f
  {
    OrderedBounds(edits, 0, n);
    var q :| 0 <= q < |edits| && edits[q] == f;
    assert edits[k] in edits && edits[q] in edits;
  }

  /** The edits of a run write nothing: what is behind the run follows on what is in front of it. */
  lemma {:induction false} RunVanishes(source: Source, comments: seq<Comment>, edits: seq<Edit>, i: nat, j: nat, k: nat)
    returns (l: nat)
    requires Ordered(edits, 0, |source|) && Upright(edits)
    requires i <= j < |comments| && LeavesNothing(comments, edits, i, j)
    requires forall m | i <= m < j :: comments[m].span.end == comments[m + 1].span.start
    requires k < |edits| && edits[k] == Edit(comments[i].span, [])
    requires Ordered(edits[k..], comments[i].span.start, |source|)
    ensures k < l <= |edits| && edits[l - 1] == Edit(comments[j].span, [])
    ensures Ordered(edits[l..], comments[j].span.end, |source|)
    ensures ApplyFrom(source, edits[k..], comments[i].span.start) == ApplyFrom(source, edits[l..], comments[j].span.end)
    decreases j - i
  {
    var s := comments[i].span;
    ApplyStep(source, edits, k, s.start);
    var rest := ApplyFrom(source, edits[k + 1..], s.end);
    assert source[s.start..s.start] + ([] + rest) == rest;
    if i == j {
      l := k + 1;
    } else {
      assert Edit(comments[i + 1].span, []) in edits;
      EditOfNext(edits, k, Edit(comments[i + 1].span, []), |source|);
      l := RunVanishes(source, comments, edits, i + 1, j, k + 1);
    }
  }

  // ---- two visible bytes that come to touch ----

  /** Of a text cut at a visible byte less is seen in front of the byte. */
  lemma {:induction false} OneInkMore(cells: seq<Cell>, a: nat)
    requires a < |cells| && cells[a].sym == Ink
    ensures Inks(cells[..a + 1]) == Inks(cells[..a]) + 1
    ensures Inks(cells[a..]) == 1 + Inks(cells[a + 1..])
  {
    assert cells[..a + 1] == cells[..a] + [cells[a]];
    assert [cells[a]][1..] == [];
    InksJoin(cells[..a], [cells[a]]);
    assert cells[a..][1..] == cells[a + 1..];
  }

  /** A text that shows as much as it can, one visible byte behind what may be seen in front, ends in it. */
  lemma {:induction false} EndsInInk(front: Source, c: byte, n: nat)
    requires Inks(Cells(front)) <= n && Inks(Cells(front + [c])) == n + 1
    ensures Cells(front + [c])[|front|].sym == Ink
  {
    var v := Cells(front + [c]);
    if v[|front|].sym != Ink {
      assert v == v[..|front|] + [v[|front|]];
      InksJoin(v[..|front|], [v[|front|]]);
      assert [v[|front|]][1..] == [];
      forall i | 0 <= i < |front| && v[..|front|][i].sym == Ink
        ensures Cells(front)[i].sym == Ink
      {
        ShownApart(front, [c], i);
      }
      InksAtMost(v[..|front|], Cells(front));
    }
  }

  lemma {:induction false} BeginsInInk(c: byte, rest: Source, n: nat)
    requires Inks(Cells(rest)) <= n && Inks(Cells([c] + rest)) == n + 1
    ensures Cells([c] + rest)[0].sym == Ink
  {
    var v := Cells([c] + rest);
    if v[0].sym != Ink {
      forall i | 0 <= i < |rest| && v[1..][i].sym == Ink
        ensures Cells(rest)[i].sym == Ink
      {
        ShownApart([c], rest, i + 1);
      }
      InksAtMost(v[1..], Cells(rest));
    }
  }

  /** What is marked behind `x`, and first. */
  lemma {:induction false} MarkBehind(x: seq<Cell>, y: seq<Cell>)
    requires y != [] && y[0].sym == Ink
    ensures var st := Walk(x, START);
            && |Marks(x + y, START)| > Inks(x)
            && Marks(x + y, START)[Inks(x)] == Mark(y[0].b, if st.seen then st.gap else First)
  {
    WalkJoin(x, y, START);
    MarksCount(x, START);
  }

  /** A visible byte behind another, right behind it or behind blanks, is marked so. */
  lemma {:induction false} MarkTouching(x: seq<Cell>, y: seq<Cell>)
    requires x != [] && x[|x| - 1].sym == Ink && y != [] && y[0].sym == Ink
    ensures |Marks(x + y, START)| > Inks(x) && Marks(x + y, START)[Inks(x)].sep == Touching
  {
    WalkLast(x);
    MarkBehind(x, y);
  }

  lemma {:induction false} MarkSpaced(x: seq<Cell>, w: seq<Cell>, y: seq<Cell>)
    requires x != [] && x[|x| - 1].sym == Ink && y != [] && y[0].sym == Ink
    requires w != [] && NoInk(w) && !HasBreak(w)
    ensures |Marks(x + (w + y), START)| > Inks(x) && Marks(x + (w + y), START)[Inks(x)].sep == Spaced
  {
    WalkLast(x);
    WalkJoin(x, w, START);
    WalkNoInk(w, Walk(x, START));
    MarkBehind(x + w, y);
    InksJoin(x, w);
    NoInkIsNone(w);
    assert (x + w) + y == x + (w + y);
  }

  /** The texts `front` and `rest` have been cut out of a source between which `w` was. */
  lemma {:induction false} TouchingIsNotSpaced(front: Source, rest: Source, x: seq<Cell>, w: seq<Cell>, y: seq<Cell>)
    requires Inks(Cells(front)) <= Inks(x) && Inks(Cells(rest)) <= Inks(y)
    requires x != [] && x[|x| - 1].sym == Ink && y != [] && y[0].sym == Ink
    requires w != [] && NoInk(w) && !HasBreak(w)
    requires Inks(Cells(front)) == Inks(x) ==> front != [] && Cells(front)[|front| - 1].sym == Ink
    requires Inks(Cells(rest)) == Inks(y) ==> rest != [] && Cells(rest)[0].sym == Ink
    ensures Outline(front + rest) != Marks(x + (w + y), START)
  {
    MarksCount(Cells(front + rest), START);
    MarksCount(x + (w + y), START);
    InksJoin(x, w + y);
    InksJoin(w, y);
    NoInkIsNone(w);
    InksAtSeam(front, rest);
    MarkSpaced(x, w, y);
    if Inks(Cells(front + rest)) == Inks(x) + Inks(y) {
      CellsJoin(front, rest);
      MarkTouching(Cells(front), Cells(rest));
    }
  }

  /** No edit reaches a byte of code. */
  lemma {:induction false} CodeSurvives(source: Source, comments: seq<Comment>, edits: seq<Edit>, p: nat)
    requires AllDiscreet(source, RemovedSpans(comments), edits) && IsCode(source, comments, p)
    ensures Survives(edits, p)
  {
    forall e | e in edits
      ensures p < e.span.start || e.span.end <= p
    {
      if e.span.start <= p < e.span.end { DiscreetShowsNothing(source, RemovedSpans(comments), e, p); }
    }
  }

  lemma {:induction false} CodeIsSeen(source: Source, comments: seq<Comment>, p: nat)
    requires IsCode(source, comments, p)
    ensures p < |Cells(Blanked(source, RemovedSpans(comments)))|
    ensures Cells(Blanked(source, RemovedSpans(comments)))[p].sym == Ink
    ensures CleanCut(source, p) && CleanCut(source, p + 1)
  {
    BlankedSymAt(source, RemovedSpans(comments), p);
  }

  /** What is written up to code ends in it, if as much is seen of it as may be. */
  lemma {:induction false} FrontEndsInCode(source: Source, comments: seq<Comment>, edits: seq<Edit>, k: nat, a: nat)
    requires Ordered(edits, 0, |source|) && AllDiscreet(source, RemovedSpans(comments), edits)
    requires Taken(RemovedSpans(comments), edits) && k < |edits| && edits[k].span.start == a + 1
    requires IsCode(source, comments, a)
    ensures Ordered(edits[..k], 0, |source|) && EndBy(edits[..k], a + 1)
    ensures var cells, front := Cells(Blanked(source, RemovedSpans(comments))), Written(source, edits[..k], a + 1);
            && Inks(Cells(front)) <= Inks(cells[..a + 1])
            && (Inks(Cells(front)) == Inks(cells[..a + 1]) ==> front != [] && Cells(front)[|front| - 1].sym == Ink)
  {
    hide AllDiscreet, Taken, CleanCut, Blanked, Cells;
    var spans := RemovedSpans(comments);
    var cells := Cells(Blanked(source, spans));
    DiscreetIsUpright(source, spans, edits);
    CodeSurvives(source, comments, edits, a);
    CodeIsSeen(source, comments, a);
    EndsBeforeCode(source, edits, k, a);
    WrittenInTwo(source, edits, k, a + 1);
    WrittenInTwo(source, edits, k, a);
    FrontIsSeen(source, spans, edits, k, a + 1);
    FrontIsSeen(source, spans, edits, k, a);
    OneInkMore(cells, a);
    WrittenOneByte(source, edits[..k], a);
    var less := Written(source, edits[..k], a);
    if Inks(Cells(less + [source[a]])) == Inks(cells[..a]) + 1 { EndsInInk(less, source[a], Inks(cells[..a])); }
  }

  lemma {:induction false} EndsBeforeCode(source: Source, edits: seq<Edit>, k: nat, a: nat)
    requires Ordered(edits, 0, |source|) && Upright(edits) && k < |edits|
    requires edits[k].span.start == a + 1 && Survives(edits, a)
    ensures a < |source| && EndBy(edits[..k], a) && EndBy(edits[..k], a + 1)
  {
    OrderedBounds(edits, 0, |source|);
    if k > 0 { assert edits[k - 1] in edits && edits[..k][k - 1] == edits[k - 1]; }
  }

  lemma {:induction false} WrittenOneByte(source: Source, edits: seq<Edit>, a: nat)
    requires Ordered(edits, 0, |source|) && EndBy(edits, a) && a < |source|
    ensures EndBy(edits, a + 1) && Written(source, edits, a + 1) == Written(source, edits, a) + [source[a]]
  {
    if edits == [] {
      assert source[..a + 1] == source[..a] + [source[a]];
    } else {
      var e := edits[|edits| - 1];
      OrderedBounds(edits, 0, |source|);
      assert source[e.span.end..a + 1] == source[e.span.end..a] + [source[a]];
      OrderedPrefix(edits, 0, |source|, |source|);
      EndsInFront(edits, 0, |source|);
      var front := Written(source, edits[..|edits| - 1], e.span.start);
      assert front + (e.replacement + (source[e.span.end..a] + [source[a]]))
          == (front + (e.replacement + source[e.span.end..a])) + [source[a]];
    }
  }

  /** What is written from code on begins with it, if as much is seen of it as may be. */
  lemma {:induction false} RestBeginsInCode(source: Source, comments: seq<Comment>, edits: seq<Edit>, l: nat, z: nat)
    requires Ordered(edits, 0, |source|) && AllDiscreet(source, RemovedSpans(comments), edits)
    requires Taken(RemovedSpans(comments), edits) && 0 < l <= |edits| && edits[l - 1].span.end == z
    requires Ordered(edits[l..], z, |source|) && IsCode(source, comments, z)
    ensures var cells, rest := Cells(Blanked(source, RemovedSpans(comments))), ApplyFrom(source, edits[l..], z);
            && Inks(Cells(rest)) <= Inks(cells[z..])
            && (Inks(Cells(rest)) == Inks(cells[z..]) ==> rest != [] && Cells(rest)[0].sym == Ink)
  {
    hide AllDiscreet, Taken, CleanCut, Blanked, Cells;
    var spans := RemovedSpans(comments);
    var cells := Cells(Blanked(source, spans));
    DiscreetIsUpright(source, spans, edits);
    CodeSurvives(source, comments, edits, z);
    CodeIsSeen(source, comments, z);
    BeginsBehindCode(source, edits, l, z);
    RestIsSeen(source, spans, edits, l, z);
    RestIsSeen(source, spans, edits, l, z + 1);
    OneInkMore(cells, z);
    ApplyLater(source, edits[l..], z, z + 1);
    assert source[z..z + 1] == [source[z]];
    var less := ApplyFrom(source, edits[l..], z + 1);
    if Inks(Cells([source[z]] + less)) == 1 + Inks(cells[z + 1..]) {
      BeginsInInk(source[z], less, Inks(cells[z + 1..]));
    }
  }

  lemma {:induction false} BeginsBehindCode(source: Source, edits: seq<Edit>, l: nat, z: nat)
    requires Ordered(edits, 0, |source|) && 0 < l <= |edits| && edits[l - 1].span.end == z
    requires z < |source| && Survives(edits, z) && Ordered(edits[l..], z, |source|) && Upright(edits)
    ensures Ordered(edits[l..], z + 1, |source|) && z + 1 <= (if l < |edits| then edits[l].span.start else |source|)
  {
    OrderedBounds(edits, 0, |source|);
    if l < |edits| { assert edits[l] in edits; }
    OrderedFromPairs(edits[l..], z + 1, |source|);
  }

  /**
   * Edits that are discreet and take every removed comment, those of a run leaving nothing, change the
   * outline where the run fuses what it stands between.
   */
  lemma {:induction false} FusedRunLosesOutline(source: Source, comments: seq<Comment>, idle: set<nat>,
                                                edits: seq<Edit>, i: nat, j: nat)
    requires InOrder(comments, |source|)
    requires Ordered(edits, 0, |source|) && AllDiscreet(source, RemovedSpans(comments), edits)
    requires Taken(RemovedSpans(comments), edits)
    requires Fuses(source, comments, idle, i, j) && LeavesNothing(comments, edits, i, j)
    ensures Outline(Apply(source, edits)) != RemainingOutline(source, comments)
  {
    hide AllDiscreet, Taken, CleanCut, Blanked, Cells, Covered, Unbroken, Written, ApplyFrom, Ordered, Marks, Inks,
         Upright, HasNonWhitespaceNeighbors, NoInk, HasBreak, SymAt;
    var spans, a, z := RemovedSpans(comments), comments[i].span.start, comments[j].span.end;
    var k :| 0 <= k < |edits| && edits[k] == Edit(comments[i].span, []);
    DiscreetIsUpright(source, spans, edits);
    FrontEndsInCode(source, comments, edits, k, a - 1);
    WrittenInTwo(source, edits, k, a);
    var l := RunVanishes(source, comments, edits, i, j, k);
    RestBeginsInCode(source, comments, edits, l, z);
    RunIsBlank(source, comments, idle, i, j);
    TouchingIsNotSpaced(Written(source, edits[..k], a), ApplyFrom(source, edits[l..], z),
                        Cells(Blanked(source, spans))[..a], Cells(Blanked(source, spans))[a..z],
                        Cells(Blanked(source, spans))[z..]);
  }

  /** In the source blanks stand where the run was, between two visible bytes. */
  lemma {:induction false} RunIsBlank(source: Source, comments: seq<Comment>, idle: set<nat>, i: nat, j: nat)
    requires InOrder(comments, |source|) && Fuses(source, comments, idle, i, j)
    ensures var cells, a, z := Cells(Blanked(source, RemovedSpans(comments))), comments[i].span.start,
            comments[j].span.end;
            && 0 < a < z < |source| == |cells|
            && cells[a - 1].sym == Ink && cells[z].sym == Ink
            && NoInk(cells[a..z]) && !HasBreak(cells[a..z])
            && cells == cells[..a] + (cells[a..z] + cells[z..])
            && cells[..a][a - 1].sym == Ink && cells[z..][0].sym == Ink
  {
    hide SymAt, Blanked;
    var spans := RemovedSpans(comments);
    var cells, a, z := Cells(Blanked(source, spans)), comments[i].span.start, comments[j].span.end;
    CodeIsSeen(source, comments, a - 1);
    CodeIsSeen(source, comments, z);
    assert comments[i].span.start < comments[i].span.end <= comments[j].span.end;
    forall x | 0 <= x < z - a
      ensures cells[a..z][x].sym == Blank
    {
      var m := RunHolds(source, comments, idle, i, j, j, a + x);
      BlankInComment(source, comments, m, a + x);
    }
  }

  /** Every byte of a run lies in one of its comments. */
  lemma {:induction false} RunHolds(source: Source, comments: seq<Comment>, idle: set<nat>, i: nat, j: nat,
                                    last: nat, x: nat)
    returns (m: nat)
    requires Fuses(source, comments, idle, i, j) && i <= last <= j
    requires comments[i].span.start <= x < comments[last].span.end
    ensures i <= m <= j && comments[m].span.start <= x < comments[m].span.end
    decreases last
  {
    if x >= comments[last].span.start {
      m := last;
    } else {
      m := RunHolds(source, comments, idle, i, j, last - 1, x);
    }
  }

  lemma {:induction false} BlankInComment(source: Source, comments: seq<Comment>, m: nat, x: nat)
    requires m < |comments| && Removes(comments[m]) && comments[m].span.start <= x < comments[m].span.end <= |source|
    requires SymAt(source, x) != Break
    ensures SymAt(Blanked(source, RemovedSpans(comments)), x) == Blank
  {
    RemovedSpansHold(comments);
    SpanIsCovered(RemovedSpans(comments), comments[m].span, x);
    BlankedSymAt(source, RemovedSpans(comments), x);
  }
}
