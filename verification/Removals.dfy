/**
 * What a removal of whole lines leaves between the code above it and the code below: as many blank lines as
 * the longer of the two runs of them it stood between.
 */
module Removals {
  import opened Arrivals
  import opened Bytes
  import opened Collapse
  import opened Edits
  import opened Fusions
  import opened Gaps
  import opened LineNumbers
  import opened LinesLeft
  import opened Outlines
  import opened Residues

  lemma {:induction false} LineOfIs(starts: seq<nat>, offset: nat, l: nat)
    requires starts != [] && starts[0] == 0 && Ascending(starts) && l < |starts|
    requires starts[l] <= offset && (l + 1 < |starts| ==> offset < starts[l + 1])
    ensures LineOf(starts, offset) == l
  {
    var m := LineOf(starts, offset);
    assert starts[m] <= offset;
  }

  /** The number of the line an offset is on is its place in the table. */
  lemma {:induction false} LineNumberIsPlace(source: Source, i: nat)
    requires i <= |source|
    ensures LineStarts(source) != [] && LineStarts(source)[0] == 0
    ensures LineNumber(source, i) == LineOf(LineStarts(source), i)
  {
    hide LineStarts, LineOf, LineBoundary;
    StartsAscend(source);
    if i == 0 {
      FirstPlace(LineStarts(source));
    } else {
      LineNumberIsPlace(source, i - 1);
      PlaceOfNext(source, i);
    }
  }

  lemma {:induction false} FirstPlace(starts: seq<nat>)
    requires starts != [] && starts[0] == 0 && Ascending(starts)
    ensures LineOf(starts, 0) == 0
  {
    if |starts| > 1 { InOrderOfStarts(starts, 0, 1); }
    LineOfIs(starts, 0, 0);
  }

  lemma {:induction false} PlaceOfNext(source: Source, i: nat)
    requires 0 < i <= |source|
    ensures LineStarts(source) != [] && LineStarts(source)[0] == 0
    ensures LineOf(LineStarts(source), i)
         == LineOf(LineStarts(source), i - 1) + if LineBoundary(source, i) then 1 else 0
  {
    hide LineStarts, LineOf, LineBoundary;
    LineStartsTable(source);
    var starts := LineStarts(source);
    var l := LineOf(starts, i - 1);
    if LineBoundary(source, i) {
      var m :| 0 <= m < |starts| && starts[m] == i;
      NextStart(starts, l, m, i);
      LineOfIs(starts, i, l + 1);
    } else {
      if l + 1 < |starts| { assert LineBoundary(source, starts[l + 1]); }
      LineOfIs(starts, i, l);
    }
  }

  lemma {:induction false} NextStart(starts: seq<nat>, l: nat, m: nat, i: nat)
    requires starts != [] && starts[0] == 0 && Ascending(starts) && 0 < i
    requires l == LineOf(starts, i - 1) && m < |starts| && starts[m] == i
    ensures l + 1 < |starts| && starts[l + 1] == i && (l + 2 < |starts| ==> i < starts[l + 2])
  {
    InOrderOfStarts(starts, l, m);
    if l + 1 < m { InOrderOfStarts(starts, l + 1, m); }
    if l + 2 < |starts| { InOrderOfStarts(starts, l + 1, l + 2); }
  }

  lemma {:induction false} ShownIsOnNoBlank(source: Source, p: nat)
    requires Shown(source, p) && LineStarts(source) != [] && LineStarts(source)[0] == 0
    ensures !BlankLine(source, LineStarts(source), LineOf(LineStarts(source), p))
  {
  }

  /** Blank lines above a line go up to the line of the code above. */
  lemma {:induction false} AboveUpToCode(source: Source, p: nat, t: nat)
    requires Shown(source, p) && LineStarts(source) != [] && LineStarts(source)[0] == 0
    requires LineOf(LineStarts(source), p) < t < |LineStarts(source)|
    requires forall i | p < i < LineStarts(source)[t] && i < |source| :: SymAt(source, i) != Ink
    ensures BlankAbove(source, LineStarts(source), t) == t - 1 - LineOf(LineStarts(source), p)
    decreases t
  {
    LineStartsTable(source);
    var starts, l := LineStarts(source), LineOf(LineStarts(source), p);
    InOrderOfStarts(starts, t - 1, t);
    ShownIsOnNoBlank(source, p);
    if t - 1 > l {
      InOrderOfStarts(starts, l + 1, t - 1);
      assert BlankLine(source, starts, t - 1);
      AboveUpToCode(source, p, t - 1);
    }
    hide BlankLine, LineOf, Shown, SymAt;
  }

  /** Blank lines below go down to the line of the code below. */
  lemma {:induction false} BelowDownToCode(source: Source, q: nat, t: nat)
    requires Shown(source, q) && LineStarts(source) != [] && LineStarts(source)[0] == 0
    requires t < |LineStarts(source)| && LineStarts(source)[t] <= q
    requires forall i | LineStarts(source)[t] <= i < q :: SymAt(source, i) != Ink
    ensures t <= LineOf(LineStarts(source), q)
    ensures BlankBelow(source, LineStarts(source), t) == LineOf(LineStarts(source), q) - t
    decreases |LineStarts(source)| - t
  {
    LineStartsTable(source);
    var starts, l := LineStarts(source), LineOf(LineStarts(source), q);
    if t < l {
      InOrderOfStarts(starts, t, t + 1);
      InOrderOfStarts(starts, t + 1, l);
      assert BlankLine(source, starts, t);
      BelowDownToCode(source, q, t + 1);
    } else {
      ShownIsOnNoBlank(source, q);
    }
  }

  /**
   * Edits `first..last` are one removal from line `top` up to line `bottom`, with code at `p` above and at `q` below.
   */
  ghost predicate StandsBetween(source: Source, edits: seq<Edit>, collapsible: seq<bool>, first: nat, last: nat,
                                top: nat, bottom: nat, p: nat, q: nat)
  {
    && IsRemoval(source, edits, collapsible, first, last, top, bottom)
    && Shown(source, p) && Shown(source, q)
    && (first > 0 ==> edits[first - 1].span.end <= p) && p < edits[first].span.start
    && edits[last].span.end <= q && (last + 1 < |edits| ==> q < edits[last + 1].span.start)
    && (forall i | p < i < edits[first].span.start && i < |source| :: SymAt(source, i) != Ink)
    && (forall i | edits[last].span.end <= i < q :: SymAt(source, i) != Ink)
  }

  /** Code in front of an edit is not reached by the one before. */
  lemma {:induction false} CodeIsNotReached(source: Source, edits: seq<Edit>, collapsible: seq<bool>, k: nat, p: nat)
    requires k < |edits| && Shown(source, p) && edits[k].span.end <= p
    ensures Reach(source, edits, collapsible, k) <= p
  {
    if p < Reach(source, edits, collapsible, k) { AddedShowsNothing(source, edits, collapsible, k, p); }
  }

  /** Such a removal is widened by the smaller number of blank lines beside it. */
  lemma {:induction false} ReachBetween(source: Source, edits: seq<Edit>, collapsible: seq<bool>, first: nat, last: nat,
                                        top: nat, bottom: nat, p: nat, q: nat)
    requires Ordered(edits, 0, |source|) && StandsBetween(source, edits, collapsible, first, last, top, bottom, p, q)
    ensures LineStarts(source) != [] && LineStarts(source)[0] == 0
    ensures var starts := LineStarts(source);
            var before, after := BlankAbove(source, starts, top), BlankBelow(source, starts, bottom);
            && LineOf(starts, p) + 1 + before == top && bottom + after == LineOf(starts, q)
            && bottom + Min(before, after) < |starts|
            && Reach(source, edits, collapsible, last) == starts[bottom + Min(before, after)] <= q
  {
    hide BlankLine, Collapse.First, Closes;
    StartsAscend(source);
    var starts := LineStarts(source);
    RemovalIsBehindCode(source, edits, top, first, p);
    AboveUpToCode(source, p, top);
    BelowDownToCode(source, q, bottom);
    var before, after := BlankAbove(source, starts, top), BlankBelow(source, starts, bottom);
    var to := bottom + Min(before, after);
    AllowanceOf(source, edits, collapsible, first, last, top, bottom);
    InOrderOfStarts(starts, to, LineOf(starts, q));
    InOrderOfStarts(starts, bottom, to);
    OrderedBounds(edits, 0, |source|);
    assert LinesOn(starts, bottom, Min(before, after)) == starts[to];
  }

  lemma {:induction false} RemovalIsBehindCode(source: Source, edits: seq<Edit>, top: nat, first: nat, p: nat)
    requires first < |edits| && top < |LineStarts(source)| && LineStarts(source)[top] == edits[first].span.start
    requires p < edits[first].span.start
    ensures LineStarts(source)[0] == 0 && LineOf(LineStarts(source), p) < top
  {
    StartsAscend(source);
    var starts := LineStarts(source);
    if top <= LineOf(starts, p) { InOrderOfStarts(starts, top, LineOf(starts, p)); }
  }

  lemma {:induction false} PlacesOf(source: Source, p: nat, q: nat, top: nat, to: nat)
    requires p <= |source| && q <= |source| && top < |LineStarts(source)| && to < |LineStarts(source)|
    requires LineStarts(source)[top] <= |source| && LineStarts(source)[to] <= |source|
    ensures LineStarts(source)[0] == 0
    ensures LineNumber(source, p) == LineOf(LineStarts(source), p)
            && LineNumber(source, q) == LineOf(LineStarts(source), q)
    ensures LineNumber(source, LineStarts(source)[top]) == top && LineNumber(source, LineStarts(source)[to]) == to
  {
    StartsAscend(source);
    LineNumberIsPlace(source, p);
    LineNumberIsPlace(source, q);
    LineNumberIsPlace(source, LineStarts(source)[top]);
    LineNumberIsPlace(source, LineStarts(source)[to]);
    LineOfStart(LineStarts(source), top);
    LineOfStart(LineStarts(source), to);
  }

  lemma {:induction false} MemberOfRemoval(source: Source, edits: seq<Edit>, collapsible: seq<bool>, first: nat,
                                           last: nat, m: nat)
    requires first <= m <= last < |edits| && Collapse.First(source, edits, collapsible, last) == Some(first)
    ensures Collapse.First(source, edits, collapsible, m) == Some(first)
    ensures m < last ==> Joins(edits, collapsible, m + 1)
    decreases last
  {
    if m < last { MemberOfRemoval(source, edits, collapsible, first, last - 1, m); }
  }

  /** Nothing is left from where a removal begins to where it ends once it is widened. */
  lemma {:induction false} RemovalIsGone(source: Source, edits: seq<Edit>, collapsible: seq<bool>, left: seq<Source>,
                                         first: nat, last: nat, i: nat)
    requires Ordered(edits, 0, |source|) && Leaves(source, Collapsed(source, edits, collapsible), left)
    requires first <= last < |edits| && Collapse.First(source, edits, collapsible, last) == Some(first)
    requires edits[first].span.start <= i < Reach(source, edits, collapsible, last)
    ensures i < |left| && left[i] == []
    decreases last
  {
    hide Closes, Collapse.First;
    var wide := Collapsed(source, edits, collapsible);
    CollapsedIsOrdered(source, edits, collapsible);
    OrderedBounds(wide, 0, |source|);
    if edits[last].span.start <= i {
      MemberOfRemoval(source, edits, collapsible, first, last, last);
      ReplacesNothing(source, edits, collapsible, last);
      assert wide[last] in wide;
      NothingOfRest(left, wide[last].span.start, wide[last].span.end, i);
    } else {
      RemovalGoesOn(source, edits, collapsible, first, last);
      RemovalIsGone(source, edits, collapsible, left, first, last - 1, i);
    }
  }

  /** An edit of a removal begins where the one before it ends, which is not widened. */
  lemma {:induction false} RemovalGoesOn(source: Source, edits: seq<Edit>, collapsible: seq<bool>, first: nat,
                                         last: nat)
    requires first <= last < |edits| && Collapse.First(source, edits, collapsible, last) == Some(first)
    ensures first < last ==>
              && Collapse.First(source, edits, collapsible, last - 1) == Some(first)
              && Reach(source, edits, collapsible, last - 1) == edits[last].span.start
  {
    if first < last {
      MemberOfRemoval(source, edits, collapsible, first, last, last - 1);
      InsideARemoval(source, edits, collapsible, last - 1);
    }
  }

  lemma {:induction false} NothingOfRest(left: seq<Source>, a: nat, z: nat, i: nat)
    requires a <= i < z <= |left| && RestIn(left, a, z) == []
    ensures left[i] == []
  {
    RestInTwo(left, a, i + 1, z);
    assert RestIn(left, a, i + 1) == RestIn(left, a, i) + left[i];
  }

  /** The bytes between two edits stay, those up to code behind the first if it is widened. */
  lemma {:induction false} RunRemains(source: Source, edits: seq<Edit>, collapsible: seq<bool>, left: seq<Source>,
                                      k: nat, a: nat, z: nat)
    requires Ordered(edits, 0, |source|) && Leaves(source, Collapsed(source, edits, collapsible), left)
    requires k <= |edits| && (k > 0 ==> Reach(source, edits, collapsible, k - 1) <= a)
    requires z <= if k < |edits| then edits[k].span.start else |source|
    ensures Remains(source, left, a, z)
  {
    hide Reach, Ordered;
    var wide := Collapsed(source, edits, collapsible);
    CollapsedIsOrdered(source, edits, collapsible);
    OrderedBounds(wide, 0, |source|);
    if k < |edits| { assert wide[k].span.start == edits[k].span.start <= |source|; }
    forall i | a <= i < z
      ensures left[i] == [source[i]]
    {
      SurvivesBetween(wide, k, |source|, i);
    }
  }

  /** The code around a removal stays, and what stands between it and the removal. */
  lemma {:induction false} SidesRemain(source: Source, edits: seq<Edit>, collapsible: seq<bool>, left: seq<Source>,
                                       first: nat, last: nat, p: nat, q: nat)
    requires Ordered(edits, 0, |source|) && Leaves(source, Collapsed(source, edits, collapsible), left)
    requires first <= last < |edits| && Shown(source, p) && Shown(source, q)
    requires (first > 0 ==> edits[first - 1].span.end <= p) && p < edits[first].span.start
    requires Reach(source, edits, collapsible, last) <= q && (last + 1 < |edits| ==> q < edits[last + 1].span.start)
    ensures Remains(source, left, p, edits[first].span.start)
    ensures Remains(source, left, Reach(source, edits, collapsible, last), q + 1)
    ensures Survives(Collapsed(source, edits, collapsible), p) && Survives(Collapsed(source, edits, collapsible), q)
  {
    hide Reach, Ordered, Leaves, Survives;
    if first > 0 { CodeIsNotReached(source, edits, collapsible, first - 1, p); }
    RunRemains(source, edits, collapsible, left, first, p, edits[first].span.start);
    RunRemains(source, edits, collapsible, left, last + 1, Reach(source, edits, collapsible, last), q + 1);
    CollapsedIsOrdered(source, edits, collapsible);
    SurvivesBetween(Collapsed(source, edits, collapsible), first, |source|, p);
    SurvivesBetween(Collapsed(source, edits, collapsible), last + 1, |source|, q);
  }

  /** A removal closes the gap between the code above it and the code below. */
  lemma {:induction false} RemovalCloses(source: Source, edits: seq<Edit>, collapsible: seq<bool>, left: seq<Source>,
                                         first: nat, last: nat, top: nat, bottom: nat, p: nat, q: nat)
    requires Ordered(edits, 0, |source|) && Leaves(source, Collapsed(source, edits, collapsible), left)
    requires StandsBetween(source, edits, collapsible, first, last, top, bottom, p, q)
    ensures ClosesGap(source, left, p, edits[first].span.start, Reach(source, edits, collapsible, last), q)
    ensures Survives(Collapsed(source, edits, collapsible), p) && Survives(Collapsed(source, edits, collapsible), q)
  {
    hide Collapse.First, Closes, BlankAbove, BlankBelow, LineOf, Ordered, Collapsed, Survives, LineStarts, Reach;
    var x, y := edits[first].span.start, Reach(source, edits, collapsible, last);
    ReachBetween(source, edits, collapsible, first, last, top, bottom, p, q);
    OrderedBounds(edits, 0, |source|);
    SidesRemain(source, edits, collapsible, left, first, last, p, q);
    forall i | x <= i < y
      ensures left[i] == []
    {
      RemovalIsGone(source, edits, collapsible, left, first, last, i);
    }
  }

  /**
   * A removal that stands alone between two bytes of code, with `before` blank lines above it and `after`
   * below, leaves in the text just the larger number of lines between the two, all of them blank; and one
   * less where what is left in front of it ends in a carriage return and what is left behind it begins with
   * a line feed.
   */
  lemma {:induction false} RemovalLeavesMax(source: Source, edits: seq<Edit>, collapsible: seq<bool>,
                                            left: seq<Source>, first: nat, last: nat, top: nat, bottom: nat, p: nat,
                                            q: nat)
    requires Ordered(edits, 0, |source|) && Legible(source, left)
    requires Leaves(source, Collapsed(source, edits, collapsible), left)
    requires StandsBetween(source, edits, collapsible, first, last, top, bottom, p, q)
    ensures LineStarts(source) != [] && LineStarts(source)[0] == 0
    ensures var starts, wide := LineStarts(source), Collapsed(source, edits, collapsible);
            var before, after := BlankAbove(source, starts, top), BlankBelow(source, starts, bottom);
            && Ordered(wide, 0, |source|)
            && var out, from, to := Apply(source, wide), Landed(wide, p), Landed(wide, q);
            && 0 <= from < to < |out| && out[from] == source[p] && out[to] == source[q]
            && (forall i | from < i < to :: SymAt(out, i) != Ink)
            && bottom + Min(before, after) < |starts|
            && var met := SeamPair(source, starts[top], starts[bottom + Min(before, after)]);
            && LineNumber(out, to) + met == LineNumber(out, from) + 1 + Max(before, after)
            && (BlankBetween(out, from, to) <==> Max(before, after) > met)
  {
    hide BlankLine, LineBoundary, BlankAbove, BlankBelow, LineOf, Reach, Closes, Collapse.First, Ordered, LineNumber,
         SeamPair, Survives, LineStarts, RestIn, Legible, Collapsed, BlankBetween, Landed, Leaves;
    var starts, wide := LineStarts(source), Collapsed(source, edits, collapsible);
    var x, y := edits[first].span.start, Reach(source, edits, collapsible, last);
    ReachBetween(source, edits, collapsible, first, last, top, bottom, p, q);
    RemovalCloses(source, edits, collapsible, left, first, last, top, bottom, p, q);
    CollapsedIsOrdered(source, edits, collapsible);
    AppliedIsRest(source, wide, left);
    GapIsRead(source, left, p, x, y, q);
    var to := bottom + Min(BlankAbove(source, starts, top), BlankBelow(source, starts, bottom));
    StartsAreLines(source, top);
    StartsAreLines(source, to);
    ClosedLoses(source, left, p, x, y, q);
    PlacesOf(source, p, q, top, to);
    TwoLinesApart(Apply(source, wide), Landed(wide, p), Landed(wide, q));
  }

  lemma {:induction false} GapIsRead(source: Source, left: seq<Source>, p: nat, x: nat, y: nat, q: nat)
    requires Legible(source, left) && ClosesGap(source, left, p, x, y, q)
    requires forall i | p < i < x || y <= i < q :: SymAt(source, i) != Ink
    ensures Place(left, p) < Place(left, q) < |RestIn(left, 0, |left|)|
    ensures RestIn(left, 0, |left|)[Place(left, p)] == source[p] && RestIn(left, 0, |left|)[Place(left, q)] == source[q]
    ensures forall u | Place(left, p) < u < Place(left, q) :: SymAt(RestIn(left, 0, |left|), u) != Ink
  {
    hide RestIn;
    SeenAsItWas(source, left, p);
    SeenAsItWas(source, left, q);
    PlacesTell(left, p, q);
    ClosedShowsNothing(source, left, p, x, y, q);
  }
}
