/**
 * Where faithful edits put what they leave: in front of every place no edit takes stands the text the source
 * has there, so far as it is seen, and a byte that stays is seen as it was.
 */
module Arrivals {
  import opened Bytes
  import opened Edits
  import opened Fusions
  import opened LineNumbers
  import opened Outlines

  /** Edits that are faithful, sorted, and take all of the spans. */
  ghost predicate Fair(source: Source, spans: seq<ByteSpan>, edits: seq<Edit>) {
    Ordered(edits, 0, |source|) && AllFaithful(source, spans, edits) && Taken(spans, edits)
  }

  /** `x` lies between edit `k - 1` and edit `k`, and cuts no separator. */
  ghost predicate Amid(source: Source, edits: seq<Edit>, k: nat, x: nat) {
    && k <= |edits| && x <= |source| && CleanCut(source, x)
    && (k > 0 ==> edits[k - 1].span.end <= x)
    && (k < |edits| ==> x <= edits[k].span.start)
  }

  /** What is written in front of a place between the edits. */
  ghost function Front(source: Source, spans: seq<ByteSpan>, edits: seq<Edit>, k: nat, x: nat): Source
    requires Fair(source, spans, edits) && Amid(source, edits, k, x)
  {
    FrontIsOrdered(source, edits, k, x);
    Written(source, edits[..k], x)
  }

  lemma {:induction false} FrontIsOrdered(source: Source, edits: seq<Edit>, k: nat, x: nat)
    requires Ordered(edits, 0, |source|) && Amid(source, edits, k, x)
    ensures Ordered(edits[..k], 0, |source|) && EndBy(edits[..k], x)
  {
    OrderedSplit(edits, k, 0, |source|, x);
  }

  lemma {:induction false} AmidEnds(source: Source, spans: seq<ByteSpan>, edits: seq<Edit>, k: nat)
    requires Fair(source, spans, edits) && k < |edits|
    ensures edits[k].span.start < edits[k].span.end <= |source|
    ensures Amid(source, edits, k, edits[k].span.start) && Amid(source, edits, k + 1, edits[k].span.end)
  {
    OrderedBounds(edits, 0, |source|);
    assert Faithful(source, spans, edits[k]);
  }

  /** Where edit `k - 1` ends. */
  function EndBefore(edits: seq<Edit>, k: nat): nat
    requires k <= |edits|
  {
    if k == 0 then 0 else edits[k - 1].span.end
  }

  /** Between two places with no edit in between the bytes are copied. */
  lemma {:induction false} FrontGoesOn(source: Source, spans: seq<ByteSpan>, edits: seq<Edit>, k: nat, x: nat, y: nat)
    requires Fair(source, spans, edits) && Amid(source, edits, k, x) && Amid(source, edits, k, y) && x <= y
    ensures Front(source, spans, edits, k, y) == Front(source, spans, edits, k, x) + source[x..y]
    ensures source[x..y] == Blanked(source, spans)[x..y]
  {
    FrontIsOrdered(source, edits, k, x);
    WrittenFurther(source, edits[..k], x, y);
    forall i | x <= i < y
      ensures source[i] == Blanked(source, spans)[i]
    {
      SurvivesBetween(edits, k, |source|, i);
      SurvivorIsBare(source, spans, edits, i);
    }
  }

  /** An edit writes its replacement. */
  lemma {:induction false} FrontOfEdit(source: Source, spans: seq<ByteSpan>, edits: seq<Edit>, k: nat)
    requires Fair(source, spans, edits) && k < |edits|
    requires Amid(source, edits, k, edits[k].span.start) && Amid(source, edits, k + 1, edits[k].span.end)
    ensures Front(source, spans, edits, k + 1, edits[k].span.end)
         == Front(source, spans, edits, k, edits[k].span.start) + edits[k].replacement
  {
    FrontIsOrdered(source, edits, k + 1, edits[k].span.end);
    WrittenLast(source, edits, k + 1, edits[k].span.end);
    assert edits[k].replacement + source[edits[k].span.end..edits[k].span.end] == edits[k].replacement;
  }

  /** Behind every edit the text written and the blanked source are in step. */
  lemma {:induction false} ReachedBehind(source: Source, spans: seq<ByteSpan>, edits: seq<Edit>, k: nat)
    requires Fair(source, spans, edits) && k <= |edits|
    ensures Amid(source, edits, k, EndBefore(edits, k))
    ensures Reached(source, spans, Front(source, spans, edits, k, EndBefore(edits, k)), EndBefore(edits, k))
    decreases k
  {
    hide Reached, Front, Faithful;
    if k == 0 {
      StartIsAmid(source, spans, edits);
    } else {
      ReachedBehind(source, spans, edits, k - 1);
      AmidEnds(source, spans, edits, k - 1);
      ReachedNext(source, spans, edits, k - 1);
    }
  }

  lemma {:induction false} StartIsAmid(source: Source, spans: seq<ByteSpan>, edits: seq<Edit>)
    requires Fair(source, spans, edits)
    ensures Amid(source, edits, 0, 0) && Reached(source, spans, Front(source, spans, edits, 0, 0), 0)
  {
    assert edits[..0] == [];
  }

  lemma {:induction false} ReachedNext(source: Source, spans: seq<ByteSpan>, edits: seq<Edit>, k: nat)
    requires Fair(source, spans, edits) && k < |edits|
    requires Amid(source, edits, k, EndBefore(edits, k))
    requires Reached(source, spans, Front(source, spans, edits, k, EndBefore(edits, k)), EndBefore(edits, k))
    requires Amid(source, edits, k, edits[k].span.start) && Amid(source, edits, k + 1, edits[k].span.end)
    ensures Reached(source, spans, Front(source, spans, edits, k + 1, edits[k].span.end), edits[k].span.end)
    ensures Cells(Front(source, spans, edits, k + 1, edits[k].span.end))
         == Cells(Front(source, spans, edits, k, edits[k].span.start)) + Cells(edits[k].replacement)
  {
    hide Reached, Front, Faithful;
    var c, e := EndBefore(edits, k), edits[k];
    assert e in edits && Faithful(source, spans, e);
    OrderedBounds(edits, 0, |source|);
    FrontGoesOn(source, spans, edits, k, c, e.span.start);
    ReachRun(source, spans, Front(source, spans, edits, k, c), c, e.span.start);
    ReachEdit(source, spans, Front(source, spans, edits, k, e.span.start), e);
    FrontOfEdit(source, spans, edits, k);
  }

  /** At every place between the edits the text written and the blanked source are in step. */
  lemma {:induction false} Arrives(source: Source, spans: seq<ByteSpan>, edits: seq<Edit>, k: nat, x: nat)
    requires Fair(source, spans, edits) && Amid(source, edits, k, x)
    ensures var b, w := Blanked(source, spans), Front(source, spans, edits, k, x);
            && InStep(StateAt(b, x), Walk(Cells(w), START), OpenGap(source, spans, x))
            && Outline(w) == Marks(Cells(b)[..x], START)
            && Amid(source, edits, k, EndBefore(edits, k))
            && Cells(w) == Cells(Front(source, spans, edits, k, EndBefore(edits, k))) + Cells(b)[EndBefore(edits, k)..x]
  {
    hide Reached, Front;
    var c := EndBefore(edits, k);
    ReachedBehind(source, spans, edits, k);
    FrontGoesOn(source, spans, edits, k, c, x);
    ReachRun(source, spans, Front(source, spans, edits, k, c), c, x);
  }

  /** A stretch with no edit in it is seen as it was. */
  lemma {:induction false} StretchArrives(source: Source, spans: seq<ByteSpan>, edits: seq<Edit>, k: nat, x: nat,
                                          y: nat)
    requires Fair(source, spans, edits) && Amid(source, edits, k, x) && Amid(source, edits, k, y) && x <= y
    ensures Cells(Front(source, spans, edits, k, y))
         == Cells(Front(source, spans, edits, k, x)) + Cells(Blanked(source, spans))[x..y]
  {
    hide Front;
    Arrives(source, spans, edits, k, x);
    Arrives(source, spans, edits, k, y);
    var cells, c := Cells(Blanked(source, spans)), EndBefore(edits, k);
    assert cells[c..y] == cells[c..x] + cells[x..y];
  }

  /** What is written in front of a place stays as it is, and is seen so, in the whole text. */
  lemma {:induction false} FrontIsPrefix(source: Source, spans: seq<ByteSpan>, edits: seq<Edit>, k: nat, x: nat)
    requires Fair(source, spans, edits) && Amid(source, edits, k, x)
    ensures Front(source, spans, edits, k, x) <= Apply(source, edits)
    ensures Cells(Front(source, spans, edits, k, x)) <= Cells(Apply(source, edits))
    decreases |edits| - k
  {
    hide Front, Cells;
    if k == |edits| {
      LastFront(source, spans, edits, x);
      FrontGoesOn(source, spans, edits, k, x, |source|);
      StretchArrives(source, spans, edits, k, x, |source|);
    } else {
      var s, e := edits[k].span.start, edits[k].span.end;
      AmidEnds(source, spans, edits, k);
      FrontGoesOn(source, spans, edits, k, x, s);
      StretchArrives(source, spans, edits, k, x, s);
      ReachedBehind(source, spans, edits, k);
      ReachedNext(source, spans, edits, k);
      FrontOfEdit(source, spans, edits, k);
      FrontIsPrefix(source, spans, edits, k + 1, e);
    }
  }

  lemma {:induction false} LastFront(source: Source, spans: seq<ByteSpan>, edits: seq<Edit>, x: nat)
    requires Fair(source, spans, edits) && Amid(source, edits, |edits|, x)
    ensures Amid(source, edits, |edits|, |source|)
    ensures Front(source, spans, edits, |edits|, |source|) == Apply(source, edits)
  {
    CleanAtEnds(source);
    FrontIsOrdered(source, edits, |edits|, |source|);
    assert edits[..|edits|] == edits && edits[|edits|..] == [];
    WrittenInTwo(source, edits, |edits|, |source|);
    assert ApplyFrom(source, [], |source|) == [];
    assert Written(source, edits, |source|) + [] == Written(source, edits, |source|);
  }

  /** A place between the edits lands behind what is written in front of it. */
  lemma {:induction false} FrontLands(source: Source, spans: seq<ByteSpan>, edits: seq<Edit>, k: nat, x: nat)
    requires Fair(source, spans, edits) && Amid(source, edits, k, x)
    ensures Landed(edits, x) == |Front(source, spans, edits, k, x)|
  {
    hide Landed, AllFaithful, Taken, CleanCut;
    FrontIsOrdered(source, edits, k, x);
    LandsBehindWritten(source, edits[..k], x);
    OrderedBounds(edits, 0, |source|);
    forall e | e in edits[k..]
      ensures x < e.span.end
    {
      var j :| 0 <= j < |edits[k..]| && edits[k..][j] == e;
      AmidEnds(source, spans, edits, k + j);
      assert edits[k].span.start <= edits[k + j].span.start;
    }
    TakeAndDrop(edits, k);
    LandsBeforeTail(edits[..k], edits[k..], x);
  }

  /** How many edits lie in front of a byte that stays. */
  lemma {:induction false} EditsInFront(source: Source, edits: seq<Edit>, n: nat, i: nat) returns (k: nat)
    requires Ordered(edits, 0, |source|) && n <= |edits| && i < |source| && Survives(edits, i)
    requires n < |edits| ==> i < edits[n].span.start
    ensures k <= n && (k > 0 ==> edits[k - 1].span.end <= i) && (k < |edits| ==> i < edits[k].span.start)
  {
    if n > 0 && i < edits[n - 1].span.start {
      k := EditsInFront(source, edits, n - 1, i);
    } else {
      k := n;
      if n > 0 { assert edits[n - 1] in edits; }
    }
  }

  /** Byte `i` is visible. */
  predicate Shown(source: Source, i: nat) {
    i < |source| && SymAt(source, i) == Ink
  }

  /** A visible byte that stays is seen where it lands. */
  lemma {:induction false} InkArrives(source: Source, spans: seq<ByteSpan>, edits: seq<Edit>, i: nat) returns (k: nat)
    requires Fair(source, spans, edits) && i < |source| && SymAt(source, i) == Ink && Survives(edits, i)
    ensures Amid(source, edits, k, i) && Amid(source, edits, k, i + 1)
    ensures Cells(Blanked(source, spans))[i].sym == Ink
    ensures var at := Landed(edits, i);
            && at == |Front(source, spans, edits, k, i)| && 0 <= at < |Apply(source, edits)|
            && SymAt(Apply(source, edits), at) == Ink && Apply(source, edits)[at] == source[i]
            && Landed(edits, i + 1) == at + 1 == |Front(source, spans, edits, k, i + 1)|
  {
    hide Front;
    k := EditsInFront(source, edits, |edits|, i);
    FrontLands(source, spans, edits, k, i);
    FrontLands(source, spans, edits, k, i + 1);
    StretchArrives(source, spans, edits, k, i, i + 1);
    FrontGoesOn(source, spans, edits, k, i, i + 1);
    FrontIsPrefix(source, spans, edits, k, i + 1);
    SurvivorIsBare(source, spans, edits, i);
    BlankedSymAt(source, spans, i);
    var out, cells := Apply(source, edits), Cells(Blanked(source, spans));
    assert cells[i..i + 1] == [cells[i]];
    assert Cells(out)[Landed(edits, i)] == cells[i];
  }

  /** What is written in front of a place is the beginning of what is written in front of a later one. */
  lemma {:induction false} FrontGrows(source: Source, spans: seq<ByteSpan>, edits: seq<Edit>, j: nat, x: nat, k: nat,
                                      y: nat)
    requires Fair(source, spans, edits) && Amid(source, edits, j, x) && Amid(source, edits, k, y) && j <= k && x <= y
    ensures Front(source, spans, edits, j, x) <= Front(source, spans, edits, k, y)
    decreases k - j
  {
    hide Front, Faithful, CleanCut;
    if j == k {
      FrontGoesOn(source, spans, edits, k, x, y);
    } else {
      var s, e := edits[j].span.start, edits[j].span.end;
      AmidEnds(source, spans, edits, j);
      OrderedBounds(edits, 0, |source|);
      FrontGoesOn(source, spans, edits, j, x, s);
      FrontOfEdit(source, spans, edits, j);
      FrontGrows(source, spans, edits, j + 1, e, k, y);
    }
  }

  /** Of two places the later has no fewer edits in front of it. */
  lemma {:induction false} AmidRises(source: Source, spans: seq<ByteSpan>, edits: seq<Edit>, j: nat, x: nat, k: nat,
                                     y: nat)
    requires Fair(source, spans, edits) && Amid(source, edits, j, x) && Amid(source, edits, k, y) && x < y
    ensures j <= k
  {
    OrderedBounds(edits, 0, |source|);
    if k < j { AmidEnds(source, spans, edits, k); }
  }

  /** A visible byte that stays lands in front of every later place. */
  lemma {:induction false} InkLandsInFront(source: Source, spans: seq<ByteSpan>, edits: seq<Edit>, p: nat, k: nat,
                                           x: nat)
    requires Fair(source, spans, edits) && Shown(source, p) && Survives(edits, p)
    requires Amid(source, edits, k, x) && p < x
    ensures 0 <= Landed(edits, p) < |Front(source, spans, edits, k, x)|
    ensures Landed(edits, p) < |Apply(source, edits)| && SymAt(Apply(source, edits), Landed(edits, p)) == Ink
  {
    var j := InkArrives(source, spans, edits, p);
    AmidRises(source, spans, edits, j, p, k, x);
    FrontGrows(source, spans, edits, j, p + 1, k, x);
  }

  /** ... and behind every earlier one. */
  lemma {:induction false} InkLandsBehind(source: Source, spans: seq<ByteSpan>, edits: seq<Edit>, q: nat, k: nat,
                                          y: nat)
    requires Fair(source, spans, edits) && Shown(source, q) && Survives(edits, q)
    requires Amid(source, edits, k, y) && y <= q
    ensures |Front(source, spans, edits, k, y)| <= Landed(edits, q)
    ensures Landed(edits, q) < |Apply(source, edits)| && SymAt(Apply(source, edits), Landed(edits, q)) == Ink
  {
    var j := InkArrives(source, spans, edits, q);
    AmidRises(source, spans, edits, k, y, j, q + 1);
    FrontGrows(source, spans, edits, k, y, j, q);
  }
}
