/**
 * Edits that touch are one edit. What a run of touching removals does to the outline is seen on the run
 * as a whole: it keeps the outline just when it leaves something, or something else is left beside it.
 */
module Seams {
  import opened Bytes
  import opened Edits
  import opened Layouts
  import opened LineNumbers
  import opened Outlines
  import opened Scanning

  // ---- touching edits as one ----

  function Fused(e: Edit, f: Edit): Edit {
    Edit(ByteSpan(e.span.start, f.span.end), e.replacement + f.replacement)
  }

  /** The edits, those that touch put together. */
  function Merge(edits: seq<Edit>): (m: seq<Edit>)
    ensures m == [] <==> edits == []
    ensures edits != [] ==> m[0].span.start == edits[0].span.start
  {
    if |edits| < 2 then edits
    else
      var rest := Merge(edits[1..]);
      if edits[0].span.end == rest[0].span.start then [Fused(edits[0], rest[0])] + rest[1..] else [edits[0]] + rest
  }

  /** Putting the first two of a batch together, when they touch, changes nothing of what it makes. */
  lemma {:induction false} FusedApplies(source: Source, e: Edit, rest: seq<Edit>, cursor: nat)
    requires rest != [] && e.span.end == rest[0].span.start
    requires Ordered([e] + rest, cursor, |source|)
    ensures Ordered([Fused(e, rest[0])] + rest[1..], cursor, |source|)
    ensures ApplyFrom(source, [Fused(e, rest[0])] + rest[1..], cursor) == ApplyFrom(source, [e] + rest, cursor)
  {
    var two, one := [e] + rest, [Fused(e, rest[0])] + rest[1..];
    assert two[1..] == rest && one[1..] == rest[1..];
    ApplyUnfold(source, two, cursor);
    ApplyUnfold(source, rest, e.span.end);
    ApplyUnfold(source, one, cursor);
    var run, r, q := source[cursor..e.span.start], e.replacement, rest[0].replacement;
    var tail := ApplyFrom(source, rest[1..], rest[0].span.end);
    assert source[e.span.end..e.span.end] + (q + tail) == q + tail;
    assert run + ((r + q) + tail) == run + (r + (q + tail));
  }

  lemma {:induction false} MergeApplies(source: Source, edits: seq<Edit>, cursor: nat)
    requires Ordered(edits, cursor, |source|)
    ensures Ordered(Merge(edits), cursor, |source|)
    ensures ApplyFrom(source, Merge(edits), cursor) == ApplyFrom(source, edits, cursor)
    decreases |edits|
  {
    if |edits| >= 2 {
      var e, rest := edits[0], Merge(edits[1..]);
      MergeApplies(source, edits[1..], e.span.end);
      assert ([e] + rest)[1..] == rest;
      ApplyUnfold(source, [e] + rest, cursor);
      ApplyUnfold(source, edits, cursor);
      if e.span.end == rest[0].span.start { FusedApplies(source, e, rest, cursor); }
    }
  }

  ghost predicate Upright(edits: seq<Edit>) {
    forall e <- edits :: e.span.start < e.span.end
  }

  /** Between two merged edits something of the source is left. */
  ghost predicate SetApart(edits: seq<Edit>) {
    forall i, j | 0 <= i < j < |edits| :: edits[i].span.end < edits[j].span.start
  }

  lemma {:induction false} ApartInFront(e: Edit, rest: seq<Edit>, n: nat)
    requires rest != [] && SetApart(rest) && Upright(rest) && Ordered(rest, e.span.end, n)
    requires e.span.start < e.span.end < rest[0].span.start
    ensures SetApart([e] + rest) && Upright([e] + rest)
  {
    var all := [e] + rest;
    OrderedBounds(rest, e.span.end, n);
    forall i, j | 0 <= i < j < |all|
      ensures all[i].span.end < all[j].span.start
    {
      assert all[j] == rest[j - 1] && (i > 0 ==> all[i] == rest[i - 1]);
    }
  }

  lemma {:induction false} ApartWithHead(f: Edit, rest: seq<Edit>)
    requires rest != [] && SetApart(rest) && Upright(rest)
    requires f.span.start < f.span.end == rest[0].span.end
    ensures SetApart([f] + rest[1..]) && Upright([f] + rest[1..])
  {
    var all := [f] + rest[1..];
    forall i, j | 0 <= i < j < |all|
      ensures all[i].span.end < all[j].span.start
    {
      assert all[j] == rest[j] && (i > 0 ==> all[i] == rest[i]);
    }
  }

  lemma {:induction false} MergeIsApart(edits: seq<Edit>, cursor: nat, n: nat)
    requires Ordered(edits, cursor, n) && Upright(edits)
    ensures SetApart(Merge(edits)) && Upright(Merge(edits))
    decreases |edits|
  {
    hide SetApart, Upright;
    if |edits| >= 2 {
      var e, rest := edits[0], Merge(edits[1..]);
      UprightRest(edits);
      MergeIsApart(edits[1..], e.span.end, n);
      MergeOrdered(edits[1..], e.span.end, n);
      UprightRest(rest);
      if e.span.end == rest[0].span.start {
        ApartWithHead(Fused(e, rest[0]), rest);
      } else {
        ApartInFront(e, rest, n);
      }
    } else {
      FewAreApart(edits);
    }
  }

  lemma {:induction false} UprightRest(edits: seq<Edit>)
    requires Upright(edits) && edits != []
    ensures edits[0].span.start < edits[0].span.end && Upright(edits[1..])
  {
    assert edits[0] in edits && forall f <- edits[1..] :: f in edits;
  }

  lemma {:induction false} FewAreApart(edits: seq<Edit>)
    requires |edits| < 2
    ensures SetApart(edits)
  {
  }

  /** `m` is the edits `i..j`, which touch one another, put together. */
  ghost predicate IsRun(edits: seq<Edit>, i: int, j: int, m: Edit) {
    && 0 <= i <= j < |edits|
    && m.span == ByteSpan(edits[i].span.start, edits[j].span.end)
    && (forall t | i <= t < j :: edits[t].span.end == edits[t + 1].span.start)
    && (m.replacement == [] <==> forall t | i <= t <= j :: edits[t].replacement == [])
  }

  lemma {:induction false} RunBehind(edits: seq<Edit>, i: int, j: int, m: Edit)
    requires edits != [] && IsRun(edits[1..], i, j, m)
    ensures IsRun(edits, i + 1, j + 1, m)
  {
    var rest := edits[1..];
    assert forall t | 0 <= t < |rest| :: rest[t] == edits[t + 1];
    if m.replacement == [] {
      forall t | i + 1 <= t <= j + 1
        ensures edits[t].replacement == []
      {
        assert rest[t - 1] == edits[t];
      }
    } else {
      var t :| i <= t <= j && rest[t].replacement != [];
      assert edits[t + 1].replacement != [];
    }
    forall t | i + 1 <= t < j + 1
      ensures edits[t].span.end == edits[t + 1].span.start
    {
      assert rest[t - 1] == edits[t] && rest[t] == edits[t + 1];
    }
  }

  lemma {:induction false} RunJoined(edits: seq<Edit>, j: int, m: Edit)
    requires IsRun(edits, 1, j, m) && edits[0].span.end == m.span.start
    ensures IsRun(edits, 0, j, Fused(edits[0], m))
  {
    var f := Fused(edits[0], m);
    if f.replacement == [] {
      assert edits[0].replacement == [] && m.replacement == [];
    } else if edits[0].replacement == [] {
      assert f.replacement == m.replacement;
    }
  }

  /** Every merged edit is a run of the edits, and the first begins with the first of them. */
  lemma {:induction false} MergedIsRun(edits: seq<Edit>, k: nat) returns (i: int, j: int)
    requires k < |Merge(edits)|
    ensures IsRun(edits, i, j, Merge(edits)[k]) && (k == 0 ==> i == 0)
    decreases |edits|
  {
    if |edits| == 1 {
      i, j := 0, 0;
    } else {
      var e, rest := edits[0], Merge(edits[1..]);
      if e.span.end == rest[0].span.start {
        i, j := MergedIsRun(edits[1..], k);
        RunBehind(edits, i, j, rest[k]);
        if k == 0 {
          RunJoined(edits, j + 1, rest[0]);
          i, j := 0, j + 1;
        } else {
          i, j := i + 1, j + 1;
        }
      } else if k == 0 {
        i, j := 0, 0;
      } else {
        i, j := MergedIsRun(edits[1..], k - 1);
        RunBehind(edits, i, j, rest[k - 1]);
        i, j := i + 1, j + 1;
      }
    }
  }

  /** Every edit lies in a merged one. */
  lemma {:induction false} MergeTakes(edits: seq<Edit>, s: ByteSpan, cursor: nat, n: nat)
    requires Ordered(edits, cursor, n) && Takes(edits, s)
    ensures Takes(Merge(edits), s)
    decreases |edits|
  {
    var e :| e in edits && e.span.start <= s.start && s.end <= e.span.end;
    if |edits| >= 2 {
      var first, rest := edits[0], Merge(edits[1..]);
      var joined := first.span.end == rest[0].span.start;
      var head := if joined then Fused(first, rest[0]) else first;
      assert Merge(edits)[0] == head;
      HeadReaches(edits, cursor, n);
      if e == first {
        assert head in Merge(edits);
      } else {
        assert e in edits[1..];
        MergeTakes(edits[1..], s, first.span.end, n);
        var m :| m in rest && m.span.start <= s.start && s.end <= m.span.end;
        var k :| 0 <= k < |rest| && rest[k] == m;
        if joined && k == 0 {
          assert head in Merge(edits);
        } else {
          assert Merge(edits)[if joined then k else k + 1] == m;
        }
      }
    }
  }

  lemma {:induction false} HeadReaches(edits: seq<Edit>, cursor: nat, n: nat)
    requires |edits| >= 2 && Ordered(edits, cursor, n)
    ensures var first, rest := edits[0], Merge(edits[1..]);
            first.span.start <= first.span.end <= rest[0].span.start <= rest[0].span.end
  {
    assert edits[1..][0] == edits[1];
    MergeOrdered(edits[1..], edits[0].span.end, n);
  }

  lemma {:induction false} MergeOrdered(edits: seq<Edit>, cursor: nat, n: nat)
    requires Ordered(edits, cursor, n)
    ensures Ordered(Merge(edits), cursor, n)
    decreases |edits|
  {
    if |edits| >= 2 {
      var e, rest := edits[0], Merge(edits[1..]);
      MergeOrdered(edits[1..], e.span.end, n);
      assert ([e] + rest)[1..] == rest && ([Fused(e, rest[0])] + rest[1..])[1..] == rest[1..];
    }
  }

  lemma {:induction false} FusedLands(e: Edit, rest: seq<Edit>, i: nat)
    requires rest != [] && e.span.start < e.span.end == rest[0].span.start < rest[0].span.end
    requires Survives([e] + rest, i)
    ensures Survives([Fused(e, rest[0])] + rest[1..], i)
    ensures Landed([Fused(e, rest[0])] + rest[1..], i) == Landed([e] + rest, i)
  {
    var two, one := [e] + rest, [Fused(e, rest[0])] + rest[1..];
    assert two[1..] == rest && one[1..] == rest[1..];
    assert two[0] in two && two[1] in two && forall f <- rest[1..] :: f in two;
  }

  lemma {:induction false} LandsBehind(e: Edit, edits: seq<Edit>, rest: seq<Edit>, i: nat)
    requires Survives([e] + edits, i) && Survives(rest, i) && Landed(rest, i) == Landed(edits, i)
    ensures Survives([e] + rest, i) && Landed([e] + rest, i) == Landed([e] + edits, i)
  {
    assert ([e] + rest)[1..] == rest && ([e] + edits)[1..] == edits;
    assert ([e] + edits)[0] in [e] + edits;
  }

  /** A byte no edit takes lies in no merged one, and lands in the same place. */
  lemma {:induction false} MergeLands(edits: seq<Edit>, i: nat, cursor: nat, n: nat)
    requires Ordered(edits, cursor, n) && Upright(edits) && Survives(edits, i)
    ensures Survives(Merge(edits), i) && Landed(Merge(edits), i) == Landed(edits, i)
    decreases |edits|
  {
    hide Survives, Landed, Upright;
    if |edits| >= 2 {
      var e, rest := edits[0], Merge(edits[1..]);
      UprightRest(edits);
      SurvivesRest(edits, i);
      MergeLands(edits[1..], i, e.span.end, n);
      MergeIsUpright(edits[1..], e.span.end, n);
      UprightRest(rest);
      assert edits == [e] + edits[1..];
      LandsBehind(e, edits[1..], rest, i);
      if e.span.end == rest[0].span.start { FusedLands(e, rest, i); }
    }
  }

  lemma {:induction false} SurvivesRest(edits: seq<Edit>, i: nat)
    requires edits != [] && Survives(edits, i)
    ensures Survives(edits[1..], i)
  {
    assert forall f <- edits[1..] :: f in edits;
  }

  lemma {:induction false} MergeIsUpright(edits: seq<Edit>, cursor: nat, n: nat)
    requires Ordered(edits, cursor, n) && Upright(edits)
    ensures Upright(Merge(edits))
  {
    MergeIsApart(edits, cursor, n);
  }

  /** A stretch no edit reaches into no merged one does. */
  lemma {:induction false} MergeKeepsOff(edits: seq<Edit>, x: nat, y: nat, cursor: nat, n: nat)
    requires Ordered(edits, cursor, n) && x < y
    requires forall e <- edits :: e.span.end <= x || y <= e.span.start
    ensures forall e <- Merge(edits) :: e.span.end <= x || y <= e.span.start
    decreases |edits|
  {
    if |edits| >= 2 {
      var e, rest := edits[0], Merge(edits[1..]);
      assert e in edits && forall f <- edits[1..] :: f in edits;
      MergeKeepsOff(edits[1..], x, y, e.span.end, n);
      HeadReaches(edits, cursor, n);
      assert rest[0] in rest && forall f <- rest[1..] :: f in rest;
    }
  }

  /** Merged edits cut no terminator and leave no lone carriage return, if the edits do not. */
  lemma {:induction false} MergeKeepsPairs(source: Source, edits: seq<Edit>)
    requires forall e <- edits :: KeepsPairs(source, e)
    ensures forall e <- Merge(edits) :: KeepsPairs(source, e)
    decreases |edits|
  {
    if |edits| >= 2 {
      var e, rest := edits[0], Merge(edits[1..]);
      assert e in edits && forall f <- edits[1..] :: f in edits;
      MergeKeepsPairs(source, edits[1..]);
      assert rest[0] in rest && forall f <- rest[1..] :: f in rest;
      if e.span.end == rest[0].span.start { FusedKeepsPairs(source, e, rest[0]); }
    }
  }

  lemma {:induction false} FusedKeepsPairs(source: Source, e: Edit, f: Edit)
    requires KeepsPairs(source, e) && KeepsPairs(source, f) && e.span.end == f.span.start
    ensures KeepsPairs(source, Fused(e, f))
  {
    NoLoneCRJoin(e.replacement, f.replacement);
  }

  // ---- two discreet edits are one ----

  lemma {:induction false} BreakInEither(x: seq<Cell>, y: seq<Cell>)
    ensures HasBreak(x + y) <==> HasBreak(x) || HasBreak(y)
    ensures NoInk(x + y) <==> NoInk(x) && NoInk(y)
  {
    var all := x + y;
    assert forall i | 0 <= i < |x| :: all[i] == x[i];
    assert forall i | 0 <= i < |y| :: all[|x| + i] == y[i];
  }

  /** A walk that is fresh behind a stretch without a line break was fresh in front of it. */
  lemma {:induction false} FreshBefore(x: seq<Cell>, w: seq<Cell>)
    requires NoInk(w) && !HasBreak(w) && Fresh(Walk(x + w, START))
    ensures Fresh(Walk(x, START))
  {
    WalkJoin(x, w, START);
    WalkNoInk(w, Walk(x, START));
  }

  lemma {:induction false} FusedIsDiscreet(source: Source, spans: seq<ByteSpan>, e: Edit, f: Edit)
    requires Discreet(source, spans, e) && Discreet(source, spans, f) && e.span.end == f.span.start
    ensures Discreet(source, spans, Fused(e, f))
  {
    hide Walk, CleanCut, Fresh, NoInk, HasBreak, Blanked;
    var b, a, m, z := Blanked(source, spans), e.span.start, e.span.end, f.span.end;
    var cells := Cells(b);
    assert cells[a..z] == cells[a..m] + cells[m..z];
    BreakInEither(cells[a..m], cells[m..z]);
    CutBeforeNoInk(e.replacement, f.replacement);
    CellsJoin(e.replacement, f.replacement);
    BreakInEither(Cells(e.replacement), Cells(f.replacement));
    assert cells[..m] == cells[..a] + cells[a..m];
    if HasBreak(cells[m..z]) && !HasBreak(Cells(f.replacement)) && !HasBreak(cells[a..m]) {
      FreshBefore(cells[..a], cells[a..m]);
    }
  }

  ghost predicate AllDiscreet(source: Source, spans: seq<ByteSpan>, edits: seq<Edit>) {
    forall e <- edits :: Discreet(source, spans, e)
  }

  lemma {:induction false} MergeIsDiscreet(source: Source, spans: seq<ByteSpan>, edits: seq<Edit>)
    requires AllDiscreet(source, spans, edits)
    ensures AllDiscreet(source, spans, Merge(edits))
    decreases |edits|
  {
    hide Discreet;
    if |edits| >= 2 {
      var e, rest := edits[0], Merge(edits[1..]);
      assert e in edits && forall f <- edits[1..] :: f in edits;
      MergeIsDiscreet(source, spans, edits[1..]);
      assert rest[0] in rest && forall f <- rest[1..] :: f in rest;
      if e.span.end == rest[0].span.start { FusedIsDiscreet(source, spans, e, rest[0]); }
    }
  }

  lemma {:induction false} DiscreetShowsNothing(source: Source, spans: seq<ByteSpan>, e: Edit, i: nat)
    requires Discreet(source, spans, e) && e.span.start <= i < e.span.end
    ensures SymAt(source, i) != Ink || Covered(spans, i)
  {
    BlankedSymAt(source, spans, i);
    assert Cells(Blanked(source, spans))[e.span.start..e.span.end][i - e.span.start].sym
        == SymAt(Blanked(source, spans), i);
  }

  lemma {:induction false} DiscreetIsUpright(source: Source, spans: seq<ByteSpan>, edits: seq<Edit>)
    requires AllDiscreet(source, spans, edits)
    ensures Upright(edits)
  {
  }

  // ---- runs of removed comments ----

  predicate Unbroken(source: Source, a: nat, z: nat)
    requires z <= |source|
  {
    forall k | a <= k < z :: SymAt(source, k) != Break
  }

  /** From `x` to `t` there are only blanks, and at `t` the line ends, or the source. */
  predicate BlanksTo(source: Source, x: nat, t: nat) {
    && x <= t <= |source| && (forall k | x <= k < t :: SymAt(source, k) == Blank)
    && (t < |source| ==> SymAt(source, t) == Break)
  }

  /** From `x` on the line runs out. */
  ghost predicate RunsOut(source: Source, x: nat) {
    exists t: nat :: BlanksTo(source, x, t)
  }

  /** The comments of one line that do not by themselves keep two bytes apart that are not white. */
  ghost function Spaceless(source: Source, comments: seq<Comment>): set<nat> {
    set i: nat
      | i < |comments| && comments[i].span.end <= |source|
        && Unbroken(source, comments[i].span.start, comments[i].span.end)
        && !HasNonWhitespaceNeighbors(source, comments[i].span)
  }

  /** The edit takes just comment `i`, which is one of the idle. */
  ghost predicate TakesJust(comments: seq<Comment>, idle: set<nat>, i: nat, e: Edit) {
    i < |comments| && Removes(comments[i]) && comments[i].span == e.span && i in idle
  }

  /**
   * An edit that leaves nothing of what it takes takes a line break, or the end of a line, or just a comment that
   * is idle: one that is to leave nothing.
   */
  ghost predicate Tight(source: Source, comments: seq<Comment>, idle: set<nat>, e: Edit) {
    && e.span.start <= e.span.end <= |source|
    && (|| !Unbroken(source, e.span.start, e.span.end) || e.replacement != [] || RunsOut(source, e.span.end)
        || exists i: nat :: TakesJust(comments, idle, i, e))
  }

  ghost predicate AllTight(source: Source, comments: seq<Comment>, idle: set<nat>, edits: seq<Edit>) {
    forall e <- edits :: Tight(source, comments, idle, e)
  }

  /**
   * The comments `i..j` are removed and idle and touch one another, code stands in front of them and behind, and
   * none of them spans a line break.
   */
  ghost predicate Fuses(source: Source, comments: seq<Comment>, idle: set<nat>, i: nat, j: nat) {
    && i <= j < |comments|
    && (forall m | i <= m <= j ::
          && Removes(comments[m]) && comments[m].span.start <= comments[m].span.end <= |source|
          && Unbroken(source, comments[m].span.start, comments[m].span.end) && m in idle)
    && (forall m | i <= m < j :: comments[m].span.end == comments[m + 1].span.start)
    && IsCode(source, comments, comments[i].span.start - 1) && IsCode(source, comments, comments[j].span.end)
  }

  ghost predicate NoneFuses(source: Source, comments: seq<Comment>, idle: set<nat>) {
    forall i: nat, j: nat :: !Fuses(source, comments, idle, i, j)
  }

  /** No run of comments fuses what it stands between, where comments leave what they leave under `lines`. */
  ghost predicate NeverFuses(source: Source, comments: seq<Comment>) {
    NoneFuses(source, comments, Spaceless(source, comments))
  }

  lemma {:induction false} BreaksOfBlanked(source: Source, spans: seq<ByteSpan>, a: nat, z: nat)
    requires a <= z <= |source|
    ensures HasBreak(Cells(Blanked(source, spans))[a..z]) <==> !Unbroken(source, a, z)
  {
    var w := Cells(Blanked(source, spans))[a..z];
    forall k | 0 <= k < |w|
      ensures w[k].sym == Break <==> SymAt(source, a + k) == Break
    {
      BlankedSymAt(source, spans, a + k);
    }
    if !Unbroken(source, a, z) {
      var k :| a <= k < z && SymAt(source, k) == Break;
      assert w[k - a].sym == Break;
    }
  }

  /** What edits that are set apart take lies in one of them, or off it. */
  lemma {:induction false} SpanKeepsOff(edits: seq<Edit>, k: nat, s: ByteSpan)
    requires SetApart(edits) && k < |edits| && Takes(edits, s)
    ensures || s.end < edits[k].span.start || edits[k].span.end < s.start
            || (edits[k].span.start <= s.start && s.end <= edits[k].span.end)
  {
    var e :| e in edits && e.span.start <= s.start && s.end <= e.span.end;
    var j :| 0 <= j < |edits| && edits[j] == e;
  }

  /** What stands beside an edit that touches no other is not covered. */
  lemma {:induction false} BesideIsBare(spans: seq<ByteSpan>, edits: seq<Edit>, k: nat, x: int)
    requires SetApart(edits) && Upright(edits) && Taken(spans, edits) && k < |edits|
    requires x == edits[k].span.end || x == edits[k].span.start - 1
    ensures !Covered(spans, x)
  {
    assert edits[k].span.start < edits[k].span.end;
    if Covered(spans, x) {
      var s :| 0 <= s < |spans| && spans[s].start <= x < spans[s].end;
      SpanKeepsOff(edits, k, spans[s]);
    }
  }

  /** Where the line runs out before `z` without a line break in between, nothing visible stands at `z`. */
  lemma {:induction false} RunsOutInGap(source: Source, x: nat, z: nat)
    requires x <= z < |source| && RunsOut(source, x) && Unbroken(source, x, z)
    ensures SymAt(source, z) != Ink
  {
  }

  lemma {:induction false} MembersLie(edits: seq<Edit>, i: int, j: int, m: Edit, t: int, cursor: nat, n: nat)
    requires Ordered(edits, cursor, n) && IsRun(edits, i, j, m) && i <= t <= j
    ensures m.span.start <= edits[t].span.start <= edits[t].span.end <= m.span.end
  {
    OrderedBounds(edits, cursor, n);
  }

  /** In a run that leaves nothing between visible bytes every edit takes just a comment. */
  lemma {:induction false} MemberIsComment(source: Source, comments: seq<Comment>, idle: set<nat>, edits: seq<Edit>,
                                           i: int, j: int,
                                           m: Edit, t: int)
    returns (c: nat)
    requires Ordered(edits, 0, |source|) && AllTight(source, comments, idle, edits) && IsRun(edits, i, j, m)
             && i <= t <= j
    requires m.replacement == [] && m.span.end < |source| && SymAt(source, m.span.end) == Ink
    requires Unbroken(source, m.span.start, m.span.end)
    ensures TakesJust(comments, idle, c, edits[t])
  {
    var e := edits[t];
    assert e in edits;
    MembersLie(edits, i, j, m, t, 0, |source|);
    if RunsOut(source, e.span.end) { RunsOutInGap(source, e.span.end, m.span.end); }
    c :| TakesJust(comments, idle, c, e);
  }

  lemma {:induction false} ApartAcross(comments: seq<Comment>, n: nat, p: nat, m: nat, q: nat)
    requires InOrder(comments, n) && p < m < q < |comments|
    ensures comments[p].span.end < comments[q].span.start
  {
    assert comments[m].span.start < comments[m].span.end;
  }

  /** Of two removed comments that touch the second is the next. */
  lemma {:induction false} NextComment(comments: seq<Comment>, n: nat, p: nat, q: nat)
    requires InOrder(comments, n) && p < |comments| && q < |comments| && comments[p].span.end == comments[q].span.start
    ensures q == p + 1
  {
    assert comments[p].span.start < comments[p].span.end && comments[q].span.start < comments[q].span.end;
    if p + 1 < q { ApartAcross(comments, n, p, p + 1, q); }
  }

  lemma {:induction false} RunIsComments(source: Source, comments: seq<Comment>, idle: set<nat>, edits: seq<Edit>,
                                         i: int, j: int,
                                         m: Edit, last: int)
    returns (c: nat)
    requires InOrder(comments, |source|)
    requires Ordered(edits, 0, |source|) && AllTight(source, comments, idle, edits) && IsRun(edits, i, j, m)
             && i <= last <= j
    requires m.replacement == [] && m.span.end < |source| && SymAt(source, m.span.end) == Ink
    requires Unbroken(source, m.span.start, m.span.end)
    ensures forall t: int | i <= t <= last :: TakesJust(comments, idle, c + (t - i), edits[t])
    decreases last - i
  {
    if last == i {
      c := MemberIsComment(source, comments, idle, edits, i, j, m, i);
    } else {
      c := RunIsComments(source, comments, idle, edits, i, j, m, last - 1);
      var d := MemberIsComment(source, comments, idle, edits, i, j, m, last);
      assert TakesJust(comments, idle, c + (last - 1 - i), edits[last - 1]);
      NextComment(comments, |source|, c + (last - 1 - i), d);
    }
  }

  /** A run of comments that leaves nothing between two visible bytes fuses them. */
  lemma {:induction false} RunFuses(source: Source, comments: seq<Comment>, idle: set<nat>, edits: seq<Edit>, i: int,
                                    j: int, m: Edit)
    requires InOrder(comments, |source|)
    requires Ordered(edits, 0, |source|) && AllTight(source, comments, idle, edits) && IsRun(edits, i, j, m)
    requires m.replacement == [] && IsCode(source, comments, m.span.end)
    requires Unbroken(source, m.span.start, m.span.end)
    requires IsCode(source, comments, m.span.start - 1)
    ensures !NoneFuses(source, comments, idle)
  {
    var c := RunIsComments(source, comments, idle, edits, i, j, m, j);
    assert TakesJust(comments, idle, c + (j - i), edits[j]) && TakesJust(comments, idle, c, edits[i]);
    forall q | c <= q <= c + (j - i)
      ensures q < |comments| && Removes(comments[q]) && comments[q].span == edits[i + (q - c)].span
      ensures q in idle
      ensures Unbroken(source, comments[q].span.start, comments[q].span.end)
    {
      assert TakesJust(comments, idle, c + ((i + (q - c)) - i), edits[i + (q - c)]);
      MembersLie(edits, i, j, m, i + (q - c), 0, |source|);
    }
    forall q | c <= q < c + (j - i)
      ensures comments[q].span.end == comments[q + 1].span.start
    {
      assert edits[i + (q - c)].span.end == edits[i + (q - c) + 1].span.start;
    }
    assert Fuses(source, comments, idle, c, c + (j - i));
  }

  /**
   * A merged edit that leaves nothing between visible bytes has code on at most one side, and is padded on the other.
   */
  lemma {:induction false} MergedIsPadded(source: Source, comments: seq<Comment>, idle: set<nat>, edits: seq<Edit>,
                                          i: int, j: int,
                                          m: Edit)
    requires InOrder(comments, |source|) && NoneFuses(source, comments, idle)
    requires Ordered(edits, 0, |source|) && AllDiscreet(source, RemovedSpans(comments), edits)
    requires AllTight(source, comments, idle, edits) && IsRun(edits, i, j, m)
    requires m.replacement == [] && IsCode(source, comments, m.span.end) && m.span.start < m.span.end
    requires Unbroken(source, m.span.start, m.span.end) && !Covered(RemovedSpans(comments), m.span.start - 1)
    ensures Padded(StateAt(Blanked(source, RemovedSpans(comments)), m.span.start))
    ensures !OpenGap(source, RemovedSpans(comments), m.span.start)
  {
    hide Walk, CleanCut, Blanked, Fuses, Tight, Discreet, NoInk, StateAt, Padded, Covered;
    var a := m.span.start;
    var c := MemberIsComment(source, comments, idle, edits, i, j, m, i);
    RemovedSpansHold(comments);
    DiscreetIsUpright(source, RemovedSpans(comments), edits);
    assert edits[i] in edits;
    CoveredStartsNoGap(source, RemovedSpans(comments), comments[c].span);
    if 0 < a && SymAt(source, a - 1) == Ink {
      RunFuses(source, comments, idle, edits, i, j, m);
    } else {
      PaddedBehindBlank(source, RemovedSpans(comments), a);
    }
  }

  lemma {:induction false} MergedIsBridged(source: Source, comments: seq<Comment>, idle: set<nat>, edits: seq<Edit>,
                                           k: nat)
    requires InOrder(comments, |source|) && NoneFuses(source, comments, idle)
    requires Ordered(edits, 0, |source|) && AllDiscreet(source, RemovedSpans(comments), edits)
    requires AllTight(source, comments, idle, edits) && Taken(RemovedSpans(comments), Merge(edits))
             && k < |Merge(edits)|
    requires Discreet(source, RemovedSpans(comments), Merge(edits)[k])
    ensures Bridged(source, RemovedSpans(comments), Merge(edits)[k])
  {
    hide Walk, CleanCut, Blanked, Fuses, Tight, Discreet, NoInk, StateAt, Padded, NoneFuses, HasBreak, Taken, Fresh;
    var spans, m := RemovedSpans(comments), Merge(edits)[k];
    var a, z := m.span.start, m.span.end;
    DiscreetIsUpright(source, spans, edits);
    MergeIsApart(edits, 0, |source|);
    MergeOrdered(edits, 0, |source|);
    OrderedBounds(Merge(edits), 0, |source|);
    BreaksOfBlanked(source, spans, a, z);
    if Unbroken(source, a, z) && m.replacement == [] && z < |source| {
      BesideIsBare(spans, Merge(edits), k, z);
      BesideIsBare(spans, Merge(edits), k, a as int - 1);
      if SymAt(source, z) == Ink {
        var i, j := MergedIsRun(edits, k);
        assert m in Merge(edits);
        MergedIsPadded(source, comments, idle, edits, i, j, m);
      }
    }
  }

  lemma {:induction false} MergeIsFaithful(source: Source, comments: seq<Comment>, idle: set<nat>, edits: seq<Edit>)
    requires InOrder(comments, |source|) && NoneFuses(source, comments, idle)
    requires Ordered(edits, 0, |source|) && AllDiscreet(source, RemovedSpans(comments), edits)
    requires AllTight(source, comments, idle, edits) && Taken(RemovedSpans(comments), edits)
    ensures Ordered(Merge(edits), 0, |source|) && Apply(source, Merge(edits)) == Apply(source, edits)
    ensures AllFaithful(source, RemovedSpans(comments), Merge(edits)) && Taken(RemovedSpans(comments), Merge(edits))
  {
    var spans, merged := RemovedSpans(comments), Merge(edits);
    MergeApplies(source, edits, 0);
    MergeIsDiscreet(source, spans, edits);
    MergeIsTaken(spans, edits, |source|);
    forall m | m in merged
      ensures Faithful(source, spans, m)
    {
      var k :| 0 <= k < |merged| && merged[k] == m;
      MergedIsBridged(source, comments, idle, edits, k);
    }
  }

  /**
   * Edits that are discreet and tight, and between them take every removed comment, keep the outline
   * where no run of comments fuses what it stands between.
   */
  lemma {:induction false} TightEditsKeepOutline(source: Source, comments: seq<Comment>, idle: set<nat>,
                                                 edits: seq<Edit>)
    requires InOrder(comments, |source|) && NoneFuses(source, comments, idle)
    requires Ordered(edits, 0, |source|) && AllDiscreet(source, RemovedSpans(comments), edits)
    requires AllTight(source, comments, idle, edits) && Taken(RemovedSpans(comments), edits)
    ensures Outline(Apply(source, edits)) == RemainingOutline(source, comments)
  {
    MergeIsFaithful(source, comments, idle, edits);
    FaithfulEditsKeepOutline(source, RemovedSpans(comments), Merge(edits));
  }

  lemma {:induction false} MergeIsTaken(spans: seq<ByteSpan>, edits: seq<Edit>, n: nat)
    requires Ordered(edits, 0, n) && Taken(spans, edits)
    ensures Taken(spans, Merge(edits))
  {
    forall k | 0 <= k < |spans|
      ensures Takes(Merge(edits), spans[k])
    {
      MergeTakes(edits, spans[k], 0, n);
    }
  }

  /** Comments that begin with a visible byte fuse nothing: none but the first of a run can stand for a blank. */
  lemma {:induction false} InkFirstNeverFuses(source: Source, comments: seq<Comment>)
    requires InOrder(comments, |source|) && Outlineable(source, comments)
    ensures NeverFuses(source, comments)
  {
    forall i: nat, j: nat
      ensures !Fuses(source, comments, Spaceless(source, comments), i, j)
    {
      if i <= j < |comments| { FirstKeepsApart(source, comments, i, j); }
    }
  }

  lemma {:induction false} FirstKeepsApart(source: Source, comments: seq<Comment>, i: nat, j: nat)
    requires InOrder(comments, |source|) && Outlineable(source, comments) && i <= j < |comments|
    ensures !Fuses(source, comments, Spaceless(source, comments), i, j)
  {
    if Fuses(source, comments, Spaceless(source, comments), i, j) {
      if i < j { assert comments[i + 1] in comments; }
      assert HasNonWhitespaceNeighbors(source, comments[i].span);
    }
  }

  // ---- the edits of the layouts are tight ----

  /** An edit that takes a byte of a line break, or ends where the source does, is tight. */
  lemma {:induction false} BreakIsTight(source: Source, comments: seq<Comment>, idle: set<nat>, e: Edit, x: nat)
    requires e.span.start <= e.span.end <= |source|
    requires e.span.end == |source| || (e.span.start <= x < e.span.end && SymAt(source, x) == Break)
    ensures Tight(source, comments, idle, e)
  {
    if e.span.end == |source| { assert BlanksTo(source, |source|, |source|); }
  }

  lemma {:induction false} SwallowIsTight(source: Source, comments: seq<Comment>, idle: set<nat>,
                                          swallow: seq<Option<ByteSpan>>, i: nat, a: nat)
    requires SwallowsWholeLines(source, comments, swallow)
    requires i < |comments| && SwallowAt(swallow, i).Some?
    requires a < SwallowAt(swallow, i).value.end
    ensures Tight(source, comments, idle, Edit(ByteSpan(a, SwallowAt(swallow, i).value.end), []))
  {
    assert WholeLineAt(source, comments, swallow, i);
    var z := SwallowAt(swallow, i).value.end;
    BreakIsTight(source, comments, idle, Edit(ByteSpan(a, z), []), z - 1);
  }

  /** What `lines` leaves of one comment is tight. */
  lemma {:induction false} LineEditIsTight(source: Source, comments: seq<Comment>, i: nat)
    requires InOrder(comments, |source|) && i < |comments| && Removes(comments[i])
    ensures Tight(source, comments, Spaceless(source, comments),
                  Edit(comments[i].span, LineReplacement(source, comments[i].span)))
  {
    var e := Edit(comments[i].span, LineReplacement(source, comments[i].span));
    if e.replacement == [] {
      assert Unbroken(source, e.span.start, e.span.end) ==> TakesJust(comments, Spaceless(source, comments), i, e);
    }
  }
}
