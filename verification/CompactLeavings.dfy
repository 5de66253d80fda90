/** What each byte of a source leaves under `compact`. */
module CompactLeavings {
  import opened Arrivals
  import opened Bytes
  import opened Collapse
  import opened Compact
  import opened CompactPlans
  import opened Edits
  import opened Layouts
  import opened Leavings
  import opened LineNumbers
  import opened LinesLeft
  import opened Outlines
  import opened Plans
  import opened Residues
  import opened Scanning
  import opened Seams

  // ---- what is left ----

  /** Something that is not white stands in front of the comment on the line it begins on. */
  ghost predicate CodeInFront(source: Source, c: Comment) {
    exists l: nat :: BeginsLineOf(source, l, c.span.start) && HasCode(source, l, c.span.start)
  }

  /** Byte `i` is part of the first line terminator in the span, which begins at `t`. */
  ghost predicate InTerminatorAt(source: Source, s: ByteSpan, t: nat, i: nat)
    requires s.end <= |source|
  {
    var w := TerminatorWidth(source, t);
    s.start <= t <= i && w.Some? && i < t + w.value <= s.end && Unbroken(source, s.start, t)
  }

  /** Byte `i` is part of the first line terminator in the span. */
  ghost predicate InFirstTerminator(source: Source, s: ByteSpan, i: nat)
    requires s.end <= |source|
  {
    exists t: nat :: InTerminatorAt(source, s, t, i)
  }

  /**
   * What byte `i` of comment `k` leaves, which is not kept: all of a replacement for the first byte of a comment that
   * is rewritten; in the middle of a line what it leaves under `lines`; otherwise itself if it is part of the comment's
   * first line terminator and code keeps the line in front; and nothing of an HTML comment, or of a line that is
   * swallowed.
   */
  ghost function CommentLeave(source: Source, comments: seq<Comment>, swallow: seq<Option<ByteSpan>>, k: nat,
                              i: nat): Source
    requires InOrder(comments, |source|) && k < |comments| && i < |source|
  {
    var c := comments[k];
    if c.what.disposition.Rewrite? then LeftOf(source, c, i)
    else if SwallowAt(swallow, k).Some? then []
    else if !EndsItsLine(source, c) then LeftOf(source, c, i)
    else if c.what.kind == HtmlComment then []
    else if CodeInFront(source, c) && InFirstTerminator(source, c.span, i) then [source[i]]
    else []
  }

  /** What byte `i` leaves: itself where no removal takes it, and otherwise nothing but what its comment leaves. */
  ghost function CompactLeft(source: Source, comments: seq<Comment>, swallow: seq<Option<ByteSpan>>, i: nat): Source
    requires InOrder(comments, |source|) && SwallowFits(comments, swallow, |source|) && i < |source|
  {
    if Survives(CompactPlan(source, comments, swallow), i) then [source[i]]
    else
      match HolderOf(comments, |comments|, i)
      case None => []
      case Some(k) => CommentLeave(source, comments, swallow, k, i)
  }

  ghost function CompactResidue(source: Source, comments: seq<Comment>, swallow: seq<Option<ByteSpan>>): seq<Source>
    requires InOrder(comments, |source|) && SwallowFits(comments, swallow, |source|)
  {
    seq(|source|, i requires 0 <= i < |source| => CompactLeft(source, comments, swallow, i))
  }

  // ---- the edits leave that ----

  /** The edit for a comment takes the comment, and ends in front of the next. */
  lemma {:induction false} EditTakesComment(source: Source, comments: seq<Comment>, swallow: seq<Option<ByteSpan>>,
                                            k: nat)
    requires InOrder(comments, |source|) && SwallowFits(comments, swallow, |source|)
    requires k < |comments| && comments[k].what.disposition != Keep
    ensures var e := EditAt(source, comments, swallow, k);
            && e.span.start <= comments[k].span.start < comments[k].span.end <= e.span.end
            && e.span.end <= StartOf(comments, k + 1, |source|)
  {
    var p := PlanAt(source, comments, swallow, k);
    assert FitsAt(comments, swallow, |source|, k);
    if k + 1 < |comments| { assert comments[k].span.end <= comments[k + 1].span.start; }
    if Removes(comments[k]) && SwallowAt(swallow, k).None? {
      RemovalBounds(source, comments, k, LineStartFrom(source, p.scan, p.lineStart, comments[k].span.start), p.floor);
    }
  }

  /** Two comments have two edits. */
  lemma {:induction false} EditsDiffer(source: Source, comments: seq<Comment>, swallow: seq<Option<ByteSpan>>, k: nat,
                                       m: nat)
    requires InOrder(comments, |source|) && SwallowFits(comments, swallow, |source|)
    requires k < m < |comments| && comments[k].what.disposition != Keep && comments[m].what.disposition != Keep
    ensures EditAt(source, comments, swallow, k) != EditAt(source, comments, swallow, m)
  {
    EditTakesComment(source, comments, swallow, k);
    EditTakesComment(source, comments, swallow, m);
    if k + 1 < m { assert comments[k + 1].span.end <= comments[m].span.start; }
  }

  /** No two edits take one byte. */
  lemma {:induction false} TakenByOne(edits: seq<Edit>, n: nat, s: nat, t: nat, i: nat)
    requires Ordered(edits, 0, n) && s < |edits| && t < |edits|
    requires edits[s].span.start <= i < edits[s].span.end && edits[t].span.start <= i < edits[t].span.end
    ensures s == t
  {
    OrderedBounds(edits, 0, n);
  }

  /** Unless a removal trims a rewritten comment the plan is sorted. */
  lemma {:induction false} UntrimmedIsOrdered(source: Source, comments: seq<Comment>, swallow: seq<Option<ByteSpan>>)
    requires InOrder(comments, |source|) && SwallowFits(comments, swallow, |source|)
    requires !TrimsWithin(source, comments, swallow, |comments|)
    ensures Ordered(PlanAt(source, comments, swallow, |comments|).list, 0, |source|)
    ensures Ordered(CompactPlan(source, comments, swallow), 0, |source|)
  {
    PlanAtHolds(source, comments, swallow, |comments|);
    OrderedUnlessTrimmed(source, comments, swallow);
  }

  /** A byte that the edit of one comment takes lies in no other comment that is not kept. */
  lemma {:induction false} HeldByItsOwn(source: Source, comments: seq<Comment>, swallow: seq<Option<ByteSpan>>, t: nat,
                                        k: nat, i: nat)
    requires InOrder(comments, |source|) && SwallowFits(comments, swallow, |source|)
    requires !TrimsWithin(source, comments, swallow, |comments|)
    requires t < |PlanAt(source, comments, swallow, |comments|).list|
    requires k < |comments| && comments[k].what.disposition != Keep
    requires PlanAt(source, comments, swallow, |comments|).list[t] == EditAt(source, comments, swallow, k)
    requires var e := CompactPlan(source, comments, swallow)[t]; e.span.start <= i < e.span.end
    ensures HolderOf(comments, |comments|, i)
         == if comments[k].span.start <= i < comments[k].span.end then Some(k) else None
  {
    hide PlanAt, EditAt, SwallowFits, TrimsWithin;
    var p, wide := PlanAt(source, comments, swallow, |comments|), CompactPlan(source, comments, swallow);
    UntrimmedIsOrdered(source, comments, swallow);
    match HolderOf(comments, |comments|, i)
    case None =>
    case Some(m) =>
      assert comments[m] in comments;
      PlanHas(source, comments, swallow, |comments|, m);
      var s :| 0 <= s < |p.list| && p.list[s] == EditAt(source, comments, swallow, m);
      EditTakesComment(source, comments, swallow, m);
      TakenByOne(wide, |source|, s, t, i);
      if k < m { EditsDiffer(source, comments, swallow, k, m); }
      if m < k { EditsDiffer(source, comments, swallow, m, k); }
  }

  lemma {:induction false} FirstTerminatorStands(source: Source, i: nat, end: nat) returns (t: nat)
    requires end <= |source| && FirstTerminator(source, i, end).Some?
    requires CleanCut(source, i) && WholeTerminators(source, end)
    ensures var w := TerminatorWidth(source, t);
            && i <= t && w.Some? && t + w.value <= end && Unbroken(source, i, t)
            && FirstTerminator(source, i, end).value == source[t..t + w.value]
    decreases end - i
  {
    var w := TerminatorWidth(source, i);
    if w.Some? && i + w.value <= end {
      t := i;
    } else {
      assert SymAt(source, i) != Break;
      t := FirstTerminatorStands(source, i + 1, end);
    }
  }

  /** A span has one first terminator. */
  lemma {:induction false} OneFirstTerminator(source: Source, s: ByteSpan, t: nat, u: nat, i: nat)
    requires s.end <= |source| && TerminatorWidth(source, t).Some? && s.start <= t && Unbroken(source, s.start, t)
    requires InTerminatorAt(source, s, u, i)
    ensures u == t
  {
    TerminatorCells(source, t);
    TerminatorCells(source, u);
    assert SymAt(source, t + 0) == Break && SymAt(source, u + 0) == Break;
  }

  /** What the bytes of one first terminator leave, and nothing around it. */
  lemma {:induction false} TerminatorLeft(source: Source, left: seq<Source>, a: nat, t: nat, u: nat, z: nat)
    requires |left| == |source| && a <= t <= u <= z <= |source|
    requires Gone(left, a, t) && Remains(source, left, t, u) && Gone(left, u, z)
    ensures RestIn(left, a, z) == source[t..u]
  {
    RestInTwo(left, a, t, z);
    RestInTwo(left, t, u, z);
    GoneLeavesNothing(left, a, t);
    RemainsIsText(source, left, t, u);
    GoneLeavesNothing(left, u, z);
  }

  /** What the bytes of a comment are said to leave is what `left` has of them. */
  ghost predicate LeavesComment(source: Source, comments: seq<Comment>, swallow: seq<Option<ByteSpan>>, k: nat,
                                left: seq<Source>)
    requires InOrder(comments, |source|) && k < |comments|
  {
    && |left| == |source|
    && forall i | comments[k].span.start <= i < comments[k].span.end ::
         left[i] == CommentLeave(source, comments, swallow, k, i)
  }

  lemma {:induction false} InteriorLeaves(source: Source, comments: seq<Comment>, swallow: seq<Option<ByteSpan>>,
                                          k: nat,
                                          z: nat, left: seq<Source>)
    requires InOrder(comments, |source|) && k < |comments| && Removes(comments[k]) && SwallowAt(swallow, k).None?
    requires !EndsItsLine(source, comments[k]) && LeavesComment(source, comments, swallow, k, left)
    requires comments[k].span.start <= z <= comments[k].span.end
    ensures RestIn(left, comments[k].span.start, z) == LeftIn(source, comments, comments[k].span.start, z)
    decreases z
  {
    if comments[k].span.start < z {
      InteriorLeaves(source, comments, swallow, k, z - 1, left);
      HeldByOne(comments, |comments|, |source|, k, z - 1);
    }
  }

  /** The line the planner has a comment begin on is the line it begins on. */
  lemma {:induction false} PlannerSeesCode(source: Source, comments: seq<Comment>, swallow: seq<Option<ByteSpan>>,
                                           k: nat)
    requires InOrder(comments, |source|) && SwallowFits(comments, swallow, |source|)
    requires CutsNone(source, comments) && SwallowsWholeLines(source, comments, swallow) && k < |comments|
    ensures var p, at := PlanAt(source, comments, swallow, k), comments[k].span.start;
            HasCode(source, LineStartFrom(source, p.scan, p.lineStart, at), at) <==> CodeInFront(source, comments[k])
  {
    var p, at := PlanAt(source, comments, swallow, k), comments[k].span.start;
    assert comments[k] in comments;
    PlanTracksLine(source, comments, swallow, k);
    ScanFindsLine(source, p.scan, p.lineStart, at);
    var start := LineStartFrom(source, p.scan, p.lineStart, at);
    if l: nat :| BeginsLineOf(source, l, at) && HasCode(source, l, at) { OneLine(source, l, start, at); }
  }

  lemma {:induction false} EndingLeaves(source: Source, comments: seq<Comment>, swallow: seq<Option<ByteSpan>>, k: nat,
                                        left: seq<Source>)
    requires InOrder(comments, |source|) && CutsNone(source, comments)
    requires k < |comments| && Removes(comments[k]) && SwallowAt(swallow, k).None? && EndsItsLine(source, comments[k])
    requires LeavesComment(source, comments, swallow, k, left)
    ensures var s := comments[k].span;
            var t := FirstTerminator(source, s.start, s.end);
            RestIn(left, s.start, s.end)
            == if comments[k].what.kind != HtmlComment && t.Some? && CodeInFront(source, comments[k]) then t.value
               else []
  {
    hide CodeInFront, InTerminatorAt;
    var s := comments[k].span;
    assert comments[k] in comments;
    if comments[k].what.kind != HtmlComment && FirstTerminator(source, s.start, s.end).Some?
       && CodeInFront(source, comments[k]) {
      var t := FirstTerminatorStands(source, s.start, s.end);
      var u := t + TerminatorWidth(source, t).value;
      forall i | s.start <= i < s.end
        ensures InFirstTerminator(source, s, i) <==> t <= i < u
      {
        JustThatTerminator(source, s, t, i);
      }
      TerminatorLeft(source, left, s.start, t, u, s.end);
    } else {
      forall i | s.start <= i < s.end
        ensures left[i] == []
      {
        if InFirstTerminator(source, s, i) { TerminatorIsFirst(source, s, i); }
      }
      GoneLeavesNothing(left, s.start, s.end);
    }
  }

  lemma {:induction false} JustThatTerminator(source: Source, s: ByteSpan, t: nat, i: nat)
    requires s.end <= |source| && TerminatorWidth(source, t).Some? && s.start <= t && Unbroken(source, s.start, t)
    requires t + TerminatorWidth(source, t).value <= s.end
    ensures InFirstTerminator(source, s, i) <==> t <= i < t + TerminatorWidth(source, t).value
  {
    if u: nat :| InTerminatorAt(source, s, u, i) {
      OneFirstTerminator(source, s, t, u, i);
    } else if t <= i < t + TerminatorWidth(source, t).value {
      assert InTerminatorAt(source, s, t, i);
    }
  }

  lemma {:induction false} TerminatorIsFirst(source: Source, s: ByteSpan, i: nat)
    requires s.end <= |source| && InFirstTerminator(source, s, i)
    ensures FirstTerminator(source, s.start, s.end).Some?
  {
    var t: nat :| InTerminatorAt(source, s, t, i);
    SomeTerminator(source, s.start, t, s.end);
  }

  lemma {:induction false} SomeTerminator(source: Source, i: nat, t: nat, end: nat)
    requires i <= t && end <= |source| && TerminatorWidth(source, t).Some?
    requires t + TerminatorWidth(source, t).value <= end
    ensures FirstTerminator(source, i, end).Some?
    decreases t - i
  {
    if i < t { SomeTerminator(source, i + 1, t, end); }
  }

  /** What the bytes of a comment leave is what its edit writes. */
  lemma {:induction false} CommentLeavesRest(source: Source, comments: seq<Comment>, swallow: seq<Option<ByteSpan>>,
                                             k: nat, left: seq<Source>)
    requires InOrder(comments, |source|) && SwallowFits(comments, swallow, |source|)
    requires CutsNone(source, comments) && SwallowsWholeLines(source, comments, swallow)
    requires k < |comments| && comments[k].what.disposition != Keep
    requires LeavesComment(source, comments, swallow, k, left)
    ensures RestIn(left, comments[k].span.start, comments[k].span.end)
         == EditAt(source, comments, swallow, k).replacement
  {
    hide CodeInFront, InFirstTerminator, PlanAt, RestIn;
    var s := comments[k].span;
    assert comments[k] in comments;
    if comments[k].what.disposition.Rewrite? {
      FirstLeavesAll(left, s.start, s.end);
    } else if SwallowAt(swallow, k).Some? {
      GoneLeavesNothing(left, s.start, s.end);
    } else if !EndsItsLine(source, comments[k]) {
      InteriorLeaves(source, comments, swallow, k, s.end, left);
      CommentLeaves(source, comments, k);
    } else {
      EndingLeaves(source, comments, swallow, k, left);
      PlannerSeesCode(source, comments, swallow, k);
    }
  }

  /** The planner's edits leave what the bytes are said to leave. */
  lemma {:induction false} CompactPlanLeaves(source: Source, comments: seq<Comment>, swallow: seq<Option<ByteSpan>>)
    requires InOrder(comments, |source|) && SwallowFits(comments, swallow, |source|)
    requires CutsNone(source, comments) && SwallowsWholeLines(source, comments, swallow)
    requires !TrimsWithin(source, comments, swallow, |comments|)
    ensures Leaves(source, CompactPlan(source, comments, swallow), CompactResidue(source, comments, swallow))
  {
    var p, wide := PlanAt(source, comments, swallow, |comments|), CompactPlan(source, comments, swallow);
    var left := CompactResidue(source, comments, swallow);
    UntrimmedIsOrdered(source, comments, swallow);
    OrderedBounds(wide, 0, |source|);
    forall e | e in wide
      ensures e.span.start <= e.span.end <= |source| && e.replacement == RestIn(left, e.span.start, e.span.end)
    {
      var t :| 0 <= t < |wide| && wide[t] == e;
      EditLeaves(source, comments, swallow, t);
    }
  }

  lemma {:induction false} EditLeaves(source: Source, comments: seq<Comment>, swallow: seq<Option<ByteSpan>>, t: nat)
    requires InOrder(comments, |source|) && SwallowFits(comments, swallow, |source|)
    requires CutsNone(source, comments) && SwallowsWholeLines(source, comments, swallow)
    requires !TrimsWithin(source, comments, swallow, |comments|)
    requires t < |CompactPlan(source, comments, swallow)|
    ensures var e := CompactPlan(source, comments, swallow)[t];
            && e.span.start <= e.span.end <= |source|
            && e.replacement == RestIn(CompactResidue(source, comments, swallow), e.span.start, e.span.end)
  {
    hide PlanAt, RestIn, CommentLeave, EditAt, TrimsWithin;
    var p, wide := PlanAt(source, comments, swallow, |comments|), CompactPlan(source, comments, swallow);
    var left, e := CompactResidue(source, comments, swallow), wide[t];
    UntrimmedIsOrdered(source, comments, swallow);
    OrderedBounds(wide, 0, |source|);
    assert p.list[t] in p.list;
    var k := PlanOnly(source, comments, swallow, |comments|, p.list[t]);
    var s := comments[k].span;
    assert comments[k] in comments && e in wide;
    EditTakesComment(source, comments, swallow, k);
    forall i | e.span.start <= i < e.span.end
      ensures left[i] == if s.start <= i < s.end then CommentLeave(source, comments, swallow, k, i) else []
    {
      HeldByItsOwn(source, comments, swallow, t, k, i);
    }
    CommentLeavesRest(source, comments, swallow, k, left);
    RestInTwo(left, e.span.start, s.start, e.span.end);
    RestInTwo(left, s.start, s.end, e.span.end);
    GoneLeavesNothing(left, e.span.start, s.start);
    GoneLeavesNothing(left, s.end, e.span.end);
    assert [] + RestIn(left, s.start, s.end) + [] == RestIn(left, s.start, s.end);
  }

  // ---- it is read and seen as it was ----

  lemma {:induction false} RemovedLeavesByte(source: Source, comments: seq<Comment>, swallow: seq<Option<ByteSpan>>,
                                             k: nat, i: nat)
    requires InOrder(comments, |source|) && Cuttable(source, comments) && k < |comments| && i < |source|
    requires Removes(comments[k])
    ensures var l := CommentLeave(source, comments, swallow, k, i); l == [source[i]] || l == [] || l == [SPACE]
    ensures CommentLeave(source, comments, swallow, k, i) == [source[i]] ==> SymAt(source, i) != Ink
  {
    hide CodeInFront;
    assert comments[k] in comments;
    if t: nat :| InTerminatorAt(source, comments[k].span, t, i) {
      TerminatorCells(source, t);
      assert SymAt(source, t + (i - t)) == Break;
    }
  }

  lemma {:induction false} CompactResidueIsBytewise(source: Source, comments: seq<Comment>,
                                                    swallow: seq<Option<ByteSpan>>)
    requires InOrder(comments, |source|) && SwallowFits(comments, swallow, |source|) && Cuttable(source, comments)
    ensures var left := CompactResidue(source, comments, swallow);
            && Bytewise(source, left)
            && forall i: nat | InkStays(source, left, i) :: Survives(CompactPlan(source, comments, swallow), i)
  {
    hide CommentLeave;
    forall i: nat | i < |source|
      ensures var l := CompactLeft(source, comments, swallow, i);
              && (l == [source[i]] || l == [] || l == [SPACE])
              && (l == [source[i]] && SymAt(source, i) == Ink ==> Survives(CompactPlan(source, comments, swallow), i))
    {
      var k := HolderOf(comments, |comments|, i);
      if k.Some? {
        assert comments[k.value] in comments;
        RemovedLeavesByte(source, comments, swallow, k.value, i);
      }
    }
  }

  /** A separator is taken whole, and lies whole in a comment. */
  lemma {:induction false} SeparatorIsUncut(source: Source, comments: seq<Comment>, swallow: seq<Option<ByteSpan>>,
                                            i: nat, m: nat)
    requires InOrder(comments, |source|) && SwallowFits(comments, swallow, |source|)
    requires Cuttable(source, comments) && SwallowsWholeLines(source, comments, swallow)
    requires SeparatorAt(source, i) && i <= m < i + 3
    ensures Survives(CompactPlan(source, comments, swallow), m) <==> Survives(CompactPlan(source, comments, swallow), i)
    ensures HolderOf(comments, |comments|, m) == HolderOf(comments, |comments|, i)
  {
    hide PlanAt, Survives, Discreet, Tight, Spaceless, HolderOf, SeparatorAt, RemovedSpans, SwallowsWholeLines;
    var p := PlanAt(source, comments, swallow, |comments|);
    RemovalsAreOrdered(source, comments, swallow);
    PlanIsTight(source, comments, swallow);
    CollapsedIsTight(source, comments, Spaceless(source, comments), p.list, p.collapsible);
    DiscreetCutsNone(source, RemovedSpans(comments), CompactPlan(source, comments, swallow), i, m);
    HoldersAgree(source, comments, i, m);
  }

  lemma {:induction false} DiscreetCutsNone(source: Source, spans: seq<ByteSpan>, edits: seq<Edit>, i: nat, m: nat)
    requires AllDiscreet(source, spans, edits) && SeparatorAt(source, i) && i <= m < i + 3
    ensures Survives(edits, m) <==> Survives(edits, i)
  {
    forall e | e in edits
      ensures e.span.start <= i < e.span.end <==> e.span.start <= m < e.span.end
    {
      assert Discreet(source, spans, e);
    }
  }

  lemma {:induction false} HoldersAgree(source: Source, comments: seq<Comment>, i: nat, m: nat)
    requires InOrder(comments, |source|) && CutsNone(source, comments) && SeparatorAt(source, i) && i <= m < i + 3
    ensures HolderOf(comments, |comments|, m) == HolderOf(comments, |comments|, i)
  {
    match HolderOf(comments, |comments|, i) {
    case Some(k) =>
      assert comments[k] in comments;
      HeldByOne(comments, |comments|, |source|, k, m);
    case None =>
      match HolderOf(comments, |comments|, m) {
      case None =>
      case Some(k) =>
      }
    }
  }

  /** A separator in a removed comment leaves itself, or nothing. */
  lemma {:induction false} SeparatorLeaves(source: Source, comments: seq<Comment>, swallow: seq<Option<ByteSpan>>,
                                           k: nat, i: nat, m: nat)
    requires InOrder(comments, |source|) && Cuttable(source, comments) && k < |comments| && Removes(comments[k])
    requires SeparatorAt(source, i) && i <= m < i + 3
    requires comments[k].span.start <= i && i + 3 <= comments[k].span.end
    ensures CommentLeave(source, comments, swallow, k, i) == [source[i]]
         || CommentLeave(source, comments, swallow, k, i) == []
    ensures CommentLeave(source, comments, swallow, k, m)
         == if CommentLeave(source, comments, swallow, k, i) == [] then [] else [source[m]]
  {
    hide CodeInFront;
    var s := comments[k].span;
    assert comments[k] in comments;
    assert SymAt(source, i) == Break && SymAt(source, m) == Break;
    if t: nat :| InTerminatorAt(source, s, t, i) { assert InTerminatorAt(source, s, t, m); }
    if t: nat :| InTerminatorAt(source, s, t, m) { assert InTerminatorAt(source, s, t, i); }
  }

  lemma {:induction false} CompactKeepsSeparators(source: Source, comments: seq<Comment>,
                                                  swallow: seq<Option<ByteSpan>>)
    requires InOrder(comments, |source|) && SwallowFits(comments, swallow, |source|)
    requires Cuttable(source, comments) && SwallowsWholeLines(source, comments, swallow)
    ensures SeparatorsWhole(source, CompactResidue(source, comments, swallow))
  {
    hide CommentLeave, CompactPlan, Survives;
    var left := CompactResidue(source, comments, swallow);
    forall i: nat | SeparatorAt(source, i)
      ensures Remains(source, left, i, i + 3) || Gone(left, i, i + 3)
    {
      var k := HolderOf(comments, |comments|, i);
      forall m | i <= m < i + 3
        ensures left[m] == if left[i] == [] then [] else [source[m]]
      {
        SeparatorIsUncut(source, comments, swallow, i, m);
        if k.Some? {
          assert comments[k.value] in comments;
          SeparatorIsUncut(source, comments, swallow, i, i + 2);
          SeparatorLeaves(source, comments, swallow, k.value, i, m);
        }
      }
    }
  }

  /** The plan, edits that touch put together: it makes the same text, and each edit of it keeps the outline. */
  lemma {:induction false} MergedPlanIsFair(source: Source, comments: seq<Comment>, swallow: seq<Option<ByteSpan>>)
    requires InOrder(comments, |source|) && SwallowFits(comments, swallow, |source|)
    requires Cuttable(source, comments) && SwallowsWholeLines(source, comments, swallow) && NeverFuses(source, comments)
    ensures var edits := CompactPlan(source, comments, swallow);
            && Ordered(edits, 0, |source|) && AllDiscreet(source, RemovedSpans(comments), edits)
            && Fair(source, RemovedSpans(comments), Merge(edits)) && Apply(source, Merge(edits)) == Apply(source, edits)
  {
    var p := PlanAt(source, comments, swallow, |comments|);
    RemovalsAreOrdered(source, comments, swallow);
    PlanIsTight(source, comments, swallow);
    CollapsedIsTight(source, comments, Spaceless(source, comments), p.list, p.collapsible);
    MergeIsFaithful(source, comments, Spaceless(source, comments), CompactPlan(source, comments, swallow));
  }

  /** Where no run of comments fuses what it stands between, no separator is put together either. */
  lemma {:induction false} CompactFormsNothing(source: Source, comments: seq<Comment>, swallow: seq<Option<ByteSpan>>)
    requires InOrder(comments, |source|) && SwallowFits(comments, swallow, |source|)
    requires Cuttable(source, comments) && SwallowsWholeLines(source, comments, swallow) && NeverFuses(source, comments)
    ensures NothingForms(CompactResidue(source, comments, swallow))
  {
    var edits := CompactPlan(source, comments, swallow);
    MergedPlanIsFair(source, comments, swallow);
    RemovalsNeverTrim(source, comments, swallow);
    CompactPlanLeaves(source, comments, swallow);
    CompactResidueIsBytewise(source, comments, swallow);
    CompactKeepsSeparators(source, comments, swallow);
    FairFormsNothing(source, RemovedSpans(comments), edits, CompactResidue(source, comments, swallow));
  }

  /** The text the edits make is what the bytes leave, rewrites and HTML comments included. */
  lemma {:induction false} CompactLeavesAll(source: Source, comments: seq<Comment>, swallow: seq<Option<ByteSpan>>)
    requires InOrder(comments, |source|) && SwallowFits(comments, swallow, |source|)
    requires CutsNone(source, comments) && SwallowsWholeLines(source, comments, swallow)
    requires !TrimsWithin(source, comments, swallow, |comments|)
    ensures var edits, left := CompactPlan(source, comments, swallow), CompactResidue(source, comments, swallow);
            && Ordered(edits, 0, |source|) && Apply(source, edits) == RestIn(left, 0, |source|)
            && forall i: nat | i < |source| && Survives(edits, i) ::
                 left[i] == [source[i]] && Landed(edits, i) == Place(left, i)
  {
    UntrimmedIsOrdered(source, comments, swallow);
    CompactPlanLeaves(source, comments, swallow);
    AppliedIsRest(source, CompactPlan(source, comments, swallow), CompactResidue(source, comments, swallow));
  }

  /** The text the edits make is what the bytes leave, and it is seen as it was where nothing forms. */
  lemma {:induction false} CompactLeavesBytes(source: Source, comments: seq<Comment>, swallow: seq<Option<ByteSpan>>)
    requires InOrder(comments, |source|) && SwallowFits(comments, swallow, |source|)
    requires Cuttable(source, comments) && SwallowsWholeLines(source, comments, swallow)
    ensures var edits, left := CompactPlan(source, comments, swallow), CompactResidue(source, comments, swallow);
            && Ordered(edits, 0, |source|) && Apply(source, edits) == RestIn(left, 0, |source|)
            && (NothingForms(left) ==> Legible(source, left))
            && forall i: nat | i < |source| && Survives(edits, i) ::
                 left[i] == [source[i]] && Landed(edits, i) == Place(left, i)
  {
    RemovalsNeverTrim(source, comments, swallow);
    CompactLeavesAll(source, comments, swallow);
    CompactResidueIsBytewise(source, comments, swallow);
    CompactKeepsSeparators(source, comments, swallow);
  }
}
