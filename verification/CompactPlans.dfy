/**
 * The plan of the `compact` layout: one edit per removed comment, the start of the current line threaded
 * through the source, and the created blank lines taken back at the end; that it is sorted, and what it
 * keeps of the bytes and of the outline.
 */
module CompactPlans {
  import opened Bytes
  import opened Collapse
  import opened Compact
  import opened Edits
  import opened Erasures
  import opened Fusions
  import opened Layouts
  import opened Leavings
  import opened Outlines
  import opened Plans
  import opened Scanning
  import opened Seams

  // ---- the line a comment begins on ----

  /** `l` begins the line that holds `p`. */
  ghost predicate BeginsLineOf(source: Source, l: nat, p: nat) {
    l <= p <= |source| && LineBoundary(source, l) && forall x: nat | l < x <= p :: !LineBoundary(source, x)
  }

  lemma {:induction false} OneLine(source: Source, l: nat, m: nat, p: nat)
    requires BeginsLineOf(source, l, p) && BeginsLineOf(source, m, p)
    ensures l == m
  {
  }

  lemma {:induction false} TerminatorEndsInNoBlank(source: Source, i: nat)
    requires TerminatorWidth(source, i).Some?
    ensures !IsBlankByte(source, i + TerminatorWidth(source, i).value - 1)
  {
  }

  /** The start of the current line, run forward from `scan` to `to`. */
  function LineStartFrom(source: Source, scan: nat, lineStart: nat, to: nat): (start: nat)
    requires lineStart <= scan <= to <= |source|
    ensures lineStart <= start <= to
    decreases |source| - scan
  {
    if scan == to then lineStart
    else
      var w := TerminatorWidth(source, scan);
      if w.Some? && scan + w.value <= to then LineStartFrom(source, scan + w.value, scan + w.value, to)
      else LineStartFrom(source, scan + 1, lineStart, to)
  }

  /** A line begins where the current one did, or behind a terminator. */
  lemma {:induction false} LineStartsBehindNoBlank(source: Source, scan: nat, lineStart: nat, to: nat)
    requires lineStart <= scan <= to <= |source|
    ensures var start := LineStartFrom(source, scan, lineStart, to);
            start == lineStart || !IsBlankByte(source, start - 1)
    decreases |source| - scan
  {
    if scan < to {
      var w := TerminatorWidth(source, scan);
      if w.Some? && scan + w.value <= to {
        TerminatorEndsInNoBlank(source, scan);
        LineStartsBehindNoBlank(source, scan + w.value, scan + w.value, to);
      } else {
        LineStartsBehindNoBlank(source, scan + 1, lineStart, to);
      }
    }
  }

  method ScanLine(source: Source, scan: nat, lineStart: nat, to: nat) returns (start: nat)
    requires lineStart <= scan <= to <= |source|
    ensures start == LineStartFrom(source, scan, lineStart, to)
  {
    start := lineStart;
    var index := scan;
    while index < to
      invariant scan <= index <= to && start <= index
      invariant LineStartFrom(source, scan, lineStart, to) == LineStartFrom(source, index, start, to)
    {
      var w := TerminatorWidth(source, index);
      if w.Some? && index + w.value <= to {
        index := index + w.value;
        start := index;
      } else {
        index := index + 1;
      }
    }
  }

  /** Between whole terminators, the scan finds where the line that holds `to` begins. */
  lemma {:induction false} ScanFindsLine(source: Source, scan: nat, lineStart: nat, to: nat)
    requires BeginsLineOf(source, lineStart, scan) && scan <= to <= |source|
    requires WholeTerminators(source, scan) && WholeTerminators(source, to)
    ensures BeginsLineOf(source, LineStartFrom(source, scan, lineStart, to), to)
    decreases |source| - scan
  {
    if scan < to {
      ScanStep(source, lineStart, scan, to);
      var w := TerminatorWidth(source, scan);
      if w.Some? && scan + w.value <= to {
        ScanFindsLine(source, scan + w.value, scan + w.value, to);
      } else {
        ScanFindsLine(source, scan + 1, lineStart, to);
      }
    }
  }

  lemma {:induction false} ScanStep(source: Source, start: nat, index: nat, to: nat)
    requires BeginsLineOf(source, start, index) && index < to <= |source|
    requires WholeTerminators(source, index) && WholeTerminators(source, to)
    ensures var w := TerminatorWidth(source, index);
            if w.Some? && index + w.value <= to
            then BeginsLineOf(source, index + w.value, index + w.value) && WholeTerminators(source, index + w.value)
            else BeginsLineOf(source, start, index + 1) && WholeTerminators(source, index + 1)
  {
    if TerminatorWidth(source, index).Some? {
      TerminatorEndsLine(source, index);
    } else {
      NoTerminatorEndsNoLine(source, index);
    }
  }

  // ---- where trimming reaches into a rewritten comment ----

  /** The comment nearest in front of comment `i` that is not kept as it is. */
  function NearestChanged(comments: seq<Comment>, i: nat): (j: Option<nat>)
    requires i <= |comments|
    ensures j.Some? ==> j.value < i && comments[j.value].what.disposition != Keep
  {
    if i == 0 then None
    else if comments[i - 1].what.disposition != Keep then Some(i - 1)
    else NearestChanged(comments, i - 1)
  }

  /**
   * The blanks trimmed in front of comment `i` reach into a rewritten comment: it ends in a blank, and
   * nothing but blanks stands between the two.
   */
  predicate Trims(source: Source, comments: seq<Comment>, swallow: seq<Option<ByteSpan>>, i: nat)
    requires i < |comments| && comments[i].span.start <= comments[i].span.end <= |source|
  {
    && Removes(comments[i]) && SwallowAt(swallow, i).None? && EndsItsLine(source, comments[i])
    && var j := NearestChanged(comments, i);
    && j.Some? && comments[j.value].what.disposition.Rewrite?
    && forall k: nat | comments[j.value].span.end - 1 <= k < comments[i].span.start :: IsBlankByte(source, k)
  }

  ghost predicate TrimsWithin(source: Source, comments: seq<Comment>, swallow: seq<Option<ByteSpan>>, n: nat)
    requires InOrder(comments, |source|) && n <= |comments|
  {
    exists i: nat :: i < n && Trims(source, comments, swallow, i)
  }

  /** Where the planner stands in front of comment `i`. */
  ghost predicate Tracked(source: Source, comments: seq<Comment>, i: nat, list: seq<Edit>, scan: nat, lineStart: nat,
                          floor: nat)
  {
    && i <= |comments|
    && lineStart <= scan <= StartOf(comments, i, |source|)
    && floor <= StartOf(comments, i, |source|)
    && (lineStart <= floor || !IsBlankByte(source, lineStart - 1))
    && match NearestChanged(comments, i)
       case None => list == []
       case Some(j) =>
         && list != []
         && if comments[j].what.disposition.Rewrite?
            then LastEnd(list) == comments[j].span.end && floor <= comments[j].span.start
            else LastEnd(list) == floor
  }

  lemma {:induction false} Overlap(list: seq<Edit>, e: Edit, n: nat)
    requires list != [] && e.span.start < LastEnd(list)
    ensures !Ordered(list + [e], 0, n)
  {
    var all := list + [e];
    assert all[|list| - 1] == list[|list| - 1] && all[|list|] == e;
    if Ordered(all, 0, n) { OrderedBounds(all, 0, n); }
  }

  lemma {:induction false} StaysUnordered(list: seq<Edit>, e: Edit, n: nat)
    requires !Ordered(list, 0, n)
    ensures !Ordered(list + [e], 0, n)
  {
    var all := list + [e];
    assert all[|all| - 1] == e && all[..|all| - 1] == list;
    if Ordered(all, 0, n) {
      OrderedBounds(all, 0, n);
      OrderedPrefix(all, 0, n, n);
    }
  }

  /** A removal reaches back into the rewritten comment in front of it exactly when it trims it. */
  lemma {:induction false} ReachesBack(source: Source, comments: seq<Comment>, swallow: seq<Option<ByteSpan>>, i: nat,
                                       list: seq<Edit>, scan: nat, lineStart: nat, floor: nat)
    requires InOrder(comments, |source|) && i < |comments|
    requires Removes(comments[i]) && SwallowAt(swallow, i).None?
    requires Tracked(source, comments, i, list, scan, lineStart, floor)
    ensures list != [] && RemovalStart(source, comments[i], Max(floor, lineStart)) < LastEnd(list)
       <==> Trims(source, comments, swallow, i)
  {
    var c := comments[i];
    var s := RemovalStart(source, c, Max(floor, lineStart));
    var j := NearestChanged(comments, i);
    if j.Some? && comments[j.value].what.disposition.Rewrite? {
      var d := comments[j.value];
      assert d.span.end <= c.span.start;
    }
  }

  // ---- the plan ----

  /** The edit for a removed comment whose line is not swallowed, its line beginning at `start`. */
  ghost function RemovalOf(source: Source, comments: seq<Comment>, i: nat, start: nat, floor: nat): Edit
    requires InOrder(comments, |source|) && i < |comments|
    requires start <= comments[i].span.start && floor <= comments[i].span.start
  {
    var c := comments[i];
    Edit(ByteSpan(RemovalStart(source, c, Max(floor, start)),
                  RemovalEnd(source, c, start, StartOf(comments, i + 1, |source|))),
         RemovalRest(source, c, start))
  }

  /**
   * What is planned: the edits, for every removal whether it may be widened, how far the source has been
   * read for lines, where the current line begins, and where the last removal ends.
   */
  datatype Plan = Plan(list: seq<Edit>, collapsible: seq<bool>, scan: nat, lineStart: nat, floor: nat)

  /** The edit for a removed comment: a swallowed line as it is named, as far as it is not taken yet. */
  ghost function RemovalEdit(source: Source, comments: seq<Comment>, swallow: seq<Option<ByteSpan>>, i: nat,
                             p: Plan): Edit
    requires InOrder(comments, |source|) && i < |comments|
    requires p.lineStart <= p.scan <= comments[i].span.start && p.floor <= comments[i].span.start
  {
    match SwallowAt(swallow, i)
    case Some(line) => Edit(ByteSpan(Max(line.start, p.floor), Max(line.end, p.floor)), [])
    case None =>
      RemovalOf(source, comments, i, LineStartFrom(source, p.scan, p.lineStart, comments[i].span.start), p.floor)
  }

  /** One removal more: behind a swallowed line the current line begins. */
  ghost function PlanRemoval(source: Source, comments: seq<Comment>, swallow: seq<Option<ByteSpan>>, i: nat,
                             p: Plan): Plan
    requires InOrder(comments, |source|) && i < |comments|
    requires p.lineStart <= p.scan <= comments[i].span.start && p.floor <= comments[i].span.start
  {
    var e, at := RemovalEdit(source, comments, swallow, i, p), comments[i].span.start;
    if SwallowAt(swallow, i).Some? then
      Plan(p.list + [e], p.collapsible + [false], e.span.end, e.span.end, e.span.end)
    else
      Plan(p.list + [e], p.collapsible + [true], at, LineStartFrom(source, p.scan, p.lineStart, at), e.span.end)
  }

  lemma {:induction false} RemovalStops(source: Source, comments: seq<Comment>, swallow: seq<Option<ByteSpan>>, i: nat,
                                        p: Plan)
    requires InOrder(comments, |source|) && SwallowFits(comments, swallow, |source|) && i < |comments|
    requires p.lineStart <= p.scan <= comments[i].span.start && p.floor <= comments[i].span.start
    ensures comments[i].span.end <= StartOf(comments, i + 1, |source|)
    ensures var next := PlanRemoval(source, comments, swallow, i, p);
            next.lineStart <= next.scan <= StartOf(comments, i + 1, |source|)
              && next.floor <= StartOf(comments, i + 1, |source|)
  {
    assert FitsAt(comments, swallow, |source|, i);
    if i + 1 < |comments| { assert comments[i].span.end <= comments[i + 1].span.start; }
  }

  /** The plan for the first `n` comments: one edit for each that is not kept, in their order. */
  ghost function PlanAt(source: Source, comments: seq<Comment>, swallow: seq<Option<ByteSpan>>, n: nat): (p: Plan)
    requires InOrder(comments, |source|) && SwallowFits(comments, swallow, |source|) && n <= |comments|
    ensures p.lineStart <= p.scan <= StartOf(comments, n, |source|) && p.floor <= StartOf(comments, n, |source|)
  {
    if n == 0 then Plan([], [], 0, 0, 0)
    else
      var p, c := PlanAt(source, comments, swallow, n - 1), comments[n - 1];
      RemovalStops(source, comments, swallow, n - 1, p);
      match c.what.disposition
      case Keep => p
      case Rewrite(replacement) => p.(list := p.list + [Edit(c.span, replacement)])
      case Remove => PlanRemoval(source, comments, swallow, n - 1, p)
  }

  /** What `compact` plans for a comment that is not kept, before blank lines are taken back. */
  ghost function EditAt(source: Source, comments: seq<Comment>, swallow: seq<Option<ByteSpan>>, i: nat): Edit
    requires InOrder(comments, |source|) && SwallowFits(comments, swallow, |source|) && i < |comments|
  {
    var c := comments[i];
    if c.what.disposition.Rewrite? then Edit(c.span, c.what.disposition.replacement)
    else RemovalEdit(source, comments, swallow, i, PlanAt(source, comments, swallow, i))
  }

  /** Every edit of the plan is the edit of a comment. */
  lemma {:induction false} PlanOnly(source: Source, comments: seq<Comment>, swallow: seq<Option<ByteSpan>>, n: nat,
                                    e: Edit)
    returns (i: nat)
    requires InOrder(comments, |source|) && SwallowFits(comments, swallow, |source|) && n <= |comments|
    requires e in PlanAt(source, comments, swallow, n).list
    ensures i < n && comments[i].what.disposition != Keep && e == EditAt(source, comments, swallow, i)
  {
    if e in PlanAt(source, comments, swallow, n - 1).list {
      i := PlanOnly(source, comments, swallow, n - 1, e);
    } else {
      i := n - 1;
    }
  }

  /** Every comment that is not kept has its edit in the plan. */
  lemma {:induction false} PlanHas(source: Source, comments: seq<Comment>, swallow: seq<Option<ByteSpan>>, n: nat,
                                   i: nat)
    requires InOrder(comments, |source|) && SwallowFits(comments, swallow, |source|) && i < n <= |comments|
    requires comments[i].what.disposition != Keep
    ensures EditAt(source, comments, swallow, i) in PlanAt(source, comments, swallow, n).list
  {
    if i < n - 1 { PlanHas(source, comments, swallow, n - 1, i); }
  }

  // ---- the plan is sorted, unless it trims ----

  /** The plan for the comments in front of comment `i`. */
  ghost predicate PlanHolds(source: Source, comments: seq<Comment>, swallow: seq<Option<ByteSpan>>, i: nat, p: Plan)
    requires InOrder(comments, |source|)
  {
    && Tracked(source, comments, i, p.list, p.scan, p.lineStart, p.floor)
    && (if TrimsWithin(source, comments, swallow, i) then !Ordered(p.list, 0, |source|)
        else Planned(source, comments, i, p.list, p.floor))
    && forall e <- p.list :: e.span.start <= e.span.end
  }

  lemma {:induction false} TrimsNext(source: Source, comments: seq<Comment>, swallow: seq<Option<ByteSpan>>, i: nat)
    requires InOrder(comments, |source|) && i < |comments|
    ensures TrimsWithin(source, comments, swallow, i + 1)
       <==> TrimsWithin(source, comments, swallow, i) || Trims(source, comments, swallow, i)
  {
  }

  lemma {:induction false} StepKeep(source: Source, comments: seq<Comment>, swallow: seq<Option<ByteSpan>>, i: nat,
                                    p: Plan)
    requires InOrder(comments, |source|) && i < |comments| && PlanHolds(source, comments, swallow, i, p)
    requires comments[i].what.disposition == Keep
    ensures PlanHolds(source, comments, swallow, i + 1, p)
  {
    TrimsNext(source, comments, swallow, i);
    if !TrimsWithin(source, comments, swallow, i) { PlanKeep(source, comments, i, p.list, p.floor); }
  }

  lemma {:induction false} StepRewrite(source: Source, comments: seq<Comment>, swallow: seq<Option<ByteSpan>>, i: nat,
                                       p: Plan)
    requires InOrder(comments, |source|) && i < |comments| && PlanHolds(source, comments, swallow, i, p)
    requires comments[i].what.disposition.Rewrite?
    ensures PlanHolds(source, comments, swallow, i + 1,
                      p.(list := p.list + [Edit(comments[i].span, comments[i].what.disposition.replacement)]))
  {
    var e := Edit(comments[i].span, comments[i].what.disposition.replacement);
    TrimsNext(source, comments, swallow, i);
    if TrimsWithin(source, comments, swallow, i) {
      StaysUnordered(p.list, e, |source|);
    } else {
      PlanRewrite(source, comments, i, p.list, p.floor);
    }
  }

  /** How a removal must lie for the plan to go on. */
  ghost predicate Fits(source: Source, comments: seq<Comment>, i: nat, list: seq<Edit>, e: Edit)
    requires i < |comments|
  {
    && LastEnd(list) <= e.span.start <= comments[i].span.start
    && comments[i].span.end <= e.span.end <= StartOf(comments, i + 1, |source|)
  }

  lemma {:induction false} TrackedNext(source: Source, comments: seq<Comment>, i: nat, list: seq<Edit>, e: Edit,
                                       scan: nat, lineStart: nat)
    requires InOrder(comments, |source|) && i < |comments| && Removes(comments[i])
    requires lineStart <= scan <= StartOf(comments, i + 1, |source|)
    requires e.span.end <= StartOf(comments, i + 1, |source|)
    requires lineStart <= e.span.end || !IsBlankByte(source, lineStart - 1)
    ensures Tracked(source, comments, i + 1, list + [e], scan, lineStart, e.span.end)
  {
  }

  lemma {:induction false} RemoveOrdered(source: Source, comments: seq<Comment>, swallow: seq<Option<ByteSpan>>, i: nat,
                                         list: seq<Edit>, e: Edit, floor: nat)
    requires InOrder(comments, |source|) && i < |comments| && Removes(comments[i])
    requires if TrimsWithin(source, comments, swallow, i) then !Ordered(list, 0, |source|)
             else Planned(source, comments, i, list, floor)
    requires !TrimsWithin(source, comments, swallow, i) && !Trims(source, comments, swallow, i) ==>
               Fits(source, comments, i, list, e)
    requires Trims(source, comments, swallow, i) ==> list != [] && e.span.start < LastEnd(list)
    ensures if TrimsWithin(source, comments, swallow, i + 1) then !Ordered(list + [e], 0, |source|)
            else Planned(source, comments, i + 1, list + [e], e.span.end)
  {
    TrimsNext(source, comments, swallow, i);
    if TrimsWithin(source, comments, swallow, i) {
      StaysUnordered(list, e, |source|);
    } else if Trims(source, comments, swallow, i) {
      Overlap(list, e, |source|);
    } else {
      PlanRemove(source, comments, i, list, floor, e);
    }
  }

  lemma {:induction false} StepSwallow(source: Source, comments: seq<Comment>, swallow: seq<Option<ByteSpan>>, i: nat,
                                       p: Plan)
    requires InOrder(comments, |source|) && SwallowFits(comments, swallow, |source|) && i < |comments|
    requires PlanHolds(source, comments, swallow, i, p)
    requires p.lineStart <= p.scan <= comments[i].span.start && p.floor <= comments[i].span.start
    requires Removes(comments[i]) && SwallowAt(swallow, i).Some?
    ensures PlanHolds(source, comments, swallow, i + 1, PlanRemoval(source, comments, swallow, i, p))
  {
    var e := RemovalEdit(source, comments, swallow, i, p);
    assert FitsAt(comments, swallow, |source|, i);
    if !TrimsWithin(source, comments, swallow, i) {
      SwallowedEdit(source, comments, swallow, i, p.list, p.floor);
    }
    RemoveOrdered(source, comments, swallow, i, p.list, e, p.floor);
    TrackedNext(source, comments, i, p.list, e, e.span.end, e.span.end);
  }

  lemma {:induction false} RemovalBounds(source: Source, comments: seq<Comment>, i: nat, start: nat, floor: nat)
    requires InOrder(comments, |source|) && i < |comments|
    requires start <= comments[i].span.start && floor <= comments[i].span.start
    ensures RemovalStart(source, comments[i], Max(floor, start)) <= comments[i].span.start
    ensures comments[i].span.end <= RemovalEnd(source, comments[i], start, StartOf(comments, i + 1, |source|))
            <= StartOf(comments, i + 1, |source|)
  {
  }

  lemma {:induction false} StepRemove(source: Source, comments: seq<Comment>, swallow: seq<Option<ByteSpan>>, i: nat,
                                      p: Plan)
    requires InOrder(comments, |source|) && i < |comments| && PlanHolds(source, comments, swallow, i, p)
    requires p.lineStart <= p.scan <= comments[i].span.start && p.floor <= comments[i].span.start
    requires Removes(comments[i]) && SwallowAt(swallow, i).None?
    ensures PlanHolds(source, comments, swallow, i + 1, PlanRemoval(source, comments, swallow, i, p))
  {
    hide Planned, Ordered, TrimsWithin, Trims;
    var at := comments[i].span.start;
    var start := LineStartFrom(source, p.scan, p.lineStart, at);
    var e := RemovalOf(source, comments, i, start, p.floor);
    LineStartsBehindNoBlank(source, p.scan, p.lineStart, at);
    TrackedOn(source, comments, i, p, start);
    ReachesBack(source, comments, swallow, i, p.list, at, start, p.floor);
    RemovalBounds(source, comments, i, start, p.floor);
    FitsUnlessTrimmed(source, comments, swallow, i, p.list, e, p.floor, at, start);
    RemoveOrdered(source, comments, swallow, i, p.list, e, p.floor);
    TrackedNext(source, comments, i, p.list, e, at, start);
  }

  lemma {:induction false} TrackedOn(source: Source, comments: seq<Comment>, i: nat, p: Plan, start: nat)
    requires InOrder(comments, |source|) && i < |comments|
    requires Tracked(source, comments, i, p.list, p.scan, p.lineStart, p.floor)
    requires p.lineStart <= start <= comments[i].span.start
    requires start == p.lineStart || !IsBlankByte(source, start - 1)
    ensures Tracked(source, comments, i, p.list, comments[i].span.start, start, p.floor)
  {
  }

  lemma {:induction false} FitsUnlessTrimmed(source: Source, comments: seq<Comment>, swallow: seq<Option<ByteSpan>>,
                                             i: nat, list: seq<Edit>, e: Edit, floor: nat, at: nat, start: nat)
    requires InOrder(comments, |source|) && i < |comments|
    requires Tracked(source, comments, i, list, at, start, floor)
    requires e.span.start <= comments[i].span.start
    requires comments[i].span.end <= e.span.end <= StartOf(comments, i + 1, |source|)
    requires list != [] && e.span.start < LastEnd(list) <==> Trims(source, comments, swallow, i)
    ensures !Trims(source, comments, swallow, i) ==> Fits(source, comments, i, list, e)
  {
  }

  lemma {:induction false} PlanAtHolds(source: Source, comments: seq<Comment>, swallow: seq<Option<ByteSpan>>, n: nat)
    requires InOrder(comments, |source|) && SwallowFits(comments, swallow, |source|) && n <= |comments|
    ensures PlanHolds(source, comments, swallow, n, PlanAt(source, comments, swallow, n))
  {
    if n > 0 {
      hide PlanHolds;
      var i, p := n - 1, PlanAt(source, comments, swallow, n - 1);
      PlanAtHolds(source, comments, swallow, i);
      match comments[i].what.disposition {
      case Keep => StepKeep(source, comments, swallow, i, p);
      case Rewrite(_) => StepRewrite(source, comments, swallow, i, p);
      case Remove =>
        if SwallowAt(swallow, i).Some? {
          StepSwallow(source, comments, swallow, i, p);
        } else {
          StepRemove(source, comments, swallow, i, p);
        }
      }
    }
  }

  lemma {:induction false} RemovalsNeverTrim(source: Source, comments: seq<Comment>, swallow: seq<Option<ByteSpan>>)
    requires InOrder(comments, |source|) && NoRewrites(comments)
    ensures !TrimsWithin(source, comments, swallow, |comments|)
  {
    forall i: nat | i < |comments|
      ensures !Trims(source, comments, swallow, i)
    {
      var j := NearestChanged(comments, i);
      if j.Some? { assert comments[j.value] in comments; }
    }
  }

  /** Widening never puts edits in order that were not. */
  lemma {:induction false} CollapsedStaysUnordered(source: Source, edits: seq<Edit>, collapsible: seq<bool>)
    requires forall e <- edits :: e.span.start <= e.span.end
    requires Ordered(Collapsed(source, edits, collapsible), 0, |source|)
    ensures Ordered(edits, 0, |source|)
  {
    var wide := Collapsed(source, edits, collapsible);
    OrderedBounds(wide, 0, |source|);
    forall i | 0 <= i < |edits|
      ensures edits[i].span.start <= edits[i].span.end <= |source|
    {
      assert edits[i] in edits && wide[i].span.end >= edits[i].span.end;
    }
    forall i, j | 0 <= i < j < |edits|
      ensures edits[i].span.end <= edits[j].span.start
    {
      assert wide[i].span.end >= edits[i].span.end && wide[j].span.start == edits[j].span.start;
    }
    OrderedFromPairs(edits, 0, |source|);
  }

  /** What `compact` comes to: the plan, every removal in it widened over the blank lines it made one too many. */
  ghost function CompactPlan(source: Source, comments: seq<Comment>, swallow: seq<Option<ByteSpan>>): seq<Edit>
    requires InOrder(comments, |source|) && SwallowFits(comments, swallow, |source|)
  {
    var p := PlanAt(source, comments, swallow, |comments|);
    Collapsed(source, p.list, p.collapsible)
  }

  lemma {:induction false} OrderedUnlessTrimmed(source: Source, comments: seq<Comment>, swallow: seq<Option<ByteSpan>>)
    requires InOrder(comments, |source|) && SwallowFits(comments, swallow, |source|)
    ensures Ordered(CompactPlan(source, comments, swallow), 0, |source|)
       <==> !TrimsWithin(source, comments, swallow, |comments|)
  {
    var p := PlanAt(source, comments, swallow, |comments|);
    PlanAtHolds(source, comments, swallow, |comments|);
    if TrimsWithin(source, comments, swallow, |comments|) {
      if Ordered(CompactPlan(source, comments, swallow), 0, |source|) {
        CollapsedStaysUnordered(source, p.list, p.collapsible);
      }
    } else {
      CollapsedIsOrdered(source, p.list, p.collapsible);
    }
  }

  /** Without rewrites the plan is sorted, and takes every removed comment. */
  lemma {:induction false} RemovalsAreOrdered(source: Source, comments: seq<Comment>, swallow: seq<Option<ByteSpan>>)
    requires InOrder(comments, |source|) && SwallowFits(comments, swallow, |source|) && NoRewrites(comments)
    ensures var list := PlanAt(source, comments, swallow, |comments|).list;
            Ordered(list, 0, |source|) && Taken(RemovedSpans(comments), list)
    ensures var edits := CompactPlan(source, comments, swallow);
            Ordered(edits, 0, |source|) && Taken(RemovedSpans(comments), edits)
  {
    var p := PlanAt(source, comments, swallow, |comments|);
    PlanAtHolds(source, comments, swallow, |comments|);
    RemovalsNeverTrim(source, comments, swallow);
    TakenAll(comments, p.list);
    CollapsedIsOrdered(source, p.list, p.collapsible);
    WidenedTakes(source, RemovedSpans(comments), p.list, p.collapsible);
  }

  // ---- the line the planner is on ----

  ghost predicate TracksLine(source: Source, comments: seq<Comment>, n: nat, p: Plan) {
    n < |comments| ==> BeginsLineOf(source, p.lineStart, p.scan) && WholeTerminators(source, p.scan)
  }

  /** The planner knows where the line begins that it is on. */
  lemma {:induction false} PlanTracksLine(source: Source, comments: seq<Comment>, swallow: seq<Option<ByteSpan>>,
                                          n: nat)
    requires InOrder(comments, |source|) && SwallowFits(comments, swallow, |source|)
    requires CutsNone(source, comments) && SwallowsWholeLines(source, comments, swallow) && n <= |comments|
    ensures TracksLine(source, comments, n, PlanAt(source, comments, swallow, n))
  {
    if n > 0 {
      var i, p := n - 1, PlanAt(source, comments, swallow, n - 1);
      PlanTracksLine(source, comments, swallow, i);
      if Removes(comments[i]) { RemovalTracksLine(source, comments, swallow, i, p); }
    }
  }

  lemma {:induction false} RemovalTracksLine(source: Source, comments: seq<Comment>, swallow: seq<Option<ByteSpan>>,
                                             i: nat, p: Plan)
    requires InOrder(comments, |source|) && SwallowFits(comments, swallow, |source|)
    requires CutsNone(source, comments) && SwallowsWholeLines(source, comments, swallow)
    requires i < |comments| && Removes(comments[i])
    requires p.lineStart <= p.scan <= comments[i].span.start && p.floor <= comments[i].span.start
    requires TracksLine(source, comments, i, p)
    ensures TracksLine(source, comments, i + 1, PlanRemoval(source, comments, swallow, i, p))
  {
    assert comments[i] in comments && FitsAt(comments, swallow, |source|, i)
           && WholeLineAt(source, comments, swallow, i);
    if SwallowAt(swallow, i).None? { ScanFindsLine(source, p.scan, p.lineStart, comments[i].span.start); }
    if i + 1 < |comments| { assert comments[i].span.end <= comments[i + 1].span.start < |source|; }
  }

  // ---- where the planner stands on clean ground ----

  /** The planner knows the line it is on, and cuts nothing where it stands. */
  ghost predicate KnowsLine(source: Source, comments: seq<Comment>, n: nat, p: Plan) {
    && CleanCut(source, p.floor)
    && (n < |comments| ==> BeginsLineOf(source, p.lineStart, p.scan) && WholeTerminators(source, p.scan))
  }

  /** Every removal takes nothing visible but its comment, and leaves a gap where only it can. */
  lemma {:induction false} EditIsTight(source: Source, comments: seq<Comment>, swallow: seq<Option<ByteSpan>>, i: nat,
                                       p: Plan)
    requires InOrder(comments, |source|) && SwallowFits(comments, swallow, |source|)
    requires Cuttable(source, comments) && SwallowsWholeLines(source, comments, swallow)
    requires i < |comments| && Removes(comments[i])
    requires p.lineStart <= p.scan <= comments[i].span.start && p.floor <= comments[i].span.start
    requires KnowsLine(source, comments, i, p)
    ensures var e := RemovalEdit(source, comments, swallow, i, p);
            Discreet(source, RemovedSpans(comments), e) && Tight(source, comments, Spaceless(source, comments), e)
  {
    assert comments[i] in comments && FitsAt(comments, swallow, |source|, i)
           && WholeLineAt(source, comments, swallow, i);
    if SwallowAt(swallow, i).Some? {
      SwallowedFrom(source, comments, Spaceless(source, comments), swallow, i,
                    Max(SwallowAt(swallow, i).value.start, p.floor));
    } else {
      var at := comments[i].span.start;
      ScanFindsLine(source, p.scan, p.lineStart, at);
      CompactEditIsTight(source, comments, i, LineStartFrom(source, p.scan, p.lineStart, at), p.floor);
    }
  }

  lemma {:induction false} PlanKnowsLine(source: Source, comments: seq<Comment>, swallow: seq<Option<ByteSpan>>, n: nat)
    requires InOrder(comments, |source|) && SwallowFits(comments, swallow, |source|)
    requires Cuttable(source, comments) && SwallowsWholeLines(source, comments, swallow) && n <= |comments|
    ensures KnowsLine(source, comments, n, PlanAt(source, comments, swallow, n))
  {
    if n > 0 {
      var i, p := n - 1, PlanAt(source, comments, swallow, n - 1);
      PlanKnowsLine(source, comments, swallow, i);
      assert comments[i] in comments;
      if Removes(comments[i]) { RemovalKnowsLine(source, comments, swallow, i, p); }
    }
  }

  lemma {:induction false} RemovalKnowsLine(source: Source, comments: seq<Comment>, swallow: seq<Option<ByteSpan>>,
                                            i: nat, p: Plan)
    requires InOrder(comments, |source|) && SwallowFits(comments, swallow, |source|)
    requires Cuttable(source, comments) && SwallowsWholeLines(source, comments, swallow)
    requires i < |comments| && Removes(comments[i])
    requires p.lineStart <= p.scan <= comments[i].span.start && p.floor <= comments[i].span.start
    requires KnowsLine(source, comments, i, p)
    ensures KnowsLine(source, comments, i + 1, PlanRemoval(source, comments, swallow, i, p))
  {
    EditIsTight(source, comments, swallow, i, p);
    assert comments[i] in comments && FitsAt(comments, swallow, |source|, i)
           && WholeLineAt(source, comments, swallow, i);
    if SwallowAt(swallow, i).None? { ScanFindsLine(source, p.scan, p.lineStart, comments[i].span.start); }
    if i + 1 < |comments| { assert comments[i].span.end <= comments[i + 1].span.start < |source|; }
  }

  lemma {:induction false} PlanIsTight(source: Source, comments: seq<Comment>, swallow: seq<Option<ByteSpan>>)
    requires InOrder(comments, |source|) && SwallowFits(comments, swallow, |source|)
    requires Cuttable(source, comments) && SwallowsWholeLines(source, comments, swallow)
    ensures var list := PlanAt(source, comments, swallow, |comments|).list;
            AllDiscreet(source, RemovedSpans(comments), list)
              && AllTight(source, comments, Spaceless(source, comments), list)
  {
    forall e | e in PlanAt(source, comments, swallow, |comments|).list
      ensures Discreet(source, RemovedSpans(comments), e) && Tight(source, comments, Spaceless(source, comments), e)
    {
      var i := PlanOnly(source, comments, swallow, |comments|, e);
      assert comments[i] in comments;
      PlanKnowsLine(source, comments, swallow, i);
      EditIsTight(source, comments, swallow, i, PlanAt(source, comments, swallow, i));
    }
  }

  // ---- the outline ----

  /** A comment of a run that fuses is interior: it leaves nothing, and its edit is not widened. */
  lemma {:induction false} MemberLeavesNothing(source: Source, comments: seq<Comment>, swallow: seq<Option<ByteSpan>>,
                                               i: nat, j: nat, m: nat)
    requires InOrder(comments, |source|) && SwallowFits(comments, swallow, |source|)
    requires Cuttable(source, comments) && SwallowsWholeLines(source, comments, swallow)
    requires Fuses(source, comments, Spaceless(source, comments), i, j) && i <= m <= j
    ensures EditAt(source, comments, swallow, m) == Edit(comments[m].span, [])
    ensures SymAt(source, comments[m].span.end - 1) != Break
  {
    hide PlanAt, SwallowFits;
    var c, p := comments[m], PlanAt(source, comments, swallow, m);
    assert c in comments;
    RunIsNotSwallowed(source, comments, Spaceless(source, comments), swallow, i, j, m);
    RunUnbroken(source, comments, i, j, m);
    UnbrokenLeavesNothing(source, c.span);
    var start := LineStartFrom(source, p.scan, p.lineStart, c.span.start);
    InteriorIsLines(source, comments, m, start, Max(p.floor, start), comments[j].span.end);
  }

  lemma {:induction false} RunUnbroken(source: Source, comments: seq<Comment>, i: nat, j: nat, m: nat)
    requires InOrder(comments, |source|) && Fuses(source, comments, Spaceless(source, comments), i, j) && i <= m <= j
    ensures comments[m].span.end <= comments[j].span.end < |source|
    ensures Unbroken(source, comments[m].span.end, comments[j].span.end)
  {
    assert comments[i].span.start <= comments[m].span.start < comments[m].span.end;
    forall x | comments[m].span.end <= x < comments[j].span.end
      ensures SymAt(source, x) != Break
    {
      var q := RunHolds(source, comments, Spaceless(source, comments), i, j, j, x);
      assert Unbroken(source, comments[q].span.start, comments[q].span.end);
    }
  }

  lemma {:induction false} RunGoesEmpty(source: Source, comments: seq<Comment>, swallow: seq<Option<ByteSpan>>, i: nat,
                                        j: nat)
    requires InOrder(comments, |source|) && SwallowFits(comments, swallow, |source|)
    requires Cuttable(source, comments) && SwallowsWholeLines(source, comments, swallow)
    requires Fuses(source, comments, Spaceless(source, comments), i, j)
    ensures LeavesNothing(comments, CompactPlan(source, comments, swallow), i, j)
  {
    var p, wide := PlanAt(source, comments, swallow, |comments|), CompactPlan(source, comments, swallow);
    forall m | i <= m <= j
      ensures Edit(comments[m].span, []) in wide
    {
      MemberLeavesNothing(source, comments, swallow, i, j, m);
      PlanHas(source, comments, swallow, |comments|, m);
      var e := Edit(comments[m].span, []);
      var k :| 0 <= k < |p.list| && p.list[k] == e;
      MidLineStays(source, p.list, p.collapsible, k);
      assert wide[k] == e;
    }
  }

  /** An edit that ends in the middle of a line is not widened. */
  lemma {:induction false} MidLineStays(source: Source, edits: seq<Edit>, collapsible: seq<bool>, k: nat)
    requires k < |edits| && 0 < edits[k].span.end <= |source| && SymAt(source, edits[k].span.end - 1) != Break
    ensures Widened(source, edits, collapsible, k) == edits[k]
  {
    LineStartsTable(source);
    BlankEndsNoLine(source, edits[k].span.end);
  }

  lemma {:induction false} BlankEndsNoLine(source: Source, x: nat)
    requires 0 < x <= |source| && SymAt(source, x - 1) != Break
    ensures !LineBoundary(source, x)
  {
  }

  /**
   * For comments that are kept, or removed and no HTML comments, and cut no terminator, `compact` keeps the
   * outline if and only if no run of comments fuses what it stands between.
   */
  lemma {:induction false} CompactKeepsOutline(source: Source, comments: seq<Comment>, swallow: seq<Option<ByteSpan>>)
    requires InOrder(comments, |source|) && SwallowFits(comments, swallow, |source|)
    requires Cuttable(source, comments) && SwallowsWholeLines(source, comments, swallow)
    ensures var edits := CompactPlan(source, comments, swallow);
            && Ordered(edits, 0, |source|)
            && (Outline(Apply(source, edits)) == RemainingOutline(source, comments) <==> NeverFuses(source, comments))
  {
    var p, edits := PlanAt(source, comments, swallow, |comments|), CompactPlan(source, comments, swallow);
    RemovalsAreOrdered(source, comments, swallow);
    PlanIsTight(source, comments, swallow);
    CollapsedIsTight(source, comments, Spaceless(source, comments), p.list, p.collapsible);
    if NeverFuses(source, comments) {
      TightEditsKeepOutline(source, comments, Spaceless(source, comments), edits);
    } else {
      var i: nat, j: nat :| Fuses(source, comments, Spaceless(source, comments), i, j);
      RunGoesEmpty(source, comments, swallow, i, j);
      FusedRunLosesOutline(source, comments, Spaceless(source, comments), edits, i, j);
    }
  }

  // ---- what is kept of the bytes ----

  lemma {:induction false} FirstTerminatorIsWhite(source: Source, i: nat, end: nat)
    requires end <= |source| && NoSeparators(source)
    ensures FirstTerminator(source, i, end).Some? ==> AllWhite(FirstTerminator(source, i, end).value)
    decreases end - i
  {
    if i < end {
      var w := TerminatorWidth(source, i);
      if w.Some? && i + w.value <= end {
        TerminatorIsWhite(source, i);
      } else {
        FirstTerminatorIsWhite(source, i + 1, end);
      }
    }
  }

  /** A removal takes nothing solid but its comment. */
  lemma {:induction false} RemovalTakesNoSolid(source: Source, comments: seq<Comment>, i: nat, start: nat, floor: nat)
    requires InOrder(comments, |source|) && NoSeparators(source) && i < |comments| && Removes(comments[i])
    requires start <= comments[i].span.start && floor <= comments[i].span.start
    ensures TakesNoSolid(source, RemovedSpans(comments), RemovalOf(source, comments, i, start, floor))
  {
    var c, spans, e := comments[i], RemovedSpans(comments), RemovalOf(source, comments, i, start, floor);
    RemovedSpansHold(comments);
    RemovalIsUpright(source, comments, i, start, Max(floor, start));
    FirstTerminatorIsWhite(source, c.span.start, c.span.end);
    LineReplacementIsWhite(source, c.span);
    forall k | e.span.start <= k < e.span.end
      ensures IsWhitespace(source[k]) || Covered(spans, k)
    {
      if c.span.start <= k < c.span.end {
        SpanIsCovered(spans, c.span, k);
      } else if k >= c.span.end {
        TailShowsNothing(source, c.span.end);
        assert SymAt(source, k) != Ink;
        NoInkIsWhite(source, k);
      } else {
        assert IsBlankByte(source, k);
      }
    }
  }

  lemma {:induction false} PlanTakesNoSolid(source: Source, comments: seq<Comment>, swallow: seq<Option<ByteSpan>>,
                                            e: Edit)
    requires InOrder(comments, |source|) && SwallowFits(comments, swallow, |source|)
    requires NoRewrites(comments) && SwallowsWholeLines(source, comments, swallow) && NoSeparators(source)
    requires e in PlanAt(source, comments, swallow, |comments|).list
    ensures TakesNoSolid(source, RemovedSpans(comments), e)
  {
    var i := PlanOnly(source, comments, swallow, |comments|, e);
    assert comments[i] in comments && FitsAt(comments, swallow, |source|, i);
    var p := PlanAt(source, comments, swallow, i);
    if SwallowAt(swallow, i).Some? {
      SwallowTakesNoSolid(source, comments, swallow, i, e.span.start);
    } else {
      RemovalTakesNoSolid(source, comments, i, LineStartFrom(source, p.scan, p.lineStart, comments[i].span.start),
                          p.floor);
    }
  }

  /** What the pass adds is white. */
  lemma {:induction false} WidenedTakesNoSolid(source: Source, spans: seq<ByteSpan>, edits: seq<Edit>,
                                               collapsible: seq<bool>, k: nat)
    requires Ordered(edits, 0, |source|) && NoSeparators(source) && k < |edits| && TakesNoSolid(source, spans, edits[k])
    ensures TakesNoSolid(source, spans, Widened(source, edits, collapsible, k))
  {
    ReachStops(source, edits, collapsible, k);
    forall i | edits[k].span.end <= i < Reach(source, edits, collapsible, k)
      ensures IsWhitespace(source[i])
    {
      AddedShowsNothing(source, edits, collapsible, k, i);
      NoInkIsWhite(source, i);
    }
  }

  /** Erasing white space from the output leaves what erasing it and the removed comments from the source leaves. */
  lemma {:induction false} CompactKeepsSolid(source: Source, comments: seq<Comment>, swallow: seq<Option<ByteSpan>>)
    requires InOrder(comments, |source|) && SwallowFits(comments, swallow, |source|)
    requires NoRewrites(comments) && SwallowsWholeLines(source, comments, swallow) && NoSeparators(source)
    ensures var edits := CompactPlan(source, comments, swallow);
            && Ordered(edits, 0, |source|)
            && Solid(Apply(source, edits)) == Solid(Blanked(source, RemovedSpans(comments)))
  {
    var p, wide := PlanAt(source, comments, swallow, |comments|), CompactPlan(source, comments, swallow);
    RemovalsAreOrdered(source, comments, swallow);
    forall e | e in wide
      ensures TakesNoSolid(source, RemovedSpans(comments), e)
    {
      var k :| 0 <= k < |wide| && wide[k] == e;
      PlanTakesNoSolid(source, comments, swallow, p.list[k]);
      WidenedTakesNoSolid(source, RemovedSpans(comments), p.list, p.collapsible, k);
    }
    SolidIsKept(source, RemovedSpans(comments), wide);
  }

  // ---- the pass over the comments ----

  /** The edit for one removed comment, whether it may be widened, and where the scan for lines stands then. */
  method CompactRemoval(source: Source, comments: seq<Comment>, index: nat, swallow: seq<Option<ByteSpan>>,
                        scan: nat, lineStart: nat, floor: nat, ghost p: Plan)
    returns (edit: Edit, collapsible: bool, at: nat, start: nat)
    requires InOrder(comments, |source|) && index < |comments|
    requires lineStart <= scan <= comments[index].span.start && floor <= comments[index].span.start
    requires p.scan == scan && p.lineStart == lineStart && p.floor == floor
    ensures PlanRemoval(source, comments, swallow, index, p)
         == Plan(p.list + [edit], p.collapsible + [collapsible], at, start, edit.span.end)
  {
    var comment := comments[index];
    var line := SwallowAt(swallow, index);
    collapsible := line.None?;
    if line.Some? {
      edit := Edit(ByteSpan(Max(line.value.start, floor), Max(line.value.end, floor)), []);
      at, start := edit.span.end, edit.span.end;
    } else {
      at := comment.span.start;
      start := ScanLine(source, scan, lineStart, at);
      if index + 1 < |comments| { assert comment.span.end <= comments[index + 1].span.start; }
      var ceiling := Max(StartOf(comments, index + 1, |source|), comment.span.end);
      edit := CompactEdit(source, comment, start, floor, ceiling);
    }
  }

  /** One edit per comment that is not kept, and for every removal whether it may be widened. */
  method PlanEdits(source: Source, comments: seq<Comment>, swallow: seq<Option<ByteSpan>>)
    returns (list: seq<Edit>, collapsible: seq<bool>)
    requires InOrder(comments, |source|) && SwallowFits(comments, swallow, |source|)
    ensures list == PlanAt(source, comments, swallow, |comments|).list
    ensures collapsible == PlanAt(source, comments, swallow, |comments|).collapsible
  {
    hide PlanRemoval;
    list, collapsible := [], [];
    var scan: nat, lineStart: nat, floor: nat := 0, 0, 0;
    var index := 0;
    while index < |comments|
      invariant 0 <= index <= |comments|
      invariant PlanAt(source, comments, swallow, index) == Plan(list, collapsible, scan, lineStart, floor)
    {
      var comment := comments[index];
      match comment.what.disposition {
      case Keep =>
      case Rewrite(replacement) =>
        list := list + [Edit(comment.span, replacement)];
      case Remove =>
        var edit, flag, at, start :=
          CompactRemoval(source, comments, index, swallow, scan, lineStart, floor,
                         PlanAt(source, comments, swallow, index));
        scan, lineStart, floor := at, start, edit.span.end;
        list, collapsible := list + [edit], collapsible + [flag];
      }
      index := index + 1;
    }
  }
}
