/**
 * Which bytes `compact` takes, said of the source and its comments alone; and what the end of a line is left with
 * that a removed comment stood on.
 */
module CompactTakes {
  import opened Bytes
  import opened Collapse
  import opened Commentwise
  import opened Compact
  import opened CompactLeavings
  import opened CompactPlans
  import opened Edits
  import opened Layouts
  import opened Leavings
  import opened LineNumbers
  import opened Outlines
  import opened Plans
  import opened Residues
  import opened Scanning
  import opened Seams

  // ---- what goes with a comment ----

  ghost predicate BlankRun(source: Source, a: nat, z: nat) {
    z <= |source| && forall k: nat | a <= k < z :: IsBlankByte(source, k)
  }

  /** From `from` on the line holds blanks up to `z`, and ends there with a terminator of width `w`, 0 at the end. */
  ghost predicate LineRunsOut(source: Source, from: nat, z: nat, w: nat) {
    && from <= z && BlankRun(source, from, z)
    && if w == 0 then z == |source| else TerminatorWidth(source, z) == Some(w)
  }

  ghost predicate TerminatorWithin(source: Source, s: ByteSpan, t: nat) {
    s.start <= t && TerminatorWidth(source, t).Some? && t + TerminatorWidth(source, t).value <= s.end
  }

  ghost predicate HoldsTerminator(source: Source, s: ByteSpan) {
    exists t: nat :: TerminatorWithin(source, s, t)
  }

  /** Nothing of a line is left behind the comment, or a line ends in it; an HTML comment closes up all the same. */
  ghost predicate EndsALine(source: Source, c: Comment) {
    || (exists z: nat, w: nat :: LineRunsOut(source, c.span.end, z, w))
    || (c.what.kind != HtmlComment && HoldsTerminator(source, c.span))
  }

  /** The line the comment ends on goes, or runs together with the one it begins on. */
  ghost predicate LineGoes(source: Source, c: Comment) {
    (c.what.kind != HtmlComment && HoldsTerminator(source, c.span)) || !CodeInFront(source, c)
  }

  /** A blank in front of comment `k`, with only blanks in between, that is behind every removal in front. */
  ghost predicate InFrontOf(source: Source, comments: seq<Comment>, k: nat, i: nat)
    requires k < |comments|
  {
    && EndsALine(source, comments[k])
    && i < comments[k].span.start && BlankRun(source, i, comments[k].span.start)
    && forall j | 0 <= j < k && Removes(comments[j]) :: comments[j].span.end <= i
  }

  /** A blank at the end of the line behind comment `k`, or its terminator if the line goes. */
  ghost predicate BehindAll(source: Source, comments: seq<Comment>, k: nat, i: nat)
    requires k < |comments|
  {
    && comments[k].span.end <= i < StartOf(comments, k + 1, |source|)
    && exists z: nat, w: nat :: LineRunsOut(source, comments[k].span.end, z, w)
                                && i < z + if LineGoes(source, comments[k]) then w else 0
  }

  /** Byte `i` goes with comment `k`. */
  ghost predicate GoesWith(source: Source, comments: seq<Comment>, swallow: seq<Option<ByteSpan>>, k: nat, i: nat) {
    && k < |comments| && comments[k].what.disposition != Keep
    && if Removes(comments[k]) && SwallowAt(swallow, k).Some? then SwallowsAt(comments, swallow, k, i)
       else
         || comments[k].span.start <= i < comments[k].span.end
         || (Removes(comments[k]) && (InFrontOf(source, comments, k, i) || BehindAll(source, comments, k, i)))
  }

  // ---- the functions of the planner say the same ----

  lemma {:induction false} TailIsRun(source: Source, from: nat, z: nat, w: nat)
    requires from <= |source|
    ensures LineRunsOut(source, from, z, w) <==> LineTail(source, from) == Some(Tail(z, w))
    decreases |source| - from
  {
    if from < |source| && TerminatorWidth(source, from).None? && IsWhitespace(source[from]) {
      TailIsRun(source, from + 1, z, w);
      assert LineRunsOut(source, from, z, w) <==> LineRunsOut(source, from + 1, z, w);
    } else {
      assert LineRunsOut(source, from, z, w) && z > from ==> IsBlankByte(source, from);
    }
  }

  lemma {:induction false} TailIsSome(source: Source, from: nat)
    requires from <= |source|
    ensures LineTail(source, from).Some? <==> exists z: nat, w: nat :: LineRunsOut(source, from, z, w)
  {
    if LineTail(source, from).Some? {
      TailIsRun(source, from, LineTail(source, from).value.blanks, LineTail(source, from).value.terminator);
    } else if z: nat, w: nat :| LineRunsOut(source, from, z, w) {
      TailIsRun(source, from, z, w);
    }
  }

  lemma {:induction false} FirstIsWithin(source: Source, s: ByteSpan)
    requires s.start <= s.end <= |source|
    ensures FirstTerminator(source, s.start, s.end).Some? <==> HoldsTerminator(source, s)
  {
    if FirstTerminator(source, s.start, s.end).Some? {
      var t := SomewhereWithin(source, s.start, s.end);
      assert TerminatorWithin(source, s, t);
    } else if t: nat :| TerminatorWithin(source, s, t) {
      SomeTerminator(source, s.start, t, s.end);
    }
  }

  lemma {:induction false} SomewhereWithin(source: Source, i: nat, end: nat) returns (t: nat)
    requires end <= |source| && FirstTerminator(source, i, end).Some?
    ensures i <= t && TerminatorWidth(source, t).Some? && t + TerminatorWidth(source, t).value <= end
    decreases end - i
  {
    var w := TerminatorWidth(source, i);
    if w.Some? && i + w.value <= end { t := i; } else { t := SomewhereWithin(source, i + 1, end); }
  }

  lemma {:induction false} EndsAsSaid(source: Source, c: Comment)
    requires c.span.start <= c.span.end <= |source|
    ensures EndsItsLine(source, c) <==> EndsALine(source, c)
  {
    TailIsSome(source, c.span.end);
    FirstIsWithin(source, c.span);
  }

  /** The last removal in front ended behind every removed comment in front. */
  lemma {:induction false} FloorIsBehind(source: Source, comments: seq<Comment>, swallow: seq<Option<ByteSpan>>, n: nat,
                                         j: nat)
    requires InOrder(comments, |source|) && SwallowFits(comments, swallow, |source|) && j < n <= |comments|
    requires Removes(comments[j])
    ensures comments[j].span.end <= PlanAt(source, comments, swallow, n).floor
  {
    var m := n - 1;
    if Removes(comments[m]) {
      EditTakesComment(source, comments, swallow, m);
    }
    if j < m { FloorIsBehind(source, comments, swallow, m, j); }
  }

  /** What an edit of the plan takes goes with its comment. */
  lemma {:induction false} TakenGoes(source: Source, comments: seq<Comment>, swallow: seq<Option<ByteSpan>>, k: nat,
                                     i: nat)
    requires InOrder(comments, |source|) && SwallowFits(comments, swallow, |source|)
    requires CutsNone(source, comments) && SwallowsWholeLines(source, comments, swallow)
    requires k < |comments| && comments[k].what.disposition != Keep
    requires var e := EditAt(source, comments, swallow, k); e.span.start <= i < e.span.end
    ensures GoesWith(source, comments, swallow, k, i)
  {
    hide PlanAt, CodeInFront;
    var c, p := comments[k], PlanAt(source, comments, swallow, k);
    if Removes(c) {
      assert FitsAt(comments, swallow, |source|, k);
      if SwallowAt(swallow, k).None? {
        EndsAsSaid(source, c);
        FirstIsWithin(source, c.span);
        PlannerSeesCode(source, comments, swallow, k);
        if i < c.span.start {
          forall j | 0 <= j < k && Removes(comments[j])
            ensures comments[j].span.end <= i
          {
            FloorIsBehind(source, comments, swallow, k, j);
          }
          assert BlankRun(source, i, c.span.start);
        } else if i >= c.span.end {
          var t := LineTail(source, c.span.end).value;
          TailIsRun(source, c.span.end, t.blanks, t.terminator);
        }
      }
    }
  }

  /** What goes with a comment is taken, by its edit or by that of a comment in front. */
  lemma {:induction false} GoingIsTaken(source: Source, comments: seq<Comment>, swallow: seq<Option<ByteSpan>>, k: nat,
                                        i: nat)
    returns (j: nat)
    requires InOrder(comments, |source|) && SwallowFits(comments, swallow, |source|)
    requires CutsNone(source, comments) && SwallowsWholeLines(source, comments, swallow)
    requires GoesWith(source, comments, swallow, k, i)
    ensures j <= k && comments[j].what.disposition != Keep
    ensures var e := EditAt(source, comments, swallow, j); e.span.start <= i < e.span.end
  {
    hide PlanAt, CodeInFront;
    j := k;
    EditTakesComment(source, comments, swallow, k);
    var c, p := comments[k], PlanAt(source, comments, swallow, k);
    if Removes(c) && !(c.span.start <= i < c.span.end) {
      assert FitsAt(comments, swallow, |source|, k);
      if i < p.floor && i < c.span.start {
        j := FrontIsTaken(source, comments, swallow, k, i);
      } else if SwallowAt(swallow, k).None? {
        EndsAsSaid(source, c);
        if i < c.span.start {
          FrontBlankIsTaken(source, comments, swallow, k, i);
        } else {
          FirstIsWithin(source, c.span);
          PlannerSeesCode(source, comments, swallow, k);
          var z: nat, w: nat :| LineRunsOut(source, c.span.end, z, w) && i < z + if LineGoes(source, c) then w else 0;
          TailIsRun(source, c.span.end, z, w);
        }
      }
    }
  }

  /** A byte in front of where the last removal ended, and behind its comment, was taken by it. */
  lemma {:induction false} FrontIsTaken(source: Source, comments: seq<Comment>, swallow: seq<Option<ByteSpan>>, k: nat,
                                        i: nat)
    returns (j: nat)
    requires InOrder(comments, |source|) && SwallowFits(comments, swallow, |source|) && k < |comments|
    requires i < PlanAt(source, comments, swallow, k).floor
    requires forall j | 0 <= j < k && Removes(comments[j]) :: comments[j].span.end <= i
    ensures j < k && Removes(comments[j])
    ensures var e := EditAt(source, comments, swallow, j); e.span.start <= i < e.span.end
    decreases k
  {
    if Removes(comments[k - 1]) {
      j := k - 1;
      EditTakesComment(source, comments, swallow, j);
    } else {
      j := FrontIsTaken(source, comments, swallow, k - 1, i);
    }
  }

  lemma {:induction false} FrontBlankIsTaken(source: Source, comments: seq<Comment>, swallow: seq<Option<ByteSpan>>,
                                             k: nat, i: nat)
    requires InOrder(comments, |source|) && SwallowFits(comments, swallow, |source|)
    requires k < |comments| && Removes(comments[k]) && SwallowAt(swallow, k).None?
    requires PlanAt(source, comments, swallow, k).floor <= i < comments[k].span.start
    requires EndsItsLine(source, comments[k]) && BlankRun(source, i, comments[k].span.start)
    ensures EditAt(source, comments, swallow, k).span.start <= i
  {
    var p, at := PlanAt(source, comments, swallow, k), comments[k].span.start;
    PlanAtHolds(source, comments, swallow, k);
    LineStartsBehindNoBlank(source, p.scan, p.lineStart, at);
    var start := LineStartFrom(source, p.scan, p.lineStart, at);
    BlankBefore(source, i, at, start);
    BlanksGoOn(source, i, at, Max(p.floor, start));
  }

  lemma {:induction false} BlankBefore(source: Source, i: nat, at: nat, x: nat)
    requires x <= at && BlankRun(source, i, at)
    ensures x <= i || IsBlankByte(source, x - 1)
  {
  }

  lemma {:induction false} BlanksGoOn(source: Source, i: nat, at: nat, floor: nat)
    requires i <= at && floor <= at <= |source| && BlankRun(source, i, at)
    ensures BlankStart(source, at, floor) <= Max(i, floor)
    decreases at
  {
    if at > i && at > floor {
      assert IsBlankByte(source, at - 1);
      BlanksGoOn(source, i, at - 1, floor);
    }
  }

  /** Before blank lines are taken back the plan takes just what goes with some comment. */
  lemma {:induction false} PlanTakes(source: Source, comments: seq<Comment>, swallow: seq<Option<ByteSpan>>, i: nat)
    requires InOrder(comments, |source|) && SwallowFits(comments, swallow, |source|)
    requires CutsNone(source, comments) && SwallowsWholeLines(source, comments, swallow)
    ensures Survives(PlanAt(source, comments, swallow, |comments|).list, i)
       <==> forall k: nat :: !GoesWith(source, comments, swallow, k, i)
  {
    hide PlanAt, GoesWith;
    var list := PlanAt(source, comments, swallow, |comments|).list;
    if k: nat :| GoesWith(source, comments, swallow, k, i) {
      GoingHasIndex(source, comments, swallow, k, i);
      var j := GoingIsTaken(source, comments, swallow, k, i);
      PlanHas(source, comments, swallow, |comments|, j);
    } else if !Survives(list, i) {
      var e :| e in list && e.span.start <= i < e.span.end;
      var k := PlanOnly(source, comments, swallow, |comments|, e);
      TakenGoes(source, comments, swallow, k, i);
    }
  }

  lemma {:induction false} GoingHasIndex(source: Source, comments: seq<Comment>, swallow: seq<Option<ByteSpan>>, k: nat,
                                         i: nat)
    requires GoesWith(source, comments, swallow, k, i)
    ensures k < |comments|
  {
  }

  // ---- what the end of a line is left with ----

  /** Byte `m` stands in front of comment `k` on its line, and `x` is a visible byte of it before a line ends in it. */
  ghost predicate OnLineOf(source: Source, comments: seq<Comment>, k: nat, m: nat, x: nat)
    requires k < |comments|
  {
    && m < comments[k].span.start <= x < comments[k].span.end <= |source|
    && SymAt(source, x) == Ink && Unbroken(source, m, x)
  }

  /** The line that comment `k` ends on ends at `z`, with only blanks in between. */
  ghost predicate EndsLineAt(source: Source, comments: seq<Comment>, k: nat, z: nat)
    requires k < |comments|
  {
    && comments[k].span.end <= z <= StartOf(comments, k + 1, |source|) && BlankRun(source, comments[k].span.end, z)
    && (z == |source| || TerminatorWidth(source, z).Some?)
  }

  /** A blank of the source, in no comment, that goes with comment `k` in front of it. */
  ghost predicate TrimmedFor(source: Source, comments: seq<Comment>, k: nat, i: nat)
    requires k < |comments|
  {
    HolderOf(comments, |comments|, i).None? && InFrontOf(source, comments, k, i)
  }

  /**
   * Of what `lines` leaves of the line in front of comment `k`, but for the blanks trimmed with it, byte `m` leaves
   * the last.
   */
  ghost predicate LeftLast(source: Source, comments: seq<Comment>, k: nat, m: nat)
    requires InOrder(comments, |source|) && k < |comments|
  {
    && m < comments[k].span.start && Left(source, comments, m) != [] && !TrimmedFor(source, comments, k, m)
    && forall y: nat | m < y < comments[k].span.start ::
         Left(source, comments, y) == [] || TrimmedFor(source, comments, k, y)
  }

  /** In front of a visible byte with no line break in between the line does not run out. */
  lemma {:induction false} LineGoesOn(source: Source, m: nat, x: nat, from: nat, z: nat, w: nat)
    requires m < x < |source| && Unbroken(source, m, x) && SymAt(source, x) == Ink && from <= x
    requires LineRunsOut(source, from, z, w)
    ensures z + w <= m
  {
    if w > 0 {
      TerminatorCells(source, z);
      assert SymAt(source, z + 0) == Break && SymAt(source, z + (w - 1)) == Break;
    }
    if from <= x < z { BlankByteIsBlank(source, x); }
  }

  /** A comment in front on the same line stands in the middle of it, and leaves what it leaves under `lines`. */
  lemma {:induction false} InTheMiddle(source: Source, comments: seq<Comment>, swallow: seq<Option<ByteSpan>>, k: nat,
                                       m: nat, x: nat, j: nat)
    requires InOrder(comments, |source|) && NoSwallow(comments, swallow)
    requires j < k < |comments| && comments[j].what.disposition != Keep && m < comments[j].span.end
    requires OnLineOf(source, comments, k, m, x) && LeftLast(source, comments, k, m)
    ensures Removes(comments[j]) ==> !EndsALine(source, comments[j])
    ensures forall y: nat | y < |source| ::
              CommentLeave(source, comments, swallow, j, y) == LeftOf(source, comments[j], y)
  {
    var c := comments[j];
    if Removes(c) {
      if z: nat, w: nat :| LineRunsOut(source, c.span.end, z, w) { LineGoesOn(source, m, x, c.span.end, z, w); }
      if c.what.kind != HtmlComment {
        if t: nat :| TerminatorWithin(source, c.span, t) { BrokenLeavesNone(source, comments, k, m, x, j, t); }
      }
      EndsAsSaid(source, c);
    }
  }

  lemma {:induction false} BrokenLeavesNone(source: Source, comments: seq<Comment>, k: nat, m: nat, x: nat, j: nat,
                                            t: nat)
    requires InOrder(comments, |source|) && j < k < |comments| && Removes(comments[j])
    requires comments[j].what.kind != HtmlComment && m < comments[j].span.end
    requires OnLineOf(source, comments, k, m, x) && TerminatorWithin(source, comments[j].span, t)
    ensures Left(source, comments, m) == []
  {
    TerminatorCells(source, t);
    assert SymAt(source, t + 0) == Break;
    assert comments[j].span.start <= t < m;
    HeldByOne(comments, |comments|, |source|, j, m);
  }

  /** The pass over blank lines takes nothing of a line that shows something. */
  lemma {:induction false} ShownLineIsLeft(source: Source, edits: seq<Edit>, collapsible: seq<bool>, m: nat, x: nat)
    requires m <= x < |source| && SymAt(source, x) == Ink && Unbroken(source, m, x)
    requires Survives(edits, m)
    ensures Survives(Collapsed(source, edits, collapsible), m)
  {
    var wide := Collapsed(source, edits, collapsible);
    forall e | e in wide
      ensures m < e.span.start || e.span.end <= m
    {
      var t :| 0 <= t < |wide| && wide[t] == e;
      assert edits[t] in edits;
      if edits[t].span.end <= m < Reach(source, edits, collapsible, t) {
        AddedShowsNothing(source, edits, collapsible, t, m);
        OnBlankLine(source, m, x);
      }
    }
  }

  lemma {:induction false} OnBlankLine(source: Source, m: nat, x: nat)
    requires m <= x < |source| && Unbroken(source, m, x) && SymAt(source, x) == Ink
    ensures !BlankLine(source, LineStarts(source), LineOf(LineStarts(source), m))
  {
    LineStartsTable(source);
    var starts := LineStarts(source);
    var l := LineOf(starts, m);
    if l + 1 < |starts| { assert LineBoundary(source, starts[l + 1]); }
    assert starts[l] <= m && x < LineStop(source, starts, l);
  }

  lemma {:induction false} TakenByPlan(source: Source, comments: seq<Comment>, swallow: seq<Option<ByteSpan>>, k: nat,
                                       i: nat)
    requires InOrder(comments, |source|) && SwallowFits(comments, swallow, |source|)
    requires CutsNone(source, comments) && SwallowsWholeLines(source, comments, swallow)
    requires GoesWith(source, comments, swallow, k, i) && i < |source|
    ensures CompactLeft(source, comments, swallow, i)
         == match HolderOf(comments, |comments|, i)
            case None => []
            case Some(j) => CommentLeave(source, comments, swallow, j, i)
  {
    hide PlanAt, GoesWith, CommentLeave, HolderOf;
    var p := PlanAt(source, comments, swallow, |comments|);
    PlanTakes(source, comments, swallow, i);
    WidenedTakesOn(source, p.list, p.collapsible, i);
  }

  lemma {:induction false} WidenedTakesOn(source: Source, edits: seq<Edit>, collapsible: seq<bool>, i: nat)
    requires !Survives(edits, i)
    ensures !Survives(Collapsed(source, edits, collapsible), i)
  {
    var e :| e in edits && e.span.start <= i < e.span.end;
    var t :| 0 <= t < |edits| && edits[t] == e;
    assert Collapsed(source, edits, collapsible)[t] in Collapsed(source, edits, collapsible);
  }

  /** A byte in front of a comment that leaves nothing under `lines`, or is trimmed, leaves nothing. */
  lemma {:induction false} NothingInFront(source: Source, comments: seq<Comment>, swallow: seq<Option<ByteSpan>>,
                                          k: nat, m: nat, x: nat, y: nat)
    requires InOrder(comments, |source|) && SwallowFits(comments, swallow, |source|)
    requires CutsNone(source, comments) && NoSwallow(comments, swallow)
    requires k < |comments| && Removes(comments[k]) && OnLineOf(source, comments, k, m, x)
    requires LeftLast(source, comments, k, m) && m < y < comments[k].span.start
    ensures CompactLeft(source, comments, swallow, y) == []
  {
    hide CommentLeave;
    NoSwallowIsWhole(source, comments, swallow);
    match HolderOf(comments, |comments|, y)
    case None =>
      assert TrimmedFor(source, comments, k, y);
      assert GoesWith(source, comments, swallow, k, y);
      TakenByPlan(source, comments, swallow, k, y);
    case Some(j) =>
      InTheMiddle(source, comments, swallow, k, m, x, j);
      assert GoesWith(source, comments, swallow, j, y);
      TakenByPlan(source, comments, swallow, j, y);
  }

  /** A comment of one line that ends its line leaves nothing, and neither does one that is an HTML comment. */
  lemma {:induction false} NothingInside(source: Source, comments: seq<Comment>, swallow: seq<Option<ByteSpan>>, k: nat,
                                         y: nat)
    requires InOrder(comments, |source|) && k < |comments| && Removes(comments[k])
    requires EndsALine(source, comments[k]) && comments[k].span.start <= y < comments[k].span.end
    requires comments[k].what.kind == HtmlComment || Unbroken(source, comments[k].span.start, comments[k].span.end)
    ensures CommentLeave(source, comments, swallow, k, y) == []
  {
    hide CodeInFront, EndsALine;
    var c := comments[k];
    EndsAsSaid(source, c);
    if t: nat :| InTerminatorAt(source, c.span, t, y) { TerminatorIsBreak(source, c.span, t, y); }
  }

  lemma {:induction false} TerminatorIsBreak(source: Source, s: ByteSpan, t: nat, i: nat)
    requires s.end <= |source| && InTerminatorAt(source, s, t, i)
    ensures i < |source| && SymAt(source, i) == Break
  {
    TerminatorCells(source, t);
    assert SymAt(source, t + (i - t)) == Break;
  }

  /** The comment and the blanks behind it leave nothing. */
  lemma {:induction false} NothingBehind(source: Source, comments: seq<Comment>, swallow: seq<Option<ByteSpan>>, k: nat,
                                         z: nat, y: nat)
    requires InOrder(comments, |source|) && SwallowFits(comments, swallow, |source|)
    requires CutsNone(source, comments) && NoSwallow(comments, swallow)
    requires k < |comments| && Removes(comments[k]) && EndsLineAt(source, comments, k, z)
    requires comments[k].what.kind == HtmlComment || Unbroken(source, comments[k].span.start, comments[k].span.end)
    requires comments[k].span.start <= y < z
    ensures CompactLeft(source, comments, swallow, y) == []
  {
    hide CodeInFront, CommentLeave, CompactLeft, SwallowsWholeLines;
    var c, w := comments[k], if z == |source| then 0 else TerminatorWidth(source, z).value;
    NoSwallowIsWhole(source, comments, swallow);
    assert LineRunsOut(source, c.span.end, z, w);
    assert SwallowAt(swallow, k).None?;
    assert GoesWith(source, comments, swallow, k, y);
    TakenByPlan(source, comments, swallow, k, y);
    if y < c.span.end {
      HeldByOne(comments, |comments|, |source|, k, y);
      NothingInside(source, comments, swallow, k, y);
    } else {
      HeldByNone(source, comments, k, y);
    }
  }

  lemma {:induction false} HeldByNone(source: Source, comments: seq<Comment>, k: nat, y: nat)
    requires InOrder(comments, |source|) && k < |comments|
    requires comments[k].span.end <= y < StartOf(comments, k + 1, |source|)
    ensures HolderOf(comments, |comments|, y).None?
  {
    match HolderOf(comments, |comments|, y)
    case None =>
    case Some(j) =>
  }

  /** What is left last in front of the comment stays. */
  lemma {:induction false} LastStays(source: Source, comments: seq<Comment>, swallow: seq<Option<ByteSpan>>, k: nat,
                                     m: nat, x: nat)
    requires InOrder(comments, |source|) && SwallowFits(comments, swallow, |source|)
    requires CutsNone(source, comments) && NoSwallow(comments, swallow)
    requires k < |comments| && Removes(comments[k]) && OnLineOf(source, comments, k, m, x)
    requires LeftLast(source, comments, k, m)
    ensures CompactLeft(source, comments, swallow, m) == Left(source, comments, m)
  {
    hide CommentLeave, PlanAt;
    NoSwallowIsWhole(source, comments, swallow);
    match HolderOf(comments, |comments|, m)
    case Some(j) =>
      InTheMiddle(source, comments, swallow, k, m, x, j);
      assert GoesWith(source, comments, swallow, j, m);
      TakenByPlan(source, comments, swallow, j, m);
    case None =>
      forall j: nat
        ensures !GoesWith(source, comments, swallow, j, m)
      {
        GoesWithNone(source, comments, swallow, k, m, x, j);
      }
      var p := PlanAt(source, comments, swallow, |comments|);
      PlanTakes(source, comments, swallow, m);
      ShownLineIsLeft(source, p.list, p.collapsible, m, x);
  }

  lemma {:induction false} GoesWithNone(source: Source, comments: seq<Comment>, swallow: seq<Option<ByteSpan>>, k: nat,
                                        m: nat, x: nat, j: nat)
    requires InOrder(comments, |source|) && NoSwallow(comments, swallow)
    requires k < |comments| && Removes(comments[k]) && OnLineOf(source, comments, k, m, x)
    requires LeftLast(source, comments, k, m) && HolderOf(comments, |comments|, m).None?
    ensures !GoesWith(source, comments, swallow, j, m)
  {
    if j < |comments| && comments[j].what.disposition != Keep {
      var c := comments[j];
      assert SwallowAt(swallow, j).None?;
      if c.span.end <= m {
        RunsOutFarther(source, comments, k, m, x, j);
      } else if j < k {
        InTheMiddle(source, comments, swallow, k, m, x, j);
      }
    }
  }

  lemma {:induction false} RunsOutFarther(source: Source, comments: seq<Comment>, k: nat, m: nat, x: nat, j: nat)
    requires InOrder(comments, |source|) && k < |comments| && OnLineOf(source, comments, k, m, x)
    requires j < |comments| && comments[j].span.end <= m
    ensures !BehindAll(source, comments, j, m)
  {
    forall z: nat, w: nat | LineRunsOut(source, comments[j].span.end, z, w)
      ensures z + w <= m
    {
      LineGoesOn(source, m, x, comments[j].span.end, z, w);
    }
  }

  /** What is left of the bytes up to `z` ends in what `m` leaves, where nothing is left in between. */
  lemma {:induction false} RestEndsIn(left: seq<Source>, m: nat, z: nat)
    requires m < z <= |left| && Gone(left, m + 1, z)
    ensures |left[m]| <= Place(left, z) <= |RestIn(left, 0, |left|)|
    ensures RestIn(left, 0, |left|)[Place(left, z) - |left[m]|..Place(left, z)] == left[m]
  {
    hide RestIn;
    RestInTwo(left, 0, z, |left|);
    RestInTwo(left, 0, m, z);
    FirstLeavesAll(left, m, z);
    var a, b, rest := RestIn(left, 0, m), left[m], RestIn(left, z, |left|);
    assert ((a + b) + rest)[|a|..|a| + |b|] == b;
  }

  /** Comment `k` is removed and the last on its line, which ends at `z`; in front of it byte `m` leaves the last. */
  ghost predicate StandsLast(source: Source, comments: seq<Comment>, k: nat, m: nat, x: nat, z: nat)
    requires InOrder(comments, |source|)
  {
    && k < |comments| && Removes(comments[k]) && OnLineOf(source, comments, k, m, x)
    && (comments[k].what.kind == HtmlComment || Unbroken(source, comments[k].span.start, comments[k].span.end))
    && LeftLast(source, comments, k, m) && EndsLineAt(source, comments, k, z)
  }

  /** Where `z` lands, or the end of the text there is none behind. */
  ghost function LandedOrEnd(source: Source, edits: seq<Edit>, z: nat): int
    requires Ordered(edits, 0, |source|)
  {
    if z < |source| then Landed(edits, z) else |Apply(source, edits)|
  }

  /** The text in front of `at` ends in `last`. */
  ghost predicate EndsIn(text: Source, at: int, last: Source) {
    |last| <= at <= |text| && text[at - |last|..at] == last
  }

  /**
   * A line that a removed comment stood last on ends, in front of its terminator or of the end of the source, with
   * what `lines` leaves last of it, but for the blanks that go with the comment.
   */
  lemma {:induction false} LineEndsWithLast(source: Source, comments: seq<Comment>, swallow: seq<Option<ByteSpan>>,
                                            k: nat, m: nat, x: nat, z: nat)
    requires InOrder(comments, |source|) && SwallowFits(comments, swallow, |source|)
    requires CutsNone(source, comments) && NoSwallow(comments, swallow)
    requires !TrimsWithin(source, comments, swallow, |comments|)
    requires StandsLast(source, comments, k, m, x, z)
    requires z < |source| ==> Survives(CompactPlan(source, comments, swallow), z)
    ensures Ordered(CompactPlan(source, comments, swallow), 0, |source|)
    ensures var edits := CompactPlan(source, comments, swallow);
            EndsIn(Apply(source, edits), LandedOrEnd(source, edits, z), Left(source, comments, m))
  {
    hide CompactLeft, Left, LeftLast, TrimsWithin, RestIn, Apply, Ordered, Landed, Unbroken, CutsNone,
         NoSwallow, CompactPlan, Survives;
    var left := CompactResidue(source, comments, swallow);
    NoSwallowIsWhole(source, comments, swallow);
    CompactLeavesAll(source, comments, swallow);
    LastStays(source, comments, swallow, k, m, x);
    forall y | m + 1 <= y < z
      ensures left[y] == []
    {
      if y < comments[k].span.start {
        NothingInFront(source, comments, swallow, k, m, x, y);
      } else {
        NothingBehind(source, comments, swallow, k, z, y);
      }
    }
    RestEndsIn(left, m, z);
  }

  /** `p` is a visible byte that no edit is planned for, and nothing but blanks stands between it and comment `k`. */
  ghost predicate StandsRightBehind(source: Source, comments: seq<Comment>, k: nat, p: nat)
    requires k < |comments|
  {
    && p < comments[k].span.start <= |source| && SymAt(source, p) == Ink
    && BlankRun(source, p + 1, comments[k].span.start)
    && forall j | 0 <= j < k && comments[j].what.disposition != Keep :: comments[j].span.end <= p
  }

  lemma {:induction false} NoneHoldsBehind(source: Source, comments: seq<Comment>, k: nat, p: nat, y: nat)
    requires InOrder(comments, |source|) && k < |comments| && StandsRightBehind(source, comments, k, p)
    requires p <= y < comments[k].span.start
    ensures HolderOf(comments, |comments|, y).None?
  {
    match HolderOf(comments, |comments|, y)
    case None =>
    case Some(j) =>
  }

  /** Behind code a removed comment leaves no blank at the end of its line. */
  lemma {:induction false} CodeEndsItsLine(source: Source, comments: seq<Comment>, swallow: seq<Option<ByteSpan>>,
                                           k: nat, p: nat, x: nat, z: nat)
    requires InOrder(comments, |source|) && SwallowFits(comments, swallow, |source|)
    requires CutsNone(source, comments) && NoSwallow(comments, swallow)
    requires !TrimsWithin(source, comments, swallow, |comments|)
    requires k < |comments| && Removes(comments[k]) && OnLineOf(source, comments, k, p, x)
    requires comments[k].what.kind == HtmlComment || Unbroken(source, comments[k].span.start, comments[k].span.end)
    requires StandsRightBehind(source, comments, k, p) && EndsLineAt(source, comments, k, z)
    requires z < |source| ==> Survives(CompactPlan(source, comments, swallow), z)
    ensures Ordered(CompactPlan(source, comments, swallow), 0, |source|)
    ensures var edits := CompactPlan(source, comments, swallow);
            EndsIn(Apply(source, edits), LandedOrEnd(source, edits, z), [source[p]])
  {
    hide HolderOf, CompactPlan, TrimsWithin, EndsIn;
    NoneHoldsBehind(source, comments, k, p, p);
    RunEndsALine(source, comments, k, z);
    forall y: nat | p < y < comments[k].span.start
      ensures TrimmedFor(source, comments, k, y)
    {
      NoneHoldsBehind(source, comments, k, p, y);
    }
    InkIsNotTrimmed(source, comments, k, p);
    LineEndsWithLast(source, comments, swallow, k, p, x, z);
  }

  lemma {:induction false} RunEndsALine(source: Source, comments: seq<Comment>, k: nat, z: nat)
    requires k < |comments| && EndsLineAt(source, comments, k, z)
    ensures EndsALine(source, comments[k])
  {
    var w := if z == |source| then 0 else TerminatorWidth(source, z).value;
    assert LineRunsOut(source, comments[k].span.end, z, w);
  }

  lemma {:induction false} InkIsNotTrimmed(source: Source, comments: seq<Comment>, k: nat, p: nat)
    requires k < |comments| && p < |source| && SymAt(source, p) == Ink
    ensures !TrimmedFor(source, comments, k, p)
  {
    if IsBlankByte(source, p) { BlankByteIsBlank(source, p); }
  }

  // ---- a comment that runs over the end of its line ----

  /** Code in front of a comment that runs over its line keeps the terminator of the line, and no blank. */
  lemma {:induction false} CodeKeepsTerminator(source: Source, comments: seq<Comment>, swallow: seq<Option<ByteSpan>>,
                                               k: nat, p: nat, t: nat)
    requires InOrder(comments, |source|) && SwallowFits(comments, swallow, |source|)
    requires CutsNone(source, comments) && NoSwallow(comments, swallow)
    requires !TrimsWithin(source, comments, swallow, |comments|)
    requires k < |comments| && Removes(comments[k]) && comments[k].what.kind != HtmlComment
    requires StandsRightBehind(source, comments, k, p)
    requires TerminatorWithin(source, comments[k].span, t) && Unbroken(source, comments[k].span.start, t)
    requires Survives(CompactPlan(source, comments, swallow), p)
    ensures Ordered(CompactPlan(source, comments, swallow), 0, |source|)
    ensures var edits, w := CompactPlan(source, comments, swallow), TerminatorWidth(source, t).value;
            var out, at := Apply(source, edits), Landed(edits, p);
            && 0 <= at && at + 1 + w <= |out| && out[at] == source[p] && out[at + 1..at + 1 + w] == source[t..t + w]
  {
    hide CompactLeft, TrimsWithin, RestIn, Apply, Ordered, Landed, CutsNone, NoSwallow, CompactPlan, Survives, HolderOf;
    var c, w, left := comments[k], TerminatorWidth(source, t).value, CompactResidue(source, comments, swallow);
    NoSwallowIsWhole(source, comments, swallow);
    CompactLeavesAll(source, comments, swallow);
    forall y: nat | p < y < t + w
      ensures left[y] == if y < t then [] else [source[y]]
    {
      if y < c.span.start {
        BlankIsTrimmed(source, comments, swallow, k, p, y, t);
      } else {
        TerminatorLeaves(source, comments, swallow, k, p, t, y);
      }
    }
    PlaceBehindGap(source, left, p, t, t + w);
  }

  lemma {:induction false} BlankIsTrimmed(source: Source, comments: seq<Comment>, swallow: seq<Option<ByteSpan>>,
                                          k: nat, p: nat, y: nat, t: nat)
    requires InOrder(comments, |source|) && SwallowFits(comments, swallow, |source|)
    requires CutsNone(source, comments) && NoSwallow(comments, swallow)
    requires k < |comments| && Removes(comments[k]) && comments[k].what.kind != HtmlComment
    requires StandsRightBehind(source, comments, k, p) && TerminatorWithin(source, comments[k].span, t)
    requires p < y < comments[k].span.start
    ensures CompactLeft(source, comments, swallow, y) == []
  {
    hide HolderOf, CompactLeft, CommentLeave;
    NoSwallowIsWhole(source, comments, swallow);
    NoneHoldsBehind(source, comments, k, p, y);
    assert SwallowAt(swallow, k).None?;
    assert GoesWith(source, comments, swallow, k, y);
    TakenByPlan(source, comments, swallow, k, y);
  }

  lemma {:induction false} TerminatorLeaves(source: Source, comments: seq<Comment>, swallow: seq<Option<ByteSpan>>,
                                            k: nat, p: nat, t: nat, y: nat)
    requires InOrder(comments, |source|) && SwallowFits(comments, swallow, |source|)
    requires CutsNone(source, comments) && NoSwallow(comments, swallow)
    requires k < |comments| && Removes(comments[k]) && comments[k].what.kind != HtmlComment
    requires StandsRightBehind(source, comments, k, p)
    requires TerminatorWithin(source, comments[k].span, t) && Unbroken(source, comments[k].span.start, t)
    requires comments[k].span.start <= y < t + TerminatorWidth(source, t).value
    ensures CompactLeft(source, comments, swallow, y) == if y < t then [] else [source[y]]
  {
    hide CompactLeft, HolderOf;
    var c := comments[k];
    NoSwallowIsWhole(source, comments, swallow);
    assert SwallowAt(swallow, k).None?;
    assert GoesWith(source, comments, swallow, k, y);
    TakenByPlan(source, comments, swallow, k, y);
    HeldByOne(comments, |comments|, |source|, k, y);
    EndsAsSaid(source, c);
    JustThatTerminator(source, c.span, t, y);
    CodeIsInFront(source, comments, swallow, k, p);
  }

  lemma {:induction false} CodeIsInFront(source: Source, comments: seq<Comment>, swallow: seq<Option<ByteSpan>>, k: nat,
                                         p: nat)
    requires InOrder(comments, |source|) && SwallowFits(comments, swallow, |source|)
    requires CutsNone(source, comments) && SwallowsWholeLines(source, comments, swallow)
    requires k < |comments| && StandsRightBehind(source, comments, k, p)
    ensures CodeInFront(source, comments[k])
  {
    var q, at := PlanAt(source, comments, swallow, k), comments[k].span.start;
    assert comments[k] in comments;
    PlanTracksLine(source, comments, swallow, k);
    ScanFindsLine(source, q.scan, q.lineStart, at);
    var l := LineStartFrom(source, q.scan, q.lineStart, at);
    LineBeginsNoLater(source, p, at, l);
    assert HasCode(source, l, at);
  }

  lemma {:induction false} LineBeginsNoLater(source: Source, p: nat, at: nat, l: nat)
    requires p < at <= |source| && SymAt(source, p) == Ink && BlankRun(source, p + 1, at)
    requires l <= at && LineBoundary(source, l)
    ensures l <= p
  {
    if p + 1 < l { BlankByteIsBlank(source, l - 1); }
  }

  /** What stands behind a byte that stays, where nothing is left of a gap. */
  lemma {:induction false} PlaceBehindGap(source: Source, left: seq<Source>, p: nat, t: nat, u: nat)
    requires p < t < u <= |source| == |left| && left[p] == [source[p]]
    requires forall y | p < y < u :: left[y] == if y < t then [] else [source[y]]
    ensures var out, at := RestIn(left, 0, |left|), Place(left, p);
            && at + 1 + (u - t) <= |out| && out[at] == source[p] && out[at + 1..at + 1 + (u - t)] == source[t..u]
  {
    hide RestIn;
    RestInTwo(left, 0, p, |left|);
    RestInTwo(left, p, t, |left|);
    RestInTwo(left, t, u, |left|);
    FirstLeavesAll(left, p, t);
    RemainsIsText(source, left, t, u);
    var a, b, c, d := RestIn(left, 0, p), [source[p]], source[t..u], RestIn(left, u, |left|);
    assert RestIn(left, 0, |left|) == a + (b + (c + d));
    assert (a + (b + (c + d)))[|a| + 1..|a| + 1 + |c|] == c;
  }

  // ---- all that is taken ----

  /**
   * The edits take what goes with a comment; anything else they take is on a line that shows nothing.
   */
  ghost predicate TakesWhatGoes(source: Source, comments: seq<Comment>, swallow: seq<Option<ByteSpan>>,
                                edits: seq<Edit>)
  {
    forall i: nat | i < |source| ::
      if exists k: nat :: GoesWith(source, comments, swallow, k, i) then !Survives(edits, i)
      else Survives(edits, i) || !OnShownLine(source, i)
  }

  lemma {:induction false} CompactTakesWhatGoes(source: Source, comments: seq<Comment>, swallow: seq<Option<ByteSpan>>)
    requires InOrder(comments, |source|) && SwallowFits(comments, swallow, |source|)
    requires CutsNone(source, comments) && SwallowsWholeLines(source, comments, swallow)
    ensures TakesWhatGoes(source, comments, swallow, CompactPlan(source, comments, swallow))
  {
    hide GoesWith, PlanAt, OnShownLine;
    var p := PlanAt(source, comments, swallow, |comments|);
    forall i: nat | i < |source|
      ensures if exists k: nat :: GoesWith(source, comments, swallow, k, i)
              then !Survives(CompactPlan(source, comments, swallow), i)
              else Survives(CompactPlan(source, comments, swallow), i) || !OnShownLine(source, i)
    {
      PlanTakes(source, comments, swallow, i);
      if Survives(p.list, i) {
        AddedIsOnBlankLine(source, p.list, p.collapsible, i);
      } else {
        WidenedTakesOn(source, p.list, p.collapsible, i);
      }
    }
  }

  lemma {:induction false} AddedIsOnBlankLine(source: Source, edits: seq<Edit>, collapsible: seq<bool>, i: nat)
    requires i < |source| && Survives(edits, i)
    ensures Survives(Collapsed(source, edits, collapsible), i) || !OnShownLine(source, i)
  {
    var wide := Collapsed(source, edits, collapsible);
    if e :| e in wide && e.span.start <= i < e.span.end {
      var t :| 0 <= t < |wide| && wide[t] == e;
      assert edits[t] in edits;
      AddedShowsNothing(source, edits, collapsible, t, i);
    }
  }

  /** Every line that a removed comment stood last on ends in what `lines` leaves of it. */
  ghost predicate LinesEndWithLast(source: Source, comments: seq<Comment>, edits: seq<Edit>)
    requires InOrder(comments, |source|) && Ordered(edits, 0, |source|)
  {
    forall k: nat, m: nat, x: nat, z: nat
      | StandsLast(source, comments, k, m, x, z) && (z < |source| ==> Survives(edits, z)) ::
      EndsIn(Apply(source, edits), LandedOrEnd(source, edits, z), Left(source, comments, m))
  }

  lemma {:induction false} CompactTrimsLines(source: Source, comments: seq<Comment>, swallow: seq<Option<ByteSpan>>)
    requires InOrder(comments, |source|) && SwallowFits(comments, swallow, |source|)
    requires CutsNone(source, comments) && NoSwallow(comments, swallow)
    requires !TrimsWithin(source, comments, swallow, |comments|)
    ensures Ordered(CompactPlan(source, comments, swallow), 0, |source|)
    ensures LinesEndWithLast(source, comments, CompactPlan(source, comments, swallow))
  {
    hide EndsIn, TrimsWithin, CutsNone, NoSwallow, Left, LandedOrEnd, LeftLast, EndsLineAt, Unbroken;
    UntrimmedIsOrdered(source, comments, swallow);
    var edits := CompactPlan(source, comments, swallow);
    forall k: nat, m: nat, x: nat, z: nat
      | StandsLast(source, comments, k, m, x, z) && (z < |source| ==> Survives(edits, z))
      ensures EndsIn(Apply(source, edits), LandedOrEnd(source, edits, z), Left(source, comments, m))
    {
      LineEndsWithLast(source, comments, swallow, k, m, x, z);
    }
  }
}
