/**
 * What `compact` promises about lines: a line that held nothing but a removed comment goes, code with a blank
 * line in between keeps one, and a removal leaves no more blank lines than it stood beside.
 */
module CompactLines {
  import opened Arrivals
  import opened Bytes
  import opened Collapse
  import opened Compact
  import opened CompactLeavings
  import opened CompactPlans
  import opened CompactTakes
  import opened Edits
  import opened Erasures
  import opened Fusions
  import opened Gaps
  import opened Layouts
  import opened LineNumbers
  import opened LinesLeft
  import opened Outlines
  import opened Plans
  import opened Removals
  import opened Residues
  import opened Scanning
  import opened Seams

  // ---- the edits stay close to their comments ----

  /** The edit takes the comment, and no line on which nothing of the comment is. */
  ghost predicate Hugs(source: Source, e: Edit, c: Comment) {
    && e.span.start <= c.span.start < c.span.end <= e.span.end <= |source|
    && (forall x: nat | e.span.start < x <= c.span.start :: !LineBoundary(source, x))
    && (forall x: nat | c.span.end <= x < e.span.end :: !LineBoundary(source, x))
  }

  ghost predicate Hugged(source: Source, comments: seq<Comment>, e: Edit) {
    exists i :: 0 <= i < |comments| && Removes(comments[i]) && Hugs(source, e, comments[i])
  }

  /** `q` is the last visible byte of the comment, and behind it the comment holds blanks alone. */
  ghost predicate EndsBehind(source: Source, c: Comment, q: nat) {
    && c.span.start <= q < c.span.end <= |source| && SymAt(source, q) == Ink
    && forall k | q < k < c.span.end :: SymAt(source, k) == Blank
  }

  /** Every removed comment ends on a line it shows something on. */
  ghost predicate EndVisibly(source: Source, comments: seq<Comment>) {
    forall c <- comments | Removes(c) :: exists q: nat :: EndsBehind(source, c, q)
  }

  /** `q` is the first visible byte of the comment, and in front of it the comment holds blanks alone. */
  ghost predicate BeginsBefore(source: Source, c: Comment, q: nat) {
    && c.span.start <= q < c.span.end <= |source| && SymAt(source, q) == Ink
    && forall k | c.span.start <= k < q :: SymAt(source, k) == Blank
  }

  /** Every removed comment begins on a line it shows something on. */
  ghost predicate BeginVisibly(source: Source, comments: seq<Comment>) {
    forall c <- comments | Removes(c) :: exists q: nat :: BeginsBefore(source, c, q)
  }

  /** Behind a byte that ends no line the line runs out: no line begins before the tail does. */
  lemma {:induction false} TailBeginsNoLine(source: Source, from: nat, x: nat)
    requires 0 < from <= |source| && SymAt(source, from - 1) != Break && WholeTerminators(source, from)
    requires LineTail(source, from).Some?
    requires from <= x < LineTail(source, from).value.blanks + LineTail(source, from).value.terminator
    ensures !LineBoundary(source, x)
  {
    var t := LineTail(source, from).value;
    TailShowsNothing(source, from);
    if x <= t.blanks {
      if x > from { assert SymAt(source, x - 1) == Blank; }
    } else {
      if t.blanks > from { assert SymAt(source, t.blanks - 1) == Blank; }
      TerminatorEndsLine(source, t.blanks);
    }
  }

  lemma {:induction false} RemovalHugs(source: Source, comments: seq<Comment>, i: nat, lineStart: nat, floor: nat)
    requires InOrder(comments, |source|) && CutsNone(source, comments) && EndVisibly(source, comments)
    requires i < |comments| && Removes(comments[i])
    requires lineStart <= floor <= comments[i].span.start
    ensures var c := comments[i];
            Hugs(source, Edit(ByteSpan(RemovalStart(source, c, floor),
                                       RemovalEnd(source, c, lineStart, StartOf(comments, i + 1, |source|))),
                              RemovalRest(source, c, lineStart)), c)
  {
    var c := comments[i];
    assert c in comments;
    var q: nat :| EndsBehind(source, c, q);
    assert SymAt(source, c.span.end - 1) != Break;
    var a, z := RemovalStart(source, c, floor), RemovalEnd(source, c, lineStart, StartOf(comments, i + 1, |source|));
    RemovalIsUpright(source, comments, i, lineStart, floor);
    if EndsItsLine(source, c) { RemovalShowsNothing(source, comments, i, lineStart, floor); }
    forall x: nat | a < x <= c.span.start
      ensures !LineBoundary(source, x)
    {
      BlankEndsNoLine(source, x);
    }
    forall x: nat | c.span.end <= x < z
      ensures !LineBoundary(source, x)
    {
      TailBeginsNoLine(source, c.span.end, x);
    }
  }

  lemma {:induction false} EditHugs(source: Source, comments: seq<Comment>, swallow: seq<Option<ByteSpan>>, i: nat)
    requires InOrder(comments, |source|) && SwallowFits(comments, swallow, |source|)
    requires CutsNone(source, comments) && NoSwallow(comments, swallow) && EndVisibly(source, comments)
    requires i < |comments| && Removes(comments[i])
    ensures Hugs(source, EditAt(source, comments, swallow, i), comments[i])
    ensures Hugged(source, comments, EditAt(source, comments, swallow, i))
  {
    var p := PlanAt(source, comments, swallow, i);
    assert SwallowAt(swallow, i).None?;
    var start := LineStartFrom(source, p.scan, p.lineStart, comments[i].span.start);
    RemovalHugs(source, comments, i, start, Max(p.floor, start));
  }

  // ---- a comment alone on its lines ----

  /** The line comment `i` begins on, from `l`, and the one it ends on hold nothing else but blanks. */
  ghost predicate AloneFrom(source: Source, comments: seq<Comment>, i: nat, l: nat)
    requires i < |comments|
  {
    var s := comments[i].span;
    && s.start <= s.end <= |source|
    && BeginsLineOf(source, l, s.start) && !HasCode(source, l, s.start)
    && LineTail(source, s.end).Some?
    && LineTail(source, s.end).value.blanks + LineTail(source, s.end).value.terminator
       <= StartOf(comments, i + 1, |source|)
  }

  /** The lines from `l` to the end of the comment's last line, its terminator included. */
  function WholeLines(source: Source, s: ByteSpan, l: nat): ByteSpan
    requires s.end <= |source| && LineTail(source, s.end).Some?
  {
    var t := LineTail(source, s.end).value;
    ByteSpan(l, t.blanks + t.terminator)
  }

  /** The whole span lies in an edit that leaves nothing. */
  ghost predicate TakesAway(edits: seq<Edit>, s: ByteSpan) {
    exists e <- edits :: e.span.start <= s.start && s.end <= e.span.end && e.replacement == []
  }

  /** Comment `i`, when it is alone on its lines and to be removed, goes with all of them, and nothing is left there. */
  ghost predicate LineGone(source: Source, comments: seq<Comment>, i: nat, edits: seq<Edit>)
    requires i < |comments|
  {
    forall l: nat | Removes(comments[i]) && AloneFrom(source, comments, i, l) ::
      TakesAway(edits, WholeLines(source, comments[i].span, l))
  }

  ghost predicate LinesGone(source: Source, comments: seq<Comment>, edits: seq<Edit>) {
    forall i: nat | i < |comments| :: LineGone(source, comments, i, edits)
  }

  /** A terminator in front of `at` ends at a line boundary no further than `at`. */
  lemma {:induction false} TerminatorStops(source: Source, i: nat, at: nat)
    requires i < at <= |source| && WholeTerminators(source, at)
    requires source[i] == CR || source[i] == LF
    ensures exists x: nat :: i < x <= at && LineBoundary(source, x)
  {
    if source[i] == CR && i + 1 < |source| && source[i + 1] == LF {
      assert LineBoundary(source, i + 2);
    } else {
      assert LineBoundary(source, i + 1);
    }
  }

  /** Blanks from the beginning of a line on go back all the way to it. */
  lemma {:induction false} BlanksGoBack(source: Source, l: nat, at: nat)
    requires BeginsLineOf(source, l, at) && !HasCode(source, l, at) && WholeTerminators(source, at)
    ensures BlankStart(source, at, l) == l
  {
    var s := BlankStart(source, at, l);
    if s > l {
      assert IsWhitespace(source[s - 1]);
      if source[s - 1] == CR || source[s - 1] == LF { TerminatorStops(source, s - 1, at); }
    }
  }

  /** The removal in front ended above the line: it would have left a visible byte of its comment on it. */
  lemma {:induction false} FloorIsAbove(source: Source, comments: seq<Comment>, c: Comment, e: Edit, l: nat, p: nat)
    requires EndVisibly(source, comments) && c in comments && Removes(c) && Hugs(source, e, c)
    requires BeginsLineOf(source, l, p) && !HasCode(source, l, p) && e.span.end <= p
    ensures e.span.end <= l
  {
    var q: nat :| EndsBehind(source, c, q);
    assert !IsWhitespace(source[q]);
    if l < e.span.end { NoLineBehind(source, c, e, q, l); }
  }

  /** Behind the last visible byte of its comment an edit takes no line. */
  lemma {:induction false} NoLineBehind(source: Source, c: Comment, e: Edit, q: nat, x: nat)
    requires Hugs(source, e, c) && EndsBehind(source, c, q) && x < e.span.end
    ensures q < x ==> !LineBoundary(source, x)
  {
    if q < x < c.span.end { BlankEndsNoLine(source, x); }
  }

  /** The removal of a comment alone on its lines takes them whole. */
  lemma {:induction false} AloneGoesWhole(source: Source, comments: seq<Comment>, i: nat, floor: nat, l: nat)
    requires InOrder(comments, |source|) && i < |comments| && AloneFrom(source, comments, i, l)
    requires WholeTerminators(source, comments[i].span.start) && floor <= l
    ensures RemovalStart(source, comments[i], Max(floor, l)) == l
    ensures RemovalEnd(source, comments[i], l, StartOf(comments, i + 1, |source|))
         == WholeLines(source, comments[i].span, l).end
  {
    BlanksGoBack(source, l, comments[i].span.start);
  }

  /** Where the last removal ended: at the very start, or behind one of the comments in front. */
  lemma {:induction false} FloorIsAnEnd(source: Source, comments: seq<Comment>, swallow: seq<Option<ByteSpan>>, n: nat)
    returns (j: nat)
    requires InOrder(comments, |source|) && SwallowFits(comments, swallow, |source|) && n <= |comments|
    requires PlanAt(source, comments, swallow, n).floor > 0
    ensures j < n && Removes(comments[j])
    ensures EditAt(source, comments, swallow, j).span.end == PlanAt(source, comments, swallow, n).floor
  {
    if Removes(comments[n - 1]) {
      j := n - 1;
    } else {
      j := FloorIsAnEnd(source, comments, swallow, n - 1);
    }
  }

  lemma {:induction false} AloneEdit(source: Source, comments: seq<Comment>, swallow: seq<Option<ByteSpan>>, i: nat,
                                     l: nat)
    requires InOrder(comments, |source|) && SwallowFits(comments, swallow, |source|)
    requires Cuttable(source, comments) && NoSwallow(comments, swallow) && EndVisibly(source, comments)
    requires i < |comments| && Removes(comments[i]) && AloneFrom(source, comments, i, l)
    ensures EditAt(source, comments, swallow, i) == Edit(WholeLines(source, comments[i].span, l), [])
  {
    var c, p := comments[i], PlanAt(source, comments, swallow, i);
    assert c in comments && SwallowAt(swallow, i).None?;
    NoSwallowIsWhole(source, comments, swallow);
    PlanKnowsLine(source, comments, swallow, i);
    var start := LineStartFrom(source, p.scan, p.lineStart, c.span.start);
    ScanFindsLine(source, p.scan, p.lineStart, c.span.start);
    OneLine(source, l, start, c.span.start);
    if p.floor > 0 {
      var j := FloorIsAnEnd(source, comments, swallow, i);
      EditHugs(source, comments, swallow, j);
      FloorIsAbove(source, comments, comments[j], EditAt(source, comments, swallow, j), l, c.span.start);
    }
    AloneGoesWhole(source, comments, i, p.floor, l);
  }

  /** Comments alone on their lines go with them. */
  lemma {:induction false} CompactTakesLines(source: Source, comments: seq<Comment>, swallow: seq<Option<ByteSpan>>)
    requires InOrder(comments, |source|) && SwallowFits(comments, swallow, |source|)
    requires Cuttable(source, comments) && NoSwallow(comments, swallow) && EndVisibly(source, comments)
    ensures LinesGone(source, comments, CompactPlan(source, comments, swallow))
  {
    var p, wide := PlanAt(source, comments, swallow, |comments|), CompactPlan(source, comments, swallow);
    forall i: nat, l: nat | i < |comments| && Removes(comments[i]) && AloneFrom(source, comments, i, l)
      ensures TakesAway(wide, WholeLines(source, comments[i].span, l))
    {
      AloneEdit(source, comments, swallow, i, l);
      PlanHas(source, comments, swallow, |comments|, i);
      var k :| 0 <= k < |p.list| && p.list[k] == EditAt(source, comments, swallow, i);
      assert wide[k] in wide;
    }
  }

  // ---- blank lines between lines of code ----

  /** A blank line of the source no removed comment reaches into. */
  ghost predicate IsBlankLine(source: Source, comments: seq<Comment>, b: nat) {
    && BlankLine(source, LineStarts(source), b)
    && forall c <- comments | Removes(c) ::
         c.span.end <= LineStarts(source)[b] || LineStop(source, LineStarts(source), b) <= c.span.start
  }

  /** Blank line `b` stands between code at `p` and code at `q`. */
  ghost predicate StandsAmid(source: Source, comments: seq<Comment>, p: nat, b: nat, q: nat) {
    && IsCode(source, comments, p) && IsCode(source, comments, q) && IsBlankLine(source, comments, b)
    && p < LineStarts(source)[b] && LineStop(source, LineStarts(source), b) <= q
  }

  /** Code with a blank line in between still has one in between. */
  ghost predicate BlanksStay(source: Source, comments: seq<Comment>, edits: seq<Edit>)
    requires Ordered(edits, 0, |source|)
  {
    forall p: nat, b: nat, q: nat | StandsAmid(source, comments, p, b, q) ::
      BlankBetween(Apply(source, edits), Landed(edits, p), Landed(edits, q))
  }

  /**
   * Between code and code the text has a blank line if and only if two line endings stay there with nothing to see
   * in between, and not just a carriage return and a line feed that come to stand side by side.
   */
  ghost predicate BlanksAreLeft(source: Source, comments: seq<Comment>, edits: seq<Edit>, left: seq<Source>)
    requires Ordered(edits, 0, |source|)
  {
    forall p: nat, q: nat | IsCode(source, comments, p) && IsCode(source, comments, q) && p < q ::
      BlankBetween(Apply(source, edits), Landed(edits, p), Landed(edits, q)) <==> BlankIsLeft(source, left, p, q)
  }

  /**
   * Where no code is in between, a blank line between code stays one if and only if more is left of the line
   * breaks there than one carriage return and one line feed behind it with nothing left in between.
   */
  ghost predicate GapsStay(source: Source, comments: seq<Comment>, edits: seq<Edit>, left: seq<Source>)
    requires Ordered(edits, 0, |source|) && |left| == |source|
  {
    forall p: nat, b: nat, q: nat
      | StandsAmid(source, comments, p, b, q) && Clear(source, RemovedSpans(comments), p, q) ::
      BlankBetween(Apply(source, edits), Landed(edits, p), Landed(edits, q)) <==> !OnlyPairLeft(source, left, p, q)
  }

  lemma {:induction false} HuggedEndsAtInk(source: Source, comments: seq<Comment>, e: Edit)
    requires EndVisibly(source, comments) && Hugged(source, comments, e)
    ensures EndsAtInk(source, e)
  {
    var i :| 0 <= i < |comments| && Removes(comments[i]) && Hugs(source, e, comments[i]);
    var c := comments[i];
    assert c in comments;
    var q: nat :| EndsBehind(source, c, q);
    forall x: nat | q < x < e.span.end
      ensures !LineBoundary(source, x)
    {
      NoLineBehind(source, c, e, q, x);
    }
  }

  /** A blank line no comment reaches into is not reached by an edit that hugs its comment. */
  lemma {:induction false} HuggedLeavesBlank(source: Source, comments: seq<Comment>, e: Edit, b: nat)
    requires Hugged(source, comments, e) && IsBlankLine(source, comments, b)
    ensures e.span.end <= LineStarts(source)[b] || LineStop(source, LineStarts(source), b) <= e.span.start
  {
    var starts := LineStarts(source);
    LineStartsTable(source);
    var i :| 0 <= i < |comments| && Removes(comments[i]) && Hugs(source, e, comments[i]);
    assert comments[i] in comments;
    assert LineBoundary(source, starts[b]);
    if b + 1 < |starts| { assert LineBoundary(source, starts[b + 1]); }
  }

  /** The edits hug their comments. */
  lemma {:induction false} PlanHugs(source: Source, comments: seq<Comment>, swallow: seq<Option<ByteSpan>>)
    requires InOrder(comments, |source|) && SwallowFits(comments, swallow, |source|)
    requires Cuttable(source, comments) && NoSwallow(comments, swallow) && EndVisibly(source, comments)
    ensures forall e <- PlanAt(source, comments, swallow, |comments|).list ::
              Hugged(source, comments, e) && EndsAtInk(source, e)
  {
    forall e | e in PlanAt(source, comments, swallow, |comments|).list
      ensures Hugged(source, comments, e) && EndsAtInk(source, e)
    {
      var i := PlanOnly(source, comments, swallow, |comments|, e);
      assert comments[i] in comments;
      EditHugs(source, comments, swallow, i);
      HuggedEndsAtInk(source, comments, e);
    }
  }

  /** Of the blank lines between two bytes of code the plan leaves one alone. */
  lemma {:induction false} OneIsLeftAlone(source: Source, comments: seq<Comment>, swallow: seq<Option<ByteSpan>>,
                                          p: nat, b: nat, q: nat)
    returns (a: nat)
    requires InOrder(comments, |source|) && SwallowFits(comments, swallow, |source|)
    requires Cuttable(source, comments) && NoSwallow(comments, swallow) && EndVisibly(source, comments)
    requires StandsAmid(source, comments, p, b, q)
    ensures Untouched(source, CompactPlan(source, comments, swallow), a) && BlankLine(source, LineStarts(source), a)
    ensures a + 1 < |LineStarts(source)| && p < LineStarts(source)[a] && LineStarts(source)[a + 1] <= q
  {
    var plan := PlanAt(source, comments, swallow, |comments|);
    RemovalsAreOrdered(source, comments, swallow);
    NoSwallowIsWhole(source, comments, swallow);
    PlanIsTight(source, comments, swallow);
    PlanHugs(source, comments, swallow);
    forall e | e in plan.list
      ensures e.span.end <= LineStarts(source)[b] || LineStop(source, LineStarts(source), b) <= e.span.start
    {
      HuggedLeavesBlank(source, comments, e, b);
    }
    CodeSurvives(source, comments, plan.list, p);
    BlankStaysBetween(source, plan.list, plan.collapsible, p, b);
    a :| a <= b && Untouched(source, CompactPlan(source, comments, swallow), a)
         && BlankLine(source, LineStarts(source), a) && p < LineStarts(source)[a];
    LineInFront(source, a, b, q);
  }

  lemma {:induction false} LineInFront(source: Source, a: nat, b: nat, q: nat)
    requires a <= b < |LineStarts(source)| && LineStop(source, LineStarts(source), b) <= q < |source|
    ensures a + 1 < |LineStarts(source)| && LineStarts(source)[a + 1] <= q
  {
    StartsAscend(source);
    InOrderOfStarts(LineStarts(source), a + 1, b + 1);
  }

  lemma {:induction false} CodeLands(source: Source, comments: seq<Comment>, edits: seq<Edit>, p: nat)
    requires Ordered(edits, 0, |source|) && AllDiscreet(source, RemovedSpans(comments), edits)
    requires IsCode(source, comments, p)
    ensures Shown(source, p) && Survives(Merge(edits), p) && Landed(Merge(edits), p) == Landed(edits, p)
  {
    CodeSurvives(source, comments, edits, p);
    DiscreetIsUpright(source, RemovedSpans(comments), edits);
    MergeLands(edits, p, 0, |source|);
  }

  lemma {:induction false} MergeLeavesAlone(source: Source, edits: seq<Edit>, a: nat)
    requires Ordered(edits, 0, |source|) && Untouched(source, edits, a) && a + 1 < |LineStarts(source)|
    ensures Untouched(source, Merge(edits), a)
  {
    StartsAscend(source);
    MergeKeepsOff(edits, LineStarts(source)[a], LineStarts(source)[a + 1], 0, |source|);
  }

  /** Code stays, and lands behind what the bytes in front of it leave. */
  lemma {:induction false} CodeStays(source: Source, comments: seq<Comment>, swallow: seq<Option<ByteSpan>>, p: nat)
    requires InOrder(comments, |source|) && SwallowFits(comments, swallow, |source|)
    requires Cuttable(source, comments) && SwallowsWholeLines(source, comments, swallow) && IsCode(source, comments, p)
    ensures InkStays(source, CompactResidue(source, comments, swallow), p)
    ensures Landed(CompactPlan(source, comments, swallow), p) == Place(CompactResidue(source, comments, swallow), p)
  {
    var plan := PlanAt(source, comments, swallow, |comments|);
    RemovalsAreOrdered(source, comments, swallow);
    PlanIsTight(source, comments, swallow);
    CollapsedIsTight(source, comments, Spaceless(source, comments), plan.list, plan.collapsible);
    CodeSurvives(source, comments, CompactPlan(source, comments, swallow), p);
    CompactLeavesBytes(source, comments, swallow);
  }

  /** Where there are blank lines in the text is read off what the bytes leave. */
  lemma {:induction false} CompactLeavesBlanks(source: Source, comments: seq<Comment>, swallow: seq<Option<ByteSpan>>)
    requires InOrder(comments, |source|) && SwallowFits(comments, swallow, |source|)
    requires Cuttable(source, comments) && SwallowsWholeLines(source, comments, swallow)
    requires NothingForms(CompactResidue(source, comments, swallow))
    ensures Ordered(CompactPlan(source, comments, swallow), 0, |source|)
    ensures BlanksAreLeft(source, comments, CompactPlan(source, comments, swallow),
                          CompactResidue(source, comments, swallow))
  {
    hide BlankBetween, BlankIsLeft, IsCode, InkStays;
    var edits, left := CompactPlan(source, comments, swallow), CompactResidue(source, comments, swallow);
    CompactLeavesBytes(source, comments, swallow);
    forall p: nat, q: nat | IsCode(source, comments, p) && IsCode(source, comments, q) && p < q
      ensures BlankBetween(Apply(source, edits), Landed(edits, p), Landed(edits, q)) <==>
                BlankIsLeft(source, left, p, q)
    {
      CodeStays(source, comments, swallow, p);
      CodeStays(source, comments, swallow, q);
      BlankLineLeft(source, left, p, q);
    }
  }

  lemma {:induction false} GapKeepsOne(source: Source, comments: seq<Comment>, swallow: seq<Option<ByteSpan>>, p: nat,
                                       b: nat, q: nat)
    requires InOrder(comments, |source|) && SwallowFits(comments, swallow, |source|)
    requires Cuttable(source, comments) && NoSwallow(comments, swallow)
    requires NeverFuses(source, comments) && EndVisibly(source, comments)
    requires StandsAmid(source, comments, p, b, q) && p < q && Clear(source, RemovedSpans(comments), p, q)
    ensures Ordered(CompactPlan(source, comments, swallow), 0, |source|)
    ensures IsCode(source, comments, p) && IsCode(source, comments, q)
    ensures var edits := CompactPlan(source, comments, swallow);
            var out := Apply(source, edits);
            BlankBetween(out, Landed(edits, p), Landed(edits, q)) <==> !OnePair(out, Landed(edits, p), Landed(edits, q))
  {
    var edits, spans := CompactPlan(source, comments, swallow), RemovedSpans(comments);
    NoSwallowIsWhole(source, comments, swallow);
    MergedPlanIsFair(source, comments, swallow);
    var a := OneIsLeftAlone(source, comments, swallow, p, b, q);
    MergeLeavesAlone(source, edits, a);
    var k := UntouchedIsAmid(source, Merge(edits), a);
    CodeLands(source, comments, edits, p);
    CodeLands(source, comments, edits, q);
    StartsAreLines(source, a + 1);
    GapKeepsBlank(source, spans, Merge(edits), k, p, a, q);
  }

  lemma {:induction false} GapStays(source: Source, comments: seq<Comment>, swallow: seq<Option<ByteSpan>>, p: nat,
                                    b: nat, q: nat)
    requires InOrder(comments, |source|) && SwallowFits(comments, swallow, |source|)
    requires Cuttable(source, comments) && NoSwallow(comments, swallow)
    requires NeverFuses(source, comments) && EndVisibly(source, comments)
    requires StandsAmid(source, comments, p, b, q) && p < q && Clear(source, RemovedSpans(comments), p, q)
    ensures Ordered(CompactPlan(source, comments, swallow), 0, |source|)
    ensures var edits, left := CompactPlan(source, comments, swallow), CompactResidue(source, comments, swallow);
            BlankBetween(Apply(source, edits), Landed(edits, p), Landed(edits, q)) <==>
              !OnlyPairLeft(source, left, p, q)
  {
    hide BlankBetween, OnlyPairLeft, OnePair, InkStays, Clear, NeverFuses, NothingForms, CompactPlan, CompactResidue,
         StandsAmid, IsCode;
    NoSwallowIsWhole(source, comments, swallow);
    CompactLeavesBytes(source, comments, swallow);
    CompactFormsNothing(source, comments, swallow);
    GapKeepsOne(source, comments, swallow, p, b, q);
    CodeStays(source, comments, swallow, p);
    CodeStays(source, comments, swallow, q);
    OnePairIsLeft(source, CompactResidue(source, comments, swallow), p, q);
  }

  /** Where a blank line stands between code, exactly one thing can take the last of them from the text. */
  lemma {:induction false} CompactKeepsGaps(source: Source, comments: seq<Comment>, swallow: seq<Option<ByteSpan>>)
    requires InOrder(comments, |source|) && SwallowFits(comments, swallow, |source|)
    requires Cuttable(source, comments) && NoSwallow(comments, swallow)
    requires NeverFuses(source, comments) && EndVisibly(source, comments)
    ensures Ordered(CompactPlan(source, comments, swallow), 0, |source|)
    ensures GapsStay(source, comments, CompactPlan(source, comments, swallow),
                     CompactResidue(source, comments, swallow))
  {
    hide BlankBetween, OnlyPairLeft, Clear, NeverFuses, CompactPlan;
    NoSwallowIsWhole(source, comments, swallow);
    CompactLeavesBytes(source, comments, swallow);
    var edits, left := CompactPlan(source, comments, swallow), CompactResidue(source, comments, swallow);
    forall p: nat, b: nat, q: nat
      | StandsAmid(source, comments, p, b, q) && Clear(source, RemovedSpans(comments), p, q)
      ensures BlankBetween(Apply(source, edits), Landed(edits, p), Landed(edits, q)) <==>
                !OnlyPairLeft(source, left, p, q)
    {
      GapStays(source, comments, swallow, p, b, q);
    }
  }

  // ---- without lone carriage returns ----

  lemma {:induction false} FirstTerminatorIsPaired(source: Source, i: nat, end: nat)
    requires end <= |source| && NoLoneCR(source)
    ensures FirstTerminator(source, i, end).Some? ==> NoLoneCR(FirstTerminator(source, i, end).value)
    decreases end - i
  {
    if i < end {
      var w := TerminatorWidth(source, i);
      if w.None? || i + w.value > end { FirstTerminatorIsPaired(source, i + 1, end); }
    }
  }

  lemma {:induction false} LineReplacementIsPaired(source: Source, s: ByteSpan)
    requires s.start <= s.end <= |source| && NoLoneCR(source) && WholeTerminators(source, s.end)
    ensures NoLoneCR(LineReplacement(source, s))
  {
    NoLoneCRSlice(source, s.start, s.end);
    NewlinesKeepBreaks(source[s.start..s.end], 0);
  }

  /** Where the line runs out nothing is cut. */
  lemma {:induction false} TailCutsNone(source: Source, from: nat)
    requires from <= |source| && WholeTerminators(source, from) && LineTail(source, from).Some?
    ensures var t := LineTail(source, from).value;
            && (forall k | from <= k <= t.blanks :: WholeTerminators(source, k))
            && WholeTerminators(source, t.blanks + t.terminator)
  {
    var t := LineTail(source, from).value;
    TailShowsNothing(source, from);
    forall k | from <= k <= t.blanks
      ensures WholeTerminators(source, k)
    {
      if k > from { assert SymAt(source, k - 1) == Blank; }
    }
    if t.terminator > 0 { TerminatorEndsLine(source, t.blanks); }
  }

  lemma {:induction false} RemovalKeepsPairs(source: Source, comments: seq<Comment>, i: nat, start: nat, floor: nat)
    requires InOrder(comments, |source|) && CutsNone(source, comments) && NoLoneCR(source) && i < |comments|
    requires start <= comments[i].span.start && floor <= comments[i].span.start
    ensures KeepsPairs(source, RemovalOf(source, comments, i, start, floor))
  {
    var c, e := comments[i], RemovalOf(source, comments, i, start, floor);
    assert c in comments && (i + 1 < |comments| ==> comments[i + 1] in comments);
    RemovalIsUpright(source, comments, i, start, Max(floor, start));
    FirstTerminatorIsPaired(source, c.span.start, c.span.end);
    LineReplacementIsPaired(source, c.span);
    if LineTail(source, c.span.end).Some? { TailCutsNone(source, c.span.end); }
    if e.span.start < c.span.start { BlankByteIsBlank(source, e.span.start); }
  }

  lemma {:induction false} WidenedKeepsPairs(source: Source, edits: seq<Edit>, collapsible: seq<bool>, k: nat)
    requires Ordered(edits, 0, |source|) && k < |edits| && forall e <- edits :: KeepsPairs(source, e)
    ensures KeepsPairs(source, Widened(source, edits, collapsible, k))
  {
    LineStartsTable(source);
    ReachStops(source, edits, collapsible, k);
    var r := Reach(source, edits, collapsible, k);
    assert edits[k] in edits && (k + 1 < |edits| ==> edits[k + 1] in edits);
    if r != edits[k].span.end && r != Ceiling(source, edits, k) {
      assert LineBoundary(source, r);
    }
  }

  lemma {:induction false} PlanKeepsPairs(source: Source, comments: seq<Comment>, swallow: seq<Option<ByteSpan>>)
    requires InOrder(comments, |source|) && SwallowFits(comments, swallow, |source|)
    requires Cuttable(source, comments) && NoSwallow(comments, swallow) && NoLoneCR(source)
    ensures forall e <- CompactPlan(source, comments, swallow) :: KeepsPairs(source, e)
  {
    var p, wide := PlanAt(source, comments, swallow, |comments|), CompactPlan(source, comments, swallow);
    RemovalsAreOrdered(source, comments, swallow);
    forall e | e in p.list
      ensures KeepsPairs(source, e)
    {
      var i := PlanOnly(source, comments, swallow, |comments|, e);
      var q := PlanAt(source, comments, swallow, i);
      assert comments[i] in comments && SwallowAt(swallow, i).None?;
      RemovalKeepsPairs(source, comments, i, LineStartFrom(source, q.scan, q.lineStart, comments[i].span.start),
                        q.floor);
    }
    forall e | e in wide
      ensures KeepsPairs(source, e)
    {
      var k :| 0 <= k < |wide| && wide[k] == e;
      WidenedKeepsPairs(source, p.list, p.collapsible, k);
    }
  }

  /** Without lone carriage returns code with a blank line in between still has one in between. */
  lemma {:induction false} CompactKeepsBlanks(source: Source, comments: seq<Comment>, swallow: seq<Option<ByteSpan>>)
    requires InOrder(comments, |source|) && SwallowFits(comments, swallow, |source|)
    requires Cuttable(source, comments) && NoSwallow(comments, swallow)
    requires NeverFuses(source, comments) && EndVisibly(source, comments) && NoLoneCR(source)
    ensures Ordered(CompactPlan(source, comments, swallow), 0, |source|)
    ensures BlanksStay(source, comments, CompactPlan(source, comments, swallow))
  {
    var edits, spans := CompactPlan(source, comments, swallow), RemovedSpans(comments);
    NoSwallowIsWhole(source, comments, swallow);
    MergedPlanIsFair(source, comments, swallow);
    PlanKeepsPairs(source, comments, swallow);
    MergeKeepsPairs(source, edits);
    forall p: nat, b: nat, q: nat | StandsAmid(source, comments, p, b, q)
      ensures BlankBetween(Apply(source, edits), Landed(edits, p), Landed(edits, q))
    {
      var a := OneIsLeftAlone(source, comments, swallow, p, b, q);
      MergeLeavesAlone(source, edits, a);
      var k := UntouchedIsAmid(source, Merge(edits), a);
      CodeLands(source, comments, edits, p);
      CodeLands(source, comments, edits, q);
      PairedLineStays(source, spans, Merge(edits), k, p, a, q);
    }
  }

  // ---- how many blank lines a removal leaves ----

  /** The line an edit begins on holds its comment, and so shows something. */
  lemma {:induction false} HuggedIsShown(source: Source, comments: seq<Comment>, e: Edit)
    requires BeginVisibly(source, comments) && Hugged(source, comments, e)
    ensures OnShownLine(source, e.span.start)
  {
    var i :| 0 <= i < |comments| && Removes(comments[i]) && Hugs(source, e, comments[i]);
    var c := comments[i];
    assert c in comments;
    var q: nat :| BeginsBefore(source, c, q);
    LineStartsTable(source);
    var starts := LineStarts(source);
    var l := LineOf(starts, e.span.start);
    if l + 1 < |starts| { assert LineBoundary(source, starts[l + 1]); }
    assert starts[l] <= q < LineStop(source, starts, l);
  }

  /**
   * The blank lines a removal takes never reach the next edit: it takes them all, as many as it may, but for
   * a last one that has no terminator.
   */
  lemma {:induction false} CompactNeverClamps(source: Source, comments: seq<Comment>, swallow: seq<Option<ByteSpan>>,
                                              k: nat)
    requires InOrder(comments, |source|) && SwallowFits(comments, swallow, |source|)
    requires Cuttable(source, comments) && NoSwallow(comments, swallow)
    requires BeginVisibly(source, comments) && EndVisibly(source, comments)
    requires var p := PlanAt(source, comments, swallow, |comments|);
             k < |p.list| && Closes(source, p.list, p.collapsible, k)
    ensures var p, starts := PlanAt(source, comments, swallow, |comments|), LineStarts(source);
            && Reach(source, p.list, p.collapsible, k)
               == LinesOn(starts, LineOf(starts, p.list[k].span.end), Allowance(source, p.list, p.collapsible, k))
            && (Reach(source, p.list, p.collapsible, k) > p.list[k].span.end ==>
                  exists count :: count > 0 && WidenedBy(source, p.list, p.collapsible, k, count))
  {
    var p := PlanAt(source, comments, swallow, |comments|);
    RemovalsAreOrdered(source, comments, swallow);
    PlanHugs(source, comments, swallow);
    if k + 1 < |p.list| {
      assert p.list[k + 1] in p.list;
      HuggedIsShown(source, comments, p.list[k + 1]);
    }
    ClampNeverBites(source, p.list, p.collapsible, k);
    if Reach(source, p.list, p.collapsible, k) > p.list[k].span.end {
      TakesWholeBlankLines(source, p.list, p.collapsible, k);
    }
  }

  /**
   * A removal of `compact` that stands alone between code leaves just as many blank lines as the longer run beside it,
   * and so at least one unless there was none, or one alone and a carriage return and a line feed are put together.
   */
  lemma {:induction false} CompactLeavesMax(source: Source, comments: seq<Comment>, swallow: seq<Option<ByteSpan>>,
                                            first: nat, last: nat, top: nat, bottom: nat, p: nat, q: nat)
    requires InOrder(comments, |source|) && SwallowFits(comments, swallow, |source|)
    requires Cuttable(source, comments) && SwallowsWholeLines(source, comments, swallow)
    requires NothingForms(CompactResidue(source, comments, swallow))
    requires var plan := PlanAt(source, comments, swallow, |comments|);
             StandsBetween(source, plan.list, plan.collapsible, first, last, top, bottom, p, q)
    ensures LineStarts(source) != [] && LineStarts(source)[0] == 0
    ensures var starts, edits := LineStarts(source), CompactPlan(source, comments, swallow);
            var before, after := BlankAbove(source, starts, top), BlankBelow(source, starts, bottom);
            && Ordered(edits, 0, |source|)
            && var out, from, to := Apply(source, edits), Landed(edits, p), Landed(edits, q);
            && 0 <= from < to < |out| && out[from] == source[p] && out[to] == source[q]
            && (forall i | from < i < to :: SymAt(out, i) != Ink)
            && bottom + Min(before, after) < |starts|
            && var met := SeamPair(source, starts[top], starts[bottom + Min(before, after)]);
            && LineNumber(out, to) + met == LineNumber(out, from) + 1 + Max(before, after)
            && (BlankBetween(out, from, to) <==> Max(before, after) > met)
  {
    var plan := PlanAt(source, comments, swallow, |comments|);
    RemovalsAreOrdered(source, comments, swallow);
    CompactLeavesBytes(source, comments, swallow);
    CompactPlanLeaves(source, comments, swallow);
    RemovalLeavesMax(source, plan.list, plan.collapsible, CompactResidue(source, comments, swallow), first, last, top,
                     bottom, p, q);
  }

  // ---- the planner ----

  /**
   * The edits of the `compact` layout. They are sorted and disjoint unless a removal trims blanks off the end
   * of a rewritten comment, and then they are not. They take the comments, the blanks in front of one that ends its
   * line and behind it, the terminators of lines that go, swallowed lines, and otherwise nothing but of blank lines;
   * what they make is what the bytes and the comments leave; and with no line swallowed a line that a removed comment
   * stood last on ends in what `lines` leaves last of it. Without rewrites they leave every byte outside removed
   * comments that is not white. For comments that are kept, or removed and no HTML comments, and that cut no
   * terminator, they leave every visible byte on its line with no two newly touching, if and only if no run of
   * comments fuses what it stands between. Where moreover no line is swallowed and removed comments end on
   * lines they show something on, a comment alone on its lines goes with them, leaving nothing; and code with a
   * blank line in between keeps one, always without lone carriage returns, and otherwise unless all that is
   * left of the line breaks in between is one carriage return and one line feed.
   */
  method CompactEdits(source: Source, comments: seq<Comment>, swallow: seq<Option<ByteSpan>>) returns (edits: seq<Edit>)
    requires InOrder(comments, |source|) && SwallowFits(comments, swallow, |source|)
    ensures edits == CompactPlan(source, comments, swallow)
    ensures Ordered(edits, 0, |source|) <==> !TrimsWithin(source, comments, swallow, |comments|)
    ensures CutsNone(source, comments) && SwallowsWholeLines(source, comments, swallow) ==>
              TakesWhatGoes(source, comments, swallow, edits)
    ensures CutsNone(source, comments) && SwallowsWholeLines(source, comments, swallow)
            && !TrimsWithin(source, comments, swallow, |comments|) ==>
              && Ordered(edits, 0, |source|)
              && Apply(source, edits) == RestIn(CompactResidue(source, comments, swallow), 0, |source|)
              && (NoSwallow(comments, swallow) ==> LinesEndWithLast(source, comments, edits))
    ensures NoRewrites(comments) ==> Ordered(edits, 0, |source|)
    ensures NoRewrites(comments) && SwallowsWholeLines(source, comments, swallow) && NoSeparators(source) ==>
              Solid(Apply(source, edits)) == Solid(Blanked(source, RemovedSpans(comments)))
    ensures Cuttable(source, comments) && SwallowsWholeLines(source, comments, swallow) ==>
              && Ordered(edits, 0, |source|)
              && (Outline(Apply(source, edits)) == RemainingOutline(source, comments) <==> NeverFuses(source, comments))
    ensures Cuttable(source, comments) && SwallowsWholeLines(source, comments, swallow)
            && NothingForms(CompactResidue(source, comments, swallow)) ==>
              && Ordered(edits, 0, |source|)
              && BlanksAreLeft(source, comments, edits, CompactResidue(source, comments, swallow))
    ensures Cuttable(source, comments) && NoSwallow(comments, swallow) && EndVisibly(source, comments) ==>
              && LinesGone(source, comments, edits)
              && (NeverFuses(source, comments) ==>
                    && Ordered(edits, 0, |source|)
                    && GapsStay(source, comments, edits, CompactResidue(source, comments, swallow))
                    && (NoLoneCR(source) ==> BlanksStay(source, comments, edits)))
  {
    var list, collapsible := PlanEdits(source, comments, swallow);
    PlanIsComplete(source, comments, swallow);
    var widened := new Edit[|list|](i requires 0 <= i < |list| => list[i]);
    assert widened[..] == list;
    CollapseCreatedBlankRuns(source, widened, collapsible);
    edits := widened[..];
  }

  /** All that is said of a finished plan. */
  lemma {:induction false} PlanIsComplete(source: Source, comments: seq<Comment>, swallow: seq<Option<ByteSpan>>)
    requires InOrder(comments, |source|) && SwallowFits(comments, swallow, |source|)
    ensures var edits := CompactPlan(source, comments, swallow);
            && (Ordered(edits, 0, |source|) <==> !TrimsWithin(source, comments, swallow, |comments|))
            && (CutsNone(source, comments) && SwallowsWholeLines(source, comments, swallow) ==>
                  TakesWhatGoes(source, comments, swallow, edits))
            && (CutsNone(source, comments) && SwallowsWholeLines(source, comments, swallow)
                && !TrimsWithin(source, comments, swallow, |comments|) ==>
                  && Ordered(edits, 0, |source|)
                  && Apply(source, edits) == RestIn(CompactResidue(source, comments, swallow), 0, |source|)
                  && (NoSwallow(comments, swallow) ==> LinesEndWithLast(source, comments, edits)))
            && (NoRewrites(comments) ==> Ordered(edits, 0, |source|))
            && (NoRewrites(comments) && SwallowsWholeLines(source, comments, swallow) && NoSeparators(source) ==>
                  Solid(Apply(source, edits)) == Solid(Blanked(source, RemovedSpans(comments))))
            && (Cuttable(source, comments) && SwallowsWholeLines(source, comments, swallow) ==>
                  && Ordered(edits, 0, |source|)
                  && (Outline(Apply(source, edits)) == RemainingOutline(source, comments)
                      <==> NeverFuses(source, comments)))
            && (Cuttable(source, comments) && SwallowsWholeLines(source, comments, swallow)
                && NothingForms(CompactResidue(source, comments, swallow)) ==>
                  && Ordered(edits, 0, |source|)
                  && BlanksAreLeft(source, comments, edits, CompactResidue(source, comments, swallow)))
            && (Cuttable(source, comments) && NoSwallow(comments, swallow) && EndVisibly(source, comments) ==>
                  && LinesGone(source, comments, edits)
                  && (NeverFuses(source, comments) ==>
                        && Ordered(edits, 0, |source|)
                        && GapsStay(source, comments, edits, CompactResidue(source, comments, swallow))
                        && (NoLoneCR(source) ==> BlanksStay(source, comments, edits))))
  {
    hide Ordered, Apply, NoSwallow, NoRewrites, Cuttable, SwallowsWholeLines, Outline, Blanked, Solid, LinesGone,
         GapsStay, BlanksStay, BlanksAreLeft, NeverFuses, NothingForms, EndVisibly, TrimsWithin, CompactPlan,
         CompactResidue, RestIn, CutsNone, TakesWhatGoes, LinesEndWithLast;
    OrderedUnlessTrimmed(source, comments, swallow);
    if CutsNone(source, comments) && SwallowsWholeLines(source, comments, swallow) {
      CompactTakesWhatGoes(source, comments, swallow);
      if !TrimsWithin(source, comments, swallow, |comments|) {
        CompactLeavesAll(source, comments, swallow);
        if NoSwallow(comments, swallow) { CompactTrimsLines(source, comments, swallow); }
      }
    }
    if NoRewrites(comments) {
      RemovalsAreOrdered(source, comments, swallow);
      if SwallowsWholeLines(source, comments, swallow) && NoSeparators(source) {
        CompactKeepsSolid(source, comments, swallow);
      }
    }
    if Cuttable(source, comments) && SwallowsWholeLines(source, comments, swallow) {
      CompactKeepsOutline(source, comments, swallow);
      if NothingForms(CompactResidue(source, comments, swallow)) { CompactLeavesBlanks(source, comments, swallow); }
    }
    if Cuttable(source, comments) && NoSwallow(comments, swallow) && EndVisibly(source, comments) {
      CompactTakesLines(source, comments, swallow);
      if NeverFuses(source, comments) {
        CompactKeepsGaps(source, comments, swallow);
        if NoLoneCR(source) { CompactKeepsBlanks(source, comments, swallow); }
      }
    }
  }
}
