/** Inputs at which a promise of the layouts ends: one for each condition the theorems make. */
module Limits {
  import opened Bytes
  import opened Collapse
  import opened Columns
  import opened Compact
  import opened CompactLines
  import opened CompactPlans
  import opened CompactTakes
  import opened Edits
  import opened Gaps
  import opened Layouts
  import opened Leavings
  import opened LineNumbers
  import opened Lines
  import opened Outlines
  import opened Scanning
  import opened Seams

  function Found(start: nat, end: nat, disposition: Disposition): Comment {
    Located(ByteSpan(start, end), Classified(Block, disposition))
  }

  // ---- comments that fuse what they stand between ----

  /** `a`, a comment `x `, a comment ` y`, and `b`. */
  const SEAM: Source := [0x61, 0x78, SPACE, SPACE, 0x79, 0x62]

  const SEAM_COMMENTS: seq<Comment> := [Found(1, 3, Remove), Found(3, 5, Remove)]

  const SEAM_EDITS: seq<Edit> := [Edit(ByteSpan(1, 3), []), Edit(ByteSpan(3, 5), [])]

  lemma {:induction false} SeamFuses()
    ensures InOrder(SEAM_COMMENTS, |SEAM|) && Cuttable(SEAM, SEAM_COMMENTS)
            && Fuses(SEAM, SEAM_COMMENTS, Spaceless(SEAM, SEAM_COMMENTS), 0, 1)
    ensures SwallowFits(SEAM_COMMENTS, [], |SEAM|) && SwallowsWholeLines(SEAM, SEAM_COMMENTS, [])
  {
    hide IsCode, Unbroken;
    SeamIsCode();
    SeamHasNoBreak(1, 3);
    SeamHasNoBreak(3, 5);
  }

  lemma {:induction false} SeamHasNoBreak(a: nat, z: nat)
    requires a <= z <= |SEAM|
    ensures Unbroken(SEAM, a, z)
  {
  }

  lemma {:induction false} SeamIsCode()
    ensures IsCode(SEAM, SEAM_COMMENTS, 0) && IsCode(SEAM, SEAM_COMMENTS, 5)
  {
    var spans := RemovedSpans(SEAM_COMMENTS);
    RemovedSpansHold(SEAM_COMMENTS);
    forall s | s in spans
      ensures s == ByteSpan(1, 3) || s == ByteSpan(3, 5)
    {
    }
  }

  lemma {:induction false} SeamEdits()
    requires InOrder(SEAM_COMMENTS, |SEAM|)
    ensures LinePlan(SEAM, SEAM_COMMENTS, [], 2) == SEAM_EDITS
  {
    UnbrokenLeavesNothing(SEAM, ByteSpan(1, 3));
    UnbrokenLeavesNothing(SEAM, ByteSpan(3, 5));
    assert LinePlan(SEAM, SEAM_COMMENTS, [], 0) == [];
    assert LinePlan(SEAM, SEAM_COMMENTS, [], 1) == [SEAM_EDITS[0]];
  }

  /**
   * Two removed comments that touch with a blank at the seam each take that blank for the space between
   * the tokens, and it goes with them: `lines` leaves `a` and `b` touching.
   */
  lemma {:induction false} BlankSeamFusesTokens()
    ensures InOrder(SEAM_COMMENTS, |SEAM|) && LinePlan(SEAM, SEAM_COMMENTS, [], 2) == SEAM_EDITS
    ensures Ordered(SEAM_EDITS, 0, |SEAM|) && Apply(SEAM, SEAM_EDITS) == [0x61, 0x62]
    ensures Outline(Apply(SEAM, SEAM_EDITS)) != RemainingOutline(SEAM, SEAM_COMMENTS)
  {
    SeamFuses();
    SeamEdits();
    SeamApplied();
    LinesKeepOutline(SEAM, SEAM_COMMENTS, []);
  }

  lemma {:induction false} SeamApplied()
    ensures Ordered(SEAM_EDITS, 0, |SEAM|) && Apply(SEAM, SEAM_EDITS) == [0x61, 0x62]
  {
    var rest := SEAM_EDITS[1..];
    assert rest == [Edit(ByteSpan(3, 5), [])] && rest[1..] == [];
    assert ApplyFrom(SEAM, [], 5) == [0x62];
    assert ApplyFrom(SEAM, rest, 3) == [0x62];
    assert SEAM[0..1] == [0x61];
  }

  // ---- a comment that takes up no room ----

  /** `a`, a comment that is one ZERO WIDTH SPACE, and `b`. */
  const THIN: Source := [0x61, 0xE2, 0x80, 0x8B, 0x62]

  const THIN_COMMENTS: seq<Comment> := [Found(1, 4, Remove)]

  lemma {:induction false} ThinIsRoomless(width: Source -> nat)
    requires width([0xE2, 0x80, 0x8B]) == 0
    ensures 0 in Roomless(THIN, THIN_COMMENTS, width)
  {
    var u := Columns.Char([0xE2, 0x80, 0x8B]);
    assert THIN[1..4] == [0xE2, 0x80, 0x8B];
    assert UnitAt(THIN, 1, 4) == u;
    assert Parse(THIN, 4, 4) == [];
    assert Parse(THIN, 1, 4) == [u];
    assert RoomOf([u][1..], 0, width) == [];
  }

  lemma {:induction false} ThinFuses(width: Source -> nat)
    requires width([0xE2, 0x80, 0x8B]) == 0
    ensures InOrder(THIN_COMMENTS, |THIN|) && Cuttable(THIN, THIN_COMMENTS)
    ensures Fuses(THIN, THIN_COMMENTS, Roomless(THIN, THIN_COMMENTS, width), 0, 0)
  {
    hide Roomless;
    ThinIsRoomless(width);
    var spans := RemovedSpans(THIN_COMMENTS);
    RemovedSpansHold(THIN_COMMENTS);
    assert forall s | s in spans :: s == ByteSpan(1, 4);
  }

  /** `columns` leaves as much room as there was, which is none: `a` and `b` come to touch. */
  lemma {:induction false} ThinCommentFusesTokens(width: Source -> nat)
    requires width([0xE2, 0x80, 0x8B]) == 0
    ensures InOrder(THIN_COMMENTS, |THIN|) && SwallowFits(THIN_COMMENTS, [], |THIN|)
    ensures var edits := ColumnPlan(THIN, THIN_COMMENTS, [], 1, width);
            && Ordered(edits, 0, |THIN|)
            && Outline(Apply(THIN, edits)) != RemainingOutline(THIN, THIN_COMMENTS)
  {
    ThinFuses(width);
    ColumnsKeepOutline(THIN, THIN_COMMENTS, [], width);
  }

  // ---- two comments at the end of a line ----

  /** `a`, a blank, a comment `x`, a blank, and a comment `y`. */
  const ROW: Source := [0x61, SPACE, 0x78, SPACE, 0x79]

  const ROW_COMMENTS: seq<Comment> := [Found(2, 3, Remove), Found(4, 5, Remove)]

  lemma {:induction false} RowStandsLast()
    ensures InOrder(ROW_COMMENTS, |ROW|) && CutsNone(ROW, ROW_COMMENTS)
    ensures Left(ROW, ROW_COMMENTS, 1) == [SPACE]
    ensures StandsLast(ROW, ROW_COMMENTS, 1, 1, 4, 5)
  {
    assert HolderOf(ROW_COMMENTS, 2, 1) == None && HolderOf(ROW_COMMENTS, 2, 3) == None;
    assert HolderOf(ROW_COMMENTS, 2, 2) == Some(0);
    assert LineRunsOut(ROW, 5, 5, 0);
    assert InFrontOf(ROW, ROW_COMMENTS, 1, 3);
    assert !IsBlankByte(ROW, 2);
  }

  /** The blank in front of the first comment is no part of the end of the line, and `compact` leaves it there. */
  lemma {:induction false} TrailingBlankIsLeft()
    ensures InOrder(ROW_COMMENTS, |ROW|) && SwallowFits(ROW_COMMENTS, [], |ROW|)
    ensures var edits := CompactPlan(ROW, ROW_COMMENTS, []);
            && Ordered(edits, 0, |ROW|)
            && var out := Apply(ROW, edits);
            |out| > 0 && out[|out| - 1] == SPACE
  {
    hide CompactPlan, StandsLast;
    RowStandsLast();
    RemovalsNeverTrim(ROW, ROW_COMMENTS, []);
    LineEndsWithLast(ROW, ROW_COMMENTS, [], 1, 1, 4, 5);
    var out := Apply(ROW, CompactPlan(ROW, ROW_COMMENTS, []));
    assert out[|out| - 1..|out|][0] == out[|out| - 1];
  }

  // ---- a rewritten comment that ends in a blank ----

  /** A comment `# ` that is rewritten, and a comment `//` behind it that is removed. */
  const TRIMMED: Source := [0x23, SPACE, 0x2F, 0x2F]

  const TRIMMED_COMMENTS: seq<Comment> := [Found(0, 2, Rewrite([0x23])), Found(2, 4, Remove)]

  /**
   * `compact` trims the blank in front of the removed comment, which is the rewritten comment's own: its edits overlap.
   */
  lemma {:induction false} TrimmingOverlaps()
    ensures InOrder(TRIMMED_COMMENTS, |TRIMMED|) && SwallowFits(TRIMMED_COMMENTS, [], |TRIMMED|)
    ensures TrimsWithin(TRIMMED, TRIMMED_COMMENTS, [], 2)
    ensures !Ordered(CompactPlan(TRIMMED, TRIMMED_COMMENTS, []), 0, |TRIMMED|)
  {
    assert LineTail(TRIMMED, 4) == Some(Tail(4, 0));
    assert NearestChanged(TRIMMED_COMMENTS, 1) == Some(0);
    assert IsBlankByte(TRIMMED, 1);
    assert Trims(TRIMMED, TRIMMED_COMMENTS, [], 1);
    OrderedUnlessTrimmed(TRIMMED, TRIMMED_COMMENTS, []);
  }

  // ---- a lone carriage return ----

  /** `a`, a comment that holds a carriage return, a letter and a line feed, and `b`. */
  const LONE: Source := [0x61, 0x78, CR, 0x78, LF, 0x78, 0x62]

  const LONE_COMMENTS: seq<Comment> := [Found(1, 6, Remove)]

  lemma {:induction false} LoneNumbers()
    ensures LineNumber(LONE, 6) == 2 && LineNumber([0x61, CR, LF, 0x62], 3) == 1
  {
    assert LineNumber(LONE, 1) == 0;
    assert LineNumber(LONE, 2) == 0;
    assert LineNumber(LONE, 3) == 1;
    assert LineNumber(LONE, 4) == 1;
    assert LineNumber(LONE, 5) == 2;
    var out := [0x61, CR, LF, 0x62];
    assert LineNumber(out, 1) == 0;
    assert LineNumber(out, 2) == 0;
  }

  lemma {:induction false} LoneReplacement()
    ensures LineReplacement(LONE, ByteSpan(1, 6)) == [CR, LF]
  {
    var s := LONE[1..6];
    assert s == [0x78, CR, 0x78, LF, 0x78];
    assert NewlinesFrom(s, 5) == [];
    assert NewlinesFrom(s, 4) == [];
    assert NewlinesFrom(s, 3) == [LF];
    assert NewlinesFrom(s, 2) == [LF];
    assert NewlinesFrom(s, 1) == [CR] + [LF];
    assert NewlinesFrom(s, 0) == [CR, LF];
  }

  /** Under `lines` the two line endings come to stand side by side and are one: `b` is a line further up. */
  lemma {:induction false} LoneReturnMovesLines()
    ensures InOrder(LONE_COMMENTS, |LONE|)
    ensures var edits := LinePlan(LONE, LONE_COMMENTS, [], 1);
            && Ordered(edits, 0, |LONE|) && Apply(LONE, edits) == [0x61, CR, LF, 0x62] && Landed(edits, 6) == 3
            && LineNumber(LONE, 6) == 2 && LineNumber(Apply(LONE, edits), Landed(edits, 6)) == 1
  {
    LoneReplacement();
    LoneNumbers();
    var edits := LinePlan(LONE, LONE_COMMENTS, [], 1);
    assert LinePlan(LONE, LONE_COMMENTS, [], 0) == [];
    assert edits == [Edit(ByteSpan(1, 6), [CR, LF])];
    assert edits[1..] == [];
    assert ApplyFrom(LONE, [], 6) == [0x62];
    assert LONE[0..1] == [0x61];
  }

  // ---- a blank line put behind a carriage return ----

  /** `x` and a carriage return, a line that holds a comment, a blank line, and `y`. */
  const MET: Source := [0x78, CR, 0x23, LF, LF, 0x79]

  const MET_COMMENTS: seq<Comment> := [Found(2, 3, Remove)]

  const MET_EDITS: seq<Edit> := [Edit(ByteSpan(2, 4), [])]

  lemma {:induction false} MetStarts()
    ensures LineStarts(MET) == [0, 2, 4, 5]
  {
    assert StartsFrom(MET, 6) == [];
    assert StartsFrom(MET, 5) == [];
    assert StartsFrom(MET, 4) == [5];
    assert StartsFrom(MET, 3) == [4, 5];
    assert StartsFrom(MET, 2) == [4, 5];
    assert StartsFrom(MET, 1) == [2, 4, 5];
    assert StartsFrom(MET, 0) == [2, 4, 5];
  }

  lemma {:induction false} MetPlan()
    ensures InOrder(MET_COMMENTS, |MET|) && SwallowFits(MET_COMMENTS, [], |MET|)
    ensures PlanAt(MET, MET_COMMENTS, [], 1).list == MET_EDITS
  {
    assert LineStartFrom(MET, 2, 2, 2) == 2;
    assert LineStartFrom(MET, 1, 0, 2) == 2;
    assert LineStartFrom(MET, 0, 0, 2) == 2;
    assert LineTail(MET, 3) == Some(Tail(3, 1));
    assert BlankStart(MET, 2, 2) == 2;
    assert PlanAt(MET, MET_COMMENTS, [], 0) == Plan([], [], 0, 0, 0);
    assert RemovalEdit(MET, MET_COMMENTS, [], 0, Plan([], [], 0, 0, 0)) == MET_EDITS[0];
  }

  lemma {:induction false} MetCollapsed(collapsible: seq<bool>)
    ensures Collapsed(MET, MET_EDITS, collapsible) == MET_EDITS
  {
    MetStarts();
    var starts := LineStarts(MET);
    StartsAscend(MET);
    LineOfStart(starts, 1);
    LineOfStart(starts, 2);
    assert SymAt(MET, 0) == Ink && !BlankLine(MET, starts, 0);
    assert BlankAbove(MET, starts, 1) == 0;
    assert Reach(MET, MET_EDITS, collapsible, 0) == 4;
  }

  /** `compact` takes the comment with its line, and the blank line behind it becomes half of the line ending of `x`. */
  lemma {:induction false} BlankLineIsLost()
    ensures InOrder(MET_COMMENTS, |MET|) && SwallowFits(MET_COMMENTS, [], |MET|)
    ensures StandsAmid(MET, MET_COMMENTS, 0, 2, 5)
    ensures var edits := CompactPlan(MET, MET_COMMENTS, []);
            && Ordered(edits, 0, |MET|) && Apply(MET, edits) == [0x78, CR, LF, 0x79]
            && Landed(edits, 0) == 0 && Landed(edits, 5) == 3
            && !BlankBetween(Apply(MET, edits), 0, 3)
  {
    MetPlan();
    MetCollapsed(PlanAt(MET, MET_COMMENTS, [], 1).collapsible);
    MetStarts();
    MetStands();
    var out := [0x78, CR, LF, 0x79];
    assert MET_EDITS[1..] == [];
    assert ApplyFrom(MET, [], 4) == [LF, 0x79];
    assert MET[0..2] == [0x78, CR];
    assert OnlyPairAt(out, 2, 0, 3);
    OnePairIsNoBlank(out, 0, 3);
  }

  lemma {:induction false} MetStands()
    requires LineStarts(MET) == [0, 2, 4, 5]
    ensures StandsAmid(MET, MET_COMMENTS, 0, 2, 5)
  {
    var spans := RemovedSpans(MET_COMMENTS);
    RemovedSpansHold(MET_COMMENTS);
    forall s | s in spans
      ensures s == ByteSpan(2, 3)
    {
    }
    assert !Covered(spans, 0) && !Covered(spans, 5);
  }

  // ---- blank lines that end without a terminator ----

  /** A blank line, a comment on its own, and a line of two spaces the source ends with. */
  const TAIL: Source := [LF, 0x23, LF, SPACE, SPACE]

  const TAIL_EDITS: seq<Edit> := [Edit(ByteSpan(1, 3), [])]

  lemma {:induction false} TailStarts()
    ensures LineStarts(TAIL) == [0, 1, 3]
  {
    assert StartsFrom(TAIL, 5) == [];
    assert StartsFrom(TAIL, 4) == [];
    assert StartsFrom(TAIL, 3) == [];
    assert StartsFrom(TAIL, 2) == [3];
    assert StartsFrom(TAIL, 1) == [3];
    assert StartsFrom(TAIL, 0) == [1, 3];
  }

  /** One blank line above and one below, and both are left: the one below has no line behind it to move up to. */
  lemma {:induction false} UnterminatedBlankStays()
    ensures LineStarts(TAIL) == [0, 1, 3]
    ensures BlankAbove(TAIL, LineStarts(TAIL), 1) == 1 && BlankBelow(TAIL, LineStarts(TAIL), 2) == 1
    ensures Collapsed(TAIL, TAIL_EDITS, [true]) == TAIL_EDITS
  {
    TailStarts();
    var starts := LineStarts(TAIL);
    assert BlankLine(TAIL, starts, 0) && !BlankLine(TAIL, starts, 3);
    assert BlankLine(TAIL, starts, 2);
    assert Collapse.First(TAIL, TAIL_EDITS, [true], 0) == Some(0);
    StartsAscend(TAIL);
    LineOfStart(starts, 1);
    LineOfStart(starts, 2);
    assert Reach(TAIL, TAIL_EDITS, [true], 0) == 3;
    assert Widened(TAIL, TAIL_EDITS, [true], 0) == TAIL_EDITS[0];
  }

  // ---- a rewritten comment in front of a removal ----

  /** A comment `t`, a blank line, a comment `c` on its own, a blank line, and `b`. */
  const LATE: Source := [0x74, LF, LF, 0x63, LF, LF, 0x62]

  function LateComments(first: Disposition): seq<Comment> {
    [Found(0, 1, first), Found(3, 4, Remove)]
  }

  lemma {:induction false} LateStarts()
    ensures LineStarts(LATE) == [0, 2, 3, 5, 6]
    ensures BlankAbove(LATE, LineStarts(LATE), 2) == 1 && BlankBelow(LATE, LineStarts(LATE), 3) == 1
  {
    assert StartsFrom(LATE, 7) == [];
    assert StartsFrom(LATE, 6) == [];
    assert StartsFrom(LATE, 5) == [6];
    assert StartsFrom(LATE, 4) == [5, 6];
    assert StartsFrom(LATE, 3) == [5, 6];
    assert StartsFrom(LATE, 2) == [3, 5, 6];
    assert StartsFrom(LATE, 1) == [2, 3, 5, 6];
    assert StartsFrom(LATE, 0) == [2, 3, 5, 6];
    var starts := LineStarts(LATE);
    assert SymAt(LATE, 0) == Ink && SymAt(LATE, 6) == Ink;
    assert BlankLine(LATE, starts, 1) && !BlankLine(LATE, starts, 0);
    assert BlankLine(LATE, starts, 3) && !BlankLine(LATE, starts, 4);
  }

  lemma {:induction false} LatePlan(first: Disposition)
    requires first == Keep || first == Rewrite([0x54])
    ensures InOrder(LateComments(first), |LATE|) && SwallowFits(LateComments(first), [], |LATE|)
    ensures var p, rewrites := PlanAt(LATE, LateComments(first), [], 2), if first == Keep then [] else [LATE_REWRITE];
            p.list == rewrites + [Edit(ByteSpan(3, 5), [])] && p.collapsible == [true]
  {
    assert LineStartFrom(LATE, 3, 3, 3) == 3;
    assert LineStartFrom(LATE, 2, 2, 3) == 3;
    assert LineStartFrom(LATE, 1, 0, 3) == 3;
    assert LineStartFrom(LATE, 0, 0, 3) == 3;
    assert LineTail(LATE, 4) == Some(Tail(4, 1));
    assert BlankStart(LATE, 3, 3) == 3;
    assert PlanAt(LATE, LateComments(first), [], 0) == Plan([], [], 0, 0, 0);
    var p := PlanAt(LATE, LateComments(first), [], 1);
    assert p == Plan(if first == Keep then [] else [LATE_REWRITE], [], 0, 0, 0);
    assert RemovalEdit(LATE, LateComments(first), [], 1, p) == Edit(ByteSpan(3, 5), []);
  }

  const LATE_REWRITE: Edit := Edit(ByteSpan(0, 1), [0x54])

  /**
   * With one blank line above it and one below, the removal should leave one. It does where the first comment is kept;
   * where that one is rewritten the removal is not looked at, and both are left.
   */
  lemma {:induction false} RewriteLeavesBlankRun()
    ensures BlankAbove(LATE, LineStarts(LATE), 2) == 1 && BlankBelow(LATE, LineStarts(LATE), 3) == 1
    ensures InOrder(LateComments(Keep), |LATE|) && SwallowFits(LateComments(Keep), [], |LATE|)
    ensures var edits := CompactPlan(LATE, LateComments(Keep), []);
            Ordered(edits, 0, |LATE|) && Apply(LATE, edits) == [0x74, LF, LF, 0x62]
    ensures InOrder(LateComments(Rewrite([0x54])), |LATE|) && SwallowFits(LateComments(Rewrite([0x54])), [], |LATE|)
    ensures var edits := CompactPlan(LATE, LateComments(Rewrite([0x54])), []);
            Ordered(edits, 0, |LATE|) && Apply(LATE, edits) == [0x54, LF, LF, LF, 0x62]
  {
    hide PlanAt, Collapsed, Ordered, Apply, SwallowFits, InOrder, LineStarts, BlankAbove, BlankBelow;
    LateStarts();
    LatePlan(Keep);
    LatePlan(Rewrite([0x54]));
    LateWidened();
    LateApplies();
    assert [] + [Edit(ByteSpan(3, 5), [])] == [Edit(ByteSpan(3, 5), [])];
    assert [LATE_REWRITE] + [Edit(ByteSpan(3, 5), [])] == [LATE_REWRITE, Edit(ByteSpan(3, 5), [])];
  }

  lemma {:induction false} LateWidened()
    requires LineStarts(LATE) == [0, 2, 3, 5, 6]
    requires BlankAbove(LATE, LineStarts(LATE), 2) == 1 && BlankBelow(LATE, LineStarts(LATE), 3) == 1
    ensures var cut := Edit(ByteSpan(3, 5), []);
            && Collapsed(LATE, [cut], [true]) == [Edit(ByteSpan(3, 6), [])]
            && Collapsed(LATE, [LATE_REWRITE, cut], [true]) == [LATE_REWRITE, cut]
  {
    var starts, cut := LineStarts(LATE), Edit(ByteSpan(3, 5), []);
    StartsAscend(LATE);
    LineOfStart(starts, 2);
    LineOfStart(starts, 3);
    assert Collapse.First(LATE, [cut], [true], 0) == Some(0);
    assert Collapse.First(LATE, [LATE_REWRITE, cut], [true], 1) == None;
    assert Reach(LATE, [cut], [true], 0) == 6;
    assert Reach(LATE, [LATE_REWRITE, cut], [true], 0) == 1 && Reach(LATE, [LATE_REWRITE, cut], [true], 1) == 5;
  }

  lemma {:induction false} LateApplies()
    ensures var wide := [Edit(ByteSpan(3, 6), [])];
            Ordered(wide, 0, |LATE|) && Apply(LATE, wide) == [0x74, LF, LF, 0x62]
    ensures var both := [LATE_REWRITE, Edit(ByteSpan(3, 5), [])];
            Ordered(both, 0, |LATE|) && Apply(LATE, both) == [0x54, LF, LF, LF, 0x62]
  {
    var wide, both := [Edit(ByteSpan(3, 6), [])], [LATE_REWRITE, Edit(ByteSpan(3, 5), [])];
    assert wide[1..] == [] && both[1..][1..] == [];
    assert ApplyFrom(LATE, [], 6) == [0x62];
    assert ApplyFrom(LATE, [], 5) == [LF, 0x62];
    assert ApplyFrom(LATE, both[1..], 1) == [LF, LF] + [LF, 0x62] by { assert LATE[1..3] == [LF, LF]; }
    assert LATE[0..3] == [0x74, LF, LF];
  }

  /** The same text with `b` taken for a comment that is removed; the line of the one before it is swallowed. */
  const HELD_COMMENTS: seq<Comment> := [Found(0, 1, Rewrite([0x54])), Found(3, 4, Remove), Found(6, 7, Remove)]

  const HELD_LINES: seq<Option<ByteSpan>> := [None, Some(ByteSpan(3, 5))]

  lemma {:induction false} HeldPlan()
    ensures InOrder(HELD_COMMENTS, |LATE|) && SwallowFits(HELD_COMMENTS, HELD_LINES, |LATE|)
    ensures var p := PlanAt(LATE, HELD_COMMENTS, HELD_LINES, 3);
            && p.list == [LATE_REWRITE, Edit(ByteSpan(3, 5), []), Edit(ByteSpan(6, 7), [])]
            && p.collapsible == [false, true]
  {
    assert PlanAt(LATE, HELD_COMMENTS, HELD_LINES, 0) == Plan([], [], 0, 0, 0);
    assert PlanAt(LATE, HELD_COMMENTS, HELD_LINES, 1) == Plan([LATE_REWRITE], [], 0, 0, 0);
    var p := PlanAt(LATE, HELD_COMMENTS, HELD_LINES, 2);
    assert p == Plan([LATE_REWRITE, Edit(ByteSpan(3, 5), [])], [false], 5, 5, 5);
    assert LineStartFrom(LATE, 6, 6, 6) == 6;
    assert LineStartFrom(LATE, 5, 5, 6) == 6;
    assert LineTail(LATE, 7) == Some(Tail(7, 0));
    assert BlankStart(LATE, 6, 6) == 6;
    assert RemovalEdit(LATE, HELD_COMMENTS, HELD_LINES, 2, p) == Edit(ByteSpan(6, 7), []);
  }

  /**
   * A swallowed line is to be left where `lines` leaves it. Behind a rewritten comment it reads the flag of the next
   * removal, and takes the blank line below it too.
   */
  lemma {:induction false} SwallowedLineIsWidened()
    ensures InOrder(HELD_COMMENTS, |LATE|) && SwallowFits(HELD_COMMENTS, HELD_LINES, |LATE|)
    ensures CompactPlan(LATE, HELD_COMMENTS, HELD_LINES)
         == [LATE_REWRITE, Edit(ByteSpan(3, 6), []), Edit(ByteSpan(6, 7), [])]
    ensures LineEditOf(LATE, HELD_COMMENTS, HELD_LINES, 1) == Edit(ByteSpan(3, 5), [])
  {
    HeldPlan();
    LateStarts();
    var starts, list := LineStarts(LATE), [LATE_REWRITE, Edit(ByteSpan(3, 5), []), Edit(ByteSpan(6, 7), [])];
    StartsAscend(LATE);
    LineOfStart(starts, 2);
    LineOfStart(starts, 3);
    assert Collapse.First(LATE, list, [false, true], 0) == None;
    assert Collapse.First(LATE, list, [false, true], 1) == Some(1);
    assert Collapse.First(LATE, list, [false, true], 2) == None;
    assert Reach(LATE, list, [false, true], 1) == 6;
  }
}
