/**
 * The `lines` layout: a removed comment leaves its line terminators, so that everything behind it keeps its
 * line, and a space where it was all that kept two tokens apart.
 */
module Lines {
  import opened Bytes
  import opened Commentwise
  import opened Edits
  import opened Erasures
  import opened Fusions
  import opened Layouts
  import opened Leavings
  import opened LineNumbers
  import opened LinesLeft
  import opened Outlines
  import opened Plans
  import opened Residues
  import opened Scanning
  import opened Seams

  /** What `lines` makes of a comment that is not kept. */
  ghost function LineEditOf(source: Source, comments: seq<Comment>, swallow: seq<Option<ByteSpan>>, i: nat): Edit
    requires InOrder(comments, |source|) && i < |comments|
  {
    var c := comments[i];
    if c.what.disposition.Rewrite? then Edit(c.span, c.what.disposition.replacement)
    else if SwallowAt(swallow, i).Some? then SwallowEdit(comments, swallow, i)
    else Edit(c.span, if c.what.kind == HtmlComment then [] else LineReplacement(source, c.span))
  }

  /** One edit for each of the first `n` comments that is not kept, in their order. */
  ghost function LinePlan(source: Source, comments: seq<Comment>, swallow: seq<Option<ByteSpan>>, n: nat): seq<Edit>
    requires InOrder(comments, |source|) && n <= |comments|
  {
    if n == 0 then []
    else
      LinePlan(source, comments, swallow, n - 1)
      + (if comments[n - 1].what.disposition == Keep then [] else [LineEditOf(source, comments, swallow, n - 1)])
  }

  /** Every edit of the plan is the edit of a comment. */
  lemma {:induction false} LinePlanOnly(source: Source, comments: seq<Comment>, swallow: seq<Option<ByteSpan>>, n: nat,
                                        e: Edit)
    returns (i: nat)
    requires InOrder(comments, |source|) && n <= |comments| && e in LinePlan(source, comments, swallow, n)
    ensures i < n && comments[i].what.disposition != Keep && e == LineEditOf(source, comments, swallow, i)
  {
    if e in LinePlan(source, comments, swallow, n - 1) {
      i := LinePlanOnly(source, comments, swallow, n - 1, e);
    } else {
      i := n - 1;
    }
  }

  /** Every comment that is not kept has its edit in the plan. */
  lemma {:induction false} LinePlanHas(source: Source, comments: seq<Comment>, swallow: seq<Option<ByteSpan>>, n: nat,
                                       i: nat)
    requires InOrder(comments, |source|) && i < n <= |comments| && comments[i].what.disposition != Keep
    ensures LineEditOf(source, comments, swallow, i) in LinePlan(source, comments, swallow, n)
  {
    hide LineEditOf, InOrder;
    if i < n - 1 { LinePlanHas(source, comments, swallow, n - 1, i); }
  }

  lemma {:induction false} LinePlanHolds(source: Source, comments: seq<Comment>, swallow: seq<Option<ByteSpan>>, n: nat)
    requires InOrder(comments, |source|) && SwallowFits(comments, swallow, |source|) && n <= |comments|
    ensures Planned(source, comments, n, LinePlan(source, comments, swallow, n), FloorOf(comments, swallow, n))
  {
    if n > 0 {
      var i, c := n - 1, comments[n - 1];
      var edits, floor := LinePlan(source, comments, swallow, i), FloorOf(comments, swallow, i);
      LinePlanHolds(source, comments, swallow, i);
      hide Planned;
      match c.what.disposition {
      case Keep =>
        PlanKeep(source, comments, i, edits, floor);
        assert edits + [] == edits;
      case Rewrite(_) => PlanRewrite(source, comments, i, edits, floor);
      case Remove =>
        LineRemovalFits(source, comments, swallow, i, edits, floor);
        PlanRemove(source, comments, i, edits, floor, LineEditOf(source, comments, swallow, i));
      }
    }
  }

  lemma {:induction false} LineRemovalFits(source: Source, comments: seq<Comment>, swallow: seq<Option<ByteSpan>>,
                                           i: nat, edits: seq<Edit>, floor: nat)
    requires InOrder(comments, |source|) && SwallowFits(comments, swallow, |source|)
    requires i < |comments| && Planned(source, comments, i, edits, floor) && Removes(comments[i])
    requires floor == FloorOf(comments, swallow, i)
    ensures var e := LineEditOf(source, comments, swallow, i);
            && LastEnd(edits) <= e.span.start <= comments[i].span.start
            && comments[i].span.end <= e.span.end <= StartOf(comments, i + 1, |source|)
  {
    if SwallowAt(swallow, i).Some? {
      SwallowedEdit(source, comments, swallow, i, edits, floor);
    } else {
      RoomBefore(source, comments, i, edits, floor);
    }
  }

  // ---- the outline ----

  /** Every edit of the plan takes nothing visible but comments, and leaves a gap where only it can. */
  lemma {:induction false} LinePlanIsTight(source: Source, comments: seq<Comment>, swallow: seq<Option<ByteSpan>>)
    requires InOrder(comments, |source|) && SwallowFits(comments, swallow, |source|)
    requires Cuttable(source, comments) && SwallowsWholeLines(source, comments, swallow)
    ensures var edits := LinePlan(source, comments, swallow, |comments|);
            AllDiscreet(source, RemovedSpans(comments), edits)
              && AllTight(source, comments, Spaceless(source, comments), edits)
  {
    forall e | e in LinePlan(source, comments, swallow, |comments|)
      ensures Discreet(source, RemovedSpans(comments), e) && Tight(source, comments, Spaceless(source, comments), e)
    {
      var i := LinePlanOnly(source, comments, swallow, |comments|, e);
      assert comments[i] in comments;
      if SwallowAt(swallow, i).Some? {
        SwallowEditIsFaithful(source, comments, Spaceless(source, comments), swallow, i);
      } else {
        LineEditIsDiscreet(source, comments, i);
        LineEditIsTight(source, comments, i);
      }
    }
  }

  lemma {:induction false} RunLeavesNothing(source: Source, comments: seq<Comment>, swallow: seq<Option<ByteSpan>>,
                                            i: nat, j: nat)
    requires InOrder(comments, |source|) && SwallowFits(comments, swallow, |source|)
    requires Cuttable(source, comments) && SwallowsWholeLines(source, comments, swallow)
    requires Fuses(source, comments, Spaceless(source, comments), i, j)
    ensures LeavesNothing(comments, LinePlan(source, comments, swallow, |comments|), i, j)
  {
    hide LinePlan, SwallowsWholeLines;
    forall m | i <= m <= j
      ensures Edit(comments[m].span, []) in LinePlan(source, comments, swallow, |comments|)
    {
      assert comments[m] in comments;
      RunIsNotSwallowed(source, comments, Spaceless(source, comments), swallow, i, j, m);
      UnbrokenLeavesNothing(source, comments[m].span);
      LinePlanHas(source, comments, swallow, |comments|, m);
    }
  }

  /**
   * For comments that are kept, or removed and no HTML comments, and cut no terminator, `lines` keeps the
   * outline if and only if no run of comments fuses what it stands between.
   */
  lemma {:induction false} LinesKeepOutline(source: Source, comments: seq<Comment>, swallow: seq<Option<ByteSpan>>)
    requires InOrder(comments, |source|) && SwallowFits(comments, swallow, |source|)
    requires Cuttable(source, comments) && SwallowsWholeLines(source, comments, swallow)
    ensures var edits := LinePlan(source, comments, swallow, |comments|);
            && Ordered(edits, 0, |source|)
            && (Outline(Apply(source, edits)) == RemainingOutline(source, comments) <==> NeverFuses(source, comments))
  {
    var edits, floor := LinePlan(source, comments, swallow, |comments|), FloorOf(comments, swallow, |comments|);
    LinePlanHolds(source, comments, swallow, |comments|);
    LinePlanIsTight(source, comments, swallow);
    if NeverFuses(source, comments) {
      TightPlanKeepsOutline(source, comments, Spaceless(source, comments), edits, floor);
    } else {
      var i: nat, j: nat :| Fuses(source, comments, Spaceless(source, comments), i, j);
      RunLeavesNothing(source, comments, swallow, i, j);
      TakenAll(comments, edits);
      FusedRunLosesOutline(source, comments, Spaceless(source, comments), edits, i, j);
    }
  }

  // ---- what is left, byte by byte ----

  /** A byte no edit takes is in no comment that is not kept. */
  lemma {:induction false} SurvivorIsHeldByNone(source: Source, comments: seq<Comment>, swallow: seq<Option<ByteSpan>>,
                                                i: nat)
    requires InOrder(comments, |source|) && NoSwallow(comments, swallow)
    requires Survives(LinePlan(source, comments, swallow, |comments|), i)
    ensures HolderOf(comments, |comments|, i).None?
  {
    match HolderOf(comments, |comments|, i)
    case None =>
    case Some(k) =>
      LinePlanHas(source, comments, swallow, |comments|, k);
      assert SwallowAt(swallow, k).None?;
  }

  /** The edits leave what the bytes are said to leave. */
  lemma {:induction false} LinePlanLeaves(source: Source, comments: seq<Comment>, swallow: seq<Option<ByteSpan>>)
    requires InOrder(comments, |source|) && CutsNone(source, comments) && NoSwallow(comments, swallow)
    ensures Leaves(source, LinePlan(source, comments, swallow, |comments|), LineResidue(source, comments))
  {
    var edits, left := LinePlan(source, comments, swallow, |comments|), LineResidue(source, comments);
    forall e | e in edits
      ensures e.span.start <= e.span.end <= |source| && e.replacement == RestIn(left, e.span.start, e.span.end)
    {
      var i := LinePlanOnly(source, comments, swallow, |comments|, e);
      assert SwallowAt(swallow, i).None?;
      CommentLeaves(source, comments, i);
      LeftInIsRest(source, comments, e.span.start, e.span.end);
    }
    forall i: nat | i < |source| && Survives(edits, i)
      ensures left[i] == [source[i]]
    {
      SurvivorIsHeldByNone(source, comments, swallow, i);
    }
  }

  /** The text `lines` makes is what the bytes of the source leave, one behind the other. */
  lemma {:induction false} LinesLeaveBytes(source: Source, comments: seq<Comment>, swallow: seq<Option<ByteSpan>>)
    requires InOrder(comments, |source|) && SwallowFits(comments, swallow, |source|)
    requires CutsNone(source, comments) && NoSwallow(comments, swallow)
    ensures var edits := LinePlan(source, comments, swallow, |comments|);
            && Ordered(edits, 0, |source|)
            && Apply(source, edits) == LeftIn(source, comments, 0, |source|)
  {
    var edits := LinePlan(source, comments, swallow, |comments|);
    LinePlanHolds(source, comments, swallow, |comments|);
    LinePlanLeaves(source, comments, swallow);
    AppliedIsRest(source, edits, LineResidue(source, comments));
    LeftInIsRest(source, comments, 0, |source|);
  }

  /** What comment `k` leaves under `lines`: its replacement, nothing, its line breaks or a space. */
  ghost function LineSays(source: Source, comments: seq<Comment>): nat -> Source
    requires InOrder(comments, |source|)
  {
    (k: nat) =>
      if k >= |comments| then []
      else
        var c := comments[k];
        if c.what.disposition.Rewrite? then c.what.disposition.replacement
        else if c.what.kind == HtmlComment then []
        else LineReplacement(source, c.span)
  }

  /** ... whatever the comments, and on swallowed lines too: comment by comment, and those lines leave nothing. */
  lemma {:induction false} LinesSay(source: Source, comments: seq<Comment>, swallow: seq<Option<ByteSpan>>)
    requires InOrder(comments, |source|) && SwallowFits(comments, swallow, |source|)
    ensures Ordered(LinePlan(source, comments, swallow, |comments|), 0, |source|)
    ensures Apply(source, LinePlan(source, comments, swallow, |comments|))
         == RestIn(Said(source, comments, swallow, LineSays(source, comments)), 0, |source|)
  {
    var edits, says := LinePlan(source, comments, swallow, |comments|), LineSays(source, comments);
    LinePlanHolds(source, comments, swallow, |comments|);
    forall e | e in edits
      ensures exists k: nat :: IsEditOf(comments, swallow, says, k, e)
    {
      var k := LinePlanOnly(source, comments, swallow, |comments|, e);
      assert IsEditOf(comments, swallow, says, k, e);
    }
    forall k: nat | k < |comments| && comments[k].what.disposition != Keep
      ensures exists e <- edits :: IsEditOf(comments, swallow, says, k, e)
    {
      LinePlanHas(source, comments, swallow, |comments|, k);
      assert IsEditOf(comments, swallow, says, k, LineEditOf(source, comments, swallow, k));
    }
    PlanSays(source, comments, swallow, says, edits);
  }

  /** What `lines` leaves is read and seen as it was, where nothing forms. */
  lemma {:induction false} LineResidueIsLegible(source: Source, comments: seq<Comment>)
    requires InOrder(comments, |source|) && Cuttable(source, comments)
    ensures Bytewise(source, LineResidue(source, comments)) && SeparatorsWhole(source, LineResidue(source, comments))
    ensures BreaksStay(source, LineResidue(source, comments))
  {
    hide Left, Cuttable;
    var left := LineResidue(source, comments);
    forall i: nat | i < |source|
      ensures left[i] == [source[i]] || left[i] == [] || left[i] == [SPACE]
      ensures SymAt(source, i) == Break ==> left[i] == [source[i]]
    {
      LeftIsByte(source, comments, i);
    }
    forall i: nat | SeparatorAt(source, i)
      ensures Remains(source, left, i, i + 3)
    {
      assert forall k | i <= k < i + 3 :: SymAt(source, k) == Break;
    }
  }

  /** Where no run of comments fuses what it stands between, no separator is put together either. */
  lemma {:induction false} LinesFormNothing(source: Source, comments: seq<Comment>, swallow: seq<Option<ByteSpan>>)
    requires InOrder(comments, |source|) && SwallowFits(comments, swallow, |source|)
    requires Cuttable(source, comments) && NeverFuses(source, comments) && NoSwallow(comments, swallow)
    ensures NothingForms(LineResidue(source, comments))
  {
    var edits, left := LinePlan(source, comments, swallow, |comments|), LineResidue(source, comments);
    LinePlanHolds(source, comments, swallow, |comments|);
    TakenAll(comments, edits);
    NoSwallowIsWhole(source, comments, swallow);
    LinePlanIsTight(source, comments, swallow);
    MergeIsFaithful(source, comments, Spaceless(source, comments), edits);
    LinePlanLeaves(source, comments, swallow);
    LineResidueIsLegible(source, comments);
    forall i: nat | InkStays(source, left, i)
      ensures Survives(edits, i)
    {
      InkIsHeldByNone(source, comments, i);
      forall e | e in edits
        ensures i < e.span.start || e.span.end <= i
      {
        var k := LinePlanOnly(source, comments, swallow, |comments|, e);
        assert SwallowAt(swallow, k).None?;
      }
    }
    FairFormsNothing(source, RemovedSpans(comments), edits, left);
  }

  /** Byte `i`, which stays, moves up by as many lines as line endings came together in front of it. */
  ghost predicate MovesByMeetings(source: Source, comments: seq<Comment>, out: Source, k: int, i: nat)
    requires InOrder(comments, |source|)
  {
    && i < |source| && 0 <= k < |out| && out[k] == source[i]
    && LineNumber(out, k) + Meetings(source, comments, i + 1) == LineNumber(source, i)
  }

  /** What `lines` leaves of a comment has the line breaks of the comment. */
  lemma {:induction false} LineEditKeepsBreaks(source: Source, s: ByteSpan)
    requires s.start <= s.end <= |source| && CleanCut(source, s.start) && CleanCut(source, s.end)
    ensures KeepsBreaks(source, Edit(s, LineReplacement(source, s)))
  {
    var slice := source[s.start..s.end];
    CellsSlice(source, s.start, s.end);
    NewlinesKeepBreaks(slice, 0);
    NewlinesAreBreaks(slice, 0);
    assert Cells(slice)[0..] == Cells(slice);
    assert Cells([SPACE])[1..] == [];
    assert BreakBytes(Cells([SPACE])) == [];
  }

  /**
   * With no line swallowed and no separator put together, `lines` leaves the bytes of all line breaks, and moves a
   * byte up by exactly the number of line endings that came together in front of it.
   */
  lemma {:induction false} LinesMoveByMeetings(source: Source, comments: seq<Comment>, swallow: seq<Option<ByteSpan>>)
    requires InOrder(comments, |source|) && SwallowFits(comments, swallow, |source|)
    requires Cuttable(source, comments) && NoSwallow(comments, swallow)
    requires NothingForms(LineResidue(source, comments))
    ensures var edits := LinePlan(source, comments, swallow, |comments|);
            && Ordered(edits, 0, |source|)
            && BreakBytes(Cells(Apply(source, edits))) == BreakBytes(Cells(source))
            && forall i: nat | i < |source| && Survives(edits, i) ::
                 MovesByMeetings(source, comments, Apply(source, edits), Landed(edits, i), i)
  {
    var edits, left := LinePlan(source, comments, swallow, |comments|), LineResidue(source, comments);
    LinePlanHolds(source, comments, swallow, |comments|);
    LinePlanLeaves(source, comments, swallow);
    LineResidueIsLegible(source, comments);
    AppliedIsRest(source, edits, left);
    BreaksInFront(source, left, |source|);
    var out := Apply(source, edits);
    assert Cells(out)[..|out|] == Cells(out) && Cells(source)[..|source|] == Cells(source);
    forall i: nat | i < |source| && Survives(edits, i)
      ensures MovesByMeetings(source, comments, out, Landed(edits, i), i)
    {
      StaysByPairs(source, left, i);
      LeftInIsRest(source, comments, 0, i);
      LeftInIsRest(source, comments, 0, |source|);
      PairsAtSurvivor(source, comments, i);
    }
  }

  /** So a byte keeps its line if and only if none did, as in every source without lone carriage returns. */
  lemma {:induction false} LineIsKept(source: Source, comments: seq<Comment>, out: Source, k: int, i: nat)
    requires InOrder(comments, |source|) && Cuttable(source, comments)
    requires MovesByMeetings(source, comments, out, k, i)
    ensures SameLine(source, out, k, i) <==> forall y: nat | y <= i :: !MeetsAt(source, comments, y)
    ensures NoLoneCR(source) ==> SameLine(source, out, k, i)
  {
    MeetingsNone(source, comments, i + 1);
    if NoLoneCR(source) { PairedNeverMeet(source, comments, i + 1); }
  }

  // ---- what is kept of the bytes ----

  /** With no line swallowed and no HTML comment removed, all carriage returns and line feeds are left, in order. */
  lemma {:induction false} LinesKeepEndings(source: Source, comments: seq<Comment>, swallow: seq<Option<ByteSpan>>)
    requires InOrder(comments, |source|) && SwallowFits(comments, swallow, |source|)
    requires NoHtml(comments) && NoSwallow(comments, swallow)
    ensures var edits := LinePlan(source, comments, swallow, |comments|);
            Ordered(edits, 0, |source|) && Endings(Apply(source, edits)) == Endings(source)
  {
    var edits := LinePlan(source, comments, swallow, |comments|);
    LinePlanHolds(source, comments, swallow, |comments|);
    forall e | e in edits
      ensures KeepsEndings(source, e)
    {
      var i := LinePlanOnly(source, comments, swallow, |comments|, e);
      assert comments[i] in comments && SwallowAt(swallow, i).None?;
      LineEditKeepsEndings(source, comments[i].span);
    }
    EndingsAreKept(source, edits);
  }

  /** Erasing white space from the output leaves what erasing it and the removed comments from the source leaves. */
  lemma {:induction false} LinesKeepSolid(source: Source, comments: seq<Comment>, swallow: seq<Option<ByteSpan>>)
    requires InOrder(comments, |source|) && SwallowFits(comments, swallow, |source|)
    requires NoRewrites(comments) && SwallowsWholeLines(source, comments, swallow) && NoSeparators(source)
    ensures var edits := LinePlan(source, comments, swallow, |comments|);
            && Ordered(edits, 0, |source|)
            && Solid(Apply(source, edits)) == Solid(Blanked(source, RemovedSpans(comments)))
  {
    var edits := LinePlan(source, comments, swallow, |comments|);
    LinePlanHolds(source, comments, swallow, |comments|);
    forall e | e in edits
      ensures TakesNoSolid(source, RemovedSpans(comments), e)
    {
      var i := LinePlanOnly(source, comments, swallow, |comments|, e);
      assert comments[i] in comments && FitsAt(comments, swallow, |source|, i);
      if SwallowAt(swallow, i).Some? {
        FloorFits(comments, swallow, |source|, i);
        SwallowTakesNoSolid(source, comments, swallow, i, e.span.start);
      } else {
        LineReplacementIsWhite(source, comments[i].span);
        CommentTakesNoSolid(source, comments, i, e.replacement);
      }
    }
    PlanKeepsSolid(source, comments, edits);
  }

  // ---- the planner ----

  /**
   * The edits of the `lines` layout, one for every comment that is not kept. Whatever the comments, they are
   * sorted and disjoint, and what they make is what the bytes and the comments leave, rewrites and swallowed lines
   * included; where all comments are kept or removed they leave every byte outside removed comments
   * that is not white. No HTML comment being removed: where no line is swallowed they leave every carriage
   * return and line feed; where no terminator is cut they leave every visible byte on its line with no two
   * newly touching, if and only if no run of comments fuses what it stands between. Where the bytes that are left
   * put no line or paragraph separator together, a byte that stays moves up by the number of line endings that
   * come together in front of it.
   */
  method LineEdits(source: Source, comments: seq<Comment>, swallow: seq<Option<ByteSpan>>) returns (edits: seq<Edit>)
    requires InOrder(comments, |source|) && SwallowFits(comments, swallow, |source|)
    ensures edits == LinePlan(source, comments, swallow, |comments|)
    ensures Ordered(edits, 0, |source|)
    ensures Apply(source, edits) == RestIn(Said(source, comments, swallow, LineSays(source, comments)), 0, |source|)
    ensures CutsNone(source, comments) && NoSwallow(comments, swallow) ==>
              Apply(source, edits) == LeftIn(source, comments, 0, |source|)
    ensures NoRewrites(comments) && SwallowsWholeLines(source, comments, swallow) && NoSeparators(source) ==>
              Solid(Apply(source, edits)) == Solid(Blanked(source, RemovedSpans(comments)))
    ensures NoHtml(comments) && NoSwallow(comments, swallow) ==> Endings(Apply(source, edits)) == Endings(source)
    ensures Cuttable(source, comments) && SwallowsWholeLines(source, comments, swallow) ==>
              (Outline(Apply(source, edits)) == RemainingOutline(source, comments) <==> NeverFuses(source, comments))
    ensures Cuttable(source, comments) && NoSwallow(comments, swallow)
            && NothingForms(LineResidue(source, comments)) ==>
              && BreakBytes(Cells(Apply(source, edits))) == BreakBytes(Cells(source))
              && forall i: nat | i < |source| && Survives(edits, i) ::
                   MovesByMeetings(source, comments, Apply(source, edits), Landed(edits, i), i)
  {
    edits := [];
    var floor: nat := 0;
    var index := 0;
    while index < |comments|
      invariant 0 <= index <= |comments|
      invariant edits == LinePlan(source, comments, swallow, index) && floor == FloorOf(comments, swallow, index)
    {
      var comment := comments[index];
      match comment.what.disposition {
      case Keep =>
      case Rewrite(replacement) =>
        edits := edits + [Edit(comment.span, replacement)];
      case Remove =>
        var edit := LineEdit(source, comments, index, swallow, floor);
        floor := edit.span.end;
        edits := edits + [edit];
      }
      index := index + 1;
    }
    LinePlanIsDone(source, comments, swallow);
  }

  /** All that is said of a finished plan. */
  lemma {:induction false} LinePlanIsDone(source: Source, comments: seq<Comment>, swallow: seq<Option<ByteSpan>>)
    requires InOrder(comments, |source|) && SwallowFits(comments, swallow, |source|)
    ensures var edits := LinePlan(source, comments, swallow, |comments|);
            && Ordered(edits, 0, |source|)
            && Apply(source, edits) == RestIn(Said(source, comments, swallow, LineSays(source, comments)), 0, |source|)
            && (CutsNone(source, comments) && NoSwallow(comments, swallow) ==>
                  Apply(source, edits) == LeftIn(source, comments, 0, |source|))
            && (NoRewrites(comments) && SwallowsWholeLines(source, comments, swallow) && NoSeparators(source) ==>
                  Solid(Apply(source, edits)) == Solid(Blanked(source, RemovedSpans(comments))))
            && (NoHtml(comments) && NoSwallow(comments, swallow) ==> Endings(Apply(source, edits)) == Endings(source))
            && (Cuttable(source, comments) && SwallowsWholeLines(source, comments, swallow) ==>
                  (Outline(Apply(source, edits)) == RemainingOutline(source, comments)
                   <==> NeverFuses(source, comments)))
            && (Cuttable(source, comments) && NoSwallow(comments, swallow)
                && NothingForms(LineResidue(source, comments)) ==>
                  && BreakBytes(Cells(Apply(source, edits))) == BreakBytes(Cells(source))
                  && forall i: nat | i < |source| && Survives(edits, i) ::
                       MovesByMeetings(source, comments, Apply(source, edits), Landed(edits, i), i))
  {
    hide Ordered, Apply, CutsNone, NoSwallow, NoRewrites, NoHtml, Cuttable, NothingForms, SwallowsWholeLines, Outline,
         MovesByMeetings, BreakBytes, LeftIn, Blanked, Survives, Endings, Solid, Said, RestIn;
    LinePlanHolds(source, comments, swallow, |comments|);
    LinesSay(source, comments, swallow);
    if CutsNone(source, comments) && NoSwallow(comments, swallow) {
      LinesLeaveBytes(source, comments, swallow);
    }
    if NoRewrites(comments) && SwallowsWholeLines(source, comments, swallow) && NoSeparators(source) {
      LinesKeepSolid(source, comments, swallow);
    }
    if NoHtml(comments) && NoSwallow(comments, swallow) {
      LinesKeepEndings(source, comments, swallow);
    }
    if Cuttable(source, comments) && SwallowsWholeLines(source, comments, swallow) {
      LinesKeepOutline(source, comments, swallow);
    }
    if Cuttable(source, comments) && NoSwallow(comments, swallow) && NothingForms(LineResidue(source, comments)) {
      LinesMoveByMeetings(source, comments, swallow);
    }
  }

  /** The edit for one removed comment. */
  method LineEdit(source: Source, comments: seq<Comment>, index: nat, swallow: seq<Option<ByteSpan>>, floor: nat)
    returns (edit: Edit)
    requires InOrder(comments, |source|) && index < |comments| && Removes(comments[index])
    requires floor == FloorOf(comments, swallow, index)
    ensures edit == LineEditOf(source, comments, swallow, index)
  {
    var comment := comments[index];
    var line := SwallowAt(swallow, index);
    if line.Some? { return Edit(ByteSpan(Max(line.value.start, floor), line.value.end), []); }
    var replacement := [];
    if comment.what.kind != HtmlComment {
      replacement := LineReplacementOf(source, comment.span);
    }
    edit := Edit(comment.span, replacement);
  }
}
