/**
 * The `compact` layout: `lines`, plus the promise that a line which held nothing but a removed comment
 * goes away, and that a removal leaves no trailing blanks behind.
 */
module Compact {
  import opened Bytes
  import opened Edits
  import opened Layouts
  import opened Outlines
  import opened Plans
  import opened Scanning
  import opened Seams

  // ---- how the line around a comment runs ----

  /** The first line terminator inside `i..end`, as it was written; one that reaches past `end` is none. */
  function FirstTerminator(source: Source, i: nat, end: nat): (t: Option<Source>)
    requires end <= |source|
    decreases end - i
  {
    if i >= end then None
    else
      var w := TerminatorWidth(source, i);
      if w.Some? && i + w.value <= end then Some(source[i..i + w.value])
      else FirstTerminator(source, i + 1, end)
  }

  method FirstTerminatorOf(source: Source, span: ByteSpan) returns (t: Option<Source>)
    requires span.start <= span.end <= |source|
    ensures t == FirstTerminator(source, span.start, span.end)
  {
    var index := span.start;
    while index < span.end
      invariant span.start <= index <= span.end
      invariant FirstTerminator(source, span.start, span.end) == FirstTerminator(source, index, span.end)
    {
      var w := TerminatorWidth(source, index);
      if w.Some? && index + w.value <= span.end { return Some(source[index..index + w.value]); }
      index := index + 1;
    }
    t := None;
  }

  datatype Tail = Tail(blanks: nat, terminator: nat)

  /**
   * How the line runs out from `i`: where its blanks stop and how wide the terminator there is, 0 at the
   * end of the source; `None` when something else follows on the line.
   */
  function LineTail(source: Source, i: nat): (t: Option<Tail>)
    requires i <= |source|
    ensures t.Some? ==> i <= t.value.blanks && t.value.blanks + t.value.terminator <= |source|
    ensures t.Some? && t.value.terminator == 0 ==> t.value.blanks == |source|
    ensures t.Some? && t.value.terminator > 0 ==> TerminatorWidth(source, t.value.blanks) == Some(t.value.terminator)
    ensures t.Some? ==> forall k | i <= k < t.value.blanks ::
            IsWhitespace(source[k]) && TerminatorWidth(source, k).None?
    decreases |source| - i
  {
    var w := TerminatorWidth(source, i);
    if w.Some? then Some(Tail(i, w.value))
    else if i == |source| then Some(Tail(i, 0))
    else if IsWhitespace(source[i]) then LineTail(source, i + 1)
    else None
  }

  method LineTailOf(source: Source, from: nat) returns (t: Option<Tail>)
    requires from <= |source|
    ensures t == LineTail(source, from)
  {
    var index := from;
    while true
      invariant from <= index <= |source|
      invariant LineTail(source, from) == LineTail(source, index)
      decreases |source| - index
    {
      var w := TerminatorWidth(source, index);
      if w.Some? { return Some(Tail(index, w.value)); }
      if index == |source| { return Some(Tail(index, 0)); }
      if !IsWhitespace(source[index]) { return None; }
      index := index + 1;
    }
  }

  predicate IsBlankByte(source: Source, i: nat) {
    i < |source| && IsWhitespace(source[i]) && TerminatorWidth(source, i).None?
  }

  /** Where the blanks that end at `at` begin, no further back than `floor` and never across a terminator. */
  function BlankStart(source: Source, at: nat, floor: nat): (s: nat)
    requires floor <= at <= |source|
    ensures floor <= s <= at
    ensures forall k | s <= k < at :: IsBlankByte(source, k)
    ensures s > floor ==> !IsBlankByte(source, s - 1)
    decreases at
  {
    if at > floor && IsBlankByte(source, at - 1) then BlankStart(source, at - 1, floor) else at
  }

  method BlankStartOf(source: Source, at: nat, floor: nat) returns (s: nat)
    requires floor <= at <= |source|
    ensures s == BlankStart(source, at, floor)
  {
    s := at;
    while s > floor && IsWhitespace(source[s - 1]) && TerminatorWidth(source, s - 1).None?
      invariant floor <= s <= at
      invariant BlankStart(source, at, floor) == BlankStart(source, s, floor)
    {
      s := s - 1;
    }
  }

  predicate HasCode(source: Source, a: nat, z: nat)
    requires a <= z <= |source|
  {
    exists k :: a <= k < z && !IsWhitespace(source[k])
  }

  /** Whether nothing of the line is left behind the comment, or the comment ran over the end of it. */
  predicate EndsItsLine(source: Source, c: Comment)
    requires c.span.start <= c.span.end <= |source|
  {
    || LineTail(source, c.span.end).Some?
    || (c.what.kind != HtmlComment && FirstTerminator(source, c.span.start, c.span.end).Some?)
  }

  /** Where a `compact` removal begins: at the blanks in front of a comment that ends its line. */
  function RemovalStart(source: Source, c: Comment, floor: nat): nat
    requires floor <= c.span.start <= c.span.end <= |source|
  {
    if EndsItsLine(source, c) then BlankStart(source, c.span.start, floor) else c.span.start
  }

  /** Where it ends: behind the blanks that follow, and behind the terminator too when no code keeps the line. */
  function RemovalEnd(source: Source, c: Comment, lineStart: nat, ceiling: nat): nat
    requires lineStart <= c.span.start <= c.span.end <= |source|
  {
    match LineTail(source, c.span.end)
    case None => Min(c.span.end, ceiling)
    case Some(tail) =>
      var spansLines := c.what.kind != HtmlComment && FirstTerminator(source, c.span.start, c.span.end).Some?;
      var eats := spansLines || !HasCode(source, lineStart, c.span.start);
      Min(tail.blanks + (if eats then tail.terminator else 0), ceiling)
  }

  /** What it leaves: the terminator of the code line in front, or what `lines` leaves in the middle of one. */
  function RemovalRest(source: Source, c: Comment, lineStart: nat): Source
    requires lineStart <= c.span.start <= c.span.end <= |source|
  {
    var interior := FirstTerminator(source, c.span.start, c.span.end);
    if c.what.kind == HtmlComment then []
    else if !EndsItsLine(source, c) then LineReplacement(source, c.span)
    else if interior.Some? && HasCode(source, lineStart, c.span.start) then interior.value
    else []
  }

  method CompactEdit(source: Source, c: Comment, lineStart: nat, floor: nat, ceiling: nat) returns (edit: Edit)
    requires lineStart <= c.span.start < c.span.end <= |source| && floor <= c.span.start
    ensures edit == Edit(ByteSpan(RemovalStart(source, c, Max(floor, lineStart)),
                                  RemovalEnd(source, c, lineStart, ceiling)),
                         RemovalRest(source, c, lineStart))
  {
    var span := c.span;
    var html := c.what.kind == HtmlComment;
    var interior := FirstTerminatorOf(source, span);
    var tail := LineTailOf(source, span.end);
    var headCode := HasCode(source, lineStart, span.start);
    var endsTheLine := tail.Some? || (interior.Some? && !html);
    var start := span.start;
    if endsTheLine { start := BlankStartOf(source, span.start, Max(floor, lineStart)); }
    var eatsTheTerminator := if html then !headCode else interior.Some? || !headCode;
    var end := match tail
      case Some(t) => t.blanks + (if eatsTheTerminator then t.terminator else 0)
      case None => span.end;
    var replacement := [];
    if html {
    } else if !endsTheLine {
      replacement := LineReplacementOf(source, span);
    } else if interior.Some? && headCode {
      replacement := interior.value;
    }
    edit := Edit(ByteSpan(start, Min(end, ceiling)), replacement);
  }

  // ---- one removal keeps the outline ----

  lemma {:induction false} BlankByteIsBlank(source: Source, i: nat)
    requires IsBlankByte(source, i)
    ensures SymAt(source, i) == Blank && CleanCut(source, i)
  {
  }

  lemma {:induction false} FirstTerminatorIsBreak(source: Source, i: nat, end: nat)
    requires end <= |source|
    ensures FirstTerminator(source, i, end).Some? ==> exists k :: i <= k < end && SymAt(source, k) == Break
    ensures FirstTerminator(source, i, end).Some? ==>
              var t := FirstTerminator(source, i, end).value;
              t != [] && NoInk(Cells(t)) && HasBreak(Cells(t))
    ensures FirstTerminator(source, i, end).None? && CleanCut(source, i) && WholeTerminators(source, end) ==>
              forall k | i <= k < end :: SymAt(source, k) != Break
    decreases end - i
  {
    if i < end {
      var w := TerminatorWidth(source, i);
      if w.Some? && i + w.value <= end {
        TerminatorCells(source, i);
        var t := source[i..i + w.value];
        assert SymAt(source, i + 0) == Break && Cells(t)[0].sym == Break;
      } else {
        FirstTerminatorIsBreak(source, i + 1, end);
      }
    }
  }

  /** Behind the comment its line shows nothing, up to and with its terminator. */
  lemma {:induction false} TailShowsNothing(source: Source, from: nat)
    requires from <= |source| && LineTail(source, from).Some?
    ensures var t := LineTail(source, from).value;
            && (forall k | from <= k < t.blanks :: IsBlankByte(source, k) && SymAt(source, k) == Blank)
            && (forall k | t.blanks <= k < t.blanks + t.terminator :: SymAt(source, k) == Break)
            && CleanCut(source, t.blanks) && CleanCut(source, t.blanks + t.terminator)
            && (t.blanks == |source| || SymAt(source, t.blanks) != Ink)
  {
    var t := LineTail(source, from).value;
    forall k | from <= k < t.blanks
      ensures IsBlankByte(source, k) && SymAt(source, k) == Blank
    {
      BlankByteIsBlank(source, k);
    }
    if t.terminator > 0 {
      TerminatorCells(source, t.blanks);
      forall k | t.blanks <= k < t.blanks + t.terminator
        ensures SymAt(source, k) == Break
      {
        assert SymAt(source, t.blanks + (k - t.blanks)) == Break;
      }
    }
  }

  /** What a removal takes, when it ends its line: blanks, the comment, blanks, and at most the terminator. */
  lemma {:induction false} RemovalShowsNothing(source: Source, comments: seq<Comment>, i: nat, lineStart: nat,
                                               floor: nat)
    requires InOrder(comments, |source|) && CutsNone(source, comments)
    requires i < |comments| && Removes(comments[i]) && EndsItsLine(source, comments[i])
    requires floor <= comments[i].span.start && lineStart <= comments[i].span.start
    ensures var c, spans := comments[i], RemovedSpans(comments);
            var a, z := RemovalStart(source, c, floor),
                RemovalEnd(source, c, lineStart, StartOf(comments, i + 1, |source|));
            && a <= c.span.start && c.span.end <= z <= |source|
            && CleanCut(source, a) && CleanCut(source, z)
            && (forall k | a <= k < z :: SymAt(source, k) != Ink || Covered(spans, k))
            && (forall k | a <= k < c.span.start :: SymAt(source, k) == Blank)
  {
    var c, spans := comments[i], RemovedSpans(comments);
    assert c in comments;
    RemovedSpansHold(comments);
    var ceiling := StartOf(comments, i + 1, |source|);
    var a, z := RemovalStart(source, c, floor), RemovalEnd(source, c, lineStart, ceiling);
    forall k | a <= k < c.span.start
      ensures SymAt(source, k) == Blank && CleanCut(source, k)
    {
      BlankByteIsBlank(source, k);
    }
    forall k | c.span.start <= k < c.span.end
      ensures Covered(spans, k)
    {
      SpanIsCovered(spans, c.span, k);
    }
    if LineTail(source, c.span.end).Some? {
      TailShowsNothing(source, c.span.end);
      if i + 1 < |comments| { assert comments[i + 1] in comments; }
    }
  }

  /** A window without a visible byte of its own, seen in the blanked source. */
  lemma {:induction false} Window(source: Source, spans: seq<ByteSpan>, a: nat, z: nat)
    requires a <= z <= |source|
    requires forall k | a <= k < z :: SymAt(source, k) != Ink || Covered(spans, k)
    ensures NoInk(Cells(Blanked(source, spans))[a..z])
    ensures HasBreak(Cells(Blanked(source, spans))[a..z]) <==> exists k :: a <= k < z && SymAt(source, k) == Break
  {
    BlankedSym(source, spans);
    var w := Cells(Blanked(source, spans))[a..z];
    forall k | 0 <= k < |w|
      ensures w[k].sym == SymAt(Blanked(source, spans), a + k)
    {
    }
    if k :| a <= k < z && SymAt(source, k) == Break {
      assert w[k - a].sym == Break;
    }
  }

  /** No code in front of it on its line: the line goes, or what is left of it begins afresh. */
  lemma {:induction false} NoCodeIsFaithful(source: Source, comments: seq<Comment>, i: nat, lineStart: nat, floor: nat)
    requires InOrder(comments, |source|) && CutsNone(source, comments)
    requires i < |comments| && Removes(comments[i]) && EndsItsLine(source, comments[i])
    requires lineStart <= floor <= comments[i].span.start
    requires lineStart == 0 || SymAt(source, lineStart - 1) == Break
    requires !HasCode(source, lineStart, comments[i].span.start)
    ensures var c := comments[i];
            Faithful(source, RemovedSpans(comments),
                     Edit(ByteSpan(RemovalStart(source, c, floor),
                                   RemovalEnd(source, c, lineStart, StartOf(comments, i + 1, |source|))), []))
  {
    var c, spans := comments[i], RemovedSpans(comments);
    RemovalShowsNothing(source, comments, i, lineStart, floor);
    var a, z := RemovalStart(source, c, floor), RemovalEnd(source, c, lineStart, StartOf(comments, i + 1, |source|));
    forall k | lineStart <= k < z
      ensures SymAt(source, k) != Ink || Covered(spans, k)
    {
      if k < c.span.start { WhitespaceIsNoInk(source, k); }
    }
    LineTakenIsFaithful(source, spans, lineStart, a, z);
  }

  /** Code in front of a comment that runs over its line: the terminator of the code line stays. */
  lemma {:induction false} TerminatorKeptIsFaithful(source: Source, comments: seq<Comment>, i: nat, lineStart: nat,
                                                    floor: nat)
    requires InOrder(comments, |source|) && CutsNone(source, comments)
    requires i < |comments| && Removes(comments[i]) && EndsItsLine(source, comments[i])
    requires lineStart <= floor <= comments[i].span.start
    requires FirstTerminator(source, comments[i].span.start, comments[i].span.end).Some?
    ensures var c := comments[i];
            Faithful(source, RemovedSpans(comments),
                     Edit(ByteSpan(RemovalStart(source, c, floor),
                                   RemovalEnd(source, c, lineStart, StartOf(comments, i + 1, |source|))),
                          FirstTerminator(source, c.span.start, c.span.end).value))
  {
    var c, spans := comments[i], RemovedSpans(comments);
    RemovalShowsNothing(source, comments, i, lineStart, floor);
    var a, z := RemovalStart(source, c, floor), RemovalEnd(source, c, lineStart, StartOf(comments, i + 1, |source|));
    FirstTerminatorIsBreak(source, c.span.start, c.span.end);
    Window(source, spans, a, z);
  }

  /** Code in front of a comment within its line: the terminator of the line is left where it is. */
  lemma {:induction false} TrailingIsDiscreet(source: Source, comments: seq<Comment>, i: nat, lineStart: nat,
                                              floor: nat)
    requires InOrder(comments, |source|) && CutsNone(source, comments)
    requires i < |comments| && Removes(comments[i]) && EndsItsLine(source, comments[i])
    requires lineStart <= floor <= comments[i].span.start
    requires FirstTerminator(source, comments[i].span.start, comments[i].span.end).None?
    requires HasCode(source, lineStart, comments[i].span.start)
    ensures var c := comments[i];
            Discreet(source, RemovedSpans(comments),
                     Edit(ByteSpan(RemovalStart(source, c, floor),
                                   RemovalEnd(source, c, lineStart, StartOf(comments, i + 1, |source|))), []))
  {
    var c, spans := comments[i], RemovedSpans(comments);
    assert c in comments;
    RemovalShowsNothing(source, comments, i, lineStart, floor);
    var a, z := RemovalStart(source, c, floor), RemovalEnd(source, c, lineStart, StartOf(comments, i + 1, |source|));
    FirstTerminatorIsBreak(source, c.span.start, c.span.end);
    TailShowsNothing(source, c.span.end);
    Window(source, spans, a, z);
  }

  /** A removal that ends its line takes a line break, or stops where the line runs out. */
  lemma {:induction false} EndingIsTight(source: Source, comments: seq<Comment>, i: nat, lineStart: nat, floor: nat)
    requires InOrder(comments, |source|) && i < |comments| && EndsItsLine(source, comments[i])
    requires floor <= comments[i].span.start && lineStart <= comments[i].span.start
    ensures var c := comments[i];
            Tight(source, comments, Spaceless(source, comments),
                  Edit(ByteSpan(RemovalStart(source, c, floor),
                                RemovalEnd(source, c, lineStart, StartOf(comments, i + 1, |source|))),
                       RemovalRest(source, c, lineStart)))
  {
    var c := comments[i];
    var z := RemovalEnd(source, c, lineStart, StartOf(comments, i + 1, |source|));
    var e := Edit(ByteSpan(RemovalStart(source, c, floor), z), RemovalRest(source, c, lineStart));
    RemovalIsUpright(source, comments, i, lineStart, floor);
    if LineTail(source, c.span.end).Some? {
      var t := LineTail(source, c.span.end).value;
      TailShowsNothing(source, c.span.end);
      if z <= t.blanks {
        assert BlanksTo(source, z, t.blanks);
      } else {
        BreakIsTight(source, comments, Spaceless(source, comments), e, t.blanks);
      }
    } else {
      FirstTerminatorIsBreak(source, c.span.start, c.span.end);
      var k :| c.span.start <= k < c.span.end && SymAt(source, k) == Break;
      BreakIsTight(source, comments, Spaceless(source, comments), e, k);
    }
  }

  lemma {:induction false} RemovalIsUpright(source: Source, comments: seq<Comment>, i: nat, lineStart: nat, floor: nat)
    requires InOrder(comments, |source|) && i < |comments|
    requires floor <= comments[i].span.start && lineStart <= comments[i].span.start
    ensures RemovalStart(source, comments[i], floor) <= comments[i].span.start
    ensures comments[i].span.end <= RemovalEnd(source, comments[i], lineStart, StartOf(comments, i + 1, |source|))
            <= |source|
    ensures LineTail(source, comments[i].span.end).Some? ==>
              comments[i].span.end <= LineTail(source, comments[i].span.end).value.blanks
  {
    if i + 1 < |comments| { assert comments[i + 1].span.start < comments[i + 1].span.end; }
  }

  /** Every `compact` removal takes nothing visible but its comment, and leaves a gap where only it can. */
  lemma {:induction false} CompactEditIsTight(source: Source, comments: seq<Comment>, i: nat, lineStart: nat,
                                              floor: nat)
    requires InOrder(comments, |source|) && Cuttable(source, comments)
    requires i < |comments| && Removes(comments[i])
    requires floor <= comments[i].span.start && lineStart <= comments[i].span.start
    requires lineStart == 0 || SymAt(source, lineStart - 1) == Break
    ensures var c := comments[i];
            var e := Edit(ByteSpan(RemovalStart(source, c, Max(floor, lineStart)),
                                   RemovalEnd(source, c, lineStart, StartOf(comments, i + 1, |source|))),
                          RemovalRest(source, c, lineStart));
            Discreet(source, RemovedSpans(comments), e) && Tight(source, comments, Spaceless(source, comments), e)
  {
    var c := comments[i];
    assert c in comments;
    if !EndsItsLine(source, c) {
      LineEditIsDiscreet(source, comments, i);
      LineEditIsTight(source, comments, i);
    } else {
      EndingIsTight(source, comments, i, lineStart, Max(floor, lineStart));
      RemovalShowsNothing(source, comments, i, lineStart, Max(floor, lineStart));
      FirstTerminatorIsBreak(source, c.span.start, c.span.end);
      if !HasCode(source, lineStart, c.span.start) {
        NoCodeIsFaithful(source, comments, i, lineStart, Max(floor, lineStart));
      } else if FirstTerminator(source, c.span.start, c.span.end).Some? {
        TerminatorKeptIsFaithful(source, comments, i, lineStart, Max(floor, lineStart));
      } else {
        TrailingIsDiscreet(source, comments, i, lineStart, Max(floor, lineStart));
      }
    }
  }

  /** A comment of one line with code behind it is interior: it leaves what it leaves under `lines`. */
  lemma {:induction false} InteriorIsLines(source: Source, comments: seq<Comment>, i: nat, lineStart: nat, floor: nat,
                                           z: nat)
    requires InOrder(comments, |source|) && i < |comments| && CutsNone(source, comments)
    requires comments[i].what.kind != HtmlComment
    requires floor <= comments[i].span.start && lineStart <= comments[i].span.start
    requires Unbroken(source, comments[i].span.start, comments[i].span.end)
    requires comments[i].span.end <= z < |source| && SymAt(source, z) == Ink
             && Unbroken(source, comments[i].span.end, z)
    ensures var c := comments[i];
            && !EndsItsLine(source, c)
            && RemovalStart(source, c, floor) == c.span.start
            && RemovalEnd(source, c, lineStart, StartOf(comments, i + 1, |source|)) == c.span.end
            && RemovalRest(source, c, lineStart) == LineReplacement(source, c.span)
  {
    var c := comments[i];
    assert c in comments;
    FirstTerminatorIsBreak(source, c.span.start, c.span.end);
    if LineTail(source, c.span.end).Some? { TailShowsNothing(source, c.span.end); }
    RemovalIsUpright(source, comments, i, lineStart, floor);
  }
}
