/**
 * What the layouts share: the comments to take out, the lines to swallow, and what a removed comment
 * leaves behind.
 */
module Layouts {
  import opened Bytes
  import opened Edits
  import opened LineNumbers
  import opened Outlines
  import opened Scanning

  predicate Removes(c: Comment) {
    c.what.disposition.Remove?
  }

  /** Spans as an external scanner must hand them over: non-empty, in bounds, sorted, disjoint. */
  ghost predicate InOrder(comments: seq<Comment>, n: nat) {
    && (forall i | 0 <= i < |comments| :: comments[i].span.start < comments[i].span.end <= n)
    && (forall i, j | 0 <= i < j < |comments| :: comments[i].span.end <= comments[j].span.start)
  }

  function RemovedSpans(comments: seq<Comment>): seq<ByteSpan> {
    if comments == [] then []
    else (if Removes(comments[0]) then [comments[0].span] else []) + RemovedSpans(comments[1..])
  }

  lemma {:induction false} RemovedSpansHold(comments: seq<Comment>)
    ensures forall i | 0 <= i < |comments| && Removes(comments[i]) :: comments[i].span in RemovedSpans(comments)
    ensures forall s <- RemovedSpans(comments) ::
              exists i :: 0 <= i < |comments| && Removes(comments[i]) && comments[i].span == s
  {
    if comments != [] {
      var rest := comments[1..];
      RemovedSpansHold(rest);
      forall i | 0 <= i < |comments| && Removes(comments[i])
        ensures comments[i].span in RemovedSpans(comments)
      {
        if i > 0 { assert rest[i - 1] == comments[i]; }
      }
      forall s | s in RemovedSpans(comments)
        ensures exists i :: 0 <= i < |comments| && Removes(comments[i]) && comments[i].span == s
      {
        if s in RemovedSpans(rest) {
          var i :| 0 <= i < |rest| && Removes(rest[i]) && rest[i].span == s;
          assert comments[i + 1] == rest[i];
        }
      }
    }
  }

  // ---- the lines a removal takes whole ----

  function SwallowAt(swallow: seq<Option<ByteSpan>>, i: nat): Option<ByteSpan> {
    if i < |swallow| then swallow[i] else None
  }

  /** A swallowed line holds its comment and reaches neither neighbour. */
  ghost predicate FitsAt(comments: seq<Comment>, swallow: seq<Option<ByteSpan>>, n: nat, i: nat)
    requires i < |comments|
  {
    SwallowAt(swallow, i).Some? ==>
      var line, c := SwallowAt(swallow, i).value, comments[i].span;
      && line.start <= c.start && c.end <= line.end <= n
      && (i > 0 ==> comments[i - 1].span.end <= line.start)
      && (i + 1 < |comments| ==> line.end <= comments[i + 1].span.start)
  }

  ghost predicate SwallowFits(comments: seq<Comment>, swallow: seq<Option<ByteSpan>>, n: nat) {
    forall i: nat | i < |comments| :: FitsAt(comments, swallow, n, i)
  }

  /** No line is swallowed. */
  ghost predicate NoSwallow(comments: seq<Comment>, swallow: seq<Option<ByteSpan>>) {
    forall i: nat | i < |comments| :: SwallowAt(swallow, i).None?
  }

  /** A swallowed line is whole lines, and nothing visible but the comment is on them. */
  ghost predicate WholeLineAt(source: Source, comments: seq<Comment>, swallow: seq<Option<ByteSpan>>, i: nat)
    requires i < |comments|
  {
    SwallowAt(swallow, i).Some? ==>
      var line, c := SwallowAt(swallow, i).value, comments[i].span;
      && LineBoundary(source, line.start)
      && line.end <= |source|
      && (line.end == |source| || LineBoundary(source, line.end))
      && forall k | line.start <= k < line.end && !(c.start <= k < c.end) :: SymAt(source, k) != Ink
  }

  ghost predicate SwallowsWholeLines(source: Source, comments: seq<Comment>, swallow: seq<Option<ByteSpan>>) {
    forall i: nat | i < |comments| :: WholeLineAt(source, comments, swallow, i)
  }

  // ---- what a removed comment leaves behind under `lines` ----

  /** The line terminators of `bytes` from `i` on, as they were written. */
  function NewlinesFrom(bytes: Source, i: nat): Source
    requires i <= |bytes|
    decreases |bytes| - i
  {
    if i == |bytes| then []
    else
      match TerminatorWidth(bytes, i)
      case Some(w) => bytes[i..i + w] + NewlinesFrom(bytes, i + w)
      case None => NewlinesFrom(bytes, i + 1)
  }

  lemma {:induction false} NewlinesStep(bytes: Source, i: nat, output: Source)
    requires i < |bytes|
    ensures var w := TerminatorWidth(bytes, i);
            output + NewlinesFrom(bytes, i)
            == if w.Some? then (output + bytes[i..i + w.value]) + NewlinesFrom(bytes, i + w.value)
               else output + NewlinesFrom(bytes, i + 1)
  {
    var w := TerminatorWidth(bytes, i);
    if w.Some? {
      var t, rest := bytes[i..i + w.value], NewlinesFrom(bytes, i + w.value);
      assert output + (t + rest) == (output + t) + rest;
    }
  }

  method NewlineSequence(bytes: Source) returns (output: Source)
    ensures output == NewlinesFrom(bytes, 0)
  {
    output := [];
    var index: nat := 0;
    while index < |bytes|
      invariant index <= |bytes|
      invariant output + NewlinesFrom(bytes, index) == NewlinesFrom(bytes, 0)
    {
      var w := TerminatorWidth(bytes, index);
      NewlinesStep(bytes, index, output);
      if w.Some? {
        output := output + bytes[index..index + w.value];
        index := index + w.value;
      } else {
        index := index + 1;
      }
    }
  }

  predicate HasNonWhitespaceNeighbors(source: Source, span: ByteSpan) {
    && 0 < span.start <= |source| && !IsWhitespace(source[span.start - 1])
    && span.end < |source| && !IsWhitespace(source[span.end])
  }

  /** The terminators the comment spanned; without any, one space where nothing else keeps two tokens apart. */
  function LineReplacement(source: Source, span: ByteSpan): Source
    requires span.start <= span.end <= |source|
  {
    var newlines := NewlinesFrom(source[span.start..span.end], 0);
    if newlines == [] && HasNonWhitespaceNeighbors(source, span) then [SPACE] else newlines
  }

  method LineReplacementOf(source: Source, span: ByteSpan) returns (output: Source)
    requires span.start <= span.end <= |source|
    ensures output == LineReplacement(source, span)
  {
    output := NewlineSequence(source[span.start..span.end]);
    if output == [] && HasNonWhitespaceNeighbors(source, span) {
      output := output + [SPACE];
    }
  }

  // ---- terminators and visible bytes ----

  lemma {:induction false} TerminatorCells(bytes: Source, i: nat)
    requires TerminatorWidth(bytes, i).Some?
    ensures var w := TerminatorWidth(bytes, i).value;
            var t := bytes[i..i + w];
            forall k | 0 <= k < w :: Cells(t)[k].sym == Break && SymAt(bytes, i + k) == Break
  {
    var w := TerminatorWidth(bytes, i).value;
    var t := bytes[i..i + w];
    if w == 3 { assert SeparatorAt(t, 0) && SeparatorAt(bytes, i); }
  }

  /** A terminator in front of what shows nothing: nothing is shown, and a line is broken. */
  lemma {:induction false} TerminatorInFront(bytes: Source, i: nat, w: nat, rest: Source)
    requires TerminatorWidth(bytes, i) == Some(w) && NoInk(Cells(rest))
    ensures var t := bytes[i..i + w];
            t + rest != [] && NoInk(Cells(t + rest)) && HasBreak(Cells(t + rest)) && HasBreak(Cells(bytes)[i..])
  {
    var t := bytes[i..i + w];
    TerminatorCells(bytes, i);
    CutBeforeNoInk(t, rest);
    CellsJoin(t, rest);
    assert Cells(t + rest)[0].sym == Break;
    assert Cells(bytes)[i..][0].sym == Break;
  }

  lemma {:induction false} NoBreakInFront(bytes: Source, i: nat)
    requires i < |bytes| && SymAt(bytes, i) != Break
    ensures HasBreak(Cells(bytes)[i..]) <==> HasBreak(Cells(bytes)[i + 1..])
  {
    var here, next := Cells(bytes)[i..], Cells(bytes)[i + 1..];
    assert here == [here[0]] + next;
    if HasBreak(next) {
      var k :| 0 <= k < |next| && next[k].sym == Break;
      assert here[k + 1].sym == Break;
    }
  }

  /** The newlines of a text hold nothing visible, and are there exactly when the text has a line break. */
  lemma {:induction false} NewlinesAreBreaks(bytes: Source, i: nat)
    requires i <= |bytes| && CleanCut(bytes, i)
    ensures NoInk(Cells(NewlinesFrom(bytes, i)))
    ensures NewlinesFrom(bytes, i) != [] <==> HasBreak(Cells(bytes)[i..])
    ensures NewlinesFrom(bytes, i) != [] ==> HasBreak(Cells(NewlinesFrom(bytes, i)))
    decreases |bytes| - i
  {
    if i < |bytes| {
      var w := TerminatorWidth(bytes, i);
      if w.Some? {
        hide NoInk, HasBreak, Cells;
        NewlinesAreBreaks(bytes, i + w.value);
        TerminatorInFront(bytes, i, w.value, NewlinesFrom(bytes, i + w.value));
      } else {
        hide NoInk, HasBreak, Cells;
        NewlinesAreBreaks(bytes, i + 1);
        NoBreakInFront(bytes, i);
      }
    }
  }

  // ---- the outline of a removal ----

  /** A comment a layout promises to take out without a trace in the outline. */
  predicate Outlined(source: Source, c: Comment) {
    && c.what.kind != HtmlComment
    && c.span.start < c.span.end <= |source|
    && WholeTerminators(source, c.span.start) && WholeTerminators(source, c.span.end)
    && SymAt(source, c.span.start) == Ink
  }

  /** No comment cuts a terminator, and each is kept, or is one a layout takes out without a trace. */
  ghost predicate Outlineable(source: Source, comments: seq<Comment>) {
    forall c <- comments ::
      && WholeTerminators(source, c.span.start) && WholeTerminators(source, c.span.end)
      && (c.what.disposition == Keep || (Removes(c) && Outlined(source, c)))
  }

  /** No comment cuts a terminator. */
  ghost predicate CutsNone(source: Source, comments: seq<Comment>) {
    forall c <- comments :: WholeTerminators(source, c.span.start) && WholeTerminators(source, c.span.end)
  }

  /** Every comment is kept or removed. */
  ghost predicate NoRewrites(comments: seq<Comment>) {
    forall c <- comments :: c.what.disposition == Keep || Removes(c)
  }

  /** Every comment is kept, or removed and no HTML comment. */
  ghost predicate NoHtml(comments: seq<Comment>) {
    forall c <- comments :: c.what.disposition == Keep || (Removes(c) && c.what.kind != HtmlComment)
  }

  /** No comment cuts a terminator, and each is kept, or removed and no HTML comment. */
  ghost predicate Cuttable(source: Source, comments: seq<Comment>) {
    CutsNone(source, comments) && NoHtml(comments)
  }

  lemma {:induction false} SpanIsCovered(spans: seq<ByteSpan>, s: ByteSpan, i: int)
    requires s in spans && s.start <= i < s.end
    ensures Covered(spans, i)
  {
    var k :| 0 <= k < |spans| && spans[k] == s;
    assert spans[k].start <= i < spans[k].end;
  }

  lemma {:induction false} SameBreaks(w: seq<Cell>, v: seq<Cell>)
    requires |w| == |v|
    requires forall k | 0 <= k < |w| :: w[k].sym != Ink && (w[k].sym == Break <==> v[k].sym == Break)
    ensures NoInk(w) && (HasBreak(w) <==> HasBreak(v))
  {
  }

  lemma {:induction false} CommentCell(source: Source, spans: seq<ByteSpan>, s: ByteSpan, i: nat)
    requires s in spans && s.start <= i < s.end <= |source|
    ensures Cells(Blanked(source, spans))[i].sym != Ink
    ensures Cells(Blanked(source, spans))[i].sym == Break <==> Cells(source)[i].sym == Break
  {
    SpanIsCovered(spans, s, i);
    BlankedSymAt(source, spans, i);
  }

  /** What a removed comment is, seen in the blanked source: blanks, and the line breaks it had. */
  lemma {:induction false} CommentCells(source: Source, spans: seq<ByteSpan>, s: ByteSpan)
    requires s in spans && s.start <= s.end <= |source|
    requires CleanCut(source, s.start) && CleanCut(source, s.end)
    ensures NoInk(Cells(Blanked(source, spans))[s.start..s.end])
    ensures HasBreak(Cells(Blanked(source, spans))[s.start..s.end])
       <==> HasBreak(Cells(source[s.start..s.end]))
  {
    CellsSlice(source, s.start, s.end);
    var w, v := Cells(Blanked(source, spans))[s.start..s.end], Cells(source)[s.start..s.end];
    forall k | 0 <= k < |w|
      ensures w[k].sym != Ink && (w[k].sym == Break <==> v[k].sym == Break)
    {
      CommentCell(source, spans, s, s.start + k);
    }
    SameBreaks(w, v);
  }

  /** Behind nothing, or behind a blank, the walk is padded. */
  lemma {:induction false} PaddedBehindBlank(source: Source, spans: seq<ByteSpan>, a: nat)
    requires a <= |source| && (a == 0 || SymAt(source, a - 1) != Ink)
    ensures Padded(StateAt(Blanked(source, spans), a))
  {
    hide Walk;
    var b := Blanked(source, spans);
    var front := Cells(b)[..a];
    WalkLast(front);
    if a > 0 {
      BlankedSymAt(source, spans, a - 1);
      assert front[a - 1] == Cells(b)[a - 1];
    }
  }

  lemma {:induction false} CoveredStartsNoGap(source: Source, spans: seq<ByteSpan>, s: ByteSpan)
    requires s in spans && s.start < s.end <= |source|
    ensures !OpenGap(source, spans, s.start)
  {
    SpanIsCovered(spans, s, s.start);
  }

  lemma {:induction false} WhitespaceIsNoInk(source: Source, i: nat)
    requires i < |source| && IsWhitespace(source[i])
    ensures SymAt(source, i) != Ink
  {
  }

  /** One removal under `lines`, or an interior one under `compact`. */
  lemma {:induction false} LineEditIsDiscreet(source: Source, comments: seq<Comment>, i: nat)
    requires InOrder(comments, |source|) && Cuttable(source, comments)
    requires i < |comments| && Removes(comments[i])
    ensures Discreet(source, RemovedSpans(comments),
                     Edit(comments[i].span, LineReplacement(source, comments[i].span)))
  {
    var s := comments[i].span;
    assert comments[i] in comments;
    RemovedSpansHold(comments);
    CommentCells(source, RemovedSpans(comments), s);
    var slice := source[s.start..s.end];
    NewlinesAreBreaks(slice, 0);
    assert Cells(slice)[0..] == Cells(slice);
    assert NoInk(Cells([SPACE])) && !HasBreak(Cells([SPACE]));
  }

  /** Nothing visible since a line began: the walk is fresh. */
  lemma {:induction false} FreshBehindBreak(front: seq<Cell>, rest: seq<Cell>)
    requires front == [] || front[|front| - 1].sym == Break
    requires NoInk(rest)
    ensures Fresh(Walk(front + rest, START))
  {
    WalkJoin(front, rest, START);
    WalkLast(front);
    WalkNoInk(rest, Walk(front, START));
  }

  lemma {:induction false} FreshOnLine(source: Source, spans: seq<ByteSpan>, l: nat, p: nat)
    requires l <= p <= |source| && (l == 0 || SymAt(source, l - 1) == Break)
    requires forall k | l <= k < p :: SymAt(source, k) != Ink || Covered(spans, k)
    ensures Fresh(StateAt(Blanked(source, spans), p))
  {
    hide Walk, Fresh;
    var b := Blanked(source, spans);
    var cells := Cells(b);
    if l > 0 {
      BlankedSymAt(source, spans, l - 1);
      assert cells[..l][l - 1].sym == SymAt(b, l - 1);
    }
    forall k | 0 <= k < |cells[l..p]|
      ensures cells[l..p][k].sym != Ink
    {
      BlankedSymAt(source, spans, l + k);
      assert cells[l..p][k].sym == SymAt(b, l + k);
    }
    assert cells[..p] == cells[..l] + cells[l..p];
    FreshBehindBreak(cells[..l], cells[l..p]);
  }

  /** A whole-line removal: what it takes begins on a fresh line and shows nothing. */
  lemma {:induction false} LineTakenIsFaithful(source: Source, spans: seq<ByteSpan>, l: nat, a: nat, z: nat)
    requires l <= a < z <= |source| && (l == 0 || SymAt(source, l - 1) == Break)
    requires CleanCut(source, a) && CleanCut(source, z)
    requires forall k | l <= k < z :: SymAt(source, k) != Ink || Covered(spans, k)
    ensures Faithful(source, spans, Edit(ByteSpan(a, z), []))
  {
    FreshOnLine(source, spans, l, a);
    BlankedSym(source, spans);
    var b := Blanked(source, spans);
    var w := Cells(b)[a..z];
    forall k | 0 <= k < |w|
      ensures w[k].sym != Ink
    {
      assert w[k].sym == SymAt(b, a + k);
    }
  }

  lemma {:induction false} SwallowIsFaithful(source: Source, comments: seq<Comment>, swallow: seq<Option<ByteSpan>>,
                                             i: nat, a: nat)
    requires InOrder(comments, |source|) && SwallowsWholeLines(source, comments, swallow)
    requires i < |comments| && Removes(comments[i]) && SwallowAt(swallow, i).Some?
    requires SwallowAt(swallow, i).value.start <= a <= comments[i].span.start
    requires comments[i].span.end <= SwallowAt(swallow, i).value.end
    requires CleanCut(source, a)
    ensures Faithful(source, RemovedSpans(comments), Edit(ByteSpan(a, SwallowAt(swallow, i).value.end), []))
  {
    var line, spans := SwallowAt(swallow, i).value, RemovedSpans(comments);
    assert WholeLineAt(source, comments, swallow, i);
    RemovedSpansHold(comments);
    forall k | line.start <= k < line.end
      ensures SymAt(source, k) != Ink || Covered(spans, k)
    {
      if comments[i].span.start <= k < comments[i].span.end {
        SpanIsCovered(spans, comments[i].span, k);
      }
    }
    LineTakenIsFaithful(source, spans, line.start, a, line.end);
  }

  // ---- taking every removed comment ----

  /** Every removed comment among the first `n` lies in some edit. */
  ghost predicate TakenUpTo(comments: seq<Comment>, n: nat, edits: seq<Edit>)
    requires n <= |comments|
  {
    forall j | 0 <= j < n && Removes(comments[j]) :: Takes(edits, comments[j].span)
  }

  lemma {:induction false} TakenGrows(comments: seq<Comment>, n: nat, edits: seq<Edit>, e: Edit)
    requires n < |comments| && TakenUpTo(comments, n, edits)
    requires Removes(comments[n]) ==> e.span.start <= comments[n].span.start && comments[n].span.end <= e.span.end
    ensures TakenUpTo(comments, n + 1, edits + [e])
  {
    forall j | 0 <= j < n + 1 && Removes(comments[j])
      ensures Takes(edits + [e], comments[j].span)
    {
      if j < n {
        var f :| f in edits && f.span.start <= comments[j].span.start && comments[j].span.end <= f.span.end;
        assert f in edits + [e];
      } else {
        assert e in edits + [e];
      }
    }
  }

  lemma {:induction false} TakenAll(comments: seq<Comment>, edits: seq<Edit>)
    requires TakenUpTo(comments, |comments|, edits)
    ensures Taken(RemovedSpans(comments), edits)
  {
    RemovedSpansHold(comments);
    var spans := RemovedSpans(comments);
    forall k | 0 <= k < |spans|
      ensures Takes(edits, spans[k])
    {
      assert spans[k] in spans;
    }
  }

  /** The outline the source keeps once its removed comments are gone. */
  ghost function RemainingOutline(source: Source, comments: seq<Comment>): seq<Mark> {
    Outline(Blanked(source, RemovedSpans(comments)))
  }

  /** A visible byte outside every removed comment. */
  ghost predicate IsCode(source: Source, comments: seq<Comment>, p: int) {
    0 <= p < |source| && SymAt(source, p) == Ink && !Covered(RemovedSpans(comments), p)
  }

  // ---- the newlines of a text ----

  /** The newlines of a text are the bytes of its line breaks. */
  lemma {:induction false} NewlinesAreTheBreaks(bytes: Source, i: nat)
    requires i <= |bytes| && CleanCut(bytes, i)
    ensures NewlinesFrom(bytes, i) == BreakBytes(Cells(bytes)[i..])
    decreases |bytes| - i
  {
    if i < |bytes| {
      var w := TerminatorWidth(bytes, i);
      if w.Some? {
        NewlinesAreTheBreaks(bytes, i + w.value);
        TerminatorCells(bytes, i);
        forall k | i <= k < i + w.value
          ensures SymAt(bytes, k) == Break
        {
          assert SymAt(bytes, i + (k - i)) == Break;
        }
        BreaksOfBreaks(bytes, i, i + w.value);
        hide BreakBytes, Cells;
        DropInTwo(Cells(bytes), i, i + w.value);
        BreakBytesJoin(Cells(bytes)[i..i + w.value], Cells(bytes)[i + w.value..]);
      } else {
        NewlinesAreTheBreaks(bytes, i + 1);
        assert SymAt(bytes, i) != Break;
        assert Cells(bytes)[i..][1..] == Cells(bytes)[i + 1..];
      }
    }
  }

  lemma {:induction false} BreaksOfBreaks(bytes: Source, a: nat, z: nat)
    requires a <= z <= |bytes| && forall k | a <= k < z :: SymAt(bytes, k) == Break
    ensures BreakBytes(Cells(bytes)[a..z]) == bytes[a..z]
    decreases z - a
  {
    if a < z {
      BreaksOfBreaks(bytes, a + 1, z);
      assert Cells(bytes)[a..z][1..] == Cells(bytes)[a + 1..z];
      assert [bytes[a]] + bytes[a + 1..z] == bytes[a..z];
    }
  }

  /** The newlines of a text are its line breaks, byte for byte. */
  lemma {:induction false} NewlinesKeepBreaks(bytes: Source, i: nat)
    requires i <= |bytes| && CleanCut(bytes, i)
    ensures BreakBytes(Cells(NewlinesFrom(bytes, i))) == BreakBytes(Cells(bytes)[i..])
    ensures NoLoneCR(bytes) ==> NoLoneCR(NewlinesFrom(bytes, i))
    decreases |bytes| - i
  {
    if i < |bytes| {
      var w := TerminatorWidth(bytes, i);
      if w.Some? {
        hide BreakBytes, NoLoneCR;
        NewlinesKeepBreaks(bytes, i + w.value);
        NewlinesAreBreaks(bytes, i + w.value);
        TerminatorKeepsBreaks(bytes, i, w.value, NewlinesFrom(bytes, i + w.value));
        if NoLoneCR(bytes) {
          NoLoneCRSlice(bytes, i, i + w.value);
          NoLoneCRJoin(bytes[i..i + w.value], NewlinesFrom(bytes, i + w.value));
        }
      } else {
        NewlinesKeepBreaks(bytes, i + 1);
        NoBreakToKeep(bytes, i);
      }
    }
  }

  lemma {:induction false} NoBreakToKeep(bytes: Source, i: nat)
    requires i < |bytes| && CleanCut(bytes, i) && TerminatorWidth(bytes, i).None?
    ensures BreakBytes(Cells(bytes)[i..]) == BreakBytes(Cells(bytes)[i + 1..])
  {
    assert SymAt(bytes, i) != Break;
    assert Cells(bytes)[i..][1..] == Cells(bytes)[i + 1..];
  }

  /** One terminator in front of newlines that keep the breaks behind it. */
  lemma {:induction false} TerminatorKeepsBreaks(bytes: Source, i: nat, w: nat, rest: Source)
    requires TerminatorWidth(bytes, i) == Some(w) && CleanCut(bytes, i) && NoInk(Cells(rest))
    requires BreakBytes(Cells(rest)) == BreakBytes(Cells(bytes)[i + w..])
    ensures BreakBytes(Cells(bytes[i..i + w] + rest)) == BreakBytes(Cells(bytes)[i..])
  {
    hide BreakBytes;
    var t := bytes[i..i + w];
    CutBeforeNoInk(t, rest);
    CellsJoin(t, rest);
    CellsSlice(bytes, i, i + w);
    BreakBytesJoin(Cells(t), Cells(rest));
    DropInTwo(Cells(bytes), i, i + w);
    BreakBytesJoin(Cells(t), Cells(bytes)[i + w..]);
  }
}
