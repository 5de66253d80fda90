/**
 * What is left of a text when all but certain bytes are erased from it: edits that leave such bytes as
 * they are leave the whole of what is left.
 */
module Erasures {
  import opened Bytes
  import opened Edits
  import opened Layouts
  import opened Outlines
  import opened Scanning

  /** The bytes of `s` that `keeps` holds of, in order. */
  function Kept(s: Source, keeps: byte -> bool): Source {
    if s == [] then [] else (if keeps(s[0]) then [s[0]] else []) + Kept(s[1..], keeps)
  }

  predicate IsEnding(b: byte) {
    b == CR || b == LF
  }

  predicate IsSolid(b: byte) {
    !IsWhitespace(b)
  }

  /** The carriage returns and line feeds, in order. */
  function Endings(s: Source): Source {
    Kept(s, IsEnding)
  }

  /** What is left when white space is erased. */
  function Solid(s: Source): Source {
    Kept(s, IsSolid)
  }

  lemma {:induction false} KeptJoin(x: Source, y: Source, keeps: byte -> bool)
    ensures Kept(x + y, keeps) == Kept(x, keeps) + Kept(y, keeps)
    decreases |x|
  {
    if x == [] {
      assert x + y == y;
      assert [] + Kept(y, keeps) == Kept(y, keeps);
    } else {
      assert (x + y)[1..] == x[1..] + y;
      KeptJoin(x[1..], y, keeps);
      var head := if keeps(x[0]) then [x[0]] else [];
      Grouped(head, Kept(x[1..], keeps), Kept(y, keeps));
    }
  }

  lemma {:induction false} Grouped(a: Source, b: Source, c: Source)
    ensures a + (b + c) == (a + b) + c
  {
  }

  lemma {:induction false} KeptNone(s: Source, keeps: byte -> bool)
    requires forall i | 0 <= i < |s| :: !keeps(s[i])
    ensures Kept(s, keeps) == []
    decreases |s|
  {
    if s != [] { KeptNone(s[1..], keeps); }
  }

  lemma {:induction false} KeptAll(s: Source, keeps: byte -> bool)
    requires forall i | 0 <= i < |s| :: keeps(s[i])
    ensures Kept(s, keeps) == s
    decreases |s|
  {
    if s != [] {
      KeptAll(s[1..], keeps);
      assert [s[0]] + s[1..] == s;
    }
  }

  /** Every edit leaves of what it takes, seen in `b`, just what is kept of it. */
  ghost predicate AllKeep(b: Source, edits: seq<Edit>, keeps: byte -> bool) {
    forall e <- edits ::
      && e.span.start <= e.span.end <= |b|
      && Kept(e.replacement, keeps) == Kept(b[e.span.start..e.span.end], keeps)
  }

  lemma {:induction false} EditsKeep(source: Source, b: Source, edits: seq<Edit>, cursor: nat, keeps: byte -> bool)
    requires |source| == |b| && Ordered(edits, cursor, |source|) && AgreeOutside(source, b, edits, cursor)
    requires AllKeep(b, edits, keeps)
    ensures Kept(ApplyFrom(source, edits, cursor), keeps) == Kept(b[cursor..], keeps)
    decreases |edits|
  {
    if edits != [] {
      var e := edits[0];
      assert e in edits && forall f <- edits[1..] :: f in edits;
      OrderedBounds(edits, cursor, |source|);
      EditsKeep(source, b, edits[1..], e.span.end, keeps);
      var run, rest := source[cursor..e.span.start], ApplyFrom(source, edits[1..], e.span.end);
      KeptJoin(run, e.replacement + rest, keeps);
      KeptJoin(e.replacement, rest, keeps);
      KeptInThree(b, cursor, e.span.start, e.span.end, keeps);
    }
  }

  lemma {:induction false} KeptInThree(b: Source, cursor: nat, a: nat, z: nat, keeps: byte -> bool)
    requires cursor <= a <= z <= |b|
    ensures Kept(b[cursor..], keeps) == Kept(b[cursor..a], keeps) + (Kept(b[a..z], keeps) + Kept(b[z..], keeps))
  {
    assert b[cursor..] == b[cursor..a] + (b[a..z] + b[z..]);
    KeptJoin(b[cursor..a], b[a..z] + b[z..], keeps);
    KeptJoin(b[a..z], b[z..], keeps);
  }

  lemma {:induction false} AgreesWithItself(source: Source, edits: seq<Edit>, cursor: nat)
    requires Ordered(edits, cursor, |source|)
    ensures AgreeOutside(source, source, edits, cursor)
    decreases |edits|
  {
    if edits != [] { AgreesWithItself(source, edits[1..], edits[0].span.end); }
  }

  // ---- line endings ----

  /** The edit writes back the carriage returns and line feeds it takes. */
  ghost predicate KeepsEndings(source: Source, e: Edit) {
    && e.span.start <= e.span.end <= |source|
    && Endings(e.replacement) == Endings(source[e.span.start..e.span.end])
  }

  lemma {:induction false} EndingsAreKept(source: Source, edits: seq<Edit>)
    requires Ordered(edits, 0, |source|) && forall e <- edits :: KeepsEndings(source, e)
    ensures Endings(Apply(source, edits)) == Endings(source)
  {
    AgreesWithItself(source, edits, 0);
    EditsKeep(source, source, edits, 0, IsEnding);
    assert source[0..] == source;
  }

  // ---- what is solid ----

  /** No LINE SEPARATOR or PARAGRAPH SEPARATOR: the line breaks are carriage returns and line feeds alone. */
  ghost predicate NoSeparators(s: Source) {
    forall i: int :: !SeparatorAt(s, i)
  }

  /** The edit takes nothing solid but what is covered, and leaves nothing solid. */
  ghost predicate TakesNoSolid(source: Source, spans: seq<ByteSpan>, e: Edit) {
    && e.span.start <= e.span.end <= |source|
    && (forall i | e.span.start <= i < e.span.end :: IsWhitespace(source[i]) || Covered(spans, i))
    && forall i | 0 <= i < |e.replacement| :: IsWhitespace(e.replacement[i])
  }

  lemma {:induction false} TakenIsErased(source: Source, spans: seq<ByteSpan>, e: Edit)
    requires TakesNoSolid(source, spans, e) && NoSeparators(source)
    ensures var b := Blanked(source, spans);
            Solid(e.replacement) == [] && Solid(b[e.span.start..e.span.end]) == []
  {
    var b, a, z := Blanked(source, spans), e.span.start, e.span.end;
    KeptNone(e.replacement, IsSolid);
    forall i | 0 <= i < |b[a..z]|
      ensures IsWhitespace(b[a..z][i])
    {
      assert b[a..z][i] == b[a + i];
    }
    KeptNone(b[a..z], IsSolid);
  }

  /** Erasing white space from the text the edits make leaves what erasing it from the blanked source leaves. */
  lemma {:induction false} SolidIsKept(source: Source, spans: seq<ByteSpan>, edits: seq<Edit>)
    requires Ordered(edits, 0, |source|) && Taken(spans, edits) && NoSeparators(source)
    requires forall e <- edits :: TakesNoSolid(source, spans, e)
    ensures Solid(Apply(source, edits)) == Solid(Blanked(source, spans))
  {
    var b := Blanked(source, spans);
    assert edits[0..] == edits;
    TakenAgrees(source, spans, edits, 0, 0);
    forall e | e in edits
      ensures Kept(e.replacement, IsSolid) == Kept(b[e.span.start..e.span.end], IsSolid)
    {
      TakenIsErased(source, spans, e);
    }
    EditsKeep(source, b, edits, 0, IsSolid);
    assert b[0..] == b;
  }

  // ---- what the layouts leave ----

  /** The newlines of a text are its carriage returns and line feeds, but for the separators. */
  lemma {:induction false} NewlinesKeepEndings(bytes: Source, i: nat)
    requires i <= |bytes|
    ensures Endings(NewlinesFrom(bytes, i)) == Endings(bytes[i..])
    decreases |bytes| - i
  {
    if i < |bytes| {
      var w := TerminatorWidth(bytes, i);
      if w.Some? {
        NewlinesKeepEndings(bytes, i + w.value);
        KeptJoin(bytes[i..i + w.value], NewlinesFrom(bytes, i + w.value), IsEnding);
        KeptJoin(bytes[i..i + w.value], bytes[i + w.value..], IsEnding);
        assert bytes[i..] == bytes[i..i + w.value] + bytes[i + w.value..];
      } else {
        NewlinesKeepEndings(bytes, i + 1);
        assert bytes[i..][1..] == bytes[i + 1..];
      }
    }
  }

  /** What `lines` leaves of a comment has the carriage returns and line feeds of the comment. */
  lemma {:induction false} LineEditKeepsEndings(source: Source, s: ByteSpan)
    requires s.start <= s.end <= |source|
    ensures KeepsEndings(source, Edit(s, LineReplacement(source, s)))
  {
    var slice := source[s.start..s.end];
    NewlinesKeepEndings(slice, 0);
    assert slice[0..] == slice;
    KeptNone([SPACE], IsEnding);
  }

  ghost predicate AllWhite(s: Source) {
    forall i | 0 <= i < |s| :: IsWhitespace(s[i])
  }

  lemma {:induction false} WhiteJoin(x: Source, y: Source)
    requires AllWhite(x) && AllWhite(y)
    ensures AllWhite(x + y)
  {
  }

  lemma {:induction false} SliceHasNoSeparators(s: Source, a: nat, z: nat)
    requires NoSeparators(s) && a <= z <= |s|
    ensures NoSeparators(s[a..z])
  {
    forall i: int
      ensures !SeparatorAt(s[a..z], i)
    {
      assert !SeparatorAt(s, a + i);
    }
  }

  lemma {:induction false} TerminatorIsWhite(bytes: Source, i: nat)
    requires NoSeparators(bytes) && TerminatorWidth(bytes, i).Some?
    ensures AllWhite(bytes[i..i + TerminatorWidth(bytes, i).value])
  {
    assert !SeparatorAt(bytes, i);
  }

  /** Without separators newlines are white. */
  lemma {:induction false} NewlinesAreWhite(bytes: Source, i: nat)
    requires i <= |bytes| && NoSeparators(bytes)
    ensures AllWhite(NewlinesFrom(bytes, i))
    decreases |bytes| - i
  {
    if i < |bytes| {
      var w := TerminatorWidth(bytes, i);
      if w.Some? {
        TerminatorIsWhite(bytes, i);
        NewlinesAreWhite(bytes, i + w.value);
        WhiteJoin(bytes[i..i + w.value], NewlinesFrom(bytes, i + w.value));
      } else {
        NewlinesAreWhite(bytes, i + 1);
      }
    }
  }

  lemma {:induction false} LineReplacementIsWhite(source: Source, s: ByteSpan)
    requires s.start <= s.end <= |source| && NoSeparators(source)
    ensures AllWhite(LineReplacement(source, s))
  {
    SliceHasNoSeparators(source, s.start, s.end);
    NewlinesAreWhite(source[s.start..s.end], 0);
  }

  lemma {:induction false} NoInkIsWhite(source: Source, i: nat)
    requires NoSeparators(source) && i < |source| && SymAt(source, i) != Ink
    ensures IsWhitespace(source[i])
  {
    assert !SeparatorAt(source, i) && !SeparatorAt(source, i - 1) && !SeparatorAt(source, i - 2);
  }

  /** An edit that takes just a removed comment and leaves white space takes nothing solid. */
  lemma {:induction false} CommentTakesNoSolid(source: Source, comments: seq<Comment>, i: nat, r: Source)
    requires InOrder(comments, |source|) && i < |comments| && Removes(comments[i]) && AllWhite(r)
    ensures TakesNoSolid(source, RemovedSpans(comments), Edit(comments[i].span, r))
  {
    var s := comments[i].span;
    RemovedSpansHold(comments);
    forall k | s.start <= k < s.end
      ensures Covered(RemovedSpans(comments), k)
    {
      SpanIsCovered(RemovedSpans(comments), s, k);
    }
  }

  /** A swallowed line holds nothing solid but its comment. */
  lemma {:induction false} SwallowTakesNoSolid(source: Source, comments: seq<Comment>, swallow: seq<Option<ByteSpan>>,
                                               i: nat, a: nat)
    requires InOrder(comments, |source|) && NoSeparators(source) && SwallowsWholeLines(source, comments, swallow)
    requires i < |comments| && Removes(comments[i]) && SwallowAt(swallow, i).Some?
    requires SwallowAt(swallow, i).value.start <= a <= SwallowAt(swallow, i).value.end
    ensures TakesNoSolid(source, RemovedSpans(comments), Edit(ByteSpan(a, SwallowAt(swallow, i).value.end), []))
  {
    var line, c := SwallowAt(swallow, i).value, comments[i].span;
    assert WholeLineAt(source, comments, swallow, i);
    RemovedSpansHold(comments);
    forall k | a <= k < line.end
      ensures IsWhitespace(source[k]) || Covered(RemovedSpans(comments), k)
    {
      if c.start <= k < c.end {
        SpanIsCovered(RemovedSpans(comments), c, k);
      } else {
        NoInkIsWhite(source, k);
      }
    }
  }

  /** A finished plan whose edits take nothing solid leaves all that is solid outside the removed comments. */
  lemma {:induction false} PlanKeepsSolid(source: Source, comments: seq<Comment>, edits: seq<Edit>)
    requires Ordered(edits, 0, |source|) && TakenUpTo(comments, |comments|, edits) && NoSeparators(source)
    requires forall e <- edits :: TakesNoSolid(source, RemovedSpans(comments), e)
    ensures Solid(Apply(source, edits)) == Solid(Blanked(source, RemovedSpans(comments)))
  {
    TakenAll(comments, edits);
    SolidIsKept(source, RemovedSpans(comments), edits);
  }
}
