/** The two-way offset map between a source and what a batch of edits made of it. */
module SourceMaps {
  import opened Bytes
  import opened Edits

  datatype Segment = Segment(original: ByteSpan, output: ByteSpan, exact: bool)

  predicate Contains(span: ByteSpan, offset: nat) {
    span.start <= offset < span.end
  }

  function Length(span: ByteSpan): int {
    span.end - span.start
  }

  /**
   * The segments tile what is left of both sides, `src` from offset `o` and `out` from offset `w`,
   * in step; an exact segment holds the same bytes on both.
   */
  ghost predicate Tiles(segments: seq<Segment>, src: Source, out: Source, o: nat, w: nat) {
    if segments == [] then src == [] && out == []
    else
      var s := segments[0];
      var m, n := Length(s.original), Length(s.output);
      && s.original.start == o && 0 <= m <= |src|
      && s.output.start == w && 0 <= n <= |out|
      && (s.exact ==> src[..m] == out[..n])
      && Tiles(segments[1..], src[m..], out[n..], o + m, w + n)
  }

  /** The replaced segments, read back as edits. */
  ghost function Replacements(segments: seq<Segment>, out: Source, w: nat): seq<Edit> {
    if segments == [] then []
    else
      var s := segments[0];
      var n := Length(s.output);
      if 0 <= n <= |out|
      then (if s.exact then [] else [Edit(s.original, out[..n])]) + Replacements(segments[1..], out[n..], w + n)
      else []
  }

  /**
   * The segments for the edits still to come, once `original` bytes became `output` bytes;
   * `any` says whether a segment has been written already.
   */
  ghost function SegmentsFrom(edits: seq<Edit>, original: nat, output: nat, n: nat, any: bool): seq<Segment>
    requires Ordered(edits, original, n)
  {
    if edits == [] then
      if original < n || !any
      then [Segment(ByteSpan(original, n), ByteSpan(output, output + n - original), true)] else []
    else
      var e := edits[0];
      var output' := output + e.span.start - original;
      Untouched(original, e.span.start, output)
      + ([Segment(e.span, ByteSpan(output', output' + |e.replacement|), false)]
         + SegmentsFrom(edits[1..], e.span.end, output' + |e.replacement|, n, true))
  }

  /** The exact segment in front of an edit, when there are bytes there at all. */
  function Untouched(original: nat, start: nat, output: nat): (s: seq<Segment>)
    requires original <= start
  {
    if original < start
    then [Segment(ByteSpan(original, start), ByteSpan(output, output + start - original), true)] else []
  }

  lemma {:induction false} SegmentsUnfold(edits: seq<Edit>, o: nat, w: nat, n: nat, any: bool)
    requires Ordered(edits, o, n) && edits != []
    ensures var e := edits[0];
            var w' := w + e.span.start - o;
            SegmentsFrom(edits, o, w, n, any)
            == Untouched(o, e.span.start, w)
               + ([Segment(e.span, ByteSpan(w', w' + |e.replacement|), false)]
                  + SegmentsFrom(edits[1..], e.span.end, w' + |e.replacement|, n, true))
  {
  }

  lemma {:induction false} SegmentsTile(edits: seq<Edit>, o: nat, w: nat, source: Source, any: bool)
    requires Ordered(edits, o, |source|)
    ensures var segments, out := SegmentsFrom(edits, o, w, |source|, any), ApplyFrom(source, edits, o);
            && Tiles(segments, source[o..], out, o, w)
            && Replacements(segments, out, w) == edits
            && (segments == [] ==> edits == [] && any)
    decreases |edits|
  {
    if edits == [] {
      assert source[o..][|source| - o..] == [];
    } else {
      var e := edits[0];
      var w2 := w + (e.span.start - o) + |e.replacement|;
      SegmentsTile(edits[1..], e.span.end, w2, source, true);
      SegmentsUnfold(edits, o, w, |source|, any);
      ApplyUnfold(source, edits, o);
      TileEdit(edits, o, w, source, SegmentsFrom(edits[1..], e.span.end, w2, |source|, true),
               ApplyFrom(source, edits[1..], e.span.end));
    }
  }

  /** The first edit in front of a tiling of what follows it. */
  lemma {:induction false} TileEdit(edits: seq<Edit>, o: nat, w: nat, source: Source, more: seq<Segment>, tail: Source)
    requires edits != [] && o <= edits[0].span.start <= edits[0].span.end <= |source|
    requires var e := edits[0];
             var w2 := w + (e.span.start - o) + |e.replacement|;
             Tiles(more, source[e.span.end..], tail, e.span.end, w2) && Replacements(more, tail, w2) == edits[1..]
    ensures var e := edits[0];
            var w1 := w + (e.span.start - o);
            var segments := Untouched(o, e.span.start, w)
                            + ([Segment(e.span, ByteSpan(w1, w1 + |e.replacement|), false)] + more);
            var out := source[o..e.span.start] + (e.replacement + tail);
            Tiles(segments, source[o..], out, o, w) && Replacements(segments, out, w) == edits
  {
    var e := edits[0];
    var w1 := w + (e.span.start - o);
    ReplacedTiles(e, more, edits[1..], source, tail, w1);
    assert [e] + edits[1..] == edits;
    UntouchedTiles([Segment(e.span, ByteSpan(w1, w1 + |e.replacement|), false)] + more, edits, source,
                   e.replacement + tail, o, e.span.start, w);
  }

  /** A replaced segment in front of a tiling of what follows it. */
  lemma {:induction false} ReplacedTiles(e: Edit, more: seq<Segment>, edits: seq<Edit>, source: Source, tail: Source,
                                         w: nat)
    requires e.span.start <= e.span.end <= |source|
    requires Tiles(more, source[e.span.end..], tail, e.span.end, w + |e.replacement|)
    requires Replacements(more, tail, w + |e.replacement|) == edits
    ensures var all := [Segment(e.span, ByteSpan(w, w + |e.replacement|), false)] + more;
            && Tiles(all, source[e.span.start..], e.replacement + tail, e.span.start, w)
            && Replacements(all, e.replacement + tail, w) == [e] + edits
  {
    var all := [Segment(e.span, ByteSpan(w, w + |e.replacement|), false)] + more;
    assert all[1..] == more;
    assert source[e.span.start..][e.span.end - e.span.start..] == source[e.span.end..];
    var out := e.replacement + tail;
    assert out[|e.replacement|..] == tail && out[..|e.replacement|] == e.replacement;
  }

  /** An exact segment in front of a tiling of what follows it. */
  lemma {:induction false} UntouchedTiles(rest: seq<Segment>, edits: seq<Edit>, source: Source, tail: Source, o: nat,
                                          start: nat, w: nat)
    requires o <= start <= |source|
    requires Tiles(rest, source[start..], tail, start, w + start - o)
    requires Replacements(rest, tail, w + start - o) == edits
    ensures var all := Untouched(o, start, w) + rest;
            && Tiles(all, source[o..], source[o..start] + tail, o, w)
            && Replacements(all, source[o..start] + tail, w) == edits
  {
    if o < start {
      CutAt(source, tail, o, start);
      OneMoreTile(rest, source[o..], source[o..start] + tail, o, start, w);
    } else {
      assert Untouched(o, start, w) + rest == rest && source[o..start] + tail == tail;
    }
  }

  lemma {:induction false} CutAt(source: Source, tail: Source, o: nat, start: nat)
    requires o <= start <= |source|
    ensures source[o..][start - o..] == source[start..] && source[o..][..start - o] == source[o..start]
    ensures var out := source[o..start] + tail; out[start - o..] == tail && out[..start - o] == source[o..start]
  {
  }

  lemma {:induction false} OneMoreTile(rest: seq<Segment>, src: Source, out: Source, o: nat, start: nat, w: nat)
    requires o < start && start - o <= |src| && start - o <= |out| && src[..start - o] == out[..start - o]
    requires Tiles(rest, src[start - o..], out[start - o..], start, w + start - o)
    ensures var all := [Segment(ByteSpan(o, start), ByteSpan(w, w + start - o), true)] + rest;
            && Tiles(all, src, out, o, w)
            && Replacements(all, out, w) == Replacements(rest, out[start - o..], w + start - o)
  {
    var all := [Segment(ByteSpan(o, start), ByteSpan(w, w + start - o), true)] + rest;
    assert all[1..] == rest;
  }

  /**
   * Build the map. `source` is ghost: the original is handed the length alone, and what is promised
   * holds of any source of that length.
   */
  method FromEdits(sourceLen: nat, edits: seq<Edit>, ghost source: Source) returns (segments: seq<Segment>)
    requires |source| == sourceLen
    requires Ordered(edits, 0, sourceLen)
    ensures segments != []
    ensures Tiles(segments, source, Apply(source, edits), 0, 0)
    ensures Replacements(segments, Apply(source, edits), 0) == edits
  {
    var original: nat, output: nat := 0, 0;
    segments := [];
    var i := 0;
    assert edits[0..] == edits;
    while i < |edits|
      invariant 0 <= i <= |edits| && original <= sourceLen
      invariant Ordered(edits[i..], original, sourceLen)
      invariant SegmentsBehind(edits[i..], original, output, sourceLen, segments)
             == SegmentsBehind(edits, 0, 0, sourceLen, [])
    {
      var e := edits[i];
      assert edits[i..][0] == e && edits[i..][1..] == edits[i + 1..];
      assert e.span.start <= e.span.end && e.span.start >= original && e.span.end <= sourceLen;
      ghost var next := segments + Untouched(original, e.span.start, output);
      if original < e.span.start {
        var length := e.span.start - original;
        segments := segments
        + [Segment(ByteSpan(original, e.span.start), ByteSpan(output, output + length), true)];
        output := output + length;
      }
      assert segments == next;
      segments := segments + [Segment(e.span, ByteSpan(output, output + |e.replacement|), false)];
      output := output + |e.replacement|;
      original := e.span.end;
      i := i + 1;
    }
    assert edits[i..] == [];
    if original < sourceLen || segments == [] {
      segments := segments
      + [Segment(ByteSpan(original, sourceLen), ByteSpan(output, output + sourceLen - original), true)];
    }
    SegmentsAreBehind(edits, 0, 0, sourceLen, []);
    assert [] + SegmentsFrom(edits, 0, 0, sourceLen, false) == SegmentsFrom(edits, 0, 0, sourceLen, false);
    SegmentsTile(edits, 0, 0, source, false);
    assert source[0..] == source;
  }

  /** The segments for the edits still to come, behind those written already. */
  ghost function SegmentsBehind(edits: seq<Edit>, o: nat, w: nat, n: nat, done: seq<Segment>): seq<Segment>
    requires Ordered(edits, o, n)
  {
    if edits == [] then
      if o < n || done == [] then done + [Segment(ByteSpan(o, n), ByteSpan(w, w + n - o), true)] else done
    else
      var e := edits[0];
      var w' := w + e.span.start - o;
      SegmentsBehind(edits[1..], e.span.end, w' + |e.replacement|, n,
                     done + Untouched(o, e.span.start, w)
                       + [Segment(e.span, ByteSpan(w', w' + |e.replacement|), false)])
  }

  lemma {:induction false} SegmentsAreBehind(edits: seq<Edit>, o: nat, w: nat, n: nat, done: seq<Segment>)
    requires Ordered(edits, o, n)
    ensures SegmentsBehind(edits, o, w, n, done) == done + SegmentsFrom(edits, o, w, n, done != [])
    decreases |edits|
  {
    if edits == [] {
      assert done + [] == done;
    } else {
      var e := edits[0];
      var w' := w + e.span.start - o;
      var first, replaced := Untouched(o, e.span.start, w),
          [Segment(e.span, ByteSpan(w', w' + |e.replacement|), false)];
      var more := SegmentsFrom(edits[1..], e.span.end, w' + |e.replacement|, n, true);
      calc {
        SegmentsBehind(edits, o, w, n, done);
        SegmentsBehind(edits[1..], e.span.end, w' + |e.replacement|, n, done + first + replaced);
        { SegmentsAreBehind(edits[1..], e.span.end, w' + |e.replacement|, n, done + first + replaced); }
        (done + first + replaced) + more;
        { Regroup(done, first, replaced, more); }
        done + (first + (replaced + more));
        { SegmentsUnfold(edits, o, w, n, done != []); }
        done + SegmentsFrom(edits, o, w, n, done != []);
      }
    }
  }

  /** The segment an offset lands through: the first that holds it, and the far end past them all. */
  function Landing(segments: seq<Segment>, offset: nat): Option<int> {
    if segments == [] then None
    else if Contains(segments[0].original, offset) then
      Some(if segments[0].exact
           then segments[0].output.start + offset - segments[0].original.start
           else segments[0].output.start)
    else if |segments| == 1 then
      if offset == segments[0].original.end then Some(segments[0].output.end) else None
    else Landing(segments[1..], offset)
  }

  /** The map read the other way. */
  function Flip(segments: seq<Segment>): (f: seq<Segment>)
    ensures |f| == |segments|
    ensures forall i | 0 <= i < |f| :: f[i] == Segment(segments[i].output, segments[i].original, segments[i].exact)
  {
    if segments == [] then []
    else [Segment(segments[0].output, segments[0].original, segments[0].exact)] + Flip(segments[1..])
  }

  method OriginalToOutput(segments: seq<Segment>, offset: nat) returns (r: Option<int>)
    ensures r == Landing(segments, offset)
  {
    var i := 0;
    while i < |segments|
      invariant 0 <= i <= |segments|
      invariant Landing(segments, offset)
             == if i < |segments| then Landing(segments[i..], offset)
                else if |segments| > 0 && offset == segments[|segments| - 1].original.end
                then Some(segments[|segments| - 1].output.end) else None
    {
      var s := segments[i];
      assert segments[i..][0] == s && segments[i..][1..] == segments[i + 1..];
      if Contains(s.original, offset) {
        return if s.exact then Some(s.output.start + offset - s.original.start) else Some(s.output.start);
      }
      i := i + 1;
    }
    r := if |segments| > 0 && offset == segments[|segments| - 1].original.end
    then Some(segments[|segments| - 1].output.end) else None;
  }

  method OutputToOriginal(segments: seq<Segment>, offset: nat) returns (r: Option<int>)
    ensures r == Landing(Flip(segments), offset)
  {
    ghost var flipped := Flip(segments);
    var i := 0;
    while i < |segments|
      invariant 0 <= i <= |segments|
      invariant Landing(flipped, offset)
             == if i < |segments| then Landing(flipped[i..], offset)
                else if |segments| > 0 && offset == segments[|segments| - 1].output.end
                then Some(segments[|segments| - 1].original.end) else None
    {
      var s := segments[i];
      assert flipped[i..][0] == flipped[i] && flipped[i..][1..] == flipped[i + 1..];
      if Contains(s.output, offset) {
        return if s.exact then Some(s.original.start + offset - s.output.start) else Some(s.original.start);
      }
      i := i + 1;
    }
    r := if |segments| > 0 && offset == segments[|segments| - 1].output.end
    then Some(segments[|segments| - 1].original.end) else None;
  }

  lemma {:induction false} FlipTiles(segments: seq<Segment>, src: Source, out: Source, o: nat, w: nat)
    requires Tiles(segments, src, out, o, w)
    ensures Tiles(Flip(segments), out, src, w, o)
    decreases |segments|
  {
    if segments != [] {
      var m, n := Length(segments[0].original), Length(segments[0].output);
      FlipTiles(segments[1..], src[m..], out[n..], o + m, w + n);
      assert Flip(segments)[1..] == Flip(segments[1..]);
    }
  }

  /** A lookup answers exactly on the offsets of its side, the end included, and stays on the other side. */
  lemma {:induction false} LandingTotal(segments: seq<Segment>, src: Source, out: Source, o: nat, w: nat, offset: nat)
    requires segments != [] && Tiles(segments, src, out, o, w) && o <= offset
    ensures Landing(segments, offset).Some? <==> offset <= o + |src|
    ensures Landing(segments, offset).Some? ==> w <= Landing(segments, offset).value <= w + |out|
    ensures offset == o + |src| ==> Landing(segments, offset) == Some(w + |out|)
    decreases |segments|
  {
    var s := segments[0];
    var m, n := Length(s.original), Length(s.output);
    if s.exact { assert |src[..m]| == |out[..n]|; }
    if !Contains(s.original, offset) && |segments| > 1 {
      LandingTotal(segments[1..], src[m..], out[n..], o + m, w + n, offset);
    }
  }

  /** The map never reorders two offsets. */
  lemma {:induction false} LandingMonotone(segments: seq<Segment>, src: Source, out: Source, o: nat, w: nat, a: nat,
                                           b: nat)
    requires segments != [] && Tiles(segments, src, out, o, w) && o <= a <= b <= o + |src|
    ensures Landing(segments, a).Some? && Landing(segments, b).Some?
    ensures Landing(segments, a).value <= Landing(segments, b).value
    decreases |segments|
  {
    LandingTotal(segments, src, out, o, w, a);
    LandingTotal(segments, src, out, o, w, b);
    var s := segments[0];
    var m, n := Length(s.original), Length(s.output);
    if s.exact { assert |src[..m]| == |out[..n]|; }
    if Contains(s.original, a) {
      if !Contains(s.original, b) && |segments| > 1 {
        LandingTotal(segments[1..], src[m..], out[n..], o + m, w + n, b);
      }
    } else if |segments| > 1 {
      LandingMonotone(segments[1..], src[m..], out[n..], o + m, w + n, a, b);
    }
  }

  /**
   * An offset inside a replaced section lands on the start of the replacement, and one inside a section that was
   * copied on its own byte.
   */
  lemma {:induction false} LandsInSegment(segments: seq<Segment>, k: nat, src: Source, out: Source, o: nat, w: nat,
                                          offset: nat)
    requires Tiles(segments, src, out, o, w) && k < |segments| && Contains(segments[k].original, offset)
    ensures Landing(segments, offset)
         == Some(segments[k].output.start + if segments[k].exact then offset - segments[k].original.start else 0)
    decreases k
  {
    if k > 0 {
      var m, n := Length(segments[0].original), Length(segments[0].output);
      StartsLater(segments[1..], k - 1, src[m..], out[n..], o + m, w + n);
      LandsInSegment(segments[1..], k - 1, src[m..], out[n..], o + m, w + n, offset);
    }
  }

  /** Some exact segment holds the offset: its byte was not edited. */
  ghost predicate Unchanged(segments: seq<Segment>, offset: nat) {
    exists s <- segments :: s.exact && Contains(s.original, offset)
  }

  /** An unchanged offset maps to the same byte, and the way back leads to it again. */
  lemma {:induction false} RoundTrip(segments: seq<Segment>, source: Source, out: Source, offset: nat)
    requires Tiles(segments, source, out, 0, 0) && Unchanged(segments, offset)
    ensures Landing(segments, offset).Some? && offset < |source|
    ensures var j := Landing(segments, offset).value;
            && 0 <= j < |out| && out[j] == source[offset]
            && Landing(Flip(segments), j) == Some(offset)
  {
    var t :| t in segments && t.exact && Contains(t.original, offset);
    var k :| 0 <= k < |segments| && segments[k] == t;
    RoundTripAt(segments, k, source, out, 0, 0, offset);
  }

  /** Offset `offset` lands on the same byte, and its way back leads to it. */
  ghost predicate ComesBack(segments: seq<Segment>, src: Source, out: Source, o: nat, w: nat, offset: nat) {
    && Landing(segments, offset).Some? && o <= offset < o + |src|
    && var j := Landing(segments, offset).value;
       && w <= j < w + |out| && out[j - w] == src[offset - o]
       && Landing(Flip(segments), j) == Some(offset)
  }

  lemma {:induction false} RoundTripAt(segments: seq<Segment>, k: nat, src: Source, out: Source, o: nat, w: nat,
                                       offset: nat)
    requires Tiles(segments, src, out, o, w) && k < |segments|
    requires segments[k].exact && Contains(segments[k].original, offset)
    ensures ComesBack(segments, src, out, o, w, offset)
    decreases k
  {
    if k == 0 {
      RoundTripHere(segments, src, out, o, w, offset);
    } else {
      var m, n := Length(segments[0].original), Length(segments[0].output);
      StartsLater(segments[1..], k - 1, src[m..], out[n..], o + m, w + n);
      RoundTripAt(segments[1..], k - 1, src[m..], out[n..], o + m, w + n, offset);
      RoundTripBehind(segments, src, out, o, w, offset);
    }
  }

  lemma {:induction false} RoundTripHere(segments: seq<Segment>, src: Source, out: Source, o: nat, w: nat, offset: nat)
    requires Tiles(segments, src, out, o, w) && segments != []
    requires segments[0].exact && Contains(segments[0].original, offset)
    ensures ComesBack(segments, src, out, o, w, offset)
  {
    var m, n := Length(segments[0].original), Length(segments[0].output);
    assert src[..m][offset - o] == out[..n][offset - o];
  }

  lemma {:induction false} RoundTripBehind(segments: seq<Segment>, src: Source, out: Source, o: nat, w: nat,
                                           offset: nat)
    requires Tiles(segments, src, out, o, w) && |segments| > 1
    requires var m, n := Length(segments[0].original), Length(segments[0].output);
             o + m <= offset && ComesBack(segments[1..], src[m..], out[n..], o + m, w + n, offset)
    ensures ComesBack(segments, src, out, o, w, offset)
  {
    var n := Length(segments[0].output);
    var j := Landing(segments[1..], offset).value;
    assert Landing(segments, offset) == Some(j);
    assert Flip(segments)[1..] == Flip(segments[1..]);
    assert Landing(Flip(segments), j) == Landing(Flip(segments)[1..], j);
    assert out[n..][j - (w + n)] == out[j - w];
  }

  lemma {:induction false} StartsLater(segments: seq<Segment>, k: nat, src: Source, out: Source, o: nat, w: nat)
    requires Tiles(segments, src, out, o, w) && k < |segments|
    ensures o <= segments[k].original.start
    decreases k
  {
    if k > 0 {
      var m, n := Length(segments[0].original), Length(segments[0].output);
      StartsLater(segments[1..], k - 1, src[m..], out[n..], o + m, w + n);
    }
  }
}
