/** Byte spans, edits, and the one pass that applies a sorted batch of them. */
module Edits {
  import opened Bytes

  datatype ByteSpan = ByteSpan(start: nat, end: nat)

  datatype Edit = Edit(span: ByteSpan, replacement: Source)

  /** Every edit lies in `cursor..n`, is upright, and starts no earlier than its predecessor ended. */
  predicate Ordered(edits: seq<Edit>, cursor: nat, n: nat) {
    if edits == [] then cursor <= n
    else
      && cursor <= edits[0].span.start <= edits[0].span.end <= n
      && Ordered(edits[1..], edits[0].span.end, n)
  }

  /** What is left to write once everything before `cursor` has been written. */
  ghost function ApplyFrom(source: Source, edits: seq<Edit>, cursor: nat): (out: Source)
    requires Ordered(edits, cursor, |source|)
  {
    if edits == [] then source[cursor..]
    else
      source[cursor..edits[0].span.start]
      + (edits[0].replacement + ApplyFrom(source, edits[1..], edits[0].span.end))
  }

  /** The bytes a batch of edits makes of `source`. */
  ghost function Apply(source: Source, edits: seq<Edit>): Source
    requires Ordered(edits, 0, |source|)
  {
    ApplyFrom(source, edits, 0)
  }

  lemma {:induction false} OrderedBounds(edits: seq<Edit>, cursor: nat, n: nat)
    requires Ordered(edits, cursor, n)
    ensures cursor <= n
    ensures forall i | 0 <= i < |edits| :: cursor <= edits[i].span.start <= edits[i].span.end <= n
    ensures forall i, j | 0 <= i < j < |edits| :: edits[i].span.end <= edits[j].span.start
  {
    if edits != [] {
      OrderedBounds(edits[1..], edits[0].span.end, n);
      forall i, j | 0 <= i < j < |edits|
        ensures edits[i].span.end <= edits[j].span.start
      {
        if i > 0 {
          assert edits[1..][i - 1] == edits[i] && edits[1..][j - 1] == edits[j];
        } else {
          assert edits[1..][j - 1] == edits[j];
        }
      }
      forall i | 0 <= i < |edits|
        ensures cursor <= edits[i].span.start <= edits[i].span.end <= n
      {
        if i > 0 { assert edits[1..][i - 1] == edits[i]; }
      }
    }
  }

  /** The pairwise reading of a sorted batch is the whole of `Ordered`. */
  lemma {:induction false} OrderedFromPairs(edits: seq<Edit>, cursor: nat, n: nat)
    requires cursor <= n
    requires forall i | 0 <= i < |edits| :: cursor <= edits[i].span.start <= edits[i].span.end <= n
    requires forall i, j | 0 <= i < j < |edits| :: edits[i].span.end <= edits[j].span.start
    ensures Ordered(edits, cursor, n)
  {
    if edits != [] {
      OrderedFromPairs(edits[1..], edits[0].span.end, n);
    }
  }

  lemma {:induction false} OrderedAppend(edits: seq<Edit>, e: Edit, cursor: nat, n: nat)
    requires Ordered(edits, cursor, n)
    requires cursor <= e.span.start <= e.span.end <= n
    requires edits != [] ==> edits[|edits| - 1].span.end <= e.span.start
    ensures Ordered(edits + [e], cursor, n)
  {
    OrderedBounds(edits, cursor, n);
    var all := edits + [e];
    forall i, j | 0 <= i < j < |all|
      ensures all[i].span.end <= all[j].span.start
    {
      if j == |edits| && i < |edits| - 1 {
        assert edits[i].span.end <= edits[|edits| - 1].span.start;
      }
    }
    OrderedFromPairs(all, cursor, n);
  }

  lemma {:induction false} EndsOfJoined(head: Source, mid: Source, tail: Source, k: nat)
    requires k <= |tail|
    ensures (head + (mid + tail))[..|head|] == head
    ensures var all := head + (mid + tail); all[|all| - k..] == tail[|tail| - k..]
  {
  }

  /** The bytes before the first edit and the bytes behind the last one are copied through. */
  lemma {:induction false} ApplyKeepsEnds(source: Source, edits: seq<Edit>, cursor: nat)
    requires Ordered(edits, cursor, |source|)
    requires edits != []
    ensures var out := ApplyFrom(source, edits, cursor);
            var first, last := edits[0].span.start, edits[|edits| - 1].span.end;
            && first - cursor <= |out|
            && out[..first - cursor] == source[cursor..first]
            && last <= |source|
            && |source| - last <= |out|
            && out[|out| - (|source| - last)..] == source[last..]
  {
    var e, last := edits[0], edits[|edits| - 1].span.end;
    var tail := ApplyFrom(source, edits[1..], e.span.end);
    ApplyUnfold(source, edits, cursor);
    if |edits| > 1 {
      ApplyKeepsEnds(source, edits[1..], e.span.end);
      assert edits[1..][|edits| - 2] == edits[|edits| - 1];
    } else {
      assert tail[|tail| - (|source| - last)..] == source[last..];
    }
    EndsOfJoined(source[cursor..e.span.start], e.replacement, tail, |source| - last);
  }

  /** The length of the output, as `apply_edits` folds it for its allocation, in saturating arithmetic. */
  function CapacityFold(length: nat, edits: seq<Edit>): nat
    decreases edits
  {
    if edits == [] then length
    else
      var e := edits[0];
      var removed := if e.span.end >= e.span.start then e.span.end - e.span.start else 0;
      CapacityFold((if length >= removed then length - removed else 0) + |e.replacement|, edits[1..])
  }

  /** The allocation is exact: no subtraction in the fold ever saturates. */
  lemma {:induction false} CapacityIsExact(source: Source, edits: seq<Edit>, cursor: nat, length: nat)
    requires Ordered(edits, cursor, |source|)
    requires length >= |source| - cursor
    ensures CapacityFold(length, edits) == length - (|source| - cursor) + |ApplyFrom(source, edits, cursor)|
  {
    if edits != [] {
      var e := edits[0];
      OrderedBounds(edits[1..], e.span.end, |source|);
      CapacityIsExact(source, edits[1..], e.span.end, length - (e.span.end - e.span.start) + |e.replacement|);
    }
  }

  lemma {:induction false} ApplyUnfold(source: Source, edits: seq<Edit>, cursor: nat)
    requires edits != [] && Ordered(edits, cursor, |source|)
    ensures ApplyFrom(source, edits, cursor)
         == source[cursor..edits[0].span.start]
            + (edits[0].replacement + ApplyFrom(source, edits[1..], edits[0].span.end))
  {
  }

  lemma {:induction false} ApplyStep(source: Source, edits: seq<Edit>, i: nat, cursor: nat)
    requires i < |edits| && Ordered(edits[i..], cursor, |source|)
    ensures var e := edits[i];
            && cursor <= e.span.start <= e.span.end <= |source|
            && Ordered(edits[i + 1..], e.span.end, |source|)
            && ApplyFrom(source, edits[i..], cursor)
               == source[cursor..e.span.start] + (e.replacement + ApplyFrom(source, edits[i + 1..], e.span.end))
  {
    assert edits[i..][0] == edits[i] && edits[i..][1..] == edits[i + 1..];
  }

  /** One pass over the edits; the three assertions of the original hold of every sorted batch. */
  method ApplyEdits(source: Source, edits: seq<Edit>) returns (output: Source)
    requires Ordered(edits, 0, |source|)
    ensures output == Apply(source, edits)
    ensures |output| == CapacityFold(|source|, edits)
  {
    var cursor: nat := 0;
    output := [];
    var i := 0;
    while i < |edits|
      invariant 0 <= i <= |edits|
      invariant Ordered(edits[i..], cursor, |source|)
      invariant output + ApplyFrom(source, edits[i..], cursor) == Apply(source, edits)
    {
      var e := edits[i];
      ApplyStep(source, edits, i, cursor);
      assert e.span.start <= e.span.end;
      assert e.span.start >= cursor;
      assert e.span.end <= |source|;
      Regroup(output, source[cursor..e.span.start], e.replacement, ApplyFrom(source, edits[i + 1..], e.span.end));
      output := output + source[cursor..e.span.start] + e.replacement;
      cursor := e.span.end;
      i := i + 1;
    }
    output := output + source[cursor..];
    CapacityIsExact(source, edits, 0, |source|);
  }

  /** Applying the edits one at a time, the last first, so that no earlier offset has moved yet. */
  ghost function ApplyLastFirst(source: Source, edits: seq<Edit>): Source
    requires Ordered(edits, 0, |source|)
    decreases |edits|
  {
    if edits == [] then source
    else
      OrderedBounds(edits, 0, |source|);
      var last := edits[|edits| - 1];
      var next := Replaced(source, last);
      OrderedPrefix(edits, 0, |source|, |next|);
      ApplyLastFirst(next, edits[..|edits| - 1])
  }

  lemma {:induction false} OrderedPrefix(edits: seq<Edit>, cursor: nat, n: nat, m: nat)
    requires edits != [] && Ordered(edits, cursor, n)
    requires edits[|edits| - 1].span.start <= m
    ensures Ordered(edits[..|edits| - 1], cursor, m)
  {
    OrderedBounds(edits, cursor, n);
    OrderedFromPairs(edits[..|edits| - 1], cursor, m);
  }

  /** The source with one edit applied. */
  function Replaced(source: Source, e: Edit): Source
    requires e.span.start <= e.span.end <= |source|
  {
    source[..e.span.start] + e.replacement + source[e.span.end..]
  }

  lemma {:induction false} ReplacedFrom(source: Source, e: Edit, cursor: nat)
    requires cursor <= e.span.start <= e.span.end <= |source|
    ensures Replaced(source, e)[cursor..] == source[cursor..e.span.start] + (e.replacement + source[e.span.end..])
  {
  }

  lemma {:induction false} ReplacedBefore(source: Source, e: Edit, a: nat, b: nat)
    requires a <= b <= e.span.start <= e.span.end <= |source|
    ensures Replaced(source, e)[a..b] == source[a..b]
  {
  }

  lemma {:induction false} DropLast(edits: seq<Edit>)
    requires |edits| > 1
    ensures edits[1..][|edits| - 2] == edits[|edits| - 1]
    ensures edits[1..][..|edits| - 2] == edits[..|edits| - 1][1..]
  {
  }

  lemma {:induction false} ApplyDropLast(source: Source, edits: seq<Edit>, cursor: nat)
    requires Ordered(edits, cursor, |source|) && edits != []
    ensures var last := edits[|edits| - 1];
            && cursor <= last.span.start <= last.span.end <= |source|
            && var next := Replaced(source, last);
            && Ordered(edits[..|edits| - 1], cursor, |next|)
            && ApplyFrom(source, edits, cursor) == ApplyFrom(next, edits[..|edits| - 1], cursor)
    decreases |edits|
  {
    OrderedBounds(edits, cursor, |source|);
    var k := |edits| - 1;
    var last := edits[k];
    var next := Replaced(source, last);
    OrderedPrefix(edits, cursor, |source|, |next|);
    ApplyUnfold(source, edits, cursor);
    if k == 0 {
      ReplacedFrom(source, last, cursor);
    } else {
      DropLast(edits);
      ApplyDropLast(source, edits[1..], edits[0].span.end);
      ApplyUnfold(next, edits[..k], cursor);
      ReplacedBefore(source, last, cursor, edits[0].span.start);
    }
  }

  /** One pass equals one edit at a time from the back. */
  lemma {:induction false} OnePassIsLastFirst(source: Source, edits: seq<Edit>)
    requires Ordered(edits, 0, |source|)
    ensures Apply(source, edits) == ApplyLastFirst(source, edits)
    decreases |edits|
  {
    if edits != [] {
      ApplyDropLast(source, edits, 0);
      var last := edits[|edits| - 1];
      var next := Replaced(source, last);
      OnePassIsLastFirst(next, edits[..|edits| - 1]);
    }
  }

  // ---- the text in front of a place, and behind it ----

  /** All of the edits lie in front of `x`. */
  predicate EndBy(edits: seq<Edit>, x: nat) {
    edits != [] ==> edits[|edits| - 1].span.end <= x
  }

  /** What is written of the source in front of `x`, every edit there applied. */
  ghost function Written(source: Source, edits: seq<Edit>, x: nat): Source
    requires Ordered(edits, 0, |source|) && EndBy(edits, x) && x <= |source|
    decreases |edits|
  {
    if edits == [] then source[..x]
    else
      OrderedBounds(edits, 0, |source|);
      var n := |edits| - 1;
      OrderedPrefix(edits, 0, |source|, |source|);
      EndsInFront(edits, 0, |source|);
      Written(source, edits[..n], edits[n].span.start) + (edits[n].replacement + source[edits[n].span.end..x])
  }

  lemma {:induction false} EndsInFront(edits: seq<Edit>, cursor: nat, n: nat)
    requires edits != [] && Ordered(edits, cursor, n)
    ensures EndBy(edits[..|edits| - 1], edits[|edits| - 1].span.start)
  {
    OrderedBounds(edits, cursor, n);
  }

  /** A batch cut in two: each half is sorted, and the second begins where it may. */
  lemma {:induction false} OrderedSplit(edits: seq<Edit>, k: nat, cursor: nat, n: nat, x: nat)
    requires Ordered(edits, cursor, n) && k <= |edits|
    requires cursor <= x <= (if k < |edits| then edits[k].span.start else n) && EndBy(edits[..k], x)
    ensures Ordered(edits[..k], cursor, n) && Ordered(edits[k..], x, n)
  {
    OrderedBounds(edits, cursor, n);
    OrderedFromPairs(edits[..k], cursor, n);
    OrderedFromPairs(edits[k..], x, n);
  }

  /** The text is what is written in front of a place and what is written behind it. */
  lemma {:induction false} WrittenInTwo(source: Source, edits: seq<Edit>, k: nat, x: nat)
    requires Ordered(edits, 0, |source|) && k <= |edits|
    requires x <= (if k < |edits| then edits[k].span.start else |source|) && EndBy(edits[..k], x)
    ensures Ordered(edits[..k], 0, |source|) && Ordered(edits[k..], x, |source|) && x <= |source|
    ensures Apply(source, edits) == Written(source, edits[..k], x) + ApplyFrom(source, edits[k..], x)
    decreases k
  {
    OrderedBounds(edits, 0, |source|);
    OrderedSplit(edits, k, 0, |source|, x);
    if k == 0 {
      assert edits[..0] == [] && edits[0..] == edits;
      WrittenFirst(source, edits, x);
    } else {
      var e := edits[k - 1];
      assert edits[..k][k - 1] == e;
      WrittenInTwo(source, edits, k - 1, e.span.start);
      WrittenOneMore(source, edits, k, x);
    }
  }

  lemma {:induction false} WrittenFirst(source: Source, edits: seq<Edit>, x: nat)
    requires Ordered(edits, 0, |source|) && Ordered(edits, x, |source|)
    requires x <= (if edits == [] then |source| else edits[0].span.start)
    ensures Apply(source, edits) == source[..x] + ApplyFrom(source, edits, x)
  {
    if edits == [] {
      assert source[0..] == source[..x] + source[x..];
    } else {
      var e := edits[0];
      var rest := e.replacement + ApplyFrom(source, edits[1..], e.span.end);
      ApplyUnfold(source, edits, 0);
      ApplyUnfold(source, edits, x);
      assert source[0..e.span.start] + rest == source[..x] + (source[x..e.span.start] + rest);
    }
  }

  lemma {:induction false} WrittenOneMore(source: Source, edits: seq<Edit>, k: nat, x: nat)
    requires Ordered(edits, 0, |source|) && 0 < k <= |edits| && edits[k - 1].span.end <= x <= |source|
    requires Ordered(edits[..k], 0, |source|) && Ordered(edits[k..], x, |source|) && EndBy(edits[..k], x)
    requires x <= (if k < |edits| then edits[k].span.start else |source|)
    requires Ordered(edits[..k - 1], 0, |source|) && EndBy(edits[..k - 1], edits[k - 1].span.start)
    requires Ordered(edits[k - 1..], edits[k - 1].span.start, |source|)
    requires Apply(source, edits)
          == Written(source, edits[..k - 1], edits[k - 1].span.start)
             + ApplyFrom(source, edits[k - 1..], edits[k - 1].span.start)
    ensures Apply(source, edits) == Written(source, edits[..k], x) + ApplyFrom(source, edits[k..], x)
  {
    var e, all := edits[k - 1], edits[k - 1..];
    var front := Written(source, edits[..k - 1], e.span.start);
    assert all[0] == e && all[1..] == edits[k..] && edits[..k][..k - 1] == edits[..k - 1];
    ApplyUnfold(source, all, e.span.start);
    ApplyLater(source, edits[k..], e.span.end, x);
    var run, rest := source[e.span.end..x], ApplyFrom(source, edits[k..], x);
    calc {
      Apply(source, edits);
      front + ([] + (e.replacement + (run + rest)));
      { assert [] + (e.replacement + (run + rest)) == e.replacement + (run + rest); }
      front + (e.replacement + (run + rest));
      { assert e.replacement + (run + rest) == (e.replacement + run) + rest; }
      front + ((e.replacement + run) + rest);
      { assert front + ((e.replacement + run) + rest) == (front + (e.replacement + run)) + rest; }
      (front + (e.replacement + run)) + rest;
    }
  }

  /** The stretch in front of the first edit may be copied in two. */
  lemma {:induction false} ApplyLater(source: Source, edits: seq<Edit>, a: nat, x: nat)
    requires Ordered(edits, x, |source|) && a <= x <= (if edits == [] then |source| else edits[0].span.start)
    requires x <= |source|
    ensures Ordered(edits, a, |source|)
    ensures ApplyFrom(source, edits, a) == source[a..x] + ApplyFrom(source, edits, x)
  {
    if edits == [] {
      assert source[a..] == source[a..x] + source[x..];
    } else {
      var e := edits[0];
      var rest := e.replacement + ApplyFrom(source, edits[1..], e.span.end);
      ApplyUnfold(source, edits, a);
      ApplyUnfold(source, edits, x);
      assert source[a..e.span.start] + rest == source[a..x] + (source[x..e.span.start] + rest);
    }
  }

  lemma {:induction false} WrittenFurther(source: Source, edits: seq<Edit>, y: nat, x: nat)
    requires Ordered(edits, 0, |source|) && EndBy(edits, y) && y <= x <= |source|
    ensures EndBy(edits, x) && Written(source, edits, x) == Written(source, edits, y) + source[y..x]
  {
    if edits == [] {
      assert source[..x] == source[..y] + source[y..x];
    } else {
      OrderedBounds(edits, 0, |source|);
      OrderedPrefix(edits, 0, |source|, |source|);
      EndsInFront(edits, 0, |source|);
      var e := edits[|edits| - 1];
      var front := Written(source, edits[..|edits| - 1], e.span.start);
      assert source[e.span.end..x] == source[e.span.end..y] + source[y..x];
      assert front + (e.replacement + (source[e.span.end..y] + source[y..x]))
          == (front + (e.replacement + source[e.span.end..y])) + source[y..x];
    }
  }

  lemma {:induction false} WrittenLast(source: Source, edits: seq<Edit>, k: nat, x: nat)
    requires Ordered(edits, 0, |source|) && 0 < k <= |edits| && x <= |source|
    requires Ordered(edits[..k], 0, |source|) && EndBy(edits[..k], x)
    ensures var e := edits[k - 1];
            && e.span.start <= e.span.end <= x
            && Ordered(edits[..k - 1], 0, |source|) && EndBy(edits[..k - 1], e.span.start)
            && Written(source, edits[..k], x)
               == Written(source, edits[..k - 1], e.span.start) + (e.replacement + source[e.span.end..x])
  {
    OrderedBounds(edits, 0, |source|);
    assert edits[..k][..k - 1] == edits[..k - 1] && edits[..k][k - 1] == edits[k - 1];
    OrderedPrefix(edits[..k], 0, |source|, |source|);
    EndsInFront(edits[..k], 0, |source|);
  }
}
