/**
 * Which removals of `compact` may be widened over blank lines. Every removal has a flag of its own, but an edit is
 * looked up by its place among all edits, rewrites included, and so reads the flag of another removal further on.
 */
module CompactFlags {
  import opened Bytes
  import opened Collapse
  import opened CompactPlans
  import opened Edits
  import opened Layouts
  import opened Scanning

  /** The comments among the first `n` that are removed. */
  function RemovalsIn(comments: seq<Comment>, n: nat): nat
    requires n <= |comments|
  {
    if n == 0 then 0 else RemovalsIn(comments, n - 1) + if Removes(comments[n - 1]) then 1 else 0
  }

  /** Those that are rewritten. */
  function RewritesIn(comments: seq<Comment>, n: nat): nat
    requires n <= |comments|
  {
    if n == 0 then 0
    else RewritesIn(comments, n - 1) + if comments[n - 1].what.disposition.Rewrite? then 1 else 0
  }

  /** Those that have an edit. */
  function EditsIn(comments: seq<Comment>, n: nat): nat
    requires n <= |comments|
  {
    RemovalsIn(comments, n) + RewritesIn(comments, n)
  }

  /** Comment `j` is removed, and `k` others are in front of it. */
  predicate IsRemovalNo(comments: seq<Comment>, k: nat, j: nat) {
    j < |comments| && Removes(comments[j]) && RemovalsIn(comments, j) == k
  }

  /** One edit for each comment that is not kept, and one flag for each that is removed. */
  lemma {:induction false} PlanCounts(source: Source, comments: seq<Comment>, swallow: seq<Option<ByteSpan>>, n: nat)
    requires InOrder(comments, |source|) && SwallowFits(comments, swallow, |source|) && n <= |comments|
    ensures var p := PlanAt(source, comments, swallow, n);
            && |p.list| == EditsIn(comments, n)
            && |p.collapsible| == RemovalsIn(comments, n)
  {
    if n > 0 { PlanCounts(source, comments, swallow, n - 1); }
  }

  /** A comment's edit stands behind those of the comments in front, and a removal's flag behind theirs. */
  lemma {:induction false} EditStands(source: Source, comments: seq<Comment>, swallow: seq<Option<ByteSpan>>, n: nat,
                                      i: nat)
    requires InOrder(comments, |source|) && SwallowFits(comments, swallow, |source|) && i < n <= |comments|
    requires comments[i].what.disposition != Keep
    ensures var p, k := PlanAt(source, comments, swallow, n), EditsIn(comments, i);
            k < |p.list| && p.list[k] == EditAt(source, comments, swallow, i)
    ensures var p, k := PlanAt(source, comments, swallow, n), RemovalsIn(comments, i);
            Removes(comments[i]) ==> k < |p.collapsible| && p.collapsible[k] == SwallowAt(swallow, i).None?
  {
    PlanCounts(source, comments, swallow, n - 1);
    if i < n - 1 { EditStands(source, comments, swallow, n - 1, i); }
  }

  /** Every flag is one of a removal. */
  lemma {:induction false} SomeRemoval(comments: seq<Comment>, n: nat, k: nat) returns (j: nat)
    requires n <= |comments| && k < RemovalsIn(comments, n)
    ensures j < n && IsRemovalNo(comments, k, j)
  {
    if k < RemovalsIn(comments, n - 1) { j := SomeRemoval(comments, n - 1, k); } else { j := n - 1; }
  }

  lemma {:induction false} CountsGrow(comments: seq<Comment>, a: nat, b: nat)
    requires a <= b <= |comments|
    ensures RemovalsIn(comments, a) <= RemovalsIn(comments, b)
    decreases b
  {
    if a < b { CountsGrow(comments, a, b - 1); }
  }

  lemma {:induction false} OneRemoval(comments: seq<Comment>, k: nat, i: nat, j: nat)
    requires IsRemovalNo(comments, k, i) && IsRemovalNo(comments, k, j)
    ensures i == j
  {
    if i < j { CountsGrow(comments, i + 1, j); }
    if j < i { CountsGrow(comments, j + 1, i); }
  }

  /** A flag is set if its removal is one whose line is not swallowed. */
  lemma {:induction false} FlagOf(source: Source, comments: seq<Comment>, swallow: seq<Option<ByteSpan>>, k: nat)
    requires InOrder(comments, |source|) && SwallowFits(comments, swallow, |source|)
    ensures Flagged(PlanAt(source, comments, swallow, |comments|).collapsible, k)
       <==> exists j: nat :: IsRemovalNo(comments, k, j) && SwallowAt(swallow, j).None?
  {
    hide PlanAt;
    PlanCounts(source, comments, swallow, |comments|);
    if k < RemovalsIn(comments, |comments|) {
      var j := SomeRemoval(comments, |comments|, k);
      EditStands(source, comments, swallow, |comments|, j);
      forall m: nat | IsRemovalNo(comments, k, m)
        ensures m == j
      {
        OneRemoval(comments, k, m, j);
      }
    } else if j: nat :| IsRemovalNo(comments, k, j) {
      CountsGrow(comments, j + 1, |comments|);
    }
  }

  /** The removal with as many others in front as removal `i` has edits in front. */
  lemma {:induction false} StandsFurtherOn(comments: seq<Comment>, i: nat, j: nat)
    requires i < |comments| && Removes(comments[i])
    requires IsRemovalNo(comments, EditsIn(comments, i), j)
    ensures if RewritesIn(comments, i) == 0 then j == i else i < j
  {
    if j < i { CountsGrow(comments, j + 1, i); }
    if i < j { CountsGrow(comments, i + 1, j); }
  }

  /**
   * The flag that is read for a removal is that of the removal which has as many others in front as this one has edits
   * in front: its own if no comment in front is rewritten, and otherwise that of one behind it, or none.
   */
  lemma {:induction false} FlagIsAnothers(source: Source, comments: seq<Comment>, swallow: seq<Option<ByteSpan>>,
                                          i: nat)
    requires InOrder(comments, |source|) && SwallowFits(comments, swallow, |source|)
    requires i < |comments| && Removes(comments[i])
    ensures var p, k := PlanAt(source, comments, swallow, |comments|), EditsIn(comments, i);
            && k < |p.list| && p.list[k] == EditAt(source, comments, swallow, i)
            && (Flagged(p.collapsible, k)
                <==> exists j: nat :: IsRemovalNo(comments, k, j) && SwallowAt(swallow, j).None?)
            && forall j: nat | IsRemovalNo(comments, k, j) :: if RewritesIn(comments, i) == 0 then j == i else i < j
  {
    hide PlanAt, EditAt, RemovalsIn, RewritesIn, IsRemovalNo;
    var k := EditsIn(comments, i);
    EditStands(source, comments, swallow, |comments|, i);
    FlagOf(source, comments, swallow, k);
    forall j: nat | IsRemovalNo(comments, k, j)
      ensures if RewritesIn(comments, i) == 0 then j == i else i < j
    {
      StandsFurtherOn(comments, i, j);
    }
  }

  /**
   * With no line swallowed, a removal that takes whole lines may take blank lines too if and only if fewer comments in
   * front of it are rewritten than are removed from it on.
   */
  lemma {:induction false} WidenedIfFewRewritten(source: Source, comments: seq<Comment>,
                                                 swallow: seq<Option<ByteSpan>>, i: nat)
    requires InOrder(comments, |source|) && SwallowFits(comments, swallow, |source|) && NoSwallow(comments, swallow)
    requires i < |comments| && Removes(comments[i])
    ensures var p, k := PlanAt(source, comments, swallow, |comments|), EditsIn(comments, i);
            var e := EditAt(source, comments, swallow, i);
            && k < |p.list| && p.list[k] == e
            && (Eligible(source, p.list, p.collapsible, k)
                <==> && e.replacement == [] && e.span.start in LineStarts(source)
                     && RewritesIn(comments, i) < RemovalsIn(comments, |comments|) - RemovalsIn(comments, i))
  {
    var k := EditsIn(comments, i);
    FlagIsAnothers(source, comments, swallow, i);
    if k < RemovalsIn(comments, |comments|) {
      var j := SomeRemoval(comments, |comments|, k);
    } else if j: nat :| IsRemovalNo(comments, k, j) {
      CountsGrow(comments, j + 1, |comments|);
    }
  }
}
