/**
 * A text made by a plan, read comment by comment: every byte outside the comments that are not kept leaves itself,
 * each of those comments leaves what is planned for it, and a swallowed line leaves nothing.
 */
module Commentwise {
  import opened Bytes
  import opened Edits
  import opened Layouts
  import opened Leavings
  import opened LineNumbers
  import opened Plans
  import opened Residues
  import opened Scanning

  /** Byte `i` is on a line that a removal takes whole. */
  ghost predicate IsSwallowed(comments: seq<Comment>, swallow: seq<Option<ByteSpan>>, i: nat) {
    exists k: nat :: SwallowsAt(comments, swallow, k, i)
  }

  ghost predicate SwallowsAt(comments: seq<Comment>, swallow: seq<Option<ByteSpan>>, k: nat, i: nat) {
    && k < |comments| && Removes(comments[k]) && SwallowAt(swallow, k).Some?
    && SwallowAt(swallow, k).value.start <= i < SwallowAt(swallow, k).value.end
  }

  /** What byte `i` leaves, `says(k)` being what comment `k` leaves as a whole. */
  ghost function SaidAt(source: Source, comments: seq<Comment>, swallow: seq<Option<ByteSpan>>, says: nat -> Source,
                        i: nat): Source
    requires i < |source|
  {
    if IsSwallowed(comments, swallow, i) then []
    else
      match HolderOf(comments, |comments|, i)
      case None => [source[i]]
      case Some(k) => if i == comments[k].span.start then says(k) else []
  }

  ghost function Said(source: Source, comments: seq<Comment>, swallow: seq<Option<ByteSpan>>,
                      says: nat -> Source): seq<Source>
  {
    seq(|source|, i requires 0 <= i < |source| => SaidAt(source, comments, swallow, says, i))
  }

  /** The edit for comment `k`: the line it is swallowed with, or what is said of it. */
  ghost predicate IsEditOf(comments: seq<Comment>, swallow: seq<Option<ByteSpan>>, says: nat -> Source, k: nat,
                           e: Edit)
  {
    && k < |comments| && comments[k].what.disposition != Keep
    && e == if Removes(comments[k]) && SwallowAt(swallow, k).Some? then SwallowEdit(comments, swallow, k)
            else Edit(comments[k].span, says(k))
  }

  /** One edit for every comment that is not kept, and no other. */
  ghost predicate PlansAll(comments: seq<Comment>, swallow: seq<Option<ByteSpan>>, says: nat -> Source,
                           edits: seq<Edit>)
  {
    && (forall e <- edits :: exists k: nat :: IsEditOf(comments, swallow, says, k, e))
    && (forall k: nat | k < |comments| && comments[k].what.disposition != Keep ::
          exists e <- edits :: IsEditOf(comments, swallow, says, k, e))
  }

  /** What stands in front of the last removal on a swallowed line is on the line of that removal too. */
  lemma {:induction false} EarlierLine(comments: seq<Comment>, swallow: seq<Option<ByteSpan>>, n: nat, k: nat, i: nat)
    returns (j: nat)
    requires InOrder(comments, n) && SwallowFits(comments, swallow, n) && k <= |comments|
    requires i < FloorOf(comments, swallow, k) && EndOf(comments, k) <= i
    ensures j < k && SwallowsAt(comments, swallow, j, i) && FloorOf(comments, swallow, j) <= i
    decreases k
  {
    if k > 1 { assert comments[k - 2].span.end <= comments[k - 1].span.start; }
    if Removes(comments[k - 1]) {
      j := k - 1;
      assert FitsAt(comments, swallow, n, j);
      FloorFits(comments, swallow, n, j);
    } else {
      j := EarlierLine(comments, swallow, n, k - 1, i);
    }
  }

  /** A byte on a swallowed line is taken. */
  lemma {:induction false} SwallowedIsTaken(comments: seq<Comment>, swallow: seq<Option<ByteSpan>>, n: nat,
                                            says: nat -> Source, edits: seq<Edit>, i: nat)
    requires InOrder(comments, n) && SwallowFits(comments, swallow, n)
    requires PlansAll(comments, swallow, says, edits) && IsSwallowed(comments, swallow, i)
    ensures !Survives(edits, i)
  {
    hide PlansAll, InOrder, Survives;
    var k: nat :| SwallowsAt(comments, swallow, k, i);
    assert FitsAt(comments, swallow, n, k);
    var j := k;
    if i < FloorOf(comments, swallow, k) {
      assert EndOf(comments, k) <= SwallowAt(swallow, k).value.start;
      j := EarlierLine(comments, swallow, n, k, i);
    }
    LineIsTaken(comments, swallow, says, edits, j, i);
  }

  lemma {:induction false} LineIsTaken(comments: seq<Comment>, swallow: seq<Option<ByteSpan>>, says: nat -> Source,
                                       edits: seq<Edit>, j: nat, i: nat)
    requires PlansAll(comments, swallow, says, edits) && SwallowsAt(comments, swallow, j, i)
    requires FloorOf(comments, swallow, j) <= i
    ensures !Survives(edits, i)
  {
    var e :| e in edits && IsEditOf(comments, swallow, says, j, e);
  }

  /** A byte of a comment that is not kept is taken. */
  lemma {:induction false} HeldIsTaken(comments: seq<Comment>, swallow: seq<Option<ByteSpan>>, n: nat,
                                       says: nat -> Source, edits: seq<Edit>, i: nat)
    requires InOrder(comments, n) && SwallowFits(comments, swallow, n)
    requires PlansAll(comments, swallow, says, edits) && HolderOf(comments, |comments|, i).Some?
    ensures !Survives(edits, i)
  {
    var k := HolderOf(comments, |comments|, i).value;
    assert FitsAt(comments, swallow, n, k);
    FloorFits(comments, swallow, n, k);
    var e :| e in edits && IsEditOf(comments, swallow, says, k, e);
  }

  /** A comment whose line is not swallowed is on no swallowed line. */
  lemma {:induction false} HeldIsNotSwallowed(comments: seq<Comment>, swallow: seq<Option<ByteSpan>>, n: nat, k: nat,
                                              i: nat)
    requires InOrder(comments, n) && SwallowFits(comments, swallow, n) && k < |comments|
    requires !(Removes(comments[k]) && SwallowAt(swallow, k).Some?)
    requires comments[k].span.start <= i < comments[k].span.end
    ensures !IsSwallowed(comments, swallow, i)
  {
    if m: nat :| SwallowsAt(comments, swallow, m, i) { SwallowsItsOwn(comments, swallow, n, m, k, i); }
  }

  lemma {:induction false} SwallowsItsOwn(comments: seq<Comment>, swallow: seq<Option<ByteSpan>>, n: nat, m: nat,
                                          k: nat, i: nat)
    requires InOrder(comments, n) && SwallowFits(comments, swallow, n) && k < |comments|
    requires SwallowsAt(comments, swallow, m, i) && comments[k].span.start <= i < comments[k].span.end
    ensures m == k
  {
    assert FitsAt(comments, swallow, n, m);
  }

  lemma {:induction false} EditSays(source: Source, comments: seq<Comment>, swallow: seq<Option<ByteSpan>>,
                                    says: nat -> Source, k: nat, e: Edit)
    requires InOrder(comments, |source|) && SwallowFits(comments, swallow, |source|)
    requires IsEditOf(comments, swallow, says, k, e)
    ensures e.span.start <= e.span.end <= |source|
    ensures e.replacement == RestIn(Said(source, comments, swallow, says), e.span.start, e.span.end)
  {
    hide HolderOf, RestIn;
    var left, a, z := Said(source, comments, swallow, says), e.span.start, e.span.end;
    assert FitsAt(comments, swallow, |source|, k);
    FloorFits(comments, swallow, |source|, k);
    if Removes(comments[k]) && SwallowAt(swallow, k).Some? {
      forall i: nat | a <= i < z
        ensures left[i] == []
      {
        assert SwallowsAt(comments, swallow, k, i);
      }
      GoneLeavesNothing(left, a, z);
    } else {
      forall i: nat | a <= i < z
        ensures left[i] == if i == a then says(k) else []
      {
        HeldByOne(comments, |comments|, |source|, k, i);
        HeldIsNotSwallowed(comments, swallow, |source|, k, i);
      }
      FirstLeavesAll(left, a, z);
    }
  }

  /** The text a plan makes is what its bytes and comments are said to leave. */
  lemma {:induction false} PlanSays(source: Source, comments: seq<Comment>, swallow: seq<Option<ByteSpan>>,
                                    says: nat -> Source, edits: seq<Edit>)
    requires InOrder(comments, |source|) && SwallowFits(comments, swallow, |source|)
    requires Ordered(edits, 0, |source|) && PlansAll(comments, swallow, says, edits)
    ensures Apply(source, edits) == RestIn(Said(source, comments, swallow, says), 0, |source|)
  {
    var left := Said(source, comments, swallow, says);
    forall e | e in edits
      ensures e.span.start <= e.span.end <= |source| && e.replacement == RestIn(left, e.span.start, e.span.end)
    {
      var k: nat :| IsEditOf(comments, swallow, says, k, e);
      EditSays(source, comments, swallow, says, k, e);
    }
    forall i: nat | i < |source| && Survives(edits, i)
      ensures left[i] == [source[i]]
    {
      if IsSwallowed(comments, swallow, i) { SwallowedIsTaken(comments, swallow, |source|, says, edits, i); }
      if HolderOf(comments, |comments|, i).Some? { HeldIsTaken(comments, swallow, |source|, says, edits, i); }
    }
    AppliedIsRest(source, edits, left);
  }
}
