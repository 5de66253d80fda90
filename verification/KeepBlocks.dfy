/** Comments that stand line under line are one block, and a pattern that keeps one of them keeps them all. */
module KeepBlocks {
  import opened Bytes

  datatype Member = Member(joinsPrevious: bool, pattern: Option<nat>)

  /** A line ending begins at `i`: a carriage return, or a line feed that is not the second half of a pair. */
  predicate EndingAt(gap: Source, i: nat)
    requires i < |gap|
  {
    gap[i] == CR || (gap[i] == LF && !(i > 0 && gap[i - 1] == CR))
  }

  function LineEndings(gap: Source, n: nat): nat
    requires n <= |gap|
  {
    if n == 0 then 0 else LineEndings(gap, n - 1) + (if EndingAt(gap, n - 1) then 1 else 0)
  }

  lemma {:induction false} EndingsGrow(gap: Source, m: nat, n: nat)
    requires m <= n <= |gap|
    ensures LineEndings(gap, m) <= LineEndings(gap, n)
    decreases n - m
  {
    if m < n { EndingsGrow(gap, m, n - 1); }
  }

  /** Two comments stand line under line: white space between them, and in it one line ending. */
  method Adjacent(gap: Source) returns (r: bool)
    ensures r <==> (forall b <- gap :: IsWhitespace(b)) && LineEndings(gap, |gap|) == 1
  {
    var lines, afterCR := 0, false;
    var i := 0;
    while i < |gap|
      invariant 0 <= i <= |gap| && lines == LineEndings(gap, i) && lines <= 1
      invariant afterCR <==> i > 0 && gap[i - 1] == CR
      invariant forall k | 0 <= k < i :: IsWhitespace(gap[k])
    {
      if gap[i] == CR {
        lines, afterCR := lines + 1, true;
      } else if gap[i] == LF {
        if !afterCR { lines := lines + 1; }
        afterCR := false;
      } else if IsWhitespace(gap[i]) {
        afterCR := false;
      } else {
        assert gap[i] in gap;
        return false;
      }
      assert lines < 256;
      if lines > 1 {
        EndingsGrow(gap, i + 1, |gap|);
        return false;
      }
      i := i + 1;
    }
    assert forall b <- gap :: exists k :: 0 <= k < |gap| && gap[k] == b;
    r := lines == 1;
  }

  /** The first member of the block `i` is in. */
  function BlockStart(members: seq<Member>, i: nat): (s: nat)
    requires i < |members|
    ensures s <= i
  {
    if i > 0 && members[i].joinsPrevious then BlockStart(members, i - 1) else i
  }

  /** The last member of the block `i` is in. */
  function BlockEnd(members: seq<Member>, i: nat): (e: nat)
    requires i < |members|
    ensures i <= e < |members|
    decreases |members| - i
  {
    if i + 1 < |members| && members[i + 1].joinsPrevious then BlockEnd(members, i + 1) else i
  }

  /** `p` is the least pattern among the members `from..to`, if any of them has one. */
  ghost predicate IsLeast(members: seq<Member>, from: nat, to: nat, p: Option<nat>)
    requires to <= |members|
  {
    match p
    case None => forall k | from <= k < to :: members[k].pattern.None?
    case Some(m) =>
      && (exists k | from <= k < to :: members[k].pattern == Some(m))
      && (forall k | from <= k < to && members[k].pattern.Some? :: m <= members[k].pattern.value)
  }

  lemma {:induction false} LeastOfOneMore(members: seq<Member>, from: nat, to: nat, p: Option<nat>)
    requires from <= to < |members| && IsLeast(members, from, to, p)
    ensures var c := members[to].pattern;
            IsLeast(members, from, to + 1,
                    if c.None? then p else if p.None? then c else Some(Min(p.value, c.value)))
  {
    var c := members[to].pattern;
    if p.Some? {
      var k :| from <= k < to && members[k].pattern == p;
      assert members[k].pattern == p;
    }
    assert members[to].pattern == c;
  }

  /** One block: the members from a start on that join, and it is the same block seen from each of them. */
  lemma {:induction false} OneBlock(members: seq<Member>, i: nat)
    requires 0 < i < |members| && members[i].joinsPrevious
    ensures BlockStart(members, i) == BlockStart(members, i - 1) && BlockEnd(members, i) == BlockEnd(members, i - 1)
  {
  }

  /** What was least in the block so far is carried on where the member joins, and forgotten where it does not. */
  lemma {:induction false} LeastSoFar(members: seq<Member>, i: nat, pattern: Option<nat>, last: Option<nat>)
    requires i < |members| && pattern == if members[i].joinsPrevious then last else None
    requires if i == 0 then last == None else IsLeast(members, BlockStart(members, i - 1), i, last)
    ensures IsLeast(members, BlockStart(members, i), i, pattern)
  {
    if i > 0 && members[i].joinsPrevious { OneBlock(members, i); }
  }

  /** Every member is given the least pattern of its whole block. */
  method KeptPatterns(members: seq<Member>) returns (kept: seq<Option<nat>>)
    ensures |kept| == |members|
    ensures forall i | 0 <= i < |members| ::
              IsLeast(members, BlockStart(members, i), BlockEnd(members, i) + 1, kept[i])
  {
    hide IsLeast, BlockStart;
    var list := new Option<nat>[|members|];
    var pattern: Option<nat> := None;
    var i := 0;
    while i < |members|
      invariant 0 <= i <= |members|
      invariant i > 0 ==> pattern == list[i - 1]
      invariant i == 0 ==> pattern == None
      invariant forall k | 0 <= k < i :: IsLeast(members, BlockStart(members, k), k + 1, list[k])
    {
      var member := members[i];
      if !member.joinsPrevious { pattern := None; }
      LeastSoFar(members, i, pattern, if i == 0 then None else list[i - 1]);
      LeastOfOneMore(members, BlockStart(members, i), i, pattern);
      if member.pattern.Some? {
        pattern := Some(if pattern.None? then member.pattern.value else Min(pattern.value, member.pattern.value));
      }
      list[i] := pattern;
      i := i + 1;
    }
    if |members| > 0 { CarryBack(members, list); }
    kept := list[..];
  }

  /** Behind `index` every answer is the whole block's, in front of it the answer of the block so far. */
  ghost predicate CarriedTo(members: seq<Member>, list: seq<Option<nat>>, index: nat) {
    && |list| == |members|
    && (forall k | 0 <= k < index && k < |members| :: IsLeast(members, BlockStart(members, k), k + 1, list[k]))
    && (forall k | index <= k < |members| :: IsLeast(members, BlockStart(members, k), BlockEnd(members, k) + 1,
                                                     list[k]))
  }

  /** The answer given to the member in front of `index` is its whole block's. */
  lemma {:induction false} CarriedAnswer(members: seq<Member>, list: seq<Option<nat>>, index: nat)
    requires 0 < index < |members| && CarriedTo(members, list, index)
    ensures IsLeast(members, BlockStart(members, index - 1), BlockEnd(members, index - 1) + 1,
                    if members[index].joinsPrevious then list[index] else list[index - 1])
  {
    if members[index].joinsPrevious { OneBlock(members, index); }
  }

  lemma {:induction false} CarryStep(members: seq<Member>, list: seq<Option<nat>>, index: nat)
    requires 0 < index < |members| && CarriedTo(members, list, index)
    ensures var next := if members[index].joinsPrevious then list[index - 1 := list[index]] else list;
            CarriedTo(members, next, index - 1)
  {
    var next := if members[index].joinsPrevious then list[index - 1 := list[index]] else list;
    CarriedAnswer(members, list, index);
    forall k | index - 1 <= k < |members|
      ensures IsLeast(members, BlockStart(members, k), BlockEnd(members, k) + 1, next[k])
    {
      assert k >= index ==> next[k] == list[k];
    }
  }

  /** The pass from the back, writing over the answers of members that were joined by a later one. */
  method CarryBack(members: seq<Member>, list: array<Option<nat>>)
    requires 0 < |members| == list.Length
    requires forall k | 0 <= k < |members| :: IsLeast(members, BlockStart(members, k), k + 1, list[k])
    modifies list
    ensures forall k | 0 <= k < |members| :: IsLeast(members, BlockStart(members, k), BlockEnd(members, k) + 1, list[k])
  {
    var index := |members| - 1;
    while index > 0
      invariant 0 <= index < |members|
      invariant CarriedTo(members, list[..], index)
    {
      ghost var was := list[..];
      CarryStep(members, was, index);
      if members[index].joinsPrevious { list[index - 1] := list[index]; }
      assert list[..] == if members[index].joinsPrevious then was[index - 1 := was[index]] else was;
      index := index - 1;
    }
  }
}
