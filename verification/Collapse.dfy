/**
 * Taking back the blank lines a removal created: the pass `compact` makes over its edits, widening them
 * in place.
 */
module Collapse {
  import opened Bytes
  import opened Edits
  import opened Layouts
  import opened LineNumbers
  import opened Outlines
  import opened Scanning
  import opened Seams

  // ---- lines ----

  /** Where the lines behind `i` begin. */
  function StartsFrom(source: Source, i: nat): seq<nat>
    requires i <= |source|
    decreases |source| - i
  {
    if i == |source| then []
    else
      match TerminatorWidth(source, i)
      case Some(w) => [i + w] + StartsFrom(source, i + w)
      case None => StartsFrom(source, i + 1)
  }

  /** Where every line begins, the first at 0; a source that ends with a terminator has an entry at its length. */
  function LineStarts(source: Source): seq<nat> {
    [0] + StartsFrom(source, 0)
  }

  method LineStartsOf(source: Source) returns (starts: seq<nat>)
    ensures starts == LineStarts(source)
  {
    starts := [0];
    var index: nat := 0;
    while index < |source|
      invariant index <= |source|
      invariant starts + StartsFrom(source, index) == LineStarts(source)
    {
      var w := TerminatorWidth(source, index);
      if w.Some? {
        assert starts + ([index + w.value] + StartsFrom(source, index + w.value))
            == (starts + [index + w.value]) + StartsFrom(source, index + w.value);
        index := index + w.value;
        starts := starts + [index];
      } else {
        index := index + 1;
      }
    }
  }

  /** `s` holds the line boundaries behind `i`, all of them and nothing else, in order. */
  ghost predicate ListsBoundaries(source: Source, s: seq<nat>, i: int) {
    && (forall k, j | 0 <= k < j < |s| :: s[k] < s[j])
    && (forall k | 0 <= k < |s| :: i < s[k] && LineBoundary(source, s[k]))
    && (forall x: nat | i < x && LineBoundary(source, x) :: x in s)
  }

  /** `starts` holds every line boundary of the source. */
  ghost predicate IsStartTable(source: Source, starts: seq<nat>) {
    ListsBoundaries(source, starts, -1) && starts != [] && starts[0] == 0
  }

  /** A terminator ends at the next line boundary. */
  lemma {:induction false} TerminatorEndsLine(source: Source, i: nat)
    requires WholeTerminators(source, i) && TerminatorWidth(source, i).Some?
    ensures LineBoundary(source, i + TerminatorWidth(source, i).value)
    ensures forall x: nat | i < x < i + TerminatorWidth(source, i).value :: !LineBoundary(source, x)
  {
    var w := TerminatorWidth(source, i).value;
    if w == 3 { assert InSeparator(source, i + 2); }
  }

  /** A byte no terminator begins with ends no line. */
  lemma {:induction false} NoTerminatorEndsNoLine(source: Source, i: nat)
    requires i < |source| && WholeTerminators(source, i) && TerminatorWidth(source, i).None?
    ensures SymAt(source, i) != Break && WholeTerminators(source, i + 1) && !LineBoundary(source, i + 1)
  {
  }

  lemma {:induction false} ListsOneMore(source: Source, rest: seq<nat>, i: int, z: nat)
    requires i < z && LineBoundary(source, z) && ListsBoundaries(source, rest, z)
    requires forall x: nat | i < x < z :: !LineBoundary(source, x)
    ensures ListsBoundaries(source, [z] + rest, i)
  {
    var all := [z] + rest;
    forall x: nat | i < x && LineBoundary(source, x)
      ensures x in all
    {
      if x == z { assert all[0] == z; }
    }
  }

  lemma {:induction false} StartsAreBoundaries(source: Source, i: nat)
    requires i <= |source| && WholeTerminators(source, i)
    ensures ListsBoundaries(source, StartsFrom(source, i), i)
    decreases |source| - i
  {
    if i < |source| {
      var w := TerminatorWidth(source, i);
      if w.Some? {
        TerminatorEndsLine(source, i);
        StartsAreBoundaries(source, i + w.value);
        ListsOneMore(source, StartsFrom(source, i + w.value), i, i + w.value);
      } else {
        NoTerminatorEndsNoLine(source, i);
        StartsAreBoundaries(source, i + 1);
      }
    }
  }

  lemma {:induction false} LineStartsTable(source: Source)
    ensures IsStartTable(source, LineStarts(source))
  {
    StartsAreBoundaries(source, 0);
    ListsOneMore(source, StartsFrom(source, 0), -1, 0);
  }

  function LineStop(source: Source, starts: seq<nat>, line: nat): nat {
    if line + 1 < |starts| then starts[line + 1] else |source|
  }

  /** Line `line` is there and shows nothing. The place behind the last terminator is not a line. */
  ghost predicate BlankLine(source: Source, starts: seq<nat>, line: nat) {
    && line < |starts| && starts[line] < LineStop(source, starts, line) <= |source|
    && forall k | starts[line] <= k < LineStop(source, starts, line) :: SymAt(source, k) != Ink
  }

  method LineIsBlank(source: Source, starts: seq<nat>, line: nat) returns (blank: bool)
    requires IsStartTable(source, starts)
    ensures blank == BlankLine(source, starts, line)
  {
    if line >= |starts| { return false; }
    var start, end := starts[line], LineStop(source, starts, line);
    if start >= end { return false; }
    var index := start;
    while index < end
      invariant start <= index <= end
      invariant WholeTerminators(source, index)
      invariant forall k | start <= k < index :: SymAt(source, k) != Ink
    {
      var w := TerminatorWidth(source, index);
      if w.Some? {
        TerminatorCells(source, index);
        forall k | index <= k < index + w.value
          ensures SymAt(source, k) == Break
        {
          assert SymAt(source, index + (k - index)) == Break;
        }
        StopsAtTable(source, starts, line, index, w.value);
        index := index + w.value;
      } else if IsWhitespace(source[index]) {
        index := index + 1;
      } else {
        assert SymAt(source, index) == Ink;
        return false;
      }
    }
    blank := true;
  }

  /** A terminator on a line ends that line. */
  lemma {:induction false} StopsAtTable(source: Source, starts: seq<nat>, line: nat, i: nat, w: nat)
    requires IsStartTable(source, starts) && line < |starts|
    requires starts[line] <= i < LineStop(source, starts, line) <= |source|
    requires TerminatorWidth(source, i) == Some(w) && WholeTerminators(source, i)
    ensures i + w == LineStop(source, starts, line) && WholeTerminators(source, i + w)
  {
    TerminatorCells(source, i);
    assert SymAt(source, i + (w - 1)) == Break;
    assert LineBoundary(source, i + w);
    assert i + w in starts;
    var k :| 0 <= k < |starts| && starts[k] == i + w;
    assert k >= line + 1;
  }

  /** Blank lines directly above line `line`. */
  ghost function BlankAbove(source: Source, starts: seq<nat>, line: nat): (n: nat)
    ensures n <= line
  {
    if line > 0 && BlankLine(source, starts, line - 1) then 1 + BlankAbove(source, starts, line - 1) else 0
  }

  /** Blank lines from line `line` on. */
  ghost function BlankBelow(source: Source, starts: seq<nat>, line: nat): nat
    decreases |starts| - line
  {
    if BlankLine(source, starts, line) then 1 + BlankBelow(source, starts, line + 1) else 0
  }

  // ---- the lines around a removal ----

  predicate Ascending(starts: seq<nat>) {
    forall k, j | 0 <= k < j < |starts| :: starts[k] < starts[j]
  }

  lemma {:induction false} StartsAscend(source: Source)
    ensures Ascending(LineStarts(source)) && LineStarts(source) != [] && LineStarts(source)[0] == 0
  {
    LineStartsTable(source);
  }

  lemma {:induction false} InOrderOfStarts(starts: seq<nat>, x: nat, y: nat)
    requires Ascending(starts) && x < |starts| && y < |starts|
    ensures starts[x] < starts[y] <==> x < y
    ensures starts[x] <= starts[y] <==> x <= y
  {
  }

  /** The line `offset` is on: the last that begins no later. */
  function LineOf(starts: seq<nat>, offset: nat): (line: nat)
    requires starts != [] && starts[0] == 0
    ensures line < |starts| && starts[line] <= offset
    ensures forall j | line < j < |starts| :: offset < starts[j]
  {
    var k := |starts| - 1;
    if starts[k] <= offset then k else LineOf(starts[..k], offset)
  }

  lemma {:induction false} LineOfStart(starts: seq<nat>, line: nat)
    requires Ascending(starts) && line < |starts| && starts[0] == 0
    ensures LineOf(starts, starts[line]) == line
  {
  }

  /** A binary search for the line `offset` is on. */
  method LineHolding(starts: seq<nat>, offset: nat) returns (line: nat)
    requires starts != [] && starts[0] == 0 && Ascending(starts)
    ensures line == LineOf(starts, offset)
  {
    var low, high := 0, |starts|;
    while high - low > 1
      invariant 0 <= low < high <= |starts|
      invariant starts[low] <= offset
      invariant forall j | high <= j < |starts| :: offset < starts[j]
    {
      var mid := (low + high) / 2;
      if starts[mid] <= offset { low := mid; } else { high := mid; }
    }
    line := low;
  }

  method CountAbove(source: Source, starts: seq<nat>, from: nat) returns (before: nat)
    requires IsStartTable(source, starts)
    ensures before == BlankAbove(source, starts, from)
  {
    before := 0;
    var line := from;
    while line > 0
      invariant 0 <= line
      invariant before + BlankAbove(source, starts, line) == BlankAbove(source, starts, from)
    {
      var blank := LineIsBlank(source, starts, line - 1);
      if !blank { break; }
      before, line := before + 1, line - 1;
    }
  }

  method CountBelow(source: Source, starts: seq<nat>, from: nat) returns (after: nat)
    requires IsStartTable(source, starts)
    ensures after == BlankBelow(source, starts, from)
  {
    after := 0;
    var line := from;
    while true
      invariant after + BlankBelow(source, starts, line) == BlankBelow(source, starts, from)
      decreases |starts| - line
    {
      var blank := LineIsBlank(source, starts, line);
      if !blank { break; }
      after, line := after + 1, line + 1;
    }
  }

  /** Where line `line + count` begins, or the last line when there are not as many. */
  function LinesOn(starts: seq<nat>, line: nat, count: nat): nat
    requires line < |starts|
  {
    starts[Min(line + count, |starts| - 1)]
  }

  method AdvanceLines(starts: seq<nat>, from: nat, count: nat) returns (end: nat)
    requires starts != [] && starts[0] == 0 && Ascending(starts) && from in starts
    ensures end == LinesOn(starts, LineOf(starts, from), count)
  {
    end := from;
    ghost var first := LineOf(starts, from);
    ghost var k :| 0 <= k < |starts| && starts[k] == from;
    LineOfStart(starts, k);
    var taken := 0;
    while taken < count
      invariant 0 <= taken <= count && first + taken < |starts| && end == starts[first + taken]
    {
      LineOfStart(starts, first + taken);
      var line := LineHolding(starts, end);
      if line + 1 >= |starts| { break; }
      end := starts[line + 1];
      taken := taken + 1;
    }
  }

  // ---- which edits are one removal, and how far it is widened ----

  predicate Flagged(collapsible: seq<bool>, k: nat) {
    k < |collapsible| && collapsible[k]
  }

  /** A removal that took whole lines can begin with edit `k`. */
  predicate Eligible(source: Source, edits: seq<Edit>, collapsible: seq<bool>, k: nat)
    requires k < |edits|
  {
    Flagged(collapsible, k) && edits[k].replacement == [] && edits[k].span.start in LineStarts(source)
  }

  /** Edit `k` goes on where the one before it stopped. */
  predicate Joins(edits: seq<Edit>, collapsible: seq<bool>, k: nat) {
    && 0 < k < |edits| && Flagged(collapsible, k) && edits[k].replacement == []
    && edits[k - 1].span.end == edits[k].span.start
  }

  /** The edit that begins the removal edit `k` is part of, if it is part of one. */
  function First(source: Source, edits: seq<Edit>, collapsible: seq<bool>, k: nat): (first: Option<nat>)
    requires k < |edits|
    ensures first.Some? ==> first.value <= k
  {
    if Joins(edits, collapsible, k) && First(source, edits, collapsible, k - 1).Some?
    then First(source, edits, collapsible, k - 1)
    else if Eligible(source, edits, collapsible, k) then Some(k) else None
  }

  /** Edit `k` is the last of a removal that ends where a line ends. */
  predicate Closes(source: Source, edits: seq<Edit>, collapsible: seq<bool>, k: nat)
    requires k < |edits|
  {
    && First(source, edits, collapsible, k).Some?
    && !Joins(edits, collapsible, k + 1)
    && edits[k].span.end in LineStarts(source)
  }

  function Ceiling(source: Source, edits: seq<Edit>, k: nat): nat {
    if k + 1 < |edits| then edits[k + 1].span.start else |source|
  }

  /** The blank lines the removal that edit `k` closes may take: as many below as it stood under above. */
  ghost function Allowance(source: Source, edits: seq<Edit>, collapsible: seq<bool>, k: nat): nat
    requires k < |edits| && Closes(source, edits, collapsible, k)
  {
    var starts := LineStarts(source);
    var first := First(source, edits, collapsible, k).value;
    Min(BlankAbove(source, starts, LineOf(starts, edits[first].span.start)),
        BlankBelow(source, starts, LineOf(starts, edits[k].span.end)))
  }

  /** Where edit `k` ends once the pass is done. */
  ghost function Reach(source: Source, edits: seq<Edit>, collapsible: seq<bool>, k: nat): (r: nat)
    requires k < |edits|
    ensures r >= edits[k].span.end
  {
    var end := edits[k].span.end;
    if !Closes(source, edits, collapsible, k) then end
    else
      var starts := LineStarts(source);
      var to := LinesOn(starts, LineOf(starts, end), Allowance(source, edits, collapsible, k));
      Max(Min(to, Ceiling(source, edits, k)), end)
  }

  ghost function Widened(source: Source, edits: seq<Edit>, collapsible: seq<bool>, k: nat): Edit
    requires k < |edits|
  {
    Edit(ByteSpan(edits[k].span.start, Reach(source, edits, collapsible, k)), edits[k].replacement)
  }

  /** The edits with every removal widened. */
  ghost function Collapsed(source: Source, edits: seq<Edit>, collapsible: seq<bool>): seq<Edit> {
    seq(|edits|, k requires 0 <= k < |edits| => Widened(source, edits, collapsible, k))
  }

  // ---- the pass ----

  method LastOfRemoval(source: Source, edits: array<Edit>, collapsible: seq<bool>, index: nat, ghost was: seq<Edit>)
    returns (last: nat)
    requires |was| == edits.Length && index < edits.Length
    requires forall k | index <= k < edits.Length :: edits[k] == was[k]
    requires First(source, was, collapsible, index) == Some(index)
    ensures index <= last < edits.Length
    ensures forall k | index <= k <= last :: First(source, was, collapsible, k) == Some(index)
    ensures forall k | index < k <= last :: Joins(was, collapsible, k)
    ensures !Joins(was, collapsible, last + 1)
  {
    last := index;
    while last + 1 < edits.Length && last + 1 < |collapsible| && collapsible[last + 1]
          && edits[last + 1].replacement == [] && edits[last].span.end == edits[last + 1].span.start
      invariant index <= last < edits.Length
      invariant forall k | index <= k <= last :: First(source, was, collapsible, k) == Some(index)
      invariant forall k | index < k <= last :: Joins(was, collapsible, k)
      decreases edits.Length - last
    {
      last := last + 1;
    }
  }

  /** The edits before `index` are widened already, the others not yet, and a removal can begin at `index`. */
  ghost predicate PassedTo(source: Source, now: seq<Edit>, collapsible: seq<bool>, index: int, was: seq<Edit>) {
    && |was| == |now| && 0 <= index <= |now|
    && (forall k | 0 <= k < index :: now[k] == Widened(source, was, collapsible, k))
    && (forall k | index <= k < |now| :: now[k] == was[k])
    && (0 < index < |was| && Joins(was, collapsible, index) ==> First(source, was, collapsible, index - 1).None?)
  }

  /** Where the last edit of a removal is to end. */
  method WidenedEnd(source: Source, starts: seq<nat>, edits: array<Edit>, index: nat, last: nat,
                    ghost collapsible: seq<bool>, ghost was: seq<Edit>)
    returns (end: nat)
    requires starts == LineStarts(source) && IsStartTable(source, starts)
    requires |was| == edits.Length && index <= last < edits.Length
    requires forall k | index <= k < edits.Length :: edits[k] == was[k]
    requires First(source, was, collapsible, last) == Some(index)
    requires !Joins(was, collapsible, last + 1)
    ensures end == Reach(source, was, collapsible, last)
  {
    var runEnd := edits[last].span.end;
    end := runEnd;
    if runEnd in starts {
      var top := LineHolding(starts, edits[index].span.start);
      var before := CountAbove(source, starts, top);
      var bottom := LineHolding(starts, runEnd);
      var after := CountBelow(source, starts, bottom);
      end := AdvanceLines(starts, runEnd, Min(before, after));
      var ceiling := if last + 1 < edits.Length then edits[last + 1].span.start else |source|;
      end := Max(Min(end, ceiling), runEnd);
    }
  }

  lemma {:induction false} NotInARemoval(source: Source, edits: seq<Edit>, collapsible: seq<bool>, index: nat)
    requires index < |edits| && !Eligible(source, edits, collapsible, index)
    requires 0 < index && Joins(edits, collapsible, index) ==> First(source, edits, collapsible, index - 1).None?
    ensures First(source, edits, collapsible, index).None?
    ensures Widened(source, edits, collapsible, index) == edits[index]
  {
  }

  lemma {:induction false} InsideARemoval(source: Source, edits: seq<Edit>, collapsible: seq<bool>, k: nat)
    requires k < |edits| && Joins(edits, collapsible, k + 1)
    ensures Widened(source, edits, collapsible, k) == edits[k]
  {
  }

  lemma {:induction false} PassSkip(source: Source, now: seq<Edit>, collapsible: seq<bool>, index: nat, was: seq<Edit>)
    requires PassedTo(source, now, collapsible, index, was)
    requires index < |was| && !Eligible(source, was, collapsible, index)
    ensures PassedTo(source, now, collapsible, index + 1, was)
  {
    NotInARemoval(source, was, collapsible, index);
  }

  lemma {:induction false} PassWiden(source: Source, now: seq<Edit>, collapsible: seq<bool>, index: nat, was: seq<Edit>,
                                     last: nat)
    requires PassedTo(source, now, collapsible, index, was)
    requires index <= last < |was| && forall k | index < k <= last :: Joins(was, collapsible, k)
    requires !Joins(was, collapsible, last + 1)
    ensures PassedTo(source, now[last := Widened(source, was, collapsible, last)], collapsible, last + 1, was)
  {
    forall k | index <= k < last
      ensures now[k] == Widened(source, was, collapsible, k)
    {
      InsideARemoval(source, was, collapsible, k);
    }
  }

  /** Widens the removal that begins at `index`. */
  method WidenRemoval(source: Source, starts: seq<nat>, edits: array<Edit>, index: nat, collapsible: seq<bool>,
                      ghost was: seq<Edit>)
    returns (next: nat)
    requires starts == LineStarts(source) && IsStartTable(source, starts)
    requires PassedTo(source, edits[..], collapsible, index, was) && index < |was|
    requires Eligible(source, was, collapsible, index)
    modifies edits
    ensures index < next && PassedTo(source, edits[..], collapsible, next, was)
  {
    ghost var now := edits[..];
    var last := LastOfRemoval(source, edits, collapsible, index, was);
    var end := WidenedEnd(source, starts, edits, index, last, collapsible, was);
    PassWiden(source, now, collapsible, index, was, last);
    edits[last] := Edit(ByteSpan(edits[last].span.start, end), edits[last].replacement);
    assert edits[..] == now[last := Widened(source, was, collapsible, last)];
    next := last + 1;
  }

  /** The pass over the edits, widening the last edit of each removal in place. */
  method CollapseCreatedBlankRuns(source: Source, edits: array<Edit>, collapsible: seq<bool>)
    modifies edits
    ensures edits[..] == Collapsed(source, old(edits[..]), collapsible)
  {
    ghost var was := edits[..];
    var starts := LineStartsOf(source);
    LineStartsTable(source);
    var index := 0;
    while index < edits.Length
      invariant PassedTo(source, edits[..], collapsible, index, was)
      decreases edits.Length - index
    {
      if !(index < |collapsible| && collapsible[index]) || edits[index].replacement != []
         || edits[index].span.start !in starts {
        PassSkip(source, edits[..], collapsible, index, was);
        index := index + 1;
      } else {
        index := WidenRemoval(source, starts, edits, index, collapsible, was);
      }
    }
    PassDone(source, edits[..], collapsible, was);
  }

  lemma {:induction false} PassDone(source: Source, now: seq<Edit>, collapsible: seq<bool>, was: seq<Edit>)
    requires PassedTo(source, now, collapsible, |now|, was)
    ensures now == Collapsed(source, was, collapsible)
  {
  }

  // ---- what the pass keeps ----

  lemma {:induction false} ReachStops(source: Source, edits: seq<Edit>, collapsible: seq<bool>, k: nat)
    requires Ordered(edits, 0, |source|) && k < |edits|
    ensures Reach(source, edits, collapsible, k) <= Ceiling(source, edits, k) <= |source|
  {
    OrderedBounds(edits, 0, |source|);
  }

  /** Sorted and disjoint edits stay sorted and disjoint. */
  lemma {:induction false} CollapsedIsOrdered(source: Source, edits: seq<Edit>, collapsible: seq<bool>)
    requires Ordered(edits, 0, |source|)
    ensures Ordered(Collapsed(source, edits, collapsible), 0, |source|)
  {
    OrderedBounds(edits, 0, |source|);
    var wide := Collapsed(source, edits, collapsible);
    forall i | 0 <= i < |wide|
      ensures wide[i].span.start <= wide[i].span.end <= |source|
    {
      ReachStops(source, edits, collapsible, i);
    }
    forall i, j | 0 <= i < j < |wide|
      ensures wide[i].span.end <= wide[j].span.start
    {
      ReachStops(source, edits, collapsible, i);
      if i + 1 < j { assert edits[i + 1].span.end <= edits[j].span.start; }
    }
    OrderedFromPairs(wide, 0, |source|);
  }

  lemma {:induction false} BelowIsBlank(source: Source, starts: seq<nat>, line: nat, j: nat)
    requires j < BlankBelow(source, starts, line)
    ensures BlankLine(source, starts, line + j)
    decreases j
  {
    if j > 0 { BelowIsBlank(source, starts, line + 1, j - 1); }
  }

  lemma {:induction false} AboveIsBlank(source: Source, starts: seq<nat>, line: nat, j: nat)
    requires j < BlankAbove(source, starts, line)
    ensures j < line && BlankLine(source, starts, line - 1 - j)
  {
    if j > 0 { AboveIsBlank(source, starts, line - 1, j - 1); }
  }

  lemma {:induction false} BelowFits(source: Source, starts: seq<nat>, line: nat)
    requires line <= |starts|
    ensures line + BlankBelow(source, starts, line) <= |starts|
    decreases |starts| - line
  {
    if BlankLine(source, starts, line) { BelowFits(source, starts, line + 1); }
  }

  /** Consecutive blank lines show nothing. */
  lemma {:induction false} BlankLinesShowNothing(source: Source, starts: seq<nat>, line: nat, count: nat, i: nat)
    requires IsStartTable(source, starts) && line < |starts| && count <= BlankBelow(source, starts, line)
    requires starts[line] <= i < LinesOn(starts, line, count)
    ensures i < |source| && SymAt(source, i) != Ink
    ensures line <= LineOf(starts, i) < line + count && BlankLine(source, starts, LineOf(starts, i))
  {
    var l := LineOf(starts, i);
    BelowIsBlank(source, starts, line, l - line);
  }

  /** A removal's edits follow on one another: what lies between its first byte and its last is taken. */
  lemma {:induction false} RemovalIsTaken(source: Source, edits: seq<Edit>, collapsible: seq<bool>, k: nat, i: nat)
    requires Ordered(edits, 0, |source|)
    requires k < |edits| && First(source, edits, collapsible, k).Some?
    requires edits[First(source, edits, collapsible, k).value].span.start <= i < edits[k].span.end
    ensures exists j :: First(source, edits, collapsible, k).value <= j <= k
                        && edits[j].span.start <= i < edits[j].span.end
    decreases k
  {
    if i < edits[k].span.start {
      RemovalIsTaken(source, edits, collapsible, k - 1, i);
    }
  }

  lemma {:induction false} ReplacesNothing(source: Source, edits: seq<Edit>, collapsible: seq<bool>, k: nat)
    requires k < |edits| && First(source, edits, collapsible, k).Some?
    ensures edits[k].replacement == []
    ensures edits[First(source, edits, collapsible, k).value].span.start in LineStarts(source)
  {
    if Joins(edits, collapsible, k) && First(source, edits, collapsible, k - 1).Some? {
      ReplacesNothing(source, edits, collapsible, k - 1);
    }
  }

  /** What the pass adds to edit `k` shows nothing, and stops at the start of a line or of the next edit. */
  lemma {:induction false} AddedShowsNothing(source: Source, edits: seq<Edit>, collapsible: seq<bool>, k: nat, i: nat)
    requires k < |edits| && edits[k].span.end <= i < Reach(source, edits, collapsible, k)
    ensures i < |source| && SymAt(source, i) != Ink
    ensures var starts := LineStarts(source);
            var line := LineOf(starts, edits[k].span.end);
            && Closes(source, edits, collapsible, k)
            && line <= LineOf(starts, i) < line + Allowance(source, edits, collapsible, k)
            && starts[line] == edits[k].span.end
            && BlankLine(source, starts, LineOf(starts, i))
  {
    LineStartsTable(source);
    var starts := LineStarts(source);
    var x :| 0 <= x < |starts| && starts[x] == edits[k].span.end;
    LineOfStart(starts, x);
    BlankLinesShowNothing(source, starts, x, Allowance(source, edits, collapsible, k), i);
  }

  lemma {:induction false} ReachIsClean(source: Source, spans: seq<ByteSpan>, edits: seq<Edit>, collapsible: seq<bool>,
                                        k: nat)
    requires Ordered(edits, 0, |source|) && AllDiscreet(source, spans, edits) && k < |edits|
    ensures CleanCut(source, Reach(source, edits, collapsible, k))
  {
    LineStartsTable(source);
    var r := Reach(source, edits, collapsible, k);
    assert Discreet(source, spans, edits[k]);
    if k + 1 < |edits| { assert Discreet(source, spans, edits[k + 1]); }
    if r != edits[k].span.end && r != Ceiling(source, edits, k) {
      assert LineBoundary(source, r);
    }
  }

  lemma {:induction false} RemovalStartsFirst(source: Source, edits: seq<Edit>, collapsible: seq<bool>, k: nat)
    requires Ordered(edits, 0, |source|)
    requires k < |edits| && First(source, edits, collapsible, k).Some?
    ensures edits[First(source, edits, collapsible, k).value].span.start <= edits[k].span.start
  {
    OrderedBounds(edits, 0, |source|);
  }

  /** A widened removal shows nothing from its first byte on. */
  lemma {:induction false} WidenedShowsNothing(source: Source, spans: seq<ByteSpan>, edits: seq<Edit>,
                                               collapsible: seq<bool>, k: nat, i: nat)
    requires Ordered(edits, 0, |source|) && AllDiscreet(source, spans, edits)
    requires k < |edits| && First(source, edits, collapsible, k).Some?
    requires edits[First(source, edits, collapsible, k).value].span.start <= i < Reach(source, edits, collapsible, k)
             <= |source|
    ensures SymAt(source, i) != Ink || Covered(spans, i)
  {
    if i >= edits[k].span.end {
      AddedShowsNothing(source, edits, collapsible, k, i);
    } else {
      RemovalIsTaken(source, edits, collapsible, k, i);
      var j :| 0 <= j <= k && edits[j].span.start <= i < edits[j].span.end;
      assert edits[j] in edits;
      DiscreetShowsNothing(source, spans, edits[j], i);
    }
  }

  /** An edit that is widened is faithful, whatever it was. */
  lemma {:induction false} WidenedIsFaithful(source: Source, spans: seq<ByteSpan>, edits: seq<Edit>,
                                             collapsible: seq<bool>, k: nat)
    requires Ordered(edits, 0, |source|) && AllDiscreet(source, spans, edits) && k < |edits|
    requires Reach(source, edits, collapsible, k) > edits[k].span.end
    ensures Faithful(source, spans, Widened(source, edits, collapsible, k))
  {
    hide Covered, LineStarts;
    assert Discreet(source, spans, edits[k]);
    var a, end, r := edits[k].span.start, edits[k].span.end, Reach(source, edits, collapsible, k);
    LineStartsTable(source);
    ReplacesNothing(source, edits, collapsible, k);
    ReachIsClean(source, spans, edits, collapsible, k);
    ReachStops(source, edits, collapsible, k);
    RemovalStartsFirst(source, edits, collapsible, k);
    var l := edits[First(source, edits, collapsible, k).value].span.start;
    assert LineBoundary(source, l);
    forall i | l <= i < r
      ensures SymAt(source, i) != Ink || Covered(spans, i)
    {
      WidenedShowsNothing(source, spans, edits, collapsible, k, i);
    }
    LineTakenIsFaithful(source, spans, l, a, r);
  }

  /** An edit that is widened takes the end of a line. */
  lemma {:induction false} WidenedIsTight(source: Source, comments: seq<Comment>, idle: set<nat>, edits: seq<Edit>,
                                          collapsible: seq<bool>, k: nat)
    requires Ordered(edits, 0, |source|) && k < |edits| && edits[k].span.start < edits[k].span.end
    requires Reach(source, edits, collapsible, k) > edits[k].span.end
    ensures Tight(source, comments, idle, Widened(source, edits, collapsible, k))
  {
    LineStartsTable(source);
    ReachStops(source, edits, collapsible, k);
    assert LineBoundary(source, edits[k].span.end);
    BreakIsTight(source, comments, idle, Widened(source, edits, collapsible, k), edits[k].span.end - 1);
  }

  lemma {:induction false} WidenedTakes(source: Source, spans: seq<ByteSpan>, edits: seq<Edit>, collapsible: seq<bool>)
    requires Taken(spans, edits)
    ensures Taken(spans, Collapsed(source, edits, collapsible))
  {
    var wide := Collapsed(source, edits, collapsible);
    forall j | 0 <= j < |spans|
      ensures Takes(wide, spans[j])
    {
      assert Takes(edits, spans[j]);
      var e :| e in edits && e.span.start <= spans[j].start && spans[j].end <= e.span.end;
      var k :| 0 <= k < |edits| && edits[k] == e;
      assert wide[k] in wide;
    }
  }

  /** The pass keeps the edits discreet and tight. */
  lemma {:induction false} CollapsedIsTight(source: Source, comments: seq<Comment>, idle: set<nat>,
                                            edits: seq<Edit>, collapsible: seq<bool>)
    requires Ordered(edits, 0, |source|) && AllDiscreet(source, RemovedSpans(comments), edits)
    requires AllTight(source, comments, idle, edits)
    ensures var wide := Collapsed(source, edits, collapsible);
            AllDiscreet(source, RemovedSpans(comments), wide) && AllTight(source, comments, idle, wide)
  {
    var spans, wide := RemovedSpans(comments), Collapsed(source, edits, collapsible);
    forall e | e in wide
      ensures Discreet(source, spans, e) && Tight(source, comments, idle, e)
    {
      var k :| 0 <= k < |wide| && wide[k] == e;
      assert edits[k] in edits && Discreet(source, spans, edits[k]);
      if Reach(source, edits, collapsible, k) > edits[k].span.end {
        WidenedIsFaithful(source, spans, edits, collapsible, k);
        WidenedIsTight(source, comments, idle, edits, collapsible, k);
      } else {
        assert e == edits[k];
      }
    }
  }

  /** The pass keeps the outline the edits keep. */
  lemma {:induction false} CollapsedIsFaithful(source: Source, spans: seq<ByteSpan>, edits: seq<Edit>,
                                               collapsible: seq<bool>)
    requires Ordered(edits, 0, |source|) && AllFaithful(source, spans, edits) && Taken(spans, edits)
    ensures var wide := Collapsed(source, edits, collapsible);
            AllFaithful(source, spans, wide) && Taken(spans, wide)
  {
    var wide := Collapsed(source, edits, collapsible);
    WidenedTakes(source, spans, edits, collapsible);
    forall e | e in wide
      ensures Faithful(source, spans, e)
    {
      var k :| 0 <= k < |wide| && wide[k] == e;
      assert edits[k] in edits && Faithful(source, spans, edits[k]);
      if Reach(source, edits, collapsible, k) > edits[k].span.end {
        WidenedIsFaithful(source, spans, edits, collapsible, k);
      } else {
        assert e == edits[k];
      }
    }
  }

  // ---- what the pass takes ----

  /** `x` begins a line, or is on a line that shows something. */
  ghost predicate OffBlankLines(source: Source, x: nat) {
    x in LineStarts(source) || !BlankLine(source, LineStarts(source), LineOf(LineStarts(source), x))
  }

  /** Edit `k` was widened by `count` whole blank lines, no more than stood above its removal or below it. */
  ghost predicate WidenedBy(source: Source, edits: seq<Edit>, collapsible: seq<bool>, k: nat, count: nat)
    requires k < |edits|
  {
    && Closes(source, edits, collapsible, k)
    && count <= Allowance(source, edits, collapsible, k)
    && var starts := LineStarts(source);
    var line := LineOf(starts, edits[k].span.end);
    && line + count < |starts|
    && Reach(source, edits, collapsible, k) == starts[line + count]
    && forall j | line <= j < line + count :: BlankLine(source, starts, j)
  }

  /** The line that holds `x` shows something. */
  ghost predicate OnShownLine(source: Source, x: nat) {
    !BlankLine(source, LineStarts(source), LineOf(LineStarts(source), x))
  }

  /** Blank lines end no further than a place behind their beginning whose line shows something. */
  lemma {:induction false} StopsBeforeShown(source: Source, line: nat, count: nat, x: nat)
    requires line < |LineStarts(source)| && count <= BlankBelow(source, LineStarts(source), line)
    requires LineStarts(source)[line] <= x && OnShownLine(source, x)
    ensures LinesOn(LineStarts(source), line, count) <= x
  {
    LineStartsTable(source);
    if x < LinesOn(LineStarts(source), line, count) {
      BlankLinesShowNothing(source, LineStarts(source), line, count, x);
    }
  }

  /** Where the next edit is on a line that shows something, the pass stops in front of it of itself. */
  lemma {:induction false} ClampNeverBites(source: Source, edits: seq<Edit>, collapsible: seq<bool>, k: nat)
    requires Ordered(edits, 0, |source|) && k < |edits| && Closes(source, edits, collapsible, k)
    requires k + 1 < |edits| ==> OnShownLine(source, edits[k + 1].span.start)
    ensures var starts := LineStarts(source);
            Reach(source, edits, collapsible, k)
            == LinesOn(starts, LineOf(starts, edits[k].span.end), Allowance(source, edits, collapsible, k))
  {
    hide BlankLine, BlankBelow, BlankAbove, OnShownLine, LinesOn, First;
    StartsAscend(source);
    var starts, end := LineStarts(source), edits[k].span.end;
    var x :| 0 <= x < |starts| && starts[x] == end;
    LineOfStart(starts, x);
    var m := Allowance(source, edits, collapsible, k);
    LinesOnStays(source, x, m);
    OrderedBounds(edits, 0, |source|);
    if k + 1 < |edits| { StopsBeforeShown(source, x, m, edits[k + 1].span.start); }
  }

  /** A removal stops where a line begins. */
  lemma {:induction false} ReachIsStart(source: Source, edits: seq<Edit>, collapsible: seq<bool>, k: nat)
    requires k < |edits| && (k + 1 < |edits| ==> OffBlankLines(source, edits[k + 1].span.start))
    requires Reach(source, edits, collapsible, k) > edits[k].span.end
    ensures Reach(source, edits, collapsible, k) in LineStarts(source)
  {
    LineStartsTable(source);
    var starts, end, r := LineStarts(source), edits[k].span.end, Reach(source, edits, collapsible, k);
    AddedShowsNothing(source, edits, collapsible, k, end);
    var line, m := LineOf(starts, end), Allowance(source, edits, collapsible, k);
    if r < LinesOn(starts, line, m) {
      BlankLinesShowNothing(source, starts, line, m, r);
    }
  }

  /** The pass takes whole blank lines and nothing else. */
  lemma {:induction false} TakesWholeBlankLines(source: Source, edits: seq<Edit>, collapsible: seq<bool>, k: nat)
    requires k < |edits| && (k + 1 < |edits| ==> OffBlankLines(source, edits[k + 1].span.start))
    requires Reach(source, edits, collapsible, k) > edits[k].span.end
    ensures exists count :: count > 0 && WidenedBy(source, edits, collapsible, k, count)
  {
    StartsAscend(source);
    ReachIsStart(source, edits, collapsible, k);
    var starts, end, r := LineStarts(source), edits[k].span.end, Reach(source, edits, collapsible, k);
    var to :| 0 <= to < |starts| && starts[to] == r;
    AddedShowsNothing(source, edits, collapsible, k, end);
    var line := LineOf(starts, end);
    InOrderOfStarts(starts, line, to);
    forall j | line <= j < to
      ensures BlankLine(source, starts, j) && j < line + Allowance(source, edits, collapsible, k)
    {
      InOrderOfStarts(starts, line, j);
      InOrderOfStarts(starts, j, to);
      AddedLine(source, edits, collapsible, k, j);
    }
    WidenedToStart(source, edits, collapsible, k, line, to);
  }

  lemma {:induction false} WidenedToStart(source: Source, edits: seq<Edit>, collapsible: seq<bool>, k: nat, line: nat,
                                          to: nat)
    requires k < |edits| && Closes(source, edits, collapsible, k)
    requires line == LineOf(LineStarts(source), edits[k].span.end) < to < |LineStarts(source)|
    requires Reach(source, edits, collapsible, k) == LineStarts(source)[to]
    requires forall j | line <= j < to :: BlankLine(source, LineStarts(source), j)
                                          && j < line + Allowance(source, edits, collapsible, k)
    ensures exists count :: count > 0 && WidenedBy(source, edits, collapsible, k, count)
  {
    assert BlankLine(source, LineStarts(source), to - 1);
    assert WidenedBy(source, edits, collapsible, k, to - line);
  }

  /** A line that begins in what the pass adds is blank, and is one of those allowed. */
  lemma {:induction false} AddedLine(source: Source, edits: seq<Edit>, collapsible: seq<bool>, k: nat, j: nat)
    requires k < |edits| && j < |LineStarts(source)|
    requires edits[k].span.end <= LineStarts(source)[j] < Reach(source, edits, collapsible, k)
    ensures Closes(source, edits, collapsible, k) && BlankLine(source, LineStarts(source), j)
    ensures j < LineOf(LineStarts(source), edits[k].span.end) + Allowance(source, edits, collapsible, k)
  {
    LineStartsTable(source);
    LineOfStart(LineStarts(source), j);
    AddedShowsNothing(source, edits, collapsible, k, LineStarts(source)[j]);
  }

  // ---- what the pass leaves ----

  /** No edit takes any of line `line`. */
  ghost predicate Untouched(source: Source, edits: seq<Edit>, line: nat) {
    var starts := LineStarts(source);
    line < |starts| && forall e <- edits :: e.span.end <= starts[line] || LineStop(source, starts, line) <= e.span.start
  }

  /** Behind the last visible byte an edit takes, it takes no further line. */
  ghost predicate EndsAtInk(source: Source, e: Edit) {
    && e.span.end <= |source|
    && exists q | e.span.start <= q < e.span.end ::
         SymAt(source, q) == Ink && forall x: nat | q < x < e.span.end :: !LineBoundary(source, x)
  }

  /** A visible byte no edit takes, in front of something the pass adds to a removal, is in front of the removal. */
  lemma {:induction false} SurvivorIsAbove(source: Source, edits: seq<Edit>, collapsible: seq<bool>, p: nat, x: nat,
                                           k: nat)
    requires Ordered(edits, 0, |source|)
    requires p < |source| && SymAt(source, p) == Ink && Survives(edits, p)
    requires k < |edits| && First(source, edits, collapsible, k).Some?
    requires p < x < Reach(source, edits, collapsible, k)
    ensures p < edits[First(source, edits, collapsible, k).value].span.start
  {
    forall j | 0 <= j < |edits|
      ensures !(edits[j].span.start <= p < edits[j].span.end)
    {
      assert edits[j] in edits;
    }
    if p >= edits[k].span.end {
      AddedShowsNothing(source, edits, collapsible, k, p);
    } else if p >= edits[First(source, edits, collapsible, k).value].span.start {
      RemovalIsTaken(source, edits, collapsible, k, p);
    }
  }

  /** An edit that ends no later than a blank line does not reach into it. */
  lemma {:induction false} StopsAboveBlank(source: Source, e: Edit, l: nat)
    requires EndsAtInk(source, e) && BlankLine(source, LineStarts(source), l)
    requires e.span.end <= LineStop(source, LineStarts(source), l)
    ensures e.span.end <= LineStarts(source)[l]
  {
    LineStartsTable(source);
    var starts := LineStarts(source);
    var q :| e.span.start <= q < e.span.end && SymAt(source, q) == Ink
             && forall x: nat | q < x < e.span.end :: !LineBoundary(source, x);
    assert LineBoundary(source, starts[l]);
  }

  /** The blank line above a removal is left alone by the edits. */
  lemma {:induction false} NoEditAbove(source: Source, edits: seq<Edit>, first: nat, l: nat)
    requires Ordered(edits, 0, |source|) && forall e <- edits :: EndsAtInk(source, e)
    requires first < |edits| && l + 1 < |LineStarts(source)|
    requires LineStarts(source)[l + 1] == edits[first].span.start && BlankLine(source, LineStarts(source), l)
    ensures Untouched(source, edits, l)
  {
    OrderedBounds(edits, 0, |source|);
    forall e | e in edits
      ensures e.span.end <= LineStarts(source)[l] || LineStop(source, LineStarts(source), l) <= e.span.start
    {
      var j :| 0 <= j < |edits| && edits[j] == e;
      if j < first { StopsAboveBlank(source, e, l); }
    }
  }

  /** The first line of a removal that was widened, and the blank line above it. */
  lemma {:induction false} WidenedStandsUnderBlank(source: Source, edits: seq<Edit>, collapsible: seq<bool>, k: nat)
    returns (top: nat)
    requires Ordered(edits, 0, |source|)
    requires k < |edits| && Reach(source, edits, collapsible, k) > edits[k].span.end
    ensures First(source, edits, collapsible, k).Some? && 0 < top < |LineStarts(source)|
    ensures LineStarts(source)[top] == edits[First(source, edits, collapsible, k).value].span.start
            <= edits[k].span.start
    ensures BlankLine(source, LineStarts(source), top - 1)
  {
    LineStartsTable(source);
    var starts := LineStarts(source);
    AddedShowsNothing(source, edits, collapsible, k, edits[k].span.end);
    ReplacesNothing(source, edits, collapsible, k);
    RemovalStartsFirst(source, edits, collapsible, k);
    top :| 0 <= top < |starts| && starts[top] == edits[First(source, edits, collapsible, k).value].span.start;
    LineOfStart(starts, top);
    AboveIsBlank(source, starts, top, 0);
  }

  /** A blank line left by the edits and taken by the pass stood under another, which the edits left too. */
  lemma {:induction false} TakenStoodUnder(source: Source, edits: seq<Edit>, collapsible: seq<bool>, p: nat, b: nat,
                                           k: nat)
    requires Ordered(edits, 0, |source|) && forall e <- edits :: EndsAtInk(source, e)
    requires p < |source| && SymAt(source, p) == Ink && Survives(edits, p)
    requires Untouched(source, edits, b) && BlankLine(source, LineStarts(source), b) && p < LineStarts(source)[b]
    requires k < |edits| && LineStarts(source)[b] < Reach(source, edits, collapsible, k)
    requires edits[k].span.start < LineStop(source, LineStarts(source), b)
    ensures exists a: nat :: a < b && Untouched(source, edits, a) && BlankLine(source, LineStarts(source), a)
                             && p < LineStarts(source)[a]
  {
    LineStartsTable(source);
    OrderedBounds(edits, 0, |source|);
    var starts := LineStarts(source);
    assert edits[k] in edits;
    assert edits[k].span.end <= starts[b];
    var top := WidenedStandsUnderBlank(source, edits, collapsible, k);
    SurvivorIsAbove(source, edits, collapsible, p, starts[b], k);
    assert starts[top] <= starts[b];
    var first := First(source, edits, collapsible, k).value;
    NoEditAbove(source, edits, first, top - 1);
    assert p < starts[top - 1];
  }

  lemma {:induction false} UntouchedByWidened(source: Source, edits: seq<Edit>, collapsible: seq<bool>, b: nat)
    requires Untouched(source, edits, b) && !Untouched(source, Collapsed(source, edits, collapsible), b)
    ensures exists k :: 0 <= k < |edits| && LineStarts(source)[b] < Reach(source, edits, collapsible, k)
                        && edits[k].span.start < LineStop(source, LineStarts(source), b)
  {
    var starts, wide := LineStarts(source), Collapsed(source, edits, collapsible);
    var e :| e in wide && !(e.span.end <= starts[b] || LineStop(source, starts, b) <= e.span.start);
    var k :| 0 <= k < |wide| && wide[k] == e;
  }

  /**
   * Where the edits left a blank line somewhere below a visible byte, the pass leaves one too, no further
   * down: two lines of code with a blank line between them still have one, however many removals there
   * are between them.
   */
  lemma {:induction false} BlankStaysBetween(source: Source, edits: seq<Edit>, collapsible: seq<bool>, p: nat, b: nat)
    requires Ordered(edits, 0, |source|) && forall e <- edits :: EndsAtInk(source, e)
    requires p < |source| && SymAt(source, p) == Ink && Survives(edits, p)
    requires Untouched(source, edits, b) && BlankLine(source, LineStarts(source), b) && p < LineStarts(source)[b]
    ensures exists a: nat :: a <= b && Untouched(source, Collapsed(source, edits, collapsible), a)
                             && BlankLine(source, LineStarts(source), a) && p < LineStarts(source)[a]
    decreases b
  {
    if !Untouched(source, Collapsed(source, edits, collapsible), b) {
      UntouchedByWidened(source, edits, collapsible, b);
      var k :| 0 <= k < |edits| && LineStarts(source)[b] < Reach(source, edits, collapsible, k)
               && edits[k].span.start < LineStop(source, LineStarts(source), b);
      TakenStoodUnder(source, edits, collapsible, p, b, k);
      var a: nat :| a < b && Untouched(source, edits, a) && BlankLine(source, LineStarts(source), a)
                    && p < LineStarts(source)[a];
      BlankStaysBetween(source, edits, collapsible, p, a);
    }
  }

  // ---- how many blank lines a removal is left with ----

  /** How many of the `count` lines from `line` on are blank and left alone by the edits. */
  ghost function BlanksLeft(source: Source, edits: seq<Edit>, line: nat, count: nat): nat
    decreases count
  {
    if count == 0 then 0
    else
      (if BlankLine(source, LineStarts(source), line) && Untouched(source, edits, line) then 1 else 0)
      + BlanksLeft(source, edits, line + 1, count - 1)
  }

  lemma {:induction false} AllLeft(source: Source, edits: seq<Edit>, line: nat, count: nat)
    requires forall l | line <= l < line + count ::
             BlankLine(source, LineStarts(source), l) && Untouched(source, edits, l)
    ensures BlanksLeft(source, edits, line, count) == count
    decreases count
  {
    if count > 0 { AllLeft(source, edits, line + 1, count - 1); }
  }

  lemma {:induction false} NoneLeft(source: Source, edits: seq<Edit>, line: nat, skip: nat, count: nat)
    requires skip <= count && forall l | line <= l < line + skip :: !Untouched(source, edits, l)
    ensures BlanksLeft(source, edits, line, count) == BlanksLeft(source, edits, line + skip, count - skip)
    decreases skip
  {
    if skip > 0 { NoneLeft(source, edits, line + 1, skip - 1, count - 1); }
  }

  /** The highest of the blank lines directly above line `line`, or the line itself. */
  ghost function AboveOf(source: Source, starts: seq<nat>, line: nat): (l: nat)
    ensures l <= line
  {
    line - BlankAbove(source, starts, line)
  }

  /** Something visible lies in `from..to`. */
  ghost predicate InkIn(source: Source, from: nat, to: nat) {
    exists p | from <= p < to :: p < |source| && SymAt(source, p) == Ink
  }

  /** Where line `line` begins; the end of the source when there is none. */
  function StartOfLine(source: Source, line: nat): nat {
    if line < |LineStarts(source)| then LineStarts(source)[line] else |source|
  }

  /** Edits `first..last` are one removal, from line `top` up to line `bottom`. */
  ghost predicate IsRemoval(source: Source, edits: seq<Edit>, collapsible: seq<bool>, first: nat, last: nat, top: nat,
                            bottom: nat) {
    && first <= last < |edits|
    && Closes(source, edits, collapsible, last) && First(source, edits, collapsible, last) == Some(first)
    && top < |LineStarts(source)| && LineStarts(source)[top] == edits[first].span.start
    && bottom < |LineStarts(source)| && LineStarts(source)[bottom] == edits[last].span.end
  }

  /** Between the blank lines around a removal and the edits before and behind it something visible stays. */
  ghost predicate StandsAlone(source: Source, edits: seq<Edit>, first: nat, last: nat, top: nat, bottom: nat)
    requires first <= last < |edits|
  {
    var starts := LineStarts(source);
    && (first > 0 ==> InkIn(source, edits[first - 1].span.end, StartOfLine(source, AboveOf(source, starts, top))))
    && (last + 1 < |edits| ==>
          edits[last + 1].span.start >= StartOfLine(source, bottom + BlankBelow(source, starts, bottom)))
  }

  lemma {:induction false} ClearOfInk(source: Source, edits: seq<Edit>, collapsible: seq<bool>, j: nat, x: nat)
    requires j < |edits| && InkIn(source, edits[j].span.end, x)
    ensures Reach(source, edits, collapsible, j) < x
  {
    var p :| edits[j].span.end <= p < x && p < |source| && SymAt(source, p) == Ink;
    if p < Reach(source, edits, collapsible, j) { AddedShowsNothing(source, edits, collapsible, j, p); }
  }

  /** No edit in front of edit `first` reaches past something visible in front of it. */
  lemma {:induction false} ClearAbove(source: Source, edits: seq<Edit>, collapsible: seq<bool>, first: nat, j: nat,
                                      x: nat)
    requires Ordered(edits, 0, |source|) && j < first < |edits|
    requires InkIn(source, edits[first - 1].span.end, x)
    ensures Reach(source, edits, collapsible, j) <= x
  {
    OrderedBounds(edits, 0, |source|);
    ReachStops(source, edits, collapsible, j);
    if j + 1 == first { ClearOfInk(source, edits, collapsible, j, x); }
  }

  /** The blank lines above a removal that stands alone are left as they were. */
  lemma {:induction false} AboveIsLeft(source: Source, edits: seq<Edit>, collapsible: seq<bool>, first: nat, top: nat,
                                       l: nat)
    requires Ordered(edits, 0, |source|) && first < |edits|
    requires top < |LineStarts(source)| && LineStarts(source)[top] == edits[first].span.start
    requires first > 0 ==>
               InkIn(source, edits[first - 1].span.end, StartOfLine(source, AboveOf(source, LineStarts(source), top)))
    requires AboveOf(source, LineStarts(source), top) <= l < top
    ensures BlankLine(source, LineStarts(source), l) && Untouched(source, Collapsed(source, edits, collapsible), l)
  {
    var starts, wide := LineStarts(source), Collapsed(source, edits, collapsible);
    StartsAscend(source);
    OrderedBounds(edits, 0, |source|);
    AboveIsBlank(source, starts, top, top - 1 - l);
    InOrderOfStarts(starts, l + 1, top);
    InOrderOfStarts(starts, AboveOf(source, starts, top), l);
    forall e | e in wide
      ensures e.span.end <= starts[l] || LineStop(source, starts, l) <= e.span.start
    {
      var j :| 0 <= j < |wide| && wide[j] == e;
      if j < first { ClearAbove(source, edits, collapsible, first, j, starts[AboveOf(source, starts, top)]); }
    }
  }

  lemma {:induction false} AllowanceOf(source: Source, edits: seq<Edit>, collapsible: seq<bool>, first: nat, last: nat,
                                       top: nat, bottom: nat)
    requires IsRemoval(source, edits, collapsible, first, last, top, bottom)
    ensures LineStarts(source) != [] && LineStarts(source)[0] == 0
    ensures LineOf(LineStarts(source), edits[last].span.end) == bottom
    ensures Allowance(source, edits, collapsible, last)
         == Min(BlankAbove(source, LineStarts(source), top), BlankBelow(source, LineStarts(source), bottom))
  {
    StartsAscend(source);
    LineOfStart(LineStarts(source), top);
    LineOfStart(LineStarts(source), bottom);
  }

  /** How far a removal that stands alone is widened: as far as it may, or up to an unterminated last line. */
  lemma {:induction false} AloneReach(source: Source, edits: seq<Edit>, collapsible: seq<bool>, first: nat, last: nat,
                                      top: nat, bottom: nat)
    requires Ordered(edits, 0, |source|) && IsRemoval(source, edits, collapsible, first, last, top, bottom)
    requires StandsAlone(source, edits, first, last, top, bottom)
    ensures Reach(source, edits, collapsible, last)
         == LinesOn(LineStarts(source), bottom,
                    Min(BlankAbove(source, LineStarts(source), top), BlankBelow(source, LineStarts(source), bottom)))
  {
    var starts := LineStarts(source);
    AllowanceOf(source, edits, collapsible, first, last, top, bottom);
    LinesOnStays(source, bottom, Allowance(source, edits, collapsible, last));
    OrderedBounds(edits, 0, |source|);
  }

  lemma {:induction false} LinesOnStays(source: Source, bottom: nat, count: nat)
    requires bottom < |LineStarts(source)| && count <= BlankBelow(source, LineStarts(source), bottom)
    ensures var starts := LineStarts(source);
            starts[bottom] <= LinesOn(starts, bottom, count)
            <= StartOfLine(source, bottom + BlankBelow(source, starts, bottom)) <= |source|
  {
    LineStartsTable(source);
    var starts := LineStarts(source);
    BelowFits(source, starts, bottom);
    var to, below := Min(bottom + count, |starts| - 1), bottom + BlankBelow(source, starts, bottom);
    InOrderOfStarts(starts, bottom, to);
    if below < |starts| { InOrderOfStarts(starts, to, below); }
  }

  /** The lines a removal was widened by are gone. */
  lemma {:induction false} TakenIsGone(source: Source, edits: seq<Edit>, collapsible: seq<bool>, last: nat, bottom: nat,
                                       to: nat, l: nat)
    requires last < |edits| && bottom <= l < to < |LineStarts(source)| && BlankLine(source, LineStarts(source), l)
    requires edits[last].span.start <= edits[last].span.end == LineStarts(source)[bottom]
    requires Reach(source, edits, collapsible, last) == LineStarts(source)[to]
    ensures !Untouched(source, Collapsed(source, edits, collapsible), l)
  {
    var starts, wide := LineStarts(source), Collapsed(source, edits, collapsible);
    StartsAscend(source);
    InOrderOfStarts(starts, bottom, l);
    InOrderOfStarts(starts, l, to);
    assert wide[last] in wide;
  }

  /** A line below the last one taken, and in front of the next edit, is left. */
  lemma {:induction false} BelowIsLeft(source: Source, edits: seq<Edit>, collapsible: seq<bool>, last: nat, to: nat,
                                       l: nat)
    requires Ordered(edits, 0, |source|) && last < |edits| && to <= l < |LineStarts(source)|
    requires Reach(source, edits, collapsible, last) == LineStarts(source)[to]
    requires last + 1 < |edits| ==> edits[last + 1].span.start >= LineStop(source, LineStarts(source), l)
    ensures Untouched(source, Collapsed(source, edits, collapsible), l)
  {
    var starts, wide := LineStarts(source), Collapsed(source, edits, collapsible);
    StartsAscend(source);
    InOrderOfStarts(starts, to, l);
    forall e | e in wide
      ensures e.span.end <= starts[l] || LineStop(source, starts, l) <= e.span.start
    {
      var j :| 0 <= j < |wide| && wide[j] == e;
      OneSide(source, edits, collapsible, last, j);
    }
  }

  lemma {:induction false} OneSide(source: Source, edits: seq<Edit>, collapsible: seq<bool>, last: nat, j: nat)
    requires Ordered(edits, 0, |source|) && last < |edits| && j < |edits|
    ensures j <= last ==> Reach(source, edits, collapsible, j) <= Reach(source, edits, collapsible, last)
    ensures j > last ==> last + 1 < |edits| && edits[last + 1].span.start <= edits[j].span.start
  {
    OrderedBounds(edits, 0, |source|);
    if j < last { ReachStops(source, edits, collapsible, j); }
  }

  /** The blank lines from `bottom` on stop where the first line behind them begins. */
  lemma {:induction false} StopsWithin(source: Source, bottom: nat, l: nat)
    requires bottom <= l < bottom + BlankBelow(source, LineStarts(source), bottom) && bottom < |LineStarts(source)|
    ensures l < |LineStarts(source)| && BlankLine(source, LineStarts(source), l)
    ensures LineStop(source, LineStarts(source), l)
         <= StartOfLine(source, bottom + BlankBelow(source, LineStarts(source), bottom))
  {
    var starts := LineStarts(source);
    StartsAscend(source);
    BelowIsBlank(source, starts, bottom, l - bottom);
    BelowFits(source, starts, bottom);
    var below := bottom + BlankBelow(source, starts, bottom);
    if below < |starts| { InOrderOfStarts(starts, l + 1, below); }
  }

  lemma {:induction false} LeftAbove(source: Source, edits: seq<Edit>, collapsible: seq<bool>, first: nat, last: nat,
                                     top: nat, bottom: nat)
    requires Ordered(edits, 0, |source|) && IsRemoval(source, edits, collapsible, first, last, top, bottom)
    requires StandsAlone(source, edits, first, last, top, bottom)
    ensures var before := BlankAbove(source, LineStarts(source), top);
            BlanksLeft(source, Collapsed(source, edits, collapsible), top - before, before) == before
  {
    var wide := Collapsed(source, edits, collapsible);
    var before := BlankAbove(source, LineStarts(source), top);
    forall l | top - before <= l < top - before + before
      ensures BlankLine(source, LineStarts(source), l) && Untouched(source, wide, l)
    {
      AboveIsLeft(source, edits, collapsible, first, top, l);
    }
    AllLeft(source, wide, top - before, before);
  }

  /** Of the blank lines below a removal exactly those it was not widened by are left. */
  lemma {:induction false} LeftOrGone(source: Source, edits: seq<Edit>, collapsible: seq<bool>, last: nat, bottom: nat,
                                      to: nat, l: nat)
    requires Ordered(edits, 0, |source|) && last < |edits| && bottom <= to < |LineStarts(source)|
    requires edits[last].span.end == LineStarts(source)[bottom]
    requires Reach(source, edits, collapsible, last) == LineStarts(source)[to]
    requires bottom <= l < bottom + BlankBelow(source, LineStarts(source), bottom)
    requires last + 1 < |edits| ==>
               edits[last + 1].span.start >= StartOfLine(source,
                                                         bottom + BlankBelow(source, LineStarts(source), bottom))
    ensures BlankLine(source, LineStarts(source), l)
    ensures Untouched(source, Collapsed(source, edits, collapsible), l) <==> to <= l
  {
    StopsWithin(source, bottom, l);
    if l < to {
      OrderedBounds(edits, 0, |source|);
      TakenIsGone(source, edits, collapsible, last, bottom, to, l);
    } else {
      BelowIsLeft(source, edits, collapsible, last, to, l);
    }
  }

  lemma {:induction false} LeftBelow(source: Source, edits: seq<Edit>, collapsible: seq<bool>, last: nat, bottom: nat,
                                     taken: nat, after: nat)
    requires Ordered(edits, 0, |source|) && last < |edits| && bottom + taken < |LineStarts(source)|
    requires edits[last].span.end == LineStarts(source)[bottom]
    requires taken <= after == BlankBelow(source, LineStarts(source), bottom)
    requires Reach(source, edits, collapsible, last) == LineStarts(source)[bottom + taken]
    requires last + 1 < |edits| ==> edits[last + 1].span.start >= StartOfLine(source, bottom + after)
    ensures BlanksLeft(source, Collapsed(source, edits, collapsible), bottom, after) == after - taken
  {
    var wide := Collapsed(source, edits, collapsible);
    forall l | bottom <= l < bottom + after
      ensures BlankLine(source, LineStarts(source), l) && (Untouched(source, wide, l) <==> bottom + taken <= l)
    {
      LeftOrGone(source, edits, collapsible, last, bottom, bottom + taken, l);
    }
    CountLeft(source, wide, bottom, taken, after);
  }

  lemma {:induction false} CountLeft(source: Source, edits: seq<Edit>, line: nat, skip: nat, count: nat)
    requires skip <= count
    requires forall l | line <= l < line + count ::
               BlankLine(source, LineStarts(source), l) && (Untouched(source, edits, l) <==> line + skip <= l)
    ensures BlanksLeft(source, edits, line, count) == count - skip
  {
    NoneLeft(source, edits, line, skip, count);
    AllLeft(source, edits, line + skip, count - skip);
  }

  /**
   * A removal that stands alone with `before` blank lines above it and `after` below is left with the
   * larger number of the two, unless all the blank lines below would have to go and the last of them
   * ends without a terminator: that one stays.
   */
  lemma {:induction false} RemovalIsLeftWithMax(source: Source, edits: seq<Edit>, collapsible: seq<bool>, first: nat,
                                                last: nat, top: nat, bottom: nat)
    requires Ordered(edits, 0, |source|) && IsRemoval(source, edits, collapsible, first, last, top, bottom)
    requires StandsAlone(source, edits, first, last, top, bottom)
    ensures var starts, wide := LineStarts(source), Collapsed(source, edits, collapsible);
            var before, after := BlankAbove(source, starts, top), BlankBelow(source, starts, bottom);
            BlanksLeft(source, wide, top - before, before) + BlanksLeft(source, wide, bottom, after)
            == Max(before, after) + if bottom + Min(before, after) < |starts| then 0 else 1
  {
    hide BlankAbove, BlankBelow, BlanksLeft, First, Reach, BlankLine, LineStarts, InkIn;
    var starts := LineStarts(source);
    var before, after := BlankAbove(source, starts, top), BlankBelow(source, starts, bottom);
    AloneReach(source, edits, collapsible, first, last, top, bottom);
    BelowFits(source, starts, bottom);
    LeftAbove(source, edits, collapsible, first, last, top, bottom);
    LeftBelow(source, edits, collapsible, last, bottom, Min(Min(before, after), |starts| - 1 - bottom), after);
  }
}
