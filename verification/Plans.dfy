/**
 * What the three planners share: a plan holds one edit for every comment that is not kept, in their order,
 * and every edit takes its comment and begins where the one before it ended, or behind.
 */
module Plans {
  import opened Bytes
  import opened Edits
  import opened Layouts
  import opened Outlines
  import opened Scanning
  import opened Seams

  function LastEnd(edits: seq<Edit>): nat {
    if edits == [] then 0 else edits[|edits| - 1].span.end
  }

  /** Where comment `i` begins, or the end of the source when there is none. */
  function StartOf(comments: seq<Comment>, i: nat, n: nat): nat {
    if i < |comments| then comments[i].span.start else n
  }

  function EndOf(comments: seq<Comment>, i: nat): nat {
    if 0 < i <= |comments| then comments[i - 1].span.end else 0
  }

  /** Where a planner stands in front of comment `i`, `floor` being the end of the last removal. */
  ghost predicate Planned(source: Source, comments: seq<Comment>, i: nat, edits: seq<Edit>, floor: nat) {
    && i <= |comments|
    && Ordered(edits, 0, |source|)
    && floor <= LastEnd(edits) <= Max(floor, EndOf(comments, i))
    && floor <= StartOf(comments, i, |source|)
    && TakenUpTo(comments, i, edits)
  }

  lemma {:induction false} PlanKeep(source: Source, comments: seq<Comment>, i: nat, edits: seq<Edit>, floor: nat)
    requires InOrder(comments, |source|) && i < |comments| && Planned(source, comments, i, edits, floor)
    requires comments[i].what.disposition == Keep
    ensures Planned(source, comments, i + 1, edits, floor)
  {
    if i > 0 { assert comments[i - 1].span.end <= comments[i].span.start; }
  }

  lemma {:induction false} PlanRewrite(source: Source, comments: seq<Comment>, i: nat, edits: seq<Edit>, floor: nat)
    requires InOrder(comments, |source|) && i < |comments| && Planned(source, comments, i, edits, floor)
    requires comments[i].what.disposition.Rewrite?
    ensures Planned(source, comments, i + 1,
                    edits + [Edit(comments[i].span, comments[i].what.disposition.replacement)], floor)
  {
    var e := Edit(comments[i].span, comments[i].what.disposition.replacement);
    if i > 0 { assert comments[i - 1].span.end <= comments[i].span.start; }
    OrderedAppend(edits, e, 0, |source|);
    TakenGrows(comments, i, edits, e);
  }

  lemma {:induction false} PlanRemove(source: Source, comments: seq<Comment>, i: nat, edits: seq<Edit>, floor: nat,
                                      e: Edit)
    requires InOrder(comments, |source|) && i < |comments| && Planned(source, comments, i, edits, floor)
    requires Removes(comments[i])
    requires LastEnd(edits) <= e.span.start <= comments[i].span.start
    requires comments[i].span.end <= e.span.end <= StartOf(comments, i + 1, |source|)
    ensures Planned(source, comments, i + 1, edits + [e], e.span.end)
  {
    OrderedAppend(edits, e, 0, |source|);
    TakenGrows(comments, i, edits, e);
  }

  /** Everything planned so far ends in front of the next comment. */
  lemma {:induction false} RoomBefore(source: Source, comments: seq<Comment>, i: nat, edits: seq<Edit>, floor: nat)
    requires InOrder(comments, |source|) && i < |comments| && Planned(source, comments, i, edits, floor)
    ensures LastEnd(edits) <= comments[i].span.start < comments[i].span.end <= StartOf(comments, i + 1, |source|)
  {
    if i > 0 { assert comments[i - 1].span.end <= comments[i].span.start; }
  }

  // ---- swallowed lines ----

  /** Where the last removal among the first `n` comments ends. */
  ghost function FloorOf(comments: seq<Comment>, swallow: seq<Option<ByteSpan>>, n: nat): nat
    requires n <= |comments|
  {
    if n == 0 then 0
    else if !Removes(comments[n - 1]) then FloorOf(comments, swallow, n - 1)
    else
      match SwallowAt(swallow, n - 1)
      case Some(line) => line.end
      case None => comments[n - 1].span.end
  }

  lemma {:induction false} FloorFits(comments: seq<Comment>, swallow: seq<Option<ByteSpan>>, n: nat, i: nat)
    requires InOrder(comments, n) && SwallowFits(comments, swallow, n) && i <= |comments|
    ensures FloorOf(comments, swallow, i) <= StartOf(comments, i, n)
  {
    if i > 0 {
      FloorFits(comments, swallow, n, i - 1);
      assert FitsAt(comments, swallow, n, i - 1);
      if i < |comments| { assert comments[i - 1].span.end <= comments[i].span.start; }
    }
  }

  /** The last removal cuts no separator where it ends. */
  lemma {:induction false} FloorIsClean(source: Source, comments: seq<Comment>, swallow: seq<Option<ByteSpan>>, n: nat)
    requires n <= |comments| && SwallowsWholeLines(source, comments, swallow)
    requires forall c <- comments | Removes(c) :: CleanCut(source, c.span.end)
    ensures CleanCut(source, FloorOf(comments, swallow, n))
  {
    if n > 0 {
      assert comments[n - 1] in comments && WholeLineAt(source, comments, swallow, n - 1);
      FloorIsClean(source, comments, swallow, n - 1);
    }
  }

  /** The lines a removal takes whole, as far as no removal took them before. */
  ghost function SwallowEdit(comments: seq<Comment>, swallow: seq<Option<ByteSpan>>, i: nat): Edit
    requires i < |comments| && SwallowAt(swallow, i).Some?
  {
    var line := SwallowAt(swallow, i).value;
    Edit(ByteSpan(Max(line.start, FloorOf(comments, swallow, i)), line.end), [])
  }

  /** A swallowed line starts behind everything planned so far. */
  lemma {:induction false} SwallowedEdit(source: Source, comments: seq<Comment>, swallow: seq<Option<ByteSpan>>, i: nat,
                                         edits: seq<Edit>, floor: nat)
    requires InOrder(comments, |source|) && SwallowFits(comments, swallow, |source|)
    requires i < |comments| && Planned(source, comments, i, edits, floor)
    requires Removes(comments[i]) && SwallowAt(swallow, i).Some?
    ensures var line, c := SwallowAt(swallow, i).value, comments[i].span;
            var a := Max(line.start, floor);
            LastEnd(edits) <= a <= c.start && c.end <= line.end <= StartOf(comments, i + 1, |source|)
  {
    assert FitsAt(comments, swallow, |source|, i);
  }

  /** A swallowed line, from a clean cut in front of its comment on, shows nothing, and goes with its end. */
  lemma {:induction false} SwallowedFrom(source: Source, comments: seq<Comment>, idle: set<nat>,
                                         swallow: seq<Option<ByteSpan>>, i: nat, a: nat)
    requires InOrder(comments, |source|) && SwallowFits(comments, swallow, |source|)
    requires SwallowsWholeLines(source, comments, swallow)
    requires i < |comments| && Removes(comments[i]) && SwallowAt(swallow, i).Some?
    requires SwallowAt(swallow, i).value.start <= a <= comments[i].span.start && CleanCut(source, a)
    ensures var e := Edit(ByteSpan(a, SwallowAt(swallow, i).value.end), []);
            Faithful(source, RemovedSpans(comments), e) && Tight(source, comments, idle, e)
  {
    assert FitsAt(comments, swallow, |source|, i);
    SwallowIsFaithful(source, comments, swallow, i, a);
    SwallowIsTight(source, comments, idle, swallow, i, a);
  }

  lemma {:induction false} SwallowEditIsFaithful(source: Source, comments: seq<Comment>, idle: set<nat>,
                                                 swallow: seq<Option<ByteSpan>>, i: nat)
    requires InOrder(comments, |source|) && SwallowFits(comments, swallow, |source|)
    requires SwallowsWholeLines(source, comments, swallow)
    requires forall c <- comments | Removes(c) :: CleanCut(source, c.span.end)
    requires i < |comments| && Removes(comments[i]) && SwallowAt(swallow, i).Some?
    ensures var e := SwallowEdit(comments, swallow, i);
            Faithful(source, RemovedSpans(comments), e) && Tight(source, comments, idle, e)
  {
    assert FitsAt(comments, swallow, |source|, i) && WholeLineAt(source, comments, swallow, i);
    FloorIsClean(source, comments, swallow, i);
    FloorFits(comments, swallow, |source|, i);
    SwallowedFrom(source, comments, idle, swallow, i, SwallowEdit(comments, swallow, i).span.start);
  }

  /** A comment of a run is not swallowed with its line: code stands on the line, or another comment does. */
  lemma {:induction false} RunIsNotSwallowed(source: Source, comments: seq<Comment>, idle: set<nat>,
                                             swallow: seq<Option<ByteSpan>>, i: nat, j: nat, m: nat)
    requires InOrder(comments, |source|) && SwallowFits(comments, swallow, |source|)
    requires SwallowsWholeLines(source, comments, swallow)
    requires Fuses(source, comments, idle, i, j) && i <= m <= j
    ensures SwallowAt(swallow, m).None?
  {
    assert WholeLineAt(source, comments, swallow, m) && FitsAt(comments, swallow, |source|, m);
    assert comments[i].span.start <= comments[m].span.start;
  }

  lemma {:induction false} NoSwallowIsWhole(source: Source, comments: seq<Comment>, swallow: seq<Option<ByteSpan>>)
    requires NoSwallow(comments, swallow)
    ensures SwallowsWholeLines(source, comments, swallow)
  {
  }

  // ---- a plan that is done ----

  /** A finished plan of tight edits keeps the outline where no run of comments fuses what it stands between. */
  lemma {:induction false} TightPlanKeepsOutline(source: Source, comments: seq<Comment>, idle: set<nat>,
                                                 edits: seq<Edit>, floor: nat)
    requires InOrder(comments, |source|) && NoneFuses(source, comments, idle)
    requires Planned(source, comments, |comments|, edits, floor)
    requires AllDiscreet(source, RemovedSpans(comments), edits) && AllTight(source, comments, idle, edits)
    ensures Outline(Apply(source, edits)) == RemainingOutline(source, comments)
  {
    TakenAll(comments, edits);
    TightEditsKeepOutline(source, comments, idle, edits);
  }
}
