/**
 * The outline of a text: its visible bytes in order, and for each whether it touches the one before,
 * is set apart from it by blanks, or stands on a later line.
 *
 * Two texts with one outline have the same tokens on the same lines, whatever their blanks, blank
 * lines and line endings. The main theorem of this file is local to global: edits that are each
 * faithful to what they replace leave the outline of the whole as it was.
 */
module Outlines {
  import opened Bytes
  import opened Edits

  datatype Sym = Ink | Blank | Break

  /** `i` lies inside a LINE SEPARATOR or PARAGRAPH SEPARATOR. */
  predicate InSeparator(s: Source, i: int) {
    SeparatorAt(s, i) || SeparatorAt(s, i - 1) || SeparatorAt(s, i - 2)
  }

  function SymAt(s: Source, i: nat): Sym
    requires i < |s|
  {
    if s[i] == CR || s[i] == LF || InSeparator(s, i) then Break
    else if IsWhitespace(s[i]) then Blank
    else Ink
  }

  datatype Cell = Cell(b: byte, sym: Sym)

  function Cells(s: Source): seq<Cell> {
    seq(|s|, i requires 0 <= i < |s| => Cell(s[i], SymAt(s, i)))
  }

  /** How a visible byte stands to the visible byte before it. */
  datatype Sep = First | Touching | Spaced | Broken

  datatype Mark = Mark(b: byte, sep: Sep)

  /** What a walk remembers: whether a visible byte went by, and the gap since the last. */
  datatype State = State(seen: bool, gap: Sep)

  const START: State := State(false, Touching)

  function Step(st: State, sym: Sym): State {
    match sym
    case Ink => State(true, Touching)
    case Blank => if st.gap == Touching then st.(gap := Spaced) else st
    case Break => st.(gap := Broken)
  }

  function Walk(cells: seq<Cell>, st: State): State {
    if cells == [] then st else Walk(cells[1..], Step(st, cells[0].sym))
  }

  function Marks(cells: seq<Cell>, st: State): seq<Mark> {
    if cells == [] then []
    else
      (if cells[0].sym == Ink then [Mark(cells[0].b, if st.seen then st.gap else First)] else [])
      + Marks(cells[1..], Step(st, cells[0].sym))
  }

  function Outline(s: Source): seq<Mark> {
    Marks(Cells(s), START)
  }

  // ---- walking in parts ----

  lemma {:induction false} WalkJoin(x: seq<Cell>, y: seq<Cell>, st: State)
    ensures Walk(x + y, st) == Walk(y, Walk(x, st))
    ensures Marks(x + y, st) == Marks(x, st) + Marks(y, Walk(x, st))
    decreases |x|
  {
    if x == [] {
      assert x + y == y;
      assert Marks(x, st) + Marks(y, st) == Marks(y, st);
    } else {
      assert (x + y)[1..] == x[1..] + y;
      WalkJoin(x[1..], y, Step(st, x[0].sym));
      MarksJoin(x, y, st);
    }
  }

  lemma {:induction false} MarksJoin(x: seq<Cell>, y: seq<Cell>, st: State)
    requires x != [] && (x + y)[1..] == x[1..] + y
    requires var st' := Step(st, x[0].sym);
             Marks(x[1..] + y, st') == Marks(x[1..], st') + Marks(y, Walk(x[1..], st'))
    ensures Marks(x + y, st) == Marks(x, st) + Marks(y, Walk(x, st))
  {
    var head := if x[0].sym == Ink then [Mark(x[0].b, if st.seen then st.gap else First)] else [];
    var st' := Step(st, x[0].sym);
    assert head + (Marks(x[1..], st') + Marks(y, Walk(x[1..], st')))
        == (head + Marks(x[1..], st')) + Marks(y, Walk(x[1..], st'));
  }

  ghost predicate NoInk(cells: seq<Cell>) {
    forall i | 0 <= i < |cells| :: cells[i].sym != Ink
  }

  ghost predicate HasBreak(cells: seq<Cell>) {
    exists i :: 0 <= i < |cells| && cells[i].sym == Break
  }

  function Wider(gap: Sep): Sep {
    if gap == Touching then Spaced else gap
  }

  /** A stretch without a visible byte marks nothing and only widens the gap. */
  lemma {:induction false} WalkNoInk(cells: seq<Cell>, st: State)
    requires NoInk(cells)
    ensures Marks(cells, st) == []
    ensures Walk(cells, st)
         == if HasBreak(cells) then st.(gap := Broken)
            else if cells == [] then st else st.(gap := Wider(st.gap))
    decreases |cells|
  {
    if cells != [] {
      var rest := cells[1..];
      assert forall i | 0 <= i < |rest| :: rest[i] == cells[i + 1];
      WalkNoInk(rest, Step(st, cells[0].sym));
      if HasBreak(rest) {
        var i :| 0 <= i < |rest| && rest[i].sym == Break;
        assert cells[i + 1].sym == Break;
      }
    }
  }

  /** The gap is closed exactly behind a visible byte. */
  lemma {:induction false} WalkLast(cells: seq<Cell>)
    ensures var st := Walk(cells, START);
            st.seen && st.gap == Touching <==> cells != [] && cells[|cells| - 1].sym == Ink
    ensures cells == [] || cells[|cells| - 1].sym != Break || Walk(cells, START).gap == Broken
  {
    if cells != [] {
      var k := |cells| - 1;
      assert cells[..k] + [cells[k]] == cells;
      WalkJoin(cells[..k], [cells[k]], START);
      assert [cells[k]][1..] == [];
      WalkUnseen(cells[..k], START);
    }
  }

  /** Before the first visible byte nothing is seen, and something is seen ever after. */
  lemma {:induction false} WalkUnseen(cells: seq<Cell>, st: State)
    ensures Walk(cells, st).seen <==> st.seen || !NoInk(cells)
    decreases |cells|
  {
    if cells != [] {
      var rest := cells[1..];
      assert forall i | 0 <= i < |rest| :: rest[i] == cells[i + 1];
      WalkUnseen(rest, Step(st, cells[0].sym));
      if !NoInk(rest) {
        var i :| 0 <= i < |rest| && rest[i].sym == Ink;
        assert cells[i + 1].sym == Ink;
      } else if NoInk(rest) && cells[0].sym != Ink {
        assert NoInk(cells);
      }
    }
  }

  // ---- what an outline says ----

  /** The visible positions of `cells`, in order. */
  function InkPlaces(cells: seq<Cell>): seq<nat> {
    if cells == [] then []
    else
      var n := |cells| - 1;
      InkPlaces(cells[..n]) + (if cells[n].sym == Ink then [n] else [])
  }

  lemma {:induction false} InkPlacesOfMore(front: seq<Cell>, last: Cell)
    ensures InkPlaces(front + [last]) == InkPlaces(front) + (if last.sym == Ink then [|front|] else [])
  {
    assert (front + [last])[..|front|] == front;
  }

  lemma {:induction false} InkPlacesHold(cells: seq<Cell>)
    ensures forall i, j | 0 <= i < j < |InkPlaces(cells)| :: InkPlaces(cells)[i] < InkPlaces(cells)[j]
    ensures forall k | 0 <= k < |InkPlaces(cells)| ::
            InkPlaces(cells)[k] < |cells| && cells[InkPlaces(cells)[k]].sym == Ink
    ensures forall i: nat | i < |cells| && cells[i].sym == Ink :: i in InkPlaces(cells)
    decreases |cells|
  {
    if cells != [] {
      var n := |cells| - 1;
      var front := cells[..n];
      InkPlacesHold(front);
      forall k | 0 <= k < |InkPlaces(cells)|
        ensures InkPlaces(cells)[k] < |cells| && cells[InkPlaces(cells)[k]].sym == Ink
      {
        if k < |InkPlaces(front)| { assert front[InkPlaces(front)[k]] == cells[InkPlaces(front)[k]]; }
      }
      forall i: nat | i < |cells| && cells[i].sym == Ink
        ensures i in InkPlaces(cells)
      {
        if i < n { assert front[i] == cells[i]; }
      }
    }
  }

  /** The separation of what stands at `z` from the visible byte at `a`, read off the bytes between. */
  ghost function Between(cells: seq<Cell>, a: nat, z: nat): Sep
    requires a < z <= |cells|
  {
    if HasBreak(cells[a + 1..z]) then Broken else if z == a + 1 then Touching else Spaced
  }

  /** How visible byte `k` is separated from the one before it. */
  ghost function SepOf(cells: seq<Cell>, at: seq<nat>, k: nat): Sep
    requires k < |at|
  {
    if k == 0 then First
    else if at[k - 1] < at[k] <= |cells| then Between(cells, at[k - 1], at[k])
    else Touching
  }

  /** Mark `k` is visible byte `k`, and says what the bytes between it and the one before it say. */
  ghost predicate SaysAt(cells: seq<Cell>, at: seq<nat>, m: seq<Mark>, k: nat)
    requires k < |at| && k < |m|
  {
    at[k] < |cells| && m[k].b == cells[at[k]].b && m[k].sep == SepOf(cells, at, k)
  }

  ghost predicate Says(cells: seq<Cell>, at: seq<nat>, m: seq<Mark>) {
    |m| == |at| && forall k: nat | k < |at| :: SaysAt(cells, at, m, k)
  }

  /** What the walk remembers at the end of `cells`. */
  ghost predicate Remembers(cells: seq<Cell>, at: seq<nat>, st: State) {
    && st.seen == (at != [])
    && (at != [] ==> at[|at| - 1] < |cells| && st.gap == Between(cells, at[|at| - 1], |cells|))
  }

  /**
   * The marks are the visible bytes in order, and each says how it is separated from the one before:
   * by a line break somewhere in between, by blanks alone, or not at all.
   */
  lemma {:induction false} MarksSay(cells: seq<Cell>)
    ensures Says(cells, InkPlaces(cells), Marks(cells, START))
    ensures Remembers(cells, InkPlaces(cells), Walk(cells, START))
    decreases |cells|
  {
    if cells != [] {
      var n := |cells| - 1;
      MarksSay(cells[..n]);
      assert cells == cells[..n] + [cells[n]];
      SaysOneMore(cells[..n], cells[n]);
    }
  }

  lemma {:induction false} SaysOneMore(front: seq<Cell>, last: Cell)
    requires Says(front, InkPlaces(front), Marks(front, START))
    requires Remembers(front, InkPlaces(front), Walk(front, START))
    ensures Says(front + [last], InkPlaces(front + [last]), Marks(front + [last], START))
    ensures Remembers(front + [last], InkPlaces(front + [last]), Walk(front + [last], START))
  {
    var at, m, st := InkPlaces(front), Marks(front, START), Walk(front, START);
    InkPlacesOfMore(front, last);
    WalkOne(front, last);
    if last.sym == Ink {
      SaysInk(front, last, at, m, st);
      RemembersInk(front, last, at, st);
    } else {
      assert at + [] == at;
      SaysLonger(front, last, at, m);
      RemembersLonger(front, last, at, st);
    }
  }

  lemma {:induction false} WalkOne(front: seq<Cell>, last: Cell)
    ensures var st := Walk(front, START);
            && Walk(front + [last], START) == Step(st, last.sym)
            && Marks(front + [last], START)
               == if last.sym == Ink then Marks(front, START) + [Mark(last.b, if st.seen then st.gap else First)]
                  else Marks(front, START)
  {
    WalkJoin(front, [last], START);
    assert [last][1..] == [];
  }

  lemma {:induction false} BetweenLonger(front: seq<Cell>, last: Cell, a: nat, z: nat)
    requires a < z <= |front|
    ensures Between(front + [last], a, z) == Between(front, a, z)
  {
    assert (front + [last])[a + 1..z] == front[a + 1..z];
  }

  lemma {:induction false} BetweenOneMore(front: seq<Cell>, last: Cell, a: nat)
    requires a < |front|
    ensures Between(front + [last], a, |front| + 1)
         == if last.sym == Break then Broken else Wider(Between(front, a, |front|))
  {
    assert (front + [last])[a + 1..|front| + 1] == front[a + 1..] + [last];
    assert front[a + 1..|front|] == front[a + 1..];
    BreakJoin(front[a + 1..], last);
  }

  lemma {:induction false} BreakJoin(x: seq<Cell>, c: Cell)
    ensures HasBreak(x + [c]) <==> HasBreak(x) || c.sym == Break
  {
    if HasBreak(x) {
      var i :| 0 <= i < |x| && x[i].sym == Break;
      assert (x + [c])[i].sym == Break;
    }
    if c.sym == Break { assert (x + [c])[|x|].sym == Break; }
  }

  /** One more byte behind changes nothing of what was said. */
  lemma {:induction false} SaysAtLonger(front: seq<Cell>, last: Cell, at: seq<nat>, m: seq<Mark>, k: nat)
    requires k < |at| && k < |m| && SaysAt(front, at, m, k)
    ensures SaysAt(front + [last], at, m, k)
  {
    if k > 0 && at[k - 1] < at[k] { BetweenLonger(front, last, at[k - 1], at[k]); }
  }

  lemma {:induction false} SaysLonger(front: seq<Cell>, last: Cell, at: seq<nat>, m: seq<Mark>)
    requires Says(front, at, m)
    ensures Says(front + [last], at, m)
  {
    forall k: nat | k < |at|
      ensures SaysAt(front + [last], at, m, k)
    {
      SaysAtLonger(front, last, at, m, k);
    }
  }

  lemma {:induction false} RemembersLonger(front: seq<Cell>, last: Cell, at: seq<nat>, st: State)
    requires Remembers(front, at, st) && last.sym != Ink
    ensures Remembers(front + [last], at, Step(st, last.sym))
  {
    if at != [] { BetweenOneMore(front, last, at[|at| - 1]); }
  }

  lemma {:induction false} SaysInk(front: seq<Cell>, last: Cell, at: seq<nat>, m: seq<Mark>, st: State)
    requires Says(front, at, m) && Remembers(front, at, st)
    ensures Says(front + [last], at + [|front|], m + [Mark(last.b, if st.seen then st.gap else First)])
  {
    var cells, all, marks := front + [last], at + [|front|], m + [Mark(last.b, if st.seen then st.gap else First)];
    forall k: nat | k < |all|
      ensures SaysAt(cells, all, marks, k)
    {
      if k < |at| {
        SaysAtLonger(front, last, at, m, k);
        SaysAtFront(cells, at, m, |front|, marks[|m|], k);
      } else {
        SaysLast(front, last, at, m, st);
      }
    }
  }

  /** A place and a mark behind others change nothing of what those say. */
  lemma {:induction false} SaysAtFront(cells: seq<Cell>, at: seq<nat>, m: seq<Mark>, x: nat, mark: Mark, k: nat)
    requires k < |at| == |m| && SaysAt(cells, at, m, k)
    ensures SaysAt(cells, at + [x], m + [mark], k)
  {
    assert (at + [x])[k] == at[k] && (k > 0 ==> (at + [x])[k - 1] == at[k - 1]);
  }

  /** The last mark says what the walk remembers. */
  lemma {:induction false} SaysLast(front: seq<Cell>, last: Cell, at: seq<nat>, m: seq<Mark>, st: State)
    requires Remembers(front, at, st) && |at| == |m|
    ensures SaysAt(front + [last], at + [|front|], m + [Mark(last.b, if st.seen then st.gap else First)], |at|)
  {
    if at != [] {
      BetweenLonger(front, last, at[|at| - 1], |front|);
      assert (at + [|front|])[|at| - 1] == at[|at| - 1];
    }
  }

  lemma {:induction false} RemembersInk(front: seq<Cell>, last: Cell, at: seq<nat>, st: State)
    ensures Remembers(front + [last], at + [|front|], Step(st, Ink))
  {
    assert (front + [last])[|front| + 1..|front| + 1] == [];
  }

  // ---- cutting a text where no separator is cut ----

  /** No separator reaches across `p`. */
  predicate CleanCut(s: Source, p: int) {
    !SeparatorAt(s, p - 1) && !SeparatorAt(s, p - 2)
  }

  /** `p` begins a line: the very start, or right behind a line break, and no terminator is cut there. */
  predicate LineBoundary(source: Source, p: nat) {
    p <= |source| && WholeTerminators(source, p) && (p == 0 || SymAt(source, p - 1) == Break)
  }

  /** No terminator reaches across `p`. */
  predicate WholeTerminators(source: Source, p: nat) {
    CleanCut(source, p) && !(0 < p < |source| && source[p - 1] == CR && source[p] == LF)
  }

  /** Cut cleanly, each side classifies its bytes as the whole does. */
  lemma {:induction false} CellsJoin(x: Source, y: Source)
    requires CleanCut(x + y, |x|)
    ensures Cells(x + y) == Cells(x) + Cells(y)
  {
    var s := x + y;
    forall i: int
      ensures i + 2 < |x| ==> SeparatorAt(s, i) == SeparatorAt(x, i)
      ensures i >= |x| ==> SeparatorAt(s, i) == SeparatorAt(y, i - |x|)
      ensures |x| - 2 <= i < |x| ==> !SeparatorAt(s, i)
    {
    }
    forall i | 0 <= i < |s|
      ensures Cells(s)[i] == (Cells(x) + Cells(y))[i]
    {
      if i < |x| {
        assert SymAt(s, i) == SymAt(x, i);
      } else {
        assert SymAt(s, i) == SymAt(y, i - |x|);
      }
    }
  }

  lemma {:induction false} CellsSlice(s: Source, a: nat, b: nat)
    requires a <= b <= |s| && CleanCut(s, a) && CleanCut(s, b)
    ensures Cells(s[a..b]) == Cells(s)[a..b]
  {
    var t := s[a..b];
    forall i: int
      ensures SeparatorAt(t, i) <==> 0 <= i && i + 2 < |t| && SeparatorAt(s, a + i)
    {
    }
    forall i | 0 <= i < |t|
      ensures Cells(t)[i] == Cells(s)[a..b][i]
    {
      assert InSeparator(t, i) ==> InSeparator(s, a + i);
      assert InSeparator(s, a + i) ==> InSeparator(t, i);
    }
  }

  // ---- a text with spans taken out of it ----

  /** `i` lies in one of the spans. */
  predicate Covered(spans: seq<ByteSpan>, i: int) {
    exists k :: 0 <= k < |spans| && spans[k].start <= i < spans[k].end
  }

  /** The text with every covered byte blanked, its line breaks left standing. */
  function Blanked(source: Source, spans: seq<ByteSpan>): (b: Source)
    ensures |b| == |source|
  {
    seq(|source|, i requires 0 <= i < |source| =>
      if Covered(spans, i) && SymAt(source, i) != Break then SPACE else source[i])
  }

  lemma {:induction false} BlankedSeparator(source: Source, spans: seq<ByteSpan>, i: int)
    ensures SeparatorAt(Blanked(source, spans), i) == SeparatorAt(source, i)
  {
    if SeparatorAt(source, i) {
      assert InSeparator(source, i) && InSeparator(source, i + 1) && InSeparator(source, i + 2);
    }
  }

  lemma {:induction false} BlankedSymAt(source: Source, spans: seq<ByteSpan>, i: nat)
    requires i < |source|
    ensures SymAt(Blanked(source, spans), i)
         == if Covered(spans, i) && SymAt(source, i) == Ink then Blank else SymAt(source, i)
  {
    BlankedSeparator(source, spans, i);
    BlankedSeparator(source, spans, i - 1);
    BlankedSeparator(source, spans, i - 2);
  }

  lemma {:induction false} BlankedSym(source: Source, spans: seq<ByteSpan>)
    ensures var b := Blanked(source, spans);
            forall i | 0 <= i < |source| ::
              SymAt(b, i) == if Covered(spans, i) && SymAt(source, i) == Ink then Blank else SymAt(source, i)
  {
    var b := Blanked(source, spans);
    forall i | 0 <= i < |source|
      ensures SymAt(b, i) == if Covered(spans, i) && SymAt(source, i) == Ink then Blank else SymAt(source, i)
    {
      BlankedSymAt(source, spans, i);
    }
  }

  /** What a walk over `b` remembers at `p`. */
  ghost function StateAt(b: Source, p: nat): State
    requires p <= |b|
  {
    Walk(Cells(b)[..p], START)
  }

  /** Nothing visible went by, or a line break since. */
  ghost predicate Fresh(st: State) {
    !st.seen || st.gap == Broken
  }

  /** Nothing visible went by, or a blank or a line break since. */
  ghost predicate Padded(st: State) {
    !st.seen || st.gap != Touching
  }

  /** The text ends at `p`, or a blank or a line break that no span covers stands there. */
  ghost predicate OpenGap(source: Source, spans: seq<ByteSpan>, p: nat) {
    p == |source| || (p < |source| && !Covered(spans, p) && SymAt(source, p) != Ink)
  }

  /**
   * The edit takes nothing visible and adds nothing visible, and a line break it takes is replaced or was not the only
   * one.
   */
  ghost predicate Discreet(source: Source, spans: seq<ByteSpan>, e: Edit) {
    var a, z, r := e.span.start, e.span.end, Cells(e.replacement);
    && a < z <= |source|
    && CleanCut(source, a) && CleanCut(source, z)
    && var b := Blanked(source, spans);
    var w := Cells(b)[a..z];
    && NoInk(w) && NoInk(r)
    && (HasBreak(r) ==> HasBreak(w))
    && (HasBreak(w) && !HasBreak(r) ==> Fresh(StateAt(b, a)))
  }

  /** Where the edit takes no line break, what it takes leaves something, or was not the only gap there. */
  ghost predicate Bridged(source: Source, spans: seq<ByteSpan>, e: Edit)
    requires e.span.start <= e.span.end <= |source|
  {
    var a, z, b := e.span.start, e.span.end, Blanked(source, spans);
    !HasBreak(Cells(b)[a..z]) ==>
      || e.replacement != []
      || OpenGap(source, spans, z)
      || Fresh(StateAt(b, a))
      || (Padded(StateAt(b, a)) && !OpenGap(source, spans, a))
  }

  /** One edit keeps the outline. */
  ghost predicate Faithful(source: Source, spans: seq<ByteSpan>, e: Edit) {
    Discreet(source, spans, e) && Bridged(source, spans, e)
  }

  ghost predicate AllFaithful(source: Source, spans: seq<ByteSpan>, edits: seq<Edit>) {
    forall e <- edits :: Faithful(source, spans, e)
  }

  /** The whole span lies in some edit. */
  ghost predicate Takes(edits: seq<Edit>, s: ByteSpan) {
    exists e <- edits :: e.span.start <= s.start && s.end <= e.span.end
  }

  ghost predicate Taken(spans: seq<ByteSpan>, edits: seq<Edit>) {
    forall k | 0 <= k < |spans| :: Takes(edits, spans[k])
  }

  // ---- two walks in step ----

  ghost predicate Same(a: State, b: State) {
    a.seen == b.seen && (a.seen ==> a.gap == b.gap)
  }

  /** In step, or about to be: the gap is still closed in the second walk, and a blank is next in both. */
  ghost predicate InStep(a: State, b: State, open: bool) {
    Same(a, b) || (a.seen && b.seen && a.gap == Spaced && b.gap == Touching && open)
  }

  lemma {:induction false} SameWalk(cells: seq<Cell>, a: State, b: State)
    requires Same(a, b)
    ensures Same(Walk(cells, a), Walk(cells, b)) && Marks(cells, a) == Marks(cells, b)
    decreases |cells|
  {
    if cells != [] { SameWalk(cells[1..], Step(a, cells[0].sym), Step(b, cells[0].sym)); }
  }

  /** A stretch that is kept as it is. */
  lemma {:induction false} InStepRun(cells: seq<Cell>, a: State, b: State, open: bool)
    requires InStep(a, b, open)
    requires cells != [] && open ==> cells[0].sym != Ink
    ensures Marks(cells, a) == Marks(cells, b)
    ensures if cells == [] then Walk(cells, a) == a && Walk(cells, b) == b else Same(Walk(cells, a), Walk(cells, b))
  {
    if cells != [] {
      SameWalk(cells[1..], Step(a, cells[0].sym), Step(b, cells[0].sym));
    }
  }

  /** A stretch that is replaced. */
  lemma {:induction false} InStepEdit(w: seq<Cell>, r: seq<Cell>, a: State, b: State, openBefore: bool, openAfter: bool)
    requires InStep(a, b, openBefore)
    requires w != [] && NoInk(w) && NoInk(r)
    requires HasBreak(r) ==> HasBreak(w)
    requires HasBreak(w) && !HasBreak(r) ==> Fresh(a)
    requires !HasBreak(w) ==> r != [] || openAfter || Fresh(a) || (Padded(a) && !openBefore)
    ensures InStep(Walk(w, a), Walk(r, b), openAfter)
  {
    WalkNoInk(w, a);
    WalkNoInk(r, b);
  }

  // ---- no separator comes into being at a seam ----

  /** Text without a visible byte begins with no byte a separator goes on with. */
  lemma {:induction false} CutBeforeNoInk(x: Source, y: Source)
    requires NoInk(Cells(y))
    ensures CleanCut(x + y, |x|)
  {
    if y != [] { assert Cells(y)[0].sym != Ink; }
  }

  /** Text that ends in no visible byte ends in no byte a separator begins with. */
  lemma {:induction false} CutAfterNoInk(x: Source, y: Source)
    requires x == [] || Cells(x)[|x| - 1].sym != Ink
    ensures CleanCut(x + y, |x|)
  {
    if x != [] { assert SymAt(x, |x| - 1) != Ink; }
  }

  /** A clean cut in front of a byte that is not visible in the whole is clean after any other text. */
  lemma {:induction false} CutBeforeGap(x: Source, s: Source, a: nat, z: nat)
    requires a < z <= |s| && CleanCut(s, a) && SymAt(s, a) != Ink
    ensures CleanCut(x + s[a..z], |x|)
  {
    assert s[a..z][0] == s[a];
  }

  /** The bytes outside the edits are the same in both texts. */
  ghost predicate AgreeOutside(source: Source, b: Source, edits: seq<Edit>, cursor: nat)
    requires |source| == |b| && Ordered(edits, cursor, |source|)
  {
    if edits == [] then source[cursor..] == b[cursor..]
    else
      && source[cursor..edits[0].span.start] == b[cursor..edits[0].span.start]
      && AgreeOutside(source, b, edits[1..], edits[0].span.end)
  }

  /** Between the edits already passed and the next one lies no edit. */
  lemma {:induction false} BesideTheGap(all: seq<Edit>, k: nat, cursor: nat, n: nat)
    requires k <= |all| && Ordered(all[k..], cursor, n)
    requires forall e <- all[..k] :: e.span.end <= cursor
    ensures forall e <- all :: e.span.end <= cursor || (k < |all| && e.span.start >= all[k].span.start)
  {
    OrderedBounds(all[k..], cursor, n);
    forall e | e in all
      ensures e.span.end <= cursor || (k < |all| && e.span.start >= all[k].span.start)
    {
      var m :| 0 <= m < |all| && all[m] == e;
      if m < k {
        assert all[..k][m] == e;
      } else {
        assert all[k..][m - k] == e && all[k..][0] == all[k];
      }
    }
  }

  lemma {:induction false} TakenAgrees(source: Source, spans: seq<ByteSpan>, all: seq<Edit>, k: nat, cursor: nat)
    requires k <= |all| && Ordered(all[k..], cursor, |source|)
    requires Taken(spans, all)
    requires forall e <- all[..k] :: e.span.end <= cursor
    ensures AgreeOutside(source, Blanked(source, spans), all[k..], cursor)
    decreases |all| - k
  {
    var b := Blanked(source, spans);
    var stop := if k < |all| then all[k].span.start else |source|;
    OrderedBounds(all[k..], cursor, |source|);
    BesideTheGap(all, k, cursor, |source|);
    forall i | cursor <= i < stop
      ensures source[i] == b[i]
    {
      assert !Covered(spans, i);
    }
    if k < |all| {
      assert all[k..][0] == all[k] && all[k..][1..] == all[k + 1..];
      assert all[..k + 1] == all[..k] + [all[k]];
      TakenAgrees(source, spans, all, k + 1, all[k].span.end);
    }
  }

  // ---- the theorem ----

  /** Where a walk over the blanked source and a walk over the output stand, `p` being written up to `cursor`. */
  ghost predicate Reached(source: Source, spans: seq<ByteSpan>, p: Source, cursor: nat) {
    && cursor <= |source| && CleanCut(source, cursor)
    && var b := Blanked(source, spans);
    && InStep(StateAt(b, cursor), Walk(Cells(p), START), OpenGap(source, spans, cursor))
    && (if cursor == 0 then p == [] else SymAt(b, cursor - 1) != Ink)
    && Outline(p) == Marks(Cells(b)[..cursor], START)
  }

  /** Copying a stretch through. */
  lemma {:induction false} ReachRun(source: Source, spans: seq<ByteSpan>, p: Source, cursor: nat, a: nat)
    requires Reached(source, spans, p, cursor)
    requires cursor <= a <= |source| && CleanCut(source, a)
    requires source[cursor..a] == Blanked(source, spans)[cursor..a]
    ensures var b := Blanked(source, spans);
            var p' := p + source[cursor..a];
            && InStep(StateAt(b, a), Walk(Cells(p'), START), OpenGap(source, spans, a))
            && Outline(p') == Marks(Cells(b)[..a], START)
            && Cells(p') == Cells(p) + Cells(b)[cursor..a]
  {
    RunCells(source, spans, p, cursor, a);
    RunOpens(source, spans, cursor, a);
    var b := Blanked(source, spans);
    WalkRun(Cells(b)[..cursor], Cells(p), Cells(b)[cursor..a], OpenGap(source, spans, cursor),
            OpenGap(source, spans, a));
    assert Cells(b)[..a] == Cells(b)[..cursor] + Cells(b)[cursor..a];
  }

  /** The bytes of the stretch are classified behind `p` as they are in the blanked source. */
  lemma {:induction false} RunCells(source: Source, spans: seq<ByteSpan>, p: Source, cursor: nat, a: nat)
    requires Reached(source, spans, p, cursor)
    requires cursor <= a <= |source| && CleanCut(source, a)
    requires source[cursor..a] == Blanked(source, spans)[cursor..a]
    ensures Cells(p + source[cursor..a]) == Cells(p) + Cells(Blanked(source, spans))[cursor..a]
  {
    var b := Blanked(source, spans);
    BlankedSym(source, spans);
    CellsSlice(b, cursor, a);
    RunJoinsCleanly(source, spans, p, cursor, a);
    CellsJoin(p, b[cursor..a]);
  }

  /** A stretch that begins in an open gap begins with no visible byte. */
  lemma {:induction false} RunOpens(source: Source, spans: seq<ByteSpan>, cursor: nat, a: nat)
    requires cursor <= a <= |source|
    ensures cursor < a && OpenGap(source, spans, cursor) ==> Cells(Blanked(source, spans))[cursor..a][0].sym != Ink
    ensures cursor == a ==> OpenGap(source, spans, cursor) == OpenGap(source, spans, a)
  {
    BlankedSym(source, spans);
  }

  /** Two walks in step go on in step over one stretch, and mark the same. */
  lemma {:induction false} WalkRun(x: seq<Cell>, y: seq<Cell>, run: seq<Cell>, open: bool, openAfter: bool)
    requires InStep(Walk(x, START), Walk(y, START), open) && Marks(x, START) == Marks(y, START)
    requires run != [] && open ==> run[0].sym != Ink
    requires run == [] ==> open == openAfter
    ensures InStep(Walk(x + run, START), Walk(y + run, START), openAfter)
    ensures Marks(x + run, START) == Marks(y + run, START)
  {
    WalkJoin(x, run, START);
    WalkJoin(y, run, START);
    InStepRun(run, Walk(x, START), Walk(y, START), open);
  }

  lemma {:induction false} RunJoinsCleanly(source: Source, spans: seq<ByteSpan>, p: Source, cursor: nat, a: nat)
    requires Reached(source, spans, p, cursor)
    requires cursor <= a <= |source|
    ensures CleanCut(p + Blanked(source, spans)[cursor..a], |p|)
  {
    var b := Blanked(source, spans);
    BlankedSym(source, spans);
    if cursor == a {
      assert p + b[cursor..a] == p;
    } else if SymAt(b, cursor) != Ink {
      CutBeforeGap(p, b, cursor, a);
    } else {
      RunEndsAlike(source, spans, p, cursor);
      CutAfterNoInk(p, b[cursor..a]);
    }
  }

  /** In front of a visible byte the text written ends in no visible byte. */
  lemma {:induction false} RunEndsAlike(source: Source, spans: seq<ByteSpan>, p: Source, cursor: nat)
    requires Reached(source, spans, p, cursor) && cursor < |source|
    requires SymAt(Blanked(source, spans), cursor) == Ink
    ensures p == [] || Cells(p)[|p| - 1].sym != Ink
  {
    hide Covered, Walk;
    var b := Blanked(source, spans);
    BlankedSym(source, spans);
    assert !OpenGap(source, spans, cursor);
    EndsAlike(Cells(b)[..cursor], Cells(p));
  }

  lemma {:induction false} EndsAlike(x: seq<Cell>, y: seq<Cell>)
    requires Same(Walk(x, START), Walk(y, START))
    requires x == [] ==> y == []
    requires x != [] ==> x[|x| - 1].sym != Ink
    ensures y == [] || y[|y| - 1].sym != Ink
  {
    WalkLast(x);
    WalkLast(y);
  }

  /** Two walks in step stay so over a stretch and what replaces it, and neither marks anything. */
  lemma {:induction false} WalkEdit(x: seq<Cell>, y: seq<Cell>, w: seq<Cell>, r: seq<Cell>, openBefore: bool,
                                    openAfter: bool)
    requires InStep(Walk(x, START), Walk(y, START), openBefore) && Marks(x, START) == Marks(y, START)
    requires w != [] && NoInk(w) && NoInk(r)
    requires HasBreak(r) ==> HasBreak(w)
    requires HasBreak(w) && !HasBreak(r) ==> Fresh(Walk(x, START))
    requires !HasBreak(w) ==> r != [] || openAfter || Fresh(Walk(x, START)) || (Padded(Walk(x, START)) && !openBefore)
    ensures InStep(Walk(x + w, START), Walk(y + r, START), openAfter)
    ensures Marks(x + w, START) == Marks(y + r, START)
  {
    WalkJoin(x, w, START);
    WalkJoin(y, r, START);
    InStepEdit(w, r, Walk(x, START), Walk(y, START), openBefore, openAfter);
    WalkNoInk(w, Walk(x, START));
    WalkNoInk(r, Walk(y, START));
  }

  /** Replacing a stretch. */
  lemma {:induction false} ReachEdit(source: Source, spans: seq<ByteSpan>, p: Source, e: Edit)
    requires Faithful(source, spans, e)
    requires var b, a := Blanked(source, spans), e.span.start;
             && InStep(StateAt(b, a), Walk(Cells(p), START), OpenGap(source, spans, a))
             && Outline(p) == Marks(Cells(b)[..a], START)
    ensures Reached(source, spans, p + e.replacement, e.span.end)
    ensures Cells(p + e.replacement) == Cells(p) + Cells(e.replacement)
  {
    hide Walk, Marks, Covered, CleanCut, NoInk, HasBreak, OpenGap, Fresh, Padded, InStep, Blanked;
    var b, a, z := Blanked(source, spans), e.span.start, e.span.end;
    var w, r := Cells(b)[a..z], Cells(e.replacement);
    CutBeforeNoInk(p, e.replacement);
    CellsJoin(p, e.replacement);
    assert Cells(b)[..z] == Cells(b)[..a] + w;
    assert r != [] <==> e.replacement != [];
    WalkEdit(Cells(b)[..a], Cells(p), w, r, OpenGap(source, spans, a), OpenGap(source, spans, z));
    NoInkAtEnd(b, a, z);
  }

  lemma {:induction false} NoInkAtEnd(b: Source, a: nat, z: nat)
    requires a < z <= |b| && NoInk(Cells(b)[a..z])
    ensures SymAt(b, z - 1) != Ink
  {
    assert Cells(b)[a..z][z - a - 1].sym == SymAt(b, z - 1);
  }

  /** One round: the stretch in front of the first edit copied through, the edit applied. */
  lemma {:induction false} ReachNext(source: Source, spans: seq<ByteSpan>, edits: seq<Edit>, p: Source, cursor: nat)
    requires Ordered(edits, cursor, |source|) && AllFaithful(source, spans, edits) && edits != []
    requires AgreeOutside(source, Blanked(source, spans), edits, cursor)
    requires Reached(source, spans, p, cursor)
    ensures var e, b := edits[0], Blanked(source, spans);
            var p1 := p + source[cursor..e.span.start];
            var p2 := p1 + e.replacement;
            && cursor <= e.span.start <= e.span.end <= |source|
            && Ordered(edits[1..], e.span.end, |source|) && AllFaithful(source, spans, edits[1..])
            && AgreeOutside(source, b, edits[1..], e.span.end)
            && Reached(source, spans, p2, e.span.end)
            && Cells(p1) == Cells(p) + Cells(b)[cursor..e.span.start]
            && Cells(p2) == Cells(p1) + Cells(e.replacement)
            && p + ApplyFrom(source, edits, cursor) == p2 + ApplyFrom(source, edits[1..], e.span.end)
  {
    var e := edits[0];
    OrderedBounds(edits, cursor, |source|);
    assert Faithful(source, spans, e);
    ReachRun(source, spans, p, cursor, e.span.start);
    var p' := p + source[cursor..e.span.start];
    ReachEdit(source, spans, p', e);
    ApplyUnfold(source, edits, cursor);
    Regroup(p, source[cursor..e.span.start], e.replacement, ApplyFrom(source, edits[1..], e.span.end));
  }

  /** The last round: the stretch behind every edit copied through. */
  lemma {:induction false} ReachEnd(source: Source, spans: seq<ByteSpan>, p: Source, cursor: nat)
    requires cursor <= |source| && AgreeOutside(source, Blanked(source, spans), [], cursor)
    requires Reached(source, spans, p, cursor)
    ensures var out, b := p + ApplyFrom(source, [], cursor), Blanked(source, spans);
            && out == p + source[cursor..|source|]
            && Outline(out) == Outline(b)
            && Cells(out) == Cells(p) + Cells(b)[cursor..|source|]
  {
    var b := Blanked(source, spans);
    assert source[cursor..|source|] == source[cursor..];
    assert b[cursor..|source|] == b[cursor..];
    ReachRun(source, spans, p, cursor, |source|);
    assert Cells(b)[..|source|] == Cells(b);
  }

  lemma {:induction false} FaithfulFrom(source: Source, spans: seq<ByteSpan>, edits: seq<Edit>, p: Source, cursor: nat)
    requires Ordered(edits, cursor, |source|) && AllFaithful(source, spans, edits)
    requires AgreeOutside(source, Blanked(source, spans), edits, cursor)
    requires Reached(source, spans, p, cursor)
    ensures Outline(p + ApplyFrom(source, edits, cursor)) == Outline(Blanked(source, spans))
    ensures Cells(p) <= Cells(p + ApplyFrom(source, edits, cursor))
    decreases |edits|
  {
    if edits == [] {
      ReachEnd(source, spans, p, cursor);
    } else {
      ReachNext(source, spans, edits, p, cursor);
      var e := edits[0];
      FaithfulFrom(source, spans, edits[1..], p + source[cursor..e.span.start] + e.replacement, e.span.end);
    }
  }

  /**
   * Edits that are each faithful, and between them take every span, make of the source a text with
   * the outline of the source with those spans blanked.
   */
  lemma {:induction false} FaithfulEditsKeepOutline(source: Source, spans: seq<ByteSpan>, edits: seq<Edit>)
    requires Ordered(edits, 0, |source|)
    requires AllFaithful(source, spans, edits) && Taken(spans, edits)
    ensures Outline(Apply(source, edits)) == Outline(Blanked(source, spans))
  {
    assert edits[0..] == edits;
    TakenAgrees(source, spans, edits, 0, 0);
    FaithfulFrom(source, spans, edits, [], 0);
    assert [] + Apply(source, edits) == Apply(source, edits);
  }
}
