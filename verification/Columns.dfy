/**
 * The `columns` layout: a removed comment leaves as many spaces as it was wide, so that everything behind
 * it stays in its display column. How wide a character displays is a parameter, `width`; a tab runs to the
 * next multiple of 8.
 */
module Columns {
  import opened Bytes
  import opened Commentwise
  import opened Edits
  import opened Erasures
  import opened Fusions
  import opened Layouts
  import opened LineNumbers
  import opened Outlines
  import opened Plans
  import opened Positions
  import opened Residues
  import opened Scanning
  import opened Seams

  // ---- what one step of the display covers ----

  /** A line terminator, a tab, a byte that is shown in one column, or a character of several bytes. */
  datatype Unit = Ending(bytes: Source) | Tab | One | Char(bytes: Source)

  function Len(u: Unit): nat {
    match u
    case Ending(bytes) => |bytes|
    case Tab => 1
    case One => 1
    case Char(bytes) => |bytes|
  }

  /** What begins at `i`, seen up to `end`. A byte that begins no character counts as one column. */
  function UnitAt(source: Source, i: nat, end: nat): (u: Unit)
    requires i < end <= |source|
    ensures 1 <= Len(u) <= end - i
  {
    var t := TerminatorWidth(source, i);
    if t.Some? && i + t.value <= end then Ending(source[i..i + t.value])
    else if source[i] == TAB then Tab
    else if source[i] <= 0x7F then One
    else
      match CharWidth(source[i..end])
      case Some(w) => Char(source[i..i + w])
      case None => One
  }

  /** The units of `source` from `i` up to `end`. */
  function Parse(source: Source, i: nat, end: nat): seq<Unit>
    requires i <= end <= |source|
    decreases end - i
  {
    if i == end then []
    else
      var u := UnitAt(source, i, end);
      [u] + Parse(source, i + Len(u), end)
  }

  /** The column behind a unit that begins in column `column`. */
  function After(u: Unit, column: nat, width: Source -> nat): nat {
    match u
    case Ending(_) => 0
    case Tab => column + (8 - column % 8)
    case One => column + 1
    case Char(bytes) => column + width(bytes)
  }

  function Spaces(n: nat): (s: Source)
    ensures |s| == n && forall i | 0 <= i < n :: s[i] == SPACE
  {
    if n == 0 then [] else [SPACE] + Spaces(n - 1)
  }

  /** What a unit leaves: a terminator itself, anything else as many spaces as it takes columns. */
  function Room(u: Unit, column: nat, width: Source -> nat): Source {
    if u.Ending? then u.bytes else Spaces(After(u, column, width) - column)
  }

  /**
   * How far a unit runs and what it leaves: a whole terminator goes back to the first column and stays; a tab runs to
   * the next multiple of 8; a character of several bytes is as wide as it displays; any other byte takes one column;
   * and of these spaces are left.
   */
  lemma {:induction false} UnitTakesColumns(source: Source, i: nat, end: nat, column: nat, width: Source -> nat)
    requires i < end <= |source|
    ensures var u, w := UnitAt(source, i, end), TerminatorWidth(source, i);
            var next, c := After(u, column, width), CharWidth(source[i..end]);
            if w.Some? && i + w.value <= end then
              Len(u) == w.value && next == 0 && Room(u, column, width) == source[i..i + w.value]
            else
              && (if source[i] == TAB then Len(u) == 1 && column < next <= column + 8 && next % 8 == 0
                  else if c.Some? && c.value > 1 then
                    Len(u) == c.value && next == column + width(source[i..i + c.value])
                  else Len(u) == 1 && next == column + 1)
              && |Room(u, column, width)| == next - column && forall b <- Room(u, column, width) :: b == SPACE
  {
    var column8 := column % 8;
    assert (column + (8 - column8)) % 8 == 0;
  }

  function ColumnBehind(units: seq<Unit>, column: nat, width: Source -> nat): nat {
    if units == [] then column else ColumnBehind(units[1..], After(units[0], column, width), width)
  }

  function RoomOf(units: seq<Unit>, column: nat, width: Source -> nat): Source {
    if units == [] then []
    else Room(units[0], column, width) + RoomOf(units[1..], After(units[0], column, width), width)
  }

  /** The same, written behind what was written before. */
  ghost function RoomBehind(units: seq<Unit>, column: nat, width: Source -> nat, output: Source): Source {
    if units == [] then output
    else RoomBehind(units[1..], After(units[0], column, width), width, output + Room(units[0], column, width))
  }

  lemma {:induction false} BehindStep(units: seq<Unit>, column: nat, width: Source -> nat, output: Source)
    requires units != []
    ensures var next := After(units[0], column, width);
            && RoomBehind(units, column, width, output)
               == RoomBehind(units[1..], next, width, output + Room(units[0], column, width))
            && ColumnBehind(units, column, width) == ColumnBehind(units[1..], next, width)
  {
  }

  lemma {:induction false} RoomIsBehind(units: seq<Unit>, column: nat, width: Source -> nat, output: Source)
    ensures RoomBehind(units, column, width, output) == output + RoomOf(units, column, width)
    decreases |units|
  {
    if units == [] {
      assert output + [] == output;
    } else {
      var room, next := Room(units[0], column, width), After(units[0], column, width);
      calc {
        RoomBehind(units, column, width, output);
        RoomBehind(units[1..], next, width, output + room);
        { RoomIsBehind(units[1..], next, width, output + room); }
        (output + room) + RoomOf(units[1..], next, width);
        output + (room + RoomOf(units[1..], next, width));
        output + RoomOf(units, column, width);
      }
    }
  }

  lemma {:induction false} ParseStep(source: Source, i: nat, end: nat)
    requires i < end <= |source|
    ensures var u := UnitAt(source, i, end);
            && Parse(source, i, end) != [] && Parse(source, i, end)[0] == u
            && Parse(source, i, end)[1..] == Parse(source, i + Len(u), end)
  {
  }

  /** The column at `end`, the one at `from` being `start`. */
  method AdvanceDisplayColumn(source: Source, from: nat, end: nat, start: nat, width: Source -> nat)
    returns (column: nat)
    requires from <= end <= |source|
    ensures column == ColumnBehind(Parse(source, from, end), start, width)
  {
    column := start;
    var index := from;
    while index < end
      invariant from <= index <= end
      invariant ColumnBehind(Parse(source, index, end), column, width)
                == ColumnBehind(Parse(source, from, end), start, width)
    {
      ParseStep(source, index, end);
      var u := UnitAt(source, index, end);
      column := After(u, column, width);
      index := index + Len(u);
    }
  }

  /** What a span leaves, beginning in column `start`, and the column behind it. */
  method ColumnReplacement(source: Source, span: ByteSpan, start: nat, width: Source -> nat)
    returns (output: Source, column: nat)
    requires span.start <= span.end <= |source|
    ensures output == RoomOf(Parse(source, span.start, span.end), start, width)
    ensures column == ColumnBehind(Parse(source, span.start, span.end), start, width)
  {
    hide UnitAt, After, Room;
    output, column := [], start;
    var index := span.start;
    ghost var units := Parse(source, span.start, span.end);
    while index < span.end
      invariant span.start <= index <= span.end
      invariant ColumnBehind(Parse(source, index, span.end), column, width) == ColumnBehind(units, start, width)
      invariant RoomBehind(Parse(source, index, span.end), column, width, output) == RoomBehind(units, start, width, [])
    {
      ParseStep(source, index, span.end);
      var u := UnitAt(source, index, span.end);
      BehindStep(Parse(source, index, span.end), column, width, output);
      output := output + Room(u, column, width);
      column := After(u, column, width);
      index := index + Len(u);
    }
    RoomIsBehind(units, start, width, []);
  }

  // ---- the display column ----

  /** The column behind `text`, set from column `column` on. */
  function Fold(text: Source, column: nat, width: Source -> nat): nat {
    ColumnBehind(Parse(text, 0, |text|), column, width)
  }

  /** The display column of offset `i`: the column behind everything in front of it. */
  function DisplayColumn(text: Source, i: nat, width: Source -> nat): nat
    requires i <= |text|
  {
    Fold(text[..i], 0, width)
  }

  lemma {:induction false} SliceBehind(source: Source, i: nat, end: nat, t: Source, j: nat, n: nat)
    requires i <= end <= |source| && j <= |t| && source[i..end] == t[j..] && n <= end - i
    ensures j + n <= |t| && source[i + n..end] == t[j + n..] && source[i..i + n] == t[j..j + n]
  {
    assert |source[i..end]| == |t[j..]|;
    assert source[i + n..end] == source[i..end][n..];
    assert t[j + n..] == t[j..][n..];
    assert source[i..i + n] == source[i..end][..n];
    assert t[j..j + n] == t[j..][..n];
  }

  /** What a unit is depends on the bytes up to `end`, and on no terminator being cut there. */
  lemma {:induction false} UnitIsLocal(source: Source, i: nat, end: nat, t: Source, j: nat)
    requires i < end <= |source| && j < |t| && source[i..end] == t[j..]
    requires WholeTerminators(source, end)
    ensures UnitAt(source, i, end) == UnitAt(t, j, |t|)
  {
    assert t[j..] == t[j..|t|];
    assert forall k | 0 <= k < end - i :: source[i..end][k] == t[j..][k];
    assert forall k | i <= k < end :: source[k] == source[i..end][k - i];
    SliceBehind(source, i, end, t, j, Len(UnitAt(source, i, end)));
  }

  lemma {:induction false} ParseIs(source: Source, i: nat, end: nat, u: Unit, rest: seq<Unit>)
    requires i < end <= |source| && u == UnitAt(source, i, end) && rest == Parse(source, i + Len(u), end)
    ensures Parse(source, i, end) == [u] + rest
  {
  }

  lemma {:induction false} ParseIsLocal(source: Source, i: nat, end: nat, t: Source, j: nat)
    requires i <= end <= |source| && j <= |t| && source[i..end] == t[j..]
    requires WholeTerminators(source, end)
    ensures Parse(source, i, end) == Parse(t, j, |t|)
    decreases end - i
  {
    hide UnitAt;
    assert |source[i..end]| == |t[j..]|;
    if i < end {
      var u := UnitAt(source, i, end);
      UnitIsLocal(source, i, end, t, j);
      SliceBehind(source, i, end, t, j, Len(u));
      ParseIsLocal(source, i + Len(u), end, t, j + Len(u));
      var rest := Parse(t, j + Len(u), |t|);
      ParseIs(source, i, end, u, rest);
      ParseIs(t, j, |t|, u, rest);
    }
  }

  // ---- texts set one behind the other ----

  /** No character begins in front of `m` and ends behind it. */
  ghost predicate NoCharAcross(s: Source, m: nat)
    requires m <= |s|
  {
    forall p: nat | p < m :: CharWidth(s[p..]).Some? ==> p + CharWidth(s[p..]).value <= m
  }

  lemma {:induction false} CharOfFront(x: Source, y: Source, i: nat)
    requires i < |x| && NoCharAcross(x + y, |x|)
    ensures CharWidth((x + y)[i..]) == CharWidth(x[i..|x|])
  {
    var s, t := (x + y)[i..], x[i..|x|];
    assert s == t + y;
    if CharWidth(s).Some? {
      assert t[..CharWidth(s).value] == s[..CharWidth(s).value];
      CharWidthIsLocal(s, t, CharWidth(s).value);
    } else if CharWidth(t).Some? {
      assert t[..CharWidth(t).value] == s[..CharWidth(t).value];
      CharWidthIsLocal(t, s, CharWidth(t).value);
    }
  }

  lemma {:induction false} SeparatorOfFront(x: Source, y: Source, i: nat)
    requires i < |x| && NoCharAcross(x + y, |x|)
    ensures SeparatorAt(x + y, i) == SeparatorAt(x, i)
  {
    var s := x + y;
    if SeparatorAt(s, i) {
      assert s[i..][0] == 0xE2 && s[i..][1] == 0x80 && s[i..][2] == s[i + 2];
      assert CharWidth(s[i..]) == Some(3);
    }
  }

  /** A unit of the front is a unit of the whole, but for a CRLF pair put together at the seam. */
  lemma {:induction false} UnitOfFront(x: Source, y: Source, i: nat)
    requires i < |x| && NoCharAcross(x + y, |x|)
    ensures || UnitAt(x + y, i, |x + y|) == UnitAt(x, i, |x|)
            || (i + 1 == |x| && x[i] == CR && y != [] && y[0] == LF)
  {
    var s := x + y;
    var u := UnitAt(x, i, |x|);
    assert s[i..|s|] == s[i..];
    assert s[i..i + Len(u)] == x[i..i + Len(u)];
    if x[i] > 0x7F { CharOfFront(x, y, i); SeparatorOfFront(x, y, i); }
  }

  /** A CRLF pair put together at the seam ends the line as its halves do. */
  lemma {:induction false} ColumnAtSeam(x: Source, y: Source, column: nat, width: Source -> nat)
    requires x != [] && y != [] && x[|x| - 1] == CR && y[0] == LF
    ensures ColumnBehind(Parse(x + y, |x| - 1, |x + y|), column, width)
         == ColumnBehind(Parse(y, 0, |y|), ColumnBehind(Parse(x, |x| - 1, |x|), column, width), width)
  {
    var s, i := x + y, |x| - 1;
    assert s[i] == CR && s[i + 1] == LF;
    ParseStep(s, i, |s|);
    ParseStep(x, i, |x|);
    ParseStep(y, 0, |y|);
    assert UnitAt(s, i, |s|).Ending? && Len(UnitAt(s, i, |s|)) == 2;
    assert UnitAt(x, i, |x|).Ending? && UnitAt(y, 0, |y|).Ending?;
    assert s[i + 2..|s|] == y[1..];
    ParseIsLocal(s, i + 2, |s|, y, 1);
  }

  lemma {:induction false} ColumnOfOneMore(u: Unit, rest: seq<Unit>, column: nat, width: Source -> nat)
    ensures ColumnBehind([u] + rest, column, width) == ColumnBehind(rest, After(u, column, width), width)
  {
    assert ([u] + rest)[1..] == rest;
  }

  lemma {:induction false} ColumnJoins(x: Source, y: Source, i: nat, column: nat, width: Source -> nat)
    requires i <= |x| && NoCharAcross(x + y, |x|)
    ensures ColumnBehind(Parse(x + y, i, |x + y|), column, width)
         == ColumnBehind(Parse(y, 0, |y|), ColumnBehind(Parse(x, i, |x|), column, width), width)
    decreases |x| - i
  {
    hide UnitAt;
    if i == |x| {
      ColumnAtEnd(x, y, column, width);
    } else {
      UnitOfFront(x, y, i);
      var u := UnitAt(x, i, |x|);
      if UnitAt(x + y, i, |x + y|) == u {
        var whole, front := Parse(x + y, i + Len(u), |x + y|), Parse(x, i + Len(u), |x|);
        ColumnJoins(x, y, i + Len(u), After(u, column, width), width);
        ParseIs(x + y, i, |x + y|, u, whole);
        ParseIs(x, i, |x|, u, front);
        ColumnOfOneMore(u, whole, column, width);
        ColumnOfOneMore(u, front, column, width);
      } else {
        ColumnAtSeam(x, y, column, width);
      }
    }
  }

  lemma {:induction false} ColumnAtEnd(x: Source, y: Source, column: nat, width: Source -> nat)
    ensures ColumnBehind(Parse(x + y, |x|, |x + y|), column, width)
         == ColumnBehind(Parse(y, 0, |y|), ColumnBehind(Parse(x, |x|, |x|), column, width), width)
  {
    assert (x + y)[|x|..|x + y|] == y[0..];
    ParseIsLocal(x + y, |x|, |x + y|, y, 0);
  }

  /** A text set behind another begins in the column the other ends in. */
  lemma {:induction false} FoldJoins(x: Source, y: Source, column: nat, width: Source -> nat)
    requires NoCharAcross(x + y, |x|)
    ensures Fold(x + y, column, width) == Fold(y, Fold(x, column, width), width)
  {
    ColumnJoins(x, y, 0, column, width);
  }

  // ---- seams no character crosses ----

  /** The text ends in an ASCII byte or in a whole separator: no character goes on behind it. */
  predicate EndsClosed(x: Source) {
    x != [] && (x[|x| - 1] <= 0x7F || SeparatorAt(x, |x| - 3))
  }

  lemma {:induction false} CharTails(s: Source, p: nat)
    requires p <= |s| && CharWidth(s[p..]).Some?
    ensures p + CharWidth(s[p..]).value <= |s|
    ensures forall j | p < j < p + CharWidth(s[p..]).value :: IsTail(s[j])
    ensures s[p] > 0x7F || CharWidth(s[p..]).value == 1
    ensures !IsTail(s[p]) && (s[p] == 0xE2 ==> CharWidth(s[p..]).value == 3)
  {
    var w := CharWidth(s[p..]).value;
    forall j | p < j < p + w
      ensures IsTail(s[j])
    {
      assert s[p..][j - p] == s[j];
    }
    assert s[p..][0] == s[p];
  }

  lemma {:induction false} ClosedSeam(x: Source, y: Source)
    requires x == [] || EndsClosed(x)
    ensures NoCharAcross(x + y, |x|)
  {
    var s := x + y;
    assert x != [] && x[|x| - 1] > 0x7F ==> SeparatorAt(s, |x| - 3);
    forall p: nat | p < |x| && CharWidth(s[p..]).Some?
      ensures p + CharWidth(s[p..]).value <= |x|
    {
      CharTails(s, p);
    }
  }

  lemma {:induction false} OpenSeam(x: Source, y: Source)
    requires y == [] || !IsTail(y[0])
    ensures NoCharAcross(x + y, |x|)
  {
    var s := x + y;
    forall p: nat | p < |x| && CharWidth(s[p..]).Some?
      ensures p + CharWidth(s[p..]).value <= |x|
    {
      CharTails(s, p);
    }
  }

  /** A prefix has no character across a cut the whole has none across. */
  lemma {:induction false} PrefixSeam(s: Source, m: nat, i: nat)
    requires m <= i <= |s| && NoCharAcross(s, m)
    ensures NoCharAcross(s[..i], m)
  {
    forall p: nat | p < m && CharWidth(s[..i][p..]).Some?
      ensures p + CharWidth(s[..i][p..]).value <= m
    {
      var w := CharWidth(s[..i][p..]).value;
      assert s[..i][p..][..w] == s[p..][..w];
      CharWidthIsLocal(s[..i][p..], s[p..], w);
    }
  }

  // ---- what a comment leaves ----

  lemma {:induction false} FoldOne(s: Source, column: nat, width: Source -> nat)
    requires s != [] && Len(UnitAt(s, 0, |s|)) == |s|
    ensures Fold(s, column, width) == After(UnitAt(s, 0, |s|), column, width)
  {
    ParseStep(s, 0, |s|);
    var u := UnitAt(s, 0, |s|);
    assert Parse(s, 0, |s|)[1..] == [];
    assert ColumnBehind([], After(u, column, width), width) == After(u, column, width);
  }

  lemma {:induction false} SpacesAdvance(n: nat, column: nat, width: Source -> nat)
    ensures Fold(Spaces(n), column, width) == column + n
    decreases n
  {
    if n > 0 {
      var s, t := Spaces(n), Spaces(n - 1);
      assert s == [SPACE] + t;
      ClosedSeam([SPACE], t);
      FoldJoins([SPACE], t, column, width);
      assert UnitAt([SPACE], 0, 1) == One;
      FoldOne([SPACE], column, width);
      SpacesAdvance(n - 1, column + 1, width);
    }
  }

  ghost predicate Joinable(room: Source) {
    room == [] || (EndsClosed(room) && !IsTail(room[0]))
  }

  ghost predicate FoldsTo(room: Source, column: nat, end: nat, width: Source -> nat) {
    Fold(room, column, width) == end && Joinable(room)
  }

  /** The bytes of an ending are one whole terminator. */
  ghost predicate IsUnit(u: Unit) {
    u.Ending? ==> TerminatorWidth(u.bytes, 0) == Some(|u.bytes|)
  }

  ghost predicate AreUnits(units: seq<Unit>) {
    forall k | 0 <= k < |units| :: IsUnit(units[k])
  }

  lemma {:induction false} ParseGivesUnits(source: Source, i: nat, end: nat)
    requires i <= end <= |source|
    ensures AreUnits(Parse(source, i, end))
    decreases end - i
  {
    if i < end {
      var u := UnitAt(source, i, end);
      assert IsUnit(u);
      ParseGivesUnits(source, i + Len(u), end);
    }
  }

  /** A unit and what it leaves take the same columns. */
  lemma {:induction false} RoomAdvances(u: Unit, column: nat, width: Source -> nat)
    requires IsUnit(u)
    ensures FoldsTo(Room(u, column, width), column, After(u, column, width), width)
  {
    if u.Ending? {
      assert UnitAt(u.bytes, 0, |u.bytes|) == u;
      FoldOne(u.bytes, column, width);
    } else {
      SpacesAdvance(After(u, column, width) - column, column, width);
    }
  }

  lemma {:induction false} FoldBehind(room: Source, rest: Source, column: nat, next: nat, end: nat,
                                      width: Source -> nat)
    requires FoldsTo(room, column, next, width) && FoldsTo(rest, next, end, width)
    ensures FoldsTo(room + rest, column, end, width)
  {
    ClosedSeam(room, rest);
    FoldJoins(room, rest, column, width);
    ClosedEnd(room, rest);
    if room == [] { assert room + rest == rest; } else { assert (room + rest)[0] == room[0]; }
  }

  lemma {:induction false} ClosedEnd(x: Source, y: Source)
    requires y == [] ==> x == [] || EndsClosed(x)
    requires y != [] ==> EndsClosed(y)
    ensures x + y == [] || EndsClosed(x + y)
  {
    if y == [] {
      assert x + y == x;
    } else if y[|y| - 1] > 0x7F {
      assert SeparatorAt(x + y, |x + y| - 3);
    }
  }

  /** What units leave takes the columns they took, and joins on to any text in front and behind. */
  lemma {:induction false} RoomFolds(units: seq<Unit>, column: nat, width: Source -> nat)
    requires AreUnits(units)
    ensures FoldsTo(RoomOf(units, column, width), column, ColumnBehind(units, column, width), width)
    decreases |units|
  {
    if units != [] {
      var next := After(units[0], column, width);
      RoomAdvances(units[0], column, width);
      RoomFolds(units[1..], next, width);
      FoldBehind(Room(units[0], column, width), RoomOf(units[1..], next, width), column, next,
                 ColumnBehind(units[1..], next, width), width);
    }
  }

  lemma {:induction false} SomethingLeft<T>(x: seq<T>, y: seq<T>)
    ensures x + y == [] <==> x == [] && y == []
  {
    if x != [] { assert (x + y)[0] == x[0]; }
    if y != [] { assert (x + y)[|x|] == y[0]; }
  }

  /** Whether anything is left does not depend on the column. */
  lemma {:induction false} RoomAnywhere(units: seq<Unit>, a: nat, b: nat, width: Source -> nat)
    requires AreUnits(units)
    ensures RoomOf(units, a, width) == [] <==> RoomOf(units, b, width) == []
    decreases |units|
  {
    if units != [] {
      var x, y := After(units[0], a, width), After(units[0], b, width);
      RoomAnywhere(units[1..], x, y, width);
      assert IsUnit(units[0]);
      SomethingLeft(Room(units[0], a, width), RoomOf(units[1..], x, width));
      SomethingLeft(Room(units[0], b, width), RoomOf(units[1..], y, width));
    }
  }

  // ---- the line breaks a comment leaves ----

  lemma {:induction false} HasBreakBytes(cells: seq<Cell>)
    ensures HasBreak(cells) <==> BreakBytes(cells) != []
    decreases |cells|
  {
    if cells != [] {
      HasBreakBytes(cells[1..]);
      if HasBreak(cells[1..]) {
        var k :| 0 <= k < |cells[1..]| && cells[1..][k].sym == Break;
        assert cells[k + 1].sym == Break;
      }
      if cells[0].sym != Break && HasBreak(cells) {
        var k :| 0 <= k < |cells| && cells[k].sym == Break;
        assert cells[1..][k - 1].sym == Break;
      }
    }
  }

  lemma {:induction false} NoBreakBytes(cells: seq<Cell>)
    requires forall k | 0 <= k < |cells| :: cells[k].sym != Break
    ensures BreakBytes(cells) == []
    decreases |cells|
  {
    if cells != [] { NoBreakBytes(cells[1..]); }
  }

  /** A unit that is no terminator holds no line break, and the cut behind any unit is clean. */
  lemma {:induction false} UnitBreaks(s: Source, i: nat)
    requires i < |s| && CleanCut(s, i)
    ensures var u := UnitAt(s, i, |s|);
            CleanCut(s, i + Len(u)) && (!u.Ending? ==> forall k | i <= k < i + Len(u) :: SymAt(s, k) != Break)
  {
    var u := UnitAt(s, i, |s|);
    if !u.Ending? {
      assert TerminatorWidth(s, i).None?;
      forall k | i < k < i + Len(u)
        ensures IsTail(s[k])
      {
        assert IsTail(s[i..|s|][k - i]);
      }
      TailsAreNoBreak(s, i, i + Len(u));
    }
  }

  /** A character that begins behind a whole terminator, and is none, holds none. */
  lemma {:induction false} TailsAreNoBreak(s: Source, i: nat, z: nat)
    requires i < z <= |s| && CleanCut(s, i) && TerminatorWidth(s, i).None?
    requires forall k | i < k < z :: IsTail(s[k])
    ensures CleanCut(s, z) && forall k | i <= k < z :: SymAt(s, k) != Break
  {
  }

  lemma {:induction false} SpacesShowNothing(n: nat, rest: Source)
    requires NoInk(Cells(rest))
    ensures NoInk(Cells(Spaces(n) + rest))
    ensures BreakBytes(Cells(Spaces(n) + rest)) == BreakBytes(Cells(rest))
    ensures NoLoneCR(rest) ==> NoLoneCR(Spaces(n) + rest)
  {
    CutBeforeNoInk(Spaces(n), rest);
    CellsJoin(Spaces(n), rest);
    NoBreakBytes(Cells(Spaces(n)));
    BreakBytesJoin(Cells(Spaces(n)), Cells(rest));
  }

  lemma {:induction false} EndingShows(s: Source, i: nat, w: nat, rest: Source)
    requires TerminatorWidth(s, i) == Some(w) && CleanCut(s, i) && NoInk(Cells(rest))
    requires BreakBytes(Cells(rest)) == BreakBytes(Cells(s)[i + w..])
    ensures NoInk(Cells(s[i..i + w] + rest))
    ensures BreakBytes(Cells(s[i..i + w] + rest)) == BreakBytes(Cells(s)[i..])
  {
    TerminatorCells(s, i);
    TerminatorKeepsBreaks(s, i, w, rest);
    CutBeforeNoInk(s[i..i + w], rest);
    CellsJoin(s[i..i + w], rest);
  }

  lemma {:induction false} EndingHasNoLoneCR(s: Source, i: nat, w: nat, rest: Source)
    requires TerminatorWidth(s, i) == Some(w) && NoLoneCR(s) && NoLoneCR(rest)
    ensures NoLoneCR(s[i..i + w] + rest)
  {
    NoLoneCRJoin(s[i..i + w], rest);
  }

  /** `room` shows nothing, and has the line breaks `s` has from `i` on. */
  ghost predicate Bare(s: Source, i: nat, room: Source) {
    && i <= |s| && CleanCut(s, i)
    && NoInk(Cells(room)) && BreakBytes(Cells(room)) == BreakBytes(Cells(s)[i..])
    && (NoLoneCR(s) ==> NoLoneCR(room))
  }

  lemma {:induction false} BareEnding(s: Source, i: nat, w: nat, rest: Source)
    requires TerminatorWidth(s, i) == Some(w) && CleanCut(s, i) && Bare(s, i + w, rest)
    ensures Bare(s, i, s[i..i + w] + rest)
  {
    EndingShows(s, i, w, rest);
    if NoLoneCR(s) { EndingHasNoLoneCR(s, i, w, rest); }
  }

  lemma {:induction false} BareSpaces(s: Source, i: nat, n: nat, k: nat, rest: Source)
    requires i <= i + n <= |s| && CleanCut(s, i) && Bare(s, i + n, rest)
    requires forall j | i <= j < i + n :: SymAt(s, j) != Break
    ensures Bare(s, i, Spaces(k) + rest)
  {
    SpacesShowNothing(k, rest);
    SkipBreaks(s, i, n);
  }

  lemma {:induction false} BareInFront(s: Source, i: nat, u: Unit, column: nat, width: Source -> nat, rest: Source)
    requires i < |s| && CleanCut(s, i) && u == UnitAt(s, i, |s|) && Bare(s, i + Len(u), rest)
    ensures Bare(s, i, Room(u, column, width) + rest)
  {
    if u.Ending? {
      BareEnding(s, i, |u.bytes|, rest);
    } else {
      UnitBreaks(s, i);
      BareSpaces(s, i, Len(u), After(u, column, width) - column, rest);
    }
  }

  /** What a stretch leaves shows nothing, and has the line breaks the stretch had. */
  lemma {:induction false} RoomShowsNothing(s: Source, i: nat, column: nat, width: Source -> nat)
    requires i <= |s| && CleanCut(s, i)
    ensures Bare(s, i, RoomOf(Parse(s, i, |s|), column, width))
    decreases |s| - i
  {
    if i < |s| {
      var u := UnitAt(s, i, |s|);
      var next := After(u, column, width);
      UnitBreaks(s, i);
      ParseStep(s, i, |s|);
      RoomShowsNothing(s, i + Len(u), next, width);
      BareInFront(s, i, u, column, width, RoomOf(Parse(s, i + Len(u), |s|), next, width));
    }
  }

  lemma {:induction false} SkipBreaks(s: Source, i: nat, n: nat)
    requires i + n <= |s| && forall k | i <= k < i + n :: SymAt(s, k) != Break
    ensures BreakBytes(Cells(s)[i..]) == BreakBytes(Cells(s)[i + n..])
  {
    NoBreakBytes(Cells(s)[i..i + n]);
    BreakBytesJoin(Cells(s)[i..i + n], Cells(s)[i + n..]);
    assert Cells(s)[i..] == Cells(s)[i..i + n] + Cells(s)[i + n..];
  }

  // ---- a removal keeps the columns behind it ----

  /** No continuation byte stands at `z`. */
  predicate NoTailAt(source: Source, z: nat) {
    z < |source| ==> !IsTail(source[z])
  }

  /** The column in front of `cursor` is the one behind what was written, and no character crosses either seam. */
  ghost predicate Placed(source: Source, p: Source, cursor: nat, width: Source -> nat) {
    && cursor <= |source| && NoCharAcross(source, cursor)
    && (p == [] || EndsClosed(p) || NoTailAt(source, cursor))
    && Fold(p, 0, width) == DisplayColumn(source, cursor, width)
  }

  /** A stretch copied through begins and ends where it did. */
  lemma {:induction false} RunKeepsColumn(source: Source, p: Source, cursor: nat, i: nat, width: Source -> nat)
    requires Placed(source, p, cursor, width) && cursor <= i <= |source|
    ensures Fold(p + source[cursor..i], 0, width) == DisplayColumn(source, i, width)
  {
    var run := source[cursor..i];
    if p == [] || EndsClosed(p) { ClosedSeam(p, run); } else { OpenSeam(p, run); }
    FoldJoins(p, run, 0, width);
    PrefixSeam(source, cursor, i);
    assert source[..i] == source[..cursor] + run;
    FoldJoins(source[..cursor], run, 0, width);
  }

  /** The column at the end of a span is the one behind its start, run through the span. */
  lemma {:induction false} ColumnThrough(source: Source, a: nat, z: nat, width: Source -> nat)
    requires a <= z <= |source| && NoCharAcross(source, a) && WholeTerminators(source, z)
    ensures ColumnBehind(Parse(source, a, z), DisplayColumn(source, a, width), width) == DisplayColumn(source, z, width)
  {
    PrefixSeam(source, a, z);
    assert source[..z] == source[..a] + source[a..z];
    FoldJoins(source[..a], source[a..z], 0, width);
    assert source[a..z] == source[a..z][0..];
    ParseIsLocal(source, a, z, source[a..z], 0);
  }

  /** The edit leaves room for what it takes; if that is none, no character goes on behind it. */
  ghost predicate KeepsRoom(source: Source, e: Edit, width: Source -> nat) {
    var a, z := e.span.start, e.span.end;
    && a <= z <= |source|
    && NoCharAcross(source, a) && NoCharAcross(source, z) && WholeTerminators(source, z)
    && e.replacement == RoomOf(Parse(source, a, z), DisplayColumn(source, a, width), width)
    && (e.replacement == [] ==> NoTailAt(source, z))
  }

  lemma {:induction false} EditKeepsColumn(source: Source, x: Source, e: Edit, width: Source -> nat)
    requires KeepsRoom(source, e, width) && Fold(x, 0, width) == DisplayColumn(source, e.span.start, width)
    ensures Placed(source, x + e.replacement, e.span.end, width)
  {
    var a, z, r := e.span.start, e.span.end, e.replacement;
    ParseGivesUnits(source, a, z);
    RoomFolds(Parse(source, a, z), DisplayColumn(source, a, width), width);
    ColumnThrough(source, a, z, width);
    OpenSeam(x, r);
    FoldJoins(x, r, 0, width);
    if r != [] { ClosedEnd(x, r); }
  }

  /** Byte `k` of `out` is byte `i` of the source, in the same display column. */
  ghost predicate SameColumn(source: Source, out: Source, k: int, i: nat, width: Source -> nat) {
    && i < |source| && 0 <= k < |out| && out[k] == source[i]
    && DisplayColumn(out, k, width) == DisplayColumn(source, i, width)
  }

  lemma {:induction false} InRunKeepsColumn(source: Source, p: Source, cursor: nat, stop: nat, i: nat, rest: Source,
                                            width: Source -> nat)
    requires Placed(source, p, cursor, width) && cursor <= i < stop <= |source|
    ensures SameColumn(source, p + (source[cursor..stop] + rest), |p| + i - cursor, i, width)
  {
    var out, k := p + (source[cursor..stop] + rest), |p| + i - cursor;
    assert out[..k] == p + source[cursor..i];
    RunKeepsColumn(source, p, cursor, i, width);
  }

  /** One round: the stretch in front of the first edit copied through, the edit applied. */
  lemma {:induction false} NextPlaced(source: Source, edits: seq<Edit>, p: Source, cursor: nat, width: Source -> nat)
    requires Ordered(edits, cursor, |source|) && edits != [] && KeepsRoom(source, edits[0], width)
    requires Placed(source, p, cursor, width)
    ensures var e := edits[0];
            var next := p + source[cursor..e.span.start] + e.replacement;
            && Placed(source, next, e.span.end, width)
            && p + ApplyFrom(source, edits, cursor) == next + ApplyFrom(source, edits[1..], e.span.end)
  {
    var e := edits[0];
    ApplyUnfold(source, edits, cursor);
    RunKeepsColumn(source, p, cursor, e.span.start, width);
    EditKeepsColumn(source, p + source[cursor..e.span.start], e, width);
    Regroup(p, source[cursor..e.span.start], e.replacement, ApplyFrom(source, edits[1..], e.span.end));
  }

  /** A byte in front of the first edit. */
  lemma {:induction false} FirstKeepsColumn(source: Source, edits: seq<Edit>, p: Source, cursor: nat, i: nat,
                                            out: Source, width: Source -> nat)
    requires Ordered(edits, cursor, |source|) && Placed(source, p, cursor, width)
    requires cursor <= i < if edits == [] then |source| else edits[0].span.start
    requires out == p + ApplyFrom(source, edits, cursor)
    ensures SameColumn(source, out, |p| + i - cursor, i, width)
  {
    if edits == [] {
      assert source[cursor..|source|] + [] == source[cursor..];
      InRunKeepsColumn(source, p, cursor, |source|, i, [], width);
    } else {
      var e := edits[0];
      ApplyUnfold(source, edits, cursor);
      InRunKeepsColumn(source, p, cursor, e.span.start, i, e.replacement + ApplyFrom(source, edits[1..], e.span.end),
                       width);
    }
  }

  /** Edits that keep room keep the display column of every byte they leave. */
  lemma {:induction false} SurvivorKeepsColumn(source: Source, edits: seq<Edit>, p: Source, cursor: nat, i: nat,
                                               out: Source, width: Source -> nat)
    requires Ordered(edits, cursor, |source|) && forall e <- edits :: KeepsRoom(source, e, width)
    requires Placed(source, p, cursor, width) && cursor <= i < |source| && Survives(edits, i)
    requires out == p + ApplyFrom(source, edits, cursor)
    ensures SameColumn(source, out, |p| + Landed(edits, i) - cursor, i, width)
    decreases |edits|
  {
    hide KeepsRoom, Placed, SameColumn;
    if edits == [] || i < edits[0].span.start {
      FirstKeepsColumn(source, edits, p, cursor, i, out, width);
    } else {
      var e := edits[0];
      assert e in edits;
      NextPlaced(source, edits, p, cursor, width);
      SurvivorKeepsColumn(source, edits[1..], p + source[cursor..e.span.start] + e.replacement, e.span.end, i, out,
                          width);
    }
  }

  // ---- the layout ----

  /**
   * A comment whose removal keeps every place: it cuts no terminator and no character; and if it takes up no room,
   * no continuation byte stands behind it.
   */
  ghost predicate Columned(source: Source, c: Comment, width: Source -> nat) {
    && c.what.kind != HtmlComment
    && c.span.start < c.span.end <= |source|
    && WholeTerminators(source, c.span.start) && WholeTerminators(source, c.span.end)
    && NoCharAcross(source, c.span.start) && NoCharAcross(source, c.span.end)
    && (RoomOf(Parse(source, c.span.start, c.span.end), 0, width) == [] ==> NoTailAt(source, c.span.end))
  }

  ghost predicate Columnable(source: Source, comments: seq<Comment>, width: Source -> nat) {
    forall c <- comments :: c.what.disposition == Keep || (Removes(c) && Columned(source, c, width))
  }

  /** The comments that take up no room: nothing is left of them. */
  ghost function Roomless(source: Source, comments: seq<Comment>, width: Source -> nat): set<nat> {
    set i: nat
      | i < |comments| && comments[i].span.start <= comments[i].span.end <= |source|
        && RoomOf(Parse(source, comments[i].span.start, comments[i].span.end), 0, width) == []
  }

  /** What is left of a comment shows nothing and has its line breaks; whether it is anything depends on no column. */
  lemma {:induction false} ColumnEditShows(source: Source, s: ByteSpan, column: nat, width: Source -> nat)
    requires s.start <= s.end <= |source| && WholeTerminators(source, s.start) && WholeTerminators(source, s.end)
    ensures Bare(source[s.start..s.end], 0, RoomOf(Parse(source, s.start, s.end), column, width))
    ensures RoomOf(Parse(source, s.start, s.end), column, width) == []
       <==> RoomOf(Parse(source, s.start, s.end), 0, width) == []
  {
    var slice := source[s.start..s.end];
    assert slice == slice[0..];
    ParseIsLocal(source, s.start, s.end, slice, 0);
    RoomShowsNothing(slice, 0, column, width);
    ParseGivesUnits(source, s.start, s.end);
    RoomAnywhere(Parse(source, s.start, s.end), 0, column, width);
  }

  lemma {:induction false} ColumnEditIsTight(source: Source, comments: seq<Comment>, i: nat, column: nat,
                                             width: Source -> nat)
    requires InOrder(comments, |source|) && Cuttable(source, comments) && i < |comments| && Removes(comments[i])
    ensures var s := comments[i].span;
            var e := Edit(s, RoomOf(Parse(source, s.start, s.end), column, width));
            && Discreet(source, RemovedSpans(comments), e)
            && Tight(source, comments, Roomless(source, comments, width), e)
  {
    var s := comments[i].span;
    var r := RoomOf(Parse(source, s.start, s.end), column, width);
    assert comments[i] in comments;
    ColumnEditShows(source, s, column, width);
    RemovedSpansHold(comments);
    CommentCells(source, RemovedSpans(comments), s);
    var slice := Cells(source[s.start..s.end]);
    assert slice[0..] == slice;
    HasBreakBytes(slice);
    HasBreakBytes(Cells(r));
    if r == [] { assert TakesJust(comments, Roomless(source, comments, width), i, Edit(s, r)); }
  }

  lemma {:induction false} ColumnEditKeepsBreaks(source: Source, s: ByteSpan, column: nat, width: Source -> nat)
    requires s.start <= s.end <= |source| && WholeTerminators(source, s.start) && WholeTerminators(source, s.end)
    ensures var e := Edit(s, RoomOf(Parse(source, s.start, s.end), column, width));
            && KeepsBreaks(source, e) && NoInk(Cells(e.replacement))
            && (NoLoneCR(source) ==> KeepsPairs(source, e))
  {
    ColumnEditShows(source, s, column, width);
    CellsSlice(source, s.start, s.end);
    var slice := Cells(source[s.start..s.end]);
    assert slice[0..] == slice;
    if NoLoneCR(source) { NoLoneCRSlice(source, s.start, s.end); }
  }

  /** Where the planner stands in front of comment `i`: the column it carries is the one at `cursor`. */
  ghost predicate Carried(source: Source, edits: seq<Edit>, cursor: nat, column: nat, width: Source -> nat) {
    && cursor <= |source| && NoCharAcross(source, cursor)
    && column == DisplayColumn(source, cursor, width)
    && forall e <- edits :: KeepsRoom(source, e, width)
  }

  /** Running on from the column carried gives the column at the start of the next comment. */
  lemma {:induction false} CarriedOn(source: Source, edits: seq<Edit>, cursor: nat, column: nat, to: nat,
                                     width: Source -> nat)
    requires Carried(source, edits, cursor, column, width) && cursor <= to <= |source| && WholeTerminators(source, to)
    ensures ColumnBehind(Parse(source, cursor, to), column, width) == DisplayColumn(source, to, width)
  {
    ColumnThrough(source, cursor, to, width);
  }

  /** The column comment `i` begins in, counted on from the last removal in front of it. */
  ghost function ColumnOf(source: Source, comments: seq<Comment>, swallow: seq<Option<ByteSpan>>, i: nat,
                          width: Source -> nat): nat
    requires InOrder(comments, |source|) && SwallowFits(comments, swallow, |source|) && i < |comments|
    decreases i, 1
  {
    FloorFits(comments, swallow, |source|, i);
    ColumnBehind(Parse(source, FloorOf(comments, swallow, i), comments[i].span.start),
                 ColumnCarried(source, comments, swallow, i, width), width)
  }

  /**
   * The column behind the last removal among the first `n` comments. An HTML comment leaves nothing, so
   * what follows it stands in the column it began in; a swallowed line leaves the start of another.
   */
  ghost function ColumnCarried(source: Source, comments: seq<Comment>, swallow: seq<Option<ByteSpan>>, n: nat,
                               width: Source -> nat): nat
    requires InOrder(comments, |source|) && SwallowFits(comments, swallow, |source|) && n <= |comments|
    decreases n, 0
  {
    if n == 0 then 0
    else
      var c := comments[n - 1];
      if !Removes(c) then ColumnCarried(source, comments, swallow, n - 1, width)
      else if SwallowAt(swallow, n - 1).Some? then 0
      else
        var at := ColumnOf(source, comments, swallow, n - 1, width);
        if c.what.kind == HtmlComment then at else ColumnBehind(Parse(source, c.span.start, c.span.end), at, width)
  }

  /** What `columns` makes of a comment that is not kept. */
  ghost function ColumnEditOf(source: Source, comments: seq<Comment>, swallow: seq<Option<ByteSpan>>, i: nat,
                              width: Source -> nat): Edit
    requires InOrder(comments, |source|) && SwallowFits(comments, swallow, |source|) && i < |comments|
  {
    var c := comments[i];
    if c.what.disposition.Rewrite? then Edit(c.span, c.what.disposition.replacement)
    else if SwallowAt(swallow, i).Some? then SwallowEdit(comments, swallow, i)
    else
      Edit(c.span,
           if c.what.kind == HtmlComment then []
           else RoomOf(Parse(source, c.span.start, c.span.end), ColumnOf(source, comments, swallow, i, width), width))
  }

  /** One edit for each of the first `n` comments that is not kept, in their order. */
  ghost function ColumnPlan(source: Source, comments: seq<Comment>, swallow: seq<Option<ByteSpan>>, n: nat,
                            width: Source -> nat): seq<Edit>
    requires InOrder(comments, |source|) && SwallowFits(comments, swallow, |source|) && n <= |comments|
  {
    if n == 0 then []
    else
      ColumnPlan(source, comments, swallow, n - 1, width)
      + (if comments[n - 1].what.disposition == Keep then []
         else [ColumnEditOf(source, comments, swallow, n - 1, width)])
  }

  /** Every edit of the plan is the edit of a comment. */
  lemma {:induction false} ColumnPlanOnly(source: Source, comments: seq<Comment>, swallow: seq<Option<ByteSpan>>,
                                          n: nat, width: Source -> nat, e: Edit)
    returns (i: nat)
    requires InOrder(comments, |source|) && SwallowFits(comments, swallow, |source|) && n <= |comments|
    requires e in ColumnPlan(source, comments, swallow, n, width)
    ensures i < n && comments[i].what.disposition != Keep && e == ColumnEditOf(source, comments, swallow, i, width)
  {
    if e in ColumnPlan(source, comments, swallow, n - 1, width) {
      i := ColumnPlanOnly(source, comments, swallow, n - 1, width, e);
    } else {
      i := n - 1;
    }
  }

  /** Every comment that is not kept has its edit in the plan. */
  lemma {:induction false} ColumnPlanHas(source: Source, comments: seq<Comment>, swallow: seq<Option<ByteSpan>>,
                                         n: nat, width: Source -> nat, i: nat)
    requires InOrder(comments, |source|) && SwallowFits(comments, swallow, |source|) && i < n <= |comments|
    requires comments[i].what.disposition != Keep
    ensures ColumnEditOf(source, comments, swallow, i, width) in ColumnPlan(source, comments, swallow, n, width)
  {
    hide ColumnEditOf, InOrder, SwallowFits;
    if i < n - 1 { ColumnPlanHas(source, comments, swallow, n - 1, width, i); }
  }

  lemma {:induction false} ColumnPlanHolds(source: Source, comments: seq<Comment>, swallow: seq<Option<ByteSpan>>,
                                           n: nat, width: Source -> nat)
    requires InOrder(comments, |source|) && SwallowFits(comments, swallow, |source|) && n <= |comments|
    ensures Planned(source, comments, n, ColumnPlan(source, comments, swallow, n, width), FloorOf(comments, swallow, n))
  {
    if n > 0 {
      var i, c := n - 1, comments[n - 1];
      var edits, floor := ColumnPlan(source, comments, swallow, i, width), FloorOf(comments, swallow, i);
      ColumnPlanHolds(source, comments, swallow, i, width);
      hide Planned;
      match c.what.disposition {
      case Keep =>
        PlanKeep(source, comments, i, edits, floor);
        assert edits + [] == edits;
      case Rewrite(_) => PlanRewrite(source, comments, i, edits, floor);
      case Remove =>
        ColumnRemovalFits(source, comments, swallow, i, edits, floor, width);
        PlanRemove(source, comments, i, edits, floor, ColumnEditOf(source, comments, swallow, i, width));
      }
    }
  }

  lemma {:induction false} ColumnRemovalFits(source: Source, comments: seq<Comment>, swallow: seq<Option<ByteSpan>>,
                                             i: nat, edits: seq<Edit>, floor: nat, width: Source -> nat)
    requires InOrder(comments, |source|) && SwallowFits(comments, swallow, |source|)
    requires i < |comments| && Planned(source, comments, i, edits, floor) && Removes(comments[i])
    requires floor == FloorOf(comments, swallow, i)
    ensures var e := ColumnEditOf(source, comments, swallow, i, width);
            && LastEnd(edits) <= e.span.start <= comments[i].span.start
            && comments[i].span.end <= e.span.end <= StartOf(comments, i + 1, |source|)
  {
    if SwallowAt(swallow, i).Some? {
      SwallowedEdit(source, comments, swallow, i, edits, floor);
    } else {
      RoomBefore(source, comments, i, edits, floor);
    }
  }

  /** Every edit of the plan takes nothing visible but comments, and leaves a gap where it leaves anything. */
  lemma {:induction false} ColumnPlanIsTight(source: Source, comments: seq<Comment>, swallow: seq<Option<ByteSpan>>,
                                             width: Source -> nat)
    requires InOrder(comments, |source|) && SwallowFits(comments, swallow, |source|)
    requires Cuttable(source, comments) && SwallowsWholeLines(source, comments, swallow)
    ensures var edits := ColumnPlan(source, comments, swallow, |comments|, width);
            && AllDiscreet(source, RemovedSpans(comments), edits)
            && AllTight(source, comments, Roomless(source, comments, width), edits)
  {
    forall e | e in ColumnPlan(source, comments, swallow, |comments|, width)
      ensures Discreet(source, RemovedSpans(comments), e)
              && Tight(source, comments, Roomless(source, comments, width), e)
    {
      var i := ColumnPlanOnly(source, comments, swallow, |comments|, width, e);
      assert comments[i] in comments;
      if SwallowAt(swallow, i).Some? {
        SwallowEditIsFaithful(source, comments, Roomless(source, comments, width), swallow, i);
      } else {
        ColumnEditIsTight(source, comments, i, ColumnOf(source, comments, swallow, i, width), width);
      }
    }
  }

  /** The column carried is the column at the end of the last removal, and the edits keep columns. */
  lemma {:induction false} ColumnsAreCarried(source: Source, comments: seq<Comment>, swallow: seq<Option<ByteSpan>>,
                                             n: nat, width: Source -> nat)
    requires InOrder(comments, |source|) && SwallowFits(comments, swallow, |source|) && n <= |comments|
    requires Columnable(source, comments, width) && NoSwallow(comments, swallow)
    ensures var edits := ColumnPlan(source, comments, swallow, n, width);
            && Carried(source, edits, FloorOf(comments, swallow, n),
                       ColumnCarried(source, comments, swallow, n, width), width)
  {
    hide Carried, ColumnOf, ColumnBehind, RoomOf, Parse, Columned;
    if n == 0 {
      CarriedStart(source, width);
    } else {
      var edits := ColumnPlan(source, comments, swallow, n - 1, width);
      ColumnsAreCarried(source, comments, swallow, n - 1, width);
      assert comments[n - 1] in comments;
      if Removes(comments[n - 1]) {
        CarriedNext(source, comments, swallow, n - 1, width);
      } else {
        assert edits + [] == edits;
      }
    }
  }

  lemma {:induction false} CarriedNext(source: Source, comments: seq<Comment>, swallow: seq<Option<ByteSpan>>, i: nat,
                                       width: Source -> nat)
    requires InOrder(comments, |source|) && SwallowFits(comments, swallow, |source|) && i < |comments|
             && Removes(comments[i])
    requires SwallowAt(swallow, i).None? && Columned(source, comments[i], width)
    requires var edits := ColumnPlan(source, comments, swallow, i, width);
             && Carried(source, edits, FloorOf(comments, swallow, i),
                        ColumnCarried(source, comments, swallow, i, width), width)
    ensures var edits := ColumnPlan(source, comments, swallow, i + 1, width);
            && Carried(source, edits, FloorOf(comments, swallow, i + 1),
                       ColumnCarried(source, comments, swallow, i + 1, width), width)
  {
    hide Carried, ColumnBehind, RoomOf, Parse, DisplayColumn;
    var c, edits, cursor := comments[i], ColumnPlan(source, comments, swallow, i, width), FloorOf(comments, swallow, i);
    var column, at := ColumnCarried(source, comments, swallow, i, width), ColumnOf(source, comments, swallow, i, width);
    FloorFits(comments, swallow, |source|, i);
    FloorInSource(source, edits, cursor, column, width);
    CarriedOn(source, edits, cursor, column, c.span.start, width);
    ColumnCarriedBehind(source, edits, cursor, column, c, at, width);
  }

  lemma {:induction false} CarriedStart(source: Source, width: Source -> nat)
    ensures Carried(source, [], 0, 0, width)
  {
  }

  lemma {:induction false} FloorInSource(source: Source, edits: seq<Edit>, cursor: nat, column: nat,
                                         width: Source -> nat)
    requires Carried(source, edits, cursor, column, width)
    ensures cursor <= |source|
  {
  }

  lemma {:induction false} ColumnCarriedBehind(source: Source, edits: seq<Edit>, cursor: nat, column: nat, c: Comment,
                                               at: nat, width: Source -> nat)
    requires Carried(source, edits, cursor, column, width) && Columned(source, c, width)
    requires at == DisplayColumn(source, c.span.start, width)
    ensures var units := Parse(source, c.span.start, c.span.end);
            Carried(source, edits + [Edit(c.span, RoomOf(units, at, width))], c.span.end,
                    ColumnBehind(units, at, width), width)
  {
    ColumnThrough(source, c.span.start, c.span.end, width);
    ColumnEditShows(source, c.span, at, width);
  }

  /** The edit for one removed comment, and the column behind it. */
  method ColumnEdit(source: Source, comments: seq<Comment>, index: nat, swallow: seq<Option<ByteSpan>>, cursor: nat,
                    column: nat, width: Source -> nat)
    returns (edit: Edit, next: nat)
    requires InOrder(comments, |source|) && SwallowFits(comments, swallow, |source|)
    requires index < |comments| && Removes(comments[index])
    requires cursor == FloorOf(comments, swallow, index)
             && column == ColumnCarried(source, comments, swallow, index, width)
    ensures edit == ColumnEditOf(source, comments, swallow, index, width)
    ensures next == ColumnCarried(source, comments, swallow, index + 1, width)
  {
    var comment := comments[index];
    var line := SwallowAt(swallow, index);
    if line.Some? { return Edit(ByteSpan(Max(line.value.start, cursor), line.value.end), []), 0; }
    FloorFits(comments, swallow, |source|, index);
    next := AdvanceDisplayColumn(source, cursor, comment.span.start, column, width);
    var replacement := [];
    if comment.what.kind != HtmlComment {
      replacement, next := ColumnReplacement(source, comment.span, next, width);
    }
    edit := Edit(comment.span, replacement);
  }

  lemma {:induction false} ColumnEditIsClean(source: Source, c: Comment, at: nat, width: Source -> nat)
    requires Columned(source, c, width)
    ensures var e := Edit(c.span, RoomOf(Parse(source, c.span.start, c.span.end), at, width));
            KeepsBreaks(source, e) && CleanSeam(source, e) && (NoLoneCR(source) ==> KeepsPairs(source, e))
  {
    hide RoomOf, Parse, KeepsBreaks, KeepsPairs, NoLoneCR, NoCharAcross;
    ColumnEditKeepsBreaks(source, c.span, at, width);
    ColumnEditShows(source, c.span, at, width);
    if c.span.end < |source| { assert source[c.span.end..][0] == source[c.span.end]; }
  }

  /** With no line swallowed the edits write back the line breaks they take, and put no separator together. */
  lemma {:induction false} ColumnPlanKeepsBreaks(source: Source, comments: seq<Comment>, swallow: seq<Option<ByteSpan>>,
                                                 width: Source -> nat)
    requires InOrder(comments, |source|) && SwallowFits(comments, swallow, |source|)
    requires Columnable(source, comments, width) && NoSwallow(comments, swallow)
    ensures var edits := ColumnPlan(source, comments, swallow, |comments|, width);
            && AllKeepBreaks(source, edits) && CleanSeams(source, edits)
            && (NoLoneCR(source) ==> forall e <- edits :: KeepsPairs(source, e))
  {
    hide KeepsBreaks, CleanSeam, KeepsPairs, NoLoneCR, NoCharAcross, RoomOf, Parse;
    forall e | e in ColumnPlan(source, comments, swallow, |comments|, width)
      ensures KeepsBreaks(source, e) && CleanSeam(source, e) && (NoLoneCR(source) ==> KeepsPairs(source, e))
    {
      var i := ColumnPlanOnly(source, comments, swallow, |comments|, width, e);
      assert comments[i] in comments && SwallowAt(swallow, i).None?;
      ColumnEditIsClean(source, comments[i], ColumnOf(source, comments, swallow, i, width), width);
    }
  }

  /** The comments of a run that takes up no room leave nothing. */
  lemma {:induction false} RoomlessRun(source: Source, comments: seq<Comment>, swallow: seq<Option<ByteSpan>>,
                                       width: Source -> nat, i: nat, j: nat)
    requires InOrder(comments, |source|) && SwallowFits(comments, swallow, |source|)
    requires Cuttable(source, comments) && SwallowsWholeLines(source, comments, swallow)
    requires Fuses(source, comments, Roomless(source, comments, width), i, j)
    ensures LeavesNothing(comments, ColumnPlan(source, comments, swallow, |comments|, width), i, j)
  {
    hide RoomOf, Parse, ColumnOf, ColumnPlan, WholeTerminators, IsCode, Unbroken;
    forall m | i <= m <= j
      ensures Edit(comments[m].span, []) in ColumnPlan(source, comments, swallow, |comments|, width)
    {
      assert comments[m] in comments;
      RunIsNotSwallowed(source, comments, Roomless(source, comments, width), swallow, i, j, m);
      ColumnEditShows(source, comments[m].span, ColumnOf(source, comments, swallow, m, width), width);
      ColumnPlanHas(source, comments, swallow, |comments|, width, m);
    }
  }

  /**
   * For comments that are kept, or removed and no HTML comments, and cut no terminator, `columns` keeps the
   * outline if and only if no run of comments that take up no room touches code in front and behind.
   */
  lemma {:induction false} ColumnsKeepOutline(source: Source, comments: seq<Comment>, swallow: seq<Option<ByteSpan>>,
                                              width: Source -> nat)
    requires InOrder(comments, |source|) && SwallowFits(comments, swallow, |source|)
    requires Cuttable(source, comments) && SwallowsWholeLines(source, comments, swallow)
    ensures var edits := ColumnPlan(source, comments, swallow, |comments|, width);
            && Ordered(edits, 0, |source|)
            && (Outline(Apply(source, edits)) == RemainingOutline(source, comments)
                <==> NoneFuses(source, comments, Roomless(source, comments, width)))
  {
    var edits, idle := ColumnPlan(source, comments, swallow, |comments|, width), Roomless(source, comments, width);
    ColumnPlanHolds(source, comments, swallow, |comments|, width);
    ColumnPlanIsTight(source, comments, swallow, width);
    if NoneFuses(source, comments, idle) {
      TightPlanKeepsOutline(source, comments, idle, edits, FloorOf(comments, swallow, |comments|));
    } else {
      var i: nat, j: nat :| Fuses(source, comments, idle, i, j);
      RoomlessRun(source, comments, swallow, width, i, j);
      TakenAll(comments, edits);
      FusedRunLosesOutline(source, comments, idle, edits, i, j);
    }
  }

  /** A byte that stays keeps its display column, and moves up only by the pairs put together in front of it. */
  ghost predicate StaysInPlace(source: Source, out: Source, k: int, i: nat, width: Source -> nat) {
    SameColumn(source, out, k, i, width) && MovedByPairs(source, out, k, i)
    && (NoLoneCR(source) ==> SameLine(source, out, k, i))
  }

  /** With no line swallowed all line breaks are left, and every byte that stays keeps its place. */
  lemma {:induction false} ColumnsKeepPlaces(source: Source, comments: seq<Comment>, swallow: seq<Option<ByteSpan>>,
                                             width: Source -> nat)
    requires InOrder(comments, |source|) && SwallowFits(comments, swallow, |source|)
    requires Columnable(source, comments, width) && NoSwallow(comments, swallow)
    ensures var edits := ColumnPlan(source, comments, swallow, |comments|, width);
            && Ordered(edits, 0, |source|)
            && BreakBytes(Cells(Apply(source, edits))) == BreakBytes(Cells(source))
            && forall i: nat | i < |source| && Survives(edits, i) ::
                 StaysInPlace(source, Apply(source, edits), Landed(edits, i), i, width)
  {
    var edits := ColumnPlan(source, comments, swallow, |comments|, width);
    ColumnPlanHolds(source, comments, swallow, |comments|, width);
    ColumnPlanKeepsBreaks(source, comments, swallow, width);
    EditsKeepBreaks(source, edits);
    ColumnsAreCarried(source, comments, swallow, |comments|, width);
    ColumnsAreKept(source, edits, width);
    forall i: nat | i < |source| && Survives(edits, i)
      ensures StaysInPlace(source, Apply(source, edits), Landed(edits, i), i, width)
    {
      SurvivorKeepsLine(source, edits, i);
      if NoLoneCR(source) { PairedSurvivorKeepsLine(source, edits, i); }
    }
  }

  // ---- what every comment leaves ----

  /**
   * What comment `k` leaves under `columns`: its replacement, nothing if it is an HTML comment, and otherwise room as
   * wide as it is, from the column it begins in.
   */
  ghost function ColumnSays(source: Source, comments: seq<Comment>, swallow: seq<Option<ByteSpan>>,
                            width: Source -> nat): nat -> Source
    requires InOrder(comments, |source|) && SwallowFits(comments, swallow, |source|)
  {
    (k: nat) =>
      if k >= |comments| then []
      else
        var c := comments[k];
        if c.what.disposition.Rewrite? then c.what.disposition.replacement
        else if c.what.kind == HtmlComment then []
        else RoomOf(Parse(source, c.span.start, c.span.end), ColumnOf(source, comments, swallow, k, width), width)
  }

  /** The text `columns` makes is what the bytes and the comments leave, and swallowed lines leave nothing. */
  lemma {:induction false} ColumnsSay(source: Source, comments: seq<Comment>, swallow: seq<Option<ByteSpan>>,
                                      width: Source -> nat)
    requires InOrder(comments, |source|) && SwallowFits(comments, swallow, |source|)
    ensures Ordered(ColumnPlan(source, comments, swallow, |comments|, width), 0, |source|)
    ensures Apply(source, ColumnPlan(source, comments, swallow, |comments|, width))
         == RestIn(Said(source, comments, swallow, ColumnSays(source, comments, swallow, width)), 0, |source|)
  {
    hide RoomOf, Parse, ColumnOf;
    var edits := ColumnPlan(source, comments, swallow, |comments|, width);
    var says := ColumnSays(source, comments, swallow, width);
    ColumnPlanHolds(source, comments, swallow, |comments|, width);
    forall e | e in edits
      ensures exists k: nat :: IsEditOf(comments, swallow, says, k, e)
    {
      var k := ColumnPlanOnly(source, comments, swallow, |comments|, width, e);
      assert IsEditOf(comments, swallow, says, k, e);
    }
    forall k: nat | k < |comments| && comments[k].what.disposition != Keep
      ensures exists e <- edits :: IsEditOf(comments, swallow, says, k, e)
    {
      ColumnPlanHas(source, comments, swallow, |comments|, width, k);
      assert IsEditOf(comments, swallow, says, k, ColumnEditOf(source, comments, swallow, k, width));
    }
    PlanSays(source, comments, swallow, says, edits);
  }

  /**
   * What stands in front of the place where the last of the first `n` comments to be removed ended: the source
   * without its removed HTML comments, from the last swallowed line on.
   */
  ghost function Ahead(source: Source, comments: seq<Comment>, swallow: seq<Option<ByteSpan>>, n: nat): Source
    requires InOrder(comments, |source|) && SwallowFits(comments, swallow, |source|) && n <= |comments|
  {
    if n == 0 then []
    else
      var c := comments[n - 1];
      if !Removes(c) then Ahead(source, comments, swallow, n - 1)
      else if SwallowAt(swallow, n - 1).Some? then []
      else
        FloorFits(comments, swallow, |source|, n - 1);
        Ahead(source, comments, swallow, n - 1)
        + source[FloorOf(comments, swallow, n - 1)..if c.what.kind == HtmlComment then c.span.start else c.span.end]
  }

  /** Removed comments cut no terminator, and no continuation byte stands where one begins or behind one. */
  ghost predicate CutsNoChar(source: Source, comments: seq<Comment>) {
    forall c <- comments | Removes(c) ::
      && WholeTerminators(source, c.span.start) && WholeTerminators(source, c.span.end)
      && NoTailAt(source, c.span.start) && NoTailAt(source, c.span.end)
  }

  lemma {:induction false} RunsOn(source: Source, p: Source, a: nat, z: nat, column: nat, width: Source -> nat)
    requires a <= z <= |source| && WholeTerminators(source, z) && (p == [] || a == z || NoTailAt(source, a))
    requires column == Fold(p, 0, width)
    ensures ColumnBehind(Parse(source, a, z), column, width) == Fold(p + source[a..z], 0, width)
  {
    var run := source[a..z];
    if p == [] {
      assert p + run == run;
    } else {
      OpenSeam(p, run);
      FoldJoins(p, run, 0, width);
    }
    assert run == run[0..];
    ParseIsLocal(source, a, z, run, 0);
  }

  /**
   * The column carried from one removal to the next is the column behind the text without its HTML comments, and so
   * is the column a comment begins in.
   */
  lemma {:induction false} HtmlTakesNoColumn(source: Source, comments: seq<Comment>, swallow: seq<Option<ByteSpan>>,
                                             n: nat, width: Source -> nat)
    requires InOrder(comments, |source|) && SwallowFits(comments, swallow, |source|) && n <= |comments|
    requires CutsNoChar(source, comments)
    ensures ColumnCarried(source, comments, swallow, n, width) == Fold(Ahead(source, comments, swallow, n), 0, width)
    ensures n < |comments| && Removes(comments[n]) ==>
              FloorOf(comments, swallow, n) <= comments[n].span.start
              && ColumnOf(source, comments, swallow, n, width)
                 == Fold(Ahead(source, comments, swallow, n)
                         + source[FloorOf(comments, swallow, n)..comments[n].span.start], 0, width)
  {
    hide ColumnBehind, Parse, Fold, WholeTerminators, NoTailAt, SwallowFits;
    FloorFits(comments, swallow, |source|, n);
    if n == 0 {
      NothingAhead(width);
    } else {
      var c := comments[n - 1];
      assert c in comments;
      HtmlTakesNoColumn(source, comments, swallow, n - 1, width);
      FloorFits(comments, swallow, |source|, n - 1);
      if Removes(c) {
        if SwallowAt(swallow, n - 1).Some? {
          NothingAhead(width);
        } else if c.what.kind != HtmlComment {
          var p, f := Ahead(source, comments, swallow, n - 1), FloorOf(comments, swallow, n - 1);
          RunsOn(source, p + source[f..c.span.start], c.span.start, c.span.end,
                 ColumnOf(source, comments, swallow, n - 1, width), width);
          assert (p + source[f..c.span.start]) + source[c.span.start..c.span.end] == p + source[f..c.span.end];
        }
      }
    }
    if n < |comments| && Removes(comments[n]) {
      assert comments[n] in comments;
      FloorIsOpen(source, comments, swallow, n);
      RunsOn(source, Ahead(source, comments, swallow, n), FloorOf(comments, swallow, n), comments[n].span.start,
             ColumnCarried(source, comments, swallow, n, width), width);
    }
  }

  lemma {:induction false} NothingAhead(width: Source -> nat)
    ensures Fold([], 0, width) == 0
  {
  }

  /** Behind the last removal no continuation byte stands, unless nothing is carried on. */
  lemma {:induction false} FloorIsOpen(source: Source, comments: seq<Comment>, swallow: seq<Option<ByteSpan>>, n: nat)
    requires InOrder(comments, |source|) && SwallowFits(comments, swallow, |source|) && n <= |comments|
    requires CutsNoChar(source, comments)
    ensures Ahead(source, comments, swallow, n) == [] || NoTailAt(source, FloorOf(comments, swallow, n))
  {
    if n > 0 {
      assert comments[n - 1] in comments;
      FloorIsOpen(source, comments, swallow, n - 1);
    }
  }

  // ---- what is kept of the bytes ----

  /** A unit that is no terminator holds no byte that ends a line, if the text cuts none where it ends. */
  lemma {:induction false} UnitHoldsNoEnding(source: Source, i: nat, end: nat)
    requires i < end <= |source| && WholeTerminators(source, end) && !UnitAt(source, i, end).Ending?
    ensures Endings(source[i..i + Len(UnitAt(source, i, end))]) == []
  {
    var u := UnitAt(source, i, end);
    var s := source[i..i + Len(u)];
    assert s[0] == source[i] && !IsEnding(source[i]);
    forall k | 0 <= k < |s|
      ensures !IsEnding(s[k])
    {
      if k > 0 { assert IsTail(source[i..end][k]); }
    }
    KeptNone(s, IsEnding);
  }

  /**
   * What a stretch leaves has its carriage returns and line feeds, and nothing else that is not a space or a separator.
   */
  lemma {:induction false} RoomKeepsEndings(source: Source, i: nat, end: nat, column: nat, width: Source -> nat)
    requires i <= end <= |source| && WholeTerminators(source, end)
    ensures Endings(RoomOf(Parse(source, i, end), column, width)) == Endings(source[i..end])
    decreases end - i
  {
    if i < end {
      hide UnitAt, After;
      var u := UnitAt(source, i, end);
      var next := After(u, column, width);
      ParseStep(source, i, end);
      RoomKeepsEndings(source, i + Len(u), end, next, width);
      UnitKeepsEndings(source, i, end, column, width);
      KeptJoin(Room(u, column, width), RoomOf(Parse(source, i + Len(u), end), next, width), IsEnding);
      assert source[i..end] == source[i..i + Len(u)] + source[i + Len(u)..end];
      KeptJoin(source[i..i + Len(u)], source[i + Len(u)..end], IsEnding);
    }
  }

  lemma {:induction false} UnitKeepsEndings(source: Source, i: nat, end: nat, column: nat, width: Source -> nat)
    requires i < end <= |source| && WholeTerminators(source, end)
    ensures var u := UnitAt(source, i, end);
            Endings(Room(u, column, width)) == Endings(source[i..i + Len(u)])
  {
    var u := UnitAt(source, i, end);
    if !u.Ending? {
      UnitHoldsNoEnding(source, i, end);
      KeptNone(Room(u, column, width), IsEnding);
    }
  }

  lemma {:induction false} UnitLeavesWhite(source: Source, i: nat, end: nat, column: nat, width: Source -> nat)
    requires i < end <= |source| && NoSeparators(source)
    ensures AllWhite(Room(UnitAt(source, i, end), column, width))
  {
    if UnitAt(source, i, end).Ending? { TerminatorIsWhite(source, i); }
  }

  lemma {:induction false} NoRoomIsWhite(source: Source, i: nat, column: nat, width: Source -> nat)
    requires i <= |source|
    ensures AllWhite(RoomOf(Parse(source, i, i), column, width))
  {
  }

  lemma {:induction false} RoomIsWhite(source: Source, i: nat, end: nat, column: nat, width: Source -> nat)
    requires i <= end <= |source| && NoSeparators(source)
    ensures AllWhite(RoomOf(Parse(source, i, end), column, width))
    decreases end - i
  {
    hide UnitAt, After, AllWhite, Room, NoSeparators, Parse;
    if i == end {
      NoRoomIsWhite(source, i, column, width);
    } else {
      var u := UnitAt(source, i, end);
      var next := After(u, column, width);
      ParseStep(source, i, end);
      RoomIsWhite(source, i + Len(u), end, next, width);
      UnitLeavesWhite(source, i, end, column, width);
      WhiteJoin(Room(u, column, width), RoomOf(Parse(source, i + Len(u), end), next, width));
    }
  }

  /** With no line swallowed and no HTML comment removed, all carriage returns and line feeds are left, in order. */
  lemma {:induction false} ColumnsKeepEndings(source: Source, comments: seq<Comment>, swallow: seq<Option<ByteSpan>>,
                                              width: Source -> nat)
    requires InOrder(comments, |source|) && SwallowFits(comments, swallow, |source|)
    requires Cuttable(source, comments) && NoSwallow(comments, swallow)
    ensures var edits := ColumnPlan(source, comments, swallow, |comments|, width);
            Ordered(edits, 0, |source|) && Endings(Apply(source, edits)) == Endings(source)
  {
    var edits := ColumnPlan(source, comments, swallow, |comments|, width);
    ColumnPlanHolds(source, comments, swallow, |comments|, width);
    forall e | e in edits
      ensures KeepsEndings(source, e)
    {
      var i := ColumnPlanOnly(source, comments, swallow, |comments|, width, e);
      assert comments[i] in comments && SwallowAt(swallow, i).None?;
      RoomKeepsEndings(source, e.span.start, e.span.end, ColumnOf(source, comments, swallow, i, width), width);
    }
    EndingsAreKept(source, edits);
  }

  /** Erasing white space from the output leaves what erasing it and the removed comments from the source leaves. */
  lemma {:induction false} ColumnsKeepSolid(source: Source, comments: seq<Comment>, swallow: seq<Option<ByteSpan>>,
                                            width: Source -> nat)
    requires InOrder(comments, |source|) && SwallowFits(comments, swallow, |source|)
    requires NoRewrites(comments) && SwallowsWholeLines(source, comments, swallow) && NoSeparators(source)
    ensures var edits := ColumnPlan(source, comments, swallow, |comments|, width);
            && Ordered(edits, 0, |source|)
            && Solid(Apply(source, edits)) == Solid(Blanked(source, RemovedSpans(comments)))
  {
    var edits := ColumnPlan(source, comments, swallow, |comments|, width);
    ColumnPlanHolds(source, comments, swallow, |comments|, width);
    forall e | e in edits
      ensures TakesNoSolid(source, RemovedSpans(comments), e)
    {
      var i := ColumnPlanOnly(source, comments, swallow, |comments|, width, e);
      assert comments[i] in comments && FitsAt(comments, swallow, |source|, i);
      if SwallowAt(swallow, i).Some? {
        FloorFits(comments, swallow, |source|, i);
        SwallowTakesNoSolid(source, comments, swallow, i, e.span.start);
      } else {
        var s := comments[i].span;
        RoomIsWhite(source, s.start, s.end, ColumnOf(source, comments, swallow, i, width), width);
        CommentTakesNoSolid(source, comments, i, e.replacement);
      }
    }
    PlanKeepsSolid(source, comments, edits);
  }

  // ---- the planner ----

  /**
   * The edits of the `columns` layout, one for every comment that is not kept: sorted and disjoint whatever
   * the comments, and what they make is what the bytes and the comments leave; where all are kept or removed, leaving
   * every byte outside removed comments that is not white.
   * For comments that are no HTML comments and cut no terminator they leave the outline, if and only if no run of
   * comments that take up no room touches code in front and behind. With no line swallowed and no character cut or
   * put together all line breaks are left, every byte that stays keeps its display column, and it moves up by as many
   * lines as carriage returns and line feeds come together in front of it, which is none where no carriage return
   * stood alone.
   */
  method ColumnEdits(source: Source, comments: seq<Comment>, swallow: seq<Option<ByteSpan>>, width: Source -> nat)
    returns (edits: seq<Edit>)
    requires InOrder(comments, |source|) && SwallowFits(comments, swallow, |source|)
    ensures edits == ColumnPlan(source, comments, swallow, |comments|, width)
    ensures Ordered(edits, 0, |source|)
    ensures Apply(source, edits)
         == RestIn(Said(source, comments, swallow, ColumnSays(source, comments, swallow, width)), 0, |source|)
    ensures NoRewrites(comments) && SwallowsWholeLines(source, comments, swallow) && NoSeparators(source) ==>
              Solid(Apply(source, edits)) == Solid(Blanked(source, RemovedSpans(comments)))
    ensures Cuttable(source, comments) && NoSwallow(comments, swallow) ==>
              Endings(Apply(source, edits)) == Endings(source)
    ensures Cuttable(source, comments) && SwallowsWholeLines(source, comments, swallow) ==>
              (Outline(Apply(source, edits)) == RemainingOutline(source, comments)
               <==> NoneFuses(source, comments, Roomless(source, comments, width)))
    ensures Columnable(source, comments, width) && NoSwallow(comments, swallow) ==>
              && BreakBytes(Cells(Apply(source, edits))) == BreakBytes(Cells(source))
              && forall i: nat | i < |source| && Survives(edits, i) ::
                   StaysInPlace(source, Apply(source, edits), Landed(edits, i), i, width)
  {
    hide Ordered, Apply, NoSwallow, NoRewrites, Cuttable, SwallowsWholeLines, Outline, BreakBytes, Blanked, Survives,
         Endings, Solid, StaysInPlace, Columnable, NoneFuses, Roomless, Said, RestIn;
    edits := [];
    var cursor: nat, column: nat := 0, 0;
    var index := 0;
    while index < |comments|
      invariant 0 <= index <= |comments|
      invariant edits == ColumnPlan(source, comments, swallow, index, width)
      invariant cursor == FloorOf(comments, swallow, index)
      invariant column == ColumnCarried(source, comments, swallow, index, width)
    {
      var comment := comments[index];
      match comment.what.disposition {
      case Keep =>
      case Rewrite(replacement) =>
        edits := edits + [Edit(comment.span, replacement)];
      case Remove =>
        var edit, next := ColumnEdit(source, comments, index, swallow, cursor, column, width);
        cursor, column := edit.span.end, next;
        edits := edits + [edit];
      }
      index := index + 1;
    }
    ColumnPlanIsDone(source, comments, swallow, width);
  }

  /** All that is said of a finished plan. */
  lemma {:induction false} ColumnPlanIsDone(source: Source, comments: seq<Comment>, swallow: seq<Option<ByteSpan>>,
                                            width: Source -> nat)
    requires InOrder(comments, |source|) && SwallowFits(comments, swallow, |source|)
    ensures var edits := ColumnPlan(source, comments, swallow, |comments|, width);
            && Ordered(edits, 0, |source|)
            && Apply(source, edits)
               == RestIn(Said(source, comments, swallow, ColumnSays(source, comments, swallow, width)), 0, |source|)
            && (NoRewrites(comments) && SwallowsWholeLines(source, comments, swallow) && NoSeparators(source) ==>
                  Solid(Apply(source, edits)) == Solid(Blanked(source, RemovedSpans(comments))))
            && (Cuttable(source, comments) && NoSwallow(comments, swallow) ==>
                  Endings(Apply(source, edits)) == Endings(source))
            && (Cuttable(source, comments) && SwallowsWholeLines(source, comments, swallow) ==>
                  (Outline(Apply(source, edits)) == RemainingOutline(source, comments)
                   <==> NoneFuses(source, comments, Roomless(source, comments, width))))
            && (Columnable(source, comments, width) && NoSwallow(comments, swallow) ==>
                  && BreakBytes(Cells(Apply(source, edits))) == BreakBytes(Cells(source))
                  && forall i: nat | i < |source| && Survives(edits, i) ::
                       StaysInPlace(source, Apply(source, edits), Landed(edits, i), i, width))
  {
    hide Ordered, Apply, NoSwallow, NoRewrites, Cuttable, SwallowsWholeLines, Outline, BreakBytes, Blanked, Survives,
         Endings, Solid, StaysInPlace, Columnable, NoneFuses, Roomless, Said, RestIn;
    ColumnPlanHolds(source, comments, swallow, |comments|, width);
    ColumnsSay(source, comments, swallow, width);
    if NoRewrites(comments) && SwallowsWholeLines(source, comments, swallow) && NoSeparators(source) {
      ColumnsKeepSolid(source, comments, swallow, width);
    }
    if Cuttable(source, comments) && NoSwallow(comments, swallow) {
      ColumnsKeepEndings(source, comments, swallow, width);
    }
    if Cuttable(source, comments) && SwallowsWholeLines(source, comments, swallow) {
      ColumnsKeepOutline(source, comments, swallow, width);
    }
    if Columnable(source, comments, width) && NoSwallow(comments, swallow) {
      ColumnsKeepPlaces(source, comments, swallow, width);
    }
  }

  lemma {:induction false} ColumnsAreKept(source: Source, edits: seq<Edit>, width: Source -> nat)
    requires Ordered(edits, 0, |source|) && forall e <- edits :: KeepsRoom(source, e, width)
    ensures forall i: nat | i < |source| && Survives(edits, i) ::
              SameColumn(source, Apply(source, edits), Landed(edits, i), i, width)
  {
    forall i: nat | i < |source| && Survives(edits, i)
      ensures SameColumn(source, Apply(source, edits), Landed(edits, i), i, width)
    {
      assert [] + Apply(source, edits) == Apply(source, edits);
      SurvivorKeepsColumn(source, edits, [], 0, i, Apply(source, edits), width);
    }
  }
}
