/**
 * What each byte of a source leaves under `lines`, said byte by byte; and where two line endings that stood
 * apart come to stand side by side.
 */
module Leavings {
  import opened Bytes
  import opened Edits
  import opened Layouts
  import opened LineNumbers
  import opened Outlines
  import opened Residues
  import opened Scanning
  import opened Seams

  /** A comment of one line leaves nothing, unless it is all that keeps two tokens apart. */
  lemma {:induction false} UnbrokenLeavesNothing(source: Source, s: ByteSpan)
    requires s.start <= s.end <= |source| && CleanCut(source, s.start) && CleanCut(source, s.end)
    requires Unbroken(source, s.start, s.end)
    ensures LineReplacement(source, s) == if HasNonWhitespaceNeighbors(source, s) then [SPACE] else []
  {
    var slice := source[s.start..s.end];
    NewlinesAreTheBreaks(slice, 0);
    CellsSlice(source, s.start, s.end);
    assert Cells(slice)[0..] == Cells(slice);
    NoBreaksAmong(source, s.start, s.end);
  }

  /** A comment of one line leaves a space if and only if there is a byte on either side of it, and neither is white. */
  lemma {:induction false} SpaceKeepsApart(source: Source, s: ByteSpan)
    requires s.start <= s.end <= |source| && CleanCut(source, s.start) && CleanCut(source, s.end)
    requires Unbroken(source, s.start, s.end)
    ensures LineReplacement(source, s) == [SPACE]
       <==> 0 < s.start && s.end < |source| && !IsWhitespace(source[s.start - 1]) && !IsWhitespace(source[s.end])
    ensures LineReplacement(source, s) == [SPACE] || LineReplacement(source, s) == []
  {
    UnbrokenLeavesNothing(source, s);
  }

  lemma {:induction false} NoBreaksAmong(source: Source, a: nat, z: nat)
    requires a <= z <= |source| && Unbroken(source, a, z)
    ensures BreakBytes(Cells(source)[a..z]) == []
    decreases z - a
  {
    if a < z {
      NoBreaksAmong(source, a + 1, z);
      assert Cells(source)[a..z][1..] == Cells(source)[a + 1..z];
    }
  }

  // ---- what is left, byte by byte ----

  /** Of the first `n` comments the one that is not kept and holds byte `i`. */
  function HolderOf(comments: seq<Comment>, n: nat, i: nat): (k: Option<nat>)
    requires n <= |comments|
    ensures k.Some? ==>
              && k.value < n && comments[k.value].what.disposition != Keep
              && comments[k.value].span.start <= i < comments[k.value].span.end
    ensures k.None? ==>
              forall m | 0 <= m < n && comments[m].what.disposition != Keep ::
                !(comments[m].span.start <= i < comments[m].span.end)
  {
    if n == 0 then None
    else
      var c := comments[n - 1];
      if c.what.disposition != Keep && c.span.start <= i < c.span.end then Some(n - 1)
      else HolderOf(comments, n - 1, i)
  }

  /** What byte `i` leaves as part of comment `c`. */
  function LeftOf(source: Source, c: Comment, i: nat): Source
    requires i < |source| && c.span.end <= |source|
  {
    match c.what.disposition
    case Keep => [source[i]]
    case Rewrite(replacement) => if i == c.span.start then replacement else []
    case Remove =>
      if c.what.kind == HtmlComment then []
      else if SymAt(source, i) == Break then [source[i]]
      else if i == c.span.start && Unbroken(source, c.span.start, c.span.end)
        && HasNonWhitespaceNeighbors(source, c.span)
      then [SPACE]
      else []
  }

  /**
   * What byte `i` leaves under `lines`: itself outside the comments that are not kept; in a removed one
   * itself if it is part of a line break, a space if it begins a comment of one line between two bytes that
   * are not white, and otherwise nothing.
   */
  function Left(source: Source, comments: seq<Comment>, i: nat): Source
    requires InOrder(comments, |source|) && i < |source|
  {
    match HolderOf(comments, |comments|, i)
    case None => [source[i]]
    case Some(k) => LeftOf(source, comments[k], i)
  }

  /** What the bytes `a..z` leave. */
  function LeftIn(source: Source, comments: seq<Comment>, a: nat, z: nat): Source
    requires InOrder(comments, |source|) && a <= z <= |source|
    decreases z - a
  {
    if a == z then [] else LeftIn(source, comments, a, z - 1) + Left(source, comments, z - 1)
  }

  lemma {:induction false} LeftInLast(source: Source, comments: seq<Comment>, n: nat)
    requires InOrder(comments, |source|) && 0 < n <= |source|
    ensures LeftIn(source, comments, 0, n) == LeftIn(source, comments, 0, n - 1) + Left(source, comments, n - 1)
  {
  }

  lemma {:induction false} LeftInTwo(source: Source, comments: seq<Comment>, a: nat, m: nat, z: nat)
    requires InOrder(comments, |source|) && a <= m <= z <= |source|
    ensures LeftIn(source, comments, a, z) == LeftIn(source, comments, a, m) + LeftIn(source, comments, m, z)
    decreases z - m
  {
    if m < z {
      LeftInTwo(source, comments, a, m, z - 1);
      var x, y, last := LeftIn(source, comments, a, m), LeftIn(source, comments, m, z - 1),
          Left(source, comments, z - 1);
      assert (x + y) + last == x + (y + last);
    } else {
      assert LeftIn(source, comments, a, m) + [] == LeftIn(source, comments, a, m);
    }
  }

  /** What the bytes leave, one by one. */
  ghost function LineResidue(source: Source, comments: seq<Comment>): seq<Source>
    requires InOrder(comments, |source|)
  {
    seq(|source|, i requires 0 <= i < |source| => Left(source, comments, i))
  }

  lemma {:induction false} LeftInIsRest(source: Source, comments: seq<Comment>, a: nat, z: nat)
    requires InOrder(comments, |source|) && a <= z <= |source|
    ensures LeftIn(source, comments, a, z) == RestIn(LineResidue(source, comments), a, z)
    decreases z - a
  {
    hide Left, InOrder;
    if a < z { LeftInIsRest(source, comments, a, z - 1); }
  }

  lemma {:induction false} HeldByOne(comments: seq<Comment>, n: nat, size: nat, k: nat, i: nat)
    requires InOrder(comments, size) && k < n <= |comments| && comments[k].what.disposition != Keep
    requires comments[k].span.start <= i < comments[k].span.end
    ensures HolderOf(comments, n, i) == Some(k)
  {
    if k < n - 1 { HeldByOne(comments, n - 1, size, k, i); }
  }

  /** A rewritten comment leaves its replacement. */
  lemma {:induction false} RewrittenLeaves(source: Source, comments: seq<Comment>, k: nat, z: nat)
    requires InOrder(comments, |source|) && k < |comments| && comments[k].what.disposition.Rewrite?
    requires comments[k].span.start <= z <= comments[k].span.end
    ensures LeftIn(source, comments, comments[k].span.start, z)
         == if z == comments[k].span.start then [] else comments[k].what.disposition.replacement
    decreases z
  {
    hide HolderOf, Left, InOrder;
    var s := comments[k].span;
    if s.start < z {
      RewrittenLeaves(source, comments, k, z - 1);
      RewrittenLeavesByte(source, comments, k, z - 1);
    }
  }

  lemma {:induction false} RewrittenLeavesByte(source: Source, comments: seq<Comment>, k: nat, i: nat)
    requires InOrder(comments, |source|) && k < |comments| && comments[k].what.disposition.Rewrite?
    requires comments[k].span.start <= i < comments[k].span.end
    ensures Left(source, comments, i)
         == if i == comments[k].span.start then comments[k].what.disposition.replacement else []
  {
    hide HolderOf;
    HeldByOne(comments, |comments|, |source|, k, i);
  }

  /** A removed HTML comment leaves nothing. */
  lemma {:induction false} HtmlLeaves(source: Source, comments: seq<Comment>, k: nat, z: nat)
    requires InOrder(comments, |source|) && k < |comments| && Removes(comments[k])
             && comments[k].what.kind == HtmlComment
    requires comments[k].span.start <= z <= comments[k].span.end
    ensures LeftIn(source, comments, comments[k].span.start, z) == []
    decreases z
  {
    if comments[k].span.start < z {
      HtmlLeaves(source, comments, k, z - 1);
      HeldByOne(comments, |comments|, |source|, k, z - 1);
    }
  }

  /** What one byte of a removed comment leaves. */
  lemma {:induction false} RemovedLeavesByte(source: Source, comments: seq<Comment>, k: nat, z: nat)
    requires InOrder(comments, |source|) && k < |comments| && Removes(comments[k])
             && comments[k].what.kind != HtmlComment
    requires comments[k].span.start < z <= comments[k].span.end
    ensures var s := comments[k].span;
            Left(source, comments, z - 1)
            == if Unbroken(source, s.start, s.end) && HasNonWhitespaceNeighbors(source, s)
               then (if z == s.start + 1 then [SPACE] else [])
               else BreakBytes([Cells(source)[z - 1]])
  {
    hide HolderOf, HasNonWhitespaceNeighbors;
    HeldByOne(comments, |comments|, |source|, k, z - 1);
    assert [Cells(source)[z - 1]][1..] == [];
  }

  /** Any other removed comment leaves its line breaks, or the one space. */
  lemma {:induction false} RemovedLeaves(source: Source, comments: seq<Comment>, k: nat, z: nat)
    requires InOrder(comments, |source|) && k < |comments| && Removes(comments[k])
             && comments[k].what.kind != HtmlComment
    requires comments[k].span.start < z <= comments[k].span.end
    ensures var s := comments[k].span;
            LeftIn(source, comments, s.start, z)
            == if Unbroken(source, s.start, s.end) && HasNonWhitespaceNeighbors(source, s) then [SPACE]
               else BreakBytes(Cells(source)[s.start..z])
    decreases z
  {
    hide Left, BreakBytes, Unbroken, HasNonWhitespaceNeighbors, Cells;
    var s := comments[k].span;
    var a, cells := s.start, Cells(source);
    RemovedLeavesByte(source, comments, k, z);
    CellsAsMany(source);
    assert cells[a..z] == cells[a..z - 1] + [cells[z - 1]];
    BreakBytesJoin(cells[a..z - 1], [cells[z - 1]]);
    if a + 1 == z {
      NoBreakBytes();
      assert cells[a..a] == [];
    } else {
      RemovedLeaves(source, comments, k, z - 1);
    }
  }

  lemma {:induction false} CellsAsMany(source: Source)
    ensures |Cells(source)| == |source|
  {
  }

  lemma {:induction false} NoBreakBytes()
    ensures BreakBytes([]) == []
  {
  }

  /** What a comment that is not kept leaves is what its edit writes. */
  lemma {:induction false} CommentLeaves(source: Source, comments: seq<Comment>, k: nat)
    requires InOrder(comments, |source|) && k < |comments| && CutsNone(source, comments)
    requires comments[k].what.disposition != Keep
    ensures var c := comments[k];
            LeftIn(source, comments, c.span.start, c.span.end)
            == if c.what.disposition.Rewrite? then c.what.disposition.replacement
               else if c.what.kind == HtmlComment then [] else LineReplacement(source, c.span)
  {
    var c, s := comments[k], comments[k].span;
    assert c in comments;
    if c.what.disposition.Rewrite? {
      RewrittenLeaves(source, comments, k, s.end);
    } else if c.what.kind == HtmlComment {
      HtmlLeaves(source, comments, k, s.end);
    } else {
      RemovedLeaves(source, comments, k, s.end);
      if Unbroken(source, s.start, s.end) {
        UnbrokenLeavesNothing(source, s);
        NoBreaksAmong(source, s.start, s.end);
      } else {
        BrokenLeavesBreaks(source, s);
      }
    }
  }

  lemma {:induction false} BrokenLeavesBreaks(source: Source, s: ByteSpan)
    requires s.start <= s.end <= |source| && CleanCut(source, s.start) && CleanCut(source, s.end)
    requires !Unbroken(source, s.start, s.end)
    ensures LineReplacement(source, s) == BreakBytes(Cells(source)[s.start..s.end])
  {
    var slice := source[s.start..s.end];
    NewlinesAreTheBreaks(slice, 0);
    CellsSlice(source, s.start, s.end);
    assert Cells(slice)[0..] == Cells(slice);
    var i :| s.start <= i < s.end && SymAt(source, i) == Break;
    BreakIsAmong(Cells(slice), i - s.start);
  }

  lemma {:induction false} BreakIsAmong(cells: seq<Cell>, i: nat)
    requires i < |cells| && cells[i].sym == Break
    ensures BreakBytes(cells) != []
  {
    if i > 0 { BreakIsAmong(cells[1..], i - 1); }
  }

  // ---- line endings that come together ----

  /**
   * At `y` a line feed stands, and in front of it, with at least one byte in between, a carriage return;
   * and none of the bytes in between leaves anything: the two come to stand side by side.
   */
  ghost predicate MeetsAt(source: Source, comments: seq<Comment>, y: nat)
    requires InOrder(comments, |source|) && y < |source|
  {
    && source[y] == LF
    && exists x: nat :: x + 1 < y && EndsInReturn(source, comments, x, y)
  }

  /** A carriage return at `x`, and none of the bytes behind it up to `y` leaves anything. */
  ghost predicate EndsInReturn(source: Source, comments: seq<Comment>, x: nat, y: nat)
    requires InOrder(comments, |source|) && y <= |source|
  {
    x < y && source[x] == CR && forall z: nat | x < z < y :: Left(source, comments, z) == []
  }

  /** How many line feeds in front of `n` come to stand behind a carriage return they did not stand behind. */
  ghost function Meetings(source: Source, comments: seq<Comment>, n: nat): nat
    requires InOrder(comments, |source|) && n <= |source|
  {
    if n == 0 then 0
    else Meetings(source, comments, n - 1) + (if MeetsAt(source, comments, n - 1) then 1 else 0)
  }

  lemma {:induction false} MeetingsNone(source: Source, comments: seq<Comment>, n: nat)
    requires InOrder(comments, |source|) && n <= |source|
    ensures Meetings(source, comments, n) == 0 <==> forall y: nat | y < n :: !MeetsAt(source, comments, y)
  {
    if n > 0 { MeetingsNone(source, comments, n - 1); }
  }

  /**
   * Where comments are kept or removed, and no HTML comments, a byte leaves itself, nothing or a space; one of a line
   * break leaves itself.
   */
  lemma {:induction false} LeftIsByte(source: Source, comments: seq<Comment>, i: nat)
    requires InOrder(comments, |source|) && Cuttable(source, comments) && i < |source|
    ensures var left := Left(source, comments, i); left == [source[i]] || left == [] || left == [SPACE]
    ensures SymAt(source, i) == Break ==> Left(source, comments, i) == [source[i]]
  {
    match HolderOf(comments, |comments|, i) {
    case None =>
    case Some(k) => assert comments[k] in comments;
    }
  }

  /** A visible byte that stays is in no comment that is not kept. */
  lemma {:induction false} InkIsHeldByNone(source: Source, comments: seq<Comment>, i: nat)
    requires InOrder(comments, |source|) && Cuttable(source, comments) && i < |source|
    requires Left(source, comments, i) == [source[i]] && SymAt(source, i) == Ink
    ensures HolderOf(comments, |comments|, i).None?
  {
    match HolderOf(comments, |comments|, i) {
    case None =>
    case Some(k) =>
    }
  }

  /** What is left of the first `n` bytes ends in a carriage return: it is the last of them to leave anything. */
  ghost predicate ReturnLast(source: Source, comments: seq<Comment>, n: nat)
    requires InOrder(comments, |source|) && n <= |source|
  {
    exists x: nat :: EndsInReturn(source, comments, x, n)
  }

  lemma {:induction false} ReturnLastNext(source: Source, comments: seq<Comment>, m: nat)
    requires InOrder(comments, |source|) && Cuttable(source, comments) && m < |source|
    ensures ReturnLast(source, comments, m + 1)
       <==> source[m] == CR || (Left(source, comments, m) == [] && ReturnLast(source, comments, m))
  {
    hide Left;
    LeftIsByte(source, comments, m);
    var n := m + 1;
    if source[m] == CR {
      assert EndsInReturn(source, comments, m, n);
    } else if Left(source, comments, m) == [] {
      if x: nat :| EndsInReturn(source, comments, x, m) { assert EndsInReturn(source, comments, x, n); }
      if x: nat :| EndsInReturn(source, comments, x, n) { assert EndsInReturn(source, comments, x, m); }
    }
  }

  predicate EndsInCR(t: Source) {
    t != [] && t[|t| - 1] == CR
  }

  /** The pairs of a text. */
  function PairsIn(t: Source): nat {
    Pairs(t, |t|)
  }

  /** How a text goes on that a byte leaves itself, nothing, or a space behind. */
  lemma {:induction false} EndsWith(front: Source, last: Source, b: byte)
    requires last == [b] || last == [] || last == [SPACE]
    ensures EndsInCR(front + last) <==> if last == [] then EndsInCR(front) else last[0] == CR
    ensures PairsIn(front + last) == PairsIn(front) + if last == [b] && b == LF && EndsInCR(front) then 1 else 0
  {
    if last == [] {
      assert front + last == front;
    } else {
      PairsOneMore(front, last[0]);
    }
  }

  lemma {:induction false} LastReturn(source: Source, comments: seq<Comment>, n: nat)
    requires InOrder(comments, |source|) && Cuttable(source, comments) && n <= |source|
    ensures EndsInCR(LeftIn(source, comments, 0, n)) <==> ReturnLast(source, comments, n)
  {
    if n == 0 {
      assert LeftIn(source, comments, 0, 0) == [];
    } else {
      hide Left, LeftIn, ReturnLast, Cuttable;
      LeftInLast(source, comments, n);
      LeftIsByte(source, comments, n - 1);
      LastReturn(source, comments, n - 1);
      ReturnLastNext(source, comments, n - 1);
      EndsWith(LeftIn(source, comments, 0, n - 1), Left(source, comments, n - 1), source[n - 1]);
    }
  }

  /** Byte `y` makes a pair of what is left if it makes one in the source, or meets one. */
  lemma {:induction false} OnePairMore(source: Source, comments: seq<Comment>, y: nat)
    requires InOrder(comments, |source|) && Cuttable(source, comments) && y < |source|
    ensures var b := source[y];
            (if Left(source, comments, y) == [b] && b == LF && EndsInCR(LeftIn(source, comments, 0, y)) then 1 else 0)
            == (if b == LF && EndsInCR(source[..y]) then 1 else 0) + (if MeetsAt(source, comments, y) then 1 else 0)
  {
    hide Left, LeftIn, EndsInReturn, MeetsAt, ReturnLast, Cuttable, EndsInCR;
    LeftIsByte(source, comments, y);
    LastReturn(source, comments, y);
    NoLineFeedNeverMeets(source, comments, y);
    if source[y] == LF { ReturnInFront(source, comments, y); }
  }

  lemma {:induction false} LeftPairsNext(source: Source, comments: seq<Comment>, y: nat)
    requires InOrder(comments, |source|) && Cuttable(source, comments) && y < |source|
    ensures var b, t := source[y], LeftIn(source, comments, 0, y);
            PairsIn(LeftIn(source, comments, 0, y + 1))
            == PairsIn(t) + if Left(source, comments, y) == [b] && b == LF && EndsInCR(t) then 1 else 0
  {
    hide Left, PairsIn, EndsInCR, Cuttable;
    LeftIsByte(source, comments, y);
    EndsWith(LeftIn(source, comments, 0, y), Left(source, comments, y), source[y]);
  }

  lemma {:induction false} SourcePairsNext(source: Source, y: nat)
    requires y < |source|
    ensures PairsIn(source[..y + 1]) == PairsIn(source[..y]) + if source[y] == LF && EndsInCR(source[..y]) then 1 else 0
  {
    hide PairsIn, EndsInCR;
    assert source[..y + 1] == source[..y] + [source[y]];
    EndsWith(source[..y], [source[y]], source[y]);
  }

  /** Of what is left there are as many pairs more than of the source as line endings come together. */
  lemma {:induction false} PairsLeft(source: Source, comments: seq<Comment>, n: nat)
    requires InOrder(comments, |source|) && Cuttable(source, comments) && n <= |source|
    ensures PairsIn(LeftIn(source, comments, 0, n)) == PairsIn(source[..n]) + Meetings(source, comments, n)
  {
    hide Left, LeftIn, PairsIn, MeetsAt, Cuttable, EndsInCR, InOrder;
    if n == 0 {
      NothingIsLeft(source, comments);
    } else {
      PairsLeft(source, comments, n - 1);
      LeftPairsNext(source, comments, n - 1);
      SourcePairsNext(source, n - 1);
      OnePairMore(source, comments, n - 1);
    }
  }

  lemma {:induction false} NothingIsLeft(source: Source, comments: seq<Comment>)
    requires InOrder(comments, |source|)
    ensures PairsIn(LeftIn(source, comments, 0, 0)) == PairsIn(source[..0])
  {
    assert source[..0] == [];
  }

  lemma {:induction false} NoLineFeedNeverMeets(source: Source, comments: seq<Comment>, y: nat)
    requires InOrder(comments, |source|) && y < |source|
    ensures MeetsAt(source, comments, y) ==> source[y] == LF
  {
  }

  /** In front of a line feed a carriage return is last, in the source or in what is left, or neither. */
  lemma {:induction false} ReturnInFront(source: Source, comments: seq<Comment>, y: nat)
    requires InOrder(comments, |source|) && Cuttable(source, comments) && y < |source| && source[y] == LF
    ensures var before := 0 < y && source[y - 1] == CR;
            && !(before && MeetsAt(source, comments, y))
            && EndsInCR(source[..y]) == before
            && (ReturnLast(source, comments, y) <==> before || MeetsAt(source, comments, y))
  {
    if 0 < y && source[y - 1] == CR {
      LeftIsByte(source, comments, y - 1);
      assert EndsInReturn(source, comments, y - 1, y);
    }
  }

  /** Without lone carriage returns no line endings come together. */
  lemma {:induction false} PairedNeverMeet(source: Source, comments: seq<Comment>, n: nat)
    requires InOrder(comments, |source|) && Cuttable(source, comments) && n <= |source| && NoLoneCR(source)
    ensures Meetings(source, comments, n) == 0
  {
    forall y: nat | y < n
      ensures !MeetsAt(source, comments, y)
    {
      forall x: nat | x + 1 < y
        ensures !EndsInReturn(source, comments, x, y)
      {
        LeftIsByte(source, comments, x + 1);
      }
    }
    MeetingsNone(source, comments, n);
  }

  /** A byte that stays leaves itself. */
  lemma {:induction false} PairsAtSurvivor(source: Source, comments: seq<Comment>, i: nat)
    requires InOrder(comments, |source|) && Cuttable(source, comments) && i < |source|
    requires Left(source, comments, i) == [source[i]]
    ensures var out := LeftIn(source, comments, 0, |source|);
            Pairs(out, |LeftIn(source, comments, 0, i)|) == Pairs(source, i) + Meetings(source, comments, i + 1)
  {
    hide Left, Pairs, MeetsAt;
    var front, rest := LeftIn(source, comments, 0, i + 1), LeftIn(source, comments, i + 1, |source|);
    LeftInTwo(source, comments, 0, i + 1, |source|);
    PairsLeft(source, comments, i + 1);
    PairsOfFront(front, rest, |front|);
    assert source == source[..i + 1] + source[i + 1..];
    PairsOfFront(source[..i + 1], source[i + 1..], i + 1);
  }
}
