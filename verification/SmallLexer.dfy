/**
 * One concrete scanner that meets the contract the incremental document asks for.
 *
 * It reads line comments, block comments, quoted strings with backslash escapes and, at offset 0 of a
 * document only, a shebang; it offers a checkpoint behind every top-level line terminator, a CRLF pair
 * being one. Its restart rule is the one every language shares: no restart inside a CRLF pair.
 */
module SmallLexer {
  import opened Bytes
  import opened Edits
  import opened Scanning
  import opened Incremental

  const SLASH: byte := 0x2F
  const STAR: byte := 0x2A
  const QUOTE: byte := 0x22
  const BACKSLASH: byte := 0x5C
  const HASH: byte := 0x23
  const BANG: byte := 0x21

  predicate IsBreak(b: byte) {
    b == CR || b == LF
  }

  function LineEnd(s: Source, i: nat): (e: nat)
    requires i <= |s|
    ensures i <= e <= |s|
    ensures forall k | i <= k < e :: !IsBreak(s[k])
    ensures e < |s| ==> IsBreak(s[e])
    decreases |s| - i
  {
    if i < |s| && !IsBreak(s[i]) then LineEnd(s, i + 1) else i
  }

  /** Where the block comment whose body begins at `i` ends; `None` when it never closes. */
  function BlockEnd(s: Source, i: nat): (e: Option<nat>)
    requires i <= |s|
    ensures e.Some? ==> i + 2 <= e.value <= |s|
    decreases |s| - i
  {
    if i + 1 >= |s| then None
    else if s[i] == STAR && s[i + 1] == SLASH then Some(i + 2)
    else BlockEnd(s, i + 1)
  }

  datatype Quoted = Closed(end: nat) | Open(end: nat)

  /** Where the string whose body begins at `i` ends; a line terminator or the end of the source leaves it open. */
  function StringEnd(s: Source, i: nat): (e: Quoted)
    requires i <= |s|
    ensures i <= e.end <= |s|
    ensures e.Closed? ==> e.end > i && s[e.end - 1] == QUOTE
    ensures e.Open? ==> e.end == |s| || IsBreak(s[e.end])
    decreases |s| - i
  {
    if i >= |s| || IsBreak(s[i]) then Open(i)
    else if s[i] == QUOTE then Closed(i + 1)
    else if s[i] == BACKSLASH && i + 1 < |s| && !IsBreak(s[i + 1]) then StringEnd(s, i + 2)
    else StringEnd(s, i + 1)
  }

  datatype Token =
    | Plain(next: nat)
    | Break(next: nat)
    | Remark(next: nat, kind: CommentKind, closed: bool)
    | Text(next: nat, closed: bool)

  /** The token that begins at top-level position `i` of `s`, whose first byte stands at offset `o`. */
  function TokenAt(s: Source, i: nat, o: nat): (t: Token)
    requires i < |s|
    ensures i < t.next <= |s|
  {
    if o == 0 && i == 0 && |s| > 1 && s[0] == HASH && s[1] == BANG then
      Remark(LineEnd(s, 2), Shebang, true)
    else if s[i] == CR && i + 1 < |s| && s[i + 1] == LF then Break(i + 2)
    else if IsBreak(s[i]) then Break(i + 1)
    else if s[i] == SLASH && i + 1 < |s| && s[i + 1] == SLASH then
      Remark(LineEnd(s, i + 2), Line, true)
    else if s[i] == SLASH && i + 1 < |s| && s[i + 1] == STAR then
      match BlockEnd(s, i + 2)
      case Some(e) => Remark(e, Block, true)
      case None => Remark(|s|, Block, false)
    else if s[i] == QUOTE then
      match StringEnd(s, i + 1)
      case Closed(e) => Text(e, true)
      case Open(e) => Text(e, false)
    else Plain(i + 1)
  }

  const NOTHING: Lexed := Lexed([], [], [])

  /** What one token adds to the report. */
  function Emit(t: Token, i: nat, o: nat): Lexed
    requires i < t.next
  {
    match t
    case Plain(_) => NOTHING
    case Break(next) => Lexed([], [], [o + next])
    case Remark(next, kind, closed) =>
      Lexed([Located(ByteSpan(o + i, o + next), Classified(kind, Remove))],
            if closed then [] else [Located(ByteSpan(o + i, o + next), Fault("unterminated-comment", Error))], [])
    case Text(next, closed) =>
      Lexed([], if closed then [] else [Located(ByteSpan(o + i, o + next), Fault("unterminated-string", Error))], [])
  }

  function LexFrom(s: Source, i: nat, o: nat): Lexed
    requires i <= |s|
    decreases |s| - i
  {
    if i == |s| then NOTHING
    else
      var t := TokenAt(s, i, o);
      Join(Emit(t, i, o), LexFrom(s, t.next, o))
  }

  function Scan(s: Source, o: nat): Lexed {
    Join(Lexed([], [], [o]), LexFrom(s, 0, o))
  }

  /** The scan that stops once it has offered the checkpoint `stop`, and whether it got there. */
  function UntilFrom(s: Source, i: nat, o: nat, stop: nat): (Lexed, bool)
    requires i <= |s|
    decreases |s| - i
  {
    if i == |s| then (NOTHING, false)
    else
      var t := TokenAt(s, i, o);
      if t.Break? && o + t.next == stop then (Emit(t, i, o), true)
      else
        var (rest, stopped) := UntilFrom(s, t.next, o, stop);
        (Join(Emit(t, i, o), rest), stopped)
  }

  function ScanUntil(s: Source, o: nat, stop: nat): (Lexed, bool) {
    var (rest, stopped) := UntilFrom(s, 0, o, stop);
    (Join(Lexed([], [], [o]), rest), stopped)
  }

  /** A checkpoint a previous revision recorded may not stand inside a CRLF pair. */
  predicate Permits(s: Source, p: nat) {
    p == 0 || p > |s| || s[p - 1] != CR || p == |s| || s[p] != LF
  }

  function Contextual(s: Source, comments: seq<Comment>): (seq<Comment>, seq<ProseRun>) {
    (comments, [])
  }

  function TheScanner(): Scanner {
    Scanner(Scan, ScanUntil, Permits, Contextual)
  }

  // ---- shape of a report ----

  lemma {:induction false} LexBounds(s: Source, i: nat, o: nat)
    requires i <= |s|
    ensures var l := LexFrom(s, i, o);
            && LiesBehind(l, o + i)
            && Increasing(l.checkpoints)
            && (forall p <- l.checkpoints :: o + i < p <= o + |s|)
    decreases |s| - i
  {
    if i < |s| {
      var t := TokenAt(s, i, o);
      LexBounds(s, t.next, o);
      var rest := LexFrom(s, t.next, o).checkpoints;
      forall k | 0 <= k < |rest|
        ensures o + t.next < rest[k]
      {
        assert rest[k] in rest;
      }
    }
  }

  // ---- restarting: a suffix is read alike on its own ----

  lemma {:induction false} LineEndSuffix(s: Source, i: nat, p: nat)
    requires p <= i <= |s|
    ensures LineEnd(s, i) == p + LineEnd(s[p..], i - p)
    decreases |s| - i
  {
    if i < |s| && !IsBreak(s[i]) { LineEndSuffix(s, i + 1, p); }
  }

  lemma {:induction false} BlockEndSuffix(s: Source, i: nat, p: nat)
    requires p <= i <= |s|
    ensures BlockEnd(s[p..], i - p)
         == match BlockEnd(s, i) case Some(e) => Some(e - p) case None => None
    decreases |s| - i
  {
    if i + 1 < |s| && !(s[i] == STAR && s[i + 1] == SLASH) { BlockEndSuffix(s, i + 1, p); }
  }

  lemma {:induction false} StringEndSuffix(s: Source, i: nat, p: nat)
    requires p <= i <= |s|
    ensures StringEnd(s[p..], i - p)
         == match StringEnd(s, i) case Closed(e) => Closed(e - p) case Open(e) => Open(e - p)
    decreases |s| - i
  {
    if i < |s| && !IsBreak(s[i]) && s[i] != QUOTE {
      if s[i] == BACKSLASH && i + 1 < |s| && !IsBreak(s[i + 1]) {
        StringEndSuffix(s, i + 2, p);
      } else {
        StringEndSuffix(s, i + 1, p);
      }
    }
  }

  function Back(t: Token, p: nat): Token
    requires p <= t.next
  {
    t.(next := t.next - p)
  }

  lemma {:induction false} ByteSuffix(s: Source, i: nat, p: nat)
    requires p <= i <= |s|
    ensures |s[p..]| == |s| - p
    ensures i < |s| ==> s[p..][i - p] == s[i]
    ensures i + 1 < |s| ==> s[p..][i + 1 - p] == s[i + 1]
  {
  }

  lemma {:induction false} TokenSuffix(s: Source, i: nat, p: nat)
    requires 0 < p <= i < |s|
    ensures TokenAt(s[p..], i - p, p) == Back(TokenAt(s, i, 0), p)
  {
    ByteSuffix(s, i, p);
    if s[i] == SLASH && i + 1 < |s| && s[i + 1] == SLASH {
      LineEndSuffix(s, i + 2, p);
    } else if s[i] == SLASH && i + 1 < |s| && s[i + 1] == STAR {
      BlockEndSuffix(s, i + 2, p);
    } else if s[i] == QUOTE {
      StringEndSuffix(s, i + 1, p);
    }
  }

  lemma {:induction false} LexSuffix(s: Source, i: nat, p: nat)
    requires 0 < p <= i <= |s|
    ensures LexFrom(s[p..], i - p, p) == LexFrom(s, i, 0)
    decreases |s| - i
  {
    if i < |s| {
      TokenSuffix(s, i, p);
      LexSuffix(s, TokenAt(s, i, 0).next, p);
    }
  }

  /** A report of one token, all of it in front of `p`. */
  ghost predicate Heads(head: Lexed, p: nat) {
    && |head.comments| <= 1 && |head.diagnostics| <= 1 && |head.checkpoints| <= 1
    && (head.comments != [] ==> head.comments[0].span.start < p && head.comments[0].span.end <= p)
    && (head.diagnostics != [] ==> head.diagnostics[0].span.start < p && head.diagnostics[0].span.end <= p)
    && (head.checkpoints != [] ==> head.checkpoints[0] < p)
  }

  lemma {:induction false} CutHead<T>(head: seq<Located<T>>, rest: seq<Located<T>>, p: nat)
    requires |head| <= 1
    requires head != [] ==> head[0].span.start < p && head[0].span.end <= p
    ensures From(head + rest, p) == From(rest, p)
    ensures Before(head + rest, p) == head + Before(rest, p)
    ensures SplitsAt(rest, p) ==> SplitsAt(head + rest, p)
  {
    if head == [] {
      assert head + rest == rest;
      assert head + Before(rest, p) == Before(rest, p);
    } else {
      assert (head + rest)[1..] == rest;
      assert head == [(head + rest)[0]];
    }
  }

  lemma {:induction false} CutPointsHead(head: seq<nat>, rest: seq<nat>, p: nat)
    requires |head| <= 1 && (head != [] ==> head[0] < p)
    ensures PointsBefore(head + rest, p) == head + PointsBefore(rest, p)
    ensures PointsFrom(head + rest, p) == PointsFrom(rest, p)
  {
    if head == [] {
      assert head + rest == rest;
      assert head + PointsBefore(rest, p) == PointsBefore(rest, p);
    } else {
      assert (head + rest)[1..] == rest;
      assert head == [(head + rest)[0]];
    }
  }

  lemma {:induction false} EmitHeads(t: Token, i: nat, o: nat, p: nat)
    requires i < t.next && o + t.next <= p && !(t.Break? && o + t.next == p)
    ensures Heads(Emit(t, i, o), p) && p !in Emit(t, i, o).checkpoints
  {
  }

  lemma {:induction false} CutJoin(head: Lexed, rest: Lexed, p: nat)
    requires Heads(head, p)
    ensures Front(Join(head, rest), p) == Join(head, Front(rest, p))
    ensures Rest(Join(head, rest), p) == Rest(rest, p)
    ensures CutsAt(rest, p) ==> CutsAt(Join(head, rest), p)
  {
    CutHead(head.comments, rest.comments, p);
    CutHead(head.diagnostics, rest.diagnostics, p);
    CutPointsHead(head.checkpoints, rest.checkpoints, p);
  }

  lemma {:induction false} AllRest<T>(items: seq<Located<T>>, p: nat)
    requires AllBehind(items, p)
    ensures From(items, p) == items && Before(items, p) == [] && SplitsAt(items, p)
  {
    forall i | 0 <= i < |items|
      ensures items[i].span.start >= p
    {
      assert items[i] in items;
    }
    FromAllBehind(items, p);
  }

  /** A scan that begins at `p` with the checkpoint there has nothing in front of `p`. */
  lemma {:induction false} CutAtCheckpoint(rest: Lexed, p: nat)
    requires LiesBehind(rest, p)
    ensures var l := Join(Lexed([], [], [p]), rest);
            Front(l, p) == NOTHING && Rest(l, p) == l && CutsAt(l, p)
  {
    var l := Join(Lexed([], [], [p]), rest);
    assert l.comments == rest.comments && l.diagnostics == rest.diagnostics;
    AllRest(rest.comments, p);
    AllRest(rest.diagnostics, p);
    forall i | 0 <= i < |l.checkpoints|
      ensures l.checkpoints[i] >= p
    {
      assert i == 0 || l.checkpoints[i] in rest.checkpoints;
    }
    PointsFromAll(l.checkpoints, p);
  }

  /** What is scanned from index `p` on, the checkpoint that stands there included. */
  function Onward(s: Source, p: nat): Lexed
    requires p <= |s|
  {
    Join(Lexed([], [], [p]), LexFrom(s, p, 0))
  }

  /** A checkpoint cuts a scan cleanly, and what lies behind it is the scan that goes on from it. */
  lemma {:induction false} LexSplits(s: Source, i: nat, p: nat)
    requires i <= |s| && p in LexFrom(s, i, 0).checkpoints
    ensures i < p <= |s| && IsBreak(s[p - 1]) && Permits(s, p)
    ensures CutsAt(LexFrom(s, i, 0), p) && Rest(LexFrom(s, i, 0), p) == Onward(s, p)
    decreases |s| - i
  {
    var t := TokenAt(s, i, 0);
    LexStep(s, i, 0);
    var head, rest := Emit(t, i, 0), LexFrom(s, t.next, 0);
    LexBounds(s, t.next, 0);
    if t == Break(p) {
      BreakStands(s, i, p);
      CutAtCheckpoint(rest, p);
    } else {
      assert p !in head.checkpoints;
      InRest(head, rest, p);
      EmitHeads(t, i, 0, p);
      LexSplits(s, t.next, p);
      CutJoin(head, rest, p);
    }
  }

  lemma {:induction false} BreakStands(s: Source, i: nat, p: nat)
    requires i < |s| && TokenAt(s, i, 0) == Break(p)
    ensures i < p <= |s| && IsBreak(s[p - 1]) && Permits(s, p)
  {
  }

  lemma {:induction false} LexStep(s: Source, i: nat, o: nat)
    requires i < |s|
    ensures LexFrom(s, i, o) == Join(Emit(TokenAt(s, i, o), i, o), LexFrom(s, TokenAt(s, i, o).next, o))
  {
  }

  lemma {:induction false} InRest(head: Lexed, rest: Lexed, p: nat)
    requires p in Join(head, rest).checkpoints && p !in head.checkpoints
    ensures p in rest.checkpoints
  {
  }

  // ---- the watermark: nothing in front of a checkpoint read past it ----

  lemma {:induction false} LineEndPrefix(s: Source, t: Source, i: nat, p: nat)
    requires AgreeBefore(s, t, p) && i <= |s| && LineEnd(s, i) < p
    ensures LineEnd(t, i) == LineEnd(s, i)
    decreases |s| - i
  {
    assert s[..p][i] == t[..p][i];
    if !IsBreak(s[i]) { LineEndPrefix(s, t, i + 1, p); }
  }

  lemma {:induction false} BlockEndPrefix(s: Source, t: Source, i: nat, p: nat)
    requires AgreeBefore(s, t, p) && i <= |s| && BlockEnd(s, i).Some? && BlockEnd(s, i).value <= p
    ensures BlockEnd(t, i) == BlockEnd(s, i)
    decreases |s| - i
  {
    assert s[..p][i] == t[..p][i] && s[..p][i + 1] == t[..p][i + 1];
    if !(s[i] == STAR && s[i + 1] == SLASH) { BlockEndPrefix(s, t, i + 1, p); }
  }

  lemma {:induction false} StringEndPrefix(s: Source, t: Source, i: nat, p: nat)
    requires AgreeBefore(s, t, p) && i <= |s|
    requires StringEnd(s, i).end <= p && (StringEnd(s, i).Open? ==> StringEnd(s, i).end < p)
    ensures i <= |t| && StringEnd(t, i) == StringEnd(s, i)
    decreases |s| - i
  {
    assert i < p;
    assert s[..p][i] == t[..p][i];
    if !IsBreak(s[i]) && s[i] != QUOTE {
      assert i + 1 < p;
      assert s[..p][i + 1] == t[..p][i + 1];
      if s[i] == BACKSLASH && i + 1 < |s| && !IsBreak(s[i + 1]) {
        StringEndPrefix(s, t, i + 2, p);
      } else {
        StringEndPrefix(s, t, i + 1, p);
      }
    }
  }

  /**
   * A token that stops in front of checkpoint `p`, or is the line break that offers it, was decided by
   * bytes in front of `p` alone, given that the other document does not continue a CRLF pair across it.
   */
  lemma {:induction false} TokenPrefix(s: Source, t: Source, i: nat, p: nat)
    requires AgreeBefore(s, t, p) && i < p && IsBreak(s[p - 1]) && Permits(t, p)
    requires TokenAt(s, i, 0).next < p || TokenAt(s, i, 0) == Break(p)
    ensures TokenAt(t, i, 0) == TokenAt(s, i, 0)
  {
    assert forall k | 0 <= k < p :: s[k] == s[..p][k] == t[..p][k] == t[k];
    if i == 0 && |s| > 1 && s[0] == HASH && s[1] == BANG {
      LineEndPrefix(s, t, 2, p);
    } else if s[i] == SLASH && i + 1 < |s| && s[i + 1] == SLASH {
      LineEndPrefix(s, t, i + 2, p);
    } else if s[i] == SLASH && i + 1 < |s| && s[i + 1] == STAR {
      BlockEndPrefix(s, t, i + 2, p);
    } else if s[i] == QUOTE {
      StringEndPrefix(s, t, i + 1, p);
    }
  }

  /** Two documents that agree up to a checkpoint of one report alike in front of it, and both offer it. */
  lemma {:induction false} LexPrefix(s: Source, t: Source, i: nat, p: nat)
    requires AgreeBefore(s, t, p) && i <= |s| && p in LexFrom(s, i, 0).checkpoints && Permits(t, p)
    ensures i < p && p in LexFrom(t, i, 0).checkpoints
    ensures Front(LexFrom(s, i, 0), p) == Front(LexFrom(t, i, 0), p)
    decreases |s| - i
  {
    LexSplits(s, i, p);
    var k := TokenAt(s, i, 0);
    var head, a := Emit(k, i, 0), LexFrom(s, k.next, 0);
    if k == Break(p) {
      TokenPrefix(s, t, i, p);
      LexBounds(s, p, 0);
      LexBounds(t, p, 0);
      CutAtCheckpoint(a, p);
      CutAtCheckpoint(LexFrom(t, p, 0), p);
    } else {
      assert p !in head.checkpoints;
      InRest(head, a, p);
      LexSplits(s, k.next, p);
      TokenPrefix(s, t, i, p);
      LexPrefix(s, t, k.next, p);
      EmitHeads(k, i, 0, p);
      CutJoin(head, a, p);
      CutJoin(head, LexFrom(t, k.next, 0), p);
    }
  }

  // ---- moving: past offset 0 a scan does not depend on where it stands ----

  lemma {:induction false} LexShift(s: Source, i: nat, p: nat, q: nat)
    requires i <= |s| && p > 0 && q > 0
    ensures LiesBehind(LexFrom(s, i, p), p)
    ensures LexFrom(s, i, q) == ShiftLexed(LexFrom(s, i, p), p, q)
    decreases |s| - i
  {
    LexBounds(s, i, p);
    if i < |s| {
      var t := TokenAt(s, i, p);
      assert t == TokenAt(s, i, q);
      LexShift(s, t.next, p, q);
      ShiftEmit(t, i, p, q);
      ShiftJoin(Emit(t, i, p), LexFrom(s, t.next, p), p, q);
    }
  }

  lemma {:induction false} ShiftEmit(t: Token, i: nat, p: nat, q: nat)
    requires i < t.next
    ensures LiesBehind(Emit(t, i, p), p)
    ensures Emit(t, i, q) == ShiftLexed(Emit(t, i, p), p, q)
    ensures var e := Emit(t, i, p); |e.comments| <= 1 && |e.diagnostics| <= 1 && |e.checkpoints| <= 1
  {
    var e, f := Emit(t, i, p), Emit(t, i, q);
    assert |e.comments| == 1 ==> Shift(e.comments, p, q) == f.comments by {
      if |e.comments| == 1 { assert e.comments[1..] == []; }
    }
    assert |e.diagnostics| == 1 ==> Shift(e.diagnostics, p, q) == f.diagnostics by {
      if |e.diagnostics| == 1 { assert e.diagnostics[1..] == []; }
    }
    assert |e.checkpoints| == 1 ==> ShiftPoints(e.checkpoints, p, q) == f.checkpoints by {
      if |e.checkpoints| == 1 { assert e.checkpoints[1..] == []; }
    }
  }

  lemma {:induction false} ShiftJoin(head: Lexed, rest: Lexed, p: nat, q: nat)
    requires LiesBehind(head, p) && LiesBehind(rest, p)
    requires |head.comments| <= 1 && |head.diagnostics| <= 1 && |head.checkpoints| <= 1
    ensures LiesBehind(Join(head, rest), p)
    ensures ShiftLexed(Join(head, rest), p, q) == Join(ShiftLexed(head, p, q), ShiftLexed(rest, p, q))
  {
    ShiftHead(head.comments, rest.comments, p, q);
    ShiftHead(head.diagnostics, rest.diagnostics, p, q);
    ShiftPointsHead(head.checkpoints, rest.checkpoints, p, q);
  }

  lemma {:induction false} ShiftPointsHead(head: seq<nat>, rest: seq<nat>, p: nat, q: nat)
    requires |head| <= 1 && (forall x <- head :: x >= p) && (forall x <- rest :: x >= p)
    ensures forall x <- head + rest :: x >= p
    ensures ShiftPoints(head + rest, p, q) == ShiftPoints(head, p, q) + ShiftPoints(rest, p, q)
  {
    if head == [] {
      assert head + rest == rest;
      assert ShiftPoints(head, p, q) == [];
    } else {
      assert (head + rest)[1..] == rest;
      assert head[1..] == [];
      assert (head + rest)[0] == head[0];
    }
  }

  lemma {:induction false} ShiftHead<T>(head: seq<Located<T>>, rest: seq<Located<T>>, p: nat, q: nat)
    requires |head| <= 1 && AllBehind(head, p) && AllBehind(rest, p)
    ensures AllBehind(head + rest, p)
    ensures Shift(head + rest, p, q) == Shift(head, p, q) + Shift(rest, p, q)
  {
    if head == [] {
      assert head + rest == rest;
    } else {
      assert (head + rest)[1..] == rest;
      assert head[1..] == [];
    }
  }

  // ---- stopping ----

  lemma {:induction false} ThroughPoints(head: seq<nat>, rest: seq<nat>, stop: nat)
    requires |head| <= 1 && (head != [] ==> head[0] < stop)
    ensures PointsBefore(head + rest, stop) + [stop] == head + (PointsBefore(rest, stop) + [stop])
  {
    CutPointsHead(head, rest, stop);
    var mid := PointsBefore(rest, stop);
    assert (head + mid) + [stop] == head + (mid + [stop]);
  }

  lemma {:induction false} ThroughJoin(head: Lexed, rest: Lexed, stop: nat)
    requires Heads(head, stop)
    ensures Through(Join(head, rest), stop) == Join(head, Through(rest, stop))
  {
    CutHead(head.comments, rest.comments, stop);
    CutHead(head.diagnostics, rest.diagnostics, stop);
    ThroughPoints(head.checkpoints, rest.checkpoints, stop);
  }

  /** `r` is what a scan that is `full` when it is not stopped gives when it is told to stop at `stop`. */
  ghost predicate StopsRight(full: Lexed, r: (Lexed, bool), from: nat, stop: nat) {
    if r.1 then from < stop && stop in full.checkpoints && r.0 == Through(full, stop) else r.0 == full
  }

  lemma {:induction false} UntilStep(s: Source, i: nat, o: nat, stop: nat)
    requires i < |s|
    ensures var t, r := TokenAt(s, i, o), UntilFrom(s, i, o, stop);
            if t.Break? && o + t.next == stop then r == (Emit(t, i, o), true)
            else r == (Join(Emit(t, i, o), UntilFrom(s, t.next, o, stop).0), UntilFrom(s, t.next, o, stop).1)
  {
  }

  lemma {:induction false} FirstCheckpointStops(rest: Lexed, from: nat, stop: nat)
    requires LiesBehind(rest, stop) && from < stop
    ensures var here := Lexed([], [], [stop]); StopsRight(Join(here, rest), (here, true), from, stop)
  {
    var l := Join(Lexed([], [], [stop]), rest);
    CutAtCheckpoint(rest, stop);
    assert l.checkpoints[0] == stop;
    assert PointsBefore(l.checkpoints, stop) == [];
    assert [] + [stop] == [stop];
  }

  lemma {:induction false} EmitBreak(t: Token, i: nat, o: nat)
    requires i < t.next && t.Break?
    ensures Emit(t, i, o) == Lexed([], [], [o + t.next])
  {
  }

  lemma {:induction false} StopsLater(head: Lexed, rest: Lexed, r: (Lexed, bool), from: nat, next: nat, stop: nat)
    requires StopsRight(rest, r, next, stop) && from < next && (r.1 ==> Heads(head, stop))
    ensures StopsRight(Join(head, rest), (Join(head, r.0), r.1), from, stop)
  {
    if r.1 { ThroughJoin(head, rest, stop); }
  }

  lemma {:induction false} UntilHere(s: Source, i: nat, o: nat, stop: nat, rest: Lexed)
    requires i < |s| && TokenAt(s, i, o).Break? && o + TokenAt(s, i, o).next == stop
    requires rest == LexFrom(s, TokenAt(s, i, o).next, o)
    ensures LexFrom(s, i, o) == Join(Lexed([], [], [stop]), rest) && LiesBehind(rest, stop)
    ensures UntilFrom(s, i, o, stop) == (Lexed([], [], [stop]), true)
  {
    EmitBreak(TokenAt(s, i, o), i, o);
    LexStep(s, i, o);
    LexBounds(s, TokenAt(s, i, o).next, o);
  }

  lemma {:induction false} UntilLater(s: Source, i: nat, o: nat, stop: nat, head: Lexed, rest: Lexed, r: (Lexed, bool))
    requires i < |s| && !(TokenAt(s, i, o).Break? && o + TokenAt(s, i, o).next == stop)
    requires head == Emit(TokenAt(s, i, o), i, o)
    requires rest == LexFrom(s, TokenAt(s, i, o).next, o) && r == UntilFrom(s, TokenAt(s, i, o).next, o, stop)
    requires StopsRight(rest, r, o + TokenAt(s, i, o).next, stop)
    ensures LexFrom(s, i, o) == Join(head, rest) && UntilFrom(s, i, o, stop) == (Join(head, r.0), r.1)
    ensures r.1 ==> Heads(head, stop)
  {
    LexStep(s, i, o);
    UntilStep(s, i, o, stop);
    if r.1 { EmitHeads(TokenAt(s, i, o), i, o, stop); }
  }

  lemma {:induction false} UntilIsPrefix(s: Source, i: nat, o: nat, stop: nat)
    requires i <= |s|
    ensures StopsRight(LexFrom(s, i, o), UntilFrom(s, i, o, stop), o + i, stop)
    decreases |s| - i
  {
    if i < |s| {
      var t := TokenAt(s, i, o);
      var rest := LexFrom(s, t.next, o);
      if t.Break? && o + t.next == stop {
        FirstCheckpointStopsAt(s, i, o, stop, rest);
      } else {
        UntilIsPrefix(s, t.next, o, stop);
        var head, r := Emit(t, i, o), UntilFrom(s, t.next, o, stop);
        UntilLater(s, i, o, stop, head, rest, r);
        StopsLater(head, rest, r, o + i, o + t.next, stop);
      }
    }
  }

  lemma {:induction false} FirstCheckpointStopsAt(s: Source, i: nat, o: nat, stop: nat, rest: Lexed)
    requires i < |s| && TokenAt(s, i, o).Break? && o + TokenAt(s, i, o).next == stop
    requires rest == LexFrom(s, TokenAt(s, i, o).next, o)
    ensures StopsRight(LexFrom(s, i, o), UntilFrom(s, i, o, stop), o + i, stop)
  {
    UntilHere(s, i, o, stop, rest);
    FirstCheckpointStops(rest, o + i, stop);
  }

  // ---- the contract ----

  lemma {:induction false} ScanIsWellFormed(s: Source, o: nat)
    ensures WellFormedAt(TheScanner(), s, o)
  {
    LexBounds(s, 0, o);
    var l, rest := Scan(s, o), LexFrom(s, 0, o);
    assert l.comments == rest.comments && l.diagnostics == rest.diagnostics;
    forall i, j | 0 <= i < j < |l.checkpoints|
      ensures l.checkpoints[i] < l.checkpoints[j]
    {
      assert l.checkpoints[j] in rest.checkpoints;
    }
  }

  lemma {:induction false} ScanRestarts(s: Source, p: nat)
    requires 0 < p <= |s| && p in Scan(s, 0).checkpoints
    ensures RestartsAt(TheScanner(), s, p)
  {
    var start := Lexed([], [], [0]);
    InRest(start, LexFrom(s, 0, 0), p);
    LexSplits(s, 0, p);
    CutJoin(start, LexFrom(s, 0, 0), p);
    LexSuffix(s, p, p);
  }

  lemma {:induction false} ScanHasWatermark(s: Source, t: Source, p: nat)
    requires p in Scan(s, 0).checkpoints && AgreeBefore(s, t, p) && Permits(t, p)
    ensures WatermarkHolds(TheScanner(), s, t, p)
  {
    var start := Lexed([], [], [0]);
    var a, b := LexFrom(s, 0, 0), LexFrom(t, 0, 0);
    if p == 0 {
      LexBounds(s, 0, 0);
      LexBounds(t, 0, 0);
      CutAtCheckpoint(a, 0);
      CutAtCheckpoint(b, 0);
    } else {
      InRest(start, a, p);
      LexPrefix(s, t, 0, p);
      CutJoin(start, a, p);
      CutJoin(start, b, p);
    }
  }

  lemma {:induction false} ScanShifts(s: Source, p: nat, q: nat)
    requires p > 0 && q > 0
    ensures ShiftHolds(TheScanner(), s, p, q)
  {
    LexShift(s, 0, p, q);
    ShiftJoin(Lexed([], [], [p]), LexFrom(s, 0, p), p, q);
  }

  lemma {:induction false} ScanStops(s: Source, o: nat, stop: nat)
    ensures StopsAt(TheScanner(), s, o, stop)
  {
    UntilIsPrefix(s, 0, o, stop);
    if UntilFrom(s, 0, o, stop).1 {
      ThroughJoin(Lexed([], [], [o]), LexFrom(s, 0, o), stop);
    }
  }

  /** The small lexer is a scanner the incremental document may be built on. */
  lemma {:induction false} MeetsContract()
    ensures Contract(TheScanner())
  {
    var sc := TheScanner();
    forall s
      ensures WellFormedAt(sc, s, 0)
    {
      ScanIsWellFormed(s, 0);
    }
    forall s, p: nat | Restartable(sc, s, p) && p > 0
      ensures RestartsAt(sc, s, p)
    {
      ScanRestarts(s, p);
    }
    forall s, t, p | p in sc.scan(s, 0).checkpoints && AgreeBefore(s, t, p) && sc.permits(t, p)
      ensures WatermarkHolds(sc, s, t, p)
    {
      ScanHasWatermark(s, t, p);
    }
    forall s, t, p: nat, q: nat
      | Restartable(sc, s, p) && Restartable(sc, t, q) && s[p..] == t[q..]
        && PreambleIsSettled(s, p) && PreambleIsSettled(t, q)
      ensures ShiftHolds(sc, s[p..], p, q)
    {
      ScanShifts(s[p..], p, q);
    }
    forall s, p: nat, stop | Restartable(sc, s, p)
      ensures StopsAt(sc, s[p..], p, stop)
    {
      ScanStops(s[p..], p, stop);
    }
  }
}
