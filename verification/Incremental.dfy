/**
 * A document that rescans only what an edit disturbed.
 *
 * The document is answerable for one thing: after every accepted batch, everything it holds is what a
 * full scan of its current bytes would have said. The scanner is a parameter, and `Scanning.Contract`
 * is all that is asked of it.
 */
module Incremental {
  import opened Bytes
  import opened Edits
  import opened Positions
  import opened Scanning

  datatype IncrementalError = StaleVersion(received: int, current: int) | InvalidSpan

  datatype Report = Report(comments: seq<Comment>, runs: seq<ProseRun>, diagnostics: seq<Diagnostic>, valid: bool)

  /** The report of a full scan: the contextual rules applied to its comments, the rest as it came. */
  ghost function FullReport(sc: Scanner, source: Source): Report {
    var lexed := sc.scan(source, 0);
    var (comments, runs) := sc.contextual(source, lexed.comments);
    Report(comments, runs, lexed.diagnostics, Valid(lexed.diagnostics))
  }

  // ---- cutting a list of findings at an offset ----

  lemma {:induction false} Grouped<T>(a: seq<T>, b: seq<T>, c: seq<T>)
    ensures a + (b + c) == (a + b) + c
  {
  }

  lemma {:induction false} FromStart<T>(items: seq<Located<T>>)
    ensures From(items, 0) == items
    ensures Before(items, 0) == []
  {
    if items != [] { FromStart(items[1..]); }
  }

  lemma {:induction false} FromAllBehind<T>(items: seq<Located<T>>, p: nat)
    requires forall i | 0 <= i < |items| :: items[i].span.start >= p
    ensures From(items, p) == items
    ensures Before(items, p) == []
  {
    if items != [] { FromAllBehind(items[1..], p); }
  }

  lemma {:induction false} CutOnce<T>(items: seq<Located<T>>, p: nat)
    requires SplitsAt(items, p)
    ensures items == Before(items, p) + From(items, p)
  {
    if items != [] {
      if items[0].span.start < p {
        var head, rest := [items[0]], items[1..];
        calc {
          items;
          head + rest;
          { CutOnce(rest, p); }
          head + (Before(rest, p) + From(rest, p));
          { Grouped(head, Before(rest, p), From(rest, p)); }
          (head + Before(rest, p)) + From(rest, p);
        }
      } else {
        FromAllBehind(items, p);
      }
    }
  }

  lemma {:induction false} FromTwice<T>(items: seq<Located<T>>, p: nat, q: nat)
    requires p <= q
    ensures From(From(items, p), q) == From(items, q)
  {
    if items != [] {
      FromTwice(items[1..], p, q);
      var rest := From(items[1..], p);
      if items[0].span.start >= p {
        assert From(items, p)[1..] == rest;
      } else {
        assert From(items, p) == rest;
      }
    }
  }

  lemma {:induction false} FromSplits<T>(items: seq<Located<T>>, p: nat, q: nat)
    requires p <= q && SplitsAt(items, q)
    ensures SplitsAt(From(items, p), q)
  {
    if items != [] {
      if items[0].span.start < q {
        FromSplits(items[1..], p, q);
        if items[0].span.start >= p {
          assert From(items, p)[1..] == From(items[1..], p);
        } else {
          assert From(items, p) == From(items[1..], p);
        }
      } else {
        FromAllBehind(items, p);
      }
    }
  }

  /** A list cut at two offsets falls into three. */
  lemma {:induction false} CutTwice<T>(items: seq<Located<T>>, p: nat, q: nat)
    requires p <= q && SplitsAt(items, p) && SplitsAt(items, q)
    ensures items == Before(items, p) + Before(From(items, p), q) + From(items, q)
  {
    CutOnce(items, p);
    FromSplits(items, p, q);
    CutOnce(From(items, p), q);
    FromTwice(items, p, q);
    Grouped(Before(items, p), Before(From(items, p), q), From(items, q));
  }

  // ---- the same for rising offsets ----

  lemma {:induction false} PointsFromAll(points: seq<nat>, p: nat)
    requires forall i | 0 <= i < |points| :: points[i] >= p
    ensures PointsFrom(points, p) == points
    ensures PointsBefore(points, p) == []
  {
    if points != [] { PointsFromAll(points[1..], p); }
  }

  lemma {:induction false} PointsCutOnce(points: seq<nat>, p: nat)
    requires Increasing(points)
    ensures points == PointsBefore(points, p) + PointsFrom(points, p)
  {
    if points != [] {
      if points[0] < p {
        var head, rest := [points[0]], points[1..];
        calc {
          points;
          head + rest;
          { PointsCutOnce(rest, p); }
          head + (PointsBefore(rest, p) + PointsFrom(rest, p));
          { Grouped(head, PointsBefore(rest, p), PointsFrom(rest, p)); }
          (head + PointsBefore(rest, p)) + PointsFrom(rest, p);
        }
      } else {
        PointsFromAll(points, p);
      }
    }
  }

  lemma {:induction false} PointsFromTwice(points: seq<nat>, p: nat, q: nat)
    requires p <= q
    ensures PointsFrom(PointsFrom(points, p), q) == PointsFrom(points, q)
  {
    if points != [] {
      PointsFromTwice(points[1..], p, q);
      var rest := PointsFrom(points[1..], p);
      if points[0] >= p {
        assert PointsFrom(points, p)[1..] == rest;
      } else {
        assert PointsFrom(points, p) == rest;
      }
    }
  }

  lemma {:induction false} PointsFromRises(points: seq<nat>, p: nat)
    requires Increasing(points)
    ensures Increasing(PointsFrom(points, p))
  {
    if points != [] {
      if points[0] >= p {
        PointsFromAll(points, p);
      } else {
        PointsFromRises(points[1..], p);
        assert PointsFrom(points, p) == PointsFrom(points[1..], p);
      }
    }
  }

  lemma {:induction false} PointsKeepMember(points: seq<nat>, p: nat, x: nat)
    requires x in points && x >= p
    ensures x in PointsFrom(points, p)
  {
    if points[0] != x { PointsKeepMember(points[1..], p, x); }
  }

  /** Of rising offsets, those from a member `q` on are `q` and those past it. */
  lemma {:induction false} PointsFromMember(points: seq<nat>, q: nat)
    requires Increasing(points) && q in points
    ensures PointsFrom(points, q) == [q] + PointsFrom(points, q + 1)
  {
    if points[0] >= q {
      assert points[0] == q;
      PointsFromAll(points, q);
      PointsFromAll(points[1..], q + 1);
      assert points == [q] + points[1..];
      assert PointsFrom(points, q + 1) == PointsFrom(points[1..], q + 1);
    } else {
      PointsFromMember(points[1..], q);
      assert PointsFrom(points, q) == PointsFrom(points[1..], q);
      assert PointsFrom(points, q + 1) == PointsFrom(points[1..], q + 1);
    }
  }

  lemma {:induction false} PointsCutTwice(points: seq<nat>, p: nat, q: nat)
    requires Increasing(points) && p <= q && q in points
    ensures points == PointsBefore(points, p)
                      + (PointsBefore(PointsFrom(points, p), q) + [q]) + PointsFrom(points, q + 1)
  {
    var behind := PointsFrom(points, p);
    calc {
      points;
      { PointsCutOnce(points, p); }
      PointsBefore(points, p) + behind;
      { PointsFromRises(points, p); PointsCutOnce(behind, q); }
      PointsBefore(points, p) + (PointsBefore(behind, q) + PointsFrom(behind, q));
      { PointsFromTwice(points, p, q); PointsFromMember(points, q); }
      PointsBefore(points, p) + (PointsBefore(behind, q) + ([q] + PointsFrom(points, q + 1)));
      { Grouped(PointsBefore(behind, q), [q], PointsFrom(points, q + 1)); }
      PointsBefore(points, p) + ((PointsBefore(behind, q) + [q]) + PointsFrom(points, q + 1));
      { Grouped(PointsBefore(points, p), PointsBefore(behind, q) + [q], PointsFrom(points, q + 1)); }
      PointsBefore(points, p) + (PointsBefore(behind, q) + [q]) + PointsFrom(points, q + 1);
    }
  }

  lemma {:induction false} ShiftPointsMember(points: seq<nat>, p: nat, q: nat)
    requires forall x <- points :: x >= p
    ensures |ShiftPoints(points, p, q)| == |points|
    ensures forall i | 0 <= i < |points| :: ShiftPoints(points, p, q)[i] == q + points[i] - p
  {
    if points != [] {
      assert points[0] in points && forall x <- points[1..] :: x in points;
      ShiftPointsMember(points[1..], p, q);
    }
  }

  // ---- what a rescan may keep ----

  /** A restart point of the previous revision that the edited bytes still allow. */
  ghost predicate StillRestarts(sc: Scanner, was: Source, next: Source, p: nat) {
    && AgreeBefore(was, next, p)
    && (p == 0 || (p in sc.scan(was, 0).checkpoints && sc.permits(next, p)))
  }

  /** What stood in front of the restart point stands there still, and the rest is a scan from it. */
  lemma {:induction false} PrefixIsReused(sc: Scanner, was: Source, next: Source, p: nat)
    requires Contract(sc) && StillRestarts(sc, was, next, p)
    ensures Restartable(sc, next, p)
    ensures Front(sc.scan(was, 0), p) == Front(sc.scan(next, 0), p)
    ensures CutsAt(sc.scan(next, 0), p)
    ensures sc.scan(next[p..], p) == Rest(sc.scan(next, 0), p)
  {
    if p == 0 {
      assert next[0..] == next;
      CutAtStart(sc.scan(was, 0));
      CutAtStart(sc.scan(next, 0));
    } else {
      assert WatermarkHolds(sc, was, next, p);
      assert RestartsAt(sc, next, p);
    }
  }

  lemma {:induction false} CutAtStart(l: Lexed)
    ensures Front(l, 0) == Lexed([], [], []) && Rest(l, 0) == l && CutsAt(l, 0)
  {
    FromStart(l.comments);
    FromStart(l.diagnostics);
    PointsFromAll(l.checkpoints, 0);
  }

  lemma {:induction false} CutLexed(l: Lexed, p: nat)
    requires CutsAt(l, p) && Increasing(l.checkpoints)
    ensures l == Join(Front(l, p), Rest(l, p))
  {
    CutOnce(l.comments, p);
    CutOnce(l.diagnostics, p);
    PointsCutOnce(l.checkpoints, p);
  }

  /** A rescan that ran to the end: the old prefix and the new suffix are the full scan. */
  lemma {:induction false} RescanToEnd(sc: Scanner, was: Source, next: Source, p: nat)
    requires Contract(sc) && StillRestarts(sc, was, next, p)
    ensures sc.scan(next, 0) == Join(Front(sc.scan(was, 0), p), sc.scan(next[p..], p))
  {
    PrefixIsReused(sc, was, next, p);
    assert WellFormedAt(sc, next, 0);
    CutLexed(sc.scan(next, 0), p);
  }

  /** A checkpoint past the edit that stands past the preamble on both sides, and the offset it moved to. */
  ghost predicate MayConverge(sc: Scanner, was: Source, next: Source, c: nat, q: nat) {
    && c in sc.scan(was, 0).checkpoints
    && c <= |was| && q <= |next|
    && was[c..] == next[q..]
    && PreambleIsSettled(was, c) && PreambleIsSettled(next, q)
  }

  /** Past the convergence point the full scan is the old tail, moved. */
  lemma {:induction false} TailIsReused(sc: Scanner, was: Source, next: Source, c: nat, q: nat)
    requires Contract(sc) && MayConverge(sc, was, next, c, q) && q in sc.scan(next, 0).checkpoints
    ensures LiesBehind(Past(sc.scan(was, 0), c), c)
    ensures Past(sc.scan(next, 0), q) == ShiftLexed(Past(sc.scan(was, 0), c), c, q)
    ensures CutsAt(sc.scan(next, 0), q)
  {
    var a, b := sc.scan(was, 0), sc.scan(next, 0);
    assert WellFormedAt(sc, was, 0) && WellFormedAt(sc, next, 0);
    assert c > 0 && q > 0;
    assert Restartable(sc, was, c) && Restartable(sc, next, q);
    assert RestartsAt(sc, was, c);
    assert RestartsAt(sc, next, q);
    assert ShiftHolds(sc, was[c..], c, q);
    PastIsShifted(a, b, c, q);
  }

  lemma {:induction false} PastIsShifted(a: Lexed, b: Lexed, c: nat, q: nat)
    requires Increasing(a.checkpoints) && c in a.checkpoints
    requires Increasing(b.checkpoints) && q in b.checkpoints
    requires LiesBehind(Rest(a, c), c) && Rest(b, q) == ShiftLexed(Rest(a, c), c, q)
    ensures LiesBehind(Past(a, c), c)
    ensures Past(b, q) == ShiftLexed(Past(a, c), c, q)
  {
    PointsFromMember(a.checkpoints, c);
    PointsFromMember(b.checkpoints, q);
    var tail, tail' := PointsFrom(a.checkpoints, c), PointsFrom(b.checkpoints, q);
    assert tail[1..] == PointsFrom(a.checkpoints, c + 1);
    assert tail'[1..] == PointsFrom(b.checkpoints, q + 1);
  }

  /** What a scan found behind checkpoint `c`, the checkpoint itself left out. */
  function Past(l: Lexed, c: nat): Lexed {
    Lexed(From(l.comments, c), From(l.diagnostics, c), PointsFrom(l.checkpoints, c + 1))
  }

  lemma {:induction false} CutLexedTwice(l: Lexed, p: nat, q: nat)
    requires p <= q && CutsAt(l, p) && CutsAt(l, q) && Increasing(l.checkpoints) && q in l.checkpoints
    ensures l == Join(Join(Front(l, p), Through(Rest(l, p), q)), Past(l, q))
  {
    CutTwice(l.comments, p, q);
    CutTwice(l.diagnostics, p, q);
    PointsCutTwice(l.checkpoints, p, q);
  }

  /** A rescan that converged: old prefix, new window and the old tail, moved, are the full scan. */
  lemma {:induction false} RescanToConvergence(sc: Scanner, was: Source, next: Source, p: nat, c: nat, q: nat)
    requires Contract(sc) && StillRestarts(sc, was, next, p) && MayConverge(sc, was, next, c, q)
    requires p <= q && sc.until(next[p..], p, q).1
    ensures q in sc.scan(next, 0).checkpoints
    ensures LiesBehind(Past(sc.scan(was, 0), c), c)
    ensures sc.scan(next, 0) == Join(Join(Front(sc.scan(was, 0), p), sc.until(next[p..], p, q).0),
                                     ShiftLexed(Past(sc.scan(was, 0), c), c, q))
  {
    PrefixIsReused(sc, was, next, p);
    assert WellFormedAt(sc, next, 0);
    assert StopsAt(sc, next[p..], p, q);
    assert q in PointsFrom(sc.scan(next, 0).checkpoints, p);
    TailIsReused(sc, was, next, c, q);
    CutLexedTwice(sc.scan(next, 0), p, q);
  }

  // ---- choosing the window ----

  /** How many of the leading points stand at `limit` or before it. */
  function PartitionPoint(points: seq<nat>, limit: nat): (n: nat)
    ensures n <= |points|
    ensures forall i | 0 <= i < n :: points[i] <= limit
    ensures n < |points| ==> points[n] > limit
  {
    if points != [] && points[0] <= limit then 1 + PartitionPoint(points[1..], limit) else 0
  }

  function LastPermitted(sc: Scanner, next: Source, points: seq<nat>): (r: Option<nat>)
    ensures r.Some? ==> r.value in points && sc.permits(next, r.value)
    ensures r.None? ==> forall p <- points :: !sc.permits(next, p)
  {
    if points == [] then None
    else
      var last := points[|points| - 1];
      if sc.permits(next, last) then Some(last) else LastPermitted(sc, next, points[..|points| - 1])
  }

  /** The checkpoint a rescan starts from, re-asked against the edited bytes; the start when none will do. */
  function SafeStart(sc: Scanner, next: Source, points: seq<nat>, earliest: nat): (p: nat)
    ensures p == 0 || (p in points && p <= earliest && sc.permits(next, p))
  {
    var usable := points[..PartitionPoint(points, earliest)];
    match LastPermitted(sc, next, usable)
    case Some(p) => p
    case None => 0
  }

  /** The first checkpoint behind the edit that stands past the preamble before it and after it. */
  function Convergence(was: Source, next: Source, points: seq<nat>, floor: nat, oldTail: nat,
                       newTail: nat): (r: Option<nat>)
    requires oldTail <= floor
    ensures r.Some? ==> r.value in points && r.value >= floor
    ensures r.Some? ==> PreambleIsSettled(was, r.value) && PreambleIsSettled(next, newTail + r.value - oldTail)
  {
    if points == [] then None
    else if points[0] >= floor && PreambleIsSettled(was, points[0])
            && PreambleIsSettled(next, newTail + points[0] - oldTail) then Some(points[0])
    else Convergence(was, next, points[1..], floor, oldTail, newTail)
  }

  /** Where the rescan from `start` ends: at the convergence point if it gets there, at the end otherwise. */
  function WindowEnd(sc: Scanner, next: Source, start: nat, converge: Option<nat>, oldTail: nat, newTail: nat): nat
    requires start <= |next| && (converge.Some? ==> oldTail <= converge.value)
  {
    match converge
    case None => |next|
    case Some(c) =>
      var q := newTail + c - oldTail;
      if sc.until(next[start..], start, q).1 then q else |next|
  }

  /**
   * The bytes read again after an edit from `first` to `oldTail`: from the last checkpoint in front of it
   * that is still permitted to the first one behind it where the scan converges. A report that was not
   * valid is not reused.
   */
  function RescanWindow(sc: Scanner, was: Source, next: Source, points: seq<nat>, valid: bool, first: nat,
                        oldTail: nat): ByteSpan
    requires first <= oldTail <= |was| && first <= |next| && |was| - oldTail <= |next|
  {
    var newTail := |next| - (|was| - oldTail);
    var start := if valid then SafeStart(sc, next, points, first) else 0;
    var converge := if valid then Convergence(was, next, points, Max(oldTail, start), oldTail, newTail) else None;
    ByteSpan(start, WindowEnd(sc, next, start, converge, oldTail, newTail))
  }

  // ---- no more is read again than must be ----

  /** `x` does not stand between the bytes of a CRLF pair. */
  predicate CutsNoPair(s: Source, x: nat) {
    !(0 < x < |s| && s[x - 1] == CR && s[x] == LF)
  }

  lemma {:induction false} BreaksAreStarts(s: Source, i: nat, end: nat)
    requires i <= end <= |s| && CutsNoPair(s, i) && CutsNoPair(s, end)
    ensures LineBreaks(s, i, end) >= 1 <==> exists a: nat :: i < a <= end && IsLineStart(s, a)
    ensures LineBreaks(s, i, end) >= 2
       <==> exists a: nat, b: nat :: i < a < b <= end && IsLineStart(s, a) && IsLineStart(s, b)
    decreases end - i
  {
    if i < end {
      var paired := s[i] == CR && i + 1 < |s| && s[i + 1] == LF;
      var next := if paired then i + 2 else i + 1;
      var broken := s[i] == CR || s[i] == LF;
      assert IsLineStart(s, next) <==> broken;
      assert paired ==> !IsLineStart(s, i + 1);
      BreaksAreStarts(s, next, end);
      forall a: nat | i < a <= end && IsLineStart(s, a)
        ensures a == next || next < a
      {
      }
    }
  }

  /** The preamble is settled from the third line on. */
  lemma {:induction false} SettledFromThirdLine(s: Source, offset: nat)
    requires offset <= |s| && CutsNoPair(s, offset)
    ensures PreambleIsSettled(s, offset)
       <==> exists a: nat, b: nat :: 0 < a < b <= offset && IsLineStart(s, a) && IsLineStart(s, b)
  {
    BreaksAreStarts(s, 0, offset);
  }

  /** The rescan begins at the last checkpoint in front of the edit that the new bytes permit, or at the very start. */
  ghost predicate BeginsLate(sc: Scanner, next: Source, points: seq<nat>, valid: bool, first: nat, start: nat) {
    && (start == 0 || (valid && start in points && start <= first && sc.permits(next, start)))
    && (valid ==> forall p | p in points && p <= first && sc.permits(next, p) :: p <= start)
  }

  /** A checkpoint behind the edit where the comments that follow are classified as before. */
  ghost predicate IsSettled(was: Source, next: Source, points: seq<nat>, start: nat, oldTail: nat, c: nat) {
    && c in points && oldTail <= c <= |was| && start <= c && |was| - c <= |next|
    && PreambleIsSettled(was, c) && PreambleIsSettled(next, |next| - (|was| - c))
  }

  ghost predicate IsFirstSettled(was: Source, next: Source, points: seq<nat>, start: nat, oldTail: nat, c: nat) {
    && IsSettled(was, next, points, start, oldTail, c)
    && forall d: nat | IsSettled(was, next, points, start, oldTail, d) :: c <= d
  }

  /**
   * The rescan ends where the first settled checkpoint behind the edit has come to stand, if it gets there;
   * otherwise, and where there is no such checkpoint, at the end.
   */
  ghost predicate EndsEarly(sc: Scanner, was: Source, next: Source, points: seq<nat>, valid: bool, oldTail: nat,
                            window: ByteSpan)
    requires window.start <= |next|
  {
    && (forall c: nat | valid && IsFirstSettled(was, next, points, window.start, oldTail, c) ::
          window.end == if sc.until(next[window.start..], window.start, |next| - (|was| - c)).1
                           then |next| - (|was| - c) else |next|)
    && ((!valid || forall c: nat :: !IsSettled(was, next, points, window.start, oldTail, c)) ==> window.end == |next|)
  }

  lemma {:induction false} LastPermittedIsLast(sc: Scanner, next: Source, points: seq<nat>, p: nat)
    requires Increasing(points) && p in points && sc.permits(next, p)
    ensures LastPermitted(sc, next, points).Some? && p <= LastPermitted(sc, next, points).value
  {
    var k :| 0 <= k < |points| && points[k] == p;
    var last := |points| - 1;
    if k == last {
    } else if !sc.permits(next, points[last]) {
      assert points[..last][k] == p;
      LastPermittedIsLast(sc, next, points[..last], p);
    }
  }

  /** Every checkpoint in front of the edit that the new bytes permit is at the start of the rescan or before it. */
  lemma {:induction false} SafeStartIsLate(sc: Scanner, next: Source, points: seq<nat>, first: nat)
    requires Increasing(points)
    ensures BeginsLate(sc, next, points, true, first, SafeStart(sc, next, points, first))
  {
    var usable := points[..PartitionPoint(points, first)];
    forall p | p in points && p <= first && sc.permits(next, p)
      ensures p <= SafeStart(sc, next, points, first)
    {
      var k :| 0 <= k < |points| && points[k] == p;
      assert k < |usable| && usable[k] == p;
      LastPermittedIsLast(sc, next, usable, p);
    }
  }

  /** The convergence point is the first that is settled. */
  lemma {:induction false} ConvergenceIsFirst(was: Source, next: Source, points: seq<nat>, start: nat, oldTail: nat,
                                              newTail: nat)
    requires Increasing(points) && (forall p <- points :: p <= |was|) && oldTail <= |was| && newTail <= |next|
    requires |next| - newTail == |was| - oldTail
    ensures var c := Convergence(was, next, points, Max(oldTail, start), oldTail, newTail);
            if c.Some? then IsFirstSettled(was, next, points, start, oldTail, c.value)
            else forall d: nat :: !IsSettled(was, next, points, start, oldTail, d)
  {
    hide PreambleIsSettled;
    if points != [] {
      assert points[0] in points && forall q <- points[1..] :: q in points;
      ConvergenceIsFirst(was, next, points[1..], start, oldTail, newTail);
      forall d: nat
        ensures IsSettled(was, next, points, start, oldTail, d)
           <==> IsSettled(was, next, points[1..], start, oldTail, d)
                || (d == points[0] && IsSettled(was, next, points, start, oldTail, d))
        ensures d in points ==> points[0] <= d
      {
        assert d in points <==> d == points[0] || d in points[1..];
      }
    }
  }

  /** The window begins as late and ends as early as the scanner allows. */
  lemma {:induction false} WindowIsLeast(sc: Scanner, was: Source, next: Source, points: seq<nat>, valid: bool,
                                         first: nat, oldTail: nat)
    requires Increasing(points) && forall p <- points :: p <= |was|
    requires first <= oldTail <= |was| && first <= |next| && |was| - oldTail <= |next|
    ensures var w := RescanWindow(sc, was, next, points, valid, first, oldTail);
            && BeginsLate(sc, next, points, valid, first, w.start)
            && w.start <= |next| && EndsEarly(sc, was, next, points, valid, oldTail, w)
  {
    hide SafeStart, Convergence, PreambleIsSettled, IsSettled, BeginsLate;
    var newTail := |next| - (|was| - oldTail);
    var w := RescanWindow(sc, was, next, points, valid, first, oldTail);
    if valid {
      SafeStartIsLate(sc, next, points, first);
      ConvergenceIsFirst(was, next, points, w.start, oldTail, newTail);
      var c := Convergence(was, next, points, Max(oldTail, w.start), oldTail, newTail);
      if c.Some? { OneFirstSettled(was, next, points, w.start, oldTail, c.value); }
    } else {
      BeginsAtStart(sc, next, points, first);
    }
  }

  lemma {:induction false} OneFirstSettled(was: Source, next: Source, points: seq<nat>, start: nat, oldTail: nat,
                                           c: nat)
    requires IsFirstSettled(was, next, points, start, oldTail, c)
    ensures c in points && oldTail <= c <= |was| && |was| - c <= |next|
    ensures forall d: nat | IsFirstSettled(was, next, points, start, oldTail, d) :: d == c
    ensures IsSettled(was, next, points, start, oldTail, c)
  {
  }

  lemma {:induction false} BeginsAtStart(sc: Scanner, next: Source, points: seq<nat>, first: nat)
    ensures BeginsLate(sc, next, points, false, first, 0)
  {
  }

  /** The moved checkpoints of the old tail that the edited bytes still allow. */
  function KeepPermitted(sc: Scanner, next: Source, points: seq<nat>): seq<nat> {
    if points == [] then []
    else (if sc.permits(next, points[0]) then [points[0]] else []) + KeepPermitted(sc, next, points[1..])
  }

  /** Rust's `dedup`: of equal neighbours, the first. */
  function Dedup(points: seq<nat>): seq<nat>
    decreases |points|
  {
    if |points| <= 1 then points
    else if points[0] == points[1] then Dedup([points[0]] + points[2..])
    else [points[0]] + Dedup(points[1..])
  }

  lemma {:induction false} KeepPermittedAll(sc: Scanner, next: Source, points: seq<nat>)
    requires forall i | 0 <= i < |points| :: sc.permits(next, points[i])
    ensures KeepPermitted(sc, next, points) == points
  {
    if points != [] { KeepPermittedAll(sc, next, points[1..]); }
  }

  lemma {:induction false} DedupRising(points: seq<nat>)
    requires Increasing(points)
    ensures Dedup(points) == points
    decreases |points|
  {
    if |points| > 1 { DedupRising(points[1..]); }
  }

  /** Every checkpoint the full scan offers was permitted when it was offered. */
  lemma {:induction false} LaterPointsArePermitted(sc: Scanner, next: Source, q: nat)
    requires Contract(sc)
    ensures var later := PointsFrom(sc.scan(next, 0).checkpoints, q + 1);
            KeepPermitted(sc, next, later) == later
  {
    var full := sc.scan(next, 0).checkpoints;
    var later := PointsFrom(full, q + 1);
    assert WellFormedAt(sc, next, 0);
    forall i | 0 <= i < |later|
      ensures sc.permits(next, later[i])
    {
      assert later[i] in later;
      assert later[i] in full && later[i] > 0;
      assert Restartable(sc, next, later[i]);
      assert RestartsAt(sc, next, later[i]);
    }
    KeepPermittedAll(sc, next, later);
  }

  method CheckBatch(changes: seq<Edit>, n: nat) returns (ok: bool)
    ensures ok == Ordered(changes, 0, n)
  {
    var cursor: nat := 0;
    var i := 0;
    while i < |changes|
      invariant 0 <= i <= |changes| && cursor <= n
      invariant Ordered(changes, 0, n) == Ordered(changes[i..], cursor, n)
    {
      var change := changes[i];
      assert changes[i..][0] == change && changes[i..][1..] == changes[i + 1..];
      if change.span.start > change.span.end || change.span.start < cursor || change.span.end > n {
        return false;
      }
      cursor := change.span.end;
      i := i + 1;
    }
    assert changes[i..] == [];
    ok := true;
  }

  /** The next revision, and where the untouched tail begins in the old one and in the new. */
  method Splice(source: Source, changes: seq<Edit>) returns (next: Source, oldTail: nat, newTail: nat)
    requires changes != [] && Ordered(changes, 0, |source|)
    ensures next == Apply(source, changes)
    ensures oldTail == changes[|changes| - 1].span.end
    ensures changes[0].span.start <= oldTail <= |source| && changes[0].span.start <= newTail <= |next|
    ensures next[newTail..] == source[oldTail..] && |next| - newTail == |source| - oldTail
    ensures next[..changes[0].span.start] == source[..changes[0].span.start]
  {
    next := [];
    var cursor: nat := 0;
    var i := 0;
    while i < |changes|
      invariant 0 <= i <= |changes|
      invariant Ordered(changes[i..], cursor, |source|)
      invariant i > 0 ==> cursor == changes[i - 1].span.end && |next| >= changes[0].span.start
      invariant i == 0 ==> cursor == 0
      invariant next + ApplyFrom(source, changes[i..], cursor) == Apply(source, changes)
    {
      var change := changes[i];
      ApplyStep(source, changes, i, cursor);
      Regroup(next, source[cursor..change.span.start], change.replacement,
              ApplyFrom(source, changes[i + 1..], change.span.end));
      next := next + source[cursor..change.span.start] + change.replacement;
      cursor := change.span.end;
      i := i + 1;
    }
    oldTail, newTail := cursor, |next|;
    next := next + source[cursor..];
    ApplyKeepsEnds(source, changes, 0);
    OrderedBounds(changes, 0, |source|);
    assert source[0..changes[0].span.start] == source[..changes[0].span.start];
  }

  class IncrementalDocument {
    const scanner: Scanner
    var source: Source
    /** The lexical comments, as they stood before the contextual rules read them. */
    var scanned: seq<Comment>
    var report: Report
    var checkpoints: seq<nat>
    var safeCheckpoints: seq<nat>
    var version: int
    var lastRescan: ByteSpan

    /** Everything held is what a fresh full scan of the current bytes says. */
    ghost predicate Valid()
      reads this
    {
      var full := scanner.scan(source, 0);
      && Contract(scanner)
      && scanned == full.comments
      && report == FullReport(scanner, source)
      && safeCheckpoints == full.checkpoints
      && IsLineTable(source, checkpoints)
    }

    constructor (scanner: Scanner, source: Source, version: int)
      requires Contract(scanner)
      ensures Valid()
      ensures this.scanner == scanner && this.source == source && this.version == version
      ensures lastRescan == ByteSpan(0, |source|)
    {
      var lexed := scanner.scan(source, 0);
      var (comments, runs) := scanner.contextual(source, lexed.comments);
      var lines := LineCheckpoints(source);
      this.scanner := scanner;
      this.source := source;
      this.scanned := lexed.comments;
      this.report := Report(comments, runs, lexed.diagnostics, Scanning.Valid(lexed.diagnostics));
      this.checkpoints := lines;
      this.safeCheckpoints := lexed.checkpoints;
      this.version := version;
      this.lastRescan := ByteSpan(0, |source|);
    }

    /**
     * Apply a sorted batch whose spans address the current bytes. A refused batch changes nothing; an
     * accepted one leaves exactly what a full scan of the new bytes would, whatever was reused. The
     * bytes outside `lastRescan` are bytes the old revision already had.
     */
    method ApplyChanges(changes: seq<Edit>, version: int) returns (r: Result<Report, IncrementalError>)
      requires Valid()
      modifies this
      ensures Valid()
      ensures version <= old(this.version) ==> r == Failure(StaleVersion(version, old(this.version)))
      ensures version > old(this.version) && !Ordered(changes, 0, |old(source)|) ==> r == Failure(InvalidSpan)
      ensures r.Failure? ==>
                && source == old(source) && scanned == old(scanned) && report == old(report)
                && checkpoints == old(checkpoints) && safeCheckpoints == old(safeCheckpoints)
                && this.version == old(this.version) && lastRescan == old(lastRescan)
      ensures r.Success? <==> version > old(this.version) && Ordered(changes, 0, |old(source)|)
      ensures r.Success? ==>
                && source == Apply(old(source), changes)
                && this.version == version
                && r.value == report == FullReport(scanner, source)
                && WindowCovers(old(source), source, lastRescan)
      ensures r.Success? && changes == [] ==> lastRescan == ByteSpan(|source|, |source|)
      ensures r.Success? && changes != [] ==>
                var first, oldTail := changes[0].span.start, changes[|changes| - 1].span.end;
                && first <= oldTail <= |old(source)| && first <= |source| && |old(source)| - oldTail <= |source|
                && lastRescan == RescanWindow(scanner, old(source), source, old(safeCheckpoints), old(report.valid),
                                              first, oldTail)
                && BeginsLate(scanner, source, old(safeCheckpoints), old(report.valid), first, lastRescan.start)
                && EndsEarly(scanner, old(source), source, old(safeCheckpoints), old(report.valid), oldTail, lastRescan)
    {
      if version <= this.version { return Failure(StaleVersion(version, this.version)); }
      var ok := CheckBatch(changes, |source|);
      if !ok { return Failure(InvalidSpan); }
      if changes == [] {
        this.version := version;
        lastRescan := ByteSpan(|source|, |source|);
        return Success(report);
      }
      var next, comments, revised, lines, points, window :=
        Revise(scanner, source, scanned, report, safeCheckpoints, changes);
      assert WellFormedAt(scanner, source, 0);
      WindowIsLeast(scanner, source, next, safeCheckpoints, report.valid, changes[0].span.start,
                    changes[|changes| - 1].span.end);
      lastRescan := window;
      source := next;
      scanned := comments;
      report := revised;
      checkpoints := lines;
      safeCheckpoints := points;
      this.version := version;
      return Success(report);
    }
  }

  /** What `lastRescan` promises: the bytes on either side of the window are bytes the old revision had. */
  ghost predicate WindowCovers(was: Source, next: Source, window: ByteSpan) {
    && window.start <= window.end <= |next|
    && AgreeBefore(was, next, window.start)
    && |next| - window.end <= |was|
    && next[window.end..] == was[|was| - (|next| - window.end)..]
  }

  /** The next revision of everything a document holds. */
  method Revise(sc: Scanner, source: Source, scanned: seq<Comment>, report: Report, points: seq<nat>,
                changes: seq<Edit>)
    returns (next: Source, comments: seq<Comment>, revised: Report, lines: seq<nat>, points': seq<nat>,
             window: ByteSpan)
    requires Contract(sc) && sc.scan(source, 0) == Lexed(scanned, report.diagnostics, points)
    requires changes != [] && Ordered(changes, 0, |source|)
    ensures next == Apply(source, changes)
    ensures sc.scan(next, 0) == Lexed(comments, revised.diagnostics, points')
    ensures revised == FullReport(sc, next)
    ensures IsLineTable(next, lines)
    ensures WindowCovers(source, next, window)
    ensures var first, oldTail := changes[0].span.start, changes[|changes| - 1].span.end;
            && first <= oldTail <= |source| && first <= |next| && |source| - oldTail <= |next|
            && window == RescanWindow(sc, source, next, points, report.valid, first, oldTail)
  {
    hide Contract, StillRestarts, Ordered, IsLineTable, WindowCovers, Apply;
    var oldTail, newTail;
    next, oldTail, newTail := Splice(source, changes);
    var earliest := changes[0].span.start;
    var safeStart, converge := ChooseWindow(sc, source, next, points, report.valid, earliest, oldTail, newTail);
    var lexed, rescanEnd := Rescan(sc, source, next, Lexed(scanned, report.diagnostics, points),
                                   safeStart, converge, oldTail, newTail);
    comments, points' := lexed.comments, lexed.checkpoints;
    var (judged, runs) := sc.contextual(next, comments);
    lines := LineCheckpoints(next);
    window := ByteSpan(safeStart, rescanEnd);
    WindowStands(source, next, earliest, window);
    revised := Report(judged, runs, lexed.diagnostics, Scanning.Valid(lexed.diagnostics));
  }

  /** Where the rescan starts, and where it may stop. */
  method ChooseWindow(sc: Scanner, source: Source, next: Source, points: seq<nat>, valid: bool,
                      earliest: nat, oldTail: nat, newTail: nat)
    returns (safeStart: nat, converge: Option<nat>)
    requires Contract(sc) && points == sc.scan(source, 0).checkpoints
    requires earliest <= oldTail <= |source| && earliest <= newTail <= |next| && |next| - newTail == |source| - oldTail
    requires next[..earliest] == source[..earliest]
    ensures safeStart == if valid then SafeStart(sc, next, points, earliest) else 0
    ensures converge == if valid then Convergence(source, next, points, Max(oldTail, safeStart), oldTail, newTail)
            else None
    ensures safeStart <= earliest && StillRestarts(sc, source, next, safeStart)
    ensures converge.Some? ==>
              && converge.value in points && converge.value >= oldTail
              && PreambleIsSettled(source, converge.value)
              && PreambleIsSettled(next, newTail + converge.value - oldTail)
  {
    SafeStartStands(sc, source, next, earliest);
    safeStart := if valid then SafeStart(sc, next, points, earliest) else 0;
    converge := if valid
      then Convergence(source, next, points, Max(oldTail, safeStart), oldTail, newTail) else None;
  }

  lemma {:induction false} WindowStands(was: Source, next: Source, first: nat, window: ByteSpan)
    requires first <= |was| && first <= |next| && next[..first] == was[..first]
    requires window.start <= first && window.start <= window.end <= |next| && |next| - window.end <= |was|
    requires next[window.end..] == was[|was| - (|next| - window.end)..]
    ensures WindowCovers(was, next, window)
  {
    assert next[..window.start] == next[..first][..window.start] == was[..first][..window.start];
  }

  /** A checkpoint behind the edit stands in bytes that only moved. */
  lemma {:induction false} TailsAgree(sc: Scanner, was: Source, next: Source, c: nat, oldTail: nat, newTail: nat)
    requires Contract(sc) && c in sc.scan(was, 0).checkpoints && oldTail <= c
    requires oldTail <= |was| && newTail <= |next| && was[oldTail..] == next[newTail..]
    ensures c <= |was| && newTail + c - oldTail <= |next| && was[c..] == next[newTail + c - oldTail..]
  {
    assert WellFormedAt(sc, was, 0);
    assert was[c..] == was[oldTail..][c - oldTail..] == next[newTail..][c - oldTail..];
  }

  /** The checkpoint chosen to start from is one the edited bytes still allow. */
  lemma {:induction false} SafeStartStands(sc: Scanner, was: Source, next: Source, first: nat)
    requires Contract(sc) && first <= |was| && first <= |next| && next[..first] == was[..first]
    ensures StillRestarts(sc, was, next, SafeStart(sc, next, sc.scan(was, 0).checkpoints, first))
    ensures StillRestarts(sc, was, next, 0)
    ensures SafeStart(sc, next, sc.scan(was, 0).checkpoints, first) <= first
  {
    var start := SafeStart(sc, next, sc.scan(was, 0).checkpoints, first);
    assert WellFormedAt(sc, was, 0);
    assert next[..start] == next[..first][..start] == was[..first][..start];
  }

  /** The scan of the window, joined to what is kept on either side of it. */
  method Rescan(sc: Scanner, ghost was: Source, next: Source, held: Lexed,
                safeStart: nat, converge: Option<nat>, oldTail: nat, newTail: nat)
    returns (lexed: Lexed, rescanEnd: nat)
    requires Contract(sc) && StillRestarts(sc, was, next, safeStart)
    requires sc.scan(was, 0) == held
    requires oldTail <= |was| && newTail <= |next| && was[oldTail..] == next[newTail..] && safeStart <= newTail
    requires converge.Some? ==>
               && converge.value in held.checkpoints && converge.value >= oldTail
               && PreambleIsSettled(was, converge.value)
               && PreambleIsSettled(next, newTail + converge.value - oldTail)
    ensures lexed == sc.scan(next, 0)
    ensures rescanEnd == WindowEnd(sc, next, safeStart, converge, oldTail, newTail)
    ensures safeStart <= rescanEnd <= |next|
    ensures |next| - rescanEnd <= |was| && next[rescanEnd..] == was[|was| - (|next| - rescanEnd)..]
  {
    hide Contract;
    var suffix;
    if converge.Some? {
      var c := converge.value;
      var q := newTail + c - oldTail;
      TailsAgree(sc, was, next, c, oldTail, newTail);
      var (part, converged) := sc.until(next[safeStart..], safeStart, q);
      if converged {
        lexed := JoinTail(sc, was, next, held, safeStart, part, c, q);
        rescanEnd := q;
        return;
      }
      UntilRanOn(sc, was, next, safeStart, q);
      suffix := part;
    } else {
      suffix := sc.scan(next[safeStart..], safeStart);
    }
    lexed := JoinRest(sc, was, next, held, safeStart, suffix);
    rescanEnd := |next|;
  }

  lemma {:induction false} UntilRanOn(sc: Scanner, was: Source, next: Source, p: nat, q: nat)
    requires Contract(sc) && StillRestarts(sc, was, next, p) && !sc.until(next[p..], p, q).1
    ensures sc.until(next[p..], p, q).0 == sc.scan(next[p..], p)
  {
    PrefixIsReused(sc, was, next, p);
    assert StopsAt(sc, next[p..], p, q);
  }

  /** The window converged: the tail of the last report, moved, goes behind it. */
  method JoinTail(sc: Scanner, ghost was: Source, next: Source, held: Lexed, p: nat, part: Lexed, c: nat, q: nat)
    returns (lexed: Lexed)
    requires Contract(sc) && StillRestarts(sc, was, next, p) && MayConverge(sc, was, next, c, q) && p <= q
    requires held == sc.scan(was, 0) && sc.until(next[p..], p, q) == (part, true)
    ensures lexed == sc.scan(next, 0)
  {
    RescanToConvergence(sc, was, next, p, c, q);
    TailIsPermitted(sc, was, next, c, q);
    var tail := ShiftLexed(Past(held, c), c, q);
    tail := tail.(checkpoints := KeepPermitted(sc, next, tail.checkpoints));
    lexed := Join(Join(Front(held, p), part), tail);
    lexed := lexed.(checkpoints := Dedup(lexed.checkpoints));
  }

  /** The window ran to the end of the document. */
  method JoinRest(sc: Scanner, ghost was: Source, next: Source, held: Lexed, p: nat, suffix: Lexed)
    returns (lexed: Lexed)
    requires Contract(sc) && StillRestarts(sc, was, next, p)
    requires held == sc.scan(was, 0) && suffix == sc.scan(next[p..], p)
    ensures lexed == sc.scan(next, 0)
  {
    RescanToEnd(sc, was, next, p);
    assert WellFormedAt(sc, next, 0);
    lexed := Join(Front(held, p), suffix);
    DedupRising(lexed.checkpoints);
    lexed := lexed.(checkpoints := Dedup(lexed.checkpoints));
  }

  /** Re-asking the moved checkpoints of a converged tail withdraws none, and none of the whole is a duplicate. */
  lemma {:induction false} TailIsPermitted(sc: Scanner, was: Source, next: Source, c: nat, q: nat)
    requires Contract(sc) && MayConverge(sc, was, next, c, q) && q in sc.scan(next, 0).checkpoints
    ensures LiesBehind(Past(sc.scan(was, 0), c), c)
    ensures var tail := ShiftLexed(Past(sc.scan(was, 0), c), c, q).checkpoints;
            KeepPermitted(sc, next, tail) == tail
    ensures Dedup(sc.scan(next, 0).checkpoints) == sc.scan(next, 0).checkpoints
  {
    TailIsReused(sc, was, next, c, q);
    LaterPointsArePermitted(sc, next, q);
    assert WellFormedAt(sc, next, 0);
    DedupRising(sc.scan(next, 0).checkpoints);
  }

  // ---- whole runs ----

  datatype Batch = Batch(changes: seq<Edit>, version: int)

  datatype Revision = Revision(source: Source, version: int)

  predicate Accepted(at: Revision, batch: Batch) {
    batch.version > at.version && Ordered(batch.changes, 0, |at.source|)
  }

  /** What a run of batches makes of a revision: the accepted ones applied in turn, the refused ones skipped. */
  ghost function After(at: Revision, batches: seq<Batch>): (r: Revision)
    ensures r.version >= at.version
    decreases |batches|
  {
    if batches == [] then at
    else After(AfterOne(at, batches[0]), batches[1..])
  }

  ghost function AfterOne(at: Revision, batch: Batch): (r: Revision)
    ensures r.version >= at.version && (Accepted(at, batch) ==> r.version > at.version)
  {
    if Accepted(at, batch) then Revision(Apply(at.source, batch.changes), batch.version) else at
  }

  /** Over every run, the document ends where a full scan of the bytes the run made would have put it. */
  method Replay(scanner: Scanner, source: Source, version: int, batches: seq<Batch>)
    returns (document: IncrementalDocument)
    requires Contract(scanner)
    ensures fresh(document) && document.Valid() && document.scanner == scanner
    ensures Revision(document.source, document.version) == After(Revision(source, version), batches)
    ensures document.report == FullReport(scanner, After(Revision(source, version), batches).source)
  {
    document := new IncrementalDocument(scanner, source, version);
    ghost var start := Revision(source, version);
    var i := 0;
    while i < |batches|
      invariant 0 <= i <= |batches|
      invariant fresh(document) && document.Valid() && document.scanner == scanner
      invariant After(Revision(document.source, document.version), batches[i..]) == After(start, batches)
    {
      ghost var at := Revision(document.source, document.version);
      assert batches[i..][0] == batches[i] && batches[i..][1..] == batches[i + 1..];
      var _ := document.ApplyChanges(batches[i].changes, batches[i].version);
      assert Revision(document.source, document.version) == AfterOne(at, batches[i]);
      i := i + 1;
    }
    assert batches[i..] == [];
  }
}
