/**
 * What a lexical scan reports, and what the incremental document is entitled to expect of a scanner.
 *
 * A comment and a diagnostic are both something found at a span, so one generic record carries
 * either; the incremental document only ever reads and moves the span.
 */
module Scanning {
  import opened Bytes
  import opened Edits

  datatype CommentKind =
    | Line | Block | DocLine | DocBlock | Directive | License | HtmlComment
    | Shebang | Encoding | OptimizerHint | VersionComment | LoadBearing

  datatype Disposition = Remove | Keep | Rewrite(replacement: Source)

  datatype Severity = Error | Warning | Info | Hint

  datatype Located<T> = Located(span: ByteSpan, what: T)

  datatype Classified = Classified(kind: CommentKind, disposition: Disposition)

  datatype Fault = Fault(code: string, severity: Severity)

  type Comment = Located<Classified>

  type Diagnostic = Located<Fault>

  /** A stretch of comment prose a style rule rewrote as one. */
  datatype ProseRun = ProseRun(span: ByteSpan, replacement: Source)

  /** One lexical scan: what it found, and the offsets a later scan may restart from. */
  datatype Lexed = Lexed(comments: seq<Comment>, diagnostics: seq<Diagnostic>, checkpoints: seq<nat>)

  predicate IsFailure(d: Diagnostic) {
    d.what.severity == Error
  }

  predicate Valid(diagnostics: seq<Diagnostic>) {
    forall d <- diagnostics :: !IsFailure(d)
  }

  // ---- the pieces of a report on either side of an offset ----

  /** The items in front of `p`, up to the first that is not. */
  function Before<T>(items: seq<Located<T>>, p: nat): (r: seq<Located<T>>)
    ensures r <= items
  {
    if items != [] && items[0].span.start < p && items[0].span.end <= p
    then [items[0]] + Before(items[1..], p) else []
  }

  /** The items that start at `p` or behind it. */
  function From<T>(items: seq<Located<T>>, p: nat): (r: seq<Located<T>>)
    ensures forall x <- r :: x in items && x.span.start >= p
  {
    if items == [] then []
    else (if items[0].span.start >= p then [items[0]] else []) + From(items[1..], p)
  }

  function PointsBefore(points: seq<nat>, p: nat): (r: seq<nat>)
    ensures r <= points
  {
    if points != [] && points[0] < p then [points[0]] + PointsBefore(points[1..], p) else []
  }

  function PointsFrom(points: seq<nat>, p: nat): (r: seq<nat>)
    ensures forall x <- r :: x >= p && x in points
  {
    if points == [] then []
    else (if points[0] >= p then [points[0]] else []) + PointsFrom(points[1..], p)
  }

  /** Where a tail that began at `oldBase` sits once it begins at `newBase`. */
  function ShiftTailSpan(span: ByteSpan, oldBase: nat, newBase: nat): ByteSpan
    requires oldBase <= span.start && oldBase <= span.end
  {
    ByteSpan(newBase + span.start - oldBase, newBase + span.end - oldBase)
  }

  ghost predicate AllBehind<T>(items: seq<Located<T>>, p: nat) {
    forall x <- items :: p <= x.span.start <= x.span.end
  }

  function Shift<T>(items: seq<Located<T>>, oldBase: nat, newBase: nat): seq<Located<T>>
    requires AllBehind(items, oldBase)
  {
    if items == [] then []
    else
      [items[0].(span := ShiftTailSpan(items[0].span, oldBase, newBase))] + Shift(items[1..], oldBase, newBase)
  }

  function ShiftPoints(points: seq<nat>, oldBase: nat, newBase: nat): seq<nat>
    requires forall x <- points :: x >= oldBase
  {
    if points == [] then []
    else
      assert points[0] in points && forall x <- points[1..] :: x in points;
      var moved: nat := newBase + points[0] - oldBase;
      [moved] + ShiftPoints(points[1..], oldBase, newBase)
  }

  /** No item reaches across `p`, and those in front of it come first. */
  ghost predicate SplitsAt<T>(items: seq<Located<T>>, p: nat) {
    items != [] ==>
      if items[0].span.start < p then items[0].span.end <= p && SplitsAt(items[1..], p)
      else forall i | 0 <= i < |items| :: items[i].span.start >= p
  }

  ghost predicate Increasing(points: seq<nat>) {
    forall i, j | 0 <= i < j < |points| :: points[i] < points[j]
  }

  /** The part of a scan in front of `p`. */
  function Front(l: Lexed, p: nat): Lexed {
    Lexed(Before(l.comments, p), Before(l.diagnostics, p), PointsBefore(l.checkpoints, p))
  }

  /** The part of a scan in front of checkpoint `p`, and the checkpoint itself. */
  function Through(l: Lexed, p: nat): Lexed {
    Front(l, p).(checkpoints := PointsBefore(l.checkpoints, p) + [p])
  }

  /** The part of a scan from `p` on. */
  function Rest(l: Lexed, p: nat): Lexed {
    Lexed(From(l.comments, p), From(l.diagnostics, p), PointsFrom(l.checkpoints, p))
  }

  function Join(a: Lexed, b: Lexed): Lexed {
    Lexed(a.comments + b.comments, a.diagnostics + b.diagnostics, a.checkpoints + b.checkpoints)
  }

  ghost predicate CutsAt(l: Lexed, p: nat) {
    SplitsAt(l.comments, p) && SplitsAt(l.diagnostics, p)
  }

  /** Everything a scan found lies at `o` or behind it, and its checkpoints rise. */
  ghost predicate LiesBehind(l: Lexed, o: nat) {
    && AllBehind(l.comments, o) && AllBehind(l.diagnostics, o)
    && (forall p <- l.checkpoints :: o <= p)
  }

  function ShiftLexed(l: Lexed, oldBase: nat, newBase: nat): Lexed
    requires LiesBehind(l, oldBase)
  {
    Lexed(Shift(l.comments, oldBase, newBase), Shift(l.diagnostics, oldBase, newBase),
          ShiftPoints(l.checkpoints, oldBase, newBase))
  }

  // ---- the first two lines ----

  /**
   * How many line breaks end at or before `end`, a CRLF pair being one, counting no further than two.
   * `index` may step past `end` over the LF of a pair, exactly as the loop it mirrors does.
   */
  function LineBreaks(source: Source, index: nat, end: nat): nat
    requires end <= |source|
    decreases |source| - index
  {
    if index >= end then 0
    else if source[index] == CR then
      1 + LineBreaks(source, if index + 1 < |source| && source[index + 1] == LF then index + 2 else index + 1, end)
    else if source[index] == LF then 1 + LineBreaks(source, index + 1, end)
    else LineBreaks(source, index + 1, end)
  }

  /** Whether a comment at `offset` classifies the same wherever an edit moves it to. */
  predicate PreambleIsSettled(source: Source, offset: nat) {
    LineBreaks(source, 0, Min(offset, |source|)) >= 2
  }

  // ---- the scanner and its contract ----

  /**
   * A scanner, as the incremental document sees one.
   *
   * `scan(s, o)` reads `s`, a whole document or the whole rest of one, whose first byte stands at
   * absolute offset `o`. `until` stops at a checkpoint when the scan reaches it. `permits` is the
   * restart rule asked of an edited document. `contextual` is every rule that reads comments together.
   */
  datatype Scanner = Scanner(
    scan: (Source, nat) -> Lexed,
    until: (Source, nat, nat) -> (Lexed, bool),
    permits: (Source, nat) -> bool,
    contextual: (Source, seq<Comment>) -> (seq<Comment>, seq<ProseRun>))

  /** The checkpoints of a scan rise, and everything it finds lies at or behind its first byte. */
  ghost predicate WellFormedAt(sc: Scanner, s: Source, o: nat) {
    var lexed := sc.scan(s, o);
    && Increasing(lexed.checkpoints)
    && LiesBehind(lexed, o)
    && (forall p <- lexed.checkpoints :: p <= o + |s|)
  }

  /** What a full scan says from checkpoint `p` on, it says again when it starts there. */
  ghost predicate RestartsAt(sc: Scanner, s: Source, p: nat)
    requires p <= |s|
  {
    var full := sc.scan(s, 0);
    CutsAt(full, p) && sc.scan(s[p..], p) == Rest(full, p) && sc.permits(s, p)
  }

  /**
   * The watermark: nothing decided before checkpoint `p` of `s` read a byte at or behind `p`, so a
   * document that agrees with `s` up to there, and whose own bytes permit a restart there, reports the
   * same things in front of `p` and offers `p` again.
   */
  ghost predicate WatermarkHolds(sc: Scanner, s: Source, t: Source, p: nat) {
    p in sc.scan(t, 0).checkpoints && Front(sc.scan(s, 0), p) == Front(sc.scan(t, 0), p)
  }

  /** The rest of a document is read alike from `p` and from `q`, up to the distance between the two. */
  ghost predicate ShiftHolds(sc: Scanner, s: Source, p: nat, q: nat) {
    LiesBehind(sc.scan(s, p), p) && sc.scan(s, q) == ShiftLexed(sc.scan(s, p), p, q)
  }

  /** A scan told where to stop either never got there and is the whole scan, or is the scan up to there. */
  ghost predicate StopsAt(sc: Scanner, s: Source, o: nat, stop: nat) {
    var full := sc.scan(s, o);
    var (part, stopped) := sc.until(s, o, stop);
    if stopped then stop in full.checkpoints && part == Through(full, stop)
    else part == full
  }

  ghost predicate AgreeBefore(s: Source, t: Source, p: nat) {
    p <= |s| && p <= |t| && s[..p] == t[..p]
  }

  /** `p` is where a restart may begin: a checkpoint of the full scan, or the very start. */
  ghost predicate Restartable(sc: Scanner, s: Source, p: nat) {
    p <= |s| && (p == 0 || p in sc.scan(s, 0).checkpoints)
  }

  /** What the incremental document expects of a scanner, and all it expects. */
  ghost predicate Contract(sc: Scanner) {
    && (forall s :: WellFormedAt(sc, s, 0))
    && (forall s, p: nat | Restartable(sc, s, p) && p > 0 :: RestartsAt(sc, s, p))
    && (forall s, t, p | p in sc.scan(s, 0).checkpoints && AgreeBefore(s, t, p) && sc.permits(t, p)
          :: WatermarkHolds(sc, s, t, p))
    && (forall s, t, p: nat, q: nat
          | Restartable(sc, s, p) && Restartable(sc, t, q) && s[p..] == t[q..]
            && PreambleIsSettled(s, p) && PreambleIsSettled(t, q)
          :: ShiftHolds(sc, s[p..], p, q))
    && (forall s, p: nat, stop | Restartable(sc, s, p) :: StopsAt(sc, s[p..], p, stop))
  }
}
