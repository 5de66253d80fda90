/**
 * The declarative profile scanner: a table of delimiters, the checks that make every position of a source
 * readable in one way only, and the single pass that reads it.
 */
module Profiles {
  import opened Bytes
  import opened Edits
  import opened Scanning

  datatype LineDelimiter = LineDelimiter(start: Source, requiresBoundary: bool, requiresLineStart: bool,
                                         forbiddenAfter: Source, kind: CommentKind)

  datatype BlockDelimiter = BlockDelimiter(start: Source, end: Source, nested: bool, kind: CommentKind)

  datatype StringDelimiter = StringDelimiter(start: Source, end: Source, escape: Option<Source>, multiline: bool)

  /** Whether a name or a reason is blank is a question about Unicode, and is answered elsewhere. */
  datatype ProtectedPattern = ProtectedPattern(contains: Source, reasonIsBlank: bool)

  datatype Profile = Profile(nameIsBlank: bool, lines: seq<LineDelimiter>, blocks: seq<BlockDelimiter>,
                             strings: seq<StringDelimiter>, patterns: seq<ProtectedPattern>)

  // ---- what a profile must be ----

  datatype ProfileError =
    | EmptyName | NoCommentDelimiter | EmptyDelimiter(which: string) | NewlineDelimiter | InvalidNesting
    | AmbiguousDelimiter(left: Source, right: Source) | AmbiguousStringDelimiter(left: Source, right: Source)
    | CommentStringCollision(left: Source, right: Source) | EmptyProtectedPattern

  predicate IsToken(t: Source) {
    t != [] && CR !in t && LF !in t
  }

  predicate Starts(source: Source, i: nat, token: Source) {
    i + |token| <= |source| && source[i..i + |token|] == token
  }

  predicate Contains(text: Source, part: Source) {
    exists k | 0 <= k <= |text| :: Starts(text, k, part)
  }

  predicate Prefixed(a: Source, b: Source) {
    a <= b || b <= a
  }

  predicate NestsSoundly(d: BlockDelimiter) {
    d.nested ==> !Contains(d.start, d.end) && !Contains(d.end, d.start)
  }

  predicate IsBlock(d: BlockDelimiter) {
    IsToken(d.start) && IsToken(d.end) && NestsSoundly(d)
  }

  predicate IsString(d: StringDelimiter) {
    IsToken(d.start) && IsToken(d.end) && (d.escape.Some? ==> IsToken(d.escape.value))
  }

  /** The tokens comments open with, lines first. */
  function CommentStarts(p: Profile): (s: seq<Source>)
    ensures |s| == |p.lines| + |p.blocks|
    ensures forall i | 0 <= i < |p.lines| :: s[i] == p.lines[i].start
    ensures forall i | 0 <= i < |p.blocks| :: s[|p.lines| + i] == p.blocks[i].start
  {
    seq(|p.lines|, i requires 0 <= i < |p.lines| => p.lines[i].start)
    + seq(|p.blocks|, i requires 0 <= i < |p.blocks| => p.blocks[i].start)
  }

  /** No two comments open with one token; strings open with tokens none of which begins another or a comment. */
  ghost predicate Unambiguous(p: Profile) {
    var comments := CommentStarts(p);
    && (forall i, j | 0 <= i < j < |comments| :: comments[i] != comments[j])
    && (forall i, j | 0 <= i < |comments| && 0 <= j < |p.strings| :: !Prefixed(comments[i], p.strings[j].start))
    && (forall i, j | 0 <= i < j < |p.strings| :: !Prefixed(p.strings[i].start, p.strings[j].start))
  }

  ghost predicate Accepted(p: Profile) {
    && !p.nameIsBlank
    && (p.lines != [] || p.blocks != [])
    && (forall d <- p.lines :: IsToken(d.start))
    && (forall d <- p.blocks :: IsBlock(d))
    && (forall d <- p.strings :: IsString(d))
    && Unambiguous(p)
    && (forall t <- p.patterns :: t.contains != [] && !t.reasonIsBlank)
  }

  /** `t` is spelled somewhere in the profile. */
  ghost predicate Spells(p: Profile, t: Source) {
    || (exists d <- p.lines :: d.start == t)
    || (exists d <- p.blocks :: d.start == t || d.end == t)
    || (exists d <- p.strings :: d.start == t || d.end == t || d.escape == Some(t))
  }

  /** What an error says of the profile. */
  ghost predicate Explains(p: Profile, e: ProfileError) {
    match e
    case EmptyName => p.nameIsBlank
    case NoCommentDelimiter => p.lines == [] && p.blocks == []
    case EmptyDelimiter(_) => Spells(p, [])
    case NewlineDelimiter => exists t :: Spells(p, t) && (CR in t || LF in t)
    case InvalidNesting => exists d <- p.blocks :: !NestsSoundly(d)
    case AmbiguousDelimiter(l, r) =>
      exists i, j :: 0 <= i < j < |CommentStarts(p)| && CommentStarts(p)[i] == l == r == CommentStarts(p)[j]
    case AmbiguousStringDelimiter(l, r) =>
      exists i, j :: 0 <= i < j < |p.strings| && p.strings[i].start == l && p.strings[j].start == r && Prefixed(l, r)
    case CommentStringCollision(l, r) =>
      l in CommentStarts(p) && Prefixed(l, r) && exists d <- p.strings :: d.start == r
    case EmptyProtectedPattern => exists t <- p.patterns :: t.contains == [] || t.reasonIsBlank
  }

  /** The order the checks come in. */
  function Rank(e: ProfileError): nat {
    match e
    case EmptyName => 0
    case NoCommentDelimiter => 1
    case EmptyDelimiter(_) => 2
    case NewlineDelimiter => 2
    case InvalidNesting => 2
    case AmbiguousDelimiter(_, _) => 3
    case CommentStringCollision(_, _) => 3
    case AmbiguousStringDelimiter(_, _) => 4
    case EmptyProtectedPattern => 5
  }

  // ---- the checks ----

  /** The error of one token, if it has one. */
  method ValidateToken(token: Source, which: string) returns (e: Option<ProfileError>)
    ensures e.None? <==> IsToken(token)
    ensures e.Some? ==> e == if token == [] then Some(EmptyDelimiter(which)) else Some(NewlineDelimiter)
  {
    if token == [] { return Some(EmptyDelimiter(which)); }
    if CR in token || LF in token { return Some(NewlineDelimiter); }
    e := None;
  }

  method ValidateLines(p: Profile) returns (e: Option<ProfileError>)
    ensures e.None? <==> forall d <- p.lines :: IsToken(d.start)
    ensures e.Some? ==> Explains(p, e.value) && Rank(e.value) == 2
  {
    var k := 0;
    while k < |p.lines|
      invariant 0 <= k <= |p.lines|
      invariant forall d <- p.lines[..k] :: IsToken(d.start)
    {
      var d := p.lines[k];
      assert d in p.lines && Spells(p, d.start);
      e := ValidateToken(d.start, "line start");
      if e.Some? { return; }
      k := k + 1;
    }
    e := None;
  }

  method ValidateBlocks(p: Profile) returns (e: Option<ProfileError>)
    ensures e.None? <==> forall d <- p.blocks :: IsBlock(d)
    ensures e.Some? ==> Explains(p, e.value) && Rank(e.value) == 2
  {
    var k := 0;
    while k < |p.blocks|
      invariant 0 <= k <= |p.blocks|
      invariant forall d <- p.blocks[..k] :: IsBlock(d)
    {
      var d := p.blocks[k];
      assert d in p.blocks && Spells(p, d.start) && Spells(p, d.end);
      e := ValidateToken(d.start, "block start");
      if e.Some? { return; }
      e := ValidateToken(d.end, "block end");
      if e.Some? { return; }
      if d.nested && (d.start == d.end || Contains(d.start, d.end) || Contains(d.end, d.start)) {
        if d.start == d.end { assert Starts(d.start, 0, d.end); }
        return Some(InvalidNesting);
      }
      k := k + 1;
    }
    e := None;
  }

  method ValidateStrings(p: Profile) returns (e: Option<ProfileError>)
    ensures e.None? <==> forall d <- p.strings :: IsString(d)
    ensures e.Some? ==> Explains(p, e.value) && Rank(e.value) == 2
  {
    var k := 0;
    while k < |p.strings|
      invariant 0 <= k <= |p.strings|
      invariant forall d <- p.strings[..k] :: IsString(d)
    {
      var d := p.strings[k];
      assert d in p.strings && Spells(p, d.start) && Spells(p, d.end);
      e := ValidateToken(d.start, "string start");
      if e.Some? { return; }
      e := ValidateToken(d.end, "string end");
      if e.Some? { return; }
      if d.escape.Some? {
        assert Spells(p, d.escape.value);
        e := ValidateToken(d.escape.value, "string escape");
        if e.Some? { return; }
      }
      k := k + 1;
    }
    e := None;
  }

  /** No comment token is spelled twice, or is a prefix of a string token, or has one for a prefix. */
  ghost predicate CommentsApart(p: Profile, k: int) {
    var comments := CommentStarts(p);
    && (forall i, j | 0 <= i < k && i < j < |comments| :: comments[i] != comments[j])
    && (forall i, j | 0 <= i < k && i < |comments| && 0 <= j < |p.strings| ::
        !Prefixed(comments[i], p.strings[j].start))
  }

  method ValidateComments(p: Profile) returns (e: Option<ProfileError>)
    ensures e.None? <==> CommentsApart(p, |CommentStarts(p)|)
    ensures e.Some? ==> Explains(p, e.value) && Rank(e.value) == 3
  {
    hide CommentStarts, Prefixed;
    var comments := CommentStarts(p);
    var index := 0;
    while index < |comments|
      invariant 0 <= index <= |comments|
      invariant CommentsApart(p, index)
    {
      var j := index + 1;
      while j < |comments|
        invariant index < j <= |comments|
        invariant forall i | index < i < j :: comments[index] != comments[i]
      {
        if comments[index] == comments[j] { return Some(AmbiguousDelimiter(comments[index], comments[j])); }
        j := j + 1;
      }
      j := 0;
      while j < |p.strings|
        invariant 0 <= j <= |p.strings|
        invariant forall i | 0 <= i < j :: !Prefixed(comments[index], p.strings[i].start)
      {
        if Prefixed(comments[index], p.strings[j].start) {
          assert p.strings[j] in p.strings;
          return Some(CommentStringCollision(comments[index], p.strings[j].start));
        }
        j := j + 1;
      }
      index := index + 1;
    }
    e := None;
  }

  ghost predicate StringsApart(p: Profile, k: int) {
    forall i, j | 0 <= i < k && i < j < |p.strings| :: !Prefixed(p.strings[i].start, p.strings[j].start)
  }

  method ValidateStringPairs(p: Profile) returns (e: Option<ProfileError>)
    ensures e.None? <==> StringsApart(p, |p.strings|)
    ensures e.Some? ==> Explains(p, e.value) && Rank(e.value) == 4
  {
    var index := 0;
    while index < |p.strings|
      invariant 0 <= index <= |p.strings|
      invariant StringsApart(p, index)
    {
      var j := index + 1;
      while j < |p.strings|
        invariant index < j <= |p.strings|
        invariant forall i | index < i < j :: !Prefixed(p.strings[index].start, p.strings[i].start)
      {
        if Prefixed(p.strings[index].start, p.strings[j].start) {
          return Some(AmbiguousStringDelimiter(p.strings[index].start, p.strings[j].start));
        }
        j := j + 1;
      }
      index := index + 1;
    }
    e := None;
  }

  /** What a profile must have passed for a check of this rank to have been come to. */
  ghost predicate PassedUpTo(p: Profile, rank: nat) {
    && (rank > 0 ==> !p.nameIsBlank)
    && (rank > 1 ==> p.lines != [] || p.blocks != [])
    && (rank > 2 ==> (forall d <- p.lines :: IsToken(d.start)) && (forall d <- p.blocks :: IsBlock(d))
                     && (forall d <- p.strings :: IsString(d)))
    && (rank > 3 ==> CommentsApart(p, |CommentStarts(p)|))
    && (rank > 4 ==> StringsApart(p, |p.strings|))
  }

  /** The error of the first check a profile fails; `None` exactly for an accepted one. */
  method ValidateProfile(p: Profile) returns (e: Option<ProfileError>)
    ensures e.None? <==> Accepted(p)
    ensures e.Some? ==> Explains(p, e.value) && PassedUpTo(p, Rank(e.value))
  {
    if p.nameIsBlank { return Some(EmptyName); }
    if p.lines == [] && p.blocks == [] { return Some(NoCommentDelimiter); }
    e := ValidateLines(p);
    if e.Some? { return; }
    e := ValidateBlocks(p);
    if e.Some? { return; }
    e := ValidateStrings(p);
    if e.Some? { return; }
    e := ValidateComments(p);
    if e.Some? { return; }
    e := ValidateStringPairs(p);
    if e.Some? { return; }
    if exists t <- p.patterns :: t.contains == [] || t.reasonIsBlank { return Some(EmptyProtectedPattern); }
    e := None;
  }

  // ---- what opens where ----

  /** Where the run of `b` that stands at `i` ends. */
  function RunEnd(source: Source, i: nat, b: byte): (z: nat)
    requires i <= |source|
    ensures i <= z <= |source| && (forall k | i <= k < z :: source[k] == b) && (z < |source| ==> source[z] != b)
    decreases |source| - i
  {
    if i < |source| && source[i] == b then RunEnd(source, i + 1, b) else i
  }

  /** What follows the token, past any run of its last byte, leaves it opening a comment. */
  predicate OpensPastItsRun(source: Source, i: nat, d: LineDelimiter)
    requires i + |d.start| <= |source|
  {
    d.forbiddenAfter == []
    || var z := if d.start == [] then i else RunEnd(source, i + |d.start|, d.start[|d.start| - 1]);
       z == |source| || source[z] !in d.forbiddenAfter
  }

  /** From `at` to `z` stands nothing but the last byte of the token, and behind that another byte or none. */
  ghost predicate IsItsRun(source: Source, at: nat, z: nat, d: LineDelimiter) {
    && at <= z <= |source|
    && if d.start == [] then z == at
       else (forall k | at <= k < z :: source[k] == d.start[|d.start| - 1])
            && (z < |source| ==> source[z] != d.start[|d.start| - 1])
  }

  /** What stands behind that run, if anything does, is not forbidden. */
  ghost predicate RunLeavesOpen(source: Source, at: nat, d: LineDelimiter) {
    exists z: nat :: IsItsRun(source, at, z, d) && (z == |source| || source[z] !in d.forbiddenAfter)
  }

  lemma {:induction false} RunDecides(source: Source, at: nat, z: nat, d: LineDelimiter)
    requires IsItsRun(source, at, z, d)
    ensures RunLeavesOpen(source, at, d) <==> z == |source| || source[z] !in d.forbiddenAfter
  {
    forall y: nat | IsItsRun(source, at, y, d)
      ensures y == z
    {
    }
  }

  method CheckRun(source: Source, index: nat, d: LineDelimiter) returns (opens: bool)
    requires index + |d.start| <= |source|
    ensures opens == OpensPastItsRun(source, index, d)
    ensures opens <==> d.forbiddenAfter == [] || RunLeavesOpen(source, index + |d.start|, d)
  {
    if d.forbiddenAfter == [] { return true; }
    var cursor := index + |d.start|;
    if d.start != [] {
      var last := d.start[|d.start| - 1];
      while cursor < |source| && source[cursor] == last
        invariant index + |d.start| <= cursor <= |source|
        invariant RunEnd(source, cursor, last) == RunEnd(source, index + |d.start|, last)
      {
        cursor := cursor + 1;
      }
    }
    opens := cursor == |source| || source[cursor] !in d.forbiddenAfter;
    RunDecides(source, index + |d.start|, cursor, d);
  }

  predicate LineOpens(source: Source, i: nat, d: LineDelimiter) {
    && i <= |source| && Starts(source, i, d.start)
    && (d.requiresBoundary ==> i == 0 || IsWhitespace(source[i - 1]))
    && (d.requiresLineStart ==> i == 0 || source[i - 1] == LF)
    && OpensPastItsRun(source, i, d)
  }

  datatype Opener = OpensLine(line: LineDelimiter) | OpensBlock(block: BlockDelimiter)

  function TokenOf(o: Opener): Source {
    match o
    case OpensLine(d) => d.start
    case OpensBlock(d) => d.start
  }

  /** `o` is declared, and opens a comment at `i`. */
  ghost predicate Opens(source: Source, i: nat, p: Profile, o: Opener) {
    match o
    case OpensLine(d) => d in p.lines && LineOpens(source, i, d)
    case OpensBlock(d) => d in p.blocks && Starts(source, i, d.start)
  }

  /** ... and nothing longer does. */
  ghost predicate OpensLongest(source: Source, i: nat, p: Profile, o: Opener) {
    Opens(source, i, p, o) && forall q | Opens(source, i, p, q) :: |TokenOf(q)| <= |TokenOf(o)|
  }

  ghost predicate OpensNothing(source: Source, i: nat, p: Profile) {
    forall q :: !Opens(source, i, p, q)
  }

  /** The comment delimiter that opens at `index`, the longest that matches. */
  method OpenerAt(source: Source, index: nat, p: Profile) returns (best: Option<Opener>)
    requires index < |source|
    ensures best.None? ==> OpensNothing(source, index, p)
    ensures best.Some? ==> OpensLongest(source, index, p, best.value)
  {
    best := None;
    var k := 0;
    while k < |p.lines|
      invariant 0 <= k <= |p.lines|
      invariant best.Some? ==> Opens(source, index, p, best.value)
      invariant forall j | 0 <= j < k && LineOpens(source, index, p.lines[j]) ::
                  best.Some? && |p.lines[j].start| <= |TokenOf(best.value)|
    {
      var d := p.lines[k];
      if Starts(source, index, d.start)
         && (!d.requiresBoundary || index == 0 || IsWhitespace(source[index - 1]))
         && (!d.requiresLineStart || index == 0 || source[index - 1] == LF) {
        var past := CheckRun(source, index, d);
        if past && (best.None? || |d.start| > |TokenOf(best.value)|) { best := Some(OpensLine(d)); }
      }
      k := k + 1;
    }
    k := 0;
    while k < |p.blocks|
      invariant 0 <= k <= |p.blocks|
      invariant best.Some? ==> Opens(source, index, p, best.value)
      invariant forall j | 0 <= j < |p.lines| && LineOpens(source, index, p.lines[j]) ::
                  best.Some? && |p.lines[j].start| <= |TokenOf(best.value)|
      invariant forall j | 0 <= j < k && Starts(source, index, p.blocks[j].start) ::
                  best.Some? && |p.blocks[j].start| <= |TokenOf(best.value)|
    {
      var d := p.blocks[k];
      if Starts(source, index, d.start) && (best.None? || |d.start| > |TokenOf(best.value)|) {
        best := Some(OpensBlock(d));
      }
      k := k + 1;
    }
  }

  /** Two openers that match at one place and are equally long are spelled alike. */
  lemma {:induction false} SameSpelling(source: Source, i: nat, p: Profile, a: Opener, b: Opener)
    requires OpensLongest(source, i, p, a) && OpensLongest(source, i, p, b)
    ensures TokenOf(a) == TokenOf(b)
  {
    assert |TokenOf(a)| == |TokenOf(b)|;
  }

  /** Two openers that match at one place and are equally long are one. */
  lemma {:induction false} LongestIsUnique(source: Source, i: nat, p: Profile, a: Opener, b: Opener)
    requires Unambiguous(p) && OpensLongest(source, i, p, a) && OpensLongest(source, i, p, b)
    ensures a == b
  {
    SameSpelling(source, i, p, a, b);
    var x, y := IndexOf(p, a), IndexOf(p, b);
    assert CommentStarts(p)[x] == CommentStarts(p)[y];
    assert x == y;
  }

  /** The place of an opener among the comment tokens. */
  ghost function IndexOf(p: Profile, o: Opener): (x: nat)
    requires match o case OpensLine(d) => d in p.lines case OpensBlock(d) => d in p.blocks
    ensures x < |CommentStarts(p)| && CommentStarts(p)[x] == TokenOf(o)
    ensures if x < |p.lines| then o == OpensLine(p.lines[x]) else o == OpensBlock(p.blocks[x - |p.lines|])
  {
    match o
    case OpensLine(d) =>
      var k :| 0 <= k < |p.lines| && p.lines[k] == d;
      k
    case OpensBlock(d) =>
      var k :| 0 <= k < |p.blocks| && p.blocks[k] == d;
      |p.lines| + k
  }

  // ---- where strings, lines and blocks end ----

  /** Where a string whose text begins at `i` ends, and whether its end token was there. */
  function StringEnds(source: Source, d: StringDelimiter, i: nat): (r: (nat, bool))
    requires i <= |source|
    ensures i <= r.0 <= |source|
    decreases |source| - i
  {
    if i == |source| then (i, false)
    else if Starts(source, i, d.end) then (i + |d.end|, true)
    else if d.escape.Some? && Starts(source, i, d.escape.value) then
      StringEnds(source, d, Min(i + |d.escape.value| + 1, |source|))
    else if !d.multiline && (source[i] == CR || source[i] == LF) then (i, false)
    else StringEnds(source, d, i + 1)
  }

  /** A string that came to its end ends with its end token. */
  lemma {:induction false} EndedWithToken(source: Source, d: StringDelimiter, i: nat)
    requires i <= |source| && StringEnds(source, d, i).1
    ensures i + |d.end| <= StringEnds(source, d, i).0 && Starts(source, StringEnds(source, d, i).0 - |d.end|, d.end)
    decreases |source| - i
  {
    hide Starts;
    if i < |source| && !Starts(source, i, d.end) {
      if d.escape.Some? && Starts(source, i, d.escape.value) {
        EndedWithToken(source, d, Min(i + |d.escape.value| + 1, |source|));
      } else {
        EndedWithToken(source, d, i + 1);
      }
    }
  }

  /** The first `token` at `i` or behind it stands at `z`. */
  ghost predicate FirstAt(source: Source, token: Source, i: nat, z: nat) {
    i <= z && Starts(source, z, token) && forall k: nat | i <= k < z :: !Starts(source, k, token)
  }

  ghost predicate OnOneLine(source: Source, i: nat, z: nat) {
    z <= |source| && forall k: nat | i <= k < z :: source[k] != CR && source[k] != LF
  }

  lemma {:induction false} OneLineStep(source: Source, i: nat, z: nat)
    requires i < z <= |source|
    ensures OnOneLine(source, i, z) <==> source[i] != CR && source[i] != LF && OnOneLine(source, i + 1, z)
  {
  }

  lemma {:induction false} StringStep(source: Source, d: StringDelimiter, i: nat)
    requires i < |source| && d.escape.None? && !Starts(source, i, d.end)
    ensures StringEnds(source, d, i)
         == if !d.multiline && (source[i] == CR || source[i] == LF) then (i, false) else StringEnds(source, d, i + 1)
  {
  }

  /** A string without an escape runs to the first end token, if no line ends before it or it may cross lines. */
  lemma {:induction false} PlainStringEnds(source: Source, d: StringDelimiter, i: nat, z: nat)
    requires d.escape.None? && d.end != [] && FirstAt(source, d.end, i, z)
    ensures StringEnds(source, d, i) == (z + |d.end|, true) <==> d.multiline || OnOneLine(source, i, z)
    decreases z - i
  {
    if i < z {
      StringStep(source, d, i);
      OneLineStep(source, i, z);
      if d.multiline || (source[i] != CR && source[i] != LF) { PlainStringEnds(source, d, i + 1, z); }
    }
  }

  // ---- what ends a string, read off its text ----

  predicate EscapeAt(source: Source, d: StringDelimiter, x: nat) {
    d.escape.Some? && Starts(source, x, d.escape.value)
  }

  /**
   * Cut from `from` on into escapes, each with the byte it hides, and single bytes, the text has a piece that
   * begins at `x`: right behind a single byte, or behind an escape and one byte more.
   */
  ghost predicate BeginsPiece(source: Source, d: StringDelimiter, from: nat, x: nat) {
    || x == from
    || (x > from && BeginsPiece(source, d, from, x - 1) && !EscapeAt(source, d, x - 1))
    || (d.escape.Some? && x - |d.escape.value| - 1 >= from
        && BeginsPiece(source, d, from, x - |d.escape.value| - 1)
        && EscapeAt(source, d, x - |d.escape.value| - 1))
  }

  function PieceWidth(source: Source, d: StringDelimiter, x: nat): (w: nat)
    ensures w >= 1
  {
    if EscapeAt(source, d, x) then |d.escape.value| + 1 else 1
  }

  /** An end token that no escape hides. */
  ghost predicate ClosesAt(source: Source, d: StringDelimiter, from: nat, x: nat) {
    x < |source| && BeginsPiece(source, d, from, x) && Starts(source, x, d.end)
  }

  /** A line that ends where the string may not go on. */
  ghost predicate BreaksAt(source: Source, d: StringDelimiter, from: nat, x: nat) {
    && !d.multiline && x < |source| && (source[x] == CR || source[x] == LF)
    && BeginsPiece(source, d, from, x) && !EscapeAt(source, d, x)
  }

  /** Nothing ends the string in front of `z`. */
  ghost predicate RunsTo(source: Source, d: StringDelimiter, from: nat, z: nat) {
    forall x: nat | from <= x < z :: !ClosesAt(source, d, from, x) && !BreaksAt(source, d, from, x)
  }

  /**
   * The string ends at its first end token that no escape hides, and is closed, if no line ends in front of it or
   * it may cross lines; otherwise it ends open, at that line or at the end of the source.
   */
  ghost predicate EndsString(source: Source, d: StringDelimiter, from: nat, end: nat, closed: bool) {
    if closed then
      end >= from + |d.end|
      && ClosesAt(source, d, from, end - |d.end|) && RunsTo(source, d, from, end - |d.end|)
    else
      && from <= end <= |source| && RunsTo(source, d, from, end) && !ClosesAt(source, d, from, end)
      && (end == |source| || BreaksAt(source, d, from, end))
  }

  lemma {:induction false} PiecesBegin(source: Source, d: StringDelimiter, from: nat, x: nat)
    requires BeginsPiece(source, d, from, x)
    ensures from <= x
  {
  }

  /** No piece begins inside another. */
  lemma {:induction false} PiecesLieApart(source: Source, d: StringDelimiter, from: nat, y: nat, x: nat)
    requires BeginsPiece(source, d, from, y) && BeginsPiece(source, d, from, x) && y < x
    ensures y + PieceWidth(source, d, y) <= x
    decreases x
  {
    PiecesBegin(source, d, from, y);
    if BeginsPiece(source, d, from, x - 1) && !EscapeAt(source, d, x - 1) {
      if y < x - 1 { PiecesLieApart(source, d, from, y, x - 1); }
    } else {
      var w := x - |d.escape.value| - 1;
      if y < w { PiecesLieApart(source, d, from, y, w); }
      if w < y { PiecesLieApart(source, d, from, w, y); }
    }
  }

  lemma {:induction false} NextPiece(source: Source, d: StringDelimiter, from: nat, i: nat)
    requires BeginsPiece(source, d, from, i)
    ensures BeginsPiece(source, d, from, i + PieceWidth(source, d, i))
    ensures forall x | i < x < i + PieceWidth(source, d, i) :: !BeginsPiece(source, d, from, x)
  {
    PiecesBegin(source, d, from, i);
    forall x | i < x < i + PieceWidth(source, d, i)
      ensures !BeginsPiece(source, d, from, x)
    {
      if BeginsPiece(source, d, from, x) { PiecesLieApart(source, d, from, i, x); }
    }
  }

  lemma {:induction false} ScanEndsString(source: Source, d: StringDelimiter, from: nat, i: nat)
    requires i <= |source| && BeginsPiece(source, d, from, i) && RunsTo(source, d, from, i)
    ensures EndsString(source, d, from, StringEnds(source, d, i).0, StringEnds(source, d, i).1)
    decreases |source| - i
  {
    hide BeginsPiece, Starts;
    PiecesBegin(source, d, from, i);
    if i < |source| && !ClosesAt(source, d, from, i) && !BreaksAt(source, d, from, i) {
      var next := i + PieceWidth(source, d, i);
      NextPiece(source, d, from, i);
      assert RunsTo(source, d, from, next);
      if next <= |source| { ScanEndsString(source, d, from, next); }
    }
  }

  /** There is one place where a string ends so. */
  lemma {:induction false} OneEnd(source: Source, d: StringDelimiter, from: nat, a: nat, b: nat, p: bool, q: bool)
    requires EndsString(source, d, from, a, p) && EndsString(source, d, from, b, q)
    ensures a == b && p == q
  {
    hide BeginsPiece, Starts;
    var x, y := if p then a - |d.end| else a, if q then b - |d.end| else b;
    EndsFirst(source, d, from, x, y);
    EndsFirst(source, d, from, y, x);
  }

  lemma {:induction false} EndsFirst(source: Source, d: StringDelimiter, from: nat, x: nat, y: nat)
    requires from <= x && RunsTo(source, d, from, y) && y <= |source|
    requires ClosesAt(source, d, from, x) || BreaksAt(source, d, from, x) || x == |source|
    ensures y <= x
  {
  }

  /** The scan ends a string where its text says, and nowhere else. */
  lemma {:induction false} StringEndsThere(source: Source, d: StringDelimiter, from: nat, end: nat, closed: bool)
    requires from <= |source|
    ensures StringEnds(source, d, from) == (end, closed) <==> EndsString(source, d, from, end, closed)
  {
    hide EndsString;
    ScanEndsString(source, d, from, from);
    var r := StringEnds(source, d, from);
    if EndsString(source, d, from, end, closed) { OneEnd(source, d, from, end, r.0, closed, r.1); }
  }

  function LineEnds(source: Source, i: nat): (z: nat)
    requires i <= |source|
    ensures i <= z <= |source| && (z == |source| || source[z] == CR || source[z] == LF)
    ensures forall k | i <= k < z :: source[k] != CR && source[k] != LF
    decreases |source| - i
  {
    if i < |source| && source[i] != CR && source[i] != LF then LineEnds(source, i + 1) else i
  }

  /** The longest opener at `i` that pairs with the closer `end`; 0 when there is none. */
  function NestedOpenerLen(source: Source, i: nat, blocks: seq<BlockDelimiter>, end: Source): (n: nat)
    ensures n > 0 ==> exists d <- blocks :: d.end == end && Starts(source, i, d.start) && |d.start| == n
    ensures forall d <- blocks | d.end == end && Starts(source, i, d.start) :: |d.start| <= n
    ensures i <= |source| ==> i + n <= |source|
  {
    if blocks == [] then 0
    else
      var rest := NestedOpenerLen(source, i, blocks[1..], end);
      if blocks[0].end == end && Starts(source, i, blocks[0].start) then Max(rest, |blocks[0].start|) else rest
  }

  // ---- what a block is ----

  datatype Piece = Opening(w: nat) | Closing(w: nat) | Text

  /** The text from `i` on, cut into openers that pair with the closer, closers, and single bytes. */
  function PieceAt(source: Source, p: Profile, d: BlockDelimiter, i: nat): (piece: Piece)
    requires i < |source| && d.end != []
    ensures 1 <= PieceLen(piece) <= |source| - i
  {
    var n := NestedOpenerLen(source, i, p.blocks, d.end);
    if d.nested && n > 0 then Opening(n)
    else if Starts(source, i, d.end) then Closing(|d.end|)
    else Text
  }

  function PieceLen(piece: Piece): nat {
    match piece
    case Opening(w) => w
    case Closing(w) => w
    case Text => 1
  }

  function Weight(piece: Piece): int {
    match piece
    case Opening(_) => 1
    case Closing(_) => -1
    case Text => 0
  }

  /** Where a block whose text begins at `i`, `depth` deep, ends, and how deep it is there. */
  function BlockEnds(source: Source, p: Profile, d: BlockDelimiter, i: nat, depth: nat): (r: (nat, nat))
    requires i <= |source| && depth > 0 && d.end != []
    ensures i <= r.0 <= |source|
    decreases |source| - i
  {
    if i == |source| then (i, depth)
    else
      var piece := PieceAt(source, p, d, i);
      var next := depth + Weight(piece);
      if next == 0 then (i + PieceLen(piece), 0) else BlockEnds(source, p, d, i + PieceLen(piece), next)
  }

  function Pieces(source: Source, p: Profile, d: BlockDelimiter, i: nat): seq<Piece>
    requires i <= |source| && d.end != []
    decreases |source| - i
  {
    if i == |source| then []
    else
      var piece := PieceAt(source, p, d, i);
      [piece] + Pieces(source, p, d, i + PieceLen(piece))
  }

  /** An opener that stands at `x` and pairs with the closer of `d`. */
  ghost predicate OpensInside(source: Source, p: Profile, d: BlockDelimiter, x: nat, o: BlockDelimiter) {
    d.nested && o in p.blocks && o.start != [] && o.end == d.end && Starts(source, x, o.start)
  }

  /**
   * The piece is what stands at `x`: in a nested block the longest opener there that pairs with the closer, whichever
   * began the block; otherwise the closer; and a single byte where there is neither.
   */
  ghost predicate SpellsPiece(source: Source, p: Profile, d: BlockDelimiter, x: nat, piece: Piece) {
    match piece
    case Opening(w) =>
      && (exists o :: OpensInside(source, p, d, x, o) && |o.start| == w)
      && forall o | OpensInside(source, p, d, x, o) :: |o.start| <= w
    case Closing(w) => w == |d.end| && Starts(source, x, d.end) && forall o :: !OpensInside(source, p, d, x, o)
    case Text => !Starts(source, x, d.end) && forall o :: !OpensInside(source, p, d, x, o)
  }

  lemma {:induction false} PieceSpells(source: Source, p: Profile, d: BlockDelimiter, i: nat)
    requires i < |source| && d.end != []
    ensures SpellsPiece(source, p, d, i, PieceAt(source, p, d, i))
  {
    hide Starts;
    var n := NestedOpenerLen(source, i, p.blocks, d.end);
    if d.nested && n > 0 {
      var o :| o in p.blocks && o.end == d.end && Starts(source, i, o.start) && |o.start| == n;
      assert OpensInside(source, p, d, i, o);
    }
  }

  /** The pieces are the text, cut from the left. */
  lemma {:induction false} PiecesSpell(source: Source, p: Profile, d: BlockDelimiter, i: nat, k: nat)
    requires i <= |source| && d.end != [] && k <= |Pieces(source, p, d, i)|
    ensures var pieces := Pieces(source, p, d, i);
            var x := i + Width(pieces[..k]);
            if k < |pieces| then x < |source| && SpellsPiece(source, p, d, x, pieces[k]) else x == |source|
    decreases |source| - i
  {
    hide SpellsPiece;
    if i < |source| {
      var piece := PieceAt(source, p, d, i);
      var rest := Pieces(source, p, d, i + PieceLen(piece));
      PieceSpells(source, p, d, i);
      if k > 0 {
        PiecesSpell(source, p, d, i + PieceLen(piece), k - 1);
        BalanceStep(piece, rest, k - 1);
      }
    }
  }

  /** Openers less closers. */
  function Balance(pieces: seq<Piece>): int {
    if pieces == [] then 0 else Weight(pieces[0]) + Balance(pieces[1..])
  }

  function Width(pieces: seq<Piece>): nat {
    if pieces == [] then 0 else PieceLen(pieces[0]) + Width(pieces[1..])
  }

  /** The first `n` pieces close what was `depth` deep, and none of fewer does. */
  ghost predicate ClosesAfter(pieces: seq<Piece>, depth: nat, n: nat) {
    && n <= |pieces| && depth + Balance(pieces[..n]) == 0
    && forall m | 0 <= m < n :: depth + Balance(pieces[..m]) > 0
  }

  ghost predicate NeverCloses(pieces: seq<Piece>, depth: nat) {
    forall m | 0 <= m <= |pieces| :: depth + Balance(pieces[..m]) > 0
  }

  lemma {:induction false} BalanceStep(first: Piece, rest: seq<Piece>, n: nat)
    requires n <= |rest|
    ensures Balance(([first] + rest)[..n + 1]) == Weight(first) + Balance(rest[..n])
    ensures Width(([first] + rest)[..n + 1]) == PieceLen(first) + Width(rest[..n])
  {
    assert ([first] + rest)[..n + 1] == [first] + rest[..n];
    assert ([first] + rest[..n])[1..] == rest[..n];
  }

  lemma {:induction false} ClosesLater(first: Piece, rest: seq<Piece>, depth: nat, next: nat, n: nat)
    requires depth > 0 && next == depth + Weight(first) && ClosesAfter(rest, next, n)
    ensures ClosesAfter([first] + rest, depth, n + 1)
    ensures Width(([first] + rest)[..n + 1]) == PieceLen(first) + Width(rest[..n])
  {
    var all := [first] + rest;
    BalanceStep(first, rest, n);
    forall m | 0 <= m < n + 1
      ensures depth + Balance(all[..m]) > 0
    {
      if m > 0 { BalanceStep(first, rest, m - 1); }
    }
  }

  lemma {:induction false} NeverClosesLater(first: Piece, rest: seq<Piece>, depth: nat, next: nat)
    requires depth > 0 && next == depth + Weight(first) && NeverCloses(rest, next)
    ensures NeverCloses([first] + rest, depth)
  {
    var all := [first] + rest;
    forall m | 0 <= m <= |all|
      ensures depth + Balance(all[..m]) > 0
    {
      if m > 0 { BalanceStep(first, rest, m - 1); }
    }
  }

  /** `r` is where a block of these pieces ends, `i` being where they begin, and how deep it is there. */
  ghost predicate EndsAsBalanced(pieces: seq<Piece>, i: nat, depth: nat, n: nat, r: (nat, nat)) {
    if r.1 == 0 then exists k: nat :: ClosesAfter(pieces, depth, k) && r.0 == i + Width(pieces[..k])
    else r.0 == n && NeverCloses(pieces, depth)
  }

  lemma {:induction false} EndsAsBalancedLater(first: Piece, rest: seq<Piece>, i: nat, depth: nat, next: nat, n: nat,
                                               r: (nat, nat))
    requires depth > 0 && next == depth + Weight(first)
    requires EndsAsBalanced(rest, i + PieceLen(first), next, n, r)
    ensures EndsAsBalanced([first] + rest, i, depth, n, r)
  {
    if r.1 == 0 {
      var k: nat :| ClosesAfter(rest, next, k) && r.0 == i + PieceLen(first) + Width(rest[..k]);
      ClosesLater(first, rest, depth, next, k);
    } else {
      NeverClosesLater(first, rest, depth, next);
    }
  }

  /**
   * A block closes exactly where, for the first time, its closers balance its openers: positively deep at
   * every proper prefix and not at all at the end. One that does not close is positively deep throughout.
   */
  lemma {:induction false} BlockIsBalanced(source: Source, p: Profile, d: BlockDelimiter, i: nat, depth: nat)
    requires i <= |source| && depth > 0 && d.end != []
    ensures EndsAsBalanced(Pieces(source, p, d, i), i, depth, |source|, BlockEnds(source, p, d, i, depth))
    decreases |source| - i
  {
    if i == |source| {
      assert Pieces(source, p, d, i)[..0] == [];
    } else {
      var piece := PieceAt(source, p, d, i);
      var rest := Pieces(source, p, d, i + PieceLen(piece));
      var next := depth + Weight(piece);
      if next > 0 {
        BlockIsBalanced(source, p, d, i + PieceLen(piece), next);
        EndsAsBalancedLater(piece, rest, i, depth, next, |source|, BlockEnds(source, p, d, i, depth));
      } else {
        BalanceStep(piece, rest, 0);
        assert ([piece] + rest)[..0] == [] && rest[..0] == [];
        assert ClosesAfter([piece] + rest, 1, 1);
      }
    }
  }

  // ---- a source cut into tokens ----

  /** What a stretch of the source is; `ended` says whether a string or a block came to its end token. */
  datatype TokenKind =
    | Code | Quoted(ended: bool) | LineComment(kind: CommentKind) | BlockComment(kind: CommentKind, ended: bool)

  datatype Token = Token(span: ByteSpan, kind: TokenKind)

  /** A string begins at `i`. */
  ghost predicate Quotes(source: Source, i: nat, p: Profile) {
    exists d <- p.strings :: Starts(source, i, d.start)
  }

  ghost predicate ReadsString(source: Source, p: Profile, t: Token, d: StringDelimiter) {
    && d in p.strings && Starts(source, t.span.start, d.start)
    && t.kind.Quoted? && t.span.end == StringEnds(source, d, t.span.start + |d.start|).0
    && t.kind.ended == StringEnds(source, d, t.span.start + |d.start|).1
  }

  ghost predicate ReadsLine(source: Source, p: Profile, t: Token, d: LineDelimiter) {
    && OpensLongest(source, t.span.start, p, OpensLine(d))
    && t.kind == LineComment(d.kind) && t.span.start + |d.start| <= |source|
    && t.span.end == LineEnds(source, t.span.start + |d.start|)
  }

  ghost predicate ReadsBlock(source: Source, p: Profile, t: Token, d: BlockDelimiter) {
    && OpensLongest(source, t.span.start, p, OpensBlock(d)) && d.end != []
    && t.span.start + |d.start| <= |source|
    && t.span.end == BlockEnds(source, p, d, t.span.start + |d.start|, 1).0
    && t.kind == BlockComment(d.kind, BlockEnds(source, p, d, t.span.start + |d.start|, 1).1 == 0)
  }

  /** The token is what begins at its start: a string before a comment, and a comment before code. */
  ghost predicate IsTokenOf(source: Source, p: Profile, t: Token) {
    match t.kind
    case Quoted(_) => exists d :: ReadsString(source, p, t, d)
    case LineComment(_) => !Quotes(source, t.span.start, p) && exists d :: ReadsLine(source, p, t, d)
    case BlockComment(_, _) => !Quotes(source, t.span.start, p) && exists d :: ReadsBlock(source, p, t, d)
    case Code =>
      && !Quotes(source, t.span.start, p) && OpensNothing(source, t.span.start, p)
      && t.span.end == t.span.start + 1
  }

  /** The tokens, none of them empty, lie end to end from the start of the source up to `end`. */
  ghost predicate Tile(tokens: seq<Token>, end: nat) {
    && (tokens == [] ==> end == 0)
    && (tokens != [] ==> tokens[0].span.start == 0 && tokens[|tokens| - 1].span.end == end)
    && (forall i | 0 <= i < |tokens| :: tokens[i].span.start < tokens[i].span.end)
    && (forall i | 0 < i < |tokens| :: tokens[i - 1].span.end == tokens[i].span.start)
  }

  ghost predicate Tokenizes(source: Source, p: Profile, tokens: seq<Token>, end: nat) {
    && Tile(tokens, end) && end <= |source|
    && forall t <- tokens :: IsTokenOf(source, p, t)
  }

  lemma {:induction false} TileMore(tokens: seq<Token>, t: Token, end: nat)
    requires Tile(tokens, end) && t.span.start == end < t.span.end
    ensures Tile(tokens + [t], t.span.end)
  {
  }

  // ---- what a scan reports ----

  type Found = Located<CommentKind>

  function CommentsOf(tokens: seq<Token>): seq<Found> {
    if tokens == [] then []
    else
      CommentsOf(tokens[..|tokens| - 1]) + CommentOf(tokens[|tokens| - 1])
  }

  function CommentOf(t: Token): seq<Found> {
    if t.kind.LineComment? || t.kind.BlockComment? then [Located(t.span, t.kind.kind)] else []
  }

  const UNTERMINATED_STRING: Fault := Fault("unterminated-profile-string", Error)
  const UNTERMINATED_COMMENT: Fault := Fault("unterminated-profile-comment", Error)

  function FaultsOf(tokens: seq<Token>): seq<Diagnostic> {
    if tokens == [] then []
    else
      var t := tokens[|tokens| - 1];
      FaultsOf(tokens[..|tokens| - 1])
      + (if t.kind == Quoted(false) then [Located(t.span, UNTERMINATED_STRING)]
         else if t.kind.BlockComment? && !t.kind.ended then [Located(t.span, UNTERMINATED_COMMENT)]
         else [])
  }

  datatype ProfileReport = ProfileReport(comments: seq<Found>, diagnostics: seq<Diagnostic>, valid: bool)

  predicate Ended(t: Token) {
    (t.kind.Quoted? || t.kind.BlockComment?) ==> t.kind.ended
  }

  /** A report is valid exactly when every string and every block came to its end. */
  lemma {:induction false} ValidMeansEnded(tokens: seq<Token>)
    ensures FaultsOf(tokens) == [] <==> forall t <- tokens :: Ended(t)
    decreases |tokens|
  {
    if tokens != [] {
      var front, last := tokens[..|tokens| - 1], tokens[|tokens| - 1];
      assert tokens == front + [last] && last in tokens;
      ValidMeansEnded(front);
      assert forall t <- front :: t in tokens;
      assert FaultsOf(tokens) == [] <==> FaultsOf(front) == [] && Ended(last);
    }
  }

  /** Comments that are not empty, sorted and disjoint, and end in front of `end`. */
  ghost predicate Apart(found: seq<Found>, end: nat) {
    && (forall k | 0 <= k < |found| :: found[k].span.start < found[k].span.end <= end)
    && (forall i, j | 0 <= i < j < |found| :: found[i].span.end <= found[j].span.start)
  }

  /** `c` is a comment token, with its span and its kind. */
  ghost predicate IsCommentOf(tokens: seq<Token>, c: Found) {
    exists t <- tokens :: t.span == c.span && match t.kind
                          case LineComment(kind) => kind == c.what
                          case BlockComment(kind, _) => kind == c.what
                          case _ => false
  }

  /** The comments of a report are its comment tokens, all of them, in order. */
  lemma {:induction false} CommentsAreTokens(tokens: seq<Token>, end: nat)
    requires Tile(tokens, end)
    ensures Apart(CommentsOf(tokens), end)
    ensures forall c :: c in CommentsOf(tokens) <==> IsCommentOf(tokens, c)
    decreases |tokens|
  {
    if tokens != [] {
      var n := |tokens| - 1;
      var front, last := tokens[..n], tokens[n];
      CommentsAreTokens(front, last.span.start);
      ApartAnd(CommentsOf(front), last, end);
      assert tokens == front + [last];
      forall c
        ensures IsCommentOf(tokens, c) <==> IsCommentOf(front, c) || c in CommentOf(last)
      {
        OneMoreToken(front, last, c);
      }
    }
  }

  lemma {:induction false} OneMoreToken(front: seq<Token>, last: Token, c: Found)
    ensures IsCommentOf(front + [last], c) <==> IsCommentOf(front, c) || c in CommentOf(last)
  {
    assert forall t :: t in front + [last] <==> t in front || t == last;
  }

  /** What a report finds fault with: a string and a block without its end token. */
  ghost predicate IsFaultOf(tokens: seq<Token>, d: Diagnostic) {
    exists t <- tokens :: t.span == d.span && !Ended(t)
                          && d.what == if t.kind.Quoted? then UNTERMINATED_STRING else UNTERMINATED_COMMENT
  }

  lemma {:induction false} FaultsAreTokens(tokens: seq<Token>, d: Diagnostic)
    ensures d in FaultsOf(tokens) <==> IsFaultOf(tokens, d)
    decreases |tokens|
  {
    if tokens != [] {
      var front, last := tokens[..|tokens| - 1], tokens[|tokens| - 1];
      assert tokens == front + [last];
      FaultsAreTokens(front, d);
      assert forall t :: t in tokens <==> t in front || t == last;
    }
  }

  lemma {:induction false} ApartAnd(found: seq<Found>, t: Token, end: nat)
    requires Apart(found, t.span.start) && t.span.start < t.span.end <= end
    ensures Apart(found + CommentOf(t), end)
  {
  }

  lemma {:induction false} TileApart(tokens: seq<Token>, end: nat, i: nat, j: nat)
    requires Tile(tokens, end) && i < j < |tokens|
    ensures tokens[i].span.end <= tokens[j].span.start
    decreases j - i
  {
    if i + 1 < j { TileApart(tokens, end, i, j - 1); }
  }

  /** No comment lies in a string, or anywhere across one. */
  lemma {:induction false} CommentsAreOutsideStrings(tokens: seq<Token>, end: nat, c: Found, t: Token)
    requires Tile(tokens, end) && c in CommentsOf(tokens) && t in tokens && t.kind.Quoted?
    ensures c.span.end <= t.span.start || t.span.end <= c.span.start
  {
    CommentsAreTokens(tokens, end);
    var i :| 0 <= i < |tokens| && tokens[i] == t;
    assert IsCommentOf(tokens, c);
    var u :| u in tokens && u.span == c.span && !u.kind.Quoted?;
    var j :| 0 <= j < |tokens| && tokens[j] == u;
    if i < j { TileApart(tokens, end, i, j); } else { TileApart(tokens, end, j, i); }
  }

  // ---- the scan ----

  method ScanString(source: Source, from: nat, d: StringDelimiter) returns (index: nat, closed: bool)
    requires from <= |source|
    ensures index == StringEnds(source, d, from).0 && closed == StringEnds(source, d, from).1
  {
    index, closed := from, false;
    while index < |source|
      invariant from <= index <= |source|
      invariant StringEnds(source, d, from) == StringEnds(source, d, index)
      decreases |source| - index
    {
      if Starts(source, index, d.end) { return index + |d.end|, true; }
      if d.escape.Some? && Starts(source, index, d.escape.value) {
        index := Min(index + |d.escape.value| + 1, |source|);
      } else {
        if !d.multiline && (source[index] == CR || source[index] == LF) { return; }
        index := index + 1;
      }
    }
  }

  method ScanLineComment(source: Source, from: nat) returns (end: nat)
    requires from <= |source|
    ensures end == LineEnds(source, from)
  {
    end := from;
    while end < |source| && source[end] != CR && source[end] != LF
      invariant from <= end <= |source|
      invariant LineEnds(source, from) == LineEnds(source, end)
    {
      end := end + 1;
    }
  }

  /** One step of the scan of a block. */
  lemma {:induction false} BlockStep(source: Source, p: Profile, d: BlockDelimiter, i: nat, depth: nat)
    requires i < |source| && depth > 0 && d.end != []
    ensures var n, ends := NestedOpenerLen(source, i, p.blocks, d.end), BlockEnds(source, p, d, i, depth);
            if d.nested && n > 0 then
              i + n <= |source| && SamePair(ends, BlockEnds(source, p, d, i + n, depth + 1))
            else if Starts(source, i, d.end) then
              i + |d.end| <= |source|
              && SamePair(ends, if depth == 1 then (i + |d.end|, 0)
                          else BlockEnds(source, p, d, i + |d.end|, depth - 1))
            else SamePair(ends, BlockEnds(source, p, d, i + 1, depth))
  {
    hide NestedOpenerLen, Starts;
    var piece := PieceAt(source, p, d, i);
    var next := depth + Weight(piece);
    assert BlockEnds(source, p, d, i, depth)
        == if next == 0 then (i + PieceLen(piece), 0) else BlockEnds(source, p, d, i + PieceLen(piece), next);
  }

  lemma {:induction false} BlockStops(source: Source, p: Profile, d: BlockDelimiter, depth: nat)
    requires depth > 0 && d.end != []
    ensures SamePair(BlockEnds(source, p, d, |source|, depth), (|source|, depth))
  {
  }

  predicate SamePair(a: (nat, nat), b: (nat, nat)) {
    a.0 == b.0 && a.1 == b.1
  }

  method ScanBlock(source: Source, p: Profile, from: nat, d: BlockDelimiter) returns (index: nat, depth: nat)
    requires from <= |source| && d.end != []
    ensures SamePair(BlockEnds(source, p, d, from, 1), (index, depth))
  {
    hide BlockEnds, NestedOpenerLen, Starts;
    index, depth := from, 1;
    while index < |source|
      invariant from <= index <= |source| && depth > 0
      invariant SamePair(BlockEnds(source, p, d, from, 1), BlockEnds(source, p, d, index, depth))
      decreases |source| - index
    {
      BlockStep(source, p, d, index, depth);
      if d.nested && NestedOpenerLen(source, index, p.blocks, d.end) > 0 {
        index, depth := index + NestedOpenerLen(source, index, p.blocks, d.end), depth + 1;
      } else if Starts(source, index, d.end) {
        index, depth := index + |d.end|, depth - 1;
        if depth == 0 { return; }
      } else {
        index := index + 1;
      }
    }
    BlockStops(source, p, d, depth);
  }

  /** The string that begins at `index`, if one does. */
  method FindString(source: Source, index: nat, p: Profile) returns (d: Option<StringDelimiter>)
    ensures d.None? ==> !Quotes(source, index, p)
    ensures d.Some? ==> d.value in p.strings && Starts(source, index, d.value.start)
  {
    var k := 0;
    while k < |p.strings|
      invariant 0 <= k <= |p.strings|
      invariant forall j | 0 <= j < k :: !Starts(source, index, p.strings[j].start)
    {
      if Starts(source, index, p.strings[k].start) { return Some(p.strings[k]); }
      k := k + 1;
    }
    d := None;
  }

  lemma {:induction false} OpenerStarts(source: Source, i: nat, p: Profile, o: Opener)
    requires Accepted(p) && OpensLongest(source, i, p, o)
    ensures TokenOf(o) != [] && i + |TokenOf(o)| <= |source| && (o.OpensBlock? ==> o.block.end != [])
  {
    assert Opens(source, i, p, o);
  }

  lemma {:induction false} LineIsToken(source: Source, p: Profile, t: Token, d: LineDelimiter)
    requires t.kind.LineComment? && !Quotes(source, t.span.start, p) && ReadsLine(source, p, t, d)
    ensures IsTokenOf(source, p, t)
  {
  }

  lemma {:induction false} BlockIsToken(source: Source, p: Profile, t: Token, d: BlockDelimiter)
    requires t.kind.BlockComment? && !Quotes(source, t.span.start, p) && ReadsBlock(source, p, t, d)
    ensures IsTokenOf(source, p, t)
  {
  }

  /** The comment token, or the one byte of code, at `index`. */
  method NextComment(source: Source, index: nat, p: Profile) returns (t: Token)
    requires index < |source| && Accepted(p) && !Quotes(source, index, p)
    ensures t.span.start == index < t.span.end <= |source| && IsTokenOf(source, p, t)
  {
    hide Accepted, Quotes, OpensLongest, OpensNothing;
    var opener := OpenerAt(source, index, p);
    if opener.None? { return Token(ByteSpan(index, index + 1), Code); }
    OpenerStarts(source, index, p, opener.value);
    match opener.value {
    case OpensLine(d) =>
      var end := ScanLineComment(source, index + |d.start|);
      t := Token(ByteSpan(index, end), LineComment(d.kind));
      LineIsToken(source, p, t, d);
    case OpensBlock(d) =>
      var end, depth := ScanBlock(source, p, index + |d.start|, d);
      t := Token(ByteSpan(index, end), BlockComment(d.kind, depth == 0));
      BlockIsToken(source, p, t, d);
    }
  }

  /** The token at `index`. */
  method NextToken(source: Source, index: nat, p: Profile) returns (t: Token)
    requires index < |source| && Accepted(p)
    ensures t.span.start == index < t.span.end <= |source| && IsTokenOf(source, p, t)
  {
    var string_ := FindString(source, index, p);
    if string_.Some? {
      var end, closed := ScanString(source, index + |string_.value.start|, string_.value);
      t := Token(ByteSpan(index, end), Quoted(closed));
      assert ReadsString(source, p, t, string_.value);
    } else {
      t := NextComment(source, index, p);
    }
  }

  /**
   * The scan of a source under a profile: refused exactly when the profile is not accepted, and otherwise
   * the comments and the faults of the tokens the source is cut into.
   */
  method ScanProfile(source: Source, p: Profile)
    returns (r: Result<ProfileReport, ProfileError>, ghost tokens: seq<Token>)
    ensures r.Success? <==> Accepted(p)
    ensures r.Failure? ==> Explains(p, r.error)
    ensures r.Success? ==> Tokenizes(source, p, tokens, |source|)
                           && r.value == ProfileReport(CommentsOf(tokens), FaultsOf(tokens), FaultsOf(tokens) == [])
  {
    tokens := [];
    var e := ValidateProfile(p);
    if e.Some? { return Failure(e.value), []; }
    var comments, diagnostics := [], [];
    var index := 0;
    while index < |source|
      invariant index <= |source| && Tokenizes(source, p, tokens, index)
      invariant comments == CommentsOf(tokens) && diagnostics == FaultsOf(tokens)
      decreases |source| - index
    {
      var t := NextToken(source, index, p);
      TileMore(tokens, t, index);
      assert (tokens + [t])[..|tokens|] == tokens;
      tokens := tokens + [t];
      match t.kind {
      case Code =>
      case Quoted(ended) =>
        if !ended { diagnostics := diagnostics + [Located(t.span, UNTERMINATED_STRING)]; }
      case LineComment(kind) =>
        comments := comments + [Located(t.span, kind)];
      case BlockComment(kind, ended) =>
        comments := comments + [Located(t.span, kind)];
        if !ended { diagnostics := diagnostics + [Located(t.span, UNTERMINATED_COMMENT)]; }
      }
      index := t.span.end;
    }
    r := Success(ProfileReport(comments, diagnostics, diagnostics == []));
  }

  // ---- one reading only ----

  /** Whether a token is a string, a comment or code is read off what begins at its start. */
  lemma {:induction false} KindIsRead(source: Source, p: Profile, t: Token)
    requires IsTokenOf(source, p, t)
    ensures t.kind.Quoted? <==> Quotes(source, t.span.start, p)
    ensures !t.kind.Quoted? ==> (t.kind.Code? <==> OpensNothing(source, t.span.start, p))
  {
    match t.kind
    case Quoted(_) =>
      var d :| ReadsString(source, p, t, d);
    case LineComment(_) =>
      var d :| ReadsLine(source, p, t, d);
    case BlockComment(_, _) =>
      var d :| ReadsBlock(source, p, t, d);
    case Code =>
  }

  lemma {:induction false} QuotedIsUnique(source: Source, p: Profile, a: Token, b: Token)
    requires Accepted(p) && IsTokenOf(source, p, a) && IsTokenOf(source, p, b) && a.span.start == b.span.start
    requires a.kind.Quoted? && b.kind.Quoted?
    ensures a == b
  {
    var d :| ReadsString(source, p, a, d);
    var e :| ReadsString(source, p, b, e);
    StringIsUnique(source, a.span.start, p, d, e);
    OneString(source, p, a, b, d);
  }

  lemma {:induction false} OneString(source: Source, p: Profile, a: Token, b: Token, d: StringDelimiter)
    requires ReadsString(source, p, a, d) && ReadsString(source, p, b, d) && a.span.start == b.span.start
    ensures a == b
  {
  }

  lemma {:induction false} OneLineComment(source: Source, p: Profile, a: Token, b: Token, d: LineDelimiter)
    requires ReadsLine(source, p, a, d) && ReadsLine(source, p, b, d) && a.span.start == b.span.start
    ensures a == b
  {
  }

  lemma {:induction false} OneBlockComment(source: Source, p: Profile, a: Token, b: Token, d: BlockDelimiter)
    requires ReadsBlock(source, p, a, d) && ReadsBlock(source, p, b, d) && a.span.start == b.span.start
    ensures a == b
  {
  }

  lemma {:induction false} CommentIsUnique(source: Source, p: Profile, a: Token, b: Token)
    requires Accepted(p) && IsTokenOf(source, p, a) && IsTokenOf(source, p, b) && a.span.start == b.span.start
    requires (a.kind.LineComment? || a.kind.BlockComment?) && (b.kind.LineComment? || b.kind.BlockComment?)
    ensures a == b
  {
    var x := OpenerOf(source, p, a);
    var y := OpenerOf(source, p, b);
    LongestIsUnique(source, a.span.start, p, x, y);
    match x
    case OpensLine(d) => OneLineComment(source, p, a, b, d);
    case OpensBlock(d) => OneBlockComment(source, p, a, b, d);
  }

  /** At one place an accepted profile reads one token. */
  lemma {:induction false} TokenIsUnique(source: Source, p: Profile, a: Token, b: Token)
    requires Accepted(p) && IsTokenOf(source, p, a) && IsTokenOf(source, p, b) && a.span.start == b.span.start
    ensures a == b
  {
    KindIsRead(source, p, a);
    KindIsRead(source, p, b);
    if a.kind.Quoted? {
      QuotedIsUnique(source, p, a, b);
    } else if !a.kind.Code? {
      CommentIsUnique(source, p, a, b);
    }
  }

  /** Two string delimiters that begin at one place are one. */
  lemma {:induction false} StringIsUnique(source: Source, i: nat, p: Profile, d: StringDelimiter, e: StringDelimiter)
    requires Unambiguous(p) && d in p.strings && e in p.strings
    requires Starts(source, i, d.start) && Starts(source, i, e.start)
    ensures d == e
  {
    var x :| 0 <= x < |p.strings| && p.strings[x] == d;
    var y :| 0 <= y < |p.strings| && p.strings[y] == e;
    PrefixesMeet(source, i, d.start, e.start);
    PrefixesMeet(source, i, e.start, d.start);
  }

  lemma {:induction false} PrefixesMeet(source: Source, i: nat, a: Source, b: Source)
    requires Starts(source, i, a) && Starts(source, i, b)
    ensures Prefixed(a, b)
  {
    var n := Min(|a|, |b|);
    assert source[i..i + |a|][..n] == source[i..i + n] == source[i..i + |b|][..n];
  }

  /** The delimiter a comment token was read by. */
  lemma {:induction false} OpenerOf(source: Source, p: Profile, t: Token) returns (o: Opener)
    requires IsTokenOf(source, p, t) && (t.kind.LineComment? || t.kind.BlockComment?)
    ensures OpensLongest(source, t.span.start, p, o)
    ensures match o case OpensLine(d) => ReadsLine(source, p, t, d) case OpensBlock(d) => ReadsBlock(source, p, t, d)
  {
    if t.kind.LineComment? {
      var d :| ReadsLine(source, p, t, d);
      o := OpensLine(d);
    } else {
      var d :| ReadsBlock(source, p, t, d);
      o := OpensBlock(d);
    }
  }

  /** An accepted profile cuts a source into tokens in one way. */
  lemma {:induction false} OneReading(source: Source, p: Profile, a: seq<Token>, b: seq<Token>)
    requires Accepted(p) && Tokenizes(source, p, a, |source|) && Tokenizes(source, p, b, |source|)
    ensures a == b
  {
    var n := Min(|a|, |b|);
    SameUpTo(source, p, a, b, n);
    assert a[..|a|] == a && b[..|b|] == b;
    if n == |a| { ReachesEnd(a, b, |source|, n); } else { ReachesEnd(b, a, |source|, n); }
  }

  /** Tokens that reach the end of the source are all there are. */
  lemma {:induction false} ReachesEnd(a: seq<Token>, b: seq<Token>, end: nat, n: nat)
    requires Tile(a, end) && Tile(b, end) && n == |a| <= |b| && a == b[..n]
    ensures n == |b|
  {
    assert n > 0 ==> a[n - 1] == b[..n][n - 1] == b[n - 1];
    if n < |b| && n + 1 < |b| { TileApart(b, end, n, |b| - 1); }
  }

  lemma {:induction false} SameUpTo(source: Source, p: Profile, a: seq<Token>, b: seq<Token>, n: nat)
    requires Accepted(p) && Tokenizes(source, p, a, |source|) && Tokenizes(source, p, b, |source|)
    requires n <= |a| && n <= |b|
    ensures a[..n] == b[..n]
    decreases n
  {
    if n > 0 {
      SameUpTo(source, p, a, b, n - 1);
      if n > 1 { assert a[..n - 1][n - 2] == b[..n - 1][n - 2]; }
      assert a[n - 1] in a && b[n - 1] in b;
      TokenIsUnique(source, p, a[n - 1], b[n - 1]);
      assert a[..n] == a[..n - 1] + [a[n - 1]] && b[..n] == b[..n - 1] + [b[n - 1]];
    }
  }

  // ---- the order of the tables does not matter ----

  /** `order` lists the places of `s`, each once: the sequence it names is a reordering of `s`. */
  ghost predicate IsOrder(order: seq<nat>, n: nat) {
    && |order| == n
    && (forall i | 0 <= i < n :: order[i] < n)
    && (forall i, j | 0 <= i < j < n :: order[i] != order[j])
    && (forall k: nat | k < n :: k in order)
  }

  ghost function Reordered<T(!new)>(s: seq<T>, order: seq<nat>): (r: seq<T>)
    requires IsOrder(order, |s|)
    ensures forall x :: x in r <==> x in s
  {
    var r := seq(|s|, i requires 0 <= i < |s| => s[order[i]]);
    ReorderedMembers(s, order, r);
    r
  }

  lemma {:induction false} ReorderedMembers<T(!new)>(s: seq<T>, order: seq<nat>, r: seq<T>)
    requires IsOrder(order, |s|) && |r| == |s| && forall i | 0 <= i < |s| :: r[i] == s[order[i]]
    ensures forall x :: x in r <==> x in s
  {
    forall x | x in s
      ensures x in r
    {
      var k: nat :| k < |s| && s[k] == x;
      assert k in order;
      var i :| 0 <= i < |order| && order[i] == k;
      assert r[i] == x;
    }
    forall x | x in r
      ensures x in s
    {
      var i :| 0 <= i < |r| && r[i] == x;
      assert s[order[i]] == x;
    }
  }

  /** `p` with its tables of line, block and string delimiters in another order. */
  ghost function Shuffled(p: Profile, lines: seq<nat>, blocks: seq<nat>, strings: seq<nat>): Profile
    requires IsOrder(lines, |p.lines|) && IsOrder(blocks, |p.blocks|) && IsOrder(strings, |p.strings|)
  {
    p.(lines := Reordered(p.lines, lines), blocks := Reordered(p.blocks, blocks),
       strings := Reordered(p.strings, strings))
  }

  /** The place a comment token had before. */
  ghost function WasAt(p: Profile, lines: seq<nat>, blocks: seq<nat>, i: nat): (k: nat)
    requires IsOrder(lines, |p.lines|) && IsOrder(blocks, |p.blocks|) && i < |p.lines| + |p.blocks|
    ensures k < |p.lines| + |p.blocks|
  {
    if i < |p.lines| then lines[i] else |p.lines| + blocks[i - |p.lines|]
  }

  lemma {:induction false} WasAtIsInjective(p: Profile, lines: seq<nat>, blocks: seq<nat>, i: nat, j: nat)
    requires IsOrder(lines, |p.lines|) && IsOrder(blocks, |p.blocks|) && i < j < |p.lines| + |p.blocks|
    ensures WasAt(p, lines, blocks, i) != WasAt(p, lines, blocks, j)
  {
  }

  lemma {:induction false} ShuffledStart(p: Profile, lines: seq<nat>, blocks: seq<nat>, strings: seq<nat>, i: nat)
    requires IsOrder(lines, |p.lines|) && IsOrder(blocks, |p.blocks|) && IsOrder(strings, |p.strings|)
    requires i < |CommentStarts(p)|
    ensures var q := Shuffled(p, lines, blocks, strings);
            i < |CommentStarts(q)| && CommentStarts(q)[i] == CommentStarts(p)[WasAt(p, lines, blocks, i)]
  {
    var q := Shuffled(p, lines, blocks, strings);
    if i < |p.lines| {
      assert CommentStarts(q)[i] == q.lines[i].start;
    } else {
      assert CommentStarts(q)[|q.lines| + (i - |p.lines|)] == q.blocks[i - |p.lines|].start;
    }
  }

  /** An accepted profile is accepted in any order of its tables. */
  lemma {:induction false} AcceptedStays(p: Profile, lines: seq<nat>, blocks: seq<nat>, strings: seq<nat>)
    requires IsOrder(lines, |p.lines|) && IsOrder(blocks, |p.blocks|) && IsOrder(strings, |p.strings|)
    requires Accepted(p)
    ensures Accepted(Shuffled(p, lines, blocks, strings))
  {
    var q := Shuffled(p, lines, blocks, strings);
    var was, now := CommentStarts(p), CommentStarts(q);
    forall i, j | 0 <= i < j < |now|
      ensures now[i] != now[j]
    {
      ShuffledStart(p, lines, blocks, strings, i);
      ShuffledStart(p, lines, blocks, strings, j);
      WasAtIsInjective(p, lines, blocks, i, j);
    }
    forall i, j | 0 <= i < |now| && 0 <= j < |q.strings|
      ensures !Prefixed(now[i], q.strings[j].start)
    {
      ShuffledStart(p, lines, blocks, strings, i);
    }
    forall i, j | 0 <= i < j < |q.strings|
      ensures !Prefixed(q.strings[i].start, q.strings[j].start)
    {
      assert q.strings[i] == p.strings[strings[i]] && q.strings[j] == p.strings[strings[j]];
    }
  }

  /** Where `order` names the place `k`. */
  function PlaceIn(order: seq<nat>, k: nat): (i: nat)
    requires k in order
    ensures i < |order| && order[i] == k
  {
    if order[0] == k then 0 else 1 + PlaceIn(order[1..], k)
  }

  /** The order that undoes another. */
  ghost function Undone(order: seq<nat>, n: nat): seq<nat>
    requires IsOrder(order, n)
  {
    seq(n, k requires 0 <= k < n => PlaceIn(order, k))
  }

  lemma {:induction false} UndoneIsOrder(order: seq<nat>, n: nat)
    requires IsOrder(order, n)
    ensures IsOrder(Undone(order, n), n)
    ensures forall i | 0 <= i < n :: Undone(order, n)[order[i]] == i
  {
    var back := Undone(order, n);
    forall i: nat | i < n
      ensures back[order[i]] == i && i in back
    {
      assert order[back[order[i]]] == order[i];
    }
  }

  lemma {:induction false} ReorderedBack<T(!new)>(s: seq<T>, order: seq<nat>)
    requires IsOrder(order, |s|)
    ensures IsOrder(Undone(order, |s|), |s|)
    ensures Reordered(Reordered(s, order), Undone(order, |s|)) == s
  {
    UndoneIsOrder(order, |s|);
    var r, back := Reordered(s, order), Undone(order, |s|);
    forall k | 0 <= k < |s|
      ensures Reordered(r, back)[k] == s[k]
    {
      assert Reordered(r, back)[k] == r[back[k]] == s[order[back[k]]];
    }
  }

  /** A profile is accepted or not whatever the order of its tables. */
  lemma {:induction false} AcceptedInAnyOrder(p: Profile, lines: seq<nat>, blocks: seq<nat>, strings: seq<nat>)
    requires IsOrder(lines, |p.lines|) && IsOrder(blocks, |p.blocks|) && IsOrder(strings, |p.strings|)
    ensures Accepted(Shuffled(p, lines, blocks, strings)) <==> Accepted(p)
  {
    var q := Shuffled(p, lines, blocks, strings);
    if Accepted(p) { AcceptedStays(p, lines, blocks, strings); }
    if Accepted(q) {
      ReorderedBack(p.lines, lines);
      ReorderedBack(p.blocks, blocks);
      ReorderedBack(p.strings, strings);
      var back := Shuffled(q, Undone(lines, |p.lines|), Undone(blocks, |p.blocks|), Undone(strings, |p.strings|));
      AcceptedStays(q, Undone(lines, |p.lines|), Undone(blocks, |p.blocks|), Undone(strings, |p.strings|));
      assert back == p;
    }
  }

  /** The longest nested opener is the longest in any order. */
  lemma {:induction false} NestedInAnyOrder(source: Source, i: nat, a: seq<BlockDelimiter>, b: seq<BlockDelimiter>,
                                            end: Source)
    requires forall d :: d in a <==> d in b
    ensures NestedOpenerLen(source, i, a, end) == NestedOpenerLen(source, i, b, end)
  {
    var m, n := NestedOpenerLen(source, i, a, end), NestedOpenerLen(source, i, b, end);
    if m > 0 { var d :| d in a && d.end == end && Starts(source, i, d.start) && |d.start| == m; assert d in b; }
    if n > 0 { var d :| d in b && d.end == end && Starts(source, i, d.start) && |d.start| == n; assert d in a; }
  }

  lemma {:induction false} PieceInAnyOrder(source: Source, p: Profile, q: Profile, d: BlockDelimiter, i: nat)
    requires i < |source| && d.end != [] && forall e :: e in p.blocks <==> e in q.blocks
    ensures PieceAt(source, p, d, i) == PieceAt(source, q, d, i)
  {
    NestedInAnyOrder(source, i, p.blocks, q.blocks, d.end);
  }

  lemma {:induction false} BlockInAnyOrder(source: Source, p: Profile, q: Profile, d: BlockDelimiter, i: nat,
                                           depth: nat)
    requires i <= |source| && depth > 0 && d.end != [] && forall e :: e in p.blocks <==> e in q.blocks
    ensures BlockEnds(source, p, d, i, depth) == BlockEnds(source, q, d, i, depth)
    decreases |source| - i
  {
    if i < |source| {
      var piece := PieceAt(source, p, d, i);
      PieceInAnyOrder(source, p, q, d, i);
      if depth + Weight(piece) > 0 { BlockInAnyOrder(source, p, q, d, i + PieceLen(piece), depth + Weight(piece)); }
    }
  }

  /** The same delimiters, in whatever order. */
  ghost predicate SameTables(p: Profile, q: Profile) {
    && (forall d :: d in p.lines <==> d in q.lines)
    && (forall d :: d in p.blocks <==> d in q.blocks)
    && (forall d :: d in p.strings <==> d in q.strings)
  }

  lemma {:induction false} OpensAlike(source: Source, i: nat, p: Profile, q: Profile)
    requires SameTables(p, q)
    ensures forall o :: Opens(source, i, p, o) <==> Opens(source, i, q, o)
    ensures forall o :: OpensLongest(source, i, p, o) <==> OpensLongest(source, i, q, o)
    ensures OpensNothing(source, i, p) <==> OpensNothing(source, i, q)
    ensures Quotes(source, i, p) <==> Quotes(source, i, q)
  {
    forall o
      ensures Opens(source, i, p, o) <==> Opens(source, i, q, o)
    {
    }
  }

  lemma {:induction false} LineInAnyOrder(source: Source, p: Profile, q: Profile, t: Token, d: LineDelimiter)
    requires SameTables(p, q) && ReadsLine(source, p, t, d)
    ensures ReadsLine(source, q, t, d)
  {
    OpensAlike(source, t.span.start, p, q);
  }

  lemma {:induction false} BlockCommentInAnyOrder(source: Source, p: Profile, q: Profile, t: Token, d: BlockDelimiter)
    requires SameTables(p, q) && ReadsBlock(source, p, t, d)
    ensures ReadsBlock(source, q, t, d)
  {
    OpensAlike(source, t.span.start, p, q);
    BlockInAnyOrder(source, p, q, d, t.span.start + |d.start|, 1);
  }

  lemma {:induction false} TokenInAnyOrder(source: Source, p: Profile, q: Profile, t: Token)
    requires SameTables(p, q) && IsTokenOf(source, p, t)
    ensures IsTokenOf(source, q, t)
  {
    OpensAlike(source, t.span.start, p, q);
    match t.kind
    case Quoted(_) =>
      var d :| ReadsString(source, p, t, d);
      assert ReadsString(source, q, t, d);
    case LineComment(_) =>
      var d :| ReadsLine(source, p, t, d);
      LineInAnyOrder(source, p, q, t, d);
    case BlockComment(_, _) =>
      var d :| ReadsBlock(source, p, t, d);
      BlockCommentInAnyOrder(source, p, q, t, d);
    case Code =>
  }

  /**
   * Whatever order an accepted profile lists its delimiters in, it is accepted, and it cuts every source
   * into the same tokens: so the scan reports the same comments and the same faults.
   */
  lemma {:induction false} ScanInAnyOrder(source: Source, p: Profile, lines: seq<nat>, blocks: seq<nat>,
                                          strings: seq<nat>, a: seq<Token>, b: seq<Token>)
    requires IsOrder(lines, |p.lines|) && IsOrder(blocks, |p.blocks|) && IsOrder(strings, |p.strings|)
    requires Accepted(p)
    requires Tokenizes(source, p, a, |source|)
    requires Tokenizes(source, Shuffled(p, lines, blocks, strings), b, |source|)
    ensures Accepted(Shuffled(p, lines, blocks, strings)) && a == b
  {
    var q := Shuffled(p, lines, blocks, strings);
    AcceptedInAnyOrder(p, lines, blocks, strings);
    forall t | t in a
      ensures IsTokenOf(source, q, t)
    {
      TokenInAnyOrder(source, p, q, t);
    }
    OneReading(source, q, a, b);
  }
}
