/**
 * Reflowing a paragraph of comment prose: which lines are put together, and where the result is cut.
 *
 * How a line is classified, what Unicode calls white space, and which words end in a full stop that ends
 * no sentence are given by a `Reading`; what is proved holds whatever they are.
 */
module Reflows {
  import opened Bytes

  datatype Wrap = Preserve | Unwrap | Sentence

  datatype Reading = Reading(isSpace: char -> bool, isFence: string -> bool, isProse: string -> bool,
                             isListItem: string -> bool, indented: (string, string) -> bool,
                             endsWord: (string, nat) -> bool, abbreviates: (string, nat) -> bool)

  // ---- the characters of the prose ----

  /** The characters of a text that are not white space, in order. */
  function Ink(r: Reading, s: string): string {
    if s == "" then "" else (if r.isSpace(s[0]) then "" else [s[0]]) + Ink(r, s[1..])
  }

  function InkAll(r: Reading, lines: seq<string>): string {
    if lines == [] then "" else Ink(r, lines[0]) + InkAll(r, lines[1..])
  }

  lemma {:induction false} InkJoins(r: Reading, a: string, b: string)
    ensures Ink(r, a + b) == Ink(r, a) + Ink(r, b)
    decreases |a|
  {
    if a == "" {
      assert a + b == b;
      assert "" + Ink(r, b) == Ink(r, b);
    } else {
      assert (a + b)[1..] == a[1..] + b;
      InkJoins(r, a[1..], b);
      var head := if r.isSpace(a[0]) then "" else [a[0]];
      assert head + (Ink(r, a[1..]) + Ink(r, b)) == (head + Ink(r, a[1..])) + Ink(r, b);
    }
  }

  lemma {:induction false} InkAllJoins(r: Reading, a: seq<string>, b: seq<string>)
    ensures InkAll(r, a + b) == InkAll(r, a) + InkAll(r, b)
    decreases |a|
  {
    if a == [] {
      assert a + b == b;
      assert "" + InkAll(r, b) == InkAll(r, b);
    } else {
      assert (a + b)[1..] == a[1..] + b;
      InkAllJoins(r, a[1..], b);
      assert Ink(r, a[0]) + (InkAll(r, a[1..]) + InkAll(r, b)) == (Ink(r, a[0]) + InkAll(r, a[1..])) + InkAll(r, b);
    }
  }

  lemma {:induction false} InkAllOne(r: Reading, s: string)
    ensures InkAll(r, [s]) == Ink(r, s)
  {
    assert [s][1..] == [];
    assert Ink(r, s) + "" == Ink(r, s);
  }

  predicate IsBlank(r: Reading, s: string) {
    forall c <- s :: r.isSpace(c)
  }

  lemma {:induction false} BlankHasNoInk(r: Reading, s: string)
    requires IsBlank(r, s)
    ensures Ink(r, s) == ""
    decreases |s|
  {
    if s != "" {
      assert s[0] in s;
      BlankHasNoInk(r, s[1..]);
    }
  }

  function TrimStart(r: Reading, s: string): string
    decreases |s|
  {
    if s != "" && r.isSpace(s[0]) then TrimStart(r, s[1..]) else s
  }

  function TrimEnd(r: Reading, s: string): string
    decreases |s|
  {
    if s != "" && r.isSpace(s[|s| - 1]) then TrimEnd(r, s[..|s| - 1]) else s
  }

  function Trim(r: Reading, s: string): string {
    TrimEnd(r, TrimStart(r, s))
  }

  lemma {:induction false} TrimStartKeepsInk(r: Reading, s: string)
    ensures Ink(r, TrimStart(r, s)) == Ink(r, s)
    decreases |s|
  {
    if s != "" && r.isSpace(s[0]) {
      TrimStartKeepsInk(r, s[1..]);
      assert "" + Ink(r, s[1..]) == Ink(r, s[1..]);
    }
  }

  lemma {:induction false} TrimEndKeepsInk(r: Reading, s: string)
    ensures Ink(r, TrimEnd(r, s)) == Ink(r, s)
    decreases |s|
  {
    if s != "" && r.isSpace(s[|s| - 1]) {
      var front, last := s[..|s| - 1], [s[|s| - 1]];
      TrimEndKeepsInk(r, front);
      InkJoins(r, front, last);
      assert s == front + last && last[1..] == "";
      assert Ink(r, front) + "" == Ink(r, front);
    }
  }

  lemma {:induction false} TrimKeepsInk(r: Reading, s: string)
    ensures Ink(r, Trim(r, s)) == Ink(r, s)
  {
    TrimStartKeepsInk(r, s);
    TrimEndKeepsInk(r, TrimStart(r, s));
  }

  /** Nothing, or a text with white space at neither end. */
  predicate IsTrimmed(r: Reading, s: string) {
    s != "" ==> !r.isSpace(s[0]) && !r.isSpace(s[|s| - 1])
  }

  /** Trimming takes the white space at both ends and nothing else. */
  lemma {:induction false} TrimTakesEnds(r: Reading, s: string) returns (a: nat, b: nat)
    ensures a <= b <= |s| && Trim(r, s) == s[a..b] && IsTrimmed(r, Trim(r, s))
    ensures IsBlank(r, s[..a]) && IsBlank(r, s[b..])
  {
    a := TrimStartTakes(r, s);
    b := TrimEndTakes(r, s[a..]);
    assert s[a..][..b] == s[a..a + b] && s[a..][b..] == s[a + b..];
    b := a + b;
  }

  lemma {:induction false} TrimStartTakes(r: Reading, s: string) returns (a: nat)
    ensures a <= |s| && TrimStart(r, s) == s[a..] && IsBlank(r, s[..a]) && (a < |s| ==> !r.isSpace(s[a]))
    decreases |s|
  {
    a := 0;
    if s != "" && r.isSpace(s[0]) {
      var rest := TrimStartTakes(r, s[1..]);
      assert s[1..][rest..] == s[rest + 1..] && s[..rest + 1] == [s[0]] + s[1..][..rest];
      a := rest + 1;
    }
  }

  lemma {:induction false} TrimEndTakes(r: Reading, s: string) returns (b: nat)
    ensures b <= |s| && TrimEnd(r, s) == s[..b] && IsBlank(r, s[b..]) && (b > 0 ==> !r.isSpace(s[b - 1]))
    decreases |s|
  {
    b := |s|;
    if s != "" && r.isSpace(s[|s| - 1]) {
      b := TrimEndTakes(r, s[..|s| - 1]);
      assert s[..|s| - 1][..b] == s[..b] && s[b..] == s[..|s| - 1][b..] + [s[|s| - 1]];
    }
  }

  // ---- putting lines together ----

  /** The scripts that write no space between words. */
  predicate WrittenWithoutSpaces(c: char) {
    || 0x3000 <= c as int <= 0x30FF || 0x3400 <= c as int <= 0x4DBF || 0x4E00 <= c as int <= 0x9FFF
    || 0xAC00 <= c as int <= 0xD7AF || 0xF900 <= c as int <= 0xFAFF || 0xFF00 <= c as int <= 0xFFEF
  }

  function AddPiece(out: string, piece: string): string {
    if piece == "" then out
    else if out != "" && !(WrittenWithoutSpaces(out[|out| - 1]) && WrittenWithoutSpaces(piece[0]))
    then out + " " + piece
    else out + piece
  }

  /** The held lines as one, written behind `out`. */
  function JoinedBehind(r: Reading, out: string, held: seq<string>): string
    decreases |held|
  {
    if held == [] then out else JoinedBehind(r, AddPiece(out, Trim(r, held[0])), held[1..])
  }

  method Join(r: Reading, held: seq<string>) returns (out: string)
    ensures out == JoinedBehind(r, "", held)
  {
    out := "";
    var i := 0;
    while i < |held|
      invariant 0 <= i <= |held|
      invariant JoinedBehind(r, out, held[i..]) == JoinedBehind(r, "", held)
    {
      assert held[i..][1..] == held[i + 1..];
      out := AddPiece(out, Trim(r, held[i]));
      i := i + 1;
    }
  }

  lemma {:induction false} JoinKeepsInk(r: Reading, out: string, held: seq<string>)
    requires r.isSpace(' ')
    ensures Ink(r, JoinedBehind(r, out, held)) == Ink(r, out) + InkAll(r, held)
    decreases |held|
  {
    if held == [] {
      assert Ink(r, out) + "" == Ink(r, out);
    } else {
      var piece := Trim(r, held[0]);
      var next := AddPiece(out, piece);
      calc {
        Ink(r, JoinedBehind(r, out, held));
        { JoinKeepsInk(r, next, held[1..]); }
        Ink(r, next) + InkAll(r, held[1..]);
        { AddPieceKeepsInk(r, out, piece); TrimKeepsInk(r, held[0]); }
        (Ink(r, out) + Ink(r, held[0])) + InkAll(r, held[1..]);
        Ink(r, out) + (Ink(r, held[0]) + InkAll(r, held[1..]));
        Ink(r, out) + InkAll(r, held);
      }
    }
  }

  lemma {:induction false} AddPieceKeepsInk(r: Reading, out: string, piece: string)
    requires r.isSpace(' ')
    ensures Ink(r, AddPiece(out, piece)) == Ink(r, out) + Ink(r, piece)
  {
    if piece == "" {
      assert Ink(r, out) + "" == Ink(r, out);
    } else {
      InkJoins(r, out, piece);
      InkJoins(r, out + " ", piece);
      InkJoins(r, out, " ");
      assert " "[1..] == "";
      assert Ink(r, out) + "" == Ink(r, out);
    }
  }

  /** What the held lines come to, trimmed, blank ones left out. */
  function PiecesOf(r: Reading, held: seq<string>): (pieces: seq<string>)
    ensures forall p <- pieces :: p != ""
  {
    if held == [] then []
    else (if Trim(r, held[0]) == "" then [] else [Trim(r, held[0])]) + PiecesOf(r, held[1..])
  }

  /** The piece stands in the text at `at`. */
  ghost predicate StandsAt(text: string, piece: string, at: nat) {
    piece != "" && at + |piece| <= |text| && text[at..at + |piece|] == piece
  }

  /** From `end` to `next` there is a space, or nothing between two characters of scripts that write none. */
  ghost predicate SeamAt(text: string, end: nat, next: nat) {
    0 < end <= next < |text|
    && if WrittenWithoutSpaces(text[end - 1]) && WrittenWithoutSpaces(text[next]) then next == end
       else next == end + 1 && text[end] == ' '
  }

  /**
   * The pieces lie in the text one behind the other, piece `k` at `at[k]`: with one space in between, and with nothing
   * where both sides of the seam are of scripts that write none.
   */
  ghost predicate LiesAs(text: string, pieces: seq<string>, at: seq<nat>) {
    && |at| == |pieces|
    && (forall k | 0 <= k < |pieces| :: StandsAt(text, pieces[k], at[k]))
    && (if pieces == [] then text == "" else at[0] == 0 && at[|at| - 1] + |pieces[|pieces| - 1]| == |text|)
    && forall k | 0 < k < |pieces| :: SeamAt(text, at[k - 1] + |pieces[k - 1]|, at[k])
  }

  lemma {:induction false} AddedPiece(text: string, piece: string)
    requires piece != ""
    ensures var next := AddPiece(text, piece);
            && |text| + |piece| <= |next| && next[..|text|] == text && StandsAt(next, piece, |next| - |piece|)
            && (if text == "" then next == piece else SeamAt(next, |text|, |next| - |piece|))
  {
  }

  lemma {:induction false} StandsStill(text: string, next: string, piece: string, at: nat)
    requires |text| <= |next| && next[..|text|] == text && StandsAt(text, piece, at)
    ensures StandsAt(next, piece, at)
  {
    assert next[..|text|][at..at + |piece|] == next[at..at + |piece|];
  }

  lemma {:induction false} SeamStays(text: string, next: string, end: nat, at: nat)
    requires SeamAt(text, end, at) && |text| <= |next| && next[..|text|] == text
    ensures SeamAt(next, end, at)
  {
    assert next[..|text|][end - 1] == next[end - 1] && next[..|text|][at] == next[at];
    assert next[..|text|][end] == next[end];
  }

  lemma {:induction false} LiesWithMore(text: string, pieces: seq<string>, at: seq<nat>, piece: string)
    returns (more: seq<nat>)
    requires LiesAs(text, pieces, at) && piece != ""
    ensures LiesAs(AddPiece(text, piece), pieces + [piece], more)
  {
    hide AddPiece, StandsAt, SeamAt;
    var next := AddPiece(text, piece);
    AddedPiece(text, piece);
    more := at + [|next| - |piece|];
    forall k | 0 <= k < |pieces|
      ensures StandsAt(next, pieces[k], at[k])
    {
      StandsStill(text, next, pieces[k], at[k]);
    }
    forall k | 0 < k < |pieces|
      ensures SeamAt(next, at[k - 1] + |pieces[k - 1]|, at[k])
    {
      SeamStays(text, next, at[k - 1] + |pieces[k - 1]|, at[k]);
    }
    if pieces != [] { PieceIsThere(text, pieces[0], at[0]); }
  }

  lemma {:induction false} PieceIsThere(text: string, piece: string, at: nat)
    requires StandsAt(text, piece, at)
    ensures text != ""
  {
  }

  /** Joined lines are set with a space between them where one belongs, and nowhere else. */
  lemma {:induction false} JoinSetsSpaces(r: Reading, out: string, done: seq<string>, at: seq<nat>, held: seq<string>)
    returns (all: seq<nat>)
    requires LiesAs(out, done, at)
    ensures LiesAs(JoinedBehind(r, out, held), done + PiecesOf(r, held), all)
    decreases |held|
  {
    hide LiesAs, Trim;
    if held == [] {
      all := at;
      assert done + [] == done;
    } else {
      var piece, rest := Trim(r, held[0]), PiecesOf(r, held[1..]);
      if piece == "" {
        all := JoinSetsSpaces(r, out, done, at, held[1..]);
        assert [] + rest == rest;
      } else {
        var more := LiesWithMore(out, done, at, piece);
        all := JoinSetsSpaces(r, AddPiece(out, piece), done + [piece], more, held[1..]);
        OneByOne(done, piece, rest);
      }
    }
  }

  lemma {:induction false} OneByOne(done: seq<string>, piece: string, rest: seq<string>)
    ensures (done + [piece]) + rest == done + ([piece] + rest)
  {
  }

  /** The held lines as one. */
  lemma {:induction false} JoinedLies(r: Reading, held: seq<string>) returns (at: seq<nat>)
    ensures LiesAs(JoinedBehind(r, "", held), PiecesOf(r, held), at)
    ensures forall p <- PiecesOf(r, held) :: IsTrimmed(r, p)
  {
    at := JoinSetsSpaces(r, "", [], [], held);
    assert [] + PiecesOf(r, held) == PiecesOf(r, held);
    PiecesAreTrimmed(r, held);
  }

  lemma {:induction false} PiecesAreTrimmed(r: Reading, held: seq<string>)
    ensures forall p <- PiecesOf(r, held) :: IsTrimmed(r, p)
  {
    if held != [] {
      var a, b := TrimTakesEnds(r, held[0]);
      PiecesAreTrimmed(r, held[1..]);
    }
  }

  // ---- cutting at sentences ----

  predicate IsCloser(c: char) {
    c == '"' || c == '\'' || c == ')' || c == ']' || c == '}' || c == '\U{00BB}' || c == '\U{201D}' || c == '\U{2019}'
    || c == '\U{300D}' || c == '\U{300F}' || c == '\U{FF09}' || c == '\U{3011}'
  }

  predicate IsSentenceEnder(c: char) {
    c == '.' || c == '!' || c == '?' || c == '\U{3002}' || c == '\U{FF0E}' || c == '\U{FF01}' || c == '\U{FF1F}'
    || c == '\U{2026}' || c == '\U{2025}'
  }

  /** Offset `at` is inside a code span: an odd number of backticks stands in front of it. */
  predicate InCodeSpan(text: string, at: nat)
    requires at <= |text|
  {
    at > 0 && InCodeSpan(text, at - 1) != (text[at - 1] == '`')
  }

  /** Where the closers that hug what ends at `at` end. */
  function PastClosers(text: string, at: nat): (end: nat)
    requires at <= |text|
    ensures at <= end <= |text| && (forall k | at <= k < end :: IsCloser(text[k]))
            && (end < |text| ==> !IsCloser(text[end]))
    decreases |text| - at
  {
    if at < |text| && IsCloser(text[at]) then PastClosers(text, at + 1) else at
  }

  /** A sentence ends with the ender at `e`, and another follows. */
  predicate EndsSentence(r: Reading, text: string, e: nat)
    requires e < |text|
  {
    && !InCodeSpan(text, e) && IsSentenceEnder(text[e]) && r.endsWord(text, e)
    && var end := PastClosers(text, e + 1);
       end < |text|
       && (text[e] == '.' || text[e] == '!' || text[e] == '?' ==> r.isSpace(text[end]) && !r.abbreviates(text, e))
  }

  /** Where the sentences whose ender stands in front of `n` are cut off, in order. */
  function CutsOf(r: Reading, text: string, n: nat): seq<nat>
    requires n <= |text|
  {
    if n == 0 then []
    else CutsOf(r, text, n - 1) + (if EndsSentence(r, text, n - 1) then [PastClosers(text, n)] else [])
  }

  /** `cuts` lists where the sentences whose ender stands in front of `upTo` are cut off. */
  ghost predicate ListsCuts(r: Reading, text: string, cuts: seq<nat>, upTo: nat) {
    && upTo <= |text|
    && (forall c <- cuts :: exists e: nat :: e < upTo && EndsSentence(r, text, e) && c == PastClosers(text, e + 1))
    && (forall e: nat | e < upTo && EndsSentence(r, text, e) :: PastClosers(text, e + 1) in cuts)
  }

  predicate Rising(cuts: seq<nat>) {
    forall i, j | 0 <= i < j < |cuts| :: cuts[i] < cuts[j]
  }

  function LastCut(cuts: seq<nat>): nat {
    if cuts == [] then 0 else cuts[|cuts| - 1]
  }

  function Slice(text: string, a: nat, b: nat): string {
    if a <= b <= |text| then text[a..b] else ""
  }

  function Kept(piece: string): seq<string> {
    if piece == "" then [] else [piece]
  }

  /** The trimmed stretches up to the last cut, blank ones left out. */
  function Front(r: Reading, text: string, cuts: seq<nat>): seq<string> {
    if cuts == [] then []
    else
      var before := cuts[..|cuts| - 1];
      Front(r, text, before) + Kept(Trim(r, Slice(text, LastCut(before), LastCut(cuts))))
  }

  /** One line per sentence, and one empty line when there is nothing to write. */
  function SentencesOf(r: Reading, text: string, cuts: seq<nat>): seq<string> {
    var lines := Front(r, text, cuts) + Kept(Trim(r, Slice(text, LastCut(cuts), |text|)));
    if lines == [] then [""] else lines
  }

  lemma {:induction false} KeptInk(r: Reading, piece: string)
    ensures InkAll(r, Kept(piece)) == Ink(r, piece)
  {
    InkAllOne(r, piece);
  }

  /** One more stretch: its characters come behind those of the stretches before. */
  lemma {:induction false} OneStretch(r: Reading, front: seq<string>, head: string, text: string)
    requires InkAll(r, front) == Ink(r, head)
    ensures InkAll(r, front + Kept(Trim(r, text))) == Ink(r, head + text)
  {
    TrimKeepsInk(r, text);
    KeptInk(r, Trim(r, text));
    InkAllJoins(r, front, Kept(Trim(r, text)));
    InkJoins(r, head, text);
  }

  lemma {:induction false} FrontKeepsInk(r: Reading, text: string, cuts: seq<nat>)
    requires Rising(cuts) && LastCut(cuts) <= |text|
    ensures InkAll(r, Front(r, text, cuts)) == Ink(r, text[..LastCut(cuts)])
    decreases |cuts|
  {
    if cuts != [] {
      var before := cuts[..|cuts| - 1];
      assert LastCut(before) <= LastCut(cuts);
      FrontKeepsInk(r, text, before);
      OneStretch(r, Front(r, text, before), text[..LastCut(before)], text[LastCut(before)..LastCut(cuts)]);
      assert text[..LastCut(cuts)] == text[..LastCut(before)] + text[LastCut(before)..LastCut(cuts)];
    }
  }

  /** Cutting into sentences keeps every character that is not white space. */
  lemma {:induction false} SentencesKeepInk(r: Reading, text: string, cuts: seq<nat>)
    requires Rising(cuts) && LastCut(cuts) <= |text|
    ensures InkAll(r, SentencesOf(r, text, cuts)) == Ink(r, text) && SentencesOf(r, text, cuts) != []
  {
    hide Front, LastCut;
    FrontKeepsInk(r, text, cuts);
    OneStretch(r, Front(r, text, cuts), text[..LastCut(cuts)], text[LastCut(cuts)..|text|]);
    assert text == text[..LastCut(cuts)] + text[LastCut(cuts)..|text|];
    InkAllOne(r, "");
  }

  ghost predicate IsStretch(text: string, s: string) {
    exists a: nat, b: nat :: a <= b <= |text| && s == text[a..b]
  }

  lemma {:induction false} TrimmedSlice(r: Reading, text: string, a: nat, b: nat)
    requires a <= b <= |text|
    ensures IsTrimmed(r, Trim(r, text[a..b])) && IsStretch(text, Trim(r, text[a..b]))
  {
    var x, y := TrimTakesEnds(r, text[a..b]);
    SliceOfSlice(text, a, b, x, y);
  }

  lemma {:induction false} FrontIsStretches(r: Reading, text: string, cuts: seq<nat>)
    requires Rising(cuts) && LastCut(cuts) <= |text|
    ensures forall s <- Front(r, text, cuts) :: s != "" && IsTrimmed(r, s) && IsStretch(text, s)
    decreases |cuts|
  {
    if cuts != [] {
      var before := cuts[..|cuts| - 1];
      assert LastCut(before) <= LastCut(cuts);
      FrontIsStretches(r, text, before);
      TrimmedSlice(r, text, LastCut(before), LastCut(cuts));
    }
  }

  /** Every sentence is a stretch of the text, with no white space at its ends; none is empty but of an empty text. */
  lemma {:induction false} SentencesAreStretches(r: Reading, text: string, cuts: seq<nat>)
    requires Rising(cuts) && LastCut(cuts) <= |text|
    ensures forall s <- SentencesOf(r, text, cuts) :: IsTrimmed(r, s) && IsStretch(text, s)
    ensures SentencesOf(r, text, cuts) == [""] || forall s <- SentencesOf(r, text, cuts) :: s != ""
  {
    FrontIsStretches(r, text, cuts);
    TrimmedSlice(r, text, LastCut(cuts), |text|);
    assert "" == text[0..0];
  }

  /** No cut falls inside a code span: behind an ender outside one there are only closers, and no backtick. */
  lemma {:induction false} CutIsOutsideCode(text: string, e: nat, c: nat)
    requires e < |text| && e < c <= PastClosers(text, e + 1) && IsSentenceEnder(text[e]) && !InCodeSpan(text, e)
    ensures !InCodeSpan(text, c)
    decreases c
  {
    if c > e + 1 { CutIsOutsideCode(text, e, c - 1); }
  }

  /** The cuts rise, and lie in front of every later character but a closer. */
  lemma {:induction false} CutsRise(r: Reading, text: string, n: nat)
    requires n <= |text|
    ensures Rising(CutsOf(r, text, n)) && LastCut(CutsOf(r, text, n)) <= |text|
    ensures forall e | n <= e < |text| && !IsCloser(text[e]) :: LastCut(CutsOf(r, text, n)) <= e
  {
    if n > 0 {
      CutsRise(r, text, n - 1);
      if EndsSentence(r, text, n - 1) {
        assert !IsCloser(text[n - 1]);
        RisingMore(CutsOf(r, text, n - 1), PastClosers(text, n));
      }
    }
  }

  /** They list every sentence end. */
  lemma {:induction false} CutsAre(r: Reading, text: string, n: nat)
    requires n <= |text|
    ensures ListsCuts(r, text, CutsOf(r, text, n), n)
    ensures Rising(CutsOf(r, text, n)) && LastCut(CutsOf(r, text, n)) <= |text|
  {
    CutsRise(r, text, n);
    if n > 0 {
      CutsAre(r, text, n - 1);
      hide EndsSentence, PastClosers;
      if EndsSentence(r, text, n - 1) { CutAdded(r, text, CutsOf(r, text, n - 1), n - 1); }
    }
  }

  lemma {:induction false} CutAdded(r: Reading, text: string, cuts: seq<nat>, e: nat)
    requires ListsCuts(r, text, cuts, e) && e < |text| && EndsSentence(r, text, e)
    ensures ListsCuts(r, text, cuts + [PastClosers(text, e + 1)], e + 1)
  {
    var all := cuts + [PastClosers(text, e + 1)];
    assert all[|cuts|] == PastClosers(text, e + 1);
  }

  lemma {:induction false} CutsStay(r: Reading, text: string, a: nat, b: nat)
    requires a <= b <= |text| && forall e | a <= e < b :: !EndsSentence(r, text, e)
    ensures CutsOf(r, text, b) == CutsOf(r, text, a)
    decreases b
  {
    if a < b { CutsStay(r, text, a, b - 1); }
  }

  lemma {:induction false} RisingMore(cuts: seq<nat>, end: nat)
    requires Rising(cuts) && LastCut(cuts) < end
    ensures Rising(cuts + [end]) && LastCut(cuts + [end]) == end
  {
  }

  lemma {:induction false} FrontAdded(r: Reading, text: string, cuts: seq<nat>, end: nat)
    ensures Front(r, text, cuts + [end]) == Front(r, text, cuts) + Kept(Trim(r, Slice(text, LastCut(cuts), end)))
  {
    assert (cuts + [end])[..|cuts|] == cuts;
  }

  /** Whether the character at `index` ends a sentence, and where what follows it goes on. */
  method Break(r: Reading, text: string, index: nat) returns (breaks: bool, end: nat)
    requires index < |text|
    ensures breaks <==> EndsSentence(r, text, index)
    ensures index < end <= |text| && forall k | index < k < end :: IsCloser(text[k])
    ensures breaks ==> end == PastClosers(text, index + 1)
  {
    if InCodeSpan(text, index) || !IsSentenceEnder(text[index]) || !r.endsWord(text, index) {
      return false, index + 1;
    }
    end := PastClosers(text, index + 1);
    breaks := end < |text|
      && (text[index] == '.' || text[index] == '!' || text[index] == '?' ==>
            r.isSpace(text[end]) && !r.abbreviates(text, index));
  }

  /** A sentence ends at `index`: what it comes to is cut off at `end`. */
  lemma {:induction false} CutHere(r: Reading, text: string, index: nat, end: nat)
    requires index < |text| && EndsSentence(r, text, index) && end == PastClosers(text, index + 1)
    ensures LastCut(CutsOf(r, text, end)) == end
    ensures var cuts := CutsOf(r, text, index);
            Front(r, text, CutsOf(r, text, end)) == Front(r, text, cuts)
              + Kept(Trim(r, Slice(text, LastCut(cuts), end)))
  {
    CutsStay(r, text, index + 1, end);
    FrontAdded(r, text, CutsOf(r, text, index), end);
  }

  lemma {:induction false} NoCutHere(r: Reading, text: string, index: nat, end: nat)
    requires index < end <= |text| && !EndsSentence(r, text, index)
    requires forall k | index < k < end :: IsCloser(text[k])
    ensures CutsOf(r, text, end) == CutsOf(r, text, index)
  {
    CutsStay(r, text, index, end);
  }

  /** Cuts a text behind every sentence that another follows; no cut falls inside a code span. */
  method Sentences(r: Reading, text: string) returns (out: seq<string>)
    ensures out == SentencesOf(r, text, CutsOf(r, text, |text|))
  {
    out := [];
    var start, index := 0, 0;
    assert out == Front(r, text, []);
    assert CutsOf(r, text, 0) == [] && LastCut(CutsOf(r, text, 0)) == 0;
    hide EndsSentence, CutsOf, Trim, Front, LastCut, IsCloser, Slice;
    while index < |text|
      invariant 0 <= start <= index <= |text| && start == LastCut(CutsOf(r, text, index))
      invariant out == Front(r, text, CutsOf(r, text, index))
      decreases |text| - index
    {
      var breaks, end := Break(r, text, index);
      if breaks {
        CutHere(r, text, index, end);
        out := out + Kept(Trim(r, Slice(text, start, end)));
        start := end;
      } else {
        NoCutHere(r, text, index, end);
      }
      index := end;
    }
    out := out + Kept(Trim(r, Slice(text, start, |text|)));
    if out == [] { out := [""]; }
  }

  lemma {:induction false} CutsAreOutsideCode(r: Reading, text: string)
    ensures forall c <- CutsOf(r, text, |text|) :: c <= |text| && !InCodeSpan(text, c)
  {
    CutsAre(r, text, |text|);
    forall c | c in CutsOf(r, text, |text|)
      ensures c <= |text| && !InCodeSpan(text, c)
    {
      var e: nat :| e < |text| && EndsSentence(r, text, e) && c == PastClosers(text, e + 1);
      CutIsOutsideCode(text, e, c);
    }
  }

  // ---- list items ----

  /** What a paragraph is written back under: a list item's marker, and the width of it on further lines. */
  datatype Marker = Marker(first: string, rest: string)

  const NONE: Marker := Marker("", "")

  function Spaces(n: nat): string {
    if n == 0 then "" else " " + Spaces(n - 1)
  }

  function FindSpace(s: string): (at: nat)
    ensures at <= |s| && (at < |s| ==> s[at] == ' ')
  {
    if s == "" || s[0] == ' ' then 0 else 1 + FindSpace(s[1..])
  }

  /** The marker a list item opens with, the blanks behind it included. */
  function MarkerWidth(r: Reading, trimmed: string): (w: nat)
    ensures w <= |trimmed|
  {
    var at := FindSpace(trimmed);
    TrimStartIsShorter(r, trimmed[at..]);
    at + (|trimmed[at..]| - |TrimStart(r, trimmed[at..])|)
  }

  lemma {:induction false} TrimStartIsShorter(r: Reading, s: string)
    ensures |TrimStart(r, s)| <= |s|
    decreases |s|
  {
    if s != "" && r.isSpace(s[0]) { TrimStartIsShorter(r, s[1..]); }
  }

  lemma {:induction false} DropFirst(s: string, n: nat)
    requires n < |s|
    ensures s[1..][n..] == s[n + 1..] && s[..n + 1] == [s[0]] + s[1..][..n]
  {
  }

  /** What is trimmed off the front is blank, and what is left is the rest. */
  lemma {:induction false} TrimStartCuts(r: Reading, s: string)
    ensures |TrimStart(r, s)| <= |s| && s[|s| - |TrimStart(r, s)|..] == TrimStart(r, s)
    ensures Ink(r, s[..|s| - |TrimStart(r, s)|]) == ""
    decreases |s|
  {
    if s != "" && r.isSpace(s[0]) {
      TrimStartCuts(r, s[1..]);
      TrimStartIsShorter(r, s[1..]);
      var n := |s| - 1 - |TrimStart(r, s[1..])|;
      DropFirst(s, n);
      InkJoins(r, [s[0]], s[1..][..n]);
      assert [s[0]][1..] == "";
    }
  }

  function OpensAnItem(r: Reading, line: string): Option<Marker> {
    var trimmed := TrimStart(r, line);
    if trimmed == "" || !r.isListItem(trimmed) then None
    else
      TrimStartIsShorter(r, line);
      var indent, width := line[..|line| - |trimmed|], MarkerWidth(r, trimmed);
      Some(Marker(indent + trimmed[..width], indent + Spaces(width)))
  }

  predicate IsItem(m: Marker) {
    m.first != ""
  }

  predicate ContinuesAnItem(r: Reading, line: string, under: Marker) {
    var trimmed := TrimStart(r, line);
    trimmed != "" && r.isProse(trimmed) && r.indented(line, under.rest)
  }

  lemma {:induction false} SpacesHaveNoInk(r: Reading, n: nat)
    requires r.isSpace(' ')
    ensures Ink(r, Spaces(n)) == ""
  {
    if n > 0 {
      SpacesHaveNoInk(r, n - 1);
      InkJoins(r, " ", Spaces(n - 1));
      assert " "[1..] == "";
    }
  }

  /** A marker is the beginning of its line, and what stands for it on further lines is blank. */
  lemma {:induction false} MarkerOfItem(r: Reading, line: string)
    requires r.isSpace(' ') && OpensAnItem(r, line).Some?
    ensures var m := OpensAnItem(r, line).value;
            |m.first| <= |line| && Ink(r, m.first) + Ink(r, line[|m.first|..]) == Ink(r, line) && Ink(r, m.rest) == ""
  {
    var m, trimmed := OpensAnItem(r, line).value, TrimStart(r, line);
    TrimStartCuts(r, line);
    var indent, width := line[..|line| - |trimmed|], MarkerWidth(r, trimmed);
    SpacesHaveNoInk(r, width);
    InkJoins(r, indent, Spaces(width));
    assert trimmed[..width] == line[|indent|..][..width] == line[|indent|..|indent| + width];
    assert m.first == line[..|indent| + width];
    InkJoins(r, m.first, line[|m.first|..]);
    assert line == m.first + line[|m.first|..];
  }

  lemma {:induction false} SpacesAre(n: nat)
    ensures |Spaces(n)| == n && forall k | 0 <= k < n :: Spaces(n)[k] == ' '
  {
    if n > 0 { SpacesAre(n - 1); }
  }

  lemma {:induction false} FirstSpace(s: string)
    ensures forall k | 0 <= k < FindSpace(s) :: s[k] != ' '
  {
    if s != "" && s[0] != ' ' { FirstSpace(s[1..]); }
  }

  /**
   * A marker is what its line begins with: the indentation up to `a`, a token without a space up to `b`, and all the
   * white space behind it. On further lines the indentation stands again, and spaces as many as the rest was long.
   */
  lemma {:induction false} MarkerIsToken(r: Reading, line: string) returns (a: nat, b: nat)
    requires OpensAnItem(r, line).Some?
    ensures var m := OpensAnItem(r, line).value;
            && a <= b <= |m.first| <= |line| && m.first == line[..|m.first|]
            && IsBlank(r, line[..a]) && a < |line| && !r.isSpace(line[a])
            && (forall k | a <= k < b :: line[k] != ' ') && (b < |line| ==> line[b] == ' ')
            && IsBlank(r, line[b..|m.first|]) && (|m.first| < |line| ==> !r.isSpace(line[|m.first|]))
            && |m.rest| == |m.first| && m.rest[..a] == line[..a] && forall k | a <= k < |m.rest| :: m.rest[k] == ' '
  {
    var m, trimmed := OpensAnItem(r, line).value, TrimStart(r, line);
    a := TrimStartTakes(r, line);
    var at, width := FindSpace(trimmed), MarkerWidth(r, trimmed);
    FirstSpace(trimmed);
    hide FindSpace, Spaces, TrimStart;
    var gap := TrimStartTakes(r, trimmed[at..]);
    assert gap == |trimmed[at..]| - |TrimStart(r, trimmed[at..])| && width == at + gap;
    SpacesAre(width);
    b := a + at;
    assert line[..a] + line[a..][..width] == line[..a + width];
    assert trimmed[at..][..gap] == line[b..b + gap];
    if gap < |trimmed[at..]| { assert trimmed[at..][gap] == line[b + gap]; }
  }

  // ---- writing out what is held ----

  /** The lines with the marker in front of the first and its width in front of the others. */
  function Prefixed(pieces: seq<string>, first: string, rest: string): seq<string> {
    if pieces == [] then [] else [first + pieces[0]] + Prefixed(pieces[1..], rest, rest)
  }

  lemma {:induction false} Threefold(a: string, b: string, c: string)
    ensures (a + b) + c == a + (b + c)
  {
  }

  lemma {:induction false} PrefixedInk(r: Reading, pieces: seq<string>, first: string, rest: string)
    requires Ink(r, rest) == "" && pieces != []
    ensures InkAll(r, Prefixed(pieces, first, rest)) == Ink(r, first) + InkAll(r, pieces)
    ensures |Prefixed(pieces, first, rest)| == |pieces|
    decreases |pieces|
  {
    InkJoins(r, first, pieces[0]);
    var tail := InkAll(r, pieces[1..]);
    if |pieces| > 1 {
      PrefixedInk(r, pieces[1..], rest, rest);
      assert "" + tail == tail;
    }
    Threefold(Ink(r, first), Ink(r, pieces[0]), tail);
  }

  /** What is written of what is held. */
  function Written(r: Reading, held: seq<string>, under: Marker, wrap: Wrap): seq<string> {
    if held == [] then []
    else
      var joined := JoinedBehind(r, "", held);
      var pieces := if wrap == Sentence then SentencesOf(r, joined, CutsOf(r, joined, |joined|)) else [joined];
      Prefixed(pieces, under.first, under.rest)
  }

  /** It is what was held, behind the marker, and one line unless it is cut into sentences. */
  lemma {:induction false} WrittenKeepsInk(r: Reading, held: seq<string>, under: Marker, wrap: Wrap)
    requires r.isSpace(' ') && Ink(r, under.rest) == "" && held != []
    ensures var more := Written(r, held, under, wrap);
            && more != [] && InkAll(r, more) == Ink(r, under.first) + InkAll(r, held)
            && (wrap != Sentence ==> |more| == 1)
  {
    var joined := JoinedBehind(r, "", held);
    JoinKeepsInk(r, "", held);
    assert "" + InkAll(r, held) == InkAll(r, held);
    InkAllOne(r, joined);
    CutsAre(r, joined, |joined|);
    SentencesKeepInk(r, joined, CutsOf(r, joined, |joined|));
    var pieces := if wrap == Sentence then SentencesOf(r, joined, CutsOf(r, joined, |joined|)) else [joined];
    PrefixedInk(r, pieces, under.first, under.rest);
  }

  lemma {:induction false} PrefixedAt(pieces: seq<string>, first: string, rest: string)
    ensures var more := Prefixed(pieces, first, rest);
            |more| == |pieces| && forall k | 0 <= k < |more| :: more[k] == (if k == 0 then first else rest) + pieces[k]
    decreases |pieces|
  {
    if pieces != [] { PrefixedAt(pieces[1..], rest, rest); }
  }

  /**
   * What is held is written under its marker: behind the marker, and on further lines behind what stands for it, with
   * no white space in between or at the end, and one line for each sentence or one in all.
   */
  lemma {:induction false} WrittenUnder(r: Reading, held: seq<string>, under: Marker, wrap: Wrap)
    returns (pieces: seq<string>)
    requires held != []
    ensures var more, joined := Written(r, held, under, wrap), JoinedBehind(r, "", held);
            && |more| == |pieces|
            && (forall k | 0 <= k < |more| :: more[k] == (if k == 0 then under.first else under.rest) + pieces[k])
            && (forall p <- pieces :: IsTrimmed(r, p) && IsStretch(joined, p))
            && (wrap != Sentence ==> pieces == [joined])
  {
    var joined := JoinedBehind(r, "", held);
    var cuts := CutsOf(r, joined, |joined|);
    CutsAre(r, joined, |joined|);
    SentencesAreStretches(r, joined, cuts);
    JoinedIsTrimmed(r, held);
    assert joined[0..|joined|] == joined;
    pieces := if wrap == Sentence then SentencesOf(r, joined, cuts) else [joined];
    PrefixedAt(pieces, under.first, under.rest);
  }

  lemma {:induction false} JoinedIsTrimmed(r: Reading, held: seq<string>)
    ensures IsTrimmed(r, JoinedBehind(r, "", held))
  {
    var at := JoinedLies(r, held);
    var text, pieces := JoinedBehind(r, "", held), PiecesOf(r, held);
    if pieces != [] {
      var n := |pieces| - 1;
      assert StandsAt(text, pieces[0], at[0]) && StandsAt(text, pieces[n], at[n]);
      assert pieces[0] in pieces && pieces[n] in pieces;
      assert text[0..|pieces[0]|][0] == text[0];
      assert text[at[n]..at[n] + |pieces[n]|][|pieces[n]| - 1] == text[|text| - 1];
    }
  }

  method Flush(r: Reading, held: seq<string>, under: Marker, wrap: Wrap) returns (more: seq<string>)
    ensures more == Written(r, held, under, wrap)
  {
    if held == [] { return []; }
    var joined := Join(r, held);
    var pieces := [joined];
    if wrap == Sentence { pieces := Sentences(r, joined); }
    more := Prefixed(pieces, under.first, under.rest);
  }

  // ---- the paragraph ----

  predicate IsClauseEnder(c: char) {
    c == ',' || c == ';' || c == ':' || c == '\U{3001}' || c == '\U{FF0C}' || c == '\U{FF1B}' || c == '\U{FF1A}'
    || c == '\U{2014}' || c == '\U{2013}'
  }

  /** The line ends, closers aside, where somebody meant a break. */
  predicate EndsAtABreak(r: Reading, line: string) {
    EndsBehindClosers(TrimEnd(r, line))
  }

  predicate EndsBehindClosers(line: string)
    decreases |line|
  {
    line != "" && var last := line[|line| - 1];
                  if IsCloser(last) then EndsBehindClosers(line[..|line| - 1])
                  else IsSentenceEnder(last) || IsClauseEnder(last)
  }

  /** An odd number of fences stands in front of line `n`. */
  predicate InsideFence(r: Reading, lines: seq<string>, n: nat)
    requires n <= |lines|
  {
    n > 0 && InsideFence(r, lines, n - 1) != r.isFence(lines[n - 1])
  }

  /** Each written line that names a place is the line at that place, and they stand in order. */
  ghost predicate NamesLines(lines: seq<string>, n: nat, out: seq<string>, places: seq<Option<nat>>)
    requires n <= |lines|
  {
    && |places| == |out|
    && (forall k | 0 <= k < |places| && places[k].Some? :: places[k].value < n && out[k] == lines[places[k].value])
    && (forall j, k | 0 <= j < k < |places| && places[j].Some? && places[k].Some? :: places[j].value < places[k].value)
  }

  /** The characters that are held: the marker's are written with the first line held under it. */
  function HeldInk(r: Reading, under: Marker, held: seq<string>): string {
    if held == [] then "" else Ink(r, under.first) + InkAll(r, held)
  }

  ghost predicate Reflowed(r: Reading, lines: seq<string>, i: nat, wrap: Wrap, out: seq<string>, held: seq<string>,
                           under: Marker, places: seq<Option<nat>>) {
    && i <= |lines| && Ink(r, under.rest) == "" && (held == [] ==> Ink(r, under.first) == "")
    && InkAll(r, out) + HeldInk(r, under, held) == InkAll(r, lines[..i])
    && (wrap != Sentence ==> |out| + |held| <= i)
    && NamesLines(lines, i, out, places)
  }

  function Nowhere(n: nat): (p: seq<Option<nat>>)
    ensures |p| == n && forall k | 0 <= k < n :: p[k] == None
  {
    seq(n, i => None)
  }

  lemma {:induction false} AfterFlush(r: Reading, lines: seq<string>, i: nat, wrap: Wrap, out: seq<string>,
                                      held: seq<string>, under: Marker, places: seq<Option<nat>>, more: seq<string>,
                                      next: Marker)
    requires Reflowed(r, lines, i, wrap, out, held, under, places)
    requires held == [] ==> more == []
    requires held != [] ==> InkAll(r, more) == Ink(r, under.first) + InkAll(r, held)
    requires held != [] && wrap != Sentence ==> |more| == 1
    requires Ink(r, next.first) == "" && Ink(r, next.rest) == ""
    ensures Reflowed(r, lines, i, wrap, out + more, [], next, places + Nowhere(|more|))
  {
    InkAllJoins(r, out, more);
    assert InkAll(r, out + more) + "" == InkAll(r, out + more);
    NamesWithMore(lines, i, out, places, more);
  }

  lemma {:induction false} NamesWithMore(lines: seq<string>, i: nat, out: seq<string>, places: seq<Option<nat>>,
                                         more: seq<string>)
    requires i <= |lines| && NamesLines(lines, i, out, places)
    ensures NamesLines(lines, i, out + more, places + Nowhere(|more|))
  {
  }

  lemma {:induction false} InkOfPrefix(r: Reading, lines: seq<string>, i: nat)
    requires i < |lines|
    ensures InkAll(r, lines[..i + 1]) == InkAll(r, lines[..i]) + Ink(r, lines[i])
  {
    assert lines[..i + 1] == lines[..i] + [lines[i]];
    InkAllJoins(r, lines[..i], [lines[i]]);
    InkAllOne(r, lines[i]);
  }

  /** A line passed through as it is. */
  lemma {:induction false} AfterVerbatim(r: Reading, lines: seq<string>, i: nat, wrap: Wrap, out: seq<string>,
                                         under: Marker, places: seq<Option<nat>>)
    requires Reflowed(r, lines, i, wrap, out, [], under, places) && i < |lines|
    ensures Reflowed(r, lines, i + 1, wrap, out + [lines[i]], [], under, places + [Some(i)])
  {
    InkOfPrefix(r, lines, i);
    InkAllJoins(r, out, [lines[i]]);
    InkAllOne(r, lines[i]);
    assert InkAll(r, out) + "" == InkAll(r, out);
    assert InkAll(r, out + [lines[i]]) + "" == InkAll(r, out + [lines[i]]);
    var all := places + [Some(i)];
    assert all[|places|] == Some(i);
  }

  lemma {:induction false} Fourfold(a: string, b: string, c: string, d: string)
    ensures a + (b + (c + d)) == (a + (b + c)) + d
  {
  }

  /** A line held back behind others. */
  lemma {:induction false} AfterHold(r: Reading, lines: seq<string>, i: nat, wrap: Wrap, out: seq<string>,
                                     held: seq<string>, under: Marker, places: seq<Option<nat>>, piece: string)
    requires Reflowed(r, lines, i, wrap, out, held, under, places) && i < |lines|
    requires Ink(r, piece) == Ink(r, lines[i])
    ensures Reflowed(r, lines, i + 1, wrap, out, held + [piece], under, places)
  {
    InkOfPrefix(r, lines, i);
    InkAllJoins(r, held, [piece]);
    InkAllOne(r, piece);
    assert HeldInk(r, under, held) == Ink(r, under.first) + InkAll(r, held);
    Fourfold(InkAll(r, out), Ink(r, under.first), InkAll(r, held), Ink(r, piece));
  }

  /** The first line of a list item, held back under its marker. */
  lemma {:induction false} AfterItem(r: Reading, lines: seq<string>, i: nat, wrap: Wrap, out: seq<string>,
                                     under: Marker, places: seq<Option<nat>>)
    requires r.isSpace(' ') && i < |lines| && OpensAnItem(r, lines[i]).Some?
    requires Reflowed(r, lines, i, wrap, out, [], under, places)
    ensures var m := OpensAnItem(r, lines[i]).value;
            |m.first| <= |lines[i]| && Reflowed(r, lines, i + 1, wrap, out, [lines[i][|m.first|..]], m, places)
  {
    MarkerOfItem(r, lines[i]);
    InkOfPrefix(r, lines, i);
    InkAllOne(r, lines[i][|OpensAnItem(r, lines[i]).value.first|..]);
    assert InkAll(r, out) + "" == InkAll(r, out);
  }

  /** Whether the line behind `index` goes on with what is being held. */
  predicate CarriesOn(r: Reading, lines: seq<string>, index: nat, under: Marker) {
    index + 1 < |lines|
    && var next := lines[index + 1];
       !r.isFence(next) && OpensAnItem(r, next).None?
       && (if IsItem(under) then ContinuesAnItem(r, next, under) else r.isProse(next))
  }

  // ---- the whole run, line by line ----

  /** What is written, what is held back and under which marker, and which written line is which line. */
  datatype Page = Page(out: seq<string>, held: seq<string>, under: Marker, places: seq<Option<nat>>)

  const BLANK_PAGE: Page := Page([], [], NONE, [])

  function Flushed(r: Reading, p: Page, wrap: Wrap, next: Marker): Page {
    var more := Written(r, p.held, p.under, wrap);
    Page(p.out + more, [], next, p.places + Nowhere(|more|))
  }

  /** Line `i` is passed through as it is: it is fenced, or nothing that goes on under `under`, prose or an item. */
  predicate Passes(r: Reading, lines: seq<string>, i: nat, under: Marker)
    requires i < |lines|
  {
    || InsideFence(r, lines, i) || r.isFence(lines[i])
    || (OpensAnItem(r, lines[i]).None? && !(IsItem(under) && ContinuesAnItem(r, lines[i], under))
        && !r.isProse(lines[i]))
  }

  /** What line `i` adds to the lines held back. */
  function PieceOf(r: Reading, line: string, under: Marker): string {
    if IsItem(under) && ContinuesAnItem(r, line, under) then TrimStart(r, line) else line
  }

  /** A list item, and prose behind one that ended, begin anew; anything else goes behind what is held. */
  function Taken(r: Reading, lines: seq<string>, i: nat, p: Page, wrap: Wrap): Page
    requires i < |lines|
  {
    var line, item := lines[i], OpensAnItem(r, lines[i]);
    if item.Some? then
      MarkerIsShorter(r, line);
      Flushed(r, p, wrap, item.value).(held := [line[|item.value.first|..]])
    else if IsItem(p.under) && !ContinuesAnItem(r, line, p.under) then Flushed(r, p, wrap, NONE).(held := [line])
    else p.(held := p.held + [PieceOf(r, line, p.under)])
  }

  /** Behind a line that was held, a break somebody meant and the end of the paragraph end what is held. */
  function Ended(r: Reading, lines: seq<string>, i: nat, p: Page, wrap: Wrap): Page
    requires i < |lines|
  {
    var on := CarriesOn(r, lines, i, p.under);
    if EndsAtABreak(r, lines[i]) || !on then
      Flushed(r, p, wrap, if on && IsItem(p.under) then Marker(p.under.rest, p.under.rest) else NONE)
    else p
  }

  function Stepped(r: Reading, lines: seq<string>, i: nat, p: Page, wrap: Wrap): Page
    requires i < |lines|
  {
    if Passes(r, lines, i, p.under) then
      var q := Flushed(r, p, wrap, NONE);
      q.(out := q.out + [lines[i]], places := q.places + [Some(i)])
    else Ended(r, lines, i, Taken(r, lines, i, p, wrap), wrap)
  }

  function PageAt(r: Reading, lines: seq<string>, n: nat, wrap: Wrap): Page
    requires n <= |lines|
  {
    if n == 0 then BLANK_PAGE else Stepped(r, lines, n - 1, PageAt(r, lines, n - 1, wrap), wrap)
  }

  function Rewritten(r: Reading, lines: seq<string>, wrap: Wrap): Page {
    Flushed(r, PageAt(r, lines, |lines|, wrap), wrap, NONE)
  }

  lemma {:induction false} MarkerIsShorter(r: Reading, line: string)
    ensures OpensAnItem(r, line).Some? ==> |OpensAnItem(r, line).value.first| <= |line|
  {
    TrimStartIsShorter(r, line);
  }

  ghost predicate PageHolds(r: Reading, lines: seq<string>, i: nat, wrap: Wrap, p: Page) {
    Reflowed(r, lines, i, wrap, p.out, p.held, p.under, p.places)
  }

  lemma {:induction false} FlushedHolds(r: Reading, lines: seq<string>, i: nat, wrap: Wrap, p: Page, next: Marker)
    requires r.isSpace(' ') && PageHolds(r, lines, i, wrap, p)
    requires Ink(r, next.first) == "" && Ink(r, next.rest) == ""
    ensures PageHolds(r, lines, i, wrap, Flushed(r, p, wrap, next))
  {
    if p.held != [] { WrittenKeepsInk(r, p.held, p.under, wrap); }
    AfterFlush(r, lines, i, wrap, p.out, p.held, p.under, p.places, Written(r, p.held, p.under, wrap), next);
  }

  lemma {:induction false} TakenHolds(r: Reading, lines: seq<string>, i: nat, wrap: Wrap, p: Page)
    requires r.isSpace(' ') && i < |lines| && PageHolds(r, lines, i, wrap, p) && !Passes(r, lines, i, p.under)
    ensures PageHolds(r, lines, i + 1, wrap, Taken(r, lines, i, p, wrap))
    ensures Ink(r, Taken(r, lines, i, p, wrap).under.rest) == ""
  {
    var line, item := lines[i], OpensAnItem(r, lines[i]);
    var q := Flushed(r, p, wrap, NONE);
    FlushedHolds(r, lines, i, wrap, p, NONE);
    if item.Some? {
      AfterItem(r, lines, i, wrap, q.out, NONE, q.places);
    } else if IsItem(p.under) && !ContinuesAnItem(r, line, p.under) {
      AfterHold(r, lines, i, wrap, q.out, [], NONE, q.places, line);
      assert [] + [line] == [line];
    } else {
      TrimStartKeepsInk(r, line);
      AfterHold(r, lines, i, wrap, p.out, p.held, p.under, p.places, PieceOf(r, line, p.under));
    }
  }

  lemma {:induction false} PassedHolds(r: Reading, lines: seq<string>, i: nat, wrap: Wrap, p: Page)
    requires r.isSpace(' ') && i < |lines| && PageHolds(r, lines, i, wrap, p)
    ensures var q := Flushed(r, p, wrap, NONE);
            PageHolds(r, lines, i + 1, wrap, q.(out := q.out + [lines[i]], places := q.places + [Some(i)]))
  {
    var q := Flushed(r, p, wrap, NONE);
    FlushedHolds(r, lines, i, wrap, p, NONE);
    AfterVerbatim(r, lines, i, wrap, q.out, NONE, q.places);
  }

  lemma {:induction false} SteppedHolds(r: Reading, lines: seq<string>, i: nat, wrap: Wrap, p: Page)
    requires r.isSpace(' ') && i < |lines| && PageHolds(r, lines, i, wrap, p)
    ensures PageHolds(r, lines, i + 1, wrap, Stepped(r, lines, i, p, wrap))
  {
    hide Passes, Flushed, Taken, Reflowed;
    if Passes(r, lines, i, p.under) {
      PassedHolds(r, lines, i, wrap, p);
    } else {
      var q := Taken(r, lines, i, p, wrap);
      TakenHolds(r, lines, i, wrap, p);
      FlushedHolds(r, lines, i + 1, wrap, q, NONE);
      FlushedHolds(r, lines, i + 1, wrap, q, Marker(q.under.rest, q.under.rest));
    }
  }

  lemma {:induction false} PageNext(r: Reading, lines: seq<string>, n: nat, wrap: Wrap)
    requires 0 < n <= |lines|
    ensures PageAt(r, lines, n, wrap) == Stepped(r, lines, n - 1, PageAt(r, lines, n - 1, wrap), wrap)
  {
  }

  lemma {:induction false} NothingOnPage(r: Reading, lines: seq<string>, wrap: Wrap)
    ensures PageHolds(r, lines, 0, wrap, PageAt(r, lines, 0, wrap))
  {
  }

  lemma {:induction false} PageAtHolds(r: Reading, lines: seq<string>, n: nat, wrap: Wrap)
    requires r.isSpace(' ') && n <= |lines|
    ensures PageHolds(r, lines, n, wrap, PageAt(r, lines, n, wrap))
  {
    hide PageHolds, Stepped, PageAt;
    if n == 0 {
      NothingOnPage(r, lines, wrap);
    } else {
      PageNext(r, lines, n, wrap);
      PageAtHolds(r, lines, n - 1, wrap);
      SteppedHolds(r, lines, n - 1, wrap, PageAt(r, lines, n - 1, wrap));
    }
  }

  // ---- the marker in force, and the lines passed through ----

  /** The marker a line is held under: a list item brings its own, and prose that is no part of an item ends it. */
  function MarkerOver(r: Reading, line: string, under: Marker): Marker {
    var item := OpensAnItem(r, line);
    if item.Some? then item.value
    else if IsItem(under) && !ContinuesAnItem(r, line, under) then NONE
    else under
  }

  /** The marker in force in front of line `n`, read off the lines alone. */
  function MarkerAt(r: Reading, lines: seq<string>, n: nat): Marker
    requires n <= |lines|
    decreases n, 0
  {
    if n == 0 then NONE
    else
      var i, under := n - 1, MarkerAt(r, lines, n - 1);
      var over := MarkerOver(r, lines[i], under);
      if Passes(r, lines, i, under) then NONE
      else if Joined(r, lines, i) then over
      else if CarriesOn(r, lines, i, over) && IsItem(over) then Marker(over.rest, over.rest)
      else NONE
  }

  /**
   * Nobody meant the break behind line `i`: the line is held, does not end at a break, and the next goes on with it.
   */
  predicate Joined(r: Reading, lines: seq<string>, i: nat)
    requires i < |lines|
    decreases i, 1
  {
    var under := MarkerAt(r, lines, i);
    !Passes(r, lines, i, under) && !EndsAtABreak(r, lines[i]) && CarriesOn(r, lines, i, MarkerOver(r, lines[i], under))
  }

  /** The marker the lines are held under is the one read off them, however they are wrapped. */
  lemma {:induction false} UnderIsMarker(r: Reading, lines: seq<string>, n: nat, wrap: Wrap)
    requires n <= |lines|
    ensures PageAt(r, lines, n, wrap).under == MarkerAt(r, lines, n)
  {
    hide Passes, Flushed, CarriesOn, EndsAtABreak, ContinuesAnItem;
    if n > 0 {
      UnderIsMarker(r, lines, n - 1, wrap);
      SteppedUnder(r, lines, n - 1, PageAt(r, lines, n - 1, wrap), wrap);
    }
  }

  lemma {:induction false} SteppedUnder(r: Reading, lines: seq<string>, i: nat, p: Page, wrap: Wrap)
    requires i < |lines| && p.under == MarkerAt(r, lines, i)
    ensures Stepped(r, lines, i, p, wrap).under == MarkerAt(r, lines, i + 1)
  {
    hide Passes, CarriesOn, EndsAtABreak, ContinuesAnItem, OpensAnItem, Written;
  }

  /** The line is passed through as it is. */
  predicate PassesThrough(r: Reading, lines: seq<string>, i: nat)
    requires i < |lines|
  {
    Passes(r, lines, i, MarkerAt(r, lines, i))
  }

  lemma {:induction false} NothingPlaced(r: Reading, lines: seq<string>, wrap: Wrap)
    ensures PageAt(r, lines, 0, wrap).places == []
  {
  }

  /** The lines that are written as they were are the lines passed through. */
  lemma {:induction false} PlacesPass(r: Reading, lines: seq<string>, n: nat, wrap: Wrap, i: nat)
    requires n <= |lines| && i < |lines|
    ensures Some(i) in PageAt(r, lines, n, wrap).places <==> i < n && PassesThrough(r, lines, i)
  {
    hide Passes, MarkerAt, PageAt, Stepped;
    if n == 0 {
      NothingPlaced(r, lines, wrap);
    } else {
      PageNext(r, lines, n, wrap);
      PlacesPass(r, lines, n - 1, wrap, i);
      UnderIsMarker(r, lines, n - 1, wrap);
      SteppedPlaces(r, lines, n - 1, PageAt(r, lines, n - 1, wrap), wrap, i);
    }
  }

  lemma {:induction false} SteppedPlaces(r: Reading, lines: seq<string>, m: nat, p: Page, wrap: Wrap, i: nat)
    requires m < |lines|
    ensures Some(i) in Stepped(r, lines, m, p, wrap).places
       <==> Some(i) in p.places || (i == m && Passes(r, lines, m, p.under))
  {
    hide Passes, CarriesOn, EndsAtABreak, ContinuesAnItem, OpensAnItem, Written;
  }

  /**
   * Each written line that names a place is the line at that place, they stand in order, and those named are the lines
   * passed through: fences and what is inside them, and what neither reads as prose nor belongs to a list item.
   */
  ghost predicate KeepsStructure(r: Reading, lines: seq<string>, out: seq<string>, places: seq<Option<nat>>) {
    && NamesLines(lines, |lines|, out, places)
    && forall i: nat | i < |lines| :: Some(i) in places <==> PassesThrough(r, lines, i)
  }

  /**
   * Reflowing keeps the characters but for white space, and the lines that are passed through as they are and in their
   * order, and without sentence breaks it writes no more lines than there were.
   */
  lemma {:induction false} ReflowKeeps(r: Reading, lines: seq<string>, wrap: Wrap)
    requires r.isSpace(' ')
    ensures var p := Rewritten(r, lines, wrap);
            && InkAll(r, p.out) == InkAll(r, lines)
            && KeepsStructure(r, lines, p.out, p.places)
            && (wrap != Sentence ==> |p.out| <= |lines|)
  {
    var p, q := Rewritten(r, lines, wrap), PageAt(r, lines, |lines|, wrap);
    PageAtHolds(r, lines, |lines|, wrap);
    FlushedHolds(r, lines, |lines|, wrap, q, NONE);
    assert lines[..|lines|] == lines;
    assert InkAll(r, p.out) + "" == InkAll(r, p.out);
    forall i: nat | i < |lines|
      ensures Some(i) in p.places <==> PassesThrough(r, lines, i)
    {
      PlacesPass(r, lines, |lines|, wrap, i);
      FlushedPlaces(r, q, wrap, i);
    }
  }

  lemma {:induction false} FlushedPlaces(r: Reading, p: Page, wrap: Wrap, i: nat)
    ensures Some(i) in Flushed(r, p, wrap, NONE).places <==> Some(i) in p.places
  {
  }

  // ---- which lines come to be one ----

  /** How many groups of joined lines begin among the first `n` lines. */
  function Groups(r: Reading, lines: seq<string>, n: nat): nat
    requires n <= |lines|
  {
    if n == 0 then 0
    else Groups(r, lines, n - 1) + (if n == 1 || !Joined(r, lines, n - 2) then 1 else 0)
  }

  /** The group line `i` is in. */
  function GroupOf(r: Reading, lines: seq<string>, i: nat): int
    requires i < |lines|
  {
    Groups(r, lines, i + 1) - 1
  }

  /** Those of the first `n` lines that are in group `k`, in order. */
  function LinesOf(r: Reading, lines: seq<string>, n: nat, k: nat): seq<string>
    requires n <= |lines|
  {
    if n == 0 then []
    else LinesOf(r, lines, n - 1, k) + (if GroupOf(r, lines, n - 1) == k then [lines[n - 1]] else [])
  }

  /** What is written so far are the groups that ended, and what is held is the one that goes on. */
  ghost predicate InGroups(r: Reading, lines: seq<string>, n: nat, p: Page)
    requires n <= |lines|
  {
    && p.under == MarkerAt(r, lines, n)
    && |p.out| + (if p.held == [] then 0 else 1) == Groups(r, lines, n)
    && (p.held != [] <==> n > 0 && Joined(r, lines, n - 1))
    && (forall k | 0 <= k < |p.out| :: Ink(r, p.out[k]) == InkAll(r, LinesOf(r, lines, n, k)))
    && (p.held != [] ==> HeldInk(r, p.under, p.held) == InkAll(r, LinesOf(r, lines, n, |p.out|)))
  }

  lemma {:induction false} NoLinesYet(r: Reading, lines: seq<string>, n: nat, k: nat)
    requires n <= |lines| && Groups(r, lines, n) <= k
    ensures LinesOf(r, lines, n, k) == []
  {
    if n > 0 { NoLinesYet(r, lines, n - 1, k); }
  }

  lemma {:induction false} Cancelled(a: string, b: string, c: string)
    requires a + b == a + c
    ensures b == c
  {
    assert b == (a + b)[|a|..] && c == (a + c)[|a|..];
  }

  /** A line behind one that is joined is held behind it. */
  lemma {:induction false} JoinedIsHeld(r: Reading, lines: seq<string>, i: nat, p: Page, wrap: Wrap)
    requires i < |lines| && InGroups(r, lines, i, p) && p.held != []
    ensures !Passes(r, lines, i, p.under)
    ensures Taken(r, lines, i, p, wrap) == p.(held := p.held + [PieceOf(r, lines[i], p.under)])
  {
    assert Joined(r, lines, i - 1);
  }

  /** Taking a line adds its characters to what is held, and writes nothing. */
  lemma {:induction false} TakenInk(r: Reading, lines: seq<string>, i: nat, p: Page)
    requires r.isSpace(' ') && i < |lines| && PageHolds(r, lines, i, Unwrap, p) && InGroups(r, lines, i, p)
    requires !Passes(r, lines, i, p.under)
    ensures var q := Taken(r, lines, i, p, Unwrap);
            && q.out == p.out && q.held != [] && q.under == MarkerOver(r, lines[i], p.under)
               && Ink(r, q.under.rest) == ""
            && HeldInk(r, q.under, q.held) == HeldInk(r, p.under, p.held) + Ink(r, lines[i])
  {
    var q := Taken(r, lines, i, p, Unwrap);
    TakenHolds(r, lines, i, Unwrap, p);
    if p.held != [] { JoinedIsHeld(r, lines, i, p, Unwrap); }
    assert p.out + [] == p.out;
    InkOfPrefix(r, lines, i);
    var out, before, here := InkAll(r, p.out), HeldInk(r, p.under, p.held), Ink(r, lines[i]);
    Threefold(out, before, here);
    Cancelled(out, HeldInk(r, q.under, q.held), before + here);
  }

  /** The group of the next line: a new one, or the one that goes on. */
  lemma {:induction false} NextGroup(r: Reading, lines: seq<string>, i: nat, p: Page)
    requires i < |lines| && InGroups(r, lines, i, p)
    ensures Groups(r, lines, i + 1) == |p.out| + 1 && GroupOf(r, lines, i) == |p.out|
    ensures InkAll(r, LinesOf(r, lines, i + 1, |p.out|)) == HeldInk(r, p.under, p.held) + Ink(r, lines[i])
    ensures forall k | 0 <= k < |p.out| :: LinesOf(r, lines, i + 1, k) == LinesOf(r, lines, i, k)
  {
    var before := LinesOf(r, lines, i, |p.out|);
    if p.held == [] { NoLinesYet(r, lines, i, |p.out|); }
    InkAllJoins(r, before, [lines[i]]);
    InkAllOne(r, lines[i]);
    forall k | 0 <= k < |p.out|
      ensures LinesOf(r, lines, i + 1, k) == LinesOf(r, lines, i, k)
    {
      assert LinesOf(r, lines, i, k) + [] == LinesOf(r, lines, i, k);
    }
  }

  lemma {:induction false} SteppedInGroups(r: Reading, lines: seq<string>, i: nat, p: Page)
    requires r.isSpace(' ') && i < |lines| && PageHolds(r, lines, i, Unwrap, p) && InGroups(r, lines, i, p)
    ensures InGroups(r, lines, i + 1, Stepped(r, lines, i, p, Unwrap))
  {
    NextGroup(r, lines, i, p);
    if Passes(r, lines, i, p.under) {
      if p.held != [] { JoinedIsHeld(r, lines, i, p, Unwrap); }
      PassedInGroups(r, lines, i, p);
    } else {
      TakenInk(r, lines, i, p);
      EndedInGroups(r, lines, i, p);
    }
  }

  lemma {:induction false} PassedInGroups(r: Reading, lines: seq<string>, i: nat, p: Page)
    requires i < |lines| && InGroups(r, lines, i, p) && Passes(r, lines, i, p.under) && p.held == []
    requires Groups(r, lines, i + 1) == |p.out| + 1
    requires InkAll(r, LinesOf(r, lines, i + 1, |p.out|)) == HeldInk(r, p.under, p.held) + Ink(r, lines[i])
    requires forall k | 0 <= k < |p.out| :: LinesOf(r, lines, i + 1, k) == LinesOf(r, lines, i, k)
    ensures InGroups(r, lines, i + 1, Stepped(r, lines, i, p, Unwrap))
  {
    assert p.out + [] == p.out;
    assert "" + Ink(r, lines[i]) == Ink(r, lines[i]);
  }

  lemma {:induction false} EndedInGroups(r: Reading, lines: seq<string>, i: nat, p: Page)
    requires r.isSpace(' ') && i < |lines| && InGroups(r, lines, i, p) && !Passes(r, lines, i, p.under)
    requires Groups(r, lines, i + 1) == |p.out| + 1
    requires InkAll(r, LinesOf(r, lines, i + 1, |p.out|)) == HeldInk(r, p.under, p.held) + Ink(r, lines[i])
    requires forall k | 0 <= k < |p.out| :: LinesOf(r, lines, i + 1, k) == LinesOf(r, lines, i, k)
    requires var q := Taken(r, lines, i, p, Unwrap);
             && q.out == p.out && q.held != [] && q.under == MarkerOver(r, lines[i], p.under)
                && Ink(r, q.under.rest) == ""
             && HeldInk(r, q.under, q.held) == HeldInk(r, p.under, p.held) + Ink(r, lines[i])
    ensures InGroups(r, lines, i + 1, Stepped(r, lines, i, p, Unwrap))
  {
    hide Taken, Passes, EndsAtABreak, CarriesOn, LinesOf, OpensAnItem, ContinuesAnItem, Groups, Joined, MarkerAt,
         MarkerOver, HeldInk, InkAll, Ink, Written;
    var q := Taken(r, lines, i, p, Unwrap);
    OneLineWritten(r, q.held, q.under);
    MarkerNext(r, lines, i);
  }

  lemma {:induction false} MarkerNext(r: Reading, lines: seq<string>, i: nat)
    requires i < |lines| && !Passes(r, lines, i, MarkerAt(r, lines, i))
    ensures var over := MarkerOver(r, lines[i], MarkerAt(r, lines, i));
            var on := CarriesOn(r, lines, i, over);
            && (Joined(r, lines, i) <==> !EndsAtABreak(r, lines[i]) && on)
            && MarkerAt(r, lines, i + 1)
               == if Joined(r, lines, i) then over
                  else if on && IsItem(over) then Marker(over.rest, over.rest) else NONE
  {
  }

  lemma {:induction false} OneLineWritten(r: Reading, held: seq<string>, under: Marker)
    requires r.isSpace(' ') && Ink(r, under.rest) == "" && held != []
    ensures var more := Written(r, held, under, Unwrap);
            |more| == 1 && Ink(r, more[0]) == HeldInk(r, under, held)
  {
    WrittenKeepsInk(r, held, under, Unwrap);
    var more := Written(r, held, under, Unwrap);
    InkAllOne(r, more[0]);
    assert more == [more[0]];
  }

  lemma {:induction false} NoGroupsYet(r: Reading, lines: seq<string>)
    ensures InGroups(r, lines, 0, PageAt(r, lines, 0, Unwrap))
  {
  }

  lemma {:induction false} PageInGroups(r: Reading, lines: seq<string>, n: nat)
    requires r.isSpace(' ') && n <= |lines|
    ensures InGroups(r, lines, n, PageAt(r, lines, n, Unwrap))
  {
    hide InGroups, PageHolds, Stepped, PageAt;
    if n > 0 {
      PageInGroups(r, lines, n - 1);
      PageAtHolds(r, lines, n - 1, Unwrap);
      SteppedInGroups(r, lines, n - 1, PageAt(r, lines, n - 1, Unwrap));
      PageNext(r, lines, n, Unwrap);
    } else {
      NoGroupsYet(r, lines);
    }
  }

  /**
   * The breaks nobody meant are undone, and no other: unwrapped, the text has one line for every group of
   * lines joined by such breaks, and it holds the characters of all the lines of its group, in their order,
   * and no others. Two lines that follow on one another are in one group if and only if nobody meant the break.
   */
  lemma {:induction false} BreaksNobodyMeant(r: Reading, lines: seq<string>)
    requires r.isSpace(' ')
    ensures var out := Rewritten(r, lines, Unwrap).out;
            && |out| == Groups(r, lines, |lines|)
            && (forall k | 0 <= k < |out| :: Ink(r, out[k]) == InkAll(r, LinesOf(r, lines, |lines|, k)))
            && (forall i | 0 <= i < |lines| :: 0 <= GroupOf(r, lines, i) < |out|)
    ensures forall i | 0 <= i < |lines| - 1 :: GroupOf(r, lines, i) == GroupOf(r, lines, i + 1) <==> Joined(r, lines, i)
  {
    hide MarkerAt, Joined, InkAll, LinesOf, Ink;
    var p := PageAt(r, lines, |lines|, Unwrap);
    PageInGroups(r, lines, |lines|);
    assert p.out + [] == p.out;
    forall i | 0 <= i < |lines|
      ensures 0 <= GroupOf(r, lines, i) < Groups(r, lines, |lines|)
    {
      GroupsRise(r, lines, i + 1, |lines|);
      GroupsRise(r, lines, 1, i + 1);
    }
  }

  lemma {:induction false} GroupsRise(r: Reading, lines: seq<string>, a: nat, b: nat)
    requires a <= b <= |lines|
    ensures Groups(r, lines, a) <= Groups(r, lines, b)
    decreases b
  {
    if a < b { GroupsRise(r, lines, a, b - 1); }
  }

  /** Plain prose: no fence, no list item, and nothing but prose. */
  ghost predicate IsPlain(r: Reading, lines: seq<string>) {
    forall l <- lines :: !r.isFence(l) && OpensAnItem(r, l).None? && r.isProse(l)
  }

  /** In plain prose a break is meant if and only if the line in front of it ends at one. */
  lemma {:induction false} PlainBreaks(r: Reading, lines: seq<string>, i: nat)
    requires IsPlain(r, lines) && i < |lines|
    ensures MarkerAt(r, lines, i) == NONE && !InsideFence(r, lines, i)
    ensures Joined(r, lines, i) <==> i + 1 < |lines| && !EndsAtABreak(r, lines[i])
  {
    assert lines[i] in lines && (i + 1 < |lines| ==> lines[i + 1] in lines);
    if i > 0 { PlainBreaks(r, lines, i - 1); }
  }

  /** One line: passed through, or held back behind what it belongs to. */
  method TakeLine(r: Reading, lines: seq<string>, index: nat, out: seq<string>, held: seq<string>, under: Marker,
                  wrap: Wrap, fenced: bool, ghost p: Page)
    returns (all: seq<string>, kept: seq<string>, marker: Marker, passed: bool)
    requires index < |lines| && fenced == InsideFence(r, lines, index)
    requires p.out == out && p.held == held && p.under == under
    ensures passed == Passes(r, lines, index, under)
    ensures var q := if passed then Stepped(r, lines, index, p, wrap) else Taken(r, lines, index, p, wrap);
            all == q.out && kept == q.held && marker == q.under
  {
    var line := lines[index];
    all, kept, marker, passed := out, held, under, false;
    if fenced || r.isFence(line) {
      var more := Flush(r, held, under, wrap);
      return out + more + [line], [], NONE, true;
    }
    var item := OpensAnItem(r, line);
    if item.Some? {
      var more := Flush(r, held, under, wrap);
      MarkerIsShorter(r, line);
      all, kept, marker := out + more, [line[|item.value.first|..]], item.value;
    } else if IsItem(under) && ContinuesAnItem(r, line, under) {
      kept := held + [TrimStart(r, line)];
    } else if r.isProse(line) {
      if IsItem(under) {
        var more := Flush(r, held, under, wrap);
        all, kept, marker := out + more, [], NONE;
      }
      kept := kept + [line];
    } else {
      var more := Flush(r, held, under, wrap);
      all, kept, marker, passed := out + more + [line], [], NONE, true;
    }
  }

  /** Behind a line that was held. */
  method EndLine(r: Reading, lines: seq<string>, index: nat, out: seq<string>, held: seq<string>, under: Marker,
                 wrap: Wrap, ghost p: Page)
    returns (all: seq<string>, kept: seq<string>, marker: Marker)
    requires index < |lines| && p.out == out && p.held == held && p.under == under
    ensures var q := Ended(r, lines, index, p, wrap); all == q.out && kept == q.held && marker == q.under
  {
    all, kept, marker := out, held, under;
    var on := CarriesOn(r, lines, index, under);
    if EndsAtABreak(r, lines[index]) || !on {
      var more := Flush(r, held, under, wrap);
      all, kept := out + more, [];
      marker := if on && IsItem(under) then Marker(under.rest, under.rest) else NONE;
    }
  }

  /** Every line in turn, and what is held at the end. */
  method ReflowLines(r: Reading, lines: seq<string>, wrap: Wrap) returns (out: seq<string>)
    ensures out == Rewritten(r, lines, wrap).out
  {
    out := [];
    var held: seq<string>, under, fenced := [], NONE, false;
    var index := 0;
    while index < |lines|
      invariant 0 <= index <= |lines|
      invariant var p := PageAt(r, lines, index, wrap); out == p.out && held == p.held && under == p.under
      invariant fenced == InsideFence(r, lines, index)
    {
      ghost var p := PageAt(r, lines, index, wrap);
      var passed;
      out, held, under, passed := TakeLine(r, lines, index, out, held, under, wrap, fenced, p);
      if !passed {
        out, held, under := EndLine(r, lines, index, out, held, under, wrap, Taken(r, lines, index, p, wrap));
      }
      if r.isFence(lines[index]) { fenced := !fenced; }
      index := index + 1;
    }
    var more := Flush(r, held, under, wrap);
    out := out + more;
  }

  /** Reflows a run of lines; no answer when they are as the rule asks already. */
  method Reflow(r: Reading, lines: seq<string>, wrap: Wrap) returns (result: Option<seq<string>>)
    ensures var written := Rewritten(r, lines, wrap).out;
            result == if wrap != Preserve && written != lines then Some(written) else None
  {
    if wrap == Preserve { return None; }
    var out := ReflowLines(r, lines, wrap);
    result := if out != lines then Some(out) else None;
  }
}
