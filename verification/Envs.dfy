/** The executable an `env` command line names, `-S` strings split and put in place of the words behind them. */
module Envs {
  import opened Bytes

  // ---- splitting ----

  predicate IsSpace(c: char) {
    c == ' ' || c == '\t' || c == '\n' || c == '\r' || c == (0x0C as char)
  }

  /** Where a split stands: the words so far, the one begun, the quote that is open, a backslash pending. */
  datatype Splitter = Splitter(words: seq<string>, word: string, started: bool, quote: Option<char>, escaped: bool)

  const EMPTY: Splitter := Splitter([], "", false, None, false)

  function Feed(st: Splitter, c: char): Splitter {
    var more := st.(word := st.word + [c], started := true);
    if st.escaped then more.(escaped := false)
    else
      match st.quote
      case Some(mark) =>
        if c == mark then st.(quote := None)
        else if mark == '"' && c == '\\' then st.(escaped := true)
        else more
      case None =>
        if c == '\\' then st.(escaped := true)
        else if c == '\'' || c == '"' then st.(quote := Some(c), started := true)
        else if IsSpace(c) then
          if st.started then st.(words := st.words + [st.word], word := "", started := false) else st
        else more
  }

  function FeedAll(st: Splitter, text: string): Splitter
    decreases |text|
  {
    if text == "" then st else FeedAll(Feed(st, text[0]), text[1..])
  }

  function Finish(st: Splitter): Option<seq<string>> {
    if st.quote.Some? || st.escaped then None
    else Some(if st.started then st.words + [st.word] else st.words)
  }

  function Split(text: string): Option<seq<string>> {
    Finish(FeedAll(EMPTY, text))
  }

  method SplitEnvString(text: string) returns (r: Option<seq<string>>)
    ensures r == Split(text)
  {
    var words: seq<string>, word, started := [], "", false;
    var quote: Option<char>, escaped := None, false;
    var i := 0;
    while i < |text|
      invariant 0 <= i <= |text|
      invariant FeedAll(Splitter(words, word, started, quote, escaped), text[i..]) == FeedAll(EMPTY, text)
    {
      assert text[i..][1..] == text[i + 1..];
      var c := text[i];
      if escaped {
        word, started, escaped := word + [c], true, false;
      } else if quote.Some? {
        if c == quote.value {
          quote := None;
        } else if quote.value == '"' && c == '\\' {
          escaped := true;
        } else {
          word, started := word + [c], true;
        }
      } else if c == '\\' {
        escaped := true;
      } else if c == '\'' || c == '"' {
        quote, started := Some(c), true;
      } else if IsSpace(c) {
        if started { words, word, started := words + [word], "", false; }
      } else {
        word, started := word + [c], true;
      }
      i := i + 1;
    }
    if quote.Some? || escaped { return None; }
    if started { words := words + [word]; }
    r := Some(words);
  }

  // ---- quoting and splitting are inverse ----

  function Quoted(w: string): string {
    "'" + w + "'"
  }

  function QuoteAll(words: seq<string>): string {
    if words == [] then ""
    else if |words| == 1 then Quoted(words[0])
    else Quoted(words[0]) + " " + QuoteAll(words[1..])
  }

  lemma {:induction false} FeedJoins(st: Splitter, a: string, b: string)
    ensures FeedAll(st, a + b) == FeedAll(FeedAll(st, a), b)
    decreases |a|
  {
    if a == "" {
      assert a + b == b;
    } else {
      assert (a + b)[1..] == a[1..] + b;
      FeedJoins(Feed(st, a[0]), a[1..], b);
    }
  }

  /** Inside single quotes every character but a single quote is itself. */
  lemma {:induction false} FeedInQuotes(st: Splitter, w: string)
    requires st.quote == Some('\'') && !st.escaped && '\'' !in w
    ensures FeedAll(st, w) == st.(word := st.word + w, started := st.started || w != "")
    decreases |w|
  {
    if w == "" {
      assert st.word + w == st.word;
    } else {
      FeedInQuotes(Feed(st, w[0]), w[1..]);
      assert st.word + [w[0]] + w[1..] == st.word + w;
    }
  }

  lemma {:induction false} FeedQuoted(words: seq<string>, w: string)
    requires '\'' !in w
    ensures FeedAll(Splitter(words, "", false, None, false), Quoted(w)) == Splitter(words, w, true, None, false)
  {
    var st := Splitter(words, "", false, None, false);
    var open := Splitter(words, "", true, Some('\''), false);
    FeedJoins(st, "'", w + "'");
    assert "'"[1..] == "";
    assert FeedAll(st, "'") == open;
    FeedJoins(open, w, "'");
    FeedInQuotes(open, w);
    assert "" + w == w;
    assert Quoted(w) == "'" + (w + "'");
  }

  lemma {:induction false} FeedQuotedAll(front: seq<string>, words: seq<string>)
    requires words != [] && forall w <- words :: '\'' !in w
    ensures Finish(FeedAll(Splitter(front, "", false, None, false), QuoteAll(words))) == Some(front + words)
    decreases |words|
  {
    var st := Splitter(front, "", false, None, false);
    FeedQuoted(front, words[0]);
    if |words| == 1 {
      assert words == [words[0]];
    } else {
      var rest := QuoteAll(words[1..]);
      FeedJoins(st, Quoted(words[0]), " " + rest);
      assert Quoted(words[0]) + " " + rest == Quoted(words[0]) + (" " + rest);
      FeedJoins(Splitter(front, words[0], true, None, false), " ", rest);
      assert " "[1..] == "";
      FeedQuotedAll(front + [words[0]], words[1..]);
      assert front + [words[0]] + words[1..] == front + words;
    }
  }

  /** Words without single quotes, quoted and joined, come back as they were, empty ones and all. */
  lemma {:induction false} SplitInvertsQuoting(words: seq<string>)
    requires forall w <- words :: '\'' !in w
    ensures Split(QuoteAll(words)) == Some(words)
  {
    if words != [] {
      FeedQuotedAll([], words);
      assert [] + words == words;
    }
  }

  // ---- every text that can be split, by how it is spelled ----

  /** A character between double quotes: as it is, or behind a backslash. */
  datatype Mark = Itself(c: char) | Slashed(c: char)

  /** White space, a character as it is or behind a backslash, and what stands between quotes. */
  datatype Part = Gap(c: char) | Bare(c: char) | Escape(c: char) | Single(s: string) | Double(marks: seq<Mark>)

  predicate IsMark(m: Mark) {
    m.Itself? ==> m.c != '"' && m.c != '\\'
  }

  predicate IsPart(p: Part) {
    match p
    case Gap(c) => IsSpace(c)
    case Bare(c) => !IsSpace(c) && c != '\\' && c != '\'' && c != '"'
    case Escape(_) => true
    case Single(s) => '\'' !in s
    case Double(marks) => forall m <- marks :: IsMark(m)
  }

  function MarksSpelled(marks: seq<Mark>): string {
    if marks == [] then ""
    else (if marks[0].Itself? then [marks[0].c] else ['\\', marks[0].c]) + MarksSpelled(marks[1..])
  }

  function Spelled(p: Part): string {
    match p
    case Gap(c) => [c]
    case Bare(c) => [c]
    case Escape(c) => ['\\', c]
    case Single(s) => "'" + s + "'"
    case Double(marks) => ['"'] + MarksSpelled(marks) + ['"']
  }

  function AllSpelled(parts: seq<Part>): string {
    if parts == [] then "" else Spelled(parts[0]) + AllSpelled(parts[1..])
  }

  function MarksMeant(marks: seq<Mark>): string {
    if marks == [] then "" else [marks[0].c] + MarksMeant(marks[1..])
  }

  /** What a part puts into its word. */
  function Meant(p: Part): string {
    match p
    case Gap(_) => ""
    case Bare(c) => [c]
    case Escape(c) => [c]
    case Single(s) => s
    case Double(marks) => MarksMeant(marks)
  }

  /** The word that the parts up to the first white space make, and what is behind them. */
  function FirstWord(parts: seq<Part>): string {
    if parts == [] || parts[0].Gap? then "" else Meant(parts[0]) + FirstWord(parts[1..])
  }

  function BehindWord(parts: seq<Part>): (rest: seq<Part>)
    ensures |rest| <= |parts|
  {
    if parts == [] || parts[0].Gap? then parts else BehindWord(parts[1..])
  }

  /** One word for every run of parts without white space. */
  function WordsMeant(parts: seq<Part>): seq<string>
    decreases |parts|
  {
    if parts == [] then []
    else if parts[0].Gap? then WordsMeant(parts[1..])
    else [FirstWord(parts)] + WordsMeant(BehindWord(parts))
  }

  predicate IsOpen(st: Splitter) {
    st.quote.None? && !st.escaped && (!st.started ==> st.word == "")
  }

  /** Where the splitter stands behind a part. */
  function Taken(st: Splitter, p: Part): Splitter {
    if p.Gap? then if st.started then Splitter(st.words + [st.word], "", false, None, false) else st
    else Splitter(st.words, st.word + Meant(p), true, None, false)
  }

  lemma {:induction false} FeedOne(st: Splitter, c: char, rest: string)
    ensures FeedAll(st, [c] + rest) == FeedAll(Feed(st, c), rest)
  {
    assert ([c] + rest)[1..] == rest;
  }

  lemma {:induction false} FeedMarks(st: Splitter, marks: seq<Mark>, rest: string)
    requires st.quote == Some('"') && !st.escaped && st.started && forall m <- marks :: IsMark(m)
    ensures FeedAll(st, MarksSpelled(marks) + rest) == FeedAll(st.(word := st.word + MarksMeant(marks)), rest)
    decreases |marks|
  {
    if marks == [] {
      assert "" + rest == rest && st.word + "" == st.word;
    } else {
      var m, more := marks[0], MarksSpelled(marks[1..]) + rest;
      assert IsMark(m);
      var next := st.(word := st.word + [m.c]);
      if m.Itself? {
        assert MarksSpelled(marks) + rest == [m.c] + more;
        FeedOne(st, m.c, more);
      } else {
        assert MarksSpelled(marks) + rest == ['\\'] + ([m.c] + more);
        FeedOne(st, '\\', [m.c] + more);
        FeedOne(Feed(st, '\\'), m.c, more);
      }
      FeedMarks(next, marks[1..], rest);
      assert (st.word + [m.c]) + MarksMeant(marks[1..]) == st.word + ([m.c] + MarksMeant(marks[1..]));
    }
  }

  lemma {:induction false} FeedPart(st: Splitter, p: Part, rest: string)
    requires IsOpen(st) && IsPart(p)
    ensures FeedAll(st, Spelled(p) + rest) == FeedAll(Taken(st, p), rest) && IsOpen(Taken(st, p))
  {
    match p
    case Gap(c) => FeedOne(st, c, rest);
    case Bare(c) => FeedOne(st, c, rest);
    case Escape(c) =>
      assert ['\\', c] + rest == ['\\'] + ([c] + rest);
      FeedOne(st, '\\', [c] + rest);
      FeedOne(Feed(st, '\\'), c, rest);
    case Single(s) =>
      var open := st.(quote := Some('\''), started := true);
      assert ("'" + s + "'") + rest == ['\''] + (s + (['\''] + rest));
      FeedOne(st, '\'', s + (['\''] + rest));
      FeedJoins(open, s, ['\''] + rest);
      FeedInQuotes(open, s);
      FeedOne(open.(word := st.word + s), '\'', rest);
    case Double(marks) =>
      var open := st.(quote := Some('"'), started := true);
      assert (['"'] + MarksSpelled(marks) + ['"']) + rest == ['"'] + (MarksSpelled(marks) + (['"'] + rest));
      FeedOne(st, '"', MarksSpelled(marks) + (['"'] + rest));
      FeedMarks(open, marks, ['"'] + rest);
      FeedOne(open.(word := st.word + MarksMeant(marks)), '"', rest);
  }

  /** The words that come of the parts, for a splitter that stands in the middle of a word or between words. */
  function WordsFrom(st: Splitter, parts: seq<Part>): seq<string> {
    st.words
    + if st.started then [st.word + FirstWord(parts)] + WordsMeant(BehindWord(parts)) else WordsMeant(parts)
  }

  lemma {:induction false} TakenWords(st: Splitter, parts: seq<Part>)
    requires IsOpen(st) && parts != []
    ensures WordsFrom(Taken(st, parts[0]), parts[1..]) == WordsFrom(st, parts)
  {
    var p, rest := parts[0], parts[1..];
    if p.Gap? {
      assert st.word + "" == st.word;
      assert (st.words + [st.word]) + WordsMeant(rest) == st.words + ([st.word] + WordsMeant(rest));
    } else {
      assert (st.word + Meant(p)) + FirstWord(rest) == st.word + (Meant(p) + FirstWord(rest));
      assert "" + FirstWord(parts) == FirstWord(parts);
    }
  }

  lemma {:induction false} FeedParts(st: Splitter, parts: seq<Part>)
    requires IsOpen(st) && forall p <- parts :: IsPart(p)
    ensures Finish(FeedAll(st, AllSpelled(parts))) == Some(WordsFrom(st, parts))
    decreases |parts|
  {
    if parts == [] {
      assert st.word + "" == st.word;
      assert [st.word] + [] == [st.word] && st.words + [] == st.words;
    } else {
      assert IsPart(parts[0]) && forall p <- parts[1..] :: p in parts;
      FeedPart(st, parts[0], AllSpelled(parts[1..]));
      FeedParts(Taken(st, parts[0]), parts[1..]);
      TakenWords(st, parts);
    }
  }

  /** A text spelled of parts is split into the words they mean. */
  lemma {:induction false} SpelledSplits(parts: seq<Part>)
    requires forall p <- parts :: IsPart(p)
    ensures Split(AllSpelled(parts)) == Some(WordsMeant(parts))
  {
    FeedParts(EMPTY, parts);
    assert [] + WordsMeant(parts) == WordsMeant(parts);
  }

  predicate IsClosed(st: Splitter) {
    st.quote.None? && !st.escaped
  }

  /** Behind an open single quote there is one that closes it. */
  lemma {:induction false} SingleCloses(st: Splitter, text: string) returns (s: string, rest: string)
    requires st.quote == Some('\'') && !st.escaped && IsClosed(FeedAll(st, text))
    ensures text == s + (['\''] + rest) && '\'' !in s
    decreases |text|
  {
    if text[0] == '\'' {
      s, rest := "", text[1..];
    } else {
      s, rest := SingleCloses(Feed(st, text[0]), text[1..]);
      s := [text[0]] + s;
    }
  }

  lemma {:induction false} DoubleCloses(st: Splitter, text: string) returns (marks: seq<Mark>, rest: string)
    requires st.quote == Some('"') && !st.escaped && IsClosed(FeedAll(st, text))
    ensures text == MarksSpelled(marks) + (['"'] + rest) && forall m <- marks :: IsMark(m)
    decreases |text|
  {
    if text[0] == '"' {
      marks, rest := [], text[1..];
    } else if text[0] == '\\' {
      var next := Feed(st, text[0]);
      assert FeedAll(st, text) == FeedAll(next, text[1..]);
      var after := text[1..];
      assert after != "";
      var more;
      more, rest := DoubleCloses(Feed(next, after[0]), after[1..]);
      marks := [Slashed(after[0])] + more;
      assert text == ['\\', after[0]] + after[1..];
    } else {
      var more;
      more, rest := DoubleCloses(Feed(st, text[0]), text[1..]);
      marks := [Itself(text[0])] + more;
    }
  }

  lemma {:induction false} FirstPart(st: Splitter, text: string) returns (p: Part, rest: string)
    requires IsOpen(st) && text != "" && IsClosed(FeedAll(st, text))
    ensures IsPart(p) && text == Spelled(p) + rest && |rest| < |text|
  {
    var c := text[0];
    if c == '\\' {
      var after := text[1..];
      assert FeedAll(st, text) == FeedAll(Feed(st, c), after);
      assert after != "";
      p, rest := Escape(after[0]), after[1..];
    } else if c == '\'' {
      var s;
      s, rest := SingleCloses(Feed(st, c), text[1..]);
      p := Single(s);
    } else if c == '"' {
      var marks;
      marks, rest := DoubleCloses(Feed(st, c), text[1..]);
      p := Double(marks);
    } else {
      p, rest := if IsSpace(c) then Gap(c) else Bare(c), text[1..];
    }
  }

  /** Every text that is split is spelled of parts. */
  lemma {:induction false} SplitIsSpelt(st: Splitter, text: string) returns (parts: seq<Part>)
    requires IsOpen(st) && IsClosed(FeedAll(st, text))
    ensures text == AllSpelled(parts) && forall p <- parts :: IsPart(p)
    decreases |text|
  {
    parts := [];
    if text != "" {
      var p, rest := FirstPart(st, text);
      FeedPart(st, p, rest);
      var more := SplitIsSpelt(Taken(st, p), rest);
      parts := [p] + more;
    }
  }

  /** The text is spelled of the parts. */
  ghost predicate Spells(text: string, parts: seq<Part>) {
    text == AllSpelled(parts) && forall p <- parts :: IsPart(p)
  }

  /**
   * A text is split if and only if it is spelled of such parts, and then into the words they mean; a quote or a
   * backslash that is not finished spells nothing.
   */
  lemma {:induction false} SplitsAsMeant(text: string, words: seq<string>)
    ensures Split(text) == Some(words) <==> exists parts :: Spells(text, parts) && WordsMeant(parts) == words
  {
    if Split(text) == Some(words) {
      var parts := SplitIsSpelt(EMPTY, text);
      SpelledSplits(parts);
      assert Spells(text, parts);
    } else if parts :| Spells(text, parts) && WordsMeant(parts) == words {
      SpelledSplits(parts);
    }
  }

  // ---- a split is smaller than what it came from ----

  /** What the loop of `EnvExecutable` uses up: every word, and one for each. */
  function Size(words: seq<string>): nat {
    if words == [] then 0 else |words[0]| + 1 + Size(words[1..])
  }

  lemma {:induction false} SizeJoins(a: seq<string>, b: seq<string>)
    ensures Size(a + b) == Size(a) + Size(b)
    decreases |a|
  {
    if a == [] {
      assert a + b == b;
    } else {
      assert (a + b)[1..] == a[1..] + b;
      SizeJoins(a[1..], b);
    }
  }

  /** What a split holds after `n` characters. */
  ghost predicate Within(st: Splitter, n: nat) {
    if st.started then Size(st.words) + |st.word| <= n else st.word == "" && Size(st.words) <= n
  }

  lemma {:induction false} FeedWithin(st: Splitter, c: char, n: nat)
    requires Within(st, n)
    ensures Within(Feed(st, c), n + 1)
  {
    SizeJoins(st.words, [st.word]);
    assert [st.word][1..] == [];
  }

  lemma {:induction false} FeedAllWithin(st: Splitter, text: string, n: nat)
    requires Within(st, n)
    ensures Within(FeedAll(st, text), n + |text|)
    decreases |text|
  {
    if text != "" {
      FeedWithin(st, text[0], n);
      FeedAllWithin(Feed(st, text[0]), text[1..], n + 1);
    }
  }

  lemma {:induction false} SplitIsSmaller(text: string)
    ensures Split(text).Some? ==> Size(Split(text).value) <= |text| + 1
  {
    FeedAllWithin(EMPTY, text, 0);
    var st := FeedAll(EMPTY, text);
    SizeJoins(st.words, [st.word]);
    assert [st.word][1..] == [];
  }

  // ---- the command line ----

  function Join(words: seq<string>): string {
    if words == [] then ""
    else if |words| == 1 then words[0]
    else words[0] + " " + Join(words[1..])
  }

  lemma {:induction false} JoinedSize(words: seq<string>)
    ensures |Join(words)| + 1 == if words == [] then 1 else Size(words)
    decreases |words|
  {
    if |words| > 1 { JoinedSize(words[1..]); } else if |words| == 1 { assert words[1..] == []; }
  }

  predicate StartsWith(word: string, prefix: string) {
    prefix <= word
  }

  /** The text a word has `env` split, the words behind it included; `None` when it is no such option. */
  function ToSplit(words: seq<string>, index: nat): (t: Option<string>)
    requires index < |words|
  {
    var word, rest := words[index], words[index + 1..];
    if word == "-S" || word == "--split-string" then Some(Join(rest))
    else if StartsWith(word, "--split-string=") then Some(word[15..] + Behind(rest))
    else if StartsWith(word, "-S") then Some(word[2..] + Behind(rest))
    else None
  }

  function Behind(rest: seq<string>): string {
    if rest == [] then "" else " " + Join(rest)
  }

  /** Options that take the next word for their value. */
  predicate TakesNext(word: string) {
    word == "-u" || word == "--unset" || word == "-C" || word == "--chdir" || word == "-a" || word == "--argv0"
  }

  /** Options that hold their value. */
  predicate HoldsValue(word: string) {
    || ((StartsWith(word, "-u") || StartsWith(word, "-C") || StartsWith(word, "-a")) && |word| > 2)
    || StartsWith(word, "--unset=") || StartsWith(word, "--chdir=") || StartsWith(word, "--argv0=")
    || StartsWith(word, "--block-signal=") || StartsWith(word, "--default-signal=")
    || StartsWith(word, "--ignore-signal=")
  }

  /** Options without a value. */
  predicate IsFlag(word: string) {
    || word == "-i" || word == "--ignore-environment" || word == "-0" || word == "--null" || word == "-v"
    || word == "--debug" || word == "--block-signal" || word == "--default-signal" || word == "--ignore-signal"
    || word == "--list-signal-handling"
  }

  predicate StandsAlone(word: string) {
    HoldsValue(word) || IsFlag(word)
  }

  predicate IsNameStart(c: char) {
    c == '_' || 'a' <= c <= 'z' || 'A' <= c <= 'Z'
  }

  predicate IsNamePart(c: char) {
    IsNameStart(c) || '0' <= c <= '9'
  }

  /** `NAME=value`. */
  predicate IsAssignment(word: string) {
    exists k | 0 < k < |word| :: word[k] == '=' && IsNameStart(word[0]) && forall j | 0 < j < k :: IsNamePart(word[j])
  }

  lemma {:induction false} SizeBehind(words: seq<string>, index: nat)
    requires index < |words|
    ensures Size(words) >= |words[index]| + 1 + Size(words[index + 1..])
  {
    assert words == words[..index] + ([words[index]] + words[index + 1..]);
    SizeJoins(words[..index], [words[index]] + words[index + 1..]);
    assert ([words[index]] + words[index + 1..])[1..] == words[index + 1..];
  }

  /** Splitting leaves strictly less than there was. */
  lemma {:induction false} SplitShrinks(words: seq<string>, index: nat)
    requires index < |words| && ToSplit(words, index).Some? && Split(ToSplit(words, index).value).Some?
    ensures Size(Split(ToSplit(words, index).value).value) < Size(words)
  {
    SizeBehind(words, index);
    JoinedSize(words[index + 1..]);
    SplitIsSmaller(ToSplit(words, index).value);
  }

  /**
   * The executable the words from `index` on name. Each split starts over on a smaller list, so however
   * many `-S` strings are packed into one another there is an answer.
   */
  function Executable(words: seq<string>, index: nat): Option<string>
    decreases Size(words), |words| - index
  {
    if index >= |words| then None
    else
      var word := words[index];
      var text := ToSplit(words, index);
      if word == "--" then if index + 1 < |words| then Some(words[index + 1]) else None
      else if text.Some? then
        match Split(text.value)
        case None => None
        case Some(split) =>
          SplitShrinks(words, index);
          Executable(split, 0)
      else if TakesNext(word) then Executable(words, index + 2)
      else if StandsAlone(word) then Executable(words, index + 1)
      else if StartsWith(word, "-") then None
      else if IsAssignment(word) then Executable(words, index + 1)
      else Some(word)
  }

  method EnvExecutable(line: seq<string>) returns (r: Option<string>)
    ensures r == Executable(line, 0)
  {
    var words, index := line, 0;
    while index < |words|
      invariant 0 <= index
      invariant Executable(words, index) == Executable(line, 0)
      decreases Size(words), |words| - index
    {
      var word := words[index];
      var text := ToSplit(words, index);
      if word == "--" { return if index + 1 < |words| then Some(words[index + 1]) else None; }
      if text.Some? {
        var split := SplitEnvString(text.value);
        if split.None? { return None; }
        SplitShrinks(words, index);
        words, index := split.value, 0;
      } else if TakesNext(word) {
        index := index + 2;
      } else if StandsAlone(word) {
        index := index + 1;
      } else if StartsWith(word, "-") {
        return None;
      } else if IsAssignment(word) {
        index := index + 1;
      } else {
        return Some(word);
      }
    }
    r := None;
  }

  function QuotedWords(words: seq<string>): (r: seq<string>)
    ensures |r| == |words| && forall i | 0 <= i < |words| :: r[i] == Quoted(words[i])
  {
    if words == [] then [] else [Quoted(words[0])] + QuotedWords(words[1..])
  }

  lemma {:induction false} JoinQuoted(words: seq<string>)
    ensures Join(QuotedWords(words)) == QuoteAll(words)
    decreases |words|
  {
    if words != [] {
      JoinQuoted(words[1..]);
      assert QuotedWords(words)[1..] == QuotedWords(words[1..]);
    }
  }

  /** A command line quoted word by word behind `-S` names what it names unquoted. */
  lemma {:induction false} SplitStringIsTransparent(words: seq<string>)
    requires forall w <- words :: '\'' !in w
    ensures Executable(["-S"] + QuotedWords(words), 0) == Executable(words, 0)
  {
    var line := ["-S"] + QuotedWords(words);
    assert line[0] == "-S" && line[1..] == QuotedWords(words);
    JoinQuoted(words);
    SplitInvertsQuoting(words);
    assert ToSplit(line, 0) == Some(QuoteAll(words));
  }

  // ---- the command, read off the words ----

  /** A word that is passed over by itself: an option that takes no further word, or an assignment. */
  predicate PassedAlone(word: string) {
    StandsAlone(word) || IsAssignment(word)
  }

  /** The first `n` words are options, each with the value it takes, and assignments. */
  ghost predicate PassedTo(words: seq<string>, n: nat) {
    || n == 0
    || (0 < n <= |words| && PassedTo(words, n - 1) && PassedAlone(words[n - 1]))
    || (1 < n <= |words| + 1 && PassedTo(words, n - 2) && TakesNext(words[n - 2]))
  }

  predicate IsCommand(word: string) {
    !StartsWith(word, "-") && !IsAssignment(word)
  }

  /** Behind the first `n` words the command `c` stands, or `--` and the command, or a string to split that names it. */
  ghost predicate NamesAt(words: seq<string>, n: nat, c: string)
    decreases Size(words), 0
  {
    && n < |words| && PassedTo(words, n)
    && (|| (words[n] == "--" && n + 1 < |words| && c == words[n + 1])
        || (IsCommand(words[n]) && c == words[n])
        || (words[n] != "--" && ToSplit(words, n).Some? && Split(ToSplit(words, n).value).Some?
            && (SplitShrinks(words, n); Names(Split(ToSplit(words, n).value).value, c))))
  }

  ghost predicate Names(words: seq<string>, c: string)
    decreases Size(words), 1
  {
    exists n: nat :: NamesAt(words, n, c)
  }

  lemma {:induction false} SpelledFrom(word: string, prefix: string)
    ensures StartsWith(word, prefix) ==> |prefix| <= |word| && forall k | 0 <= k < |prefix| :: word[k] == prefix[k]
  {
    if StartsWith(word, prefix) {
      forall k | 0 <= k < |prefix|
        ensures word[k] == prefix[k]
      {
        assert word[..|prefix|][k] == word[k];
      }
    }
  }

  /** The option begins with `-` and is neither `--` nor one that has a string split. */
  predicate SplitsNothing(word: string) {
    |word| > 1 && word[0] == '-' && word[1] != 'S' && (word[1] == '-' ==> |word| > 2 && word[2] != 's')
  }

  lemma {:induction false} FlagSplitsNothing(word: string)
    requires IsFlag(word)
    ensures SplitsNothing(word)
  {
  }

  lemma {:induction false} FlagTakesNothing(word: string)
    requires IsFlag(word)
    ensures !TakesNext(word)
  {
    assert word[1] == '-' ==> word[2] != 'u' && word[2] != 'c' && word[2] != 'a';
  }

  lemma {:induction false} HolderSplitsNothing(word: string)
    requires HoldsValue(word)
    ensures SplitsNothing(word)
  {
    SpelledFrom(word, "-u");
    SpelledFrom(word, "-C");
    SpelledFrom(word, "-a");
    SpelledFrom(word, "--unset=");
    SpelledFrom(word, "--chdir=");
    SpelledFrom(word, "--argv0=");
    SpelledFrom(word, "--block-signal=");
    SpelledFrom(word, "--default-signal=");
    SpelledFrom(word, "--ignore-signal=");
  }

  lemma {:induction false} TakersAre(word: string)
    ensures TakesNext(word) && |word| > 2 ==> |word| == 7 && word[1] == '-'
  {
  }

  lemma {:induction false} HolderTakesNothing(word: string)
    requires HoldsValue(word)
    ensures !TakesNext(word)
  {
    TakersAre(word);
    SpelledFrom(word, "-u");
    SpelledFrom(word, "-C");
    SpelledFrom(word, "-a");
    SpelledFrom(word, "--unset=");
    SpelledFrom(word, "--chdir=");
    SpelledFrom(word, "--argv0=");
    SpelledFrom(word, "--block-signal=");
    SpelledFrom(word, "--default-signal=");
    SpelledFrom(word, "--ignore-signal=");
  }

  lemma {:induction false} SplitIsSpelled(words: seq<string>, n: nat)
    requires n < |words| && (words[n] == "--" || ToSplit(words, n).Some?)
    ensures words[n] != "" && words[n][0] == '-' && !SplitsNothing(words[n])
  {
    SpelledFrom(words[n], "--split-string=");
    SpelledFrom(words[n], "-S");
  }

  /** No word is more than one of these. */
  lemma {:induction false} OptionsDiffer(words: seq<string>, n: nat)
    requires n < |words|
    ensures PassedAlone(words[n]) || TakesNext(words[n]) || IsCommand(words[n]) ==>
              words[n] != "--" && ToSplit(words, n).None?
    ensures PassedAlone(words[n]) ==> !TakesNext(words[n])
    ensures IsCommand(words[n]) ==> !TakesNext(words[n]) && !StandsAlone(words[n])
    ensures IsAssignment(words[n]) ==> !StartsWith(words[n], "-")
  {
    hide IsFlag, HoldsValue, ToSplit;
    var word := words[n];
    SpelledFrom(word, "-");
    if word != "" && word[0] == '-' { assert word[..1] == "-"; }
    if IsFlag(word) { FlagSplitsNothing(word); FlagTakesNothing(word); }
    if HoldsValue(word) { HolderSplitsNothing(word); HolderTakesNothing(word); }
    if word == "--" || ToSplit(words, n).Some? { SplitIsSpelled(words, n); }
    if TakesNext(word) { assert SplitsNothing(word); }
  }

  /** Passing over words changes nothing. */
  lemma {:induction false} PassedOver(words: seq<string>, n: nat)
    requires PassedTo(words, n)
    ensures Executable(words, n) == Executable(words, 0)
  {
    if n > 0 {
      if n <= |words| && PassedTo(words, n - 1) && PassedAlone(words[n - 1]) {
        PassedOver(words, n - 1);
        OptionsDiffer(words, n - 1);
      } else {
        PassedOver(words, n - 2);
        OptionsDiffer(words, n - 2);
      }
    }
  }

  /** What is named is what the words say. */
  lemma {:induction false} NamedIsSaid(words: seq<string>, index: nat, c: string)
    requires PassedTo(words, index) && Executable(words, index) == Some(c)
    ensures Names(words, c)
    decreases Size(words), |words| + 2 - index
  {
    hide PassedTo, IsAssignment, StandsAlone, TakesNext, Split;
    var word := words[index];
    if word == "--" {
      assert NamesAt(words, index, c);
    } else if ToSplit(words, index).Some? {
      SplitShrinks(words, index);
      StartIsPassed(Split(ToSplit(words, index).value).value);
      NamedIsSaid(Split(ToSplit(words, index).value).value, 0, c);
      assert NamesAt(words, index, c);
    } else if TakesNext(word) {
      PassedFurther(words, index);
      NamedIsSaid(words, index + 2, c);
    } else if PassedAlone(word) {
      PassedFurther(words, index);
      NamedIsSaid(words, index + 1, c);
    } else {
      assert NamesAt(words, index, c);
    }
  }

  lemma {:induction false} StartIsPassed(words: seq<string>)
    ensures PassedTo(words, 0)
  {
  }

  lemma {:induction false} PassedFurther(words: seq<string>, n: nat)
    requires PassedTo(words, n) && n < |words|
    ensures PassedAlone(words[n]) ==> PassedTo(words, n + 1)
    ensures TakesNext(words[n]) ==> PassedTo(words, n + 2)
  {
  }

  /** What the words say is what is named. */
  lemma {:induction false} SaidIsNamed(words: seq<string>, c: string)
    requires Names(words, c)
    ensures Executable(words, 0) == Some(c)
    decreases Size(words)
  {
    hide PassedTo, IsAssignment, StandsAlone, TakesNext, Split;
    var n: nat :| NamesAt(words, n, c);
    PassedOver(words, n);
    OptionsDiffer(words, n);
    if words[n] != "--" && !IsCommand(words[n]) {
      SplitShrinks(words, n);
      SaidIsNamed(Split(ToSplit(words, n).value).value, c);
    }
  }

  /**
   * An `env` line names a command if and only if that is the first word behind its options, the values they take and
   * its assignments, or stands behind `--` there, or is named so by the string that is split there.
   */
  lemma {:induction false} NamesItsCommand(words: seq<string>, c: string)
    ensures Executable(words, 0) == Some(c) <==> Names(words, c)
  {
    if Executable(words, 0) == Some(c) {
      StartIsPassed(words);
      NamedIsSaid(words, 0, c);
    } else if Names(words, c) {
      SaidIsNamed(words, c);
    }
  }
}
