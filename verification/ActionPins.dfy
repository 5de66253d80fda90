/** The names Git accepts for a reference, and the tags that read as versions, checked in one pass. */
module ActionPins {
  import opened Bytes

  const DOT: byte := 0x2E
  const SLASH: byte := 0x2F
  const LOCK_SUFFIX: Source := [0x2E, 0x6C, 0x6F, 0x63, 0x6B]

  predicate EndsWith(bytes: Source, suffix: Source) {
    |suffix| <= |bytes| && bytes[|bytes| - |suffix|..] == suffix
  }

  /** Control characters, space, DEL and the characters with a meaning in a revision or a refspec. */
  predicate IsForbidden(b: byte) {
    b <= SPACE || b == 0x7F || b == 0x7E || b == 0x5E || b == 0x3A || b == 0x3F || b == 0x2A || b == 0x5B || b == 0x5C
  }

  /** The byte at `i` breaks a rule of `git check-ref-format`, read off what stands in front of it. */
  predicate BadAt(b: Source, i: nat)
    requires i < |b|
  {
    || IsForbidden(b[i])
    || (b[i] == DOT && (i == 0 || b[i - 1] == SLASH || b[i - 1] == DOT))
    || (b[i] == SLASH && (i == 0 || b[i - 1] == SLASH || EndsWith(b[..i], LOCK_SUFFIX)))
    || (b[i] == 0x7B && i > 0 && b[i - 1] == 0x40)
  }

  /** A name Git accepts: no byte breaks a rule, and it ends as one may. */
  ghost predicate IsRefName(b: Source) {
    && b != [] && b != [0x40]
    && (forall i: nat | i < |b| :: !BadAt(b, i))
    && b[|b| - 1] != DOT && b[|b| - 1] != SLASH && !EndsWith(b, LOCK_SUFFIX)
  }

  method IsReference(bytes: Source) returns (r: bool)
    ensures r <==> IsRefName(bytes)
  {
    if bytes == [] || bytes == [0x40] { return false; }
    if bytes[|bytes| - 1] == DOT || bytes[|bytes| - 1] == SLASH || EndsWith(bytes, LOCK_SUFFIX) { return false; }
    var previous := SLASH;
    var i := 0;
    while i < |bytes|
      invariant 0 <= i <= |bytes| && previous == if i == 0 then SLASH else bytes[i - 1]
      invariant forall k: nat | k < i :: !BadAt(bytes, k)
    {
      var b := bytes[i];
      if IsForbidden(b)
         || (b == DOT && (previous == DOT || previous == SLASH))
         || (b == SLASH && (previous == SLASH || EndsWith(bytes[..i], LOCK_SUFFIX)))
         || (b == 0x7B && previous == 0x40) {
        assert BadAt(bytes, i);
        return false;
      }
      previous := b;
      i := i + 1;
    }
    r := true;
  }

  // ---- the same rules, component by component ----

  /** `b[i..j]` is one of the slash-separated components of the name. */
  predicate IsComponent(b: Source, i: nat, j: nat) {
    && i <= j <= |b|
    && (i == 0 || b[i - 1] == SLASH) && (j == |b| || b[j] == SLASH)
    && forall k | i <= k < j :: b[k] != SLASH
  }

  function ComponentEnd(b: Source, i: nat): (j: nat)
    requires i <= |b|
    ensures i <= j <= |b| && (j == |b| || b[j] == SLASH) && forall k | i <= k < j :: b[k] != SLASH
    decreases |b| - i
  {
    if i < |b| && b[i] != SLASH then ComponentEnd(b, i + 1) else i
  }

  function ComponentStart(b: Source, j: nat): (i: nat)
    requires j <= |b|
    ensures i <= j && (i == 0 || b[i - 1] == SLASH) && forall k | i <= k < j :: b[k] != SLASH
  {
    if j > 0 && b[j - 1] != SLASH then ComponentStart(b, j - 1) else j
  }

  predicate PairAt(b: Source, i: nat, first: byte, second: byte) {
    i + 1 < |b| && b[i] == first && b[i + 1] == second
  }

  /** The rules as Git states them: of components, of pairs, of single characters. */
  ghost predicate GitAccepts(b: Source) {
    && b != [] && b != [0x40] && b[|b| - 1] != DOT
    && (forall i: nat | i < |b| :: !IsForbidden(b[i]))
    && (forall i: nat :: !PairAt(b, i, DOT, DOT) && !PairAt(b, i, 0x40, 0x7B))
    && (forall i: nat, j: nat | IsComponent(b, i, j) :: i < j && b[i] != DOT && !EndsWith(b[i..j], LOCK_SUFFIX))
  }

  lemma {:induction false} LockHasNoSlash(b: Source)
    requires EndsWith(b, LOCK_SUFFIX)
    ensures forall k | |b| - 5 <= k < |b| :: b[k] != SLASH
  {
    forall k | |b| - 5 <= k < |b|
      ensures b[k] != SLASH
    {
      assert b[|b| - 5..][k - (|b| - 5)] == b[k];
    }
  }

  /** The suffix has no slash in it: a component ends in it exactly when the name up to there does. */
  lemma {:induction false} LockInComponent(b: Source, i: nat, j: nat)
    requires IsComponent(b, i, j)
    ensures EndsWith(b[i..j], LOCK_SUFFIX) <==> EndsWith(b[..j], LOCK_SUFFIX)
  {
    if EndsWith(b[..j], LOCK_SUFFIX) { LockHasNoSlash(b[..j]); }
    if j - i >= 5 { assert b[i..j][j - i - 5..] == b[..j][j - 5..]; }
  }

  lemma {:induction false} AcceptedHasNoBadByte(b: Source, i: nat)
    requires GitAccepts(b) && i < |b|
    ensures !BadAt(b, i)
  {
    if i > 0 { assert !PairAt(b, i - 1, DOT, DOT) && !PairAt(b, i - 1, 0x40, 0x7B); }
    if b[i] == SLASH {
      assert IsComponent(b, ComponentStart(b, i), i);
      LockInComponent(b, ComponentStart(b, i), i);
    } else if i == 0 || b[i - 1] == SLASH {
      assert IsComponent(b, i, ComponentEnd(b, i));
    }
  }

  /** The one-pass reading of the rules is Git's own. */
  lemma {:induction false} RefNameIsGits(b: Source)
    ensures IsRefName(b) <==> GitAccepts(b)
  {
    if IsRefName(b) {
      forall i: nat | i < |b|
        ensures !IsForbidden(b[i])
      {
        assert !BadAt(b, i);
      }
      forall i: nat
        ensures !PairAt(b, i, DOT, DOT) && !PairAt(b, i, 0x40, 0x7B)
      {
        assert i + 1 < |b| ==> !BadAt(b, i + 1);
      }
      forall i: nat, j: nat | IsComponent(b, i, j)
        ensures i < j && b[i] != DOT && !EndsWith(b[i..j], LOCK_SUFFIX)
      {
        ComponentIsSound(b, i, j);
      }
    }
    if GitAccepts(b) {
      forall i: nat | i < |b|
        ensures !BadAt(b, i)
      {
        AcceptedHasNoBadByte(b, i);
      }
      var s := ComponentStart(b, |b|);
      assert IsComponent(b, s, |b|);
      LockInComponent(b, s, |b|);
      assert b[..|b|] == b;
    }
  }

  lemma {:induction false} ComponentIsSound(b: Source, i: nat, j: nat)
    requires IsRefName(b) && IsComponent(b, i, j)
    ensures i < j && b[i] != DOT && !EndsWith(b[i..j], LOCK_SUFFIX)
  {
    LockInComponent(b, i, j);
    assert b[..|b|] == b;
    if i < |b| { assert !BadAt(b, i); }
    if j < |b| { assert !BadAt(b, j); }
  }

  // ---- versions ----

  predicate IsDigit(b: byte) {
    0x30 <= b <= 0x39
  }

  predicate IsAlphanumeric(b: byte) {
    IsDigit(b) || 0x41 <= b <= 0x5A || 0x61 <= b <= 0x7A
  }

  /** A digit, or `v` and a digit. */
  predicate NumericStart(bytes: Source) {
    bytes != [] && (IsDigit(bytes[0]) || (bytes[0] == 0x76 && |bytes| > 1 && IsDigit(bytes[1])))
  }

  /** A version stands behind the dash or slash at `k`, and a plain word in front of it. */
  predicate VersionBehind(bytes: Source, k: nat)
    requires k < |bytes|
  {
    && (bytes[k] == 0x2D || bytes[k] == SLASH) && NumericStart(bytes[k + 1..])
    && forall j | 0 <= j < k :: IsAlphanumeric(bytes[j]) || bytes[j] == 0x5F || bytes[j] == 0x2D
  }

  ghost predicate IsVersion(bytes: Source) {
    IsRefName(bytes) && (NumericStart(bytes) || exists k: nat :: k < |bytes| && VersionBehind(bytes, k))
  }

  method IsVersionToken(bytes: Source) returns (r: bool)
    ensures r <==> IsVersion(bytes)
  {
    var reference := IsReference(bytes);
    if !reference { return false; }
    if NumericStart(bytes) { return true; }
    var prefix, i := true, 0;
    while i < |bytes|
      invariant 0 <= i <= |bytes|
      invariant prefix <==> forall j | 0 <= j < i :: IsAlphanumeric(bytes[j]) || bytes[j] == 0x5F || bytes[j] == 0x2D
      invariant forall k: nat | k < i :: !VersionBehind(bytes, k)
    {
      if prefix && (bytes[i] == 0x2D || bytes[i] == SLASH) && NumericStart(bytes[i + 1..]) {
        assert VersionBehind(bytes, i);
        return true;
      }
      prefix := prefix && (IsAlphanumeric(bytes[i]) || bytes[i] == 0x5F || bytes[i] == 0x2D);
      i := i + 1;
    }
    r := false;
  }

  // ---- the annotation behind a pin ----

  const PIN: Source := [0x70, 0x69, 0x6E]
  const TAG: Source := [0x74, 0x61, 0x67]
  const EQUALS: byte := 0x3D

  /** Where the white space at `i` ends. */
  function SkipBlank(s: Source, i: nat): (j: nat)
    requires i <= |s|
    ensures i <= j <= |s| && (j < |s| ==> !IsWhitespace(s[j])) && forall k | i <= k < j :: IsWhitespace(s[k])
    decreases |s| - i
  {
    if i < |s| && IsWhitespace(s[i]) then SkipBlank(s, i + 1) else i
  }

  function TrimStart(s: Source): Source {
    s[SkipBlank(s, 0)..]
  }

  function TrimEnd(s: Source): (t: Source)
    ensures t <= s
  {
    if s != [] && IsWhitespace(s[|s| - 1]) then TrimEnd(s[..|s| - 1]) else s
  }

  function Trim(s: Source): Source {
    TrimEnd(TrimStart(s))
  }

  /** The bytes in front of the first white space. */
  function WordEnd(s: Source, i: nat): (e: nat)
    requires i <= |s|
    ensures i <= e <= |s| && (e < |s| ==> IsWhitespace(s[e])) && forall k | i <= k < e :: !IsWhitespace(s[k])
    decreases |s| - i
  {
    if i < |s| && !IsWhitespace(s[i]) then WordEnd(s, i + 1) else i
  }

  /** Where the version is written: behind `pin` and a blank, behind `tag` and `=`, or else from the start. */
  function VersionAt(body: Source): (at: nat)
    ensures at <= |body|
  {
    if PIN <= body && |body| > 3 && IsWhitespace(body[3]) then SkipBlank(body, 3)
    else if TAG <= body && SkipBlank(body, 3) < |body| && body[SkipBlank(body, 3)] == EQUALS
    then SkipBlank(body, SkipBlank(body, 3) + 1)
    else 0
  }

  function VersionPart(body: Source): Source {
    body[VersionAt(body)..]
  }

  ghost predicate Annotates(bytes: Source) {
    var body := Trim(bytes);
    var version := VersionPart(body);
    IsRefName(body) || IsVersion(version[..WordEnd(version, 0)])
  }

  method IsAnnotation(bytes: Source) returns (r: bool)
    ensures r <==> Annotates(bytes)
  {
    var body := Trim(bytes);
    var reference := IsReference(body);
    if reference { return true; }
    var version := VersionPart(body);
    var end := 0;
    while end < |version| && !IsWhitespace(version[end])
      invariant 0 <= end <= |version| && WordEnd(version, end) == WordEnd(version, 0)
    {
      end := end + 1;
    }
    r := IsVersionToken(version[..end]);
  }

  predicate IsBlank(s: Source) {
    forall b <- s :: IsWhitespace(b)
  }

  /** Nothing follows, or what follows is set off by white space. */
  predicate SetOff(tail: Source) {
    tail != [] ==> IsWhitespace(tail[0])
  }

  lemma {:induction false} SkipsTo(s: Source, i: nat, j: nat)
    requires i <= j <= |s| && (forall k | i <= k < j :: IsWhitespace(s[k])) && (j < |s| ==> !IsWhitespace(s[j]))
    ensures SkipBlank(s, i) == j
  {
  }

  lemma {:induction false} TrimStartSkips(blank: Source, s: Source)
    requires IsBlank(blank) && s != [] && !IsWhitespace(s[0])
    ensures TrimStart(blank + s) == s
  {
    var text := blank + s;
    assert forall k | 0 <= k < |blank| :: text[k] in blank;
    SkipsTo(text, 0, |blank|);
  }

  lemma {:induction false} TrimEndStops(s: Source, tail: Source)
    requires s != [] && !IsWhitespace(s[|s| - 1])
    ensures exists t :: t <= tail && TrimEnd(s + tail) == s + t
    decreases |tail|
  {
    if tail == [] {
      assert s + [] == s && TrimEnd(s) == s + [];
    } else if IsWhitespace(tail[|tail| - 1]) {
      var front := tail[..|tail| - 1];
      assert (s + tail)[..|s + tail| - 1] == s + front;
      TrimEndStops(s, front);
      var t :| t <= front && TrimEnd(s + front) == s + t;
      assert t <= tail;
    } else {
      assert TrimEnd(s + tail) == s + tail;
    }
  }

  lemma {:induction false} WordStops(s: Source, tail: Source)
    requires (forall b <- s :: !IsWhitespace(b)) && SetOff(tail)
    ensures (s + tail)[..WordEnd(s + tail, 0)] == s
  {
    var e := WordEnd(s + tail, 0);
    assert forall i | 0 <= i < |s| :: (s + tail)[i] in s;
    assert tail != [] ==> (s + tail)[|s|] == tail[0];
  }

  /** A reference name holds no white space. */
  lemma {:induction false} VersionHasNoBlank(v: Source)
    requires IsRefName(v)
    ensures forall b <- v :: !IsWhitespace(b)
  {
    forall b | b in v
      ensures !IsWhitespace(b)
    {
      var i :| 0 <= i < |v| && v[i] == b;
      assert !BadAt(v, i);
    }
  }

  /** No version is `pin` or `tag` itself, or begins with `tag=`. */
  lemma {:induction false} VersionIsItsOwnPart(v: Source, tail: Source)
    requires IsVersion(v) && SetOff(tail)
    ensures VersionPart(v + tail) == v + tail
  {
    var body := v + tail;
    VersionHasNoBlank(v);
    if PIN <= body || TAG <= body {
      assert !IsWhitespace(body[0]) && !IsWhitespace(body[1]) && !IsWhitespace(body[2]);
      assert v[..3] == body[..3];
      var k: nat :| k < |v| && VersionBehind(v, k);
      assert k >= 3 && (k > 3 ==> IsAlphanumeric(v[3]) || v[3] == 0x5F || v[3] == 0x2D);
      assert body[3] == v[3] && v[3] in v;
      SkipsTo(body, 3, 3);
    }
  }

  lemma {:induction false} Grouped(a: Source, b: Source, c: Source)
    ensures a + (b + c) == (a + b) + c
  {
  }

  /** Trimmed, the text begins with what leads up to the version, and nothing clings to the version. */
  lemma {:induction false} Spelled(a: Source, lead: Source, v: Source, tail: Source) returns (t: Source)
    requires IsBlank(a) && SetOff(tail) && v != [] && forall b <- v :: !IsWhitespace(b)
    requires lead != [] ==> !IsWhitespace(lead[0])
    ensures Trim(a + (lead + (v + tail))) == lead + (v + t) && SetOff(t)
    ensures (v + t)[..WordEnd(v + t, 0)] == v && !IsWhitespace((v + t)[0])
  {
    assert v[0] in v && v[|v| - 1] in v;
    var head := lead + v;
    Grouped(lead, v, tail);
    TrimStartSkips(a, head + tail);
    TrimEndStops(head, tail);
    t :| t <= tail && TrimEnd(head + tail) == head + t;
    Grouped(lead, v, t);
    WordStops(v, t);
  }

  lemma {:induction false} BareVersion(a: Source, v: Source, tail: Source)
    requires IsVersion(v) && IsBlank(a) && SetOff(tail)
    ensures Annotates(a + (v + tail))
  {
    hide IsVersion, IsRefName, Trim, VersionPart;
    VersionIsName(v);
    VersionHasNoBlank(v);
    var t := Spelled(a, [], v, tail);
    assert [] + (v + tail) == v + tail && [] + (v + t) == v + t;
    VersionIsItsOwnPart(v, t);
  }

  lemma {:induction false} LedVersion(a: Source, lead: Source, v: Source, tail: Source)
    requires IsVersion(v) && IsBlank(a) && SetOff(tail) && lead != [] && !IsWhitespace(lead[0])
    requires forall version: Source | version != [] && !IsWhitespace(version[0]) ::
             VersionPart(lead + version) == version
    ensures Annotates(a + (lead + (v + tail)))
  {
    hide IsVersion, IsRefName, Trim, VersionPart;
    VersionIsName(v);
    VersionHasNoBlank(v);
    var t := Spelled(a, lead, v, tail);
    assert VersionPart(lead + (v + t)) == v + t;
  }

  lemma {:induction false} VersionIsName(v: Source)
    requires IsVersion(v)
    ensures IsRefName(v) && v != []
  {
  }

  /** `pin` and the blanks behind it. */
  function PinLead(b: Source): Source {
    PIN + b
  }

  /** `tag`, `=` and the blanks around it. */
  function TagLead(b: Source, c: Source): Source {
    TAG + (b + ([EQUALS] + c))
  }

  lemma {:induction false} PinPart(b: Source, version: Source)
    requires IsBlank(b) && b != [] && version != [] && !IsWhitespace(version[0])
    ensures VersionPart(PinLead(b) + version) == version
  {
    var body := PinLead(b) + version;
    assert PIN <= body && forall k | 3 <= k < 3 + |b| :: body[k] in b;
    SkipsTo(body, 3, 3 + |b|);
  }

  lemma {:induction false} TagPart(b: Source, c: Source, version: Source)
    requires IsBlank(b) && IsBlank(c) && version != [] && !IsWhitespace(version[0])
    ensures VersionPart(TagLead(b, c) + version) == version
  {
    var body := TagLead(b, c) + version;
    assert TAG <= body && body[0] != PIN[0];
    assert forall k | 3 <= k < 3 + |b| :: body[k] in b;
    assert body[3 + |b|] == EQUALS;
    assert forall k | 4 + |b| <= k < 4 + |b| + |c| :: body[k] in c;
    SkipsTo(body, 3, 3 + |b|);
    SkipsTo(body, 4 + |b|, 4 + |b| + |c|);
  }

  /**
   * Whatever the spacing, and whatever words follow, a version annotates a pin on its own, behind `pin`,
   * and behind `tag` and `=`.
   */
  lemma {:induction false} EverySpellingAnnotates(v: Source, a: Source, b: Source, c: Source, tail: Source)
    requires IsVersion(v) && IsBlank(a) && IsBlank(b) && IsBlank(c) && SetOff(tail)
    ensures Annotates(a + (v + tail))
    ensures b != [] ==> Annotates(a + (PinLead(b) + (v + tail)))
    ensures Annotates(a + (TagLead(b, c) + (v + tail)))
  {
    hide IsVersion, Annotates, VersionPart;
    BareVersion(a, v, tail);
    forall version: Source | version != [] && !IsWhitespace(version[0])
      ensures b != [] ==> VersionPart(PinLead(b) + version) == version
      ensures VersionPart(TagLead(b, c) + version) == version
    {
      if b != [] { PinPart(b, version); }
      TagPart(b, c, version);
    }
    if b != [] { LedVersion(a, PinLead(b), v, tail); }
    LedVersion(a, TagLead(b, c), v, tail);
  }

  ghost predicate NamesReference(bytes: Source) {
    exists i: nat, j: nat :: i <= j <= |bytes| && IsRefName(bytes[i..j])
  }

  /** An annotation names a reference: some stretch of it is a name Git accepts. */
  lemma {:induction false} AnnotationNamesReference(bytes: Source)
    requires Annotates(bytes)
    ensures NamesReference(bytes)
  {
    hide IsRefName, IsVersion, VersionAt, SkipBlank, TrimEnd;
    var from, body := SkipBlank(bytes, 0), Trim(bytes);
    assert body <= bytes[from..];
    assert body == bytes[from..from + |body|];
    if !IsRefName(body) {
      var at := VersionAt(body);
      var end := WordEnd(VersionPart(body), 0);
      VersionIsName(VersionPart(body)[..end]);
      NameWithin(bytes, from, from + |body|, at, end);
    }
  }

  /** A stretch of a stretch is a stretch. */
  lemma {:induction false} NameWithin(bytes: Source, from: nat, to: nat, at: nat, n: nat)
    requires from <= to <= |bytes| && at + n <= to - from
    requires IsRefName(bytes[from..to][at..][..n])
    ensures NamesReference(bytes)
  {
    hide IsRefName;
    assert bytes[from..to][at..][..n] == bytes[from..to][at..at + n];
    SliceOfSlice(bytes, from, to, at, at + n);
  }

  // ---- what every annotation holds ----

  lemma {:induction false} TrimEndTakes(s: Source)
    ensures IsBlank(s[|TrimEnd(s)|..])
    decreases |s|
  {
    if s != [] && IsWhitespace(s[|s| - 1]) {
      var front := s[..|s| - 1];
      TrimEndTakes(front);
      assert s[|TrimEnd(s)|..] == front[|TrimEnd(front)|..] + [s[|s| - 1]];
    }
  }

  /** Trimming takes white space at both ends. */
  lemma {:induction false} TrimTakes(s: Source) returns (a: Source, z: Source)
    ensures IsBlank(a) && IsBlank(z) && s == a + (Trim(s) + z)
  {
    var k := SkipBlank(s, 0);
    var rest := s[k..];
    a, z := s[..k], rest[|TrimEnd(rest)|..];
    TrimEndTakes(rest);
    assert rest == TrimEnd(rest) + z;
  }

  /** Nothing, `pin` and white space, or `tag` and `=` with white space around it. */
  ghost predicate IsLead(lead: Source) {
    || lead == []
    || (exists b :: IsBlank(b) && b != [] && lead == PinLead(b))
    || (exists b, c :: IsBlank(b) && IsBlank(c) && lead == TagLead(b, c))
  }

  /** The text is a version behind such a lead, white space around it, and any words set off behind. */
  ghost predicate SpellsVersion(bytes: Source, a: Source, lead: Source, v: Source, tail: Source) {
    bytes == a + (lead + (v + tail)) && IsBlank(a) && IsLead(lead) && IsVersion(v) && SetOff(tail)
  }

  lemma {:induction false} LeadIsLead(body: Source)
    ensures IsLead(body[..VersionAt(body)])
  {
    var at := VersionAt(body);
    if PIN <= body && |body| > 3 && IsWhitespace(body[3]) {
      var b := body[3..at];
      assert body[..3] == PIN && body[..at] == PinLead(b);
      assert IsBlank(b);
    } else if TAG <= body && SkipBlank(body, 3) < |body| && body[SkipBlank(body, 3)] == EQUALS {
      var j := SkipBlank(body, 3);
      var b, c := body[3..j], body[j + 1..at];
      assert body[..3] == TAG && body[..at] == TagLead(b, c);
      assert IsBlank(b) && IsBlank(c);
    }
  }

  /** An annotation that is no reference name by itself holds a version. */
  lemma {:induction false} HoldsVersion(bytes: Source) returns (a: Source, lead: Source, v: Source, tail: Source)
    requires Annotates(bytes) && !IsRefName(Trim(bytes))
    ensures SpellsVersion(bytes, a, lead, v, tail)
  {
    hide IsVersion, IsRefName, VersionAt, Trim, IsLead;
    var body, z;
    a, z := TrimTakes(bytes);
    body := Trim(bytes);
    var version := VersionPart(body);
    var e := WordEnd(version, 0);
    lead, v, tail := body[..VersionAt(body)], version[..e], version[e..] + z;
    LeadIsLead(body);
    assert version == v + version[e..] && body == lead + version;
    Rejoined(lead, v, version[e..], z);
  }

  lemma {:induction false} Rejoined(lead: Source, v: Source, rest: Source, z: Source)
    ensures (lead + (v + rest)) + z == lead + (v + (rest + z))
  {
  }

  /** What is spelled so annotates. */
  lemma {:induction false} SpelledAnnotates(bytes: Source, a: Source, lead: Source, v: Source, tail: Source)
    requires SpellsVersion(bytes, a, lead, v, tail)
    ensures Annotates(bytes)
  {
    hide IsVersion, Annotates;
    if lead == [] {
      EverySpellingAnnotates(v, a, [], [], tail);
      assert [] + (v + tail) == v + tail;
    } else if b :| IsBlank(b) && b != [] && lead == PinLead(b) {
      EverySpellingAnnotates(v, a, b, [], tail);
    } else {
      var b, c :| IsBlank(b) && IsBlank(c) && lead == TagLead(b, c);
      EverySpellingAnnotates(v, a, b, c, tail);
    }
  }

  /** A text annotates a pin if and only if, trimmed, it is a reference name, or it spells a version. */
  lemma {:induction false} AnnotatesJustVersions(bytes: Source)
    ensures Annotates(bytes)
       <==> IsRefName(Trim(bytes)) || exists a, lead, v, tail :: SpellsVersion(bytes, a, lead, v, tail)
  {
    hide SpellsVersion, IsRefName, Trim, IsVersion;
    if Annotates(bytes) {
      if !IsRefName(Trim(bytes)) { var a, lead, v, tail := HoldsVersion(bytes); }
    } else if a, lead, v, tail :| SpellsVersion(bytes, a, lead, v, tail) {
      SpelledAnnotates(bytes, a, lead, v, tail);
    }
  }
}
