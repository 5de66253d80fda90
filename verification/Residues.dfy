/**
 * A text made by edits, read byte by byte: what each byte of the source leaves, where it lands, and how it is
 * seen there.
 */
module Residues {
  import opened Bytes
  import opened Edits
  import opened LineNumbers
  import opened Outlines

  // ---- what is left, one byte behind the other ----

  /** What the bytes `a..z` leave, `left[i]` being what byte `i` leaves. */
  function RestIn(left: seq<Source>, a: nat, z: nat): Source
    requires a <= z <= |left|
    decreases z - a
  {
    if a == z then [] else RestIn(left, a, z - 1) + left[z - 1]
  }

  lemma {:induction false} RestInTwo(left: seq<Source>, a: nat, m: nat, z: nat)
    requires a <= m <= z <= |left|
    ensures RestIn(left, a, z) == RestIn(left, a, m) + RestIn(left, m, z)
    decreases z - m
  {
    if m < z {
      RestInTwo(left, a, m, z - 1);
      assert (RestIn(left, a, m) + RestIn(left, m, z - 1)) + left[z - 1]
          == RestIn(left, a, m) + (RestIn(left, m, z - 1) + left[z - 1]);
    } else {
      assert RestIn(left, a, m) + [] == RestIn(left, a, m);
    }
  }

  /** None of the bytes `a..z` leaves anything. */
  ghost predicate Gone(left: seq<Source>, a: nat, z: nat) {
    z <= |left| && forall i | a <= i < z :: left[i] == []
  }

  lemma {:induction false} GoneLeavesNothing(left: seq<Source>, a: nat, z: nat)
    requires a <= z <= |left| && Gone(left, a, z)
    ensures RestIn(left, a, z) == []
    decreases z - a
  {
    if a < z { GoneLeavesNothing(left, a, z - 1); }
  }

  /** Each of the bytes `a..z` leaves itself. */
  ghost predicate Remains(source: Source, left: seq<Source>, a: nat, z: nat) {
    z <= |left| && z <= |source| && forall i | a <= i < z :: left[i] == [source[i]]
  }

  lemma {:induction false} RemainsIsText(source: Source, left: seq<Source>, a: nat, z: nat)
    requires a <= z && Remains(source, left, a, z)
    ensures RestIn(left, a, z) == source[a..z]
    decreases z - a
  {
    if a < z {
      RemainsIsText(source, left, a, z - 1);
      assert source[a..z - 1] + [source[z - 1]] == source[a..z];
    }
  }

  /** Where the first byte leaves everything. */
  lemma {:induction false} FirstLeavesAll(left: seq<Source>, a: nat, z: nat)
    requires a < z <= |left| && Gone(left, a + 1, z)
    ensures RestIn(left, a, z) == left[a]
  {
    hide RestIn;
    RestInTwo(left, a, a + 1, z);
    GoneLeavesNothing(left, a + 1, z);
    OneLeaves(left, a);
    assert left[a] + [] == left[a];
  }

  lemma {:induction false} OneLeaves(left: seq<Source>, a: nat)
    requires a < |left|
    ensures RestIn(left, a, a + 1) == left[a]
  {
    assert RestIn(left, a, a) == [];
    assert [] + left[a] == left[a];
  }

  /** `left` says byte by byte what the edits leave of the bytes from `cursor` on. */
  ghost predicate LeavesFrom(source: Source, edits: seq<Edit>, cursor: nat, left: seq<Source>) {
    && |left| == |source|
    && (forall e <- edits ::
          && e.span.start <= e.span.end <= |source|
          && e.replacement == RestIn(left, e.span.start, e.span.end))
    && forall i: nat | cursor <= i < |source| && Survives(edits, i) :: left[i] == [source[i]]
  }

  ghost predicate Leaves(source: Source, edits: seq<Edit>, left: seq<Source>) {
    LeavesFrom(source, edits, 0, left)
  }

  lemma {:induction false} LeavesRest(source: Source, edits: seq<Edit>, cursor: nat, left: seq<Source>)
    requires edits != [] && Ordered(edits, cursor, |source|) && LeavesFrom(source, edits, cursor, left)
    ensures LeavesFrom(source, edits[1..], edits[0].span.end, left)
    ensures edits[0].replacement == RestIn(left, edits[0].span.start, edits[0].span.end)
    ensures Remains(source, left, cursor, edits[0].span.start)
  {
    assert edits[0] in edits && forall e <- edits[1..] :: e in edits;
    OrderedBounds(edits, cursor, |source|);
    forall i: nat | edits[0].span.end <= i < |source| && Survives(edits[1..], i)
      ensures left[i] == [source[i]]
    {
      SurvivesHead(edits, i);
    }
    forall i | cursor <= i < edits[0].span.start
      ensures left[i] == [source[i]]
    {
      InFrontOfAll(edits, cursor, |source|, i);
    }
  }

  lemma {:induction false} SurvivesHead(edits: seq<Edit>, i: nat)
    requires edits != [] && Survives(edits[1..], i) && edits[0].span.end <= i
    ensures Survives(edits, i)
  {
    forall e | e in edits
      ensures i < e.span.start || e.span.end <= i
    {
      if e != edits[0] { assert e in edits[1..]; }
    }
  }

  lemma {:induction false} InFrontOfAll(edits: seq<Edit>, cursor: nat, n: nat, i: nat)
    requires edits != [] && Ordered(edits, cursor, n) && i < edits[0].span.start
    ensures Survives(edits, i)
  {
    OrderedBounds(edits, cursor, n);
    forall e | e in edits
      ensures i < e.span.start
    {
      var j :| 0 <= j < |edits| && edits[j] == e;
    }
  }

  lemma {:induction false} RestIsApplied(source: Source, edits: seq<Edit>, cursor: nat, left: seq<Source>)
    requires Ordered(edits, cursor, |source|) && LeavesFrom(source, edits, cursor, left)
    ensures ApplyFrom(source, edits, cursor) == RestIn(left, cursor, |source|)
    decreases |edits|
  {
    if edits == [] {
      RemainsIsText(source, left, cursor, |source|);
      assert source[cursor..] == source[cursor..|source|];
    } else {
      var s := edits[0].span;
      ApplyUnfold(source, edits, cursor);
      LeavesRest(source, edits, cursor, left);
      RemainsIsText(source, left, cursor, s.start);
      RestIsApplied(source, edits[1..], s.end, left);
      RestInTwo(left, cursor, s.start, |source|);
      RestInTwo(left, s.start, s.end, |source|);
    }
  }

  /** Where a byte that stays lands: behind what the bytes in front of it leave. */
  lemma {:induction false} LandsBehindRest(source: Source, edits: seq<Edit>, cursor: nat, left: seq<Source>, i: nat)
    requires Ordered(edits, cursor, |source|) && LeavesFrom(source, edits, cursor, left)
    requires cursor <= i < |source| && Survives(edits, i)
    ensures left[i] == [source[i]] && Landed(edits, i) == cursor + |RestIn(left, cursor, i)|
    decreases |edits|
  {
    if edits == [] || i < edits[0].span.start {
      if edits != [] { LeavesRest(source, edits, cursor, left); }
      RemainsIsText(source, left, cursor, i);
    } else {
      var s := edits[0].span;
      assert edits[0] in edits;
      LeavesRest(source, edits, cursor, left);
      assert forall e <- edits[1..] :: e in edits;
      RemainsIsText(source, left, cursor, s.start);
      LandsBehindRest(source, edits[1..], s.end, left, i);
      RestInTwo(left, cursor, s.start, i);
      RestInTwo(left, s.start, s.end, i);
    }
  }

  /** The text edits make is what the bytes leave. */
  lemma {:induction false} AppliedIsRest(source: Source, edits: seq<Edit>, left: seq<Source>)
    requires Ordered(edits, 0, |source|) && Leaves(source, edits, left)
    ensures Apply(source, edits) == RestIn(left, 0, |source|)
    ensures forall i: nat | i < |source| && Survives(edits, i) ::
              left[i] == [source[i]] && Landed(edits, i) == |RestIn(left, 0, i)|
  {
    RestIsApplied(source, edits, 0, left);
    forall i: nat | i < |source| && Survives(edits, i)
      ensures left[i] == [source[i]] && Landed(edits, i) == |RestIn(left, 0, i)|
    {
      LandsBehindRest(source, edits, 0, left, i);
    }
  }

  // ---- where a byte lands ----

  /** A byte leaves itself, nothing, or a space. */
  ghost predicate Bytewise(source: Source, left: seq<Source>) {
    |left| == |source|
    && forall i | 0 <= i < |left| :: left[i] == [] || left[i] == [source[i]] || left[i] == [SPACE]
  }

  function Place(left: seq<Source>, i: nat): nat
    requires i <= |left|
  {
    |RestIn(left, 0, i)|
  }

  lemma {:induction false} ByteLands(source: Source, left: seq<Source>, i: nat)
    requires Bytewise(source, left) && i < |left| && left[i] != []
    ensures Place(left, i) < |RestIn(left, 0, |left|)|
    ensures RestIn(left, 0, |left|)[Place(left, i)] == left[i][0] && Place(left, i + 1) == Place(left, i) + 1
  {
    RestInTwo(left, 0, i + 1, |left|);
    assert RestIn(left, 0, i + 1) == RestIn(left, 0, i) + left[i];
  }

  /** Whose byte it is that stands at `u` of what is left. */
  lemma {:induction false} ByteOf(source: Source, left: seq<Source>, n: nat, u: nat) returns (i: nat)
    requires Bytewise(source, left) && n <= |left| && u < Place(left, n)
    ensures i < n && left[i] != [] && Place(left, i) == u
    decreases n
  {
    if u < Place(left, n - 1) {
      i := ByteOf(source, left, n - 1, u);
    } else {
      i := n - 1;
    }
  }

  lemma {:induction false} PlacesRise(left: seq<Source>, i: nat, j: nat)
    requires i <= j <= |left|
    ensures Place(left, i) <= Place(left, j)
    ensures i < j && left[i] != [] ==> Place(left, i) < Place(left, j)
  {
    RestInTwo(left, 0, i, j);
    if i < j {
      RestInTwo(left, i, i + 1, j);
      assert RestIn(left, i, i + 1) == RestIn(left, i, i) + left[i] == left[i];
    }
  }

  /** Two bytes come to stand side by side just when nothing is left in between. */
  lemma {:induction false} SideBySide(source: Source, left: seq<Source>, i: nat, j: nat)
    requires Bytewise(source, left) && i < j < |left| && left[i] != []
    ensures Place(left, j) == Place(left, i) + 1 <==> Gone(left, i + 1, j)
  {
    ByteLands(source, left, i);
    RestInTwo(left, 0, i + 1, j);
    if Gone(left, i + 1, j) {
      GoneLeavesNothing(left, i + 1, j);
    } else {
      var m :| i + 1 <= m < j && left[m] != [];
      PlacesRise(left, i + 1, m);
      PlacesRise(left, m, j);
    }
  }

  /** Places tell which of two bytes stands first. */
  lemma {:induction false} PlacesTell(left: seq<Source>, i: nat, j: nat)
    requires i < |left| && j < |left| && left[i] != [] && left[j] != []
    ensures Place(left, i) < Place(left, j) <==> i < j
    ensures Place(left, i) == Place(left, j) <==> i == j
  {
    if i < j { PlacesRise(left, i, j); }
    if j < i { PlacesRise(left, j, i); }
  }

  // ---- how it is seen there ----

  /** The bytes `i`, `j` and `k` come to spell a separator together. */
  ghost predicate SpellsAt(left: seq<Source>, i: nat, j: nat, k: nat) {
    && i < j < k < |left|
    && left[i] == [0xE2] && left[j] == [0x80] && (left[k] == [0xA8] || left[k] == [0xA9])
    && Gone(left, i + 1, j) && Gone(left, j + 1, k)
  }

  /** No bytes that stood apart come to spell a LINE SEPARATOR or a PARAGRAPH SEPARATOR. */
  ghost predicate NothingForms(left: seq<Source>) {
    forall i: nat, j: nat, k: nat | SpellsAt(left, i, j, k) :: k == i + 2
  }

  /** A separator of the source stays as it is, or goes whole. */
  ghost predicate SeparatorsWhole(source: Source, left: seq<Source>) {
    forall i: nat | SeparatorAt(source, i) :: Remains(source, left, i, i + 3) || Gone(left, i, i + 3)
  }

  ghost predicate Legible(source: Source, left: seq<Source>) {
    Bytewise(source, left) && SeparatorsWhole(source, left) && NothingForms(left)
  }

  /** A separator of what is left is one of the source. */
  lemma {:induction false} SeparatorLeft(source: Source, left: seq<Source>, v: nat) returns (i: nat)
    requires Legible(source, left) && SeparatorAt(RestIn(left, 0, |left|), v)
    ensures SeparatorAt(source, i) && Remains(source, left, i, i + 3)
    ensures Place(left, i) == v && Place(left, i + 1) == v + 1 && Place(left, i + 2) == v + 2
  {
    hide RestIn, SeparatorsWhole;
    i := ByteOf(source, left, |left|, v);
    var j := ByteOf(source, left, |left|, v + 1);
    var k := ByteOf(source, left, |left|, v + 2);
    PlacesTell(left, i, j);
    PlacesTell(left, j, k);
    ByteLands(source, left, i);
    ByteLands(source, left, j);
    ByteLands(source, left, k);
    SideBySide(source, left, i, j);
    SideBySide(source, left, j, k);
    assert SpellsAt(left, i, j, k);
  }

  /** A separator of the source that stays is one of what is left. */
  lemma {:induction false} SeparatorStays(source: Source, left: seq<Source>, i: nat)
    requires Legible(source, left) && SeparatorAt(source, i) && Remains(source, left, i, i + 3)
    ensures SeparatorAt(RestIn(left, 0, |left|), Place(left, i))
    ensures Place(left, i + 1) == Place(left, i) + 1 && Place(left, i + 2) == Place(left, i) + 2
  {
    hide RestIn;
    ByteLands(source, left, i);
    ByteLands(source, left, i + 1);
    ByteLands(source, left, i + 2);
  }

  /** A byte that stays is part of a separator just when it was. */
  lemma {:induction false} SeparatorsKept(source: Source, left: seq<Source>, i: nat)
    requires Legible(source, left) && i < |left| && left[i] != []
    ensures InSeparator(RestIn(left, 0, |left|), Place(left, i)) <==> left[i] == [source[i]] && InSeparator(source, i)
  {
    hide RestIn;
    var out, u := RestIn(left, 0, |left|), Place(left, i);
    if v: nat :| SeparatorAt(out, v) && v <= u <= v + 2 {
      var m := SeparatorLeft(source, left, v);
      PlacesTell(left, i, m + (u - v));
      assert SeparatorAt(source, i - (u - v));
    } else if left[i] == [source[i]] && InSeparator(source, i) {
      var m: nat :| SeparatorAt(source, m) && m <= i <= m + 2;
      assert !Gone(left, m, m + 3);
      SeparatorStays(source, left, m);
    }
  }

  /** What is left of a byte is seen as the byte was, and a space as a space. */
  lemma {:induction false} SeenAsItWas(source: Source, left: seq<Source>, i: nat)
    requires Legible(source, left) && i < |left| && left[i] != []
    ensures Place(left, i) < |RestIn(left, 0, |left|)|
    ensures RestIn(left, 0, |left|)[Place(left, i)] == left[i][0]
    ensures SymAt(RestIn(left, 0, |left|), Place(left, i)) == if left[i] == [source[i]] then SymAt(source, i) else Blank
  {
    hide RestIn;
    ByteLands(source, left, i);
    SeparatorsKept(source, left, i);
  }
}
