/** The status validator: variants of one instruction partition the complete statuses. */
module StatusValidator {
  import opened Wrappers
  import opened Bits
  import opened Ir
  import opened StatusEncoder

  /** All expanded statuses of all variants, in order. */
  function AllExpanded(bits: StatusBits, variants: seq<Variant>): seq<nat> {
    if variants == [] then []
    else AllExpanded(bits, variants[..|variants| - 1]) + Expanded(bits, variants[|variants| - 1].conditions)
  }

  ghost predicate NoDuplicates<T>(s: seq<T>) {
    forall i, j | 0 <= i < j < |s| :: s[i] != s[j]
  }

  predicate Unconditional(variants: seq<Variant>) {
    |variants| == 1 && variants[0].conditions == map[]
  }

  /** At most one bit, and a configured one. */
  predicate SingleKnown(bits: StatusBits, conditions: Conditions) {
    |conditions| <= 1 && AllNamed(bits, conditions)
  }

  /** What the validator checks: trivially fine, or single known bits whose expansions never repeat a
      status and number 2^(status bits). */
  ghost predicate StatusOk(bits: StatusBits, variants: seq<Variant>) {
    || Unconditional(variants)
    || variants == []
    || (&& (forall j | 0 <= j < |variants| :: SingleKnown(bits, variants[j].conditions))
        && NoDuplicates(AllExpanded(bits, variants))
        && |AllExpanded(bits, variants)| == Pow2(|bits|))
  }

  ghost function Elements<T>(s: seq<T>): set<T> {
    set x | x in s
  }

  lemma {:induction false} SizeOfDistinct<T>(s: seq<T>)
    requires NoDuplicates(s)
    ensures |Elements(s)| == |s|
  {
    if s != [] {
      var n := |s| - 1;
      SizeOfDistinct(s[..n]);
      assert Elements(s) == Elements(s[..n]) + {s[n]};
      assert s[n] !in s[..n];
    }
  }

  lemma {:induction false} AllExpandedExtends(bits: StatusBits, variants: seq<Variant>, j: nat)
    requires j <= |variants|
    ensures AllExpanded(bits, variants[..j]) <= AllExpanded(bits, variants)
    decreases |variants|
  {
    if j == |variants| {
      assert variants[..j] == variants;
    } else {
      var before := variants[..|variants| - 1];
      AllExpandedExtends(bits, before, j);
      assert before[..j] == variants[..j];
    }
  }

  lemma AllExpandedStep(bits: StatusBits, variants: seq<Variant>, j: nat)
    requires j < |variants|
    ensures AllExpanded(bits, variants[..j + 1]) ==
            AllExpanded(bits, variants[..j]) + Expanded(bits, variants[j].conditions)
    ensures AllExpanded(bits, variants[..j + 1]) <= AllExpanded(bits, variants)
  {
    assert variants[..j + 1][..j] == variants[..j];
    AllExpandedExtends(bits, variants, j + 1);
  }

  method ValidateStatus(bits: StatusBits, variants: seq<Variant>) returns (ok: bool)
    ensures ok <==> StatusOk(bits, variants)
  {
    var total := Pow2(|bits|);
    if |variants| == 1 && variants[0].conditions == map[] {
      return true;
    }
    if variants == [] {
      return true;
    }
    var covered: set<nat> := {};
    for j := 0 to |variants|
      invariant CoveredBy(covered, AllExpanded(bits, variants[..j]))
      invariant forall k | 0 <= k < j :: SingleKnown(bits, variants[k].conditions)
    {
      var isNew: bool;
      isNew, covered := CoverVariant(bits, variants, j, covered);
      if !isNew {
        return false;
      }
    }
    assert variants[..|variants|] == variants;
    SizeOfDistinct(AllExpanded(bits, variants));
    ok := |covered| == total;
  }

  /** One round of the validator: check the variant's conditions and insert its statuses. */
  method CoverVariant(bits: StatusBits, variants: seq<Variant>, j: nat, before: set<nat>)
    returns (ok: bool, covered: set<nat>)
    requires j < |variants| && CoveredBy(before, AllExpanded(bits, variants[..j]))
    ensures ok ==> SingleKnown(bits, variants[j].conditions) && CoveredBy(covered, AllExpanded(bits, variants[..j + 1]))
    ensures !ok ==> !SingleKnown(bits, variants[j].conditions) || !NoDuplicates(AllExpanded(bits, variants))
  {
    covered := before;
    if |variants[j].conditions| > 1 {
      return false, covered;
    }
    var expansion := ExpandPartial(bits, variants[j].conditions);
    if expansion.None? {
      return false, covered;
    }
    AllExpandedStep(bits, variants, j);
    ok, covered := Cover(covered, expansion.value, AllExpanded(bits, variants[..j]));
    if !ok {
      PrefixDuplicates(AllExpanded(bits, variants[..j + 1]), AllExpanded(bits, variants));
    }
  }

  /** The statuses covered so far are those listed so far, and none was listed twice. */
  ghost predicate CoveredBy(covered: set<nat>, listed: seq<nat>) {
    covered == Elements(listed) && NoDuplicates(listed)
  }

  lemma PrefixDuplicates(listed: seq<nat>, all: seq<nat>)
    requires listed <= all && !NoDuplicates(listed)
    ensures !NoDuplicates(all)
  {
    var i, j :| 0 <= i < j < |listed| && listed[i] == listed[j];
    assert all[i] == all[j];
  }

  /** Insert one variant's statuses; stop at the first that is already covered. */
  method Cover(before: set<nat>, expanded: seq<nat>, ghost listed: seq<nat>) returns (ok: bool, covered: set<nat>)
    requires CoveredBy(before, listed)
    ensures ok <==> NoDuplicates(listed + expanded)
    ensures ok ==> CoveredBy(covered, listed + expanded)
  {
    covered := before;
    assert listed + expanded[..0] == listed;
    for i := 0 to |expanded|
      invariant CoveredBy(covered, listed + expanded[..i])
    {
      ghost var now := listed + expanded[..i];
      ghost var next := listed + expanded[..i + 1];
      assert next == now + [expanded[i]];
      if expanded[i] in covered {
        ghost var k :| 0 <= k < |now| && now[k] == expanded[i];
        assert (listed + expanded)[k] == (listed + expanded)[|now|];
        return false, covered;
      }
      covered := covered + {expanded[i]};
    }
    assert expanded[..|expanded|] == expanded;
    return true, covered;
  }

  // ---------------------------------------------------------------- the accepted shape

  predicate Pair(bits: StatusBits, variants: seq<Variant>, i: nat, value: bool) {
    && |variants| == 2 && i < |bits|
    && variants[0].conditions == map[bits[i].name := value]
    && variants[1].conditions == map[bits[i].name := !value]
  }

  /** The two variants are the two values of one and the same configured bit. */
  predicate Complementary(bits: StatusBits, variants: seq<Variant>) {
    exists i: nat, value: bool | i < |bits| :: Pair(bits, variants, i, value)
  }

  predicate AcceptedShape(bits: StatusBits, variants: seq<Variant>) {
    variants == [] || Unconditional(variants) || Complementary(bits, variants)
  }

  lemma {:induction false} NamedOnce(bits: StatusBits, name: string, value: bool)
    requires Distinct(bits)
    ensures NamedCount(bits, map[name := value]) == if HasName(bits, name) then 1 else 0
  {
    if bits != [] {
      var n := |bits| - 1;
      var before: StatusBits := bits[..n];
      NamedOnce(before, name, value);
      if HasName(before, name) {
        var i :| 0 <= i < |before| && before[i].name == name;
        assert bits[i].name == name;
      } else if HasName(bits, name) {
        var i :| 0 <= i < |bits| && bits[i].name == name;
        assert i == n;
      }
    }
  }

  lemma SingleEntry(conditions: Conditions) returns (name: string, value: bool)
    requires |conditions| == 1
    ensures conditions == map[name := value]
  {
    assert |conditions.Keys| == 1;
    name :| name in conditions.Keys;
    assert |conditions.Keys - {name}| == 0;
    value := conditions[name];
  }

  /** Some status satisfies any condition. */
  lemma SomeStatus(bits: StatusBits, partial: Conditions) returns (status: nat)
    requires Distinct(bits)
    ensures Matches(bits, partial, status)
  {
    status := Expanded(bits, partial)[0];
    ExpandedMatches(bits, partial, 0);
  }

  lemma ListedAt(bits: StatusBits, variants: seq<Variant>, j: nat, status: nat) returns (k: nat)
    requires Distinct(bits) && j < |variants| && Matches(bits, variants[j].conditions, status)
    ensures |AllExpanded(bits, variants[..j])| <= k < |AllExpanded(bits, variants[..j + 1])| <= |AllExpanded(bits, variants)|
    ensures AllExpanded(bits, variants)[k] == status
  {
    MatchingIsExpanded(bits, variants[j].conditions, status);
    var e := Expanded(bits, variants[j].conditions);
    var i: nat :| i < |e| && e[i] == status;
    AllExpandedStep(bits, variants, j);
    k := |AllExpanded(bits, variants[..j])| + i;
    assert AllExpanded(bits, variants[..j + 1])[k] == status;
  }

  /** A status that satisfies two variants is listed twice. */
  lemma SharedStatusRepeats(bits: StatusBits, variants: seq<Variant>, i: nat, j: nat, status: nat)
    requires Distinct(bits) && i < j < |variants|
    requires Matches(bits, variants[i].conditions, status) && Matches(bits, variants[j].conditions, status)
    ensures !NoDuplicates(AllExpanded(bits, variants))
  {
    var k := ListedAt(bits, variants, i, status);
    var l := ListedAt(bits, variants, j, status);
    assert variants[..j][..i + 1] == variants[..i + 1];
    AllExpandedExtends(bits, variants[..j], i + 1);
  }

  lemma {:induction false} HalfEach(bits: StatusBits, variants: seq<Variant>, half: nat)
    requires forall j | 0 <= j < |variants| :: |Expanded(bits, variants[j].conditions)| == half
    ensures |AllExpanded(bits, variants)| == |variants| * half
  {
    if variants != [] {
      var n := |variants| - 1;
      assert forall j | 0 <= j < n :: variants[..n][j] == variants[j];
      HalfEach(bits, variants[..n], half);
      assert |Expanded(bits, variants[n].conditions)| == half;
      OneMoreHalf(n, half);
    }
  }

  lemma OneMoreHalf(n: nat, half: nat)
    ensures (n + 1) * half == n * half + half
  {
  }

  lemma NoEmptyConditions(bits: StatusBits, variants: seq<Variant>, j: nat)
    requires Distinct(bits) && |variants| > 1 && j < |variants| && NoDuplicates(AllExpanded(bits, variants))
    ensures variants[j].conditions != map[]
  {
    if variants[j].conditions == map[] {
      var k: nat := if j == 0 then 1 else 0;
      var status := SomeStatus(bits, variants[k].conditions);
      SharedStatusRepeats(bits, variants, if j < k then j else k, if j < k then k else j, status);
    }
  }

  lemma SingleBitHalves(bits: StatusBits, conditions: Conditions)
    requires Distinct(bits) && bits != [] && |conditions| == 1 && AllNamed(bits, conditions)
    ensures |Expanded(bits, conditions)| == Pow2(|bits| - 1)
  {
    var name, value := SingleEntry(conditions);
    assert HasName(bits, name);
    NamedOnce(bits, name, value);
    FreeCount(bits, conditions);
  }

  /** Two single-bit conditions on different bits, or the same condition twice, share a status. */
  lemma OverlapUnlessComplementary(bits: StatusBits, a: string, x: bool, b: string, y: bool) returns (status: nat)
    requires Distinct(bits) && (a != b || x == y)
    ensures Matches(bits, map[a := x], status) && Matches(bits, map[b := y], status)
  {
    var both := map[a := x, b := y];
    status := SomeStatus(bits, both);
    assert a in both && both[a] == x && b in both && both[b] == y;
  }

  lemma TwoHalves(n: nat, half: nat)
    requires half > 0 && n * half == 2 * half
    ensures n == 2
  {
    assert (n - 2) * half == 0;
  }

  lemma AcceptedHasShape(bits: StatusBits, variants: seq<Variant>)
    requires Distinct(bits) && bits != [] && StatusOk(bits, variants)
    ensures AcceptedShape(bits, variants)
  {
    if variants == [] || Unconditional(variants) {
      return;
    }
    var half := Pow2(|bits| - 1);
    forall j: nat | j < |variants| ensures |variants[j].conditions| == 1 {
      if |variants| > 1 {
        NoEmptyConditions(bits, variants, j);
      }
      assert |variants[j].conditions.Keys| > 0;
    }
    forall j: nat | j < |variants| ensures |Expanded(bits, variants[j].conditions)| == half {
      SingleBitHalves(bits, variants[j].conditions);
    }
    HalfEach(bits, variants, half);
    TwoHalves(|variants|, half);
    var a, x := SingleEntry(variants[0].conditions);
    var b, y := SingleEntry(variants[1].conditions);
    if a != b || x == y {
      var status := OverlapUnlessComplementary(bits, a, x, b, y);
      SharedStatusRepeats(bits, variants, 0, 1, status);
    }
    assert HasName(bits, a);
    var i: nat :| i < |bits| && bits[i].name == a;
    assert Pair(bits, variants, i, x);
  }

  lemma OppositeValuesDisjoint(bits: StatusBits, i: nat, value: bool, s: nat, t: nat)
    requires i < |bits|
    requires Agrees(bits, map[bits[i].name := value], s) && Agrees(bits, map[bits[i].name := !value], t)
    ensures s != t
  {
    assert Bit(s, bits[i].bit) == value && Bit(t, bits[i].bit) == !value;
  }

  lemma DisjointLists(s: seq<nat>, t: seq<nat>)
    requires NoDuplicates(s) && NoDuplicates(t) && forall x, y | x in s && y in t :: x != y
    ensures NoDuplicates(s + t)
  {
    forall k, l | 0 <= k < l < |s + t| ensures (s + t)[k] != (s + t)[l] {
      if k < |s| <= l {
        assert (s + t)[k] in s && (s + t)[l] in t;
      }
    }
  }

  lemma OppositeExpansionsDisjoint(bits: StatusBits, i: nat, value: bool)
    requires Distinct(bits) && i < |bits|
    ensures NoDuplicates(Expanded(bits, map[bits[i].name := value]) + Expanded(bits, map[bits[i].name := !value]))
  {
    var c, d := map[bits[i].name := value], map[bits[i].name := !value];
    var first, second := Expanded(bits, c), Expanded(bits, d);
    assert NoDuplicates(first) by { ExpansionExact(bits, c); }
    assert NoDuplicates(second) by { ExpansionExact(bits, d); }
    forall x, y | x in first && y in second ensures x != y {
      var m: nat :| m < |first| && first[m] == x;
      var n: nat :| n < |second| && second[n] == y;
      ExpandedMatches(bits, c, m);
      ExpandedMatches(bits, d, n);
      OppositeValuesDisjoint(bits, i, value, x, y);
    }
    DisjointLists(first, second);
  }

  lemma KnownSingle(bits: StatusBits, i: nat, value: bool)
    requires Distinct(bits) && i < |bits|
    ensures SingleKnown(bits, map[bits[i].name := value])
    ensures |Expanded(bits, map[bits[i].name := value])| == Pow2(|bits| - 1)
  {
    var c := map[bits[i].name := value];
    assert |c.Keys| == 1;
    assert HasName(bits, bits[i].name);
    SingleBitHalves(bits, c);
  }

  lemma TwoExpansions(bits: StatusBits, a: Variant, b: Variant)
    ensures AllExpanded(bits, [a, b]) == Expanded(bits, a.conditions) + Expanded(bits, b.conditions)
  {
    assert [a, b][..1] == [a] && [a][..0] == [];
    assert AllExpanded(bits, [a]) == Expanded(bits, a.conditions);
  }

  lemma PairAccepted(bits: StatusBits, variants: seq<Variant>, i: nat, value: bool)
    requires Distinct(bits) && Pair(bits, variants, i, value)
    ensures StatusOk(bits, variants)
  {
    var a, b := variants[0], variants[1];
    assert variants == [a, b];
    TwoExpansions(bits, a, b);
    assert NoDuplicates(AllExpanded(bits, variants)) by {
      OppositeExpansionsDisjoint(bits, i, value);
    }
    assert SingleKnown(bits, a.conditions) && |Expanded(bits, a.conditions)| == Pow2(|bits| - 1) by {
      KnownSingle(bits, i, value);
    }
    assert SingleKnown(bits, b.conditions) && |Expanded(bits, b.conditions)| == Pow2(|bits| - 1) by {
      KnownSingle(bits, i, !value);
    }
  }

  /** With at least one status bit, the validator accepts exactly: no variants, one unconditional
      variant, or the two values of one bit. */
  lemma AcceptsExactlyTheShape(bits: StatusBits, variants: seq<Variant>)
    requires Distinct(bits) && bits != []
    ensures StatusOk(bits, variants) <==> AcceptedShape(bits, variants)
  {
    if StatusOk(bits, variants) { AcceptedHasShape(bits, variants); }
    if Complementary(bits, variants) {
      var i: nat, value: bool :| i < |bits| && Pair(bits, variants, i, value);
      PairAccepted(bits, variants, i, value);
    }
  }

  lemma PairCoversOnce(bits: StatusBits, variants: seq<Variant>, i: nat, value: bool, status: nat)
    requires Distinct(bits) && Pair(bits, variants, i, value)
    ensures Agrees(bits, variants[0].conditions, status) <==> Bit(status, bits[i].bit) == value
    ensures Agrees(bits, variants[1].conditions, status) <==> Bit(status, bits[i].bit) != value
  {
    forall j | 0 <= j < 2
      ensures Agrees(bits, variants[j].conditions, status) <==>
              (Bit(status, bits[i].bit) == variants[j].conditions[bits[i].name])
    {
      assert forall k | 0 <= k < |bits| && bits[k].name in variants[j].conditions :: k == i;
    }
  }

  lemma UnconditionalCovers(bits: StatusBits, status: nat)
    ensures Agrees(bits, map[], status)
  {
  }

  lemma ShapeCoversOnce(bits: StatusBits, variants: seq<Variant>, status: nat) returns (j: nat)
    requires Distinct(bits) && AcceptedShape(bits, variants) && variants != []
    ensures j < |variants| && Agrees(bits, variants[j].conditions, status)
    ensures forall k | 0 <= k < |variants| && Agrees(bits, variants[k].conditions, status) :: k == j
  {
    if |variants| == 1 {
      UnconditionalCovers(bits, status);
      j := 0;
    } else {
      var i: nat, value: bool :| i < |bits| && Pair(bits, variants, i, value);
      PairCoversOnce(bits, variants, i, value, status);
      j := if Bit(status, bits[i].bit) == value then 0 else 1;
    }
  }

  /** Acceptance by counting means every status selects exactly one variant. */
  lemma EveryStatusCoveredOnce(bits: StatusBits, variants: seq<Variant>, status: nat) returns (j: nat)
    requires Distinct(bits) && bits != [] && StatusOk(bits, variants) && variants != []
    ensures j < |variants| && Agrees(bits, variants[j].conditions, status)
    ensures forall k | 0 <= k < |variants| && Agrees(bits, variants[k].conditions, status) :: k == j
  {
    AcceptedHasShape(bits, variants);
    j := ShapeCoversOnce(bits, variants, status);
  }
}
