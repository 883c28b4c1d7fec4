/** Expansion of partial status conditions into complete status values. */
module StatusEncoder {
  import opened Wrappers
  import opened Bits

  datatype StatusBit = StatusBit(name: string, bit: nat)

  /** Status bit definitions the encoder accepts: every position lies in a byte. */
  type StatusBits = bits: seq<StatusBit> | forall i | 0 <= i < |bits| :: bits[i].bit < 8

  type Conditions = map<string, bool>

  /** No name and no bit position is defined twice. */
  ghost predicate Distinct(bits: StatusBits) {
    forall i, j | 0 <= i < j < |bits| :: bits[i].name != bits[j].name && bits[i].bit != bits[j].bit
  }

  predicate HasName(bits: StatusBits, name: string) {
    exists i | 0 <= i < |bits| :: bits[i].name == name
  }

  /** A complete status agrees with the condition on every named bit. */
  ghost predicate Agrees(bits: StatusBits, partial: Conditions, status: nat) {
    forall i | 0 <= i < |bits| && bits[i].name in partial :: Bit(status, bits[i].bit) == partial[bits[i].name]
  }

  ghost predicate AtDefinedBit(bits: StatusBits, p: nat) {
    exists i | 0 <= i < |bits| :: bits[i].bit == p
  }

  /** A complete status has no bit outside the defined positions. */
  ghost predicate Confined(bits: StatusBits, status: nat) {
    forall p: nat | Bit(status, p) :: AtDefinedBit(bits, p)
  }

  ghost predicate Matches(bits: StatusBits, partial: Conditions, status: nat) {
    Agrees(bits, partial, status) && Confined(bits, status)
  }

  predicate AllNamed(bits: StatusBits, partial: Conditions) {
    forall name | name in partial :: HasName(bits, name)
  }

  // ---------------------------------------------------------------- the computation

  function Base(bits: StatusBits, partial: Conditions): nat {
    if bits == [] then 0
    else
      var n := |bits| - 1;
      var rest := Base(bits[..n], partial);
      if bits[n].name in partial && partial[bits[n].name] then Or(rest, Pow2(bits[n].bit)) else rest
  }

  function Unspecified(bits: StatusBits, partial: Conditions): (r: seq<nat>)
    ensures forall k | 0 <= k < |r| :: r[k] < 8
  {
    if bits == [] then []
    else
      var n := |bits| - 1;
      var rest := Unspecified(bits[..n], partial);
      if bits[n].name in partial then rest else rest + [bits[n].bit]
  }

  /** `base` with the bits `free[k]` added for every `k` whose bit is set in `mask`. */
  function Filled(base: nat, free: seq<nat>, mask: nat): nat {
    if free == [] then base
    else
      var n := |free| - 1;
      var rest := Filled(base, free[..n], mask);
      if Bit(mask, n) then Or(rest, Pow2(free[n])) else rest
  }

  function Expanded(bits: StatusBits, partial: Conditions): (r: seq<nat>)
    ensures |r| == Pow2(|Unspecified(bits, partial)|)
  {
    var free := Unspecified(bits, partial);
    seq(Pow2(|free|), mask requires 0 <= mask => Filled(Base(bits, partial), free, mask))
  }

  /** The names are known, or nothing is configured and nothing is asked. */
  method ExpandPartial(bits: StatusBits, partial: Conditions) returns (r: Option<seq<nat>>)
    ensures r == if AllNamed(bits, partial) then Some(Expanded(bits, partial)) else None
  {
    if bits == [] {
      if partial != map[] {
        assert partial.Keys != {};
        var name :| name in partial;
        assert !HasName(bits, name);
        return None;
      }
      assert Expanded(bits, partial) == [0] by {
        assert Pow2(0) == 1;
      }
      return Some([0]);
    }
    var base := 0;
    var free: seq<nat> := [];
    for i := 0 to |bits|
      invariant base == Base(bits[..i], partial)
      invariant free == Unspecified(bits[..i], partial)
    {
      assert bits[..i + 1][..i] == bits[..i];
      if bits[i].name !in partial {
        free := free + [bits[i].bit];
      } else if partial[bits[i].name] {
        base := Or(base, Pow2(bits[i].bit));
      }
    }
    assert bits[..|bits|] == bits;
    if !AllNamed(bits, partial) {
      return None;
    }
    var permutations := Pow2(|free|);
    var expanded: seq<nat> := [];
    for mask := 0 to permutations
      invariant |expanded| == mask
      invariant forall m | 0 <= m < mask :: expanded[m] == Filled(base, free, m)
    {
      var value := base;
      for i := 0 to |free|
        invariant value == Filled(base, free[..i], mask)
      {
        assert free[..i + 1][..i] == free[..i];
        if Bit(mask, i) {
          value := Or(value, Pow2(free[i]));
        }
      }
      assert free[..|free|] == free;
      expanded := expanded + [value];
    }
    assert expanded == Expanded(bits, partial);
    return Some(expanded);
  }

  // ---------------------------------------------------------------- bits of the result

  ghost predicate SetByCondition(bits: StatusBits, partial: Conditions, p: nat) {
    exists i | 0 <= i < |bits| :: bits[i].bit == p && bits[i].name in partial && partial[bits[i].name]
  }

  lemma {:induction false} BitOfBase(bits: StatusBits, partial: Conditions, p: nat)
    ensures Bit(Base(bits, partial), p) <==> SetByCondition(bits, partial, p)
  {
    if bits == [] {
      ZeroHasNoBits(p);
    } else {
      var n := |bits| - 1;
      var before: StatusBits := bits[..n];
      BitOfBase(before, partial, p);
      if SetByCondition(before, partial, p) {
        var i :| 0 <= i < |before| && before[i].bit == p && before[i].name in partial && partial[before[i].name];
        assert bits[i] == before[i];
      }
      if bits[n].name in partial && partial[bits[n].name] {
        BitOfOr(Base(before, partial), Pow2(bits[n].bit), p);
        BitOfPow2(bits[n].bit, p);
      }
    }
  }

  ghost predicate SetByMask(free: seq<nat>, mask: nat, p: nat) {
    exists k: nat | k < |free| :: free[k] == p && Bit(mask, k)
  }

  lemma {:induction false} BitOfFilled(base: nat, free: seq<nat>, mask: nat, p: nat)
    ensures Bit(Filled(base, free, mask), p) <==> Bit(base, p) || SetByMask(free, mask, p)
  {
    if free != [] {
      var n := |free| - 1;
      var before := free[..n];
      BitOfFilled(base, before, mask, p);
      if SetByMask(before, mask, p) {
        var k: nat :| k < |before| && before[k] == p && Bit(mask, k);
        assert free[k] == before[k];
      }
      if Bit(mask, n) {
        BitOfOr(Filled(base, before, mask), Pow2(free[n]), p);
        BitOfPow2(free[n], p);
      }
    }
  }

  ghost predicate FreeAt(bits: StatusBits, partial: Conditions, i: nat, p: nat) {
    i < |bits| && bits[i].bit == p && bits[i].name !in partial
  }

  /** The free positions are exactly those of the unnamed bits, each once. */
  lemma {:induction false} UnspecifiedPositions(bits: StatusBits, partial: Conditions)
    requires Distinct(bits)
    ensures forall p: nat :: p in Unspecified(bits, partial) <==> exists i: nat :: FreeAt(bits, partial, i, p)
    ensures forall j, k | 0 <= j < k < |Unspecified(bits, partial)| ::
              Unspecified(bits, partial)[j] != Unspecified(bits, partial)[k]
  {
    if bits != [] {
      var n := |bits| - 1;
      var before: StatusBits := bits[..n];
      UnspecifiedPositions(before, partial);
      var free := Unspecified(before, partial);
      forall p: nat ensures p in Unspecified(bits, partial) <==> exists i: nat :: FreeAt(bits, partial, i, p) {
        if p in free {
          var i: nat :| FreeAt(before, partial, i, p);
          assert FreeAt(bits, partial, i, p);
        }
        if bits[n].name !in partial && bits[n].bit == p {
          assert FreeAt(bits, partial, n, p);
        }
        if i: nat :| FreeAt(bits, partial, i, p) {
          if i < n { assert FreeAt(before, partial, i, p); }
        }
      }
      if bits[n].name !in partial {
        assert bits[n].bit !in free;
      }
    }
  }

  /** The mask whose bit `k` is the bit of `status` at position `free[k]`. */
  function Gathered(free: seq<nat>, status: nat): nat {
    if free == [] then 0
    else
      var n := |free| - 1;
      var rest := Gathered(free[..n], status);
      if Bit(status, free[n]) then Or(rest, Pow2(n)) else rest
  }

  lemma {:induction false} BitOfGathered(free: seq<nat>, status: nat, k: nat)
    ensures Bit(Gathered(free, status), k) <==> k < |free| && Bit(status, free[k])
  {
    if free == [] {
      ZeroHasNoBits(k);
    } else {
      var n := |free| - 1;
      BitOfGathered(free[..n], status, k);
      if Bit(status, free[n]) {
        BitOfOr(Gathered(free[..n], status), Pow2(n), k);
        BitOfPow2(n, k);
      }
    }
  }

  lemma GatheredFits(free: seq<nat>, status: nat)
    ensures Gathered(free, status) < Pow2(|free|)
  {
    forall k: nat | |free| <= k ensures !Bit(Gathered(free, status), k) {
      BitOfGathered(free, status, k);
    }
    FitsWhenHighBitsClear(Gathered(free, status), |free|);
  }

  // ---------------------------------------------------------------- exactness

  /** Bits of the status for one mask: named bits follow the condition, free bits follow the mask. */
  lemma BitOfExpanded(bits: StatusBits, partial: Conditions, mask: nat, p: nat)
    requires mask < |Expanded(bits, partial)|
    ensures Bit(Expanded(bits, partial)[mask], p) <==>
            SetByCondition(bits, partial, p) || SetByMask(Unspecified(bits, partial), mask, p)
  {
    BitOfBase(bits, partial, p);
    BitOfFilled(Base(bits, partial), Unspecified(bits, partial), mask, p);
  }

  lemma ExpandedMatches(bits: StatusBits, partial: Conditions, mask: nat)
    requires Distinct(bits) && mask < |Expanded(bits, partial)|
    ensures Matches(bits, partial, Expanded(bits, partial)[mask])
  {
    var status := Expanded(bits, partial)[mask];
    var free := Unspecified(bits, partial);
    UnspecifiedPositions(bits, partial);
    forall i | 0 <= i < |bits| && bits[i].name in partial
      ensures Bit(status, bits[i].bit) == partial[bits[i].name]
    {
      var p := bits[i].bit;
      BitOfExpanded(bits, partial, mask, p);
      if SetByMask(free, mask, p) {
        assert p in free;
        var j: nat :| FreeAt(bits, partial, j, p);
        assert false;
      }
      if SetByCondition(bits, partial, p) {
        var j :| 0 <= j < |bits| && bits[j].bit == p && bits[j].name in partial && partial[bits[j].name];
        assert i == j;
      }
    }
    forall p: nat | Bit(status, p) ensures AtDefinedBit(bits, p) {
      BitOfExpanded(bits, partial, mask, p);
      if SetByMask(free, mask, p) {
        assert p in free;
        var j: nat :| FreeAt(bits, partial, j, p);
        assert bits[j].bit == p;
      }
    }
  }

  lemma MatchingIsExpanded(bits: StatusBits, partial: Conditions, status: nat)
    requires Distinct(bits) && Matches(bits, partial, status)
    ensures status in Expanded(bits, partial)
  {
    var free := Unspecified(bits, partial);
    var mask := Gathered(free, status);
    GatheredFits(free, status);
    UnspecifiedPositions(bits, partial);
    var made := Expanded(bits, partial)[mask];
    forall p: nat ensures Bit(made, p) == Bit(status, p) {
      BitOfExpanded(bits, partial, mask, p);
      if SetByCondition(bits, partial, p) {
        var i :| 0 <= i < |bits| && bits[i].bit == p && bits[i].name in partial && partial[bits[i].name];
        assert Bit(status, bits[i].bit);
      }
      if SetByMask(free, mask, p) {
        var k: nat :| k < |free| && free[k] == p && Bit(mask, k);
        BitOfGathered(free, status, k);
      }
      if Bit(status, p) {
        assert AtDefinedBit(bits, p);
        var i: nat :| i < |bits| && bits[i].bit == p;
        if bits[i].name !in partial {
          assert FreeAt(bits, partial, i, p);
          assert p in free;
          var k: nat :| k < |free| && free[k] == p;
          BitOfGathered(free, status, k);
          assert Bit(mask, k);
        }
      }
    }
    SameBits(made, status);
  }

  lemma ExpandedOnce(bits: StatusBits, partial: Conditions, m1: nat, m2: nat)
    requires Distinct(bits) && m1 < |Expanded(bits, partial)| && m2 < |Expanded(bits, partial)| && m1 != m2
    ensures Expanded(bits, partial)[m1] != Expanded(bits, partial)[m2]
  {
    var free := Unspecified(bits, partial);
    UnspecifiedPositions(bits, partial);
    if Expanded(bits, partial)[m1] == Expanded(bits, partial)[m2] {
      forall k: nat | k < |free| ensures Bit(m1, k) == Bit(m2, k) {
        var p := free[k];
        assert p in free;
        var i: nat :| FreeAt(bits, partial, i, p);
        assert !SetByCondition(bits, partial, p);
        BitOfExpanded(bits, partial, m1, p);
        BitOfExpanded(bits, partial, m2, p);
      }
      SameLowBits(m1, m2, |free|);
    }
  }

  function NamedCount(bits: StatusBits, partial: Conditions): (n: nat)
    ensures n <= |bits|
  {
    if bits == [] then 0
    else NamedCount(bits[..|bits| - 1], partial) + if bits[|bits| - 1].name in partial then 1 else 0
  }

  lemma {:induction false} FreeCount(bits: StatusBits, partial: Conditions)
    ensures |Unspecified(bits, partial)| == |bits| - NamedCount(bits, partial)
  {
    if bits != [] { FreeCount(bits[..|bits| - 1], partial); }
  }

  /** The expansion of a condition lists, each exactly once, the statuses that agree with it on every
      named bit and are zero outside the defined bits; there are 2^(unnamed bits) of them. */
  lemma ExpansionExact(bits: StatusBits, partial: Conditions)
    requires Distinct(bits)
    ensures forall status: nat :: status in Expanded(bits, partial) <==> Matches(bits, partial, status)
    ensures forall m1, m2 | 0 <= m1 < m2 < |Expanded(bits, partial)| ::
              Expanded(bits, partial)[m1] != Expanded(bits, partial)[m2]
    ensures |Expanded(bits, partial)| == Pow2(|bits| - NamedCount(bits, partial))
  {
    forall status: nat ensures status in Expanded(bits, partial) <==> Matches(bits, partial, status) {
      if status in Expanded(bits, partial) {
        var mask: nat :| mask < |Expanded(bits, partial)| && Expanded(bits, partial)[mask] == status;
        ExpandedMatches(bits, partial, mask);
      }
      if Matches(bits, partial, status) {
        MatchingIsExpanded(bits, partial, status);
      }
    }
    forall m1, m2 | 0 <= m1 < m2 < |Expanded(bits, partial)|
      ensures Expanded(bits, partial)[m1] != Expanded(bits, partial)[m2]
    {
      ExpandedOnce(bits, partial, m1, m2);
    }
    FreeCount(bits, partial);
  }

  /** Every expanded status fits in a byte. */
  lemma ExpandedFits(bits: StatusBits, partial: Conditions, mask: nat)
    requires mask < |Expanded(bits, partial)|
    ensures Expanded(bits, partial)[mask] < 0x100
  {
    var status := Expanded(bits, partial)[mask];
    forall p: nat | 8 <= p ensures !Bit(status, p) {
      BitOfExpanded(bits, partial, mask, p);
      assert !SetByMask(Unspecified(bits, partial), mask, p);
    }
    FitsWhenHighBitsClear(status, 8);
    Pow2Of8();
  }
}
