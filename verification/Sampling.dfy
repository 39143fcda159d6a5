/** Rejection sampling of a 32-bit generator (base/oram_crypto.cc, `UniformRandom`). */
module Sampling {
  import opened OramDefs
  import opened Geometry

  const TWO32: nat := 0x1_0000_0000

  /** `max - min + 1` in 32-bit arithmetic: 0 for the full range. */
  function Range(min: nat, max: nat): nat
    requires min <= max < TWO32
  {
    (max - min + 1) % TWO32
  }

  /** How often the range fits below 2^32 - 1. */
  function Quota(range: nat): (q: nat)
    requires 0 < range < TWO32
  {
    DivBounds(TWO32 - 1, range);
    (TWO32 - 1) / range
  }

  /** The quota is as large as it can be: one more round of the range would exceed 2^32 - 1. */
  lemma QuotaBounds(range: nat)
    requires 0 < range < TWO32
    ensures Quota(range) >= 1
    ensures TWO32 / 2 <= Quota(range) * range <= TWO32 - 1 < (Quota(range) + 1) * range
  {
    var q := Quota(range);
    DivBounds(TWO32 - 1, range);
    assert (q + 1) * range == q * range + range;
    if q < 1 { MulMonotone(q, 0, range); }
    if range <= TWO32 / 2 {
      assert q * range > TWO32 - 1 - range;
    } else {
      MulMonotone(1, q, range);
    }
  }

  predicate Accepted(range: nat, raw: nat)
    requires 0 < range < TWO32
  {
    raw <= Quota(range) * range - 1
  }

  function Output(min: nat, range: nat, raw: nat): nat
    requires 0 < range < TWO32
  {
    (raw % range + min) % TWO32
  }

  /** The raw values that are accepted and yield `out`. */
  ghost function Preimage(min: nat, max: nat, out: nat): set<nat>
    requires min <= max < TWO32 && Range(min, max) != 0
  {
    set raw: nat | raw < TWO32 && Accepted(Range(min, max), raw) && Output(min, Range(min, max), raw) == out
  }

  ghost function AcceptedValues(range: nat): set<nat>
    requires 0 < range < TWO32
  {
    set raw: nat | raw < TWO32 && Accepted(range, raw)
  }

  /** `raws` are the successive values of the generator; the loop ends at the first accepted one. */
  method UniformRandom(min: nat, max: nat, raws: seq<nat>) returns (status: StatusCode, out: nat, used: nat)
    requires min < TWO32 && max < TWO32
    requires min <= max ==> Range(min, max) != 0 && exists k :: 0 <= k < |raws| && Accepted(Range(min, max), raws[k])
    ensures status == if min > max then InvalidArgument else OK
    ensures min <= max ==>
      && 0 < used <= |raws| && Accepted(Range(min, max), raws[used - 1])
      && (forall k :: 0 <= k < used - 1 ==> !Accepted(Range(min, max), raws[k]))
      && out == min + raws[used - 1] % Range(min, max) && min <= out <= max
  {
    if min > max {
      return InvalidArgument, 0, 0;
    }
    var range := Range(min, max);
    var maxAcceptable := Quota(range) * range - 1;
    var value := raws[0];
    used := 1;
    while value > maxAcceptable
      invariant 0 < used <= |raws| && value == raws[used - 1]
      invariant forall k :: 0 <= k < used - 1 ==> !Accepted(range, raws[k])
      decreases |raws| - used
    {
      value := raws[used];
      used := used + 1;
    }
    return OK, Output(min, range, value), used;
  }

  lemma ModUnique(v: nat, n: nat, range: nat, r: nat)
    requires range > 0 && r < range && n * range <= v < n * range + range
    ensures v % range == r <==> v == n * range + r
  {
    DivUnique(v, range, n);
    assert v == (v / range) * range + v % range;
  }

  ghost function Residues(n: nat, range: nat, r: nat): set<nat>
    requires range > 0
  {
    set v: nat | v < Times(n, range) && v % range == r
  }

  lemma {:induction false} ResidueCount(n: nat, range: nat, r: nat)
    requires range > 0 && r < range
    ensures |Residues(n, range, r)| == n
  {
    if n == 0 {
      TimesStep(0, range);
      assert Residues(0, range, r) == {};
    } else {
      ResidueCount(n - 1, range, r);
      TimesStep(n - 1, range);
      var top := Times(n - 1, range) + r;
      forall v: nat | Times(n - 1, range) <= v < Times(n, range)
        ensures v % range == r <==> v == top
      {
        ModUnique(v, n - 1, range, r);
      }
      assert Residues(n, range, r) == Residues(n - 1, range, r) + {top};
    }
  }

  /**
   Exactly uniform: every output in range has the same number q of accepted raw values, and q is floor((2^32-1)/range),
   the largest number of rounds of the range that fit below 2^32.
   */
  lemma SamplingIsUniform(min: nat, max: nat, out: nat)
    requires min <= max < TWO32 && Range(min, max) != 0
    ensures |Preimage(min, max, out)| == if min <= out <= max then Quota(Range(min, max)) else 0
    ensures min <= out <= max ==>
      var q, range := |Preimage(min, max, out)|, max - min + 1;
      q * range <= 0xFFFF_FFFF < (q + 1) * range
  {
    var range := Range(min, max);
    QuotaBounds(range);
    forall raw: nat
      ensures Output(min, range, raw) == min + raw % range
    {
    }
    if min <= out <= max {
      ResidueCount(Quota(range), range, out - min);
      assert Preimage(min, max, out) == Residues(Quota(range), range, out - min);
    } else {
      assert Preimage(min, max, out) == {};
    }
  }

  /** At least half of all raw values are accepted, and at least one but no more than `range` are ever rejected. */
  lemma AcceptanceAtLeastHalf(range: nat)
    requires 0 < range < TWO32
    ensures |AcceptedValues(range)| == Quota(range) * range
    ensures |AcceptedValues(range)| >= TWO32 / 2
    ensures 1 <= TWO32 - |AcceptedValues(range)| <= range
  {
    QuotaBounds(range);
    NaturalsCount(Quota(range) * range);
    assert AcceptedValues(range) == Naturals(Quota(range) * range);
  }

  /** The computed range vanishes, and the division by it fails, exactly for the full 32-bit range. */
  lemma RangeVanishes(min: nat, max: nat)
    requires min <= max < TWO32
    ensures Range(min, max) == 0 <==> min == 0 && max == TWO32 - 1
    ensures Range(min, max) != 0 ==> Range(min, max) == max - min + 1
  {
  }

  /** No value of the range is impossible. */
  lemma EveryValuePossible(min: nat, max: nat, out: nat) returns (raw: nat)
    requires min <= out <= max < TWO32 && Range(min, max) != 0
    ensures raw < TWO32 && Accepted(Range(min, max), raw) && Output(min, Range(min, max), raw) == out
  {
    SamplingIsUniform(min, max, out);
    QuotaBounds(Range(min, max));
    assert Preimage(min, max, out) != {};
    raw :| raw in Preimage(min, max, out);
  }
}
