/** The fixed-point linear interpolation of arm_math.h, on tables of q15 values. */
module Interpolation {
  import opened Arithmetic

  const ONE := 0x10_0000      // 1.0 in 12.20 format
  const FRACTION := 0xF_FFFF  // the weights of the two neighbours add up to this, not to 1.0

  predicate IsQ15(v: int) { -0x8000 <= v < 0x8000 }
  ghost predicate IsTable(t: seq<int>) { |t| > 0 && forall i :: 0 <= i < |t| ==> IsQ15(t[i]) }
  ghost predicate NonDecreasing(t: seq<int>) { forall i, j :: 0 <= i <= j < |t| ==> t[i] <= t[j] }

  function Weighted(y0: int, y1: int, fract: int): int { y0 * (FRACTION - fract) + y1 * fract }

  /** arm_linear_interp_q15; `x` is the bit pattern of the argument, whose index part is read
      unsigned.  The shift of the accumulator rounds down. */
  function Interp(t: seq<int>, x: nat): int
    requires |t| > 0 && x < 0x1_0000_0000
  {
    var index, fract := x / ONE, x % ONE;
    if index >= |t| - 1 then t[|t| - 1]
    else Weighted(t[index], t[index + 1], fract) / ONE
  }

  lemma WeightedBetween(y0: int, y1: int, f: int, lo: int, hi: int)
    requires lo <= y0 <= hi && lo <= y1 <= hi && 0 <= f <= FRACTION
    ensures lo * FRACTION <= Weighted(y0, y1, f) <= hi * FRACTION
  {
    MulMonotone(lo, y0, FRACTION - f);
    MulMonotone(y0, hi, FRACTION - f);
    MulMonotone(lo, y1, f);
    MulMonotone(y1, hi, f);
  }

  lemma WeightedMonotone(y0: int, y1: int, f: int, g: int)
    requires y0 <= y1 && 0 <= f <= g <= FRACTION
    ensures Weighted(y0, y1, f) <= Weighted(y0, y1, g)
  {
  }

  /** The result lies between the smaller neighbour minus one and the larger neighbour. */
  lemma StaysInSegment(t: seq<int>, x: nat, lo: int, hi: int)
    requires IsTable(t) && x < 0x1_0000_0000
    requires x / ONE < |t| - 1 ==> lo <= t[x / ONE] <= hi && lo <= t[x / ONE + 1] <= hi
    requires x / ONE >= |t| - 1 ==> lo <= t[|t| - 1] <= hi
    requires IsQ15(lo) && IsQ15(hi)
    ensures lo - 1 <= Interp(t, x) <= hi && IsQ15(Interp(t, x))
  {
    if x / ONE < |t| - 1 {
      WeightedBetween(t[x / ONE], t[x / ONE + 1], x % ONE, lo, hi);
    }
  }

  /** For a non-decreasing table the interpolation is non-decreasing over all inputs: within a
      segment, across the borders of segments and into the clamped end. */
  lemma InterpIsMonotone(t: seq<int>, x: nat, z: nat)
    requires IsTable(t) && NonDecreasing(t) && x <= z < 0x1_0000_0000
    ensures Interp(t, x) <= Interp(t, z)
  {
    var i, j, last := x / ONE, z / ONE, |t| - 1;
    if i < last {
      var upper := Weighted(t[i], t[i + 1], x % ONE);
      if j < last {
        var lower := Weighted(t[j], t[j + 1], z % ONE);
        if i == j {
          WeightedMonotone(t[i], t[i + 1], x % ONE, z % ONE);
        } else {
          WeightedBetween(t[i], t[i + 1], x % ONE, t[i], t[i + 1]);
          WeightedBetween(t[j], t[j + 1], z % ONE, t[j], t[j + 1]);
          assert t[i + 1] * FRACTION <= t[j] * FRACTION;
        }
        assert upper <= lower;
      } else {
        WeightedBetween(t[i], t[i + 1], x % ONE, t[i], t[last]);
        assert t[last] * FRACTION / ONE <= t[last];
      }
    }
  }

  /** The weights fall short of 1.0, so at a table point the value itself comes out exactly when it
      is not positive; a positive one comes out one too small. */
  lemma NodeIsExactIff(t: seq<int>, i: nat)
    requires IsTable(t) && i < |t| - 1 && i < 0x1000
    ensures Interp(t, i * ONE) == t[i] <==> t[i] <= 0
    ensures t[i] > 0 ==> Interp(t, i * ONE) == t[i] - 1
  {
    assert i * ONE / ONE == i && i * ONE % ONE == 0;
    assert Weighted(t[i], t[i + 1], 0) == t[i] * FRACTION;
  }

  /** At the last point of the table and beyond it the result is that point. */
  lemma EndIsExact(t: seq<int>, x: nat)
    requires IsTable(t) && (|t| - 1) * ONE <= x < 0x1_0000_0000
    ensures Interp(t, x) == t[|t| - 1]
  {
    DivAtLeast(x, |t| - 1, ONE);
  }

  /** Within the table the result is the exact interpolation, less 2^-20 of the left neighbour, rounded
      down: never more than one and a thirty-second away. */
  lemma NearlyExact(t: seq<int>, x: nat)
    requires IsTable(t) && x < 0x1_0000_0000 && x / ONE < |t| - 1
    ensures var f := x % ONE; var exact := t[x / ONE] * (ONE - f) + t[x / ONE + 1] * f;
      && Interp(t, x) * ONE <= exact - t[x / ONE] < Interp(t, x) * ONE + ONE
      && exact - ONE - 0x8000 < Interp(t, x) * ONE <= exact + 0x8000
  {
    var y0, y1, f := t[x / ONE], t[x / ONE + 1], x % ONE;
    assert y0 * (ONE - f) == y0 * (FRACTION - f) + y0;
    var w := Weighted(y0, y1, f);
    assert w == w / ONE * ONE + w % ONE;
  }
}
