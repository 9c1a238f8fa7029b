/** Saturating arithmetic on packed lanes, as arm_math.h writes it out for cores without it. */
module Saturation {
  import opened Arithmetic

  /** The value nearest to `x` among the signed numbers of `bits` bits. */
  function Clamp(x: int, bits: nat): int
    requires bits >= 1
  {
    var m: int := Pow2(bits - 1);
    if x > m - 1 then m - 1 else if x < -m then -m else x
  }

  function Distance(a: int, b: int): nat { if a < b then b - a else a - b }

  predicate IsSigned(v: int, bits: nat)
    requires bits >= 1
  {
    var m: int := Pow2(bits - 1);
    -m <= v < m
  }

  /** No signed number of `bits` bits is nearer to `x` than `r`, which is one. */
  ghost predicate IsNearest(r: int, x: int, bits: nat)
    requires bits >= 1
  {
    IsSigned(r, bits) && forall z :: IsSigned(z, bits) ==> Distance(r, x) <= Distance(z, x)
  }

  lemma ClampIsNearest(x: int, bits: nat)
    requires bits >= 1
    ensures IsNearest(Clamp(x, bits), x, bits)
    ensures forall r :: IsNearest(r, x, bits) ==> r == Clamp(x, bits)
  {
    hide Pow2;
    Pow2Positive(bits - 1);
    var c := Clamp(x, bits);
    forall z | IsSigned(z, bits)
      ensures Distance(c, x) <= Distance(z, x) && (Distance(z, x) <= Distance(c, x) ==> z == c)
    {
    }
  }

  predicate IsInt32(v: int) { -0x8000_0000 <= v < 0x8000_0000 }

  function Scale(k: nat): nat
    requires k < 4
  {
    if k == 0 then 1 else if k == 1 then 0x100 else if k == 2 then 0x1_0000 else 0x100_0000
  }

  function Signed8(v: int): int { if v % 0x100 < 0x80 then v % 0x100 else v % 0x100 - 0x100 }
  function Signed16(v: int): int { if v % 0x1_0000 < 0x8000 then v % 0x1_0000 else v % 0x1_0000 - 0x1_0000 }

  /** Byte `k` of the pattern of `x`, and half-word `k`, read as signed. */
  function Lane8(x: int, k: nat): (r: int)
    requires k < 4
    ensures -0x80 <= r < 0x80
  {
    Signed8(x / Scale(k))
  }

  function Lane16(x: int, k: nat): (r: int)
    requires k < 2
    ensures -0x8000 <= r < 0x8000
  {
    Signed16(x / Scale(2 * k))
  }

  lemma Powers()
    ensures Pow2(0) == 1 && Pow2(7) == 0x80 && Pow2(15) == 0x8000 && Pow2(31) == 0x8000_0000
  {
    Pow2Add(16, 15);
    Pow2Add(8, 8);
  }

  /** A power that just leaves the signed range comes back as soon as it is negated or decreased. */
  lemma WrapAround(p: int)
    requires 1 <= p <= 0x8000_0000
    ensures p < 0x8000_0000 ==> Wrap(p) == p && Wrap(Wrap(p) * 2) == Wrap(2 * p)
    ensures Wrap(Wrap(p) - 1) == p - 1 && Wrap(-Wrap(p)) == -p
  {
  }

  lemma {:induction false} Pow2Doubles(m: nat, n: nat)
    requires m <= n
    ensures Pow2(m + 1) == 2 * Pow2(m) && 1 <= Pow2(m) && (m < n ==> 2 * Pow2(m) <= Pow2(n)) && Pow2(m) <= Pow2(n)
    decreases n
  {
    Pow2Positive(m);
    if m == n {
    } else {
      Pow2Doubles(m, n - 1);
    }
  }

  /** __SSAT, for every width a word has. At 32 the doubling wraps, and wraps back. */
  method Ssat(x: int, y: nat) returns (r: int)
    requires IsInt32(x) && 1 <= y <= 32
    ensures r == Clamp(x, y) && IsNearest(r, x, y)
  {
    hide Pow2, Wrap, IsNearest;
    Powers();
    ClampIsNearest(x, y);
    var posMax := 1;
    WrapAround(1);
    var i := 0;
    while i < y - 1
      invariant 0 <= i <= y - 1 && posMax == Wrap(Pow2(i))
    {
      Pow2Doubles(i, 31);
      WrapAround(Pow2(i));
      posMax := Wrap(posMax * 2);
      i := i + 1;
    }
    Pow2Doubles(y - 1, 31);
    WrapAround(Pow2(y - 1));
    r := x;
    if x > 0 {
      posMax := Wrap(posMax - 1);
      if x > posMax {
        r := posMax;
      }
    } else {
      var negMin := Wrap(-posMax);
      if x < negMin {
        r := negMin;
      }
    }
  }

  /** Four bytes, or two half-words, put together by shifts, masks and `|`. */
  function Pack8(u: int, t: int, s: int, r: int): int {
    Wrap(u % 0x100 * 0x100_0000 + t % 0x100 * 0x1_0000 + s % 0x100 * 0x100 + r % 0x100)
  }

  function Pack16(s: int, r: int): int { Wrap(s % 0x1_0000 * 0x1_0000 + r % 0x1_0000) }

  /** The quotients of a word given by its bytes, the highest of which may be negative. */
  lemma Quotients(v: int, a: int, b: int, c: int, d: int)
    requires v == a * 0x100_0000 + b * 0x1_0000 + c * 0x100 + d
    requires 0 <= b < 0x100 && 0 <= c < 0x100 && 0 <= d < 0x100
    ensures v / 0x100_0000 == a && v / 0x1_0000 == a * 0x100 + b && v / 0x100 == (a * 0x100 + b) * 0x100 + c
    ensures v / 0x1_0000 % 0x100 == b && v / 0x100 % 0x100 == c && v % 0x100 == d
  {
    assert v / 0x100 == (a * 0x100 + b) * 0x100 + c;
    assert v / 0x1_0000 == a * 0x100 + b;
  }

  /** A word is its bytes. */
  lemma Bytes(x: int)
    ensures x == x / 0x100_0000 * 0x100_0000 + x / 0x1_0000 % 0x100 * 0x1_0000 + x / 0x100 % 0x100 * 0x100 + x % 0x100
  {
  }

  /** A word whose top byte is that of `u` wraps to one whose top is `u` itself. */
  lemma WrapTop(u: int, top: int, low: int)
    requires -0x80 <= u < 0x80 && top == u % 0x100 && 0 <= low < 0x100_0000
    ensures Wrap(top * 0x100_0000 + low) == u * 0x100_0000 + low
  {
  }

  lemma LanesMean(x: int)
    ensures Lane8(x, 3) == Signed8(x / 0x100_0000) && Lane8(x, 2) == Signed8(x / 0x1_0000)
    ensures Lane8(x, 1) == Signed8(x / 0x100) && Lane8(x, 0) == Signed8(x)
    ensures Lane16(x, 1) == Signed16(x / 0x1_0000) && Lane16(x, 0) == Signed16(x)
  {
  }

  lemma SignedFits(x: int, v: int)
    ensures -0x8000 <= v < 0x8000 && x % 0x1_0000 == v % 0x1_0000 ==> Signed16(x) == v
    ensures -0x80 <= v < 0x80 && x % 0x100 == v % 0x100 ==> Signed8(x) == v
  {
  }

  lemma PackedLanes8(u: int, t: int, s: int, r: int)
    requires -0x80 <= u < 0x80 && -0x80 <= t < 0x80 && -0x80 <= s < 0x80 && -0x80 <= r < 0x80
    ensures var p := Pack8(u, t, s, r);
      Lane8(p, 3) == u && Lane8(p, 2) == t && Lane8(p, 1) == s && Lane8(p, 0) == r && IsInt32(p)
  {
    hide Wrap, Lane8, Lane16, Signed8, Signed16;
    var p := Pack8(u, t, s, r);
    WrapTop(u, u % 0x100, t % 0x100 * 0x1_0000 + s % 0x100 * 0x100 + r % 0x100);
    LanesMean(p);
    assert p == u * 0x100_0000 + t % 0x100 * 0x1_0000 + s % 0x100 * 0x100 + r % 0x100;
    Quotients(p, u, t % 0x100, s % 0x100, r % 0x100);
    SignedFits(p / 0x100_0000, u);
    SignedFits(p / 0x1_0000, t);
    SignedFits(p / 0x100, s);
    SignedFits(p, r);
  }

  lemma WrapTop16(s: int, low: int)
    requires -0x8000 <= s < 0x8000 && 0 <= low < 0x1_0000
    ensures Wrap(s % 0x1_0000 * 0x1_0000 + low) == s * 0x1_0000 + low
  {
  }

  lemma PackedLanes16(s: int, r: int)
    requires -0x8000 <= s < 0x8000 && -0x8000 <= r < 0x8000
    ensures var p := Pack16(s, r); Lane16(p, 1) == s && Lane16(p, 0) == r && IsInt32(p)
  {
    hide Wrap, Lane16, Lane8, Signed8, Signed16;
    var p := Pack16(s, r);
    WrapTop16(s, r % 0x1_0000);
    LanesMean(p);
    assert p / 0x1_0000 == s && p % 0x1_0000 == r % 0x1_0000;
    SignedFits(s, s);
    SignedFits(p, r);
  }

  lemma WrapPicks(v: int, over: int, a: int, b: int, c: int)
    requires 0 <= a < 0x100 && 0 <= b < 0x100 && 0 <= c < 0x100
    requires v == over * 0x1_0000_0000 + a * 0x100_0000 + b * 0x1_0000 + c * 0x100
    ensures Wrap(v) / 0x100_0000 == Signed8(a)
  {
    var low := b * 0x1_0000 + c * 0x100;
    assert v % 0x1_0000_0000 == a * 0x100_0000 + low;
    WrapTop(Signed8(a), a, low);
    Quotients(Wrap(v), Signed8(a), b, c, 0);
  }

  lemma TopHalf(x: int)
    requires IsInt32(x)
    ensures x / 0x100_0000 == Signed8(x / 0x100_0000) && x / 0x1_0000 == Signed16(x / 0x1_0000)
  {
  }

  /** The shift pairs of the source, left with wrap-around and right arithmetic, pick out the bytes
      with their signs. */
  lemma ShiftsPickLanes(x: int)
    requires IsInt32(x)
    ensures Wrap(x * 0x1_0000) / 0x100_0000 == Lane8(x, 1)
    ensures Wrap(x * 0x100) / 0x100_0000 == Lane8(x, 2)
    ensures x / 0x100_0000 == Lane8(x, 3) && x / 0x1_0000 == Lane16(x, 1)
  {
    hide Wrap, Lane8, Lane16;
    var a, b, c, d := x / 0x100_0000, x / 0x1_0000 % 0x100, x / 0x100 % 0x100, x % 0x100;
    LanesMean(x);
    Bytes(x);
    WrapPicks(x * 0x1_0000, a * 0x100 + b, c, d, 0);
    WrapPicks(x * 0x100, a, b, c, d);
    TopHalf(x);
  }

  lemma SignedSame(v: int)
    ensures Signed8(v) % 0x100 == v % 0x100 && Signed16(v) % 0x1_0000 == v % 0x1_0000
  {
  }

  /** The lanes are all there is of a word: it is put together from them. */
  lemma LanesMakeWord(x: int)
    requires IsInt32(x)
    ensures x == Lane8(x, 3) * 0x100_0000 + Lane8(x, 2) % 0x100 * 0x1_0000
               + Lane8(x, 1) % 0x100 * 0x100 + Lane8(x, 0) % 0x100
    ensures x == Lane16(x, 1) * 0x1_0000 + Lane16(x, 0) % 0x1_0000
  {
    hide Lane8, Lane16, Signed8, Signed16;
    LanesMean(x);
    Bytes(x);
    TopHalf(x);
    SignedSame(x);
    SignedSame(x / 0x100);
    SignedSame(x / 0x1_0000);
  }

  /** The casts of the source to a character and to a short. */
  lemma LowLane(x: int)
    ensures -0x80 <= Signed8(x) < 0x80 && -0x8000 <= Signed16(x) < 0x8000
    ensures Signed8(x) == Lane8(x, 0) && Signed16(x) == Lane16(x, 0)
  {
  }

  /** __QADD8: four independent saturating additions. */
  method QAdd8(x: int, y: int) returns (sum: int)
    requires IsInt32(x) && IsInt32(y)
    ensures IsInt32(sum)
    ensures forall k :: 0 <= k < 4 ==> IsNearest(Lane8(sum, k), Lane8(x, k) + Lane8(y, k), 8)
  {
    hide Wrap, Lane8, Pack8, Pow2, Signed8, IsNearest;
    Powers();
    ShiftsPickLanes(x);
    ShiftsPickLanes(y);
    LowLane(x);
    LowLane(y);
    var r := Ssat(Signed8(x) + Signed8(y), 8);
    var s := Ssat(Wrap(x * 0x1_0000) / 0x100_0000 + Wrap(y * 0x1_0000) / 0x100_0000, 8);
    var t := Ssat(Wrap(x * 0x100) / 0x100_0000 + Wrap(y * 0x100) / 0x100_0000, 8);
    var u := Ssat(x / 0x100_0000 + y / 0x100_0000, 8);
    sum := Pack8(u, t, s, r);
    PackedLanes8(u, t, s, r);
    forall k | 0 <= k < 4
      ensures IsNearest(Lane8(sum, k), Lane8(x, k) + Lane8(y, k), 8)
    {
      assert k == 0 || k == 1 || k == 2 || k == 3;
    }
  }

  /** __QADD16. */
  method QAdd16(x: int, y: int) returns (sum: int)
    requires IsInt32(x) && IsInt32(y)
    ensures IsInt32(sum)
    ensures forall k :: 0 <= k < 2 ==> IsNearest(Lane16(sum, k), Lane16(x, k) + Lane16(y, k), 16)
  {
    hide Wrap, Lane16, Pack16, Pow2, Signed16, IsNearest;
    Powers();
    ShiftsPickLanes(x);
    ShiftsPickLanes(y);
    LowLane(x);
    LowLane(y);
    var r := Ssat(Signed16(x) + Signed16(y), 16);
    var s := Ssat(x / 0x1_0000 + y / 0x1_0000, 16);
    sum := Pack16(s, r);
    PackedLanes16(s, r);
  }

  /** __QSUB16. */
  method QSub16(x: int, y: int) returns (sum: int)
    requires IsInt32(x) && IsInt32(y)
    ensures IsInt32(sum)
    ensures forall k :: 0 <= k < 2 ==> IsNearest(Lane16(sum, k), Lane16(x, k) - Lane16(y, k), 16)
  {
    hide Wrap, Lane16, Pack16, Pow2, Signed16, IsNearest;
    Powers();
    ShiftsPickLanes(x);
    ShiftsPickLanes(y);
    LowLane(x);
    LowLane(y);
    var r := Ssat(Signed16(x) - Signed16(y), 16);
    var s := Ssat(x / 0x1_0000 - y / 0x1_0000, 16);
    sum := Pack16(s, r);
    PackedLanes16(s, r);
  }
}
