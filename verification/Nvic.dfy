/** Interrupt priorities of core_cm3.h: a preemption level and a sub-priority packed in one field.
    `bits` is the number of priority bits the device implements, at most the eight of a register.
    On unsigned numbers a mask of low bits is a remainder, a shift a product or quotient, and `|` of
    fields that do not overlap a sum. */
module Nvic {
  import opened Arithmetic

  function PreemptBits(group: nat, bits: nat): nat {
    if 7 - group % 8 > bits then bits else 7 - group % 8
  }

  function SubBits(group: nat, bits: nat): nat {
    if group % 8 + bits < 7 then 0 else group % 8 - 7 + bits
  }

  function Masked(x: nat, n: nat): (r: nat)
    ensures r < Pow2(n)
  {
    Pow2Positive(n);
    x % Pow2(n)
  }

  /** NVIC_EncodePriority. */
  function Encode(group: nat, bits: nat, preempt: nat, sub: nat): nat {
    var s := SubBits(group, bits);
    Masked(preempt, PreemptBits(group, bits)) * Pow2(s) + Masked(sub, s)
  }

  /** NVIC_DecodePriority, with its two results. */
  function Decode(group: nat, bits: nat, priority: nat): (nat, nat) {
    var s := SubBits(group, bits);
    Pow2Positive(s);
    DivAtLeast(priority, 0, Pow2(s));
    (Masked(priority / Pow2(s), PreemptBits(group, bits)), Masked(priority, s))
  }

  /** The two fields always fill the implemented bits, whatever the group asks for. */
  lemma FieldsFillBits(group: nat, bits: nat)
    ensures PreemptBits(group, bits) + SubBits(group, bits) == bits
    ensures Pow2(PreemptBits(group, bits)) * Pow2(SubBits(group, bits)) == Pow2(bits)
  {
    Pow2Add(PreemptBits(group, bits), SubBits(group, bits));
  }

  /** Two numbers packed as one, the second below `s`. */
  lemma PairFields(h: nat, l: nat, p: nat, s: nat, total: nat)
    requires h < p && l < s && p * s == total
    ensures (h * s + l) / s == h && (h * s + l) % s == l && h * s + l < total
  {
    DivUnique(h * s + l, h, l, s);
    MulMonotone(h + 1, p, s);
  }

  lemma MaskedFits(x: nat, n: nat)
    requires x < Pow2(n)
    ensures Masked(x, n) == x
  {
    DivUnique(x, 0, x, Pow2(n));
  }

  lemma MaskedOf(x: nat, n: nat)
    ensures Pow2(n) >= 1 && Masked(x, n) == x % Pow2(n)
  {
  }

  lemma DecodePair(group: nat, bits: nat, h: nat, l: nat)
    requires h < Pow2(PreemptBits(group, bits)) && l < Pow2(SubBits(group, bits))
    ensures Decode(group, bits, h * Pow2(SubBits(group, bits)) + l) == (h, l)
  {
    hide Pow2, PreemptBits, SubBits, Masked;
    var p, s := PreemptBits(group, bits), SubBits(group, bits);
    PairFields(h, l, Pow2(p), Pow2(s), Pow2(p) * Pow2(s));
    MaskedFits(h, p);
    MaskedOf(h * Pow2(s) + l, s);
  }

  lemma EncodeIsPair(group: nat, bits: nat, preempt: nat, sub: nat, h: nat, l: nat, x: nat)
    requires h == Masked(preempt, PreemptBits(group, bits)) && l == Masked(sub, SubBits(group, bits))
    requires x == Encode(group, bits, preempt, sub)
    ensures x < Pow2(bits) && Decode(group, bits, x) == (h, l)
  {
    hide Pow2, PreemptBits, SubBits, Masked, Decode;
    var p, s := PreemptBits(group, bits), SubBits(group, bits);
    FieldsFillBits(group, bits);
    PairFields(h, l, Pow2(p), Pow2(s), Pow2(bits));
    DecodePair(group, bits, h, l);
  }

  /** Decoding gives back what was encoded, as far as it fits its field, and what is encoded fits
      the implemented bits. */
  lemma DecodeOfEncode(group: nat, bits: nat, preempt: nat, sub: nat)
    ensures var x := Encode(group, bits, preempt, sub);
      && x < Pow2(bits)
      && Decode(group, bits, x) == (Masked(preempt, PreemptBits(group, bits)), Masked(sub, SubBits(group, bits)))
  {
    hide Encode, Pow2, PreemptBits, SubBits, Masked, Decode;
    var h, l := Masked(preempt, PreemptBits(group, bits)), Masked(sub, SubBits(group, bits));
    EncodeIsPair(group, bits, preempt, sub, h, l, Encode(group, bits, preempt, sub));
  }

  lemma PairOrder(h: nat, l: nat, h': nat, l': nat, s: nat)
    requires l < s && l' < s
    ensures h * s + l < h' * s + l' <==> h < h' || (h == h' && l < l')
  {
    if h < h' {
      MulMonotone(h + 1, h', s);
    } else if h' < h {
      MulMonotone(h' + 1, h, s);
    }
  }

  /** Encoding gives back what was decoded, for every priority the device can hold. */
  lemma EncodeOfDecode(group: nat, bits: nat, priority: nat)
    requires priority < Pow2(bits)
    ensures var (preempt, sub) := Decode(group, bits, priority); Encode(group, bits, preempt, sub) == priority
  {
    var p, s := Pow2(PreemptBits(group, bits)), Pow2(SubBits(group, bits));
    FieldsFillBits(group, bits);
    Pow2Positive(SubBits(group, bits));
    DivMod(priority, s);
    DivAtLeast(priority, p, s);
    DivAtLeast(priority, 0, s);
    DivUnique(priority / s, 0, priority / s, p);
    DivUnique(priority % s, 0, priority % s, s);
  }

  /** Encoded priorities compare as their levels do, the sub-priority deciding between equals. */
  lemma EncodeKeepsOrder(group: nat, bits: nat, preempt: nat, sub: nat, preempt': nat, sub': nat)
    ensures var p, s := PreemptBits(group, bits), SubBits(group, bits);
      Encode(group, bits, preempt, sub) < Encode(group, bits, preempt', sub') <==>
        Masked(preempt, p) < Masked(preempt', p) ||
        (Masked(preempt, p) == Masked(preempt', p) && Masked(sub, s) < Masked(sub', s))
  {
    hide Pow2, PreemptBits, SubBits, Masked;
    var p, s := PreemptBits(group, bits), SubBits(group, bits);
    PairOrder(Masked(preempt, p), Masked(sub, s), Masked(preempt', p), Masked(sub', s), Pow2(s));
  }

  // ---------- the registers ----------

  const SYSTEM_HANDLERS := 12
  const INTERRUPTS := 240

  /** What a register byte gives back. */
  function Stored(register: nat, bits: nat): nat
    requires bits <= 8
  {
    Pow2Positive(8 - bits);
    DivAtLeast(register, 0, Pow2(8 - bits));
    register / Pow2(8 - bits)
  }

  /** The priority registers: one byte for each system handler and each interrupt. */
  class Registers {
    const bits: nat
    const shp: array<nat>
    const ip: array<nat>

    ghost predicate Valid()
      reads shp, ip
    {
      && bits <= 8 && shp.Length == SYSTEM_HANDLERS && ip.Length == INTERRUPTS && shp != ip
      && (forall i :: 0 <= i < SYSTEM_HANDLERS ==> shp[i] < 0x100)
      && (forall i :: 0 <= i < INTERRUPTS ==> ip[i] < 0x100)
    }

    constructor (bits: nat)
      requires bits <= 8
      ensures Valid() && fresh(shp) && fresh(ip) && this.bits == bits
    {
      this.bits := bits;
      shp, ip := new nat[SYSTEM_HANDLERS](_ => 0), new nat[INTERRUPTS](_ => 0);
    }

    /** NVIC_SetPriority. System handlers have negative numbers; the low four bits of one, less 4, are its
        place among the handlers. */
    method SetPriority(irq: int, priority: nat)
      requires Valid() && -SYSTEM_HANDLERS <= irq < INTERRUPTS
      modifies shp, ip
      ensures Valid() && (if irq < 0 then shp[irq + 12] else ip[irq]) == priority * Pow2(8 - bits) % 0x100
      ensures forall i :: 0 <= i < 12 && i != irq + 12 ==> shp[i] == old(shp[i])
      ensures forall i :: 0 <= i < 240 && i != irq ==> ip[i] == old(ip[i])
    {
      hide Pow2;
      if irq < 0 {
        shp[irq % 0x1_0000_0000 % 0x10 - 4] := priority * Pow2(8 - bits) % 0x100;
      } else {
        ip[irq] := priority * Pow2(8 - bits) % 0x100;
      }
    }

    /** NVIC_GetPriority. */
    method GetPriority(irq: int) returns (priority: nat)
      requires Valid() && -SYSTEM_HANDLERS <= irq < INTERRUPTS
      ensures priority == Stored(if irq < 0 then shp[irq + 12] else ip[irq], bits)
    {
      Pow2Positive(8 - bits);
      if irq < 0 {
        DivAtLeast(shp[irq % 0x1_0000_0000 % 0x10 - 4], 0, Pow2(8 - bits));
        priority := shp[irq % 0x1_0000_0000 % 0x10 - 4] / Pow2(8 - bits);
      } else {
        DivAtLeast(ip[irq], 0, Pow2(8 - bits));
        priority := ip[irq] / Pow2(8 - bits);
      }
    }
  }

  lemma EightBits()
    ensures Pow2(8) == 0x100
  {
  }

  lemma ShiftInByte(x: nat, p: nat, q: nat)
    requires p >= 1 && q >= 1 && p * q == 0x100
    ensures x * q % 0x100 / q == x % p
  {
    var v := x % p;
    DivMod(x, p);
    assert x * q == x / p * 0x100 + v * q by {
      assert (x / p * p + v) * q == x / p * p * q + v * q;
      assert x / p * p * q == x / p * (p * q);
    }
    MulMonotone(v + 1, p, q);
    MulMonotone(0, v, q);
    DivUnique(x * q, x / p, v * q, 0x100);
    DivUnique(v * q, v, 0, q);
  }

  /** A priority survives its register as far as it fits the implemented bits; so an encoded one
      survives whole, and decodes to what it was made of. */
  lemma PrioritySurvivesRegister(priority: nat, bits: nat)
    requires bits <= 8
    ensures Stored(priority * Pow2(8 - bits) % 0x100, bits) == Masked(priority, bits)
  {
    hide Pow2;
    Pow2Add(bits, 8 - bits);
    EightBits();
    MaskedOf(priority, bits);
    Pow2Positive(8 - bits);
    ShiftInByte(priority, Pow2(bits), Pow2(8 - bits));
  }

  lemma EncodedSurvivesRegister(group: nat, bits: nat, preempt: nat, sub: nat)
    requires bits <= 8
    ensures var kept := Stored(Encode(group, bits, preempt, sub) * Pow2(8 - bits) % 0x100, bits);
      && kept == Encode(group, bits, preempt, sub)
      && Decode(group, bits, kept) == (Masked(preempt, PreemptBits(group, bits)), Masked(sub, SubBits(group, bits)))
  {
    var x := Encode(group, bits, preempt, sub);
    DecodeOfEncode(group, bits, preempt, sub);
    PrioritySurvivesRegister(x, bits);
    DivUnique(x, 0, x, Pow2(bits));
  }

  lemma SubBitsOf(group: nat, bits: nat)
    requires bits <= 8
    ensures SubBits(group, bits) + (8 - bits) == if group % 8 + 1 > 8 - bits then group % 8 + 1 else 8 - bits
  {
  }

  lemma StoredWhole(register: nat, bits: nat)
    requires bits <= 8 && register < 0x100 && Masked(register, 8 - bits) == 0
    ensures register == Stored(register, bits) * Pow2(8 - bits) && Stored(register, bits) < Pow2(bits)
  {
    hide Pow2;
    EightBits();
    Pow2Add(bits, 8 - bits);
    Pow2Positive(8 - bits);
    MaskedOf(register, 8 - bits);
    DivMod(register, Pow2(8 - bits));
    DivAtLeast(register, Pow2(bits), Pow2(8 - bits));
  }

  lemma DecodeParts(group: nat, bits: nat, priority: nat)
    ensures var (h, l) := Decode(group, bits, priority);
      h < Pow2(PreemptBits(group, bits)) && l < Pow2(SubBits(group, bits))
  {
  }

  lemma EncodeParts(group: nat, bits: nat, h: nat, l: nat)
    requires h < Pow2(PreemptBits(group, bits)) && l < Pow2(SubBits(group, bits))
    ensures Encode(group, bits, h, l) == h * Pow2(SubBits(group, bits)) + l
  {
    MaskedFits(h, PreemptBits(group, bits));
    MaskedFits(l, SubBits(group, bits));
  }

  lemma Regroup(v: nat, h: nat, l: nat, s: nat, low: nat)
    requires v == h * s + l && l < s && low >= 1
    ensures v * low == h * (s * low) + l * low && l * low < s * low
  {
    MulMonotone(l + 1, s, low);
    assert (h * s + l) * low == h * s * low + l * low;
  }

  /** Which bits are which: group `g` puts the point above bit `g` of the register, as far as the bits
      there are implemented.  The preemption level is what lies above it, the sub-priority what is
      implemented below. */
  lemma GroupSplitsRegister(group: nat, bits: nat, register: nat)
    requires bits <= 8 && register < 0x100 && Masked(register, 8 - bits) == 0
    ensures var g := group % 8; var point := if g + 1 > 8 - bits then g + 1 else 8 - bits;
      var (preempt, sub) := Decode(group, bits, Stored(register, bits));
      register == preempt * Pow2(point) + sub * Pow2(8 - bits) && sub * Pow2(8 - bits) < Pow2(point)
  {
    hide Pow2, PreemptBits, SubBits, Masked, Decode, Stored, Encode;
    var g := group % 8;
    var point := if g + 1 > 8 - bits then g + 1 else 8 - bits;
    var p, s, low := PreemptBits(group, bits), SubBits(group, bits), 8 - bits;
    assert s + low == point by { SubBitsOf(group, bits); }
    var v := Stored(register, bits);
    StoredWhole(register, bits);
    EncodeOfDecode(group, bits, v);
    var (h, l) := Decode(group, bits, v);
    DecodeParts(group, bits, v);
    EncodeParts(group, bits, h, l);
    Pow2Add(s, low);
    Pow2Positive(low);
    Regroup(v, h, l, Pow2(s), Pow2(low));
  }
}
