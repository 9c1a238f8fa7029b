/** The CRC table of the host tool: a precomputed table against division of polynomials modulo 2. */
module Crc32 {
  const POLYNOMIAL: bv32 := 0x04C1_1DB7
  const TOPBIT: bv32 := 0x8000_0000

  // ---------- the bit operations, and what the proofs need of them ----------

  function Xor(a: bv32, b: bv32): bv32 { a ^ b }
  function Double(a: bv32): bv32 { a << 1 }
  predicate HasTop(a: bv32) { a & TOPBIT != 0 }

  lemma XorAssociates(a: bv32, b: bv32, c: bv32)
    ensures Xor(Xor(a, b), c) == Xor(a, Xor(b, c))
  {
  }

  lemma XorUnits(a: bv32, b: bv32)
    ensures Xor(a, b) == Xor(b, a) && Xor(a, a) == 0 && Xor(a, 0) == a && Xor(0, a) == a
  {
  }

  lemma XorLaws(a: bv32, b: bv32, c: bv32)
    ensures Xor(Xor(a, c), b) == Xor(Xor(a, b), c) && Xor(a, Xor(b, c)) == Xor(Xor(a, b), c)
    ensures Xor(Xor(a, c), Xor(b, c)) == Xor(a, b)
  {
  }

  lemma ShiftLaws(a: bv32, b: bv32)
    ensures Double(Xor(a, b)) == Xor(Double(a), Double(b))
    ensures HasTop(Xor(a, b)) <==> HasTop(a) != HasTop(b)
    ensures Double(0) == 0 && !HasTop(0)
  {
  }

  // ---------- the reference: long division, a bit at a time ----------

  /** One step of the division: shift, and subtract the generator if a bit falls out. */
  function Step(r: bv32): bv32 {
    if HasTop(r) then Xor(Double(r), POLYNOMIAL) else Double(r)
  }

  function Steps(r: bv32, n: nat): bv32
    decreases n, r
  {
    if n == 0 then r else Steps(Step(r), n - 1)
  }

  function Bit(b: bool): bv32 { if b then 1 else 0 }

  /** The remainder left by a dividend whose bits are brought down one after the other. */
  function Divide(r: bv32, bits: seq<bool>): bv32
    decreases |bits|
  {
    if bits == [] then r else Divide(Xor(Step(r), Bit(bits[0])), bits[1..])
  }

  /** The `n` highest bits of `c`, from the highest. */
  function TopBits(c: bv32, n: nat): (s: seq<bool>)
    ensures |s| == n
    decreases n, c
  {
    if n == 0 then [] else [HasTop(c)] + TopBits(Double(c), n - 1)
  }

  function InTopByte(b: bv8): bv32 { (b as bv32) << 24 }

  function BitsOf(msg: seq<bv8>): seq<bool> {
    if msg == [] then [] else TopBits(InTopByte(msg[0]), 8) + BitsOf(msg[1..])
  }

  /** The message followed by as many zero bits as the remainder has. */
  function Dividend(msg: seq<bv8>): seq<bool> { BitsOf(msg) + seq(32, _ => false) }

  // ---------- the table, and the fold over a message that uses it ----------

  function Entry(i: bv8): bv32 { Steps(InTopByte(i), 8) }

  function Lookup(t: seq<bv32>, i: bv8): bv32
    requires |t| == 256
  {
    t[i as int]
  }

  /** A correct table: at every byte, the remainder of that byte followed by 32 zeros. */
  ghost predicate IsTable(t: seq<bv32>) {
    |t| == 256 && forall i: bv8 :: Lookup(t, i) == Entry(i)
  }

  function TopByte(r: bv32): bv8 { ((r >> 24) & 0xFF) as bv8 }

  function TableStep(t: seq<bv32>, r: bv32, b: bv8): bv32
    requires |t| == 256
  {
    (r << 8) ^ Lookup(t, TopByte(r) ^ b)
  }

  function TableFold(t: seq<bv32>, r: bv32, msg: seq<bv8>): bv32
    requires |t| == 256
    decreases |msg|
  {
    if msg == [] then r else TableFold(t, TableStep(t, r, msg[0]), msg[1..])
  }

  lemma StepMeans(r: bv32)
    ensures Step(r) == if r & TOPBIT != 0 then (r << 1) ^ POLYNOMIAL else r << 1
  {
  }

  /** The inner loop of fill_table: the remainder of one byte followed by zeros. */
  method DivideByte(dividend: bv8) returns (reminder: bv32)
    ensures reminder == Entry(dividend)
  {
    hide Step;
    reminder := (dividend as bv32) << 24;
    var bit := 8;
    while bit > 0
      invariant 0 <= bit <= 8 && Steps(reminder, bit) == Entry(dividend)
    {
      StepMeans(reminder);
      if reminder & TOPBIT != 0 {
        reminder := (reminder << 1) ^ POLYNOMIAL;
      } else {
        reminder := reminder << 1;
      }
      bit := bit - 1;
    }
  }

  class Crc {
    const crcTable: array<bv32>

    constructor ()
      ensures crcTable.Length == 256 && fresh(crcTable)
    {
      crcTable := new bv32[256];
    }

    /** fill_table, without its printing. */
    method FillTable()
      requires crcTable.Length == 256
      modifies crcTable
      ensures IsTable(crcTable[..])
    {
      hide Entry;
      for dividend := 0 to 256
        invariant forall i: bv8 :: i as int < dividend ==> crcTable[i as int] == Entry(i)
      {
        crcTable[dividend] := DivideByte(dividend as bv8);
      }
    }
  }

  // ---------- the step is linear ----------

  lemma StepXor(a: bv32, b: bv32)
    ensures Step(Xor(a, b)) == Xor(Step(a), Step(b))
  {
    hide Xor, Double, HasTop;
    ShiftLaws(a, b);
    XorLaws(Double(a), Double(b), POLYNOMIAL);
  }

  lemma {:induction false} StepsXor(a: bv32, b: bv32, n: nat)
    ensures Steps(Xor(a, b), n) == Xor(Steps(a, n), Steps(b, n))
    decreases n
  {
    hide Xor, Step;
    if n == 0 {
    } else {
      StepXor(a, b);
      StepsXor(Step(a), Step(b), n - 1);
    }
  }

  lemma {:induction false} StepsAdd(r: bv32, m: nat, n: nat)
    ensures Steps(r, m + n) == Steps(Steps(r, m), n)
    decreases m
  {
    hide Step;
    if m == 0 {
    } else {
      StepsAdd(Step(r), m - 1, n);
    }
  }

  function Shift(c: bv32, n: nat): bv32
    decreases n, c
  {
    if n == 0 then c else Shift(Double(c), n - 1)
  }

  lemma Doubled(c: bv32)
    ensures Double(c) == c << 1 && Double(c << 1) == c << 2 && Double(c << 2) == c << 3 && Double(c << 3) == c << 4
    ensures Double(c << 4) == c << 5 && Double(c << 5) == c << 6 && Double(c << 6) == c << 7 && Double(c << 7) == c << 8
  {
  }

  lemma Chain(a: bv32, b: bv32, c: bv32, d: bv32, e: bv32)
    requires Double(a) == b && Double(b) == c && Double(c) == d && Double(d) == e
    ensures forall n: nat :: Shift(a, n + 4) == Shift(e, n)
    ensures !HasTop(a) && !HasTop(b) && !HasTop(c) && !HasTop(d) ==> forall n: nat :: Steps(a, n + 4) == Steps(e, n)
  {
    hide Double, HasTop, Xor;
    forall n: nat
      ensures Shift(a, n + 4) == Shift(e, n)
    {
      assert Shift(a, n + 4) == Shift(b, n + 3) == Shift(c, n + 2) == Shift(d, n + 1);
    }
    if !HasTop(a) && !HasTop(b) && !HasTop(c) && !HasTop(d) {
      forall n: nat
        ensures Steps(a, n + 4) == Steps(e, n)
      {
        assert Steps(a, n + 4) == Steps(b, n + 3) == Steps(c, n + 2) == Steps(d, n + 1);
      }
    }
  }

  lemma ShiftNone(c: bv32)
    ensures Shift(c, 0) == c
  {
  }

  lemma ShiftEight(c: bv32)
    ensures Shift(c, 8) == c << 8
  {
    hide Double, Shift;
    Doubled(c);
    Chain(c, c << 1, c << 2, c << 3, c << 4);
    Chain(c << 4, c << 5, c << 6, c << 7, c << 8);
    assert Shift(c, 4 + 4) == Shift(c << 4, 0 + 4) == Shift(c << 8, 0);
    ShiftNone(c << 8);
  }

  lemma ClearTop(r: bv32)
    requires r & 0xFF00_0000 == 0
    ensures !HasTop(r) && !HasTop(r << 1) && !HasTop(r << 2) && !HasTop(r << 3)
    ensures !HasTop(r << 4) && !HasTop(r << 5) && !HasTop(r << 6) && !HasTop(r << 7)
  {
  }

  lemma StepsNone(r: bv32)
    ensures Steps(r, 0) == r
  {
  }

  /** Division steps on bits that have not come near the top are shifts. */
  lemma LowBytesShift(r: bv32)
    requires r & 0xFF00_0000 == 0
    ensures Steps(r, 8) == r << 8 && Steps(r, 4) == r << 4
  {
    hide Double, HasTop, Steps;
    ClearTop(r);
    Doubled(r);
    Chain(r, r << 1, r << 2, r << 3, r << 4);
    Chain(r << 4, r << 5, r << 6, r << 7, r << 8);
    StepsNone(r << 4);
    StepsNone(r << 8);
    assert Steps(r, 4 + 4) == Steps(r << 4, 4) == Steps(r << 4, 0 + 4);
    assert Steps(r, 0 + 4) == Steps(r << 4, 0);
  }

  lemma TableSize(t: seq<bv32>)
    requires IsTable(t)
    ensures |t| == 256
  {
  }

  lemma TopAndRest(r: bv32, b: bv8)
    ensures var low := r & 0x00FF_FFFF;
      Xor(r, InTopByte(b)) == Xor(InTopByte(TopByte(r) ^ b), low) && low & 0xFF00_0000 == 0 && low << 8 == r << 8
  {
  }

  lemma TableStepEntry(t: seq<bv32>, r: bv32, b: bv8)
    requires IsTable(t)
    ensures TableStep(t, r, b) == Xor(r << 8, Entry(TopByte(r) ^ b))
  {
  }

  /** The table step equals eight division steps with the byte added at the top. */
  lemma TableStepIsEightSteps(t: seq<bv32>, r: bv32, b: bv8)
    requires IsTable(t)
    ensures TableStep(t, r, b) == Steps(Xor(r, InTopByte(b)), 8)
  {
    hide Steps, TableStep, Xor, TopByte, InTopByte, IsTable;
    TableSize(t);
    var i := TopByte(r) ^ b;
    var low := r & 0x00FF_FFFF;
    TopAndRest(r, b);
    StepsXor(InTopByte(i), low, 8);
    LowBytesShift(low);
    TableStepEntry(t, r, b);
    XorUnits(r << 8, Entry(i));
  }

  // ---------- the fold is the remainder ----------

  function AtTop(b: bool): bv32 { if b then TOPBIT else 0 }

  /** The register form of the division: bits are added at the top. */
  function Feed(r: bv32, bits: seq<bool>): bv32
    decreases |bits|
  {
    if bits == [] then r else Feed(Step(Xor(r, AtTop(bits[0]))), bits[1..])
  }

  lemma TopOnly()
    ensures HasTop(TOPBIT) && Double(TOPBIT) == 0 && !HasTop(0) && Double(0) == 0
  {
  }

  lemma SplitTop(c: bv32)
    ensures var low := Xor(c, AtTop(HasTop(c)));
      c == Xor(AtTop(HasTop(c)), low) && !HasTop(low) && Double(low) == Double(c)
  {
    hide Xor, Double, HasTop;
    var high := AtTop(HasTop(c));
    XorUnits(c, high);
    XorUnits(high, c);
    XorUnits(c, 0);
    XorUnits(Double(c), 0);
    XorAssociates(c, high, high);
    XorUnits(high, high);
    ShiftLaws(c, high);
    TopOnly();
    XorUnits(high, Xor(c, high));
  }

  lemma FeedOne(r: bv32, c: bv32)
    ensures Step(Xor(r, c)) == Xor(Step(Xor(r, AtTop(HasTop(c)))), Double(c))
  {
    hide Xor, Double, HasTop, AtTop;
    var high := AtTop(HasTop(c));
    var low := Xor(c, high);
    SplitTop(c);
    XorLaws(r, high, low);
    StepXor(Xor(r, high), low);
  }

  lemma {:induction false} FeedTopBits(r: bv32, c: bv32, n: nat)
    ensures Steps(Xor(r, c), n) == Xor(Feed(r, TopBits(c, n)), Shift(c, n))
    decreases n
  {
    hide Step, Xor, Double, HasTop, AtTop;
    if n == 0 {
    } else {
      FeedOne(r, c);
      var top := TopBits(c, n);
      assert top[1..] == TopBits(Double(c), n - 1);
      FeedTopBits(Step(Xor(r, AtTop(top[0]))), Double(c), n - 1);
    }
  }

  lemma {:induction false} FeedAppend(r: bv32, s: seq<bool>, t: seq<bool>)
    ensures Feed(r, s + t) == Feed(Feed(r, s), t)
    decreases |s|
  {
    hide Step, Xor, AtTop;
    if s == [] {
      assert s + t == t;
    } else {
      assert (s + t)[1..] == s[1..] + t;
      FeedAppend(Step(Xor(r, AtTop(s[0]))), s[1..], t);
    }
  }

  /** A whole byte has left the register's input after eight bits. */
  lemma ShiftedOut(b: bv8)
    ensures Shift(InTopByte(b), 8) == 0
  {
    hide Shift;
    ShiftEight(InTopByte(b));
  }

  lemma FeedNothing(r: bv32)
    ensures Feed(r, []) == r
  {
  }

  /** The table fold is the bit-at-a-time fold, from any initial register. */
  lemma {:induction false} TableFoldIsFeed(t: seq<bv32>, r: bv32, msg: seq<bv8>)
    requires IsTable(t)
    ensures TableFold(t, r, msg) == Feed(r, BitsOf(msg))
    decreases |msg|
  {
    hide Step, TableStep, Xor, InTopByte, IsTable, Feed, Shift, TopBits;
    TableSize(t);
    FeedNothing(r);
    if msg == [] {
    } else {
      var c := InTopByte(msg[0]);
      TableStepIsEightSteps(t, r, msg[0]);
      FeedTopBits(r, c, 8);
      ShiftedOut(msg[0]);
      XorUnits(Feed(r, TopBits(c, 8)), 0);
      TableFoldIsFeed(t, TableStep(t, r, msg[0]), msg[1..]);
      FeedAppend(r, TopBits(c, 8), BitsOf(msg[1..]));
    }
  }

  lemma LastSteps()
    ensures Steps(0x100_0000, 8) == Step(TOPBIT)
  {
  }

  /** 32 steps take the lowest bit to the top and out. */
  lemma BitGoesThrough()
    ensures Steps(1, 32) == Step(TOPBIT)
  {
    hide Steps, Step;
    LowBytesShift(1);
    LowBytesShift(0x100);
    LowBytesShift(0x1_0000);
    assert (1 as bv32) << 8 == 0x100 && (0x100 as bv32) << 8 == 0x1_0000 && (0x1_0000 as bv32) << 8 == 0x100_0000;
    StepsAdd(1, 8, 24);
    StepsAdd(0x100, 8, 16);
    StepsAdd(0x1_0000, 8, 8);
    LastSteps();
  }

  lemma {:induction false} ZeroStays(n: nat)
    ensures Steps(0, n) == 0 && Step(0) == 0
    decreases n
  {
    if n == 0 {
    } else {
      ZeroStays(n - 1);
    }
  }

  lemma {:induction false} OneStepLater(r: bv32, n: nat)
    ensures Steps(Step(r), n) == Step(Steps(r, n))
    decreases n
  {
    hide Step;
    if n == 0 {
    } else {
      OneStepLater(Step(r), n - 1);
    }
  }

  /** What is fed at the top of a register that is 32 steps ahead is brought down at the bottom. */
  lemma FeedIsDivideStep(r: bv32, b: bool)
    ensures Step(Xor(Steps(r, 32), AtTop(b))) == Steps(Xor(Step(r), Bit(b)), 32)
  {
    hide Step, Xor, Steps;
    var s := Steps(r, 32);
    OneStepLater(r, 32);
    StepsXor(Step(r), Bit(b), 32);
    StepXor(s, AtTop(b));
    BitGoesThrough();
    ZeroStays(32);
  }

  lemma {:induction false} FeedIsDivide(r: bv32, bits: seq<bool>)
    ensures Feed(Steps(r, 32), bits) == Steps(Divide(r, bits), 32)
    decreases |bits|
  {
    hide Step, Steps, Xor, AtTop, Bit;
    if bits == [] {
    } else {
      FeedIsDivideStep(r, bits[0]);
      FeedIsDivide(Xor(Step(r), Bit(bits[0])), bits[1..]);
    }
  }

  lemma {:induction false} DivideAppend(r: bv32, s: seq<bool>, t: seq<bool>)
    ensures Divide(r, s + t) == Divide(Divide(r, s), t)
    decreases |s|
  {
    hide Step, Xor, Bit;
    if s == [] {
      assert s + t == t;
    } else {
      assert (s + t)[1..] == s[1..] + t;
      DivideAppend(Xor(Step(r), Bit(s[0])), s[1..], t);
    }
  }

  lemma {:induction false} DivideZeros(r: bv32, n: nat)
    ensures Divide(r, seq(n, _ => false)) == Steps(r, n)
    decreases n
  {
    hide Step, Xor;
    if n == 0 {
    } else {
      assert seq(n, _ => false)[1..] == seq(n - 1, _ => false);
      XorUnits(Step(r), 0);
      DivideZeros(Step(r), n - 1);
    }
  }

  /** For every message, folding it through the table leaves the remainder of the message, followed
      by 32 zero bits, on division by the generator. */
  lemma TableFoldIsRemainder(t: seq<bv32>, msg: seq<bv8>)
    requires IsTable(t)
    ensures TableFold(t, 0, msg) == Divide(0, Dividend(msg))
  {
    hide IsTable, TableFold, Steps, Divide, Feed, BitsOf;
    TableFoldIsFeed(t, 0, msg);
    ZeroStays(32);
    FeedIsDivide(0, BitsOf(msg));
    DivideAppend(0, BitsOf(msg), seq(32, _ => false));
    DivideZeros(Divide(0, BitsOf(msg)), 32);
  }

  lemma {:induction false} TableFoldAppend(t: seq<bv32>, r: bv32, s: seq<bv8>, u: seq<bv8>)
    requires |t| == 256
    ensures TableFold(t, r, s + u) == TableFold(t, TableFold(t, r, s), u)
    decreases |s|
  {
    hide TableStep;
    if s == [] {
      assert s + u == u;
    } else {
      assert (s + u)[1..] == s[1..] + u;
      TableFoldAppend(t, TableStep(t, r, s[0]), s[1..], u);
    }
  }

  function ShiftByte(r: bv32): bv32 { r << 8 }

  /** The bytes of a register, from the highest. */
  function BytesOf(r: bv32, n: nat): seq<bv8>
    decreases n, r
  {
    if n == 0 then [] else [TopByte(r)] + BytesOf(ShiftByte(r), n - 1)
  }

  function ShiftBytes(r: bv32, n: nat): bv32
    decreases n, r
  {
    if n == 0 then r else ShiftBytes(ShiftByte(r), n - 1)
  }

  lemma OwnByteShifts(t: seq<bv32>, r: bv32)
    requires IsTable(t)
    ensures TableStep(t, r, TopByte(r)) == ShiftByte(r)
  {
    hide Steps;
    ZeroStays(8);
    var i := TopByte(r) ^ TopByte(r);
    assert i == 0 && InTopByte(i) == 0;
    assert Lookup(t, i) == Entry(i);
  }

  lemma {:induction false} OwnBytesShift(t: seq<bv32>, r: bv32, n: nat)
    requires IsTable(t)
    ensures TableFold(t, r, BytesOf(r, n)) == ShiftBytes(r, n)
    decreases n
  {
    hide TableStep, TopByte, ShiftByte, IsTable;
    if n == 0 {
    } else {
      var bytes := BytesOf(r, n);
      assert bytes[1..] == BytesOf(ShiftByte(r), n - 1);
      assert |t| == 256 by { TableSize(t); }
      OwnByteShifts(t, r);
      OwnBytesShift(t, ShiftByte(r), n - 1);
    }
  }

  lemma FourBytesOut(c: bv32)
    ensures ShiftBytes(c, 4) == 0
  {
    var d := ShiftByte(ShiftByte(c));
    assert ShiftByte(ShiftByte(d)) == 0;
    assert ShiftBytes(c, 4) == ShiftBytes(d, 2) == ShiftBytes(ShiftByte(ShiftByte(d)), 0);
  }

  /** A message followed by its own remainder leaves none, from any initial register. */
  lemma OwnRemainderVanishes(t: seq<bv32>, r: bv32, msg: seq<bv8>)
    requires IsTable(t)
    ensures TableFold(t, r, msg + BytesOf(TableFold(t, r, msg), 4)) == 0
  {
    var c := TableFold(t, r, msg);
    TableFoldAppend(t, r, msg, BytesOf(c, 4));
    OwnBytesShift(t, c, 4);
    FourBytesOut(c);
  }

  lemma KnownEntries()
    ensures Entry(1) == 0x04C1_1DB7 && Entry(0x80) == 0x690C_E0EE && Entry(0xFF) == 0xB1F7_40B4
  {
  }

  /** The generator, as a known remainder: that of x^32 is 04C11DB7. */
  lemma KnownRemainders(t: seq<bv32>)
    requires IsTable(t)
    ensures TableFold(t, 0, [1]) == 0x04C1_1DB7
    ensures Lookup(t, 0x80) == 0x690C_E0EE && Lookup(t, 0xFF) == 0xB1F7_40B4
  {
    KnownEntries();
    TableSize(t);
    assert [1 as bv8][1..] == [];
    assert TopByte(0) ^ 1 == 1 && TableStep(t, 0, 1) == Lookup(t, 1);
  }

  // ---------- the fold detects bursts of 32 bits ----------

  lemma StepLowBit(r: bv32)
    ensures Step(r) & 1 != 0 <==> HasTop(r)
  {
  }

  lemma DoubleAndTop(a: bv32, b: bv32)
    ensures Double(a) == Double(b) && HasTop(a) == HasTop(b) ==> a == b
  {
  }

  /** The generator is odd, so a division step loses nothing. */
  lemma StepInjective(a: bv32, b: bv32)
    requires Step(a) == Step(b)
    ensures a == b
  {
    StepLowBit(a);
    StepLowBit(b);
    DoubleAndTop(a, b);
    XorLaws(Double(a), Double(b), POLYNOMIAL);
  }

  lemma {:induction false} StepsInjective(a: bv32, b: bv32, n: nat)
    requires Steps(a, n) == Steps(b, n)
    ensures a == b
    decreases n
  {
    hide Step;
    if n == 0 {
    } else {
      StepsInjective(Step(a), Step(b), n - 1);
      StepInjective(a, b);
    }
  }

  lemma XorInjective(a: bv32, b: bv32, c: bv32)
    ensures (Xor(a, c) == Xor(b, c) || Xor(c, a) == Xor(c, b)) <==> a == b
  {
    hide Xor;
    XorUnits(a, c);
    XorUnits(b, c);
    XorLaws(a, b, c);
    XorAssociates(a, c, c);
    XorAssociates(b, c, c);
    XorUnits(c, 0);
  }

  /** Different registers stay different, whatever is fed to both. */
  lemma {:induction false} FeedInjective(a: bv32, b: bv32, bits: seq<bool>)
    requires Feed(a, bits) == Feed(b, bits)
    ensures a == b
    decreases |bits|
  {
    hide Step, Xor, AtTop;
    if bits == [] {
    } else {
      var top := AtTop(bits[0]);
      FeedInjective(Step(Xor(a, top)), Step(Xor(b, top)), bits[1..]);
      StepInjective(Xor(a, top), Xor(b, top));
      XorInjective(a, b, top);
    }
  }

  lemma {:induction false} ShiftAdd(c: bv32, m: nat, n: nat)
    ensures Shift(c, m + n) == Shift(Shift(c, m), n)
    decreases m
  {
    hide Double;
    if m == 0 {
    } else {
      ShiftAdd(Double(c), m - 1, n);
    }
  }

  lemma {:induction false} ZeroShifts(n: nat)
    ensures Shift(0, n) == 0
    decreases n
  {
    if n == 0 {
    } else {
      ZeroShifts(n - 1);
    }
  }

  lemma ShiftThree(a: bv32, b: bv32, c: bv32, d: bv32)
    requires Double(a) == b && Double(b) == c && Double(c) == d
    ensures Shift(a, 3) == d
  {
    hide Double;
    assert Shift(a, 3) == Shift(b, 2) == Shift(c, 1) == Shift(d, 0);
  }

  lemma ShiftSeven(c: bv32)
    ensures Shift(c, 7) == c << 7
  {
    hide Double, Shift;
    Doubled(c);
    Chain(c, c << 1, c << 2, c << 3, c << 4);
    assert Shift(c, 3 + 4) == Shift(c << 4, 3);
    ShiftThree(c << 4, c << 5, c << 6, c << 7);
  }

  lemma Shifted31(c: bv32)
    ensures (c << 8) << 8 == c << 16 && (c << 16) << 8 == c << 24
    ensures (c << 24) << 7 == 0 ==> c & 1 == 0
  {
  }

  /** Only 32 shifts take the lowest bit out. */
  lemma LowBitStays(c: bv32, n: nat)
    requires Shift(c, n) == 0 && n < 32
    ensures c & 1 == 0
  {
    hide Shift;
    ShiftAdd(c, n, 31 - n);
    ZeroShifts(31 - n);
    ShiftAdd(c, 8, 23);
    ShiftAdd(c << 8, 8, 15);
    ShiftAdd(c << 16, 8, 7);
    ShiftEight(c);
    ShiftEight(c << 8);
    ShiftEight(c << 16);
    ShiftSeven(c << 24);
    Shifted31(c);
  }

  function Half(c: bv32): bv32 { c >> 1 }

  /** The word that has the given bits on top and zeros below. */
  function Word(bits: seq<bool>): bv32
    decreases |bits|
  {
    if bits == [] then 0 else Xor(Half(Word(bits[1..])), AtTop(bits[0]))
  }

  lemma Halved(c: bv32)
    requires c & 1 == 0
    ensures Double(Half(c)) == c && !HasTop(Half(c))
  {
  }

  lemma HalfDouble(c: bv32, b: bool)
    requires c & 1 == 0
    ensures var w := Xor(Half(c), AtTop(b)); Double(w) == c && HasTop(w) == b
  {
    hide Xor, Half, Double, HasTop;
    ShiftLaws(Half(c), AtTop(b));
    TopOnly();
    Halved(c);
    XorUnits(c, 0);
  }

  lemma {:induction false} WordHolds(bits: seq<bool>)
    requires |bits| <= 32
    ensures TopBits(Word(bits), |bits|) == bits && Shift(Word(bits), |bits|) == 0
    decreases |bits|
  {
    hide Xor, Half, Double, HasTop, AtTop;
    if bits == [] {
    } else {
      var rest := Word(bits[1..]);
      WordHolds(bits[1..]);
      LowBitStays(rest, |bits| - 1);
      HalfDouble(rest, bits[0]);
    }
  }

  /** Fed to the same register, different strings of at most 32 bits lead to different registers. */
  lemma ShortFeedInjective(r: bv32, s: seq<bool>, t: seq<bool>)
    requires |s| == |t| <= 32 && Feed(r, s) == Feed(r, t)
    ensures s == t
  {
    hide Feed, Shift, TopBits, Word, Xor, Steps;
    WordHolds(s);
    WordHolds(t);
    FeedTopBits(r, Word(s), |s|);
    FeedTopBits(r, Word(t), |t|);
    StepsInjective(Xor(r, Word(s)), Xor(r, Word(t)), |s|);
    XorInjective(Word(s), Word(t), r);
  }

  ghost predicate AgreeOutside(s: seq<bool>, t: seq<bool>, k: nat, n: nat) {
    |s| == |t| && forall i :: 0 <= i < |s| && !(k <= i < k + n) ==> s[i] == t[i]
  }

  lemma FeedDetects(r: bv32, s: seq<bool>, t: seq<bool>, k: nat)
    requires s != t && AgreeOutside(s, t, k, 32)
    ensures Feed(r, s) != Feed(r, t)
  {
    hide Feed;
    var i := if k <= |s| then k else |s|;
    var j := if k + 32 <= |s| then k + 32 else |s|;
    assert s == s[..i] + s[i..j] + s[j..] && t == t[..i] + t[i..j] + t[j..];
    assert s[..i] == t[..i] && s[j..] == t[j..];
    if Feed(r, s) == Feed(r, t) {
      FeedAppend(r, s[..i] + s[i..j], s[j..]);
      FeedAppend(r, t[..i] + t[i..j], t[j..]);
      FeedInjective(Feed(r, s[..i] + s[i..j]), Feed(r, t[..i] + t[i..j]), s[j..]);
      FeedAppend(r, s[..i], s[i..j]);
      FeedAppend(r, t[..i], t[i..j]);
      ShortFeedInjective(Feed(r, s[..i]), s[i..j], t[i..j]);
    }
  }

  lemma TopByteOf(b: bv8)
    ensures TopByte(InTopByte(b)) == b
  {
  }

  lemma BitsOfByte(x: bv8, y: bv8)
    requires TopBits(InTopByte(x), 8) == TopBits(InTopByte(y), 8)
    ensures x == y
  {
    hide Feed, Shift, TopBits, Xor, Steps, InTopByte;
    var c, d := InTopByte(x), InTopByte(y);
    FeedTopBits(0, c, 8);
    FeedTopBits(0, d, 8);
    ShiftedOut(x);
    ShiftedOut(y);
    StepsInjective(Xor(0, c), Xor(0, d), 8);
    XorInjective(c, d, 0);
    TopByteOf(x);
    TopByteOf(y);
  }

  lemma {:induction false} BitsOfInjective(a: seq<bv8>, b: seq<bv8>)
    requires |a| == |b| && BitsOf(a) == BitsOf(b)
    ensures a == b
    decreases |a|
  {
    hide InTopByte, TopBits;
    if a == [] {
    } else {
      var s, t := TopBits(InTopByte(a[0]), 8), TopBits(InTopByte(b[0]), 8);
      assert BitsOf(a)[..8] == s && BitsOf(b)[..8] == t;
      assert BitsOf(a)[8..] == BitsOf(a[1..]) && BitsOf(b)[8..] == BitsOf(b[1..]);
      BitsOfByte(a[0], b[0]);
      BitsOfInjective(a[1..], b[1..]);
    }
  }

  /** Different messages whose bits agree outside 32 consecutive ones have different folds, from
      any initial register. */
  lemma DetectsBursts(t: seq<bv32>, r: bv32, a: seq<bv8>, b: seq<bv8>, k: nat)
    requires IsTable(t) && |a| == |b| && AgreeOutside(BitsOf(a), BitsOf(b), k, 32)
    ensures TableFold(t, r, a) == TableFold(t, r, b) <==> a == b
  {
    hide TableFold, IsTable, BitsOf, Feed, AgreeOutside;
    assert |t| == 256 by { TableSize(t); }
    if a != b {
      if BitsOf(a) == BitsOf(b) {
        BitsOfInjective(a, b);
      }
      TableFoldIsFeed(t, r, a);
      TableFoldIsFeed(t, r, b);
      FeedDetects(r, BitsOf(a), BitsOf(b), k);
    }
  }

  /** So a message sent with its remainder behind it is told from one that was hit by such a burst,
      in the message, the remainder or both. */
  lemma HitFrameIsRefused(t: seq<bv32>, r: bv32, msg: seq<bv8>, received: seq<bv8>, k: nat)
    requires IsTable(t)
    requires var frame := msg + BytesOf(TableFold(t, r, msg), 4);
      |received| == |frame| && AgreeOutside(BitsOf(received), BitsOf(frame), k, 32)
    ensures TableFold(t, r, received) == 0 <==> received == msg + BytesOf(TableFold(t, r, msg), 4)
  {
    hide TableFold, BytesOf, BitsOf, AgreeOutside;
    OwnRemainderVanishes(t, r, msg);
    DetectsBursts(t, r, received, msg + BytesOf(TableFold(t, r, msg), 4), k);
  }

  lemma {:induction false} BytesLength(c: bv32, n: nat)
    ensures |BytesOf(c, n)| == n
    decreases n
  {
    hide TopByte, ShiftByte;
    if n == 0 {
    } else {
      BytesLength(ShiftByte(c), n - 1);
    }
  }

  lemma FourBytes(c: bv32, d: bv32)
    ensures |BytesOf(c, 4)| == |BytesOf(d, 4)| == 4
  {
    hide TopByte, ShiftByte;
    BytesLength(c, 4);
    BytesLength(d, 4);
  }

  lemma {:induction false} BitsLength(msg: seq<bv8>)
    ensures |BitsOf(msg)| == 8 * |msg|
    decreases |msg|
  {
    hide InTopByte, TopBits;
    if msg == [] {
    } else {
      BitsLength(msg[1..]);
    }
  }

  lemma FirstBits()
    ensures forall i :: 0 <= i < 7 ==> TopBits(InTopByte(1), 8)[i] == TopBits(InTopByte(0), 8)[i]
  {
  }

  /** A burst of 33 bits can pass: the generator itself. */
  lemma LongerBurstPasses(t: seq<bv32>) returns (a: seq<bv8>, b: seq<bv8>)
    requires IsTable(t)
    ensures |a| == |b| && a != b && AgreeOutside(BitsOf(a), BitsOf(b), 7, 33)
    ensures TableFold(t, 0, a) == TableFold(t, 0, b)
  {
    hide TableFold, IsTable, InTopByte, BytesOf;
    assert |t| == 256 by { TableSize(t); }
    var p, q := BytesOf(TableFold(t, 0, [1]), 4), BytesOf(TableFold(t, 0, [0]), 4);
    a, b := [1] + p, [0] + q;
    OwnRemainderVanishes(t, 0, [1]);
    OwnRemainderVanishes(t, 0, [0]);
    FourBytes(TableFold(t, 0, [1]), TableFold(t, 0, [0]));
    assert a[1..] == p && b[1..] == q;
    BitsLength(p);
    BitsLength(q);
    FirstBits();
    assert a[0] != b[0];
  }
}
