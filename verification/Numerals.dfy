/** Numerals: what the digit printer of tiny_printf.c must produce, and how it does. */
module Numerals {
  import opened Arithmetic

  // ---------- the numeral of a number ----------

  function Pow(base: nat, k: nat): nat {
    if k == 0 then 1 else base * Pow(base, k - 1)
  }

  function DigitChar(n: nat): byte
    requires n < 36
  {
    if n > 9 then n - 10 + 65 else n + 48
  }

  /** The characters that stand for the digits. */
  lemma DigitChars(n: nat)
    requires n < 36
    ensures DigitChar(n) == "0123456789ABCDEFGHIJKLMNOPQRSTUVWXYZ"[n] as int
  {
  }

  predicate IsDigit(c: byte, base: nat) {
    48 <= c < 48 + (if base < 10 then base else 10) || 65 <= c < 65 + base - 10
  }

  function DigitValue(c: byte): int { if c >= 65 then c - 55 else c - 48 }

  /** What a string of digits denotes. */
  function Denotes(s: seq<byte>, base: nat): int {
    if s == [] then 0 else base * Denotes(s[..|s| - 1], base) + DigitValue(s[|s| - 1])
  }

  ghost predicate IsNumeral(s: seq<byte>, base: nat) {
    && s != [] && (forall i :: 0 <= i < |s| ==> IsDigit(s[i], base))
    && (|s| > 1 ==> s[0] != 48)
  }

  lemma DivLess(d: nat, base: nat)
    requires 2 <= base <= d
    ensures 0 < d / base < d
  {
  }

  function Digits(d: nat, base: nat): seq<byte>
    requires 2 <= base <= 36
    decreases d
  {
    if d < base then [DigitChar(d)] else DivLess(d, base); Digits(d / base, base) + [DigitChar(d % base)]
  }

  /** The round trip: the numeral is well formed, without a leading zero, and denotes the number. */
  lemma {:induction false} DigitsDenote(d: nat, base: nat)
    requires 2 <= base <= 36
    ensures IsNumeral(Digits(d, base), base) && Denotes(Digits(d, base), base) == d
    ensures d > 0 ==> Digits(d, base)[0] != 48
    decreases d
  {
    var s := Digits(d, base);
    if d < base {
      assert s[..0] == [];
    } else {
      DivLess(d, base);
      DigitsDenote(d / base, base);
      assert s[..|s| - 1] == Digits(d / base, base);
      DivMod(d, base);
    }
  }

  lemma {:induction false} DenotesNonneg(s: seq<byte>, base: nat)
    requires 2 <= base <= 36 && forall i :: 0 <= i < |s| ==> IsDigit(s[i], base)
    ensures Denotes(s, base) >= 0
    ensures s != [] && s[0] != 48 ==> Denotes(s, base) > 0
  {
    if s == [] {
    } else {
      var init := s[..|s| - 1];
      DenotesNonneg(init, base);
      MulMonotone(if init != [] && s[0] != 48 then 1 else 0, Denotes(init, base), base);
    }
  }

  /** There is no other numeral for a number, so none with fewer digits either. */
  lemma {:induction false} NumeralIsUnique(s: seq<byte>, base: nat)
    requires 2 <= base <= 36 && IsNumeral(s, base)
    ensures Denotes(s, base) >= 0 && s == Digits(Denotes(s, base), base)
    decreases |s|
  {
    var init, last := s[..|s| - 1], s[|s| - 1];
    var d := Denotes(s, base);
    DenotesNonneg(s, base);
    if init == [] {
      assert s == [last] && Denotes(init, base) == 0;
      assert DigitChar(DigitValue(last)) == last;
    } else {
      DenotesNonneg(init, base);
      NumeralIsUnique(init, base);
      var q := Denotes(init, base);
      MulMonotone(1, q, base);
      DivUnique(d, q, DigitValue(last), base);
      assert s == init + [last];
    }
  }

  lemma {:induction false} StripZero(s: seq<byte>, base: nat)
    requires |s| > 0 && s[0] == 48
    ensures Denotes(s, base) == Denotes(s[1..], base)
  {
    if |s| == 1 {
      assert s[..0] == [] && s[1..] == [];
    } else {
      StripZero(s[..|s| - 1], base);
      assert s[..|s| - 1][1..] == s[1..][..|s| - 2];
    }
  }

  /** Digits may only be put in front of a numeral as zeros: no digit string for `d` is shorter. */
  lemma {:induction false} DigitsAreMinimal(s: seq<byte>, base: nat)
    requires 2 <= base <= 36 && s != [] && forall i :: 0 <= i < |s| ==> IsDigit(s[i], base)
    ensures Denotes(s, base) >= 0 && |Digits(Denotes(s, base), base)| <= |s|
    decreases |s|
  {
    DenotesNonneg(s, base);
    if |s| > 1 && s[0] == 48 {
      StripZero(s, base);
      DigitsAreMinimal(s[1..], base);
    } else {
      NumeralIsUnique(s, base);
    }
  }

  lemma PowStep(base: nat, k: nat)
    ensures k > 0 ==> Pow(base, k) == base * Pow(base, k - 1)
    ensures Pow(base, 0) == 1
  {
  }

  lemma {:induction false} PowPositive(base: nat, k: nat)
    requires base >= 2
    ensures Pow(base, k) >= 1
  {
    if k == 0 {
    } else {
      PowPositive(base, k - 1);
    }
  }

  lemma {:induction false} DigitsBound(d: nat, base: nat, k: nat)
    requires 2 <= base <= 36 && k >= 1 && d < Pow(base, k)
    ensures |Digits(d, base)| <= k
    decreases k
  {
    if d < base {
    } else {
      DivLess(d, base);
      DivAtLeast(d, Pow(base, k - 1), base);
      DigitsBound(d / base, base, k - 1);
    }
  }

  lemma {:induction false} DenotesBelow(s: seq<byte>, base: nat)
    requires 2 <= base <= 36 && forall i :: 0 <= i < |s| ==> IsDigit(s[i], base)
    ensures Denotes(s, base) < Pow(base, |s|)
  {
    if s == [] {
    } else {
      var init := s[..|s| - 1];
      DenotesBelow(init, base);
      LessTimes(Denotes(init, base), Pow(base, |init|), base, DigitValue(s[|s| - 1]));
    }
  }

  lemma {:induction false} PowMonotone(base: nat, j: nat, k: nat)
    requires base >= 2 && j <= k
    ensures Pow(base, j) <= Pow(base, k)
    decreases k
  {
    if j == k {
    } else {
      PowMonotone(base, j, k - 1);
      assert base * Pow(base, k - 1) >= Pow(base, k - 1);
    }
  }

  /** A number has `k` digits exactly when it lies between the powers of the base that say so. */
  lemma DigitsLength(d: nat, base: nat, k: nat)
    requires 2 <= base <= 36 && k >= 1
    ensures |Digits(d, base)| == k <==> d < Pow(base, k) && (k == 1 || d >= Pow(base, k - 1))
  {
    var n := |Digits(d, base)|;
    DigitsDenote(d, base);
    DenotesBelow(Digits(d, base), base);
    if d < Pow(base, k) {
      DigitsBound(d, base, k);
    }
    if n == k > 1 && d < Pow(base, k - 1) {
      DigitsBound(d, base, k - 1);
    }
    if n < k {
      PowMonotone(base, n, k - 1);
    }
  }

  lemma PowTen()
    ensures Pow(10, 9) == 1_000_000_000 && Pow(10, 10) == 10_000_000_000
  {
  }

  lemma PowSixteen()
    ensures Pow(16, 7) == 0x1000_0000 && Pow(16, 8) == UINT_RANGE
  {
  }

  /** The widths tiny_printf.c states: ten decimal digits, eight hexadecimal ones. */
  lemma WidthOfUint(d: nat)
    requires d < UINT_RANGE
    ensures |Digits(d, 10)| <= 10 && |Digits(d, 16)| <= 8
  {
    assert Pow(10, 10) == 10_000_000_000 by { PowTen(); }
    assert Pow(16, 8) == UINT_RANGE by { PowSixteen(); }
    DigitsBound(d, 10, 10);
    DigitsBound(d, 16, 8);
  }

  /** Digit by digit: place `i`, from the right, holds the quotient by the power `i`, modulo the base. */
  lemma {:induction false} DigitAt(d: nat, base: nat, i: nat)
    requires 2 <= base <= 36 && i < |Digits(d, base)|
    ensures Pow(base, i) >= 1 && d / Pow(base, i) >= 0
    ensures Digits(d, base)[|Digits(d, base)| - 1 - i] == DigitChar(d / Pow(base, i) % base)
    decreases i
  {
    hide DigitChar;
    PowPositive(base, i);
    DivAtLeast(d, 0, Pow(base, i));
    var s := Digits(d, base);
    if i == 0 {
      PowStep(base, 0);
      if d < base {
        DivUnique(d, 0, d, base);
      }
    } else {
      DivLess(d, base);
      PowPositive(base, i - 1);
      DigitAt(d / base, base, i - 1);
      QuotientOfQuotient(d, base, Pow(base, i - 1));
      assert s[..|s| - 1] == Digits(d / base, base);
    }
  }

  // ---------- ts_itoa ----------

  /** The weight of no digit of `d` exceeds the largest signed int: what the `div` of the source,
      which is one, relies on. */
  ghost predicate WeightsFit(d: nat, base: nat) {
    forall k: nat :: Pow(base, k) <= d ==> Pow(base, k) <= INT_MAX
  }

  /** In the two bases that are used every unsigned int is of that kind. */
  lemma UsedBasesFit(d: nat, base: nat)
    requires d < UINT_RANGE && (base == 10 || base == 16)
    ensures WeightsFit(d, base)
  {
    PowTen();
    PowSixteen();
    forall k: nat | Pow(base, k) <= d ensures Pow(base, k) <= INT_MAX {
      if base == 10 {
        if k >= 10 { PowMonotone(10, 10, k); } else { PowMonotone(10, k, 9); }
      } else {
        if k >= 8 { PowMonotone(16, 8, k); } else { PowMonotone(16, k, 7); }
      }
    }
  }

  lemma NextWeight(d: nat, base: nat, k: nat, div: nat)
    requires base >= 2 && k >= 1 && div == Pow(base, k - 1) >= 1 && WeightsFit(d, base)
    ensures if d / div >= base then div < div * base == Pow(base, k) <= d && Pow(base, k) <= INT_MAX
            else d < Pow(base, k)
  {
    PowStep(base, k);
    DivAtLeast(d, base, div);
    MulMonotone(2, base, div);
  }

  /** The first loop of ts_itoa: the weight of the highest digit, which fits a signed int, as does
      every value `div` takes on the way. */
  method Divisor(d: nat, base: nat) returns (div: nat, ghost digits: nat)
    requires 2 <= base <= 36 && WeightsFit(d, base)
    ensures digits >= 1 && div == Pow(base, digits - 1) && 1 <= div <= INT_MAX
    ensures d < Pow(base, digits) && (digits == 1 || div <= d)
  {
    hide Pow, WeightsFit;
    PowStep(base, 0);
    div, digits := 1, 1;
    while d / div >= base
      invariant digits >= 1 && div == Pow(base, digits - 1) && 1 <= div <= INT_MAX
      invariant digits == 1 || div <= d
      decreases d - div
    {
      NextWeight(d, base, digits, div);
      div := div * base;
      digits := digits + 1;
    }
    NextWeight(d, base, digits, div);
  }

  /** The state of the printing loop: `printed` and the `left` digits of `d` still to come make up
      the number, and the first digit is no zero that could be left out. */
  ghost predicate Printing(number: nat, base: nat, printed: seq<byte>, d: nat, div: nat, left: nat) {
    && 2 <= base <= 36 && |printed| + left == |Digits(number, base)|
    && (forall i :: 0 <= i < |printed| ==> IsDigit(printed[i], base))
    && Denotes(printed, base) >= 0
    && (if left == 0 then div == 0 && Denotes(printed, base) == number
        else div == Pow(base, left - 1) >= 1 && d < base * div && number == Denotes(printed, base) * (base * div) + d)
    && (|Digits(number, base)| == 1 || if printed == [] then div <= d else printed[0] != 48)
  }

  lemma SplitNumber(number: nat, high: nat, d: nat, base: nat, p: nat)
    requires base >= 1 && p >= 1 && d < base * p && number == high * (base * p) + d
    ensures 0 <= d / p < base && 0 <= d % p < p && (d >= p ==> d / p >= 1)
    ensures number == (base * high + d / p) * p + d % p
  {
  }

  lemma DenotesAppend(s: seq<byte>, n: nat, base: nat)
    requires n < base <= 36
    ensures Denotes(s + [DigitChar(n)], base) == base * Denotes(s, base) + n
  {
    var t := s + [DigitChar(n)];
    assert t[..|t| - 1] == s && t[|t| - 1] == DigitChar(n);
    assert DigitValue(DigitChar(n)) == n;
  }

  lemma DivStep(base: nat, k: nat)
    requires base >= 2 && k >= 1
    ensures Pow(base, k - 1) / base == if k == 1 then 0 else Pow(base, k - 2)
    ensures k > 1 ==> Pow(base, k - 2) >= 1 && Pow(base, k - 1) == base * Pow(base, k - 2)
  {
    if k > 1 {
      PowPositive(base, k - 2);
      DivUnique(Pow(base, k - 1), Pow(base, k - 2), 0, base);
    }
  }

  lemma PrintDigit(number: nat, base: nat, printed: seq<byte>, d: nat, div: nat, left: nat)
    requires left > 0 && Printing(number, base, printed, d, div, left)
    ensures 0 <= d / div < base && d % div >= 0 && div / base >= 0
    ensures Printing(number, base, printed + [DigitChar(d / div)], d % div, div / base, left - 1)
  {
    hide Pow, Digits, Denotes;
    var high := Denotes(printed, base);
    SplitNumber(number, high, d, base, div);
    DenotesAppend(printed, d / div, base);
    MulMonotone(0, high, base);
    DivStep(base, left);
    PowStep(base, 0);
  }

  /** `s` written over `before` from `pos` on. */
  ghost predicate Overlaid(before: seq<byte>, pos: nat, s: seq<byte>, after: seq<byte>) {
    pos + |s| <= |before| && after == before[..pos] + s + before[pos + |s|..]
  }

  lemma DenotesEmpty(base: nat)
    ensures Denotes([], base) == 0
  {
  }

  lemma StartPrinting(number: nat, base: nat, div: nat, left: nat)
    requires 2 <= base <= 36 && left >= 1 && div == Pow(base, left - 1) >= 1
    requires number < Pow(base, left) && (left == 1 || div <= number)
    ensures Printing(number, base, [], number, div, left) && |Digits(number, base)| == left
  {
    DigitsLength(number, base, left);
    PowStep(base, left);
    DenotesEmpty(base);
  }

  lemma OverlayNone(before: seq<byte>, pos: nat)
    requires pos <= |before|
    ensures Overlaid(before, pos, [], before)
  {
  }

  lemma DivisorGone(number: nat, base: nat, printed: seq<byte>, d: nat, div: nat, left: nat)
    requires Printing(number, base, printed, d, div, left)
    ensures div == 0 <==> left == 0
  {
  }

  lemma OverlayNext(before: seq<byte>, pos: nat, s: seq<byte>, cur: seq<byte>, c: byte)
    requires Overlaid(before, pos, s, cur) && pos + |s| < |before|
    ensures |cur| == |before| && Overlaid(before, pos, s + [c], cur[pos + |s| := c])
  {
  }

  lemma PrintedIsNumeral(number: nat, base: nat, printed: seq<byte>, d: nat)
    requires Printing(number, base, printed, d, 0, 0)
    ensures printed == Digits(number, base)
  {
    DigitsDenote(number, base);
    NumeralIsUnique(printed, base);
  }

  /** ts_itoa, with the position `pos` in `buf` for the pointer it advances. */
  method TsItoa(buf: array<byte>, pos: nat, number: nat, base: nat) returns (next: nat)
    requires number < UINT_RANGE && 2 <= base <= 36 && WeightsFit(number, base)
    requires pos + |Digits(number, base)| <= buf.Length
    modifies buf
    ensures next == pos + |Digits(number, base)|
    ensures Overlaid(old(buf[..]), pos, Digits(number, base), buf[..])
  {
    hide Digits, Printing, Overlaid;
    var d: nat := number;
    var div, left := Divisor(d, base);
    StartPrinting(number, base, div, left);
    ghost var before, printed := buf[..], [];
    next := pos;
    OverlayNone(before, pos);
    while div != 0
      invariant div >= 0 && Printing(number, base, printed, d, div, left) && (div == 0 <==> left == 0)
      invariant next == pos + |printed| && |printed| + left == |Digits(number, base)|
      invariant Overlaid(before, pos, printed, buf[..])
      decreases left
    {
      PrintDigit(number, base, printed, d, div, left);
      DivisorGone(number, base, printed + [DigitChar(d / div)], d % div, div / base, left - 1);
      var num: nat := d / div;
      d := d % div;
      div := div / base;
      ghost var cur, digit := buf[..], DigitChar(num);
      OverlayNext(before, pos, printed, cur, digit);
      printed := printed + [digit];
      if num > 9 {
        buf[next] := num - 10 + 65;
      } else {
        buf[next] := num + 48;
      }
      assert buf[..] == cur[next := digit];
      next := next + 1;
      left := left - 1;
    }
    PrintedIsNumeral(number, base, printed, d);
  }
}
