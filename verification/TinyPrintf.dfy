/** The formatter of tiny_printf.c: a reference renderer, and the pointer-moving code against it.
    Strings are C strings without their terminating zero; the argument list is the `va_list`. */
module TinyPrintf {
  import opened Arithmetic
  import opened Numerals

  type CString = s: seq<byte> | 0 !in s

  /** An argument of the list: an int, which `%u`, `%x` and `%c` reinterpret, or a string. */
  datatype Arg = Int(v: int) | Str(s: CString)

  const PERCENT: byte := 0x25

  predicate IsSigned(c: byte) { c == 0x64 || c == 0x69 }   // d i
  predicate IsHex(c: byte) { c == 0x78 || c == 0x58 }      // x X
  predicate WantsInt(c: byte) { c == 0x63 || IsSigned(c) || c == 0x75 || IsHex(c) }  // c d i u x X
  predicate WantsString(c: byte) { c == 0x73 }             // s

  /** The conversions that take an argument. */
  predicate Named(c: byte) {
    c == 'c' as int || c == 's' as int || c == 'u' as int ||
    c == 'd' as int || c == 'i' as int || c == 'x' as int || c == 'X' as int
  }

  // ---------- the reference renderer ----------

  /** A literal character, or a conversion with the character that selects it. */
  datatype Token = Literal(c: byte) | Conversion(c: byte)

  predicate WellFormed(fmt: CString) {
    fmt == [] || if fmt[0] == PERCENT then |fmt| >= 2 && WellFormed(fmt[2..]) else WellFormed(fmt[1..])
  }

  /** The tokens of a format with no lone `%` at its end. */
  function Tokens(fmt: CString): seq<Token>
    requires WellFormed(fmt)
  {
    if fmt == [] then []
    else if fmt[0] == PERCENT then [Conversion(fmt[1])] + Tokens(fmt[2..])
    else [Literal(fmt[0])] + Tokens(fmt[1..])
  }

  predicate Takes(t: Token) { t.Conversion? && (WantsInt(t.c) || WantsString(t.c)) }

  predicate ArgFits(c: byte, a: Arg) {
    if WantsString(c) then a.Str? else a.Int? && -INT_MAX - 1 <= a.v <= INT_MAX
  }

  predicate TokenFits(t: Token, va: seq<Arg>) { Takes(t) ==> va != [] && ArgFits(t.c, va[0]) }

  /** The argument list after a token. */
  function After(t: Token, va: seq<Arg>): seq<Arg>
    requires TokenFits(t, va)
  {
    if Takes(t) then va[1..] else va
  }

  /** The arguments fit the tokens: one of the right kind for each that takes one. */
  predicate Fit(ts: seq<Token>, va: seq<Arg>) {
    ts == [] || (TokenFits(ts[0], va) && Fit(ts[1..], After(ts[0], va)))
  }

  function Decimal(v: int): seq<byte> {
    if v < 0 then [0x2D] + Digits(-v, 10) else Digits(v, 10)
  }

  /** What a conversion shows of its argument. */
  function Shown(c: byte, a: Arg): seq<byte>
    requires (WantsInt(c) || WantsString(c)) && ArgFits(c, a)
  {
    if WantsString(c) then a.s
    else if IsSigned(c) then Decimal(a.v)
    else if c == 0x63 then [a.v % 0x100]
    else if IsHex(c) then Digits(U32(a.v), 16)
    else Digits(U32(a.v), 10)
  }

  /** What a token shows; an unknown conversion shows nothing. */
  function Piece(t: Token, va: seq<Arg>): seq<byte>
    requires TokenFits(t, va)
  {
    if Takes(t) then Shown(t.c, va[0]) else if t.Literal? || t.c == PERCENT then [t.c] else []
  }

  function Render(ts: seq<Token>, va: seq<Arg>): seq<byte>
    requires Fit(ts, va)
  {
    if ts == [] then [] else Piece(ts[0], va) + Render(ts[1..], After(ts[0], va))
  }

  function Remaining(ts: seq<Token>, va: seq<Arg>): seq<Arg>
    requires Fit(ts, va)
  {
    if ts == [] then va else Remaining(ts[1..], After(ts[0], va))
  }

  function TokenLength(fmt: CString): nat { if fmt != [] && fmt[0] == PERCENT then 2 else 1 }

  function TokenOf(s: seq<byte>): Token
    requires s != []
  {
    if |s| == 2 then Conversion(s[1]) else Literal(s[0])
  }

  lemma TokensStep(fmt: CString)
    requires fmt != []
    ensures WellFormed(fmt) <==> TokenLength(fmt) <= |fmt| && WellFormed(fmt[TokenLength(fmt)..])
    ensures WellFormed(fmt) ==>
      Tokens(fmt) == [TokenOf(fmt[..TokenLength(fmt)])] + Tokens(fmt[TokenLength(fmt)..])
  {
  }

  lemma TokensNonempty(fmt: CString)
    ensures fmt == [] ==> WellFormed(fmt)
    ensures WellFormed(fmt) ==> (Tokens(fmt) == [] <==> fmt == [])
  {
  }

  /** Between tokens a format may be split: tokens, arguments and output split with it. */
  lemma {:induction false} TokensSplit(f: CString, g: CString)
    requires WellFormed(f) && WellFormed(g)
    ensures WellFormed(f + g) && Tokens(f + g) == Tokens(f) + Tokens(g)
    decreases |f|
  {
    hide WellFormed, Tokens;
    TokensNonempty([]);
    if f == [] {
      assert f + g == g;
    } else {
      var k := TokenLength(f);
      TokensStep(f);
      TokensSplit(f[k..], g);
      assert (f + g)[k..] == f[k..] + g && (f + g)[..k] == f[..k];
      TokensStep(f + g);
      assert Tokens(f + g) == [TokenOf(f[..k])] + (Tokens(f[k..]) + Tokens(g));
    }
  }

  lemma {:induction false} RenderSplit(s: seq<Token>, t: seq<Token>, va: seq<Arg>)
    requires Fit(s + t, va)
    ensures Fit(s, va) && Fit(t, Remaining(s, va))
    ensures Render(s + t, va) == Render(s, va) + Render(t, Remaining(s, va))
    ensures Remaining(s + t, va) == Remaining(t, Remaining(s, va))
    decreases |s|
  {
    hide Piece, After, TokenFits;
    if s == [] {
      assert s + t == t;
    } else {
      assert (s + t)[1..] == s[1..] + t && (s + t)[0] == s[0];
      var next := After(s[0], va);
      RenderSplit(s[1..], t, next);
      assert Piece(s[0], va) + Render(s[1..], next) + Render(t, Remaining(s[1..], next))
          == Piece(s[0], va) + (Render(s[1..], next) + Render(t, Remaining(s[1..], next)));
    }
  }

  /** Splitting a format between tokens splits what is printed. */
  lemma FormatSplit(f: CString, g: CString, va: seq<Arg>)
    requires WellFormed(f) && WellFormed(g) && Fit(Tokens(f) + Tokens(g), va)
    ensures WellFormed(f + g) && Fit(Tokens(f + g), va) && Fit(Tokens(f), va)
    ensures var rest := Remaining(Tokens(f), va);
      Fit(Tokens(g), rest) && Render(Tokens(f + g), va) == Render(Tokens(f), va) + Render(Tokens(g), rest)
  {
    TokensSplit(f, g);
    RenderSplit(Tokens(f), Tokens(g), va);
  }

  lemma OneConversion(c: byte, va: seq<Arg>)
    requires c != 0 && Fit([Conversion(c)], va)
    ensures WellFormed([PERCENT, c]) && Tokens([PERCENT, c]) == [Conversion(c)]
    ensures Render([Conversion(c)], va) == Piece(Conversion(c), va)
    ensures Named(c) == Takes(Conversion(c)) && (Named(c) ==> va != [] && ArgFits(c, va[0]))
    ensures Remaining([Conversion(c)], va) == if Named(c) then va[1..] else va
  {
    hide Shown;
    assert [PERCENT, c][2..] == [];
    assert Render([], After(Conversion(c), va)) == [];
  }

  lemma ShowsSigned(c: byte, v: int)
    requires IsSigned(c) && ArgFits(c, Int(v))
    ensures var r := Shown(c, Int(v));
      if v < 0 then |r| > 1 && r[0] == '-' as int && IsNumeral(r[1..], 10) && Denotes(r[1..], 10) == -v
      else IsNumeral(r, 10) && Denotes(r, 10) == v
  {
    hide Digits, Denotes;
    DigitsDenote(if v < 0 then -v else v, 10);
    if v < 0 {
      assert Shown(c, Int(v))[1..] == Digits(-v, 10);
    }
  }

  /** What a conversion prints, and whether it takes its argument off the list, without reference to
      how it is rendered: a numeral by what it denotes, anything else byte by byte. */
  lemma ConversionShows(c: byte, va: seq<Arg>)
    requires c != 0 && Fit([Conversion(c)], va)
    ensures WellFormed([PERCENT, c]) && Tokens([PERCENT, c]) == [Conversion(c)]
    ensures Named(c) ==> va != [] && if c == 's' as int then va[0].Str? else va[0].Int?
    ensures var r := Render([Conversion(c)], va);
      && (c == 'u' as int ==> IsNumeral(r, 10) && Denotes(r, 10) == va[0].v % 0x1_0000_0000)
      && (c == 'x' as int || c == 'X' as int ==> IsNumeral(r, 16) && Denotes(r, 16) == va[0].v % 0x1_0000_0000)
      && (c == 'd' as int || c == 'i' as int ==>
            if va[0].v < 0
            then |r| > 1 && r[0] == '-' as int && IsNumeral(r[1..], 10) && Denotes(r[1..], 10) == -va[0].v
            else IsNumeral(r, 10) && Denotes(r, 10) == va[0].v)
      && (c == 'c' as int ==> |r| == 1 && (va[0].v - r[0]) % 0x100 == 0)
      && (c == 's' as int ==> r == va[0].s)
      && (c == '%' as int ==> r == ['%' as int])
      && (!Named(c) && c != '%' as int ==> r == [])
    ensures Remaining([Conversion(c)], va) == if Named(c) then va[1..] else va
  {
    hide Digits, Denotes, IsNumeral, Render, Remaining, Fit, Tokens, WellFormed, Decimal;
    OneConversion(c, va);
    if Named(c) && va[0].Int? {
      var v := va[0].v;
      DigitsDenote(U32(v), 10);
      DigitsDenote(U32(v), 16);
      if IsSigned(c) {
        ShowsSigned(c, v);
      } else if c == 'c' as int {
        DivMod(v, 0x100);
      }
    }
  }

  // ---------- the length estimate ----------

  function TokenBound(t: Token, va: seq<Arg>): nat
    requires TokenFits(t, va)
  {
    if !Takes(t) then 1
    else if WantsString(t.c) then |va[0].s|
    else if t.c == 0x63 then 1
    else if IsHex(t.c) then 8
    else 11
  }

  function LengthBound(ts: seq<Token>, va: seq<Arg>): nat
    requires Fit(ts, va)
  {
    if ts == [] then 0
    else TokenBound(ts[0], va) + LengthBound(ts[1..], After(ts[0], va))
  }

  /** The estimates as numbers. */
  lemma EstimateOf(c: byte, va: seq<Arg>)
    requires Fit([Conversion(c)], va)
    ensures LengthBound([Conversion(c)], va) ==
      if c == 'd' as int || c == 'i' as int || c == 'u' as int then 11
      else if c == 'x' as int || c == 'X' as int then 8
      else if c == 's' as int then |va[0].s| else 1
    ensures LengthBound([Literal(c)], va) == 1
  {
    assert LengthBound([], va) == 0 && LengthBound([], After(Conversion(c), va)) == 0;
    assert LengthBound([Literal(c)], va) == TokenBound(Literal(c), va) + LengthBound([Literal(c)][1..], va);
  }

  lemma DecimalBound(v: int)
    requires -INT_MAX - 1 <= v < UINT_RANGE
    ensures 1 <= |Decimal(v)| <= 11 && (v >= 0 ==> |Decimal(v)| <= 10)
  {
    WidthOfUint(if v < 0 then -v else v);
    DigitsDenote(if v < 0 then -v else v, 10);
  }

  lemma PieceBound(t: Token, va: seq<Arg>)
    requires TokenFits(t, va)
    ensures |Piece(t, va)| <= TokenBound(t, va)
  {
    if Takes(t) && va[0].Int? {
      DecimalBound(va[0].v);
      WidthOfUint(U32(va[0].v));
    }
  }

  /** The estimate dominates the output, for every format and arguments that fit it. */
  lemma {:induction false} BoundDominates(ts: seq<Token>, va: seq<Arg>)
    requires Fit(ts, va)
    ensures |Render(ts, va)| <= LengthBound(ts, va)
    decreases |ts|
  {
    if ts == [] {
    } else {
      PieceBound(ts[0], va);
      BoundDominates(ts[1..], After(ts[0], va));
    }
  }

  /** A token whose estimate is more than it shows: an unknown conversion, any `%u`, a decimal above
      minus a thousand million, a hexadecimal below the eighth digit. */
  predicate Loose(t: Token, va: seq<Arg>)
    requires TokenFits(t, va)
  {
    if !Takes(t) then t.Conversion? && t.c != PERCENT
    else if IsSigned(t.c) then va[0].v > -1_000_000_000
    else if IsHex(t.c) then U32(va[0].v) < 0x1000_0000
    else t.c == 0x75
  }

  predicate SomeLoose(ts: seq<Token>, va: seq<Arg>)
    requires Fit(ts, va)
  {
    ts != [] && (Loose(ts[0], va) || SomeLoose(ts[1..], After(ts[0], va)))
  }

  lemma PieceIsShortIff(t: Token, va: seq<Arg>)
    requires TokenFits(t, va)
    ensures Loose(t, va) <==> |Piece(t, va)| < TokenBound(t, va)
  {
    if Takes(t) && va[0].Int? {
      var v := va[0].v;
      PieceBound(t, va);
      PowTen();
      PowSixteen();
      DigitsLength(if v < 0 then -v else v, 10, 10);
      DigitsLength(U32(v), 16, 8);
      WidthOfUint(if v < 0 then -v else v);
      WidthOfUint(U32(v));
    }
  }

  /** fiprintf and iprintf format into a buffer of just the estimated length.  The terminator has a
      place in it exactly when some token is loose; for plain text it has none. */
  lemma {:induction false} TerminatorFitsIff(ts: seq<Token>, va: seq<Arg>)
    requires Fit(ts, va)
    ensures |Render(ts, va)| < LengthBound(ts, va) <==> SomeLoose(ts, va)
    decreases |ts|
  {
    if ts == [] {
    } else {
      PieceIsShortIff(ts[0], va);
      PieceBound(ts[0], va);
      TerminatorFitsIff(ts[1..], After(ts[0], va));
      BoundDominates(ts[1..], After(ts[0], va));
    }
  }

  /** So every format without a conversion, of any length, fills the buffer and leaves none. */
  lemma {:induction false} PlainTextLeavesNoRoom(fmt: CString, va: seq<Arg>)
    requires PERCENT !in fmt
    ensures WellFormed(fmt) && Fit(Tokens(fmt), va)
    ensures Render(Tokens(fmt), va) == fmt && LengthBound(Tokens(fmt), va) == |fmt|
    decreases |fmt|
  {
    if fmt == [] {
    } else {
      PlainTextLeavesNoRoom(fmt[1..], va);
      assert Tokens(fmt) == [Literal(fmt[0])] + Tokens(fmt[1..]) && [fmt[0]] + fmt[1..] == fmt;
    }
  }

  /** The loop that counts a string argument. */
  method StringLength(s: CString) returns (n: nat)
    ensures n == |s|
  {
    n := 0;
    while n < |s|
      invariant n <= |s|
    {
      n := n + 1;
    }
  }

  /** ts_formatlength; `rest` is where it leaves the argument list. */
  method TsFormatLength(fmt: CString, va: seq<Arg>) returns (length: nat, rest: seq<Arg>)
    requires WellFormed(fmt) && Fit(Tokens(fmt), va)
    ensures length == LengthBound(Tokens(fmt), va) >= |Render(Tokens(fmt), va)|
    ensures rest == Remaining(Tokens(fmt), va)
  {
    hide Piece, Render;
    BoundDominates(Tokens(fmt), va);
    length, rest := 0, va;
    var i := 0;
    while i < |fmt|
      invariant i <= |fmt| && WellFormed(fmt[i..]) && Fit(Tokens(fmt[i..]), rest)
      invariant length + LengthBound(Tokens(fmt[i..]), rest) == LengthBound(Tokens(fmt), va)
      invariant Remaining(Tokens(fmt[i..]), rest) == Remaining(Tokens(fmt), va)
    {
      ghost var ts := Tokens(fmt[i..]);
      assert fmt[i..][1..] == fmt[i + 1..];
      if fmt[i] == PERCENT {
        assert fmt[i..][2..] == fmt[i + 2..];
        i := i + 1;
        var c := fmt[i];
        if c == 0x63 {
          rest := rest[1..];
          length := length + 1;
        } else if IsSigned(c) || c == 0x75 {
          length := length + 11;
          rest := rest[1..];
        } else if WantsString(c) {
          var n := StringLength(rest[0].s);
          length := length + n;
          rest := rest[1..];
        } else if IsHex(c) {
          length := length + 8;
          rest := rest[1..];
        } else {
          length := length + 1;
        }
      } else {
        length := length + 1;
      }
      i := i + 1;
      assert ts[1..] == Tokens(fmt[i..]);
    }
  }

  // ---------- the formatter ----------

  /** The `%s` loop. */
  method CopyString(buf: array<byte>, pos: nat, s: CString) returns (next: nat)
    requires pos + |s| <= buf.Length
    modifies buf
    ensures next == pos + |s| && Overlaid(old(buf[..]), pos, s, buf[..])
  {
    hide Overlaid;
    next := pos;
    var i := 0;
    OverlayNone(buf[..], pos);
    while i < |s|
      invariant i <= |s| && next == pos + i && Overlaid(old(buf[..]), pos, s[..i], buf[..])
    {
      ghost var cur := buf[..];
      OverlayNext(old(buf[..]), pos, s[..i], cur, s[i]);
      assert s[..i + 1] == s[..i] + [s[i]];
      buf[next] := s[i];
      assert buf[..] == cur[next := s[i]];
      next := next + 1;
      i := i + 1;
    }
    assert s[..|s|] == s;
  }

  method PutChar(buf: array<byte>, pos: nat, c: byte) returns (next: nat)
    requires pos < buf.Length
    modifies buf
    ensures next == pos + 1 && Overlaid(old(buf[..]), pos, [c], buf[..])
  {
    buf[pos] := c;
    next := pos + 1;
  }

  lemma OverlayJoin(a: seq<byte>, pos: nat, s: seq<byte>, b: seq<byte>, t: seq<byte>, c: seq<byte>)
    requires Overlaid(a, pos, s, b) && Overlaid(b, pos + |s|, t, c)
    ensures Overlaid(a, pos, s + t, c)
  {
  }

  /** `%d` and `%i`: the sign, then the negated value, whose wrap-around is undone by the unsigned
      parameter of the digit printer. */
  method PutSigned(buf: array<byte>, pos: nat, v: int) returns (next: nat)
    requires -INT_MAX - 1 <= v <= INT_MAX && pos + |Decimal(v)| <= buf.Length
    modifies buf
    ensures next == pos + |Decimal(v)| && Overlaid(old(buf[..]), pos, Decimal(v), buf[..])
  {
    hide Overlaid, Digits;
    var val := v;
    next := pos;
    if val < 0 {
      val := Wrap(val * -1);
      next := PutChar(buf, next, 0x2D);
      assert U32(val) == -v;
      ghost var mid := buf[..];
      UsedBasesFit(U32(val), 10);
      next := TsItoa(buf, next, U32(val), 10);
      OverlayJoin(old(buf[..]), pos, [0x2D], mid, Digits(-v, 10), buf[..]);
    } else {
      assert U32(val) == v;
      UsedBasesFit(U32(val), 10);
      next := TsItoa(buf, next, U32(val), 10);
    }
  }

  /** The switch of ts_formatstring on a conversion that takes an argument. */
  method PutArgument(buf: array<byte>, pos: nat, c: byte, a: Arg) returns (next: nat)
    requires (WantsInt(c) || WantsString(c)) && ArgFits(c, a) && pos + |Shown(c, a)| <= buf.Length
    modifies buf
    ensures next == pos + |Shown(c, a)| && Overlaid(old(buf[..]), pos, Shown(c, a), buf[..])
  {
    hide Overlaid, Digits;
    if c == 0x63 {
      next := PutChar(buf, pos, a.v % 0x100);
    } else if IsSigned(c) {
      next := PutSigned(buf, pos, a.v);
    } else if WantsString(c) {
      next := CopyString(buf, pos, a.s);
    } else if c == 0x75 {
      UsedBasesFit(U32(a.v), 10);
      next := TsItoa(buf, pos, U32(a.v), 10);
    } else {
      UsedBasesFit(U32(a.v), 16);
      next := TsItoa(buf, pos, U32(a.v), 16);
    }
  }

  /** One turn of the loop of ts_formatstring. */
  method PutToken(buf: array<byte>, pos: nat, fmt: CString, start: nat, va: seq<Arg>)
    returns (next: nat, i: nat, rest: seq<Arg>)
    requires start < |fmt| && WellFormed(fmt[start..]) && TokenFits(Tokens(fmt[start..])[0], va)
    requires pos + |Piece(Tokens(fmt[start..])[0], va)| <= buf.Length
    modifies buf
    ensures start < i <= |fmt| && WellFormed(fmt[i..]) && Tokens(fmt[i..]) == Tokens(fmt[start..])[1..]
    ensures var t := Tokens(fmt[start..])[0];
      && next == pos + |Piece(t, va)| && rest == After(t, va)
      && Overlaid(old(buf[..]), pos, Piece(t, va), buf[..])
  {
    hide Shown, Overlaid;
    i, next, rest := start, pos, va;
    OverlayNone(buf[..], pos);
    assert fmt[start..][1..] == fmt[start + 1..];
    if fmt[i] == PERCENT {
      assert fmt[start..][2..] == fmt[start + 2..];
      i := i + 1;
      var c := fmt[i];
      if WantsInt(c) || WantsString(c) {
        next := PutArgument(buf, pos, c, rest[0]);
        rest := rest[1..];
      } else if c == PERCENT {
        next := PutChar(buf, pos, PERCENT);
      }
      i := i + 1;
    } else {
      next := PutChar(buf, pos, fmt[i]);
      i := i + 1;
    }
  }

  lemma RenderStep(ts: seq<Token>, va: seq<Arg>)
    requires Fit(ts, va)
    ensures if ts == [] then Render(ts, va) == [] && Remaining(ts, va) == va
            else Render(ts, va) == Piece(ts[0], va) + Render(ts[1..], After(ts[0], va)) &&
                 Remaining(ts, va) == Remaining(ts[1..], After(ts[0], va))
  {
  }

  /** ts_formatstring into a buffer that has room for the output and its terminator: exactly the
      rendering of the format, then a zero, and nothing after that.  `rest` is where it leaves the
      argument list. */
  method TsFormatString(buf: array<byte>, fmt: CString, va: seq<Arg>) returns (length: nat, rest: seq<Arg>)
    requires WellFormed(fmt) && Fit(Tokens(fmt), va) && |Render(Tokens(fmt), va)| < buf.Length
    modifies buf
    ensures length == |Render(Tokens(fmt), va)| && rest == Remaining(Tokens(fmt), va)
    ensures Overlaid(old(buf[..]), 0, Render(Tokens(fmt), va) + [0], buf[..])
  {
    hide Piece, After, TokenFits, Tokens, Overlaid, Render, Remaining, WellFormed;
    ghost var out, all, before := [], Render(Tokens(fmt), va), buf[..];
    rest := va;
    var i, pos := 0, 0;
    assert fmt[0..] == fmt;
    OverlayNone(before, 0);
    while i < |fmt|
      invariant i <= |fmt| && WellFormed(fmt[i..]) && Fit(Tokens(fmt[i..]), rest)
      invariant all == out + Render(Tokens(fmt[i..]), rest) && pos == |out|
      invariant Remaining(Tokens(fmt[i..]), rest) == Remaining(Tokens(fmt), va)
      invariant Overlaid(before, 0, out, buf[..])
    {
      TokensNonempty(fmt[i..]);
      RenderStep(Tokens(fmt[i..]), rest);
      ghost var ts, mid, args := Tokens(fmt[i..]), buf[..], rest;
      ghost var piece := Piece(ts[0], args);
      pos, i, rest := PutToken(buf, pos, fmt, i, rest);
      OverlayJoin(before, 0, out, mid, piece, buf[..]);
      assert all == out + piece + Render(ts[1..], rest);
      out := out + piece;
    }
    TokensNonempty([]);
    RenderStep([], rest);
    assert fmt[i..] == [] && all == out + [] == out;
    length := pos;
    ghost var mid := buf[..];
    var end := PutChar(buf, pos, 0);
    OverlayJoin(before, 0, out, mid, [0], buf[..]);
  }
}
