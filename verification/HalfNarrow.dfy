/** cl_half_from_float and cl_half_from_double: branches, shifts and carries, proved to be
    correct IEEE rounding of the exact value. */
module HalfNarrow {
  import opened Words
  import opened HalfRounding

  /** An IEEE source format: `mb` stored mantissa bits, the weight `one` of the implicit bit, the
      exponent bias, the all-ones exponent `top`, and `unit` such that 2^-24 is 2^unit times the
      format's smallest subnormal. */
  datatype Format = Format(mb: nat, one: nat, bias: nat, top: nat, unit: nat) {
    predicate Wide() {
      mb >= 12 && bias >= 64 && top == 2 * bias + 1 && unit == bias + mb - 25
    }
    predicate Proper() {
      Wide() && one == Shl(1, mb)
    }
  }

  const FLOAT := Format(23, 0x80_0000, 127, 0xFF, 125)
  const DOUBLE := Format(52, 0x10_0000_0000_0000, 1023, 0x7FF, 1050)

  lemma FormatsProper()
    ensures FLOAT.Proper() && DOUBLE.Proper()
  {
    Powers();
  }

  /** The three fields of an encoded number. */
  datatype Fields = Fields(neg: bool, exp: nat, mant: nat) {
    predicate Finite(fmt: Format) { exp < fmt.top }
    /** The magnitude in units of the format's smallest subnormal. */
    function Magnitude(fmt: Format): nat {
      if exp == 0 then mant else Shl(fmt.one + mant, exp - 1)
    }
  }

  function FloatFields(f: u32): Fields {
    Fields(f >= 0x8000_0000, (f / 0x80_0000) % 0x100, f % 0x80_0000)
  }

  function DoubleFields(d: u64): Fields {
    Fields(d >= 0x8000_0000_0000_0000, (d / 0x10_0000_0000_0000) % 0x800, d % 0x10_0000_0000_0000)
  }

  /** The fields are those of the encoding: sign, exponent and mantissa from the top down. */
  lemma FloatFieldsExact(f: u32)
    ensures var v := FloatFields(f);
            && v.exp < 0x100 && v.mant < 0x80_0000
            && f == (if v.neg then 0x8000_0000 else 0) + v.exp * 0x80_0000 + v.mant
  {}

  lemma DoubleFieldsExact(d: u64)
    ensures var v := DoubleFields(d);
            && v.exp < 0x800 && v.mant < 0x10_0000_0000_0000
            && d == (if v.neg then 0x8000_0000_0000_0000 else 0) + v.exp * 0x10_0000_0000_0000 + v.mant
  {}

  function SignBit(neg: bool): u16 {
    if neg then 0x8000 else 0
  }

  /** `x | 0x200` on a ten-bit mantissa: the quiet bit. */
  function Silenced(m: nat): (r: nat)
    ensures r % 0x200 == m % 0x200 && r / 0x400 == m / 0x400 && r / 0x200 % 2 == 1
  {
    if m / 0x200 % 2 == 1 then m else m + 0x200
  }

  /** What either narrowing function owes its caller: finite values are correctly rounded and
      keep their sign, infinities stay infinite, NaNs keep sign and leading payload and become quiet. */
  ghost predicate Narrowed(fmt: Format, v: Fields, mode: Mode, h: u16)
    requires fmt.Wide()
  {
    if v.Finite(fmt) then
      (h >= 0x8000) == v.neg && IeeeRounded(mode, v.neg, v.Magnitude(fmt), fmt.unit, h % 0x8000)
    else if v.mant == 0 then h == SignBit(v.neg) + 0x7C00
    else h == SignBit(v.neg) + 0x7C00 + Silenced(Shr(v.mant, fmt.mb - 10))
  }

  /** cl_half_handle_overflow */
  function HandleOverflow(mode: Mode, neg: bool): u16
  {
    if mode == RTZ then SignBit(neg) + 0x7BFF
    else if mode == RTP && neg then 0x8000 + 0x7BFF
    else if mode == RTN && !neg then 0x7BFF
    else SignBit(neg) + 0x7C00
  }

  /** cl_half_handle_underflow */
  function HandleUnderflow(mode: Mode, neg: bool): u16
  {
    if mode == RTP && !neg then SignBit(neg) + 1
    else if mode == RTN && neg then SignBit(neg) + 1
    else SignBit(neg)
  }

  /** The shift amount, the shifted mantissa and the rebased exponent of an in-range value. */
  function Shift(fmt: Format, v: Fields): nat
    requires fmt.Wide() && fmt.bias - 25 <= v.exp
  {
    if v.exp < fmt.bias - 14 then fmt.bias - v.exp + fmt.mb - 24 else fmt.mb - 10
  }

  function Mantissa(fmt: Format, v: Fields): nat
    requires fmt.Wide()
  {
    if v.exp < fmt.bias - 14 then fmt.one + v.mant else v.mant
  }

  function Rebased(fmt: Format, v: Fields): nat
    requires fmt.Wide() && fmt.bias - 25 <= v.exp
  {
    if v.exp < fmt.bias - 14 then 0 else v.exp - fmt.bias + 15
  }

  /** The sixteen bits both narrowing functions produce, with the two formats' constants abstracted:
      the mantissa carry is an ordinary increment of the code. */
  function NarrowCode(fmt: Format, v: Fields, mode: Mode): int
    requires fmt.Wide()
  {
    if v.exp == fmt.top then
      SignBit(v.neg) + 0x7C00 + if v.mant == 0 then 0 else Silenced(Shr(v.mant, fmt.mb - 10))
    else if v.exp == 0 && v.mant == 0 then SignBit(v.neg)
    else if v.exp >= fmt.bias + 16 then HandleOverflow(mode, v.neg)
    else if v.exp < fmt.bias - 25 then HandleUnderflow(mode, v.neg)
    else
      var k, m := Shift(fmt, v), Mantissa(fmt, v);
      SignBit(v.neg) + Rebased(fmt, v) * 0x400 + Shr(m, k)
      + if RoundsUp(mode, v.neg, Shr(m, k), Low(m, k), Shl(1, k)) then 1 else 0
  }

  lemma FiniteNarrowed(fmt: Format, v: Fields, mode: Mode, c: nat, h: u16)
    requires fmt.Proper() && v.Finite(fmt) && c <= INFINITE && h == SignBit(v.neg) + c
    requires IeeeRounded(mode, v.neg, v.Magnitude(fmt), fmt.unit, c)
    ensures Narrowed(fmt, v, mode, h)
  {
    assert h % 0x8000 == c;
  }

  lemma TopPoint(k: nat)
    ensures Point(INFINITE, k) == Shl(1, 40 + k)
  {
    MagParts(31, 0);
    Powers();
    ShlShl(1, 10, 30, 40);
    ShlShl(1, 40, k, 40 + k);
  }

  lemma OverflowMagnitude(fmt: Format, v: Fields)
    requires fmt.Proper() && fmt.bias + 16 <= v.exp
    ensures v.Magnitude(fmt) >= Point(INFINITE, fmt.unit)
  {
    TopPoint(fmt.unit);
    ShlShl(1, fmt.mb, v.exp - 1, fmt.mb + v.exp - 1);
    ShlGrows(1, 40 + fmt.unit, fmt.mb + v.exp - 1);
    ShlSum(fmt.one, v.mant, v.exp - 1);
  }

  /** Exponents past the half range hold values of at least 2^16, and the handler rounds them. */
  lemma OverflowHandled(fmt: Format, v: Fields, mode: Mode)
    requires fmt.Proper() && fmt.bias + 16 <= v.exp < fmt.top
    ensures Narrowed(fmt, v, mode, HandleOverflow(mode, v.neg))
  {
    OverflowMagnitude(fmt, v);
    HugeRounds(mode, v.neg, v.Magnitude(fmt), fmt.unit);
    FiniteNarrowed(fmt, v, mode, if TowardZero(mode, v.neg) then MAX_FINITE else INFINITE, HandleOverflow(mode, v.neg));
  }

  /** Exponents below -25 hold values below half of the smallest half subnormal. */
  lemma UnderflowHandled(fmt: Format, v: Fields, mode: Mode)
    requires fmt.Proper() && v.exp < fmt.bias - 25 && v.mant < fmt.one && (v.exp != 0 || v.mant != 0)
    ensures Narrowed(fmt, v, mode, HandleUnderflow(mode, v.neg))
  {
    if v.exp == 0 {
      ShlGrows(1, fmt.mb + 1, fmt.unit);
    } else {
      ShlOrder(0, fmt.one + v.mant, v.exp - 1);
      ZeroShifts(v.exp - 1);
      ShlOrder(fmt.one + v.mant, Shl(1, fmt.mb + 1), v.exp - 1);
      ShlShl(1, fmt.mb + 1, v.exp - 1, fmt.mb + v.exp);
      ShlGrows(1, fmt.mb + v.exp + 1, fmt.unit);
    }
    TinyRounds(mode, v.neg, v.Magnitude(fmt), fmt.unit);
  }

  /** Values that stay normal: the code is the shifted mantissa under the rebased exponent. */
  lemma NormalRegion(fmt: Format, v: Fields, mode: Mode, q: nat, r: nat)
    requires fmt.Proper() && fmt.bias - 14 <= v.exp < fmt.bias + 16 && q < 0x400
    requires v.mant == Shl(q, fmt.mb - 10) + r && r < Shl(1, fmt.mb - 10)
    ensures var lo := (v.exp - fmt.bias + 15) * 0x400 + q;
            IeeeRounded(mode, v.neg, v.Magnitude(fmt), fmt.unit,
                        lo + if RoundsUp(mode, v.neg, lo, r, Shl(1, fmt.mb - 10)) then 1 else 0)
  {
    var h, k, u := v.exp - fmt.bias + 15, fmt.mb - 10, v.exp - 1;
    MagParts(h, q);
    // The mantissa with its implicit one is 0x400 + q, shifted, plus the remainder.
    Powers();
    ShlShl(1, 10, k, fmt.mb);
    ShlSum(0x400, q, k);
    ShlSum(Shl(0x400 + q, k), r, u);
    // Both scales name the same unit.
    ShlShl(0x400 + q, k, u, k + u);
    ShlShl(0x400 + q, h - 1, fmt.unit, k + u);
    ShlShl(1, k, u, k + u);
    ShlShl(1, h - 1, fmt.unit, k + u);
    DecisionIsRounding(mode, v.neg, v.Magnitude(fmt), fmt.unit, h * 0x400 + q, r, Shl(1, k), u);
  }

  /** Values that become subnormal: the implicit one joins the mantissa before the shift. */
  lemma SubnormalRegion(fmt: Format, v: Fields, mode: Mode, k: nat, q: nat, r: nat)
    requires fmt.Proper() && fmt.bias - 25 <= v.exp < fmt.bias - 14 && q < 0x400
    requires k == fmt.bias - v.exp + fmt.mb - 24
    requires fmt.one + v.mant == Shl(q, k) + r && r < Shl(1, k)
    ensures IeeeRounded(mode, v.neg, v.Magnitude(fmt), fmt.unit, q + if RoundsUp(mode, v.neg, q, r, Shl(1, k)) then 1 else 0)
  {
    MagParts(0, q);
    ShlSum(Shl(q, k), r, v.exp - 1);
    ShlShl(q, k, v.exp - 1, fmt.unit);
    ShlShl(1, k, v.exp - 1, fmt.unit);
    DecisionIsRounding(mode, v.neg, v.Magnitude(fmt), fmt.unit, q, r, Shl(1, k), v.exp - 1);
  }

  /** Main result: the produced bits are the correct rounding of the exact value. */
  lemma NarrowCodeCorrect(fmt: Format, v: Fields, mode: Mode)
    requires fmt.Proper() && v.exp <= fmt.top && v.mant < fmt.one
    ensures 0 <= NarrowCode(fmt, v, mode) < 0x1_0000
    ensures Narrowed(fmt, v, mode, NarrowCode(fmt, v, mode))
  {
    if v.exp == fmt.top {
      SpecialCase(fmt, v);
    } else if v.exp == 0 && v.mant == 0 {
      ZeroShifts(fmt.unit);
      ExactRounds(mode, v.neg, fmt.unit, 0);
    } else if v.exp >= fmt.bias + 16 {
      OverflowHandled(fmt, v, mode);
    } else if v.exp < fmt.bias - 25 {
      UnderflowHandled(fmt, v, mode);
    } else {
      InRange(fmt, v, mode);
    }
  }

  lemma SpecialCase(fmt: Format, v: Fields)
    requires fmt.Proper() && v.mant < fmt.one
    ensures Shr(v.mant, fmt.mb - 10) < 0x400
  {
    Powers();
    ShlShl(1, 10, fmt.mb - 10, fmt.mb);
    ShrBelow(v.mant, fmt.mb - 10, 0x400);
  }

  lemma MantissaFits(fmt: Format, v: Fields)
    requires fmt.Proper() && fmt.bias - 25 <= v.exp && v.mant < fmt.one
    ensures Shr(Mantissa(fmt, v), Shift(fmt, v)) < 0x400
  {
    var k := Shift(fmt, v);
    Powers();
    ShlShl(1, 10, k, 10 + k);
    ShlGrows(1, if v.exp < fmt.bias - 14 then fmt.mb + 1 else fmt.mb, 10 + k);
    ShrBelow(Mantissa(fmt, v), k, 0x400);
  }

  lemma InRange(fmt: Format, v: Fields, mode: Mode)
    requires fmt.Proper() && fmt.bias - 25 <= v.exp < fmt.bias + 16 && v.mant < fmt.one
    ensures 0 <= NarrowCode(fmt, v, mode) < 0x1_0000
    ensures Narrowed(fmt, v, mode, NarrowCode(fmt, v, mode))
  {
    var k, m := Shift(fmt, v), Mantissa(fmt, v);
    MantissaFits(fmt, v);
    ShrLow(m, k);
    var code := RoundedCode(fmt, v, mode, k, Shr(m, k), Low(m, k));
    FiniteNarrowed(fmt, v, mode, code, SignBit(v.neg) + code);
  }

  lemma RoundedCode(fmt: Format, v: Fields, mode: Mode, k: nat, q: nat, r: nat) returns (code: nat)
    requires fmt.Proper() && fmt.bias - 25 <= v.exp < fmt.bias + 16
    requires k == Shift(fmt, v) && Mantissa(fmt, v) == Shl(q, k) + r && q < 0x400 && r < Shl(1, k)
    ensures code == Rebased(fmt, v) * 0x400 + q + if RoundsUp(mode, v.neg, q, r, Shl(1, k)) then 1 else 0
    ensures code <= INFINITE && IeeeRounded(mode, v.neg, v.Magnitude(fmt), fmt.unit, code)
  {
    var h := Rebased(fmt, v);
    assert (h * 0x400 + q) % 2 == q % 2;
    code := h * 0x400 + q + if RoundsUp(mode, v.neg, q, r, Shl(1, k)) then 1 else 0;
    if v.exp < fmt.bias - 14 {
      SubnormalRegion(fmt, v, mode, k, q, r);
    } else {
      NormalRegion(fmt, v, mode, q, r);
    }
  }

  /** What the carry trick of the two functions relies on: shifted mantissas have ten bits. */
  lemma FieldWidths(fmt: Format, v: Fields)
    requires fmt == FLOAT || fmt == DOUBLE
    requires v.mant < fmt.one
    ensures Shr(v.mant, fmt.mb - 10) < 0x400
    ensures fmt.bias - 25 <= v.exp ==> Shr(Mantissa(fmt, v), Shift(fmt, v)) < 0x400
  {
    FormatsProper();
    SpecialCase(fmt, v);
    if fmt.bias - 25 <= v.exp { MantissaFits(fmt, v); }
  }

  /** The common tail of both functions: shift, round, carry, pack. */
  method RoundAndPack(mode: Mode, neg: bool, exponent: nat, mant: nat, lsbPos: nat) returns (h: u16)
    requires exponent <= 30 && lsbPos >= 1 && Shr(mant, lsbPos) < 0x400
    ensures h == SignBit(neg) + exponent * 0x400 + Shr(mant, lsbPos)
                 + if RoundsUp(mode, neg, Shr(mant, lsbPos), Low(mant, lsbPos), Shl(1, lsbPos)) then 1 else 0
  {
    var hExp, hMant: int := exponent, U16(Shr(mant, lsbPos));
    var halfway := Shl(1, lsbPos - 1);
    var rest := Low(mant, lsbPos);
    match mode {
      case RTE =>
        if rest > halfway {
          hMant := hMant + 1;
        } else if rest == halfway {
          if hMant % 2 == 1 { hMant := hMant + 1; }
        }
      case RTZ =>
      case RTP =>
        if rest != 0 && !neg { hMant := hMant + 1; }
      case RTN =>
        if rest != 0 && neg { hMant := hMant + 1; }
    }
    if hMant / 0x400 % 2 == 1 {
      hExp := hExp + 1;
      hMant := 0;
    }
    h := SignBit(neg) + hExp * 0x400 + hMant;
  }

  /** cl_half_from_float */
  method FromFloat(f: u32, mode: Mode) returns (h: u16)
    ensures h == NarrowCode(FLOAT, FloatFields(f), mode)
    ensures Narrowed(FLOAT, FloatFields(f), mode, h)
  {
    h := FromFloatFields(FloatFields(f), mode);
    FormatsProper();
    NarrowCodeCorrect(FLOAT, FloatFields(f), mode);
  }

  /** The rest of the conversion, once neither overflow nor underflow is possible. */
  method FromFloatInRange(v: Fields, mode: Mode) returns (h: u16)
    requires v.mant < FLOAT.one && !(v.exp == 0 && v.mant == 0)
    requires FLOAT.bias - 25 <= v.exp < FLOAT.bias + 16
    ensures h == NarrowCode(FLOAT, v, mode)
  {
    var fMant: int := v.mant;
    var exp := v.exp - 128 + 1;
    var hExp := U16(exp + 16 - 1);     // wraps when the exponent is negative
    var lsbPos: nat := 24 - 11;
    FieldWidths(FLOAT, v);
    if exp < -14 {
      hExp := 0;
      fMant := fMant + 0x80_0000;
      lsbPos := -exp + (24 - 25);
    }
    assert (hExp, fMant, lsbPos) == (Rebased(FLOAT, v), Mantissa(FLOAT, v), Shift(FLOAT, v));
    h := RoundAndPack(mode, v.neg, hExp, fMant, lsbPos);
  }

  method FromFloatFields(v: Fields, mode: Mode) returns (h: u16)
    requires v.exp <= FLOAT.top && v.mant < FLOAT.one
    ensures h == NarrowCode(FLOAT, v, mode)
  {
    var sign: int, fExp: int, fMant: int := if v.neg then 1 else 0, v.exp, v.mant;
    var exp := fExp - 128 + 1;         // signed
    var lsbPos: nat := 24 - 11;
    FieldWidths(FLOAT, v);
    if fExp == 0xFF {
      if fMant != 0 {
        var payload := Silenced(Shr(fMant, lsbPos));
        return sign * 0x8000 + 0x7C00 + payload;
      }
      return sign * 0x8000 + 0x7C00;
    }
    if fExp == 0 && fMant == 0 {
      return sign * 0x8000;
    }
    if exp >= 16 {
      return HandleOverflow(mode, sign == 1);
    }
    if exp < -13 - 11 - 1 {
      return HandleUnderflow(mode, sign == 1);
    }
    h := FromFloatInRange(v, mode);
  }

  /** cl_half_from_double */
  method FromDouble(d: u64, mode: Mode) returns (h: u16)
    ensures h == NarrowCode(DOUBLE, DoubleFields(d), mode)
    ensures Narrowed(DOUBLE, DoubleFields(d), mode, h)
  {
    h := FromDoubleFields(DoubleFields(d), mode);
    FormatsProper();
    NarrowCodeCorrect(DOUBLE, DoubleFields(d), mode);
  }

  /** The rest of the conversion, once neither overflow nor underflow is possible. */
  method FromDoubleInRange(v: Fields, mode: Mode) returns (h: u16)
    requires v.mant < DOUBLE.one && !(v.exp == 0 && v.mant == 0)
    requires DOUBLE.bias - 25 <= v.exp < DOUBLE.bias + 16
    ensures h == NarrowCode(DOUBLE, v, mode)
  {
    var dMant: int := v.mant;
    var exp := v.exp - 1024 + 1;
    var hExp := U16(exp + 16 - 1);     // wraps when the exponent is negative
    var lsbPos: nat := 53 - 11;
    FieldWidths(DOUBLE, v);
    if exp < -14 {
      hExp := 0;
      dMant := dMant + 0x10_0000_0000_0000;
      lsbPos := -exp + (53 - 25);
    }
    assert (hExp, dMant, lsbPos) == (Rebased(DOUBLE, v), Mantissa(DOUBLE, v), Shift(DOUBLE, v));
    h := RoundAndPack(mode, v.neg, hExp, dMant, lsbPos);
  }

  method FromDoubleFields(v: Fields, mode: Mode) returns (h: u16)
    requires v.exp <= DOUBLE.top && v.mant < DOUBLE.one
    ensures h == NarrowCode(DOUBLE, v, mode)
  {
    var sign: int, dExp: int, dMant: int := if v.neg then 1 else 0, v.exp, v.mant;
    var exp := dExp - 1024 + 1;
    var lsbPos: nat := 53 - 11;
    FieldWidths(DOUBLE, v);
    if dExp == 0x7FF {
      if dMant != 0 {
        var payload := Silenced(Shr(dMant, lsbPos));
        return sign * 0x8000 + 0x7C00 + payload;
      }
      return sign * 0x8000 + 0x7C00;
    }
    if dExp == 0 && dMant == 0 {
      return sign * 0x8000;
    }
    if exp >= 16 {
      return HandleOverflow(mode, sign == 1);
    }
    if exp < -13 - 11 - 1 {
      return HandleUnderflow(mode, sign == 1);
    }
    h := FromDoubleInRange(v, mode);
  }
}
