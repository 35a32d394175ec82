/** cl_half_to_float, and what narrowing and widening mean for each other. */
module HalfWiden {
  import opened Words
  import opened HalfRounding
  import opened HalfNarrow

  /** The float fields `v` are exactly the half with sign `neg` and code `c`: same sign and value;
      NaNs become quiet and keep their payload. */
  ghost predicate WidenedFields(neg: bool, c: nat, v: Fields) {
    && v.neg == neg
    && (if c < INFINITE then v.Finite(FLOAT) && v.Magnitude(FLOAT) == Point(c, FLOAT.unit)
        else v.exp == FLOAT.top && v.mant == if c == INFINITE then 0 else Silenced(c - INFINITE) * 0x2000)
  }

  ghost predicate Widened(h: u16, f: u32) {
    WidenedFields(h >= 0x8000, h % 0x8000, FloatFields(f))
  }

  /** `(sign << 31) | (exp << 23) | mant` */
  function PackFloat(neg: bool, exp: nat, mant: nat): (f: u32)
    requires exp < 0x100 && mant < 0x80_0000
    ensures FloatFields(f) == Fields(neg, exp, mant)
  {
    (if neg then 0x8000_0000 else 0) + exp * 0x80_0000 + mant
  }

  lemma NormalWidens(neg: bool, e: nat, m: nat)
    requires 1 <= e < 31 && m < 0x400
    ensures WidenedFields(neg, e * 0x400 + m, Fields(neg, e + 112, m * 0x2000))
  {
    MagParts(e, m);
    ShlByConstant(0x400 + m);
    ShlShl(0x400 + m, 13, e + 111, e + 124);
    ShlShl(0x400 + m, e - 1, FLOAT.unit, e + 124);
  }

  /** Dropping the leading one of the normalised mantissa and rebasing keeps the value. */
  lemma NormalizedWidens(neg: bool, mant: nat, shift: nat, hMant: nat)
    requires 1 <= shift <= 10 && mant < 0x400 && Shl(mant, shift) == hMant && 0x400 <= hMant < 0x800
    ensures WidenedFields(neg, mant, Fields(neg, 113 - shift, hMant % 0x400 * 0x2000))
  {
    MagParts(0, mant);
    ShlByConstant(hMant);
    ShlShl(mant, shift, 13, shift + 13);
    ShlShl(mant, shift + 13, 112 - shift, FLOAT.unit);
    assert hMant % 0x400 == hMant - 0x400;
  }

  /** One step of the normalising loop cannot be the eleventh. */
  lemma ShiftBound(m: nat, shift: nat)
    requires 0 < m && Shl(m, shift) < 0x400
    ensures shift < 10
  {
    if shift >= 10 {
      Powers();
      ShlGrows(m, 10, shift);
      ShlOrder(1, m, 10);
    }
  }

  /** cl_half_to_float */
  method ToFloat(h: u16) returns (f: u32)
    ensures Widened(h, f)
  {
    var neg := h >= 0x8000;
    var hExp := (h / 0x400) % 0x20;
    var hMant := h % 0x400;
    assert h % 0x8000 == hExp * 0x400 + hMant;
    var fExp, fMant := ToFloatFields(neg, hExp, hMant);
    f := PackFloat(neg, fExp, fMant);
  }

  /** The loop that makes the leading one of a subnormal implicit. */
  method Normalize(mant: nat) returns (shift: nat, hMant: nat)
    requires 0 < mant < 0x400
    ensures 1 <= shift <= 10 && Shl(mant, shift) == hMant && 0x400 <= hMant < 0x800
  {
    shift, hMant := 0, mant;
    while hMant / 0x400 % 2 == 0
      invariant shift <= 10 && Shl(mant, shift) == hMant < 0x800
      invariant shift == 0 ==> hMant < 0x400
      decreases 0x800 - hMant
    {
      ShiftBound(mant, shift);
      hMant := hMant * 2;
      shift := shift + 1;
    }
  }

  method ToFloatFields(neg: bool, hExp: nat, mant: nat) returns (exponent: nat, fMant: nat)
    requires hExp <= 0x1F && mant < 0x400
    ensures exponent < 0x100 && fMant < 0x80_0000
    ensures WidenedFields(neg, hExp * 0x400 + mant, Fields(neg, exponent, fMant))
  {
    var hMant, exp := mant, hExp - 16 + 1;
    var fExp := exp + 128 - 1;
    if hExp == 0x1F {
      if hMant != 0 {
        return 0xFF, Silenced(hMant) * 0x2000;
      }
      return 0xFF, 0;
    }
    if hExp == 0 {
      if hMant == 0 {
        fExp := 0;
        ZeroShifts(FLOAT.unit);
      } else {
        var shift;
        shift, hMant := Normalize(hMant);
        NormalizedWidens(neg, mant, shift, hMant);
        hMant := hMant % 0x400;
        fExp := fExp - (shift - 1);
      }
    } else {
      NormalWidens(neg, hExp, hMant);
    }
    return fExp, hMant * 0x2000;
  }
}
