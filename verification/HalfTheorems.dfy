/** What the conversions mean for each other: order, brackets, agreement of the two widths, round trips. */
module HalfTheorems {
  import opened Words
  import opened HalfRounding
  import opened HalfNarrow
  import opened HalfWiden

  function Signed(neg: bool, x: nat): int {
    if neg then 0 - x as int else x
  }

  /** The exact value of a finite source number, in units of the format's smallest subnormal. */
  function Value(fmt: Format, v: Fields): int {
    Signed(v.neg, v.Magnitude(fmt))
  }

  /** The value of a half on the same scale; infinities sit just past the largest finite value. */
  function HalfValue(fmt: Format, h: u16): int {
    Signed(h >= 0x8000, Point(h % 0x8000, fmt.unit))
  }

  predicate FiniteHalf(h: u16) {
    h % 0x8000 < INFINITE
  }

  /** Halves in numeric order; the two zeros coincide. */
  function Order(h: u16): int {
    Signed(h >= 0x8000, h % 0x8000)
  }

  predicate WellFormed(fmt: Format, v: Fields) {
    fmt.Proper() && v.exp <= fmt.top && v.mant < fmt.one
  }

  lemma ZeroNarrows(fmt: Format, v: Fields, mode: Mode, h: u16)
    requires WellFormed(fmt, v) && v.Finite(fmt) && v.Magnitude(fmt) == 0 && Narrowed(fmt, v, mode, h)
    ensures Order(h) == 0
  {
    ZeroShifts(fmt.unit);
    ExactRounds(mode, v.neg, fmt.unit, 0);
    RoundedUnique(mode, v.neg, 0, fmt.unit, 0, h % 0x8000);
  }

  /** Narrowing is monotone in every mode. */
  lemma NarrowMonotone(fmt: Format, a: Fields, b: Fields, mode: Mode, ha: u16, hb: u16)
    requires WellFormed(fmt, a) && WellFormed(fmt, b) && a.Finite(fmt) && b.Finite(fmt)
    requires Narrowed(fmt, a, mode, ha) && Narrowed(fmt, b, mode, hb)
    requires Value(fmt, a) <= Value(fmt, b)
    ensures Order(ha) <= Order(hb)
  {
    var d := fmt.unit;
    if a.neg == b.neg {
      if a.neg {
        RoundedMonotone(mode, true, b.Magnitude(fmt), a.Magnitude(fmt), d, hb % 0x8000, ha % 0x8000);
      } else {
        RoundedMonotone(mode, false, a.Magnitude(fmt), b.Magnitude(fmt), d, ha % 0x8000, hb % 0x8000);
      }
    } else if !a.neg {
      ZeroNarrows(fmt, a, mode, ha);
      ZeroNarrows(fmt, b, mode, hb);
    }
  }

  /** Some finite half has exactly this value. */
  ghost predicate Representable(fmt: Format, x: int) {
    exists k: nat :: k < INFINITE && Point(k, fmt.unit) == if x < 0 then -x else x
  }

  lemma DirectedExact(fmt: Format, v: Fields, mode: Mode, h: u16)
    requires WellFormed(fmt, v) && v.Finite(fmt) && Narrowed(fmt, v, mode, h)
    requires Representable(fmt, Value(fmt, v))
    ensures FiniteHalf(h) && HalfValue(fmt, h) == Value(fmt, v)
  {
    var k: nat :| k < INFINITE && Point(k, fmt.unit) == v.Magnitude(fmt);
    ExactRounds(mode, v.neg, fmt.unit, k);
    RoundedUnique(mode, v.neg, v.Magnitude(fmt), fmt.unit, k, h % 0x8000);
  }

  /** RTN and RTP bracket the argument as tightly as halves can: they are equal or adjacent, and either
      one is exact precisely when the argument is representable. */
  lemma Bracket(fmt: Format, v: Fields, down: u16, up: u16)
    requires WellFormed(fmt, v) && v.Finite(fmt)
    requires Narrowed(fmt, v, RTN, down) && Narrowed(fmt, v, RTP, up)
    ensures FiniteHalf(down) ==> HalfValue(fmt, down) <= Value(fmt, v)
    ensures FiniteHalf(up) ==> Value(fmt, v) <= HalfValue(fmt, up)
    ensures FiniteHalf(down) || FiniteHalf(up)
    ensures Order(down) <= Order(up) <= Order(down) + 1
    ensures FiniteHalf(down) && HalfValue(fmt, down) == Value(fmt, v) <==> Representable(fmt, Value(fmt, v))
    ensures FiniteHalf(up) && HalfValue(fmt, up) == Value(fmt, v) <==> Representable(fmt, Value(fmt, v))
  {
    var d := fmt.unit;
    if Representable(fmt, Value(fmt, v)) {
      DirectedExact(fmt, v, RTN, down);
      DirectedExact(fmt, v, RTP, up);
      SameCode(d, down % 0x8000, up % 0x8000);
    } else {
      var near, far := if v.neg then up % 0x8000 else down % 0x8000, if v.neg then down % 0x8000 else up % 0x8000;
      InexactNeighbours(v.Magnitude(fmt), d, near, far);
      assert Point(near, d) == v.Magnitude(fmt) ==> Representable(fmt, Value(fmt, v));
      assert far < INFINITE && Point(far, d) == v.Magnitude(fmt) ==> Representable(fmt, Value(fmt, v));
    }
  }

  lemma SameCode(d: nat, a: nat, b: nat)
    requires Point(a, d) == Point(b, d)
    ensures a == b
  {
    PointStrict(a, b, d);
    PointStrict(b, a, d);
  }

  lemma InexactNeighbours(x: nat, d: nat, near: nat, far: nat)
    requires IsLargestBelow(x, d, near) && IsSmallestAbove(x, d, far)
    requires Point(near, d) != x
    ensures far == near + 1
  {
    PointStrict(near, near + 1, d);
    PointStrict(far, near, d);
    assert forall k: nat | k < far :: Point(k, d) < x;
  }

  /** The value of a finite float on the scale of `fmt`, whose unit is at least as fine. */
  function FloatOn(fmt: Format, f: u32): int
    requires fmt.unit >= FLOAT.unit
  {
    Signed(FloatFields(f).neg, Shl(FloatFields(f).Magnitude(FLOAT), fmt.unit - FLOAT.unit))
  }

  /** cl_half_to_float decodes exactly the value the half has, on the scale of either source format. */
  lemma DecodedValue(fmt: Format, h: u16, f: u32)
    requires fmt.unit >= FLOAT.unit && Widened(h, f) && FiniteHalf(h)
    ensures FloatFields(f).Finite(FLOAT) && FloatOn(fmt, f) == HalfValue(fmt, h)
  {
    ShlShl(Mag(h % 0x8000), FLOAT.unit, fmt.unit - FLOAT.unit, fmt.unit);
  }

  /** Narrowing down and up and decoding both results with cl_half_to_float encloses the argument: an
      infinite bound has the right sign, a finite one lies on the right side, at least one is finite, and
      either one is exact precisely when some half has the argument's value. */
  lemma DecodedBracket(fmt: Format, v: Fields, down: u16, up: u16, low: u32, high: u32)
    requires WellFormed(fmt, v) && v.Finite(fmt) && fmt.unit >= FLOAT.unit
    requires Narrowed(fmt, v, RTN, down) && Narrowed(fmt, v, RTP, up) && Widened(down, low) && Widened(up, high)
    ensures var l, u := FloatFields(low), FloatFields(high);
            && (l.Finite(FLOAT) || u.Finite(FLOAT))
            && (if l.Finite(FLOAT) then FloatOn(fmt, low) <= Value(fmt, v) else l.neg && l.mant == 0)
            && (if u.Finite(FLOAT) then Value(fmt, v) <= FloatOn(fmt, high) else !u.neg && u.mant == 0)
            && (l.Finite(FLOAT) && FloatOn(fmt, low) == Value(fmt, v) <==> Representable(fmt, Value(fmt, v)))
            && (u.Finite(FLOAT) && FloatOn(fmt, high) == Value(fmt, v) <==> Representable(fmt, Value(fmt, v)))
  {
    Bracket(fmt, v, down, up);
    if FiniteHalf(down) { DecodedValue(fmt, down, low); }
    if FiniteHalf(up) { DecodedValue(fmt, up, high); }
  }

  /** A source value that sits exactly on a finite half narrows to that half. */
  lemma ExactNarrows(fmt: Format, v: Fields, mode: Mode, c: nat, h: u16)
    requires WellFormed(fmt, v) && v.Finite(fmt) && c < INFINITE && v.Magnitude(fmt) == Point(c, fmt.unit)
    requires Narrowed(fmt, v, mode, h)
    ensures h == SignBit(v.neg) + c
  {
    ExactRounds(mode, v.neg, fmt.unit, c);
    RoundedUnique(mode, v.neg, v.Magnitude(fmt), fmt.unit, c, h % 0x8000);
  }

  /** Widening then narrowing gives every half back, in every mode; NaNs come back quiet. */
  lemma RoundTrip(h: u16, f: u32, mode: Mode, back: u16)
    requires Widened(h, f) && Narrowed(FLOAT, FloatFields(f), mode, back)
    ensures h % 0x8000 <= INFINITE ==> back == h
    ensures h % 0x8000 > INFINITE ==> back == SignBit(h >= 0x8000) + INFINITE + Silenced(h % 0x8000 - INFINITE)
  {
    FormatsProper();
    RoundTripFields(h >= 0x8000, h % 0x8000, FloatFields(f), mode, back);
  }

  lemma RoundTripFields(neg: bool, c: nat, v: Fields, mode: Mode, back: u16)
    requires c < 0x8000 && WellFormed(FLOAT, v)
    requires WidenedFields(neg, c, v) && Narrowed(FLOAT, v, mode, back)
    ensures c <= INFINITE ==> back == SignBit(neg) + c
    ensures c > INFINITE ==> back == SignBit(neg) + INFINITE + Silenced(c - INFINITE)
  {
    if c < INFINITE {
      ExactNarrows(FLOAT, v, mode, c, back);
    } else if c > INFINITE {
      PayloadBack(Silenced(c - INFINITE));
      SilencedOnce(c - INFINITE);
    }
  }

  lemma SilencedOnce(m: nat)
    requires m < 0x400
    ensures 0 < Silenced(m) < 0x400 && Silenced(Silenced(m)) == Silenced(m)
  {}

  lemma PayloadBack(m: nat)
    ensures Shr(m * 0x2000, FLOAT.mb - 10) == m
  {
    ShlByConstant(m);
    ShrShl(m, 13, 0, FLOAT.mb - 10);
  }

  /** The double `d` is the float `f`, exactly: NaNs carry their payload, possibly made quiet. */
  ghost predicate SameNumber(f: Fields, d: Fields) {
    && d.neg == f.neg
    && f.Finite(FLOAT) == d.Finite(DOUBLE)
    && (if f.Finite(FLOAT) then d.Magnitude(DOUBLE) == Shl(f.Magnitude(FLOAT), DOUBLE.unit - FLOAT.unit)
        else d.mant == f.mant * 0x2000_0000
             || (0 < f.mant < 0x40_0000 && d.mant == (f.mant + 0x40_0000) * 0x2000_0000))
  }

  lemma FiniteWidthsAgree(small: Format, large: Format, f: Fields, d: Fields, mode: Mode, hf: u16, hd: u16)
    requires WellFormed(small, f) && WellFormed(large, d) && f.Finite(small) && d.Finite(large) && f.neg == d.neg
    requires small.unit <= large.unit
    requires d.Magnitude(large) == Shl(f.Magnitude(small), large.unit - small.unit)
    requires Narrowed(small, f, mode, hf) && Narrowed(large, d, mode, hd)
    ensures hf == hd
  {
    RoundedRescale(mode, f.neg, f.Magnitude(small), small.unit, large.unit - small.unit, large.unit, hf % 0x8000);
    RoundedUnique(mode, f.neg, d.Magnitude(large), large.unit, hf % 0x8000, hd % 0x8000);
  }

  /** The two narrowing functions agree on every float, whatever its kind, in every mode. */
  lemma WidthsAgree(f: Fields, d: Fields, mode: Mode, hf: u16, hd: u16)
    requires WellFormed(FLOAT, f) && WellFormed(DOUBLE, d) && SameNumber(f, d)
    requires Narrowed(FLOAT, f, mode, hf) && Narrowed(DOUBLE, d, mode, hd)
    ensures hf == hd
  {
    if f.Finite(FLOAT) {
      FiniteWidthsAgree(FLOAT, DOUBLE, f, d, mode, hf, hd);
    } else if f.mant != 0 {
      PayloadsAgree(f.mant, d.mant);
    }
  }

  lemma PayloadsAgree(m: nat, w: nat)
    requires 0 < m < 0x80_0000
    requires w == m * 0x2000_0000 || (m < 0x40_0000 && w == (m + 0x40_0000) * 0x2000_0000)
    ensures w != 0 && Silenced(Shr(w, DOUBLE.mb - 10)) == Silenced(Shr(m, FLOAT.mb - 10))
  {
    var k := FLOAT.mb - 10;
    ShlByConstant(m);
    ShlByConstant(m + 0x40_0000);
    ShrShl(m, 29, k, DOUBLE.mb - 10);
    ShrShl(m + 0x40_0000, 29, k, DOUBLE.mb - 10);
    if m < 0x40_0000 { QuietBit(m); }
  }

  /** Adding the float's quiet bit adds the half's. */
  lemma QuietBit(m: nat)
    requires m < 0x40_0000
    ensures Shr(m, FLOAT.mb - 10) < 0x200 && Shr(m + 0x40_0000, FLOAT.mb - 10) == Shr(m, FLOAT.mb - 10) + 0x200
  {
    var k := FLOAT.mb - 10;
    ShlByConstant(0x200);
    ShrBelow(m, k, 0x200);
    ShrLow(m, k);
    ShlSum(Shr(m, k), 0x200, k);
    ShrUnique(m + 0x40_0000, k, Shr(m, k) + 0x200, Low(m, k));
  }

  /** Every float is some double, so agreement speaks about every float. */
  lemma EveryFloatWidens(f: Fields) returns (d: Fields)
    requires WellFormed(FLOAT, f)
    ensures WellFormed(DOUBLE, d) && SameNumber(f, d)
  {
    FormatsProper();
    if !f.Finite(FLOAT) {
      d := Fields(f.neg, DOUBLE.top, f.mant * 0x2000_0000);
    } else if f.exp != 0 {
      d := Fields(f.neg, f.exp + 896, f.mant * 0x2000_0000);
      WidenShift(FLOAT.one + f.mant, 0, f.exp - 1, d.exp - 1, DOUBLE.unit - FLOAT.unit);
    } else if f.mant == 0 {
      d := Fields(f.neg, 0, 0);
      ZeroShifts(DOUBLE.unit - FLOAT.unit);
    } else {
      var s := LeadingZeros(f.mant, 23);
      d := Fields(f.neg, 897 - s, (Shl(f.mant, s) - FLOAT.one) * 0x2000_0000);
      WidenShift(f.mant, s, 0, d.exp - 1, DOUBLE.unit - FLOAT.unit);
    }
  }

  lemma WidenShift(m: nat, s: nat, e: nat, e': nat, k: nat)
    requires s + 29 + e' == e + k
    ensures Shl(Shl(m, s) * 0x2000_0000, e') == Shl(Shl(m, e), k)
  {
    ShlByConstant(Shl(m, s));
    ShlShl(m, s, 29, s + 29);
    ShlShl(m, s + 29, e', e + k);
    ShlShl(m, e, k, e + k);
  }

  lemma {:induction false} LeadingZeros(m: nat, n: nat) returns (s: nat)
    requires 0 < m < Shl(1, n)
    ensures 1 <= s <= n && Shl(1, n) <= Shl(m, s) < 2 * Shl(1, n)
  {
    if Shl(1, n) <= 2 * m {
      s := 1;
    } else {
      s := LeadingZeros(m, n - 1);
      s := s + 1;
    }
  }
}
