/** What it means to round to binary16 (section 4.3 of IEEE 754-2008), stated by comparing
    the argument with every representable magnitude, never by computing one. */
module HalfRounding {
  import opened Words

  datatype Mode = RTE | RTZ | RTP | RTN

  const MAX_FINITE: nat := 0x7BFF
  const INFINITE: nat := 0x7C00

  /** The magnitude of the sign-free half code `c`, in units of 2^-24: the first two binades are
      the code itself and every further exponent doubles. MagParts gives the field by field form.
      Code INFINITE stands for 2^16, the value the next binade would start with. */
  function Mag(c: nat): nat {
    if c < 0x800 then c else 2 * Mag(c - 0x400)
  }

  /** The distance from code `c` to the next one. */
  function Ulp(c: nat): (u: nat)
    ensures u > 0
  {
    if c < 0x800 then 1 else 2 * Ulp(c - 0x400)
  }

  /** Exponent `e` and mantissa `m` mean m * 2^-24 when e is zero, (0x400 + m) * 2^(e - 25) otherwise. */
  lemma {:induction false} MagParts(e: nat, m: nat)
    requires m < 0x400
    ensures Mag(e * 0x400 + m) == if e == 0 then m else Shl(0x400 + m, e - 1)
    ensures Ulp(e * 0x400 + m) == if e == 0 then 1 else Shl(1, e - 1)
  {
    if e > 1 { MagParts(e - 1, m); }
  }

  lemma {:induction false} MagStep(c: nat)
    ensures Mag(c + 1) == Mag(c) + Ulp(c)
  {
    if c >= 0x800 { MagStep(c - 0x400); }
  }

  lemma {:induction false} MagStrict(a: nat, b: nat)
    requires a < b
    ensures Mag(a) < Mag(b)
  {
    MagStep(b - 1);
    if a < b - 1 { MagStrict(a, b - 1); }
  }

  /** The representable point `c` on a scale on which 2^-24 is 2^k units. */
  function Point(c: nat, k: nat): nat {
    Shl(Mag(c), k)
  }

  lemma PointStrict(a: nat, b: nat, k: nat)
    ensures a < b <==> Point(a, k) < Point(b, k)
  {
    if a < b { MagStrict(a, b); } else if b < a { MagStrict(b, a); }
    ShlOrder(Mag(a), Mag(b), k);
  }

  function Dist(a: int, b: int): nat {
    if a < b then b - a else a - b
  }

  /** Whether the mode moves the magnitude of an inexact value down. */
  predicate TowardZero(mode: Mode, neg: bool) {
    mode == RTZ || (mode == RTP && neg) || (mode == RTN && !neg)
  }

  ghost predicate IsNearestEven(x: nat, k: nat, c: nat) {
    && c <= INFINITE
    && (forall o: nat | o <= INFINITE :: Dist(x, Point(c, k)) <= Dist(x, Point(o, k)))
    && (forall o: nat | o <= INFINITE && o != c && Dist(x, Point(c, k)) == Dist(x, Point(o, k)) :: c % 2 == 0)
  }

  ghost predicate IsLargestBelow(x: nat, k: nat, c: nat) {
    && c <= MAX_FINITE
    && Point(c, k) <= x
    && (forall o: nat | o <= MAX_FINITE && Point(o, k) <= x :: o <= c)
  }

  ghost predicate IsSmallestAbove(x: nat, k: nat, c: nat) {
    && c <= INFINITE
    && (c < INFINITE ==> x <= Point(c, k))
    && (forall o: nat | o < c :: Point(o, k) < x)
  }

  /** `c` is the correctly rounded half code for the magnitude x / 2^(k + 24). */
  ghost predicate IeeeRounded(mode: Mode, neg: bool, x: nat, k: nat, c: nat) {
    if mode == RTE then IsNearestEven(x, k, c)
    else if TowardZero(mode, neg) then IsLargestBelow(x, k, c)
    else IsSmallestAbove(x, k, c)
  }

  /** Rounding is a function: there is at most one correct answer. */
  lemma RoundedUnique(mode: Mode, neg: bool, x: nat, k: nat, a: nat, b: nat)
    requires IeeeRounded(mode, neg, x, k, a) && IeeeRounded(mode, neg, x, k, b)
    ensures a == b
  {
    if a < b {
      NoLargerAnswer(mode, neg, x, k, a, b);
    } else if b < a {
      NoLargerAnswer(mode, neg, x, k, b, a);
    }
  }

  lemma NoLargerAnswer(mode: Mode, neg: bool, x: nat, k: nat, a: nat, b: nat)
    requires a < b
    requires IeeeRounded(mode, neg, x, k, a)
    ensures !IeeeRounded(mode, neg, x, k, b)
  {
    if mode == RTE && IeeeRounded(mode, neg, x, k, b) {
      // Equidistant, hence both even, so a code lies between them and is strictly nearer.
      assert Dist(x, Point(a, k)) == Dist(x, Point(b, k));
      assert a % 2 == 0 && b % 2 == 0;
      PointStrict(a, a + 1, k);
      PointStrict(a + 1, b, k);
      assert false;
    }
  }

  /** Larger arguments never round to smaller codes. */
  lemma RoundedMonotone(mode: Mode, neg: bool, x: nat, y: nat, k: nat, a: nat, b: nat)
    requires x <= y
    requires IeeeRounded(mode, neg, x, k, a) && IeeeRounded(mode, neg, y, k, b)
    ensures a <= b
  {
    if b < a {
      PointStrict(b, a, k);
      if mode == RTE {
        assert Dist(x, Point(a, k)) <= Dist(x, Point(b, k));
        assert Dist(y, Point(b, k)) <= Dist(y, Point(a, k));
        // Both must sit on the midpoint of a and b, so both are ties and x == y.
        assert x == y;
        RoundedUnique(mode, neg, x, k, a, b);
      }
    }
  }

  lemma PointRescale(o: nat, k: nat, x: nat, p: nat, n: nat)
    requires n == k + p
    ensures Point(o, n) <= Shl(x, p) <==> Point(o, k) <= x
    ensures Point(o, n) < Shl(x, p) <==> Point(o, k) < x
    ensures Dist(Shl(x, p), Point(o, n)) == Shl(Dist(x, Point(o, k)), p)
  {
    var m := Point(o, k);
    ShlShl(Mag(o), k, p, n);
    ShlOrder(m, x, p);
    ShlOrder(x, m, p);
    if x < m { ShlSum(m - x, x, p); } else { ShlSum(x - m, m, p); }
  }

  lemma DistRescale(o: nat, c: nat, k: nat, x: nat, p: nat, n: nat)
    requires n == k + p
    ensures Dist(Shl(x, p), Point(c, n)) <= Dist(Shl(x, p), Point(o, n)) <==> Dist(x, Point(c, k)) <= Dist(x, Point(o, k))
    ensures Dist(Shl(x, p), Point(c, n)) == Dist(Shl(x, p), Point(o, n)) <==> Dist(x, Point(c, k)) == Dist(x, Point(o, k))
  {
    PointRescale(c, k, x, p, n);
    PointRescale(o, k, x, p, n);
    ShlOrder(Dist(x, Point(o, k)), Dist(x, Point(c, k)), p);
    ShlEqual(Dist(x, Point(o, k)), Dist(x, Point(c, k)), p);
  }

  /** Rescaling argument and unit together changes nothing. */
  lemma RoundedRescale(mode: Mode, neg: bool, x: nat, k: nat, p: nat, n: nat, c: nat)
    requires n == k + p && IeeeRounded(mode, neg, x, k, c)
    ensures IeeeRounded(mode, neg, Shl(x, p), n, c)
  {
    if mode == RTE {
      NearestRescale(x, k, p, n, c);
    } else {
      DirectedRescale(x, k, p, n, c);
    }
  }

  lemma NearestRescale(x: nat, k: nat, p: nat, n: nat, c: nat)
    requires n == k + p && IsNearestEven(x, k, c)
    ensures IsNearestEven(Shl(x, p), n, c)
  {
    var y := Shl(x, p);
    forall o: nat | o <= INFINITE
      ensures Dist(y, Point(c, n)) <= Dist(y, Point(o, n))
      ensures o != c && Dist(y, Point(c, n)) == Dist(y, Point(o, n)) ==> c % 2 == 0
    {
      DistRescale(o, c, k, x, p, n);
    }
  }

  lemma DirectedRescale(x: nat, k: nat, p: nat, n: nat, c: nat)
    requires n == k + p
    ensures IsLargestBelow(x, k, c) ==> IsLargestBelow(Shl(x, p), n, c)
    ensures IsSmallestAbove(x, k, c) ==> IsSmallestAbove(Shl(x, p), n, c)
  {
    var y := Shl(x, p);
    forall o: nat
      ensures Point(o, n) <= y <==> Point(o, k) <= x
      ensures Point(o, n) < y <==> Point(o, k) < x
    {
      PointRescale(o, k, x, p, n);
    }
  }

  /** A representable magnitude rounds to its own code in every mode. */
  lemma ExactRounds(mode: Mode, neg: bool, k: nat, c: nat)
    requires c <= MAX_FINITE
    ensures IeeeRounded(mode, neg, Point(c, k), k, c)
  {
    forall o: nat
      ensures o < c ==> Point(o, k) < Point(c, k)
      ensures c < o ==> Point(c, k) < Point(o, k)
    {
      PointStrict(o, c, k);
      PointStrict(c, o, k);
    }
  }

  /** The code's decision: add one to the truncated code `lo`, given that `r` of the `s` equal
      parts of the gap above it remain. */
  predicate RoundsUp(mode: Mode, neg: bool, lo: nat, r: nat, s: nat) {
    match mode
    case RTE => 2 * r > s || (2 * r == s && lo % 2 == 1)
    case RTZ => false
    case RTP => r != 0 && !neg
    case RTN => r != 0 && neg
  }

  /** The remainder `r` of `s` parts places the argument within the gap above `lo`. */
  lemma WithinGap(x: nat, k: nat, lo: nat, r: nat, s: nat, u: nat)
    requires r < s && x == Point(lo, k) + Shl(r, u) && Shl(Ulp(lo), k) == Shl(s, u)
    ensures var a, b := Point(lo, k), Point(lo + 1, k);
            && a <= x < b && (r == 0 <==> x == a)
            && (2 * r > s <==> x - a > b - x) && (2 * r == s <==> x - a == b - x)
  {
    MagStep(lo);
    ShlSum(Mag(lo), Ulp(lo), k);
    ShlOrder(r, s, u);
    ZeroShifts(u);
    ShlEqual(r, 0, u);
    ShlSum(r, r, u);
    ShlOrder(s, 2 * r, u);
    ShlEqual(s, 2 * r, u);
  }

  /** Truncating and then deciding on the remainder is correct rounding. */
  lemma DecisionIsRounding(mode: Mode, neg: bool, x: nat, k: nat, lo: nat, r: nat, s: nat, u: nat)
    requires lo <= MAX_FINITE && r < s
    requires x == Point(lo, k) + Shl(r, u)
    requires Shl(Ulp(lo), k) == Shl(s, u)
    ensures IeeeRounded(mode, neg, x, k, lo + if RoundsUp(mode, neg, lo, r, s) then 1 else 0)
  {
    WithinGap(x, k, lo, r, s, u);
    if mode == RTE {
      NearestOfTwo(x, k, lo, RoundsUp(mode, neg, lo, r, s));
    } else {
      DirectedOfTwo(x, k, lo);
    }
  }

  /** In the directed modes the neighbours bracket the argument. */
  lemma DirectedOfTwo(x: nat, k: nat, lo: nat)
    requires lo <= MAX_FINITE
    requires Point(lo, k) <= x < Point(lo + 1, k)
    ensures IsLargestBelow(x, k, lo)
    ensures IsSmallestAbove(x, k, if x == Point(lo, k) then lo else lo + 1)
  {
    forall o: nat
      ensures o < lo ==> Point(o, k) < Point(lo, k)
      ensures lo + 1 < o ==> Point(lo + 1, k) < Point(o, k)
    {
      PointStrict(o, lo, k);
      PointStrict(lo + 1, o, k);
    }
  }

  /** Only the two neighbours of the argument can be nearest. */
  lemma NearestOfTwo(x: nat, k: nat, lo: nat, up: bool)
    requires lo <= MAX_FINITE
    requires Point(lo, k) <= x < Point(lo + 1, k)
    requires var a, b := Point(lo, k), Point(lo + 1, k);
             up == (x - a > b - x || (x - a == b - x && lo % 2 == 1))
    ensures IsNearestEven(x, k, lo + if up then 1 else 0)
  {
    var c := lo + if up then 1 else 0;
    var a, b := Point(lo, k), Point(lo + 1, k);
    forall o: nat | o <= INFINITE
      ensures Dist(x, Point(c, k)) <= Dist(x, Point(o, k))
      ensures o != c && Dist(x, Point(c, k)) == Dist(x, Point(o, k)) ==> c % 2 == 0
    {
      PointStrict(o, lo, k);
      PointStrict(lo + 1, o, k);
      if o < lo {
        assert Dist(x, Point(o, k)) > x - a;
      } else if o > lo + 1 {
        assert Dist(x, Point(o, k)) > b - x;
      }
    }
  }

  /** Below half of the smallest subnormal, the answer is zero or one unit. */
  lemma TinyRounds(mode: Mode, neg: bool, x: nat, k: nat)
    requires 0 < x && 2 * x < Shl(1, k)
    ensures IeeeRounded(mode, neg, x, k, if mode == RTE || TowardZero(mode, neg) then 0 else 1)
  {
    MagParts(0, 0);
    ZeroShifts(k);
    DecisionIsRounding(mode, neg, x, k, 0, x, Shl(1, k), 0);
  }

  /** From 2^16 on, the answer is infinity or the largest finite magnitude. */
  lemma HugeRounds(mode: Mode, neg: bool, x: nat, k: nat)
    requires x >= Point(INFINITE, k)
    ensures IeeeRounded(mode, neg, x, k, if TowardZero(mode, neg) then MAX_FINITE else INFINITE)
  {
    forall o: nat | o < INFINITE
      ensures Point(o, k) < Point(INFINITE, k)
    {
      PointStrict(o, INFINITE, k);
    }
  }
}
