/** Machine words, shifts, and the arithmetic facts the other modules share.

    A C word is modelled as the integer it denotes: `x << k` is Shl(x, k), `x >> k` is Shr(x, k),
    masking with k ones is Low(x, k), and `|` of fields that do not overlap is `+`.
    Wrap-around is written out wherever the source can meet it. */
module Words {
  type u8 = x: int | 0 <= x < 0x100
  type u16 = x: int | 0 <= x < 0x1_0000
  type u32 = x: int | 0 <= x < 0x1_0000_0000
  type u64 = x: int | 0 <= x < 0x1_0000_0000_0000_0000

  const TWO32 := 0x1_0000_0000
  const TWO64 := 0x1_0000_0000_0000_0000

  /** Unsigned 64-bit addition. */
  function Add64(a: u64, b: u64): (r: u64)
    ensures r == a + b || r == a + b - 0x1_0000_0000_0000_0000
  {
    if a + b >= TWO64 then a + b - TWO64 else a + b
  }

  /** The cast to uint16_t. */
  function U16(x: int): (r: u16)
    ensures 0 <= x < 0x1_0000 ==> r == x
    ensures (x - r) % 0x1_0000 == 0
  {
    x % 0x1_0000
  }

  function Min(a: int, b: int): (r: int)
    ensures r <= a && r <= b && (r == a || r == b)
  {
    if a < b then a else b
  }

  function Shl(x: nat, k: nat): nat {
    if k == 0 then x else 2 * Shl(x, k - 1)
  }

  function Shr(x: nat, k: nat): nat {
    if k == 0 then x else Shr(x / 2, k - 1)
  }

  function Low(x: nat, k: nat): nat {
    if k == 0 then 0 else x % 2 + 2 * Low(x / 2, k - 1)
  }

  lemma {:induction false} ShrLow(x: nat, k: nat)
    ensures x == Shl(Shr(x, k), k) + Low(x, k) && Low(x, k) < Shl(1, k)
  {
    if k > 0 { ShrLow(x / 2, k - 1); }
  }

  lemma {:induction false} ShlSum(a: nat, b: nat, k: nat)
    ensures Shl(a + b, k) == Shl(a, k) + Shl(b, k)
  {
    if k > 0 { ShlSum(a, b, k - 1); }
  }

  lemma {:induction false} ZeroShifts(k: nat)
    ensures Shl(0, k) == 0
  {
    if k > 0 { ZeroShifts(k - 1); }
  }

  lemma {:induction false} ShlOrder(a: nat, b: nat, k: nat)
    ensures a < b <==> Shl(a, k) < Shl(b, k)
  {
    if k > 0 { ShlOrder(a, b, k - 1); }
  }

  lemma {:induction false} ShlEqual(a: nat, b: nat, k: nat)
    ensures a == b <==> Shl(a, k) == Shl(b, k)
  {
    if k > 0 { ShlEqual(a, b, k - 1); }
  }

  /** Consecutive shifts add up; `c` names the total so that callers can pass it in any form. */
  lemma {:induction false} ShlShl(x: nat, a: nat, b: nat, c: nat)
    requires c == a + b
    ensures Shl(Shl(x, a), b) == Shl(x, c)
  {
    if b > 0 { ShlShl(x, a, b - 1, c - 1); }
  }

  lemma {:induction false} ShlGrows(x: nat, a: nat, b: nat)
    requires a <= b
    ensures Shl(x, a) <= Shl(x, b)
  {
    if a < b { ShlGrows(x, a, b - 1); }
  }

  lemma {:induction false} ShrShl(x: nat, a: nat, b: nat, c: nat)
    requires c == a + b
    ensures Shr(Shl(x, a), c) == Shr(x, b)
  {
    if a > 0 { ShrShl(x, a - 1, b, c - 1); }
  }

  /** A number below n * 2^k shifts to a number below n. */
  lemma ShrBelow(x: nat, k: nat, n: nat)
    requires x < Shl(n, k)
    ensures Shr(x, k) < n
  {
    ShrLow(x, k);
    ShlOrder(Shr(x, k), n, k);
    ShlEqual(Shr(x, k), n, k);
  }

  /** Quotient and remainder of a shift are unique. */
  lemma ShrUnique(x: nat, k: nat, q: nat, r: nat)
    requires x == Shl(q, k) + r && r < Shl(1, k)
    ensures Shr(x, k) == q && Low(x, k) == r
  {
    var p := Shr(x, k);
    ShrLow(x, k);
    ShlSum(q, 1, k); ShlSum(p, 1, k);
    ShlOrder(p, q + 1, k); ShlOrder(q, p + 1, k);
    ShlOrder(q + 1, p, k); ShlOrder(p + 1, q, k);
  }

  lemma SmallPowers()
    ensures Shl(1, 10) == 0x400 && Shl(1, 13) == 0x2000 && Shl(1, 23) == 0x80_0000
  {
    ShlShl(1, 10, 3, 13); ShlShl(1, 13, 10, 23);
  }

  lemma Powers()
    ensures Shl(1, 10) == 0x400 && Shl(1, 13) == 0x2000 && Shl(1, 23) == 0x80_0000
    ensures Shl(1, 29) == 0x2000_0000 && Shl(1, 52) == 0x10_0000_0000_0000
  {
    SmallPowers();
    ShlShl(1, 23, 6, 29); ShlShl(1, 29, 10, 39); ShlShl(1, 39, 13, 52);
  }

  /** The shift amounts that occur as constants. */
  lemma {:induction false} ShlByConstant(x: nat)
    ensures Shl(x, 10) == 0x400 * x && Shl(x, 13) == 0x2000 * x && Shl(x, 29) == 0x2000_0000 * x
  {
    if x > 0 {
      ShlByConstant(x - 1);
      Powers();
      ShlSum(x - 1, 1, 10); ShlSum(x - 1, 1, 13); ShlSum(x - 1, 1, 29);
    } else {
      ZeroShifts(10); ZeroShifts(13); ZeroShifts(29);
    }
  }
}
