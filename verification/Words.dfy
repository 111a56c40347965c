/** Unsigned machine integers: shifts, masks and bitwise operators on natural numbers, one bit at a time. */
module Words {

  const TWO32 := 0x1_0000_0000

  type bit = b: nat | b < 2
  type byte = x: int | 0 <= x < 0x100
  type uint32 = x: int | 0 <= x < TWO32

  function Pow2(n: nat): (p: nat)
    ensures p >= 1
  {
    if n == 0 then 1 else 2 * Pow2(n - 1)
  }

  lemma {:induction false} Pow2Add(m: nat, n: nat)
    ensures Pow2(m + n) == Pow2(m) * Pow2(n)
  {
    if m == 0 {
    } else {
      Pow2Add(m - 1, n);
      assert Pow2(m + n) == 2 * Pow2(m - 1 + n);
    }
  }

  lemma {:induction false} Pow2Le(m: nat, n: nat)
    requires m <= n
    ensures Pow2(m) <= Pow2(n)
  {
    if m == n {
    } else {
      Pow2Le(m, n - 1);
    }
  }

  lemma Pow2Values()
    ensures Pow2(4) == 0x10 && Pow2(5) == 0x20 && Pow2(7) == 0x80 && Pow2(8) == 0x100
    ensures Pow2(10) == 0x400 && Pow2(11) == 0x800
    ensures Pow2(16) == 0x1_0000 && Pow2(24) == 0x100_0000 && Pow2(32) == TWO32
  {
    assert Pow2(8) == 0x100;
    assert Pow2(16) == 0x100 * Pow2(8);
    assert Pow2(24) == 0x100 * Pow2(16);
    assert Pow2(32) == 0x100 * Pow2(24);
  }

  // ---------- shifts by a variable count ----------

  /** x >> n */
  function Shr(x: nat, n: nat): (y: nat)
    ensures y <= x
  {
    if n == 0 then x else Shr(x / 2, n - 1)
  }

  /** x << n, with no bits lost */
  function Shl(x: nat, n: nat): nat {
    if n == 0 then x else 2 * Shl(x, n - 1)
  }

  /** x & ((1 << n) - 1) */
  function Low(x: nat, n: nat): (y: nat)
    ensures y < Pow2(n)
  {
    if n == 0 then 0 else 2 * Low(x / 2, n - 1) + x % 2
  }

  lemma {:induction false} ShrNext(x: nat, n: nat)
    ensures Shr(x, n + 1) == Shr(x, n) / 2
  {
    if n == 0 {
    } else {
      ShrNext(x / 2, n - 1);
    }
  }

  /** A number is its high part, shifted up, and its low part. */
  lemma {:induction false} Parts(x: nat, n: nat)
    ensures x == Shl(Shr(x, n), n) + Low(x, n)
  {
    if n == 0 {
    } else {
      Parts(x / 2, n - 1);
    }
  }

  /** And it is put together from them in one way only. */
  lemma {:induction false} Joined(c: nat, v: nat, n: nat)
    requires v < Pow2(n)
    ensures Shr(Shl(c, n) + v, n) == c && Low(Shl(c, n) + v, n) == v
  {
    if n == 0 {
    } else {
      var x := Shl(c, n) + v;
      assert x / 2 == Shl(c, n - 1) + v / 2 && x % 2 == v % 2;
      Joined(c, v / 2, n - 1);
    }
  }

  lemma {:induction false} ShlShl(x: nat, a: nat, b: nat)
    ensures Shl(Shl(x, a), b) == Shl(x, a + b)
  {
    if b == 0 {
    } else {
      ShlShl(x, a, b - 1);
    }
  }

  lemma {:induction false} ShlSum(x: nat, y: nat, n: nat)
    ensures Shl(x + y, n) == Shl(x, n) + Shl(y, n)
  {
    if n == 0 {
    } else {
      ShlSum(x, y, n - 1);
    }
  }

  lemma {:induction false} ShlMul(x: nat, n: nat)
    ensures Shl(x, n) == x * Pow2(n)
  {
    if n == 0 {
    } else {
      ShlMul(x, n - 1);
    }
  }

  lemma {:induction false} ShlLe(x: nat, y: nat, n: nat)
    requires x <= y
    ensures Shl(x, n) <= Shl(y, n)
  {
    if n == 0 {
    } else {
      ShlLe(x, y, n - 1);
    }
  }

  /** A number of a bits, shifted up by n, leaves the n low bits free. */
  lemma {:induction false} ShlBelow(x: nat, a: nat, n: nat)
    requires x < Pow2(a)
    ensures Shl(x, n) + Pow2(n) <= Pow2(a + n)
  {
    if n == 0 {
    } else {
      ShlBelow(x, a, n - 1);
    }
  }

  lemma {:induction false} ShrBelow(x: nat, a: nat, n: nat)
    requires x < Pow2(a + n)
    ensures Shr(x, n) < Pow2(a)
  {
    if n == 0 {
    } else {
      ShrBelow(x / 2, a, n - 1);
    }
  }

  lemma {:induction false} ShrZero(n: nat)
    ensures Shr(0, n) == 0 && Low(0, n) == 0 && Shl(0, n) == 0
  {
    if n == 0 {
    } else {
      ShrZero(n - 1);
    }
  }

  lemma {:induction false} LowSmall(x: nat, n: nat)
    requires x < Pow2(n)
    ensures Low(x, n) == x
  {
    if n == 0 {
    } else {
      LowSmall(x / 2, n - 1);
    }
  }

  lemma LowHalves(x: nat, n: nat)
    requires n > 0
    ensures Low(x, n) == 2 * Low(x / 2, n - 1) + x % 2
    ensures Low(x, n) / 2 == Low(x / 2, n - 1) && Low(x, n) % 2 == x % 2
  {
  }

  lemma {:induction false} LowLow(x: nat, m: nat, n: nat)
    requires m <= n
    ensures Low(Low(x, n), m) == Low(x, m)
  {
    if m == 0 {
    } else {
      LowHalves(x, n);
      LowHalves(x, m);
      LowHalves(Low(x, n), m);
      hide Low;
      LowLow(x / 2, m - 1, n - 1);
    }
  }

  /** Bits k to k + m of x do not depend on those from bit w on. */
  lemma {:induction false} ShrOfLow(x: nat, k: nat, m: nat, w: nat)
    requires k + m <= w
    ensures Low(Shr(Low(x, w), k), m) == Low(Shr(x, k), m)
  {
    if k == 0 {
      LowLow(x, m, w);
    } else {
      LowHalves(x, w);
      hide Low;
      ShrOfLow(x / 2, k - 1, m, w - 1);
    }
  }

  lemma {:induction false} ShrShr(x: nat, a: nat, b: nat)
    ensures Shr(Shr(x, a), b) == Shr(x, a + b)
  {
    if a == 0 {
    } else {
      ShrShr(x / 2, a - 1, b);
    }
  }

  /** The low n bits of a number shifted up by k are the low n - k bits, shifted up. */
  lemma {:induction false} LowOfShl(x: nat, k: nat, n: nat)
    requires k <= n
    ensures Low(Shl(x, k), n) == Shl(Low(x, n - k), k)
  {
    if k == 0 {
    } else {
      var y := Shl(x, k - 1);
      assert 2 * y / 2 == y && 2 * y % 2 == 0;
      LowOfShl(x, k - 1, n - 1);
    }
  }

  lemma {:induction false} ShlOne(n: nat)
    ensures Shl(1, n) == Pow2(n)
  {
    if n == 0 {
    } else {
      ShlOne(n - 1);
    }
  }

  lemma {:induction false} ShlPow2(m: nat, n: nat)
    ensures Shl(Pow2(m), n) == Pow2(m + n)
  {
    if n == 0 {
    } else {
      ShlPow2(m, n - 1);
    }
  }

  /** A mask is a remainder. */
  lemma {:induction false} LowMod(x: nat, n: nat)
    ensures Low(x, n) == x % Pow2(n)
  {
    Parts(x, n);
    ShlMul(Shr(x, n), n);
    QuotientUnique(x, Pow2(n), Shr(x, n), Low(x, n));
  }

  /** A right shift is a division. */
  lemma ShrDiv(x: nat, n: nat)
    ensures Shr(x, n) == x / Pow2(n)
    ensures Shr(x, n) * Pow2(n) <= x < Shr(x, n) * Pow2(n) + Pow2(n)
  {
    Parts(x, n);
    ShlMul(Shr(x, n), n);
    QuotientUnique(x, Pow2(n), Shr(x, n), Low(x, n));
  }

  // ---------- bitwise operators ----------

  /** x | y */
  function Or(x: nat, y: nat): nat {
    if x == 0 && y == 0 then 0
    else 2 * Or(x / 2, y / 2) + (if x % 2 == 1 || y % 2 == 1 then 1 else 0)
  }

  /** x & y */
  function And(x: nat, y: nat): nat {
    if x == 0 && y == 0 then 0
    else 2 * And(x / 2, y / 2) + (if x % 2 == 1 && y % 2 == 1 then 1 else 0)
  }

  /** Bit k of x | y is set exactly when that of x or that of y is. */
  lemma {:induction false} OrBit(x: nat, y: nat, k: nat)
    ensures Shr(Or(x, y), k) % 2 == 1 <==> Shr(x, k) % 2 == 1 || Shr(y, k) % 2 == 1
  {
    if k == 0 {
    } else {
      assert Or(x, y) / 2 == Or(x / 2, y / 2);
      OrBit(x / 2, y / 2, k - 1);
    }
  }

  /** Bit k of x & y is set exactly when those of x and y are. */
  lemma {:induction false} AndBit(x: nat, y: nat, k: nat)
    ensures Shr(And(x, y), k) % 2 == 1 <==> Shr(x, k) % 2 == 1 && Shr(y, k) % 2 == 1
  {
    if k == 0 {
    } else {
      assert And(x, y) / 2 == And(x / 2, y / 2);
      AndBit(x / 2, y / 2, k - 1);
    }
  }

  lemma {:induction false} OrZero(x: nat)
    ensures Or(x, 0) == x == Or(0, x)
  {
    if x == 0 {
    } else {
      OrZero(x / 2);
    }
  }

  lemma OrBits(a: nat, b: nat, p: bit, q: bit)
    ensures Or(2 * a + p, 2 * b + q) == 2 * Or(a, b) + (if p == 1 || q == 1 then 1 else 0)
  {
    if 2 * a + p == 0 && 2 * b + q == 0 {
      assert a == 0 && b == 0;
    } else {
      assert (2 * a + p) / 2 == a && (2 * b + q) / 2 == b;
    }
  }

  /** Every bit of x | y comes from those two bits of x and y alone. */
  lemma {:induction false} ShrOr(x: nat, y: nat, n: nat)
    ensures Shr(Or(x, y), n) == Or(Shr(x, n), Shr(y, n))
  {
    if n == 0 {
    } else {
      OrBits(x / 2, y / 2, x % 2, y % 2);
      ShrOr(x / 2, y / 2, n - 1);
    }
  }

  lemma OrHalves(x: nat, y: nat)
    ensures Or(x, y) / 2 == Or(x / 2, y / 2)
    ensures Or(x, y) % 2 == if x % 2 == 1 || y % 2 == 1 then 1 else 0
    ensures Or(x, y) == 2 * (Or(x, y) / 2) + Or(x, y) % 2
  {
    OrZero(0);
  }

  lemma {:induction false} LowOr(x: nat, y: nat, n: nat)
    ensures Low(Or(x, y), n) == Or(Low(x, n), Low(y, n))
  {
    if n == 0 {
      OrZero(0);
    } else {
      var a, b := Low(x, n), Low(y, n);
      LowHalves(x, n);
      LowHalves(y, n);
      LowHalves(Or(x, y), n);
      OrHalves(x, y);
      OrHalves(a, b);
      hide Low, Or;
      LowOr(x / 2, y / 2, n - 1);
    }
  }

  lemma {:induction false} ShlOr(x: nat, y: nat, n: nat)
    ensures Shl(Or(x, y), n) == Or(Shl(x, n), Shl(y, n))
  {
    if n == 0 {
    } else {
      ShlOr(x, y, n - 1);
      OrBits(Shl(x, n - 1), Shl(y, n - 1), 0, 0);
    }
  }

  lemma OrBelow(x: nat, y: nat, n: nat)
    requires x < Pow2(n) && y < Pow2(n)
    ensures Or(x, y) < Pow2(n)
  {
    LowOr(x, y, n);
    LowSmall(x, n);
    LowSmall(y, n);
  }

  function OrByte(x: byte, y: byte): (r: byte)
    ensures r == Or(x, y)
  {
    assert Pow2(8) == 0x100;
    OrBelow(x, y, 8);
    Or(x, y)
  }

  lemma {:induction false} AndZero(x: nat)
    ensures And(x, 0) == 0
  {
    if x == 0 {
    } else {
      AndZero(x / 2);
    }
  }

  /** Joining bits that do not meet is addition. */
  lemma {:induction false} OrDisjoint(x: nat, y: nat, k: nat)
    requires Low(x, k) == 0 && y < Pow2(k)
    ensures Or(x, y) == x + y == Or(y, x)
  {
    if k == 0 {
      OrZero(x);
    } else {
      OrDisjoint(x / 2, y / 2, k - 1);
    }
  }

  lemma OrShl(c: nat, v: nat, k: nat)
    requires v < Pow2(k)
    ensures Or(Shl(c, k), v) == Shl(c, k) + v == Or(v, Shl(c, k))
  {
    Joined(c, 0, k);
    OrDisjoint(Shl(c, k), v, k);
  }

  /** x & ~((1 << m) - 1) for an n-bit x drops the low m bits. */
  lemma {:induction false} AndHigh(x: nat, m: nat, n: nat)
    requires x < Pow2(n) && m <= n
    ensures Pow2(m) <= Pow2(n) && And(x, Pow2(n) - Pow2(m)) == Shl(Shr(x, m), m)
  {
    Pow2Le(m, n);
    if m == 0 {
      AndMask(x, n);
      LowSmall(x, n);
    } else {
      AndHigh(x / 2, m - 1, n - 1);
      AndEven(x, Pow2(n - 1) - Pow2(m - 1));
    }
  }

  lemma AndEven(x: nat, y: nat)
    ensures And(x, 2 * y) == 2 * And(x / 2, y)
  {
    if x == 0 && y == 0 {
      AndZero(0);
    }
  }

  lemma {:induction false} AndMask(x: nat, k: nat)
    ensures And(x, Pow2(k) - 1) == Low(x, k)
  {
    if k == 0 {
      AndZero(x);
    } else {
      AndMask(x / 2, k - 1);
      AndOddMask(x, Pow2(k - 1) - 1);
    }
  }

  lemma AndOddMask(x: nat, m: nat)
    ensures And(x, 2 * m + 1) == 2 * And(x / 2, m) + x % 2
  {
  }

  /** `(x << 8) | b` in a 32-bit register. */
  lemma ShiftInByte(x: nat, b: byte)
    ensures Or(x % TWO32 * 0x100 % TWO32, b) == (x * 0x100 + b) % TWO32
  {
    var y: nat := x % 0x100_0000;
    RegisterShift(x, b);
    assert Pow2(8) == 0x100;
    ByteShl(y);
    OrShl(y, b, 8);
  }

  lemma RegisterShift(x: nat, b: byte)
    ensures x % TWO32 * 0x100 % TWO32 == x % 0x100_0000 * 0x100
    ensures (x * 0x100 + b) % TWO32 == x % 0x100_0000 * 0x100 + b
  {
    var q, r := x / 0x100_0000, x % 0x100_0000;
    QuotientUnique(x, TWO32, q / 0x100, q % 0x100 * 0x100_0000 + r);
    QuotientUnique(x % TWO32 * 0x100, TWO32, q % 0x100, r * 0x100);
    QuotientUnique(x * 0x100 + b, TWO32, q, r * 0x100 + b);
  }

  lemma ByteShl(x: nat)
    ensures Shl(x, 8) == x * 0x100
  {
    ShlMul(x, 8);
    Pow2Values();
  }

  // ---------- products and quotients, one fact at a time ----------

  lemma MulLe(a: int, b: int, c: nat)
    requires a <= b
    ensures a * c <= b * c
  {
  }

  lemma MulLt(a: int, b: int, c: nat)
    requires a < b && c > 0
    ensures a * c + c <= b * c
  {
    MulLe(a + 1, b, c);
  }

  lemma DivMod(x: nat, d: nat)
    requires d > 0
    ensures 0 <= x / d && 0 <= x % d < d
    ensures x == x / d * d + x % d
    ensures x / d <= x
  {
    MulLe(1, d, x / d);
  }

  lemma QuotientUnique(x: int, d: int, q: int, r: int)
    requires 0 <= r < d
    requires x == q * d + r
    ensures x / d == q && x % d == r
  {
    var q', r' := x / d, x % d;
    assert x == q' * d + r';
    if q < q' {
      MulLt(q, q', d);
    } else if q' < q {
      MulLt(q', q, d);
    }
  }

  lemma MulDiv(q: nat, d: nat)
    requires d > 0
    ensures q * d / d == q && q * d % d == 0
  {
    QuotientUnique(q * d, d, q, 0);
  }

  lemma DivLe(x: nat, y: nat, d: nat)
    requires d > 0 && x <= y
    ensures x / d <= y / d
  {
    DivMod(x, d);
    DivMod(y, d);
    if y / d < x / d {
      MulLt(y / d, x / d, d);
    }
  }

  /** x / d < q exactly when x < q * d. */
  lemma DivLt(x: nat, q: nat, d: nat)
    requires d > 0
    ensures x / d < q <==> x < q * d
  {
    DivMod(x, d);
    if x / d < q {
      MulLt(x / d, q, d);
    } else {
      MulLe(q, x / d, d);
    }
  }
}
