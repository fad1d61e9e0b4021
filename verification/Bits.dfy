/** Fixed-width C integers as mathematical ones: shifts, masks, `&` and `|`. */
module Bits {
  type U8 = x: int | 0 <= x < 0x100
  type U16 = x: int | 0 <= x < 0x1_0000
  type U32 = x: int | 0 <= x < 0x1_0000_0000
  type I16 = x: int | -0x8000 <= x < 0x8000

  /** Conversion to an unsigned C type keeps the low bits. */
  function ToU8(x: int): U8 { x % 0x100 }
  function ToU16(x: int): U16 { x % 0x1_0000 }
  function ToU32(x: int): U32 { x % 0x1_0000_0000 }

  lemma SignOfI16(x: I16)
    ensures Bit(x, 15) <==> x < 0
  {
    Pow2At32();
    assert Pow2(16) == 2 * Pow2(15);
    SignBit(x, 15);
  }

  lemma ToU16Exact(x: nat)
    requires x < 0x1_0000
    ensures ToU16(x) == x
  {
  }

  lemma ToU32Exact(x: nat)
    requires x < 0x1_0000_0000
    ensures ToU32(x) == x
  {
  }

  /** Conversion to `int16_t` reads the low sixteen bits as two's complement. */
  function ToI16(x: int): I16 {
    var low := x % 0x1_0000;
    if low < 0x8000 then low else low - 0x1_0000
  }

  function Abs(x: int): nat { if x < 0 then -x else x }

  function Pow2(n: nat): (p: nat)
    ensures p > 0
  {
    if n == 0 then 1 else 2 * Pow2(n - 1)
  }

  /** `x >> n`: `n` halvings. */
  function Shr(x: nat, n: nat): nat {
    if n == 0 then x else Shr(x / 2, n - 1)
  }

  /** `x << n` on `uint32_t`: `n` doublings. */
  function Shl(x: nat, n: nat): U32 {
    if n == 0 then ToU32(x) else ToU32(2 * Shl(x, n - 1))
  }

  /** Bit `n` of a two's-complement number. */
  predicate Bit(x: int, n: nat)
    decreases n, x
  {
    if n == 0 then x % 2 == 1 else Bit(x / 2, n - 1)
  }

  /** The low `n` bits of `x`, that is `x % Pow2(n)`. */
  function LowBits(x: nat, n: nat): nat {
    if n == 0 then 0 else x % 2 + 2 * LowBits(x / 2, n - 1)
  }

  function And(a: nat, b: nat): nat {
    if a == 0 || b == 0 then 0
    else 2 * And(a / 2, b / 2) + (if a % 2 == 1 && b % 2 == 1 then 1 else 0)
  }

  function Or(a: nat, b: nat): nat
    decreases a + b
  {
    if a == 0 then b
    else if b == 0 then a
    else 2 * Or(a / 2, b / 2) + (if a % 2 == 0 then b % 2 else 1)
  }

  /** Multiplication by repeated addition; it keeps products out of the loop proofs. */
  function Product(a: nat, b: nat): nat {
    if a == 0 then 0 else b + Product(a - 1, b)
  }

  lemma {:induction false} ProductIsTimes(a: nat, b: nat)
    ensures Product(a, b) == a * b
  {
    if a > 0 {
      ProductIsTimes(a - 1, b);
      assert a * b == (a - 1) * b + b;
    }
  }

  // ---- division and remainder -------------------------------------------------

  lemma DivModUnique(x: int, d: int, q: int, r: int)
    requires 0 <= r < d && x == q * d + r
    ensures x / d == q && x % d == r
  {
    var q', r' := x / d, x % d;
    assert (q' - q) * d == r - r';
    if q' > q {
      MulMonotone(1, q' - q, d);
    } else if q' < q {
      MulMonotone(q' - q, -1, d);
    }
  }

  lemma DivNonNegative(x: nat, d: nat)
    requires d > 0
    ensures x / d >= 0
  {
    var q, r := x / d, x % d;
    assert x == q * d + r;
    if q < 0 {
      MulMonotone(q, -1, d);
    }
  }

  lemma MulMonotone(a: int, b: int, c: int)
    requires a <= b && 0 <= c
    ensures a * c <= b * c
  {
    assert 0 <= (b - a) * c;
  }

  lemma MulTwo(a: int, b: int)
    ensures a * (2 * b) == 2 * (a * b)
  {
  }

  lemma ModBelow(x: nat, d: nat)
    requires d > 0
    ensures x % d <= x
  {
    MulMonotone(0, x / d, d);
    assert x == x / d * d + x % d;
  }

  /** Splitting an index into block and position. */
  lemma QuotientBelow(k: nat, size: nat, n: nat)
    requires k < n * size
    ensures size > 0 && 0 <= k / size < n
    ensures k == k / size * size + k % size && 0 <= k % size < size
  {
    if size > 0 {
      DivNonNegative(k, size);
      if k / size >= n {
        MulMonotone(n, k / size, size);
      }
    }
  }

  lemma QuotientBounds(x: nat, d: nat)
    requires d >= 1
    ensures 0 <= x / d <= x && d * (x / d) <= x < d * (x / d + 1)
  {
    var q := x / d;
    assert x == q * d + x % d;
    DivNonNegative(x, d);
    MulMonotone(1, d, q);
  }

  /** Dropping a multiple of the divisor does not change the remainder. */
  lemma ModDrop(x: int, k: int, d: int)
    requires d > 0
    ensures (x + k * d) % d == x % d
  {
    var q := x / d;
    assert x + k * d == (q + k) * d + x % d;
    DivModUnique(x + k * d, d, q + k, x % d);
  }

  /** A summand may be reduced first. */
  lemma ModAdd(x: int, y: int, d: int)
    requires d > 0
    ensures (x % d + y) % d == (x + y) % d
  {
    assert x + y == (x % d + y) + x / d * d;
    ModDrop(x % d + y, x / d, d);
  }

  /** A remainder modulo a multiple of `d` agrees with the number modulo `d`. */
  lemma ModMod(x: int, d: int, k: int)
    requires d > 0 && k > 0
    ensures d * k > 0 && (x % (d * k)) % d == x % d
  {
    assert d * k > 0 by { MulMonotone(1, k, d); }
    var q := x / (d * k);
    assert x % (d * k) == x - q * (d * k);
    assert q * (d * k) == (q * k) * d;
    ModDrop(x, -(q * k), d);
    assert x % (d * k) == x + -(q * k) * d;
  }

  /** Two remainders that differ by the same shift are equal only if they were. */
  lemma ModShiftInjective(a: int, b: int, k: int, d: int)
    requires 0 <= a < d && 0 <= b < d
    ensures (a + k) % d == (b + k) % d <==> a == b
  {
    if (a + k) % d == (b + k) % d {
      var p, q := (a + k) / d, (b + k) / d;
      assert a - b == (p - q) * d;
      if p > q {
        MulMonotone(1, p - q, d);
      } else if p < q {
        MulMonotone(p - q, -1, d);
      }
    }
  }

  // ---- powers of two ----------------------------------------------------------

  lemma {:induction false} PowAdd(a: nat, b: nat)
    ensures Pow2(a + b) == Pow2(a) * Pow2(b)
  {
    if a > 0 {
      PowAdd(a - 1, b);
      assert Pow2(a + b) == 2 * Pow2(a - 1 + b);
    }
  }

  lemma PowMonotone(a: nat, b: nat)
    requires a <= b
    ensures Pow2(a) <= Pow2(b)
  {
    PowAdd(a, b - a);
    MulMonotone(1, Pow2(b - a), Pow2(a));
  }

  lemma Pow2At32()
    ensures Pow2(8) == 0x100 && Pow2(16) == 0x1_0000 && Pow2(32) == 0x1_0000_0000
  {
    assert Pow2(4) == 16;
    PowAdd(4, 4);
    PowAdd(8, 8);
    PowAdd(16, 16);
  }

  /** Wrapping to 32 bits never disturbs a remainder modulo a smaller power of two. */
  lemma WrapInvisible(x: int, n: nat)
    requires n <= 32
    ensures ToU32(x) % Pow2(n) == x % Pow2(n)
  {
    Pow2At32();
    PowAdd(n, 32 - n);
    ModMod(x, Pow2(n), Pow2(32 - n));
  }

  /** Bit `n` is the sign of a number of `n + 1` two's-complement bits. */
  lemma {:induction false} SignBit(x: int, n: nat)
    requires 0 <= x + Pow2(n) && x < Pow2(n)
    ensures Bit(x, n) <==> x < 0
    decreases n
  {
    if n > 0 {
      SignBit(x / 2, n - 1);
    }
  }

  // ---- masks and disjoint unions ------------------------------------------------

  /** `x % (2 * d)` peels off the lowest bit. */
  lemma ModDouble(x: nat, d: nat)
    requires d > 0
    ensures x % (2 * d) == 2 * ((x / 2) % d) + x % 2
    ensures x / (2 * d) == (x / 2) / d
  {
    var q, r := (x / 2) / d, (x / 2) % d;
    assert x / 2 == q * d + r;
    assert x == q * (2 * d) + (2 * r + x % 2);
    DivModUnique(x, 2 * d, q, 2 * r + x % 2);
  }

  lemma {:induction false} ShrIsDiv(x: nat, n: nat)
    ensures Shr(x, n) == x / Pow2(n)
  {
    if n > 0 {
      ModDouble(x, Pow2(n - 1));
      ShrIsDiv(x / 2, n - 1);
    }
  }

  lemma {:induction false} ShlIsTimes(x: nat, n: nat)
    ensures Shl(x, n) == ToU32(x * Pow2(n))
  {
    if n > 0 {
      ShlIsTimes(x, n - 1);
      DoubleWrapped(x * Pow2(n - 1));
      MulTwo(x, Pow2(n - 1));
    } else {
      assert x * Pow2(0) == x;
    }
  }

  lemma DoubleWrapped(x: int)
    ensures ToU32(2 * ToU32(x)) == ToU32(2 * x)
  {
    ModDrop(2 * (x % 0x1_0000_0000), 2 * (x / 0x1_0000_0000), 0x1_0000_0000);
  }

  lemma {:induction false} BitIsDiv(x: nat, n: nat)
    ensures Bit(x, n) <==> x / Pow2(n) % 2 == 1
  {
    if n > 0 {
      ModDouble(x, Pow2(n - 1));
      BitIsDiv(x / 2, n - 1);
    }
  }

  lemma {:induction false} LowBitsIsMod(x: nat, n: nat)
    ensures LowBits(x, n) == x % Pow2(n) < Pow2(n)
  {
    if n > 0 {
      ModDouble(x, Pow2(n - 1));
      LowBitsIsMod(x / 2, n - 1);
    }
  }

  lemma {:induction false} LowBitsBelow(x: nat, n: nat)
    ensures LowBits(x, n) <= x
  {
    if n > 0 {
      LowBitsBelow(x / 2, n - 1);
    }
  }

  lemma {:induction false} LowBitsOfZero(n: nat)
    ensures LowBits(0, n) == 0
  {
    if n > 0 {
      LowBitsOfZero(n - 1);
    }
  }

  /** Masking with `(1 << n) - 1` keeps the low `n` bits. */
  lemma AndMask(x: nat, n: nat)
    ensures And(x, Pow2(n) - 1) == x % Pow2(n)
  {
    AndIsLowBits(x, n);
    LowBitsIsMod(x, n);
  }

  lemma {:induction false} AndIsLowBits(x: nat, n: nat)
    ensures And(x, Pow2(n) - 1) == LowBits(x, n)
  {
    if n == 0 {
      assert Pow2(n) == 1;
    } else {
      var mask, half := Pow2(n) - 1, Pow2(n - 1) - 1;
      assert mask == 2 * half + 1;
      OddFirst(x, mask);
      AndIsLowBits(x / 2, n - 1);
    }
  }

  /** `&` and `|` act on the lowest bit and on the rest independently. */
  lemma LowestBit(a: nat, b: nat)
    ensures And(a, b) / 2 == And(a / 2, b / 2) && (And(a, b) % 2 == 1 <==> a % 2 == 1 && b % 2 == 1)
    ensures Or(a, b) / 2 == Or(a / 2, b / 2) && (Or(a, b) % 2 == 1 <==> a % 2 == 1 || b % 2 == 1)
  {
  }

  lemma EvenFirst(x: nat, d: nat)
    requires d % 2 == 0
    ensures And(x, d) == 2 * And(x / 2, d / 2)
    ensures Or(d, x) == 2 * Or(d / 2, x / 2) + x % 2
  {
  }

  lemma OddFirst(x: nat, d: nat)
    requires d % 2 == 1
    ensures And(x, d) == 2 * And(x / 2, d / 2) + x % 2
  {
  }

  lemma DoubleFirst(x: nat, m: nat)
    ensures And(x, 2 * m) == 2 * And(x / 2, m)
    ensures Or(2 * m, x) == 2 * Or(m, x / 2) + x % 2
  {
    var d := 2 * m;
    assert d % 2 == 0 && d / 2 == m;
    EvenFirst(x, d);
  }

  /** `|` of fields that share no bit is their sum. */
  lemma {:induction false} OrDisjoint(hi: nat, lo: nat, n: nat)
    requires lo < Pow2(n)
    ensures Or(hi * Pow2(n), lo) == hi * Pow2(n) + lo
    decreases n
  {
    if n > 0 {
      var h := hi * Pow2(n - 1);
      calc {
        Or(hi * Pow2(n), lo);
        { MulTwo(hi, Pow2(n - 1)); }
        Or(2 * h, lo);
        { DoubleFirst(lo, h); }
        2 * Or(h, lo / 2) + lo % 2;
        { OrDisjoint(hi, lo / 2, n - 1); }
        2 * (h + lo / 2) + lo % 2;
        { MulTwo(hi, Pow2(n - 1)); }
        hi * Pow2(n) + lo;
      }
    }
  }

  lemma {:induction false} OrCommutes(a: nat, b: nat)
    ensures Or(a, b) == Or(b, a)
    decreases a + b
  {
    if a > 0 && b > 0 {
      OrCommutes(a / 2, b / 2);
    }
  }

  /** The same for a high field already in place. */
  lemma OrField(lo: nat, high: nat, hi: nat, n: nat)
    requires lo < Pow2(n) && high == hi * Pow2(n)
    ensures Or(lo, high) == high + lo
  {
    OrDisjoint(hi, lo, n);
    OrCommutes(lo, high);
  }

  /** Filling in a zero low byte. */
  lemma OrLowByte(hi: nat, low: U8)
    requires hi % 0x100 == 0
    ensures Or(low, hi) == hi + low
  {
    Pow2At32();
    OrField(low, hi, hi / 0x100, 8);
  }

  lemma {:induction false} OrBound(a: nat, b: nat, n: nat)
    requires a < Pow2(n) && b < Pow2(n)
    ensures Or(a, b) < Pow2(n)
  {
    if n > 0 {
      OrBound(a / 2, b / 2, n - 1);
    }
  }

  lemma {:induction false} ShrOr(a: nat, b: nat, n: nat)
    ensures Shr(Or(a, b), n) == Or(Shr(a, n), Shr(b, n))
  {
    if n > 0 {
      LowestBit(a, b);
      ShrOr(a / 2, b / 2, n - 1);
    }
  }

  lemma ModStep(x: nat, n: nat)
    requires n > 0
    ensures (x % Pow2(n)) / 2 == (x / 2) % Pow2(n - 1) && (x % Pow2(n)) % 2 == x % 2
  {
    ModDouble(x, Pow2(n - 1));
  }

  lemma {:induction false} ModOr(a: nat, b: nat, n: nat)
    ensures Or(a, b) % Pow2(n) == Or(a % Pow2(n), b % Pow2(n))
  {
    if n > 0 {
      ModStep(a, n);
      ModStep(b, n);
      ModStep(Or(a, b), n);
      LowestBit(a, b);
      LowestBit(a % Pow2(n), b % Pow2(n));
      ModOr(a / 2, b / 2, n - 1);
    }
  }

  lemma {:induction false} AndCommutes(a: nat, b: nat)
    ensures And(a, b) == And(b, a)
  {
    if a > 0 && b > 0 {
      AndCommutes(a / 2, b / 2);
    }
  }

  lemma {:induction false} AndOr(x: nat, a: nat, b: nat)
    ensures And(x, Or(a, b)) == Or(And(x, a), And(x, b))
  {
    if x > 0 {
      LowestBit(a, b);
      LowestBit(x, a);
      LowestBit(x, b);
      LowestBit(x, Or(a, b));
      LowestBit(And(x, a), And(x, b));
      AndOr(x / 2, a / 2, b / 2);
    }
  }

  /** Testing a bit is masking with it, as in `x & BIT(n)`. */
  lemma {:induction false} BitIsAnd(x: nat, n: nat)
    ensures Bit(x, n) <==> And(x, Pow2(n)) != 0
  {
    if n == 0 {
      LowestBit(x, 1);
    } else {
      DoubleFirst(x, Pow2(n - 1));
      BitIsAnd(x / 2, n - 1);
    }
  }

  lemma MaskIsLowBits(x: nat, n: nat)
    ensures And(x, Pow2(n) - 1) == LowBits(x, n) <= x
  {
    AndIsLowBits(x, n);
    LowBitsBelow(x, n);
  }

  lemma {:induction false} AllLowBits(x: nat, n: nat)
    requires x < Pow2(n)
    ensures LowBits(x, n) == x
  {
    if n > 0 {
      AllLowBits(x / 2, n - 1);
    }
  }

  /** `|` of numbers that share no bit is their sum. */
  lemma {:induction false} OrIsSum(a: nat, b: nat)
    requires And(a, b) == 0
    ensures Or(a, b) == a + b
    decreases a + b
  {
    if a > 0 && b > 0 {
      LowestBit(a, b);
      OrIsSum(a / 2, b / 2);
    }
  }

  /** Masking with a shifted mask masks the shifted-down number. */
  lemma {:induction false} AndShifted(x: nat, y: nat, n: nat)
    ensures And(x, y * Pow2(n)) == And(Shr(x, n), y) * Pow2(n)
    decreases n
  {
    if n == 0 {
      assert Shr(x, n) == x && y * Pow2(n) == y;
    } else {
      var d := Pow2(n - 1);
      var e := And(Shr(x, n), y);
      calc {
        And(x, y * Pow2(n));
        { MulTwo(y, d); }
        And(x, 2 * (y * d));
        { DoubleFirst(x, y * d); }
        2 * And(x / 2, y * d);
        { AndShifted(x / 2, y, n - 1); }
        2 * (e * d);
        { MulTwo(e, d); }
        e * Pow2(n);
      }
    }
  }
}
