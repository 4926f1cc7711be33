/**
 * JavaScript numbers that hold integers, and the 32-bit bitwise operators
 * applied to them.
 *
 * Every JavaScript bitwise operator first converts its operands with
 * ToInt32 or ToUint32 (section 7.1.6 and 7.1.7 of ECMA-262), so it only
 * ever sees the operand modulo 2^32.  `&`, `|`, `^` and `<<` produce a
 * signed 32-bit result, `>>>` an unsigned one.  Arithmetic (`+`, `*`) is
 * exact here because every product and sum the core forms stays below
 * 2^53, so plain `int` is faithful for it.
 *
 * The bitwise operators on naturals are defined one bit at a time, which
 * keeps every fact about them provable by induction.
 */
module JsInt {

  const TWO_31: int := 0x8000_0000
  const TWO_32: int := 0x1_0000_0000

  function Pow2(k: nat): (r: nat)
    ensures r >= 1
  {
    if k == 0 then 1 else 2 * Pow2(k - 1)
  }

  predicate IsInt32(x: int) { -TWO_31 <= x < TWO_31 }

  /** ToUint32 of an integral number. */
  function ToUint32(x: int): (r: nat)
    ensures r < TWO_32
    ensures (x - r) % TWO_32 == 0
  {
    x % TWO_32
  }

  /** ToInt32 of an integral number: the same residue, read as two's complement. */
  function ToInt32(x: int): (r: int)
    ensures IsInt32(r)
    ensures ToUint32(r) == ToUint32(x)
    ensures 0 <= x < TWO_31 ==> r == x
  {
    var u := ToUint32(x);
    if u >= TWO_31 then u - TWO_32 else u
  }

  // ---------------------------------------------------------------------
  // Bitwise operators on naturals of any width

  function AndN(x: nat, y: nat): nat
  {
    if x == 0 || y == 0 then 0
    else 2 * AndN(x / 2, y / 2) + (if x % 2 == 1 && y % 2 == 1 then 1 else 0)
  }

  function OrN(x: nat, y: nat): nat
  {
    if x == 0 then y
    else if y == 0 then x
    else 2 * OrN(x / 2, y / 2) + (if x % 2 == 1 || y % 2 == 1 then 1 else 0)
  }

  function XorN(x: nat, y: nat): nat
  {
    if x == 0 then y
    else if y == 0 then x
    else 2 * XorN(x / 2, y / 2) + (if x % 2 != y % 2 then 1 else 0)
  }

  /** x shifted left by s bits, without any width limit. */
  function ShlN(x: nat, s: nat): nat
  {
    if s == 0 then x else 2 * ShlN(x, s - 1)
  }

  /** x shifted right by s bits. */
  function ShrN(x: nat, s: nat): nat
  {
    if s == 0 then x else ShrN(x / 2, s - 1)
  }

  /** Bit k of a natural number. */
  function BitN(x: nat, k: nat): bool
  {
    if k == 0 then x % 2 == 1 else BitN(x / 2, k - 1)
  }

  // ---------------------------------------------------------------------
  // The JavaScript operators

  /** `x & y` */
  function And(x: int, y: int): int { ToInt32(AndN(ToUint32(x), ToUint32(y))) }

  /** `x | y` */
  function Or(x: int, y: int): int { ToInt32(OrN(ToUint32(x), ToUint32(y))) }

  /** `x ^ y` */
  function Xor(x: int, y: int): int { ToInt32(XorN(ToUint32(x), ToUint32(y))) }

  /** `x << n`: the count is taken modulo 32. */
  function Shl(x: int, n: int): int { ToInt32(ShlN(ToUint32(x), ToUint32(n) % 32)) }

  /** `x >>> n`: the count is taken modulo 32. */
  function Ushr(x: int, n: int): nat { ShrN(ToUint32(x), ToUint32(n) % 32) }

  /** Bit k of the 32-bit pattern of x. */
  function Bit(x: int, k: nat): bool { BitN(ToUint32(x), k) }

  // ---------------------------------------------------------------------
  // Arithmetic facts

  lemma Pow2Values()
    ensures Pow2(8) == 0x100 && Pow2(13) == 0x2000 && Pow2(15) == 0x8000
    ensures Pow2(16) == 0x1_0000 && Pow2(17) == 0x2_0000 && Pow2(19) == 0x8_0000
    ensures Pow2(24) == 0x100_0000 && Pow2(31) == TWO_31 && Pow2(32) == TWO_32
  {
  }

  lemma {:induction false} Pow2Mono(j: nat, k: nat)
    requires j <= k
    ensures Pow2(j) <= Pow2(k)
  {
    if j < k {
      Pow2Mono(j, k - 1);
    }
  }

  lemma MulAtLeast(t: int, d: int)
    requires t >= 1 && d > 0
    ensures t * d >= d
  {
  }

  lemma MulSub(a: int, b: int, d: int)
    ensures (a - b) * d == a * d - b * d
  {
  }

  /** Quotient and remainder are determined by x == q * d + r with 0 <= r < d. */
  lemma DivUnique(x: int, d: int, q: int, r: int)
    requires d > 0 && 0 <= r < d && x == q * d + r
    ensures x / d == q && x % d == r
  {
    var q0, r0 := x / d, x % d;
    assert x == q0 * d + r0;
    MulSub(q, q0, d);
    if q - q0 >= 1 {
      MulAtLeast(q - q0, d);
    } else if q0 - q >= 1 {
      MulAtLeast(q0 - q, d);
      MulSub(q0, q, d);
    }
  }

  lemma DivDiv(x: nat, a: nat, b: nat)
    requires a > 0 && b > 0
    ensures x / a / b == x / (a * b)
  {
    var q, r := x / a, x % a;
    var q2, r2 := q / b, q % b;
    ProductShift(q2, b, r2, a);
    ProductBelow(r2, b, a, r);
    DivUnique(x, a * b, q2, r2 * a + r);
  }

  lemma ProductShift(q: int, b: int, r: int, a: int)
    ensures (q * b + r) * a == q * (a * b) + r * a
  {
  }

  lemma ProductBelow(r2: int, b: int, a: int, r: int)
    requires 0 <= r2 < b && 0 <= r < a
    ensures 0 <= r2 * a + r < a * b
  {
    var t := b - 1 - r2;
    assert t * a >= 0;
    assert a * b == r2 * a + t * a + a;
  }

  lemma ModDouble(x: nat, p: nat)
    requires p > 0
    ensures x % (2 * p) == 2 * ((x / 2) % p) + x % 2
  {
    var h := x / 2;
    var a, b := h / p, h % p;
    assert h == a * p + b;
    assert x == a * (2 * p) + (2 * b + x % 2);
    DivUnique(x, 2 * p, a, 2 * b + x % 2);
  }

  lemma ModMulScaled(x: nat, q: nat, p: nat)
    requires q > 0 && p > 0
    ensures (x * p) % (q * p) == (x % q) * p
  {
    var d, m := x / q, x % q;
    ProductShift(d, q, m, p);
    assert x * p == d * (q * p) + m * p;
    ProductBelow(m, q, p, 0);
    DivUnique(x * p, q * p, d, m * p);
  }

  lemma ModOfMod(x: int, a: nat, b: nat)
    requires a > 0 && b > 0
    ensures (x % (a * b)) % a == x % a
  {
    var q, r := x / (a * b), x % (a * b);
    assert x == (q * b) * a + r;
    var q1, r1 := r / a, r % a;
    assert x == (q * b + q1) * a + r1;
    DivUnique(x, a, q * b + q1, r1);
  }

  lemma ModAddRight(x: int, y: int, m: nat)
    requires m > 0
    ensures (x + y) % m == (x + y % m) % m
  {
    var q := y / m;
    assert x + y == (x + y % m) + q * m;
    var q1, r1 := (x + y % m) / m, (x + y % m) % m;
    DivUnique(x + y, m, q1 + q, r1);
  }

  // ---------------------------------------------------------------------
  // Facts about the conversions

  lemma ToUint32OfUint32(x: int)
    requires 0 <= x < TWO_32
    ensures ToUint32(x) == x
  {
  }

  /** A shift count below 32 is used as it is. */
  lemma ShiftCount(n: int)
    requires 0 <= n < 32
    ensures ToUint32(n) % 32 == n
  {
    ToUint32OfUint32(n);
  }

  lemma {:induction false} Int32Injective(x: int, y: int)
    requires IsInt32(x) && IsInt32(y) && ToUint32(x) == ToUint32(y)
    ensures x == y
  {
    assert (x - y) % TWO_32 == 0 by {
      ModAddRight(x, -y, TWO_32);
      ModAddRight(-y % TWO_32, x, TWO_32);
    }
  }

  // ---------------------------------------------------------------------
  // Facts about the bitwise operators on naturals

  lemma {:induction false} OrNBound(x: nat, y: nat, n: nat)
    requires x < Pow2(n) && y < Pow2(n)
    ensures OrN(x, y) < Pow2(n)
  {
    if x != 0 && y != 0 {
      OrNBound(x / 2, y / 2, n - 1);
    }
  }

  lemma {:induction false} XorNBound(x: nat, y: nat, n: nat)
    requires x < Pow2(n) && y < Pow2(n)
    ensures XorN(x, y) < Pow2(n)
  {
    if x != 0 && y != 0 {
      XorNBound(x / 2, y / 2, n - 1);
    }
  }

  lemma {:induction false} AndNBound(x: nat, y: nat)
    ensures AndN(x, y) <= x && AndN(x, y) <= y
  {
    if x != 0 && y != 0 {
      AndNBound(x / 2, y / 2);
    }
  }

  lemma {:induction false} BitNZero(k: nat)
    ensures !BitN(0, k)
  {
    if k > 0 {
      BitNZero(k - 1);
    }
  }

  lemma {:induction false} BitNOr(x: nat, y: nat, k: nat)
    ensures BitN(OrN(x, y), k) == (BitN(x, k) || BitN(y, k))
  {
    if x == 0 {
      BitNZero(k);
    } else if y == 0 {
      BitNZero(k);
    } else if k > 0 {
      BitNOr(x / 2, y / 2, k - 1);
    }
  }

  lemma {:induction false} BitNPow2(j: nat, k: nat)
    ensures BitN(Pow2(j), k) == (j == k)
  {
    if j == 0 {
      if k > 0 {
        BitNZero(k - 1);
      }
    } else if k > 0 {
      BitNPow2(j - 1, k - 1);
    }
  }

  lemma {:induction false} AndNPow2(x: nat, k: nat)
    ensures (AndN(x, Pow2(k)) != 0) == BitN(x, k)
  {
    if x == 0 {
      BitNZero(k);
    } else if k > 0 {
      AndNPow2(x / 2, k - 1);
    }
  }

  /** Two numbers below 2^n with the same n low bits are equal. */
  lemma {:induction false} BitNExtensional(x: nat, y: nat, n: nat)
    requires x < Pow2(n) && y < Pow2(n)
    requires forall k :: 0 <= k < n ==> BitN(x, k) == BitN(y, k)
    ensures x == y
  {
    if n > 0 {
      forall k | 0 <= k < n - 1
        ensures BitN(x / 2, k) == BitN(y / 2, k)
      {
        assert BitN(x, k + 1) == BitN(y, k + 1);
      }
      BitNExtensional(x / 2, y / 2, n - 1);
      assert BitN(x, 0) == BitN(y, 0);
    }
  }

  /** Masking with 2^w - 1 keeps the w low bits. */
  lemma {:induction false} AndNLowMask(x: nat, w: nat)
    ensures AndN(x, Pow2(w) - 1) == x % Pow2(w)
  {
    if w > 0 && x != 0 {
      var p := Pow2(w - 1);
      assert Pow2(w) == 2 * p;
      AndNLowStep(x, p);
      AndNLowMask(x / 2, w - 1);
      AndNLowCombine(x, p, Pow2(w), AndN(x, 2 * p - 1), AndN(x / 2, p - 1));
    } else if w == 0 {
      assert Pow2(w) - 1 == 0;
    } else {
      DivUnique(x, Pow2(w), 0, 0);
    }
  }

  lemma AndNLowCombine(x: nat, p: nat, q: nat, a: nat, h: nat)
    requires q == 2 * p && p >= 1
    requires a == 2 * h + x % 2 && h == (x / 2) % p
    ensures a == x % q
  {
    ModDouble(x, p);
  }

  lemma AndNLowStep(x: nat, p: nat)
    requires x != 0 && p >= 1
    ensures AndN(x, 2 * p - 1) == 2 * AndN(x / 2, p - 1) + x % 2
  {
    var m := 2 * p - 1;
    DivUnique(m, 2, p - 1, 1);
  }

  lemma MulTwoAssoc(a: int, b: int)
    ensures a * (2 * b) == 2 * (a * b)
  {
  }

  lemma {:induction false} ShlNIsMul(x: nat, s: nat)
    ensures ShlN(x, s) == x * Pow2(s)
  {
    if s > 0 {
      ShlNIsMul(x, s - 1);
      MulTwoAssoc(x, Pow2(s - 1));
    }
  }

  lemma {:induction false} ShrNIsDiv(x: nat, s: nat)
    ensures ShrN(x, s) == x / Pow2(s)
  {
    if s > 0 {
      ShrNIsDiv(x / 2, s - 1);
      DivDiv(x, 2, Pow2(s - 1));
    }
  }

  lemma {:induction false} ShlNOne(s: nat)
    ensures ShlN(1, s) == Pow2(s)
  {
    if s > 0 {
      ShlNOne(s - 1);
    }
  }

  lemma {:induction false} ShrNShlN(v: nat, s: nat)
    ensures ShrN(ShlN(v, s), s) == v
  {
    if s > 0 {
      ShrNShlN(v, s - 1);
      assert ShlN(v, s) / 2 == ShlN(v, s - 1);
      ShrNOfShl(ShlN(v, s - 1), s - 1);
    }
  }

  lemma {:induction false} ShrNOfShl(x: nat, s: nat)
    ensures ShrN(2 * x, s + 1) == ShrN(x, s)
  {
    assert (2 * x) / 2 == x;
  }

  lemma {:induction false} ShrNShrN(x: nat, a: nat, b: nat)
    ensures ShrN(ShrN(x, a), b) == ShrN(x, a + b)
  {
    if a > 0 {
      ShrNShrN(x / 2, a - 1, b);
    }
  }

  /** Masking with m shifted left by s reads m's bits of x shifted right by s. */
  lemma {:induction false} AndNShiftedMask(x: nat, m: nat, s: nat)
    ensures AndN(x, ShlN(m, s)) == ShlN(AndN(ShrN(x, s), m), s)
  {
    if s > 0 {
      var y := ShlN(m, s - 1);
      AndNShiftedMask(x / 2, m, s - 1);
      assert AndN(x, 2 * y) == 2 * AndN(x / 2, y);
    }
  }

  /** OR of two numbers whose bits do not overlap is their sum. */
  lemma {:induction false} OrNDisjoint(x: nat, y: nat, k: nat)
    requires x < Pow2(k)
    ensures OrN(x, ShlN(y, k)) == x + ShlN(y, k)
  {
    if x != 0 && k > 0 {
      var z := ShlN(y, k - 1);
      OrNDisjoint(x / 2, y, k - 1);
      if z != 0 {
        assert OrN(x, 2 * z) == 2 * OrN(x / 2, z) + x % 2;
      }
    }
  }

  // ---------------------------------------------------------------------
  // Facts about the JavaScript operators

  lemma OrRange(x: int, y: int)
    ensures ToUint32(Or(x, y)) == OrN(ToUint32(x), ToUint32(y))
  {
    Pow2Values();
    OrNBound(ToUint32(x), ToUint32(y), 32);
  }

  lemma AndRange(x: int, y: int)
    ensures ToUint32(And(x, y)) == AndN(ToUint32(x), ToUint32(y))
  {
    AndNBound(ToUint32(x), ToUint32(y));
  }

  /** Bit k of `x | y` is set iff it is set in x or in y. */
  lemma BitOr(x: int, y: int, k: nat)
    ensures Bit(Or(x, y), k) == (Bit(x, k) || Bit(y, k))
  {
    OrRange(x, y);
    BitNOr(ToUint32(x), ToUint32(y), k);
  }

  /** `1 << j` has exactly bit j set. */
  lemma BitShlOne(j: nat, k: nat)
    requires j < 32
    ensures ToUint32(Shl(1, j)) == Pow2(j)
    ensures Bit(Shl(1, j), k) == (j == k)
  {
    Pow2Mono(j, 31);
    assert Pow2(31) == TWO_31 by { Pow2Values(); }
    var pj := Pow2(j);
    ToUint32OfUint32(1);
    ToUint32OfUint32(j);
    ShiftCount(j);
    ShlNOne(j);
    assert ShlN(ToUint32(1), ToUint32(j) % 32) == pj;
    assert Shl(1, j) == ToInt32(pj);
    ToUint32OfUint32(pj);
    BitNPow2(j, k);
  }

  /** `x & (1 << k)` is non-zero iff bit k of x is set. */
  lemma AndShlOne(x: int, k: nat)
    requires k < 32
    ensures (And(x, Shl(1, k)) != 0) == Bit(x, k)
  {
    BitShlOne(k, k);
    AndRange(x, Shl(1, k));
    AndNPow2(ToUint32(x), k);
  }

  /** Two int32 values with the same 32 bits are equal. */
  lemma Int32Extensional(x: int, y: int)
    requires IsInt32(x) && IsInt32(y)
    requires forall k :: 0 <= k < 32 ==> Bit(x, k) == Bit(y, k)
    ensures x == y
  {
    Pow2Values();
    forall k | 0 <= k < 32
      ensures BitN(ToUint32(x), k) == BitN(ToUint32(y), k)
    {
      assert Bit(x, k) == Bit(y, k);
    }
    BitNExtensional(ToUint32(x), ToUint32(y), 32);
    Int32Injective(x, y);
  }
}
