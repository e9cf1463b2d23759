/**
 * C#'s fixed-width integer operators, written over unbounded naturals.
 *
 * The reader and writer keep their accumulator in a `ulong` and their words in
 * `uint`; the mask table is computed with `int` arithmetic. This module gives
 * each operator the source uses an explicit definition (wrap-around included),
 * and proves the facts that let the accumulator be reasoned about as plain
 * arithmetic: a shift that stays below 2^64 does not wrap, `|` of two values
 * whose bits do not overlap is `+`, and `& masks[k]` keeps the low k bits.
 */
module Machine {

  /** 2^k */
  function Pow2(k: nat): (r: nat)
    ensures r >= 1
  {
    if k == 0 then 1 else 2 * Pow2(k - 1)
  }

  const UINT32_LIMIT: nat := 0x1_0000_0000
  const UINT64_LIMIT: nat := 0x1_0000_0000_0000_0000

  /** C#'s `uint`. */
  type uint32 = x: nat | x < UINT32_LIMIT

  /** C#'s `byte`. */
  type byte = x: nat | x < 256

  /** The unchecked conversion of an integer to C#'s `int` (two's complement wrap). */
  function Int32(x: int): (r: int)
    ensures -0x8000_0000 <= r < 0x8000_0000
    ensures (r - x) % UINT32_LIMIT == 0
  {
    (x + 0x8000_0000) % UINT32_LIMIT - 0x8000_0000
  }

  /** The unchecked cast `(uint)x`: the low 32 bits. */
  function UInt32(x: int): (r: uint32)
    ensures 0 <= x < UINT32_LIMIT ==> r == x
  {
    x % UINT32_LIMIT
  }

  /**
   * `x << s` on a `ulong`: one doubling per position, bits shifted past bit
   * 63 are lost (`ShlIsMul`: it is x * 2^s mod 2^64).
   */
  function Shl64(x: nat, s: nat): nat
    decreases s
  {
    if s == 0 then x % UINT64_LIMIT else Shl64(2 * x, s - 1)
  }

  /** `x >> s` on an unsigned value: one halving per position (`ShrIsDiv`: it is x / 2^s). */
  function Shr(x: nat, s: nat): nat
  {
    if s == 0 then x else Shr(x / 2, s - 1)
  }

  /** Bitwise `|` on unsigned values. */
  function Or(x: nat, y: nat): nat
    decreases x + y
  {
    if x == 0 then y
    else if y == 0 then x
    else 2 * Or(x / 2, y / 2) + (if x % 2 == 1 || y % 2 == 1 then 1 else 0)
  }

  /** Bitwise `&` on unsigned values. */
  function And(x: nat, y: nat): nat
    decreases x + y
  {
    if x == 0 || y == 0 then 0
    else 2 * And(x / 2, y / 2) + (if x % 2 == 1 && y % 2 == 1 then 1 else 0)
  }

  // ---------------------------------------------------------------------------
  // Powers of two, division and remainder

  lemma {:induction false} Pow2Add(a: nat, b: nat)
    ensures Pow2(a + b) == Pow2(a) * Pow2(b)
  {
    if a > 0 {
      Pow2Add(a - 1, b);
      assert Pow2(a + b) == 2 * Pow2(a - 1 + b);
    }
  }

  lemma {:induction false} Pow2Monotone(a: nat, b: nat)
    requires a <= b
    ensures Pow2(a) <= Pow2(b)
  {
    if a < b {
      Pow2Monotone(a, b - 1);
    }
  }

  lemma Pow2Values()
    ensures Pow2(8) == 256 && Pow2(16) == 0x1_0000 && Pow2(24) == 0x100_0000
    ensures Pow2(31) == 0x8000_0000 && Pow2(32) == UINT32_LIMIT
    ensures Pow2(64) == UINT64_LIMIT
  {
    assert Pow2(8) == 256;
    Pow2Add(8, 8);
    Pow2Add(16, 8);
    Pow2Add(24, 7);
    Pow2Add(24, 8);
    Pow2Add(32, 32);
  }

  /** The width of a `uint`. */
  lemma Pow2Word()
    ensures Pow2(32) == UINT32_LIMIT
  {
    assert Pow2(8) == 256;
    Pow2Add(8, 8);
    Pow2Add(16, 16);
  }

  /** One more byte of width multiplies by 256. */
  lemma Pow2Plus8(k: nat)
    ensures Pow2(k + 8) == 256 * Pow2(k)
  {
    Pow2Add(k, 8);
    Pow2Values();
  }

  /** The division equation for Euclidean `/` and `%`. */
  lemma DivEquation(x: int, d: int)
    requires d > 0
    ensures x == (x / d) * d + x % d && 0 <= x % d < d
  {
  }

  /** A non-zero multiple of d is at least d away from zero. */
  lemma MulAwayFromZero(k: int, d: int)
    requires d > 0
    ensures k >= 1 ==> k * d >= d
    ensures k <= -1 ==> k * d <= -d
    ensures k >= 0 ==> k * d >= k
  {
  }

  lemma MulSubDistrib(a: int, b: int, d: int)
    ensures (a - b) * d == a * d - b * d
  {
  }

  /** Quotient and remainder are determined by the division equation. */
  lemma DivModUnique(x: int, d: int, q: int, r: int)
    requires d > 0 && 0 <= r < d && x == q * d + r
    ensures q == x / d && r == x % d
  {
    DivEquation(x, d);
    MulSubDistrib(q, x / d, d);
    MulAwayFromZero(q - x / d, d);
  }

  lemma DivDiv(x: nat, a: nat, b: nat)
    requires a > 0 && b > 0
    ensures x / a / b == x / (a * b)
    ensures (x % (a * b)) / a == (x / a) % b
    ensures (x % (a * b)) % a == x % a
  {
    var q1, r1 := x / a, x % a;
    var q2, r2 := q1 / b, q1 % b;
    var ab := a * b;
    assert x == q1 * a + r1;
    assert q1 == q2 * b + r2;
    MulAddAssoc(q2, b, r2, a);
    assert x == q2 * ab + (r2 * a + r1);
    MulMonotone(r2 + 1, b, a);
    MulAddOne(r2, a);
    assert r2 * a + r1 < ab;
    DivModUnique(x, ab, q2, r2 * a + r1);
    DivModUnique(r2 * a + r1, a, r2, r1);
  }

  /** The low bits below a * b: the low bits below a, then the next digit in base b. */
  lemma ModMulSplit(x: nat, a: nat, b: nat)
    requires a > 0 && b > 0
    ensures x % (a * b) == x % a + a * ((x / a) % b)
  {
    DivDiv(x, a, b);
    DivEquation(x % (a * b), a);
  }

  lemma MulAddAssoc(q: int, b: int, r: int, a: int)
    ensures (q * b + r) * a == q * (a * b) + r * a
  {
  }

  lemma DivBounds(x: nat, d: nat)
    requires d > 0
    ensures 0 <= x / d <= x && 0 <= x % d < d
  {
    DivEquation(x, d);
    MulAwayFromZero(x / d, d);
  }

  /** A value below 2^(a+b), shifted right by b, is below 2^a. */
  lemma QuotientBound(x: nat, a: nat, b: nat, q: nat)
    requires x < Pow2(a + b) && q == x / Pow2(b)
    ensures q < Pow2(a)
  {
    Pow2Add(a, b);
    DivEquation(x, Pow2(b));
    if q >= Pow2(a) {
      MulMonotone(Pow2(a), q, Pow2(b));
    }
  }

  /** Multiplying by d and adding a remainder below d is undone by `/ d` and `% d`. */
  lemma DivModOfMulAdd(q: nat, d: nat, r: nat)
    requires 0 <= r < d
    ensures (q * d + r) / d == q && (q * d + r) % d == r
  {
    DivModUnique(q * d + r, d, q, r);
  }

  lemma MulMonotone(a: int, b: int, c: nat)
    requires a <= b
    ensures a * c <= b * c
  {
  }

  lemma MulMonotoneWhen(a: int, b: int, c: nat)
    ensures a <= b ==> a * c <= b * c
  {
  }

  lemma MulAddOne(x: int, c: int)
    ensures x * c + c == (x + 1) * c
  {
  }

  /** A value below 2^a, shifted left by b, stays below 2^(a+b). */
  lemma ShiftedBound(x: nat, a: nat, b: nat)
    requires x < Pow2(a)
    ensures x * Pow2(b) < Pow2(a + b)
    ensures x * Pow2(b) + Pow2(b) <= Pow2(a + b)
  {
    Pow2Add(a, b);
    MulMonotone(x + 1, Pow2(a), Pow2(b));
    MulAddOne(x, Pow2(b));
  }

  // ---------------------------------------------------------------------------
  // The operators, reduced to arithmetic

  /** A left shift multiplies by 2^s, modulo 2^64. */
  lemma {:induction false} ShlIsMul(x: nat, s: nat)
    ensures Shl64(x, s) == (x * Pow2(s)) % UINT64_LIMIT
    decreases s
  {
    if s > 0 {
      ShlIsMul(2 * x, s - 1);
      assert 2 * x * Pow2(s - 1) == x * Pow2(s);
    }
  }

  /** A right shift divides by 2^s. */
  lemma {:induction false} ShrIsDiv(x: nat, s: nat)
    ensures Shr(x, s) == x / Pow2(s)
  {
    if s > 0 {
      ShrIsDiv(x / 2, s - 1);
      DivDiv(x, 2, Pow2(s - 1));
    }
  }

  /** A shift whose result stays below 2^64 does not wrap. */
  lemma Shl64NoWrap(x: nat, s: nat, width: nat)
    requires x < Pow2(width) && width + s <= 64
    ensures Shl64(x, s) == x * Pow2(s)
  {
    var y := x * Pow2(s);
    ShlIsMul(x, s);
    assert y < UINT64_LIMIT by {
      ShiftedBound(x, width, s);
      Pow2Monotone(width + s, 64);
      Pow2Values();
    }
    LowBitsOfSmallValue(y, UINT64_LIMIT);
  }

  lemma LowBitsOfSmallValue(y: nat, d: nat)
    requires y < d
    ensures y % d == y
  {
    DivModOfMulAdd(0, d, y);
  }

  /** `|` is symmetric. */
  lemma {:induction false} OrCommutes(x: nat, y: nat)
    ensures Or(x, y) == Or(y, x)
    decreases x + y
  {
    if x != 0 && y != 0 {
      OrCommutes(x / 2, y / 2);
    }
  }

  /**
   * `(a << s) | v` is `a * 2^s + v` when v < 2^s: the two operands have no
   * bit in common. This is the reader's refill and the writer's merge.
   */
  lemma {:induction false} OrOfShifted(a: nat, s: nat, v: nat)
    requires v < Pow2(s)
    ensures Or(a * Pow2(s), v) == a * Pow2(s) + v
    decreases s
  {
    if s == 0 {
      assert v == 0;
    } else if a == 0 || v == 0 {
    } else {
      var hi := a * Pow2(s);
      assert hi == 2 * (a * Pow2(s - 1));
      DivModOfMulAdd(a * Pow2(s - 1), 2, 0);
      DivModOfMulAdd(v / 2, 2, v % 2);
      assert v / 2 < Pow2(s - 1);
      OrOfShifted(a, s - 1, v / 2);
      assert Or(hi, v) == 2 * Or(hi / 2, v / 2) + (if v % 2 == 1 then 1 else 0);
    }
  }

  /** `x & y` is at most x. */
  lemma {:induction false} AndBelow(x: nat, y: nat)
    ensures And(x, y) <= x
    decreases x + y
  {
    if x != 0 && y != 0 {
      AndBelow(x / 2, y / 2);
    }
  }

  /** `x & (2^k - 1)` keeps the low k bits of x. */
  lemma {:induction false} AndLowMask(x: nat, k: nat)
    ensures And(x, Pow2(k) - 1) == x % Pow2(k)
    decreases k
  {
    if k == 0 {
    } else if x == 0 {
    } else {
      var m := Pow2(k) - 1;
      assert m / 2 == Pow2(k - 1) - 1 && m % 2 == 1;
      AndLowMask(x / 2, k - 1);
      ModPow2Step(x, k);
    }
  }

  /** `x & 2^k` is non-zero exactly when bit k of x is set. */
  lemma {:induction false} AndPow2(x: nat, k: nat)
    ensures (And(x, Pow2(k)) != 0) == ((x / Pow2(k)) % 2 == 1)
    decreases k
  {
    if x == 0 {
    } else if k == 0 {
      assert And(x, 1) == 2 * And(x / 2, 0) + x % 2;
    } else {
      var p := Pow2(k - 1);
      assert And(x, 2 * p) == 2 * And(x / 2, p);
      AndPow2(x / 2, k - 1);
      DivDiv(x, 2, p);
    }
  }

  /** Bit v of 2^w is set exactly when v == w. */
  lemma {:induction false} Pow2Digit(w: nat, v: nat)
    ensures ((Pow2(w) / Pow2(v)) % 2 == 1) == (w == v)
    decreases v
  {
    if v == 0 {
      if w > 0 {
        assert Pow2(w) == 2 * Pow2(w - 1);
      }
    } else if w == 0 {
      Pow2Monotone(1, v);
      DivModOfMulAdd(0, Pow2(v), 1);
    } else {
      var h := Pow2(w - 1);
      assert Pow2(w) / 2 == h;
      DivDiv(Pow2(w), 2, Pow2(v - 1));
      Pow2Digit(w - 1, v - 1);
    }
  }

  /** The low k bits of x are its lowest bit below the low k - 1 bits of x / 2. */
  lemma ModPow2Step(x: nat, k: nat)
    requires k >= 1
    ensures x % Pow2(k) == 2 * ((x / 2) % Pow2(k - 1)) + x % 2
  {
    var p := Pow2(k - 1);
    assert Pow2(k) == 2 * p;
    DivDiv(x, 2, p);
    var y := x % (2 * p);
    assert y == 2 * (y / 2) + y % 2;
  }

  /** A value below 2^k keeps all its bits under the mask 2^k - 1. */
  lemma LowBitsOfSmall(x: nat, k: nat)
    requires x < Pow2(k)
    ensures x % Pow2(k) == x
  {
    DivModOfMulAdd(0, Pow2(k), x);
  }

  /** The low k bits of the low j bits are the low k bits, for k <= j. */
  lemma LowBitsOfLowBits(x: nat, k: nat, j: nat)
    requires k <= j
    ensures (x % Pow2(j)) % Pow2(k) == x % Pow2(k)
  {
    Pow2Add(k, j - k);
    DivDiv(x, Pow2(k), Pow2(j - k));
  }

  // ---------------------------------------------------------------------------
  // Single bits of `|`, `&` and the complement

  /** Bit k of `2 * h + b` is b for k == 0 and bit k - 1 of h above it. */
  lemma DigitStep(z: nat, h: nat, b: nat, k: nat)
    requires b < 2 && z == 2 * h + b
    ensures k == 0 ==> (z / Pow2(k)) % 2 == b
    ensures k > 0 ==> (z / Pow2(k)) % 2 == (h / Pow2(k - 1)) % 2
  {
    DivModOfMulAdd(h, 2, b);
    if k > 0 {
      DivDiv(z, 2, Pow2(k - 1));
    }
  }

  /** Bit k of `x | y` is set exactly when bit k of x or bit k of y is. */
  lemma {:induction false} OrDigit(x: nat, y: nat, k: nat)
    ensures ((Or(x, y) / Pow2(k)) % 2 == 1) == ((x / Pow2(k)) % 2 == 1 || (y / Pow2(k)) % 2 == 1)
    decreases k
  {
    if x == 0 || y == 0 {
      DivModOfMulAdd(0, Pow2(k), 0);
    } else {
      var o, b := Or(x / 2, y / 2), if x % 2 == 1 || y % 2 == 1 then 1 else 0;
      DigitStep(Or(x, y), o, b, k);
      DigitStep(x, x / 2, x % 2, k);
      DigitStep(y, y / 2, y % 2, k);
      if k > 0 {
        OrDigit(x / 2, y / 2, k - 1);
      }
    }
  }

  /** Bit k of `x & y` is set exactly when bit k of both x and y is. */
  lemma {:induction false} AndDigit(x: nat, y: nat, k: nat)
    ensures ((And(x, y) / Pow2(k)) % 2 == 1) == ((x / Pow2(k)) % 2 == 1 && (y / Pow2(k)) % 2 == 1)
    decreases k
  {
    if x == 0 || y == 0 {
      DivModOfMulAdd(0, Pow2(k), 0);
    } else {
      var a, b := And(x / 2, y / 2), if x % 2 == 1 && y % 2 == 1 then 1 else 0;
      DigitStep(And(x, y), a, b, k);
      DigitStep(x, x / 2, x % 2, k);
      DigitStep(y, y / 2, y % 2, k);
      if k > 0 {
        AndDigit(x / 2, y / 2, k - 1);
      }
    }
  }

  /** Below 2^n, `c = 2^n - 1 - x` is the n-bit complement of x: every bit flips. */
  lemma {:induction false} ComplementDigit(n: nat, x: nat, c: nat, k: nat)
    requires x < Pow2(n) && c + x + 1 == Pow2(n) && k < n
    ensures ((c / Pow2(k)) % 2 == 1) == !((x / Pow2(k)) % 2 == 1)
    decreases k
  {
    var c' := Pow2(n - 1) - 1 - x / 2;
    DigitStep(c, c', 1 - x % 2, k);
    DigitStep(x, x / 2, x % 2, k);
    if k > 0 {
      ComplementDigit(n - 1, x / 2, c', k - 1);
    }
  }

  /** `|` of two values below 2^n stays below 2^n. */
  lemma {:induction false} OrBound(x: nat, y: nat, n: nat)
    requires x < Pow2(n) && y < Pow2(n)
    ensures Or(x, y) < Pow2(n)
    decreases n
  {
    if x != 0 && y != 0 {
      OrBound(x / 2, y / 2, n - 1);
    }
  }
}
