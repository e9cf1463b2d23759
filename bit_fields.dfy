/**
 * Bit fields in read order.
 *
 * A reader hands out, and a writer takes in, unsigned fields of n <= 32 bits.
 * Under Lsb0 the first bit of a field in the stream is the field's least
 * significant bit; under Msb0 it is the most significant bit. `ToBits` gives
 * the bits of a value in that order and `FieldValue` reads them back; every
 * other part of the model states its promise with these two.
 *
 * `Merge` is the accumulator update the reader's refill and the writer's
 * `WriteBits` share (src/Bite/BitReader.cs:94-101, src/Bite/BitWriter.cs:52-59).
 */
module BitFields {
  import opened Machine
  import opened Order

  /** The n low bits of x, in the order a reader of `order` consumes them. */
  function ToBits(order: BitOrder, n: nat, x: nat): (r: seq<bool>)
    ensures |r| == n
  {
    if n == 0 then []
    else if order == Lsb0 then [x % 2 == 1] + ToBits(order, n - 1, x / 2)
    else ToBits(order, n - 1, x / 2) + [x % 2 == 1]
  }

  /** The unsigned value of a run of bits taken in `order`. */
  function FieldValue(order: BitOrder, bits: seq<bool>): nat
  {
    if bits == [] then 0
    else if order == Lsb0 then (if bits[0] then 1 else 0) + 2 * FieldValue(order, bits[1..])
    else 2 * FieldValue(order, bits[..|bits| - 1]) + (if bits[|bits| - 1] then 1 else 0)
  }

  /** A run of n bits has a value below 2^n. */
  lemma {:induction false} FieldValueBound(order: BitOrder, bits: seq<bool>)
    ensures FieldValue(order, bits) < Pow2(|bits|)
  {
    if bits != [] {
      if order == Lsb0 {
        FieldValueBound(order, bits[1..]);
      } else {
        FieldValueBound(order, bits[..|bits| - 1]);
      }
    }
  }

  /** Reading back the bits of x gives the n low bits of x. */
  lemma {:induction false} FieldValueOfToBits(order: BitOrder, n: nat, x: nat)
    ensures FieldValue(order, ToBits(order, n, x)) == x % Pow2(n)
  {
    if n > 0 {
      FieldValueOfToBits(order, n - 1, x / 2);
      ModPow2Step(x, n);
      var s := ToBits(order, n, x);
      if order == Lsb0 {
        assert s[0] == (x % 2 == 1) && s[1..] == ToBits(order, n - 1, x / 2);
      } else {
        assert s[..n - 1] == ToBits(order, n - 1, x / 2) && s[n - 1] == (x % 2 == 1);
      }
    }
  }

  /** A value below 2^n is read back from its n-bit pattern. */
  lemma FieldValueOfSmall(order: BitOrder, n: nat, x: nat)
    requires x < Pow2(n)
    ensures FieldValue(order, ToBits(order, n, x)) == x
  {
    FieldValueOfToBits(order, n, x);
    LowBitsOfSmall(x, n);
  }

  /** Every run of bits is the bit pattern of its value. */
  lemma {:induction false} ToBitsOfFieldValue(order: BitOrder, bits: seq<bool>)
    ensures ToBits(order, |bits|, FieldValue(order, bits)) == bits
  {
    if bits != [] {
      var n := |bits|;
      var v := FieldValue(order, bits);
      if order == Lsb0 {
        ToBitsOfFieldValue(order, bits[1..]);
        DivModOfMulAdd(FieldValue(order, bits[1..]), 2, if bits[0] then 1 else 0);
        assert v % 2 == (if bits[0] then 1 else 0) && v / 2 == FieldValue(order, bits[1..]);
        assert bits == [bits[0]] + bits[1..];
      } else {
        ToBitsOfFieldValue(order, bits[..n - 1]);
        DivModOfMulAdd(FieldValue(order, bits[..n - 1]), 2, if bits[n - 1] then 1 else 0);
        assert v % 2 == (if bits[n - 1] then 1 else 0) && v / 2 == FieldValue(order, bits[..n - 1]);
        assert bits == bits[..n - 1] + [bits[n - 1]];
      }
    }
  }

  /** Under Lsb0 bit i of the pattern is the bit of weight 2^i. */
  lemma {:induction false} ToBitsLsb0At(n: nat, x: nat, i: nat)
    requires i < n
    ensures ToBits(Lsb0, n, x)[i] == ((x / Pow2(i)) % 2 == 1)
  {
    if i > 0 {
      ToBitsLsb0At(n - 1, x / 2, i - 1);
      DivDiv(x, 2, Pow2(i - 1));
    }
  }

  /** Under Msb0 bit i of an n-bit pattern is the bit of weight 2^(n-1-i). */
  lemma {:induction false} ToBitsMsb0At(n: nat, x: nat, i: nat)
    requires i < n
    ensures ToBits(Msb0, n, x)[i] == ((x / Pow2(n - 1 - i)) % 2 == 1)
  {
    if i < n - 1 {
      ToBitsMsb0At(n - 1, x / 2, i);
      DivDiv(x, 2, Pow2(n - 2 - i));
    }
  }

  /** Only the n low bits of x matter to its n-bit pattern. */
  lemma ToBitsLowBits(order: BitOrder, n: nat, x: nat)
    ensures ToBits(order, n, x) == ToBits(order, n, x % Pow2(n))
  {
    FieldValueOfToBits(order, n, x);
    ToBitsOfFieldValue(order, ToBits(order, n, x));
  }

  /** Two values below 2^n with the same n-bit pattern are equal. */
  lemma ToBitsInjective(order: BitOrder, n: nat, x: nat, y: nat)
    requires x < Pow2(n) && y < Pow2(n)
    requires ToBits(order, n, x) == ToBits(order, n, y)
    ensures x == y
  {
    FieldValueOfToBits(order, n, x);
    FieldValueOfToBits(order, n, y);
    LowBitsOfSmall(x, n);
    LowBitsOfSmall(y, n);
  }

  /** Under Lsb0 the first a bits of x are its low bits; the next b come from x >> a. */
  lemma {:induction false} SplitLsb0(a: nat, b: nat, x: nat, high: nat)
    requires high == x / Pow2(a)
    ensures ToBits(Lsb0, a + b, x) == ToBits(Lsb0, a, x) + ToBits(Lsb0, b, high)
    decreases a
  {
    if a > 0 {
      DivDiv(x, 2, Pow2(a - 1));
      SplitLsb0(a - 1, b, x / 2, high);
      assert ToBits(Lsb0, a + b, x) == [x % 2 == 1] + ToBits(Lsb0, a - 1 + b, x / 2);
      assert ToBits(Lsb0, a, x) == [x % 2 == 1] + ToBits(Lsb0, a - 1, x / 2);
    }
  }

  /** Under Msb0 the last b bits of x are its low bits; the first a come from x >> b. */
  lemma {:induction false} SplitMsb0(a: nat, b: nat, x: nat, high: nat)
    requires high == x / Pow2(b)
    ensures ToBits(Msb0, a + b, x) == ToBits(Msb0, a, high) + ToBits(Msb0, b, x)
    decreases b
  {
    if b > 0 {
      DivDiv(x, 2, Pow2(b - 1));
      SplitMsb0(a, b - 1, x / 2, high);
      assert ToBits(Msb0, a + b, x) == ToBits(Msb0, a + b - 1, x / 2) + [x % 2 == 1];
      assert ToBits(Msb0, b, x) == ToBits(Msb0, b - 1, x / 2) + [x % 2 == 1];
    }
  }

  /** Under Lsb0, `lo | (hi << a)` lays out the bits of lo and then those of hi. */
  lemma ConcatLsb0(a: nat, b: nat, lo: nat, hi: nat, x: nat)
    requires lo < Pow2(a) && x == lo + hi * Pow2(a)
    ensures ToBits(Lsb0, a + b, x) == ToBits(Lsb0, a, lo) + ToBits(Lsb0, b, hi)
  {
    DivModOfMulAdd(hi, Pow2(a), lo);
    SplitLsb0(a, b, x, hi);
    ToBitsLowBits(Lsb0, a, x);
  }

  /** Under Msb0, `(hi << b) | lo` lays out the bits of hi and then those of lo. */
  lemma ConcatMsb0(a: nat, b: nat, hi: nat, lo: nat, x: nat)
    requires lo < Pow2(b) && x == hi * Pow2(b) + lo
    ensures ToBits(Msb0, a + b, x) == ToBits(Msb0, a, hi) + ToBits(Msb0, b, lo)
  {
    DivModOfMulAdd(hi, Pow2(b), lo);
    SplitMsb0(a, b, x, hi);
    ToBitsLowBits(Msb0, b, x);
  }

  /** Under Lsb0 the bits read later are the more significant ones. */
  lemma {:induction false} FieldValueAppendLsb0(a: seq<bool>, b: seq<bool>)
    ensures FieldValue(Lsb0, a + b) == FieldValue(Lsb0, a) + FieldValue(Lsb0, b) * Pow2(|a|)
  {
    if a == [] {
      assert a + b == b;
    } else {
      FieldValueAppendLsb0(a[1..], b);
      assert (a + b)[1..] == a[1..] + b && (a + b)[0] == a[0];
      Regroup(if a[0] then 1 else 0, FieldValue(Lsb0, a[1..]), FieldValue(Lsb0, b), Pow2(|a| - 1),
        FieldValue(Lsb0, a + b), FieldValue(Lsb0, a), Pow2(|a|));
    }
  }

  /** Under Msb0 the bits read earlier are the more significant ones. */
  lemma {:induction false} FieldValueAppendMsb0(a: seq<bool>, b: seq<bool>)
    ensures FieldValue(Msb0, a + b) == FieldValue(Msb0, a) * Pow2(|b|) + FieldValue(Msb0, b)
  {
    if b == [] {
      assert a + b == a;
    } else {
      var init := b[..|b| - 1];
      FieldValueAppendMsb0(a, init);
      assert (a + b)[..|a + b| - 1] == a + init && (a + b)[|a + b| - 1] == b[|b| - 1];
      Regroup(if b[|b| - 1] then 1 else 0, FieldValue(Msb0, init), FieldValue(Msb0, a), Pow2(|init|),
        FieldValue(Msb0, a + b), FieldValue(Msb0, b), Pow2(|b|));
    }
  }

  /** One more bit: `bit + 2 * (low + high * p)` regrouped around the new weight 2 * p. */
  lemma Regroup(bit: nat, low: nat, high: nat, p: nat, whole: nat, part: nat, q: nat)
    requires q == 2 * p
    requires whole == bit + 2 * (low + high * p) || whole == 2 * (high * p + low) + bit
    requires part == bit + 2 * low || part == 2 * low + bit
    ensures whole == part + high * q && whole == high * q + part
  {
  }

  /**
   * The accumulator merge: `(buffer << count) | value` under Msb0, which puts the
   * new bits below the buffered ones, and `buffer | (value << bits)` under Lsb0,
   * which puts them above. `MergeFields` shows that either way the result is
   * the value of the buffered bits followed, in read order, by the new ones.
   */
  function Merge(order: BitOrder, buffer: nat, bits: nat, count: nat, value: nat): (r: nat)
    ensures buffer < Pow2(bits) && value < Pow2(count) && bits + count <= 64 ==>
      r == (if order == Msb0 then buffer * Pow2(count) + value else buffer + value * Pow2(bits)) &&
      r < Pow2(bits + count)
  {
    var merged := if order == Msb0 then Or(Shl64(buffer, count), value) else Or(buffer, Shl64(value, bits));
    if buffer < Pow2(bits) && value < Pow2(count) && bits + count <= 64 then
      DisjointMerge(order, buffer, bits, count, value, merged);
      merged
    else
      merged
  }

  /** Neither shift wraps and the two operands of `|` share no bit, so the merge is a sum. */
  lemma DisjointMerge(order: BitOrder, buffer: nat, bits: nat, count: nat, value: nat, merged: nat)
    requires buffer < Pow2(bits) && value < Pow2(count) && bits + count <= 64
    requires merged == if order == Msb0 then Or(Shl64(buffer, count), value) else Or(buffer, Shl64(value, bits))
    ensures merged == (if order == Msb0 then buffer * Pow2(count) + value else buffer + value * Pow2(bits))
    ensures merged < Pow2(bits + count)
  {
    if order == Msb0 {
      Shl64NoWrap(buffer, count, bits);
      OrOfShifted(buffer, count, value);
      ShiftedBound(buffer, bits, count);
    } else {
      Shl64NoWrap(value, bits, count);
      OrCommutes(buffer, value * Pow2(bits));
      OrOfShifted(value, bits, buffer);
      ShiftedBound(value, count, bits);
    }
  }

  /** Merging the value of a run of bits with the value of the next run gives the value of both. */
  lemma MergeFields(order: BitOrder, held: seq<bool>, run: seq<bool>)
    requires |held| + |run| <= 64
    ensures Merge(order, FieldValue(order, held), |held|, |run|, FieldValue(order, run)) ==
      FieldValue(order, held + run)
  {
    FieldValueBound(order, held);
    FieldValueBound(order, run);
    if order == Msb0 {
      FieldValueAppendMsb0(held, run);
    } else {
      FieldValueAppendLsb0(held, run);
    }
  }

  /** In bit-pattern terms: the buffered bits followed by the bits of the new value. */
  lemma MergeMeaning(order: BitOrder, buffer: nat, bits: nat, count: nat, value: nat)
    requires buffer < Pow2(bits) && value < Pow2(count) && bits + count <= 64
    ensures ToBits(order, bits + count, Merge(order, buffer, bits, count, value)) ==
      ToBits(order, bits, buffer) + ToBits(order, count, value)
  {
    var held, run := ToBits(order, bits, buffer), ToBits(order, count, value);
    FieldValueOfSmall(order, bits, buffer);
    FieldValueOfSmall(order, count, value);
    MergeFields(order, held, run);
    ToBitsOfFieldValue(order, held + run);
  }
}
