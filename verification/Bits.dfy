/**
 * Machine words and the bit helpers of ymirc/bits.h. A word is the sequence of
 * its bits, least significant first, so C's operators are given bit by bit.
 */
module Bits {

  type Word = w: seq<bool> | |w| == 64 witness seq(64, _ => false)

  function Zero(): Word {
    seq(64, _ => false)
  }

  function And(a: Word, b: Word): Word {
    seq(64, i requires 0 <= i < 64 => a[i] && b[i])
  }

  function Or(a: Word, b: Word): Word {
    seq(64, i requires 0 <= i < 64 => a[i] || b[i])
  }

  function Not(a: Word): Word {
    seq(64, i requires 0 <= i < 64 => !a[i])
  }

  function ShiftLeft(a: Word, n: nat): Word {
    seq(64, i requires 0 <= i < 64 => i >= n && a[i - n])
  }

  // ---------------------------------------------------------------- bits.h

  function ToBit(n: nat): Word {
    seq(64, i => i == n)
  }

  /** Position of the lowest set bit at or above `from`. */
  function LowestFrom(mask: Word, from: nat): (k: nat)
    requires exists i :: from <= i < 64 && mask[i]
    ensures from <= k < 64 && mask[k] && forall i | from <= i < k :: !mask[i]
    decreases 64 - from
  {
    if mask[from] then from else LowestFrom(mask, from + 1)
  }

  /** The builtin behind set_masked_bits; it is undefined on 0. */
  function CountTrailingZeros(mask: Word): nat
    requires mask != Zero()
  {
    NonZeroHasBit(mask);
    LowestFrom(mask, 0)
  }

  lemma NonZeroHasBit(mask: Word)
    ensures mask != Zero() ==> exists i :: 0 <= i < 64 && mask[i]
  {
    if forall i | 0 <= i < 64 :: !mask[i] {
      assert mask == Zero();
    }
  }

  function SetMaskedBits(target: Word, val: Word, mask: Word): Word
    requires mask != Zero()
  {
    Or(And(target, Not(mask)), And(ShiftLeft(val, CountTrailingZeros(mask)), mask))
  }

  /** The bits from `lo` up to `hi`. */
  function FieldMask(lo: nat, hi: nat): Word {
    seq(64, i => lo <= i < hi)
  }

  /** Storing through the mask of one field writes the value's low bits there and keeps the rest. */
  lemma StoredField(target: Word, val: Word, lo: nat, hi: nat)
    requires lo < hi <= 64
    ensures FieldMask(lo, hi) != Zero()
    ensures SetMaskedBits(target, val, FieldMask(lo, hi)) == target[..lo] + val[..hi - lo] + target[hi..]
  {
    var mask := FieldMask(lo, hi);
    assert mask[lo];
    var s := CountTrailingZeros(mask);
    assert s == lo;
    var r := SetMaskedBits(target, val, mask);
    var x := target[..lo] + val[..hi - lo] + target[hi..];
    forall i | 0 <= i < 64
      ensures r[i] == x[i]
    {
    }
  }

  /** Storing 0 or 1 through a one-bit mask sets that bit and keeps the rest. */
  lemma StoredBit(target: Word, val: Word, n: nat)
    requires n < 64
    ensures ToBit(n) != Zero()
    ensures SetMaskedBits(target, val, ToBit(n)) == target[n := val[0]]
  {
    assert ToBit(n) == FieldMask(n, n + 1);
    hide ToBit, FieldMask, SetMaskedBits;
    StoredField(target, val, n, n + 1);
    assert target[..n] + val[..1] + target[n + 1..] == target[n := val[0]];
  }

  // ---------------------------------------------------------------- words as numbers

  const WORD_LIMIT: nat := 0x1_0000_0000_0000_0000

  function Pow2(n: nat): nat {
    if n == 0 then 1 else 2 * Pow2(n - 1)
  }

  function Value(bits: seq<bool>): nat {
    if bits == [] then 0 else (if bits[0] then 1 else 0) + 2 * Value(bits[1..])
  }

  /** The k lowest bits of a number. */
  function BitsOf(n: nat, k: nat): (bits: seq<bool>)
    ensures |bits| == k
  {
    if k == 0 then [] else [n % 2 == 1] + BitsOf(n / 2, k - 1)
  }

  lemma FirstBit(n: nat, k: nat)
    requires k > 0
    ensures BitsOf(n, k)[0] <==> n % 2 == 1
  {
  }

  lemma {:induction false} Pow2Positive(n: nat)
    ensures Pow2(n) > 0
  {
    if n > 0 {
      Pow2Positive(n - 1);
    }
  }

  /** Bit i of a number, by division. */
  function BitOf(n: nat, i: nat): (b: nat)
    ensures b < 2
  {
    Pow2Positive(i);
    n / Pow2(i) % 2
  }

  lemma {:induction false} BitIs(n: nat, k: nat, i: nat)
    requires i < k
    ensures BitsOf(n, k)[i] <==> BitOf(n, i) == 1
  {
    if i > 0 {
      BitIs(n / 2, k - 1, i - 1);
      Pow2Positive(i - 1);
      HalfFirst(n, Pow2(i - 1));
    }
  }

  lemma HalfFirst(n: nat, d: nat)
    requires d > 0
    ensures n / 2 / d == n / (2 * d)
  {
    var q, r := n / 2 / d, n / 2 % d;
    assert n / 2 == d * q + r;
    Quotient(n, 2 * d, q, 2 * r + n % 2);
  }

  lemma Quotient(n: nat, d: nat, q: nat, r: nat)
    requires n == d * q + r && r < d
    ensures n / d == q
  {
    assert n == d * (n / d) + n % d;
    if q < n / d {
      NextMultiple(d, q, n / d);
    } else if q > n / d {
      NextMultiple(d, n / d, q);
    }
  }

  lemma NextMultiple(d: nat, a: nat, b: nat)
    requires a < b
    ensures d * b >= d * a + d
  {
    assert d * b == d * (a + 1) + d * (b - a - 1);
  }

  lemma {:induction false} ZeroBits(k: nat, i: nat)
    requires i < k
    ensures !BitsOf(0, k)[i]
  {
    if i > 0 {
      ZeroBits(k - 1, i - 1);
    }
  }

  function ToWord(n: nat): Word {
    BitsOf(n, 64)
  }

  lemma {:induction false} BitsRoundTrip(n: nat, k: nat)
    requires n < Pow2(k)
    ensures Value(BitsOf(n, k)) == n
  {
    if k > 0 {
      BitsRoundTrip(n / 2, k - 1);
      assert BitsOf(n, k)[1..] == BitsOf(n / 2, k - 1);
    }
  }

  lemma {:induction false} BitsPrefix(n: nat, k: nat, j: nat)
    requires j <= k
    ensures BitsOf(n, k)[..j] == BitsOf(n, j)
  {
    if j > 0 {
      BitsPrefix(n / 2, k - 1, j - 1);
    }
  }

  lemma {:induction false} BitsOfValue(bits: seq<bool>)
    ensures Value(bits) < Pow2(|bits|) && BitsOf(Value(bits), |bits|) == bits
  {
    if bits != [] {
      BitsOfValue(bits[1..]);
    }
  }

  lemma Pow2Values()
    ensures Pow2(8) == 0x100 && Pow2(16) == 0x1_0000 && Pow2(32) == 0x1_0000_0000
    ensures Pow2(40) == 0x100_0000_0000 && Pow2(64) == WORD_LIMIT
  {
    hide Pow2;
    assert Pow2(0) == 1 by { Pow2OfZero(); }
    Pow2By8(0);
    Pow2By8(8);
    Pow2By8(16);
    Pow2By8(24);
    Pow2By8(32);
    Pow2By8(40);
    Pow2By8(48);
    Pow2By8(56);
  }

  lemma Pow2OfZero()
    ensures Pow2(0) == 1
  {
  }

  /** A number below 2^64 survives being stored in a word. */
  lemma WordRoundTrip(n: nat)
    requires n < WORD_LIMIT
    ensures Value(ToWord(n)) == n
  {
    hide Pow2, Value, BitsOf;
    Pow2Values();
    BitsRoundTrip(n, 64);
  }

  /** A number below 2^40 survives being stored in the low 40 bits. */
  lemma FieldRoundTrip(n: nat)
    requires n < 0x100_0000_0000
    ensures Value(ToWord(n)[..40]) == n
  {
    hide Pow2, Value, BitsOf;
    Pow2Values();
    BitsRoundTrip(n, 40);
    BitsPrefix(n, 64, 40);
  }

  /** ... and in the low 51 bits. */
  lemma WideFieldRoundTrip(n: nat)
    requires n < 0x100_0000_0000
    ensures Value(ToWord(n)[..51]) == n
  {
    hide Pow2, Value, BitsOf;
    Pow2Values();
    Pow2Grows(40, 51);
    BitsRoundTrip(n, 51);
    BitsPrefix(n, 64, 51);
  }

  lemma {:induction false} Pow2Grows(j: nat, k: nat)
    requires j <= k
    ensures Pow2(j) <= Pow2(k)
  {
    if j < k {
      Pow2Grows(j, k - 1);
    }
  }

  /** Dropping the 12 lowest bits divides by 4096. */
  lemma DropPageBits(n: nat, k: nat)
    requires k >= 12
    ensures BitsOf(n, k)[12..] == BitsOf(n / 4096, k - 12)
  {
    DropSix(n, k);
    DropSix(n / 64, k - 6);
    assert n / 64 / 64 == n / 4096;
    assert BitsOf(n, k)[12..] == BitsOf(n, k)[6..][6..];
  }

  lemma DropSix(n: nat, k: nat)
    requires k >= 6
    ensures BitsOf(n, k)[6..] == BitsOf(n / 64, k - 6)
  {
    DropThree(n, k);
    DropThree(n / 8, k - 3);
    assert n / 8 / 8 == n / 64;
    assert BitsOf(n, k)[6..] == BitsOf(n, k)[3..][3..];
  }

  lemma DropThree(n: nat, k: nat)
    requires k >= 3
    ensures BitsOf(n, k)[3..] == BitsOf(n / 8, k - 3)
  {
    assert BitsOf(n, k)[1..] == BitsOf(n / 2, k - 1);
    assert BitsOf(n / 2, k - 1)[1..] == BitsOf(n / 2 / 2, k - 2);
    assert BitsOf(n / 2 / 2, k - 2)[1..] == BitsOf(n / 2 / 2 / 2, k - 3);
    assert n / 2 / 2 / 2 == n / 8;
    assert BitsOf(n, k)[3..] == BitsOf(n, k)[1..][1..][1..];
  }

  lemma Pow2By8(n: nat)
    ensures Pow2(n + 8) == 0x100 * Pow2(n)
  {
    assert Pow2(n + 2) == 4 * Pow2(n);
    assert Pow2(n + 4) == 4 * Pow2(n + 2);
    assert Pow2(n + 6) == 4 * Pow2(n + 4);
  }
}
