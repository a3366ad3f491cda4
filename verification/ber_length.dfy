/**
 * Bit and octet counts behind the BER length and tag encodings
 * (med/asn/ber/ber_length.hpp): the least number of bits an integer needs,
 * the number of 7-bit groups of a base-128 encoding (ITU-T X.690 section
 * 8.1.2.4) and the number of octets of a long-form length (ITU-T X.690
 * section 8.1.3.5).
 *
 * `__builtin_clz` is replaced by `Clz`, defined from the bit length of its
 * argument. The signed case follows the clang branch of the source.
 */
module BerLength {

  const BitsInByte: nat := 8

  /** `sizeof(int)`, `sizeof(long)` and `sizeof(long long)` on an LP64 platform. */
  const IntSize: nat := 4
  const LongSize: nat := 8
  const LongLongSize: nat := 8

  /** An integral C++ type: its signedness and its `sizeof`. */
  datatype IntType = IntType(signed: bool, size: nat)

  predicate IsIntegral(t: IntType) {
    t.size == 1 || t.size == 2 || t.size == 4 || t.size == 8
  }

  function Pow2(n: nat): (p: nat)
    ensures p >= 1
  {
    if n == 0 then 1 else 2 * Pow2(n - 1)
  }

  lemma Pow2Monotone(m: nat, n: nat)
    requires m <= n
    ensures Pow2(m) <= Pow2(n)
  {
  }

  /** Width of the type the argument is promoted to: `int`, `long` or `long long`. */
  function PromotedWidth(t: IntType): nat {
    BitsInByte * (if t.size <= IntSize then IntSize else if t.size <= LongSize then LongSize else LongLongSize)
  }

  /** `x` fits in `w` bits of two's complement (one of them the sign bit). */
  predicate FitsSigned(x: int, w: nat) {
    w >= 1 && -(Pow2(w - 1) as int) <= x < Pow2(w - 1)
  }

  /** The values a variable of type `t` can hold. */
  predicate InRange(t: IntType, x: int)
    requires IsIntegral(t)
  {
    if t.signed then FitsSigned(x, BitsInByte * t.size) else 0 <= x < Pow2(BitsInByte * t.size)
  }

  /** Number of significant bits of `y`: 0 for 0. */
  function BitLength(y: nat): nat {
    if y == 0 then 0 else 1 + BitLength(y / 2)
  }

  /** A positive `y` lies between the powers of two around its bit length. */
  lemma {:induction false} BitLengthBounds(y: nat)
    requires y > 0
    ensures Pow2(BitLength(y) - 1) <= y < Pow2(BitLength(y))
  {
    if y > 1 {
      BitLengthBounds(y / 2);
    }
  }

  /** A value below `2^w` has at most `w` significant bits. */
  lemma {:induction false} BitLengthAtMost(y: nat, w: nat)
    requires y < Pow2(w)
    ensures BitLength(y) <= w
  {
    if y > 0 {
      assert w > 0;
      BitLengthAtMost(y / 2, w - 1);
    }
  }

  /** `__builtin_clz` on a `w`-bit word: the number of leading zero bits of a non-zero `y`. */
  function Clz(y: nat, w: nat): (n: nat)
    requires 0 < y < Pow2(w)
    ensures n < w
    ensures Pow2(w - n - 1) <= y < Pow2(w - n)
  {
    BitLengthBounds(y);
    BitLengthAtMost(y, w);
    w - BitLength(y)
  }

  /** `~x` on a two's-complement integer. */
  function Complement(x: int): int { -x - 1 }

  /**
   * `detail::least_bits` (and `length::bits`, which forwards to it): the least
   * number of bits that hold `x`. Unsigned: the bit length, and 1 for 0.
   * Signed: the least two's-complement width, sign bit included, which is 1
   * for 0 and -1. Never more than the bits of `t`, hence of its promotion.
   */
  function LeastBits(t: IntType, x: int): (b: nat)
    requires IsIntegral(t) && InRange(t, x)
    ensures 1 <= b <= BitsInByte * t.size <= PromotedWidth(t)
    ensures !t.signed ==> (x == 0 ==> b == 1) && (x > 0 ==> Pow2(b - 1) <= x < Pow2(b))
    ensures t.signed ==> FitsSigned(x, b) && (b > 1 ==> !FitsSigned(x, b - 1))
  {
    var w := PromotedWidth(t);
    var bits := BitsInByte * t.size;
    Pow2Monotone(bits - 1, bits);
    Pow2Monotone(bits, w);
    if t.signed then
      if x != 0 && x != -1 then
        var y: nat := if x > 0 then x else Complement(x);
        BitLengthBounds(y);
        BitLengthAtMost(y, bits - 1);
        w - (Clz(y, w) - 1)
      else
        w - (w - 1)
    else if x != 0 then
      BitLengthAtMost(x, bits);
      w - Clz(x, w)
    else
      1
  }

  /** `detail::least_bytes_encoded`: the number of 7-bit groups that hold `least_bits(x)` bits. */
  function LeastBytesEncoded(t: IntType, x: int): (n: nat)
    requires IsIntegral(t) && InRange(t, x)
    ensures n >= 1 && 7 * (n - 1) < LeastBits(t, x) <= 7 * n
  {
    (LeastBits(t, x) + 6) / 7
  }

  /** `length::bytes`: the number of octets that hold `bits(x)` bits, at least one and at most `sizeof`. */
  function Bytes(t: IntType, x: int): (n: nat)
    requires IsIntegral(t) && InRange(t, x)
    ensures 1 <= n <= t.size
    ensures BitsInByte * (n - 1) < LeastBits(t, x) <= BitsInByte * n
  {
    (LeastBits(t, x) + (BitsInByte - 1)) / BitsInByte
  }

  /**
   * The octet count is exact: an unsigned `x` is below `256^n` and, when more
   * than one octet is used, at least `256^(n-1)`; a signed `x` fits in `n`
   * octets of two's complement and not in `n - 1`.
   */
  lemma BytesFit(t: IntType, x: int)
    requires IsIntegral(t) && InRange(t, x)
    ensures var n := Bytes(t, x);
      if t.signed then FitsSigned(x, BitsInByte * n) && (n > 1 ==> !FitsSigned(x, BitsInByte * (n - 1)))
      else x < Pow2(BitsInByte * n) && (n > 1 ==> Pow2(BitsInByte * (n - 1)) <= x)
  {
    var n, b := Bytes(t, x), LeastBits(t, x);
    WidthsFit(t, x, b, BitsInByte * n, BitsInByte * (n - 1));
  }

  /**
   * The base-128 group count is exact: an unsigned `x` is below `2^(7n)` and,
   * when more than one group is used, at least `2^(7(n-1))`; a signed `x`
   * fits in `7n` bits of two's complement and not in `7(n-1)`.
   */
  lemma GroupsFit(t: IntType, x: int)
    requires IsIntegral(t) && InRange(t, x)
    ensures var n := LeastBytesEncoded(t, x);
      if t.signed then FitsSigned(x, 7 * n) && (n > 1 ==> !FitsSigned(x, 7 * (n - 1)))
      else x < Pow2(7 * n) && (n > 1 ==> Pow2(7 * (n - 1)) <= x)
  {
    var n, b := LeastBytesEncoded(t, x), LeastBits(t, x);
    WidthsFit(t, x, b, 7 * n, 7 * (n - 1));
  }

  /** From the least width `b` to any rounded-up width `hi >= b` and the next lower one `lo < b`. */
  lemma WidthsFit(t: IntType, x: int, b: nat, hi: nat, lo: nat)
    requires IsIntegral(t) && InRange(t, x) && b == LeastBits(t, x)
    requires lo < b <= hi
    ensures if t.signed then FitsSigned(x, hi) && (lo > 0 ==> !FitsSigned(x, lo))
      else x < Pow2(hi) && (lo > 0 ==> Pow2(lo) <= x)
  {
    Pow2Monotone(b, hi);
    Pow2Monotone(b - 1, hi - 1);
    Pow2Monotone(lo, b - 1);
    if lo > 0 {
      Pow2Monotone(lo - 1, b - 2);
    }
  }
}
