/**
 The compact encoding of 256-bit targets (src/arith_uint256.cpp): 8 bits of base
 256 exponent, a sign bit and a 23-bit mantissa, as functions on naturals.
 */
module Compact {

  import opened Powers
  import opened Basics

  const MANTISSA: nat := 0x80_0000
  const SIZE_UNIT: nat := 0x100_0000
  function Size(c: nat): nat { c / SIZE_UNIT }
  function Mantissa(c: nat): nat { c % MANTISSA }
  predicate SignBit(c: nat) { c / MANTISSA % 2 == 1 }

  /** mantissa * 256^(size - 3), rounded down. */
  function Exact(m: nat, size: nat): nat {
    if size <= 3 then m / Pow(256, 3 - size) else m * Pow(256, size - 3)
  }

  /** The value a compact number stands for. */
  function Decode(c: nat): nat { Exact(Mantissa(c), Size(c)) }

  /** nWord when the flags are computed. */
  function Word(c: nat): nat { if Size(c) <= 3 then Decode(c) else Mantissa(c) }

  predicate Negative(c: nat) { Word(c) != 0 && SignBit(c) }

  predicate Overflow(c: nat) {
    Word(c) != 0 && (Size(c) > 34 || (Word(c) > 0xff && Size(c) > 33) || (Word(c) > 0xffff && Size(c) > 32))
  }

  lemma Pow256(n: nat)
    ensures n == 1 ==> Pow(256, n) == 0x100
    ensures n == 2 ==> Pow(256, n) == 0x1_0000
    ensures n == 3 ==> Pow(256, n) == SIZE_UNIT
  {
    assert Pow(256, 1) == 256;
    assert Pow(256, 2) == 256 * 256;
    assert Pow(256, 3) == 256 * (256 * 256);
  }

  /** The comparison with 256^32 comes down to one of the mantissa with a small power. */
  lemma Scaled(m: nat, size: nat)
    requires 3 < size
    ensures size <= 35 ==> (m * Pow(256, size - 3) >= Pow(256, 32) <==> m >= Pow(256, 35 - size))
    ensures size > 35 ==> (m * Pow(256, size - 3) >= Pow(256, 32) <==> m > 0)
  {
    hide Pow;
    var p := Pow(256, size - 3);
    if size <= 35 {
      PowAdd(256, 35 - size, size - 3);
      if m >= Pow(256, 35 - size) { MulMono(Pow(256, 35 - size), m, p); } else { MulStrict(m, Pow(256, 35 - size), p); }
    } else {
      PowMono(256, 32, size - 3);
      if m > 0 { MulMono(1, m, p); }
    }
  }

  /** The overflow flag is exact. */
  lemma OverflowExact(c: nat)
    requires c < U32
    ensures Overflow(c) <==> Decode(c) >= Pow(256, 32)
  {
    hide Pow;
    var m, size := Mantissa(c), Size(c);
    if size <= 3 {
      DivModLaw(m, Pow(256, 3 - size));
      MulMono(1, Pow(256, 3 - size), m / Pow(256, 3 - size));
      Pow256(3);
      PowMono(256, 3, 32);
    } else {
      Scaled(m, size);
      if size <= 32 {
        Pow256(3);
        PowMono(256, 3, 35 - size);
      } else if size == 33 {
        Pow256(2);
      } else if size == 34 {
        Pow256(1);
      } else if size == 35 {
        PowZero();
      }
    }
  }

  lemma PowZero() ensures Pow(256, 0) == 1 {}

  // -------------------------------------------------------------------- encoding

  /** n is the length of x in bytes. */
  predicate IsByteLength(x: nat, n: nat) {
    x < Pow(256, n) && (n > 0 ==> Pow(256, n - 1) <= x)
  }

  /** The mantissa before the sign bit is kept clear. */
  function RawMantissa(x: nat, n: nat): nat {
    if n <= 3 then x * Pow(256, 3 - n) else x / Pow(256, n - 3)
  }

  /** GetCompact of a number of n bytes, without the sign. */
  function Encode(x: nat, n: nat): nat {
    var m := RawMantissa(x, n);
    if m >= MANTISSA then m / 256 + (n + 1) * SIZE_UNIT else m + n * SIZE_UNIT
  }

  lemma SplitCompact(m: nat, size: nat)
    requires m < MANTISSA
    ensures Mantissa(m + size * SIZE_UNIT) == m && Size(m + size * SIZE_UNIT) == size && !SignBit(m + size * SIZE_UNIT)
  {}

  lemma DivDiv(x: nat, d: nat, e: nat)
    requires 0 < d && 0 < e
    ensures x / d / e == x / (d * e) && 0 < d * e
  {
    DivModLaw(x, d);
    DivModLaw(x / d, e);
    var q, r, r' := x / d / e, x % d, x / d % e;
    assert x == (q * e + r') * d + r;
    MulDistrib(q * e, r', d);
    MulAssoc(q, e, d);
    MulMono(r', e - 1, d);
    MulDistrib(e, 1, d);
    DivModUnique(x, d * e, q, r' * d + r);
  }

  /** A number below 2^23 is encoded exactly. */
  lemma EncodeSmall(x: nat, n: nat)
    requires IsByteLength(x, n) && x < MANTISSA
    ensures Decode(Encode(x, n)) == x && Size(Encode(x, n)) <= 3 && !SignBit(Encode(x, n))
  {
    hide Pow, Decode, Mantissa, Size, SignBit;
    Pow256(3);
    if 3 < n { PowMono(256, 3, n - 1); }
    var m := RawMantissa(x, n);
    PowAdd(256, 3 - n, n);
    MulStrict(x, Pow(256, n), Pow(256, 3 - n));
    if m >= MANTISSA {
      PowZero();
      Pow256(1);
      PowAdd(256, 2 - n, 1);
      MulAssoc(x, Pow(256, 2 - n), 256);
      DivModUnique(m, 256, x * Pow(256, 2 - n), 0);
      Decoded(m / 256, n + 1);
      DivModUnique(m / 256, Pow(256, 2 - n), x, 0);
    } else {
      Decoded(m, n);
      DivModUnique(m, Pow(256, 3 - n), x, 0);
    }
  }

  lemma Decoded(m: nat, size: nat)
    requires m < MANTISSA
    ensures var c := m + size * SIZE_UNIT;
      Decode(c) == Exact(m, size) && Size(c) == size && Mantissa(c) == m && !SignBit(c)
  {
    SplitCompact(m, size);
  }

  /** A number from 2^23 on is cut after a mantissa of 15 to 23 bits. */
  lemma EncodeLarge(x: nat, n: nat) returns (t: nat)
    requires IsByteLength(x, n) && x >= MANTISSA
    ensures 0 < t <= n - 2 && 0x8000 <= x / Pow(256, t) < MANTISSA
    ensures Encode(x, n) == x / Pow(256, t) + (t + 3) * SIZE_UNIT
  {
    hide Pow;
    Pow256(3);
    Pow256(2);
    Pow256(1);
    if n < 3 { PowMono(256, n, 2); }
    if n == 3 {
      PowZero();
      t := 1;
      DivModLaw(x, 256);
    } else {
      var p := Pow(256, n - 3);
      PowAdd(256, 3, n - 3);
      PowAdd(256, 2, n - 3);
      DivBound(x, p, SIZE_UNIT);
      DivAtLeast(x, p, 0x1_0000);
      PowAdd(256, n - 3, 1);
      DivDiv(x, p, 256);
      t := if x / p >= MANTISSA then n - 2 else n - 3;
    }
  }

  lemma DivAtLeast(x: nat, d: nat, b: nat)
    requires 0 < d && b * d <= x
    ensures b <= x / d
  {
    DivModLaw(x, d);
    if x / d < b { MulMono(x / d + 1, b, d); MulDistrib(x / d, 1, d); }
  }

  /** The value that survives encoding: x with everything below the mantissa cleared. */
  function RoundDown(x: nat, n: nat): nat { Decode(Encode(x, n)) }

  lemma RoundDownLarge(x: nat, n: nat) returns (t: nat)
    requires IsByteLength(x, n) && x >= MANTISSA
    ensures 0 < t <= n - 2 && 0x8000 <= x / Pow(256, t) < MANTISSA
    ensures Encode(x, n) == x / Pow(256, t) + (t + 3) * SIZE_UNIT
    ensures RoundDown(x, n) == (x / Pow(256, t)) * Pow(256, t) <= x
  {
    hide Pow, Encode, Decode, IsByteLength;
    t := EncodeLarge(x, n);
    Decoded(x / Pow(256, t), t + 3);
    DivModLaw(x, Pow(256, t));
  }

  /** SetCompact(GetCompact(x)) is the largest value of any mantissa and exponent that does not exceed x. */
  lemma RoundDownLargest(x: nat, n: nat, m: nat, size: nat)
    requires IsByteLength(x, n) && m < MANTISSA
    ensures RoundDown(x, n) <= x
    ensures Exact(m, size) <= x ==> Exact(m, size) <= RoundDown(x, n)
  {
    hide Pow, Encode, Decode, IsByteLength;
    if x < MANTISSA {
      EncodeSmall(x, n);
    } else {
      var t := RoundDownLarge(x, n);
      if Exact(m, size) <= x { NothingBetween(x, t, m, size); }
    }
  }

  lemma NothingBetween(x: nat, t: nat, m: nat, size: nat)
    requires 0 < t && 0x8000 <= x / Pow(256, t) && m < MANTISSA && Exact(m, size) <= x
    ensures Exact(m, size) <= (x / Pow(256, t)) * Pow(256, t)
  {
    hide Pow;
    var p, q := Pow(256, t), x / Pow(256, t);
    if size >= t + 3 {
      var c := m * Pow(256, size - 3 - t);
      PowAdd(256, size - 3 - t, t);
      MulAssoc(m, Pow(256, size - 3 - t), p);
      DivAtLeast(x, p, c);
      MulMono(c, q, p);
    } else {
      ExactBound(m, size, t);
      MulMono(0x8000, q, p);
    }
  }

  lemma ExactBound(m: nat, size: nat, t: nat)
    requires 0 < t && size < t + 3 && m < MANTISSA
    ensures Exact(m, size) <= 0x8000 * Pow(256, t)
  {
    hide Pow;
    PowAdd(256, 1, t - 1);
    Pow256(1);
    if size <= 3 {
      DivModLaw(m, Pow(256, 3 - size));
      MulMono(1, Pow(256, 3 - size), m / Pow(256, 3 - size));
      MulMono(1, Pow(256, t - 1), MANTISSA);
    } else {
      PowMono(256, size - 3, t - 1);
      MulMono(m, MANTISSA, Pow(256, size - 3));
      MulMono(Pow(256, size - 3), Pow(256, t - 1), MANTISSA);
    }
  }

  /** Encoding is monotone in what it stands for. */
  lemma RoundDownMonotone(x: nat, n: nat, y: nat, k: nat)
    requires IsByteLength(x, n) && IsByteLength(y, k) && x <= y
    ensures RoundDown(x, n) <= RoundDown(y, k)
  {
    hide Pow, Encode, IsByteLength, Exact;
    var c := Encode(x, n);
    RoundDownLargest(x, n, 0, 0);
    RoundDownLargest(y, k, Mantissa(c), Size(c));
  }

  /** The cut is where the mantissa has 15 to 23 bits, and there is only one such place. */
  lemma CutUnique(x: nat, t: nat, u: nat)
    requires 0x8000 <= x / Pow(256, t) && x / Pow(256, u) < MANTISSA
    ensures t <= u
  {
    hide Pow;
    if u < t {
      PowAdd(256, u, t - u);
      DivDiv(x, Pow(256, u), Pow(256, t - u));
      Pow256(1);
      PowMono(256, 1, t - u);
      DivBound(x / Pow(256, u), Pow(256, t - u), 0x8000);
    }
  }

  /** Encoding again changes nothing. */
  lemma EncodeIdempotent(x: nat, n: nat, k: nat)
    requires IsByteLength(x, n) && IsByteLength(RoundDown(x, n), k)
    ensures Encode(RoundDown(x, n), k) == Encode(x, n)
  {
    hide Pow, Encode, Decode;
    if x < MANTISSA {
      EncodeSmall(x, n);
      ByteLengthUnique(x, n, k);
    } else {
      var t := RoundDownLarge(x, n);
      var m, p := x / Pow(256, t), Pow(256, t);
      var r := RoundDown(x, n);
      Pow256(1);
      PowMono(256, 1, t);
      MulMono(0x8000, m, p);
      MulMono(256, p, 0x8000);
      DivModUnique(r, p, m, 0);
      var u := EncodeLarge(r, k);
      CutUnique(r, t, u);
      CutUnique(r, u, t);
    }
  }

  lemma ByteLengthUnique(x: nat, n: nat, k: nat)
    requires IsByteLength(x, n) && IsByteLength(x, k)
    ensures n == k
  {
    hide Pow;
    if n < k { PowMono(256, n, k - 1); }
    if k < n { PowMono(256, k, n - 1); }
  }

  /**
   What GetCompact returns for a 256-bit number, with or without the sign bit, is read
   back without overflow; with the sign bit it is negative exactly when the number is not 0.
   */
  lemma ReadBack(x: nat, n: nat)
    requires IsByteLength(x, n) && n <= 32
    ensures var c := Encode(x, n);
      && c < U32 && !Overflow(c) && !Negative(c)
      && Decode(c + MANTISSA) == RoundDown(x, n) && SignBit(c + MANTISSA)
      && !Overflow(c + MANTISSA) && (Negative(c + MANTISSA) <==> x != 0)
  {
    hide Pow, Exact;
    WordExact(x, n);
    var c := Encode(x, n);
    EncodeFits(x, n);
    RoundDownLargest(x, n, 0, 0);
    PowMono(256, n, 32);
    OverflowExact(c);
    SignedSplit(c);
  }

  lemma WordExact(x: nat, n: nat)
    requires IsByteLength(x, n)
    ensures Word(Encode(x, n)) == 0 <==> x == 0
  {
    hide Pow, Encode, IsByteLength, SignBit, Decode, Size, Mantissa;
    if x < MANTISSA {
      EncodeSmall(x, n);
    } else {
      var t := EncodeLarge(x, n);
      Decoded(x / Pow(256, t), t + 3);
    }
  }

  lemma SignedSplit(c: nat)
    requires !SignBit(c)
    ensures Mantissa(c + MANTISSA) == Mantissa(c) && Size(c + MANTISSA) == Size(c) && SignBit(c + MANTISSA)
  {}

  lemma EncodeFits(x: nat, n: nat)
    requires IsByteLength(x, n) && n <= 32
    ensures Encode(x, n) < U32 && !SignBit(Encode(x, n))
  {
    hide Pow, Encode, IsByteLength, SignBit, Decode, Size;
    if x < MANTISSA {
      EncodeSmall(x, n);
      SmallSize(Encode(x, n));
    } else {
      var t := EncodeLarge(x, n);
      Decoded(x / Pow(256, t), t + 3);
    }
  }

  lemma SmallSize(c: nat)
    requires Size(c) <= 3
    ensures c < U32
  {}
}
