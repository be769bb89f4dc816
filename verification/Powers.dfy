/** Powers of a base, and what division by them keeps. */
module Powers {
  import opened Basics

  function Pow(b: nat, n: nat): (r: nat)
    ensures 0 < b ==> 0 < r
  {
    if n == 0 then 1 else b * Pow(b, n - 1)
  }

  lemma {:induction false} PowAdd(b: nat, m: nat, n: nat)
    ensures Pow(b, m + n) == Pow(b, m) * Pow(b, n)
  {
    if m > 0 {
      PowAdd(b, m - 1, n);
      MulAssoc(b, Pow(b, m - 1), Pow(b, n));
    }
  }

  lemma MulAssoc(a: int, b: int, c: int)
    ensures (a * b) * c == a * (b * c)
  {}

  lemma MulDistrib(a: int, b: int, c: int)
    ensures (a + b) * c == a * c + b * c && (a - b) * c == a * c - b * c
  {}

  lemma MulMono(a: int, b: int, c: int)
    requires a <= b && 0 <= c
    ensures a * c <= b * c
  {}

  lemma MulStrict(a: int, b: int, c: int)
    requires a < b && 0 < c
    ensures a * c < b * c
  {}

  lemma MulTwice(x: int, y: int)
    ensures x * (2 * y) == 2 * (x * y)
  {}

  lemma {:induction false} PowMul(b: nat, m: nat, n: nat)
    ensures Pow(Pow(b, m), n) == Pow(b, m * n)
  {
    if n > 0 {
      PowMul(b, m, n - 1);
      PowAdd(b, m, m * (n - 1));
      assert m + m * (n - 1) == m * n;
    } else {
      assert m * n == 0;
    }
  }

  lemma PowMono(b: nat, m: nat, n: nat)
    requires 0 < b && m <= n
    ensures Pow(b, m) <= Pow(b, n)
  {
    hide Pow;
    PowAdd(b, m, n - m);
    MulMono(1, Pow(b, n - m), Pow(b, m));
  }

  /** The quotient and the remainder are the only ones. */
  lemma DivModUnique(x: int, d: int, q: int, r: int)
    requires 0 < d && x == q * d + r && 0 <= r < d
    ensures x / d == q && x % d == r
  {
    var q', r' := x / d, x % d;
    assert x == q' * d + r';
    if q < q' { MulMono(1, q' - q, d); MulDistrib(q', q, d); }
    if q' < q { MulMono(1, q - q', d); MulDistrib(q, q', d); }
  }

  lemma DivModLaw(x: int, d: int)
    requires 0 < d
    ensures x == (x / d) * d + x % d && 0 <= x % d < d && (0 <= x ==> 0 <= x / d)
  {}

  lemma DivBound(x: int, d: int, b: int)
    requires 0 < d && 0 <= x < b * d
    ensures 0 <= x / d < b
  {
    DivModLaw(x, d);
    if b <= x / d { MulMono(b, x / d, d); }
  }

  /** The upper half of a 64-bit product scales a 32-bit number to any range. */
  lemma UpperHalf(h: nat, n: nat)
    requires h < U32 && 0 < n
    ensures 0 <= h * n / U32 < n
  {
    MulStrict(h, U32, n);
    DivBound(h * n, U32, n);
  }
}
