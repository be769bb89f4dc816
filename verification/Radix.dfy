/**
 Numbers as digit strings in any base, most significant digit first, and the two
 inequalities that the buffer sizes of src/base58.cpp rest on.
 */
module Radix {

  import opened Powers
  import opened Digits

  /** The number a digit string stands for. */
  function Num(b: nat, s: seq<nat>): nat {
    if s == [] then 0 else Num(b, s[..|s| - 1]) * b + s[|s| - 1]
  }

  lemma NumNext(b: nat, s: seq<nat>, i: nat)
    requires i < |s|
    ensures Num(b, s[..i + 1]) == Num(b, s[..i]) * b + s[i]
  {
    assert s[..i + 1][..i] == s[..i];
  }

  lemma {:induction false} NumCons(b: nat, d: nat, s: seq<nat>)
    ensures Num(b, [d] + s) == d * Pow(b, |s|) + Num(b, s)
  {
    hide Num, Pow;
    if s == [] {
      NumOne(b, d);
      assert [d] + s == [d];
    } else {
      var n, t := |s| - 1, [d] + s;
      NumCons(b, d, s[..n]);
      NumNext(b, t, n + 1);
      NumNext(b, s, n);
      assert t[..n + 1] == [d] + s[..n] && t[..n + 2] == t && s[..n + 1] == s;
      PowNext(b, n);
      MulDistrib(d * Pow(b, n), Num(b, s[..n]), b);
      MulAssoc(d, Pow(b, n), b);
    }
  }

  lemma NumOne(b: nat, d: nat)
    ensures Num(b, [d]) == d && Num(b, []) == 0 && Pow(b, 0) == 1
  {
    assert [d][..0] == [];
  }

  lemma PowNext(b: nat, n: nat)
    ensures Pow(b, n + 1) == Pow(b, n) * b == b * Pow(b, n)
  {}

  lemma {:induction false} NumBound(b: nat, s: seq<nat>)
    requires Below(b, s)
    ensures Num(b, s) < Pow(b, |s|)
  {
    if s != [] {
      var n := |s| - 1;
      NumBound(b, s[..n]);
      MulMono(Num(b, s[..n]) + 1, Pow(b, n), b);
      MulDistrib(Num(b, s[..n]), 1, b);
      PowNext(b, n);
    }
  }

  function Zeros(n: nat): seq<nat> { seq(n, i => 0) }

  lemma {:induction false} NumZeros(b: nat, z: nat, s: seq<nat>)
    ensures Num(b, Zeros(z) + s) == Num(b, s)
  {
    hide Num;
    if z == 0 {
      assert Zeros(0) + s == s;
    } else {
      NumZeros(b, z - 1, s);
      NumCons(b, 0, Zeros(z - 1) + s);
      assert Zeros(z) + s == [0] + (Zeros(z - 1) + s);
    }
  }

  /** A nonzero first digit keeps the number up. */
  lemma NumLead(b: nat, s: seq<nat>)
    requires s != [] && s[0] != 0
    ensures Pow(b, |s| - 1) <= Num(b, s)
  {
    hide Num, Pow;
    assert s == [s[0]] + s[1..];
    NumCons(b, s[0], s[1..]);
    MulMono(1, s[0], Pow(b, |s| - 1));
  }

  predicate Canonical(s: seq<nat>) { s == [] || s[0] != 0 }

  /** Without leading zeros, the number determines the digits. */
  lemma CanonicalUnique(b: nat, s: seq<nat>, t: seq<nat>)
    requires 1 < b && Below(b, s) && Below(b, t) && Canonical(s) && Canonical(t) && Num(b, s) == Num(b, t)
    ensures s == t
  {
    hide Num, Pow;
    SameLength(b, s, t);
    SameLength(b, t, s);
    SameDigits(b, s, t);
  }

  lemma SameLength(b: nat, s: seq<nat>, t: seq<nat>)
    requires 1 < b && Below(b, s) && Canonical(t) && Num(b, s) == Num(b, t)
    ensures |t| <= |s|
  {
    hide Num, Pow;
    NumBound(b, s);
    if |s| < |t| {
      NumLead(b, t);
      PowMono(b, |s|, |t| - 1);
    }
  }

  lemma {:induction false} SameDigits(b: nat, s: seq<nat>, t: seq<nat>)
    requires 0 < b && |s| == |t| && Below(b, s) && Below(b, t) && Num(b, s) == Num(b, t)
    ensures s == t
  {
    if s != [] {
      var n := |s| - 1;
      DivModUnique(Num(b, s), b, Num(b, s[..n]), s[n]);
      DivModUnique(Num(b, t), b, Num(b, t[..n]), t[n]);
      SameDigits(b, s[..n], t[..n]);
    }
  }

  function LeadingZeros(s: seq<nat>): (z: nat)
    ensures z <= |s|
  {
    if s == [] || s[0] != 0 then 0 else 1 + LeadingZeros(s[1..])
  }

  lemma {:induction false} LeadAreZeros(s: seq<nat>, i: nat)
    requires i < LeadingZeros(s)
    ensures s[i] == 0
  {
    if i > 0 { LeadAreZeros(s[1..], i - 1); }
  }

  lemma {:induction false} LeadStops(s: seq<nat>)
    ensures LeadingZeros(s) < |s| ==> s[LeadingZeros(s)] != 0
  {
    if s != [] && s[0] == 0 { LeadStops(s[1..]); }
  }

  lemma SplitZeros(s: seq<nat>)
    ensures var z := LeadingZeros(s); Zeros(z) + s[z..] == s && Canonical(s[z..])
  {
    hide LeadingZeros;
    var z := LeadingZeros(s);
    LeadStops(s);
    forall i | 0 <= i < z ensures s[i] == 0 { LeadAreZeros(s, i); }
  }

  lemma {:induction false} LeadingZerosOf(z: nat, s: seq<nat>)
    requires Canonical(s)
    ensures LeadingZeros(Zeros(z) + s) == z
  {
    if z == 0 {
      assert Zeros(0) + s == s;
    } else {
      LeadingZerosOf(z - 1, s);
      assert (Zeros(z) + s)[1..] == Zeros(z - 1) + s;
    }
  }

  /** The same number in two bases, with the same leading zeros. */
  predicate Same(b: nat, s: seq<nat>, c: nat, t: seq<nat>) {
    LeadingZeros(s) == LeadingZeros(t) && Num(b, s) == Num(c, t)
  }

  /** A digit string in one base has at most one counterpart in another. */
  lemma SameUnique(b: nat, s: seq<nat>, s': seq<nat>, c: nat, t: seq<nat>)
    requires 1 < b && Below(b, s) && Below(b, s') && Same(b, s, c, t) && Same(b, s', c, t)
    ensures s == s'
  {
    hide Num, LeadingZeros;
    var z := LeadingZeros(t);
    SplitZeros(s);
    SplitZeros(s');
    NumZeros(b, z, s[z..]);
    NumZeros(b, z, s'[z..]);
    CanonicalUnique(b, s[z..], s'[z..]);
  }

  // ----------------------------------------------------------- buffer size bounds

  lemma {:induction false} PowStrict(x: nat, y: nat, k: nat)
    requires x < y && 0 < k
    ensures Pow(x, k) < Pow(y, k)
  {
    if k == 1 {
      assert Pow(x, 1) == x * Pow(x, 0) && Pow(y, 1) == y * Pow(y, 0);
    } else {
      PowStrict(x, y, k - 1);
      MulMono(x, y, Pow(x, k - 1));
      MulStrict(Pow(x, k - 1), Pow(y, k - 1), y);
    }
  }

  lemma PowLe(x: nat, y: nat, k: nat)
    requires x <= y
    ensures Pow(x, k) <= Pow(y, k)
  {
    if x < y && 0 < k { PowStrict(x, y, k); }
  }

  lemma PowSwap(x: nat, p: nat, n: nat)
    ensures Pow(Pow(x, p), n) == Pow(Pow(x, n), p)
  {
    hide Pow;
    PowMul(x, p, n);
    PowMul(x, n, p);
    MulComm(p, n);
  }

  lemma MulComm(x: nat, y: nat) ensures x * y == y * x {}

  lemma Root(u: nat, v: nat, p: nat)
    requires 0 < p && Pow(u, p) <= Pow(v, p)
    ensures u <= v
  {
    if v < u { PowStrict(v, u, p); }
  }

  lemma Raise(x: nat, p: nat, y: nat, q: nat, n: nat)
    requires Pow(x, p) <= Pow(y, q)
    ensures Pow(Pow(x, n), p) <= Pow(y, q * n)
  {
    hide Pow;
    PowSwap(x, p, n);
    PowLe(Pow(x, p), Pow(y, q), n);
    PowMul(y, q, n);
  }

  lemma Extend(y: nat, k: nat, m: nat, p: nat)
    requires 0 < y && k <= m * p
    ensures Pow(y, k) <= Pow(Pow(y, m), p)
  {
    hide Pow;
    PowMono(y, k, m * p);
    PowMul(y, m, p);
  }

  /** From x^p <= y^q to x^n <= y^m for every n and m in the same proportion or a larger one. */
  lemma Proportion(x: nat, p: nat, y: nat, q: nat, n: nat, m: nat)
    requires 0 < y && 0 < p && Pow(x, p) <= Pow(y, q) && q * n <= m * p
    ensures Pow(x, n) <= Pow(y, m)
  {
    hide Pow;
    Raise(x, p, y, q, n);
    Extend(y, q * n, m, p);
    Root(Pow(x, n), Pow(y, m), p);
  }

  lemma PowSum(b: nat, m: nat, v: nat, n: nat, w: nat)
    requires Pow(b, m) == v && Pow(b, n) == w
    ensures Pow(b, m + n) == v * w
  {
    PowAdd(b, m, n);
  }

  lemma Powers58()
    ensures Pow(58, 11) == 24986644000165537792
    ensures Pow(58, 71) == 159730386663078066345306447337161584696769904898410078913243029577507397293846405390982563136983769384625594118558891106107392
  {
    hide Pow;
    NumOne(58, 0);
    PowNext(58, 0);
    PowSum(58, 1, 58, 1, 58);
    PowSum(58, 2, 3364, 2, 3364);
    PowSum(58, 4, 11316496, 4, 11316496);
    PowSum(58, 8, 128063081718016, 2, 3364);
    PowSum(58, 10, 430804206899405824, 1, 58);
    PowSum(58, 8, 128063081718016, 8, 128063081718016);
    PowSum(58, 16, 16400152899115243850138976256, 16, 16400152899115243850138976256);
    PowSum(58, 32, 268965015114358137726910587140455987105619365599731777536, 32,
        268965015114358137726910587140455987105619365599731777536);
    PowSum(58, 4, 11316496, 2, 3364);
    PowSum(58, 6, 38068692544, 1, 58);
    PowSum(
      58, 64,
      72342179355466901471258927612150153907721848234316445933056526044582001260898145151856420451025374266490194231296,
      7, 2207984167552);
  }

  lemma Powers256()
    ensures Pow(256, 8) == 18446744073709551616
    ensures Pow(256, 52) == 169230328010303641331690318856389386196071598838855992136870091590247882556495704531248437872567112920983350278405979725889536
  {
    hide Pow;
    NumOne(256, 0);
    PowNext(256, 0);
    PowSum(256, 1, 256, 1, 256);
    PowSum(256, 2, 65536, 2, 65536);
    PowSum(256, 4, 4294967296, 4, 4294967296);
    PowSum(256, 8, 18446744073709551616, 8, 18446744073709551616);
    PowSum(256, 16, 340282366920938463463374607431768211456, 16, 340282366920938463463374607431768211456);
    PowSum(256, 32, 115792089237316195423570985008687907853269984665640564039457584007913129639936, 16,
        340282366920938463463374607431768211456);
    PowSum(
      256, 48,
      39402006196394479212279040100143613805079739270465446667948293404245721771497210611414266254884915640806627990306816,
      4, 4294967296);
  }

  /** n bytes fit n * 138 / 100 + 1 base 58 digits. */
  lemma EncodeRoom(n: nat)
    ensures Pow(256, n) <= Pow(58, n * 138 / 100 + 1)
  {
    hide Pow;
    Powers58();
    Powers256();
    Proportion(256, 8, 58, 11, n, n * 138 / 100 + 1);
  }

  /** n base 58 digits fit n * 733 / 1000 + 1 bytes. */
  lemma DecodeRoom(n: nat)
    ensures Pow(58, n) <= Pow(256, n * 733 / 1000 + 1)
  {
    hide Pow;
    Powers58();
    Powers256();
    Proportion(58, 71, 256, 52, n, n * 733 / 1000 + 1);
  }

  /** The two bounds the sizes are named after. */
  lemma NamedBounds()
    ensures Pow(256, 100) <= Pow(58, 138) && Pow(58, 1000) <= Pow(256, 733)
  {
    hide Pow;
    Powers58();
    Powers256();
    Proportion(256, 8, 58, 11, 100, 138);
    Proportion(58, 71, 256, 52, 1000, 733);
  }
}
