/**
 The CashAddr checksum of src/cashaddr.cpp: a cyclic code over GF(32), computed on
 a packed 40-bit remainder of eight 5-bit coefficients.
 */
module CashAddr {

  type Sym = bv5
  type Poly = bv40

  // ----------------------------------------------------------- packed arithmetic

  function Xor(a: Poly, b: Poly): Poly { a ^ b }

  lemma XorLaws(a: Poly, b: Poly, c: Poly, d: Poly)
    ensures Xor(Xor(a, b), Xor(c, d)) == Xor(Xor(a, c), Xor(b, d))
    ensures Xor(a, a) == 0 && Xor(a, 0) == a && Xor(0, a) == a && Xor(a, b) == Xor(b, a)
    ensures Xor(a, b) == 0 ==> a == b
  {}

  /** Bit n of the coefficient that is shifted out. */
  predicate TopBit(c: Poly, n: nat)
    requires n < 5
  {
    var c0 := c >> 35;
    if n == 0 then c0 & 1 != 0 else if n == 1 then c0 & 2 != 0 else if n == 2 then c0 & 4 != 0
    else if n == 3 then c0 & 8 != 0 else c0 & 16 != 0
  }

  /** {2^n} k(x), where k(x) is x^8 modulo the generator. */
  function Multiple(n: nat): Poly
    requires n < 5
  {
    if n == 0 then 0x98f2bc8e61 else if n == 1 then 0x79b76d99e2 else if n == 2 then 0xf33e5fb3c4
    else if n == 3 then 0xae2eabe2a8 else 0x1e4f43e470
  }

  /** The multiples of k(x) for the lowest n bits of the coefficient shifted out. */
  function Reduction(c: Poly, n: nat): Poly
    requires n <= 5
  {
    if n == 0 then 0 else Xor(Reduction(c, n - 1), Term(c, n - 1))
  }

  function Term(c: Poly, n: nat): Poly
    requires n < 5
  {
    if TopBit(c, n) then Multiple(n) else 0
  }

  function Shifted(c: Poly, d: Sym): Poly { ((c & 0x07_ffff_ffff) << 5) ^ (d as Poly) }

  /** c(x) * x + d modulo the generator. */
  function Step(c: Poly, d: Sym): Poly { Xor(Shifted(c, d), Reduction(c, 5)) }

  function Fold(c: Poly, v: seq<Sym>): Poly {
    if v == [] then c else Step(Fold(c, v[..|v| - 1]), v[|v| - 1])
  }

  method PolyMod(v: seq<Sym>) returns (c: Poly)
    ensures c == Xor(Fold(1, v), 1)
  {
    c := 1;
    for i := 0 to |v|
      invariant c == Fold(1, v[..i])
    {
      c := NextRemainder(c, v[i]);
      assert v[..i + 1][..i] == v[..i];
    }
    assert v[..|v|] == v;
    c := c ^ 1;
  }

  /** The body of the loop. */
  method NextRemainder(c: Poly, d: Sym) returns (r: Poly)
    ensures r == Step(c, d)
  {
    hide Reduction, Shifted, Xor, TopBit, Multiple;
    ghost var s := Shifted(c, d);
    NoTerms(c, s);
    r := Shifted(c, d);
    if TopBit(c, 0) { r := Xor(r, Multiple(0)); }
    AddTerm(c, s, 0);
    if TopBit(c, 1) { r := Xor(r, Multiple(1)); }
    AddTerm(c, s, 1);
    if TopBit(c, 2) { r := Xor(r, Multiple(2)); }
    AddTerm(c, s, 2);
    if TopBit(c, 3) { r := Xor(r, Multiple(3)); }
    AddTerm(c, s, 3);
    if TopBit(c, 4) { r := Xor(r, Multiple(4)); }
    AddTerm(c, s, 4);
  }

  lemma NoTerms(c: Poly, s: Poly)
    ensures Xor(s, Reduction(c, 0)) == s
  {}

  lemma AddTerm(c: Poly, s: Poly, n: nat)
    requires n < 5
    ensures Xor(s, Reduction(c, n + 1)) == if TopBit(c, n) then Xor(Xor(s, Reduction(c, n)), Multiple(n))
        else Xor(s, Reduction(c, n))
  {
    hide Xor, TopBit, Multiple;
    XorAssoc(s, Reduction(c, n), Multiple(n));
    XorLaws(Reduction(c, n), 0, 0, 0);
  }

  lemma XorAssoc(a: Poly, b: Poly, c: Poly)
    ensures Xor(Xor(a, b), c) == Xor(a, Xor(b, c))
  {}

  // ------------------------------------------------------------------- linearity

  lemma TopBitXor(a: Poly, b: Poly, n: nat)
    requires n < 5
    ensures TopBit(Xor(a, b), n) == (TopBit(a, n) != TopBit(b, n))
  {
    if n == 0 {} else if n == 1 {} else if n == 2 {} else if n == 3 {} else {}
  }

  lemma TermXor(a: Poly, b: Poly, n: nat)
    requires n < 5
    ensures Term(Xor(a, b), n) == Xor(Term(a, n), Term(b, n))
  {
    hide Xor, TopBit, Multiple;
    TopBitXor(a, b, n);
    XorLaws(Multiple(n), 0, 0, 0);
    XorLaws(0, 0, 0, 0);
  }

  lemma {:induction false} ReductionXor(a: Poly, b: Poly, n: nat)
    requires n <= 5
    ensures Reduction(Xor(a, b), n) == Xor(Reduction(a, n), Reduction(b, n))
  {
    hide Xor, Term;
    if n == 0 {
      XorLaws(0, 0, 0, 0);
    } else {
      ReductionXor(a, b, n - 1);
      TermXor(a, b, n - 1);
      XorLaws(Reduction(a, n - 1), Reduction(b, n - 1), Term(a, n - 1), Term(b, n - 1));
    }
  }

  lemma ShiftedXor(a: Poly, b: Poly, d: Sym, e: Sym)
    ensures Shifted(Xor(a, b), d ^ e) == Xor(Shifted(a, d), Shifted(b, e))
  {}

  lemma StepXor(a: Poly, b: Poly, d: Sym, e: Sym)
    ensures Step(Xor(a, b), d ^ e) == Xor(Step(a, d), Step(b, e))
  {
    hide Xor, Reduction, Shifted;
    ReductionXor(a, b, 5);
    ShiftedXor(a, b, d, e);
    XorLaws(Shifted(a, d), Shifted(b, e), Reduction(a, 5), Reduction(b, 5));
  }

  /** Symbol by symbol. */
  function Sum(v: seq<Sym>, w: seq<Sym>): (r: seq<Sym>)
    requires |v| == |w|
    ensures |r| == |v|
  {
    seq(|v|, i requires 0 <= i < |v| => v[i] ^ w[i])
  }

  /** The checksum is a linear map. */
  lemma {:induction false} FoldLinear(a: Poly, b: Poly, v: seq<Sym>, w: seq<Sym>)
    requires |v| == |w|
    ensures Fold(Xor(a, b), Sum(v, w)) == Xor(Fold(a, v), Fold(b, w))
  {
    hide Xor, Step;
    if v != [] {
      var n := |v| - 1;
      FoldLinear(a, b, v[..n], w[..n]);
      assert Sum(v, w)[..n] == Sum(v[..n], w[..n]);
      StepXor(Fold(a, v[..n]), Fold(b, w[..n]), v[n], w[n]);
    }
  }

  lemma {:induction false} FoldSplit(c: Poly, v: seq<Sym>, w: seq<Sym>)
    ensures Fold(c, v + w) == Fold(Fold(c, v), w)
  {
    hide Step;
    if w == [] {
      assert v + w == v;
    } else {
      var n := |w| - 1;
      FoldSplit(c, v, w[..n]);
      assert (v + w)[..|v + w| - 1] == v + w[..n];
    }
  }

  // ----------------------------------------------------------- packing and bursts

  /** c is a polynomial of fewer than n terms. */
  predicate Terms(c: Poly, n: nat)
    requires n <= 7
  {
    if n == 0 then c == 0 else if n == 1 then c >> 5 == 0 else if n == 2 then c >> 10 == 0
    else if n == 3 then c >> 15 == 0
    else if n == 4 then c >> 20 == 0 else if n == 5 then c >> 25 == 0 else if n == 6 then c >> 30 == 0 else c >> 35 == 0
  }

  lemma SevenTerms(c: Poly, n: nat)
    requires n <= 7 && Terms(c, n)
    ensures c >> 35 == 0
  {}

  lemma NoTopBit(c: Poly, n: nat)
    requires c >> 35 == 0 && n < 5
    ensures !TopBit(c, n)
  {}

  lemma {:induction false} NoReduction(c: Poly, n: nat)
    requires c >> 35 == 0 && n <= 5
    ensures Reduction(c, n) == 0
  {
    hide Xor, TopBit, Multiple;
    if n > 0 {
      NoReduction(c, n - 1);
      NoTopBit(c, n - 1);
      XorLaws(0, 0, 0, 0);
    }
  }

  /** Until eight symbols have come in, nothing is reduced. */
  lemma StepFree(c: Poly, d: Sym)
    requires c >> 35 == 0
    ensures Step(c, d) == Shifted(c, d)
  {
    hide Xor, Reduction, Shifted;
    NoReduction(c, 5);
    XorLaws(Shifted(c, d), 0, 0, 0);
  }

  lemma ShiftedTerms(c: Poly, d: Sym, n: nat)
    requires n < 7 && Terms(c, n)
    ensures Terms(Shifted(c, d), n + 1)
  {}

  lemma ShiftedZero(c: Poly, d: Sym)
    requires c >> 35 == 0 && Shifted(c, d) == 0
    ensures c == 0 && d == 0
  {}

  lemma {:induction false} FoldTerms(v: seq<Sym>)
    requires |v| <= 7
    ensures Terms(Fold(0, v), |v|)
  {
    hide Step, Terms, Shifted;
    if v == [] {
      NoTermsAtAll();
    } else {
      var c := Fold(0, v[..|v| - 1]);
      FoldTerms(v[..|v| - 1]);
      SevenTerms(c, |v| - 1);
      StepFree(c, v[|v| - 1]);
      ShiftedTerms(c, v[|v| - 1], |v| - 1);
    }
  }

  lemma NoTermsAtAll() ensures Terms(0, 0) {}

  /** Up to eight symbols are told apart from zeros. */
  lemma {:induction false} FoldShort(v: seq<Sym>)
    requires |v| <= 8 && Fold(0, v) == 0
    ensures forall i | 0 <= i < |v| :: v[i] == 0
  {
    hide Step, Terms, Shifted;
    if v != [] {
      var n := |v| - 1;
      FoldTerms(v[..n]);
      SevenTerms(Fold(0, v[..n]), n);
      StepFree(Fold(0, v[..n]), v[n]);
      ShiftedZero(Fold(0, v[..n]), v[n]);
      FoldShort(v[..n]);
    }
  }

  /** All five terms at once. */
  function Flat(c: Poly): Poly {
    (if (c >> 35) & 1 != 0 then 0x98f2bc8e61 as Poly else 0) ^ (if (c >> 35) & 2 != 0 then 0x79b76d99e2 as Poly else 0)
    ^ (if (c >> 35) & 4 != 0 then 0xf33e5fb3c4 as Poly else 0)
    ^ (if (c >> 35) & 8 != 0 then 0xae2eabe2a8 as Poly else 0)
    ^ (if (c >> 35) & 16 != 0 then 0x1e4f43e470 as Poly else 0)
  }

  lemma ReductionFlat(c: Poly)
    ensures Reduction(c, 5) == Flat(c)
  {
    hide Term, Flat, Xor;
    TermsFlat(c);
    XorLaws(Term(c, 0), 0, 0, 0);
    assert Reduction(c, 0) == 0;
    assert Reduction(c, 1) == Term(c, 0);
    assert Reduction(c, 2) == Xor(Term(c, 0), Term(c, 1));
    assert Reduction(c, 4) == Xor(Xor(Reduction(c, 2), Term(c, 2)), Term(c, 3));
  }

  lemma TermsFlat(c: Poly)
    ensures Flat(c) == Xor(Xor(Xor(Xor(Term(c, 0), Term(c, 1)), Term(c, 2)), Term(c, 3)), Term(c, 4))
  {}

  lemma FlatZero(c: Poly)
    requires ((c & 0x07_ffff_ffff) << 5) ^ Flat(c) == 0
    ensures c == 0
  {}

  /** Multiplying by x loses nothing, because the generator has a constant term. */
  lemma StepZero(c: Poly)
    ensures Step(c, 0) == 0 <==> c == 0
  {
    hide Reduction, Flat;
    ReductionFlat(c);
    if c == 0 { StepFree(c, 0); }
    if Step(c, 0) == 0 { FlatZero(c); }
  }

  function Zeros(n: nat): seq<Sym> { seq(n, i => 0 as Sym) }

  lemma {:induction false} FoldZeros(c: Poly, n: nat)
    ensures Fold(c, Zeros(n)) == 0 <==> c == 0
  {
    hide Step;
    if n > 0 {
      FoldZeros(c, n - 1);
      assert Zeros(n)[..n - 1] == Zeros(n - 1);
      StepZero(Fold(c, Zeros(n - 1)));
    }
  }

  /** Words that agree but for at most eight consecutive symbols. */
  predicate BurstApart(v: seq<Sym>, w: seq<Sym>, p: nat) {
    |v| == |w| && forall i | 0 <= i < |v| && !(p <= i < p + 8) :: v[i] == w[i]
  }

  /** A burst of up to eight wrong symbols is always detected. */
  lemma BurstDetected(v: seq<Sym>, w: seq<Sym>, p: nat)
    requires BurstApart(v, w, p) && v != w
    ensures Fold(1, v) != Fold(1, w)
  {
    hide Fold, Xor;
    if Fold(1, v) == Fold(1, w) {
      var n := |v|;
      var q := if p + 8 < n then p + 8 else n;
      var s := if p < n then p else n;
      FoldLinear(1, 1, v, w);
      XorLaws(1, 0, 0, 0);
      XorLaws(Fold(1, v), 0, 0, 0);
      var diff := Sum(v, w);
      SameCancels(v, w, 0, s);
      SameCancels(v, w, q, n);
      assert diff == Zeros(s) + (diff[s..q] + Zeros(n - q));
      FoldSplit(0, Zeros(s), diff[s..q] + Zeros(n - q));
      FoldSplit(Fold(0, Zeros(s)), diff[s..q], Zeros(n - q));
      FoldZeros(0, s);
      FoldZeros(Fold(0, diff[s..q]), n - q);
      FoldShort(diff[s..q]);
      SumZero(v, w, s, q);
    }
  }

  lemma SameCancels(v: seq<Sym>, w: seq<Sym>, a: nat, b: nat)
    requires |v| == |w| && a <= b <= |v| && forall i | a <= i < b :: v[i] == w[i]
    ensures Sum(v, w)[a..b] == Zeros(b - a)
  {}

  lemma SumZero(v: seq<Sym>, w: seq<Sym>, a: nat, b: nat)
    requires |v| == |w| && a <= b <= |v| && (forall i | 0 <= i < b - a :: Sum(v, w)[a..b][i] == 0)
    requires forall i | 0 <= i < |v| && !(a <= i < b) :: v[i] == w[i]
    ensures v == w
  {
    forall i | 0 <= i < |v| ensures v[i] == w[i] {
      if a <= i < b {
        assert Sum(v, w)[a..b][i - a] == v[i] ^ w[i];
        XorEqual(v[i], w[i]);
      }
    }
  }

  lemma XorEqual(d: Sym, e: Sym)
    requires d ^ e == 0
    ensures d == e
  {}

  // ----------------------------------------------------- the field and the division

  /** Multiplication by a in GF(2)[a] modulo a^5 + a^3 + 1. */
  function Double(y: Sym): Sym { (y << 1) ^ (if y & 16 != 0 then 9 as Sym else 0) }

  function Plus(a: Sym, b: Sym): Sym { a ^ b }

  function Plus5(a: Sym, b: Sym, c: Sym, d: Sym, e: Sym): Sym { Plus(Plus(Plus(Plus(a, b), c), d), e) }

  predicate Bit(x: Sym, k: Sym) { x & k != 0 }

  function Part(on: bool, y: Sym): Sym { if on then y else 0 }

  function FieldMul(x: Sym, y: Sym): Sym {
    Plus5(Part(Bit(x, 1), y), Part(Bit(x, 2), Double(y)), Part(Bit(x, 4), Double(Double(y))),
          Part(Bit(x, 8), Double(Double(Double(y)))), Part(Bit(x, 16), Double(Double(Double(Double(y))))))
  }

  /** The generator without its leading term, from x^7 down. */
  function Generator(i: nat): Sym
    requires i < 8
  {
    if i == 0 then 19 else if i == 1 then 3 else if i == 2 then 25 else if i == 3 then 11
    else if i == 4 then 25 else if i == 5 then 3 else if i == 6 then 19 else 1
  }

  /** The i-th coefficient of a packed remainder, from x^7 down. */
  function Group(c: Poly, i: nat): Sym
    requires i < 8
  {
    (if i == 0 then (c >> 35) & 0x1f else if i == 1 then (c >> 30) & 0x1f else if i == 2 then (c >> 25) & 0x1f
     else if i == 3 then (c >> 20) & 0x1f else if i == 4 then (c >> 15) & 0x1f else if i == 5 then (c >> 10) & 0x1f
     else if i == 6 then (c >> 5) & 0x1f else c & 0x1f) as Sym
  }

  lemma GroupXor(c: Poly, d: Poly, i: nat)
    requires i < 8
    ensures Group(Xor(c, d), i) == Group(c, i) ^ Group(d, i)
  {
    if i == 0 {} else if i == 1 {} else if i == 2 {} else if i == 3 {} else
    if i == 4 {} else if i == 5 {} else if i == 6 {} else {}
  }

  lemma GroupShifted(c: Poly, d: Sym, i: nat)
    requires i < 8
    ensures Group(Shifted(c, d), i) == if i < 7 then Group(c, i + 1) else d
  {
    if i == 0 {} else if i == 1 {} else if i == 2 {} else if i == 3 {} else
    if i == 4 {} else if i == 5 {} else if i == 6 {} else {}
  }

  lemma GroupFlat(c: Poly, i: nat)
    requires i < 8
    ensures Group(Flat(c), i) == FieldMul(Group(c, 0), Generator(i))
  {
    if i == 0 {} else if i == 1 {} else if i == 2 {} else if i == 3 {} else
    if i == 4 {} else if i == 5 {} else if i == 6 {} else {}
  }

  /** One step, coefficient by coefficient. */
  lemma StepGroup(c: Poly, d: Sym, i: nat)
    requires i < 8
    ensures Group(Step(c, d), i) == (if i < 7 then Group(c, i + 1) else d) ^ FieldMul(Group(c, 0), Generator(i))
  {
    hide Xor, Shifted, Reduction, Flat, Group, FieldMul;
    ReductionFlat(c);
    GroupXor(Shifted(c, d), Flat(c), i);
    GroupShifted(c, d, i);
    GroupFlat(c, i);
  }

  function Groups(c: Poly): (r: seq<Sym>)
    ensures |r| == 8 && forall i | 0 <= i < 8 :: r[i] == Group(c, i)
  {
    seq(8, i requires 0 <= i < 8 => Group(c, i))
  }

  /** Long division by the generator: subtract the multiple of it that cancels the leading coefficient. */
  function Cancel(s: seq<Sym>): (r: seq<Sym>)
    requires 8 < |s|
    ensures |r| == |s| - 1
  {
    seq(|s| - 1, i requires 0 <= i < |s| - 1 => if i < 8 then s[i + 1] ^ FieldMul(s[0], Generator(i)) else s[i + 1])
  }

  function Remainder(s: seq<Sym>): seq<Sym>
    requires 8 <= |s|
    decreases |s|
  {
    if |s| == 8 then s else Remainder(Cancel(s))
  }

  lemma CancelStep(c: Poly, d: Sym, w: seq<Sym>)
    ensures Cancel(Groups(c) + [d] + w) == Groups(Step(c, d)) + w
  {
    hide Step, Group, FieldMul, Generator;
    var s := Groups(c) + [d] + w;
    forall i | 0 <= i < |s| - 1 ensures Cancel(s)[i] == (Groups(Step(c, d)) + w)[i] {
      if i < 8 { StepGroup(c, d, i); }
    }
  }

  /** The packed loop computes the remainder of long division over GF(32). */
  lemma {:induction false} FoldIsRemainder(c: Poly, w: seq<Sym>)
    ensures Remainder(Groups(c) + w) == Groups(Fold(c, w))
    decreases |w|
  {
    hide Step, Cancel, Groups;
    if w == [] {
      assert Groups(c) + w == Groups(c);
    } else {
      var d, rest := w[0], w[1..];
      assert Groups(c) + w == Groups(c) + [d] + rest && w == [d] + rest;
      CancelStep(c, d, rest);
      FoldSplit(c, [d], rest);
      FoldOne(c, d);
      FoldIsRemainder(Step(c, d), rest);
    }
  }

  lemma FoldOne(c: Poly, d: Sym)
    ensures Fold(c, [d]) == Step(c, d)
  {
    hide Step;
    assert [d][..0] == [];
  }

  /** PolyMod is the remainder of the word, with a one in front, by the generator. */
  lemma PolyModIsRemainder(v: seq<Sym>)
    ensures Groups(Fold(1, v)) == Remainder(Zeros(7) + [1] + v)
  {
    hide Fold, Remainder;
    FoldIsRemainder(1, v);
    OneGroups();
  }

  lemma OneGroups()
    ensures Groups(1) == Zeros(7) + [1]
  {
    forall i | 0 <= i < 8 ensures Group(1, i) == (if i == 7 then 1 else 0) {
      if i == 0 {} else if i == 1 {} else if i == 2 {} else if i == 3 {} else
      if i == 4 {} else if i == 5 {} else if i == 6 {} else {}
    }
  }

  // ------------------------------------------------------------------- checksums

  /** The first i coefficients of a packed polynomial. */
  function Leading(c: Poly, i: nat): Poly
    requires i <= 8
  {
    if i == 0 then 0 else if i == 1 then c >> 35 else if i == 2 then c >> 30 else if i == 3 then c >> 25
    else if i == 4 then c >> 20 else if i == 5 then c >> 15 else if i == 6 then c >> 10
    else if i == 7 then c >> 5 else c
  }

  lemma LeadingNext(c: Poly, i: nat)
    requires i < 8
    ensures Shifted(Leading(c, i), Group(c, i)) == Leading(c, i + 1)
  {
    if i == 0 {
      assert Shifted(0, ((c >> 35) & 0x1f) as Sym) == c >> 35;
    } else if i == 1 {
      assert Shifted(c >> 35, ((c >> 30) & 0x1f) as Sym) == c >> 30;
    } else if i == 2 {
      assert Shifted(c >> 30, ((c >> 25) & 0x1f) as Sym) == c >> 25;
    } else if i == 3 {
      assert Shifted(c >> 25, ((c >> 20) & 0x1f) as Sym) == c >> 20;
    } else if i == 4 {
      assert Shifted(c >> 20, ((c >> 15) & 0x1f) as Sym) == c >> 15;
    } else if i == 5 {
      assert Shifted(c >> 15, ((c >> 10) & 0x1f) as Sym) == c >> 10;
    } else if i == 6 {
      assert Shifted(c >> 10, ((c >> 5) & 0x1f) as Sym) == c >> 5;
    } else {
      assert Shifted(c >> 5, (c & 0x1f) as Sym) == c;
    }
  }

  lemma LeadingSmall(c: Poly, i: nat)
    requires i < 8
    ensures Leading(c, i) >> 35 == 0
  {
    if i == 0 {} else if i == 1 {} else if i == 2 {} else if i == 3 {} else
    if i == 4 {} else if i == 5 {} else if i == 6 {} else {}
  }

  /** Packing the coefficients gives the polynomial back. */
  lemma {:induction false} FoldGroups(c: Poly, i: nat)
    requires i <= 8
    ensures Fold(0, Groups(c)[..i]) == Leading(c, i)
  {
    hide Step, Leading, Group;
    if i == 0 {
      NoLeading(c);
    } else {
      FoldGroups(c, i - 1);
      assert Groups(c)[..i][..i - 1] == Groups(c)[..i - 1];
      LeadingNext(c, i - 1);
      LeadingSmall(c, i - 1);
      StepFree(Leading(c, i - 1), Group(c, i - 1));
    }
  }

  lemma NoLeading(c: Poly) ensures Leading(c, 0) == 0 && Leading(c, 8) == c {}

  predicate IsValid(word: seq<Sym>) { Fold(1, word) == 1 }

  /** A valid word changed within eight consecutive symbols is not valid. */
  lemma BurstRejected(v: seq<Sym>, w: seq<Sym>, p: nat)
    requires IsValid(v) && BurstApart(v, w, p) && v != w
    ensures !IsValid(w)
  {
    BurstDetected(v, w, p);
  }

  /** The eight symbols to append to e. */
  function Checksum(e: seq<Sym>): seq<Sym> { Groups(Xor(Fold(1, e + Zeros(8)), 1)) }

  /** Appending its checksum makes any word valid. */
  lemma ChecksumValid(e: seq<Sym>)
    ensures IsValid(e + Checksum(e))
  {
    hide Fold, Xor, Group, Leading;
    var c := Fold(1, e);
    var x := Fold(c, Zeros(8));
    var mod := Xor(x, 1);
    FoldSplit(1, e, Zeros(8));
    FoldSplit(1, e, Groups(mod));
    FoldLinear(c, 0, Zeros(8), Groups(mod));
    ZeroSum(Groups(mod));
    XorLaws(c, 0, 0, 0);
    FoldGroups(mod, 8);
    NoLeading(mod);
    assert Groups(mod)[..8] == Groups(mod);
    XorLaws(x, 0, x, 1);
    XorLaws(x, 1, 0, 0);
    XorLaws(1, 0, 0, 0);
  }

  lemma ZeroSum(v: seq<Sym>)
    ensures Sum(Zeros(|v|), v) == v
  {
    forall i | 0 <= i < |v| ensures Sum(Zeros(|v|), v)[i] == v[i] {}
  }

  /** No other eight symbols do. */
  lemma ChecksumUnique(e: seq<Sym>, s: seq<Sym>)
    requires |s| == 8 && IsValid(e + s)
    ensures s == Checksum(e)
  {
    hide Fold, Xor, Groups;
    ChecksumValid(e);
    var w, w' := e + s, e + Checksum(e);
    if s != Checksum(e) {
      assert w[|e|..] == s && w'[|e|..] == Checksum(e);
      BurstDetected(w, w', |e|);
    }
  }

  /** A word of at least eight symbols is valid exactly when its last eight are the checksum of those before. */
  lemma ValidExactly(w: seq<Sym>)
    requires 8 <= |w|
    ensures var h := |w| - 8; IsValid(w) <==> w[h..] == Checksum(w[..h])
  {
    hide Fold, Xor, Groups, IsValid;
    var h := |w| - 8;
    assert w == w[..h] + w[h..];
    if IsValid(w) { ChecksumUnique(w[..h], w[h..]); }
    if w[h..] == Checksum(w[..h]) { ChecksumValid(w[..h]); }
  }

  /** A shorter word is never valid: nothing is reduced, and the leading one is still there. */
  lemma ShortInvalid(w: seq<Sym>)
    requires 0 < |w| < 8
    ensures !IsValid(w)
  {
    hide Xor, Step;
    var one: seq<Sym> := [1];
    var v, z := one + w, Zeros(|w|) + one;
    StartOne();
    FoldOne(0, 1);
    FoldSplit(0, one, w);
    FoldSplit(0, Zeros(|w|), one);
    FoldZeros(0, |w|);
    assert Sum(v, z)[0] == 1;
    if IsValid(w) {
      XorLaws(1, 1, 0, 0);
      FoldLinear(0, 0, v, z);
      FoldShort(Sum(v, z));
    }
  }

  lemma StartOne()
    ensures Step(0, 1) == 1 && Xor(0, 0) == 0
  {
    StepFree(0, 1);
  }
}
