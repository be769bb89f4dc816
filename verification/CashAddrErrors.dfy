/**
 Scattered errors under the CashAddr checksum (src/cashaddr.cpp): x has order 1025
 modulo the generator, and no smaller power of it is a constant. So two wrong symbols
 are told apart from none exactly when 1025 does not divide their distance, or the two
 errors differ.
 */
module CashAddrErrors {
  import opened CashAddr
  import opened Powers

  // -------------------------------------------------------------- powers of x

  /** c(x) * x modulo the generator. */
  function Next(c: Poly): Poly { ((c & 0x07_ffff_ffff) << 5) ^ Flat(c) }

  lemma ShiftOnly(c: Poly)
    ensures Shifted(c, 0) == (c & 0x07_ffff_ffff) << 5
  {}

  lemma NextIsStep(c: Poly)
    ensures Next(c) == Step(c, 0)
  {
    hide Shifted, Flat, Reduction;
    ReductionFlat(c);
    ShiftOnly(c);
  }

  function Times(c: Poly, n: nat): Poly { if n == 0 then c else Next(Times(c, n - 1)) }

  /** x^n modulo the generator. */
  function Power(n: nat): Poly { Times(1, n) }

  lemma {:induction false} TimesAdd(c: Poly, m: nat, n: nat)
    ensures Times(c, m + n) == Times(Times(c, m), n)
  {
    hide Next;
    if n > 0 { TimesAdd(c, m, n - 1); }
  }

  lemma {:induction false} TimesFold(c: Poly, n: nat)
    ensures Fold(c, Zeros(n)) == Times(c, n)
  {
    hide Next, Step;
    if n > 0 {
      TimesFold(c, n - 1);
      assert Zeros(n)[..n - 1] == Zeros(n - 1) && Zeros(n)[n - 1] == 0;
      NextIsStep(Times(c, n - 1));
    }
  }

  // -------------------------------------------------------------- constants

  /** A polynomial of degree 0. */
  predicate Constant(c: Poly) { c >> 5 == 0 }

  lemma ConstantGroups(c: Poly)
    ensures Constant(c) <==> forall i | 0 <= i < 7 :: Group(c, i) == 0
  {
    if Constant(c) {
      forall i | 0 <= i < 7 ensures Group(c, i) == 0 { NoGroup(c, i); }
    }
    if forall i | 0 <= i < 7 :: Group(c, i) == 0 { OnlyGroup(c); }
  }

  lemma OnlyGroup(c: Poly)
    requires forall i | 0 <= i < 7 :: Group(c, i) == 0
    ensures Constant(c)
  {
    assert Group(c, 0) == 0 && Group(c, 1) == 0 && Group(c, 2) == 0 && Group(c, 3) == 0;
    assert Group(c, 4) == 0 && Group(c, 5) == 0 && Group(c, 6) == 0;
  }

  lemma NoGroup(c: Poly, i: nat)
    requires Constant(c) && i < 7
    ensures Group(c, i) == 0
  {
    if i == 0 {} else if i == 1 {} else if i == 2 {} else if i == 3 {} else if i == 4 {} else if i == 5 {} else {}
  }

  lemma SameGroups(c: Poly, d: Poly)
    requires forall i | 0 <= i < 8 :: Group(c, i) == Group(d, i)
    ensures c == d
  {
    assert Group(c, 0) == Group(d, 0) && Group(c, 1) == Group(d, 1) && Group(c, 2) == Group(d, 2);
    assert Group(c, 3) == Group(d, 3) && Group(c, 4) == Group(d, 4) && Group(c, 5) == Group(d, 5);
    assert Group(c, 6) == Group(d, 6) && Group(c, 7) == Group(d, 7);
  }

  lemma PlusMix(a: Sym, b: Sym, c: Sym, d: Sym)
    ensures Plus(Plus(a, b), Plus(c, d)) == Plus(Plus(a, c), Plus(b, d))
  {}

  lemma Plus5Plus(a: Sym, b: Sym, c: Sym, d: Sym, e: Sym, f: Sym, g: Sym, h: Sym, i: Sym, j: Sym)
    ensures Plus5(Plus(a, f), Plus(b, g), Plus(c, h), Plus(d, i), Plus(e, j)) ==
            Plus(Plus5(a, b, c, d, e), Plus5(f, g, h, i, j))
  {
    hide Plus;
    PlusMix(a, f, b, g);
    PlusMix(Plus(a, b), Plus(f, g), c, h);
    PlusMix(Plus(Plus(a, b), c), Plus(Plus(f, g), h), d, i);
    PlusMix(Plus(Plus(Plus(a, b), c), d), Plus(Plus(Plus(f, g), h), i), e, j);
  }

  lemma DoublePlus(a: Sym, b: Sym)
    ensures Double(Plus(a, b)) == Plus(Double(a), Double(b))
  {}

  lemma PartPlus(x: bool, a: Sym, b: Sym)
    ensures Part(x, Plus(a, b)) == Plus(Part(x, a), Part(x, b))
  {}

  lemma FieldSum(s: Sym, a: Sym, b: Sym)
    ensures FieldMul(s, Plus(a, b)) == Plus(FieldMul(s, a), FieldMul(s, b))
  {
    hide Plus, Plus5, Part, Bit, Double;
    var a1, b1 := Double(a), Double(b);
    var a2, b2 := Double(a1), Double(b1);
    var a3, b3 := Double(a2), Double(b2);
    var a4, b4 := Double(a3), Double(b3);
    DoublePlus(a, b);
    DoublePlus(a1, b1);
    DoublePlus(a2, b2);
    DoublePlus(a3, b3);
    PartPlus(Bit(s, 1), a, b);
    PartPlus(Bit(s, 2), a1, b1);
    PartPlus(Bit(s, 4), a2, b2);
    PartPlus(Bit(s, 8), a3, b3);
    PartPlus(Bit(s, 16), a4, b4);
    Plus5Plus(Part(Bit(s, 1), a), Part(Bit(s, 2), a1), Part(Bit(s, 4), a2), Part(Bit(s, 8), a3), Part(Bit(s, 16), a4),
              Part(Bit(s, 1), b), Part(Bit(s, 2), b1), Part(Bit(s, 4), b2), Part(Bit(s, 8), b3), Part(Bit(s, 16), b4));
  }

  lemma BitPlus(a: Sym, b: Sym, y: Sym, k: Sym)
    requires k == 1 || k == 2 || k == 4 || k == 8 || k == 16
    ensures Part(Bit(Plus(a, b), k), y) == Plus(Part(Bit(a, k), y), Part(Bit(b, k), y))
  {
    if k == 1 {} else if k == 2 {} else if k == 4 {} else if k == 8 {} else {}
  }

  lemma FieldLeftSum(a: Sym, b: Sym, y: Sym)
    ensures FieldMul(Plus(a, b), y) == Plus(FieldMul(a, y), FieldMul(b, y))
  {
    hide Plus, Plus5, Part, Bit, Double;
    var y1 := Double(y);
    var y2 := Double(y1);
    var y3 := Double(y2);
    var y4 := Double(y3);
    BitPlus(a, b, y, 1);
    BitPlus(a, b, y1, 2);
    BitPlus(a, b, y2, 4);
    BitPlus(a, b, y3, 8);
    BitPlus(a, b, y4, 16);
    Plus5Plus(Part(Bit(a, 1), y), Part(Bit(a, 2), y1), Part(Bit(a, 4), y2), Part(Bit(a, 8), y3), Part(Bit(a, 16), y4),
              Part(Bit(b, 1), y), Part(Bit(b, 2), y1), Part(Bit(b, 4), y2), Part(Bit(b, 8), y3), Part(Bit(b, 16), y4));
  }

  lemma FieldDoublePlus(a: Sym, b: Sym, y: Sym)
    requires FieldMul(Double(a), y) == Double(FieldMul(a, y)) && FieldMul(Double(b), y) == Double(FieldMul(b, y))
    ensures FieldMul(Double(Plus(a, b)), y) == Double(FieldMul(Plus(a, b), y))
  {
    hide Plus, Double, FieldMul;
    DoublePlus(a, b);
    FieldLeftSum(Double(a), Double(b), y);
    FieldLeftSum(a, b, y);
    DoublePlus(FieldMul(a, y), FieldMul(b, y));
  }

  lemma FieldDoubleBit(on: bool, k: Sym, y: Sym)
    requires k == 1 || k == 2 || k == 4 || k == 8 || k == 16
    ensures FieldMul(Double(Part(on, k)), y) == Double(FieldMul(Part(on, k), y))
  {
    if !on {} else if k == 1 {} else if k == 2 {} else if k == 4 {} else if k == 8 {} else {}
  }

  lemma FromBits(a: Sym)
    ensures a ==
            Plus5(Part(Bit(a, 1), 1), Part(Bit(a, 2), 2), Part(Bit(a, 4), 4), Part(Bit(a, 8), 8), Part(Bit(a, 16), 16))
  {}

  lemma FieldDouble(a: Sym, y: Sym)
    ensures FieldMul(Double(a), y) == Double(FieldMul(a, y))
  {
    hide Plus, Part, Bit, Double, FieldMul;
    var p0, p1, p2 := Part(Bit(a, 1), 1), Part(Bit(a, 2), 2), Part(Bit(a, 4), 4);
    var p3, p4 := Part(Bit(a, 8), 8), Part(Bit(a, 16), 16);
    FieldDoubleBit(Bit(a, 1), 1, y);
    FieldDoubleBit(Bit(a, 2), 2, y);
    FieldDoubleBit(Bit(a, 4), 4, y);
    FieldDoubleBit(Bit(a, 8), 8, y);
    FieldDoubleBit(Bit(a, 16), 16, y);
    FieldDoublePlus(p0, p1, y);
    FieldDoublePlus(Plus(p0, p1), p2, y);
    FieldDoublePlus(Plus(Plus(p0, p1), p2), p3, y);
    FieldDoublePlus(Plus(Plus(Plus(p0, p1), p2), p3), p4, y);
    FromBits(a);
  }

  lemma FieldPart(x: bool, a: Sym, y: Sym)
    ensures FieldMul(Part(x, a), y) == Part(x, FieldMul(a, y))
  {
    hide FieldMul;
    FieldZero(0, y);
  }

  lemma FieldPlus5(a: Sym, b: Sym, c: Sym, d: Sym, e: Sym, y: Sym)
    ensures FieldMul(Plus5(a, b, c, d, e), y) ==
            Plus5(FieldMul(a, y), FieldMul(b, y), FieldMul(c, y), FieldMul(d, y), FieldMul(e, y))
  {
    hide Plus, FieldMul;
    FieldLeftSum(a, b, y);
    FieldLeftSum(Plus(a, b), c, y);
    FieldLeftSum(Plus(Plus(a, b), c), d, y);
    FieldLeftSum(Plus(Plus(Plus(a, b), c), d), e, y);
  }

  lemma FieldAssoc(s: Sym, a: Sym, b: Sym)
    ensures FieldMul(s, FieldMul(a, b)) == FieldMul(FieldMul(s, a), b)
  {
    hide Plus, Plus5, Part, Bit, Double;
    var a1 := Double(a);
    var a2 := Double(a1);
    var a3 := Double(a2);
    var a4 := Double(a3);
    FieldDouble(a, b);
    FieldDouble(a1, b);
    FieldDouble(a2, b);
    FieldDouble(a3, b);
    FieldPart(Bit(s, 1), a, b);
    FieldPart(Bit(s, 2), a1, b);
    FieldPart(Bit(s, 4), a2, b);
    FieldPart(Bit(s, 8), a3, b);
    FieldPart(Bit(s, 16), a4, b);
    FieldPlus5(Part(Bit(s, 1), a), Part(Bit(s, 2), a1), Part(Bit(s, 4), a2), Part(Bit(s, 8), a3), Part(Bit(s, 16), a4),
               b);
  }

  lemma FieldZero(s: Sym, a: Sym)
    ensures FieldMul(s, a) == 0 <==> s == 0 || a == 0
  {}

  lemma FieldOne(s: Sym)
    ensures FieldMul(s, 1) == s == FieldMul(1, s)
  {}

  /** d is s times c, coefficient by coefficient. */
  ghost predicate IsScaled(s: Sym, c: Poly, d: Poly) {
    forall i | 0 <= i < 8 :: Group(d, i) == FieldMul(s, Group(c, i))
  }

  /** Multiplication by x does not see constant factors. */
  lemma ScaledNext(s: Sym, c: Poly, d: Poly)
    requires IsScaled(s, c, d)
    ensures IsScaled(s, Next(c), Next(d))
  {
    hide Next, Group, FieldMul, Step;
    NextIsStep(c);
    NextIsStep(d);
    forall i | 0 <= i < 8 ensures Group(Next(d), i) == FieldMul(s, Group(Next(c), i)) {
      StepGroup(c, 0, i);
      StepGroup(d, 0, i);
      assert Group(d, 0) == FieldMul(s, Group(c, 0));
      var lower := if i < 7 then Group(c, i + 1) else 0;
      FieldZero(s, 0);
      assert (if i < 7 then Group(d, i + 1) else 0) == FieldMul(s, lower);
      FieldSum(s, lower, FieldMul(Group(c, 0), Generator(i)));
      FieldAssoc(s, Group(c, 0), Generator(i));
    }
  }

  lemma {:induction false} ScaledTimes(s: Sym, c: Poly, d: Poly, n: nat)
    requires IsScaled(s, c, d)
    ensures IsScaled(s, Times(c, n), Times(d, n))
  {
    hide Next, IsScaled;
    if n > 0 {
      ScaledTimes(s, c, d, n - 1);
      ScaledNext(s, Times(c, n - 1), Times(d, n - 1));
    }
  }

  lemma OneScaled(s: Sym)
    ensures IsScaled(s, 1, s as Poly)
  {
    forall i | 0 <= i < 8 ensures Group(s as Poly, i) == FieldMul(s, Group(1, i)) {
      GroupOf(s, i);
      GroupOf(1, i);
      FieldZero(s, 0);
      FieldOne(s);
    }
  }

  lemma GroupOf(s: Sym, i: nat)
    requires i < 8
    ensures Group(s as Poly, i) == if i < 7 then 0 else s
  {
    if i == 0 {} else if i == 1 {} else if i == 2 {} else if i == 3 {} else
    if i == 4 {} else if i == 5 {} else if i == 6 {} else {}
  }

  lemma IsConstant(c: Poly) returns (s: Sym)
    requires Constant(c)
    ensures c == s as Poly
  {
    s := (c & 0x1f) as Sym;
  }

  lemma {:induction false} PowerNotZero(n: nat)
    ensures Power(n) != 0
  {
    hide Next, Step;
    if n > 0 {
      PowerNotZero(n - 1);
      NextIsStep(Power(n - 1));
      StepZero(Power(n - 1));
    }
  }

  /** If x^m is constant, x^(m + n) is constant exactly when x^n is. */
  lemma ConstantAdd(m: nat, n: nat)
    requires Constant(Power(m))
    ensures Constant(Power(m + n)) <==> Constant(Power(n))
  {
    hide Times, Group, FieldMul, Constant;
    var s := IsConstant(Power(m));
    PowerNotZero(m);
    OneScaled(s);
    ScaledTimes(s, 1, s as Poly, n);
    TimesAdd(1, m, n);
    ConstantGroups(Power(n));
    ConstantGroups(Power(m + n));
    forall i | 0 <= i < 7 ensures Group(Power(m + n), i) == 0 <==> Group(Power(n), i) == 0 {
      FieldZero(s, Group(Power(n), i));
    }
  }

  lemma {:induction false} ConstantMultiple(m: nat, k: nat)
    requires Constant(Power(m))
    ensures Constant(Power(m * k))
  {
    hide Times, Constant;
    if k == 0 {
      PowerStart();
    } else {
      ConstantMultiple(m, k - 1);
      ConstantAdd(m, m * (k - 1));
      assert m * k == m + m * (k - 1);
    }
  }

  lemma PowerStart()
    ensures Power(0) == 1 && Constant(1)
  {}

  // -------------------------------------------------------------- the order of x

  function Next5(c: Poly): Poly { Next(Next(Next(Next(Next(c))))) }

  /** Forty-one times Next. */
  function Turn(c: Poly): Poly { Next(Next5(Next5(Next5(Next5(Next5(Next5(Next5(Next5(c))))))))) }

  lemma TimesTurn(c: Poly)
    ensures Times(c, 41) == Turn(c)
  {
    hide Next, Next5;
    var d := Times(c, 5);
    TimesAdd(c, 5, 5);
    TimesAdd(c, 10, 5);
    TimesAdd(c, 15, 5);
    TimesAdd(c, 20, 5);
    TimesAdd(c, 25, 5);
    TimesAdd(c, 30, 5);
    TimesAdd(c, 35, 5);
    TimesFive(c);
    TimesFive(Times(c, 5));
    TimesFive(Times(c, 10));
    TimesFive(Times(c, 15));
    TimesFive(Times(c, 20));
    TimesFive(Times(c, 25));
    TimesFive(Times(c, 30));
    TimesFive(Times(c, 35));
    assert Times(c, 41) == Next(Times(c, 40));
  }

  lemma TimesFive(c: Poly)
    ensures Times(c, 5) == Next5(c)
  {
    hide Next;
    TimesNext(c, 1);
    TimesNext(c, 2);
    TimesNext(c, 3);
    TimesNext(c, 4);
    TimesNext(c, 5);
  }

  function Turn5(c: Poly): Poly { Turn(Turn(Turn(Turn(Turn(c))))) }

  lemma TimesLeg(c: Poly)
    ensures Times(c, 205) == Turn5(c)
  {
    hide Turn, Times;
    TimesAdd(c, 41, 41);
    TimesAdd(c, 82, 41);
    TimesAdd(c, 123, 41);
    TimesAdd(c, 164, 41);
    TimesTurn(c);
    TimesTurn(Times(c, 41));
    TimesTurn(Times(c, 82));
    TimesTurn(Times(c, 123));
    TimesTurn(Times(c, 164));
  }

  lemma Turns1A()
    ensures Turn(0x1) == 0xb97af38f7d && Turn(0xb97af38f7d) == 0x336bffb80
  {}

  lemma Turns1B()
    ensures Turn(0x336bffb80) == 0xc0b9534ceb && Turn(0xc0b9534ceb) == 0x3293e7c089
    ensures Turn(0x3293e7c089) == 0x1efbd056fe
  {}

  lemma Leg1()
    ensures Turn5(0x1) == 0x1efbd056fe
  {
    hide Turn;
    Turns1A();
    Turns1B();
  }

  lemma Turns2A()
    ensures Turn(0x1efbd056fe) == 0x503f00389 && Turn(0x503f00389) == 0x59098bac22
  {}

  lemma Turns2B()
    ensures Turn(0x59098bac22) == 0xe7d79de376 && Turn(0xe7d79de376) == 0x62f1520af2
    ensures Turn(0x62f1520af2) == 0x37bea2ebba
  {}

  lemma Leg2()
    ensures Turn5(0x1efbd056fe) == 0x37bea2ebba
  {
    hide Turn;
    Turns2A();
    Turns2B();
  }

  lemma Turns3A()
    ensures Turn(0x37bea2ebba) == 0xa7187e8c2f && Turn(0xa7187e8c2f) == 0x13f07297ea
  {}

  lemma Turns3B()
    ensures Turn(0x13f07297ea) == 0xb41d2baa3a && Turn(0xb41d2baa3a) == 0x28848c3a19
    ensures Turn(0x28848c3a19) == 0x3a73576b23
  {}

  lemma Leg3()
    ensures Turn5(0x37bea2ebba) == 0x3a73576b23
  {
    hide Turn;
    Turns3A();
    Turns3B();
  }

  lemma Turns4A()
    ensures Turn(0x3a73576b23) == 0xf38015735b && Turn(0xf38015735b) == 0x847043355b
  {}

  lemma Turns4B()
    ensures Turn(0x847043355b) == 0x8181c05210 && Turn(0x8181c05210) == 0x80a1fcf46e
    ensures Turn(0x80a1fcf46e) == 0x31d1b22e37
  {}

  lemma Leg4()
    ensures Turn5(0x3a73576b23) == 0x31d1b22e37
  {
    hide Turn;
    Turns4A();
    Turns4B();
  }

  lemma Turns5A()
    ensures Turn(0x31d1b22e37) == 0xb59cb162d0 && Turn(0xb59cb162d0) == 0xeb18a65575
  {}

  lemma Turns5B()
    ensures Turn(0xeb18a65575) == 0xffa9ec5d46 && Turn(0xffa9ec5d46) == 0x4c21e1479a
    ensures Turn(0x4c21e1479a) == 0x1
  {}

  lemma Leg5()
    ensures Turn5(0x31d1b22e37) == 0x1
  {
    hide Turn;
    Turns5A();
    Turns5B();
  }

  /** x^205 and x^1025, five times 41 steps at a time. */
  lemma PowerLegs()
    ensures Power(205) == 0x1efbd056fe && Power(1025) == 1
  {
    hide Turn5, Times;
    Leg1();
    Leg2();
    Leg3();
    Leg4();
    Leg5();
    TimesLeg(1);
    TimesLeg(0x1efbd056fe);
    TimesLeg(0x37bea2ebba);
    TimesLeg(0x3a73576b23);
    TimesLeg(0x31d1b22e37);
    TimesAdd(1, 205, 205);
    TimesAdd(1, 410, 205);
    TimesAdd(1, 615, 205);
    TimesAdd(1, 820, 205);
  }

  /** x^1025 is 1; x^205 and x^25 are not constant. */
  lemma ThreePowers()
    ensures Power(1025) == 1 && !Constant(Power(205)) && !Constant(Power(25))
  {
    hide Times;
    PowerLegs();
    Power25();
    assert !Constant(0x1efbd056fe) && !Constant(0x6f21fd01d0);
  }

  lemma Power25()
    ensures Power(25) == 0x6f21fd01d0
  {
    hide Times;
    TimesFive(1);
    TimesFive(0x2000000);
    TimesFive(0x68ffd04f7c);
    TimesFive(0xfabfe0fd72);
    TimesFive(0xe4533ceb60);
    TimesAdd(1, 5, 5);
    TimesAdd(1, 10, 5);
    TimesAdd(1, 15, 5);
    TimesAdd(1, 20, 5);
  }

  /** A proper divisor of 1025 divides 205 or 25. */
  lemma Divisors(m: nat, q: nat) returns (k: nat)
    requires m * q == 1025 && m < 1025
    ensures m * k == 205 || m * k == 25
  {
    if q % 5 == 0 {
      k := q / 5;
      MulTwice5(m, k);
    } else {
      k := 1;
      ByFive(m, q, 205);
      ByFive(m / 5, q, 41);
      Prime41(m / 5 / 5, q);
    }
  }

  lemma MulTwice5(m: nat, k: nat)
    ensures m * (5 * k) == 5 * (m * k)
  {}

  /** If 5 divides m q and not q, it divides m. */
  lemma ByFive(m: nat, q: nat, r: nat)
    requires m * q == 5 * r && q % 5 != 0
    ensures m % 5 == 0 && m / 5 * q == r
  {
    var a, i, b, j := m / 5, m % 5, q / 5, q % 5;
    FiveParts(a, i, b, j);
    NotByFive(i, j, r - (a * q + i * b));
  }

  lemma FiveParts(a: nat, i: nat, b: nat, j: nat)
    ensures (5 * a + i) * (5 * b + j) == 5 * (a * (5 * b + j) + i * b) + i * j
  {
    MulDistrib(5 * a, i, 5 * b + j);
    MulAssoc(5, a, 5 * b + j);
    MulDistrib(5 * b, j, i);
    MulAssoc(5, b, i);
  }

  lemma NotByFive(i: nat, j: nat, k: int)
    requires i < 5 && 0 < j < 5 && i * j == 5 * k
    ensures i == 0
  {
    if i == 1 {} else if i == 2 {} else if i == 3 {} else if i == 4 {} else {}
  }

  lemma Prime41(n: nat, q: nat)
    requires n * q == 41
    ensures n == 1 || q == 1
  {
    if n >= 7 && q >= 7 {
      MulMono(7, n, q);
    } else if n < 7 {
      if n == 0 {} else if n == 1 {} else if n == 2 {} else if n == 3 {} else if n == 4 {} else if n == 5 {} else {}
    } else {
      if q == 0 {} else if q == 1 {} else if q == 2 {} else if q == 3 {} else if q == 4 {} else if q == 5 {} else {}
    }
  }

  /** The smallest positive exponent of a constant power, up to n. */
  lemma {:induction false} Least(n: nat) returns (m: nat)
    requires 0 < n && Constant(Power(n))
    ensures 0 < m <= n && Constant(Power(m)) && forall k | 0 < k < m :: !Constant(Power(k))
  {
    hide Times, Constant;
    if k: nat :| 0 < k < n && Constant(Power(k)) {
      m := Least(k);
    } else {
      m := n;
    }
  }

  /** x^n is constant exactly when 1025 divides n, and it is then 1. */
  lemma OrderExactly(n: nat)
    ensures Constant(Power(n)) <==> n % 1025 == 0
    ensures n % 1025 == 0 ==> Power(n) == 1
  {
    hide Times, Constant;
    ThreePowers();
    PowerStart();
    WholeTurns(n / 1025);
    var r := n % 1025;
    assert n == 1025 * (n / 1025) + r;
    ConstantAdd(1025 * (n / 1025), r);
    if 0 < r && Constant(Power(r)) {
      var m := Least(r);
      LeastDivides(m, 1025);
      var k := Divisors(m, 1025 / m);
      ConstantMultiple(m, k);
      assert false;
    }
  }

  lemma {:induction false} WholeTurns(k: nat)
    ensures Power(1025 * k) == 1
  {
    hide Times;
    PowerStart();
    if k > 0 {
      WholeTurns(k - 1);
      ThreePowers();
      TimesAdd(1, 1025 * (k - 1), 1025);
    }
  }

  /** The smallest exponent divides every exponent of a constant power. */
  lemma LeastDivides(m: nat, n: nat)
    requires 0 < m && Constant(Power(m)) && (forall k | 0 < k < m :: !Constant(Power(k))) && Constant(Power(n))
    ensures n % m == 0 && m * (n / m) == n
  {
    hide Times, Constant;
    var q, r := n / m, n % m;
    assert n == m * q + r;
    ConstantMultiple(m, q);
    ConstantAdd(m * q, r);
  }

  // -------------------------------------------------------------- two wrong symbols

  /** Two words that differ at p and at q, and nowhere else. */
  predicate TwoApart(v: seq<Sym>, w: seq<Sym>, p: nat, q: nat) {
    && |v| == |w| && p < q < |v| && v[p] != w[p] && v[q] != w[q]
    && forall i | 0 <= i < |v| && i != p && i != q :: v[i] == w[i]
  }

  /** The word of two errors: a, then b after d - 1 zeros, between any number of zeros. */
  lemma TwoSymbols(n: nat, a: Sym, d: nat, b: Sym, m: nat)
    requires 0 < d
    ensures Fold(0, Zeros(n) + [a] + Zeros(d - 1) + [b] + Zeros(m)) == 0 <==> Times(a as Poly, d) == b as Poly
  {
    hide Next, Step, Xor, Times;
    var z := Zeros(n) + [a] + Zeros(d - 1);
    FoldSplit(0, z + [b], Zeros(m));
    FoldZeros(Fold(0, z + [b]), m);
    FoldSplit(0, z, [b]);
    FoldOne(Fold(0, z), b);
    FoldSplit(0, Zeros(n) + [a], Zeros(d - 1));
    TimesFold(Fold(0, Zeros(n) + [a]), d - 1);
    FoldSplit(0, Zeros(n), [a]);
    FoldZeros(0, n);
    FoldOne(0, a);
    StepOf(0, a);
    TimesNext(a as Poly, d);
    StepOf(Times(a as Poly, d - 1), b);
  }

  lemma TimesNext(c: Poly, d: nat)
    requires 0 < d
    ensures Times(c, d) == Next(Times(c, d - 1))
  {}

  lemma StepOf(c: Poly, d: Sym)
    ensures Step(c, d) == 0 <==> Next(c) == d as Poly
    ensures Step(0, d) == d as Poly
  {
    NextIsStep(c);
    XorLaws(Next(c), d as Poly, 0, 0);
    StepFree(0, d);
    StepSplit(c, d);
  }

  lemma StepSplit(c: Poly, d: Sym)
    ensures Step(c, d) == Xor(Step(c, 0), d as Poly)
  {
    hide Xor, Step;
    StepXor(c, 0, 0, d);
    XorLaws(c, 0, 0, 0);
    StepFree(0, d);
    ShiftedNothing(d);
    assert (0 as Sym) ^ d == d;
  }

  lemma ShiftedNothing(d: Sym)
    ensures Shifted(0, d) == d as Poly
  {}

  /** When the second error cancels the first. */
  lemma CancelExactly(a: Sym, b: Sym, d: nat)
    requires a != 0
    ensures Times(a as Poly, d) == b as Poly <==> d % 1025 == 0 && a == b
  {
    hide Times, Group, FieldMul, Constant;
    OneScaled(a);
    ScaledTimes(a, 1, a as Poly, d);
    OrderExactly(d);
    var c := Times(a as Poly, d);
    if c == b as Poly {
      ConstantGroups(Power(d));
      forall i | 0 <= i < 7 ensures Group(Power(d), i) == 0 {
        GroupOf(b, i);
        FieldZero(a, Group(Power(d), i));
      }
    }
    if d % 1025 == 0 {
      forall i | 0 <= i < 8 ensures Group(c, i) == Group(a as Poly, i) {
        assert IsScaled(a, 1, a as Poly);
      }
      SameGroups(c, a as Poly);
      GroupOf(a, 7);
      GroupOf(b, 7);
    }
  }

  /** Two wrong symbols go unnoticed exactly when 1025 divides their distance and both are wrong by the same. */
  lemma TwoErrors(v: seq<Sym>, w: seq<Sym>, p: nat, q: nat)
    requires TwoApart(v, w, p, q)
    ensures Fold(1, v) == Fold(1, w) <==> (q - p) % 1025 == 0 && v[p] ^ w[p] == v[q] ^ w[q]
  {
    hide Fold, Xor, Times;
    var a, b, d, m := v[p] ^ w[p], v[q] ^ w[q], q - p, |v| - q - 1;
    FoldLinear(1, 1, v, w);
    XorLaws(1, 1, 0, 0);
    XorLaws(Fold(1, v), Fold(1, w), 0, 0);
    SameXor(Fold(1, v), Fold(1, w));
    TwoSum(v, w, p, q);
    TwoSymbols(p, a, d, b, m);
    XorDiffers(v[p], w[p]);
    CancelExactly(a, b, d);
  }

  lemma XorDiffers(d: Sym, e: Sym)
    requires d != e
    ensures d ^ e != 0
  {}

  lemma SameXor(c: Poly, d: Poly)
    ensures Xor(c, d) == 0 <==> c == d
  {}

  lemma TwoSum(v: seq<Sym>, w: seq<Sym>, p: nat, q: nat)
    requires TwoApart(v, w, p, q)
    ensures Sum(v, w) == Zeros(p) + [v[p] ^ w[p]] + Zeros(q - p - 1) + [v[q] ^ w[q]] + Zeros(|v| - q - 1)
  {
    forall i | 0 <= i < |v| && i != p && i != q ensures v[i] ^ w[i] == 0 { assert v[i] == w[i]; }
  }

  /** In a valid word, two wrong symbols less than 1025 apart are always noticed. */
  lemma TwoErrorsRejected(v: seq<Sym>, w: seq<Sym>, p: nat, q: nat)
    requires TwoApart(v, w, p, q) && IsValid(v) && q - p < 1025
    ensures !IsValid(w)
  {
    hide Fold;
    TwoErrors(v, w, p, q);
  }
}
