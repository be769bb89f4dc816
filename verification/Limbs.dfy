/**
 Sums over 32-bit limbs, least significant first: what a carry, a column, a row
 and a shifted limb are worth.
 */
module Limbs {

  import opened Powers
  import opened Digits

  const BASE: nat := 0x1_0000_0000
  const WIDTH: nat := 8
  const U64: nat := 0x1_0000_0000_0000_0000

  /** 2^256. */
  function Range(): (r: nat)
    ensures 0 < r
  {
    Pow(BASE, WIDTH)
  }

  /** n & 0xffffffff */
  function Low(n: nat): (r: nat)
    ensures r < BASE && (n < BASE ==> r == n)
  {
    n % BASE
  }

  /** n >> 32 */
  function High(n: nat): (r: nat)
    ensures (n < 2 * BASE ==> r <= 1) && (n < U64 ==> r < BASE)
  {
    n / BASE
  }

  function Times(x: nat, y: nat): nat { x * y }

  lemma TimesSum(f: nat, x: nat, y: nat)
    ensures Times(f, x + y) == Times(f, x) + Times(f, y) && Times(f, 0) == 0
  {
    MulDistrib(x, y, f);
  }

  /** What digit d is worth in column i. */
  function Col(d: nat, i: nat): nat { d * Pow(BASE, i) }

  lemma ColSum(x: nat, y: nat, i: nat)
    ensures Col(x + y, i) == Col(x, i) + Col(y, i) && Col(0, i) == 0
  {
    MulDistrib(x, y, Pow(BASE, i));
  }

  /** The digit kept and the carry passed on make up the column. */
  lemma Column(n: nat, i: nat)
    ensures Col(Low(n), i) + Col(High(n), i + 1) == Col(n, i)
  {
    var p := Pow(BASE, i);
    DivModLaw(n, BASE);
    MulAssoc(n / BASE, BASE, p);
    MulDistrib((n / BASE) * BASE, n % BASE, p);
  }

  /** The value of the lowest i limbs. */
  ghost function Sum(s: seq<nat>, i: nat): nat
    requires i <= |s|
  {
    Val(BASE, s[..i])
  }

  lemma SumNext(s: seq<nat>, i: nat)
    requires i < |s|
    ensures Sum(s, i + 1) == Sum(s, i) + Col(s[i], i)
  {
    ValNext(BASE, s, i);
  }

  lemma SumEnds(s: seq<nat>)
    ensures Sum(s, 0) == 0 && Sum(s, |s|) == Val(BASE, s)
  {
    assert s[..|s|] == s;
  }

  /** Changing a limb beyond the lowest i leaves their value alone. */
  lemma SumAbove(s: seq<nat>, i: nat, j: nat, v: nat)
    requires i <= j < |s|
    ensures Sum(s[j := v], i) == Sum(s, i)
  {
    assert s[j := v][..i] == s[..i];
  }

  /** A sum with the carry out of the top column dropped is the sum modulo 2^256. */
  lemma DropCarry(s: seq<nat>, carry: nat, sum: nat)
    requires |s| == WIDTH && Below(BASE, s) && Val(BASE, s) + Col(carry, WIDTH) == sum
    ensures Val(BASE, s) == sum % Range()
  {
    hide Pow, Val;
    ValBound(BASE, s);
    DivModUnique(sum, Range(), carry, Val(BASE, s));
  }

  /** Limbs above the lowest i that agree contribute the same. */
  lemma SameAbove(s: seq<nat>, t: seq<nat>, i: nat)
    requires i <= |s| == |t| && s[i..] == t[i..]
    ensures Val(BASE, s) + Sum(t, i) == Val(BASE, t) + Sum(s, i)
  {
    hide Val, Pow;
    ValSplit(BASE, s, i);
    ValSplit(BASE, t, i);
  }

  lemma ColMul(x: nat, y: nat, i: nat, j: nat)
    ensures Col(Times(x, y), i + j) == Times(Col(x, j), Col(y, i))
  {
    hide Pow;
    PowAdd(BASE, i, j);
    var p, q := Pow(BASE, i), Pow(BASE, j);
    assert (x * y) * (p * q) == (x * q) * (y * p);
  }

  /** Three limbs and a product of two fit the 64-bit accumulator. */
  lemma ProductFits(x: nat, y: nat, c: nat, d: nat)
    requires x < BASE && y < BASE && c < BASE && d < BASE
    ensures c + d + Times(x, y) < U64
  {
    MulMono(x, BASE - 1, y);
    MulMono(y, BASE - 1, BASE - 1);
  }

  lemma ColBase(i: nat)
    ensures Col(1, i) == Pow(BASE, i) && Col(BASE, i) == Pow(BASE, i + 1)
  {}

  lemma {:induction false} Complement(s: seq<nat>, t: seq<nat>, i: nat)
    requires i <= |s| == |t| && forall j | 0 <= j < i :: t[j] == BASE - 1 - s[j] && s[j] < BASE
    ensures Sum(s, i) + Sum(t, i) + 1 == Pow(BASE, i)
  {
    hide Sum, Col, Pow;
    if i == 0 {
      SumEnds(s);
      SumEnds(t);
      OneCol();
    } else {
      Complement(s, t, i - 1);
      SumNext(s, i - 1);
      SumNext(t, i - 1);
      ColSum(s[i - 1], t[i - 1], i - 1);
      ColSum(BASE - 1, 1, i - 1);
      ColBase(i - 1);
    }
  }

  /** Two's complement: the complement plus one is the negation. */
  lemma NegationMod(v: nat, c: nat)
    requires v + c + 1 == Range()
    ensures (c + 1) % Range() == (Range() - v) % Range()
  {}

  lemma SubMod(a: nat, b: nat)
    requires a < Range() && b < Range()
    ensures (a + (Range() - b) % Range()) % Range() == if b <= a then a - b else a - b + Range()
  {
    hide Range;
    var m := Range();
    if b == 0 {
      DivModUnique(m - b, m, 1, 0);
      DivModUnique(a, m, 0, a);
    } else {
      DivModUnique(m - b, m, 0, m - b);
      if b <= a { DivModUnique(a + m - b, m, 1, a - b); } else { DivModUnique(a + m - b, m, 0, a - b + m); }
    }
  }

  lemma Small(s: seq<nat>, b: nat)
    requires |s| == WIDTH && b < U64 && s[0] == Low(b) && s[1] == High(b) && forall i | 2 <= i < WIDTH :: s[i] == 0
    ensures Val(BASE, s) == b
  {
    hide Pow, Val;
    ValSplit(BASE, s, 2);
    ValZero(BASE, s[2..]);
    SumEnds(s);
    SumNext(s, 0);
    SumNext(s, 1);
    Column(b, 0);
    OneCol();
    MulDistrib(1, 0, b);
    assert Col(b, 0) == b * Pow(BASE, 0);
  }

  lemma OneCol()
    ensures Pow(BASE, 0) == 1 && Col(1, 0) == 1
  {}

  lemma LowOrWrap(n: nat)
    requires 0 < n <= BASE
    ensures Low(n) != 0 ==> High(n) == 0
    ensures Low(n) == 0 ==> High(n) == 1
  {}

  lemma ColScale(f: nat, x: nat, i: nat)
    ensures Col(Times(f, x), i) == Times(f, Col(x, i))
  {
    MulAssoc(f, x, Pow(BASE, i));
  }

  // ------------------------------------------------------------------- products

  /** One inner step: the column of a partial product. */
  lemma RowStep(acc: seq<nat>, acc0: seq<nat>, b: seq<nat>, d: nat, j: nat, i: nat, carry: nat, n: nat)
    requires |acc| == |acc0| && i + j < |acc| && i < |b| && n == carry + acc0[i + j] + Times(d, b[i])
    requires acc[i + j] == Low(n)
    requires Sum(acc, i + j) + Col(carry, i + j) == Sum(acc0, i + j) + Times(Col(d, j), Sum(b, i))
    ensures Sum(acc, i + j + 1) + Col(High(n), i + j + 1) == Sum(acc0, i + j + 1) + Times(Col(d, j), Sum(b, i + 1))
  {
    hide Sum, Col, Low, High, Times;
    SumNext(acc, i + j);
    SumNext(acc0, i + j);
    SumNext(b, i);
    Column(n, i + j);
    ColSum(carry + acc0[i + j], Times(d, b[i]), i + j);
    ColSum(carry, acc0[i + j], i + j);
    ColMul(d, b[i], i, j);
    TimesSum(Col(d, j), Sum(b, i), Col(b[i], i));
  }

  /** What a row leaves out lies beyond the top column. */
  lemma RowRest(b: seq<nat>, d: nat, j: nat) returns (x: nat)
    requires |b| == WIDTH && j <= WIDTH
    ensures Times(Col(d, j), Val(BASE, b)) == Times(Col(d, j), Sum(b, WIDTH - j)) + Col(x, WIDTH)
  {
    hide Pow, Val;
    var m := WIDTH - j;
    var hi := Val(BASE, b[m..]);
    ValSplit(BASE, b, m);
    x := d * hi;
    PowAdd(BASE, j, m);
    var p, q := Pow(BASE, j), Pow(BASE, m);
    assert (d * p) * (q * hi) == (d * hi) * (p * q);
    MulDistrib(Sum(b, m), q * hi, d * p);
  }

  /** Distributing one more limb of the left factor over the right one. */
  lemma RowTotal(a: seq<nat>, j: nat, v: nat)
    requires j < |a|
    ensures Times(Sum(a, j + 1), v) == Times(Sum(a, j), v) + Times(Col(a[j], j), v)
  {
    hide Sum, Col;
    SumNext(a, j);
    MulDistrib(Sum(a, j), Col(a[j], j), v);
  }

  // --------------------------------------------------------------- bitwise or

  function Or(x: nat, y: nat): nat
    decreases x + y
  {
    if x == 0 && y == 0 then 0 else (if x % 2 == 1 || y % 2 == 1 then 1 else 0) + 2 * Or(x / 2, y / 2)
  }

  /** Low and high bits are or-ed separately. */
  lemma {:induction false} OrSplit(a: nat, b: nat, y: nat, z: nat, s: nat)
    requires a < Pow(2, s) && b < Pow(2, s)
    ensures Or(a + y * Pow(2, s), b + z * Pow(2, s)) == Or(a, b) + Or(y, z) * Pow(2, s)
    decreases s
  {
    hide Or, Pow;
    OrZero(0);
    if s == 0 {
      NoBits();
      MulDistrib(y, z, 1);
    } else {
      var h, o := Pow(2, s - 1), Or(y, z);
      PowTwice(s - 1);
      OrSplit(a / 2, b / 2, y, z, s - 1);
      MulTwice(y, h);
      MulTwice(z, h);
      MulTwice(o, h);
      OrHalf(a, b, y * h, z * h);
      OrHalf(a, b, 0, 0);
    }
  }

  lemma OrHalf(a: nat, b: nat, y: nat, z: nat)
    ensures Or(a + 2 * y, b + 2 * z) == (if a % 2 == 1 || b % 2 == 1 then 1 else 0) + 2 * Or(a / 2 + y, b / 2 + z)
  {
    assert (a + 2 * y) / 2 == a / 2 + y && (b + 2 * z) / 2 == b / 2 + z;
    assert Or(0, 0) == 0;
  }

  /** Bits that do not overlap add up. */
  lemma OrDisjoint(x: nat, y: nat, s: nat)
    requires x < Pow(2, s)
    ensures Or(x, y * Pow(2, s)) == x + y * Pow(2, s)
  {
    hide Or, Pow;
    OrSplit(x, 0, 0, y, s);
    OrZero(x);
    OrZero(y);
    assert 0 * Pow(2, s) == 0;
  }

  lemma {:induction false} OrZero(y: nat)
    ensures Or(0, y) == y && Or(y, 0) == y
  {
    if y > 0 { OrZero(y / 2); }
  }

  // -------------------------------------------------------------------- shifts

  lemma Base2(i: nat)
    ensures Pow(2, 32) == BASE && Pow(BASE, i) == Pow(2, 32 * i)
  {
    PowAdd(2, 16, 16);
    PowAdd(2, 8, 8);
    PowMul(2, 32, i);
  }

  /** A 32-bit word shifted right, the bits that this cuts off, and a word shifted left. */
  function Shr(x: nat, s: nat): nat { x / Pow(2, s) }
  function Cut(x: nat, s: nat): nat { x % Pow(2, s) }
  function Shl(x: nat, s: nat): (r: nat)
    ensures r < BASE
  {
    Low(Times(x, Pow(2, s)))
  }

  lemma ShlIsLow(x: nat, s: nat)
    ensures Shl(x, s) == Low(Times(x, Pow(2, s)))
  {}

  /** Multiplying a word by p, where p * q is the base: the bits that leave it, and those that stay. */
  lemma SplitWord(x: nat, p: nat, q: nat, base: nat)
    requires x < base == q * p && 0 < p && 0 < q
    ensures (x * p) / base == x / q < p && (x * p) % base == (x % q) * p
  {
    DivModLaw(x, q);
    DivBound(x, q, p);
    var h, l := x / q, x % q;
    MulStrict(l, q, p);
    MulDistrib(h * q, l, p);
    MulAssoc(h, q, p);
    DivModUnique(x * p, base, h, l * p);
  }

  /** x << s in a 32-bit word, and the bits that leave it. */
  lemma SplitLeft(x: nat, s: nat)
    requires x < BASE && s <= 32
    ensures Shr(x, 32 - s) == High(Times(x, Pow(2, s))) < Pow(2, s) <= BASE
    ensures Shl(x, s) == Cut(x, 32 - s) * Pow(2, s)
  {
    hide Pow;
    Base2(0);
    PowAdd(2, 32 - s, s);
    PowMono(2, s, 32);
    SplitWord(x, Pow(2, s), Pow(2, 32 - s), BASE);
  }

  /** Or-ing a shifted word onto the bits that the word below it pushed out. */
  lemma OrFits(prev: nat, x: nat, s: nat)
    requires prev < Pow(2, s) && x < BASE && s <= 32
    ensures Or(prev, Shl(x, s)) == prev + Shl(x, s) < BASE
  {
    hide Pow, Shl, Times;
    Base2(0);
    SplitLeft(x, s);
    var p, q, l := Pow(2, s), Pow(2, 32 - s), x % Pow(2, 32 - s);
    OrDisjoint(prev, l, s);
    PowAdd(2, 32 - s, s);
    MulMono(l + 1, q, p);
    MulDistrib(l, 1, p);
  }

  /** Adding d to limb j adds its worth to the number. */
  lemma BumpLimb(s: seq<nat>, j: nat, d: nat)
    requires j < |s|
    ensures Val(BASE, s[j := s[j] + d]) == Val(BASE, s) + Col(d, j)
  {
    hide Val, Pow;
    ValSet(BASE, s, j, s[j] + d);
  }

  /** The factor of a shift by 32 * k + s bits. */
  lemma ShiftFactor(k: nat, s: nat)
    ensures Pow(2, 32 * k + s) == Pow(BASE, k) * Pow(2, s)
  {
    hide Pow;
    Base2(k);
    PowAdd(2, 32 * k, s);
  }

  /** A limb shifted left by k limbs and s bits: what lands in its column, and in the next one. */
  lemma ShiftedLimb(x: nat, i: nat, k: nat, s: nat)
    ensures var n := Times(x, Pow(2, s));
      Times(Col(x, i), Pow(2, 32 * k + s)) == Col(n, i + k) == Col(Low(n), i + k) + Col(High(n), i + k + 1)
  {
    hide Pow, Low, High;
    var p, q, f := Pow(BASE, i), Pow(BASE, k), Pow(2, s);
    ShiftFactor(k, s);
    PowAdd(BASE, i, k);
    assert (x * p) * (q * f) == (x * f) * (p * q);
    Column(Times(x, f), i + k);
  }

  /** A column beyond the top one is a multiple of 2^256. */
  lemma BeyondTop(n: nat, j: nat)
    requires WIDTH <= j
    ensures Col(n, j) == Col(n * Pow(BASE, j - WIDTH), WIDTH)
  {
    hide Pow;
    PowAdd(BASE, j - WIDTH, WIDTH);
    MulAssoc(n, Pow(BASE, j - WIDTH), Pow(BASE, WIDTH));
  }

  /** A limb shifted right: its high part in one column and its low part in the one below. */
  lemma RightLimb(x: nat, i: nat, k: nat, s: nat)
    requires x < BASE && s < 32 && k < i
    ensures Times(Col(Shr(x, s), i - k) + Col(Shl(x, 32 - s), i - k - 1), Pow(2, 32 * k + s)) == Col(x, i)
  {
    hide Pow, Shl;
    SplitLeft(x, 32 - s);
    RightPowers(i, k, s);
    var f, h, l := Pow(2, s), x / Pow(2, s), x % Pow(2, s);
    DivModLaw(x, f);
    RightIdentity(x, h, l, f, Pow(2, 32 - s), Pow(BASE, k), Pow(BASE, i - k), Pow(BASE, i - k - 1), Pow(BASE, i));
  }

  lemma RightPowers(i: nat, k: nat, s: nat)
    requires s < 32 && k < i
    ensures Pow(2, 32 - s) * Pow(2, s) == BASE && 32 - (32 - s) == s
    ensures Pow(BASE, i - k) * Pow(BASE, k) == Pow(BASE, i)
    ensures Pow(BASE, i - k - 1) * (Pow(BASE, k) * BASE) == Pow(BASE, i)
    ensures Pow(2, 32 * k + s) == Pow(BASE, k) * Pow(2, s)
  {
    hide Pow;
    Base2(0);
    PowAdd(2, 32 - s, s);
    ShiftFactor(k, s);
    PowAdd(BASE, i - k, k);
    PowAdd(BASE, i - k - 1, k + 1);
    PowAdd(BASE, k, 1);
    OnePow();
  }

  lemma OnePow() ensures Pow(BASE, 1) == BASE {}

  lemma RightIdentity(x: nat, h: nat, l: nat, f: nat, g: nat, q: nat, r: nat, r': nat, p: nat)
    requires x == h * f + l && g * f == BASE && r * q == p && r' * (q * BASE) == p
    ensures (h * r + (l * g) * r') * (q * f) == x * p
  {
    assert (h * r) * (q * f) == (h * f) * (r * q);
    assert ((l * g) * r') * (q * f) == l * (r' * (q * (g * f)));
    MulDistrib(h * r, (l * g) * r', q * f);
    MulDistrib(h * f, l, p);
  }

  /** The limb the cut goes through. */
  lemma CutLimb(x: nat, k: nat, s: nat)
    ensures Times(Col(Shr(x, s), 0), Pow(2, 32 * k + s)) + Col(Cut(x, s), k) == Col(x, k)
  {
    hide Pow;
    ShiftFactor(k, s);
    OneCol();
    var f, q, h, l := Pow(2, s), Pow(BASE, k), x / Pow(2, s), x % Pow(2, s);
    DivModLaw(x, f);
    assert (h * 1) * (q * f) == (h * f) * q;
    MulDistrib(h * f, l, q);
  }

  lemma TimesBelow(x: nat, y: nat, f: nat)
    ensures Times(x + y, f) == Times(x, f) + Times(y, f) && Times(0, f) == 0
  {
    MulDistrib(x, y, f);
  }

  // ------------------------------------------------------- comparison and length

  /** Limbs that differ make different numbers. */
  lemma Differ(s: seq<nat>, t: seq<nat>, i: nat)
    requires |s| == |t| && Below(BASE, s) && Below(BASE, t) && i < |s| && s[i] != t[i]
    ensures Val(BASE, s) != Val(BASE, t)
  {
    if Val(BASE, s) == Val(BASE, t) { ValInjective(BASE, s, t); }
  }

  /** n is the length of v in binary. */
  predicate IsBitLength(v: nat, n: nat) {
    v < Pow(2, n) && (n > 0 ==> Pow(2, n - 1) <= v)
  }

  predicate HasBit(x: nat, n: nat) { x / Pow(2, n) % 2 == 1 }

  lemma TopBit(x: nat, n: nat)
    requires x < Pow(2, n + 1)
    ensures HasBit(x, n) <==> Pow(2, n) <= x
  {
    var p := Pow(2, n);
    if x < p { DivModUnique(x, p, 0, x); } else { DivModUnique(x, p, 1, x - p); }
  }

  lemma OneBit(x: nat)
    requires 0 < x < Pow(2, 1)
    ensures Pow(2, 0) <= x < Pow(2, 1)
  {}

  lemma BitLengthAt(s: seq<nat>, pos: nat, n: nat)
    requires pos < |s| && Below(BASE, s) && n < 32 && Pow(2, n) <= s[pos] < Pow(2, n + 1)
    requires forall j | pos < j < |s| :: s[j] == 0
    ensures IsBitLength(Val(BASE, s), 32 * pos + n + 1)
  {
    hide Pow, Val;
    var p := Pow(BASE, pos);
    ValSplit(BASE, s, pos + 1);
    ValZero(BASE, s[pos + 1..]);
    ValNext(BASE, s, pos);
    ValBound(BASE, s[..pos]);
    Base2(pos);
    PowAdd(2, n, 32 * pos);
    PowAdd(2, n + 1, 32 * pos);
    MulMono(Pow(2, n), s[pos], p);
    MulMono(s[pos] + 1, Pow(2, n + 1), p);
    MulDistrib(s[pos], 1, p);
  }

  /** Without a bit shift nothing leaves the word. */
  lemma NoSpill(x: nat)
    requires x < BASE
    ensures High(Times(x, Pow(2, 0))) == 0 && Pow(2, 0) == 1
  {}

  lemma AllSpill(x: nat)
    requires x < BASE
    ensures Shl(x, 32) == 0
  {
    hide Pow, Shl;
    SplitLeft(x, 32);
    NoBits();
  }

  lemma NoBits() ensures Pow(2, 0) == 1 {}

  lemma WordRight(x: nat, s: nat)
    requires x < BASE && s < 32
    ensures Shr(x, s) < Pow(2, 32 - s) <= BASE
  {
    hide Pow;
    Base2(0);
    PowAdd(2, 32 - s, s);
    DivBound(x, Pow(2, s), Pow(2, 32 - s));
    PowMono(2, 32 - s, 32);
  }

  lemma CutBelow(x: nat, s: nat)
    ensures Cut(x, s) < Pow(2, s)
  {}

  /** What a right shift cuts off is less than its factor. */
  lemma CutOff(a: seq<nat>, k: nat, s: nat, low: nat)
    requires |a| == WIDTH && Below(BASE, a)
    requires low == if WIDTH <= k then Sum(a, WIDTH) else Sum(a, k) + Col(Cut(a[k], s), k)
    ensures low < Pow(2, 32 * k + s)
  {
    hide Pow, Val, Cut;
    ShiftFactor(k, s);
    var q, f := Pow(BASE, k), Pow(2, s);
    if WIDTH <= k {
      ValBound(BASE, a[..WIDTH]);
      PowMono(BASE, WIDTH, k);
      MulMono(1, f, q);
    } else {
      ValBound(BASE, a[..k]);
      var c := Cut(a[k], s);
      CutBelow(a[k], s);
      MulMono(c + 1, f, q);
      MulDistrib(c, 1, q);
    }
  }

  lemma Quotient(v: nat, f: nat, q: nat, r: nat)
    requires Times(q, f) + r == v && r < f
    ensures v / f == q && v % f == r
  {
    DivModUnique(v, f, q, r);
  }

  // ------------------------------------------------------------------- division

  /** No bit below position n is set. */
  predicate LowClear(s: seq<nat>, n: nat) {
    forall m | 0 <= m < |s| ::
      (32 * (m + 1) <= n ==> s[m] == 0) && (32 * m < n < 32 * (m + 1) ==> s[m] % Pow(2, n - 32 * m) == 0)
  }

  lemma AllClear(s: seq<nat>, n: nat)
    requires forall m | 0 <= m < |s| :: s[m] == 0
    ensures LowClear(s, n)
  {}

  lemma {:induction false} OrComm(x: nat, y: nat)
    ensures Or(x, y) == Or(y, x)
    decreases x + y
  {
    if x != 0 || y != 0 { OrComm(x / 2, y / 2); }
  }

  lemma MultipleOf(x: nat, q: nat) returns (y: nat)
    requires 0 < q && x % q == 0
    ensures x == y * q
  {
    DivModLaw(x, q);
    y := x / q;
  }

  lemma MultipleMod(y: nat, p: nat)
    requires 0 < p
    ensures (y * p) % p == 0 && (y * p + p) % p == 0
  {
    DivModUnique(y * p, p, y, 0);
    MulDistrib(y, 1, p);
    DivModUnique(y * p + p, p, y + 1, 0);
  }

  lemma OrMultiple(y: nat, s: nat)
    requires y * Pow(2, s + 1) < BASE && s < 32
    ensures var x, p := y * Pow(2, s + 1), Pow(2, s);
      Or(x, p) == x + p < BASE && (x + p) % p == 0 && x % p == 0
  {
    hide Pow, Or;
    var x, p, q := y * Pow(2, s + 1), Pow(2, s), Pow(2, s + 1);
    PowTwice(s);
    OrComm(x, p);
    OrDisjoint(p, y, s + 1);
    MulAssoc(y, 2, p);
    MultipleMod(y * 2, p);
    RoomForBit(x, y, s);
  }

  /** Setting bit s of a word that has no bit up to s. */
  lemma OrBit(x: nat, s: nat)
    requires x < BASE && s < 32 && (s < 31 ==> x % Pow(2, s + 1) == 0) && (s == 31 ==> x == 0)
    ensures Or(x, Pow(2, s)) == x + Pow(2, s) < BASE && (x + Pow(2, s)) % Pow(2, s) == 0 && x % Pow(2, s) == 0
  {
    hide Pow, Or;
    var y := 0;
    if s < 31 { y := MultipleOf(x, Pow(2, s + 1)); }
    OrMultiple(y, s);
  }

  lemma PowTwice(s: nat)
    ensures Pow(2, s + 1) == 2 * Pow(2, s)
  {}

  lemma RoomForBit(x: nat, y: nat, s: nat)
    requires x == y * Pow(2, s + 1) && x < BASE && s < 32
    ensures x + Pow(2, s) < BASE
  {
    hide Pow;
    Base2(0);
    PowTwice(s);
    var q, r := Pow(2, s + 1), Pow(2, 31 - s);
    PowAdd(2, 31 - s, s + 1);
    if r <= y { MulMono(r, y, q); }
    MulMono(y + 1, r, q);
    MulDistrib(y, 1, q);
  }

  lemma BitInLimb(s: seq<nat>, shift: nat)
    requires |s| == WIDTH && Below(BASE, s) && shift < 256 && LowClear(s, shift + 1)
    ensures var l, p := shift / 32, Pow(2, shift % 32);
      && Or(s[l], p) == s[l] + p < BASE && LowClear(s[l := s[l] + p], shift)
      && Col(p, l) == Pow(2, shift)
  {
    hide Or, Pow;
    var l, b := shift / 32, shift % 32;
    assert shift + 1 - 32 * l == b + 1;
    OrBit(s[l], b);
    Base2(l);
    PowAdd(2, b, 32 * l);
    assert shift - 32 * l == b;
  }

  lemma ClearLess(s: seq<nat>, shift: nat)
    requires |s| == WIDTH && Below(BASE, s) && shift < 256 && LowClear(s, shift + 1)
    ensures LowClear(s, shift)
  {
    hide Or, Pow;
    var l, b := shift / 32, shift % 32;
    assert shift + 1 - 32 * l == b + 1 && shift - 32 * l == b;
    OrBit(s[l], b);
  }

  lemma BitLengthZero(v: nat, n: nat)
    requires IsBitLength(v, n)
    ensures n == 0 <==> v == 0
  {}

  lemma BitLengthLess(v: nat, n: nat, w: nat, m: nat)
    requires IsBitLength(v, n) && IsBitLength(w, m) && n < m
    ensures v < w && v / w == 0
  {
    hide Pow;
    PowMono(2, n, m - 1);
    DivModUnique(v, w, 0, v);
  }

  /** Shifting the divisor up to the length of the dividend loses nothing, and twice it exceeds the dividend. */
  lemma Aligned(v: nat, n: nat, w: nat, m: nat)
    requires IsBitLength(v, n) && IsBitLength(w, m) && 0 < m <= n <= 256
    ensures Times(w, Pow(2, n - m)) % Range() == Times(w, Pow(2, n - m))
    ensures v < Times(w, Pow(2, n - m + 1))
  {
    hide Pow;
    PowAdd(2, m, n - m);
    MulStrict(w, Pow(2, m), Pow(2, n - m));
    PowMono(2, n, 256);
    Base2(WIDTH);
    DivModUnique(Times(w, Pow(2, n - m)), Range(), 0, Times(w, Pow(2, n - m)));
    PowAdd(2, m - 1, n - m + 1);
    MulMono(Pow(2, m - 1), w, Pow(2, n - m + 1));
  }

  lemma Doubling(d: nat, shift: nat)
    ensures Times(d, Pow(2, shift + 1)) == 2 * Times(d, Pow(2, shift))
  {
    PowTwice(shift);
    assert d * (2 * Pow(2, shift)) == 2 * (d * Pow(2, shift));
  }

  lemma HalfShift(d: nat, shift: nat)
    ensures Pow(2, 1) == 2 && (0 < shift ==> Times(d, Pow(2, shift)) / 2 == Times(d, Pow(2, shift - 1)))
  {
    if 0 < shift { Doubling(d, shift - 1); }
  }

  lemma TimesSwap(x: nat, y: nat)
    ensures Times(x, y) == Times(y, x)
  {}

  lemma UnitPower(d: nat)
    ensures Times(d, Pow(2, 0)) == d
  {}
}
