/**
 Skip heights of src/chain.cpp and how many turns GetAncestor's loop takes on them.
 A walk between two heights first leaves the upper half of the smallest aligned block
 that holds both. It then starts the lower half at the top, where all low bits are ones
 and every skip clears two of them.
 */
module SkipList {
  import opened Powers

  // ---------------------------------------------------------------- skip heights

  /** n & (n - 1) for n >= 0, bit by bit. */
  function InvertLowestOne(n: nat): (r: nat)
    ensures r <= n && (0 < n ==> r < n)
  {
    if n == 0 then 0 else if n % 2 == 1 then n - 1 else 2 * InvertLowestOne(n / 2)
  }

  /** The lowest one of n is at bit k, and it is the only bit that goes. */
  lemma {:induction false} LowestOne(n: nat) returns (q: nat, k: nat)
    requires 0 < n
    ensures n == (2 * q + 1) * Pow(2, k) && InvertLowestOne(n) == (2 * q) * Pow(2, k)
  {
    if n % 2 == 1 {
      q, k := n / 2, 0;
    } else {
      q, k := LowestOne(n / 2);
      k := k + 1;
      MulTwice(2 * q + 1, Pow(2, k - 1));
      MulTwice(2 * q, Pow(2, k - 1));
    }
  }

  function GetSkipHeight(height: nat): (r: nat)
    ensures r <= height && (0 < height ==> r < height)
  {
    if height < 2 then 0
    else if height % 2 == 1 then InvertLowestOne(InvertLowestOne(height - 1)) + 1
    else InvertLowestOne(height)
  }

  // ------------------------------------------------------------------- the walk

  /** Follow the skip pointer, unless the parent's one is better. */
  predicate TakesSkip(skip: nat, skipPrev: nat, target: int) {
    skip == target || (skip > target && !(skipPrev < skip - 2 && skipPrev >= target))
  }

  function NextHeight(w: nat, t: nat): (r: nat)
    requires t < w
    ensures t <= r < w
  {
    if TakesSkip(GetSkipHeight(w), GetSkipHeight(w - 1), t) then GetSkipHeight(w) else w - 1
  }

  /** The turns of the walk from height w down to height t. */
  function Turns(w: nat, t: nat): nat
    requires t <= w
    decreases w
  {
    if w == t then 0 else 1 + Turns(NextHeight(w, t), t)
  }

  lemma {:induction false} TurnsWithin(w: nat, t: nat)
    requires t <= w
    ensures Turns(w, t) <= w - t
  {
    hide NextHeight;
    if w > t { TurnsWithin(NextHeight(w, t), t); }
  }

  // ------------------------------------------------------------ bits of a number

  function Ones(n: nat): (r: nat)
    ensures r == 0 <==> n == 0
  {
    if n == 0 then 0 else n % 2 + Ones(n / 2)
  }

  lemma {:induction false} OnesInvert(n: nat)
    requires 0 < n
    ensures Ones(n) == Ones(InvertLowestOne(n)) + 1
  {
    if n % 2 == 0 {
      OnesInvert(n / 2);
      assert InvertLowestOne(n) / 2 == InvertLowestOne(n / 2);
    } else {
      assert n > 1 ==> (n - 1) / 2 == n / 2;
    }
  }

  lemma {:induction false} OnesBound(n: nat, m: nat)
    requires n < Pow(2, m)
    ensures Ones(n) <= m
  {
    if n > 0 { OnesBound(n / 2, m - 1); }
  }

  lemma {:induction false} OnesFull(m: nat)
    ensures Ones(Pow(2, m) - 1) == m
  {
    if m > 0 { OnesFull(m - 1); }
  }

  predicate Even(n: int) { n % 2 == 0 }

  lemma EvenSum(a: int, b: int)
    requires Even(a) && Even(b)
    ensures Even(a + b) && Even(a + b - 2)
  {}

  lemma EvenForms(c: nat)
    ensures Even(4 * c) && Even(4 * c + 2) && Even(8 * c) && Even(8 * c + 2) && Even(8 * c + 4)
  {
    hide Even;
    EvenTwice(2 * c);
    EvenTwice(2 * c + 1);
    EvenTwice(4 * c);
    EvenTwice(4 * c + 1);
    EvenTwice(4 * c + 2);
  }

  lemma EvenTwice(c: int)
    ensures Even(2 * c)
  {}

  lemma Halve(n: nat) returns (h: nat)
    ensures n == 2 * h || (n == 2 * h + 1 && !Even(n))
  {
    h := n / 2;
  }

  /** The three ways an even number can end. */
  lemma LowBits(e: nat) returns (c: nat)
    requires Even(e)
    ensures e == 8 * c || e == 8 * c + 4 || e == 4 * c + 2
  {
    hide Even;
    var h := Halve(e);
    var q := Halve(h);
    if h == 2 * q {
      c := Halve(q);
    } else {
      c := q;
    }
  }

  lemma InvertTwice(c: nat)
    ensures InvertLowestOne(2 * c) == 2 * InvertLowestOne(c) && InvertLowestOne(2 * c + 1) == 2 * c
  {}

  /** The low bits that InvertLowestOne can clear. */
  lemma InvertLow(c: nat)
    ensures InvertLowestOne(4 * c + 2) == 4 * c && InvertLowestOne(8 * c + 4) == 8 * c
    ensures InvertLowestOne(8 * c) == 8 * InvertLowestOne(c)
  {
    hide InvertLowestOne;
    InvertTwice(2 * c + 1);
    InvertTwice(4 * c + 2);
    InvertTwice(c);
    InvertTwice(2 * c);
    InvertTwice(4 * c);
    assert 2 * (2 * c + 1) == 4 * c + 2 && 2 * (4 * c + 2) == 8 * c + 4;
  }

  lemma InvertEven(e: nat)
    requires Even(e)
    ensures Even(InvertLowestOne(e))
  {}

  lemma OnesTwice(c: nat, m: nat)
    requires 2 * c < Pow(2, m)
    ensures Ones(2 * c) == Ones(c) && (c == 0 || (1 <= m && c < Pow(2, m - 1)))
  {}

  /** h is a multiple of 2^m. */
  predicate Aligned(h: nat, m: nat) { m == 0 || (h % 2 == 0 && Aligned(h / 2, m - 1)) }

  lemma {:induction false} AlignedLess(h: nat, m: nat)
    requires Aligned(h, m + 1)
    ensures Aligned(h, m) && Aligned(h + Pow(2, m), m)
  {
    if m > 0 {
      AlignedLess(h / 2, m - 1);
      assert (h + Pow(2, m)) / 2 == h / 2 + Pow(2, m - 1);
    }
  }

  lemma {:induction false} AlignedZero(m: nat)
    ensures Aligned(0, m)
  {
    if m > 0 { AlignedZero(m - 1); }
  }

  /** Clearing the lowest one does not see the bits above. */
  lemma {:induction false} InvertBelow(h: nat, m: nat, r: nat)
    requires Aligned(h, m) && 0 < r < Pow(2, m)
    ensures InvertLowestOne(h + r) == h + InvertLowestOne(r)
  {
    if r % 2 == 0 {
      InvertBelow(h / 2, m - 1, r / 2);
      assert (h + r) / 2 == h / 2 + r / 2;
    }
  }

  lemma {:induction false} InvertTop(lo: nat, m: nat)
    requires Aligned(lo, m + 1)
    ensures InvertLowestOne(lo + Pow(2, m)) == lo
  {
    if m > 0 {
      InvertTop(lo / 2, m - 1);
      assert (lo + Pow(2, m)) / 2 == lo / 2 + Pow(2, m - 1);
    }
  }

  // ------------------------------------------------- the upper half of a block

  /** A block of 2^(m+1) heights from lo, with the target in its lower half. */
  ghost predicate Half(lo: nat, m: nat, t: nat) {
    1 <= m && Aligned(lo, m + 1) && lo <= t < lo + Pow(2, m)
  }

  /** The middle of the block. */
  function Middle(lo: nat, m: nat): nat { lo + Pow(2, m) }

  lemma HalfFacts(lo: nat, m: nat, t: nat)
    requires Half(lo, m, t)
    ensures Even(lo) && Even(Middle(lo, m)) && 2 <= Pow(2, m)
    ensures Aligned(Middle(lo, m), m) && InvertLowestOne(Middle(lo, m)) == lo
  {
    AlignedLess(lo, m);
    InvertTop(lo, m);
    assert Pow(2, m) == 2 * Pow(2, m - 1);
  }

  /** From an odd height a skip is taken whenever it does not go too far. */
  lemma OddNext(w: nat, t: nat)
    requires Even(w - 1) && 3 <= w && t < w
    ensures var s := InvertLowestOne(InvertLowestOne(w - 1)) + 1;
      NextHeight(w, t) == if s >= t then s else w - 1
  {
    hide InvertLowestOne;
  }

  /** From an even height the parent's skip can be better. */
  lemma EvenNext(w: nat, t: nat)
    requires Even(w) && 4 <= w && t < InvertLowestOne(w)
    ensures var s := InvertLowestOne(w); var sp := InvertLowestOne(InvertLowestOne(w - 2)) + 1;
      NextHeight(w, t) == if sp < s - 2 && sp >= t then w - 1 else s
  {
    hide InvertLowestOne;
  }

  lemma MiddleTurns(lo: nat, m: nat, t: nat)
    requires Half(lo, m, t)
    ensures Turns(Middle(lo, m), t) <= 1 + Turns(Middle(lo, m) - 1, t)
    ensures lo + 1 < t ==> Turns(Middle(lo, m), t) == 1 + Turns(Middle(lo, m) - 1, t)
  {
    hide InvertLowestOne, Aligned, Pow;
    HalfFacts(lo, m, t);
  }

  /** Where the parent of an even height skips to, by the low bits of the height. */
  lemma ParentOfEight(lo: nat, m: nat, t: nat, c: nat)
    requires Half(lo, m, t) && 0 < 8 * c < Pow(2, m)
    ensures InvertLowestOne(InvertLowestOne(Middle(lo, m) + 8 * c - 2)) == Middle(lo, m) + 8 * c - 8
  {
    hide Even, InvertLowestOne, Aligned, Pow;
    var mid := Middle(lo, m);
    HalfFacts(lo, m, t);
    InvertLow(2 * c - 1);
    InvertLow(c - 1);
    InvertBelow(mid, m, 8 * c - 2);
    InvertBelow(mid, m, 8 * c - 4);
  }

  lemma ParentOfFour(lo: nat, m: nat, t: nat, c: nat)
    requires Half(lo, m, t) && 8 * c + 4 < Pow(2, m)
    ensures InvertLowestOne(InvertLowestOne(Middle(lo, m) + 8 * c + 2)) ==
            if c == 0 then lo else Middle(lo, m) + InvertLowestOne(8 * c)
  {
    hide Even, InvertLowestOne, Aligned, Pow;
    var mid := Middle(lo, m);
    HalfFacts(lo, m, t);
    InvertLow(2 * c);
    InvertBelow(mid, m, 8 * c + 2);
    if 0 < c { InvertBelow(mid, m, 8 * c); }
  }

  lemma ParentOfTwo(lo: nat, m: nat, t: nat, c: nat)
    requires Half(lo, m, t) && 4 * c + 2 < Pow(2, m)
    ensures InvertLowestOne(InvertLowestOne(Middle(lo, m) + 4 * c)) ==
            if c == 0 then InvertLowestOne(lo)
            else if InvertLowestOne(4 * c) == 0 then lo
            else Middle(lo, m) + InvertLowestOne(InvertLowestOne(4 * c))
  {
    hide Even, InvertLowestOne, Aligned, Pow;
    var mid := Middle(lo, m);
    HalfFacts(lo, m, t);
    if 0 < c {
      InvertBelow(mid, m, 4 * c);
      if 0 < InvertLowestOne(4 * c) { InvertBelow(mid, m, InvertLowestOne(4 * c)); }
    }
  }

  /** One bit above the middle, and nothing near the low end to jump to. */
  lemma SingleTurns(lo: nat, m: nat, t: nat, e: nat)
    requires Half(lo, m, t) && Even(e) && 0 < e < Pow(2, m)
    requires InvertLowestOne(e) == 0 && lo + 1 < t
    ensures Turns(Middle(lo, m) + e, t) == 2 + Turns(Middle(lo, m) - 1, t)
  {
    hide Even, InvertLowestOne, Aligned, Pow, NextHeight;
    var mid := Middle(lo, m);
    HalfFacts(lo, m, t);
    InvertBelow(mid, m, e);
    EvenSum(mid, e);
    AtLeastTwo(e);
    EvenNext(mid + e, t);
    MiddleTurns(lo, m, t);
    SingleParent(lo, m, t, e);
  }

  lemma AtLeastTwo(e: nat)
    requires Even(e) && 0 < e
    ensures 2 <= e
  {}

  lemma SingleParent(lo: nat, m: nat, t: nat, e: nat)
    requires Half(lo, m, t) && Even(e) && 0 < e < Pow(2, m) && InvertLowestOne(e) == 0
    ensures var sp := InvertLowestOne(InvertLowestOne(Middle(lo, m) + e - 2)) + 1; sp <= lo + 1 || sp > Middle(lo, m)
  {
    hide Even, InvertLowestOne, Aligned, Pow;
    var c := LowBits(e);
    InvertLow(c);
    if e == 8 * c {
      ParentOfEight(lo, m, t, c);
    } else if e == 8 * c + 4 {
      ParentOfFour(lo, m, t, c);
    } else {
      ParentOfTwo(lo, m, t, c);
    }
  }

  lemma OddLast(lo: nat, m: nat, t: nat)
    requires Half(lo, m, t)
    ensures Turns(Middle(lo, m) + 1, t) <= 2 + Turns(Middle(lo, m) - 1, t)
    ensures lo + 1 < t ==> Turns(Middle(lo, m) + 1, t) == 2 + Turns(Middle(lo, m) - 1, t)
  {
    hide Even, InvertLowestOne, Aligned, Pow, NextHeight;
    HalfFacts(lo, m, t);
    OddNext(Middle(lo, m) + 1, t);
    if InvertLowestOne(lo) + 1 >= t {
      TurnsWithin(InvertLowestOne(lo) + 1, t);
    } else {
      MiddleTurns(lo, m, t);
    }
  }

  lemma OddSingle(lo: nat, m: nat, t: nat, e: nat)
    requires Half(lo, m, t) && Even(e) && 0 < e < Pow(2, m)
    requires InvertLowestOne(e) == 0
    ensures Turns(Middle(lo, m) + e + 1, t) <= 3 + Turns(Middle(lo, m) - 1, t)
    ensures lo + 1 < t ==> Turns(Middle(lo, m) + e + 1, t) == 3 + Turns(Middle(lo, m) - 1, t)
  {
    hide Even, InvertLowestOne, Aligned, Pow, NextHeight;
    HalfFacts(lo, m, t);
    EvenSum(Middle(lo, m), e);
    OddNext(Middle(lo, m) + e + 1, t);
    InvertBelow(Middle(lo, m), m, e);
    if lo + 1 >= t {
      TurnsWithin(lo + 1, t);
    } else {
      SingleTurns(lo, m, t, e);
    }
  }

  lemma OddPair(lo: nat, m: nat, t: nat, e: nat)
    requires Half(lo, m, t) && Even(e) && 0 < e < Pow(2, m) && 0 < InvertLowestOne(e)
    ensures var f := InvertLowestOne(InvertLowestOne(e));
      Even(f) && f < e && Ones(f) + 2 == Ones(e) && NextHeight(Middle(lo, m) + e + 1, t) == Middle(lo, m) + f + 1
  {
    hide Even, InvertLowestOne, Aligned, Pow, NextHeight, Ones;
    var f := InvertLowestOne(e);
    HalfFacts(lo, m, t);
    EvenSum(Middle(lo, m), e);
    OddNext(Middle(lo, m) + e + 1, t);
    InvertBelow(Middle(lo, m), m, e);
    InvertBelow(Middle(lo, m), m, f);
    InvertEven(e);
    InvertEven(f);
    OnesInvert(e);
    OnesInvert(f);
  }

  /** Odd heights: two bits a turn. */
  lemma {:induction false} OddTurns(lo: nat, m: nat, t: nat, e: nat)
    requires Half(lo, m, t) && Even(e) && e < Pow(2, m)
    ensures Turns(Middle(lo, m) + e + 1, t) <= (Ones(e) + 1) / 2 + 2 + Turns(Middle(lo, m) - 1, t)
    ensures lo + 1 < t ==> Turns(Middle(lo, m) + e + 1, t) == (Ones(e) + 1) / 2 + 2 + Turns(Middle(lo, m) - 1, t)
    decreases e
  {
    hide Even, InvertLowestOne, Aligned, Pow, NextHeight, Ones;
    if e == 0 {
      OddLast(lo, m, t);
    } else if InvertLowestOne(e) == 0 {
      OddSingle(lo, m, t, e);
      OnesInvert(e);
    } else {
      OddPair(lo, m, t, e);
      OddTurns(lo, m, t, InvertLowestOne(InvertLowestOne(e)));
    }
  }

  /** Even heights with the three low bits clear: one bit a turn. */
  lemma {:induction false} EightsTurns(lo: nat, m: nat, t: nat, c: nat)
    requires Half(lo, m, t) && 8 * c < Pow(2, m)
    ensures Turns(Middle(lo, m) + 8 * c, t) <= Ones(c) + 1 + Turns(Middle(lo, m) - 1, t)
    ensures lo + 1 < t ==> Turns(Middle(lo, m) + 8 * c, t) == Ones(c) + 1 + Turns(Middle(lo, m) - 1, t)
    decreases c
  {
    hide Even, InvertLowestOne, Aligned, Pow, NextHeight, Ones;
    if c == 0 {
      MiddleTurns(lo, m, t);
    } else {
      EightsNext(lo, m, t, c);
      OnesInvert(c);
      EightsTurns(lo, m, t, InvertLowestOne(c));
    }
  }

  lemma EightsNext(lo: nat, m: nat, t: nat, c: nat)
    requires Half(lo, m, t) && 0 < 8 * c < Pow(2, m)
    ensures NextHeight(Middle(lo, m) + 8 * c, t) == Middle(lo, m) + 8 * InvertLowestOne(c)
  {
    hide Even, InvertLowestOne, Aligned, Pow, NextHeight;
    var mid := Middle(lo, m);
    HalfFacts(lo, m, t);
    InvertLow(c);
    InvertBelow(mid, m, 8 * c);
    EvenForms(c);
    EvenSum(mid, 8 * c);
    EvenNext(mid + 8 * c, t);
    ParentOfEight(lo, m, t, c);
  }

  /** The most turns that the upper half of a block can take. */
  function UpperTurns(m: nat): nat { if m - 2 >= (m - 1) / 2 + 3 then m - 2 else (m - 1) / 2 + 3 }

  lemma UpperCovers(m: nat, p: nat)
    requires 2 <= m && p + 2 <= m
    ensures 3 <= UpperTurns(m) && (p + 1) / 2 + 3 <= UpperTurns(m)
  {}

  lemma UpperCoversMore(m: nat, p: nat)
    requires 1 <= m && p + 1 <= m
    ensures (p + 1) / 2 + 2 <= UpperTurns(m) && m - 2 <= UpperTurns(m) && 1 <= UpperTurns(m)
  {}

  lemma OnesEven(e: nat, m: nat)
    requires e < Pow(2, m) && Even(e) && 1 <= m
    ensures Ones(e) <= m - 1
  {
    hide Ones, Pow;
    var c := e / 2;
    OnesTwice(c, m);
    if e > 0 { OnesBound(c, m - 1); }
  }

  lemma OnesEight(c: nat, m: nat)
    requires 0 < 8 * c < Pow(2, m)
    ensures 4 <= m && Ones(c) <= m - 3
  {
    hide Ones, Pow;
    OnesTwice(4 * c, m);
    OnesTwice(2 * c, m - 1);
    OnesTwice(c, m - 2);
    OnesBound(c, m - 3);
  }

  lemma OnesFour(c: nat, m: nat)
    requires 8 * c + 4 < Pow(2, m)
    ensures 3 <= m && Ones(8 * c + 2) <= m - 2
  {
    hide Ones, Pow;
    OnesTwice(4 * c + 2, m);
    OnesTwice(2 * c + 1, m - 1);
    OnesBound(2 * c + 1, m - 2);
    OnesTwice(4 * c + 1, m);
    OneMore(2 * c);
    OneMore(c);
  }

  lemma OneMore(c: nat)
    ensures Ones(2 * c + 1) == Ones(c) + 1 && Ones(2 * c) == Ones(c)
  {}

  lemma OnesTwo(c: nat, m: nat)
    requires 4 * c + 2 < Pow(2, m)
    ensures 2 <= m && Ones(4 * c) <= m - 2
  {
    hide Ones, Pow;
    OnesTwice(2 * c + 1, m);
    OneMore(2 * c);
    OneMore(c);
    OnesBound(2 * c + 1, m - 1);
  }

  /** From an even height whose lowest one is the bit of 4. */
  lemma FourTurns(lo: nat, m: nat, t: nat, c: nat)
    requires Half(lo, m, t) && 8 * c + 4 < Pow(2, m)
    ensures Turns(Middle(lo, m) + 8 * c + 4, t) <= UpperTurns(m) + Turns(Middle(lo, m) - 1, t)
  {
    hide Even, InvertLowestOne, Aligned, Pow, NextHeight, Ones, UpperTurns;
    EvenForms(c);
    FourNext(lo, m, t, c);
    OnesFour(c, m);
    UpperCovers(m, Ones(8 * c + 2));
    OddTurns(lo, m, t, 8 * c + 2);
    MiddleTurns(lo, m, t);
  }

  lemma FourNext(lo: nat, m: nat, t: nat, c: nat)
    requires Half(lo, m, t) && 8 * c + 4 < Pow(2, m)
    ensures var r := NextHeight(Middle(lo, m) + 8 * c + 4, t);
      r == Middle(lo, m) + 8 * c + 3 || r == Middle(lo, m)
  {
    hide Even, InvertLowestOne, Aligned, Pow, NextHeight;
    var mid := Middle(lo, m);
    HalfFacts(lo, m, t);
    InvertLow(c);
    InvertBelow(mid, m, 8 * c + 4);
    EvenForms(c);
    EvenSum(mid, 8 * c + 4);
    EvenNext(mid + 8 * c + 4, t);
    ParentOfFour(lo, m, t, c);
  }

  /** From an even height whose lowest one is the bit of 2. */
  lemma TwoTurns(lo: nat, m: nat, t: nat, c: nat)
    requires Half(lo, m, t) && 4 * c + 2 < Pow(2, m)
    ensures Turns(Middle(lo, m) + 4 * c + 2, t) <= UpperTurns(m) + Turns(Middle(lo, m) - 1, t)
  {
    hide Even, InvertLowestOne, Aligned, Pow, NextHeight, Ones, UpperTurns;
    EvenForms(c);
    TwoNext(lo, m, t, c);
    OnesTwo(c, m);
    UpperCovers(m, Ones(4 * c));
    if NextHeight(Middle(lo, m) + 4 * c + 2, t) == Middle(lo, m) + 4 * c + 1 {
      OddTurns(lo, m, t, 4 * c);
    } else if c == 0 {
      MiddleTurns(lo, m, t);
    } else {
      SingleTurns(lo, m, t, 4 * c);
    }
  }

  /** Such a height keeps its own skip only when at most one more bit is set. */
  lemma TwoNext(lo: nat, m: nat, t: nat, c: nat)
    requires Half(lo, m, t) && 4 * c + 2 < Pow(2, m)
    ensures var r := NextHeight(Middle(lo, m) + 4 * c + 2, t);
      || r == Middle(lo, m) + 4 * c + 1
      || (r == Middle(lo, m) + 4 * c && (c == 0 || (InvertLowestOne(4 * c) == 0 && lo + 1 < t)))
  {
    hide Even, InvertLowestOne, Aligned, Pow, NextHeight;
    var mid := Middle(lo, m);
    HalfFacts(lo, m, t);
    InvertLow(c);
    InvertBelow(mid, m, 4 * c + 2);
    EvenForms(c);
    EvenSum(mid, 4 * c + 2);
    EvenNext(mid + 4 * c + 2, t);
    ParentOfTwo(lo, m, t, c);
    FourApart(c);
  }

  lemma FourApart(c: nat)
    ensures 0 < InvertLowestOne(4 * c) ==> InvertLowestOne(InvertLowestOne(4 * c)) <= 4 * c - 8
  {
    hide InvertLowestOne;
    var d := InvertLowestOne(c);
    InvertTwice(2 * c);
    InvertTwice(c);
    InvertTwice(2 * d);
    InvertTwice(d);
  }

  /** From any height in the upper half. */
  lemma UpperHalfTurns(lo: nat, m: nat, t: nat, w: nat)
    requires Half(lo, m, t)
    requires Middle(lo, m) <= w < Middle(lo, m) + Pow(2, m)
    ensures Turns(w, t) <= UpperTurns(m) + Turns(Middle(lo, m) - 1, t)
  {
    hide Even, Aligned, Pow, NextHeight, Ones, Turns, Half, UpperTurns, Middle;
    var e := w - Middle(lo, m);
    HalfIsLarge(lo, m, t);
    if e == 0 {
      MiddleTurns(lo, m, t);
      UpperCoversMore(m, 0);
    } else if !Even(e) {
      EvenLess(e);
      OddTurns(lo, m, t, e - 1);
      OnesEven(e - 1, m);
      UpperCoversMore(m, Ones(e - 1));
    } else {
      var c := LowBits(e);
      if e == 8 * c {
        EightsTurns(lo, m, t, c);
        OnesEight(c, m);
        UpperCoversMore(m, 0);
      } else if e == 8 * c + 4 {
        FourTurns(lo, m, t, c);
      } else {
        TwoTurns(lo, m, t, c);
      }
    }
  }

  lemma EvenLess(e: nat)
    requires !Even(e)
    ensures 0 < e && Even(e - 1)
  {}

  lemma HalfIsLarge(lo: nat, m: nat, t: nat)
    requires Half(lo, m, t)
    ensures 1 <= m
  {}

  // -------------------------------------------------------------- whole blocks

  /** The most turns from the top of a block of 2^m heights. */
  function BlockTurns(m: nat): nat { if m <= 3 then 4 else BlockTurns(m - 1) + (m - 1) / 2 + 2 }

  lemma SkipsInEight(a: nat)
    ensures GetSkipHeight(8 * a + 7) == 8 * a + 1 && GetSkipHeight(8 * a + 6) == 8 * a + 4
    ensures GetSkipHeight(8 * a + 5) <= 8 * a + 1 && GetSkipHeight(8 * a + 4) == 8 * a
    ensures GetSkipHeight(8 * a + 3) <= 8 * a + 1 && GetSkipHeight(8 * a + 2) == 8 * a
  {
    hide InvertLowestOne, GetSkipHeight;
    InvertLow(a);
    InvertLow(2 * a);
    InvertLow(2 * a + 1);
    SkipsOf(4 * a + 1);
    SkipsOf(4 * a + 2);
    SkipsOf(4 * a + 3);
  }

  lemma SkipsOf(c: nat)
    requires 0 < c
    ensures GetSkipHeight(2 * c) == InvertLowestOne(2 * c)
    ensures GetSkipHeight(2 * c + 1) == InvertLowestOne(InvertLowestOne(2 * c)) + 1
  {
    hide InvertLowestOne;
  }

  lemma EightTurns(a: nat, t: nat)
    requires 8 * a <= t <= 8 * a + 7
    ensures Turns(8 * a + 7, t) <= 4
  {
    hide GetSkipHeight;
    SkipsInEight(a);
    if t <= 8 * a + 1 {
      TurnsWithin(8 * a + 1, t);
    } else if t <= 8 * a + 3 {
      assert t < 8 * a + 3 ==> Turns(8 * a + 3, t) == 1 + Turns(8 * a + 2, t);
      assert Turns(8 * a + 4, t) == 1 + Turns(8 * a + 3, t);
      assert Turns(8 * a + 6, t) == 1 + Turns(8 * a + 4, t);
      assert Turns(8 * a + 7, t) == 1 + Turns(8 * a + 6, t);
    } else {
      TurnsWithin(8 * a + 7, t);
    }
  }

  lemma {:induction false} FromTheTop(lo: nat, m: nat, t: nat)
    requires Aligned(lo, m) && lo <= t < lo + Pow(2, m)
    ensures Turns(lo + Pow(2, m) - 1, t) <= BlockTurns(m)
    decreases m, 0
  {
    hide Turns;
    if m <= 2 {
      assert Pow(2, m) <= 4;
      TurnsWithin(lo + Pow(2, m) - 1, t);
    } else if m == 3 {
      assert Pow(2, 3) == 8;
      var a := AlignedEight(lo);
      EightTurns(a, t);
    } else {
      TopOfHalves(lo, m - 1, t);
    }
  }

  lemma {:induction false} TopOfHalves(lo: nat, h: nat, t: nat)
    requires 3 <= h && Aligned(lo, h + 1) && lo <= t < lo + Pow(2, h + 1)
    ensures Turns(lo + Pow(2, h + 1) - 1, t) <= BlockTurns(h + 1)
    decreases h, 1
  {
    hide Turns, Aligned, Ones;
    var mid := lo + Pow(2, h);
    AlignedLess(lo, h);
    if t >= mid {
      FromTheTop(mid, h, t);
    } else {
      FromTheTop(lo, h, t);
      HalfFacts(lo, h, t);
      OnesTop(h);
      EvenPower(h);
      OddTurns(lo, h, t, Pow(2, h) - 2);
    }
  }

  lemma EvenPower(h: nat)
    requires 1 <= h
    ensures Even(Pow(2, h) - 2) && Pow(2, h) >= 2 && Pow(2, h + 1) == 2 * Pow(2, h)
  {
    hide Pow, Even;
    PowDouble(h);
    PowDouble(h - 1);
    EvenTwice(Pow(2, h - 1) - 1);
  }

  lemma PowDouble(h: nat)
    ensures Pow(2, h + 1) == 2 * Pow(2, h)
  {}

  lemma OnesTop(h: nat)
    requires 1 <= h
    ensures Ones(Pow(2, h) - 2) == h - 1
  {
    hide Ones;
    OnesFull(h - 1);
    OneMore(Pow(2, h - 1) - 1);
  }

  lemma AlignedEight(lo: nat) returns (a: nat)
    requires Aligned(lo, 3)
    ensures lo == 8 * a
  {
    var b := lo / 2;
    var c := b / 2;
    assert lo == 2 * b && Aligned(b, 2);
    assert b == 2 * c && Aligned(c, 1);
    a := c / 2;
  }

  /** The most turns between two heights in one block of 2^k. */
  function StepBound(k: nat): nat { if k == 0 then 0 else UpperTurns(k - 1) + BlockTurns(k - 1) }

  lemma StepBoundGrows(k: nat)
    ensures StepBound(0) == 0 && StepBound(k) <= StepBound(k + 1)
  {}

  lemma {:induction false} TurnsInBlock(lo: nat, k: nat, w: nat, t: nat)
    requires Aligned(lo, k) && lo <= t <= w < lo + Pow(2, k)
    ensures Turns(w, t) <= StepBound(k)
    decreases k
  {
    hide Turns, Aligned, StepBound;
    if k == 0 {
      TurnsWithin(w, t);
      StepBoundGrows(0);
    } else {
      var m := k - 1;
      var mid := lo + Pow(2, m);
      AlignedLess(lo, m);
      StepBoundGrows(m);
      if w < mid {
        TurnsInBlock(lo, m, w, t);
      } else if t >= mid {
        TurnsInBlock(mid, m, w, t);
      } else {
        Across(lo, m, w, t);
      }
    }
  }

  lemma Across(lo: nat, m: nat, w: nat, t: nat)
    requires Aligned(lo, m + 1) && lo <= t < lo + Pow(2, m) <= w < lo + Pow(2, m + 1)
    ensures Turns(w, t) <= StepBound(m + 1)
  {
    hide Turns, Aligned;
    if m == 0 {
      TurnsWithin(w, t);
    } else {
      AlignedLess(lo, m);
      FromTheTop(lo, m, t);
      UpperHalfTurns(lo, m, t, w);
    }
  }

  /** A walk on heights below 2^k takes at most StepBound(k) turns. */
  lemma TurnsBounded(w: nat, t: nat, k: nat)
    requires t <= w < Pow(2, k)
    ensures Turns(w, t) <= StepBound(k)
  {
    AlignedZero(k);
    TurnsInBlock(0, k, w, t);
  }

  /** The bound is reached: from 8 below the top of 2^k heights to height 2. */
  lemma TurnsReached(k: nat)
    requires 9 <= k
    ensures 2 <= Pow(2, k) - 8 && Turns(Pow(2, k) - 8, 2) == StepBound(k)
  {
    hide Turns, Ones, Aligned, Pow;
    var m := k - 1;
    AlignedZero(k);
    TopToTwo(m);
    PowEight(m);
    EvenPower(m);
    OnesFull(m - 3);
    EightsTurns(0, m, 2, Pow(2, m - 3) - 1);
  }

  lemma PowEight(m: nat)
    requires 3 <= m
    ensures Pow(2, m) == 8 * Pow(2, m - 3)
  {
    assert Pow(2, m) == 2 * Pow(2, m - 1) && Pow(2, m - 1) == 2 * Pow(2, m - 2);
  }

  lemma {:induction false} TopToTwo(m: nat)
    requires 3 <= m
    ensures 2 <= Pow(2, m) - 1 && Turns(Pow(2, m) - 1, 2) == BlockTurns(m)
  {
    hide Ones, Aligned, Turns, Pow;
    if m == 3 {
      PowEight(3);
      PowStart();
      SevenToTwo();
    } else {
      var h := m - 1;
      TopToTwo(h);
      AlignedZero(m);
      OnesTop(h);
      EvenPower(h);
      OddTurns(0, h, 2, Pow(2, h) - 2);
    }
  }

  lemma SevenToTwo()
    ensures Turns(7, 2) == 4
  {
    hide GetSkipHeight;
    SkipsInEight(0);
    assert Turns(3, 2) == 1 && Turns(4, 2) == 2 && Turns(6, 2) == 3;
  }

  /** The bound is a quarter of the square of k and lower terms. */
  lemma StepBoundIs(k: nat)
    requires 9 <= k
    ensures StepBound(k) == k * k / 4 + 2 * k - 7
  {
    hide BlockTurns;
    BlockTurnsIs(k - 1);
  }

  /** On 2^18 heights the longest walk takes 110 turns. */
  lemma LongestWalk()
    ensures forall w: nat, t: nat | t <= w < 0x4_0000 :: Turns(w, t) <= 110
    ensures Turns(0x4_0000 - 8, 2) == 110
  {
    hide Turns, Pow, StepBound;
    StepBoundIs(18);
    PowEighteen();
    forall w: nat, t: nat | t <= w < 0x4_0000 ensures Turns(w, t) <= 110 { TurnsBounded(w, t, 18); }
    TurnsReached(18);
  }

  lemma PowEighteen()
    ensures Pow(2, 18) == 0x4_0000
  {
    hide Pow;
    PowEight(18);
    PowEight(15);
    PowEight(12);
    PowEight(9);
    PowEight(6);
    PowEight(3);
    PowStart();
  }

  lemma PowStart()
    ensures Pow(2, 0) == 1
  {}

  lemma {:induction false} BlockTurnsIs(m: nat)
    requires 3 <= m
    ensures BlockTurns(m) == (m + 1) * (m + 1) / 4 + m - 3
  {
    if m > 3 {
      BlockTurnsIs(m - 1);
      QuarterSquare(m);
    }
  }

  lemma QuarterSquare(m: nat)
    ensures (m + 1) * (m + 1) / 4 == m * m / 4 + (m + 1) / 2
  {
    var j := Halve(m);
    SquareEven(j);
    SquareOdd(j);
    if m == 2 * j {
      Quarter(j * j);
      Quarter(j * j + j);
      HalfOf(j);
    } else {
      SquareEven(j + 1);
      MulDistrib(j, 1, j + 1);
      Quarter(j * j + j);
      Quarter((j + 1) * (j + 1));
      HalfOf(j + 1);
    }
  }

  lemma Quarter(x: int)
    ensures 4 * x / 4 == x && (4 * x + 1) / 4 == x
  {}

  lemma HalfOf(j: int)
    ensures 2 * j / 2 == j && (2 * j + 1) / 2 == j
  {}

  lemma SquareEven(j: nat)
    ensures (2 * j) * (2 * j) == 4 * (j * j)
  {}

  lemma SquareOdd(j: nat)
    ensures (2 * j + 1) * (2 * j + 1) == 4 * (j * j) + 4 * j + 1
  {}
}
