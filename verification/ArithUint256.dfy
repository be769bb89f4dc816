/**
 The 256-bit unsigned integers of src/arith_uint256.h and src/arith_uint256.cpp:
 eight 32-bit limbs, least significant first, rewritten in place by carry and
 shift loops. Every operation is proved against arithmetic on the naturals.
 */
module ArithUint256 {

  import opened Powers
  import opened Digits
  import opened Limbs
  import Compact
  import opened Basics

  class BaseUint {
    const pn: array<nat>

    ghost predicate Valid() reads pn { pn.Length == WIDTH && Below(BASE, pn[..]) }

    ghost function Value(): nat reads pn { Val(BASE, pn[..]) }

    /** operator+= */
    method AddAssign(b: BaseUint)
      requires Valid() && b.Valid()
      modifies pn
      ensures Valid() && Value() == (old(Value()) + old(b.Value())) % Range()
    {
      hide Val, Range, Low, High, Col, Sum;
      ghost var a0, b0, cur := pn[..], b.pn[..], pn[..];
      var carry: nat := 0;
      SumEnds(a0); SumEnds(b0); SumEnds(cur); ColSum(0, 0, 0);
      for i := 0 to WIDTH
        invariant pn[..] == cur && |cur| == WIDTH && Below(BASE, cur) && carry <= 1
        invariant forall j | i <= j < WIDTH :: pn[j] == a0[j] && b.pn[j] == b0[j]
        invariant Sum(cur, i) + Col(carry, i) == Sum(a0, i) + Sum(b0, i)
      {
        var n := carry + pn[i] + b.pn[i];
        assert n < U64;
        pn[i] := Low(n);
        SumAbove(cur, i, i, Low(n));
        cur := cur[i := Low(n)];
        SumNext(cur, i); SumNext(a0, i); SumNext(b0, i);
        Column(n, i);
        ColSum(carry + a0[i], b0[i], i);
        ColSum(carry, a0[i], i);
        carry := High(n);
      }
      SumEnds(cur);
      DropCarry(cur, carry, Val(BASE, a0) + Val(BASE, b0));
    }

    /** From a 64-bit number. */
    constructor (b: nat)
      requires b < U64
      ensures Valid() && Value() == b && fresh(pn)
    {
      pn := new nat[WIDTH](i => 0);
      new;
      pn[0] := Low(b);
      pn[1] := High(b);
      Small(pn[..], b);
    }

    constructor Copy(b: BaseUint)
      requires b.Valid()
      ensures Valid() && Value() == b.Value() && pn[..] == b.pn[..] && fresh(pn)
    {
      pn := new nat[WIDTH];
      new;
      for i := 0 to WIDTH
        invariant forall j | 0 <= j < i :: pn[j] == b.pn[j]
      {
        pn[i] := b.pn[i];
      }
      assert pn[..] == b.pn[..];
    }

    /** operator~ */
    method Not() returns (r: BaseUint)
      requires Valid()
      ensures r.Valid() && fresh(r) && fresh(r.pn) && r.Value() == Range() - 1 - Value()
    {
      hide Val, Sum;
      r := new BaseUint(0);
      for i := 0 to WIDTH
        invariant r.Valid() && forall j | 0 <= j < i :: r.pn[j] == BASE - 1 - pn[j]
      {
        r.pn[i] := BASE - 1 - pn[i];
      }
      SumEnds(pn[..]);
      SumEnds(r.pn[..]);
      Complement(pn[..], r.pn[..], WIDTH);
    }

    /** operator++ */
    method Increment()
      requires Valid()
      modifies pn
      ensures Valid() && Value() == (old(Value()) + 1) % Range()
    {
      hide Val, Range, Low, High, Col, Sum;
      ghost var a0, cur := pn[..], pn[..];
      var i := 0;
      SumEnds(a0);
      OneCol();
      while i < WIDTH
        invariant 0 <= i <= WIDTH && pn[..] == cur && |cur| == WIDTH && Below(BASE, cur) && cur[i..] == a0[i..]
        invariant Sum(cur, i) + Col(1, i) == Sum(a0, i) + 1
      {
        var n := pn[i] + 1;
        pn[i] := Low(n);
        SumAbove(cur, i, i, Low(n));
        cur := cur[i := Low(n)];
        assert cur[i + 1..] == a0[i + 1..] && a0[i] == a0[i..][0];
        SumNext(cur, i);
        SumNext(a0, i);
        Column(n, i);
        ColSum(a0[i], 1, i);
        if pn[i] != 0 {
          LowOrWrap(n);
          ColSum(0, 0, i + 1);
          SameAbove(cur, a0, i + 1);
          ColSum(0, 0, WIDTH);
          DropCarry(cur, 0, Val(BASE, a0) + 1);
          return;
        }
        LowOrWrap(n);
        ColSum(0, 0, i);
        i := i + 1;
      }
      SumEnds(cur);
      DropCarry(cur, 1, Val(BASE, a0) + 1);
    }

    /** unary operator- */
    method Negate() returns (r: BaseUint)
      requires Valid()
      ensures r.Valid() && fresh(r) && fresh(r.pn) && r.Value() == (Range() - Value()) % Range()
    {
      hide Val, Range;
      r := Not();
      NegationMod(Value(), r.Value());
      r.Increment();
    }

    /** operator-= */
    method SubAssign(b: BaseUint)
      requires Valid() && b.Valid()
      modifies pn
      ensures Valid()
      ensures Value() == var a, d := old(Value()), old(b.Value()); if d <= a then a - d else a - d + Range()
    {
      hide Val, Pow;
      ValBound(BASE, pn[..]);
      ValBound(BASE, b.pn[..]);
      SubMod(Value(), b.Value());
      var m := b.Negate();
      AddAssign(m);
    }

    /** operator*= with a 32-bit factor. */
    method MulSmall(b32: nat)
      requires Valid() && b32 < BASE
      modifies pn
      ensures Valid() && Value() == Times(b32, old(Value())) % Range()
    {
      hide Val, Range, Low, High, Col, Sum, Times;
      ghost var a0, cur := pn[..], pn[..];
      var carry: nat := 0;
      SumEnds(a0);
      ColSum(0, 0, 0);
      TimesSum(b32, 0, 0);
      for i := 0 to WIDTH
        invariant pn[..] == cur && |cur| == WIDTH && Below(BASE, cur) && carry < BASE && cur[i..] == a0[i..]
        invariant Sum(cur, i) + Col(carry, i) == Times(b32, Sum(a0, i))
      {
        assert a0[i] == a0[i..][0];
        ProductFits(b32, pn[i], carry, 0);
        var n := carry + Times(b32, pn[i]);
        pn[i] := Low(n);
        SumAbove(cur, i, i, Low(n));
        cur := cur[i := Low(n)];
        assert cur[i + 1..] == a0[i + 1..];
        SumNext(cur, i);
        SumNext(a0, i);
        Column(n, i);
        ColSum(carry, Times(b32, a0[i]), i);
        ColScale(b32, a0[i], i);
        TimesSum(b32, Sum(a0, i), Col(a0[i], i));
        carry := High(n);
      }
      SumEnds(cur);
      DropCarry(cur, carry, Times(b32, Val(BASE, a0)));
    }

    /** operator*= : the product modulo 2^256, with a 64-bit accumulator that never overflows. */
    method MulAssign(b: BaseUint)
      requires Valid() && b.Valid()
      modifies pn
      ensures Valid() && Value() == Times(old(Value()), old(b.Value())) % Range()
    {
      hide Val, Range, Low, High, Col, Sum, Times;
      ghost var p0, b0 := pn[..], b.pn[..];
      var a := new BaseUint(0);
      ghost var over: nat := 0;
      SumEnds(p0);
      ColSum(0, 0, WIDTH);
      TimesBelow(0, 0, Val(BASE, b0));
      for j := 0 to WIDTH
        invariant a.Valid() && fresh(a.pn) && pn[..] == p0 && b.pn[..] == b0
        invariant a.Value() + Col(over, WIDTH) == Times(Sum(p0, j), Val(BASE, b0))
      {
        ghost var before := a.Value();
        var carry := a.AddRow(b, pn[j], j);
        assert pn[..] == p0 && b.pn[..] == b0;
        ghost var x := RowRest(b0, p0[j], j);
        RowTotal(p0, j, Val(BASE, b0));
        ColSum(over, carry, WIDTH);
        ColSum(over + carry, x, WIDTH);
        over := over + carry + x;
      }
      DropCarry(a.pn[..], over, Times(Val(BASE, p0), Val(BASE, b0)));
      for i := 0 to WIDTH
        invariant a.Valid() && fresh(a.pn) && a.Value() == Times(Val(BASE, p0), Val(BASE, b0)) % Range()
        invariant forall k | 0 <= k < i :: pn[k] == a.pn[k]
      {
        pn[i] := a.pn[i];
      }
      assert pn[..] == a.pn[..];
    }

    /** The inner loop of operator*= : adds d times b, j limbs up. */
    method AddRow(b: BaseUint, d: nat, j: nat) returns (carry: nat)
      requires Valid() && b.Valid() && b.pn != pn && d < BASE && j < WIDTH
      modifies pn
      ensures Valid() && Value() + Col(carry, WIDTH) == old(Value()) + Times(Col(d, j), Sum(b.pn[..], WIDTH - j))
    {
      hide Val, Range, Low, High, Col, Sum, Times;
      ghost var acc0, b0, cur := pn[..], b.pn[..], pn[..];
      carry := 0;
      SumEnds(b0);
      ColSum(0, 0, j);
      TimesSum(Col(d, j), 0, 0);
      var i := 0;
      while i + j < WIDTH
        invariant 0 <= i <= WIDTH - j && b.pn[..] == b0 && pn[..] == cur && |cur| == WIDTH && Below(BASE, cur)
        invariant carry < BASE
        invariant forall m | i + j <= m < WIDTH :: cur[m] == acc0[m]
        invariant Sum(cur, i + j) + Col(carry, i + j) == Sum(acc0, i + j) + Times(Col(d, j), Sum(b0, i))
      {
        ProductFits(d, b.pn[i], carry, pn[i + j]);
        var n := carry + pn[i + j] + Times(d, b.pn[i]);
        pn[i + j] := Low(n);
        SumAbove(cur, i + j, i + j, Low(n));
        cur := cur[i + j := Low(n)];
        RowStep(cur, acc0, b0, d, j, i, carry, n);
        carry := High(n);
        i := i + 1;
      }
      SumEnds(cur);
      SumEnds(acc0);
    }

    method CompareTo(b: BaseUint) returns (r: int)
      requires Valid() && b.Valid()
      ensures r == if Value() < b.Value() then -1 else if Value() > b.Value() then 1 else 0
    {
      hide Val;
      ghost var s, t := pn[..], b.pn[..];
      var i := WIDTH;
      while 0 < i
        invariant 0 <= i <= WIDTH && s[i..] == t[i..]
      {
        i := i - 1;
        if pn[i] < b.pn[i] { ValCompare(BASE, s, t, i); return -1; }
        if pn[i] > b.pn[i] { ValCompare(BASE, t, s, i); return 1; }
      }
      assert s == s[0..] && t == t[0..];
      return 0;
    }

    method EqualTo(b: nat) returns (r: bool)
      requires Valid() && b < U64
      ensures r <==> Value() == b
    {
      hide Val, Low, High;
      ghost var t := [Low(b), High(b)] + seq(6, i => 0);
      Small(t, b);
      ghost var s := pn[..];
      var i := WIDTH;
      while 2 < i
        invariant 2 <= i <= WIDTH && forall j | i <= j < WIDTH :: s[j] == 0
      {
        i := i - 1;
        if pn[i] != 0 { Differ(s, t, i); return false; }
      }
      if pn[1] != High(b) { Differ(s, t, 1); return false; }
      if pn[0] != Low(b) { Differ(s, t, 0); return false; }
      assert s == t;
      return true;
    }

    /** bits(): the position of the highest bit set plus one. */
    method Bits() returns (n: nat)
      requires Valid()
      ensures n <= 256 && IsBitLength(Value(), n)
    {
      hide Val, Pow;
      ghost var s := pn[..];
      var pos := WIDTH;
      while 0 < pos
        invariant 0 <= pos <= WIDTH && forall j | pos <= j < WIDTH :: s[j] == 0
      {
        pos := pos - 1;
        if pn[pos] != 0 {
          var nbits := 31;
          Base2(0);
          while 0 < nbits
            invariant 0 <= nbits <= 31 && pn[pos] < Pow(2, nbits + 1)
          {
            TopBit(pn[pos], nbits);
            if HasBit(pn[pos], nbits) {
              BitLengthAt(s, pos, nbits);
              return 32 * pos + nbits + 1;
            }
            nbits := nbits - 1;
          }
          OneBit(pn[pos]);
          BitLengthAt(s, pos, 0);
          return 32 * pos + 1;
        }
      }
      ValZero(BASE, s);
      return 0;
    }

    /** Both updates of one turn of operator<<= , for a limb x that moves to column j. */
    method PlaceLeft(x: nat, j: nat, s: nat) returns (ghost out: nat)
      requires Valid() && x < BASE && s < 32
      requires (forall m | j < m < WIDTH :: pn[m] == 0) && (j < WIDTH ==> pn[j] < Pow(2, s))
      modifies pn
      ensures Valid() && (forall m | j + 1 < m < WIDTH :: pn[m] == 0) && (j + 1 < WIDTH ==> pn[j + 1] < Pow(2, s))
      ensures Value() + Col(out, WIDTH) == old(Value()) + Col(Times(x, Pow(2, s)), j)
    {
      hide Val, Range, Low, High, Col, Sum, Times, Pow, Or, Shl, Shr, Cut;
      ghost var cur, n := pn[..], Times(x, Pow(2, s));
      ShlIsLow(x, s);
      SplitLeft(x, s);
      Column(n, j);
      ColSum(0, 0, WIDTH);
      out := 0;
      if j + 1 < WIDTH {
        OrZero(Shr(x, 32 - s));
        BumpLimb(cur, j + 1, High(n));
        if s != 0 { pn[j + 1] := Or(pn[j + 1], Shr(x, 32 - s)); } else { NoSpill(x); }
        cur := cur[j + 1 := High(n)];
        assert pn[..] == cur;
      } else if j + 1 == WIDTH {
        out := High(n);
      }
      if j < WIDTH {
        OrFits(pn[j], x, s);
        BumpLimb(cur, j, Low(n));
        pn[j] := Or(pn[j], Shl(x, s));
        assert pn[..] == cur[j := cur[j] + Low(n)];
      } else {
        BeyondTop(n, j);
        out := n * Pow(BASE, j - WIDTH);
      }
    }

    method SetZero()
      requires Valid()
      modifies pn
      ensures Valid() && Value() == 0 && forall m | 0 <= m < WIDTH :: pn[m] == 0
    {
      for i := 0 to WIDTH
        invariant forall m | 0 <= m < i :: pn[m] == 0
        invariant forall m | i <= m < WIDTH :: pn[m] == old(pn[m])
      {
        pn[i] := 0;
      }
      ValZero(BASE, pn[..]);
    }

    /** operator<<= */
    method ShlAssign(shift: nat)
      requires Valid()
      modifies pn
      ensures Valid() && Value() == Times(old(Value()), Pow(2, shift)) % Range()
    {
      hide Val, Range, Low, High, Col, Sum, Times, Pow;
      var a := new BaseUint.Copy(this);
      ghost var a0 := a.pn[..];
      SetZero();
      var k, s := shift / 32, shift % 32;
      ghost var over: nat := 0;
      SumEnds(a0);
      ColSum(0, 0, WIDTH);
      TimesBelow(0, 0, Pow(2, shift));
      for i := 0 to WIDTH
        invariant Valid() && a.pn[..] == a0 && fresh(a.pn)
        invariant (forall m | i + k < m < WIDTH :: pn[m] == 0) && (i + k < WIDTH ==> pn[i + k] < Pow(2, s))
        invariant Value() + Col(over, WIDTH) == Times(Sum(a0, i), Pow(2, shift))
      {
        ghost var out := PlaceLeft(a.pn[i], i + k, s);
        assert a.pn[..] == a0;
        ShiftedLimb(a0[i], i, k, s);
        SumNext(a0, i);
        TimesBelow(Sum(a0, i), Col(a0[i], i), Pow(2, shift));
        ColSum(over, out, WIDTH);
        over := over + out;
      }
      DropCarry(pn[..], over, Times(Val(BASE, a0), Pow(2, shift)));
    }

    /** Both updates of one turn of operator>>= , for a limb x that moves to column j > 0. */
    method PlaceRight(x: nat, j: nat, s: nat)
      requires Valid() && x < BASE && s < 32 && 0 < j < WIDTH
      requires (forall m | j <= m < WIDTH :: pn[m] == 0) && pn[j - 1] < Pow(2, 32 - s)
      modifies pn
      ensures Valid() && (forall m | j < m < WIDTH :: pn[m] == 0) && pn[j] < Pow(2, 32 - s)
      ensures Value() == old(Value()) + Col(Shr(x, s), j) + Col(Shl(x, 32 - s), j - 1)
    {
      hide Val, Range, Low, High, Col, Sum, Times, Pow, Or, Shl, Shr, Cut;
      ghost var cur, lo := pn[..], Shl(x, 32 - s);
      OrFits(pn[j - 1], x, 32 - s);
      BumpLimb(cur, j - 1, lo);
      if s != 0 { pn[j - 1] := Or(pn[j - 1], Shl(x, 32 - s)); } else { AllSpill(x); }
      cur := cur[j - 1 := cur[j - 1] + lo];
      assert pn[..] == cur;
      WordRight(x, s);
      OrZero(Shr(x, s));
      BumpLimb(cur, j, Shr(x, s));
      pn[j] := Or(pn[j], Shr(x, s));
      assert pn[..] == cur[j := Shr(x, s)];
    }

    /** operator>>= */
    method ShrAssign(shift: nat)
      requires Valid()
      modifies pn
      ensures Valid() && Value() == old(Value()) / Pow(2, shift)
    {
      hide Val, Range, Low, High, Col, Sum, Times, Pow, Or, Shl, Shr, Cut;
      var a := new BaseUint.Copy(this);
      ghost var a0 := a.pn[..];
      SetZero();
      var k, s := shift / 32, shift % 32;
      ghost var low: nat := 0;
      SumEnds(a0);
      TimesBelow(0, 0, Pow(2, shift));
      for i := 0 to WIDTH
        invariant Valid() && a.pn[..] == a0 && fresh(a.pn)
        invariant (forall m | 0 <= m < WIDTH && i - k <= m :: pn[m] == 0)
        invariant (0 < i - k ==> pn[i - k - 1] < Pow(2, 32 - s))
        invariant Times(Value(), Pow(2, shift)) + low == Sum(a0, i)
        invariant low == if i <= k then Sum(a0, i) else Sum(a0, k) + Col(Cut(a0[k], s), k)
      {
        SumNext(a0, i);
        ghost var x: nat, v := a0[i], Value();
        if i == k {
          WordRight(x, s);
          OrZero(Shr(x, s));
          ghost var cur := pn[..];
          BumpLimb(cur, 0, Shr(x, s));
          pn[0] := Or(pn[0], Shr(a.pn[i], s));
          assert pn[..] == cur[0 := Shr(x, s)];
          CutLimb(x, k, s);
          TimesBelow(v, Col(Shr(x, s), 0), Pow(2, shift));
          low := low + Col(Cut(x, s), k);
        } else if k < i {
          PlaceRight(a.pn[i], i - k, s);
          RightLimb(x, i, k, s);
          TimesBelow(v, Col(Shr(x, s), i - k) + Col(Shl(x, 32 - s), i - k - 1), Pow(2, shift));
        } else {
          low := low + Col(x, i);
        }
        assert a.pn[..] == a0;
      }
      CutOff(a0, k, s, low);
      Quotient(Val(BASE, a0), Pow(2, shift), Value(), low);
    }

    /** pn[shift / 32] |= 1 << (shift & 31), when no bit up to that one is set. */
    method SetQuotientBit(shift: nat)
      requires Valid() && shift < 256 && LowClear(pn[..], shift + 1)
      modifies pn
      ensures Valid() && LowClear(pn[..], shift) && Value() == old(Value()) + Pow(2, shift)
    {
      hide Val, Pow, Or, Col, LowClear;
      ghost var cur := pn[..];
      BitInLimb(cur, shift);
      pn[shift / 32] := Or(pn[shift / 32], Pow(2, shift % 32));
      BumpLimb(cur, shift / 32, Pow(2, shift % 32));
      assert pn[..] == cur[shift / 32 := cur[shift / 32] + Pow(2, shift % 32)];
    }

    /** One turn of operator/= : takes the shifted divisor away if it fits, and notes that in the quotient. */
    method TakeAway(num: BaseUint, div: BaseUint, shift: nat, ghost d: nat)
      requires Valid() && num.Valid() && div.Valid() && num.pn != pn && div.pn != pn && num.pn != div.pn && shift < 256
      requires LowClear(pn[..], shift + 1) && div.Value() == Times(d, Pow(2, shift))
      requires num.Value() < Times(d, Pow(2, shift + 1))
      modifies pn, num.pn
      ensures Valid() && num.Valid() && LowClear(pn[..], shift) && num.Value() < Times(d, Pow(2, shift))
      ensures Times(Value(), d) + num.Value() == old(Times(Value(), d) + num.Value())
    {
      hide Val, Pow, Range, Times, LowClear;
      Doubling(d, shift);
      var c := num.CompareTo(div);
      if c >= 0 {
        TimesBelow(Value(), Pow(2, shift), d);
        TimesSwap(Pow(2, shift), d);
        num.SubAssign(div);
        SetQuotientBit(shift);
      } else {
        ClearLess(pn[..], shift);
      }
    }

    /** operator/= : the floor of the quotient, by aligned subtraction. */
    method DivAssign(b: BaseUint) returns (threw: bool)
      requires Valid() && b.Valid()
      modifies pn
      ensures Valid() && (threw <==> old(b.Value()) == 0)
      ensures Value() == if threw then 0 else old(Value()) / old(b.Value())
    {
      hide Val, Pow, Range, Times, LowClear, IsBitLength;
      var div := new BaseUint.Copy(b);
      var num := new BaseUint.Copy(this);
      ghost var n, d := Value(), b.Value();
      SetZero();
      var numBits := num.Bits();
      var divBits := div.Bits();
      BitLengthZero(d, divBits);
      if divBits == 0 { return true; }
      if divBits > numBits {
        BitLengthLess(n, numBits, d, divBits);
        return false;
      }
      var shift: int := numBits - divBits;
      Aligned(n, numBits, d, divBits);
      div.ShlAssign(shift);
      AllClear(pn[..], shift + 1);
      TimesBelow(0, 0, d);
      while 0 <= shift
        invariant -1 <= shift < 256 && Valid() && num.Valid() && div.Valid() && fresh(num.pn) && fresh(div.pn)
        invariant num.pn != div.pn
        invariant LowClear(pn[..], shift + 1)
        invariant Times(Value(), d) + num.Value() == n
        invariant num.Value() < Times(d, Pow(2, shift + 1))
        invariant 0 <= shift ==> div.Value() == Times(d, Pow(2, shift))
        decreases shift
      {
        TakeAway(num, div, shift, d);
        HalfShift(d, shift);
        div.ShrAssign(1);
        shift := shift - 1;
      }
      UnitPower(d);
      Quotient(n, d, Value(), num.Value());
      return false;
    }

    /** Assignment of a 64-bit number. */
    method Assign(b: nat)
      requires Valid() && b < U64
      modifies pn
      ensures Valid() && Value() == b
    {
      hide Val, Low, High;
      SetZero();
      pn[0] := Low(b);
      pn[1] := High(b);
      Small(pn[..], b);
    }

    method GetLow64() returns (r: nat)
      requires Valid()
      ensures r == Value() % U64
    {
      hide Val, Pow, Or;
      Base2(0);
      OrDisjoint(pn[0], pn[1], 32);
      r := Or(pn[0], pn[1] * Pow(2, 32));
      LowTwo(pn[..]);
    }

    /** SetCompact: the decoded value modulo 2^256, with exact sign and overflow flags. */
    method SetCompact(nCompact: nat) returns (negative: bool, overflow: bool)
      requires Valid() && nCompact < U32
      modifies pn
      ensures Valid() && Value() == Compact.Decode(nCompact) % Range()
      ensures negative == Compact.Negative(nCompact) && overflow == Compact.Overflow(nCompact)
      ensures overflow <==> Compact.Decode(nCompact) >= Range()
    {
      hide Val, Pow, Range, Times;
      var nSize := nCompact / 0x100_0000;
      var nWord := nCompact % 0x80_0000;
      CompactPowers(nSize);
      Compact.OverflowExact(nCompact);
      if nSize <= 3 {
        nWord := nWord / Pow(2, 8 * (3 - nSize));
        WordSmaller(nCompact % 0x80_0000, Pow(2, 8 * (3 - nSize)));
        Assign(nWord);
        SmallMod(nWord);
      } else {
        Assign(nWord);
        ShlAssign(8 * (nSize - 3));
        TimesIs(nWord, Pow(2, 8 * (nSize - 3)));
      }
      negative := nWord != 0 && nCompact / 0x80_0000 % 2 == 1;
      overflow := nWord != 0 && (nSize > 34 || (nWord > 0xff && nSize > 33) || (nWord > 0xffff && nSize > 32));
      RangeIs();
    }

    /** The first half of GetCompact: the byte length and the mantissa before the sign bit is looked at. */
    method TopBytes() returns (nSize: nat, nCompact: nat)
      requires Valid()
      ensures nSize <= 32 && Compact.IsByteLength(Value(), nSize)
      ensures nCompact == Compact.RawMantissa(Value(), nSize) < Compact.SIZE_UNIT
    {
      hide Val, Pow, Range, Times, Or, IsBitLength;
      var bits := Bits();
      nSize := (bits + 7) / 8;
      BytesOfBits(Value(), bits);
      RawBounds(Value(), nSize);
      if nSize <= 3 {
        var low := GetLow64();
        SmallMod64(Value());
        nCompact := low * Pow(2, 8 * (3 - nSize));
      } else {
        var bn := new BaseUint.Copy(this);
        bn.ShrAssign(8 * (nSize - 3));
        nCompact := bn.GetLow64();
        SmallMod64(bn.Value());
      }
    }

    /** GetCompact: the encoding of a number of n bytes; its two asserts hold. */
    method GetCompact(fNegative: bool) returns (nCompact: nat, ghost n: nat)
      requires Valid()
      ensures n <= 32 && Compact.IsByteLength(Value(), n)
      ensures nCompact == Compact.Encode(Value(), n) + (if fNegative && Value() != 0 then Compact.MANTISSA else 0) < U32
    {
      hide Val, Pow, Or, Compact.IsByteLength, Compact.RawMantissa;
      var nSize;
      nSize, nCompact := TopBytes();
      n := nSize;
      if nCompact / 0x80_0000 % 2 == 1 {
        nCompact := nCompact / 256;
        nSize := nSize + 1;
      }
      assert nCompact < 0x80_0000;
      assert nSize < 256;
      EncodeNonZero(Value(), n, nCompact);
      JoinCompact(nCompact, nSize);
      JoinSign(nCompact, nSize);
      nCompact := Or(nCompact, nSize * Pow(2, 24));
      if fNegative && nCompact % 0x80_0000 != 0 { nCompact := Or(nCompact, 0x80_0000); }
    }
  }

  /**
   GetBlockProof: the expected number of hashes, exactly 2^256 / (target + 1); zero for
   a target that is no target.
   */
  method GetBlockProof(nBits: nat) returns (work: BaseUint)
    requires nBits < U32
    ensures work.Valid() && fresh(work) && fresh(work.pn)
    ensures var target := Compact.Decode(nBits);
      work.Value() == if Compact.Negative(nBits) || Compact.Overflow(nBits) || target == 0 then 0
          else Range() / (target + 1)
  {
    hide Val, Pow, Range, Compact.Decode, Compact.Negative, Compact.Overflow;
    var bnTarget := new BaseUint(0);
    var negative, overflow := bnTarget.SetCompact(nBits);
    var zero := bnTarget.EqualTo(0);
    ghost var target := Compact.Decode(nBits);
    DecodedMod(target);
    if negative || overflow || zero {
      work := new BaseUint(0);
      return;
    }
    NotAllOnes(nBits);
    work := bnTarget.Not();
    var divisor := new BaseUint.Copy(bnTarget);
    var one := new BaseUint(1);
    divisor.AddAssign(one);
    ProofFormula(target);
    var threw := work.DivAssign(divisor);
    work.AddAssign(one);
  }

  /** SetCompact(GetCompact(x)): the largest value of any mantissa and exponent that does not exceed x. */
  method Requantize(x: BaseUint) returns (y: BaseUint)
    requires x.Valid()
    ensures y.Valid() && fresh(y) && fresh(y.pn) && y.Value() <= x.Value()
    ensures forall m: nat, size: nat | m < Compact.MANTISSA && Compact.Exact(m, size) <= x.Value() ::
        Compact.Exact(m, size) <= y.Value()
  {
    hide Val, Pow, Range, Compact.Decode, Compact.Encode, Compact.Negative, Compact.Overflow, Compact.Exact;
    var nCompact, n := x.GetCompact(false);
    ghost var v := x.Value();
    y := new BaseUint(0);
    var negative, overflow := y.SetCompact(nCompact);
    Compact.ReadBack(v, n);
    DecodedMod(Compact.RoundDown(v, n));
    Compact.RoundDownLargest(v, n, 0, 0);
    forall m: nat, size: nat | m < Compact.MANTISSA && Compact.Exact(m, size) <= v
      ensures Compact.Exact(m, size) <= Compact.RoundDown(v, n)
    {
      Compact.RoundDownLargest(v, n, m, size);
    }
  }

  lemma RangeIs()
    ensures Range() == Pow(256, 32) == Pow(2, 256)
  {
    hide Pow;
    Base2(WIDTH);
    PowMul(2, 8, 32);
    Byte();
  }

  lemma Byte() ensures Pow(2, 8) == 256 {}

  lemma CompactPowers(size: nat)
    ensures size <= 3 ==> Pow(2, 8 * (3 - size)) == Pow(256, 3 - size)
    ensures size > 3 ==> Pow(2, 8 * (size - 3)) == Pow(256, size - 3)
  {
    hide Pow;
    Byte();
    if size <= 3 { PowMul(2, 8, 3 - size); } else { PowMul(2, 8, size - 3); }
  }

  lemma WordSmaller(x: nat, d: nat)
    requires 0 < d
    ensures 0 <= x / d <= x
  {
    DivModLaw(x, d);
    MulMono(1, d, x / d);
  }

  lemma SmallMod(x: nat)
    requires x < U64
    ensures x % Range() == x
  {
    hide Pow;
    Base2(2);
    Base2(WIDTH);
    PowAdd(2, 32, 32);
    PowMono(2, 64, 256);
    DivModUnique(x, Range(), 0, x);
  }

  lemma SmallMod64(x: nat)
    ensures x < U64 ==> x % U64 == x
  {}

  lemma DecodedMod(x: nat)
    ensures x < Range() ==> x % Range() == x
  {
    hide Range;
    if x < Range() { DivModUnique(x, Range(), 0, x); }
  }

  lemma TimesIs(x: nat, y: nat)
    ensures Times(x, y) == x * y
  {}

  lemma LowTwo(s: seq<nat>)
    requires |s| == WIDTH && Below(BASE, s)
    ensures Val(BASE, s) % U64 == s[0] + s[1] * BASE
  {
    hide Val, Pow;
    ValSplit(BASE, s, 2);
    SumEnds(s);
    SumNext(s, 0);
    SumNext(s, 1);
    OneCol();
    OnePow();
    PowAdd(BASE, 1, 1);
    var h := Val(BASE, s[2..]);
    assert Val(BASE, s) == s[0] + s[1] * BASE + U64 * h;
    DivModUnique(Val(BASE, s), U64, h, s[0] + s[1] * BASE);
  }

  lemma BytesOfBits(x: nat, bits: nat)
    requires IsBitLength(x, bits) && bits <= 256
    ensures (bits + 7) / 8 <= 32 && Compact.IsByteLength(x, (bits + 7) / 8)
  {
    hide Pow;
    var n := (bits + 7) / 8;
    Byte();
    PowMul(2, 8, n);
    PowMono(2, bits, 8 * n);
    if n > 0 {
      PowMul(2, 8, n - 1);
      PowMono(2, 8 * (n - 1), bits - 1);
    }
  }

  lemma RawBounds(x: nat, n: nat)
    requires Compact.IsByteLength(x, n)
    ensures n <= 3 ==> x < Compact.SIZE_UNIT && Pow(2, 8 * (3 - n)) == Pow(256, 3 - n)
    ensures n > 3 ==> Pow(2, 8 * (n - 3)) == Pow(256, n - 3)
    ensures Compact.RawMantissa(x, n) < Compact.SIZE_UNIT
  {
    hide Pow;
    CompactPowers(n);
    Compact.Pow256(3);
    if n <= 3 {
      PowMono(256, n, 3);
      PowAdd(256, n, 3 - n);
      MulStrict(x, Pow(256, n), Pow(256, 3 - n));
    } else {
      PowAdd(256, 3, n - 3);
      DivBound(x, Pow(256, n - 3), Compact.SIZE_UNIT);
    }
  }

  /** The mantissa vanishes only for zero. */
  lemma EncodeNonZero(x: nat, n: nat, m: nat)
    requires Compact.IsByteLength(x, n)
    requires var r := Compact.RawMantissa(x, n); m == if r >= Compact.MANTISSA then r / 256 else r
    ensures m == 0 <==> x == 0
  {
    hide Pow;
    if n <= 3 {
      MulMono(1, Pow(256, 3 - n), x);
      assert x == 0 ==> x * Pow(256, 3 - n) == 0;
    } else {
      Compact.Pow256(2);
      PowAdd(256, 2, n - 3);
      Compact.DivAtLeast(x, Pow(256, n - 3), 0x1_0000);
    }
  }

  lemma JoinCompact(m: nat, size: nat)
    requires m < Compact.MANTISSA
    ensures Pow(2, 24) == Compact.SIZE_UNIT && Or(m, size * Pow(2, 24)) == m + size * Compact.SIZE_UNIT
  {
    hide Or, Pow;
    Byte();
    PowAdd(2, 8, 8);
    PowAdd(2, 16, 8);
    OrDisjoint(m, size, 24);
  }

  lemma JoinSign(m: nat, size: nat)
    requires m < Compact.MANTISSA
    ensures Or(m + size * Compact.SIZE_UNIT, 0x80_0000) == m + size * Compact.SIZE_UNIT + 0x80_0000
  {
    hide Or, Pow;
    Power23();
    OrSplit(m, 0, 2 * size, 1, 23);
    OrZero(m);
    OrHalf(0, 1, size, 0);
    OrZero(size);
  }

  lemma Power23()
    ensures Pow(2, 23) == 0x80_0000
  {
    hide Pow;
    Byte();
    PowAdd(2, 8, 8);
    PowAdd(2, 16, 8);
    PowTwice(23);
  }

  /** A decoded target is small, or ends in a zero byte. */
  lemma NotAllOnes(c: nat)
    requires c < U32 && Compact.Decode(c) < Range()
    ensures Compact.Decode(c) + 1 < Range()
  {
    hide Pow, Range;
    var m, size := Compact.Mantissa(c), Compact.Size(c);
    RangeIs();
    if size <= 3 {
      WordSmaller(m, Pow(256, 3 - size));
      Compact.Pow256(3);
      PowMono(256, 3, 32);
    } else {
      PowAdd(256, 1, size - 4);
      PowAdd(256, 1, 31);
      Compact.Pow256(1);
      var a, b := m * Pow(256, size - 4), Pow(256, 31);
      assert m * Pow(256, size - 3) == 256 * a;
    }
  }

  /** (2^256 - 1 - t) / (t + 1) + 1 == 2^256 / (t + 1), and every step stays in range. */
  lemma ProofFormula(t: nat)
    requires 0 < t && t + 1 < Range()
    ensures (t + 1) % Range() == t + 1
    ensures ((Range() - 1 - t) / (t + 1) + 1) % Range() == Range() / (t + 1)
  {
    hide Range;
    var r, d := Range(), t + 1;
    DivModUnique(d, r, 0, d);
    DivModLaw(r - d, d);
    var q := (r - d) / d;
    MulDistrib(q, 1, d);
    DivModUnique(r, d, q + 1, (r - d) % d);
    MulMono(2, d, q + 1);
    DivModUnique(q + 1, r, 0, q + 1);
  }
}
