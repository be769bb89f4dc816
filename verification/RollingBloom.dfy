/**
 CRollingBloomFilter of src/bloom.cpp. Every position of the filter holds a two-bit
 generation number, its bits kept in two different words; inserting an item stamps
 its positions with the current generation, and starting a generation wipes the
 stamps of the one before last. The filter is shown to know exactly the positions
 of the items of the last three generations.
 */
module RollingBloom {

  import opened Powers
  import opened Basics

  type Item = seq<nat>

  /** Bit `bit` of the words 2 * word and 2 * word + 1. */
  datatype Cell = Cell(word: nat, bit: nat)

  // ------------------------------------------------------------------ bit planes

  /** A 64-bit word that is only ever used bit by bit: the set of its ones. */
  type Word = set<nat>

  predicate IsBit(b: nat) { b < 64 }

  function Full(): Word { set b: nat | b < 64 && IsBit(b) }
  function Not(x: Word): Word { Full() - x }
  function Xor(x: Word, y: Word): Word { (x - y) + (y - x) }

  /** 0 - uint64_t(v) */
  function Mask(v: bool): Word { if v then Full() else {} }

  /** (x & ~(1 << b)) | v << b */
  function Put(x: Word, b: nat, v: bool): Word { (x * Not({b})) + (if v then {b} else {}) }

  /** (p1 ^ mask1) | (p2 ^ mask2): the bits of a position that differ from v and w. */
  function WipeMask(p1: Word, p2: Word, v: bool, w: bool): Word { Xor(p1, Mask(v)) + Xor(p2, Mask(w)) }

  lemma PutBit(x: Word, b: nat, v: bool, c: nat)
    requires b < 64 && c < 64
    ensures c in Put(x, b, v) <==> if b == c then v else c in x
  {}

  /** Masking clears both bits of a position exactly when they are the two bits v and w. */
  lemma WipeBit(p1: Word, p2: Word, v: bool, w: bool, c: nat)
    requires c < 64
    ensures var m, gone := WipeMask(p1, p2, v, w), (c in p1) == v && (c in p2) == w;
      (c in p1 * m <==> c in p1 && !gone) && (c in p2 * m <==> c in p2 && !gone)
  {}

  predicate In(n: nat, p: Cell) { p.word < n / 2 && p.bit < 64 }

  /** The generation number at a position, 0 when it is unset. */
  function Stamp(data: seq<Word>, p: Cell): nat
    requires In(|data|, p)
  {
    (if p.bit in data[2 * p.word] then 1 else 0) + (if p.bit in data[2 * p.word + 1] then 2 else 0)
  }

  // ----------------------------------------------------------------- generations

  /** The generation that the i-th item since the reset belongs to, counted from 0, at `per` items each. */
  function Epoch(per: nat, i: nat): nat { if per == 0 then 1 else i / per }

  /** The current generation after n items. */
  function Current(per: nat, n: nat): nat { if n == 0 then 0 else Epoch(per, n - 1) }

  /** How many items of the current generation there are. */
  function Entries(per: nat, n: nat): nat {
    if n == 0 then 0 else if per == 0 then n else (n - 1) % per + 1
  }

  /** An item starts a new generation exactly when the current one is full. */
  lemma NextEpoch(per: nat, n: nat)
    ensures Entries(per, n) == per ==> Epoch(per, n) == Current(per, n) + 1 && Entries(per, n + 1) == 1
    ensures Entries(per, n) != per ==> Epoch(per, n) == Current(per, n) && Entries(per, n + 1) == Entries(per, n) + 1
  {
    if per > 0 && n > 0 {
      var q, r := (n - 1) / per, (n - 1) % per;
      DivStep(n - 1, per);
    }
  }

  lemma DivStep(m: nat, d: nat)
    requires 0 < d
    ensures m % d + 1 == d ==> (m + 1) / d == m / d + 1 && (m + 1) % d == 0
    ensures m % d + 1 != d ==> (m + 1) / d == m / d && (m + 1) % d == m % d + 1
  {
    var q, r := m / d, m % d;
    assert m == q * d + r;
    if r + 1 == d {
      assert m + 1 == (q + 1) * d + 0;
      DivModUnique(m + 1, d, q + 1, 0);
    } else {
      DivModUnique(m + 1, d, q, r + 1);
    }
  }

  // ------------------------------------------------------------------- the filter

  /** What fixes the positions of items between two resets: MurmurHash3, its tweak and the sizes. */
  datatype Hashing = Hashing(murmur: (nat, Item) -> nat, nTweak: nat, nHashFuncs: nat, words: nat)

  function Hash(g: Hashing, n: nat, x: Item): (h: nat)
    ensures h < U32
  {
    g.murmur((n * 0xFBA4C795 + g.nTweak) % U32, x) % U32
  }

  /** FastMod: the upper half of the product, always below n. */
  function FastMod(h: nat, n: nat): (r: nat)
    requires 0 < n && h < U32
    ensures r < n
  {
    UpperHalf(h, n);
    h * n / U32
  }

  /** The position that a hash value selects: a pair of words and a bit. */
  function CellOf(h: nat, words: nat): (p: Cell)
    requires h < U32 && 0 < words && words % 2 == 0
    ensures In(words, p)
  {
    Cell(FastMod(h, words) / 2, h % 64)
  }

  /** The position of the n-th hash of an item. */
  function Position(g: Hashing, n: nat, x: Item): (p: Cell)
    requires 0 < g.words && g.words % 2 == 0
    ensures In(g.words, p)
  {
    CellOf(Hash(g, n, x), g.words)
  }

  /** No position is wasted: each of the 64 bits of each pair of words is the position of some hash value. */
  lemma EveryPosition(words: nat, p: Cell) returns (h: nat)
    requires 0 < words <= 0x0400_0000 && words % 2 == 0 && In(words, p)
    ensures h < U32 && CellOf(h, words) == p
  {
    var w := 2 * p.word;
    var q := w * U32 / words;
    DivModLaw(w * U32, words);
    var start := q + 1;
    h := start + (p.bit - start) % 64;
    Residue(start, p.bit);
    Between(words, w, q, h);
  }

  lemma Residue(start: nat, b: nat)
    requires b < 64
    ensures var h := start + (b - start) % 64; h % 64 == b && start <= h < start + 64
  {}

  lemma Between(words: nat, w: nat, q: nat, h: nat)
    requires 0 < words <= 0x0400_0000 && w + 1 < words
    requires q * words <= w * U32 < (q + 1) * words && q + 1 <= h <= q + 64
    ensures h < U32 && w <= FastMod(h, words) <= w + 1
  {
    MulMono(q + 1, h, words);
    MulMono(h, q + 64, words);
    MulDistrib(q, 64, words);
    MulDistrib(w, 1, U32);
    assert w * U32 <= h * words <= (w + 1) * U32;
    Smaller(words, w, h);
    UpperPart(h * words, w);
  }

  lemma Smaller(words: nat, w: nat, h: nat)
    requires h * words <= (w + 1) * U32 && w + 1 < words
    ensures h < U32
  {
    if U32 <= h {
      MulMono(U32, h, words);
      MulStrict(w + 1, words, U32);
    }
  }

  lemma UpperPart(x: nat, w: nat)
    requires w * U32 <= x <= (w + 1) * U32
    ensures w <= x / U32 <= w + 1
  {}

  /** p is one of the first n positions of x. */
  ghost predicate Hits(g: Hashing, n: nat, x: Item, p: Cell)
    requires 0 < g.words && g.words % 2 == 0
  {
    exists k | 0 <= k < n :: Position(g, k, x) == p
  }

  /** The last item with position p, or -1. */
  ghost function LastHit(g: Hashing, items: seq<Item>, p: Cell): (r: int)
    requires 0 < g.words && g.words % 2 == 0
    ensures -1 <= r < |items|
  {
    if items == [] then -1
    else if Hits(g, g.nHashFuncs, items[|items| - 1], p) then |items| - 1
    else LastHit(g, items[..|items| - 1], p)
  }

  lemma {:induction false} LastHitExact(g: Hashing, items: seq<Item>, p: Cell)
    requires 0 < g.words && g.words % 2 == 0
    ensures var r := LastHit(g, items, p);
      (r >= 0 ==> Hits(g, g.nHashFuncs, items[r], p)) && forall i | r < i < |items| ::
          !Hits(g, g.nHashFuncs, items[i], p)
  {
    hide Hits;
    if items != [] && !Hits(g, g.nHashFuncs, items[|items| - 1], p) { LastHitExact(g, items[..|items| - 1], p); }
  }

  /**
   The stamp of an item that was the i-th, when the current generation is `now`: one of
   1, 2, 3, or 0 once it is wiped.
   */
  function StampOf(per: nat, i: int, now: nat): nat {
    if i < 0 || Epoch(per, i) + 2 < now then 0 else Epoch(per, i) % 3 + 1
  }

  /** Every position carries the stamp of the last item that has it. */
  ghost predicate Stamped(g: Hashing, per: nat, data: seq<Word>, items: seq<Item>, now: nat)
    requires 0 < g.words && g.words % 2 == 0
  {
    |data| == g.words && forall p: Cell | In(g.words, p) :: Stamp(data, p) == StampOf(per, LastHit(g, items, p), now)
  }

  // --------------------------------------------------------- what insert changes

  /** The stamps after a wipe of generation number v + 2 w. */
  lemma WipeStamp(data: seq<Word>, now: seq<Word>, v: bool, w: bool, p: Cell)
    requires |data| == |now| && In(|data|, p)
    requires var m := WipeMask(data[2 * p.word], data[2 * p.word + 1], v, w);
      now[2 * p.word] == data[2 * p.word] * m && now[2 * p.word + 1] == data[2 * p.word + 1] * m
    ensures Stamp(now, p) == if Stamp(data, p) == (if v then 1 else 0) + (if w then 2 else 0) then 0 else Stamp(data, p)
  {
    hide WipeMask;
    WipeBit(data[2 * p.word], data[2 * p.word + 1], v, w, p.bit);
  }

  /** Stamping one position with generation number v + 2 w. */
  lemma PutStamp(data: seq<Word>, q: Cell, v: bool, w: bool, p: Cell)
    requires In(|data|, p) && In(|data|, q)
    ensures var now := data[2 * q.word := Put(data[2 * q.word], q.bit, v)][2 * q.word +
        1 := Put(data[2 * q.word + 1], q.bit, w)];
      Stamp(now, p) == if p == q then (if v then 1 else 0) + (if w then 2 else 0) else Stamp(data, p)
  {
    hide Put;
    PutBit(data[2 * q.word], q.bit, v, p.bit);
    PutBit(data[2 * q.word + 1], q.bit, w, p.bit);
  }

  /** Wiping the number of the generation that begins leaves exactly the stamps of the two before it. */
  lemma WipedStamp(per: nat, i: int, now: nat)
    requires i >= 0 ==> Epoch(per, i) <= now
    ensures StampOf(per, i, now + 1) == if StampOf(per, i, now) == (now + 1) % 3 + 1 then 0 else StampOf(per, i, now)
  {
    hide Epoch;
    if i >= 0 { ThreeApart(Epoch(per, i), now); }
  }

  lemma ThreeApart(e: nat, now: nat)
    requires e <= now
    ensures e + 2 >= now ==> (e % 3 == (now + 1) % 3 <==> e + 2 == now)
  {}

  /** Each item belongs to the current generation or an earlier one. */
  lemma EpochOrder(per: nat, i: nat, n: nat)
    requires i < n
    ensures Epoch(per, i) <= Current(per, n)
  {
    if per > 0 { DivOrder(i, n - 1, per); }
  }

  lemma DivOrder(a: nat, b: nat, d: nat)
    requires a <= b && 0 < d
    ensures a / d <= b / d
  {
    DivModLaw(a, d);
    DivModLaw(b, d);
    if b / d < a / d { MulMono(b / d + 1, a / d, d); MulDistrib(b / d, 1, d); }
  }

  /** Generation numbers as two bits. */
  lemma TwoBits(g: nat)
    requires 1 <= g <= 3
    ensures (if g % 2 == 1 then 1 else 0) + (if g / 2 == 1 then 2 else 0) == g && g / 2 <= 1
  {}

  // --------------------------------------------------------------------- windows

  /** The item is of the current generation or one of the two before it. */
  predicate Recent(per: nat, n: nat, i: nat) { Epoch(per, i) + 2 >= Current(per, n) }

  /** The last Entries + 2 per items are recent, hence the last nElements whenever nElements <= 2 per. */
  lemma RecentEnough(per: nat, n: nat, i: nat)
    requires i < n && n - i <= Entries(per, n) + 2 * per
    ensures Recent(per, n, i)
  {
    if per > 0 {
      var q := (n - 1) / per;
      DivModLaw(n - 1, per);
      if q >= 2 {
        MulDistrib(q, 2, per);
        assert i >= (q - 2) * per;
        DivModLaw(i, per);
        if i / per < q - 2 { MulMono(i / per + 1, q - 2, per); MulDistrib(i / per, 1, per); }
      }
    }
  }

  /** Some recent item has position p. */
  ghost predicate Known(g: Hashing, per: nat, items: seq<Item>, p: Cell)
    requires 0 < g.words && g.words % 2 == 0
  {
    exists i | 0 <= i < |items| :: Recent(per, |items|, i) && Hits(g, g.nHashFuncs, items[i], p)
  }

  /** A position is set exactly when some recent item has it. */
  lemma SetExactly(g: Hashing, per: nat, items: seq<Item>, p: Cell)
    requires 0 < g.words && g.words % 2 == 0
    ensures StampOf(per, LastHit(g, items, p), Current(per, |items|)) != 0 <==> Known(g, per, items, p)
  {
    hide Hits, LastHit, Epoch, Current;
    LastHitExact(g, items, p);
    var r := LastHit(g, items, p);
    forall i | 0 <= i < |items| && Recent(per, |items|, i) && Hits(g, g.nHashFuncs, items[i], p)
      ensures r >= 0 && Recent(per, |items|, r)
    {
      EpochMono(per, i, r);
    }
  }

  lemma EpochMono(per: nat, i: nat, j: nat)
    requires i <= j
    ensures Epoch(per, i) <= Epoch(per, j)
  {
    if per > 0 { DivOrder(i, j, per); }
  }

  class RollingBloomFilter {
    const nElements: nat
    const nEntriesPerGeneration: nat
    const nHashFuncs: nat
    const murmur: (nat, Item) -> nat
    const data: array<Word>
    var nEntriesThisGeneration: nat
    var nGeneration: nat
    var nTweak: nat

    /** The items inserted since the last reset. */
    ghost var items: seq<Item>

    ghost function Hashes(): Hashing reads this { Hashing(murmur, nTweak, nHashFuncs, data.Length) }

    ghost predicate Valid()
      reads this, data
    {
      && 0 < data.Length && data.Length % 2 == 0 && (nEntriesPerGeneration == 0
           || nElements <= 2 * nEntriesPerGeneration)
      && nGeneration == Current(nEntriesPerGeneration, |items|) % 3 + 1
      && nEntriesThisGeneration == Entries(nEntriesPerGeneration, |items|)
      && Stamped(Hashes(), nEntriesPerGeneration, data[..], items, Current(nEntriesPerGeneration, |items|))
    }

    /** The sizes come from logarithms in the source; here they are parameters. */
    constructor (nElements: nat, nHashFuncs: nat, words: nat, murmur: (nat, Item) -> nat, tweak: nat)
      requires nElements < U32 && 0 < words && words % 2 == 0
      ensures Valid() && items == [] && this.nElements == nElements
      ensures nEntriesPerGeneration == (nElements + 1) % U32 / 2
      ensures fresh(data)
    {
      this.nElements, this.nHashFuncs, this.murmur := nElements, nHashFuncs, murmur;
      nEntriesPerGeneration := (nElements + 1) % U32 / 2;
      data := new Word[words](i => {});
      nTweak, nEntriesThisGeneration, nGeneration, items := tweak, 0, 1, [];
      new;
      EmptyStamped(Hashes(), nEntriesPerGeneration, data[..]);
    }

    method Reset(tweak: nat)
      requires Valid()
      modifies this, data
      ensures Valid() && items == [] && nTweak == tweak
    {
      nTweak, nEntriesThisGeneration, nGeneration, items := tweak, 0, 1, [];
      for i := 0 to data.Length
        invariant forall j | 0 <= j < i :: data[j] == {}
        invariant nTweak == tweak && nEntriesThisGeneration == 0 && nGeneration == 1 && items == []
      {
        data[i] := {};
      }
      EmptyStamped(Hashes(), nEntriesPerGeneration, data[..]);
    }

    /** The wipe loop, for the generation number that begins. */
    method Wipe()
      requires 0 < data.Length && data.Length % 2 == 0 && 1 <= nGeneration <= 3
      modifies data
      ensures forall p: Cell | In(data.Length, p) ::
        Stamp(data[..], p) == if Stamp(old(data[..]), p) == nGeneration then 0 else Stamp(old(data[..]), p)
    {
      hide Mask, Xor, WipeMask;
      var v, w := nGeneration % 2 == 1, nGeneration / 2 == 1;
      ghost var was := data[..];
      var p := 0;
      while p < data.Length
        invariant 0 <= p <= data.Length && p % 2 == 0
        invariant forall q | p <= q < data.Length :: data[q] == was[q]
        invariant forall q | 0 <= q < p && q % 2 == 0 :: data[q] == was[q] * WipeMask(was[q], was[q + 1], v, w)
        invariant forall q | 0 <= q < p && q % 2 == 0 :: data[q + 1] == was[q + 1] * WipeMask(was[q], was[q + 1], v, w)
      {
        var p1, p2 := data[p], data[p + 1];
        var mask := WipeMask(p1, p2, v, w);
        data[p] := p1 * mask;
        data[p + 1] := p2 * mask;
        p := p + 2;
      }
      TwoBits(nGeneration);
      forall c: Cell | In(data.Length, c)
        ensures Stamp(data[..], c) == if Stamp(was, c) == nGeneration then 0 else Stamp(was, c)
      {
        WipeStamp(was, data[..], v, w, c);
      }
    }

    /** The stamping loop. */
    method Mark(x: Item)
      requires 0 < data.Length && data.Length % 2 == 0 && 1 <= nGeneration <= 3
      modifies data
      ensures forall p: Cell | In(data.Length, p) ::
        Stamp(data[..], p) == if Hits(Hashes(), nHashFuncs, x, p) then nGeneration else Stamp(old(data[..]), p)
    {
      hide Put, Stamp, Position;
      var v, w := nGeneration % 2 == 1, nGeneration / 2 == 1;
      TwoBits(nGeneration);
      for n := 0 to nHashFuncs
        invariant forall p: Cell | In(data.Length, p) ::
          Stamp(data[..], p) == if Hits(Hashes(), n, x, p) then nGeneration else Stamp(old(data[..]), p)
      {
        ghost var was := data[..];
        var q := Position(Hashing(murmur, nTweak, nHashFuncs, data.Length), n, x);
        data[2 * q.word] := Put(data[2 * q.word], q.bit, v);
        data[2 * q.word + 1] := Put(data[2 * q.word + 1], q.bit, w);
        assert data[..] == was[2 * q.word := Put(was[2 * q.word], q.bit, v)][2 * q.word +
            1 := Put(was[2 * q.word + 1], q.bit, w)];
        forall p: Cell | In(data.Length, p)
          ensures Stamp(data[..], p) == if Hits(Hashes(), n + 1, x, p) then nGeneration else Stamp(old(data[..]), p)
        {
          PutStamp(was, q, v, w, p);
          HitsNext(Hashes(), n, x, p);
        }
      }
    }

    method Insert(x: Item)
      requires Valid()
      modifies this, data
      ensures Valid() && items == old(items) + [x] && nTweak == old(nTweak)
    {
      hide Stamp, StampOf, LastHit, Epoch, Current, Entries, Hits;
      var per := nEntriesPerGeneration;
      ghost var n, now := |items|, Current(per, |items|);
      NextEpoch(per, n);
      CurrentNext(per, n);
      if nEntriesThisGeneration == nEntriesPerGeneration {
        nEntriesThisGeneration := 0;
        nGeneration := nGeneration + 1;
        if nGeneration == 4 { nGeneration := 1; }
        ghost var was := data[..];
        Wipe();
        WipedStamps(Hashes(), per, was, data[..], items, now);
      }
      nEntriesThisGeneration := nEntriesThisGeneration + 1;
      ghost var mid := data[..];
      Mark(x);
      MarkedStamps(Hashes(), per, mid, data[..], items, x);
      items := items + [x];
    }

    /** Exactly: every position of x is a position of a recent item; hence true for each of the last nElements items. */
    method Contains(x: Item) returns (r: bool)
      requires Valid()
      ensures r <==> forall k | 0 <= k < nHashFuncs ::
          Known(Hashes(), nEntriesPerGeneration, items, Position(Hashes(), k, x))
      ensures (exists i | 0 <= i < |items| && |items| - nElements <= i :: items[i] == x) ==> r
    {
      hide StampOf, LastHit, Position, Known;
      InWindow(Hashes(), nEntriesPerGeneration, items, nElements, x);
      for n := 0 to nHashFuncs
        invariant forall k | 0 <= k < n :: Known(Hashes(), nEntriesPerGeneration, items, Position(Hashes(), k, x))
      {
        var q := Position(Hashing(murmur, nTweak, nHashFuncs, data.Length), n, x);
        SetExactly(Hashes(), nEntriesPerGeneration, items, q);
        assert Stamp(data[..], q) == StampOf(nEntriesPerGeneration, LastHit(Hashes(), items, q),
            Current(nEntriesPerGeneration, |items|));
        if q.bit !in data[2 * q.word] + data[2 * q.word + 1] { return false; }
      }
      return true;
    }
  }

  lemma EmptyStamped(g: Hashing, per: nat, data: seq<Word>)
    requires 0 < g.words == |data| && g.words % 2 == 0 && forall i | 0 <= i < |data| :: data[i] == {}
    ensures Stamped(g, per, data, [], Current(per, 0))
  {}

  lemma HitsNext(g: Hashing, n: nat, x: Item, p: Cell)
    requires 0 < g.words && g.words % 2 == 0
    ensures Hits(g, n + 1, x, p) <==> Hits(g, n, x, p) || Position(g, n, x) == p
  {
    hide Position;
  }

  lemma CurrentNext(per: nat, n: nat)
    ensures Current(per, n + 1) == Epoch(per, n)
  {}

  lemma WipedStamps(g: Hashing, per: nat, was: seq<Word>, data: seq<Word>, items: seq<Item>, now: nat)
    requires 0 < g.words && g.words % 2 == 0 && |data| == |was| && Stamped(g, per, was, items, now)
    requires now == Current(per, |items|)
    requires forall p: Cell | In(g.words, p) :: Stamp(data, p) == if Stamp(was, p) == (now + 1) % 3 + 1 then 0
        else Stamp(was, p)
    ensures Stamped(g, per, data, items, now + 1)
  {
    hide Stamp, StampOf, LastHit, Epoch, Current;
    forall p: Cell | In(g.words, p) ensures Stamp(data, p) == StampOf(per, LastHit(g, items, p), now + 1) {
      var i := LastHit(g, items, p);
      if i >= 0 { EpochOrder(per, i, |items|); }
      WipedStamp(per, i, now);
    }
  }

  lemma MarkedStamps(g: Hashing, per: nat, was: seq<Word>, data: seq<Word>, items: seq<Item>, x: Item)
    requires 0 < g.words && g.words % 2 == 0 && |data| == |was| && Stamped(g, per, was, items, Epoch(per, |items|))
    requires forall p: Cell | In(g.words, p) ::
      Stamp(data, p) == if Hits(g, g.nHashFuncs, x, p) then Epoch(per, |items|) % 3 + 1 else Stamp(was, p)
    ensures Stamped(g, per, data, items + [x], Epoch(per, |items|))
  {
    hide Stamp, Hits, Epoch;
    forall p: Cell | In(g.words, p) ensures Stamp(data, p) ==
        StampOf(per, LastHit(g, items + [x], p), Epoch(per, |items|)) {
      assert (items + [x])[..|items|] == items;
    }
  }

  lemma InWindow(g: Hashing, per: nat, items: seq<Item>, nElements: nat, x: Item)
    requires 0 < g.words && g.words % 2 == 0 && (per == 0 || nElements <= 2 * per)
    ensures (exists i | 0 <= i < |items| && |items| - nElements <= i :: items[i] == x) ==>
      forall k | 0 <= k < g.nHashFuncs :: Known(g, per, items, Position(g, k, x))
  {
    hide Position, Epoch;
    forall i, k | 0 <= i < |items| && |items| - nElements <= i && items[i] == x && 0 <= k < g.nHashFuncs
      ensures Known(g, per, items, Position(g, k, x))
    {
      RecentEnough(per, |items|, i);
      assert Hits(g, g.nHashFuncs, items[i], Position(g, k, x));
    }
  }
}
