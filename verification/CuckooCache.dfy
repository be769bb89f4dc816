/**
 The cuckoo cache as the source runs it: the table, the bit-packed discard flags
 and the epoch flags are arrays that insert, contains and epoch_check update in
 place. Every method is proved to compute the functions of module Cuckoo.
 */
module CuckooCache {

  import opened Cuckoo
  import opened Basics

  // ------------------------------------------------------- bit-packed flags

  /** 1 << i in a byte. */
  function Bit(i: nat): bv8
    requires i < 8
  {
    if i == 0 then 1 else if i == 1 then 2 else if i == 2 then 4 else if i == 3 then 8
    else if i == 4 then 16 else if i == 5 then 32 else if i == 6 then 64 else 128
  }

  predicate HasBit(x: bv8, i: nat)
    requires i < 8
  {
    x & Bit(i) != 0
  }

  function SetBit(x: bv8, i: nat): bv8
    requires i < 8
  {
    x | Bit(i)
  }

  function ClearBit(x: bv8, i: nat): bv8
    requires i < 8
  {
    x & !Bit(i)
  }

  lemma BitLaws(x: bv8, i: nat, j: nat)
    requires i < 8 && j < 8
    ensures HasBit(SetBit(x, i), j) <==> i == j || HasBit(x, j)
    ensures HasBit(ClearBit(x, i), j) <==> i != j && HasBit(x, j)
  {
    if i == 0 {} else if i == 1 {} else if i == 2 {} else if i == 3 {} else
    if i == 4 {} else if i == 5 {} else if i == 6 {} else {}
  }

  predicate IsSet(mem: seq<bv8>, s: nat)
    requires s / 8 < |mem|
  {
    HasBit(mem[s / 8], s % 8)
  }

  /** The first n flags packed in `mem`. */
  function Flags(mem: seq<bv8>, n: nat): (r: seq<bool>)
    requires n <= 8 * |mem|
    ensures |r| == n && forall i | 0 <= i < n :: r[i] == IsSet(mem, i)
  {
    seq(n, i requires 0 <= i < n => IsSet(mem, i))
  }

  function Raise(mem: seq<bv8>, s: nat): (r: seq<bv8>)
    requires s / 8 < |mem|
    ensures |r| == |mem|
  {
    mem[s / 8 := SetBit(mem[s / 8], s % 8)]
  }

  function Lower(mem: seq<bv8>, s: nat): (r: seq<bv8>)
    requires s / 8 < |mem|
    ensures |r| == |mem|
  {
    mem[s / 8 := ClearBit(mem[s / 8], s % 8)]
  }

  lemma SameBit(s: nat, i: nat)
    ensures s == i <==> s / 8 == i / 8 && s % 8 == i % 8
  {}

  lemma RaiseAt(mem: seq<bv8>, s: nat, i: nat)
    requires s / 8 < |mem| && i / 8 < |mem|
    ensures IsSet(Raise(mem, s), i) <==> i == s || IsSet(mem, i)
  {
    hide HasBit, SetBit;
    SameBit(s, i);
    BitLaws(mem[s / 8], s % 8, i % 8);
  }

  lemma LowerAt(mem: seq<bv8>, s: nat, i: nat)
    requires s / 8 < |mem| && i / 8 < |mem|
    ensures IsSet(Lower(mem, s), i) <==> i != s && IsSet(mem, i)
  {
    hide HasBit, ClearBit;
    SameBit(s, i);
    BitLaws(mem[s / 8], s % 8, i % 8);
  }

  lemma RaiseFlag(mem: seq<bv8>, n: nat, s: nat)
    requires s < n <= 8 * |mem|
    ensures Flags(Raise(mem, s), n) == Flags(mem, n)[s := true]
  {
    hide IsSet, Raise;
    forall i | 0 <= i < n ensures Flags(Raise(mem, s), n)[i] == Flags(mem, n)[s := true][i] { RaiseAt(mem, s, i); }
  }

  lemma LowerFlag(mem: seq<bv8>, n: nat, s: nat)
    requires s < n <= 8 * |mem|
    ensures Flags(Lower(mem, s), n) == Flags(mem, n)[s := false]
  {
    hide IsSet, Lower;
    forall i | 0 <= i < n ensures Flags(Lower(mem, s), n)[i] == Flags(mem, n)[s := false][i] { LowerAt(mem, s, i); }
  }

  /** How many bytes are allocated for `size` flags; the sum is 32 bits wide. */
  function FlagBytes(size: nat): nat { (size + 7) % U32 / 8 }

  /** The flags have room for every slot exactly when that sum does not wrap. */
  lemma FlagBytesSuffice(size: nat)
    requires 0 < size < U32
    ensures size <= 8 * FlagBytes(size) <==> size <= U32 - 8
    ensures size <= U32 - 8 ==> 8 * FlagBytes(size) < size + 8
  {}

  /** At the largest size of all there is no byte at all. */
  lemma NoFlagBytes()
    ensures FlagBytes(U32 - 1) == 0 && !(U32 - 1 <= 8 * FlagBytes(U32 - 1))
  {}

  // --------------------------------------------------------------- the cache

  class Cache {
    const cfg: Config
    const table: array<Elem>
    const collectionFlags: array<bv8>
    const epochFlags: array<bool>
    var counter: nat

    ghost predicate Valid() {
      && 0 < cfg.size == table.Length == epochFlags.Length && cfg.size <= 8 * collectionFlags.Length
      && (collectionFlags as object) != (table as object) && (collectionFlags as object) != (epochFlags as object)
      && (epochFlags as object) != (table as object)
    }

    ghost function St(): (s: State)
      requires Valid()
      reads this, table, collectionFlags, epochFlags
      ensures Shaped(cfg, s)
    {
      State(table[..], Discard(), epochFlags[..], counter)
    }

    ghost function Discard(): (r: seq<bool>)
      requires Valid()
      reads collectionFlags
      ensures |r| == cfg.size
    {
      Flags(collectionFlags[..], cfg.size)
    }

    /** setup: every slot holds a default element and is discardable. */
    constructor (newSize: nat, depthLimit: nat, hash: (nat, Key) -> nat)
      requires newSize <= U32 - 8 && 0 < depthLimit
      ensures Valid() && St() == Setup(cfg) && Inv(cfg, St())
      ensures cfg.size == Max(2, newSize) && cfg.epochSize == Max(1, 45 * cfg.size % U32 / 100)
      ensures cfg.depthLimit == depthLimit && cfg.hash == hash
      ensures fresh(table) && fresh(collectionFlags) && fresh(epochFlags)
    {
      var size := Max(2, newSize);
      var epochSize := Max(1, 45 * size % U32 / 100);
      cfg := Config(size, epochSize, depthLimit, hash);
      table := new Elem[size](i => Elem(DEFAULT, 0));
      collectionFlags := new bv8[FlagBytes(size)](i => 0xFF);
      epochFlags := new bool[size](i => false);
      counter := epochSize;
      new;
      FlagBytesSuffice(size);
      AllSet(collectionFlags[..], size);
      SetupOk(cfg);
      assert table[..] == Setup(cfg).table;
      assert epochFlags[..] == Setup(cfg).epoch;
    }

    /** bit_set. */
    method AllowErase(n: nat)
      requires Valid() && n < cfg.size
      modifies collectionFlags
      ensures Discard() == old(Discard())[n := true]
    {
      hide Flags;
      RaiseFlag(collectionFlags[..], cfg.size, n);
      collectionFlags[n / 8] := SetBit(collectionFlags[n / 8], n % 8);
      assert collectionFlags[..] == Raise(old(collectionFlags[..]), n);
    }

    /** bit_unset. */
    method PleaseKeep(n: nat)
      requires Valid() && n < cfg.size
      modifies collectionFlags
      ensures Discard() == old(Discard())[n := false]
    {
      hide Flags;
      LowerFlag(collectionFlags[..], cfg.size, n);
      collectionFlags[n / 8] := ClearBit(collectionFlags[n / 8], n % 8);
      assert collectionFlags[..] == Lower(old(collectionFlags[..]), n);
    }

    method BitIsSet(n: nat) returns (r: bool)
      requires Valid() && n < cfg.size
      ensures r == Discard()[n]
    {
      r := HasBit(collectionFlags[n / 8], n % 8);
    }

    method CountLive() returns (n: nat)
      requires Valid()
      ensures n == Live(St(), cfg.size)
    {
      hide Flags, Discard;
      n := 0;
      for i := 0 to cfg.size
        invariant n == Live(St(), i)
      {
        var gone := BitIsSet(i);
        if epochFlags[i] && !gone { n := n + 1; }
      }
    }

    method AgeAll()
      requires Valid()
      modifies this, collectionFlags, epochFlags
      ensures St() == Age(cfg, old(St()))
    {
      hide Flags, Discard;
      ghost var s := St();
      for i := 0 to cfg.size
        invariant counter == s.counter
        invariant forall j | 0 <= j < cfg.size :: epochFlags[j] == (i <= j && s.epoch[j])
        invariant forall j | 0 <= j < cfg.size :: Discard()[j] == (s.discard[j] || (j < i && !s.epoch[j]))
      {
        if epochFlags[i] { epochFlags[i] := false; } else { AllowErase(i); }
      }
      counter := cfg.epochSize;
      assert Discard() == Age(cfg, s).discard;
      assert epochFlags[..] == Age(cfg, s).epoch;
      assert table[..] == s.table;
    }

    method EpochCheck()
      requires Valid()
      modifies this, collectionFlags, epochFlags
      ensures St() == Cuckoo.EpochCheck(cfg, old(St()))
    {
      hide Discard, Live, Age;
      if counter != 0 {
        counter := counter - 1;
        return;
      }
      var unused := CountLive();
      if unused >= cfg.epochSize {
        AgeAll();
      } else {
        counter := Max(1, Max(cfg.epochSize / 16, cfg.epochSize - unused));
      }
    }

    method FindSlot(locs: seq<nat>, k: Key) returns (r: Option<nat>)
      requires Valid() && forall j | 0 <= j < |locs| :: locs[j] < cfg.size
      ensures r == FindKey(St().table, locs, k)
    {
      hide Flags, Discard;
      ghost var tab := table[..];
      for j := 0 to |locs|
        invariant FindKey(tab, locs, k) == FindKey(tab, locs[j..], k)
      {
        if table[locs[j]].key == k { return Some(locs[j]); }
      }
      return None;
    }

    method FindDiscardable(locs: seq<nat>) returns (r: Option<nat>)
      requires Valid() && forall j | 0 <= j < |locs| :: locs[j] < cfg.size
      ensures r == FindFree(Discard(), locs)
    {
      hide Flags, Discard;
      ghost var discard := Discard();
      for j := 0 to |locs|
        invariant FindFree(discard, locs) == FindFree(discard, locs[j..])
      {
        var free := BitIsSet(locs[j]);
        if free { return Some(locs[j]); }
      }
      return None;
    }

    /** std::find in the eight slots. */
    method Position(locs: seq<nat>, loc: int) returns (r: nat)
      ensures r == IndexOf(locs, loc)
    {
      r := 0;
      while r < |locs| && locs[r] != loc
        invariant r <= |locs| && IndexOf(locs, loc) == r + IndexOf(locs[r..], loc)
      {
        r := r + 1;
      }
    }

    method Insert(e0: Elem, replace: bool)
      requires Valid()
      modifies this, table, collectionFlags, epochFlags
      ensures St() == Cuckoo.Insert(cfg, old(St()), e0, replace)
    {
      hide Discard, Locs, FindKey, FindFree, Cuckoo.EpochCheck, Displace;
      EpochCheck();
      ghost var s1 := St();
      var locs := Locs(cfg, e0.key);
      var known := FindSlot(locs, e0.key);
      if known.Some? {
        var loc := known.value;
        if replace { table[loc] := e0; }
        PleaseKeep(loc);
        epochFlags[loc] := true;
        assert table[..] == Refresh(s1, loc, e0, replace).table;
        assert epochFlags[..] == s1.epoch[loc := true];
        return;
      }
      PlaceElement(e0);
    }

    /** The displacement loop of insert. */
    method PlaceElement(e0: Elem)
      requires Valid()
      modifies this, table, collectionFlags, epochFlags
      ensures St() == Place(cfg, old(St()), e0).s
    {
      hide Discard, Locs, FindFree, NextLoc;
      var e, lastLoc: int, lastEpoch := e0, U32 - 1, true;
      var locs := Locs(cfg, e.key);
      var depth := 0;
      while depth < cfg.depthLimit
        invariant 0 <= depth <= cfg.depthLimit && locs == Locs(cfg, e.key)
        invariant Displace(cfg, St(), e, lastLoc, lastEpoch, depth).s == Place(cfg, old(St()), e0).s
      {
        ghost var s := St();
        var free := FindDiscardable(locs);
        if free.Some? {
          var loc := free.value;
          table[loc] := e;
          PleaseKeep(loc);
          epochFlags[loc] := lastEpoch;
          assert table[..] == s.table[loc := e];
          assert epochFlags[..] == s.epoch[loc := lastEpoch];
          return;
        }
        var k := Position(locs, lastLoc);
        NextLocIn(locs, lastLoc);
        NextLocAt(locs, lastLoc);
        lastLoc := locs[(1 + k) % 8];
        e, table[lastLoc] := table[lastLoc], e;
        lastEpoch, epochFlags[lastLoc] := epochFlags[lastLoc], lastEpoch;
        locs := Locs(cfg, e.key);
        depth := depth + 1;
        assert table[..] == s.table[lastLoc := table[lastLoc]];
        assert epochFlags[..] == s.epoch[lastLoc := epochFlags[lastLoc]];
      }
    }

    /** find, contains and get: the element with key k, marked discardable on request. */
    method Find(k: Key, erase: bool) returns (found: bool, e: Elem)
      requires Valid()
      modifies collectionFlags
      ensures St() == if erase then Erase(cfg, old(St()), k) else old(St())
      ensures found == FindKey(old(St()).table, Locs(cfg, k), k).Some?
      ensures k != DEFAULT && Inv(cfg, old(St())) ==> (found <==> !Absent(old(St()).table, k))
      ensures found ==> e in old(St()).table && e.key == k
    {
      hide Discard, Locs;
      var slot := FindSlot(Locs(cfg, k), k);
      ghost var s := St();
      assert k != DEFAULT && Inv(cfg, s) ==> (slot.Some? <==> !Absent(s.table, k)) by {
        if k != DEFAULT && Inv(cfg, s) { ContainsExact(cfg, s, k); }
      }
      if slot.Some? {
        if erase { AllowErase(slot.value); }
        return true, table[slot.value];
      }
      return false, Elem(k, 0);
    }
  }

  lemma NextLocAt(locs: seq<nat>, last: int)
    requires |locs| == 8
    ensures NextLoc(locs, last) == locs[(1 + IndexOf(locs, last)) % 8]
  {}

  lemma AllSet(mem: seq<bv8>, n: nat)
    requires n <= 8 * |mem| && forall i | 0 <= i < |mem| :: mem[i] == 0xFF
    ensures Flags(mem, n) == seq(n, i => true)
  {
    hide HasBit;
    forall i | 0 <= i < n ensures IsSet(mem, i) { FullByte(i % 8); }
  }

  lemma FullByte(i: nat)
    requires i < 8
    ensures HasBit(0xFF, i)
  {}
}
