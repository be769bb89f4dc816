/**
 A stack of CCoinsViewCache objects over a coin database, updated in place as
 src/coins.cpp does. layers[0] sits on the database; the last layer is the one in
 use. Every method is proved against the plain outpoint-to-coin map that the top
 layer shows.
 */
module CoinsCache {

  import opened Coins

  ghost function FetchSpec(below: map<OutPoint, Coin>, l: Layer, o: OutPoint): Layer {
    if o in l.entries || o !in below then l else Fetched(l, o, below[o])
  }

  lemma FetchSpecOk(below: map<OutPoint, Coin>, l: Layer, o: OutPoint)
    requires LayerOk(below, l) && StoreOk(below)
    ensures LayerOk(below, FetchSpec(below, l, o))
    ensures Overlay(below, FetchSpec(below, l, o).entries) == Overlay(below, l.entries)
  {
    hide LayerOk, Overlay, Fetched;
    if o !in l.entries && o in below { FetchedOk(below, l, o); }
  }

  /** The coin a cache shows at o, read off its entry once FetchCoin has filled it in. */
  lemma Shown(below: map<OutPoint, Coin>, l: Layer, o: OutPoint)
    requires LayerOk(below, l) && (o in l.entries || o !in below)
    ensures o in Overlay(below, l.entries) <==> o in l.entries && !IsSpent(l.entries[o].coin)
    ensures o in Overlay(below, l.entries) ==> Overlay(below, l.entries)[o] == l.entries[o].coin
    ensures o in l.entries && o !in Overlay(below, l.entries) ==> l.entries[o].coin == EMPTY
  {
    hide Usage;
    if o in l.entries { assert EntryOk(below, o, l.entries[o]); }
  }

  lemma StoredAt(store: map<OutPoint, Coin>, o: OutPoint, e: Entry)
    ensures var now := if !e.isDirty then store else if IsSpent(e.coin) then store - {o} else store[o := e.coin];
      At(now, o) == Write(At(store, o), e) && forall p | p != o :: At(now, p) == At(store, p)
  {}

  /** Some entries of a child are merged, each as if alone, and none that is misapplied. */
  ghost predicate PartlyMerged(parent: map<OutPoint, Entry>, child: map<OutPoint, Entry>, now: map<OutPoint, Entry>) {
    forall o :: At(now, o) == At(parent, o) ||
      (o in child && !Misapplied(At(parent, o), child[o]) && At(now, o) == Merge(At(parent, o), child[o]))
  }

  /** A cache that is honest except for its memory count. */
  lemma CountOff(below: map<OutPoint, Coin>, l: Layer, usage: nat)
    requires LayerOk(below, l)
    ensures LayerOk(below, l.(usage := usage)) <==> usage == l.usage
  {
    hide EntriesOk, Usage;
  }

  class CoinsStack {
    var store: map<OutPoint, Coin>
    var storeBlock: nat
    var layers: seq<Layer>

    ghost predicate Valid() reads this { layers != [] && StackOk(store, layers) }

    /** The coins visible through the cache in use. */
    ghost function Visible(): map<OutPoint, Coin> reads this { View(store, layers) }

    constructor (db: map<OutPoint, Coin>, block: nat)
      requires StoreOk(db)
      ensures Valid() && Visible() == db && store == db && storeBlock == block && layers == [EMPTY_LAYER]
    {
      store, storeBlock, layers := db, block, [EMPTY_LAYER];
      new;
      Snoc(db, layers, 0);
      assert layers[..1] == layers;
      assert Overlay(db, map[]) == db;
    }

    /** A new cache on top. */
    method Push()
      requires Valid()
      modifies this`layers
      ensures Valid() && Visible() == old(Visible()) && layers == old(layers) + [EMPTY_LAYER]
    {
      layers := layers + [EMPTY_LAYER];
      assert layers[..|layers| - 1] == old(layers);
      assert Overlay(old(Visible()), map[]) == old(Visible());
    }

    /** FetchCoin of cache k: finds the entry, or asks the caches below for the coin and keeps it. */
    method FetchCoin(k: nat, o: OutPoint) returns (found: bool)
      requires StackOk(store, layers) && k < |layers|
      modifies this`layers
      decreases k, 1
      ensures StackOk(store, layers) && SameViews(store, layers, old(layers))
      ensures layers[k] == FetchSpec(View(store, old(layers)[..k]), old(layers)[k], o)
      ensures layers[k + 1..] == old(layers)[k + 1..]
      ensures forall j | 0 <= j < |layers| :: layers[j].hashBlock == old(layers)[j].hashBlock
      ensures found <==> o in layers[k].entries
      ensures found <==> o in old(layers)[k].entries || o in View(store, old(layers)[..k])
    {
      hide LayerOk, Overlay, StackOk, View, StoreOk;
      if o in layers[k].entries { return true; }
      StackPrefix(store, layers, k);
      ViewUnspent(store, layers[..k]);
      var have, tmp := BaseGetCoin(k, o);
      if !have { return false; }
      StackPrefix(store, layers, k);
      ViewUnspent(store, layers[..k]);
      FetchSpecOk(View(store, layers[..k]), layers[k], o);
      ReplaceLayer(store, layers, k, Fetched(layers[k], o, tmp));
      layers := layers[k := Fetched(layers[k], o, tmp)];
      return true;
    }

    /** base->GetCoin of cache k. */
    method BaseGetCoin(k: nat, o: OutPoint) returns (have: bool, coin: Coin)
      requires StackOk(store, layers) && k < |layers|
      modifies this`layers
      decreases k, 0
      ensures StackOk(store, layers) && SameViews(store, layers, old(layers))
      ensures layers[k..] == old(layers)[k..]
      ensures forall j | 0 <= j < |layers| :: layers[j].hashBlock == old(layers)[j].hashBlock
      ensures have <==> o in View(store, old(layers)[..k])
      ensures have ==> coin == View(store, old(layers)[..k])[o]
    {
      hide LayerOk, Overlay, StackOk, StoreOk;
      if k == 0 {
        have := o in store;
        coin := if have then store[o] else EMPTY;
      } else {
        have, coin := GetCoin(k - 1, o);
      }
    }

    method GetCoin(k: nat, o: OutPoint) returns (have: bool, coin: Coin)
      requires StackOk(store, layers) && k < |layers|
      modifies this`layers
      decreases k, 2
      ensures StackOk(store, layers) && SameViews(store, layers, old(layers))
      ensures layers[k + 1..] == old(layers)[k + 1..]
      ensures forall j | 0 <= j < |layers| :: layers[j].hashBlock == old(layers)[j].hashBlock
      ensures have <==> o in View(store, old(layers)[..k + 1])
      ensures have ==> coin == View(store, old(layers)[..k + 1])[o]
    {
      hide LayerOk, Overlay, StackOk, View, StoreOk;
      var found := FetchCoin(k, o);
      StackPrefix(store, layers, k);
      Snoc(store, layers, k);
      Shown(View(store, layers[..k]), layers[k], o);
      coin := if found then layers[k].entries[o].coin else EMPTY;
      have := found && !IsSpent(coin);
    }

    method HaveCoin(k: nat, o: OutPoint) returns (have: bool)
      requires StackOk(store, layers) && k < |layers|
      modifies this`layers
      ensures StackOk(store, layers) && SameViews(store, layers, old(layers))
      ensures layers[k + 1..] == old(layers)[k + 1..]
      ensures have <==> o in View(store, old(layers)[..k + 1])
    {
      hide LayerOk, Overlay, StackOk, View, StoreOk;
      var found := FetchCoin(k, o);
      StackPrefix(store, layers, k);
      Snoc(store, layers, k);
      Shown(View(store, layers[..k]), layers[k], o);
      have := found && !IsSpent(layers[k].entries[o].coin);
    }

    /** The coin, or the empty one for an outpoint that is absent or spent. */
    method AccessCoin(k: nat, o: OutPoint) returns (coin: Coin)
      requires StackOk(store, layers) && k < |layers|
      modifies this`layers
      ensures StackOk(store, layers) && SameViews(store, layers, old(layers))
      ensures layers[k + 1..] == old(layers)[k + 1..]
      ensures var v := View(store, old(layers)[..k + 1]); coin == if o in v then v[o] else EMPTY
    {
      hide LayerOk, Overlay, StackOk, View, StoreOk;
      var found := FetchCoin(k, o);
      StackPrefix(store, layers, k);
      Snoc(store, layers, k);
      Shown(View(store, layers[..k]), layers[k], o);
      coin := if found then layers[k].entries[o].coin else EMPTY;
    }

    /** Removes an unmodified entry; what every cache shows stays the same. */
    method Uncache(k: nat, o: OutPoint)
      requires StackOk(store, layers) && k < |layers|
      modifies this`layers
      ensures StackOk(store, layers) && SameViews(store, layers, old(layers))
      ensures forall j | 0 <= j < |layers| && j != k :: layers[j] == old(layers)[j]
      ensures var e := old(layers)[k].entries;
        layers[k].entries == if o in e && !e[o].isDirty && !e[o].isFresh then e - {o} else e
    {
      hide LayerOk, Overlay, StackOk, View, Mem;
      var l := layers[k];
      if o in l.entries && !l.entries[o].isDirty && !l.entries[o].isFresh {
        StackPrefix(store, layers, k);
        UncachedOk(View(store, layers[..k]), l, o);
        var l' := Layer(l.entries - {o}, l.usage - Mem(l.entries[o].coin), l.hashBlock);
        ReplaceLayer(store, layers, k, l');
        layers := layers[k := l'];
      }
    }

    /**
     AddCoin on the cache in use. It throws exactly when it would replace a cached
     unspent coin without leave. Otherwise the coin becomes visible, and the flags
     stay honest exactly when the caller keeps the rule: without possibleOverwrite
     the coin must not exist below. When it throws it has already taken the cached
     coin off the memory count, so the cache stays valid exactly when that coin
     counted for nothing.
     */
    method AddCoin(o: OutPoint, coin: Coin, possibleOverwrite: bool) returns (threw: bool)
      requires Valid() && !IsSpent(coin)
      modifies this`layers
      ensures |layers| == |old(layers)| && layers[..|layers| - 1] == old(layers)[..|layers| - 1]
      ensures var e := old(layers)[|layers| - 1].entries;
        && (threw <==> !IsUnspendable(coin.out.scriptPubKey) && !possibleOverwrite && o in e && !IsSpent(e[o].coin))
        && (!threw && !IsUnspendable(coin.out.scriptPubKey) ==>
              (Valid() <==> possibleOverwrite || o in e || o !in old(Visible())))
      ensures threw ==> var l := old(layers)[|layers| - 1];
        && Visible() == old(Visible()) && Mem(l.entries[o].coin) <= l.usage
        && layers == old(layers)[|layers| - 1 := l.(usage := l.usage - Mem(l.entries[o].coin))]
        && (Valid() <==> Mem(l.entries[o].coin) == 0)
      ensures !threw && IsUnspendable(coin.out.scriptPubKey) ==> layers == old(layers)
      ensures !threw && !IsUnspendable(coin.out.scriptPubKey) ==> var l := old(layers)[|layers| - 1];
        && Visible() == old(Visible())[o := coin]
        && layers[|layers| - 1].entries == l.entries[o := Added(l, o, coin, possibleOverwrite)]
        && layers[|layers| - 1].usage == l.usage - (if o in l.entries then Mem(l.entries[o].coin) else 0) + Mem(coin)
    {
      hide Mem, StackOk, View, LayerOk, Overlay, EntriesOk;
      var top := |layers| - 1;
      var l := layers[top];
      ghost var below := View(store, layers[..top]);
      assert layers[..top + 1] == layers;
      StackPrefix(store, layers, top);
      Snoc(store, layers, top);
      if IsUnspendable(coin.out.scriptPubKey) { return false; }
      if o in l.entries {
        UsageSet(l.entries, o, Entry(coin, true, false));
        UsageOk(below, l);
        l := l.(usage := l.usage - Mem(l.entries[o].coin));
        if !possibleOverwrite && !IsSpent(l.entries[o].coin) {
          TopIs(store, layers, l);
          CountOff(below, layers[top], l.usage);
          layers := layers[top := l];
          return true;
        }
      }
      var e := Added(l, o, coin, possibleOverwrite);
      var now := Layer(l.entries[o := e], l.usage + Mem(coin), l.hashBlock);
      AddedOk(below, layers[top], o, coin, possibleOverwrite);
      AddedUsage(below, layers[top], now, o, e);
      TopIs(store, layers, now);
      CachedOrBelow(below, layers[top], o);
      layers := layers[top := now];
      return false;
    }

    /**
     SpendCoin removes the coin from the visible map and hands it out. It also answers
     true for an entry spent before.
     */
    method SpendCoin(o: OutPoint) returns (r: bool, moveout: Coin)
      requires Valid()
      modifies this`layers
      ensures Valid() && Visible() == old(Visible()) - {o}
      ensures |layers| == |old(layers)| && (r <==> o in old(layers)[|layers| - 1].entries || o in old(Visible()))
      ensures moveout == if o in old(Visible()) then old(Visible())[o] else EMPTY
      ensures var top := |layers| - 1; var l := FetchSpec(View(store, old(layers)[..top]), old(layers)[top], o);
        (r <==> o in l.entries) && layers[top].entries == if r then Spent(l.entries, o) else l.entries
    {
      hide LayerOk, Overlay, StackOk, View, StoreOk, Mem, Fetched;
      var top := |layers| - 1;
      assert old(layers)[..top + 1] == old(layers);
      StackPrefix(store, layers, top);
      Snoc(store, layers, top);
      var found := FetchCoin(top, o);
      assert layers[..top + 1] == layers;
      StackPrefix(store, layers, top);
      Snoc(store, layers, top);
      var l := layers[top];
      Shown(View(store, layers[..top]), l, o);
      CachedOrBelow(View(store, layers[..top]), l, o);
      CachedOrBelow(View(store, layers[..top]), old(layers)[top], o);
      if !found {
        assert Visible() - {o} == Visible();
        return false, EMPTY;
      }
      moveout := l.entries[o].coin;
      SpentOk(View(store, layers[..top]), l, o);
      var now := Layer(Spent(l.entries, o), l.usage - Mem(moveout), l.hashBlock);
      TopIs(store, layers, now);
      layers := layers[top := now];
      return true, moveout;
    }

    /**
     BatchWrite of cache k: merges the entries of a child in any order. It throws
     exactly when some FRESH entry of the child meets an unspent coin.
     */
    method BatchWrite(k: nat, mapCoins: map<OutPoint, Entry>, hashBlockIn: nat) returns (threw: bool)
      requires k < |layers| && layers[k].usage == Usage(layers[k].entries)
      modifies this`layers
      ensures |layers| == |old(layers)| && forall j | 0 <= j < |layers| && j != k :: layers[j] == old(layers)[j]
      ensures threw <==> exists o | o in mapCoins :: Misapplied(At(old(layers)[k].entries, o), mapCoins[o])
      ensures threw ==>
        && layers[k].usage == Usage(layers[k].entries) && layers[k].hashBlock == old(layers)[k].hashBlock
        && PartlyMerged(old(layers)[k].entries, mapCoins, layers[k].entries)
      ensures !threw ==>
        && Merged(old(layers)[k].entries, mapCoins, layers[k].entries)
        && layers[k].usage == Usage(layers[k].entries) && layers[k].hashBlock == hashBlockIn
    {
      hide Mem, Usage, Merge;
      var todo := mapCoins;
      ghost var before := layers[k].entries;
      while todo != map[]
        invariant |layers| == |old(layers)| && forall j | 0 <= j < |layers| && j != k :: layers[j] == old(layers)[j]
        invariant forall o | o in todo ::
            o in mapCoins && todo[o] == mapCoins[o] && At(layers[k].entries, o) == At(before, o)
        invariant forall o | o in mapCoins && o !in todo :: !Misapplied(At(before, o), mapCoins[o])
        invariant forall o | o in mapCoins && o !in todo ::
            At(layers[k].entries, o) == Merge(At(before, o), mapCoins[o])
        invariant forall o | o !in mapCoins :: At(layers[k].entries, o) == At(before, o)
        invariant layers[k].usage == Usage(layers[k].entries) && layers[k].hashBlock == old(layers)[k].hashBlock
        decreases |todo|
      {
        var o :| o in todo;
        threw := WriteEntry(k, o, todo[o]);
        if threw { assert Misapplied(At(before, o), mapCoins[o]); return true; }
        todo := todo - {o};
      }
      layers := layers[k := layers[k].(hashBlock := hashBlockIn)];
      return false;
    }

    /** One turn of the loop in BatchWrite. */
    method WriteEntry(k: nat, o: OutPoint, e: Entry) returns (threw: bool)
      requires k < |layers| && layers[k].usage == Usage(layers[k].entries)
      modifies this`layers
      ensures |layers| == |old(layers)| && forall j | 0 <= j < |layers| && j != k :: layers[j] == old(layers)[j]
      ensures threw <==> Misapplied(At(old(layers)[k].entries, o), e)
      ensures threw ==> layers == old(layers)
      ensures !threw ==>
        && layers[k].hashBlock == old(layers)[k].hashBlock
        && At(layers[k].entries, o) == Merge(At(old(layers)[k].entries, o), e)
        && (forall p | p != o :: At(layers[k].entries, p) == At(old(layers)[k].entries, p))
        && layers[k].usage == Usage(layers[k].entries)
    {
      hide Mem, Usage;
      if !e.isDirty { return false; }
      var us := layers[k];
      if o !in us.entries {
        if !(e.isFresh && IsSpent(e.coin)) {
          var entry := Entry(e.coin, true, e.isFresh);
          UsageAdd(us.entries, o, entry);
          layers := layers[k := us.(entries := us.entries[o := entry], usage := us.usage + Mem(e.coin))];
        }
      } else {
        var itUs := us.entries[o];
        if e.isFresh && !IsSpent(itUs.coin) { return true; }
        UsageRemove(us.entries, o);
        if itUs.isFresh && IsSpent(e.coin) {
          layers := layers[k := us.(entries := us.entries - {o}, usage := us.usage - Mem(itUs.coin))];
        } else {
          var entry := itUs.(coin := e.coin, isDirty := true);
          UsageSet(us.entries, o, entry);
          layers := layers[k := us.(entries := us.entries[o := entry],
              usage := us.usage - Mem(itUs.coin) + Mem(e.coin))];
        }
      }
      return false;
    }

    /** BatchWrite of the database, whose batch is written as a whole. */
    method StoreBatchWrite(mapCoins: map<OutPoint, Entry>, hashBlock: nat)
      requires hashBlock != 0
      modifies this`store, this`storeBlock
      ensures Written(old(store), mapCoins, store) && storeBlock == hashBlock
    {
      hide At, Write;
      var todo := mapCoins;
      while todo != map[]
        invariant forall o | o in todo :: o in mapCoins && todo[o] == mapCoins[o] && At(store, o) == At(old(store), o)
        invariant forall o | o in mapCoins && o !in todo :: At(store, o) == Write(At(old(store), o), mapCoins[o])
        invariant forall o | o !in mapCoins :: At(store, o) == At(old(store), o)
        decreases |todo|
      {
        var o :| o in todo;
        StoredAt(store, o, todo[o]);
        if todo[o].isDirty {
          store := if IsSpent(todo[o].coin) then store - {o} else store[o := todo[o].coin];
        }
        todo := todo - {o};
      }
      storeBlock := hashBlock;
    }

    /**
     Flush of cache k into the cache or database below it. It never throws; the base
     then shows what cache k showed, every cache from k up shows what it did, and
     the stack stays honest.
     */
    method Flush(k: nat) returns (fOk: bool)
      requires StackOk(store, layers) && k < |layers| && (k == 0 ==> layers[0].hashBlock != 0)
      modifies this
      ensures fOk && StackOk(store, layers) && |layers| == |old(layers)|
      ensures layers[k] == Layer(map[], 0, old(layers)[k].hashBlock) && layers[k + 1..] == old(layers)[k + 1..]
      ensures View(store, layers[..k]) == old(View(store, layers[..k + 1]))
      ensures forall j | k < j <= |layers| :: View(store, layers[..j]) == old(View(store, layers[..j]))
      ensures k == 0 ==> storeBlock == old(layers)[0].hashBlock
      ensures k != 0 ==> store == old(store) && storeBlock == old(storeBlock) && layers[..k - 1] == old(layers)[..k - 1]
      ensures k != 0 ==> layers[k - 1].hashBlock == old(layers)[k].hashBlock
    {
      hide Overlay, StackOk, View, StoreOk, EntriesOk, Merged, Written, Usage;
      var child := layers[k];
      ghost var store0, layers0 := store, layers;
      Snoc(store, layers, k);
      StackPrefix(store, layers, k);
      ghost var below := View(store, layers[..k]);
      if k == 0 {
        StoreBatchWrite(child.entries, child.hashBlock);
        DatabaseTakes(store0, layers0, store);
      } else {
        StackPrefix(store, layers, k - 1);
        NeverMisapplied(store, layers, k);
        var threw := BatchWrite(k - 1, child.entries, child.hashBlock);
        ParentTakes(store0, layers0, layers, k);
      }
      layers := layers[k := Layer(map[], 0, child.hashBlock)];
      assert layers[..k] == layers[..k];
      forall j | k < j <= |layers| ensures StackOk(store, layers[..j])
          && View(store, layers[..j]) == View(store0, layers0[..j]) {
        EmptiedLayer(store0, layers0, store, layers, k, j);
      }
      assert layers[..|layers|] == layers;
      return true;
    }

    /** Flushing every cache, from the top down, leaves the database equal to what the top showed. */
    method FlushAll()
      requires Valid() && layers[|layers| - 1].hashBlock != 0
      modifies this
      ensures Valid() && store == old(Visible()) == Visible()
      ensures |layers| == |old(layers)| && storeBlock == old(layers)[|layers| - 1].hashBlock
      ensures forall j | 0 <= j < |layers| :: layers[j].entries == map[]
    {
      hide Overlay, StackOk, StoreOk, EntriesOk, Merged, Written, Usage;
      var k := |layers|;
      assert layers[..k] == layers;
      while 0 < k
        invariant 0 <= k <= |layers| == |old(layers)| && StackOk(store, layers)
        invariant View(store, layers[..k]) == View(store, layers) == old(Visible())
        invariant 0 < k ==> layers[k - 1].hashBlock == old(layers)[|layers| - 1].hashBlock
        invariant k == 0 ==> storeBlock == old(layers)[|layers| - 1].hashBlock
        invariant forall j | k <= j < |layers| :: layers[j].entries == map[]
      {
        k := k - 1;
        ghost var upper := layers[k + 1..];
        var fOk := Flush(k);
        assert layers[..|layers|] == layers;
        forall j | k < j < |layers| ensures layers[j].entries == map[] { assert layers[j] == upper[j - k - 1]; }
      }
    }

    /** GetBestBlock of cache k, which remembers what it learns from below. */
    method GetBestBlock(k: nat) returns (hash: nat)
      requires k < |layers|
      modifies this`layers
      decreases k
      ensures hash == BestBlock(storeBlock, old(layers)[..k + 1]) && |layers| == |old(layers)|
      ensures BestBlock(storeBlock, layers[..k + 1]) == hash && layers[k + 1..] == old(layers)[k + 1..]
      ensures forall j | 0 <= j < |layers| :: layers[j] == old(layers)[j].(hashBlock := layers[j].hashBlock)
    {
      assert old(layers)[..k + 1][..k] == old(layers)[..k];
      if layers[k].hashBlock == 0 {
        var below := storeBlock;
        if 0 < k { below := GetBestBlock(k - 1); }
        assert layers[k] == old(layers)[k..][0];
        layers := layers[k := layers[k].(hashBlock := below)];
        assert layers[..k + 1][..k] == layers[..k];
      }
      hash := layers[k].hashBlock;
    }

    method SetBestBlock(k: nat, hash: nat)
      requires k < |layers|
      modifies this`layers
      ensures layers == old(layers)[k := old(layers)[k].(hashBlock := hash)]
      ensures old(StackOk(store, layers)) ==> StackOk(store, layers) && SameViews(store, layers, old(layers))
    {
      hide View, Overlay, StackOk;
      ghost var l := layers[k].(hashBlock := hash);
      if StackOk(store, layers) {
        StackPrefix(store, layers, k);
        ReplaceLayer(store, layers, k, l);
      }
      layers := layers[k := layers[k].(hashBlock := hash)];
    }

    /** AddCoins for the outputs of one transaction, with the overwrite rule of its two modes. */
    method AddCoins(txid: nat, vout: seq<TxOut>, nHeight: nat, fCoinbase: bool, check: bool) returns (threw: bool)
      requires Valid() && forall i | 0 <= i < |vout| :: vout[i].nValue != -1
      requires check || fCoinbase || forall i: nat | i < |vout| :: OutPoint(txid, i) !in Visible()
      modifies this`layers
      ensures !threw && Valid() && |layers| == |old(layers)|
      ensures Visible() == WithOutputs(old(Visible()), txid, vout, nHeight, fCoinbase, |vout|)
    {
      hide StackOk, View, IsUnspendable;
      ghost var start := Visible();
      for i := 0 to |vout|
        invariant Valid() && |layers| == |old(layers)|
        invariant Visible() == WithOutputs(start, txid, vout, nHeight, fCoinbase, i)
      {
        var o := OutPoint(txid, i);
        OutputsAt(start, txid, vout, nHeight, fCoinbase, i, o);
        var overwrite := fCoinbase;
        if check {
          assert layers[..|layers|] == layers;
          overwrite := HaveCoin(|layers| - 1, o);
          assert layers[..|layers|] == layers;
        }
        assert !overwrite ==> o !in Visible();
        UnspentCached(store, layers, o);
        threw := AddCoin(o, Coin(vout[i], nHeight, fCoinbase), overwrite);
      }
      return false;
    }
  }

  /** A cached unspent coin is visible. */
  lemma UnspentCached(store: map<OutPoint, Coin>, layers: seq<Layer>, o: OutPoint)
    requires layers != []
    ensures var e := layers[|layers| - 1].entries; o in e && !IsSpent(e[o].coin) ==> o in View(store, layers)
  {}

  lemma NeverMisapplied(store: map<OutPoint, Coin>, layers: seq<Layer>, k: nat)
    requires StackOk(store, layers) && 0 < k < |layers|
    ensures forall o | o in layers[k].entries :: !Misapplied(At(layers[k - 1].entries, o), layers[k].entries[o])
  {
    hide StackOk, View, Overlay, Misapplied, Usage, EntriesOk, At;
    StackPrefix(store, layers, k);
    StackPrefix(store, layers, k - 1);
    Snoc(store, layers, k - 1);
    forall o | o in layers[k].entries ensures !Misapplied(At(layers[k - 1].entries, o), layers[k].entries[o]) {
      MergeOk(View(store, layers[..k - 1]), layers[k - 1].entries, layers[k].entries, o);
    }
  }

  lemma ParentTakes(store: map<OutPoint, Coin>, a: seq<Layer>, b: seq<Layer>, k: nat)
    requires StackOk(store, a) && 0 < k < |a| == |b| && forall j | 0 <= j < |a| && j != k - 1 :: a[j] == b[j]
    requires Merged(a[k - 1].entries, a[k].entries, b[k - 1].entries) && b[k - 1].usage == Usage(b[k - 1].entries)
    ensures StackOk(store, b[..k]) && View(store, b[..k]) == View(store, a[..k + 1])
  {
    hide StackOk, View, Overlay, Usage, EntriesOk, Merged;
    StackPrefix(store, a, k);
    StackPrefix(store, a, k - 1);
    Snoc(store, a, k - 1);
    Snoc(store, a, k);
    Snoc(store, b, k - 1);
    assert a[..k - 1] == b[..k - 1];
    MergedOk(View(store, a[..k - 1]), a[k - 1].entries, a[k].entries, b[k - 1].entries);
  }

  lemma DatabaseTakes(store: map<OutPoint, Coin>, layers: seq<Layer>, now: map<OutPoint, Coin>)
    requires StackOk(store, layers) && layers != [] && Written(store, layers[0].entries, now)
    ensures StackOk(now, layers[..0]) && View(now, layers[..0]) == View(store, layers[..1])
  {
    hide Overlay, Usage, EntriesOk, Written;
    StackPrefix(store, layers, 0);
    Snoc(store, layers, 0);
    WrittenOk(store, layers[0].entries, now);
  }

  /** A script of 29 bytes is one byte too long to be kept inline. */
  function LongCoin(): Coin { Coin(TxOut(1, seq(29, i => 0), []), 0, false) }

  lemma LongCounts()
    ensures Mem(LongCoin()) != 0
  {}

  /** Adding the same coin twice: the second call throws and leaves the cache with a wrong memory count. */
  method AddTwice(o: OutPoint) returns (threw: bool, stack: CoinsStack)
    ensures threw && fresh(stack) && !stack.Valid()
    ensures |stack.layers| == 1 && stack.layers[0].usage == 0
    ensures o in stack.layers[0].entries && stack.layers[0].entries[o].coin == LongCoin()
  {
    hide StackOk, View, Overlay, Usage, Mem;
    LongCounts();
    stack := new CoinsStack(map[], 0);
    var coin := LongCoin();
    threw := stack.AddCoin(o, coin, false);
    threw := stack.AddCoin(o, coin, false);
  }

  /** Spending the same coin twice: the second call finds no coin and still answers true. */
  method SpendTwice(o: OutPoint, coin: Coin) returns (r: bool, moveout: Coin)
    requires !IsSpent(coin)
    ensures r && moveout == EMPTY
  {
    hide StackOk, Mem;
    var stack := new CoinsStack(map[o := coin], 0);
    r, moveout := stack.SpendCoin(o);
    r, moveout := stack.SpendCoin(o);
  }

  lemma TwoCaches(storeBlock: nat, layers: seq<Layer>)
    requires |layers| == 2
    ensures BestBlock(storeBlock, layers) ==
        if layers[1].hashBlock != 0 then layers[1].hashBlock
        else if layers[0].hashBlock != 0 then layers[0].hashBlock else storeBlock
  {
    assert layers[..1][..0] == [];
    assert BestBlock(storeBlock, layers[..1][..0]) == storeBlock;
    assert BestBlock(storeBlock, layers[..1]) == if layers[0].hashBlock != 0 then layers[0].hashBlock else storeBlock;
  }

  /** Flushing a new cache that does not know its block yet: the parent forgets the block that it knew. */
  method FlushForgets(block: nat, best: nat) returns (seen: nat, ghost before: nat)
    requires best != 0
    ensures before == best && seen == block
  {
    hide StackOk, View, Overlay, Mem;
    var stack := new CoinsStack(map[], block);
    stack.SetBestBlock(0, best);
    stack.Push();
    before := BestBlock(stack.storeBlock, stack.layers);
    TwoCaches(block, stack.layers);
    var ok := stack.Flush(1);
    assert stack.layers[..2] == stack.layers;
    TwoCaches(block, stack.layers);
    seen := stack.GetBestBlock(1);
  }
}
