/**
 The values behind the UTXO caches of src/coins.cpp: coins, cache entries with
 their DIRTY and FRESH flags, the map that a stack of caches shows, and when the
 flags of a stack are honest.
 */
module Coins {
  import opened Basics

  datatype OutPoint = OutPoint(txid: nat, n: nat)

  datatype TxOut = TxOut(nValue: int, scriptPubKey: seq<nat>, token: seq<nat>)

  datatype Coin = Coin(out: TxOut, nHeight: nat, coinBase: bool)

  const EMPTY: Coin := Coin(TxOut(-1, [], []), 0, false)

  const OP_RETURN := 0x6a
  const MAX_SCRIPT_SIZE := 10000

  predicate IsSpent(c: Coin) { c.out.nValue == -1 }

  predicate IsUnspendable(script: seq<nat>) {
    (script != [] && script[0] == OP_RETURN) || |script| > MAX_SCRIPT_SIZE
  }

  function MallocUsage(alloc: nat): nat { if alloc == 0 then 0 else (alloc + 31) / 16 * 16 }

  /** What a coin allocates: its script when longer than the 28 bytes kept inline, and its token data. */
  function Mem(c: Coin): nat {
    MallocUsage(if |c.out.scriptPubKey| <= 28 then 0 else |c.out.scriptPubKey|) + MallocUsage(|c.out.token|)
  }

  /** Outputs that never become coins: those that start with OP_RETURN, and those with more than 10000 bytes. */
  lemma UnspendableExactly(script: seq<nat>)
    ensures IsUnspendable(script) <==> [0x6a] <= script || 10000 < |script|
  {}

  /** An allocation takes whole blocks of 16 bytes and at least 16 more than asked for. */
  lemma MallocExactly(n: nat)
    ensures MallocUsage(n) % 16 == 0
    ensures if n == 0 then MallocUsage(n) == 0 else n + 16 <= MallocUsage(n) < n + 32
  {}

  /** Scripts of up to 28 bytes allocate nothing, and a longer one or token data always does. */
  lemma MemExactly(c: Coin)
    ensures Mem(c) == 0 <==> |c.out.scriptPubKey| < 29 && c.out.token == []
    ensures |c.out.scriptPubKey| < 29 ==> Mem(c) == MallocUsage(|c.out.token|)
    ensures 29 <= |c.out.scriptPubKey| ==> Mem(c) == MallocUsage(|c.out.scriptPubKey|) + MallocUsage(|c.out.token|)
  {
    MallocExactly(|c.out.scriptPubKey|);
    MallocExactly(|c.out.token|);
    hide MallocUsage;
  }

  datatype Entry = Entry(coin: Coin, isDirty: bool, isFresh: bool)

  /** One CCoinsViewCache. Block hash 0 is the null hash. */
  datatype Layer = Layer(entries: map<OutPoint, Entry>, usage: nat, hashBlock: nat)

  const EMPTY_LAYER := Layer(map[], 0, 0)

  // ---------------------------------------------------------------- visible coins

  /** The coins seen through a cache over `below`. */
  ghost function Overlay(below: map<OutPoint, Coin>, entries: map<OutPoint, Entry>): map<OutPoint, Coin> {
    map o | o in below.Keys + entries.Keys && (o in entries ==> !IsSpent(entries[o].coin)) ::
      if o in entries then entries[o].coin else below[o]
  }

  /** The coins seen through a stack of caches; the last layer is the top. */
  ghost function View(store: map<OutPoint, Coin>, layers: seq<Layer>): map<OutPoint, Coin> {
    if layers == [] then store else Overlay(View(store, layers[..|layers| - 1]), layers[|layers| - 1].entries)
  }

  /** The best block seen through a stack of caches: a null hash defers to the cache below. */
  function BestBlock(storeBlock: nat, layers: seq<Layer>): nat {
    if layers == [] then storeBlock
    else if layers[|layers| - 1].hashBlock != 0 then layers[|layers| - 1].hashBlock
    else BestBlock(storeBlock, layers[..|layers| - 1])
  }

  // --------------------------------------------------------------- honest flags

  /** FRESH: the coin is not below. No flag: it is below, unchanged. A spent entry is DIRTY. */
  ghost predicate EntryOk(below: map<OutPoint, Coin>, o: OutPoint, e: Entry) {
    && (e.isFresh ==> o !in below && e.isDirty && !IsSpent(e.coin))
    && (!e.isDirty ==> o in below && below[o] == e.coin)
    && (IsSpent(e.coin) ==> e.isDirty && e.coin == EMPTY)
  }

  ghost predicate EntriesOk(below: map<OutPoint, Coin>, entries: map<OutPoint, Entry>) {
    forall o | o in entries :: EntryOk(below, o, entries[o])
  }

  ghost function Usage(entries: map<OutPoint, Entry>): nat {
    if entries == map[] then 0 else var o :| o in entries; Mem(entries[o].coin) + Usage(entries - {o})
  }

  ghost predicate LayerOk(below: map<OutPoint, Coin>, l: Layer) {
    EntriesOk(below, l.entries) && l.usage == Usage(l.entries)
  }

  ghost predicate StoreOk(store: map<OutPoint, Coin>) { forall o | o in store :: !IsSpent(store[o]) }

  ghost predicate StackOk(store: map<OutPoint, Coin>, layers: seq<Layer>) {
    if layers == [] then StoreOk(store)
    else StackOk(store, layers[..|layers| - 1]) && LayerOk(View(store, layers[..|layers| - 1]), layers[|layers| - 1])
  }

  // --------------------------------------------------------------- memory usage

  lemma EmptyMem() ensures Mem(EMPTY) == 0 {}

  lemma {:induction false} UsageRemove(entries: map<OutPoint, Entry>, o: OutPoint)
    requires o in entries
    ensures Usage(entries) == Mem(entries[o].coin) + Usage(entries - {o})
    decreases |entries|
  {
    hide Mem;
    var p :| p in entries && Usage(entries) == Mem(entries[p].coin) + Usage(entries - {p});
    if p != o {
      UsageRemove(entries - {p}, o);
      UsageRemove(entries - {o}, p);
      assert entries - {p} - {o} == entries - {o} - {p};
    }
  }

  lemma UsageAdd(entries: map<OutPoint, Entry>, o: OutPoint, e: Entry)
    requires o !in entries
    ensures Usage(entries[o := e]) == Usage(entries) + Mem(e.coin)
  {
    hide Mem;
    UsageRemove(entries[o := e], o);
    assert entries[o := e] - {o} == entries;
  }

  lemma UsageSet(entries: map<OutPoint, Entry>, o: OutPoint, e: Entry)
    requires o in entries
    ensures Mem(entries[o].coin) <= Usage(entries)
    ensures Usage(entries[o := e]) == Usage(entries) - Mem(entries[o].coin) + Mem(e.coin)
  {
    hide Mem;
    UsageRemove(entries, o);
    UsageAdd(entries - {o}, o, e);
    assert (entries - {o})[o := e] == entries[o := e];
  }

  // ------------------------------------------------------- changing one layer

  /** Every cache of the two stacks shows the same coins. */
  ghost predicate SameViews(store: map<OutPoint, Coin>, a: seq<Layer>, b: seq<Layer>) {
    |a| == |b| && forall j | 0 <= j <= |a| :: View(store, a[..j]) == View(store, b[..j])
  }

  lemma {:induction false} StackPrefix(store: map<OutPoint, Coin>, layers: seq<Layer>, k: nat)
    requires StackOk(store, layers) && k <= |layers|
    ensures StackOk(store, layers[..k])
    ensures k < |layers| ==> LayerOk(View(store, layers[..k]), layers[k])
  {
    hide LayerOk, View;
    if k == |layers| {
      assert layers[..k] == layers;
    } else if k < |layers| - 1 {
      StackPrefix(store, layers[..|layers| - 1], k);
      assert layers[..|layers| - 1][..k] == layers[..k];
    }
  }

  /** One layer on top of the first j. */
  lemma Snoc(store: map<OutPoint, Coin>, layers: seq<Layer>, j: nat)
    requires j < |layers|
    ensures View(store, layers[..j + 1]) == Overlay(View(store, layers[..j]), layers[j].entries)
    ensures StackOk(store, layers[..j + 1]) <==>
        StackOk(store, layers[..j]) && LayerOk(View(store, layers[..j]), layers[j])
  {
    hide LayerOk, Overlay;
    assert layers[..j + 1][..j] == layers[..j];
  }

  /**
   Layers above m stay honest, and show the same coins, when what is below them is
   exchanged for something that shows the same.
   */
  lemma {:induction false} Rebase(store: map<OutPoint, Coin>, a: seq<Layer>, store': map<OutPoint, Coin>, b: seq<Layer>,
      m: nat, j: nat)
    requires StackOk(store, a) && |a| == |b| && m <= j <= |a| && a[m..] == b[m..]
    requires StackOk(store', b[..m]) && View(store', b[..m]) == View(store, a[..m])
    ensures StackOk(store', b[..j]) && View(store', b[..j]) == View(store, a[..j])
  {
    hide LayerOk, Overlay, StackOk, View;
    if m < j {
      Rebase(store, a, store', b, m, j - 1);
      assert a[j - 1] == a[m..][j - 1 - m] == b[j - 1];
      StackPrefix(store, a, j - 1);
      Snoc(store, a, j - 1);
      Snoc(store', b, j - 1);
    }
  }

  /** An honest stack stays honest when a layer is replaced by an honest one that shows the same coins. */
  lemma ReplaceLayer(store: map<OutPoint, Coin>, layers: seq<Layer>, k: nat, l: Layer)
    requires StackOk(store, layers) && k < |layers|
    requires LayerOk(View(store, layers[..k]), l)
    requires Overlay(View(store, layers[..k]), l.entries) == Overlay(View(store, layers[..k]), layers[k].entries)
    ensures StackOk(store, layers[k := l]) && SameViews(store, layers[k := l], layers)
  {
    hide LayerOk, Overlay, StackOk, View;
    var now := layers[k := l];
    assert now[..k] == layers[..k];
    StackPrefix(store, layers, k);
    Snoc(store, layers, k);
    Snoc(store, now, k);
    forall j | 0 <= j <= |layers| ensures View(store, now[..j]) == View(store, layers[..j]) {
      if j <= k { assert now[..j] == layers[..j]; } else { Rebase(store, layers, store, now, k + 1, j); }
    }
    Rebase(store, layers, store, now, k + 1, |layers|);
    assert now[..|layers|] == now;
  }

  /** Emptying layer k after handing its changes to whatever is below it. */
  lemma EmptiedLayer(store: map<OutPoint, Coin>, a: seq<Layer>, store': map<OutPoint, Coin>, b: seq<Layer>, k: nat,
      j: nat)
    requires StackOk(store, a) && |a| == |b| && k < j <= |a| && a[k + 1..] == b[k + 1..]
    requires b[k].entries == map[] && b[k].usage == 0
    requires StackOk(store', b[..k]) && View(store', b[..k]) == View(store, a[..k + 1])
    ensures StackOk(store', b[..j]) && View(store', b[..j]) == View(store, a[..j])
  {
    hide StackOk, View;
    Snoc(store', b, k);
    assert Overlay(View(store', b[..k]), map[]) == View(store', b[..k]);
    Rebase(store, a, store', b, k + 1, j);
  }

  /** Putting any layer on top of an honest stack. */
  lemma TopIs(store: map<OutPoint, Coin>, layers: seq<Layer>, l: Layer)
    requires StackOk(store, layers) && layers != []
    ensures var top := |layers| - 1;
      && View(store, layers[top := l]) == Overlay(View(store, layers[..top]), l.entries)
      && (StackOk(store, layers[top := l]) <==> LayerOk(View(store, layers[..top]), l))
  {
    hide LayerOk, Overlay;
    assert layers[|layers| - 1 := l][..|layers| - 1] == layers[..|layers| - 1];
  }

  lemma {:induction false} ViewUnspent(store: map<OutPoint, Coin>, layers: seq<Layer>)
    requires StackOk(store, layers)
    ensures StoreOk(View(store, layers))
  {
    if layers != [] { ViewUnspent(store, layers[..|layers| - 1]); }
  }

  // -------------------------------------------------- operations on one layer

  /** FetchCoin found `c` below. */
  function Fetched(l: Layer, o: OutPoint, c: Coin): Layer {
    Layer(l.entries[o := Entry(c, false, IsSpent(c))], l.usage + Mem(c), l.hashBlock)
  }

  lemma FetchedOk(below: map<OutPoint, Coin>, l: Layer, o: OutPoint)
    requires LayerOk(below, l) && o !in l.entries && o in below && !IsSpent(below[o])
    ensures LayerOk(below, Fetched(l, o, below[o]))
    ensures Overlay(below, Fetched(l, o, below[o]).entries) == Overlay(below, l.entries)
  {
    hide Usage, Mem;
    UsageAdd(l.entries, o, Entry(below[o], false, false));
  }

  /** AddCoin past its two early exits. */
  function Added(l: Layer, o: OutPoint, c: Coin, overwrite: bool): (r: Entry) {
    if o in l.entries then
      var e := l.entries[o];
      Entry(c, true, e.isFresh || (!overwrite && !e.isDirty))
    else Entry(c, true, !overwrite)
  }

  /** AddCoin shows the coin whatever the flags say, and keeps them honest exactly when it may not hide a coin below. */
  lemma AddedOk(below: map<OutPoint, Coin>, l: Layer, o: OutPoint, c: Coin, overwrite: bool)
    requires LayerOk(below, l) && !IsSpent(c) && (overwrite || o !in l.entries || IsSpent(l.entries[o].coin))
    ensures var entries := l.entries[o := Added(l, o, c, overwrite)];
      && Overlay(below, entries) == Overlay(below, l.entries)[o := c]
      && (EntriesOk(below, entries) <==> overwrite || o in l.entries || o !in below)
  {
    hide Usage;
    var entries := l.entries[o := Added(l, o, c, overwrite)];
    assert EntriesOk(below, entries) ==> EntryOk(below, o, entries[o]);
    if o in l.entries { assert EntryOk(below, o, l.entries[o]); }
  }

  /** SpendCoin on a cached outpoint. */
  function Spent(entries: map<OutPoint, Entry>, o: OutPoint): map<OutPoint, Entry>
    requires o in entries
  {
    if entries[o].isFresh then entries - {o} else entries[o := Entry(EMPTY, true, false)]
  }

  /**
   A coin that is added and spent in one cache leaves nothing for the base to write when
   no overwrite was announced, unless an entry that the base still has to hear of was
   there before.
   */
  lemma AddedThenSpent(l: Layer, o: OutPoint, c: Coin, overwrite: bool)
    ensures var pending := o in l.entries && l.entries[o].isDirty && !l.entries[o].isFresh;
      var stale := o !in l.entries || !l.entries[o].isFresh;
      Spent(l.entries[o := Added(l, o, c, overwrite)], o) ==
        if stale && (overwrite || pending) then l.entries[o := Entry(EMPTY, true, false)] else l.entries - {o}
  {
    assert l.entries[o := Added(l, o, c, overwrite)] - {o} == l.entries - {o};
  }

  lemma SpentOk(below: map<OutPoint, Coin>, l: Layer, o: OutPoint)
    requires LayerOk(below, l) && o in l.entries
    ensures Mem(l.entries[o].coin) <= l.usage
    ensures LayerOk(below, Layer(Spent(l.entries, o), l.usage - Mem(l.entries[o].coin), l.hashBlock))
    ensures Overlay(below, Spent(l.entries, o)) == Overlay(below, l.entries) - {o}
  {
    hide Usage, Mem;
    EmptyMem();
    UsageRemove(l.entries, o);
    UsageSet(l.entries, o, Entry(EMPTY, true, false));
    assert EntryOk(below, o, l.entries[o]);
  }

  /** Uncache on an unmodified entry. */
  lemma UncachedOk(below: map<OutPoint, Coin>, l: Layer, o: OutPoint)
    requires LayerOk(below, l) && o in l.entries && !l.entries[o].isDirty && !l.entries[o].isFresh
    ensures Mem(l.entries[o].coin) <= l.usage
    ensures LayerOk(below, Layer(l.entries - {o}, l.usage - Mem(l.entries[o].coin), l.hashBlock))
    ensures Overlay(below, l.entries - {o}) == Overlay(below, l.entries)
  {
    hide Usage, Mem;
    UsageRemove(l.entries, o);
    assert EntryOk(below, o, l.entries[o]);
  }

  lemma UsageOk(below: map<OutPoint, Coin>, l: Layer)
    requires LayerOk(below, l)
    ensures l.usage == Usage(l.entries) && EntriesOk(below, l.entries)
  {}

  /** A visible coin is cached or below. */
  lemma CachedOrBelow(below: map<OutPoint, Coin>, l: Layer, o: OutPoint)
    ensures o in Overlay(below, l.entries) ==> o in l.entries || o in below
    ensures o !in l.entries && o in below ==> o in Overlay(below, l.entries)
  {}

  lemma AddedUsage(below: map<OutPoint, Coin>, l: Layer, now: Layer, o: OutPoint, e: Entry)
    requires LayerOk(below, l) && now.entries == l.entries[o := e]
    requires now.usage == l.usage - (if o in l.entries then Mem(l.entries[o].coin) else 0) + Mem(e.coin)
    ensures LayerOk(below, now) <==> EntriesOk(below, now.entries)
  {
    hide Mem, EntriesOk;
    if o in l.entries { UsageSet(l.entries, o, e); } else { UsageAdd(l.entries, o, e); }
  }

  // ---------------------------------------------------------------- BatchWrite

  function At<T>(m: map<OutPoint, T>, o: OutPoint): Option<T> {
    if o in m then Some(m[o]) else None
  }

  /** The child's entry says FRESH although the parent has the coin: BatchWrite throws. */
  predicate Misapplied(us: Option<Entry>, e: Entry) {
    e.isDirty && e.isFresh && us.Some? && !IsSpent(us.value.coin)
  }

  /** What one entry of the child makes of the parent's. */
  function Merge(us: Option<Entry>, e: Entry): Option<Entry> {
    if !e.isDirty then us
    else if us.None? then
      if e.isFresh && IsSpent(e.coin) then None else Some(Entry(e.coin, true, e.isFresh))
    else if us.value.isFresh && IsSpent(e.coin) then None
    else Some(Entry(e.coin, true, us.value.isFresh))
  }

  /** `now` is `before` with every entry of `child` merged into it. */
  ghost predicate Merged(before: map<OutPoint, Entry>, child: map<OutPoint, Entry>, now: map<OutPoint, Entry>) {
    forall o :: At(now, o) == if o in child then Merge(At(before, o), child[o]) else At(before, o)
  }

  /** One outpoint: what the merged entry shows over the grandparent is what the child showed over the parent. */
  lemma MergeOk(below: map<OutPoint, Coin>, parent: map<OutPoint, Entry>, child: map<OutPoint, Entry>, o: OutPoint)
    requires EntriesOk(below, parent) && EntriesOk(Overlay(below, parent), child) && o in child
    ensures !Misapplied(At(parent, o), child[o])
    ensures var r := Merge(At(parent, o), child[o]);
      && (r.Some? ==> EntryOk(below, o, r.value))
      && (if r.Some? then IsSpent(child[o].coin) == IsSpent(r.value.coin)
           && (!IsSpent(child[o].coin) ==> child[o].coin == r.value.coin)
          else (IsSpent(child[o].coin) <==> o !in below) && (o in below ==> below[o] == child[o].coin))
  {
    assert EntryOk(Overlay(below, parent), o, child[o]);
    if o in parent { assert EntryOk(below, o, parent[o]); }
  }

  /** Flushing a child into its parent: the parent shows what the child showed, and its flags stay honest. */
  lemma MergedOk(below: map<OutPoint, Coin>, parent: map<OutPoint, Entry>, child: map<OutPoint, Entry>,
      now: map<OutPoint, Entry>)
    requires EntriesOk(below, parent) && EntriesOk(Overlay(below, parent), child) && Merged(parent, child, now)
    ensures EntriesOk(below, now) && Overlay(below, now) == Overlay(Overlay(below, parent), child)
  {
    hide Merge, Merged;
    forall o ensures o in now ==> EntryOk(below, o, now[o]) { MergedAt(below, parent, child, now, o); }
    forall o
      ensures o in Overlay(below, now) <==> o in Overlay(Overlay(below, parent), child)
      ensures o in Overlay(below, now) ==> Overlay(below, now)[o] == Overlay(Overlay(below, parent), child)[o]
    {
      MergedAt(below, parent, child, now, o);
    }
  }

  lemma MergedAt(below: map<OutPoint, Coin>, parent: map<OutPoint, Entry>, child: map<OutPoint, Entry>,
      now: map<OutPoint, Entry>, o: OutPoint)
    requires EntriesOk(below, parent) && EntriesOk(Overlay(below, parent), child) && Merged(parent, child, now)
    ensures o in now ==> EntryOk(below, o, now[o])
    ensures o in Overlay(below, now) <==> o in Overlay(Overlay(below, parent), child)
    ensures o in Overlay(below, now) ==> Overlay(below, now)[o] == Overlay(Overlay(below, parent), child)[o]
  {
    assert At(now, o) == if o in child then Merge(At(parent, o), child[o]) else At(parent, o);
    if o in child { hide Merge; MergeOk(below, parent, child, o); }
  }

  /** `now` is the database `before` after the dirty entries of `child` were written to it. */
  ghost predicate Written(before: map<OutPoint, Coin>, child: map<OutPoint, Entry>, now: map<OutPoint, Coin>) {
    forall o :: At(now, o) == if o in child then Write(At(before, o), child[o]) else At(before, o)
  }

  function Write(was: Option<Coin>, e: Entry): Option<Coin> {
    if !e.isDirty then was else if IsSpent(e.coin) then None else Some(e.coin)
  }

  lemma SameAt<T>(a: map<OutPoint, T>, b: map<OutPoint, T>)
    requires forall o :: At(a, o) == At(b, o)
    ensures a == b
  {
    forall o ensures (o in a <==> o in b) && (o in a ==> a[o] == b[o]) { assert At(a, o) == At(b, o); }
  }

  lemma WrittenOk(before: map<OutPoint, Coin>, child: map<OutPoint, Entry>, now: map<OutPoint, Coin>)
    requires StoreOk(before) && EntriesOk(before, child) && Written(before, child, now)
    ensures StoreOk(now) && now == Overlay(before, child)
  {
    forall o
      ensures At(now, o) == At(Overlay(before, child), o) && (o in now ==> !IsSpent(now[o]))
    {
      if o in child { assert EntryOk(before, o, child[o]); }
      assert At(now, o) == if o in child then Write(At(before, o), child[o]) else At(before, o);
    }
    SameAt(now, Overlay(before, child));
  }

  // ----------------------------------------------------------------- AddCoins

  /** `view` after the first n outputs of a transaction were added to it. */
  ghost function WithOutputs(view: map<OutPoint, Coin>, txid: nat, vout: seq<TxOut>, nHeight: nat, coinBase: bool,
      n: nat): map<OutPoint, Coin>
    requires n <= |vout|
  {
    if n == 0 then view
    else
      var before := WithOutputs(view, txid, vout, nHeight, coinBase, n - 1);
      if IsUnspendable(vout[n - 1].scriptPubKey) then before
      else before[OutPoint(txid, n - 1) := Coin(vout[n - 1], nHeight, coinBase)]
  }

  /** Exactly the spendable outputs are new; every other outpoint is untouched. */
  lemma {:induction false} OutputsAt(view: map<OutPoint, Coin>, txid: nat, vout: seq<TxOut>, nHeight: nat,
      coinBase: bool, n: nat, o: OutPoint)
    requires n <= |vout|
    ensures var r := WithOutputs(view, txid, vout, nHeight, coinBase, n);
      if o.txid == txid && o.n < n && !IsUnspendable(vout[o.n].scriptPubKey)
      then o in r && r[o] == Coin(vout[o.n], nHeight, coinBase)
      else (o in r <==> o in view) && (o in r ==> r[o] == view[o])
  {
    if n > 0 { OutputsAt(view, txid, vout, nHeight, coinBase, n - 1, o); }
  }

  // ---------------------------------------------------------------- best block

  /**
   Flush copies the child's block hash to its parent even when it is null, that is,
   not yet known. The best block seen through the child survives exactly when the
   hash was known or the parent had nothing of its own to lose.
   */
  lemma BestBlockAfterFlush(storeBlock: nat, below: seq<Layer>, parent: Layer, child: Layer)
    ensures var before := BestBlock(storeBlock, below + [parent, child]);
      var after := BestBlock(storeBlock, below + [parent.(hashBlock := child.hashBlock), child]);
      before == after <==>
        child.hashBlock != 0 || parent.hashBlock == 0 || parent.hashBlock == BestBlock(storeBlock, below)
  {
    forall p: Layer ensures BestBlock(storeBlock, below + [p, child]) ==
      if child.hashBlock != 0 then child.hashBlock else if p.hashBlock != 0 then p.hashBlock
          else BestBlock(storeBlock, below)
    {
      var s := below + [p, child];
      assert s[..|s| - 1] == below + [p];
      assert (below + [p])[..|below|] == below;
    }
  }
}
