/**
 The two ends of compact block relay: the message a sender builds, and the
 receiver's PartiallyDownloadedBlock, whose fields InitData and FillBlock update
 in place.
 */
module PartialBlock {

  import opened CompactBlocks
  import opened Basics

  // ---------------------------------------------------------- distinct short ids

  function Elems(s: seq<nat>): set<nat> {
    if s == [] then {} else Elems(s[..|s| - 1]) + {s[|s| - 1]}
  }

  lemma {:induction false} ElemsIn(s: seq<nat>, x: nat)
    ensures x in Elems(s) <==> x in s
  {
    if s != [] {
      ElemsIn(s[..|s| - 1], x);
      assert s == s[..|s| - 1] + [s[|s| - 1]];
    }
  }

  lemma NoElems() ensures Elems([]) == {} {}

  lemma ElemsNext(s: seq<nat>, i: nat)
    requires i < |s|
    ensures Elems(s[..i + 1]) == Elems(s[..i]) + {s[i]}
  {
    assert s[..i + 1][..i] == s[..i];
  }

  lemma {:induction false} ElemsCard(s: seq<nat>)
    ensures |Elems(s)| <= |s| && (|Elems(s)| == |s| <==> Distinct(s))
  {
    if s != [] {
      var front, last := s[..|s| - 1], s[|s| - 1];
      ElemsCard(front);
      ElemsIn(front, last);
      if last in front {
        var i :| 0 <= i < |front| && front[i] == last;
        assert s[i] == s[|s| - 1];
        assert Elems(s) == Elems(front);
      } else {
        assert forall i | 0 <= i < |front| :: s[i] == front[i];
      }
    }
  }

  // -------------------------------------------------------------------- sender

  predicate IsEncoding(sip: Sip, block: Block, c: Cmpct)
    requires block.vtx != []
  {
    && c.header == block.header && c.prefilledtxn == [Prefilled(0, block.vtx[0])]
    && |c.shorttxids| == |block.vtx| - 1
    && forall i | 0 <= i < |c.shorttxids| :: c.shorttxids[i] == Sid(sip, c, block.vtx[i + 1].hash)
  }

  /** The compact block of a block: its first transaction in full, the others as short ids in order. */
  method Encode(sip: Sip, block: Block, nonce: nat) returns (c: Cmpct)
    requires block.vtx != []
    ensures c.nonce == nonce && IsEncoding(sip, block, c)
  {
    var ids := [];
    for i := 1 to |block.vtx|
      invariant |ids| == i - 1
      invariant forall j | 0 <= j < i - 1 :: ids[j] == ShortId(sip, block.header, nonce, block.vtx[j + 1].hash)
    {
      ids := ids + [ShortId(sip, block.header, nonce, block.vtx[i].hash)];
    }
    c := Cmpct(block.header, nonce, ids, [Prefilled(0, block.vtx[0])]);
  }

  // ------------------------------------------------------------------ receiver

  /** Messages that InitData turns away before touching its fields. */
  predicate Refused(c: Cmpct, maxCount: nat, header: nat, slots: Slots) {
    || c.header == 0 || (c.shorttxids == [] && c.prefilledtxn == [])
    || |c.shorttxids| + |c.prefilledtxn| > maxCount
    || header != 0 || slots != []
  }

  /** InitData goes on exactly for a header and 1 to maxCount transactions, in an object that holds nothing. */
  lemma AcceptedExactly(c: Cmpct, maxCount: nat, header: nat, slots: Slots)
    ensures !Refused(c, maxCount, header, slots) <==>
        c.header != 0 && 1 <= |c.shorttxids| + |c.prefilledtxn| <= maxCount && header == 0 && slots == []
  {}

  function Empty(n: nat): Slots { seq(n, i => None) }

  function Prefilling(c: Cmpct): (r: (bool, Slots))
    requires Readable(c)
    ensures |r.1| == |c.shorttxids| + |c.prefilledtxn|
  {
    Prefill(Empty(|c.shorttxids| + |c.prefilledtxn|), c.prefilledtxn, |c.shorttxids|, 0)
  }

  /** The slots of the short ids, in order: exactly the ones that no prefilled transaction took. */
  function Places(c: Cmpct): (r: seq<nat>)
    requires Readable(c) && Prefilling(c).0
    ensures |r| == |c.shorttxids| && Distinct(r)
    ensures forall i | 0 <= i < |r| :: r[i] < |c.shorttxids| + |c.prefilledtxn| && Prefilling(c).1[r[i]].None?
    ensures forall i, j | 0 <= i < j < |r| :: r[i] < r[j]
    ensures forall p | 0 <= p < |Prefilling(c).1| && Prefilling(c).1[p].None? :: p in r
  {
    var slots := Prefilling(c).1;
    AllFree(Empty(|slots|), |slots|);
    PrefilledExactly(Empty(|slots|), c.prefilledtxn, |c.shorttxids|, 0);
    Free(slots, |slots|)
  }

  /** Every short id's slot holds what the first j of the pool and the first k extra transactions make of it. */
  ghost predicate Scanned(sip: Sip, c: Cmpct, pool: seq<Tx>, extra: seq<Extra>, slots: Slots)
    requires Readable(c) && Prefilling(c).0
  {
    var before, at := Prefilling(c).1, Places(c);
    && |slots| == |before|
    && (forall i | 0 <= i < |at| :: slots[at[i]] == ScanExtra(sip, c, ScanPool(sip, c, pool, c.shorttxids[i]), extra,
         c.shorttxids[i]).tx)
    && (forall p | 0 <= p < |slots| && p !in at :: slots[p] == before[p])
  }

  /** While the pool is scanned: `have` and the slot of each id are what its Match says. */
  ghost predicate PoolTracked(sip: Sip, c: Cmpct, pool: seq<Tx>, at: seq<nat>, slots: Slots, have: seq<bool>) {
    && |at| == |c.shorttxids| && |slots| == |have|
    && forall i | 0 <= i < |at| :: at[i] < |slots|
         && ScanPool(sip, c, pool, c.shorttxids[i]) == Match(have[at[i]], slots[at[i]])
  }

  ghost predicate ExtraTracked(sip: Sip, c: Cmpct, pool: seq<Tx>, extra: seq<Extra>, at: seq<nat>, slots: Slots,
      have: seq<bool>) {
    && |at| == |c.shorttxids| && |slots| == |have|
    && forall i | 0 <= i < |at| :: at[i] < |slots| &&
         ScanExtra(sip, c, ScanPool(sip, c, pool, c.shorttxids[i]), extra, c.shorttxids[i]) ==
             Match(have[at[i]], slots[at[i]])
  }

  /** The map from short ids to slots. */
  ghost predicate Indexes(c: Cmpct, at: seq<nat>, pos: map<nat, nat>) {
    && |at| == |c.shorttxids|
    && (forall id :: id in pos <==> id in c.shorttxids)
    && (forall i | 0 <= i < |at| :: pos[c.shorttxids[i]] == at[i])
  }

  /** What InitData leaves behind after k extra entries: the slots, and the count with what it means. */
  ghost predicate Initialised(sip: Sip, c: Cmpct, base: nat, pool: seq<Tx>, extra: seq<Extra>, k: nat, slots: Slots,
      count: nat)
    requires Readable(c) && Prefilling(c).0 && k <= |extra|
  {
    && Scanned(sip, c, pool, extra[..k], slots)
    && count == base + Counted(sip, c, pool, extra[..k])
    && (count == base + Filled(slots, Places(c)) <==> forall id | id in c.shorttxids ::
         !FirstNull(sip, c, pool, extra[..k], id))
    && (k < |extra| ==> EndsAt(sip, c, base, pool, extra, k))
    && (forall m | 0 < m < k :: !EndsAt(sip, c, base, pool, extra, m))
  }

  predicate NoNullAskedFor(sip: Sip, c: Cmpct, extra: seq<Extra>) {
    forall i | 0 <= i < |extra| && extra[i].tx.None? :: Sid(sip, c, extra[i].hash) !in c.shorttxids
  }

  /**
   The scan of the pool, with mempool_count at `base` before, looks at j transactions:
   it ends early only when the count is full.
   */
  ghost predicate PoolEnds(sip: Sip, c: Cmpct, base: nat, pool: seq<Tx>, j: nat) {
    && j <= |pool| && (j < |pool| ==> 0 < j && base + Counted(sip, c, pool[..j], []) == |c.shorttxids|)
    && forall m | 0 < m < j :: base + Counted(sip, c, pool[..m], []) != |c.shorttxids|
  }

  ghost predicate Outside(at: seq<nat>, before: Slots, slots: Slots) {
    |slots| == |before| && forall p | 0 <= p < |slots| && p !in at :: slots[p] == before[p]
  }

  lemma {:induction false} NoneFilled(slots: Slots, at: seq<nat>)
    requires forall i | 0 <= i < |at| :: at[i] < |slots| && slots[at[i]].None?
    ensures Filled(slots, at) == 0
  {
    if at != [] { NoneFilled(slots, at[..|at| - 1]); }
  }

  lemma ScanPoolNext(sip: Sip, c: Cmpct, pool: seq<Tx>, j: nat, id: nat)
    requires j < |pool|
    ensures ScanPool(sip, c, pool[..j + 1], id) == MatchPool(sip, c, ScanPool(sip, c, pool[..j], id), pool[j], id)
  {
    assert pool[..j + 1][..j] == pool[..j];
  }

  lemma ScanExtraNext(sip: Sip, c: Cmpct, m: Match, extra: seq<Extra>, k: nat, id: nat)
    requires k < |extra|
    ensures ScanExtra(sip, c, m, extra[..k + 1], id) ==
        MatchExtra(sip, c, ScanExtra(sip, c, m, extra[..k], id), extra[k], id)
  {
    assert extra[..k + 1][..k] == extra[..k];
  }

  class PartiallyDownloadedBlock {
    var header: nat
    var txnsAvailable: Slots
    var prefilledCount: nat
    var mempoolCount: nat

    constructor ()
      ensures header == 0 && txnsAvailable == [] && prefilledCount == 0 && mempoolCount == 0
    {
      header, txnsAvailable, prefilledCount, mempoolCount := 0, [], 0, 0;
    }

    /** The prefilled transactions; false is READ_STATUS_INVALID. */
    method PlacePrefilled(c: Cmpct) returns (ok: bool)
      requires Readable(c) && txnsAvailable == Empty(|c.shorttxids| + |c.prefilledtxn|)
      modifies this`txnsAvailable
      ensures (ok, txnsAvailable) == Prefilling(c)
    {
      hide Pos;
      var last := -1;
      var nShort := |c.shorttxids|;
      FirstPos(c.prefilledtxn);
      for i := 0 to |c.prefilledtxn|
        invariant last == Pos(c.prefilledtxn, i - 1) && |txnsAvailable| == nShort + |c.prefilledtxn|
        invariant Prefilling(c) == Prefill(txnsAvailable, c.prefilledtxn, nShort, i)
      {
        var pre := c.prefilledtxn[i];
        PosNext(c.prefilledtxn, i);
        if pre.tx.isNull { return false; }
        last := last + (pre.index + 1) % U32;
        if last > U32 - 1 { return false; }
        if last % U32 > nShort + i { return false; }
        txnsAvailable := txnsAvailable[last := Some(pre.tx)];
      }
      return true;
    }

    /**
     The map from short ids to slots. All indexing is in bounds, and the map is smaller
     than the list exactly when ids collide.
     */
    method IndexShortIds(c: Cmpct) returns (pos: map<nat, nat>)
      requires Readable(c) && Prefilling(c).0 && txnsAvailable == Prefilling(c).1
      ensures |pos| == |c.shorttxids| <==> Distinct(c.shorttxids)
      ensures Distinct(c.shorttxids) ==> Indexes(c, Places(c), pos)
    {
      hide Places, Prefilling, Elems;
      var ids := c.shorttxids;
      ghost var free := Places(c);
      pos := map[];
      var offset := 0;
      NoElems();
      assert ids[..0] == [];
      for i := 0 to |ids|
        invariant 0 <= i + offset <= |txnsAvailable|
        invariant i + offset == if i == 0 then 0 else free[i - 1] + 1
        invariant pos.Keys == Elems(ids[..i])
        invariant Distinct(ids) ==> forall m | 0 <= m < i :: ids[m] in pos && pos[ids[m]] == free[m]
      {
        while txnsAvailable[i + offset].Some?
          invariant (if i == 0 then 0 else free[i - 1] + 1) <= i + offset <= free[i]
          decreases free[i] - (i + offset)
        {
          offset := offset + 1;
        }
        NextFree(c, i, i + offset);
        ElemsNext(ids, i);
        pos := pos[ids[i] := i + offset];
      }
      assert ids[..|ids|] == ids;
      ElemsCard(ids);
      assert |pos| == |pos.Keys|;
      forall id ensures id in pos <==> id in ids { ElemsIn(ids, id); }
    }

    /** One turn of the loop over the memory pool. */
    method MatchOne(sip: Sip, c: Cmpct, pool: seq<Tx>, n: nat, pos: map<nat, nat>, ghost at: seq<nat>, have0: seq<bool>)
      returns (have: seq<bool>)
      requires n < |pool| && Distinct(c.shorttxids) && Distinct(at) && Indexes(c, at, pos)
      requires PoolTracked(sip, c, pool[..n], at, txnsAvailable, have0) && Filled(txnsAvailable, at) <= mempoolCount
      modifies this`txnsAvailable, this`mempoolCount
      ensures PoolTracked(sip, c, pool[..n + 1], at, txnsAvailable, have)
      ensures Outside(at, old(txnsAvailable), txnsAvailable)
      ensures mempoolCount - Filled(txnsAvailable, at) == old(mempoolCount - Filled(txnsAvailable, at))
    {
      hide ScanPool, Distinct, Sid, Filled;
      var id := Sid(sip, c, pool[n].hash);
      have := have0;
      ghost var slots := txnsAvailable;
      if id in pos {
        var p := pos[id];
        ghost var i :| 0 <= i < |at| && c.shorttxids[i] == id;
        FilledSet(txnsAvailable, at, p, Some(pool[n]));
        FilledSet(txnsAvailable, at, p, None);
        if !have[p] {
          PoolIdle(sip, c, pool[..n], id);
          txnsAvailable := txnsAvailable[p := Some(pool[n])];
          have := have[p := true];
          mempoolCount := mempoolCount + 1;
        } else if txnsAvailable[p].Some? {
          FilledSome(txnsAvailable, at, i);
          txnsAvailable := txnsAvailable[p := None];
          mempoolCount := mempoolCount - 1;
        }
        PoolStep(sip, c, pool, n, at, slots, have0, i);
        assert txnsAvailable == slots[at[i] := MatchPool(sip, c, Match(have0[at[i]], slots[at[i]]), pool[n], id).tx];
        assert have == have0[at[i] := true];
      } else {
        PoolSkip(sip, c, pool, n, at, slots, have0);
      }
    }

    /** The scan of the memory pool, with its early end once every slot is filled. */
    method MatchMempool(sip: Sip, c: Cmpct, pool: seq<Tx>, pos: map<nat, nat>, ghost at: seq<nat>)
      returns (have: seq<bool>, ghost j: nat)
      requires Distinct(c.shorttxids) && Distinct(at) && Indexes(c, at, pos) && |pos| == |c.shorttxids|
      requires forall i | 0 <= i < |at| :: at[i] < |txnsAvailable| && txnsAvailable[at[i]].None?
      modifies this`txnsAvailable, this`mempoolCount
      ensures j <= |pool| && PoolTracked(sip, c, pool[..j], at, txnsAvailable, have)
      ensures Outside(at, old(txnsAvailable), txnsAvailable)
      ensures mempoolCount == old(mempoolCount) + Filled(txnsAvailable, at)
      ensures PoolEnds(sip, c, old(mempoolCount), pool, j)
    {
      hide ScanPool, Distinct, Sid, Filled, Counted;
      have := seq(|txnsAvailable|, i => false);
      j := 0;
      NoneFilled(txnsAvailable, at);
      PoolStart(sip, c, at, txnsAvailable, have);
      assert pool[..0] == [];
      ghost var base := mempoolCount;
      for n := 0 to |pool|
        invariant j == n && PoolTracked(sip, c, pool[..n], at, txnsAvailable, have)
        invariant Outside(at, old(txnsAvailable), txnsAvailable)
        invariant mempoolCount == base + Filled(txnsAvailable, at)
        invariant forall m | 0 < m <= n :: base + Counted(sip, c, pool[..m], []) != |c.shorttxids|
      {
        have := MatchOne(sip, c, pool, n, pos, at, have);
        j := n + 1;
        PoolCounted(sip, c, pool[..n + 1], at, txnsAvailable, have);
        if mempoolCount == |pos| { return; }
      }
    }

    /** One turn of the loop over the extra entries. */
    method MatchOneExtra(sip: Sip, c: Cmpct, ghost pool: seq<Tx>, extra: seq<Extra>, n: nat, pos: map<nat, nat>,
                         ghost at: seq<nat>, have0: seq<bool>, ghost base: nat) returns (died: bool, have: seq<bool>)
      requires n < |extra| && Distinct(c.shorttxids) && Distinct(at) && Indexes(c, at, pos)
      requires ExtraTracked(sip, c, pool, extra[..n], at, txnsAvailable, have0)
      requires mempoolCount == base + Counted(sip, c, pool, extra[..n])
      modifies this`txnsAvailable, this`mempoolCount
      ensures died == NullAt(sip, c, pool, extra, n)
      ensures died ==> unchanged(this) && have == have0
      ensures !died ==>
        && ExtraTracked(sip, c, pool, extra[..n + 1], at, txnsAvailable, have)
        && Outside(at, old(txnsAvailable), txnsAvailable)
             && mempoolCount == base + Counted(sip, c, pool, extra[..n + 1])
    {
      hide ScanPool, ScanExtra, Distinct, Sid, Counted, NullAt;
      var e := extra[n];
      var id := Sid(sip, c, e.hash);
      died, have := false, have0;
      ghost var slots := txnsAvailable;
      if id in pos {
        var p := pos[id];
        ghost var i :| 0 <= i < |at| && c.shorttxids[i] == id;
        NullHere(sip, c, pool, extra, n, at, txnsAvailable, have, i);
        ExtraCounts(sip, c, pool, extra, n, at, txnsAvailable, have, i);
        if !have[p] {
          txnsAvailable := txnsAvailable[p := e.tx];
          have := have[p := true];
          mempoolCount := mempoolCount + 1;
        } else if txnsAvailable[p].Some? {
          if e.tx.None? {
            died := true;
            return;
          }
          if txnsAvailable[p].value.hash != e.tx.value.hash {
            txnsAvailable := txnsAvailable[p := None];
            mempoolCount := mempoolCount - 1;
          }
        }
        ExtraStep(sip, c, pool, extra, n, at, slots, have0, i);
        assert txnsAvailable == slots[at[i] := MatchExtra(sip, c, Match(have0[at[i]], slots[at[i]]), e, id).tx];
        assert have == have0[at[i] := true];
      } else {
        NullElsewhere(sip, c, pool, extra, n);
        ExtraSkip(sip, c, pool, extra, n, at, slots, have0);
        SkipCounts(sip, c, pool, extra, n);
      }
    }

    /**
     The scan of the extra entries, which never holds a slot's transaction against
     itself. It dies at an entry without a transaction whose slot is filled.
     */
    method MatchExtras(sip: Sip, c: Cmpct, ghost pool: seq<Tx>, extra: seq<Extra>, pos: map<nat, nat>,
                       ghost at: seq<nat>, have0: seq<bool>, ghost base: nat) returns (died: bool, ghost j: nat)
      requires Distinct(c.shorttxids) && Distinct(at) && Indexes(c, at, pos) && |pos| == |c.shorttxids|
      requires PoolTracked(sip, c, pool, at, txnsAvailable, have0) && mempoolCount == base + Filled(txnsAvailable, at)
      modifies this`txnsAvailable, this`mempoolCount
      ensures j <= |extra| && Outside(at, old(txnsAvailable), txnsAvailable)
      ensures exists have :: ExtraTracked(sip, c, pool, extra[..j], at, txnsAvailable, have)
      ensures mempoolCount == base + Counted(sip, c, pool, extra[..j])
      ensures died ==> j < |extra| && NullAt(sip, c, pool, extra, j)
      ensures forall m | 0 <= m < j :: !NullAt(sip, c, pool, extra, m) && !EndsAt(sip, c, base, pool, extra, m)
      ensures !died && j < |extra| ==> EndsAt(sip, c, base, pool, extra, j)
      ensures died ==> !EndsAt(sip, c, base, pool, extra, j)
    {
      hide ScanPool, ScanExtra, Distinct, Sid, Filled, Counted, NullAt, Indexes;
      var have := have0;
      died, j := false, 0;
      ExtraStart(sip, c, pool, at, txnsAvailable, have);
      assert extra[..0] == [];
      PoolCounted(sip, c, pool, at, txnsAvailable, have);
      for n := 0 to |extra|
        invariant j == n && !died && ExtraTracked(sip, c, pool, extra[..n], at, txnsAvailable, have)
        invariant Outside(at, old(txnsAvailable), txnsAvailable)
        invariant mempoolCount == base + Counted(sip, c, pool, extra[..n])
        invariant forall m | 0 <= m < n :: !NullAt(sip, c, pool, extra, m)
        invariant forall m | 0 <= m <= n :: !EndsAt(sip, c, base, pool, extra, m)
      {
        died, have := MatchOneExtra(sip, c, pool, extra, n, pos, at, have, base);
        if died { return; }
        j := n + 1;
        if mempoolCount == |pos| { return; }
      }
    }

    /** Both scans, over slots in which only those of the short ids are empty. */
    method ScanPools(sip: Sip, c: Cmpct, pool: seq<Tx>, extra: seq<Extra>, pos: map<nat, nat>)
      returns (died: bool, ghost j: nat, ghost k: nat)
      requires Readable(c) && Prefilling(c).0 && txnsAvailable == Prefilling(c).1
      requires Distinct(c.shorttxids) && Indexes(c, Places(c), pos) && |pos| == |c.shorttxids|
      modifies this`txnsAvailable, this`mempoolCount
      ensures PoolEnds(sip, c, old(mempoolCount), pool, j) && k <= |extra|
      ensures died == FollowsNull(sip, c, old(mempoolCount), pool[..j], extra)
      ensures !died ==> Initialised(sip, c, old(mempoolCount), pool[..j], extra, k, txnsAvailable, mempoolCount)
    {
      hide Places, Prefilling, ScanPool, ScanExtra, Distinct, Sid, Filled, Counted, NullAt, FirstNull, Indexes,
          PoolEnds;
      ghost var base, at := mempoolCount, Places(c);
      var have;
      have, j := MatchMempool(sip, c, pool, pos, at);
      died, k := MatchExtras(sip, c, pool[..j], extra, pos, at, have, base);
      Outcome(sip, c, base, pool[..j], extra, k, died);
      CountFilled(sip, c, pool[..j], extra[..k], at, txnsAvailable);
    }

    /**
     InitData. The first j transactions of the pool and the first k extra entries
     were looked at; a scan ends early only when the count is full. The count is the
     number of slots filled from the pools exactly when no announced short id has a
     first match without a transaction.
     */
    method InitData(sip: Sip, c: Cmpct, maxCount: nat, pool: seq<Tx>, extra: seq<Extra>)
      returns (r: ReadStatus, ghost j: nat, ghost k: nat)
      requires Readable(c)
      modifies this
      ensures old(Refused(c, maxCount, header, txnsAvailable)) ==> r == Invalid && unchanged(this)
      ensures !old(Refused(c, maxCount, header, txnsAvailable)) ==>
        && header == c.header
        && (!Prefilling(c).0 ==> r == Invalid && txnsAvailable == Prefilling(c).1)
        && (Prefilling(c).0 && !Distinct(c.shorttxids) ==> r == Failed && txnsAvailable == Prefilling(c).1)
        && (Prefilling(c).0 && Distinct(c.shorttxids) ==>
              && PoolEnds(sip, c, old(mempoolCount), pool, j) && k <= |extra| && prefilledCount == |c.prefilledtxn|
              && r == (if FollowsNull(sip, c, old(mempoolCount), pool[..j], extra) then NullFollowed else Ok)
              && (r == Ok ==> Initialised(sip, c, old(mempoolCount), pool[..j], extra, k, txnsAvailable, mempoolCount)))
    {
      hide Places, Prefilling, Distinct, Indexes, PoolEnds, FollowsNull, Initialised;
      j, k := 0, 0;
      if c.header == 0 || (c.shorttxids == [] && c.prefilledtxn == []) { return Invalid, j, k; }
      if |c.shorttxids| + |c.prefilledtxn| > maxCount { return Invalid, j, k; }
      if header != 0 || txnsAvailable != [] { return Invalid, j, k; }
      header := c.header;
      txnsAvailable := Empty(|c.shorttxids| + |c.prefilledtxn|);
      var ok := PlacePrefilled(c);
      if !ok { return Invalid, j, k; }
      prefilledCount := |c.prefilledtxn|;
      var pos := IndexShortIds(c);
      if |pos| != |c.shorttxids| { return Failed, j, k; }
      var died;
      died, j, k := ScanPools(sip, c, pool, extra, pos);
      return if died then NullFollowed else Ok, j, k;
    }

    method IsTxAvailable(index: nat) returns (r: bool)
      requires header != 0 ==> index < |txnsAvailable|
      ensures r <==> header != 0 && txnsAvailable[index].Some?
    {
      if header == 0 { return false; }
      r := txnsAvailable[index].Some?;
    }

    /**
     FillBlock. `verdict` is what CheckBlock makes of the block. When it runs out of
     transactions, or meets a null one, the slots passed so far have been moved out.
     */
    method FillBlock(missing: seq<Tx>, verdict: ReadStatus) returns (r: ReadStatus, block: Block)
      modifies this
      ensures old(header == 0 || txnsAvailable == []) ==> r == Invalid && unchanged(this)
      ensures old(header != 0 && txnsAvailable != []) ==>
        var f := Fill(old(txnsAvailable), |old(txnsAvailable)|, missing);
        && (f.ok ==>
              && header == 0 && txnsAvailable == [] && block == Block(old(header), f.vtx)
              && r == if f.used == |missing| then verdict else Invalid)
        && (!f.ok ==> r == Invalid && header == old(header) && txnsAvailable == MovedOut(old(txnsAvailable), |f.vtx|))
      ensures mempoolCount == old(mempoolCount) && prefilledCount == old(prefilledCount)
    {
      hide Fill, MovedOut;
      block := Block(header, []);
      if header == 0 { return Invalid, block; }
      if txnsAvailable == [] { return Invalid, block; }
      ghost var slots := txnsAvailable;
      var used := 0;
      FillStart(slots, missing);
      for i := 0 to |txnsAvailable|
        invariant |txnsAvailable| == |slots| && header == old(header)
        invariant Fill(slots, i, missing) == Filling(true, block.vtx, used) && block.header == header
        invariant txnsAvailable == MovedOut(slots, i)
        invariant mempoolCount == old(mempoolCount) && prefilledCount == old(prefilledCount)
      {
        FillNext(slots, i, missing);
        if txnsAvailable[i].None? {
          if |missing| <= used || missing[used].isNull {
            FillStuck(slots, i + 1, |slots|, missing);
            return Invalid, block;
          }
          block := block.(vtx := block.vtx + [missing[used]]);
          used := used + 1;
        } else {
          block := block.(vtx := block.vtx + [txnsAvailable[i].value]);
        }
        txnsAvailable := txnsAvailable[i := None];
      }
      header := 0;
      txnsAvailable := [];
      if |missing| != used { return Invalid, block; }
      return verdict, block;
    }
  }

  function MovedOut(slots: Slots, n: nat): (r: Slots)
    requires n <= |slots|
    ensures |r| == |slots|
  {
    Empty(n) + slots[n..]
  }

  lemma FillStart(slots: Slots, missing: seq<Tx>)
    ensures Fill(slots, 0, missing) == Filling(true, [], 0) && MovedOut(slots, 0) == slots
  {}

  lemma FillNext(slots: Slots, i: nat, missing: seq<Tx>)
    requires i < |slots| && Fill(slots, i, missing).ok
    ensures MovedOut(slots, i)[i] == slots[i] && MovedOut(slots, i)[i := None] == MovedOut(slots, i + 1)
    ensures var f := Fill(slots, i, missing);
      Fill(slots, i + 1, missing) ==
        if slots[i].Some? then f.(vtx := f.vtx + [slots[i].value])
        else if |missing| <= f.used || missing[f.used].isNull then f.(ok := false)
        else Filling(true, f.vtx + [missing[f.used]], f.used + 1)
  {}

  lemma {:induction false} FillStuck(slots: Slots, n: nat, m: nat, missing: seq<Tx>)
    requires n <= m <= |slots| && !Fill(slots, n, missing).ok
    ensures Fill(slots, m, missing) == Fill(slots, n, missing)
  {
    if n < m { FillStuck(slots, n, m - 1, missing); }
  }

  /** The filled slots are the short ids that have a transaction. */
  lemma {:induction false} TrackedFound(sip: Sip, c: Cmpct, pool: seq<Tx>, extra: seq<Extra>, at: seq<nat>,
      slots: Slots, n: nat)
    requires n <= |at| == |c.shorttxids| && forall i | 0 <= i < |at| :: at[i] < |slots|
    requires forall i | 0 <= i < |at| ::
      slots[at[i]] == ScanExtra(sip, c, ScanPool(sip, c, pool, c.shorttxids[i]), extra, c.shorttxids[i]).tx
    ensures Filled(slots, at[..n]) == Found(sip, c, pool, extra, n)
  {
    hide ScanPool, ScanExtra;
    if n > 0 {
      TrackedFound(sip, c, pool, extra, at, slots, n - 1);
      assert at[..n][..n - 1] == at[..n - 1];
    }
  }

  lemma CountFilled(sip: Sip, c: Cmpct, pool: seq<Tx>, extra: seq<Extra>, at: seq<nat>, slots: Slots)
    requires |at| == |c.shorttxids| && forall i | 0 <= i < |at| :: at[i] < |slots|
    requires forall i | 0 <= i < |at| ::
      slots[at[i]] == ScanExtra(sip, c, ScanPool(sip, c, pool, c.shorttxids[i]), extra, c.shorttxids[i]).tx
    ensures Filled(slots, at) == Found(sip, c, pool, extra, |c.shorttxids|)
    ensures Counted(sip, c, pool, extra) == Filled(slots, at) <==> forall id | id in c.shorttxids ::
        !FirstNull(sip, c, pool, extra, id)
  {
    hide ScanPool, ScanExtra, FirstNull, Filled, Found, Counted;
    TrackedFound(sip, c, pool, extra, at, slots, |at|);
    assert at[..|at|] == at;
    CountExact(sip, c, pool, extra);
  }

  lemma PoolCounted(sip: Sip, c: Cmpct, pool: seq<Tx>, at: seq<nat>, slots: Slots, have: seq<bool>)
    requires PoolTracked(sip, c, pool, at, slots, have)
    ensures Counted(sip, c, pool, []) == Filled(slots, at)
  {
    hide ScanPool, Filled, Found, Counted;
    forall id | id in c.shorttxids ensures !FirstNull(sip, c, pool, [], id) {}
    CountFilled(sip, c, pool, [], at, slots);
  }

  /** Counts over two prefixes of the extra entries that agree on all short ids but the i-th. */
  lemma {:induction false} FoundDiffer(sip: Sip, c: Cmpct, pool: seq<Tx>, less: seq<Extra>, more: seq<Extra>, i: nat,
      n: nat)
    requires i < |c.shorttxids| && n <= |c.shorttxids|
    requires forall k | 0 <= k < n && k != i :: SameStanding(sip, c, pool, less, more, c.shorttxids[k])
    ensures var id := c.shorttxids[i];
      && Found(sip, c, pool, more, n) == Found(sip, c, pool, less, n) +
           (if i < n then Has(sip, c, pool, more, id) - Has(sip, c, pool, less, id) else 0)
      && NullFirsts(sip, c, pool, more, n) == NullFirsts(sip, c, pool, less, n) +
           (if i < n then Phantom(sip, c, pool, more, id) - Phantom(sip, c, pool, less, id) else 0)
  {
    hide ScanPool, ScanExtra, FirstNull;
    if n > 0 { FoundDiffer(sip, c, pool, less, more, i, n - 1); }
  }

  function Has(sip: Sip, c: Cmpct, pool: seq<Tx>, extra: seq<Extra>, id: nat): nat {
    if ScanExtra(sip, c, ScanPool(sip, c, pool, id), extra, id).tx.Some? then 1 else 0
  }

  function Phantom(sip: Sip, c: Cmpct, pool: seq<Tx>, extra: seq<Extra>, id: nat): nat {
    if FirstNull(sip, c, pool, extra, id) then 1 else 0
  }

  predicate SameStanding(sip: Sip, c: Cmpct, pool: seq<Tx>, less: seq<Extra>, more: seq<Extra>, id: nat) {
    Has(sip, c, pool, less, id) == Has(sip, c, pool, more, id)
        && Phantom(sip, c, pool, less, id) == Phantom(sip, c, pool, more, id)
  }

  /** An entry with another short id changes nothing about this one. */
  lemma OtherEntry(sip: Sip, c: Cmpct, pool: seq<Tx>, extra: seq<Extra>, n: nat, id: nat)
    requires n < |extra| && Sid(sip, c, extra[n].hash) != id
    ensures SameStanding(sip, c, pool, extra[..n], extra[..n + 1], id)
  {
    hide ScanPool, ScanExtra, FirstNull, Sid;
    ScanExtraNext(sip, c, ScanPool(sip, c, pool, id), extra, n, id);
    FirstNullNext(sip, c, pool, extra, n, id);
  }

  lemma SkipCounts(sip: Sip, c: Cmpct, pool: seq<Tx>, extra: seq<Extra>, n: nat)
    requires n < |extra| && Sid(sip, c, extra[n].hash) !in c.shorttxids
    ensures Counted(sip, c, pool, extra[..n + 1]) == Counted(sip, c, pool, extra[..n])
  {
    hide Sid, Has, Phantom, Found, NullFirsts;
    var less, more, size := extra[..n], extra[..n + 1], |c.shorttxids|;
    forall k | 0 <= k < size ensures SameStanding(sip, c, pool, less, more, c.shorttxids[k]) {
      OtherEntry(sip, c, pool, extra, n, c.shorttxids[k]);
    }
    if size > 0 { FoundDiffer(sip, c, pool, less, more, 0, size); }
        else { NoIds(sip, c, pool, less); NoIds(sip, c, pool, more); }
  }

  lemma NoIds(sip: Sip, c: Cmpct, pool: seq<Tx>, extra: seq<Extra>)
    requires c.shorttxids == []
    ensures Found(sip, c, pool, extra, 0) == 0 && NullFirsts(sip, c, pool, extra, 0) == 0
  {}

  /** One more entry for the i-th short id: the count follows the three branches of the loop. */
  lemma ExtraCounts(sip: Sip, c: Cmpct, pool: seq<Tx>, extra: seq<Extra>, n: nat, at: seq<nat>, slots: Slots,
      have: seq<bool>, i: nat)
    requires n < |extra| && Distinct(c.shorttxids) && ExtraTracked(sip, c, pool, extra[..n], at, slots, have)
    requires i < |at| && c.shorttxids[i] == Sid(sip, c, extra[n].hash)
    ensures var was, now, p := Counted(sip, c, pool, extra[..n]), Counted(sip, c, pool, extra[..n + 1]), at[i];
      && (!have[p] ==> now == was + 1)
      && (have[p] && slots[p].None? ==> now == was)
      && (have[p] && slots[p].Some? && extra[n].tx.Some? ==>
            now == was - if slots[p].value.hash != extra[n].tx.value.hash then 1 else 0)
  {
    hide Sid, ScanPool, ScanExtra, FirstNull, Found, NullFirsts;
    var less, more, id, size := extra[..n], extra[..n + 1], c.shorttxids[i], |c.shorttxids|;
    OthersDiffer(c.shorttxids, i);
    forall k | 0 <= k < size && k != i ensures SameStanding(sip, c, pool, less, more, c.shorttxids[k]) {
      OtherEntry(sip, c, pool, extra, n, c.shorttxids[k]);
    }
    FoundDiffer(sip, c, pool, less, more, i, size);
    ScanExtraNext(sip, c, ScanPool(sip, c, pool, id), extra, n, id);
    FirstNullNext(sip, c, pool, extra, n, id);
    ExtraIdle(sip, c, pool, less, id);
  }

  /** The entry meets a filled slot. */
  lemma NullHere(sip: Sip, c: Cmpct, pool: seq<Tx>, extra: seq<Extra>, n: nat, at: seq<nat>, slots: Slots,
      have: seq<bool>, i: nat)
    requires n < |extra| && ExtraTracked(sip, c, pool, extra[..n], at, slots, have)
    requires i < |at| && c.shorttxids[i] == Sid(sip, c, extra[n].hash)
    ensures NullAt(sip, c, pool, extra, n) <==> extra[n].tx.None? && slots[at[i]].Some?
    ensures slots[at[i]].Some? ==> have[at[i]]
  {
    hide Sid, ScanPool, ScanExtra;
    ExtraIdle(sip, c, pool, extra[..n], c.shorttxids[i]);
  }

  lemma NullElsewhere(sip: Sip, c: Cmpct, pool: seq<Tx>, extra: seq<Extra>, n: nat)
    requires n < |extra| && Sid(sip, c, extra[n].hash) !in c.shorttxids
    ensures !NullAt(sip, c, pool, extra, n)
  {
    hide Sid;
  }

  /** The null pointer is followed exactly when some entry reached by the scan meets a filled slot. */
  lemma Outcome(sip: Sip, c: Cmpct, base: nat, pool: seq<Tx>, extra: seq<Extra>, j: nat, died: bool)
    requires j <= |extra|
    requires (died ==> j < |extra| && NullAt(sip, c, pool, extra, j) && !EndsAt(sip, c, base, pool, extra, j))
    requires forall m | 0 <= m < j :: !NullAt(sip, c, pool, extra, m) && !EndsAt(sip, c, base, pool, extra, m)
    requires !died && j < |extra| ==> EndsAt(sip, c, base, pool, extra, j)
    ensures died <==> FollowsNull(sip, c, base, pool, extra)
  {
    hide NullAt, EndsAt;
  }

  /** A scan of the pool that ends early has found exactly one transaction for every short id. */
  lemma {:induction false} AllMatched(sip: Sip, c: Cmpct, pool: seq<Tx>, n: nat)
    requires n <= |c.shorttxids|
    ensures Found(sip, c, pool, [], n) <= n
    ensures Found(sip, c, pool, [], n) == n ==> forall i | 0 <= i < n :: Matches(sip, c, pool, c.shorttxids[i]) == 1
  {
    hide ScanPool, Matches;
    if n > 0 {
      AllMatched(sip, c, pool, n - 1);
      ScanPoolExact(sip, c, pool, c.shorttxids[n - 1]);
    }
  }

  lemma EarlyEnd(sip: Sip, c: Cmpct, pool: seq<Tx>, j: nat)
    requires PoolEnds(sip, c, 0, pool, j) && j < |pool|
    ensures forall i | 0 <= i < |c.shorttxids| :: Matches(sip, c, pool[..j], c.shorttxids[i]) == 1
  {
    hide Found, NullFirsts, Matches;
    NoNullFirsts(sip, c, pool[..j], [], |c.shorttxids|);
    AllMatched(sip, c, pool[..j], |c.shorttxids|);
  }

  lemma ExtraStart(sip: Sip, c: Cmpct, pool: seq<Tx>, at: seq<nat>, slots: Slots, have: seq<bool>)
    requires PoolTracked(sip, c, pool, at, slots, have)
    ensures ExtraTracked(sip, c, pool, [], at, slots, have)
  {
    hide ScanPool;
  }

  lemma {:induction false} ExtraIdle(sip: Sip, c: Cmpct, pool: seq<Tx>, extra: seq<Extra>, id: nat)
    ensures var m := ScanExtra(sip, c, ScanPool(sip, c, pool, id), extra, id); !m.have ==> m.tx.None?
  {
    if extra == [] { PoolIdle(sip, c, pool, id); } else { ExtraIdle(sip, c, pool, extra[..|extra| - 1], id); }
  }

  lemma ExtraStep(sip: Sip, c: Cmpct, pool: seq<Tx>, extra: seq<Extra>, n: nat, at: seq<nat>, slots: Slots,
      have: seq<bool>, i: nat)
    requires n < |extra| && Distinct(c.shorttxids) && Distinct(at)
    requires ExtraTracked(sip, c, pool, extra[..n], at, slots, have)
    requires i < |at| && c.shorttxids[i] == Sid(sip, c, extra[n].hash)
    ensures var m := MatchExtra(sip, c, Match(have[at[i]], slots[at[i]]), extra[n], c.shorttxids[i]);
      ExtraTracked(sip, c, pool, extra[..n + 1], at, slots[at[i] := m.tx], have[at[i] := m.have])
  {
    hide ScanPool, ScanExtra, Sid;
    forall k | 0 <= k < |at|
      ensures var m := ScanPool(sip, c, pool, c.shorttxids[k]);
        ScanExtra(sip, c, m, extra[..n + 1], c.shorttxids[k]) ==
            MatchExtra(sip, c, ScanExtra(sip, c, m, extra[..n], c.shorttxids[k]), extra[n], c.shorttxids[k])
    {
      ScanExtraNext(sip, c, ScanPool(sip, c, pool, c.shorttxids[k]), extra, n, c.shorttxids[k]);
    }
    OthersDiffer(at, i);
    OthersDiffer(c.shorttxids, i);
  }

  lemma ExtraSkip(sip: Sip, c: Cmpct, pool: seq<Tx>, extra: seq<Extra>, n: nat, at: seq<nat>, slots: Slots,
      have: seq<bool>)
    requires n < |extra| && ExtraTracked(sip, c, pool, extra[..n], at, slots, have)
    requires Sid(sip, c, extra[n].hash) !in c.shorttxids
    ensures ExtraTracked(sip, c, pool, extra[..n + 1], at, slots, have)
  {
    hide ScanPool, ScanExtra, Sid;
    forall k | 0 <= k < |at|
      ensures var m := ScanPool(sip, c, pool, c.shorttxids[k]);
        ScanExtra(sip, c, m, extra[..n + 1], c.shorttxids[k]) == ScanExtra(sip, c, m, extra[..n], c.shorttxids[k])
    {
      ScanExtraNext(sip, c, ScanPool(sip, c, pool, c.shorttxids[k]), extra, n, c.shorttxids[k]);
    }
  }

  lemma PoolStart(sip: Sip, c: Cmpct, at: seq<nat>, slots: Slots, have: seq<bool>)
    requires |at| == |c.shorttxids| && |slots| == |have| && forall p | 0 <= p < |have| :: !have[p]
    requires forall i | 0 <= i < |at| :: at[i] < |slots| && slots[at[i]].None?
    ensures PoolTracked(sip, c, [], at, slots, have)
  {}

  /** A slot that nothing matched yet is empty. */
  lemma {:induction false} PoolIdle(sip: Sip, c: Cmpct, pool: seq<Tx>, id: nat)
    ensures !ScanPool(sip, c, pool, id).have ==> ScanPool(sip, c, pool, id).tx.None?
  {
    if pool != [] { PoolIdle(sip, c, pool[..|pool| - 1], id); }
  }

  lemma {:induction false} FilledSome(slots: Slots, at: seq<nat>, i: nat)
    requires i < |at| && (forall j | 0 <= j < |at| :: at[j] < |slots|) && slots[at[i]].Some?
    ensures Filled(slots, at) > 0
  {
    if i < |at| - 1 { FilledSome(slots, at[..|at| - 1], i); }
  }

  /** A transaction of the pool changes the slot of its own short id only. */
  lemma PoolStep(sip: Sip, c: Cmpct, pool: seq<Tx>, n: nat, at: seq<nat>, slots: Slots, have: seq<bool>, i: nat)
    requires n < |pool| && Distinct(c.shorttxids) && Distinct(at) && PoolTracked(sip, c, pool[..n], at, slots, have)
    requires i < |at| && c.shorttxids[i] == Sid(sip, c, pool[n].hash)
    ensures var m := MatchPool(sip, c, Match(have[at[i]], slots[at[i]]), pool[n], c.shorttxids[i]);
      PoolTracked(sip, c, pool[..n + 1], at, slots[at[i] := m.tx], have[at[i] := m.have])
  {
    hide ScanPool, Sid;
    forall k | 0 <= k < |at|
      ensures ScanPool(sip, c, pool[..n + 1], c.shorttxids[k]) ==
          MatchPool(sip, c, ScanPool(sip, c, pool[..n], c.shorttxids[k]), pool[n], c.shorttxids[k])
    {
      ScanPoolNext(sip, c, pool, n, c.shorttxids[k]);
    }
    OthersDiffer(at, i);
    OthersDiffer(c.shorttxids, i);
  }

  lemma OthersDiffer(s: seq<nat>, i: nat)
    requires Distinct(s) && i < |s|
    ensures forall k | 0 <= k < |s| && k != i :: s[k] != s[i]
  {
    forall k | 0 <= k < |s| && k != i ensures s[k] != s[i] {
      if k < i { assert s[k] != s[i]; }
    }
  }

  lemma PoolSkip(sip: Sip, c: Cmpct, pool: seq<Tx>, n: nat, at: seq<nat>, slots: Slots, have: seq<bool>)
    requires n < |pool| && PoolTracked(sip, c, pool[..n], at, slots, have) && Sid(sip, c, pool[n].hash) !in c.shorttxids
    ensures PoolTracked(sip, c, pool[..n + 1], at, slots, have)
  {
    hide ScanPool, Sid;
    forall k | 0 <= k < |at|
      ensures ScanPool(sip, c, pool[..n + 1], c.shorttxids[k]) == ScanPool(sip, c, pool[..n], c.shorttxids[k])
    {
      ScanPoolNext(sip, c, pool, n, c.shorttxids[k]);
    }
  }

  /** Searching up from the previous short id's slot stops at the next one. */
  lemma NextFree(c: Cmpct, i: nat, p: nat)
    requires Readable(c) && Prefilling(c).0 && i < |c.shorttxids| && p < |Prefilling(c).1|
    requires (if i == 0 then 0 else Places(c)[i - 1] + 1) <= p <= Places(c)[i]
    requires Prefilling(c).1[p].None?
    ensures p == Places(c)[i]
  {
    hide Prefilling, Free;
    if p < Places(c)[i] {
      NoneBetween(Prefilling(c).1, i, p);
    }
  }

  // ---------------------------------------------------------------- round trip

  /** Short ids tell the transactions of the block from each other and from everything in the pools. */
  predicate NoCollision(sip: Sip, header: nat, nonce: nat, vtx: seq<Tx>, pool: seq<Tx>, extra: seq<Extra>) {
    && (forall i, j | 0 < i < j < |vtx| :: ShortId(sip, header, nonce, vtx[i].hash) != ShortId(sip, header, nonce,
         vtx[j].hash))
    && (forall i, j | 0 < i < |vtx| && 0 <= j < |pool|
         && ShortId(sip, header, nonce, pool[j].hash) == ShortId(sip, header, nonce, vtx[i].hash) ::
          pool[j] == vtx[i])
    && (forall i, j | 0 < i < |vtx| && 0 <= j < |extra|
         && ShortId(sip, header, nonce, extra[j].hash) == ShortId(sip, header, nonce, vtx[i].hash) ::
          extra[j] == Extra(vtx[i].hash, Some(vtx[i])))
  }

  lemma {:induction false} Gap(s: seq<nat>, i: nat, k: nat)
    requires (forall j, k | 0 <= j < k < |s| :: s[j] < s[k]) && i <= k < |s|
    ensures s[i] + (k - i) <= s[k]
  {
    if i < k { Gap(s, i, k - 1); }
  }

  lemma Squeeze(s: seq<nat>, lo: nat, i: nat)
    requires (forall j | 0 <= j < |s| :: lo <= s[j] < lo + |s|) && (forall j, k | 0 <= j < k < |s| :: s[j] < s[k])
    requires i < |s|
    ensures s[i] == lo + i
  {
    Gap(s, 0, i);
    Gap(s, i, |s| - 1);
  }

  /** The first transaction is prefilled, and the short ids name the others in order. */
  lemma EncodingPlaces(sip: Sip, block: Block, c: Cmpct)
    requires block.vtx != [] && |block.vtx| < U32 && !block.vtx[0].isNull && IsEncoding(sip, block, c)
    ensures Readable(c) && Prefilling(c) == (true, Empty(|block.vtx|)[0 := Some(block.vtx[0])])
    ensures forall i | 0 <= i < |block.vtx| - 1 :: Places(c)[i] == i + 1
  {
    hide Places, Sid;
    assert Pos(c.prefilledtxn, 0) == 0;
    var slots := Empty(|block.vtx|)[0 := Some(block.vtx[0])];
    assert Prefill(slots, c.prefilledtxn, |c.shorttxids|, 1) == (true, slots);
    forall i | 0 <= i < |block.vtx| - 1 ensures Places(c)[i] == i + 1 { Squeeze(Places(c), 1, i); }
  }

  /** Without collisions, what the receiver finds by itself is what the block has there. */
  lemma ScannedAgrees(sip: Sip, block: Block, c: Cmpct, pool: seq<Tx>, extra: seq<Extra>, slots: Slots, p: nat)
    requires block.vtx != [] && |block.vtx| < U32 && !block.vtx[0].isNull && IsEncoding(sip, block, c)
    requires Readable(c) && Prefilling(c).0 && Scanned(sip, c, pool, extra, slots)
    requires NoCollision(sip, c.header, c.nonce, block.vtx, pool, extra) && ExtraOk(sip, c, extra)
    requires p < |slots| && slots[p].Some?
    ensures |slots| == |block.vtx| && slots[p].value == block.vtx[p]
  {
    hide Places, Prefilling, ScanPool, ScanExtra, ShortId;
    EncodingPlaces(sip, block, c);
    if p > 0 {
      assert Places(c)[p - 1] == p;
      ScanSound(sip, c, pool, extra, c.shorttxids[p - 1]);
    } else {
      assert 0 !in Places(c);
    }
  }

  lemma DistinctIds(sip: Sip, block: Block, c: Cmpct, pool: seq<Tx>, extra: seq<Extra>)
    requires block.vtx != [] && IsEncoding(sip, block, c) && NoCollision(sip, c.header, c.nonce, block.vtx, pool, extra)
    ensures Distinct(c.shorttxids)
  {
    hide ShortId;
    forall i, j | 0 <= i < j < |c.shorttxids| ensures c.shorttxids[i] != c.shorttxids[j] {
      assert ShortId(sip, c.header, c.nonce, block.vtx[i + 1].hash) != ShortId(sip, c.header, c.nonce,
          block.vtx[j + 1].hash);
    }
  }

  lemma ExtraFits(sip: Sip, block: Block, c: Cmpct, pool: seq<Tx>, extra: seq<Extra>)
    requires block.vtx != [] && IsEncoding(sip, block, c) && NoCollision(sip, c.header, c.nonce, block.vtx, pool, extra)
    ensures NoNullAskedFor(sip, c, extra)
  {
    hide ShortId;
    forall i | 0 <= i < |extra| && extra[i].tx.None? ensures Sid(sip, c, extra[i].hash) !in c.shorttxids {
      forall k | 0 <= k < |c.shorttxids| ensures c.shorttxids[k] != Sid(sip, c, extra[i].hash) {
        var tx := block.vtx[k + 1];
        assert ShortId(sip, c.header, c.nonce, extra[i].hash) == ShortId(sip, c.header, c.nonce, tx.hash) ==>
            extra[i] == Extra(tx.hash, Some(tx));
      }
    }
  }

  /** Encoding a block, decoding it with whatever the pools hold and asking for the rest gives the block back. */
  method Relay(sip: Sip, block: Block, nonce: nat, maxCount: nat, pool: seq<Tx>,
      extra: seq<Extra>) returns (r: ReadStatus, rebuilt: Block)
    requires block.header != 0 && block.vtx != [] && |block.vtx| <= maxCount && |block.vtx| < U32
    requires forall i | 0 <= i < |block.vtx| :: !block.vtx[i].isNull
    requires NoCollision(sip, block.header, nonce, block.vtx, pool, extra)
    requires forall i | 0 <= i < |extra| && extra[i].tx.Some? :: extra[i].hash == extra[i].tx.value.hash
    ensures r == Ok && rebuilt == block
  {
    hide Places, Prefilling, ScanPool, ScanExtra, ShortId, Sid, Fill, Filled, Missing, NoCollision, Scanned, Distinct;
    var c := Encode(sip, block, nonce);
    EncodingPlaces(sip, block, c);
    DistinctIds(sip, block, c, pool, extra);
    ExtraFits(sip, block, c, pool, extra);
    var receiver := new PartiallyDownloadedBlock();
    ghost var j, k;
    r, j, k := receiver.InitData(sip, c, maxCount, pool, extra);
    CollisionPrefix(sip, c, block.vtx, pool, extra, j, k);
    ghost var slots := receiver.txnsAvailable;
    ScannedSize(sip, c, pool[..j], extra[..k], slots);
    forall p | 0 <= p < |slots| && slots[p].Some? ensures slots[p].value == block.vtx[p] {
      ScannedAgrees(sip, block, c, pool[..j], extra[..k], slots, p);
    }
    var missing := [];
    NoneMissing(slots, block.vtx);
    for i := 0 to |block.vtx|
      invariant missing == Missing(slots, block.vtx, i)
      invariant receiver.txnsAvailable == slots && receiver.header == block.header
    {
      var have := receiver.IsTxAvailable(i);
      MissingNext(slots, block.vtx, i);
      if !have { missing := missing + [block.vtx[i]]; }
    }
    FillRebuilds(slots, block.vtx, |block.vtx|);
    assert block.vtx[..|block.vtx|] == block.vtx;
    r, rebuilt := receiver.FillBlock(missing, Ok);
  }

  lemma CollisionPrefix(sip: Sip, c: Cmpct, vtx: seq<Tx>, pool: seq<Tx>, extra: seq<Extra>, j: nat, k: nat)
    requires j <= |pool| && k <= |extra| && NoCollision(sip, c.header, c.nonce, vtx, pool, extra)
    requires NoNullAskedFor(sip, c, extra)
    requires forall i | 0 <= i < |extra| && extra[i].tx.Some? :: extra[i].hash == extra[i].tx.value.hash
    ensures NoCollision(sip, c.header, c.nonce, vtx, pool[..j], extra[..k]) && ExtraOk(sip, c, extra[..k])
  {
    hide ShortId, Sid;
  }

  lemma ScannedSize(sip: Sip, c: Cmpct, pool: seq<Tx>, extra: seq<Extra>, slots: Slots)
    requires Readable(c) && Prefilling(c).0 && Scanned(sip, c, pool, extra, slots)
    ensures |slots| == |c.shorttxids| + |c.prefilledtxn|
  {}

  lemma NoneMissing(slots: Slots, vtx: seq<Tx>)
    ensures Missing(slots, vtx, 0) == []
  {}

  lemma MissingNext(slots: Slots, vtx: seq<Tx>, i: nat)
    requires i < |slots| == |vtx|
    ensures Missing(slots, vtx, i + 1) == Missing(slots, vtx, i) + (if slots[i].None? then [vtx[i]] else [])
  {}
}
