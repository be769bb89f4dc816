/**
 Compact block reconstruction of src/blockencodings.cpp: what the sender encodes,
 which slot every short id gets, what the memory pool and the extra transactions
 put there, and what FillBlock makes of it. Header 0 is the null header.
 */
module CompactBlocks {
  import opened Basics

  datatype Tx = Tx(hash: nat, isNull: bool, body: nat)

  /** `index` is the 32-bit distance from the previous prefilled transaction. */
  datatype Prefilled = Prefilled(index: nat, tx: Tx)

  datatype Cmpct = Cmpct(header: nat, nonce: nat, shorttxids: seq<nat>, prefilledtxn: seq<Prefilled>)

  datatype Block = Block(header: nat, vtx: seq<Tx>)

  /** An entry of the extra pool: the hash it is filed under, and the transaction, which may be missing. */
  datatype Extra = Extra(hash: nat, tx: Option<Tx>)

  /** NullFollowed is not a status of the source: a null pointer is dereferenced, and anything may follow. */
  datatype ReadStatus = Ok | Invalid | Failed | CheckBlockFailed | NullFollowed

  /** The largest number that a size field, and so an offset, can hold in a message. */
  const MAX_SIZE: nat := 0x0200_0000

  const SHORT_ID_RANGE: nat := 0x1_0000_0000_0000

  type Sip = (nat, nat, nat) -> nat

  function ShortId(sip: Sip, header: nat, nonce: nat, hash: nat): nat { sip(header, nonce, hash) % SHORT_ID_RANGE }

  type Slots = seq<Option<Tx>>

  /**
   What the message format guarantees of a message that was read. A raw 32-bit offset
   of 2^32 - 1, which no message can carry, would be the only one to repeat a position.
   */
  predicate Readable(c: Cmpct) {
    && |c.shorttxids| + |c.prefilledtxn| < U32
    && forall i | 0 <= i < |c.prefilledtxn| :: c.prefilledtxn[i].index <= MAX_SIZE
  }

  // -------------------------------------------------------------- prefilled slots

  /** The running position after the k-th prefilled transaction; `index + 1` is a 32-bit sum. */
  function Pos(pre: seq<Prefilled>, k: int): (r: int)
    requires -1 <= k < |pre|
    ensures -1 <= r
    decreases k + 1
  {
    if k < 0 then -1 else Pos(pre, k - 1) + (pre[k].index + 1) % U32
  }

  lemma FirstPos(pre: seq<Prefilled>)
    ensures Pos(pre, -1) == -1
  {}

  lemma PosNext(pre: seq<Prefilled>, k: nat)
    requires k < |pre|
    ensures Pos(pre, k) == Pos(pre, k - 1) + (pre[k].index + 1) % U32
    ensures (pre[k].index <= MAX_SIZE ==> Pos(pre, k - 1) < Pos(pre, k))
  {}

  predicate Fits(nShort: nat, i: nat, pos: int) { pos < U32 && pos % U32 <= nShort + i }

  /** The loop over the prefilled transactions from the i-th on: whether it ends well, and the slots it leaves. */
  function Prefill(slots: Slots, pre: seq<Prefilled>, nShort: nat, i: nat): (r: (bool, Slots))
    requires i <= |pre| && |slots| == nShort + |pre| < U32
    ensures |r.1| == |slots|
    decreases |pre| - i
  {
    if i == |pre| then (true, slots)
    else
      var pos := Pos(pre, i);
      if pre[i].tx.isNull || !Fits(nShort, i, pos) then (false, slots)
      else Prefill(slots[pos := Some(pre[i].tx)], pre, nShort, i + 1)
  }

  /** In a message that is accepted, positions stay in bounds, even where a sum wraps. */
  lemma {:induction false} PrefillPositions(slots: Slots, pre: seq<Prefilled>, nShort: nat, i: nat, k: nat)
    requires i <= k < |pre| && |slots| == nShort + |pre| < U32
    requires Prefill(slots, pre, nShort, i).0
    ensures 0 <= Pos(pre, k) <= nShort + k && Pos(pre, k - 1) <= Pos(pre, k) && !pre[k].tx.isNull
    decreases |pre| - i
  {
    if i < k { PrefillPositions(slots[Pos(pre, i) := Some(pre[i].tx)], pre, nShort, i + 1, k); }
  }

  /** The prefilled transactions are accepted exactly when none is null and no position leaves a gap before it. */
  lemma {:induction false} PrefillExactly(slots: Slots, pre: seq<Prefilled>, nShort: nat, i: nat)
    requires i <= |pre| && |slots| == nShort + |pre| < U32
    ensures Prefill(slots, pre, nShort, i).0 <==>
        forall k | i <= k < |pre| :: !pre[k].tx.isNull && 0 <= Pos(pre, k) <= nShort + k
    decreases |pre| - i
  {
    hide Pos;
    if i < |pre| {
      var pos := Pos(pre, i);
      if !pre[i].tx.isNull && 0 <= pos <= nShort + i {
        PrefillExactly(slots[pos := Some(pre[i].tx)], pre, nShort, i + 1);
      }
    }
  }

  /** What a sender writes for transactions at the positions p: each as the distance from the one before. */
  function Offsets(p: seq<nat>, txs: seq<Tx>): seq<Prefilled>
    requires |p| == |txs| && forall j, k | 0 <= j < k < |p| :: p[j] < p[k]
  {
    seq(|p|, k requires 0 <= k < |p| => Prefilled(if k == 0 then p[0] else p[k] - p[k - 1] - 1, txs[k]))
  }

  lemma {:induction false} OffsetsRead(p: seq<nat>, txs: seq<Tx>, k: nat)
    requires |p| == |txs| && (forall i, j | 0 <= i < j < |p| :: p[i] < p[j]) && k < |p| && p[k] < U32 - 1
    ensures Pos(Offsets(p, txs), k) == p[k]
  {
    if k > 0 { OffsetsRead(p, txs, k - 1); }
  }

  lemma {:induction false} RoomAbove(p: seq<nat>, k: nat)
    requires (forall i, j | 0 <= i < j < |p| :: p[i] < p[j]) && k < |p|
    ensures p[k] + (|p| - 1 - k) <= p[|p| - 1]
    decreases |p| - k
  {
    if k < |p| - 1 { RoomAbove(p, k + 1); }
  }

  /** Any choice of transactions of a block, sent with their positions, is accepted and put where it belongs. */
  lemma OffsetsRoundTrip(slots: Slots, p: seq<nat>, txs: seq<Tx>, nShort: nat, k: nat)
    requires |p| == |txs| && (forall i, j | 0 <= i < j < |p| :: p[i] < p[j]) && |slots| == nShort + |p| < U32 - 1
    requires k < |p| && p[|p| - 1] < |slots| && forall i | 0 <= i < |txs| :: !txs[i].isNull
    ensures var r := Prefill(slots, Offsets(p, txs), nShort, 0); r.0 && r.1[p[k]] == Some(txs[k])
  {
    var pre := Offsets(p, txs);
    forall i | 0 <= i < |p| ensures Pos(pre, i) == p[i] && p[i] <= nShort + i {
      RoomAbove(p, i);
      OffsetsRead(p, txs, i);
    }
    hide Pos, Offsets;
    PrefillExactly(slots, pre, nShort, 0);
    PrefillPuts(slots, pre, nShort, 0, k);
  }

  /** In an accepted message that was read, every position is beyond the one before it. */
  lemma PositionsIncrease(slots: Slots, pre: seq<Prefilled>, nShort: nat, i: nat, k: nat)
    requires i < k < |pre| && |slots| == nShort + |pre| < U32 && forall m | 0 <= m < |pre| :: pre[m].index <= MAX_SIZE
    requires Prefill(slots, pre, nShort, 0).0
    ensures Pos(pre, i) < Pos(pre, k)
    decreases k
  {
    PrefillPositions(slots, pre, nShort, 0, k);
    if i < k - 1 { PositionsIncrease(slots, pre, nShort, i, k - 1); }
  }

  /** Slots that no position names are left alone. */
  lemma {:induction false} PrefillLeaves(slots: Slots, pre: seq<Prefilled>, nShort: nat, i: nat, p: nat)
    requires i <= |pre| && |slots| == nShort + |pre| < U32 && p < |slots|
    requires Prefill(slots, pre, nShort, i).0 && forall k | i <= k < |pre| :: Pos(pre, k) != p
    ensures Prefill(slots, pre, nShort, i).1[p] == slots[p]
    decreases |pre| - i
  {
    hide Pos;
    if i < |pre| { PrefillLeaves(slots[Pos(pre, i) := Some(pre[i].tx)], pre, nShort, i + 1, p); }
  }

  /** Each position ends up with the last transaction sent for it. */
  lemma {:induction false} PrefillPuts(slots: Slots, pre: seq<Prefilled>, nShort: nat, i: nat, k: nat)
    requires i <= k < |pre| && |slots| == nShort + |pre| < U32
    requires Prefill(slots, pre, nShort, i).0 && forall m | k < m < |pre| :: Pos(pre, m) != Pos(pre, k)
    ensures 0 <= Pos(pre, k) < |slots| && Prefill(slots, pre, nShort, i).1[Pos(pre, k)] == Some(pre[k].tx)
    decreases |pre| - i
  {
    hide Pos;
    var next := slots[Pos(pre, i) := Some(pre[i].tx)];
    if i < k { PrefillPuts(next, pre, nShort, i + 1, k); }
        else { PrefillLeaves(next, pre, nShort, i + 1, Pos(pre, k)); }
  }

  // ------------------------------------------------------------------ free slots

  /** The empty ones among the first n slots, in order. */
  function Free(slots: Slots, n: nat): (r: seq<nat>)
    requires n <= |slots|
    ensures |r| <= n
    ensures forall j | 0 <= j < |r| :: r[j] < n && slots[r[j]].None?
    ensures forall j, k | 0 <= j < k < |r| :: r[j] < r[k]
    ensures forall p | 0 <= p < n && slots[p].None? :: p in r
  {
    if n == 0 then [] else Free(slots, n - 1) + (if slots[n - 1].None? then [n - 1] else [])
  }

  lemma {:induction false} FillOne(slots: Slots, n: nat, p: nat, tx: Tx)
    requires n <= |slots| && p < |slots|
    ensures |Free(slots[p := Some(tx)], n)| >= |Free(slots, n)| - 1
    ensures n <= p ==> Free(slots[p := Some(tx)], n) == Free(slots, n)
  {
    if n > 0 { FillOne(slots, n - 1, p, tx); }
  }

  lemma {:induction false} EnoughFree(slots: Slots, pre: seq<Prefilled>, nShort: nat, i: nat)
    requires i <= |pre| && |slots| == nShort + |pre| < U32
    requires |Free(slots, |slots|)| >= |slots| - i && Prefill(slots, pre, nShort, i).0
    ensures var r := Prefill(slots, pre, nShort, i).1; |Free(r, |r|)| >= nShort
    decreases |pre| - i
  {
    if i < |pre| {
      var pos := Pos(pre, i);
      FillOne(slots, |slots|, pos, pre[i].tx);
      EnoughFree(slots[pos := Some(pre[i].tx)], pre, nShort, i + 1);
    }
  }

  lemma {:induction false} FillEmpty(slots: Slots, n: nat, p: nat, tx: Tx)
    requires n <= |slots| && p < |slots| && slots[p].None?
    ensures |Free(slots[p := Some(tx)], n)| == |Free(slots, n)| - if p < n then 1 else 0
  {
    if n > 0 { FillEmpty(slots, n - 1, p, tx); }
  }

  /**
   Every prefilled transaction of an accepted message gets a slot of its own: all others
   are left for the short ids.
   */
  lemma {:induction false} PrefilledExactly(slots: Slots, pre: seq<Prefilled>, nShort: nat, i: nat)
    requires i <= |pre| && |slots| == nShort + |pre| < U32 && forall m | 0 <= m < |pre| :: pre[m].index <= MAX_SIZE
    requires |Free(slots, |slots|)| == |slots| - i && Prefill(slots, pre, nShort, i).0
    requires forall p | Pos(pre, i - 1) < p < |slots| :: slots[p].None?
    ensures var r := Prefill(slots, pre, nShort, i).1; |Free(r, |r|)| == nShort
    decreases |pre| - i
  {
    hide Free, Pos;
    if i < |pre| {
      var pos := Pos(pre, i);
      PosNext(pre, i);
      FillEmpty(slots, |slots|, pos, pre[i].tx);
      PrefilledExactly(slots[pos := Some(pre[i].tx)], pre, nShort, i + 1);
    }
  }

  lemma {:induction false} AllFree(slots: Slots, n: nat)
    requires n <= |slots| && forall p | 0 <= p < n :: slots[p].None?
    ensures |Free(slots, n)| == n
  {
    if n > 0 { AllFree(slots, n - 1); }
  }

  /** The j-th empty slot comes next after the (j-1)-th: nothing between them is empty. */
  lemma NoneBetween(slots: Slots, j: nat, p: nat)
    requires j < |Free(slots, |slots|)| && p < Free(slots, |slots|)[j]
    requires j > 0 ==> Free(slots, |slots|)[j - 1] < p
    ensures slots[p].Some?
  {
    var free := Free(slots, |slots|);
    forall k | 0 <= k < |free| ensures free[k] != p {}
  }

  // --------------------------------------------------------- matching the pools

  function Sid(sip: Sip, c: Cmpct, hash: nat): nat { ShortId(sip, c.header, c.nonce, hash) }

  /** What the slot of one short id has seen: whether anything matched it, and the transaction it holds. */
  datatype Match = Match(have: bool, tx: Option<Tx>)

  function MatchPool(sip: Sip, c: Cmpct, m: Match, tx: Tx, id: nat): Match {
    if Sid(sip, c, tx.hash) != id then m
    else Match(true, if m.have then None else Some(tx))
  }

  function ScanPool(sip: Sip, c: Cmpct, pool: seq<Tx>, id: nat): Match {
    if pool == [] then Match(false, None)
    else MatchPool(sip, c, ScanPool(sip, c, pool[..|pool| - 1], id), pool[|pool| - 1], id)
  }

  function MatchExtra(sip: Sip, c: Cmpct, m: Match, e: Extra, id: nat): Match {
    if Sid(sip, c, e.hash) != id then m
    else if !m.have then Match(true, e.tx)
    else if m.tx.Some? && e.tx.Some? && m.tx.value.hash != e.tx.value.hash then Match(true, None)
    else m
  }

  function ScanExtra(sip: Sip, c: Cmpct, m: Match, extra: seq<Extra>, id: nat): Match {
    if extra == [] then m
    else MatchExtra(sip, c, ScanExtra(sip, c, m, extra[..|extra| - 1], id), extra[|extra| - 1], id)
  }

  function Matches(sip: Sip, c: Cmpct, pool: seq<Tx>, id: nat): nat {
    if pool == [] then 0
    else Matches(sip, c, pool[..|pool| - 1], id) + (if Sid(sip, c, pool[|pool| - 1].hash) == id then 1 else 0)
  }

  /** The pool fills a slot exactly when one single transaction of it has the short id. */
  lemma {:induction false} ScanPoolExact(sip: Sip, c: Cmpct, pool: seq<Tx>, id: nat)
    ensures var m := ScanPool(sip, c, pool, id);
      && (m.have <==> Matches(sip, c, pool, id) > 0) && (m.tx.Some? <==> Matches(sip, c, pool, id) == 1)
      && (m.tx.Some? ==> m.tx.value in pool && Sid(sip, c, m.tx.value.hash) == id)
  {
    if pool != [] { ScanPoolExact(sip, c, pool[..|pool| - 1], id); }
  }

  /** Some entry of the extra pool has the short id. */
  predicate Asked(sip: Sip, c: Cmpct, extra: seq<Extra>, id: nat) {
    exists n | 0 <= n < |extra| :: Sid(sip, c, extra[n].hash) == id
  }

  /** The first entry of both pools that has the short id is one without a transaction. */
  predicate FirstNull(sip: Sip, c: Cmpct, pool: seq<Tx>, extra: seq<Extra>, id: nat) {
    && Matches(sip, c, pool, id) == 0
    && exists n | 0 <= n < |extra| :: IsFirst(sip, c, extra, n, id) && extra[n].tx.None?
  }

  predicate IsFirst(sip: Sip, c: Cmpct, extra: seq<Extra>, n: nat, id: nat)
    requires n < |extra|
  {
    Sid(sip, c, extra[n].hash) == id && !Asked(sip, c, extra[..n], id)
  }

  /** A slot has been matched exactly when something in either pool has its short id. */
  lemma {:induction false} HaveExact(sip: Sip, c: Cmpct, pool: seq<Tx>, extra: seq<Extra>, id: nat)
    ensures ScanExtra(sip, c, ScanPool(sip, c, pool, id), extra, id).have <==>
        Matches(sip, c, pool, id) > 0 || Asked(sip, c, extra, id)
  {
    hide Sid;
    if extra == [] {
      ScanPoolExact(sip, c, pool, id);
    } else {
      var n := |extra| - 1;
      HaveExact(sip, c, pool, extra[..n], id);
      AskedNext(sip, c, extra, n, id);
      assert extra[..n + 1] == extra;
    }
  }

  lemma AskedNext(sip: Sip, c: Cmpct, extra: seq<Extra>, n: nat, id: nat)
    requires n < |extra|
    ensures Asked(sip, c, extra[..n + 1], id) <==> Asked(sip, c, extra[..n], id) || Sid(sip, c, extra[n].hash) == id
  {
    hide Sid;
    var more := extra[..n + 1];
    assert more[n] == extra[n];
    if Asked(sip, c, extra[..n], id) {
      var k :| 0 <= k < n && Sid(sip, c, extra[..n][k].hash) == id;
      assert more[k] == extra[..n][k];
    }
    if Asked(sip, c, more, id) && Sid(sip, c, extra[n].hash) != id {
      var k :| 0 <= k <= n && Sid(sip, c, more[k].hash) == id;
      assert more[k] == extra[..n][k];
    }
  }

  /** One more entry: it is the first without a transaction exactly when its slot was not matched before. */
  lemma FirstNullNext(sip: Sip, c: Cmpct, pool: seq<Tx>, extra: seq<Extra>, n: nat, id: nat)
    requires n < |extra|
    ensures var m := ScanExtra(sip, c, ScanPool(sip, c, pool, id), extra[..n], id);
      && (FirstNull(sip, c, pool, extra[..n], id) ==> m.have)
      && (FirstNull(sip, c, pool, extra[..n + 1], id) <==>
            FirstNull(sip, c, pool, extra[..n], id)
                || (Sid(sip, c, extra[n].hash) == id && !m.have && extra[n].tx.None?))
  {
    hide Sid, ScanExtra, ScanPool, Matches;
    HaveExact(sip, c, pool, extra[..n], id);
    var less, more := extra[..n], extra[..n + 1];
    assert more[..n] == less && more[n] == extra[n];
    forall k | 0 <= k < n ensures more[k] == less[k] && more[..k] == less[..k] {}
    if FirstNull(sip, c, pool, less, id) {
      var k :| 0 <= k < n && IsFirst(sip, c, less, k, id) && less[k].tx.None?;
      assert IsFirst(sip, c, more, k, id) && more[k].tx.None?;
    }
    if FirstNull(sip, c, pool, more, id) {
      var k :| 0 <= k <= n && IsFirst(sip, c, more, k, id) && more[k].tx.None?;
      if k < n { assert IsFirst(sip, c, less, k, id) && less[k].tx.None?; }
    }
    if Matches(sip, c, pool, id) == 0 && !Asked(sip, c, less, id) && Sid(sip, c, extra[n].hash) == id
        && extra[n].tx.None? {
      assert IsFirst(sip, c, more, n, id);
    }
  }

  /** The transaction that a slot gets first: the only match in the pool, or with no match there the first extra one. */
  predicate Leads(sip: Sip, c: Cmpct, pool: seq<Tx>, extra: seq<Extra>, id: nat, x: Tx) {
    || (Matches(sip, c, pool, id) == 1 && x in pool && Sid(sip, c, x.hash) == id)
    || (Matches(sip, c, pool, id) == 0
        && (exists n | 0 <= n < |extra| :: IsFirst(sip, c, extra, n, id) && extra[n].tx == Some(x)))
  }

  /** No other transaction among the extra ones has the short id. */
  predicate Unrivalled(sip: Sip, c: Cmpct, extra: seq<Extra>, id: nat, x: Tx) {
    forall n | 0 <= n < |extra| && Sid(sip, c, extra[n].hash) == id && extra[n].tx.Some? ::
      extra[n].tx.value.hash == x.hash
  }

  /** After both scans a slot holds exactly the transaction that came first, if no other one has its short id. */
  lemma {:induction false} SlotExactly(sip: Sip, c: Cmpct, pool: seq<Tx>, extra: seq<Extra>, id: nat, x: Tx)
    ensures ScanExtra(sip, c, ScanPool(sip, c, pool, id), extra, id).tx == Some(x) <==>
        Leads(sip, c, pool, extra, id, x) && Unrivalled(sip, c, extra, id, x)
  {
    hide Sid, ScanPool, Matches, Leads, Unrivalled;
    if extra == [] {
      PoolExactly(sip, c, pool, id, x);
      NoExtras(sip, c, pool, id, x);
    } else {
      var n := |extra| - 1;
      assert extra == extra[..n + 1] && extra[..n] == extra[..n + 1][..n];
      SlotExactly(sip, c, pool, extra[..n], id, x);
      HaveExact(sip, c, pool, extra[..n], id);
      LeadsNext(sip, c, pool, extra, n, id, x);
      UnrivalledNext(sip, c, extra, n, id, x);
      OnlyAsked(sip, c, pool, extra[..n], id, x);
    }
  }

  lemma {:induction false} PoolExactly(sip: Sip, c: Cmpct, pool: seq<Tx>, id: nat, x: Tx)
    ensures ScanPool(sip, c, pool, id).tx == Some(x) <==>
        Matches(sip, c, pool, id) == 1 && x in pool && Sid(sip, c, x.hash) == id
  {
    hide Sid;
    if pool != [] {
      var n := |pool| - 1;
      PoolExactly(sip, c, pool[..n], id, x);
      ScanPoolExact(sip, c, pool[..n], id);
      if x in pool[..n] && Sid(sip, c, x.hash) == id { SomeMatch(sip, c, pool[..n], id, x); }
      assert x in pool <==> x in pool[..n] || x == pool[n];
    }
  }

  lemma {:induction false} SomeMatch(sip: Sip, c: Cmpct, pool: seq<Tx>, id: nat, x: Tx)
    requires x in pool && Sid(sip, c, x.hash) == id
    ensures 0 < Matches(sip, c, pool, id)
  {
    hide Sid;
    var n := |pool| - 1;
    if x != pool[n] { SomeMatch(sip, c, pool[..n], id, x); }
  }

  lemma NoExtras(sip: Sip, c: Cmpct, pool: seq<Tx>, id: nat, x: Tx)
    ensures Leads(sip, c, pool, [], id, x) <==>
        Matches(sip, c, pool, id) == 1 && x in pool && Sid(sip, c, x.hash) == id
    ensures Unrivalled(sip, c, [], id, x)
  {
    hide Sid, Matches;
  }

  lemma OnlyAsked(sip: Sip, c: Cmpct, pool: seq<Tx>, extra: seq<Extra>, id: nat, x: Tx)
    ensures Leads(sip, c, pool, extra, id, x) ==> Matches(sip, c, pool, id) > 0 || Asked(sip, c, extra, id)
    ensures !Asked(sip, c, extra, id) ==> Unrivalled(sip, c, extra, id, x)
  {
    hide Sid, Matches;
  }

  lemma LeadsNext(sip: Sip, c: Cmpct, pool: seq<Tx>, extra: seq<Extra>, n: nat, id: nat, x: Tx)
    requires n < |extra|
    ensures var first := Matches(sip, c, pool, id) == 0 && !Asked(sip, c, extra[..n], id);
      Leads(sip, c, pool, extra[..n + 1], id, x) <==>
        Leads(sip, c, pool, extra[..n], id, x)
            || (first && Sid(sip, c, extra[n].hash) == id && extra[n].tx == Some(x))
  {
    hide Sid, Matches, Asked;
    var less, more := extra[..n], extra[..n + 1];
    assert more[..n] == less && more[n] == extra[n];
    forall k | 0 <= k < n ensures more[k] == less[k] && more[..k] == less[..k] {}
    if exists k | 0 <= k < |less| :: IsFirst(sip, c, less, k, id) && less[k].tx == Some(x) {
      var k :| 0 <= k < |less| && IsFirst(sip, c, less, k, id) && less[k].tx == Some(x);
      assert IsFirst(sip, c, more, k, id) && more[k].tx == Some(x);
    }
    if exists k | 0 <= k < |more| :: IsFirst(sip, c, more, k, id) && more[k].tx == Some(x) {
      var k :| 0 <= k < |more| && IsFirst(sip, c, more, k, id) && more[k].tx == Some(x);
      if k < n { assert IsFirst(sip, c, less, k, id) && less[k].tx == Some(x); }
    }
    if !Asked(sip, c, less, id) && Sid(sip, c, extra[n].hash) == id && extra[n].tx == Some(x) {
      assert IsFirst(sip, c, more, n, id);
    }
  }

  lemma UnrivalledNext(sip: Sip, c: Cmpct, extra: seq<Extra>, n: nat, id: nat, x: Tx)
    requires n < |extra|
    ensures Unrivalled(sip, c, extra[..n + 1], id, x) <==>
      && Unrivalled(sip, c, extra[..n], id, x)
      && (Sid(sip, c, extra[n].hash) == id && extra[n].tx.Some? ==> extra[n].tx.value.hash == x.hash)
  {
    hide Sid;
    var less, more := extra[..n], extra[..n + 1];
    assert more[n] == extra[n];
    forall k | 0 <= k < n ensures more[k] == less[k] {}
  }

  /** How many of the first n short ids have a transaction after both scans. */
  function Found(sip: Sip, c: Cmpct, pool: seq<Tx>, extra: seq<Extra>, n: nat): nat
    requires n <= |c.shorttxids|
  {
    if n == 0 then 0 else
      var m := ScanExtra(sip, c, ScanPool(sip, c, pool, c.shorttxids[n - 1]), extra, c.shorttxids[n - 1]);
      Found(sip, c, pool, extra, n - 1) + if m.tx.Some? then 1 else 0
  }

  /** How many of the first n short ids have a first match without a transaction. */
  function NullFirsts(sip: Sip, c: Cmpct, pool: seq<Tx>, extra: seq<Extra>, n: nat): nat
    requires n <= |c.shorttxids|
  {
    if n == 0 then 0 else
      NullFirsts(sip, c, pool, extra, n - 1) + if FirstNull(sip, c, pool, extra, c.shorttxids[n - 1]) then 1 else 0
  }

  /** What both scans add to mempool_count: the slots they fill, and the slots they only count. */
  function Counted(sip: Sip, c: Cmpct, pool: seq<Tx>, extra: seq<Extra>): nat {
    Found(sip, c, pool, extra, |c.shorttxids|) + NullFirsts(sip, c, pool, extra, |c.shorttxids|)
  }

  lemma {:induction false} NoNullFirsts(sip: Sip, c: Cmpct, pool: seq<Tx>, extra: seq<Extra>, n: nat)
    requires n <= |c.shorttxids|
    ensures NullFirsts(sip, c, pool, extra, n) == 0 <==> forall i | 0 <= i < n ::
        !FirstNull(sip, c, pool, extra, c.shorttxids[i])
  {
    hide FirstNull;
    if n > 0 { NoNullFirsts(sip, c, pool, extra, n - 1); }
  }

  /** mempool_count is the number of filled slots if and only if no short id has a first match without a transaction. */
  lemma CountExact(sip: Sip, c: Cmpct, pool: seq<Tx>, extra: seq<Extra>)
    ensures Counted(sip, c, pool, extra) == Found(sip, c, pool, extra, |c.shorttxids|) <==>
            forall id | id in c.shorttxids :: !FirstNull(sip, c, pool, extra, id)
  {
    hide FirstNull, Found, NullFirsts;
    NoNullFirsts(sip, c, pool, extra, |c.shorttxids|);
  }

  /** The n-th extra entry has no transaction, and meets the transaction of an earlier match in its slot. */
  predicate NullAt(sip: Sip, c: Cmpct, pool: seq<Tx>, extra: seq<Extra>, n: nat)
    requires n < |extra|
  {
    var id := Sid(sip, c, extra[n].hash);
    extra[n].tx.None? && id in c.shorttxids && ScanExtra(sip, c, ScanPool(sip, c, pool, id), extra[..n], id).tx.Some?
  }

  /** The scan of the extra entries, with mempool_count at `base` before both scans, ends after n of them. */
  predicate EndsAt(sip: Sip, c: Cmpct, base: nat, pool: seq<Tx>, extra: seq<Extra>, n: nat)
    requires n <= |extra|
  {
    0 < n && base + Counted(sip, c, pool, extra[..n]) == |c.shorttxids|
  }

  /** Some entry that the scan gets to makes it follow a null pointer. */
  predicate FollowsNull(sip: Sip, c: Cmpct, base: nat, pool: seq<Tx>, extra: seq<Extra>) {
    exists n | 0 <= n < |extra| ::
      NullAt(sip, c, pool, extra, n) && forall m | 0 <= m <= n :: !EndsAt(sip, c, base, pool, extra, m)
  }

  /** A pool of nothing and one entry without a transaction: the count goes up, and no slot is filled. */
  lemma CountsNothing(sip: Sip, header: nat, nonce: nat)
    ensures var c := Cmpct(header, nonce, [ShortId(sip, header, nonce, 0)], []);
      Counted(sip, c, [], [Extra(0, None)]) == 1 && Found(sip, c, [], [Extra(0, None)], 1) == 0
  {
    var id := ShortId(sip, header, nonce, 0);
    var c, extra := Cmpct(header, nonce, [id], []), [Extra(0, None)];
    assert IsFirst(sip, c, extra, 0, id);
    assert NullFirsts(sip, c, [], extra, 0) == 0 && Found(sip, c, [], extra, 0) == 0;
    assert ScanExtra(sip, c, Match(false, None), extra[..0], id) == Match(false, None);
  }

  /** A transaction of the pool and an entry without one under the same short id: the null pointer is followed. */
  lemma MeetsNull(sip: Sip, header: nat, nonce: nat, tx: Tx, hash: nat)
    requires ShortId(sip, header, nonce, hash) == ShortId(sip, header, nonce, tx.hash)
    ensures FollowsNull(sip, Cmpct(header, nonce, [ShortId(sip, header, nonce, hash)], []), 0, [tx],
        [Extra(hash, None)])
  {
    var id := ShortId(sip, header, nonce, hash);
    var c, extra := Cmpct(header, nonce, [id], []), [Extra(hash, None)];
    assert ScanPool(sip, c, [], id) == Match(false, None);
    assert [tx][..0] == [];
    assert ScanPool(sip, c, [tx], id) == Match(true, Some(tx));
    assert extra[..0] == [];
    assert NullAt(sip, c, [tx], extra, 0);
  }

  /** Every entry of the extra pool is filed under its own hash, and none that is missing is asked for. */
  predicate ExtraOk(sip: Sip, c: Cmpct, extra: seq<Extra>) {
    forall i | 0 <= i < |extra| ::
      if extra[i].tx.Some? then extra[i].hash == extra[i].tx.value.hash else Sid(sip, c, extra[i].hash) !in c.shorttxids
  }

  /** What ends up in a slot has its short id and comes from one of the pools. */
  lemma {:induction false} ScanSound(sip: Sip, c: Cmpct, pool: seq<Tx>, extra: seq<Extra>, id: nat)
    requires ExtraOk(sip, c, extra) && id in c.shorttxids
    ensures var m := ScanExtra(sip, c, ScanPool(sip, c, pool, id), extra, id);
      m.tx.Some? ==> Sid(sip, c, m.tx.value.hash) == id && (m.tx.value in pool || Extra(m.tx.value.hash, m.tx) in extra)
  {
    if extra == [] { ScanPoolExact(sip, c, pool, id); } else { ScanSound(sip, c, pool, extra[..|extra| - 1], id); }
  }

  // -------------------------------------------------------------------- FillBlock

  /** `ok` is false when a transaction is missing or null; `vtx` is then as far as it got. */
  datatype Filling = Filling(ok: bool, vtx: seq<Tx>, used: nat)

  function Fill(slots: Slots, n: nat, missing: seq<Tx>): (r: Filling)
    requires n <= |slots|
    ensures |r.vtx| <= n && (r.ok ==> |r.vtx| == n) && r.used <= |missing|
  {
    if n == 0 then Filling(true, [], 0)
    else
      var r := Fill(slots, n - 1, missing);
      if !r.ok then r
      else if slots[n - 1].Some? then r.(vtx := r.vtx + [slots[n - 1].value])
      else if |missing| <= r.used || missing[r.used].isNull then r.(ok := false)
      else Filling(true, r.vtx + [missing[r.used]], r.used + 1)
  }

  /** The transactions of the block that the first n slots lack, in order. */
  function Missing(slots: Slots, vtx: seq<Tx>, n: nat): seq<Tx>
    requires n <= |slots| && n <= |vtx|
  {
    if n == 0 then [] else Missing(slots, vtx, n - 1) + (if slots[n - 1].None? then [vtx[n - 1]] else [])
  }

  lemma {:induction false} MissingPrefix(slots: Slots, vtx: seq<Tx>, n: nat, m: nat)
    requires n <= m <= |slots| && m <= |vtx|
    ensures Missing(slots, vtx, n) <= Missing(slots, vtx, m)
  {
    if n < m { MissingPrefix(slots, vtx, n, m - 1); }
  }

  /** Slots that hold what the block has there, completed by what they lack, give the block. */
  lemma {:induction false} FillRebuilds(slots: Slots, vtx: seq<Tx>, n: nat)
    requires n <= |slots| == |vtx| && forall i | 0 <= i < |vtx| :: !vtx[i].isNull
    requires forall i | 0 <= i < |slots| && slots[i].Some? :: slots[i].value == vtx[i]
    ensures Fill(slots, n, Missing(slots, vtx, |vtx|)) == Filling(true, vtx[..n], |Missing(slots, vtx, n)|)
  {
    if n > 0 {
      FillRebuilds(slots, vtx, n - 1);
      MissingPrefix(slots, vtx, n, |vtx|);
      assert vtx[..n] == vtx[..n - 1] + [vtx[n - 1]];
    }
  }

  // --------------------------------------------------------- counting filled slots

  /** How many of the slots `at` are filled. */
  function Filled(slots: Slots, at: seq<nat>): nat
    requires forall i | 0 <= i < |at| :: at[i] < |slots|
  {
    if at == [] then 0 else Filled(slots, at[..|at| - 1]) + (if slots[at[|at| - 1]].Some? then 1 else 0)
  }

  predicate Distinct(at: seq<nat>) { forall i, j | 0 <= i < j < |at| :: at[i] != at[j] }

  lemma {:induction false} FilledSet(slots: Slots, at: seq<nat>, p: nat, v: Option<Tx>)
    requires p < |slots| && Distinct(at) && forall i | 0 <= i < |at| :: at[i] < |slots|
    ensures Filled(slots[p := v], at) ==
      Filled(slots, at) + (if p !in at then 0 else (if v.Some? then 1 else 0) - (if slots[p].Some? then 1 else 0))
  {
    if at != [] {
      FilledSet(slots, at[..|at| - 1], p, v);
      if at[|at| - 1] == p { assert p !in at[..|at| - 1]; }
    }
  }
}
