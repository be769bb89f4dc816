/**
 The cuckoo cache of src/cuckoocache.h as a function of its tables: eight hash
 slots per key, displacement, lazy erasure flags and epochs. The key of a default
 constructed element is DEFAULT; it is never inserted.
 */
module Cuckoo {
  import opened Basics
  import opened Powers

  type Key = nat
  const DEFAULT: Key := 0
  datatype Elem = Elem(key: Key, value: nat)

  /** Sizes chosen by setup, and the eight 32-bit hash functions. */
  datatype Config = Config(size: nat, epochSize: nat, depthLimit: nat, hash: (nat, Key) -> nat)

  /** The table, its discard flags and its epoch flags, slot by slot, and epoch_heuristic_counter. */
  datatype State = State(table: seq<Elem>, discard: seq<bool>, epoch: seq<bool>, counter: nat)

  // ---------------------------------------------------------------- hash slots

  function Loc(c: Config, j: nat, k: Key): (r: nat)
    requires 0 < c.size
    ensures r < c.size
  {
    UpperHalf(c.hash(j, k) % U32, c.size);
    c.hash(j, k) % U32 * c.size / U32
  }

  function Locs(c: Config, k: Key): (r: seq<nat>)
    requires 0 < c.size
    ensures |r| == 8 && forall j | 0 <= j < 8 :: r[j] < c.size
  {
    seq(8, j requires 0 <= j < 8 => Loc(c, j, k))
  }

  /** The first slot of `locs` holding key k. */
  function FindKey(table: seq<Elem>, locs: seq<nat>, k: Key): (r: Option<nat>)
    requires forall j | 0 <= j < |locs| :: locs[j] < |table|
    ensures r.Some? ==> r.value in locs && r.value < |table| && table[r.value].key == k
    ensures r.None? ==> forall j | 0 <= j < |locs| :: table[locs[j]].key != k
  {
    if locs == [] then None else if table[locs[0]].key == k then Some(locs[0]) else FindKey(table, locs[1..], k)
  }

  /** The first slot of `locs` whose element may be discarded. */
  function FindFree(discard: seq<bool>, locs: seq<nat>): (r: Option<nat>)
    requires forall j | 0 <= j < |locs| :: locs[j] < |discard|
    ensures r.Some? ==> r.value in locs && r.value < |discard| && discard[r.value]
    ensures r.None? ==> forall j | 0 <= j < |locs| :: !discard[locs[j]]
  {
    if locs == [] then None else if discard[locs[0]] then Some(locs[0]) else FindFree(discard, locs[1..])
  }

  function IndexOf(locs: seq<nat>, loc: int): (r: nat)
    ensures r <= |locs| && (r < |locs| ==> locs[r] == loc) && (r == |locs| ==> loc !in locs)
  {
    if locs == [] then 0 else if locs[0] == loc then 0 else 1 + IndexOf(locs[1..], loc)
  }

  /** The slot to displace: the one after the last one used, and locs[1] at first, when none was used. */
  function NextLoc(locs: seq<nat>, last: int): nat
    requires |locs| == 8
  {
    locs[(1 + IndexOf(locs, last)) % 8]
  }

  // ---------------------------------------------------------------- operations

  function Live(s: State, n: nat): (r: nat)
    requires n <= |s.epoch| && n <= |s.discard|
    ensures r <= n
  {
    if n == 0 then 0 else Live(s, n - 1) + (if s.epoch[n - 1] && !s.discard[n - 1] then 1 else 0)
  }

  predicate Shaped(c: Config, s: State) {
    0 < c.size == |s.table| == |s.discard| == |s.epoch|
  }

  /** The old epoch becomes discardable and the current one becomes old. */
  function Age(c: Config, s: State): State
    requires Shaped(c, s)
  {
    s.(discard := seq(c.size, i requires 0 <= i < c.size => s.discard[i] || !s.epoch[i]),
       epoch := seq(c.size, i requires 0 <= i < c.size => false),
       counter := c.epochSize)
  }

  predicate Ages(c: Config, s: State)
    requires Shaped(c, s)
  {
    s.counter == 0 && Live(s, c.size) >= c.epochSize
  }

  function EpochCheck(c: Config, s: State): (r: State)
    requires Shaped(c, s)
    ensures Shaped(c, r)
  {
    if s.counter != 0 then s.(counter := s.counter - 1)
    else if Ages(c, s) then Age(c, s)
    else s.(counter := Max(1, Max(c.epochSize / 16, c.epochSize - Live(s, c.size))))
  }

  function Keep(s: State, loc: nat, epoch: bool): State
    requires loc < |s.discard| && loc < |s.epoch|
  {
    s.(discard := s.discard[loc := false], epoch := s.epoch[loc := epoch])
  }

  /**
   `lost` is what the displacement drops: the occupant of the discardable slot it ended
   in, or the element left in hand.
   */
  datatype Outcome = Outcome(s: State, placed: bool, lost: Elem)

  function Displace(c: Config, s: State, e: Elem, lastLoc: int, lastEpoch: bool, depth: nat): (r: Outcome)
    requires Shaped(c, s) && depth <= c.depthLimit
    ensures Shaped(c, r.s)
    decreases c.depthLimit - depth
  {
    if depth == c.depthLimit then Outcome(s, false, e)
    else
      var locs := Locs(c, e.key);
      match FindFree(s.discard, locs)
      case Some(loc) => Outcome(Keep(s.(table := s.table[loc := e]), loc, lastEpoch), true, s.table[loc])
      case None =>
        var loc := NextLoc(locs, lastLoc);
        var s' := s.(table := s.table[loc := e], epoch := s.epoch[loc := lastEpoch]);
        Displace(c, s', s.table[loc], loc, s.epoch[loc], depth + 1)
  }

  /** insert after epoch_check, for a key that is not in the table. */
  function Place(c: Config, s: State, e: Elem): (r: Outcome)
    requires Shaped(c, s)
    ensures Shaped(c, r.s)
  {
    Displace(c, s, e, U32 - 1, true, 0)
  }

  function Refresh(s: State, loc: nat, e: Elem, replace: bool): State
    requires loc < |s.table| && loc < |s.discard| && loc < |s.epoch|
  {
    Keep(if replace then s.(table := s.table[loc := e]) else s, loc, true)
  }

  function Insert(c: Config, s: State, e: Elem, replace: bool): (r: State)
    requires Shaped(c, s)
    ensures Shaped(c, r)
  {
    var s1 := EpochCheck(c, s);
    match FindKey(s1.table, Locs(c, e.key), e.key)
    case Some(loc) => Refresh(s1, loc, e, replace)
    case None => Place(c, s1, e).s
  }

  /** contains(k, true) and get(e, true) mark the element as discardable. */
  function Erase(c: Config, s: State, k: Key): State
    requires Shaped(c, s)
  {
    match FindKey(s.table, Locs(c, k), k)
    case Some(loc) => s.(discard := s.discard[loc := true])
    case None => s
  }

  // ----------------------------------------------------------------- invariant

  /** A key sits in one of its hash slots, and in no second one; default elements are discardable. */
  ghost predicate Inv(c: Config, s: State) {
    Shaped(c, s) && Homed(c, s)
  }

  ghost predicate Homed(c: Config, s: State)
    requires Shaped(c, s)
  {
    && (forall i | 0 <= i < c.size && s.table[i].key != DEFAULT :: i in Locs(c, s.table[i].key))
    && (forall i, j | 0 <= i < j < c.size && s.table[i].key == s.table[j].key :: s.table[i].key == DEFAULT)
    && (forall i | 0 <= i < c.size && !s.discard[i] :: s.table[i].key != DEFAULT)
  }

  ghost predicate Absent(table: seq<Elem>, k: Key) { forall i | 0 <= i < |table| :: table[i].key != k }

  /** contains is exact: the eight slots are searched, and the whole table is meant. */
  lemma ContainsExact(c: Config, s: State, k: Key)
    requires Inv(c, s) && k != DEFAULT
    ensures FindKey(s.table, Locs(c, k), k).None? <==> Absent(s.table, k)
  {
    hide Locs;
    forall i | 0 <= i < |s.table| && s.table[i].key == k ensures FindKey(s.table, Locs(c, k), k).Some? {
      assert i in Locs(c, k);
    }
  }

  lemma PutInv(c: Config, s: State, e: Elem, loc: nat)
    requires Inv(c, s) && e.key != DEFAULT && Absent(s.table, e.key) && loc in Locs(c, e.key) && loc < c.size
    ensures Inv(c, s.(table := s.table[loc := e]))
    ensures s.table[loc].key != DEFAULT ==> Absent(s.table[loc := e], s.table[loc].key)
  {
    hide Locs;
  }

  lemma {:induction false} DisplaceInv(c: Config, s: State, e: Elem, lastLoc: int, lastEpoch: bool, depth: nat)
    requires Inv(c, s) && depth <= c.depthLimit && e.key != DEFAULT && Absent(s.table, e.key)
    ensures Inv(c, Displace(c, s, e, lastLoc, lastEpoch, depth).s)
    decreases c.depthLimit - depth
  {
    hide Locs, FindFree, IndexOf;
    if depth < c.depthLimit {
      var locs := Locs(c, e.key);
      match FindFree(s.discard, locs)
      case Some(loc) => PutInv(c, s, e, loc);
      case None =>
        var loc := NextLoc(locs, lastLoc);
        PutInv(c, s, e, loc);
        assert loc in locs;
        var s' := s.(table := s.table[loc := e], epoch := s.epoch[loc := lastEpoch]);
        DisplaceInv(c, s', s.table[loc], loc, s.epoch[loc], depth + 1);
    }
  }

  /** Conservation: the table and the element in hand trade places, so exactly one element leaves. */
  lemma {:induction false} DisplaceConserves(c: Config, s: State, e: Elem, lastLoc: int, lastEpoch: bool, depth: nat)
    requires Shaped(c, s) && depth <= c.depthLimit
    ensures var r := Displace(c, s, e, lastLoc, lastEpoch, depth);
      multiset(r.s.table) + multiset{r.lost} == multiset(s.table) + multiset{e}
    decreases c.depthLimit - depth
  {
    hide Locs, FindFree, NextLoc;
    if depth < c.depthLimit {
      var locs := Locs(c, e.key);
      match FindFree(s.discard, locs)
      case Some(loc) =>
      case None =>
        NextLocIn(locs, lastLoc);
        var loc := NextLoc(locs, lastLoc);
        var s' := s.(table := s.table[loc := e], epoch := s.epoch[loc := lastEpoch]);
        DisplaceConserves(c, s', s.table[loc], loc, s.epoch[loc], depth + 1);
    }
  }

  /** Displacement goes round the eight slots: to the one after the slot that the element came from. */
  lemma NextLocExactly(locs: seq<nat>, last: int, j: nat)
    requires |locs| == 8
    ensures last !in locs ==> NextLoc(locs, last) == locs[1]
    ensures j < 8 && locs[j] == last && last !in locs[..j] ==> NextLoc(locs, last) == locs[if j == 7 then 0 else j + 1]
  {
    if j < 8 && locs[j] == last && last !in locs[..j] { FirstIndex(locs, last, j); }
  }

  lemma {:induction false} FirstIndex(locs: seq<nat>, last: int, j: nat)
    requires j < |locs| && locs[j] == last && last !in locs[..j]
    ensures IndexOf(locs, last) == j
  {
    if j > 0 {
      assert locs[..j][0] == locs[0] && locs[..j] == [locs[0]] + locs[1..][..j - 1];
      FirstIndex(locs[1..], last, j - 1);
    }
  }

  /** With a discardable slot among its eight, an element is placed at once and no other slot changes. */
  lemma RoomSuffices(c: Config, s: State, e: Elem, j: nat) returns (loc: nat)
    requires Shaped(c, s) && 0 < c.depthLimit && j < 8 && s.discard[Locs(c, e.key)[j]]
    ensures loc in Locs(c, e.key) && loc < c.size && s.discard[loc]
    ensures var r := Place(c, s, e);
      && r.placed && r.lost == s.table[loc]
      && r.s == s.(table := s.table[loc := e], discard := s.discard[loc := false], epoch := s.epoch[loc := true])
  {
    hide Locs;
    loc := FindFree(s.discard, Locs(c, e.key)).value;
  }

  lemma NextLocIn(locs: seq<nat>, last: int)
    requires |locs| == 8
    ensures NextLoc(locs, last) in locs
  {}

  /** A displacement that finds room drops only an element that was discardable from the start. */
  lemma {:induction false} PlacedDropsDiscardable(c: Config, s: State, e: Elem, lastLoc: int, lastEpoch: bool,
      depth: nat) returns (loc: nat)
    requires Shaped(c, s) && depth <= c.depthLimit
    requires Displace(c, s, e, lastLoc, lastEpoch, depth).placed
    ensures loc < c.size && s.discard[loc] && s.table[loc] == Displace(c, s, e, lastLoc, lastEpoch, depth).lost
    decreases c.depthLimit - depth
  {
    hide Locs, FindFree, NextLoc;
    var locs := Locs(c, e.key);
    match FindFree(s.discard, locs)
    case Some(l) => loc := l;
    case None =>
      NextLocIn(locs, lastLoc);
      var l := NextLoc(locs, lastLoc);
      var s' := s.(table := s.table[l := e], epoch := s.epoch[l := lastEpoch]);
      loc := PlacedDropsDiscardable(c, s', s.table[l], l, s.epoch[l], depth + 1);
  }

  // ------------------------------------------------------------ a lossy set

  lemma PutKeys(c: Config, s: State, e: Elem, loc: nat, k: Key)
    requires Inv(c, s) && loc < c.size && Absent(s.table, e.key) && k != DEFAULT
    ensures Absent(s.table[loc := e], k) <==> k != e.key && (Absent(s.table, k) || k == s.table[loc].key)
  {
    hide Locs;
    var now := s.table[loc := e];
    assert now[loc] == e;
    if k != e.key && k != s.table[loc].key && Absent(now, k) {
      forall i | 0 <= i < |s.table| ensures s.table[i].key != k { assert i == loc || now[i] == s.table[i]; }
    }
  }

  /** The keys after a displacement: the old ones and the new one, less the lost one. */
  lemma {:induction false} DisplaceKeys(c: Config, s: State, e: Elem, lastLoc: int, lastEpoch: bool, depth: nat, k: Key)
    requires Inv(c, s) && depth <= c.depthLimit && e.key != DEFAULT && Absent(s.table, e.key) && k != DEFAULT
    ensures var r := Displace(c, s, e, lastLoc, lastEpoch, depth);
      Absent(r.s.table, k) <==> k == r.lost.key || (k != e.key && Absent(s.table, k))
    decreases c.depthLimit - depth
  {
    hide Locs, FindFree, NextLoc, Absent, Homed;
    if depth < c.depthLimit {
      var locs := Locs(c, e.key);
      match FindFree(s.discard, locs)
      case Some(loc) => PutKeys(c, s, e, loc, k); Occupant(s.table, loc, k);
      case None =>
        NextLocIn(locs, lastLoc);
        var loc := NextLoc(locs, lastLoc);
        PutKeys(c, s, e, loc, k);
        Occupant(s.table, loc, k);
        PutInv(c, s, e, loc);
        var s' := s.(table := s.table[loc := e], epoch := s.epoch[loc := lastEpoch]);
        HandInv(c, s, s', loc);
        DisplaceKeys(c, s', s.table[loc], loc, s.epoch[loc], depth + 1, k);
    }
  }

  lemma Occupant(table: seq<Elem>, loc: nat, k: Key)
    requires loc < |table|
    ensures Absent(table, k) ==> table[loc].key != k
  {}

  /** A displaced element is a real one. */
  lemma HandInv(c: Config, s: State, s': State, loc: nat)
    requires Inv(c, s) && loc < c.size && !s.discard[loc]
    requires Inv(c, s.(table := s'.table)) && s' == s.(table := s'.table, epoch := s'.epoch) && |s'.epoch| == c.size
    ensures s.table[loc].key != DEFAULT && Inv(c, s')
  {}

  lemma EpochCheckInv(c: Config, s: State)
    requires Inv(c, s)
    ensures Inv(c, EpochCheck(c, s)) && EpochCheck(c, s).table == s.table
    ensures forall i | 0 <= i < c.size && s.discard[i] :: EpochCheck(c, s).discard[i]
  {
    hide Locs, Live;
  }

  /** What an insert does to the set of keys, and which element it may drop. */
  ghost predicate Lossy(c: Config, s: State, e: Elem, r: State, lost: Elem) {
    && (forall k | k != DEFAULT :: Absent(r.table, k) <==> k == lost.key || (k != e.key && Absent(s.table, k)))
    && multiset(r.table) + multiset{lost} == multiset(s.table) + multiset{e}
  }

  /**
   insert of a key that is absent: the keys are the old ones and the new one, less
   one at most. The lost element was discardable, unless the depth ran out.
   */
  lemma InsertNew(c: Config, s: State, e: Elem, replace: bool) returns (lost: Elem, loc: nat)
    requires Inv(c, s) && e.key != DEFAULT && Absent(s.table, e.key)
    ensures Inv(c, Insert(c, s, e, replace)) && Lossy(c, s, e, Insert(c, s, e, replace), lost)
    ensures var s1 := EpochCheck(c, s);
      Place(c, s1, e).placed ==> loc < c.size && s1.discard[loc] && s.table[loc] == lost
  {
    hide Locs, Absent, Homed, EpochCheck, Displace;
    var s1 := EpochCheck(c, s);
    EpochCheckInv(c, s);
    ContainsExact(c, s1, e.key);
    DisplaceInv(c, s1, e, U32 - 1, true, 0);
    DisplaceConserves(c, s1, e, U32 - 1, true, 0);
    lost, loc := Place(c, s1, e).lost, 0;
    forall k | k != DEFAULT
      ensures Absent(Place(c, s1, e).s.table, k) <==> k == lost.key || (k != e.key && Absent(s.table, k))
    {
      DisplaceKeys(c, s1, e, U32 - 1, true, 0, k);
    }
    if Place(c, s1, e).placed { loc := PlacedDropsDiscardable(c, s1, e, U32 - 1, true, 0); }
  }

  /** insert of a key that is present drops nothing; it replaces the element only on request, and makes it recent. */
  lemma InsertKnown(c: Config, s: State, e: Elem, replace: bool) returns (loc: nat)
    requires Inv(c, s) && e.key != DEFAULT && !Absent(s.table, e.key)
    ensures Inv(c, Insert(c, s, e, replace))
    ensures loc < c.size && s.table[loc].key == e.key
    ensures var r := Insert(c, s, e, replace);
      r.table == (if replace then s.table[loc := e] else s.table) && !r.discard[loc] && r.epoch[loc]
  {
    hide Locs, EpochCheck;
    var s1 := EpochCheck(c, s);
    EpochCheckInv(c, s);
    ContainsExact(c, s1, e.key);
    loc := FindKey(s1.table, Locs(c, e.key), e.key).value;
  }

  lemma EraseInv(c: Config, s: State, k: Key)
    requires Inv(c, s)
    ensures Inv(c, Erase(c, s, k)) && Erase(c, s, k).table == s.table
  {
    hide Locs;
  }

  /** contains with erasure marks exactly the element with that key, and nothing when there is none. */
  lemma EraseExactly(c: Config, s: State, k: Key)
    requires Inv(c, s) && k != DEFAULT
    ensures var r := Erase(c, s, k);
      && r == s.(discard := r.discard) && |r.discard| == c.size
      && forall i | 0 <= i < c.size :: r.discard[i] <==> s.discard[i] || s.table[i].key == k
  {
    hide Locs;
    ContainsExact(c, s, k);
    var found := FindKey(s.table, Locs(c, k), k);
    if found.Some? {
      forall i | 0 <= i < c.size && s.table[i].key == k ensures i == found.value {
        assert i < found.value || found.value < i || i == found.value;
      }
    }
  }

  // -------------------------------------------------------------------- aging

  /**
   History: n inserts have been made, born[k] is the number of inserts made before
   the one that last inserted or refreshed k, and the last aging took place in the
   insert numbered `aged`.
   */
  datatype Log = Log(n: nat, born: map<Key, nat>, aged: nat)

  ghost predicate SlotAge(born: map<Key, nat>, n: nat, aged: nat, e: Elem, epoch: bool) {
    e.key in born && born[e.key] < n && (!epoch ==> born[e.key] < aged)
  }

  ghost predicate SlotAges(s: State, born: map<Key, nat>, n: nat, aged: nat) {
    && |s.table| == |s.discard| == |s.epoch|
    && forall i | 0 <= i < |s.table| && !s.discard[i] :: SlotAge(born, n, aged, s.table[i], s.epoch[i])
  }

  ghost predicate AgeOk(c: Config, s: State, h: Log) {
    && h.aged + c.epochSize <= h.n + s.counter && h.aged <= h.n
    && SlotAges(s, h.born, h.n, h.aged)
  }

  function LogInsert(c: Config, s: State, h: Log, e: Elem): Log
    requires Shaped(c, s)
  {
    Log(h.n + 1, h.born[e.key := h.n], if Ages(c, s) then h.n else h.aged)
  }

  /** Aging marks an element only after at least epoch_size inserts since it was last inserted or refreshed. */
  lemma AgingWaits(c: Config, s: State, h: Log, i: nat)
    requires Inv(c, s) && AgeOk(c, s, h) && i < c.size && !s.discard[i] && EpochCheck(c, s).discard[i]
    ensures s.table[i].key in h.born && h.n - 1 - h.born[s.table[i].key] >= c.epochSize
  {
    hide Locs, Live;
    assert SlotAge(h.born, h.n, h.aged, s.table[i], s.epoch[i]);
  }

  /** After epoch_check and the bookkeeping for the new key, the other slots are still accounted for. */
  lemma EpochCheckAges(c: Config, s: State, h: Log, e: Elem)
    requires Inv(c, s) && AgeOk(c, s, h) && Absent(s.table, e.key)
    ensures var h' := LogInsert(c, s, h, e); SlotAges(EpochCheck(c, s), h'.born, h'.n, h'.aged)
  {
    hide Locs, Live;
  }

  lemma {:induction false} DisplaceAges(c: Config, s: State, e: Elem, lastLoc: int, lastEpoch: bool, depth: nat,
      born: map<Key, nat>, n: nat, aged: nat)
    requires Shaped(c, s) && depth <= c.depthLimit && SlotAges(s, born, n, aged) && SlotAge(born, n, aged, e, lastEpoch)
    ensures SlotAges(Displace(c, s, e, lastLoc, lastEpoch, depth).s, born, n, aged)
    decreases c.depthLimit - depth
  {
    hide Locs, FindFree, NextLoc;
    if depth < c.depthLimit {
      var locs := Locs(c, e.key);
      match FindFree(s.discard, locs)
      case Some(loc) =>
      case None =>
        NextLocIn(locs, lastLoc);
        var loc := NextLoc(locs, lastLoc);
        var s' := s.(table := s.table[loc := e], epoch := s.epoch[loc := lastEpoch]);
        DisplaceAges(c, s', s.table[loc], loc, s.epoch[loc], depth + 1, born, n, aged);
    }
  }

  lemma CounterOk(c: Config, s: State, h: Log, e: Elem)
    requires Inv(c, s) && AgeOk(c, s, h)
    ensures var h' := LogInsert(c, s, h, e);
      h'.aged + c.epochSize <= h'.n + EpochCheck(c, s).counter && h'.aged <= h'.n
  {
    hide Locs, Live;
  }

  lemma {:induction false} DisplaceCounter(c: Config, s: State, e: Elem, lastLoc: int, lastEpoch: bool, depth: nat)
    requires Shaped(c, s) && depth <= c.depthLimit
    ensures Displace(c, s, e, lastLoc, lastEpoch, depth).s.counter == s.counter
    decreases c.depthLimit - depth
  {
    hide Locs, FindFree, NextLoc;
    if depth < c.depthLimit && FindFree(s.discard, Locs(c, e.key)).None? {
      NextLocIn(Locs(c, e.key), lastLoc);
      var loc := NextLoc(Locs(c, e.key), lastLoc);
      DisplaceCounter(c, s.(table := s.table[loc := e], epoch := s.epoch[loc := lastEpoch]), s.table[loc], loc,
          s.epoch[loc], depth + 1);
    }
  }

  lemma RefreshAges(c: Config, s: State, h: Log, e: Elem, replace: bool, loc: nat)
    requires Inv(c, s) && AgeOk(c, s, h) && loc < c.size && s.table[loc].key == e.key && e.key != DEFAULT
    ensures var h' := LogInsert(c, s, h, e); SlotAges(Refresh(EpochCheck(c, s), loc, e, replace), h'.born, h'.n,
        h'.aged)
  {
    hide Locs, Live;
    var h', r := LogInsert(c, s, h, e), Refresh(EpochCheck(c, s), loc, e, replace);
    forall i | 0 <= i < c.size && !r.discard[i] ensures SlotAge(h'.born, h'.n, h'.aged, r.table[i], r.epoch[i]) {
      if i != loc {
        assert s.table[i].key != e.key by { assert i < loc || loc < i; }
        assert SlotAge(h.born, h.n, h.aged, s.table[i], s.epoch[i]);
      }
    }
  }

  lemma InsertAges(c: Config, s: State, h: Log, e: Elem, replace: bool)
    requires Inv(c, s) && AgeOk(c, s, h) && e.key != DEFAULT
    ensures Inv(c, Insert(c, s, e, replace)) && AgeOk(c, Insert(c, s, e, replace), LogInsert(c, s, h, e))
  {
    hide Locs, EpochCheck, LogInsert, SlotAges;
    var s1, h' := EpochCheck(c, s), LogInsert(c, s, h, e);
    EpochCheckInv(c, s);
    CounterOk(c, s, h, e);
    ContainsExact(c, s1, e.key);
    if Absent(s.table, e.key) {
      var lost, loc := InsertNew(c, s, e, replace);
      EpochCheckAges(c, s, h, e);
      NewbornAge(c, s, h, e);
      DisplaceAges(c, s1, e, U32 - 1, true, 0, h'.born, h'.n, h'.aged);
      DisplaceCounter(c, s1, e, U32 - 1, true, 0);
    } else {
      var loc := InsertKnown(c, s, e, replace);
      RefreshAges(c, s, h, e, replace, FindKey(s1.table, Locs(c, e.key), e.key).value);
    }
  }

  lemma NewbornAge(c: Config, s: State, h: Log, e: Elem)
    requires Shaped(c, s)
    ensures var h' := LogInsert(c, s, h, e); SlotAge(h'.born, h'.n, h'.aged, e, true)
  {}

  // ------------------------------------------------------------ aging comes in time

  /** The kept slots of the current epoch. */
  ghost function Current(s: State): set<nat>
    requires |s.epoch| == |s.discard|
  {
    set i: nat | i < |s.epoch| && s.epoch[i] && !s.discard[i]
  }

  ghost function CurrentBelow(s: State, n: nat): set<nat>
    requires n <= |s.epoch| == |s.discard|
  {
    set i: nat | i < n && s.epoch[i] && !s.discard[i]
  }

  lemma NextCurrent(s: State, n: nat)
    requires n < |s.epoch| == |s.discard|
    ensures n !in CurrentBelow(s, n)
    ensures CurrentBelow(s, n + 1) == CurrentBelow(s, n) + if s.epoch[n] && !s.discard[n] then {n} else {}
  {}

  lemma {:induction false} LiveCounts(s: State, n: nat)
    requires n <= |s.epoch| == |s.discard|
    ensures Live(s, n) == |CurrentBelow(s, n)|
  {
    if n > 0 {
      hide CurrentBelow;
      LiveCounts(s, n - 1);
      NextCurrent(s, n - 1);
    } else {
      assert CurrentBelow(s, 0) == {};
    }
  }

  lemma LiveIsCurrent(c: Config, s: State)
    requires Shaped(c, s)
    ensures Live(s, c.size) == |Current(s)|
  {
    LiveCounts(s, c.size);
    assert Current(s) == CurrentBelow(s, c.size);
  }

  /** The room that the current epoch is given beyond epoch_size. */
  function Slack(c: Config): nat { Max(1, c.epochSize / 16) }

  /** epoch_heuristic_counter leaves the current epoch no more inserts than it has room for. */
  ghost predicate Bounded(c: Config, s: State) {
    Shaped(c, s) && |Current(s)| + s.counter <= c.epochSize + Slack(c)
  }

  /**
   epoch_check: at counter 0 and with epoch_size kept slots of the current epoch, all
   others become discardable and the current epoch becomes the old one. Otherwise no
   flag changes, and after a count the next one comes when the epoch can be full, or a
   sixteenth of its size later.
   */
  lemma AgesExactly(c: Config, s: State)
    requires Shaped(c, s)
    ensures var r := EpochCheck(c, s); var full := s.counter == 0 && c.epochSize <= |Current(s)|;
      && r.table == s.table
      && (forall i | 0 <= i < c.size :: r.discard[i] <==> s.discard[i] || (full && !s.epoch[i]))
      && (forall i | 0 <= i < c.size :: r.epoch[i] <==> s.epoch[i] && !full)
      && (s.counter != 0 ==> r.counter == s.counter - 1)
      && Current(r) == (if full then {} else Current(s)) && (full ==> r.counter == c.epochSize)
      && (s.counter == 0 && !full ==>
            && c.epochSize <= |Current(s)| + r.counter && Slack(c) <= r.counter
            && (r.counter == Slack(c) || |Current(s)| + r.counter == c.epochSize))
  {
    hide Live;
    LiveIsCurrent(c, s);
    if s.counter == 0 && c.epochSize <= |Current(s)| {
      assert Current(EpochCheck(c, s)) == {};
    } else {
      assert Current(EpochCheck(c, s)) == Current(s);
    }
  }

  lemma CheckBounded(c: Config, s: State)
    requires Bounded(c, s)
    ensures var r := EpochCheck(c, s); Shaped(c, r) && |Current(r)| + 1 + r.counter <= c.epochSize + Slack(c)
  {
    hide Live, EpochCheck;
    AgesExactly(c, s);
  }

  lemma KeepAddsOne(s: State, loc: nat, epoch: bool, table: seq<Elem>)
    requires loc < |s.epoch| == |s.discard|
    ensures |Current(Keep(s.(table := table), loc, epoch))| <= |Current(s)| + (if epoch then 1 else 0)
  {
    var r := Keep(s.(table := table), loc, epoch);
    if epoch {
      assert Current(r) <= Current(s) + {loc};
      Within(Current(r), Current(s) + {loc});
    } else {
      Within(Current(r), Current(s));
    }
  }

  lemma {:induction false} Within(a: set<nat>, b: set<nat>)
    requires a <= b
    ensures |a| <= |b|
  {
    if a != {} {
      var x :| x in a;
      Within(a - {x}, b - {x});
    }
  }

  /** A displacement moves epoch flags along with the elements, and adds the one of the new element. */
  lemma {:induction false} DisplaceBounded(c: Config, s: State, e: Elem, lastLoc: int, lastEpoch: bool, depth: nat)
    requires Shaped(c, s) && depth <= c.depthLimit
    ensures |Current(Displace(c, s, e, lastLoc, lastEpoch, depth).s)| <= |Current(s)| + (if lastEpoch then 1 else 0)
    decreases c.depthLimit - depth
  {
    hide Locs, FindFree, NextLoc, Current;
    if depth < c.depthLimit {
      var locs := Locs(c, e.key);
      match FindFree(s.discard, locs)
      case Some(loc) => KeepAddsOne(s, loc, lastEpoch, s.table[loc := e]);
      case None =>
        NextLocIn(locs, lastLoc);
        var loc := NextLoc(locs, lastLoc);
        var s' := s.(table := s.table[loc := e], epoch := s.epoch[loc := lastEpoch]);
        SwapFlag(s, s', loc, lastEpoch);
        DisplaceBounded(c, s', s.table[loc], loc, s.epoch[loc], depth + 1);
    }
  }

  lemma SwapFlag(s: State, s': State, loc: nat, epoch: bool)
    requires loc < |s.epoch| == |s.discard| && !s.discard[loc]
    requires s'.epoch == s.epoch[loc := epoch] && s'.discard == s.discard
    ensures |Current(s')| + (if s.epoch[loc] then 1 else 0) == |Current(s)| + (if epoch then 1 else 0)
  {
    if epoch == s.epoch[loc] {
      assert s'.epoch == s.epoch;
    } else if epoch {
      assert Current(s') == Current(s) + {loc} && loc !in Current(s);
    } else {
      assert Current(s') == Current(s) - {loc} && loc in Current(s);
    }
  }

  lemma InsertBounded(c: Config, s: State, e: Elem, replace: bool)
    requires Bounded(c, s)
    ensures Bounded(c, Insert(c, s, e, replace))
  {
    hide Locs, EpochCheck, Displace, Current, FindKey;
    var s1 := EpochCheck(c, s);
    CheckBounded(c, s);
    match FindKey(s1.table, Locs(c, e.key), e.key)
    case Some(loc) =>
      FoundInside(c, s1, e.key);
      KeepAddsOne(s1, loc, true, if replace then s1.table[loc := e] else s1.table);
    case None =>
      DisplaceBounded(c, s1, e, U32 - 1, true, 0);
      DisplaceCounter(c, s1, e, U32 - 1, true, 0);
  }

  lemma FoundInside(c: Config, s: State, k: Key)
    requires Shaped(c, s)
    ensures var r := FindKey(s.table, Locs(c, k), k); r.Some? ==> r.value < c.size
  {
    hide Locs;
  }

  lemma EraseBounded(c: Config, s: State, k: Key)
    requires Bounded(c, s)
    ensures Bounded(c, Erase(c, s, k))
  {
    hide Locs;
    Within(Current(Erase(c, s, k)), Current(s));
  }

  // --------------------------------------------------------------------- runs

  datatype Op = InsertOp(e: Elem, replace: bool) | EraseOp(k: Key)

  /** Inserts of real elements, lookups that erase (the others change nothing), in any order. */
  ghost predicate Reaches(c: Config, s: State, h: Log, ops: seq<Op>, s': State, h': Log)
    requires Shaped(c, s)
    decreases |ops|
  {
    if ops == [] then s' == s && h' == h
    else match ops[0]
      case InsertOp(e, replace) =>
        && e.key != DEFAULT
        && Reaches(c, Insert(c, s, e, replace), LogInsert(c, s, h, e), ops[1..], s', h')
      case EraseOp(k) => Reaches(c, Erase(c, s, k), h, ops[1..], s', h')
  }

  function Setup(c: Config): State
    requires 0 < c.size
  {
    State(seq(c.size, i => Elem(DEFAULT, 0)), seq(c.size, i => true), seq(c.size, i => false), c.epochSize)
  }

  lemma SetupOk(c: Config)
    requires 0 < c.size
    ensures Inv(c, Setup(c)) && AgeOk(c, Setup(c), Log(0, map[], 0))
  {
    hide Locs;
  }

  lemma {:induction false} ReachesKeeps(c: Config, s: State, h: Log, ops: seq<Op>, s': State, h': Log)
    requires Inv(c, s) && AgeOk(c, s, h) && Reaches(c, s, h, ops, s', h')
    ensures Inv(c, s') && AgeOk(c, s', h')
    decreases |ops|
  {
    hide Homed, AgeOk, Insert, LogInsert, Erase;
    if ops != [] {
      match ops[0]
      case InsertOp(e, replace) =>
        InsertAges(c, s, h, e, replace);
        ReachesKeeps(c, Insert(c, s, e, replace), LogInsert(c, s, h, e), ops[1..], s', h');
      case EraseOp(k) =>
        EraseInv(c, s, k);
        EraseAges(c, s, h, k);
        ReachesKeeps(c, Erase(c, s, k), h, ops[1..], s', h');
    }
  }

  lemma EraseAges(c: Config, s: State, h: Log, k: Key)
    requires Shaped(c, s) && AgeOk(c, s, h)
    ensures AgeOk(c, Erase(c, s, k), h)
  {
    hide Locs;
  }

  /** From setup on, in every run: the current epoch never outgrows epoch_size by more than its slack. */
  lemma RunBounded(c: Config, ops: seq<Op>, s: State, h: Log)
    requires 0 < c.size && Reaches(c, Setup(c), Log(0, map[], 0), ops, s, h)
    ensures |s.epoch| == |s.discard| && |Current(s)| + s.counter <= c.epochSize + Slack(c)
  {
    hide Reaches;
    assert Current(Setup(c)) == {};
    ReachesBounded(c, Setup(c), Log(0, map[], 0), ops, s, h);
  }

  lemma {:induction false} ReachesBounded(c: Config, s: State, h: Log, ops: seq<Op>, s': State, h': Log)
    requires Bounded(c, s) && Reaches(c, s, h, ops, s', h')
    ensures Bounded(c, s')
    decreases |ops|
  {
    hide Current, Insert, LogInsert, Erase;
    if ops != [] {
      match ops[0]
      case InsertOp(e, replace) =>
        InsertBounded(c, s, e, replace);
        ReachesBounded(c, Insert(c, s, e, replace), LogInsert(c, s, h, e), ops[1..], s', h');
      case EraseOp(k) =>
        EraseBounded(c, s, k);
        ReachesBounded(c, Erase(c, s, k), h, ops[1..], s', h');
    }
  }

  /** From setup on, in every run: keys are unique and in their slots, and aging never comes too soon. */
  lemma RunSafe(c: Config, ops: seq<Op>, s: State, h: Log)
    requires 0 < c.size && Reaches(c, Setup(c), Log(0, map[], 0), ops, s, h)
    ensures Inv(c, s)
    ensures forall i | 0 <= i < c.size && !s.discard[i] && EpochCheck(c, s).discard[i] ::
      s.table[i].key in h.born && h.n - 1 - h.born[s.table[i].key] >= c.epochSize
  {
    hide Reaches, EpochCheck, Homed, AgeOk;
    SetupOk(c);
    ReachesKeeps(c, Setup(c), Log(0, map[], 0), ops, s, h);
    EpochCheckInv(c, s);
    forall i | 0 <= i < c.size && !s.discard[i] && EpochCheck(c, s).discard[i]
      ensures s.table[i].key in h.born && h.n - 1 - h.born[s.table[i].key] >= c.epochSize
    {
      AgingWaits(c, s, h, i);
    }
  }
}
