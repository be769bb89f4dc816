/**
 The operations of src/addrman.cpp on values: Good_, Add_, Attempt_, Connected_,
 SetServices_, GetAddr_, ResolveCollisions_ and SelectTriedCollision_. Random
 draws, the clock and the address classification are arguments.
 */
module AddrOps {
  import opened AddrTypes
  import opened AddrState
  import opened Powers
  import opened Basics

  /** Ids waiting for a tried slot wait for an occupied one, and ids are never reused. */
  ghost predicate CollisionsOk(g: Geometry, s: State) {
    forall id | id in s.collisions ::
      && 0 <= id < s.idCount
      && (id in s.info ==> g.TriedSlot(s.info[id].rec.svc) in s.triedTable)
  }

  ghost predicate Ready(g: Geometry, s: State) { g.InRange() && Consistent(g, s) }

  /** What no operation ever undoes: slots of the tried table stay occupied, ids keep their peer and are not reused. */
  ghost predicate Evolves(s: State, t: State) {
    && t.key == s.key && s.idCount <= t.idCount
    && s.triedTable.Keys <= t.triedTable.Keys
    && (forall id | id in t.info && id < s.idCount :: id in s.info && t.info[id].rec.svc == s.info[id].rec.svc)
  }

  /** What every operation guarantees. */
  ghost predicate Keeps(g: Geometry, s: State, t: State) {
    Ready(g, t) && Evolves(s, t) && (CollisionsOk(g, s) ==> CollisionsOk(g, t))
  }

  lemma KeepsTrans(g: Geometry, s: State, t: State, u: State)
    requires Keeps(g, s, t) && Keeps(g, t, u)
    ensures Keeps(g, s, u)
  {
    hide Weak, CollisionsOk;
  }

  lemma EvolvesKeeps(g: Geometry, s: State, t: State)
    requires Ready(g, t) && Evolves(s, t) && t.collisions <= s.collisions
    ensures Keeps(g, s, t)
  {
    hide Weak;
    if CollisionsOk(g, s) {
      forall id | id in t.collisions && id in t.info
        ensures g.TriedSlot(t.info[id].rec.svc) in t.triedTable
      {
        assert g.TriedSlot(s.info[id].rec.svc) in s.triedTable.Keys;
      }
    }
  }

  // ----------------------------------------------------- statistics of one entry

  function SetRecord(s: State, id: int, r: Record): State
    requires id in s.info
  {
    s.(info := s.info[id := s.info[id].(rec := r)])
  }

  /** A record update that keeps the service and sane times keeps everything. */
  lemma SetRecordKeeps(g: Geometry, s: State, id: int, r: Record)
    requires Ready(g, s) && id in s.info && r.svc == s.info[id].rec.svc
    requires 0 <= r.lastTry && 0 <= r.lastSuccess && (s.info[id].inTried ==> r.lastSuccess != 0)
    ensures Keeps(g, s, SetRecord(s, id, r))
  {
    SetRecordTables(g, s, id, r);
    EvolvesKeeps(g, s, SetRecord(s, id, r));
  }

  lemma SetRecordTables(g: Geometry, s: State, id: int, r: Record)
    requires Consistent(g, s) && id in s.info && r.svc == s.info[id].rec.svc
    requires 0 <= r.lastTry && 0 <= r.lastSuccess && (s.info[id].inTried ==> r.lastSuccess != 0)
    ensures Consistent(g, SetRecord(s, id, r))
  {
    hide AddrsOk, RandomOk, TriedOk, NewSlotsOk;
    var i := s.info[id].(rec := r);
    TweakIndexes(s.info, s.addrs, s.random, id, i);
    TweakTried(g, s.info, s.triedTable, id, i);
    TweakNewSlots(g, s.info, s.newTable, id, i);
    SameIdSets(s.info[id := i], s.info);
  }

  /** Find, followed by the comparison of the whole service, port included. */
  function FindExact(s: State, svc: Service): (r: Option<int>)
    ensures r.Some? ==> r.value in s.info && s.info[r.value].rec.svc == svc
  {
    if svc.net in s.addrs && s.addrs[svc.net] in s.info && s.info[s.addrs[svc.net]].rec.svc == svc
    then Some(s.addrs[svc.net]) else None
  }

  function Attempted(r: Record, countFailure: bool, time: int, lastGood: int): Record {
    var r' := r.(lastTry := time);
    if countFailure && r.lastCountAttempt < lastGood
    then r'.(lastCountAttempt := time, attempts := r.attempts + 1) else r'
  }

  ghost function Attempt(g: Geometry, s: State, svc: Service, countFailure: bool, time: int): (t: State)
    requires Ready(g, s) && 0 <= time
    ensures Keeps(g, s, t)
  {
    match FindExact(s, svc)
    case None => s
    case Some(id) =>
      var r := Attempted(s.info[id].rec, countFailure, time, s.lastGood);
      SetRecordKeeps(g, s, id, r);
      SetRecord(s, id, r)
  }

  function ConnectedRecord(r: Record, time: int): Record {
    if time - r.time > 20 * 60 then r.(time := ToU32(time)) else r
  }

  /** The times that Attempt_ and Good_ may write: an attempt keeps consistency exactly when it is not before 0. */
  lemma AttemptTime(g: Geometry, s: State, id: int, countFailure: bool, time: int)
    requires Ready(g, s) && id in s.info
    ensures Consistent(g, SetRecord(s, id, Attempted(s.info[id].rec, countFailure, time, s.lastGood))) <==> 0 <= time
  {
    hide AddrsOk, RandomOk, TriedOk, NewSlotsOk, RefsOk, CountsOk;
    var t := SetRecord(s, id, Attempted(s.info[id].rec, countFailure, time, s.lastGood));
    assert id in t.info && t.info[id].rec.lastTry == time;
    if 0 <= time { SetRecordTables(g, s, id, t.info[id].rec); }
  }

  /** A success on an entry that stays where it is: exactly when it is after 0, or at 0 outside tried. */
  lemma SuccessTime(g: Geometry, s: State, id: int, time: int)
    requires Ready(g, s) && id in s.info
    ensures Consistent(g, SetRecord(s, id, Succeeded(s.info[id].rec, time))) <==>
        0 < time || (time == 0 && !s.info[id].inTried)
  {
    hide AddrsOk, RandomOk, TriedOk, NewSlotsOk, RefsOk, CountsOk;
    var t := SetRecord(s, id, Succeeded(s.info[id].rec, time));
    assert id in t.info && t.info[id].rec.lastTry == t.info[id].rec.lastSuccess == time;
    if 0 < time || (time == 0 && !s.info[id].inTried) { SetRecordTables(g, s, id, t.info[id].rec); }
  }

  ghost function Connected(g: Geometry, s: State, svc: Service, time: int): (t: State)
    requires Ready(g, s)
    ensures Keeps(g, s, t)
  {
    match FindExact(s, svc)
    case None => s
    case Some(id) =>
      SetRecordKeeps(g, s, id, ConnectedRecord(s.info[id].rec, time));
      SetRecord(s, id, ConnectedRecord(s.info[id].rec, time))
  }

  ghost function SetServices(g: Geometry, s: State, svc: Service, services: set<nat>): (t: State)
    requires Ready(g, s)
    ensures Keeps(g, s, t)
  {
    match FindExact(s, svc)
    case None => s
    case Some(id) =>
      SetRecordKeeps(g, s, id, s.info[id].rec.(services := services));
      SetRecord(s, id, s.info[id].rec.(services := services))
  }

  // ----------------------------------------------------------------------- Good_

  function Succeeded(r: Record, time: int): Record {
    r.(lastSuccess := time, lastTry := time, attempts := 0)
  }

  ghost function Good(g: Geometry, s: State, svc: Service, testBeforeEvict: bool, time: int): (t: State)
    requires Ready(g, s) && 0 < time
    ensures Keeps(g, s, t)
  {
    hide Weak, CollisionsOk;
    var s0 := s.(lastGood := time);
    LastGoodKeeps(g, s, time);
    match FindExact(s0, svc)
    case None => s0
    case Some(id) =>
      var r := Succeeded(s0.info[id].rec, time);
      SetRecordKeeps(g, s0, id, r);
      var s1 := SetRecord(s0, id, r);
      if s1.info[id].inTried then s1
      else if testBeforeEvict && g.TriedSlot(svc) in s1.triedTable then
        CollideKeeps(g, s1, id);
        Collide(s1, id)
      else
        MakeTriedReady(g, s1, id);
        MakeTried(g, s1, id)
  }

  /** Remember that `id` waits for its tried slot, unless ten ids already do. */
  function Collide(s: State, id: int): State {
    if |s.collisions| < SET_TRIED_COLLISION_SIZE then s.(collisions := s.collisions + {id}) else s
  }

  lemma CollideKeeps(g: Geometry, s: State, id: int)
    requires Ready(g, s) && id in s.info && g.TriedSlot(s.info[id].rec.svc) in s.triedTable
    ensures Keeps(g, s, Collide(s, id))
  {
    hide AddrsOk, RandomOk, TriedOk, NewSlotsOk, RefsOk, CountsOk, TimesOk;
  }

  lemma LastGoodKeeps(g: Geometry, s: State, time: int)
    requires Ready(g, s)
    ensures Keeps(g, s, s.(lastGood := time))
  {
    hide AddrsOk, RandomOk, TriedOk, NewSlotsOk, RefsOk, CountsOk, TimesOk;
  }

  lemma MakeTriedReady(g: Geometry, s: State, id: int)
    requires Ready(g, s) && id in s.info && !s.info[id].inTried && s.info[id].rec.lastSuccess != 0
    ensures CanMakeTried(g, s, id) && Keeps(g, s, MakeTried(g, s, id))
  {
    hide Weak;
    MakeTriedKeeps(g, s, id);
    EvolvesKeeps(g, s, MakeTried(g, s, id));
  }

  // ------------------------------------------------------------------------ Add_

  /** Time and services of a known entry after another announcement. */
  function Refreshed(r: Record, a: Address, penalty: int, now: int): Record {
    var online := now - a.time < DAY;
    var interval := if online then 60 * 60 else DAY;
    var time := if a.time != 0 && (r.time == 0 || r.time < a.time - interval - penalty)
                then ToU32(Max(0, a.time - penalty)) else r.time;
    r.(time := time, services := r.services + a.services)
  }

  /**
   Another announcement of a known peer adds services. The time moves when none was
   known, or when the announced one is newer by more than an hour for a peer seen within
   a day, and by more than a day for another, after the penalty. Nothing else changes.
   */
  lemma RefreshedExactly(r: Record, a: Address, penalty: int, now: int)
    ensures var f := Refreshed(r, a, penalty, now); var gap := if now < a.time + 86400 then 3600 else 86400;
      && f == r.(time := f.time, services := r.services + a.services)
      && (a.time == 0 || (r.time != 0 && a.time <= r.time + gap + penalty) ==> f.time == r.time)
      && (a.time != 0 && (r.time == 0 || r.time + gap + penalty < a.time) ==>
            f.time == ToU32(if a.time < penalty then 0 else a.time - penalty))
      && (0 <= r.time != 0 && 0 <= a.time - penalty < U32 ==> r.time <= f.time)
  {}

  function Announced(a: Address, source: NetAddr, penalty: int): Record {
    Record(a.svc, a.services, ToU32(Max(0, a.time - penalty)), source, 0, 0, 0, 0)
  }

  /** May a reference to `id` overwrite the entry now in slot `sl`? */
  predicate MayInsert(s: State, id: int, sl: Slot, now: int)
    requires id in s.info
  {
    sl in s.newTable && s.newTable[sl] in s.info ==>
      || IsTerrible(s.info[s.newTable[sl]].rec, now)
      || (s.info[s.newTable[sl]].refCount > 1 && s.info[id].refCount == 0)
  }

  /** The last part of Add_: try to enter a reference into one slot. */
  ghost function Enter(g: Geometry, s: State, id: int, sl: Slot, now: int): (t: State)
    requires CanEnter(g, s, id, sl)
    ensures Keeps(g, s, t)
  {
    hide Weak, CollisionsOk;
    EnterKeeps(g, s, id, sl);
    if Holds(s.newTable, sl, id) then s
    else if MayInsert(s, id, sl, now) then Reference(ClearNew(s, sl), id, sl)
    else if s.info[id].refCount == 0 then Delete(s, id)
    else s
  }

  ghost predicate CanEnter(g: Geometry, s: State, id: int, sl: Slot) {
    && g.InRange() && Weak(g, s, {id}, 0) && id in s.info && !s.info[id].inTried
    && s.info[id].refCount < NEW_BUCKETS_PER_ADDRESS
    && sl.bucket < g.newBuckets && sl.pos == g.position(s.info[id].rec.svc, true, sl.bucket)
  }

  /** Whatever the branch, every id that is left is referenced or tried again. */
  lemma EnterKeeps(g: Geometry, s: State, id: int, sl: Slot)
    requires CanEnter(g, s, id, sl)
    ensures Holds(s.newTable, sl, id) ==> Keeps(g, s, s)
    ensures s.info[id].refCount != 0 ==> Keeps(g, s, s)
    ensures s.info[id].refCount == 0 ==> CanDelete(s, id) && Keeps(g, s, Delete(s, id))
    ensures !Holds(s.newTable, sl, id) ==>
      && CanClear(s, sl) && id in ClearNew(s, sl).info && Keeps(g, s, Reference(ClearNew(s, sl), id, sl))
  {
    hide CollisionsOk, AddrsOk, RandomOk, TriedOk, NewSlotsOk, CountsOk, TimesOk;
    if Holds(s.newTable, sl, id) {
      assert sl in RefSlots(s.newTable, id);
    }
    if s.info[id].refCount != 0 {
      assert {} + {id} == {id};
      WeakZero(g, s, {}, {id}, 0);
    } else {
      EnterDelete(g, s, id);
    }
    if !Holds(s.newTable, sl, id) {
      EnterInsert(g, s, id, sl);
    }
  }

  lemma EnterDelete(g: Geometry, s: State, id: int)
    requires g.InRange() && Weak(g, s, {id}, 0) && id in s.info && !s.info[id].inTried && s.info[id].refCount == 0
    ensures CanDelete(s, id) && Keeps(g, s, Delete(s, id))
  {
    hide Weak;
    DeleteKeeps(g, s, id, {id}, 0);
    assert {id} - {id} == {};
    EvolvesKeeps(g, s, Delete(s, id));
  }

  lemma EnterInsert(g: Geometry, s: State, id: int, sl: Slot)
    requires CanEnter(g, s, id, sl) && !Holds(s.newTable, sl, id)
    ensures CanClear(s, sl) && id in ClearNew(s, sl).info && Keeps(g, s, Reference(ClearNew(s, sl), id, sl))
  {
    hide Weak;
    ClearSlot(g, s, id, sl);
    var e := ClearNew(s, sl);
    ReferenceKeeps(g, e, id, sl, {id}, 0);
    assert {id} - {id} == {};
    EvolvesKeeps(g, s, Reference(e, id, sl));
  }

  lemma ClearSlot(g: Geometry, s: State, id: int, sl: Slot)
    requires CanEnter(g, s, id, sl) && !Holds(s.newTable, sl, id)
    ensures CanClear(s, sl)
    ensures var t := ClearNew(s, sl);
      && Weak(g, t, {id}, 0) && Inherits(t.info, s.info) && id in t.info && t.info[id].refCount == s.info[id].refCount
      && t == s.(info := t.info, addrs := t.addrs, random := t.random, newTable := s.newTable - {sl}, nNew := t.nNew)
  {
    hide CollisionsOk, AddrsOk, RandomOk, TriedOk, NewSlotsOk, CountsOk, TimesOk;
    assert {} + {id} == {id};
    if s.info[id].refCount == 0 {
      hide Weak;
      ClearNewKeeps(g, s, sl, {id}, 0);
    } else {
      WeakZero(g, s, {}, {id}, 0);
      hide Weak;
      ClearNewKeeps(g, s, sl, {}, 0);
      WeakMore(g, ClearNew(s, sl), {}, {id}, 0);
    }
  }

  lemma WeakMore(g: Geometry, s: State, zero: set<int>, more: set<int>, off: int)
    requires Weak(g, s, zero, off)
    ensures Weak(g, s, zero + more, off)
  {}

  ghost function AddKnown(g: Geometry, s: State, id: int, a: Address, source: NetAddr, penalty: int, now: int,
      later: int, draw: nat): (t: State)
    requires Ready(g, s) && id in s.info
    ensures Keeps(g, s, t)
  {
    hide Weak, CollisionsOk;
    var r := Refreshed(s.info[id].rec, a, penalty, now);
    AddKnownKeeps(g, s, id, a, source, penalty, now);
    var t := SetRecord(s, id, r);
    if a.time == 0 || (r.time != 0 && a.time <= r.time) then t
    else if t.info[id].inTried || t.info[id].refCount == NEW_BUCKETS_PER_ADDRESS then t
    else if draw % Pow(2, t.info[id].refCount) != 0 then t
    else
      var u := Enter(g, t, id, g.NewSlot(r.svc, source), later);
      KeepsTrans(g, s, t, u);
      u
  }

  lemma AddKnownKeeps(g: Geometry, s: State, id: int, a: Address, source: NetAddr, penalty: int, now: int)
    requires Ready(g, s) && id in s.info
    ensures var r := Refreshed(s.info[id].rec, a, penalty, now);
      var t := SetRecord(s, id, r);
      && Keeps(g, s, t)
      && 0 <= t.info[id].refCount <= NEW_BUCKETS_PER_ADDRESS
      && (!t.info[id].inTried && t.info[id].refCount < NEW_BUCKETS_PER_ADDRESS ==>
            CanEnter(g, t, id, g.NewSlot(r.svc, source)))
  {
    hide CollisionsOk, AddrsOk, RandomOk, TriedOk, NewSlotsOk, CountsOk;
    var r := Refreshed(s.info[id].rec, a, penalty, now);
    SetRecordKeeps(g, s, id, r);
    WeakMore(g, SetRecord(s, id, r), {}, {id}, 0);
    assert {} + {id} == {id};
  }

  /** Create, with the penalty applied and the entry counted. */
  function CreateCounted(s: State, a: Address, source: NetAddr, penalty: int): State {
    var t := Create(s, a, source);
    var id := s.idCount;
    t.(info := t.info[id := t.info[id].(rec := Announced(a, source, penalty))], nNew := t.nNew + 1)
  }

  lemma CreateCountedKeeps(g: Geometry, s: State, a: Address, source: NetAddr, penalty: int)
    requires Ready(g, s) && a.svc.net !in s.addrs
    ensures var t := CreateCounted(s, a, source, penalty);
      && CanEnter(g, t, s.idCount, g.NewSlot(a.svc, source)) && Evolves(s, t)
      && t.collisions == s.collisions && t.idCount == s.idCount + 1
      && (CollisionsOk(g, s) ==> CollisionsOk(g, t))
  {
    hide Weak;
    var a' := a.(time := ToU32(Max(0, a.time - penalty)));
    CreateKeeps(g, s, a', source);
    var t := Create(s, a', source);
    CountOne(g, t, {s.idCount}, 1);
    assert t.(nNew := t.nNew + 1) == CreateCounted(s, a, source, penalty);
    FreshId(g, s);
  }

  lemma FreshId(g: Geometry, s: State)
    requires Consistent(g, s)
    ensures s.idCount !in s.info && forall id | id in s.info :: id < s.idCount
  {}

  ghost function AddUnknown(g: Geometry, s: State, a: Address, source: NetAddr, penalty: int, now: int): (t: State)
    requires Ready(g, s) && a.svc.net !in s.addrs
    ensures Keeps(g, s, t)
  {
    hide Weak, CollisionsOk;
    CreateCountedKeeps(g, s, a, source, penalty);
    var t := CreateCounted(s, a, source, penalty);
    Enter(g, t, s.idCount, g.NewSlot(a.svc, source), now)
  }

  /** Add_: the new state, and whether the address was unknown. */
  ghost function Add(g: Geometry, s: State, routable: bool, a: Address, source: NetAddr, penalty: int, now: int,
      later: int, draw: nat): (r: (State, bool))
    requires Ready(g, s)
    ensures Keeps(g, s, r.0)
  {
    var penalty' := if a.svc.net == source then 0 else penalty;
    if !routable then (s, false)
    else if a.svc.net in s.addrs then
      assert s.addrs[a.svc.net] in s.info;
      (AddKnown(g, s, s.addrs[a.svc.net], a, source, penalty', now, later, draw), false)
    else
      (AddUnknown(g, s, a, source, penalty', later), true)
  }

  // -------------------------------------------------------------------- GetAddr_

  function Wanted(total: nat, maxAddresses: nat, maxPct: nat): nat {
    var n := if maxPct != 0 then maxPct * total / 100 else total;
    if maxAddresses != 0 && maxAddresses < n then maxAddresses else n
  }

  function AddressOf(r: Record): Address { Address(r.svc, r.services, r.time) }

  /**
   The addresses, among the given ids and in their order, that are good enough to
   hand out; the clock is read once for each position from n on.
   */
  function Listed(info: Infos, ids: seq<int>, n: nat, clock: nat -> int): seq<Address> {
    if ids == [] then [] else
      var rest := Listed(info, ids[1..], n + 1, clock);
      if ids[0] in info && !IsTerrible(info[ids[0]].rec, clock(n)) then [AddressOf(info[ids[0]].rec)] + rest else rest
  }

  lemma SwapRandomReady(g: Geometry, s: State, i: int, j: int)
    requires Ready(g, s) && 0 <= i < |s.random| && 0 <= j < |s.random|
    ensures CanSwap(s.info, s.random, i, j) && Keeps(g, s, SwapRandom(s, i, j))
    ensures AllAlike(SwapRandom(s, i, j).info, s.info)
  {
    SwapRandomKeeps(g, s, i, j, {}, 0);
    SwapOk(s.info, s.random, i, j);
    hide Weak;
    EvolvesKeeps(g, s, SwapRandom(s, i, j));
  }

  /** A random position from n on. */
  function DrawFrom(draw: nat, n: nat, total: nat): (j: nat)
    requires n < total
    ensures n <= j < total
  {
    n + draw % (total - n)
  }

  /** GetAddr_ from position n of vRandom on, with `draw(n)` the n-th random draw. */
  ghost function GetAddrFrom(g: Geometry, s: State, n: nat, out: seq<Address>, wanted: nat, clock: nat -> int,
      draw: nat -> nat): (r: (State, seq<Address>))
    requires Ready(g, s) && n <= |s.random|
    ensures Keeps(g, s, r.0)
    decreases |s.random| - n
  {
    hide Weak, CollisionsOk;
    KeepsSelf(g, s);
    if n == |s.random| || |out| >= wanted then (s, out)
    else
      var j := DrawFrom(draw(n), n, |s.random|);
      SwapRandomReady(g, s, n, j);
      var t := SwapRandom(s, n, j);
      var rec := s.info[s.random[j]].rec;
      var more := if IsTerrible(rec, clock(n)) then out else out + [AddressOf(rec)];
      var r := GetAddrFrom(g, t, n + 1, more, wanted, clock, draw);
      KeepsTrans(g, s, t, r.0);
      r
  }

  lemma KeepsSelf(g: Geometry, s: State)
    requires Ready(g, s)
    ensures Keeps(g, s, s)
  {
    hide Weak, CollisionsOk;
  }

  ghost function GetAddr(g: Geometry, s: State, maxAddresses: nat, maxPct: nat, clock: nat -> int,
      draw: nat -> nat): (r: (State, seq<Address>))
    requires Ready(g, s)
    ensures Keeps(g, s, r.0)
  {
    GetAddrFrom(g, s, 0, [], Wanted(|s.random|, maxAddresses, maxPct), clock, draw)
  }

  // ---------------------------------------------------------- ResolveCollisions_

  /** Does ResolveCollisions_ move `id` to its occupied tried slot now? None: not decided yet. */
  function Verdict(incoming: Record, incumbent: Record, c: Clock): Option<bool> {
    if c.now - incumbent.lastSuccess < REPLACEMENT_SECONDS then Some(false)
    else if c.now - incumbent.lastTry < REPLACEMENT_SECONDS then
      if c.test - incumbent.lastTry > 60 then Some(true) else None
    else if c.test - incoming.lastSuccess > TEST_WINDOW then Some(true)
    else None
  }

  function Forget(s: State, id: int): State { s.(collisions := s.collisions - {id}) }

  lemma ForgetKeeps(g: Geometry, s: State, id: int)
    requires Ready(g, s)
    ensures Keeps(g, s, Forget(s, id))
  {
    hide AddrsOk, RandomOk, TriedOk, NewSlotsOk, RefsOk, CountsOk, TimesOk;
  }

  ghost function GoodThenForget(g: Geometry, s: State, id: int, now: int): (t: State)
    requires Ready(g, s) && 0 < now && id in s.info
    ensures Keeps(g, s, t)
  {
    hide Weak, CollisionsOk;
    var u := Good(g, s, s.info[id].rec.svc, false, now);
    ForgetKeeps(g, u, id);
    KeepsTrans(g, s, u, Forget(u, id));
    Forget(u, id)
  }

  ghost function ResolveOne(g: Geometry, s: State, id: int, valid: NetAddr -> bool, c: Clock): (t: State)
    requires Ready(g, s) && 0 < c.now && 0 < c.good
    ensures Keeps(g, s, t)
  {
    hide Weak, CollisionsOk;
    ForgetKeeps(g, s, id);
    KeepsSelf(g, s);
    if id !in s.info || !valid(s.info[id].rec.svc.net) then Forget(s, id)
    else
      var sl := g.TriedSlot(s.info[id].rec.svc);
      if sl !in s.triedTable then GoodThenForget(g, s, id, c.now)
      else
        TriedOccupied(g, s, sl);
        match Verdict(s.info[id].rec, s.info[s.triedTable[sl]].rec, c)
        case None => s
        case Some(move) => if move then GoodThenForget(g, s, id, c.good) else Forget(s, id)
  }

  lemma TriedOccupied(g: Geometry, s: State, sl: Slot)
    requires Consistent(g, s) && sl in s.triedTable
    ensures s.triedTable[sl] in s.info && s.info[s.triedTable[sl]].inTried
    ensures g.TriedSlot(s.info[s.triedTable[sl]].rec.svc) == sl
  {}

  /** The waiting entry is in its tried slot, with a success at `time`, and waits no longer. */
  ghost predicate MovedIn(g: Geometry, s: State, t: State, id: int, time: int)
    requires id in s.info
  {
    var r := s.info[id].rec;
    && t.triedTable == s.triedTable[g.TriedSlot(r.svc) := id] && t.collisions == s.collisions - {id}
    && id in t.info && t.info[id].inTried && t.info[id].rec == r.(lastSuccess := time, lastTry := time, attempts := 0)
  }

  lemma MovesIn(g: Geometry, s: State, id: int, time: int)
    requires Ready(g, s) && 0 < time && id in s.info
    ensures MovedIn(g, s, GoodThenForget(g, s, id, time), id, time)
  {
    hide Weak, CollisionsOk, Evolves;
    FoundById(g, s, id);
    var svc, s0 := s.info[id].rec.svc, s.(lastGood := time);
    LastGoodKeeps(g, s, time);
    var r := Succeeded(s.info[id].rec, time);
    SetRecordKeeps(g, s0, id, r);
    var s1 := SetRecord(s0, id, r);
    if s.info[id].inTried {
      TriedHome(g, s, id);
    } else {
      MakeTriedKeeps(g, s1, id);
      TriedOccupied(g, MakeTried(g, s1, id), g.TriedSlot(svc));
    }
  }

  lemma FoundById(g: Geometry, s: State, id: int)
    requires Consistent(g, s) && id in s.info
    ensures FindExact(s, s.info[id].rec.svc) == Some(id) && 0 <= s.info[id].rec.lastTry
  {
    hide RandomOk, TriedOk, NewSlotsOk, RefsOk, CountsOk;
  }

  lemma TriedHome(g: Geometry, s: State, id: int)
    requires Consistent(g, s) && id in s.info && s.info[id].inTried
    ensures var sl := g.TriedSlot(s.info[id].rec.svc); sl in s.triedTable && s.triedTable[sl] == id
  {
    hide RandomOk, AddrsOk, NewSlotsOk, RefsOk, CountsOk;
  }

  /** What one turn of ResolveCollisions_ does with a waiting entry, by the times of the two peers. */
  ghost predicate Resolved(g: Geometry, s: State, t: State, id: int, valid: NetAddr -> bool, c: Clock)
    requires Ready(g, s)
  {
    var forgotten := s.(collisions := s.collisions - {id});
    if id !in s.info || !valid(s.info[id].rec.svc.net) then t == forgotten
    else
      var r := s.info[id].rec;
      var sl := g.TriedSlot(r.svc);
      if sl !in s.triedTable then MovedIn(g, s, t, id, c.now)
      else
        && s.triedTable[sl] in s.info
        && var was := s.info[s.triedTable[sl]].rec;
        // A success less than four hours ago: the incumbent stays.
        && (c.now < was.lastSuccess + 14400 ==> t == forgotten)
        // None, though it was tried less than four hours ago: it had a minute to answer.
        && (was.lastSuccess + 14400 <= c.now < was.lastTry + 14400 && was.lastTry + 60 < c.test ==>
              MovedIn(g, s, t, id, c.good))
        && (was.lastSuccess + 14400 <= c.now < was.lastTry + 14400 && c.test <= was.lastTry + 60 ==> t == s)
        // Not tried for four hours: the newcomer has waited for forty minutes.
        && (was.lastSuccess + 14400 <= c.now && was.lastTry + 14400 <= c.now && r.lastSuccess + 2400 < c.test ==>
              MovedIn(g, s, t, id, c.good))
        && (was.lastSuccess + 14400 <= c.now && was.lastTry + 14400 <= c.now && c.test <= r.lastSuccess + 2400 ==>
              t == s)
  }

  lemma ResolveOneDecides(g: Geometry, s: State, id: int, valid: NetAddr -> bool, c: Clock)
    requires Ready(g, s) && 0 < c.now && 0 < c.good
    ensures Resolved(g, s, ResolveOne(g, s, id, valid, c), id, valid, c)
  {
    hide Weak, CollisionsOk, Evolves, Good, GoodThenForget, MovedIn;
    if id in s.info {
      var sl := g.TriedSlot(s.info[id].rec.svc);
      MovesIn(g, s, id, c.now);
      MovesIn(g, s, id, c.good);
      if sl in s.triedTable { TriedOccupied(g, s, sl); }
    }
  }

  ghost function MinOf(xs: set<int>): (m: int)
    requires xs != {}
    ensures m in xs && forall x | x in xs :: m <= x
  {
    MinExists(xs);
    var m :| m in xs && forall x | x in xs :: m <= x;
    m
  }

  lemma {:induction false} MinExists(xs: set<int>)
    requires xs != {}
    ensures exists m :: m in xs && forall x | x in xs :: m <= x
  {
    var x := AnyOf(xs);
    if xs - {x} == {} {
      assert xs == {x};
    } else {
      MinExists(xs - {x});
      var m :| m in xs - {x} && forall y | y in xs - {x} :: m <= y;
      var n := if x < m then x else m;
      assert forall y | y in xs :: y == x || y in xs - {x};
      assert n in xs && forall y | y in xs :: n <= y;
    }
  }

  /** ResolveCollisions_ on the ids not visited yet, smallest first. */
  ghost function ResolveFrom(g: Geometry, s: State, pending: set<int>, valid: NetAddr -> bool, cs: Clocks): (t: State)
    requires Ready(g, s) && cs.Positive()
    ensures Keeps(g, s, t)
    decreases pending
  {
    hide Weak, CollisionsOk;
    KeepsSelf(g, s);
    if pending == {} then s
    else
      var id := MinOf(pending);
      var u := ResolveOne(g, s, id, valid, cs.At(id));
      var t := ResolveFrom(g, u, pending - {id}, valid, cs);
      KeepsTrans(g, s, u, t);
      t
  }

  ghost function ResolveCollisions(g: Geometry, s: State, valid: NetAddr -> bool, cs: Clocks): (t: State)
    requires Ready(g, s) && cs.Positive()
    ensures Keeps(g, s, t)
  {
    ResolveFrom(g, s, s.collisions, valid, cs)
  }

  /** Each waiting id has one turn, smallest first, and every turn resolves it. */
  ghost predicate TurnsTaken(g: Geometry, ids: seq<int>, states: seq<State>, valid: NetAddr -> bool, cs: Clocks) {
    && |states| == |ids| + 1
    && (forall i, j | 0 <= i < j < |ids| :: ids[i] < ids[j])
    && (forall i | 0 <= i < |states| :: Ready(g, states[i]))
    && (forall i | 0 <= i < |ids| :: Resolved(g, states[i], states[i + 1], ids[i], valid, cs.At(ids[i])))
  }

  lemma {:induction false} ResolveTurns(g: Geometry, s: State, pending: set<int>, valid: NetAddr -> bool, cs: Clocks)
    returns (ids: seq<int>, states: seq<State>)
    requires Ready(g, s) && cs.Positive()
    ensures TurnsTaken(g, ids, states, valid, cs) && states[0] == s && (forall id :: id in ids <==> id in pending)
    ensures states[|ids|] == ResolveFrom(g, s, pending, valid, cs)
    decreases pending
  {
    hide Weak, CollisionsOk, Evolves, Resolved, ResolveOne;
    if pending == {} {
      ids, states := [], [s];
    } else {
      var id := MinOf(pending);
      ResolveOneDecides(g, s, id, valid, cs.At(id));
      var u := ResolveOne(g, s, id, valid, cs.At(id));
      ids, states := ResolveTurns(g, u, pending - {id}, valid, cs);
      forall i | 0 <= i < |ids| ensures id < ids[i] { assert ids[i] in ids; }
      ids, states := [id] + ids, [s] + states;
    }
  }

  // -------------------------------------------------------- SelectTriedCollision_

  const NO_RECORD: Record := Record(Service(NetAddr(0, []), 0), {}, 0, NetAddr(0, []), 0, 0, 0, 0)

  /** SelectTriedCollision_ when `id` is drawn; on an empty slot the lookup of id -1 inserts a default entry. */
  function SelectTriedCollision(g: Geometry, s: State, id: int): (State, Record) {
    if id !in s.collisions then (s, NO_RECORD)
    else if id !in s.info then (Forget(s, id), NO_RECORD)
    else
      var sl := g.TriedSlot(s.info[id].rec.svc);
      var incumbent := if sl in s.triedTable then s.triedTable[sl] else -1;
      if incumbent in s.info then (s, s.info[incumbent].rec)
      else (s.(info := s.info[incumbent := Info(NO_RECORD, 0, false, -1)]), NO_RECORD)
  }

  /**
   Without a Clear in between, the entry handed out is the incumbent of the
   contested slot. In general the lookup leaves the table of entries alone
   exactly when the drawn id is gone or its tried slot is occupied.
   */
  lemma SelectTriedCollisionSafe(g: Geometry, s: State, id: int)
    requires Ready(g, s) && id in s.collisions
    ensures var r := SelectTriedCollision(g, s, id);
      && (r.0.info == s.info <==> id !in s.info || g.TriedSlot(s.info[id].rec.svc) in s.triedTable)
      && (r.0.info != s.info ==> r.0.info.Keys == s.info.Keys + {-1} && r.0.info[-1] == Info(r.1, 0, false, -1))
      && (CollisionsOk(g, s) && id in s.info ==>
            var sl := g.TriedSlot(s.info[id].rec.svc);
            && r.0 == s && sl in s.triedTable
            && s.triedTable[sl] in s.info && r.1 == s.info[s.triedTable[sl]].rec
            && g.TriedSlot(r.1.svc) == sl)
  {
    hide AddrsOk, RandomOk, NewSlotsOk, RefsOk, CountsOk, TimesOk;
    if id in s.info {
      assert -1 !in s.info;
    }
  }

  // ------------------------------------------------------------------ whole runs

  datatype Op =
    | OpAdd(routable: bool, a: Address, source: NetAddr, penalty: int, clock: int, later: int, coin: nat)
    | OpGood(svc: Service, testBeforeEvict: bool, time: int)
    | OpAttempt(svc: Service, countFailure: bool, time: int)
    | OpConnected(svc: Service, time: int)
    | OpSetServices(svc: Service, services: set<nat>)
    | OpGetAddr(maxAddresses: nat, maxPct: nat, readings: nat -> int, draw: nat -> nat)
    | OpResolveCollisions(valid: NetAddr -> bool, clocks: Clocks)
    | OpSelectTriedCollision(id: int)

  /** Clock readings and connection times are positive. */
  ghost predicate Timely(op: Op) {
    match op
    case OpGood(_, _, time) => 0 < time
    case OpAttempt(_, _, time) => 0 < time
    case OpResolveCollisions(_, clocks) => clocks.Positive()
    case _ => true
  }

  ghost function Step(g: Geometry, s: State, op: Op): (t: State)
    requires Ready(g, s) && CollisionsOk(g, s) && Timely(op)
    ensures Keeps(g, s, t)
  {
    hide Weak, CollisionsOk;
    match op
    case OpAdd(routable, a, source, penalty, clock, later, coin) =>
      Add(g, s, routable, a, source, penalty, clock, later, coin).0
    case OpGood(svc, test, time) => Good(g, s, svc, test, time)
    case OpAttempt(svc, countFailure, time) => Attempt(g, s, svc, countFailure, time)
    case OpConnected(svc, time) => Connected(g, s, svc, time)
    case OpSetServices(svc, services) => SetServices(g, s, svc, services)
    case OpGetAddr(maxAddresses, maxPct, clock, draw) => GetAddr(g, s, maxAddresses, maxPct, clock, draw).0
    case OpResolveCollisions(valid, clocks) => ResolveCollisions(g, s, valid, clocks)
    case OpSelectTriedCollision(id) =>
      KeepsSelf(g, s);
      ForgetKeeps(g, s, id);
      if id in s.collisions then
        SelectTriedCollisionSafe(g, s, id);
        SelectTriedCollision(g, s, id).0
      else s
  }

  /** Every run of the manager: the invariant, and what no operation undoes, hold throughout. */
  ghost function Run(g: Geometry, s: State, ops: seq<Op>): (t: State)
    requires Ready(g, s) && CollisionsOk(g, s) && forall op | op in ops :: Timely(op)
    ensures Keeps(g, s, t)
    decreases |ops|
  {
    hide Weak, CollisionsOk;
    KeepsSelf(g, s);
    if ops == [] then s
    else
      var u := Step(g, s, ops[0]);
      var t := Run(g, u, ops[1..]);
      KeepsTrans(g, s, u, t);
      t
  }

  function Empty(key: nat): State { State(key, 0, map[], map[], [], map[], 0, map[], 0, 1, {}) }

  lemma EmptyReady(g: Geometry, key: nat)
    requires g.InRange() && key != 0
    ensures Ready(g, Empty(key)) && CollisionsOk(g, Empty(key))
  {
    assert TriedIds(Empty(key).info) == {} && NewIds(Empty(key).info) == {};
  }

  /**
   From the empty manager on, all conditions of Check_ hold after every run, and no
   occupied tried slot is ever vacated.
   */
  lemma RunConsistent(g: Geometry, key: nat, ops: seq<Op>, more: seq<Op>)
    requires g.InRange() && key != 0 && forall op | op in ops + more :: Timely(op)
    ensures Ready(g, Empty(key)) && CollisionsOk(g, Empty(key))
    ensures forall op | op in ops :: op in ops + more
    ensures forall op | op in more :: op in ops + more
    ensures var s := Run(g, Empty(key), ops);
      && Consistent(g, s) && CollisionsOk(g, s)
      && s.triedTable.Keys <= Run(g, s, more).triedTable.Keys
  {
    EmptyReady(g, key);
  }

  lemma EmptyCollisions(g: Geometry, key: nat, ids: set<int>)
    requires Ready(g, Empty(key))
    ensures Ready(g, Empty(key).(collisions := ids))
  {
    hide AddrsOk, RandomOk, TriedOk, NewSlotsOk, RefsOk, CountsOk, TimesOk;
  }

  /**
   The limit of that result: Clear keeps recorded collisions but starts the ids
   again, so the first address added after it can be drawn as a collision, and
   drawing it looks up id -1 and leaves the manager inconsistent.
   */
  lemma StaleCollision(g: Geometry, key: nat, ids: set<int>, a: Address, source: NetAddr, penalty: int, now: int,
      later: int, draw: nat)
    requires g.InRange() && key != 0 && 0 in ids
    ensures var s := Empty(key).(collisions := ids);
      && Ready(g, s)
      && var t := Add(g, s, true, a, source, penalty, now, later, draw).0;
      Ready(g, t) && !Consistent(g, SelectTriedCollision(g, t, 0).0)
  {
    hide RandomOk, TriedOk, NewSlotsOk, RefsOk, CountsOk, TimesOk;
    EmptyReady(g, key);
    EmptyCollisions(g, key, ids);
    var s := Empty(key).(collisions := ids);
    var t := Add(g, s, true, a, source, penalty, now, later, draw).0;
    assert 0 in t.info && t.triedTable == map[] && t.collisions == ids;
    SelectTriedCollisionSafe(g, t, 0);
    assert -1 in SelectTriedCollision(g, t, 0).0.info;
  }

  // ------------------------------------------------------ a run that records a collision

  /** The service is known under an id that is, or is not, in tried. */
  predicate Known(s: State, id: int, svc: Service, tried: bool) {
    svc.net in s.addrs && s.addrs[svc.net] == id && id in s.info && s.info[id].rec.svc == svc
        && s.info[id].inTried == tried
  }

  /** Adding an unknown address whose new slot is free. */
  lemma AddFresh(g: Geometry, s: State, a: Address, source: NetAddr, now: int, later: int, draw: nat)
    requires Ready(g, s) && a.svc.net !in s.addrs && g.NewSlot(a.svc, source) !in s.newTable
    ensures var t := Add(g, s, true, a, source, 0, now, later, draw).0;
      && Known(t, s.idCount, a.svc, false) && t.newTable == s.newTable[g.NewSlot(a.svc, source) := s.idCount]
      && t.triedTable == s.triedTable && t.collisions == s.collisions && t.idCount == s.idCount + 1
      && t.addrs == s.addrs[a.svc.net := s.idCount]
      && forall id, svc | id < s.idCount && Known(s, id, svc, false) :: Known(t, id, svc, false)
  {
    hide Weak, CollisionsOk, Evolves;
    FreshId(g, s);
    CreateCountedKeeps(g, s, a, source, 0);
    var u, sl := CreateCounted(s, a, source, 0), g.NewSlot(a.svc, source);
    EnterKeeps(g, u, s.idCount, sl);
    assert MayInsert(u, s.idCount, sl, later) && ClearNew(u, sl) == u;
  }

  /** A success on an entry whose tried slot is free. */
  lemma GoodMoves(g: Geometry, s: State, id: int, svc: Service, time: int)
    requires Ready(g, s) && 0 < time && Known(s, id, svc, false) && g.TriedSlot(svc) !in s.triedTable
    ensures var t := Good(g, s, svc, true, time);
      && g.TriedSlot(svc) in t.triedTable && t.collisions == s.collisions
      && forall k, v | k != id && Known(s, k, v, false) :: Known(t, k, v, false)
  {
    hide Weak, CollisionsOk, Evolves;
    var s0 := s.(lastGood := time);
    LastGoodKeeps(g, s, time);
    var r := Succeeded(s0.info[id].rec, time);
    SetRecordKeeps(g, s0, id, r);
    MakeTriedReady(g, SetRecord(s0, id, r), id);
  }

  /** A success on an entry whose tried slot is taken. */
  lemma GoodCollides(g: Geometry, s: State, id: int, svc: Service, time: int)
    requires Ready(g, s) && 0 < time && Known(s, id, svc, false) && g.TriedSlot(svc) in s.triedTable
    requires |s.collisions| < SET_TRIED_COLLISION_SIZE
    ensures id in Good(g, s, svc, true, time).collisions
  {
    hide Weak, CollisionsOk, Evolves;
  }

  /** Two addresses that share a tried slot are added, and both turn out good. */
  function TwoGood(a: Address, b: Address, source: NetAddr, clock: int): seq<Op> {
    [OpAdd(true, a, source, 0, clock, clock, 0), OpAdd(true, b, source, 0, clock, clock, 0), OpGood(b.svc, true, clock),
        OpGood(a.svc, true, clock)]
  }

  /**
   After that run the first id is recorded as a collision, so StaleCollision applies to
   the Clear that may follow it.
   */
  lemma CollisionRecorded(g: Geometry, key: nat, a: Address, b: Address, source: NetAddr, clock: int)
    requires g.InRange() && key != 0 && 0 < clock && a.svc.net != b.svc.net
    requires g.TriedSlot(a.svc) == g.TriedSlot(b.svc) && g.NewSlot(a.svc, source) != g.NewSlot(b.svc, source)
    ensures Ready(g, Empty(key)) && CollisionsOk(g, Empty(key))
    ensures forall op | op in TwoGood(a, b, source, clock) :: Timely(op)
    ensures 0 in Run(g, Empty(key), TwoGood(a, b, source, clock)).collisions
  {
    hide Weak, CollisionsOk, Evolves, Add, Good, Run;
    EmptyReady(g, key);
    var s, ops := Empty(key), TwoGood(a, b, source, clock);
    AddFresh(g, s, a, source, clock, clock, 0);
    RunNext(g, s, ops);
    var s1 := Step(g, s, ops[0]);
    AddFresh(g, s1, b, source, clock, clock, 0);
    RunNext(g, s1, ops[1..]);
    var s2 := Step(g, s1, ops[1]);
    assert Known(s2, 0, a.svc, false) && Known(s2, 1, b.svc, false);
    GoodMoves(g, s2, 1, b.svc, clock);
    assert ops[1..][1..] == ops[2..] && ops[2..][1..] == ops[3..] && ops[3..][1..] == [];
    RunNext(g, s2, ops[2..]);
    var s3 := Step(g, s2, ops[2]);
    GoodCollides(g, s3, 0, a.svc, clock);
    RunNext(g, s3, ops[3..]);
    RunNothing(g, Step(g, s3, ops[3]));
  }

  lemma RunNext(g: Geometry, s: State, ops: seq<Op>)
    requires Ready(g, s) && CollisionsOk(g, s) && ops != [] && forall op | op in ops :: Timely(op)
    ensures var t := Step(g, s, ops[0]); Ready(g, t) && CollisionsOk(g, t) && Run(g, s, ops) == Run(g, t, ops[1..])
  {
    hide Weak, CollisionsOk, Evolves;
  }

  lemma RunNothing(g: Geometry, s: State)
    requires Ready(g, s) && CollisionsOk(g, s)
    ensures Run(g, s, []) == s
  {
    hide Weak, CollisionsOk, Evolves;
  }
}
