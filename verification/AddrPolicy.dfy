/**
 The rules of src/addrman.h and src/addrman.cpp that decide about single peers: how
 many slots a group of peers can take, when a peer is hopeless, what an attempt counts
 for, and how many peers can wait for a tried slot.
 */
module AddrPolicy {
  import opened AddrTypes
  import opened AddrState
  import opened AddrOps
  import opened AddrBook
  import opened Powers
  import opened Basics

  // ------------------------------------------------------------------- bucketing

  /** The peers of one group share eight buckets of the tried table. */
  lemma TriedSpread(c: Params, key: nat, group: seq<nat>) returns (buckets: seq<nat>)
    ensures |buckets| == 8 && forall svc: Service | c.group(svc.net) == group :: TriedBucket(c, key, svc) in buckets
  {
    buckets := seq(8, i requires 0 <= i < 8 => c.cheapHash(key, TriedGroup(group, i)) % c.triedBuckets);
    forall svc: Service | c.group(svc.net) == group ensures TriedBucket(c, key, svc) in buckets {
      assert TriedBucket(c, key, svc) == buckets[c.cheapHash(key, TriedKey(svc)) % 8];
    }
  }

  /** What the peers of one group announce goes to 64 buckets of the new table, whatever they announce. */
  lemma NewSpread(c: Params, key: nat, group: seq<nat>) returns (buckets: seq<nat>)
    ensures |buckets| == 64
    ensures forall net: NetAddr, source: NetAddr | c.group(source) == group ::
        NewBucket(c, key, net, source) in buckets
  {
    buckets := seq(64, i requires 0 <= i < 64 => c.cheapHash(key, NewSource(group, i)) % c.newBuckets);
    forall net: NetAddr, source: NetAddr | c.group(source) == group ensures NewBucket(c, key, net, source) in buckets {
      assert NewBucket(c, key, net, source) == buckets[c.cheapHash(key, NewGroups(c.group(net), group)) % 64];
    }
  }

  lemma {:induction false} RowBound(slots: set<Slot>, b: nat, n: nat)
    requires forall sl | sl in slots :: sl.bucket == b && sl.pos < n
    ensures |slots| <= n
  {
    if n == 0 {
      assert slots == {};
    } else {
      RowBound(slots - {Slot(b, n - 1)}, b, n - 1);
    }
  }

  lemma {:induction false} GridBound(slots: set<Slot>, buckets: seq<nat>, n: nat)
    requires forall sl | sl in slots :: sl.bucket in buckets && sl.pos < n
    ensures |slots| <= |buckets| * n
  {
    if buckets == [] {
      assert slots == {};
    } else {
      var row := set sl | sl in slots && sl.bucket == buckets[0];
      RowBound(row, buckets[0], n);
      GridBound(slots - row, buckets[1..], n);
      MulDistrib(|buckets| - 1, 1, n);
      assert |slots| == |slots - row| + |row|;
    }
  }

  function TriedOfGroup(c: Params, s: State, group: seq<nat>): set<Slot> {
    set sl | sl in s.triedTable && s.triedTable[sl] in s.info && c.group(s.info[s.triedTable[sl]].rec.svc.net) == group
  }

  /** However many of its peers succeed, a group never holds more than eight buckets' worth of the tried table. */
  lemma GroupShare(c: Params, key: nat, s: State, group: seq<nat>)
    requires Consistent(GeometryOf(c, key), s)
    ensures |TriedOfGroup(c, s, group)| <= 8 * c.bucketSize
  {
    hide AddrsOk, RandomOk, NewSlotsOk, RefsOk, CountsOk, TimesOk, TriedBucket, BucketPosition;
    var buckets := TriedSpread(c, key, group);
    var g := GeometryOf(c, key);
    forall sl | sl in TriedOfGroup(c, s, group) ensures sl.bucket in buckets && sl.pos < c.bucketSize {
      var svc := s.info[s.triedTable[sl]].rec.svc;
      assert g.TriedSlot(svc) == sl && g.triedBucket(svc) == TriedBucket(c, key, svc);
    }
    GridBound(TriedOfGroup(c, s, group), buckets, c.bucketSize);
  }

  /** Where a peer belongs, in terms of the keyed hash. */
  lemma SlotsByHash(c: Params, key: nat, svc: Service, source: NetAddr)
    ensures var g := GeometryOf(c, key);
      var b := c.cheapHash(key, TriedGroup(c.group(svc.net), c.cheapHash(key, TriedKey(svc)) % 8)) % c.triedBuckets;
      g.TriedSlot(svc) == Slot(b, c.cheapHash(key, Position(false, b, svc)) % c.bucketSize)
    ensures var g := GeometryOf(c, key);
      var mix := c.cheapHash(key, NewGroups(c.group(svc.net), c.group(source))) % 64;
      var b := c.cheapHash(key, NewSource(c.group(source), mix)) % c.newBuckets;
      g.NewSlot(svc, source) == Slot(b, c.cheapHash(key, Position(true, b, svc)) % c.bucketSize)
  {}

  // --------------------------------------------------------------- single records

  /** Hopeless: not tried within a minute, and from the future, unseen for 30 days, or failing. */
  lemma TerribleExactly(r: Record, now: int)
    ensures IsTerrible(r, now) <==>
      && (r.lastTry == 0 || r.lastTry + 60 < now)
      && (|| now + 600 < r.time
          || r.time == 0 || r.time + 2592000 < now
          || (r.lastSuccess == 0 && 3 <= r.attempts)
          || (r.lastSuccess + 604800 < now && 10 <= r.attempts))
  {}

  /** A failure counts once for each success of any peer, however often the peer is tried in between. */
  lemma AttemptsCount(r: Record, time: int, again: int, lastGood: int, countFailure: bool)
    requires lastGood <= time
    ensures var r1 := Attempted(r, true, time, lastGood);
      && r1 == r.(lastTry := time, lastCountAttempt := r1.lastCountAttempt, attempts := r1.attempts)
      && r1.attempts == r.attempts + (if r.lastCountAttempt < lastGood then 1 else 0)
      && lastGood <= r1.lastCountAttempt
      && Attempted(r1, countFailure, again, lastGood) == r1.(lastTry := again)
      && Attempted(r, false, time, lastGood) == r.(lastTry := time)
  {}

  /** A new manager acts as if a peer had succeeded at time 1, so that the first failure of every peer counts. */
  lemma FirstFailureCounts(key: nat, a: Address, source: NetAddr, penalty: int, time: int)
    ensures Empty(key).lastGood == 1
    ensures Attempted(Announced(a, source, penalty), true, time, Empty(key).lastGood).attempts == 1
  {}

  /** A connection moves the time of a peer forward, by more than twenty minutes or not at all. */
  lemma ConnectedTime(r: Record, time: int)
    requires 0 <= time < U32
    ensures var f := ConnectedRecord(r, time);
      f == r.(time := if r.time + 1200 < time then time else r.time)
  {}

  /** What a new peer starts with: the announced time less the penalty, and no history. */
  lemma AnnouncedAs(a: Address, source: NetAddr, penalty: int)
    requires 0 <= penalty && a.time < U32
    ensures var r := Announced(a, source, penalty);
      && r.svc == a.svc && r.services == a.services && r.source == source
      && r.time == (if a.time < penalty then 0 else a.time - penalty)
      && r.lastTry == r.lastCountAttempt == r.lastSuccess == r.attempts == 0
  {}

  /** Every position from n on can be drawn. */
  lemma DrawsAll(n: nat, total: nat, j: nat)
    requires n <= j < total
    ensures DrawFrom(j - n, n, total) == j
  {}

  // ------------------------------------------------------------------ waiting peers

  /** Good_ lets a peer wait exactly when it would have to evict, and fewer than ten are waiting. */
  lemma GoodRecords(g: Geometry, s: State, id: int, test: bool, time: int)
    requires Ready(g, s) && 0 < time && id in s.info
    ensures var svc := s.info[id].rec.svc; var t := Good(g, s, svc, test, time);
      t.collisions == if test && !s.info[id].inTried && g.TriedSlot(svc) in s.triedTable && |s.collisions| < 10
                      then s.collisions + {id} else s.collisions
  {
    hide Weak, CollisionsOk, Evolves;
    FoundById(g, s, id);
  }

  /** The last success counts for the whole manager, even that of a service it does not know. */
  lemma GoodTime(g: Geometry, s: State, svc: Service, test: bool, time: int)
    requires Ready(g, s) && 0 < time
    ensures Good(g, s, svc, test, time).lastGood == time
  {
    hide Weak, CollisionsOk, Evolves;
  }

  lemma GoodWaiting(g: Geometry, s: State, svc: Service, test: bool, time: int)
    requires Ready(g, s) && 0 < time
    ensures |Good(g, s, svc, test, time).collisions| <= Max(10, |s.collisions|)
  {
    hide Weak, CollisionsOk, Evolves;
  }

  lemma AddWaiting(g: Geometry, s: State, routable: bool, a: Address, source: NetAddr, penalty: int, now: int,
      later: int, draw: nat)
    requires Ready(g, s)
    ensures Add(g, s, routable, a, source, penalty, now, later, draw).0.collisions == s.collisions
  {
    hide Weak, CollisionsOk, Evolves, Refreshed, Announced, MayInsert;
  }

  lemma {:induction false} ResolveWaiting(g: Geometry, s: State, pending: set<int>, valid: NetAddr -> bool, cs: Clocks)
    requires Ready(g, s) && cs.Positive()
    ensures ResolveFrom(g, s, pending, valid, cs).collisions <= s.collisions
    decreases pending
  {
    hide Weak, CollisionsOk, Evolves, ResolveOne;
    if pending != {} {
      var id := MinOf(pending);
      ResolveOneDecides(g, s, id, valid, cs.At(id));
      ResolveWaiting(g, ResolveOne(g, s, id, valid, cs.At(id)), pending - {id}, valid, cs);
    }
  }

  lemma Fewer(a: set<int>, b: set<int>)
    requires a <= b
    ensures |a| <= |b|
  {
    assert b == a + (b - a);
  }

  lemma StepWaiting(g: Geometry, s: State, op: Op)
    requires Ready(g, s) && CollisionsOk(g, s) && Timely(op)
    ensures |Step(g, s, op).collisions| <= Max(10, |s.collisions|)
  {
    hide Weak, CollisionsOk, Evolves, Good, Add, ResolveFrom, GetAddrFrom;
    match op
    case OpAdd(routable, a, source, penalty, clock, later, coin) =>
      AddWaiting(g, s, routable, a, source, penalty, clock, later, coin);
    case OpGood(svc, test, time) => GoodWaiting(g, s, svc, test, time);
    case OpGetAddr(maxAddresses, maxPct, clock, draw) =>
      var k := GetAddrLists(g, s, 0, [], Wanted(|s.random|, maxAddresses, maxPct), clock, draw);
    case OpResolveCollisions(valid, clocks) =>
      ResolveWaiting(g, s, s.collisions, valid, clocks);
      Fewer(ResolveFrom(g, s, s.collisions, valid, clocks).collisions, s.collisions);
    case OpSelectTriedCollision(id) =>
      Fewer(s.collisions - {id}, s.collisions);
    case _ =>
  }

  /** After every run from the empty manager, at most ten peers wait for a tried slot. */
  lemma {:induction false} FewWait(g: Geometry, s: State, ops: seq<Op>)
    requires Ready(g, s) && CollisionsOk(g, s) && (forall op | op in ops :: Timely(op)) && |s.collisions| <= 10
    ensures |Run(g, s, ops).collisions| <= 10
    decreases |ops|
  {
    hide Weak, CollisionsOk, Evolves, Step;
    if ops != [] {
      StepWaiting(g, s, ops[0]);
      FewWait(g, Step(g, s, ops[0]), ops[1..]);
    }
  }
}
