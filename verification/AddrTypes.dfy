/**
 Entries, hashing and the in-memory state of the stochastic address manager
 (src/addrman.h), as values. Bucket counts, the keyed hash and the address
 classification are parameters.
 */
module AddrTypes {
  import opened Basics

  datatype NetAddr = NetAddr(network: nat, bytes: seq<nat>)

  /** CService: equality includes the port, the index mapAddr ignores it. */
  datatype Service = Service(net: NetAddr, port: nat)

  /** CAddress: the address a peer announces, with the set of its service bits and its 32-bit time stamp. */
  datatype Address = Address(svc: Service, services: set<nat>, time: int)

  /** The part of CAddrInfo that describes the peer itself. */
  datatype Record = Record(
    svc: Service, services: set<nat>, time: int, source: NetAddr,
    lastTry: int, lastCountAttempt: int, lastSuccess: int, attempts: int)

  /** CAddrInfo: a record plus the three fields that mirror the tables. */
  datatype Info = Info(rec: Record, refCount: int, inTried: bool, randomPos: int)

  datatype Slot = Slot(bucket: nat, pos: nat)

  /** What is fed, after the secret key, to the cheap hash. */
  datatype Message =
    | TriedKey(svc: Service)
    | TriedGroup(group: seq<nat>, residue: nat)
    | NewGroups(group: seq<nat>, sourceGroup: seq<nat>)
    | NewSource(sourceGroup: seq<nat>, residue: nat)
    | Position(fNew: bool, bucket: nat, svc: Service)

  datatype Config = Config(
    newBuckets: nat, triedBuckets: nat, bucketSize: nat,
    cheapHash: (nat, Message) -> nat,
    group: NetAddr -> seq<nat>,
    routable: NetAddr -> bool,
    valid: NetAddr -> bool)

  type Params = c: Config | 0 < c.newBuckets && 0 < c.triedBuckets && 0 < c.bucketSize
    witness Config(1, 1, 1, (k: nat, m: Message) => 0, (a: NetAddr) => [], (a: NetAddr) => true, (a: NetAddr) => true)

  const TRIED_BUCKETS_PER_GROUP: nat := 8
  const NEW_BUCKETS_PER_SOURCE_GROUP: nat := 64
  const NEW_BUCKETS_PER_ADDRESS: nat := 8
  const HORIZON_DAYS := 30
  const RETRIES := 3
  const MAX_FAILURES := 10
  const MIN_FAIL_DAYS := 7
  const REPLACEMENT_SECONDS := 4 * 60 * 60
  const SET_TRIED_COLLISION_SIZE := 10
  const TEST_WINDOW := 40 * 60
  const DAY := 24 * 60 * 60

  function TriedBucket(c: Params, key: nat, svc: Service): (b: nat)
    ensures b < c.triedBuckets
  {
    var hash1 := c.cheapHash(key, TriedKey(svc));
    c.cheapHash(key, TriedGroup(c.group(svc.net), hash1 % TRIED_BUCKETS_PER_GROUP)) % c.triedBuckets
  }

  function NewBucket(c: Params, key: nat, net: NetAddr, source: NetAddr): (b: nat)
    ensures b < c.newBuckets
  {
    var hash1 := c.cheapHash(key, NewGroups(c.group(net), c.group(source)));
    c.cheapHash(key, NewSource(c.group(source), hash1 % NEW_BUCKETS_PER_SOURCE_GROUP)) % c.newBuckets
  }

  function BucketPosition(c: Params, key: nat, svc: Service, fNew: bool, bucket: nat): (p: nat)
    ensures p < c.bucketSize
  {
    c.cheapHash(key, Position(fNew, bucket, svc)) % c.bucketSize
  }

  /**
   Where entries belong, for one secret key: all that the tables depend on.
   */
  datatype Geometry = Geometry(
    newBuckets: nat, triedBuckets: nat, bucketSize: nat,
    triedBucket: Service -> nat,
    newBucket: (NetAddr, NetAddr) -> nat,
    position: (Service, bool, nat) -> nat)
  {
    ghost predicate InRange() {
      && (forall svc :: triedBucket(svc) < triedBuckets)
      && (forall a, source :: newBucket(a, source) < newBuckets)
      && (forall svc, fNew, b :: position(svc, fNew, b) < bucketSize)
    }

    function TriedSlot(svc: Service): Slot {
      Slot(triedBucket(svc), position(svc, false, triedBucket(svc)))
    }

    /** The slot of the new table that an announcement by `source` selects. */
    function NewSlot(svc: Service, source: NetAddr): Slot {
      Slot(newBucket(svc.net, source), position(svc, true, newBucket(svc.net, source)))
    }
  }

  function GeometryOf(c: Params, key: nat): (g: Geometry)
    ensures g.InRange()
    ensures g.newBuckets == c.newBuckets && g.triedBuckets == c.triedBuckets && g.bucketSize == c.bucketSize
  {
    Geometry(c.newBuckets, c.triedBuckets, c.bucketSize,
             svc => TriedBucket(c, key, svc),
             (a, source) => NewBucket(c, key, a, source),
             (svc, fNew, b) => BucketPosition(c, key, svc, fNew, b))
  }

  function IsTerrible(r: Record, now: int): bool {
    if r.lastTry != 0 && r.lastTry >= now - 60 then false
    else if r.time > now + 10 * 60 then true
    else if r.time == 0 || now - r.time > HORIZON_DAYS * DAY then true
    else if r.lastSuccess == 0 && r.attempts >= RETRIES then true
    else now - r.lastSuccess > MIN_FAIL_DAYS * DAY && r.attempts >= MAX_FAILURES
  }

  /** The readings of the clock in one turn of ResolveCollisions_: before the loop, in the tests, and for Good_. */
  datatype Clock = Clock(now: int, test: int, good: int)

  /** All readings: one before the loop, and two for the turn of each id. */
  datatype Clocks = Clocks(now: int, test: int -> int, good: int -> int) {
    function At(id: int): Clock { Clock(now, test(id), good(id)) }

    ghost predicate Positive() { 0 < now && forall id :: 0 < good(id) }
  }

  /** Storing a 64-bit time in the 32-bit field nTime. */
  function ToU32(x: int): nat { x % U32 }

  /**
   The whole state of CAddrMan. The two tables are kept as finite maps from
   occupied slots to ids: a slot holding -1 is absent.
   */
  datatype State = State(
    key: nat, idCount: nat,
    info: map<int, Info>, addrs: map<NetAddr, int>, random: seq<int>,
    triedTable: map<Slot, int>, nTried: int,
    newTable: map<Slot, int>, nNew: int,
    lastGood: int, collisions: set<int>)

  /** The slots of the new table that hold `id`. */
  function RefSlots(t: map<Slot, int>, id: int): set<Slot> { set sl | sl in t && t[sl] == id }

  function NewIds(info: map<int, Info>): set<int> { set id | id in info && !info[id].inTried }

  function TriedIds(info: map<int, Info>): set<int> { set id | id in info && info[id].inTried }
}
