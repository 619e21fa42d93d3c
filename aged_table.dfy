/**
 * non_std/containers/FixedSizeHashTableOpenHashingWithAge.hpp: a fixed-size
 * open-addressing cache.  A key is looked for in at most `HashTries`
 * consecutive buckets; when none of them is free the entry with the oldest
 * age is overwritten.  A global counter `age_` stamps every creation and
 * every `get` hit.
 */
module AgedHashTable {
  import opened Options
  import opened Bits

  /** `HashTries`: the number of buckets one probe sequence visits. */
  const HashTries: nat := 5

  /** `0ull - 1`, the initial `oldestAge` of `operator[]`. */
  const MaxAge: nat := 0xFFFF_FFFF_FFFF_FFFF

  datatype Occupancy = Free | Deleted | Occupied | Locked

  datatype Node<K, V> = Node(occupancy: Occupancy, age: nat, key: K, value: V)

  /** The slots `nodes_` and the global counter `age_`. */
  datatype Table<K, V> = Table(nodes: seq<Node<K, V>>, age: nat)

  /**
   * `getBucket(b)`: `(1 + b) & hashMask`, the bucket after `b`, which for a
   * bucket `b` of the table is `b + 1` or, after the last one, the first.
   */
  function NextBucket(size: nat, b: nat): (r: nat)
    requires b < size
    ensures r < size
  {
    if b + 1 < size then b + 1 else 0
  }

  /** The bucket after `b` is `(1 + b)` reduced modulo the table size. */
  lemma NextBucketIsModulo(size: nat, b: nat)
    requires b < size
    ensures NextBucket(size, b) == (1 + b) % size
  {
  }

  /**
   * The `j`-th bucket of the probe sequence that starts from hash `h`:
   * `h & hashMask`, then `getBucket` of the previous one.
   */
  function Probe(size: nat, h: nat, j: nat): (b: nat)
    requires size > 0
    ensures b < size
  {
    if j == 0 then h % size else NextBucket(size, Probe(size, h, j - 1))
  }

  /** A slot `get` and `operator[]` accept for `key`: occupied or locked, holding `key`. */
  predicate Holds<K(==), V>(n: Node<K, V>, key: K)
  {
    (n.occupancy == Occupied || n.occupancy == Locked) && n.key == key
  }

  /** A slot `store` accepts for `key`: occupied (not locked), holding `key`. */
  predicate HoldsUnlocked<K(==), V>(n: Node<K, V>, key: K)
  {
    n.occupancy == Occupied && n.key == key
  }

  /** Where a probe loop stops: a slot accepted for `key`, or a free slot. */
  predicate Stops<K(==), V>(n: Node<K, V>, key: K, lockedToo: bool)
  {
    (if lockedToo then Holds(n, key) else HoldsUnlocked(n, key)) || n.occupancy == Free
  }

  /**
   * The first position, from `j` on, of the probe sequence at which the
   * loop stops, or `HashTries` when it runs through all its tries.
   */
  function FirstStop<K(==), V>(nodes: seq<Node<K, V>>, h: nat, key: K, lockedToo: bool, j: nat): (s: nat)
    requires |nodes| > 0 && j <= HashTries
    ensures j <= s <= HashTries
    ensures forall l :: j <= l < s ==> !Stops(nodes[Probe(|nodes|, h, l)], key, lockedToo)
    ensures s < HashTries ==> Stops(nodes[Probe(|nodes|, h, s)], key, lockedToo)
    decreases HashTries - j
  {
    if j == HashTries then HashTries
    else if Stops(nodes[Probe(|nodes|, h, j)], key, lockedToo) then j
    else FirstStop(nodes, h, key, lockedToo, j + 1)
  }

  /** The loop stops at position `i` when no earlier probed slot stops it and slot `i` does. */
  lemma FirstStopAt<K, V>(nodes: seq<Node<K, V>>, h: nat, key: K, lockedToo: bool, i: nat)
    requires |nodes| > 0 && i <= HashTries
    requires forall l :: 0 <= l < i ==> !Stops(nodes[Probe(|nodes|, h, l)], key, lockedToo)
    requires i < HashTries ==> Stops(nodes[Probe(|nodes|, h, i)], key, lockedToo)
    ensures FirstStop(nodes, h, key, lockedToo, 0) == i
  {
  }

  /** The slot `get(key)` finds, if any. */
  function GetSlot<K(==), V>(nodes: seq<Node<K, V>>, h: nat, key: K): (r: Option<nat>)
    requires |nodes| > 0
    ensures r.Some? ==> r.value < |nodes| && Holds(nodes[r.value], key)
  {
    var s := FirstStop(nodes, h, key, true, 0);
    if s < HashTries && Holds(nodes[Probe(|nodes|, h, s)], key) then Some(Probe(|nodes|, h, s)) else None
  }

  /** What `get(key)` finds is a slot of the probe sequence holding `key`. */
  lemma GetSlotFound<K, V>(nodes: seq<Node<K, V>>, h: nat, key: K)
    requires |nodes| > 0 && GetSlot(nodes, h, key).Some?
    ensures var b := GetSlot(nodes, h, key).value;
      b < |nodes| && Holds(nodes[b], key) && exists j :: 0 <= j < HashTries && b == Probe(|nodes|, h, j)
  {
    var s := FirstStop(nodes, h, key, true, 0);
    assert GetSlot(nodes, h, key).value == Probe(|nodes|, h, s);
  }

  /**
   * When `get(key)` finds nothing, every slot of the probe sequence that
   * holds `key` lies beyond a free slot.
   */
  lemma GetSlotMissing<K, V>(nodes: seq<Node<K, V>>, h: nat, key: K, j: nat)
    requires |nodes| > 0 && GetSlot(nodes, h, key).None?
    requires j < HashTries && Holds(nodes[Probe(|nodes|, h, j)], key)
    ensures exists l :: 0 <= l < j && nodes[Probe(|nodes|, h, l)].occupancy == Free
  {
    var s := FirstStop(nodes, h, key, true, 0);
    assert s <= j;
    assert s != j;
    assert nodes[Probe(|nodes|, h, s)].occupancy == Free;
  }

  /**
   * `get(key)` finds the slot at position `p` of the probe sequence when
   * that slot holds `key` and no earlier one is free or holds `key`.
   */
  lemma GetSlotAt<K, V>(nodes: seq<Node<K, V>>, h: nat, key: K, p: nat)
    requires |nodes| > 0 && p < HashTries
    requires forall l :: 0 <= l < p ==> !Stops(nodes[Probe(|nodes|, h, l)], key, true)
    requires Holds(nodes[Probe(|nodes|, h, p)], key)
    ensures GetSlot(nodes, h, key) == Some(Probe(|nodes|, h, p))
  {
    var s := FirstStop(nodes, h, key, true, 0);
    assert s == p;
  }

  /**
   * The slot the eviction scan of `operator[]` picks from position `j` on,
   * given the candidate `oldest` and its age `oldestAge` so far: locked
   * slots are skipped, a deleted slot is taken with age 0, and any other
   * slot replaces the candidate when strictly younger in age.
   */
  function Victim<K, V>(nodes: seq<Node<K, V>>, h: nat, j: nat, oldest: Option<nat>, oldestAge: nat): (r: Option<nat>)
    requires |nodes| > 0 && j <= HashTries
    requires oldest.Some? ==> oldest.value < |nodes|
    ensures r.Some? ==> r.value < |nodes|
    decreases HashTries - j
  {
    if j == HashTries then oldest
    else
      var b := Probe(|nodes|, h, j);
      if nodes[b].occupancy == Locked then Victim(nodes, h, j + 1, oldest, oldestAge)
      else if nodes[b].occupancy == Deleted then Victim(nodes, h, j + 1, Some(b), 0)
      else if nodes[b].age < oldestAge then Victim(nodes, h, j + 1, Some(b), nodes[b].age)
      else Victim(nodes, h, j + 1, oldest, oldestAge)
  }

  /**
   * `b` is a right eviction choice among the first `n` probed slots: one
   * of them, not locked, deleted if any of them is, and otherwise no older
   * (no larger age) than any occupied one of them.
   */
  ghost predicate OldestAmong<K, V>(nodes: seq<Node<K, V>>, h: nat, n: nat, b: nat)
    requires |nodes| > 0
  {
    && (exists l :: 0 <= l < n && b == Probe(|nodes|, h, l))
    && b < |nodes|
    && (nodes[b].occupancy == Deleted || nodes[b].occupancy == Occupied)
    && (forall l :: 0 <= l < n && nodes[Probe(|nodes|, h, l)].occupancy == Deleted ==> nodes[b].occupancy == Deleted)
    && (nodes[b].occupancy == Occupied ==>
          forall l :: 0 <= l < n && nodes[Probe(|nodes|, h, l)].occupancy == Occupied ==>
            nodes[b].age <= nodes[Probe(|nodes|, h, l)].age)
  }

  /** Every slot of the probe sequence is in use, with an age below `0ull - 1`. */
  ghost predicate WindowInUse<K, V>(nodes: seq<Node<K, V>>, h: nat)
    requires |nodes| > 0
  {
    forall l :: 0 <= l < HashTries ==>
      nodes[Probe(|nodes|, h, l)].occupancy != Free && nodes[Probe(|nodes|, h, l)].age < MaxAge
  }

  /** What the eviction scan knows after the first `j` probed slots. */
  ghost predicate VictimSoFar<K, V>(nodes: seq<Node<K, V>>, h: nat, j: nat, oldest: Option<nat>, oldestAge: nat)
    requires |nodes| > 0
  {
    match oldest
    case None => oldestAge == MaxAge && forall l :: 0 <= l < j ==> nodes[Probe(|nodes|, h, l)].occupancy == Locked
    case Some(b) => OldestAmong(nodes, h, j, b) && oldestAge == (if nodes[b].occupancy == Deleted then 0 else nodes[b].age)
  }

  lemma {:induction false} VictimFromCorrect<K, V>(nodes: seq<Node<K, V>>, h: nat, j: nat, oldest: Option<nat>, oldestAge: nat)
    requires |nodes| > 0 && j <= HashTries
    requires WindowInUse(nodes, h) && VictimSoFar(nodes, h, j, oldest, oldestAge)
    ensures var r := Victim(nodes, h, j, oldest, oldestAge);
      && (r.None? ==> forall l :: 0 <= l < HashTries ==> nodes[Probe(|nodes|, h, l)].occupancy == Locked)
      && (r.Some? ==> OldestAmong(nodes, h, HashTries, r.value))
    decreases HashTries - j
  {
    if j < HashTries {
      var size := |nodes|;
      var b := Probe(size, h, j);
      if nodes[b].occupancy == Locked {
        if oldest.Some? {
          OldestAmongExtend(nodes, h, j, oldest.value);
        }
        VictimFromCorrect(nodes, h, j + 1, oldest, oldestAge);
      } else if nodes[b].occupancy == Deleted {
        assert OldestAmong(nodes, h, j + 1, b) by {
          assert b == Probe(size, h, j);
        }
        VictimFromCorrect(nodes, h, j + 1, Some(b), 0);
      } else if nodes[b].age < oldestAge {
        assert OldestAmong(nodes, h, j + 1, b) by {
          assert b == Probe(size, h, j);
          assert nodes[b].occupancy == Occupied;
          forall l | 0 <= l < j + 1 && nodes[Probe(size, h, l)].occupancy == Occupied
            ensures nodes[b].age <= nodes[Probe(size, h, l)].age
          {
            if l < j {
              assert oldest.Some?;
            }
          }
        }
        VictimFromCorrect(nodes, h, j + 1, Some(b), nodes[b].age);
      } else {
        assert oldest.Some?;
        OldestAmongExtend(nodes, h, j, oldest.value);
        VictimFromCorrect(nodes, h, j + 1, oldest, oldestAge);
      }
    }
  }

  /** A choice stays right when the next probed slot is locked or no younger. */
  lemma OldestAmongExtend<K, V>(nodes: seq<Node<K, V>>, h: nat, j: nat, b: nat)
    requires |nodes| > 0 && OldestAmong(nodes, h, j, b)
    requires var n := nodes[Probe(|nodes|, h, j)];
      n.occupancy == Locked || (n.occupancy == Occupied && (nodes[b].occupancy == Deleted || nodes[b].age <= n.age))
    ensures OldestAmong(nodes, h, j + 1, b)
  {
  }

  /**
   * With every probed slot in use, the eviction scan of `operator[]` finds
   * no slot exactly when all probed slots are locked, and otherwise picks
   * a right eviction choice.
   */
  lemma VictimCorrect<K, V>(nodes: seq<Node<K, V>>, h: nat)
    requires |nodes| > 0 && WindowInUse(nodes, h)
    ensures var r := Victim(nodes, h, 0, None, MaxAge);
      && (r.None? <==> forall l :: 0 <= l < HashTries ==> nodes[Probe(|nodes|, h, l)].occupancy == Locked)
      && (r.Some? ==> OldestAmong(nodes, h, HashTries, r.value))
  {
    VictimFromCorrect(nodes, h, 0, None, MaxAge);
    var r := Victim(nodes, h, 0, None, MaxAge);
    if r.Some? {
      var l :| 0 <= l < HashTries && r.value == Probe(|nodes|, h, l);
      assert nodes[Probe(|nodes|, h, l)].occupancy != Locked;
    }
  }

  /**
   * With every probed slot occupied, the eviction scan of `operator[]`
   * picks the one probed slot strictly older than all the others.
   */
  lemma VictimOldestAlone<K, V>(nodes: seq<Node<K, V>>, h: nat, p: nat)
    requires |nodes| > 0 && p < HashTries
    requires forall l :: 0 <= l < HashTries ==>
      nodes[Probe(|nodes|, h, l)].occupancy == Occupied && nodes[Probe(|nodes|, h, l)].age < MaxAge
    requires forall l :: 0 <= l < HashTries && Probe(|nodes|, h, l) != Probe(|nodes|, h, p) ==>
      nodes[Probe(|nodes|, h, p)].age < nodes[Probe(|nodes|, h, l)].age
    ensures Victim(nodes, h, 0, None, MaxAge) == Some(Probe(|nodes|, h, p))
  {
    VictimCorrect(nodes, h);
    assert nodes[Probe(|nodes|, h, 0)].occupancy != Locked;
    var b := Victim(nodes, h, 0, None, MaxAge).value;
    var l :| 0 <= l < HashTries && b == Probe(|nodes|, h, l);
    assert nodes[b].age <= nodes[Probe(|nodes|, h, p)].age;
  }

  /**
   * The slot the eviction scan of `store` picks from position `j` on: a
   * deleted slot is taken with the current global age `now`, and any other
   * slot, locked ones included, replaces the candidate when strictly larger
   * in age.
   */
  function StoreVictim<K, V>(nodes: seq<Node<K, V>>, h: nat, now: nat, j: nat, oldest: Option<nat>, oldestAge: nat): (r: Option<nat>)
    requires |nodes| > 0 && j <= HashTries
    requires oldest.Some? ==> oldest.value < |nodes|
    ensures r.Some? ==> r.value < |nodes|
    decreases HashTries - j
  {
    if j == HashTries then oldest
    else
      var b := Probe(|nodes|, h, j);
      if nodes[b].occupancy == Deleted then StoreVictim(nodes, h, now, j + 1, Some(b), now)
      else if nodes[b].age > oldestAge then StoreVictim(nodes, h, now, j + 1, Some(b), nodes[b].age)
      else StoreVictim(nodes, h, now, j + 1, oldest, oldestAge)
  }

  /**
   * `b` is what the eviction scan of `store` should pick among the first
   * `n` probed slots: one of them, deleted if any of them is, and otherwise
   * no younger (no smaller age) than any of them.
   */
  ghost predicate NewestAmong<K, V>(nodes: seq<Node<K, V>>, h: nat, n: nat, b: nat)
    requires |nodes| > 0
  {
    && (exists l :: 0 <= l < n && b == Probe(|nodes|, h, l))
    && b < |nodes|
    && (forall l :: 0 <= l < n && nodes[Probe(|nodes|, h, l)].occupancy == Deleted ==> nodes[b].occupancy == Deleted)
    && (nodes[b].occupancy != Deleted ==>
          forall l :: 0 <= l < n ==> nodes[b].age >= nodes[Probe(|nodes|, h, l)].age)
  }

  /** Every probed slot is in use, stamped with an age in `1..now`. */
  ghost predicate WindowStamped<K, V>(nodes: seq<Node<K, V>>, h: nat, now: nat)
    requires |nodes| > 0
  {
    forall l :: 0 <= l < HashTries ==>
      var n := nodes[Probe(|nodes|, h, l)];
      n.occupancy != Free && 1 <= n.age <= now
  }

  ghost predicate StoreVictimSoFar<K, V>(nodes: seq<Node<K, V>>, h: nat, now: nat, j: nat, oldest: Option<nat>, oldestAge: nat)
    requires |nodes| > 0
  {
    match oldest
    case None => oldestAge == 0 && j == 0
    case Some(b) => NewestAmong(nodes, h, j, b) && oldestAge == (if nodes[b].occupancy == Deleted then now else nodes[b].age)
  }

  lemma {:induction false} StoreVictimFromCorrect<K, V>(nodes: seq<Node<K, V>>, h: nat, now: nat, j: nat, oldest: Option<nat>, oldestAge: nat)
    requires |nodes| > 0 && j <= HashTries
    requires WindowStamped(nodes, h, now) && StoreVictimSoFar(nodes, h, now, j, oldest, oldestAge)
    ensures var r := StoreVictim(nodes, h, now, j, oldest, oldestAge);
      r.Some? && NewestAmong(nodes, h, HashTries, r.value)
    decreases HashTries - j
  {
    if j == HashTries {
      assert oldest.Some?;
    } else {
      var size := |nodes|;
      var b := Probe(size, h, j);
      if nodes[b].occupancy == Deleted {
        assert NewestAmong(nodes, h, j + 1, b) by {
          assert b == Probe(size, h, j);
        }
        StoreVictimFromCorrect(nodes, h, now, j + 1, Some(b), now);
      } else if nodes[b].age > oldestAge {
        assert NewestAmong(nodes, h, j + 1, b) by {
          assert b == Probe(size, h, j);
          forall l | 0 <= l < j + 1 ensures nodes[b].age >= nodes[Probe(size, h, l)].age {
            if l < j {
              assert oldest.Some?;
            }
          }
        }
        StoreVictimFromCorrect(nodes, h, now, j + 1, Some(b), nodes[b].age);
      } else {
        assert oldest.Some?;
        assert NewestAmong(nodes, h, j + 1, oldest.value);
        StoreVictimFromCorrect(nodes, h, now, j + 1, oldest, oldestAge);
      }
    }
  }

  /**
   * With every probed slot in use and stamped, the eviction scan of
   * `store` always picks a slot, and it picks the newest one: as written,
   * `store` keeps the largest age where `operator[]` keeps the smallest.
   */
  lemma StoreVictimCorrect<K, V>(nodes: seq<Node<K, V>>, h: nat, now: nat)
    requires |nodes| > 0 && WindowStamped(nodes, h, now)
    ensures var r := StoreVictim(nodes, h, now, 0, None, 0);
      r.Some? && NewestAmong(nodes, h, HashTries, r.value)
  {
    StoreVictimFromCorrect(nodes, h, now, 0, None, 0);
  }

  // The table as a whole.

  /**
   * The invariant of the table: every slot's age is at most the global
   * counter, every slot in use carries an age of at least 1, and the
   * counter is below `0ull - 1` (it is not modelled to wrap).
   */
  ghost predicate TableValid<K, V>(t: Table<K, V>)
  {
    && |t.nodes| > 0
    && t.age < MaxAge
    && forall b :: 0 <= b < |t.nodes| ==>
         t.nodes[b].age <= t.age && (t.nodes[b].occupancy != Free ==> t.nodes[b].age >= 1)
  }

  /** `create(node, key, val)` with `node` the slot `b` and `stamp` the incremented `age_`. */
  function WithCreated<K, V>(nodes: seq<Node<K, V>>, b: nat, key: K, value: V, stamp: nat): (r: seq<Node<K, V>>)
    requires b < |nodes|
    ensures |r| == |nodes| && r[b] == Node(Occupied, stamp, key, value)
    ensures forall c :: 0 <= c < |nodes| && c != b ==> r[c] == nodes[c]
  {
    nodes[b := Node(Occupied, stamp, key, value)]
  }

  /** `PersistPointer(&node)`: the slot `b` is locked. */
  function WithLocked<K, V>(nodes: seq<Node<K, V>>, b: nat): (r: seq<Node<K, V>>)
    requires b < |nodes|
    ensures |r| == |nodes| && r[b] == nodes[b].(occupancy := Locked)
    ensures forall c :: 0 <= c < |nodes| && c != b ==> r[c] == nodes[c]
  {
    nodes[b := nodes[b].(occupancy := Locked)]
  }

  /** `get(key)`: the slot found and the table afterwards. */
  function GetStep<K(==), V>(t: Table<K, V>, h: nat, key: K): (Option<nat>, Table<K, V>)
    requires |t.nodes| > 0
  {
    match GetSlot(t.nodes, h, key)
    case None => (None, t)
    case Some(b) =>
      var stamped := t.nodes[b := t.nodes[b].(age := t.age + 1)];
      (Some(b), Table(WithLocked(stamped, b), t.age + 1))
  }

  /**
   * The slot `operator[](key)` returns: the first probed slot that holds
   * `key` or is free, else the eviction choice; `None` is the null
   * `oldestElem` that the source then dereferences.
   */
  function IndexSlot<K(==), V>(nodes: seq<Node<K, V>>, h: nat, key: K): (r: Option<nat>)
    requires |nodes| > 0
    ensures r.Some? ==> r.value < |nodes|
  {
    var s := FirstStop(nodes, h, key, true, 0);
    if s < HashTries then Some(Probe(|nodes|, h, s)) else Victim(nodes, h, 0, None, MaxAge)
  }

  /**
   * How `operator[]` ends on slot `b`, reached by a stop of the probe loop
   * (`stopped`) or as the eviction choice: a slot it stopped at holding
   * `key` is only locked, any other is created with `(key, TValue{})`
   * and locked.
   */
  function IndexFinish<K(==), V>(t: Table<K, V>, key: K, default: V, stopped: bool, b: nat): (nat, Table<K, V>)
    requires b < |t.nodes|
  {
    if stopped && Holds(t.nodes[b], key) then (b, Table(WithLocked(t.nodes, b), t.age))
    else (b, Table(WithLocked(WithCreated(t.nodes, b, key, default, t.age + 1), b), t.age + 1))
  }

  /** `operator[](key)`: the slot returned and the table afterwards. */
  function IndexStep<K(==), V>(t: Table<K, V>, h: nat, key: K, default: V): (nat, Table<K, V>)
    requires |t.nodes| > 0 && IndexSlot(t.nodes, h, key).Some?
  {
    IndexFinish(t, key, default, FirstStop(t.nodes, h, key, true, 0) < HashTries, IndexSlot(t.nodes, h, key).value)
  }

  /** The destructor of the `PersistPointer` for `p`: a locked slot is occupied again. */
  function Released<K, V>(t: Table<K, V>, p: Option<nat>): (r: Table<K, V>)
    requires p.Some? ==> p.value < |t.nodes|
    ensures |r.nodes| == |t.nodes| && r.age == t.age
    ensures p.Some? ==> r.nodes[p.value].occupancy == Occupied
    ensures forall c :: 0 <= c < |t.nodes| && p != Some(c) ==> r.nodes[c] == t.nodes[c]
  {
    match p
    case None => t
    case Some(b) => Table(t.nodes[b := t.nodes[b].(occupancy := Occupied)], t.age)
  }

  /** The slot `store(key, val)` writes. */
  function StoreSlot<K(==), V>(nodes: seq<Node<K, V>>, h: nat, now: nat, key: K): (r: Option<nat>)
    requires |nodes| > 0
    ensures r.Some? ==> r.value < |nodes|
  {
    var s := FirstStop(nodes, h, key, false, 0);
    if s < HashTries then Some(Probe(|nodes|, h, s)) else StoreVictim(nodes, h, now, 0, None, 0)
  }

  /**
   * `store(key, val)`: an occupied slot holding `key` gets the value and a
   * new age; otherwise the first free probed slot, or the eviction choice,
   * is created with `(key, val)`.
   */
  function StoreStep<K(==), V>(t: Table<K, V>, h: nat, key: K, value: V): Table<K, V>
    requires |t.nodes| > 0 && StoreSlot(t.nodes, h, t.age, key).Some?
  {
    StoreFinish(t, key, value, FirstStop(t.nodes, h, key, false, 0) < HashTries, StoreSlot(t.nodes, h, t.age, key).value)
  }

  /**
   * How `store` ends on slot `b`, reached by a stop of the probe loop
   * (`stopped`) or as the eviction choice: a slot it stopped at holding
   * `key` unlocked gets the value and a new age, any other is created.
   */
  function StoreFinish<K(==), V>(t: Table<K, V>, key: K, value: V, stopped: bool, b: nat): Table<K, V>
    requires b < |t.nodes|
  {
    if stopped && HoldsUnlocked(t.nodes[b], key) then
      Table(t.nodes[b := t.nodes[b].(value := value, age := t.age + 1)], t.age + 1)
    else
      Table(WithCreated(t.nodes, b, key, value, t.age + 1), t.age + 1)
  }

  // What the operations promise.

  /**
   * After a write that leaves slot `b` holding `key` and changes no other
   * slot, `get(key)` finds `b`, provided `b` is probed at position `p` and
   * no earlier probed slot stopped the search before the write.
   */
  lemma {:induction false} FoundAfterWrite<K, V>(before: seq<Node<K, V>>, after: seq<Node<K, V>>, h: nat, key: K, b: nat, p: nat)
    requires |before| > 0 && |after| == |before|
    requires p < HashTries && b == Probe(|before|, h, p)
    requires forall l :: 0 <= l < p ==> !Stops(before[Probe(|before|, h, l)], key, true)
    requires Holds(after[b], key)
    requires forall c :: 0 <= c < |before| && c != b ==> after[c] == before[c]
    ensures GetSlot(after, h, key) == Some(b)
  {
    var s := FirstStop(after, h, key, true, 0);
    assert s <= p;
    assert Probe(|after|, h, s) == b;
  }

  /**
   * A `get` hit stamps the slot with `++age_`, which is strictly larger
   * than every other age in the table, locks it and changes no other slot.
   */
  lemma GetStepHit<K, V>(t: Table<K, V>, h: nat, key: K)
    requires TableValid(t) && GetSlot(t.nodes, h, key).Some?
    ensures var (p, t') := GetStep(t, h, key);
      && p == GetSlot(t.nodes, h, key) && t'.age == t.age + 1
      && t'.nodes[p.value] == t.nodes[p.value].(age := t'.age, occupancy := Locked)
      && Holds(t'.nodes[p.value], key)
      && forall c :: 0 <= c < |t.nodes| && c != p.value ==>
           t'.nodes[c] == t.nodes[c] && t'.nodes[c].age < t'.nodes[p.value].age
  {
    GetSlotFound(t.nodes, h, key);
  }

  /**
   * `operator[]` returns a slot exactly when the probe sequence reaches a
   * slot holding `key` or a free one, or some probed slot is not locked;
   * when all five are locked the source dereferences a null `oldestElem`.
   */
  lemma IndexSlotDefined<K, V>(t: Table<K, V>, h: nat, key: K)
    requires TableValid(t)
    ensures IndexSlot(t.nodes, h, key).Some? <==>
      FirstStop(t.nodes, h, key, true, 0) < HashTries ||
      exists l :: 0 <= l < HashTries && t.nodes[Probe(|t.nodes|, h, l)].occupancy != Locked
  {
    if FirstStop(t.nodes, h, key, true, 0) == HashTries {
      VictimCorrect(t.nodes, h);
    }
  }

  /**
   * `operator[]` on a key `get` would find returns that slot, locks it,
   * and leaves its age and `age_` unchanged.
   */
  lemma IndexStepPresent<K, V>(t: Table<K, V>, h: nat, key: K, default: V)
    requires |t.nodes| > 0 && GetSlot(t.nodes, h, key).Some?
    ensures IndexSlot(t.nodes, h, key) == GetSlot(t.nodes, h, key)
    ensures var b := GetSlot(t.nodes, h, key).value;
      IndexStep(t, h, key, default) == (b, Table(WithLocked(t.nodes, b), t.age))
  {
  }

  /**
   * `operator[]` on a key `get` would not find creates `(key, TValue{})`
   * with a fresh age in the first free probed slot, or, with no free
   * slot in reach, in the eviction choice: a deleted slot if one is
   * probed, otherwise the unlocked occupied slot with the smallest age.
   */
  lemma IndexStepAbsent<K, V>(t: Table<K, V>, h: nat, key: K, default: V)
    requires TableValid(t) && GetSlot(t.nodes, h, key).None? && IndexSlot(t.nodes, h, key).Some?
    ensures var (b, t') := IndexStep(t, h, key, default);
      && t'.age == t.age + 1
      && t'.nodes == t.nodes[b := Node(Locked, t.age + 1, key, default)]
      && (FirstStop(t.nodes, h, key, true, 0) < HashTries ==>
            t.nodes[b].occupancy == Free && b == Probe(|t.nodes|, h, FirstStop(t.nodes, h, key, true, 0)))
      && (FirstStop(t.nodes, h, key, true, 0) == HashTries ==> OldestAmong(t.nodes, h, HashTries, b))
  {
    var s := FirstStop(t.nodes, h, key, true, 0);
    if s == HashTries {
      VictimCorrect(t.nodes, h);
    }
  }

  /**
   * `operator[]` writes only the slot it returns, which afterwards holds
   * `key` and is probed before any slot that stopped the search.
   */
  lemma IndexStepWrites<K, V>(t: Table<K, V>, h: nat, key: K, default: V)
    requires TableValid(t) && IndexSlot(t.nodes, h, key).Some?
    ensures var (b, t') := IndexStep(t, h, key, default);
      && b < |t.nodes| && |t'.nodes| == |t.nodes| && Holds(t'.nodes[b], key)
      && (forall c :: 0 <= c < |t.nodes| && c != b ==> t'.nodes[c] == t.nodes[c])
      && exists p :: 0 <= p < HashTries && b == Probe(|t.nodes|, h, p)
           && forall l :: 0 <= l < p ==> !Stops(t.nodes[Probe(|t.nodes|, h, l)], key, true)
  {
    var s := FirstStop(t.nodes, h, key, true, 0);
    if s == HashTries {
      VictimCorrect(t.nodes, h);
    }
  }

  /** Whatever `operator[](key)` returns, `get(key)` finds that slot next. */
  lemma IndexThenGet<K, V>(t: Table<K, V>, h: nat, key: K, default: V)
    requires TableValid(t) && IndexSlot(t.nodes, h, key).Some?
    ensures GetSlot(IndexStep(t, h, key, default).1.nodes, h, key) == Some(IndexStep(t, h, key, default).0)
  {
    IndexStepWrites(t, h, key, default);
    var (b, t') := IndexStep(t, h, key, default);
    var p :| 0 <= p < HashTries && b == Probe(|t.nodes|, h, p)
      && forall l :: 0 <= l < p ==> !Stops(t.nodes[Probe(|t.nodes|, h, l)], key, true);
    FoundAfterWrite(t.nodes, t'.nodes, h, key, b, p);
  }

  /**
   * The slot `operator[](key)` returns is still what `get(key)` finds once
   * the returned pointer is destroyed and the slot unlocked.
   */
  lemma IndexReleaseThenGet<K, V>(t: Table<K, V>, h: nat, key: K, default: V)
    requires TableValid(t) && IndexSlot(t.nodes, h, key).Some?
    ensures var (b, t') := IndexStep(t, h, key, default);
      GetSlot(Released(t', Some(b)).nodes, h, key) == Some(b)
  {
    IndexStepWrites(t, h, key, default);
    var (b, t') := IndexStep(t, h, key, default);
    var released := Released(t', Some(b)).nodes;
    var p :| 0 <= p < HashTries && b == Probe(|t.nodes|, h, p)
      && forall l :: 0 <= l < p ==> !Stops(t.nodes[Probe(|t.nodes|, h, l)], key, true);
    FoundAfterWrite(t.nodes, released, h, key, b, p);
  }

  /** `store` always has a slot to write: its eviction choice is never null. */
  lemma StoreSlotDefined<K, V>(t: Table<K, V>, h: nat, key: K)
    requires TableValid(t)
    ensures StoreSlot(t.nodes, h, t.age, key).Some?
  {
    if FirstStop(t.nodes, h, key, false, 0) == HashTries {
      StoreVictimCorrect(t.nodes, h, t.age);
    }
  }

  /**
   * With no locked slot among the probed ones, `get(key)` right after
   * `store(key, val)` finds the slot `store` wrote, holding `val`.
   */
  lemma StoreThenGet<K, V>(t: Table<K, V>, h: nat, key: K, value: V)
    requires TableValid(t)
    requires forall l :: 0 <= l < HashTries ==> t.nodes[Probe(|t.nodes|, h, l)].occupancy != Locked
    ensures StoreSlot(t.nodes, h, t.age, key).Some?
    ensures var b := StoreSlot(t.nodes, h, t.age, key).value;
      var t' := StoreStep(t, h, key, value);
      GetSlot(t'.nodes, h, key) == Some(b) && t'.nodes[b].key == key && t'.nodes[b].value == value
  {
    StoreSlotDefined(t, h, key);
    var b := StoreSlot(t.nodes, h, t.age, key).value;
    var t' := StoreStep(t, h, key, value);
    var s := FirstStop(t.nodes, h, key, false, 0);
    assert forall l :: 0 <= l < s ==> !Stops(t.nodes[Probe(|t.nodes|, h, l)], key, true);
    if s < HashTries {
      FoundAfterWrite(t.nodes, t'.nodes, h, key, b, s);
    } else {
      StoreVictimCorrect(t.nodes, h, t.age);
      var p :| 0 <= p < HashTries && b == Probe(|t.nodes|, h, p);
      FoundAfterWrite(t.nodes, t'.nodes, h, key, b, p);
    }
  }

  /** A `get` keeps the table invariant and never lowers `age_`. */
  lemma GetKeepsValid<K, V>(t: Table<K, V>, h: nat, key: K)
    requires TableValid(t) && t.age + 1 < MaxAge
    ensures TableValid(GetStep(t, h, key).1) && GetStep(t, h, key).1.age >= t.age
  {
  }

  /** `operator[]` keeps the table invariant and never lowers `age_`. */
  lemma IndexKeepsValid<K, V>(t: Table<K, V>, h: nat, key: K, default: V)
    requires TableValid(t) && t.age + 1 < MaxAge && IndexSlot(t.nodes, h, key).Some?
    ensures TableValid(IndexStep(t, h, key, default).1) && IndexStep(t, h, key, default).1.age >= t.age
  {
  }

  /** `store` keeps the table invariant and raises `age_`. */
  lemma StoreKeepsValid<K, V>(t: Table<K, V>, h: nat, key: K, value: V)
    requires TableValid(t) && t.age + 1 < MaxAge
    ensures StoreSlot(t.nodes, h, t.age, key).Some?
    ensures TableValid(StoreStep(t, h, key, value)) && StoreStep(t, h, key, value).age == t.age + 1
  {
    StoreSlotDefined(t, h, key);
  }

  /** Destroying a `PersistPointer` to a slot in use keeps the table invariant. */
  lemma ReleaseKeepsValid<K, V>(t: Table<K, V>, b: nat)
    requires TableValid(t) && b < |t.nodes| && t.nodes[b].occupancy != Free
    ensures TableValid(Released(t, Some(b))) && Released(t, Some(b)).age == t.age
  {
  }

  // The probe loops as they run, try by try: the specifications the
  // methods of `AgedTable` are proved against, each shown equal to the
  // step function above.

  /** `get(key)` from try `i` on: the slot found and the table afterwards. */
  function GetFrom<K(==), V>(t: Table<K, V>, h: nat, key: K, i: nat): (Option<nat>, Table<K, V>)
    requires |t.nodes| > 0 && i <= HashTries
    decreases HashTries - i
  {
    if i == HashTries then (None, t)
    else
      var b := Probe(|t.nodes|, h, i);
      if Holds(t.nodes[b], key) then
        (Some(b), Table(WithLocked(t.nodes[b := t.nodes[b].(age := t.age + 1)], b), t.age + 1))
      else if t.nodes[b].occupancy == Free then (None, t)
      else GetFrom(t, h, key, i + 1)
  }

  lemma {:induction false} GetFromAt<K, V>(t: Table<K, V>, h: nat, key: K, i: nat)
    requires |t.nodes| > 0 && i <= HashTries
    ensures var s := FirstStop(t.nodes, h, key, true, i);
      var b := Probe(|t.nodes|, h, s);
      GetFrom(t, h, key, i) ==
        if s < HashTries && Holds(t.nodes[b], key) then
          (Some(b), Table(WithLocked(t.nodes[b := t.nodes[b].(age := t.age + 1)], b), t.age + 1))
        else (None, t)
    decreases HashTries - i
  {
    if i < HashTries && !Stops(t.nodes[Probe(|t.nodes|, h, i)], key, true) {
      GetFromAt(t, h, key, i + 1);
    }
  }

  /** The probe loop of `get` computes `GetStep`. */
  lemma GetFromIsStep<K, V>(t: Table<K, V>, h: nat, key: K)
    requires |t.nodes| > 0
    ensures GetFrom(t, h, key, 0) == GetStep(t, h, key)
  {
    GetFromAt(t, h, key, 0);
  }

  /**
   * `operator[](key)` from try `i` on, with the eviction candidate so far;
   * `None` when the loop ends with a null `oldestElem`.
   */
  function IndexFrom<K(==), V>(t: Table<K, V>, h: nat, key: K, default: V, i: nat, oldest: Option<nat>, oldestAge: nat): Option<(nat, Table<K, V>)>
    requires |t.nodes| > 0 && i <= HashTries && (oldest.Some? ==> oldest.value < |t.nodes|)
    decreases HashTries - i
  {
    if i == HashTries then
      match oldest
      case None => None
      case Some(b) => Some((b, Table(WithLocked(WithCreated(t.nodes, b, key, default, t.age + 1), b), t.age + 1)))
    else
      var b := Probe(|t.nodes|, h, i);
      var n := t.nodes[b];
      if Holds(n, key) then Some((b, Table(WithLocked(t.nodes, b), t.age)))
      else if n.occupancy == Free then Some((b, Table(WithLocked(WithCreated(t.nodes, b, key, default, t.age + 1), b), t.age + 1)))
      else if n.occupancy == Locked then IndexFrom(t, h, key, default, i + 1, oldest, oldestAge)
      else if n.occupancy == Deleted then IndexFrom(t, h, key, default, i + 1, Some(b), 0)
      else if n.age < oldestAge then IndexFrom(t, h, key, default, i + 1, Some(b), n.age)
      else IndexFrom(t, h, key, default, i + 1, oldest, oldestAge)
  }

  lemma {:induction false} IndexFromAt<K, V>(t: Table<K, V>, h: nat, key: K, default: V, i: nat, oldest: Option<nat>, oldestAge: nat)
    requires |t.nodes| > 0 && i <= HashTries && (oldest.Some? ==> oldest.value < |t.nodes|)
    ensures var s := FirstStop(t.nodes, h, key, true, i);
      var r := if s < HashTries then Some(Probe(|t.nodes|, h, s)) else Victim(t.nodes, h, i, oldest, oldestAge);
      IndexFrom(t, h, key, default, i, oldest, oldestAge) ==
        if r.Some? then Some(IndexFinish(t, key, default, s < HashTries, r.value)) else None
    decreases HashTries - i
  {
    if i < HashTries {
      var b := Probe(|t.nodes|, h, i);
      var n := t.nodes[b];
      if !Stops(n, key, true) {
        var (o, a) :=
          if n.occupancy == Locked then (oldest, oldestAge)
          else if n.occupancy == Deleted then (Some(b), 0)
          else if n.age < oldestAge then (Some(b), n.age)
          else (oldest, oldestAge);
        IndexFromAt(t, h, key, default, i + 1, o, a);
        assert IndexFrom(t, h, key, default, i, oldest, oldestAge) == IndexFrom(t, h, key, default, i + 1, o, a);
        assert FirstStop(t.nodes, h, key, true, i) == FirstStop(t.nodes, h, key, true, i + 1);
        assert Victim(t.nodes, h, i, oldest, oldestAge) == Victim(t.nodes, h, i + 1, o, a);
      }
    }
  }

  /** The probe loop of `operator[]` computes `IndexStep`, and ends with a null `oldestElem` exactly when `IndexSlot` is `None`. */
  lemma IndexFromIsStep<K, V>(t: Table<K, V>, h: nat, key: K, default: V)
    requires |t.nodes| > 0
    ensures IndexFrom(t, h, key, default, 0, None, MaxAge).Some? <==> IndexSlot(t.nodes, h, key).Some?
    ensures IndexSlot(t.nodes, h, key).Some? ==> IndexFrom(t, h, key, default, 0, None, MaxAge) == Some(IndexStep(t, h, key, default))
  {
    IndexFromAt(t, h, key, default, 0, None, MaxAge);
  }

  /** `store(key, val)` from try `i` on, with the eviction candidate so far; `None` for a null `oldestElem`. */
  function StoreFrom<K(==), V>(t: Table<K, V>, h: nat, key: K, value: V, i: nat, oldest: Option<nat>, oldestAge: nat): Option<Table<K, V>>
    requires |t.nodes| > 0 && i <= HashTries && (oldest.Some? ==> oldest.value < |t.nodes|)
    decreases HashTries - i
  {
    if i == HashTries then
      match oldest
      case None => None
      case Some(b) => Some(Table(WithCreated(t.nodes, b, key, value, t.age + 1), t.age + 1))
    else
      var b := Probe(|t.nodes|, h, i);
      var n := t.nodes[b];
      if HoldsUnlocked(n, key) then Some(Table(t.nodes[b := n.(value := value, age := t.age + 1)], t.age + 1))
      else if n.occupancy == Free then Some(Table(WithCreated(t.nodes, b, key, value, t.age + 1), t.age + 1))
      else if n.occupancy == Deleted then StoreFrom(t, h, key, value, i + 1, Some(b), t.age)
      else if n.age > oldestAge then StoreFrom(t, h, key, value, i + 1, Some(b), n.age)
      else StoreFrom(t, h, key, value, i + 1, oldest, oldestAge)
  }

  lemma {:induction false} StoreFromAt<K, V>(t: Table<K, V>, h: nat, key: K, value: V, i: nat, oldest: Option<nat>, oldestAge: nat)
    requires |t.nodes| > 0 && i <= HashTries && (oldest.Some? ==> oldest.value < |t.nodes|)
    ensures var s := FirstStop(t.nodes, h, key, false, i);
      var r := if s < HashTries then Some(Probe(|t.nodes|, h, s)) else StoreVictim(t.nodes, h, t.age, i, oldest, oldestAge);
      StoreFrom(t, h, key, value, i, oldest, oldestAge) ==
        if r.Some? then Some(StoreFinish(t, key, value, s < HashTries, r.value)) else None
    decreases HashTries - i
  {
    if i < HashTries {
      var b := Probe(|t.nodes|, h, i);
      var n := t.nodes[b];
      if !Stops(n, key, false) {
        var (o, a) :=
          if n.occupancy == Deleted then (Some(b), t.age)
          else if n.age > oldestAge then (Some(b), n.age)
          else (oldest, oldestAge);
        StoreFromAt(t, h, key, value, i + 1, o, a);
        assert StoreFrom(t, h, key, value, i, oldest, oldestAge) == StoreFrom(t, h, key, value, i + 1, o, a);
        assert FirstStop(t.nodes, h, key, false, i) == FirstStop(t.nodes, h, key, false, i + 1);
        assert StoreVictim(t.nodes, h, t.age, i, oldest, oldestAge) == StoreVictim(t.nodes, h, t.age, i + 1, o, a);
      }
    }
  }

  /** On a valid table the probe loop of `store` computes `StoreStep`. */
  lemma StoreFromIsStep<K, V>(t: Table<K, V>, h: nat, key: K, value: V)
    requires TableValid(t)
    ensures StoreSlot(t.nodes, h, t.age, key).Some?
    ensures StoreFrom(t, h, key, value, 0, None, 0) == Some(StoreStep(t, h, key, value))
  {
    StoreSlotDefined(t, h, key);
    StoreFromAt(t, h, key, value, 0, None, 0);
  }

  /** The table the probe loop of `get` leaves is valid. */
  lemma GetFromKeepsValid<K, V>(t: Table<K, V>, h: nat, key: K)
    requires TableValid(t) && t.age + 1 < MaxAge
    ensures TableValid(GetFrom(t, h, key, 0).1)
  {
    GetFromIsStep(t, h, key);
    GetKeepsValid(t, h, key);
  }

  /** The table the probe loop of `operator[]` leaves, when it has a slot, is valid. */
  lemma IndexFromKeepsValid<K, V>(t: Table<K, V>, h: nat, key: K, default: V)
    requires TableValid(t) && t.age + 1 < MaxAge
    ensures IndexFrom(t, h, key, default, 0, None, MaxAge).Some? ==>
      TableValid(IndexFrom(t, h, key, default, 0, None, MaxAge).value.1)
  {
    IndexFromIsStep(t, h, key, default);
    if IndexSlot(t.nodes, h, key).Some? {
      IndexKeepsValid(t, h, key, default);
    }
  }

  /** The probe loop of `store` always finds a slot, and the table it leaves is valid. */
  lemma StoreFromKeepsValid<K, V>(t: Table<K, V>, h: nat, key: K, value: V)
    requires TableValid(t) && t.age + 1 < MaxAge
    ensures StoreFrom(t, h, key, value, 0, None, 0).Some?
    ensures TableValid(StoreFrom(t, h, key, value, 0, None, 0).value)
  {
    StoreFromIsStep(t, h, key, value);
    StoreKeepsValid(t, h, key, value);
  }

  /**
   * `FixedSizeHashTableOpenHashingWithAge<TKey, TValue, Hash>` with
   * `2^bits` slots (the source fixes `bits` at 21); `hash` is `Hash` and
   * `default` is `TValue{}`.
   */
  class AgedTable<K(==), V> {
    const nodes: array<Node<K, V>>
    var age: nat
    const hash: K -> nat
    const default: V

    ghost function Model(): Table<K, V>
      reads this, nodes
    {
      Table(nodes[..], age)
    }

    ghost predicate Valid()
      reads this, nodes
    {
      TableValid(Model())
    }

    /** `2^bits` free slots, each with a default key and value and age 0; `age_` is 0. */
    constructor (bits: nat, hash: K -> nat, defaultKey: K, default: V)
      ensures Valid() && fresh(nodes) && nodes.Length == Pow2(bits) && age == 0
      ensures this.hash == hash && this.default == default
      ensures forall b :: 0 <= b < nodes.Length ==> nodes[b] == Node(Free, 0, defaultKey, default)
    {
      nodes := new Node<K, V>[Pow2(bits)](_ => Node(Free, 0, defaultKey, default));
      age := 0;
      this.hash := hash;
      this.default := default;
    }

    /**
     * `get(key)`: probes from `hash(key) & hashMask`; a hit is stamped with
     * `++age_` and locked by the returned `PersistPointer`; a free slot or
     * five misses give a null pointer and change nothing.
     */
    method Get(key: K) returns (p: Option<nat>)
      requires Valid() && age + 1 < MaxAge
      modifies this`age, nodes
      ensures Valid()
      ensures (p, Model()) == GetFrom(old(Model()), hash(key), key, 0)
    {
      ghost var t := Model();
      GetFromKeepsValid(t, hash(key), key);
      var h := hash(key);
      var bucket := h % nodes.Length;
      var i := 0;
      while i < HashTries
        invariant i <= HashTries && bucket == Probe(nodes.Length, h, i)
        invariant nodes[..] == t.nodes && age == t.age
        invariant GetFrom(t, h, key, i) == GetFrom(t, h, key, 0)
      {
        var n := nodes[bucket];
        if (n.occupancy == Occupied || n.occupancy == Locked) && n.key == key {
          age := age + 1;
          nodes[bucket] := n.(age := age);
          AcquirePointer(bucket);
          return Some(bucket);
        }
        if n.occupancy == Free {
          return None;
        }
        bucket := NextBucket(nodes.Length, bucket);
        i := i + 1;
      }
      return None;
    }

    /**
     * `operator[](key)`: the probed slot holding `key`, else the first free
     * probed slot, else the unlocked probed slot with the smallest age (a
     * deleted one winning outright), created with `(key, TValue{})`; the
     * returned `PersistPointer` locks it.  The source dereferences a null
     * pointer when all probed slots are locked, hence the precondition.
     */
    method Index(key: K) returns (p: nat)
      requires Valid() && age + 1 < MaxAge
      requires IndexFrom(Model(), hash(key), key, default, 0, None, MaxAge).Some?
      modifies this`age, nodes
      ensures Valid()
      ensures Some((p, Model())) == IndexFrom(old(Model()), hash(key), key, default, 0, None, MaxAge)
    {
      ghost var t := Model();
      IndexFromKeepsValid(t, hash(key), key, default);
      var h := hash(key);
      var bucket := h % nodes.Length;
      var oldestElem: Option<nat> := None;
      var oldestAge: nat := MaxAge;
      var i := 0;
      while i < HashTries
        invariant i <= HashTries && bucket == Probe(nodes.Length, h, i)
        invariant nodes[..] == t.nodes && age == t.age
        invariant oldestElem.Some? ==> oldestElem.value < nodes.Length
        invariant IndexFrom(t, h, key, default, i, oldestElem, oldestAge) == IndexFrom(t, h, key, default, 0, None, MaxAge)
      {
        var n := nodes[bucket];
        if (n.occupancy == Occupied || n.occupancy == Locked) && n.key == key {
          AcquirePointer(bucket);
          assert Model() == Table(WithLocked(t.nodes, bucket), t.age);
          return bucket;
        }
        if n.occupancy == Free {
          Create(bucket, key, default);
          AcquirePointer(bucket);
          assert Model() == Table(WithLocked(WithCreated(t.nodes, bucket, key, default, t.age + 1), bucket), t.age + 1);
          return bucket;
        }
        if n.occupancy == Locked {
          bucket := NextBucket(nodes.Length, bucket);
          i := i + 1;
          continue;
        }
        if n.occupancy == Deleted {
          oldestElem := Some(bucket);
          oldestAge := 0;
          bucket := NextBucket(nodes.Length, bucket);
          i := i + 1;
          continue;
        }
        if n.age < oldestAge {
          oldestAge := n.age;
          oldestElem := Some(bucket);
        }
        bucket := NextBucket(nodes.Length, bucket);
        i := i + 1;
      }
      p := oldestElem.value;
      Create(p, key, default);
      AcquirePointer(p);
      assert Model() == Table(WithLocked(WithCreated(t.nodes, p, key, default, t.age + 1), p), t.age + 1);
    }

    /**
     * `store(key, val)` (with `value_` for the misspelt `value` of the
     * source): an occupied probed slot holding `key` gets `val` and a new
     * age; otherwise the first free probed slot, or else the probed slot
     * with the LARGEST age (a deleted one winning), is created with
     * `(key, val)`.  Locked slots are neither matched nor skipped.
     */
    method Store(key: K, value: V)
      requires Valid() && age + 1 < MaxAge
      modifies this`age, nodes
      ensures Valid()
      ensures Some(Model()) == StoreFrom(old(Model()), hash(key), key, value, 0, None, 0)
    {
      ghost var t := Model();
      StoreFromKeepsValid(t, hash(key), key, value);
      var h := hash(key);
      var bucket := h % nodes.Length;
      var oldestElem: Option<nat> := None;
      var oldestAge: nat := 0;
      var i := 0;
      while i < HashTries
        invariant i <= HashTries && bucket == Probe(nodes.Length, h, i)
        invariant nodes[..] == t.nodes && age == t.age
        invariant oldestElem.Some? ==> oldestElem.value < nodes.Length
        invariant StoreFrom(t, h, key, value, i, oldestElem, oldestAge) == StoreFrom(t, h, key, value, 0, None, 0)
      {
        var n := nodes[bucket];
        if n.occupancy == Occupied && n.key == key {
          age := age + 1;
          nodes[bucket] := n.(value := value, age := age);
          return;
        }
        if n.occupancy == Free {
          Create(bucket, key, value);
          return;
        }
        if n.occupancy == Deleted {
          oldestElem := Some(bucket);
          oldestAge := age;
          bucket := NextBucket(nodes.Length, bucket);
          i := i + 1;
          continue;
        }
        if n.age > oldestAge {
          oldestAge := n.age;
          oldestElem := Some(bucket);
        }
        bucket := NextBucket(nodes.Length, bucket);
        i := i + 1;
      }
      Create(oldestElem.value, key, value);
    }

    /** `create(node, key, val)`: the slot gets `(key, val)`, age `++age_` and becomes occupied. */
    method Create(b: nat, key: K, value: V)
      requires b < nodes.Length
      modifies this`age, nodes
      ensures age == old(age) + 1
      ensures nodes[..] == WithCreated(old(nodes[..]), b, key, value, age)
    {
      age := age + 1;
      nodes[b] := Node(Occupied, age, key, value);
    }

    /** The `PersistPointer` constructor for a non-null slot: the slot is locked. */
    method AcquirePointer(b: nat)
      requires b < nodes.Length
      modifies nodes
      ensures nodes[..] == WithLocked(old(nodes[..]), b)
    {
      nodes[b] := nodes[b].(occupancy := Locked);
    }

    /** The `PersistPointer` destructor: a non-null slot is occupied again; null touches nothing. */
    method ReleasePointer(p: Option<nat>)
      requires Valid() && (p.Some? ==> p.value < nodes.Length && nodes[p.value].occupancy != Free)
      modifies nodes
      ensures Valid()
      ensures Model() == Released(old(Model()), p)
    {
      if p.Some? {
        ReleaseKeepsValid(Model(), p.value);
        nodes[p.value] := nodes[p.value].(occupancy := Occupied);
      }
    }
  }
}
