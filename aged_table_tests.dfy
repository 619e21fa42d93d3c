/**
 * tests/FixedSizeHashTableOpenHashingWIthAgeTests.cpp: the repository's test
 * of the aged table, replayed through the operations of `AgedHashTable`.
 */
module AgedTableTests {
  import opened Options
  import opened AgedHashTable

  // A replay of the repository's test on eight slots, with the identity
  // hash. `test()` first runs `testGivenKey` for the keys 1 to 999 on its
  // global table, so the five buckets the later keys collide in already
  // hold older keys; here `testGivenKey` runs for the keys 1 to 7, the keys
  // whose buckets are the eight slots. Then `testOverrideOlderElements`
  // runs: the colliding keys 9, 17, 25, 33 and 41 stand for its five keys,
  // all in bucket 1, and 49 for the sixth. The test writes `field3` through
  // the pointer `operator[]` returns; here the whole value is that field.

  /** The keys `testGivenKey` is run for in the replay. */
  const GivenKeys: nat := 7

  /** What the constructor builds with three bits, default key 0 and default value 0. */
  function EightFreeSlots(): Table<nat, int>
  {
    var free := Node(Free, 0, 0, 0);
    Table([free, free, free, free, free, free, free, free], 0)
  }

  /**
   * `testGivenKey(key)`: `val1 = table[key]` is held while `field3` is set
   * to 3 and `get(key)` reads it back through a pointer destroyed at once;
   * then `val1` is destroyed. `None` where `operator[]` would dereference a
   * null slot.
   */
  function GivenKeyTested(t: Table<nat, int>, key: nat): (r: Option<Table<nat, int>>)
    requires |t.nodes| > 0
    ensures r.Some? <==> IndexSlot(t.nodes, key, key).Some?
    ensures r.Some? ==> |r.value.nodes| == |t.nodes| && r.value.age >= t.age
  {
    if IndexSlot(t.nodes, key, key).None? then None
    else
      var (b, t1) := IndexStep(t, key, key, 0);
      var written := Table(t1.nodes[b := t1.nodes[b].(value := 3)], t1.age);
      Some(Released(GetReleased(written, key), Some(b)))
  }

  /**
   * `table[key]->field3 = v` with the returned pointer then destroyed;
   * `None` where `operator[]` would dereference a null slot.
   */
  function IndexWritten(t: Table<nat, int>, key: nat, v: int): (r: Option<Table<nat, int>>)
    requires |t.nodes| > 0
    ensures r.Some? <==> IndexSlot(t.nodes, key, key).Some?
    ensures r.Some? ==> |r.value.nodes| == |t.nodes| && r.value.age >= t.age
  {
    if IndexSlot(t.nodes, key, key).None? then None
    else
      var (b, t1) := IndexStep(t, key, key, 0);
      Some(Released(Table(t1.nodes[b := t1.nodes[b].(value := v)], t1.age), Some(b)))
  }

  /** `get(key)` with the returned pointer destroyed at once. */
  function GetReleased(t: Table<nat, int>, key: nat): (r: Table<nat, int>)
    requires |t.nodes| > 0
    ensures |r.nodes| == |t.nodes| && r.age >= t.age
  {
    var (p, t1) := GetStep(t, key, key);
    Released(t1, p)
  }

  /**
   * One round of the test's checking loop (lines 46-52): `get(key)` kept
   * in `hashedValue`, two more `get(key)` destroyed at once, then
   * `hashedValue` destroyed.
   */
  function KeyChecked(t: Table<nat, int>, key: nat): (r: Table<nat, int>)
    requires |t.nodes| > 0
    ensures |r.nodes| == |t.nodes| && r.age >= t.age
  {
    var (held, t1) := GetStep(t, key, key);
    Released(GetReleased(GetReleased(t1, key), key), held)
  }

  /**
   * `table[key]->field3 = v` for a key `get` would not find: it is created
   * in the slot `operator[]` picks, stamped with the next age, and the
   * slot is unlocked again.
   */
  lemma IndexWrittenAbsent(t: Table<nat, int>, key: nat, v: int)
    requires TableValid(t) && GetSlot(t.nodes, key, key).None? && IndexSlot(t.nodes, key, key).Some?
    ensures var b := IndexSlot(t.nodes, key, key).value;
      IndexWritten(t, key, v) == Some(Table(t.nodes[b := Node(Occupied, t.age + 1, key, v)], t.age + 1))
  {
    IndexStepAbsent(t, key, key, 0);
    var (b, t1) := IndexStep(t, key, key, 0);
    assert t1.nodes[b := t1.nodes[b].(value := v)][b := Node(Occupied, t.age + 1, key, v)]
      == t.nodes[b := Node(Occupied, t.age + 1, key, v)];
  }

  /**
   * A round of the checking loop for a key `get` finds unlocked at try `p`
   * stamps its slot three times and changes nothing else.
   */
  lemma KeyCheckedHit(t: Table<nat, int>, key: nat, p: nat)
    requires |t.nodes| > 0 && p < HashTries
    requires forall l :: 0 <= l < p ==> !Stops(t.nodes[Probe(|t.nodes|, key, l)], key, true)
    requires HoldsUnlocked(t.nodes[Probe(|t.nodes|, key, p)], key)
    ensures var b := Probe(|t.nodes|, key, p);
      KeyChecked(t, key) == Table(t.nodes[b := t.nodes[b].(age := t.age + 3)], t.age + 3)
  {
    var b := Probe(|t.nodes|, key, p);
    GetSlotAt(t.nodes, key, key, p);
    var (held, t1) := GetStep(t, key, key);
    assert held == Some(b);
    GetSlotAt(t1.nodes, key, key, p);
    var t2 := GetReleased(t1, key);
    GetSlotAt(t2.nodes, key, key, p);
  }

  /** The `i`-th colliding key of the replay: all of them fall in bucket 1 of eight slots. */
  function CollidingKey(i: nat): (k: nat)
    ensures k % 8 == 1 && k > GivenKeys
  {
    8 * i + 9
  }

  /** The probe sequence of every key in bucket 1 of eight slots is the slots 1 to 5. */
  lemma ProbesOfBucketOne(h: nat)
    requires h % 8 == 1
    ensures forall j :: 0 <= j < HashTries ==> Probe(8, h, j) == j + 1
  {
    assert Probe(8, h, 0) == 1 && Probe(8, h, 1) == 2 && Probe(8, h, 2) == 3;
    assert Probe(8, h, 3) == 4 && Probe(8, h, 4) == 5;
  }

  /**
   * The loop of `test()` from key `k` on: `testGivenKey(key)` for every
   * remaining key up to `GivenKeys`; `None` once an `operator[]` would
   * dereference a null slot.
   */
  function GivenLoop(t: Table<nat, int>, k: nat): (r: Option<Table<nat, int>>)
    requires |t.nodes| > 0 && k <= GivenKeys + 1
    ensures r.Some? ==> |r.value.nodes| == |t.nodes|
    decreases GivenKeys + 1 - k
  {
    if k == GivenKeys + 1 then Some(t)
    else match GivenKeyTested(t, k)
      case None => None
      case Some(t1) => GivenLoop(t1, k + 1)
  }

  /**
   * The first loop of the test from iteration `i` on:
   * `hastTable[key_i]->field3 = i` for every remaining `i`; `None` once an
   * `operator[]` would dereference a null slot.
   */
  function CreateLoop(t: Table<nat, int>, i: nat): (r: Option<Table<nat, int>>)
    requires |t.nodes| > 0 && i <= HashTries
    ensures r.Some? ==> |r.value.nodes| == |t.nodes|
    decreases HashTries - i
  {
    if i == HashTries then Some(t)
    else match IndexWritten(t, CollidingKey(i), i)
      case None => None
      case Some(t1) => CreateLoop(t1, i + 1)
  }

  /** The second loop of the test from iteration `i` on. */
  function CheckLoop(t: Table<nat, int>, i: nat): (r: Table<nat, int>)
    requires |t.nodes| > 0 && i <= HashTries
    ensures |r.nodes| == |t.nodes| && r.age >= t.age
    decreases HashTries - i
  {
    if i == HashTries then t else CheckLoop(KeyChecked(t, CollidingKey(i)), i + 1)
  }

  /** The table after `testGivenKey` for the keys 1 to `n`; `GivenSlots` gives its slots. */
  function Given(n: nat): (r: Table<nat, int>)
    requires n <= GivenKeys
    ensures |r.nodes| == 8 && r.age == 2 * n
  {
    if n == 0 then EightFreeSlots()
    else
      var t := Given(n - 1);
      Table(t.nodes[n := Node(Occupied, 2 * n, n, 3)], 2 * n)
  }

  /**
   * After `testGivenKey` for the keys 1 to `n`, slot `j` in 1 to `n` holds
   * key `j` with value 3, created at age `2j - 1` and read at age `2j`;
   * every other slot is still free.
   */
  lemma {:induction false} GivenSlots(n: nat)
    requires n <= GivenKeys
    ensures forall j :: 0 <= j < 8 ==>
      Given(n).nodes[j] == (if 1 <= j <= n then Node(Occupied, 2 * j, j, 3) else Node(Free, 0, 0, 0))
  {
    if n > 0 {
      GivenSlots(n - 1);
    }
  }

  /** The table after `n` iterations of the first loop; `CreatedSlots` gives its slots. */
  function Created(n: nat): (r: Table<nat, int>)
    requires n <= HashTries
    ensures |r.nodes| == 8 && r.age == 2 * GivenKeys + n
  {
    if n == 0 then Given(GivenKeys)
    else
      var t := Created(n - 1);
      Table(t.nodes[n := Node(Occupied, 2 * GivenKeys + n, CollidingKey(n - 1), n - 1)], 2 * GivenKeys + n)
  }

  /**
   * After `n` iterations of the first loop, slot `j` in 1 to `n` holds the
   * key of iteration `j - 1`, with that iteration's number as its value
   * and age `14 + j`; the slots from `n + 1` on still hold the keys
   * `testGivenKey` left, and slot 0 is free.
   */
  lemma {:induction false} CreatedSlots(n: nat)
    requires n <= HashTries
    ensures Created(n).nodes[0] == Node(Free, 0, 0, 0)
    ensures forall j :: 1 <= j <= n ==> Created(n).nodes[j] == Node(Occupied, 2 * GivenKeys + j, CollidingKey(j - 1), j - 1)
    ensures forall j :: n < j < 8 ==> Created(n).nodes[j] == Node(Occupied, 2 * j, j, 3)
  {
    if n == 0 {
      GivenSlots(GivenKeys);
    } else {
      CreatedSlots(n - 1);
    }
  }

  /** The table after `n` iterations of the second loop; `CheckedSlots` gives its slots. */
  function Checked(n: nat): (r: Table<nat, int>)
    requires n <= HashTries
    ensures |r.nodes| == 8 && r.age == 19 + 3 * n
  {
    if n == 0 then Created(5)
    else
      var t := Checked(n - 1);
      Table(t.nodes[n := t.nodes[n].(age := t.age + 3)], t.age + 3)
  }

  /**
   * After `n` iterations of the second loop each key checked so far was
   * read three times, so slot `j` in 1 to `n` carries age `19 + 3j`; the
   * other slots are as `Created(5)` left them.
   */
  lemma {:induction false} CheckedSlots(n: nat)
    requires n <= HashTries
    ensures Checked(n).nodes[0] == Node(Free, 0, 0, 0)
    ensures forall j :: 1 <= j <= n ==> Checked(n).nodes[j] == Node(Occupied, 19 + 3 * j, CollidingKey(j - 1), j - 1)
    ensures forall j :: n < j <= HashTries ==> Checked(n).nodes[j] == Node(Occupied, 14 + j, CollidingKey(j - 1), j - 1)
    ensures Checked(n).nodes[6] == Node(Occupied, 12, 6, 3) && Checked(n).nodes[7] == Node(Occupied, 14, 7, 3)
  {
    if n == 0 {
      CreatedSlots(HashTries);
    } else {
      CheckedSlots(n - 1);
    }
  }

  /** One more round of the second loop stamps slot `n + 1` three times. */
  lemma CheckedStep(n: nat)
    requires n < HashTries
    ensures var t := Checked(n);
      Checked(n + 1) == Table(t.nodes[n + 1 := t.nodes[n + 1].(age := t.age + 3)], t.age + 3)
  {
  }

  /**
   * `testGivenKey(key)` for a key whose first probed slot is free creates
   * it there, and the read stamps it once more.
   */
  lemma GivenKeyIntoFree(t: Table<nat, int>, key: nat)
    requires TableValid(t) && t.nodes[Probe(|t.nodes|, key, 0)].occupancy == Free
    ensures var b := Probe(|t.nodes|, key, 0);
      GivenKeyTested(t, key) == Some(Table(t.nodes[b := Node(Occupied, t.age + 2, key, 3)], t.age + 2))
  {
    var b := Probe(|t.nodes|, key, 0);
    FirstStopAt(t.nodes, key, key, true, 0);
    IndexStepAbsent(t, key, key, 0);
    var (b', t1) := IndexStep(t, key, key, 0);
    assert b' == b && t1 == Table(t.nodes[b := Node(Locked, t.age + 1, key, 0)], t.age + 1);
    var written := Table(t1.nodes[b := t1.nodes[b].(value := 3)], t1.age);
    GetSlotAt(written.nodes, key, key, 0);
    var (p, t2) := GetStep(written, key, key);
    assert p == Some(b) && t2 == Table(t.nodes[b := Node(Locked, t.age + 2, key, 3)], t.age + 2);
    assert GetReleased(written, key) == Table(t.nodes[b := Node(Occupied, t.age + 2, key, 3)], t.age + 2);
    assert t.nodes[b := Node(Occupied, t.age + 2, key, 3)][b := Node(Occupied, t.age + 2, key, 3)]
      == t.nodes[b := Node(Occupied, t.age + 2, key, 3)];
  }

  /**
   * `testGivenKey(n + 1)` creates key `n + 1` in its own free slot, and
   * `get` then finds it with the value 3, as the test asserts.
   */
  lemma GivenKeyStep(n: nat)
    requires n < GivenKeys
    ensures GivenKeyTested(Given(n), n + 1) == Some(Given(n + 1))
    ensures GetSlot(Given(n + 1).nodes, n + 1, n + 1) == Some(n + 1) && Given(n + 1).nodes[n + 1].value == 3
  {
    var t := Given(n);
    var key := n + 1;
    GivenSlots(n);
    GivenSlots(n + 1);
    assert Probe(8, key, 0) == key;
    GivenKeyIntoFree(t, key);
    assert t.nodes[key := Node(Occupied, t.age + 2, key, 3)] == Given(n + 1).nodes;
    GetSlotAt(Given(n + 1).nodes, key, key, 0);
  }

  /**
   * The loop of `test()` from key `n + 1` on ends with the keys 1 to 7 in
   * their slots; from `n = 0` it starts on the table the constructor
   * builds (`GivenKeysSpelledOut`).
   */
  lemma {:induction false} GivenLoopFrom(n: nat)
    requires n <= GivenKeys
    ensures GivenLoop(Given(n), n + 1) == Some(Given(GivenKeys))
    decreases GivenKeys - n
  {
    if n < GivenKeys {
      GivenKeyStep(n);
      GivenLoopFrom(n + 1);
    }
  }

  /**
   * In iteration `n` of the first loop every probed slot is in use, and
   * none holds the key: the probe loop runs through all five tries.
   */
  lemma CreateLoopFindsNoSlot(n: nat)
    requires n < HashTries
    ensures WindowInUse(Created(n).nodes, CollidingKey(n))
    ensures FirstStop(Created(n).nodes, CollidingKey(n), CollidingKey(n), true, 0) == HashTries
  {
    var nodes := Created(n).nodes;
    var key := CollidingKey(n);
    CreatedSlots(n);
    ProbesOfBucketOne(key);
    forall l | 0 <= l < HashTries
      ensures !Stops(nodes[Probe(|nodes|, key, l)], key, true)
    {
      assert Probe(|nodes|, key, l) == l + 1;
    }
    FirstStopAt(nodes, key, key, true, HashTries);
  }

  /**
   * In iteration `n` of the first loop `get` would not find the key, and
   * `operator[]` picks slot `n + 1`, the oldest of the five probed ones,
   * which still holds the key `testGivenKey` left there.
   */
  lemma CreateLoopEvicts(n: nat)
    requires n < HashTries
    ensures GetSlot(Created(n).nodes, CollidingKey(n), CollidingKey(n)).None?
    ensures IndexSlot(Created(n).nodes, CollidingKey(n), CollidingKey(n)) == Some(n + 1)
    ensures Created(n).nodes[n + 1].key == n + 1
  {
    var nodes := Created(n).nodes;
    var key := CollidingKey(n);
    CreatedSlots(n);
    CreateLoopFindsNoSlot(n);
    ProbesOfBucketOne(key);
    forall l | 0 <= l < HashTries && Probe(|nodes|, key, l) != Probe(|nodes|, key, n)
      ensures nodes[Probe(|nodes|, key, n)].age < nodes[Probe(|nodes|, key, l)].age
    {
      assert nodes[n + 1].age == 2 * n + 2;
    }
    VictimOldestAlone(nodes, key, n);
  }

  /** Iteration `n` of the first loop creates its key in slot `n + 1`, evicting key `n + 1`. */
  lemma CreateLoopStep(n: nat)
    requires n < HashTries
    ensures IndexWritten(Created(n), CollidingKey(n), n) == Some(Created(n + 1))
  {
    var t := Created(n);
    var key := CollidingKey(n);
    CreatedSlots(n);
    CreateLoopEvicts(n);
    IndexWrittenAbsent(t, key, n);
    assert t.nodes[n + 1 := Node(Occupied, t.age + 1, key, n)] == Created(n + 1).nodes;
  }

  /** The first loop from iteration `n` on ends with the five keys created. */
  lemma {:induction false} CreateLoopFrom(n: nat)
    requires n <= HashTries
    ensures CreateLoop(Created(n), n) == Some(Created(HashTries))
    decreases HashTries - n
  {
    if n < HashTries {
      CreateLoopStep(n);
      CreateLoopFrom(n + 1);
    }
  }

  /**
   * In iteration `n` of the second loop no probed slot before slot
   * `n + 1` stops the search, and slot `n + 1` holds the key of iteration
   * `n`, unlocked, with the value written for it: every `get` finds it
   * there.
   */
  lemma CheckLoopFinds(n: nat)
    requires n < HashTries
    ensures forall l :: 0 <= l < n ==>
      !Stops(Checked(n).nodes[Probe(8, CollidingKey(n), l)], CollidingKey(n), true)
    ensures Probe(8, CollidingKey(n), n) == n + 1 && HoldsUnlocked(Checked(n).nodes[n + 1], CollidingKey(n))
    ensures GetSlot(Checked(n).nodes, CollidingKey(n), CollidingKey(n)) == Some(n + 1)
    ensures Checked(n).nodes[n + 1].value == n
  {
    var t := Checked(n);
    var key := CollidingKey(n);
    CheckedSlots(n);
    ProbesOfBucketOne(key);
    forall l | 0 <= l < n
      ensures !Stops(t.nodes[Probe(|t.nodes|, key, l)], key, true)
    {
      assert t.nodes[l + 1].key == CollidingKey(l);
    }
    GetSlotAt(t.nodes, key, key, n);
  }

  /** Iteration `n` of the second loop stamps slot `n + 1` three times. */
  lemma CheckLoopStep(n: nat)
    requires n < HashTries
    ensures KeyChecked(Checked(n), CollidingKey(n)) == Checked(n + 1)
  {
    CheckLoopFinds(n);
    KeyCheckedHit(Checked(n), CollidingKey(n), n);
    CheckedStep(n);
  }

  /** The second loop from iteration `n` on ends with every key read three times. */
  lemma {:induction false} CheckLoopFrom(n: nat)
    requires n <= HashTries
    ensures CheckLoop(Checked(n), n) == Checked(HashTries)
    decreases HashTries - n
  {
    if n < HashTries {
      CheckLoopStep(n);
      CheckLoopFrom(n + 1);
    }
  }

  /** Eight slots after `testGivenKey` for the keys 1 to 7. */
  function SevenKeysGiven(): Table<nat, int>
  {
    Table([Node(Free, 0, 0, 0), Node(Occupied, 2, 1, 3), Node(Occupied, 4, 2, 3), Node(Occupied, 6, 3, 3),
           Node(Occupied, 8, 4, 3), Node(Occupied, 10, 5, 3), Node(Occupied, 12, 6, 3), Node(Occupied, 14, 7, 3)], 14)
  }

  /** The same slots after the five colliding keys evicted the keys 1 to 5, with the values 0 to 4. */
  function FiveKeysWritten(): Table<nat, int>
  {
    Table([Node(Free, 0, 0, 0), Node(Occupied, 15, 9, 0), Node(Occupied, 16, 17, 1), Node(Occupied, 17, 25, 2),
           Node(Occupied, 18, 33, 3), Node(Occupied, 19, 41, 4), Node(Occupied, 12, 6, 3), Node(Occupied, 14, 7, 3)], 19)
  }

  /** The same slots once the second loop read every colliding key three times. */
  function FiveReadKeys(): Table<nat, int>
  {
    Table([Node(Free, 0, 0, 0), Node(Occupied, 22, 9, 0), Node(Occupied, 25, 17, 1), Node(Occupied, 28, 25, 2),
           Node(Occupied, 31, 33, 3), Node(Occupied, 34, 41, 4), Node(Occupied, 12, 6, 3), Node(Occupied, 14, 7, 3)], 34)
  }

  /** The same slots once the sixth colliding key 49 has been created with the value 1001. */
  function SixKeysWritten(): Table<nat, int>
  {
    Table([Node(Free, 0, 0, 0), Node(Occupied, 35, 49, 1001), Node(Occupied, 25, 17, 1), Node(Occupied, 28, 25, 2),
           Node(Occupied, 31, 33, 3), Node(Occupied, 34, 41, 4), Node(Occupied, 12, 6, 3), Node(Occupied, 14, 7, 3)], 35)
  }

  /**
   * The two loops of `testOverrideOlderElements`, run on the table the
   * given keys left, evict the keys 1 to 5 in turn and leave the five
   * colliding keys in slots 1 to 5, the first key's read longest ago.
   */
  lemma FiveKeysCreatedAndRead()
    ensures CreateLoop(SevenKeysGiven(), 0) == Some(FiveKeysWritten())
    ensures CheckLoop(FiveKeysWritten(), 0) == FiveReadKeys()
  {
    CreateLoopFrom(0);
    CheckLoopFrom(0);
    GivenKeysSpelledOut();
    FiveKeysSpelledOut();
    FiveReadKeysSpelledOut();
  }

  /** `Given` before and after the seven keys, slot by slot. */
  lemma GivenKeysSpelledOut()
    ensures Given(0) == EightFreeSlots()
    ensures Given(GivenKeys) == SevenKeysGiven() && Created(0) == SevenKeysGiven()
  {
    GivenSlots(GivenKeys);
    var given := Given(GivenKeys);
    assert given.nodes[0] == SevenKeysGiven().nodes[0];
    assert given.nodes[1] == SevenKeysGiven().nodes[1];
    assert given.nodes[2] == SevenKeysGiven().nodes[2];
    assert given.nodes[3] == SevenKeysGiven().nodes[3];
    assert given.nodes[4] == SevenKeysGiven().nodes[4];
    assert given.nodes[5] == SevenKeysGiven().nodes[5];
    assert given.nodes[6] == SevenKeysGiven().nodes[6];
    assert given.nodes[7] == SevenKeysGiven().nodes[7];
  }

  /** `Created` after all five iterations, slot by slot. */
  lemma FiveKeysSpelledOut()
    ensures Created(HashTries) == FiveKeysWritten() && Checked(0) == FiveKeysWritten()
  {
    CreatedSlots(HashTries);
    var created := Created(HashTries);
    assert created.nodes[0] == FiveKeysWritten().nodes[0];
    assert created.nodes[1] == FiveKeysWritten().nodes[1];
    assert created.nodes[2] == FiveKeysWritten().nodes[2];
    assert created.nodes[3] == FiveKeysWritten().nodes[3];
    assert created.nodes[4] == FiveKeysWritten().nodes[4];
    assert created.nodes[5] == FiveKeysWritten().nodes[5];
    assert created.nodes[6] == FiveKeysWritten().nodes[6];
    assert created.nodes[7] == FiveKeysWritten().nodes[7];
  }

  /** `Checked` after all five iterations, slot by slot. */
  lemma FiveReadKeysSpelledOut()
    ensures Checked(HashTries) == FiveReadKeys()
  {
    CheckedSlots(HashTries);
    var read := Checked(HashTries);
    assert read.nodes[0] == FiveReadKeys().nodes[0];
    assert read.nodes[1] == FiveReadKeys().nodes[1];
    assert read.nodes[2] == FiveReadKeys().nodes[2];
    assert read.nodes[3] == FiveReadKeys().nodes[3];
    assert read.nodes[4] == FiveReadKeys().nodes[4];
    assert read.nodes[5] == FiveReadKeys().nodes[5];
    assert read.nodes[6] == FiveReadKeys().nodes[6];
    assert read.nodes[7] == FiveReadKeys().nodes[7];
  }

  /**
   * A sixth colliding key finds no free slot among the five probed ones
   * and overwrites the slot read longest ago, the first key's.
   */
  lemma SixthKeyEvictsOldest()
    ensures TableValid(FiveReadKeys())
    ensures IndexSlot(FiveReadKeys().nodes, 49, 49) == Some(1)
    ensures IndexWritten(FiveReadKeys(), 49, 1001) == Some(SixKeysWritten())
  {
    var nodes := FiveReadKeys().nodes;
    ProbesOfBucketOne(49);
    assert FirstStop(nodes, 49, 49, true, 4) == 5;
    assert FirstStop(nodes, 49, 49, true, 3) == 5;
    assert FirstStop(nodes, 49, 49, true, 2) == 5;
    assert FirstStop(nodes, 49, 49, true, 1) == 5;
    assert FirstStop(nodes, 49, 49, true, 0) == 5;
    assert Victim(nodes, 49, 4, Some(1), 22) == Some(1);
    assert Victim(nodes, 49, 3, Some(1), 22) == Some(1);
    assert Victim(nodes, 49, 2, Some(1), 22) == Some(1);
    assert Victim(nodes, 49, 1, Some(1), 22) == Some(1);
    assert Victim(nodes, 49, 0, None, MaxAge) == Some(1);
    var (b, t1) := IndexStep(FiveReadKeys(), 49, 49, 0);
    assert b == 1 && t1 == Table(WithLocked(WithCreated(nodes, 1, 49, 0, 35), 1), 35);
    var written := t1.nodes[1 := t1.nodes[1].(value := 1001)];
    assert written[1 := written[1].(occupancy := Occupied)] == SixKeysWritten().nodes;
  }

  /**
   * After the eviction `get` no longer finds the first key, while the
   * other four keys, and the new one, are still found.
   */
  lemma OldestKeyGone()
    ensures GetSlot(SixKeysWritten().nodes, 9, 9).None?
    ensures GetSlot(SixKeysWritten().nodes, 17, 17) == Some(2)
    ensures GetSlot(SixKeysWritten().nodes, 25, 25) == Some(3)
    ensures GetSlot(SixKeysWritten().nodes, 33, 33) == Some(4)
    ensures GetSlot(SixKeysWritten().nodes, 41, 41) == Some(5)
    ensures GetSlot(SixKeysWritten().nodes, 49, 49) == Some(1)
  {
    var nodes := SixKeysWritten().nodes;
    ProbesOfBucketOne(9);
    ProbesOfBucketOne(17);
    ProbesOfBucketOne(25);
    ProbesOfBucketOne(33);
    ProbesOfBucketOne(41);
    ProbesOfBucketOne(49);
    FirstStopAt(nodes, 9, 9, true, 5);
    GetSlotAt(nodes, 17, 17, 1);
    GetSlotAt(nodes, 25, 25, 2);
    GetSlotAt(nodes, 33, 33, 3);
    GetSlotAt(nodes, 41, 41, 4);
    GetSlotAt(nodes, 49, 49, 0);
  }
}
