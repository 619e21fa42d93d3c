/**
 * non_std/containers/HashTableWithRehashing.hpp: open addressing over a
 * vector of optional `(key, val)` nodes.  The buckets a key may live in
 * are those of the chain `Hash(key)`, `Rehash(Hash(key))`, ..., of
 * `HashRetries + 1` hashes, each cut down to a bucket by `& hashMask`.
 * Entries are never removed.
 */
module RehashingTable {
  import opened Options
  import opened Bits

  /** The default `HashRetries` template argument. */
  const HashRetries: nat := 3

  /** How many buckets one probe chain visits. */
  const Tries: nat := HashRetries + 1

  /** `Node`: a key and its value. */
  datatype Entry<K, V> = Entry(key: K, val: V)

  /** One element of `data_`: an empty `std::optional` or a node. */
  type Bucket<K, V> = Option<Entry<K, V>>

  /** The `Hash` and `Rehash` function objects, left uninterpreted. */
  datatype Hashing<!K> = Hashing(hash: K -> nat, rehash: nat -> nat)

  /** The `i`-th hash of the chain of `key`: `Hash` once, then `Rehash` `i` times. */
  function HashAt<K>(hs: Hashing<K>, key: K, i: nat): nat
  {
    if i == 0 then hs.hash(key) else hs.rehash(HashAt(hs, key, i - 1))
  }

  /**
   * The bucket at position `i` of the probe chain of `key` in a table of
   * `size` buckets: `hash & hashMask`, written `%` since `size` is a power
   * of two.
   */
  function Probe<K>(size: nat, hs: Hashing<K>, key: K, i: nat): (b: nat)
    requires size > 0
    ensures b < size
  {
    HashAt(hs, key, i) % size
  }

  /** `data_[bucket] && data_[bucket]->key == key`. */
  predicate HoldsKey<K(==), V>(e: Bucket<K, V>, key: K)
  {
    e.Some? && e.value.key == key
  }

  /**
   * Whether a probe loop takes bucket `e` for `key`: one holding `key`,
   * or, when `emptyToo`, an empty one.
   */
  predicate Accepts<K(==), V>(e: Bucket<K, V>, key: K, emptyToo: bool)
  {
    HoldsKey(e, key) || (emptyToo && e.None?)
  }

  /**
   * The first position, from `j` on, of the probe chain of `key` whose
   * bucket is accepted, or `Tries` when there is none.
   */
  function FirstAccepted<K(==), V>(data: seq<Bucket<K, V>>, hs: Hashing<K>, key: K, emptyToo: bool, j: nat): (s: nat)
    requires |data| > 0 && j <= Tries
    ensures j <= s <= Tries
    ensures forall l :: j <= l < s ==> !Accepts(data[Probe(|data|, hs, key, l)], key, emptyToo)
    ensures s < Tries ==> Accepts(data[Probe(|data|, hs, key, s)], key, emptyToo)
    decreases Tries - j
  {
    if j == Tries then Tries
    else if Accepts(data[Probe(|data|, hs, key, j)], key, emptyToo) then j
    else FirstAccepted(data, hs, key, emptyToo, j + 1)
  }

  /**
   * The bucket `get(key)` points into: the first probed bucket holding
   * `key`; empty buckets are passed over, not a reason to stop.
   */
  function GetSlot<K(==), V>(data: seq<Bucket<K, V>>, hs: Hashing<K>, key: K): (r: Option<nat>)
    requires |data| > 0
    ensures r.Some? ==> r.value < |data| && HoldsKey(data[r.value], key)
    ensures r.Some? ==>
      exists i :: 0 <= i < Tries && r.value == Probe(|data|, hs, key, i) &&
        forall l :: 0 <= l < i ==> !HoldsKey(data[Probe(|data|, hs, key, l)], key)
    ensures r.None? <==> forall i :: 0 <= i < Tries ==> !HoldsKey(data[Probe(|data|, hs, key, i)], key)
  {
    var s := FirstAccepted(data, hs, key, false, 0);
    if s < Tries then Some(Probe(|data|, hs, key, s)) else None
  }

  /**
   * The bucket `operator[](key)` points into: the first probed bucket that
   * holds `key` or is empty; `None` (null) when all of them hold other keys.
   */
  function IndexSlot<K(==), V>(data: seq<Bucket<K, V>>, hs: Hashing<K>, key: K): (r: Option<nat>)
    requires |data| > 0
    ensures r.Some? ==> r.value < |data| && Accepts(data[r.value], key, true)
    ensures r.Some? ==>
      exists i :: 0 <= i < Tries && r.value == Probe(|data|, hs, key, i) &&
        forall l :: 0 <= l < i ==> !Accepts(data[Probe(|data|, hs, key, l)], key, true)
    ensures r.None? <==> forall i :: 0 <= i < Tries ==>
      data[Probe(|data|, hs, key, i)].Some? && data[Probe(|data|, hs, key, i)].value.key != key
  {
    var s := FirstAccepted(data, hs, key, true, 0);
    if s < Tries then Some(Probe(|data|, hs, key, s)) else None
  }

  /** The buckets after `operator[](key)`: an empty bucket it returns now holds `(key, TValue{})`. */
  function Indexed<K(==), V>(data: seq<Bucket<K, V>>, hs: Hashing<K>, key: K, default: V): seq<Bucket<K, V>>
    requires |data| > 0
  {
    match IndexSlot(data, hs, key)
    case Some(b) => if data[b].None? then data[b := Some(Entry(key, default))] else data
    case None => data
  }

  /** Bucket `c` is one of the first `n` buckets of the probe chain of `key`. */
  ghost predicate Probed<K>(size: nat, hs: Hashing<K>, key: K, n: nat, c: nat)
    requires size > 0
  {
    exists i :: 0 <= i < n && c == Probe(size, hs, key, i)
  }

  /**
   * The buckets after the first `n` tries of `store(key, val)`: each of
   * those probed buckets that was empty or held `key` now holds
   * `(key, val)`; every other bucket is as it was.
   */
  ghost function Stored<K, V>(data: seq<Bucket<K, V>>, hs: Hashing<K>, key: K, val: V, n: nat): (r: seq<Bucket<K, V>>)
    requires |data| > 0
    ensures |r| == |data|
  {
    seq(|data|, c requires 0 <= c < |data| =>
      if Probed(|data|, hs, key, n, c) && Accepts(data[c], key, true) then Some(Entry(key, val)) else data[c])
  }

  /** One more try of `store` takes the bucket exactly when it was empty or held `key` to begin with. */
  lemma StoredStep<K, V>(data: seq<Bucket<K, V>>, hs: Hashing<K>, key: K, val: V, n: nat)
    requires |data| > 0
    ensures var cur := Stored(data, hs, key, val, n);
      var b := Probe(|data|, hs, key, n);
      Stored(data, hs, key, val, n + 1) ==
        if Accepts(cur[b], key, true) then cur[b := Some(Entry(key, val))] else cur
  {
    var cur := Stored(data, hs, key, val, n);
    var b := Probe(|data|, hs, key, n);
    assert Probed(|data|, hs, key, n + 1, b);
    forall c | 0 <= c < |data| && c != b
      ensures Probed(|data|, hs, key, n + 1, c) == Probed(|data|, hs, key, n, c)
    {
      if Probed(|data|, hs, key, n + 1, c) {
        var i :| 0 <= i < n + 1 && c == Probe(|data|, hs, key, i);
        assert i < n;
      }
    }
  }

  /** Zero tries of `store` change nothing. */
  lemma StoredNone<K, V>(data: seq<Bucket<K, V>>, hs: Hashing<K>, key: K, val: V)
    requires |data| > 0
    ensures Stored(data, hs, key, val, 0) == data
  {
  }

  // What the operations promise.

  /** Whatever `operator[](key)` returns, `get(key)` afterwards returns the same bucket. */
  lemma IndexThenGet<K, V>(data: seq<Bucket<K, V>>, hs: Hashing<K>, key: K, default: V)
    requires |data| > 0
    ensures var after := Indexed(data, hs, key, default);
      |after| == |data| && (IndexSlot(data, hs, key).Some? ==> GetSlot(after, hs, key) == IndexSlot(data, hs, key))
  {
    var after := Indexed(data, hs, key, default);
    var s := FirstAccepted(data, hs, key, true, 0);
    if s < Tries {
      var b := Probe(|data|, hs, key, s);
      forall l | 0 <= l < s
        ensures !HoldsKey(after[Probe(|data|, hs, key, l)], key)
      {
        assert Probe(|data|, hs, key, l) != b;
      }
      assert HoldsKey(after[b], key);
      assert FirstAccepted(after, hs, key, false, 0) == s by {
        FirstAcceptedAt(after, hs, key, false, s);
      }
    }
  }

  /** The first accepted position is `s` when every earlier position is passed over and `s` is accepted. */
  lemma FirstAcceptedAt<K, V>(data: seq<Bucket<K, V>>, hs: Hashing<K>, key: K, emptyToo: bool, s: nat)
    requires |data| > 0 && s < Tries
    requires forall l :: 0 <= l < s ==> !Accepts(data[Probe(|data|, hs, key, l)], key, emptyToo)
    requires Accepts(data[Probe(|data|, hs, key, s)], key, emptyToo)
    ensures FirstAccepted(data, hs, key, emptyToo, 0) == s
  {
  }

  /**
   * `operator[]` removes nothing and changes no entry: it only fills an
   * empty bucket, and only when it returns that bucket.
   */
  lemma IndexKeepsEntries<K, V>(data: seq<Bucket<K, V>>, hs: Hashing<K>, key: K, default: V)
    requires |data| > 0
    ensures var after := Indexed(data, hs, key, default);
      && |after| == |data|
      && (forall c :: 0 <= c < |data| && data[c].Some? ==> after[c] == data[c])
      && (forall c :: 0 <= c < |data| && after[c] != data[c] ==>
            IndexSlot(data, hs, key) == Some(c) && after[c] == Some(Entry(key, default)))
  {
  }

  /**
   * `store` removes nothing and never changes the key of an occupied
   * bucket; it writes only buckets of the probe chain.
   */
  lemma StoreKeepsKeys<K, V>(data: seq<Bucket<K, V>>, hs: Hashing<K>, key: K, val: V)
    requires |data| > 0
    ensures var after := Stored(data, hs, key, val, Tries);
      && (forall c :: 0 <= c < |data| && data[c].Some? ==> after[c].Some? && after[c].value.key == data[c].value.key)
      && (forall c :: 0 <= c < |data| && after[c] != data[c] ==> Probed(|data|, hs, key, Tries, c))
  {
  }

  /**
   * After `store(key, val)`, `get(key)` returns a bucket holding `val` when
   * some probed bucket was empty or held `key`; otherwise nothing changed.
   */
  lemma StoreThenGet<K, V>(data: seq<Bucket<K, V>>, hs: Hashing<K>, key: K, val: V)
    requires |data| > 0
    ensures var after := Stored(data, hs, key, val, Tries);
      && (IndexSlot(data, hs, key).Some? ==>
            GetSlot(after, hs, key) == IndexSlot(data, hs, key) && after[IndexSlot(data, hs, key).value] == Some(Entry(key, val)))
      && (IndexSlot(data, hs, key).None? ==> after == data)
  {
    var after := Stored(data, hs, key, val, Tries);
    var s := FirstAccepted(data, hs, key, true, 0);
    if s < Tries {
      var b := Probe(|data|, hs, key, s);
      assert Probed(|data|, hs, key, Tries, b);
      forall l | 0 <= l < s
        ensures !HoldsKey(after[Probe(|data|, hs, key, l)], key)
      {
        var c := Probe(|data|, hs, key, l);
        assert !Accepts(data[c], key, true);
      }
      FirstAcceptedAt(after, hs, key, false, s);
    } else {
      forall c | 0 <= c < |data|
        ensures after[c] == data[c]
      {
        if Probed(|data|, hs, key, Tries, c) {
          var i :| 0 <= i < Tries && c == Probe(|data|, hs, key, i);
          assert !Accepts(data[Probe(|data|, hs, key, i)], key, true);
        }
      }
    }
  }

  /**
   * `HashTableWithRehashing<TKey, TValue, TBucketBitWidth, Hash, Rehash>`
   * with `2^bits` buckets; a returned `TValue*` is modelled by the index
   * of the bucket holding it, and `default` is `TValue{}`.
   */
  class Table<K(==), V> {
    const data: array<Bucket<K, V>>
    const hs: Hashing<K>
    const default: V

    /** `1 << TBucketBitWidth` empty buckets; the shift is on `int`, so the width is at most 30. */
    constructor (bits: nat, hash: K -> nat, rehash: nat -> nat, default: V)
      requires bits <= 30
      ensures fresh(data) && data.Length == Pow2(bits) && hs == Hashing(hash, rehash) && this.default == default
      ensures forall c :: 0 <= c < data.Length ==> data[c].None?
    {
      data := new Bucket<K, V>[Pow2(bits)](_ => None);
      hs := Hashing(hash, rehash);
      this.default := default;
    }

    /**
     * `operator[](key)`: the first probed bucket that is empty, after
     * writing `(key, TValue{})` into it, or holds `key`; null after
     * `HashRetries + 1` buckets holding other keys.
     */
    method Index(key: K) returns (p: Option<nat>)
      requires data.Length > 0
      modifies data
      ensures p == IndexSlot(old(data[..]), hs, key)
      ensures data[..] == Indexed(old(data[..]), hs, key, default)
    {
      var h := hs.hash(key);
      var bucket := h % data.Length;
      var i := 0;
      while i < Tries
        invariant i <= Tries && h == HashAt(hs, key, i) && bucket == Probe(data.Length, hs, key, i)
        invariant FirstAccepted(data[..], hs, key, true, i) == FirstAccepted(data[..], hs, key, true, 0)
      {
        if data[bucket].None? {
          data[bucket] := Some(Entry(key, default));
          return Some(bucket);
        } else if data[bucket].value.key == key {
          return Some(bucket);
        }
        h := hs.rehash(h);
        bucket := h % data.Length;
        i := i + 1;
      }
      return None;
    }

    /** `get(key)`: the first probed bucket holding `key`, or null; nothing changes. */
    method Get(key: K) returns (p: Option<nat>)
      requires data.Length > 0
      ensures p == GetSlot(data[..], hs, key)
    {
      var h := hs.hash(key);
      var bucket := h % data.Length;
      var i := 0;
      while i < Tries
        invariant i <= Tries && h == HashAt(hs, key, i) && bucket == Probe(data.Length, hs, key, i)
        invariant FirstAccepted(data[..], hs, key, false, i) == FirstAccepted(data[..], hs, key, false, 0)
      {
        if data[bucket].Some? && data[bucket].value.key == key {
          return Some(bucket);
        }
        h := hs.rehash(h);
        bucket := h % data.Length;
        i := i + 1;
      }
      return None;
    }

    /**
     * `store(key, val)`: every one of the `HashRetries + 1` probed buckets
     * that is empty or holds `key` gets `(key, val)`.
     */
    method Store(key: K, val: V)
      requires data.Length > 0
      modifies data
      ensures data[..] == Stored(old(data[..]), hs, key, val, Tries)
    {
      ghost var before := data[..];
      var h := hs.hash(key);
      var bucket := h % data.Length;
      var i := 0;
      StoredNone(before, hs, key, val);
      while i < Tries
        invariant i <= Tries && h == HashAt(hs, key, i) && bucket == Probe(data.Length, hs, key, i)
        invariant data[..] == Stored(before, hs, key, val, i)
      {
        StoredStep(before, hs, key, val, i);
        if data[bucket].None? || data[bucket].value.key == key {
          data[bucket] := Some(Entry(key, val));
        }
        h := hs.rehash(h);
        bucket := h % data.Length;
        i := i + 1;
      }
    }
  }
}
