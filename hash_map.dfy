/**
 * non_std/containers/HashMap.hpp: a separately chained hash map with
 * `2^W` buckets whose nodes come from a `PoolAllocator`.  Keys are unsigned
 * integers; a key goes to bucket `key & (2^W - 1)`, i.e. `key % 2^W`.
 */
module ChainedHashMap {
  import opened Bits
  import opened Options
  import PoolAlloc

  /**
   * A chain node: its key, its value and the allocator slot it lives in
   * (the node's address).  A chain is a sequence of nodes, head first; the
   * `next` pointers are the order of the sequence.
   */
  datatype Node<V> = Node(key: nat, val: V, addr: PoolAlloc.Slot)

  /**
   * The position of the first node of `chain` whose key is `key`, or
   * `|chain|` when there is none: where the walk along `next` stops.
   */
  function FirstWithKey<V>(chain: seq<Node<V>>, key: nat): (i: nat)
    ensures i <= |chain|
    ensures forall j :: 0 <= j < i ==> chain[j].key != key
    ensures i < |chain| ==> chain[i].key == key
  {
    if chain == [] then 0
    else if chain[0].key == key then 0
    else 1 + FirstWithKey(chain[1..], key)
  }

  /** The node a lookup of `key` in `chain` finds, if any. */
  function Find<V>(chain: seq<Node<V>>, key: nat): (r: Option<Node<V>>)
    ensures r.Some? ==> r.value in chain && r.value.key == key
    ensures r.None? <==> forall n :: n in chain ==> n.key != key
  {
    var i := FirstWithKey(chain, key);
    if i < |chain| then Some(chain[i]) else None
  }

  /**
   * A node pushed on the front of a chain shadows every older node with
   * its key and hides nothing else.
   */
  lemma FindAfterPrepend<V>(chain: seq<Node<V>>, n: Node<V>, key: nat)
    ensures Find([n] + chain, key) == if n.key == key then Some(n) else Find(chain, key)
  {
    if n.key != key {
      var i := FirstWithKey(chain, key);
      var c := [n] + chain;
      assert c[1..] == chain;
      assert FirstWithKey(c, key) == 1 + i;
    }
  }

  /** The addresses of all nodes of all chains. */
  ghost function AddressesIn<V>(chains: seq<seq<Node<V>>>): set<PoolAlloc.Slot>
  {
    set b, i | 0 <= b < |chains| && 0 <= i < |chains[b]| :: chains[b][i].addr
  }

  lemma AddressesAfterPush<V>(chains: seq<seq<Node<V>>>, b: nat, n: Node<V>)
    requires b < |chains|
    ensures AddressesIn(chains[b := [n] + chains[b]]) == AddressesIn(chains) + {n.addr}
  {
    var after := chains[b := [n] + chains[b]];
    forall a | a in AddressesIn(chains) ensures a in AddressesIn(after) {
      var b', i :| 0 <= b' < |chains| && 0 <= i < |chains[b']| && chains[b'][i].addr == a;
      if b' == b {
        assert after[b][i + 1] == chains[b][i];
      } else {
        assert after[b'][i] == chains[b'][i];
      }
    }
    forall a | a in AddressesIn(after) ensures a in AddressesIn(chains) + {n.addr} {
      var b', i :| 0 <= b' < |after| && 0 <= i < |after[b']| && after[b'][i].addr == a;
      if b' == b && i > 0 {
        assert after[b][i] == chains[b][i - 1];
      }
    }
    assert after[b][0] == n;
  }

  lemma AddressesAllEmpty<V>(chains: seq<seq<Node<V>>>)
    requires forall b :: 0 <= b < |chains| ==> chains[b] == []
    ensures AddressesIn(chains) == {}
  {
  }

  /** `key & hashMask` with `hashMask == (1 << width) - 1`: the bucket of `key`. */
  function Bucket(width: nat, key: nat): (b: nat)
    ensures b < Pow2(width)
  {
    key % Pow2(width)
  }

  /** Every node sits in the chain of its key's bucket. */
  ghost predicate WellPlaced<V>(width: nat, chains: seq<seq<Node<V>>>)
  {
    forall b, i :: 0 <= b < |chains| && 0 <= i < |chains[b]| ==> Bucket(width, chains[b][i].key) == b
  }

  /** What `get(key)` finds in a table whose chains are `chains`. */
  ghost function LookupIn<V>(width: nat, chains: seq<seq<Node<V>>>, key: nat): Option<Node<V>>
    requires |chains| == Pow2(width)
  {
    Find(chains[Bucket(width, key)], key)
  }

  /**
   * Pushing a node on the front of its key's chain keeps every node in its
   * bucket, makes the node what a lookup of its key finds, and changes no
   * other key's lookup.
   */
  lemma LookupAfterPush<V>(width: nat, chains: seq<seq<Node<V>>>, n: Node<V>)
    requires |chains| == Pow2(width) && WellPlaced(width, chains)
    ensures var b := Bucket(width, n.key);
      var after := chains[b := [n] + chains[b]];
      && WellPlaced(width, after)
      && LookupIn(width, after, n.key) == Some(n)
      && forall k :: k != n.key ==> LookupIn(width, after, k) == LookupIn(width, chains, k)
  {
    var b := Bucket(width, n.key);
    var after: seq<seq<Node<V>>> := chains[b := [n] + chains[b]];
    forall c: int, i: int | 0 <= c < |after| && 0 <= i < |after[c]|
      ensures Bucket(width, after[c][i].key) == c
    {
      if c == b && i > 0 {
        assert after[c][i] == chains[c][i - 1];
      }
    }
    FindAfterPrepend(chains[b], n, n.key);
    forall k | k != n.key ensures LookupIn(width, after, k) == LookupIn(width, chains, k) {
      FindAfterPrepend(chains[b], n, k);
    }
  }

  /**
   * A key is found exactly when some node of some chain holds it: the
   * lookup in the key's own bucket misses nothing.
   */
  lemma LookupComplete<V>(width: nat, chains: seq<seq<Node<V>>>, key: nat)
    requires |chains| == Pow2(width) && WellPlaced(width, chains)
    ensures LookupIn(width, chains, key).None? <==>
      forall b, i :: 0 <= b < |chains| && 0 <= i < |chains[b]| ==> chains[b][i].key != key
  {
    if LookupIn(width, chains, key).None? {
      var home := Bucket(width, key);
      forall b: int, i: int | 0 <= b < |chains| && 0 <= i < |chains[b]| && b != home
        ensures chains[b][i].key != key
      {
        assert Bucket(width, chains[b][i].key) == b;
      }
    }
  }

  /**
   * `HashMap<TValue, TKey, W>`: `table[b]` is the chain of bucket `b`;
   * `allocator` hands out the node slots; `default` is `TValue{}`.
   */
  class HashMap<V> {
    const width: nat
    const default: V
    const table: array<seq<Node<V>>>
    const allocator: PoolAlloc.PoolAllocator

    /**
     * The table has `2^W` buckets, every node sits in the bucket of its
     * key, and the nodes are exactly the slots the allocator has handed out.
     */
    ghost predicate Valid()
      reads this, table, allocator
    {
      && table.Length == Pow2(width)
      && allocator.Valid()
      && WellPlaced(width, table[..])
      && AddressesIn(table[..]) == allocator.Allocated()
    }

    /** What `get(key)` finds. */
    ghost function Lookup(key: nat): Option<Node<V>>
      reads this, table
      requires table.Length == Pow2(width)
    {
      LookupIn(width, table[..], key)
    }

    /**
     * `HashMap()`: `2^W` empty buckets.  `1 << W` is computed in a 32-bit
     * `int`, so `W` is at most 30.
     */
    constructor (width: nat, default: V)
      requires width <= 30
      ensures Valid() && this.width == width && this.default == default
      ensures fresh(table) && fresh(allocator)
      ensures forall b :: 0 <= b < table.Length ==> table[b] == []
      ensures forall key :: Lookup(key) == None
    {
      this.width := width;
      this.default := default;
      table := new seq<Node<V>>[Pow2(width)](_ => []);
      allocator := new PoolAlloc.PoolAllocator();
      new;
      AddressesAllEmpty(table[..]);
    }

    /**
     * `get(key)`: the first node of the key's chain that holds `key`, or
     * null; nothing changes.
     */
    method Get(key: nat) returns (r: Option<Node<V>>)
      requires Valid()
      ensures r == Lookup(key)
      ensures r.Some? ==> r.value.key == key && r.value.addr in allocator.Allocated()
      ensures r.None? <==> forall b, i :: 0 <= b < table.Length && 0 <= i < |table[b]| ==> table[b][i].key != key
    {
      var index := Bucket(width, key);
      var chain := table[index];
      var i := 0;
      while i < |chain|
        invariant 0 <= i <= |chain|
        invariant forall j :: 0 <= j < i ==> chain[j].key != key
      {
        if chain[i].key == key {
          assert chain[i].addr in AddressesIn(table[..]) by {
            assert table[..][index][i] == chain[i];
          }
          return Some(chain[i]);
        }
        i := i + 1;
      }
      LookupComplete(width, table[..], key);
      return None;
    }

    /**
     * `operator[](key)`: the node holding `key` if there is one, allocating
     * nothing; otherwise a fresh node `(key, TValue{})` pushed on the front
     * of the key's chain.
     */
    method Index(key: nat) returns (r: Node<V>)
      requires Valid()
      modifies table, allocator
      ensures Valid()
      ensures r.key == key && Lookup(key) == Some(r)
      ensures forall k :: k != key ==> Lookup(k) == old(Lookup(k))
      ensures old(Lookup(key)).Some? ==>
        r == old(Lookup(key)).value && table[..] == old(table[..]) && unchanged(allocator)
      ensures old(Lookup(key)).None? ==>
        && r.val == default && r.addr !in old(allocator.Allocated())
        && table[..] == old(table[..])[Bucket(width, key) := [r] + old(table[Bucket(width, key)])]
        && allocator.Allocated() == old(allocator.Allocated()) + {r.addr}
    {
      var index := Bucket(width, key);
      var chain := table[index];
      var i := 0;
      while i < |chain|
        invariant 0 <= i <= |chain|
        invariant forall j :: 0 <= j < i ==> chain[j].key != key
      {
        if chain[i].key == key {
          return chain[i];
        }
        i := i + 1;
      }
      r := Push(key, default);
    }

    /**
     * `store(key, val)`: always allocates a node `(key, val)` and pushes it
     * on the front of the key's chain, so that it shadows any older node
     * with the same key.
     */
    method Store(key: nat, val: V) returns (r: Node<V>)
      requires Valid()
      modifies table, allocator
      ensures Valid()
      ensures r.key == key && r.val == val && Lookup(key) == Some(r)
      ensures forall k :: k != key ==> Lookup(k) == old(Lookup(k))
      ensures r.addr !in old(allocator.Allocated())
      ensures table[..] == old(table[..])[Bucket(width, key) := [r] + old(table[Bucket(width, key)])]
      ensures allocator.Allocated() == old(allocator.Allocated()) + {r.addr}
    {
      r := Push(key, val);
    }

    /**
     * The common tail of `operator[]` and `store`: allocate a node,
     * construct it in front of the chain and make it the chain's head.
     */
    method Push(key: nat, val: V) returns (r: Node<V>)
      requires Valid()
      modifies table, allocator
      ensures Valid()
      ensures r.key == key && r.val == val && Lookup(key) == Some(r)
      ensures forall k :: k != key ==> Lookup(k) == old(Lookup(k))
      ensures r.addr !in old(allocator.Allocated())
      ensures table[..] == old(table[..])[Bucket(width, key) := [r] + old(table[Bucket(width, key)])]
      ensures allocator.Allocated() == old(allocator.Allocated()) + {r.addr}
    {
      var index := Bucket(width, key);
      var slot := allocator.Allocate();
      r := Node(key, val, slot.value);
      AddressesAfterPush(table[..], index, r);
      LookupAfterPush(width, table[..], r);
      table[index] := [r] + table[index];
    }

    /**
     * `clear()`: every bucket becomes empty and the allocator takes all
     * slots back.
     */
    method Clear()
      requires Valid()
      modifies table, allocator
      ensures Valid()
      ensures forall b :: 0 <= b < table.Length ==> table[b] == []
      ensures forall key :: Lookup(key) == None
      ensures allocator.Allocated() == {}
    {
      var b := 0;
      while b < table.Length
        modifies table
        invariant 0 <= b <= table.Length
        invariant forall j :: 0 <= j < b ==> table[j] == []
      {
        if table[b] != [] {
          table[b] := [];
        }
        b := b + 1;
      }
      allocator.ClearAll();
      AddressesAllEmpty(table[..]);
    }
  }
}
