/**
 * Model of non_std/PoolAlocator.hpp: a single-threaded allocator that hands
 * out node slots from pools of 256 slots.  Each pool keeps four 64-bit
 * allocation words in which a set bit marks a free slot; pools with a free
 * slot sit on the "available" list, pools with none on the "fully
 * allocated" list.  A pointer handed out by the allocator is modelled by the
 * slot it denotes: the pool that owns it and its index inside that pool.
 */
module PoolAlloc {
  import opened Bits
  import opened Options

  /** Number of node slots in one pool (`nodes_[256]`). */
  const PoolSlots: nat := 256

  /** A returned pointer: the pool that owns the node and the node's index in it. */
  datatype Slot = Slot(pool: nat, index: nat)

  /** The four allocation words of one pool (`allocationMask[4]`). */
  type Mask = m: seq<Word> | |m| == 4 witness [Zero, Zero, Zero, Zero]

  /** Slot `s` of a pool is free: bit `s & 63` of word `s >> 6` is set. */
  predicate IsFree(m: Mask, s: nat)
    requires s < PoolSlots
  {
    m[s / 64][s % 64]
  }

  /** `isFull`: all four allocation words are zero. */
  predicate IsFull(m: Mask)
  {
    IsZero(m[0]) && IsZero(m[1]) && IsZero(m[2]) && IsZero(m[3])
  }

  /** The allocation words of a freshly created pool (every bit set). */
  const FreshMask: Mask := [AllOnes, AllOnes, AllOnes, AllOnes]

  /** In a fresh pool every slot is free, so the pool is not full. */
  lemma FreshMaskAllFree()
    ensures forall s :: 0 <= s < PoolSlots ==> IsFree(FreshMask, s)
    ensures !IsFull(FreshMask)
  {
    ZeroAndAllOnesWords();
  }

  /** A pool is full exactly when none of its 256 slots is free. */
  lemma FullIffNoFreeSlot(m: Mask)
    ensures IsFull(m) <==> forall s :: 0 <= s < PoolSlots ==> !IsFree(m, s)
  {
    if !IsFull(m) {
      var w := if !IsZero(m[0]) then 0 else if !IsZero(m[1]) then 1 else if !IsZero(m[2]) then 2 else 3;
      var word := m[w];
      assert !IsZero(word);
      ZeroIffNoBitSet(word);
      var j :| 0 <= j < 64 && word[j];
      var s := 64 * w + j;
      assert s / 64 == w && s % 64 == j;
      assert IsFree(m, s);
    }
  }

  /**
   * The allocation words after toggling the bit of slot `s`
   * (`allocationMask[s >> 6] ^= 1ull << (s & 63)`): slot `s` changes state,
   * every other slot keeps its state.
   */
  function Toggle(m: Mask, s: nat): (r: Mask)
    requires s < PoolSlots
    ensures IsFree(r, s) == !IsFree(m, s)
    ensures forall t :: 0 <= t < PoolSlots && t != s ==> IsFree(r, t) == IsFree(m, t)
  {
    m[s / 64 := Flip(m[s / 64], s % 64)]
  }

  /**
   * Toggling a slot twice gives the words back: a `dealocate` of the slot
   * an `allocate` handed out undoes that allocation's change to the words.
   */
  lemma ToggleTwiceRestores(m: Mask, s: nat)
    requires s < PoolSlots
    ensures Toggle(Toggle(m, s), s) == m
  {
    var w := m[s / 64];
    assert Flip(Flip(w, s % 64), s % 64) == w;
  }

  /**
   * The slot `allocate` picks in a pool whose words before word `i` are
   * zero and whose word `i` is not: bit `findFirstSet - 1` of word `i` is
   * the lowest free slot of the pool, and flipping that bit is toggling the
   * slot.
   */
  lemma LowestFreeSlot(m: Mask, i: nat)
    requires i < 4 && !IsZero(m[i]) && forall j :: 0 <= j < i ==> IsZero(m[j])
    ensures var f := i * 64 + FindFirstSet(m[i]) - 1;
      && f < PoolSlots && IsFree(m, f)
      && (forall t :: 0 <= t < f ==> !IsFree(m, t))
      && m[i := Flip(m[i], FindFirstSet(m[i]) - 1)] == Toggle(m, f)
  {
    var freeBit := FindFirstSet(m[i]) - 1;
    var f := i * 64 + freeBit;
    assert f / 64 == i && f % 64 == freeBit;
    forall t | 0 <= t < f ensures !IsFree(m, t) {
      var w, b := t / 64, t % 64;
      assert w < i || (w == i && b < freeBit);
      if w < i {
        ZeroIffNoBitSet(m[w]);
      }
    }
  }

  /** Freeing a slot leaves its pool with a free slot, so not full. */
  lemma ToggleToFreeNotFull(m: Mask, s: nat)
    requires s < PoolSlots && !IsFree(m, s)
    ensures !IsFull(Toggle(m, s))
  {
    FullIffNoFreeSlot(Toggle(m, s));
  }

  predicate NoDuplicates(s: seq<nat>)
  {
    forall i, j :: 0 <= i < j < |s| ==> s[i] != s[j]
  }

  lemma {:induction false} NoDuplicatesMultiset(s: seq<nat>)
    ensures NoDuplicates(s) <==> forall x :: multiset(s)[x] <= 1
  {
    if s != [] {
      NoDuplicatesMultiset(s[1..]);
      assert s == [s[0]] + s[1..];
      if NoDuplicates(s) {
        assert s[0] !in s[1..];
        assert NoDuplicates(s[1..]) by {
          forall i, j | 0 <= i < j < |s[1..]| ensures s[1..][i] != s[1..][j] {
            assert s[1..][i] == s[i + 1] && s[1..][j] == s[j + 1];
          }
        }
      } else {
        var i, j :| 0 <= i < j < |s| && s[i] == s[j];
        if i == 0 {
          assert s[0] in s[1..] by { assert s[j] == s[1..][j - 1]; }
          assert multiset(s)[s[0]] == 1 + multiset(s[1..])[s[0]];
          assert multiset(s)[s[0]] >= 2;
        } else {
          assert s[1..][i - 1] == s[1..][j - 1];
          assert !NoDuplicates(s[1..]);
          var x :| multiset(s[1..])[x] > 1;
          assert multiset(s)[x] >= multiset(s[1..])[x];
        }
      }
    }
  }

  lemma NoDuplicatesPrepend(x: nat, s: seq<nat>)
    requires NoDuplicates(s) && x !in s
    ensures NoDuplicates([x] + s)
  {
    var t := [x] + s;
    forall i, j | 0 <= i < j < |t| ensures t[i] != t[j] {
      assert t[j] == s[j - 1];
      assert i > 0 ==> t[i] == s[i - 1];
    }
  }

  /** Rearranging a list keeps it free of duplicates. */
  lemma NoDuplicatesPermutation(s: seq<nat>, t: seq<nat>)
    requires multiset(s) == multiset(t)
    ensures NoDuplicates(s) ==> NoDuplicates(t)
  {
    NoDuplicatesMultiset(s);
    NoDuplicatesMultiset(t);
  }

  /**
   * What `in->next` reaches: the part of the list after the first
   * occurrence of `p`.
   */
  function After(s: seq<nat>, p: nat): seq<nat>
    requires p in s
  {
    if s[0] == p then s[1..] else After(s[1..], p)
  }

  /** The list with the first occurrence of `p` unlinked. */
  function Without(s: seq<nat>, p: nat): (r: seq<nat>)
    requires p in s
    ensures |r| == |s| - 1
  {
    if s[0] == p then s[1..] else [s[0]] + Without(s[1..], p)
  }

  /** Unlinking `p` removes one `p` and keeps every other element. */
  lemma {:induction false} WithoutRemovesOne(s: seq<nat>, p: nat)
    requires p in s
    ensures multiset(Without(s, p)) == multiset(s) - multiset{p}
  {
    assert s == [s[0]] + s[1..];
    if s[0] != p {
      WithoutRemovesOne(s[1..], p);
    }
  }

  /**
   * `moveToAvaiable(in)` on lists of pools as the source writes it: the pool
   * goes to the front of the available list and the fully-allocated list
   * becomes what followed `in` (`fullyAllocatedPools_ = in->next`).
   */
  function RelinkToAvailableAsWritten(available: seq<nat>, full: seq<nat>, p: nat): (seq<nat>, seq<nat>)
    requires p in full
  {
    ([p] + available, After(full, p))
  }

  /** `moveToAvaiable(in)` with `in` unlinked from wherever it sits in the fully-allocated list. */
  function RelinkToAvailable(available: seq<nat>, full: seq<nat>, p: nat): (seq<nat>, seq<nat>)
    requires p in full
  {
    ([p] + available, Without(full, p))
  }

  /** When `in` heads the fully-allocated list, the source's relinking is the intended one. */
  lemma AsWrittenCorrectAtHead(available: seq<nat>, full: seq<nat>)
    requires full != []
    ensures RelinkToAvailableAsWritten(available, full, full[0]) == RelinkToAvailable(available, full, full[0])
    ensures RelinkToAvailable(available, full, full[0]) == ([full[0]] + available, full[1..])
  {
  }

  /** `After(s, p)` is a proper suffix of `s`, shorter still when `s` does not start with `p`. */
  lemma {:induction false} AfterIsSuffix(s: seq<nat>, p: nat)
    requires p in s
    ensures |After(s, p)| < |s| && After(s, p) == s[|s| - |After(s, p)|..]
    ensures s[0] != p ==> |After(s, p)| < |s| - 1
  {
    if s[0] != p {
      AfterIsSuffix(s[1..], p);
    }
  }

  /**
   * When `in` is not the head of the fully-allocated list, the source's
   * relinking puts the head on neither list: that pool is lost, and the two
   * lists together shrink.
   */
  lemma {:induction false} AsWrittenLosesHead(available: seq<nat>, full: seq<nat>, p: nat)
    requires p in full && full[0] != p && NoDuplicates(available + full)
    ensures var r := RelinkToAvailableAsWritten(available, full, p);
      full[0] !in r.0 && full[0] !in r.1 && |r.0| + |r.1| < |available| + |full|
  {
    var both := available + full;
    assert both[|available|] == full[0];
    forall j | 0 <= j < |available| ensures available[j] != full[0] {
      assert available[j] == both[j];
    }
    AfterIsSuffix(full, p);
    var rest := After(full, p);
    var k := |full| - |rest|;
    forall j | 0 <= j < |rest| ensures rest[j] != full[0] {
      assert rest[j] == full[k + j] == both[|available| + k + j];
    }
  }

  /**
   * Concrete case: two full pools, pool 1 (filled last) heading the list;
   * freeing a slot of pool 0 leaves pool 1 on no list at all.
   */
  lemma AsWrittenDropsNewestFullPool()
    ensures RelinkToAvailableAsWritten([], [1, 0], 0) == ([0], [])
  {
    var full: seq<nat> := [1, 0];
    var tail: seq<nat> := [0];
    assert full[0] == 1 && full[1..] == tail;
    assert tail[0] == 0;
    assert After(tail, 0) == tail[1..] == [];
    assert After(full, 0) == After(tail, 0);
    var empty: seq<nat> := [];
    assert [0] + empty == tail;
  }

  /**
   * The corrected relinking puts `in` at the head of the available list and
   * loses or duplicates no pool: the pools listed are the same, and `in` is
   * the one pool that leaves the fully-allocated list.
   */
  lemma RelinkToAvailablePermutes(available: seq<nat>, full: seq<nat>, p: nat)
    requires p in full
    ensures var r := RelinkToAvailable(available, full, p);
      && r.0 == [p] + available
      && multiset(r.1) == multiset(full) - multiset{p}
      && multiset(r.0 + r.1) == multiset(available + full)
      && (NoDuplicates(available + full) ==> NoDuplicates(r.0 + r.1))
  {
    var r := RelinkToAvailable(available, full, p);
    WithoutRemovesOne(full, p);
    assert multiset(r.0 + r.1) == multiset{p} + multiset(available) + multiset(r.1);
    NoDuplicatesPermutation(available + full, r.0 + r.1);
  }

  /** The list read back to front. */
  function Reversed(s: seq<nat>): seq<nat>
  {
    if s == [] then [] else [s[|s| - 1]] + Reversed(s[..|s| - 1])
  }

  /** Reading a list back to front keeps its elements. */
  lemma {:induction false} ReversedPermutes(s: seq<nat>)
    ensures |Reversed(s)| == |s| && multiset(Reversed(s)) == multiset(s)
  {
    if s != [] {
      ReversedPermutes(s[..|s| - 1]);
      assert s == s[..|s| - 1] + [s[|s| - 1]];
    }
  }

  /** Reading a list back to front puts its last element first. */
  lemma ReversedSnoc(s: seq<nat>, x: nat)
    ensures Reversed(s + [x]) == [x] + Reversed(s)
  {
    assert (s + [x])[..|s|] == s;
  }

  /** The slots of the given pools that are handed out. */
  ghost function AllocatedIn(masks: seq<Mask>): set<Slot>
  {
    set p, s | 0 <= p < |masks| && 0 <= s < PoolSlots && !IsFree(masks[p], s) :: Slot(p, s)
  }

  /** Allocating a free slot adds exactly that slot to the handed-out ones. */
  lemma AllocatedAfterAllocate(masks: seq<Mask>, p: nat, s: nat)
    requires p < |masks| && s < PoolSlots && IsFree(masks[p], s)
    ensures Slot(p, s) !in AllocatedIn(masks)
    ensures AllocatedIn(masks[p := Toggle(masks[p], s)]) == AllocatedIn(masks) + {Slot(p, s)}
  {
    var after := masks[p := Toggle(masks[p], s)];
    forall x | x in AllocatedIn(after) ensures x in AllocatedIn(masks) + {Slot(p, s)} {
      if x != Slot(p, s) {
        assert x.pool == p ==> x.index != s;
      }
    }
    forall x | x in AllocatedIn(masks) + {Slot(p, s)} ensures x in AllocatedIn(after) {
      if x != Slot(p, s) {
        assert x.pool == p ==> x.index != s;
      }
    }
  }

  /** Freeing a handed-out slot removes exactly that slot from the handed-out ones. */
  lemma AllocatedAfterDealocate(masks: seq<Mask>, p: nat, s: nat)
    requires p < |masks| && s < PoolSlots && !IsFree(masks[p], s)
    ensures Slot(p, s) in AllocatedIn(masks)
    ensures AllocatedIn(masks[p := Toggle(masks[p], s)]) == AllocatedIn(masks) - {Slot(p, s)}
  {
    var after := masks[p := Toggle(masks[p], s)];
    forall x | x in AllocatedIn(after) ensures x in AllocatedIn(masks) - {Slot(p, s)} {
      assert x.pool == p ==> x.index != s;
    }
    forall x | x in AllocatedIn(masks) - {Slot(p, s)} ensures x in AllocatedIn(after) {
      assert x.pool == p ==> x.index != s;
    }
  }

  /** A freshly created pool adds no handed-out slot. */
  lemma AllocatedAfterNewPool(masks: seq<Mask>)
    ensures AllocatedIn(masks + [FreshMask]) == AllocatedIn(masks)
  {
    FreshMaskAllFree();
    var after := masks + [FreshMask];
    forall x | x in AllocatedIn(after) ensures x in AllocatedIn(masks) {
      assert x.pool < |masks|;
    }
  }

  /** When every pool is fresh, no slot is handed out. */
  lemma AllocatedAllFresh(masks: seq<Mask>)
    requires forall p :: 0 <= p < |masks| ==> masks[p] == FreshMask
    ensures AllocatedIn(masks) == {}
  {
    FreshMaskAllFree();
    forall x ensures x !in AllocatedIn(masks) {
      if x.pool < |masks| {
        assert masks[x.pool] == FreshMask;
      }
    }
  }

  /** Each of the pools `0 .. n-1` is on exactly one of the two lists, and no other pool is. */
  ghost predicate Linked(n: nat, available: seq<nat>, full: seq<nat>)
  {
    && (forall i :: 0 <= i < |available| ==> available[i] < n)
    && (forall i :: 0 <= i < |full| ==> full[i] < n)
    && NoDuplicates(available + full)
    && (forall p :: 0 <= p < n ==> p in available || p in full)
  }

  /** Whether every pool is on exactly one list depends only on the multiset of listed pools. */
  lemma LinkedPermutation(n: nat, available: seq<nat>, full: seq<nat>, available': seq<nat>, full': seq<nat>)
    requires Linked(n, available, full)
    requires multiset(available' + full') == multiset(available + full)
    ensures Linked(n, available', full')
  {
    NoDuplicatesPermutation(available + full, available' + full');
    forall i | 0 <= i < |available' + full'| ensures (available' + full')[i] < n {
      var x := (available' + full')[i];
      assert x in multiset(available' + full');
      var j :| 0 <= j < |available + full| && (available + full)[j] == x;
      if j < |available| {
        assert available[j] == x;
      } else {
        assert full[j - |available|] == x;
      }
    }
    forall i | 0 <= i < |available'| ensures available'[i] < n {
      assert (available' + full')[i] == available'[i];
    }
    forall i | 0 <= i < |full'| ensures full'[i] < n {
      assert (available' + full')[|available'| + i] == full'[i];
    }
    forall p | 0 <= p < n ensures p in available' || p in full' {
      assert p in available || p in full;
      assert p in multiset(available + full);
      assert p in available' + full';
    }
  }

  /** No pool is on both lists, and the head of the available list appears there once. */
  lemma LinkedDistinct(n: nat, available: seq<nat>, full: seq<nat>)
    requires Linked(n, available, full)
    ensures forall i, j :: 0 <= i < |available| && 0 <= j < |full| ==> available[i] != full[j]
    ensures available != [] ==> available[0] !in available[1..]
  {
    var both := available + full;
    forall i, j | 0 <= i < |available| && 0 <= j < |full| ensures available[i] != full[j] {
      assert both[i] == available[i] && both[|available| + j] == full[j];
    }
    if available != [] {
      forall j | 1 <= j < |available| ensures available[j] != available[0] {
        assert both[0] == available[0] && both[j] == available[j];
      }
    }
  }

  /** The lists agree with the masks: available pools have a free slot, the other pools none. */
  ghost predicate Consistent(masks: seq<Mask>, available: seq<nat>, full: seq<nat>)
  {
    && Linked(|masks|, available, full)
    && (forall i :: 0 <= i < |available| ==> !IsFull(masks[available[i]]))
    && (forall i :: 0 <= i < |full| ==> IsFull(masks[full[i]]))
  }

  /** Creating a pool when none is available puts it, alone, on the available list. */
  lemma ConsistentAfterNewPool(masks: seq<Mask>, full: seq<nat>)
    requires Consistent(masks, [], full)
    ensures Consistent(masks + [FreshMask], [|masks|], full)
  {
    FreshMaskAllFree();
    var after := masks + [FreshMask];
    assert [] + full == full;
    assert |masks| !in full;
    NoDuplicatesPrepend(|masks|, full);
    forall i | 0 <= i < |full| ensures IsFull(after[full[i]]) {
      assert after[full[i]] == masks[full[i]];
    }
    forall p | 0 <= p < |after| ensures p in [|masks|] || p in full {
      if p < |masks| {
        assert p in [] || p in full;
      }
    }
  }

  /**
   * Taking a free slot from the head available pool keeps the lists
   * consistent when the pool still has a free slot afterwards.
   */
  lemma ConsistentAfterAllocateStays(masks: seq<Mask>, available: seq<nat>, full: seq<nat>, s: nat)
    requires Consistent(masks, available, full) && available != []
    requires s < PoolSlots && IsFree(masks[available[0]], s)
    requires !IsFull(Toggle(masks[available[0]], s))
    ensures Consistent(masks[available[0] := Toggle(masks[available[0]], s)], available, full)
  {
    LinkedDistinct(|masks|, available, full);
  }

  /** Moving the head of the available list to the front of the fully-allocated list keeps every pool on one list. */
  lemma LinkedMoveHead(n: nat, available: seq<nat>, full: seq<nat>)
    requires Linked(n, available, full) && available != []
    ensures Linked(n, available[1..], [available[0]] + full)
  {
    assert available == [available[0]] + available[1..];
    assert available[1..] + ([available[0]] + full) == available[1..] + [available[0]] + full;
    assert multiset(available[1..] + ([available[0]] + full)) == multiset(available + full);
    LinkedPermutation(n, available, full, available[1..], [available[0]] + full);
  }

  /**
   * Taking the last free slot of the head available pool keeps the lists
   * consistent once the pool has moved to the fully-allocated list.
   */
  lemma ConsistentAfterAllocateFills(masks: seq<Mask>, available: seq<nat>, full: seq<nat>, s: nat)
    requires Consistent(masks, available, full) && available != []
    requires s < PoolSlots && IsFree(masks[available[0]], s)
    requires IsFull(Toggle(masks[available[0]], s))
    ensures Consistent(masks[available[0] := Toggle(masks[available[0]], s)], available[1..], [available[0]] + full)
  {
    var p := available[0];
    var after := masks[p := Toggle(masks[p], s)];
    LinkedDistinct(|masks|, available, full);
    LinkedMoveHead(|masks|, available, full);
    forall i | 0 <= i < |available[1..]| ensures !IsFull(after[available[1..][i]]) {
      assert available[1..][i] == available[i + 1];
    }
  }

  /** Freeing a slot of a pool that still had a free slot keeps the lists consistent. */
  lemma ConsistentAfterDealocateFromAvailable(masks: seq<Mask>, available: seq<nat>, full: seq<nat>, p: nat, s: nat)
    requires Consistent(masks, available, full)
    requires p < |masks| && s < PoolSlots && !IsFree(masks[p], s) && !IsFull(masks[p])
    ensures Consistent(masks[p := Toggle(masks[p], s)], available, full)
  {
    ToggleToFreeNotFull(masks[p], s);
  }

  /**
   * Freeing a slot of a full pool keeps the lists consistent once the pool
   * has been moved back to the available list.
   */
  lemma ConsistentAfterDealocateFromFull(masks: seq<Mask>, available: seq<nat>, full: seq<nat>, p: nat, s: nat)
    requires Consistent(masks, available, full)
    requires p < |masks| && s < PoolSlots && !IsFree(masks[p], s) && IsFull(masks[p])
    ensures p in full
    ensures var lists := RelinkToAvailable(available, full, p);
      Consistent(masks[p := Toggle(masks[p], s)], lists.0, lists.1)
  {
    var after := masks[p := Toggle(masks[p], s)];
    ToggleToFreeNotFull(masks[p], s);
    assert p in available || p in full;
    var lists := RelinkToAvailable(available, full, p);
    RelinkToAvailablePermutes(available, full, p);
    LinkedPermutation(|masks|, available, full, lists.0, lists.1);
    LinkedDistinct(|masks|, lists.0, lists.1);
    forall i | 0 <= i < |lists.1| ensures IsFull(after[lists.1[i]]) {
      assert lists.1[i] in multiset(lists.1);
      assert lists.1[i] in full;
    }
  }

  /** Once every pool is back on the available list and reset, the lists agree with the masks. */
  lemma ConsistentAllFresh(masks: seq<Mask>, available: seq<nat>)
    requires Linked(|masks|, available, [])
    requires forall i :: 0 <= i < |available| ==> masks[available[i]] == FreshMask
    ensures forall p :: 0 <= p < |masks| ==> masks[p] == FreshMask
    ensures Consistent(masks, available, [])
  {
    FreshMaskAllFree();
    assert available + [] == available;
    forall p | 0 <= p < |masks| ensures masks[p] == FreshMask {
      assert p in available || p in [];
      var i :| 0 <= i < |available| && available[i] == p;
    }
  }

  /**
   * The allocator: `masks[p]` holds the allocation words of pool `p` (pools
   * are numbered in creation order); `available` and `full` are the pools on
   * `availablePools_` and `fullyAllocatedPools_`, head first.
   */
  class PoolAllocator {
    var masks: seq<Mask>
    var available: seq<nat>
    var full: seq<nat>

    ghost predicate Valid()
      reads this
    {
      Consistent(masks, available, full)
    }

    /** The slots currently handed out. */
    ghost function Allocated(): set<Slot>
      reads this
    {
      AllocatedIn(masks)
    }

    /** The pool `allocate` takes its slot from, creating it if no pool is available. */
    ghost function HeadPool(): nat
      reads this
    {
      if available == [] then |masks| else available[0]
    }

    /** The pools once `allocate` has created one if none was available. */
    ghost function MasksWithHead(): seq<Mask>
      reads this
    {
      if available == [] then masks + [FreshMask] else masks
    }

    /** The available list once `allocate` has created a pool if none was available. */
    ghost function AvailableWithHead(): seq<nat>
      reads this
    {
      if available == [] then [|masks|] else available
    }

    constructor ()
      ensures Valid() && masks == [] && available == [] && full == []
      ensures Allocated() == {}
    {
      masks, available, full := [], [], [];
    }

    /**
     * `allocate`: the lowest free slot of the head available pool, creating
     * a pool first when none is available; the pool moves to the fully
     * allocated list when that was its last free slot.  The result is never
     * null.
     */
    method Allocate() returns (r: Option<Slot>)
      requires Valid()
      modifies this
      ensures Valid()
      ensures r.Some? && r.value.pool == old(HeadPool()) && r.value.index < PoolSlots
      ensures IsFree(old(MasksWithHead())[r.value.pool], r.value.index)
      ensures forall t :: 0 <= t < r.value.index ==> !IsFree(old(MasksWithHead())[r.value.pool], t)
      ensures masks == old(MasksWithHead())[r.value.pool := Toggle(old(MasksWithHead())[r.value.pool], r.value.index)]
      ensures IsFull(masks[r.value.pool]) ==>
        available == old(AvailableWithHead())[1..] && full == [r.value.pool] + old(full)
      ensures !IsFull(masks[r.value.pool]) ==>
        available == old(AvailableWithHead()) && full == old(full)
      ensures r.value !in old(Allocated()) && Allocated() == old(Allocated()) + {r.value}
      ensures |Allocated()| == old(|Allocated()|) + 1
    {
      if available == [] {
        ConsistentAfterNewPool(masks, full);
        AllocatedAfterNewPool(masks);
        masks := masks + [FreshMask];
        available := [|masks| - 1];
      }
      ghost var before := masks;
      // The outer loop of the source walks the available list, but its
      // head always has a free slot, so the walk ends at the head.
      var current := available[0];
      var i := 0;
      while i < 4
        invariant masks == before && available == old(AvailableWithHead()) && full == old(full)
        invariant 0 <= i <= 4
        invariant forall j :: 0 <= j < i ==> IsZero(masks[current][j])
      {
        if !IsZero(masks[current][i]) {
          var freeBit := FindFirstSet(masks[current][i]) - 1;
          var freeField := i * 64 + freeBit;
          LowestFreeSlot(masks[current], i);
          masks := masks[current := masks[current][i := Flip(masks[current][i], freeBit)]];
          AllocatedAfterAllocate(before, current, freeField);
          if IsFull(masks[current]) {
            ConsistentAfterAllocateFills(before, available, full, freeField);
            MoveToFullyAllocated(current);
          } else {
            ConsistentAfterAllocateStays(before, available, full, freeField);
          }
          return Some(Slot(current, freeField));
        }
        i := i + 1;
      }
      return None;
    }

    /** `moveTofullyAllocated(in)` for the head `in` of the available list. */
    method MoveToFullyAllocated(p: nat)
      requires available != [] && available[0] == p
      modifies this`available, this`full
      ensures available == old(available)[1..] && full == [p] + old(full)
    {
      available := available[1..];
      full := [p] + full;
    }

    /**
     * `moveToAvaiable(in)`: the full pool `in` goes to the front of the
     * available list and leaves the fully-allocated list.
     */
    method MoveToAvailable(p: nat)
      requires p in full
      modifies this`available, this`full
      ensures (available, full) == RelinkToAvailable(old(available), old(full), p)
    {
      available, full := [p] + available, Without(full, p);
    }

    /**
     * `dealocate`: frees a handed-out slot, first moving its pool back to
     * the available list when the pool was full.
     */
    method Dealocate(slot: Slot)
      requires Valid() && slot in Allocated()
      modifies this
      ensures Valid()
      ensures masks == old(masks)[slot.pool := Toggle(old(masks[slot.pool]), slot.index)]
      ensures old(IsFull(masks[slot.pool])) ==>
        (available, full) == RelinkToAvailable(old(available), old(full), slot.pool)
      ensures !old(IsFull(masks[slot.pool])) ==> available == old(available) && full == old(full)
      ensures Allocated() == old(Allocated()) - {slot}
      ensures |Allocated()| == old(|Allocated()|) - 1
    {
      var p := slot.pool;
      AllocatedAfterDealocate(masks, p, slot.index);
      if IsFull(masks[p]) {
        ConsistentAfterDealocateFromFull(masks, available, full, p, slot.index);
        MoveToAvailable(p);
      } else {
        ConsistentAfterDealocateFromAvailable(masks, available, full, p, slot.index);
      }
      var wordIndex := slot.index / 64;
      var bit := slot.index % 64;
      masks := masks[p := masks[p][wordIndex := Flip(masks[p][wordIndex], bit)]];
    }

    /**
     * `clearAll`: every fully allocated pool goes back to the available
     * list and every pool is reset to all slots free; no pool is dropped.
     */
    method ClearAll()
      requires Valid()
      modifies this
      ensures Valid()
      ensures |masks| == old(|masks|)
      ensures forall p :: 0 <= p < |masks| ==> masks[p] == FreshMask
      ensures full == [] && available == Reversed(old(full)) + old(available)
      ensures Allocated() == {}
    {
      ReturnFullPools();
      ReversedPermutes(old(full));
      LinkedPermutation(|masks|, old(available), old(full), available, full);
      ResetAvailablePools();
      ConsistentAllFresh(masks, available);
      AllocatedAllFresh(masks);
    }

    /** The first loop of `clearAll`: move the head full pool until none is left. */
    method ReturnFullPools()
      modifies this`available, this`full
      ensures full == [] && available == Reversed(old(full)) + old(available)
    {
      ghost var moved: seq<nat> := [];
      while full != []
        invariant old(full) == moved + full
        invariant available == Reversed(moved) + old(available)
        decreases |full|
      {
        assert full == [full[0]] + full[1..];
        ReversedSnoc(moved, full[0]);
        moved := moved + [full[0]];
        MoveToAvailable(full[0]);
      }
      assert moved + [] == moved;
    }

    /** The second loop of `clearAll`: mark every slot of every available pool free. */
    method ResetAvailablePools()
      requires forall j :: 0 <= j < |available| ==> available[j] < |masks|
      modifies this`masks
      ensures |masks| == old(|masks|)
      ensures forall j :: 0 <= j < |available| ==> masks[available[j]] == FreshMask
      ensures forall p :: 0 <= p < |masks| && p !in available ==> masks[p] == old(masks[p])
    {
      var it := 0;
      while it < |available|
        invariant |masks| == old(|masks|)
        invariant 0 <= it <= |available|
        invariant forall j :: 0 <= j < it ==> masks[available[j]] == FreshMask
        invariant forall p :: 0 <= p < |masks| && p !in available ==> masks[p] == old(masks[p])
      {
        masks := masks[available[it] := FreshMask];
        it := it + 1;
      }
    }
  }
}
