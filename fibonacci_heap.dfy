/**
 * non_std/containers/FibonacciHeap.h: a Fibonacci max-heap.  The roots form
 * a circular doubly linked list entered at `head`; every node keeps its
 * children in a circular list entered at its `child` pointer.
 *
 * A node and everything below it is modelled as a `Tree` value.  A circular
 * list is the sequence of its nodes read from its entry node along `next`;
 * `prev` is the same order read backwards and is not kept separately.
 */
module FibonacciHeap {
  import opened Options
  import opened Bits

  /**
   * A node with its subtree: `val`, `rank`, `marked`, whether its `top`
   * (parent) pointer is set, and its child list read from `child`.
   */
  datatype Tree = Tree(val: int, rank: nat, marked: bool, hasTop: bool, children: seq<Tree>)

  /** A node as `insert(val)` creates it: alone in its own list, no parent, no children. */
  function Leaf(x: int): (t: Tree)
    ensures WellFormed(t) && Values(t) == multiset{x}
  {
    Tree(x, 0, false, false, [])
  }

  /** The values stored in a tree. */
  function Values(t: Tree): multiset<int>
    decreases t
  {
    multiset{t.val} + ValuesAll(t.children)
  }

  /** The values stored in a list of trees. */
  function ValuesAll(ts: seq<Tree>): multiset<int>
    decreases ts
  {
    if |ts| == 0 then multiset{} else Values(ts[0]) + ValuesAll(ts[1..])
  }

  lemma {:induction false} ValuesAllConcat(a: seq<Tree>, b: seq<Tree>)
    ensures ValuesAll(a + b) == ValuesAll(a) + ValuesAll(b)
  {
    if |a| > 0 {
      assert (a + b)[0] == a[0];
      assert (a + b)[1..] == a[1..] + b;
      ValuesAllConcat(a[1..], b);
    } else {
      assert a + b == b;
    }
  }

  lemma ValuesAllCons(t: Tree, rest: seq<Tree>)
    ensures ValuesAll([t] + rest) == Values(t) + ValuesAll(rest)
  {
    assert ([t] + rest)[0] == t;
    assert ([t] + rest)[1..] == rest;
  }

  /** A tree of a list holds no more values than the whole list. */
  lemma {:induction false} ValuesOfMember(ts: seq<Tree>, k: nat)
    requires k < |ts|
    ensures Values(ts[k]) <= ValuesAll(ts) && |Values(ts[k])| <= |ValuesAll(ts)|
  {
    assert ValuesAll(ts) == Values(ts[0]) + ValuesAll(ts[1..]);
    if k > 0 {
      ValuesOfMember(ts[1..], k - 1);
    }
  }

  /**
   * The shape every node keeps while no key is changed in place: `rank`
   * counts the children, no node is marked, each child points to its parent
   * and holds at most the parent's value, and a node of rank r roots at
   * least 2^r nodes.
   */
  ghost predicate WellFormed(t: Tree)
    decreases t
  {
    t.rank == |t.children| && !t.marked && Pow2(t.rank) <= |Values(t)| &&
    forall c :: c in t.children ==> c.hasTop && c.val <= t.val && WellFormed(c)
  }

  /** A root list in which every tree is well formed and no root has a parent. */
  ghost predicate RootsWellFormed(rs: seq<Tree>)
  {
    forall t :: t in rs ==> WellFormed(t) && !t.hasTop
  }

  /** `head` holds the largest value of all roots. */
  ghost predicate HeadIsMax(rs: seq<Tree>)
  {
    |rs| > 0 ==> forall t :: t in rs ==> t.val <= rs[0].val
  }

  /** No two roots have the same rank. */
  ghost predicate DistinctRanks(rs: seq<Tree>)
  {
    forall a, b :: 0 <= a < b < |rs| ==> rs[a].rank != rs[b].rank
  }

  /** Every value below well-formed trees that are at most `bound` is at most `bound`. */
  lemma {:induction false} AllAtMost(ts: seq<Tree>, bound: int)
    requires forall t :: t in ts ==> WellFormed(t) && t.val <= bound
    ensures forall v :: v in ValuesAll(ts) ==> v <= bound
    decreases ts
  {
    if |ts| > 0 {
      var t := ts[0];
      assert t in ts;
      AllAtMost(t.children, t.val);
      AllAtMost(ts[1..], bound);
      assert ValuesAll(ts) == multiset{t.val} + ValuesAll(t.children) + ValuesAll(ts[1..]);
    }
  }

  /**
   * With well-formed roots and the largest root at `head`, `head` holds a
   * largest value of the whole heap.
   */
  lemma HeadHoldsMaximum(rs: seq<Tree>)
    requires |rs| > 0 && RootsWellFormed(rs) && HeadIsMax(rs)
    ensures rs[0].val in ValuesAll(rs)
    ensures forall v :: v in ValuesAll(rs) ==> v <= rs[0].val
  {
    AllAtMost(rs, rs[0].val);
    assert ValuesAll(rs) == multiset{rs[0].val} + ValuesAll(rs[0].children) + ValuesAll(rs[1..]);
  }

  /** A well-formed tree of at most `n` values has rank at most floor(log2 n). */
  lemma RankFits(t: Tree, n: nat)
    requires WellFormed(t) && |Values(t)| <= n && n >= 1
    ensures t.rank <= Log2Floor(n)
  {
    assert Pow2(t.rank) <= |Values(t)|;
    Log2FloorBound(t.rank, n);
  }

  /** Every root of a heap holding `n` values has rank at most floor(log2 n). */
  lemma RootRanksBounded(rs: seq<Tree>, n: nat)
    requires RootsWellFormed(rs) && |ValuesAll(rs)| <= n && n >= 1
    ensures forall k :: 0 <= k < |rs| ==> rs[k].rank <= Log2Floor(n)
  {
    forall k | 0 <= k < |rs|
      ensures rs[k].rank <= Log2Floor(n)
    {
      assert rs[k] in rs;
      ValuesOfMember(rs, k);
      RankFits(rs[k], n);
    }
  }

  /**
   * `linkNodes(parent, child)`: `child` is put into the child list of
   * `parent` right after its first child and becomes the child `parent`
   * points to; its mark is cleared, its `top` set, and the parent's rank
   * goes up by one.  (Its `detachRoot` acts on a node that is alone in its
   * list, so it changes nothing.)
   */
  function Link(parent: Tree, child: Tree): (r: Tree)
    ensures r.val == parent.val && r.rank == parent.rank + 1
    ensures r.marked == parent.marked && r.hasTop == parent.hasTop
    ensures |r.children| == |parent.children| + 1
    ensures r.children[0] == child.(marked := false, hasTop := true)
  {
    var c := child.(marked := false, hasTop := true);
    var cs := parent.children;
    parent.(rank := parent.rank + 1, children := if |cs| == 0 then [c] else [c] + cs[1..] + [cs[0]])
  }

  /** The children after `Link`: the new child and the old children. */
  lemma LinkChildren(parent: Tree, child: Tree)
    ensures forall x :: x in Link(parent, child).children ==> x == Link(parent, child).children[0] || x in parent.children
    ensures ValuesAll(Link(parent, child).children) == ValuesAll(parent.children) + Values(child)
  {
    var c := child.(marked := false, hasTop := true);
    var cs := parent.children;
    assert Values(c) == Values(child);
    if |cs| == 0 {
      assert Link(parent, child).children == [c] + [];
      ValuesAllCons(c, []);
    } else {
      assert Link(parent, child).children == [c] + (cs[1..] + [cs[0]]);
      assert cs == [cs[0]] + cs[1..];
      LinkedChildrenValues(c, cs[0], cs[1..]);
    }
  }

  /** Moving the first child to the back and putting `c` in front adds the values of `c`. */
  lemma LinkedChildrenValues(c: Tree, first: Tree, rest: seq<Tree>)
    ensures ValuesAll([c] + (rest + [first])) == ValuesAll([first] + rest) + Values(c)
  {
    ValuesAllCons(c, rest + [first]);
    ValuesAllConcat(rest, [first]);
    ValuesAllCons(first, []);
    ValuesAllCons(first, rest);
  }

  /**
   * Linking two well-formed roots of equal rank, the larger value on top,
   * gives a well-formed tree holding the values of both.
   */
  lemma LinkKeepsWellFormed(parent: Tree, child: Tree)
    requires WellFormed(parent) && WellFormed(child)
    requires parent.rank == child.rank && child.val <= parent.val
    ensures WellFormed(Link(parent, child))
    ensures Values(Link(parent, child)) == Values(parent) + Values(child)
  {
    var r := Link(parent, child);
    var c := r.children[0];
    LinkChildren(parent, child);
    assert Values(r) == Values(parent) + Values(child);
    assert Pow2(r.rank) == 2 * Pow2(parent.rank);
    assert WellFormed(c) by {
      assert Values(c) == Values(child);
    }
    forall x | x in r.children
      ensures x.hasTop && x.val <= r.val && WellFormed(x)
    {
      if x != c {
        assert x in parent.children;
      }
    }
  }

  /**
   * `insert(node)`: the root list after splicing `t` in right after `head`.
   * `t` becomes `head` only when its value is strictly greater than the old
   * head's; the list is read from the new `head`.
   */
  function Spliced(rs: seq<Tree>, t: Tree): (r: seq<Tree>)
    ensures |r| == |rs| + 1 && multiset(r) == multiset(rs) + multiset{t}
    ensures |rs| == 0 ==> r == [t]
    ensures |rs| > 0 && rs[0].val < t.val ==> r[0] == t && r[|r| - 1] == rs[0] && r[1..|r| - 1] == rs[1..]
    ensures |rs| > 0 && !(rs[0].val < t.val) ==> r[0] == rs[0] && r[1] == t && r[2..] == rs[1..]
  {
    if |rs| == 0 then [t]
    else
      assert rs == [rs[0]] + rs[1..];
      if rs[0].val < t.val then [t] + rs[1..] + [rs[0]]
      else [rs[0], t] + rs[1..]
  }

  /** Splicing a tree into the root list adds exactly its values. */
  lemma SplicedValues(rs: seq<Tree>, t: Tree)
    ensures ValuesAll(Spliced(rs, t)) == ValuesAll(rs) + Values(t)
  {
    if |rs| == 0 {
      ValuesAllCons(t, []);
    } else {
      var h, rest := rs[0], rs[1..];
      ValuesAllCons(h, rest);
      assert rs == [h] + rest;
      if h.val < t.val {
        assert Spliced(rs, t) == [t] + rest + [h];
        ValuesMovedHead(t, rest, h);
      } else {
        assert Spliced(rs, t) == [h, t] + rest;
        ValuesAfterHead(h, t, rest);
      }
    }
  }

  lemma ValuesMovedHead(t: Tree, rest: seq<Tree>, h: Tree)
    ensures ValuesAll([t] + rest + [h]) == Values(t) + ValuesAll(rest) + Values(h)
  {
    ValuesAllConcat([t] + rest, [h]);
    ValuesAllCons(t, rest);
    ValuesAllCons(h, []);
    assert [h] + [] == [h];
  }

  lemma ValuesAfterHead(h: Tree, t: Tree, rest: seq<Tree>)
    ensures ValuesAll([h, t] + rest) == Values(h) + Values(t) + ValuesAll(rest)
  {
    assert [h, t] + rest == [h] + ([t] + rest);
    ValuesAllCons(h, [t] + rest);
    ValuesAllCons(t, rest);
  }

  /**
   * Splicing a well-formed root into the root list keeps the roots well
   * formed and keeps the largest root at `head`.
   */
  lemma SplicedKeepsRoots(rs: seq<Tree>, t: Tree)
    requires RootsWellFormed(rs) && HeadIsMax(rs) && WellFormed(t) && !t.hasTop
    ensures RootsWellFormed(Spliced(rs, t)) && HeadIsMax(Spliced(rs, t))
  {
    var r := Spliced(rs, t);
    forall x | x in r
      ensures x in rs || x == t
    {
      assert x in multiset(r);
    }
  }

  /**
   * Splicing in a root whose rank is above every rank in the list keeps the
   * ranks distinct and makes its rank the largest.
   */
  lemma SplicedHigherRank(rs: seq<Tree>, t: Tree)
    requires DistinctRanks(rs) && forall x :: x in rs ==> x.rank < t.rank
    ensures DistinctRanks(Spliced(rs, t))
    ensures forall x :: x in Spliced(rs, t) ==> x.rank <= t.rank
  {
    var r := Spliced(rs, t);
    forall x | x in r
      ensures x.rank <= t.rank
    {
      assert x in multiset(r);
    }
    if |rs| > 0 {
      var last := |r| - 1;
      forall a, b | 0 <= a < b < |r|
        ensures r[a].rank != r[b].rank
      {
        assert r[a] in r && r[b] in r;
        if rs[0].val < t.val {
          if a > 0 && b < last {
            assert r[a] == rs[a] && r[b] == rs[b];
          } else if a > 0 {
            assert r[a] == rs[a] && r[b] == rs[0];
          }
        } else {
          if a >= 2 {
            assert r[a] == rs[a - 1] && r[b] == rs[b - 1];
          } else if a == 0 && b >= 2 {
            assert r[b] == rs[b - 1];
          }
        }
      }
    }
  }

  /**
   * `detachRoot(root)`: the neighbours of the node at position `k` are
   * linked to each other; the list is read on from the node that followed it.
   */
  function DetachRoot(rs: seq<Tree>, k: nat): (r: seq<Tree>)
    requires k < |rs|
    ensures |r| == |rs| - 1 && multiset(r) + multiset{rs[k]} == multiset(rs)
  {
    assert rs == rs[..k] + [rs[k]] + rs[k + 1..];
    rs[k + 1..] + rs[..k]
  }

  /** Detaching a root takes exactly its values out of the list. */
  lemma DetachRootValues(rs: seq<Tree>, k: nat)
    requires k < |rs|
    ensures ValuesAll(DetachRoot(rs, k)) + Values(rs[k]) == ValuesAll(rs)
  {
    var before, x, after := rs[..k], rs[k], rs[k + 1..];
    assert rs == before + ([x] + after);
    ValuesAllConcat(before, [x] + after);
    ValuesAllCons(x, after);
    ValuesAllConcat(after, before);
  }

  /** A child list with every `top` pointer cleared. */
  function Unlinked(cs: seq<Tree>): (r: seq<Tree>)
    ensures |r| == |cs|
    ensures forall k :: 0 <= k < |cs| ==> r[k] == cs[k].(hasTop := false)
  {
    seq(|cs|, k requires 0 <= k < |cs| => cs[k].(hasTop := false))
  }

  /** Clearing the `top` pointers keeps the values and leaves well-formed parentless roots. */
  lemma {:induction false} UnlinkedKeeps(cs: seq<Tree>)
    requires forall c :: c in cs ==> WellFormed(c)
    ensures ValuesAll(Unlinked(cs)) == ValuesAll(cs)
    ensures RootsWellFormed(Unlinked(cs))
  {
    var r := Unlinked(cs);
    if |cs| > 0 {
      assert r[1..] == Unlinked(cs[1..]);
      assert cs[0] in cs;
      UnlinkedKeeps(cs[1..]);
      assert Values(r[0]) == Values(cs[0]);
      assert WellFormed(r[0]);
      forall x | x in r
        ensures WellFormed(x) && !x.hasTop
      {
        if x != r[0] {
          assert x in r[1..];
        }
      }
    }
  }

  /**
   * The root list `pop` consolidates, read from the old head's successor:
   * the children of `head`, their `top` cleared, then the other roots.
   */
  function PoppedRoots(rs: seq<Tree>): (r: seq<Tree>)
    requires |rs| > 0
    ensures |r| == |rs[0].children| + |rs| - 1
  {
    Unlinked(rs[0].children) + rs[1..]
  }

  /**
   * What `pop` leaves before consolidating holds the old values but one
   * occurrence of the top value, and its roots are well formed.
   */
  lemma RemoveHeadKeepsRest(rs: seq<Tree>)
    requires |rs| > 0 && RootsWellFormed(rs)
    ensures forall c :: c in rs[0].children ==> c.hasTop
    ensures ValuesAll(PoppedRoots(rs)) + multiset{rs[0].val} == ValuesAll(rs)
    ensures |ValuesAll(PoppedRoots(rs))| == |ValuesAll(rs)| - 1
    ensures RootsWellFormed(PoppedRoots(rs))
    ensures DetachRoot([rs[0]] + PoppedRoots(rs), 0) == PoppedRoots(rs)
  {
    var h := rs[0];
    var after := PoppedRoots(rs);
    assert h in rs;
    UnlinkedKeeps(h.children);
    ValuesAllConcat(Unlinked(h.children), rs[1..]);
    assert ValuesAll(rs) == multiset{h.val} + ValuesAll(h.children) + ValuesAll(rs[1..]);
    forall x | x in after
      ensures WellFormed(x) && !x.hasTop
    {
      if x !in Unlinked(h.children) {
        assert x in rs[1..];
        assert x in rs;
      }
    }
    assert ([h] + after)[1..] == after;
  }

  /** The values in the slots of `consolidate`'s array. */
  function SlotValues(slots: seq<Option<Tree>>): multiset<int>
  {
    if |slots| == 0 then multiset{}
    else SlotOf(slots[0]) + SlotValues(slots[1..])
  }

  /** The values of one slot. */
  function SlotOf(slot: Option<Tree>): multiset<int>
  {
    if slot.Some? then Values(slot.value) else multiset{}
  }

  /** Slot `j` is empty or holds a well-formed parentless tree of rank `j`. */
  ghost predicate SlotsHoldRanks(slots: seq<Option<Tree>>)
  {
    forall j :: 0 <= j < |slots| && slots[j].Some? ==>
      slots[j].value.rank == j && WellFormed(slots[j].value) && !slots[j].value.hasTop
  }

  /** Overwriting one slot swaps the values of its old tree for those of its new one. */
  lemma SlotValuesUpdate(slots: seq<Option<Tree>>, k: nat, x: Option<Tree>)
    requires k < |slots|
    ensures SlotValues(slots[k := x]) + SlotOf(slots[k]) == SlotValues(slots) + SlotOf(x)
  {
    var before, after := slots[..k], slots[k + 1..];
    assert slots == before + ([slots[k]] + after);
    assert slots[k := x] == before + ([x] + after);
    SlotValuesConcat(before, [slots[k]] + after);
    SlotValuesConcat(before, [x] + after);
    SlotValuesCons(slots[k], after);
    SlotValuesCons(x, after);
    UnionSwap(SlotValues(before), SlotValues(after), SlotOf(slots[k]), SlotOf(x));
  }

  /** Exchanging `o` for `x` in a union of three. */
  lemma UnionSwap(b: multiset<int>, a: multiset<int>, o: multiset<int>, x: multiset<int>)
    ensures b + (x + a) + o == b + (o + a) + x
  {
  }

  lemma {:induction false} SlotValuesConcat(s: seq<Option<Tree>>, t: seq<Option<Tree>>)
    ensures SlotValues(s + t) == SlotValues(s) + SlotValues(t)
  {
    if |s| > 0 {
      assert (s + t)[0] == s[0];
      assert (s + t)[1..] == s[1..] + t;
      SlotValuesConcat(s[1..], t);
    } else {
      assert s + t == t;
    }
  }

  lemma SlotValuesCons(slot: Option<Tree>, rest: seq<Option<Tree>>)
    ensures SlotValues([slot] + rest) == SlotOf(slot) + SlotValues(rest)
  {
    assert ([slot] + rest)[0] == slot;
    assert ([slot] + rest)[1..] == rest;
  }

  /** Empty slots hold no values. */
  lemma {:induction false} SlotValuesNone(slots: seq<Option<Tree>>)
    requires forall j :: 0 <= j < |slots| ==> slots[j].None?
    ensures SlotValues(slots) == multiset{}
  {
    if |slots| > 0 {
      SlotValuesNone(slots[1..]);
    }
  }

  /** A tree whose values are part of at most `n` values has a rank below `Log2Floor(n) + 1`. */
  lemma CarriedRankFits(s: seq<Option<Tree>>, it: Tree, later: multiset<int>, total: multiset<int>, n: nat)
    requires WellFormed(it) && n >= 1 && |total| <= n
    requires SlotValues(s) + Values(it) + later == total
    ensures it.rank <= Log2Floor(n)
  {
    assert |Values(it)| <= |total|;
    RankFits(it, n);
  }

  /**
   * One round of `consolidate`'s inner loop: the tree in slot `k` and the
   * carried tree of rank `k` are linked, the larger value on top; the slot
   * is emptied and no value is lost.
   */
  lemma LinkRound(s: seq<Option<Tree>>, k: nat, carried: Tree, parent: Tree, child: Tree,
                  later: multiset<int>, total: multiset<int>, n: nat)
    requires k < |s| && s[k].Some? && SlotsHoldRanks(s)
    requires WellFormed(carried) && !carried.hasTop && carried.rank == k
    requires SlotValues(s) + Values(carried) + later == total
    requires (parent == carried && child == s[k].value) || (parent == s[k].value && child == carried)
    requires child.val <= parent.val
    requires n >= 1 && |total| <= n && |s| == Log2Floor(n) + 1
    ensures SlotsHoldRanks(s[k := None])
    ensures WellFormed(Link(parent, child)) && !Link(parent, child).hasTop
    ensures Link(parent, child).rank == k + 1 < |s|
    ensures SlotValues(s[k := None]) + Values(Link(parent, child)) + later == total
  {
    var o := s[k].value;
    SlotsHoldRanksUpdate(s, k, None);
    SlotValuesUpdate(s, k, None);
    LinkKeepsWellFormed(parent, child);
    Regroup(SlotValues(s[k := None]), Values(o), SlotValues(s), Values(carried),
            Values(Link(parent, child)), later, total);
    CarriedRankFits(s[k := None], Link(parent, child), later, total, n);
  }

  /** Multiset bookkeeping of `LinkRound`. */
  lemma Regroup(rest: multiset<int>, o: multiset<int>, slots: multiset<int>, carried: multiset<int>,
                linked: multiset<int>, later: multiset<int>, total: multiset<int>)
    requires rest + o + multiset{} == slots
    requires linked == carried + o || linked == o + carried
    requires slots + carried + later == total
    ensures rest + linked + later == total
  {
  }

  /** The carried tree lands in its empty slot; no value is lost. */
  lemma StoreCarried(s: seq<Option<Tree>>, it: Tree, later: multiset<int>, total: multiset<int>)
    requires it.rank < |s| && s[it.rank].None? && SlotsHoldRanks(s)
    requires WellFormed(it) && !it.hasTop
    requires SlotValues(s) + Values(it) + later == total
    ensures SlotsHoldRanks(s[it.rank := Some(it)])
    ensures SlotValues(s[it.rank := Some(it)]) + later == total
  {
    SlotsHoldRanksUpdate(s, it.rank, Some(it));
    SlotValuesUpdate(s, it.rank, Some(it));
  }

  /** Emptying a slot, or filling slot `k` with a parentless tree of rank `k`, keeps the slots sound. */
  lemma SlotsHoldRanksUpdate(s: seq<Option<Tree>>, k: nat, x: Option<Tree>)
    requires k < |s| && SlotsHoldRanks(s)
    requires x.Some? ==> x.value.rank == k && WellFormed(x.value) && !x.value.hasTop
    ensures SlotsHoldRanks(s[k := x])
  {
  }

  /** Taking the next root off the list. */
  lemma NextRoot(rest: seq<Tree>, i: nat, slots: multiset<int>, total: multiset<int>)
    requires i < |rest| && RootsWellFormed(rest)
    requires slots + ValuesAll(rest[i..]) == total
    ensures WellFormed(rest[i]) && !rest[i].hasTop
    ensures slots + Values(rest[i]) + ValuesAll(rest[i + 1..]) == total
  {
    assert rest[i] in rest;
    assert rest[i..] == [rest[i]] + rest[i + 1..];
    ValuesAllCons(rest[i], rest[i + 1..]);
  }

  /**
   * One round of `consolidate`'s last loop, when slot `j` holds `t`:
   * splicing `t` in keeps the root list well formed, its maximum at the head
   * and its ranks distinct and at most `j`.
   */
  lemma GatherTree(rs: seq<Tree>, t: Tree, j: nat)
    requires RootsWellFormed(rs) && HeadIsMax(rs) && DistinctRanks(rs)
    requires forall x :: x in rs ==> x.rank < j
    requires t.rank == j && WellFormed(t) && !t.hasTop
    ensures RootsWellFormed(Spliced(rs, t)) && HeadIsMax(Spliced(rs, t)) && DistinctRanks(Spliced(rs, t))
    ensures forall x :: x in Spliced(rs, t) ==> x.rank < j + 1
  {
    SplicedKeepsRoots(rs, t);
    SplicedHigherRank(rs, t);
  }

  /**
   * The root list `consolidate`'s last loop builds: starting from an empty
   * list, the tree of each taken slot is spliced in, in slot order.
   */
  function Gathered(slots: seq<Option<Tree>>): seq<Tree>
  {
    if |slots| == 0 then []
    else
      var rs := Gathered(slots[..|slots| - 1]);
      if slots[|slots| - 1].Some? then Spliced(rs, slots[|slots| - 1].value) else rs
  }

  /** The gathered root list holds exactly the values of the slots. */
  lemma {:induction false} GatheredValues(slots: seq<Option<Tree>>)
    ensures ValuesAll(Gathered(slots)) == SlotValues(slots)
  {
    if |slots| == 0 {
    } else {
      var init, last := slots[..|slots| - 1], slots[|slots| - 1];
      GatheredValues(init);
      SlotValuesSnoc(slots);
      if last.Some? {
        SplicedValues(Gathered(init), last.value);
      }
    }
  }

  /** The values of the slots: those of all but the last, and those of the last. */
  lemma SlotValuesSnoc(slots: seq<Option<Tree>>)
    requires |slots| > 0
    ensures SlotValues(slots) == SlotValues(slots[..|slots| - 1]) + SlotOf(slots[|slots| - 1])
  {
    var init, last := slots[..|slots| - 1], slots[|slots| - 1];
    assert slots == init + [last];
    SlotValuesConcat(init, [last]);
    SlotValuesCons(last, []);
  }

  /**
   * From slots that each hold a parentless tree of their own rank, the
   * gathered root list has well-formed trees, the maximum at the head and
   * no two roots of the same rank.
   */
  lemma {:induction false} GatheredSound(slots: seq<Option<Tree>>)
    requires SlotsHoldRanks(slots)
    ensures RootsWellFormed(Gathered(slots)) && HeadIsMax(Gathered(slots)) && DistinctRanks(Gathered(slots))
    ensures forall x :: x in Gathered(slots) ==> x.rank < |slots|
  {
    if |slots| > 0 {
      var init, last := slots[..|slots| - 1], slots[|slots| - 1];
      assert SlotsHoldRanks(init) by {
        forall j | 0 <= j < |init| ensures init[j] == slots[j] { }
      }
      GatheredSound(init);
      if last.Some? {
        GatherTree(Gathered(init), last.value, |init|);
      }
    }
  }

  /**
   * The loop of `moveHeadsChildrensToTop`: walks the circular child list
   * from `child` along `next`, clearing `top`, until it meets a node whose
   * `top` is already clear.
   */
  method ClearTops(first: seq<Tree>) returns (cleared: seq<Tree>)
    requires |first| > 0 && forall c :: c in first ==> c.hasTop
    ensures cleared == Unlinked(first)
  {
    cleared := first;
    var i: nat := 0;
    while cleared[i % |cleared|].hasTop
      invariant i <= |first| && |cleared| == |first|
      invariant forall k :: 0 <= k < i ==> cleared[k] == first[k].(hasTop := false)
      invariant forall k :: i <= k < |first| ==> cleared[k] == first[k]
      decreases |first| - i
    {
      cleared := cleared[i := cleared[i].(hasTop := false)];
      i := i + 1;
    }
    assert i == |first|;
  }

  /**
   * `Heap<T>` with `T` = `int`.  `roots` is the root list read from `head`
   * (empty when `head` is null), `n` the element count and `A` the rank
   * array `consolidate` reuses, whose length is `real_size`.
   */
  class Heap {
    var roots: seq<Tree>
    var n: int
    var A: array<Option<Tree>>

    /** The values the heap holds. */
    ghost function Contents(): multiset<int>
      reads this
    {
      ValuesAll(roots)
    }

    /** What holds between the public operations. */
    ghost predicate Valid()
      reads this
    {
      n == |ValuesAll(roots)| && RootsWellFormed(roots) && HeadIsMax(roots)
    }

    /** `Heap()`: no `head`, `n` is 0 and no array is allocated yet. */
    constructor()
      ensures Valid() && Contents() == multiset{} && roots == []
    {
      roots := [];
      n := 0;
      A := new Option<Tree>[0];
    }

    /** `empty()`: `head` is null, which happens exactly when no value is stored. */
    function Empty(): (r: bool)
      reads this
      ensures Valid() ==> (r <==> n == 0)
      ensures Valid() ==> (r <==> Contents() == multiset{})
    {
      if |roots| == 0 then true
      else
        ValuesOfMember(roots, 0);
        false
    }

    /** `top()`: the value at `head`, a largest value of the heap. */
    function Top(): (r: int)
      reads this
      requires Valid() && |roots| > 0
      ensures r in Contents() && forall v :: v in Contents() ==> v <= r
    {
      HeadHoldsMaximum(roots);
      roots[0].val
    }

    /**
     * `insert(val)`: a new node goes into the root list right after `head`
     * and `n` goes up by one.  (The returned `Finger` is not modelled.)
     */
    method Insert(x: int)
      modifies this`roots, this`n
      requires Valid()
      ensures Valid() && n == old(n) + 1
      ensures Contents() == old(Contents()) + multiset{x}
      ensures roots == Spliced(old(roots), Leaf(x))
    {
      ghost var rs := roots;
      n := n + 1;
      InsertRoot(Leaf(x));
      assert Values(Leaf(x)) == multiset{x};
      SplicedValues(rs, Leaf(x));
      SplicedKeepsRoots(rs, Leaf(x));
    }

    /**
     * `insert(node)`: splices `t` into the root list right after `head`; `t`
     * becomes `head` when its value is strictly greater.
     */
    method InsertRoot(t: Tree)
      modifies this`roots
      ensures roots == Spliced(old(roots), t)
    {
      if |roots| == 0 {
        roots := [t];
        return;
      }
      var left := roots[0];
      if left.val < t.val {
        roots := [t] + roots[1..] + [left];
      } else {
        roots := [left, t] + roots[1..];
      }
    }

    /**
     * `moveHeadsChildrensToTop()`: clears `top` of every child of `head`,
     * walking the child list until it meets a node whose `top` is already
     * clear, then splices the child list in right after `head`.
     */
    method MoveHeadsChildrenToTop()
      modifies this`roots
      requires |roots| > 0 && forall c :: c in roots[0].children ==> c.hasTop
      ensures roots == [old(roots[0])] + PoppedRoots(old(roots))
    {
      var first := roots[0].children;
      if |first| == 0 {
        assert Unlinked(first) == [];
        assert roots == [roots[0]] + ([] + roots[1..]);
        return;
      }
      var cleared := ClearTops(first);
      roots := [roots[0]] + (cleared + roots[1..]);
    }

    /**
     * `pop()`: the children of `head` join the root list, `head` leaves it
     * and `n` goes down by one.
     */
    method Pop()
      modifies this, A
      requires Valid() && |roots| > 0
      ensures Valid() && n == old(n) - 1
      ensures Contents() + multiset{old(Top())} == old(Contents())
      ensures DistinctRanks(roots)
    {
      var count := n;
      ghost var rs := roots;
      RemoveHeadKeepsRest(rs);
      MoveHeadsChildrenToTop();
      DetachHead(PoppedRoots(rs));
      n := count - 1;
    }

    /**
     * The rest of `pop()` once the children of `head` are in the root list:
     * the last node leaves an empty heap; otherwise `head` moves on to its
     * successor, the old head is detached and the roots are consolidated.
     */
    method DetachHead(ghost after: seq<Tree>)
      modifies this`roots, this`A, A
      requires |roots| > 0 && roots == [roots[0]] + after
      requires RootsWellFormed(after) && |ValuesAll(after)| <= n
      requires DetachRoot([roots[0]] + after, 0) == after
      ensures ValuesAll(roots) == ValuesAll(after)
      ensures RootsWellFormed(roots) && HeadIsMax(roots) && DistinctRanks(roots)
    {
      if roots == [roots[0]] {
        assert after == [];
        roots := [];
      } else {
        roots := DetachRoot(roots, 0);
        Consolidate();
      }
    }

    /**
     * `allocateA()`: the number of rank slots `consolidate` uses,
     * floor(log2 n) + 1; the array is replaced by one of that many slots
     * and five more when it is shorter.
     */
    method AllocateA() returns (size: nat)
      modifies this`A
      requires n >= 1
      ensures size == Log2Floor(n) + 1 && size <= A.Length
      ensures old(A.Length) >= size ==> A == old(A)
      ensures old(A.Length) < size ==> fresh(A) && A.Length == size + 5
    {
      size := Log2Floor(n) + 1;
      if size > A.Length {
        A := new Option<Tree>[size + 5](_ => None);
      }
    }

    /**
     * The body of `consolidate`'s inner loop: the tree in slot `it.rank` is
     * taken out, the slot cleared, and the two trees are linked with the
     * larger value on top.
     */
    method LinkWithSlot(it: Tree, size: nat, ghost later: multiset<int>, ghost total: multiset<int>)
      returns (linked: Tree)
      modifies A
      requires n >= 1 && size == Log2Floor(n) + 1 && size <= A.Length && |total| <= n
      requires WellFormed(it) && !it.hasTop && it.rank < size && A[it.rank].Some?
      requires SlotsHoldRanks(A[..size]) && SlotValues(A[..size]) + Values(it) + later == total
      ensures WellFormed(linked) && !linked.hasTop && linked.rank == it.rank + 1 < size
      ensures SlotsHoldRanks(A[..size]) && SlotValues(A[..size]) + Values(linked) + later == total
    {
      ghost var s := A[..size];
      var parent, other := it, A[it.rank].value;
      A[it.rank] := None;
      assert A[..size] == s[it.rank := None];
      if other.val > parent.val {
        parent, other := other, parent;
      }
      LinkRound(s, it.rank, it, parent, other, later, total, n);
      linked := Link(parent, other);
    }

    /** `A[it->rank] = it`: the carried tree lands in its empty slot. */
    method PutInSlot(it: Tree, size: nat, ghost later: multiset<int>, ghost total: multiset<int>)
      modifies A
      requires size <= A.Length && WellFormed(it) && !it.hasTop && it.rank < size && A[it.rank].None?
      requires SlotsHoldRanks(A[..size]) && SlotValues(A[..size]) + Values(it) + later == total
      ensures SlotsHoldRanks(A[..size]) && SlotValues(A[..size]) + later == total
    {
      ghost var s := A[..size];
      A[it.rank] := Some(it);
      assert A[..size] == s[it.rank := Some(it)];
      StoreCarried(s, it, later, total);
    }

    /**
     * One pass of the first loop of `consolidate`: `it` is carried into the
     * slot named by its rank; while that slot is taken, the two trees are
     * linked, the larger value on top, and the result is carried one slot
     * further, until it lands in an empty slot.
     */
    method DropIn(t: Tree, size: nat, ghost later: multiset<int>, ghost total: multiset<int>)
      modifies A
      requires n >= 1 && size == Log2Floor(n) + 1 && size <= A.Length && |total| <= n
      requires WellFormed(t) && !t.hasTop
      requires SlotsHoldRanks(A[..size]) && SlotValues(A[..size]) + Values(t) + later == total
      ensures SlotsHoldRanks(A[..size]) && SlotValues(A[..size]) + later == total
    {
      var it := t;
      CarriedRankFits(A[..size], it, later, total, n);
      while A[it.rank].Some?
        invariant WellFormed(it) && !it.hasTop && it.rank < size
        invariant SlotsHoldRanks(A[..size])
        invariant SlotValues(A[..size]) + Values(it) + later == total
        decreases size - it.rank
      {
        it := LinkWithSlot(it, size, later, total);
      }
      PutInSlot(it, size, later, total);
    }

    /**
     * The first loop of `consolidate`: each tree of the detached root list
     * is carried into the slot of `A` named by its rank; while that slot is
     * taken, the two trees are linked, the larger value on top, and the
     * result is carried one slot further.
     */
    method LinkByRank(rest: seq<Tree>, size: nat)
      modifies A
      requires n >= 1 && size == Log2Floor(n) + 1 && size <= A.Length
      requires forall k :: 0 <= k < size ==> A[k].None?
      requires RootsWellFormed(rest) && |ValuesAll(rest)| <= n
      ensures SlotsHoldRanks(A[..size]) && SlotValues(A[..size]) == ValuesAll(rest)
    {
      ghost var total := ValuesAll(rest);
      SlotValuesNone(A[..size]);
      assert rest[0..] == rest;
      var i: nat := 0;
      while i < |rest|
        invariant i <= |rest|
        invariant SlotsHoldRanks(A[..size])
        invariant SlotValues(A[..size]) + ValuesAll(rest[i..]) == total
      {
        NextRoot(rest, i, SlotValues(A[..size]), total);
        DropIn(rest[i], size, ValuesAll(rest[i + 1..]), total);
        i := i + 1;
      }
    }

    /** `consolidate`'s clearing of the first `size` slots of `A`. */
    method ClearA(size: nat)
      modifies A
      requires size <= A.Length
      ensures forall k :: 0 <= k < size ==> A[k].None?
    {
      for j := 0 to size
        invariant forall k :: 0 <= k < j ==> A[k].None?
      {
        A[j] := None;
      }
    }

    /**
     * The last loop of `consolidate`: the trees left in the slots of `A` are
     * spliced into an empty root list in order of rank.
     */
    method GatherRoots(size: nat)
      modifies this`roots
      requires size <= A.Length
      ensures roots == Gathered(A[..size])
    {
      roots := [];
      for j := 0 to size
        invariant roots == Gathered(A[..j])
      {
        assert A[..j + 1][..j] == A[..j];
        if A[j].Some? {
          InsertRoot(A[j].value);
        }
      }
    }

    /**
     * `consolidate()`: every root is linked with the root of equal rank
     * met before it, the larger value on top, until all ranks differ; then
     * the roots are spliced back in order of rank.
     */
    method Consolidate()
      modifies this`roots, this`A, A
      requires |roots| > 0 && RootsWellFormed(roots) && |ValuesAll(roots)| <= n
      ensures ValuesAll(roots) == old(ValuesAll(roots))
      ensures |roots| > 0 && RootsWellFormed(roots) && HeadIsMax(roots) && DistinctRanks(roots)
    {
      ghost var total := ValuesAll(roots);
      ValuesOfMember(roots, 0);
      var size := AllocateA();
      ClearA(size);
      LinkByRank(roots, size);
      GatherRoots(size);
      GatheredValues(A[..size]);
      GatheredSound(A[..size]);
    }
  }
}
