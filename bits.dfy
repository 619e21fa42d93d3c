/**
 * Bit-level helpers: a 64-bit word seen as its 64 bits, the `findFirstSet`
 * intrinsic of non_std/BitOperations/Intrincts.hpp, and powers of two.
 */
module Bits {

  /**
   * A 64-bit unsigned word given by its bits: `w[b]` is bit `b`, bit 0
   * being the least significant one.
   */
  type Word = w: seq<bool> | |w| == 64 witness seq(64, _ => false)

  /** The word `0x0`. */
  const Zero: Word := seq(64, _ => false)

  /** The word `0xffffffffffffffff`. */
  const AllOnes: Word := seq(64, _ => true)

  /** `w == 0x0`. */
  predicate IsZero(w: Word)
  {
    w == seq(64, _ => false)
  }

  /** A word is zero exactly when none of its bits is set. */
  lemma ZeroIffNoBitSet(w: Word)
    ensures IsZero(w) <==> forall j :: 0 <= j < 64 ==> !w[j]
  {
    if forall j :: 0 <= j < 64 ==> !w[j] {
      assert w == Zero;
    }
  }

  /** The all-clear word is zero and the all-set word is not. */
  lemma ZeroAndAllOnesWords()
    ensures IsZero(Zero) && !IsZero(AllOnes)
  {
    assert AllOnes[0] != Zero[0];
  }

  /** `w ^ (1ull << b)`: bit `b` flipped, every other bit kept. */
  function Flip(w: Word, b: nat): (r: Word)
    requires b < 64
    ensures r[b] == !w[b]
    ensures forall j :: 0 <= j < 64 && j != b ==> r[j] == w[j]
  {
    w[b := !w[b]]
  }

  /**
   * One plus the position of the lowest set bit of `w` at position `i` or
   * above, or 0 when no bit from `i` up is set.
   */
  function FirstSetFrom(w: Word, i: nat): (r: nat)
    requires i <= 64
    ensures r == 0 <==> forall j :: i <= j < 64 ==> !w[j]
    ensures r != 0 ==> i < r <= 64 && w[r - 1] && forall j :: i <= j < r - 1 ==> !w[j]
    decreases 64 - i
  {
    if i == 64 then 0
    else if w[i] then i + 1
    else FirstSetFrom(w, i + 1)
  }

  /**
   * `findFirstSet`: one plus the position of the least significant set bit
   * of `w`, or 0 when `w` is zero (the contract stated at Intrincts.hpp:8).
   */
  function FindFirstSet(w: Word): (r: nat)
    ensures r <= 64
    ensures r == 0 <==> IsZero(w)
    ensures r != 0 ==> w[r - 1] && forall j :: 0 <= j < r - 1 ==> !w[j]
  {
    ZeroIffNoBitSet(w);
    FirstSetFrom(w, 0)
  }

  function Pow2(k: nat): (r: nat)
    ensures r >= 1
  {
    if k == 0 then 1 else 2 * Pow2(k - 1)
  }

  lemma {:induction false} Pow2Monotone(a: nat, b: nat)
    requires a <= b
    ensures Pow2(a) <= Pow2(b)
  {
    if a < b { Pow2Monotone(a, b - 1); }
  }

  /** floor(log2 m): the integer counterpart of `log(n) / log(2)`. */
  function Log2Floor(m: nat): (r: nat)
    requires m >= 1
    ensures Pow2(r) <= m < Pow2(r + 1)
  {
    if m == 1 then 0 else Log2Floor(m / 2) + 1
  }

  /** A power of two that fits in `m` has an exponent of at most floor(log2 m). */
  lemma {:induction false} Log2FloorBound(k: nat, m: nat)
    requires m >= 1 && Pow2(k) <= m
    ensures k <= Log2Floor(m)
  {
    if k > Log2Floor(m) {
      Pow2Monotone(Log2Floor(m) + 1, k);
    }
  }
}
