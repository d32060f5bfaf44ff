/**
 * The driver's utility macros: wrap-around increment and decrement of a
 * ring index (`INCR`, `DECR`) and `A_MAX`.
 *
 * `INCR(l, sz)` and `DECR(l, sz)` update the variable `l` in place; here
 * each is a method that takes the old value of `l` and returns the new one.
 * Both mask with `sz - 1`, which wraps modulo `sz` only when `sz` is a power
 * of two; the methods state both what they compute for every `sz` and what
 * that means when `sz` is a power of two.
 */
module Util {
  import opened CArith

  ghost predicate IsPow2(n: int)
  {
    exists k: nat :: n == Pow2(k)
  }

  /** The slot after `l` in a ring of `sz` slots. */
  function RingNext(l: int, sz: int): int
    requires sz > 0
  {
    (l + 1) % sz
  }

  /** The slot before `l` in a ring of `sz` slots. */
  function RingPrev(l: int, sz: int): int
    requires sz > 0
  {
    (l - 1 + sz) % sz
  }

  /** `INCR(l, sz)`: `l++; l &= sz - 1`. */
  method Incr(l: int, sz: int) returns (l': int)
    ensures l' == BitAnd(l + 1, sz - 1)
    ensures 0 <= l < sz && IsPow2(sz) ==> l' == RingNext(l, sz)
  {
    l' := l + 1;
    l' := BitAnd(l', sz - 1);
    if 0 <= l < sz && IsPow2(sz) {
      var k: nat :| sz == Pow2(k);
      MaskIsRing(l, k);
    }
  }

  /** `DECR(l, sz)`: `l--; l &= sz - 1`. */
  method Decr(l: int, sz: int) returns (l': int)
    ensures l' == BitAnd(l - 1, sz - 1)
    ensures 0 <= l < sz && IsPow2(sz) ==> l' == RingPrev(l, sz)
  {
    l' := l - 1;
    l' := BitAnd(l', sz - 1);
    if 0 <= l < sz && IsPow2(sz) {
      var k: nat :| sz == Pow2(k);
      MaskIsRing(l, k);
    }
  }

  /** Both stay inside the ring and undo each other there. */
  lemma RingNextPrev(l: int, sz: int)
    requires 0 <= l < sz
    ensures 0 <= RingNext(l, sz) < sz && 0 <= RingPrev(l, sz) < sz
    ensures RingNext(l, sz) == if l + 1 < sz then l + 1 else 0
    ensures RingPrev(l, sz) == if l > 0 then l - 1 else sz - 1
    ensures RingPrev(RingNext(l, sz), sz) == l
    ensures RingNext(RingPrev(l, sz), sz) == l
  {
    RingCases(l, sz);
    RingCases(RingNext(l, sz), sz);
    RingCases(RingPrev(l, sz), sz);
  }

  lemma RingCases(l: int, sz: int)
    requires 0 <= l < sz
    ensures RingNext(l, sz) == if l + 1 < sz then l + 1 else 0
    ensures RingPrev(l, sz) == if l > 0 then l - 1 else sz - 1
  {
    if l + 1 < sz {
      DivModUnique(l + 1, sz, 0, l + 1);
    } else {
      DivModUnique(l + 1, sz, 1, 0);
    }
    if l > 0 {
      DivModUnique(l - 1 + sz, sz, 1, l - 1);
    } else {
      DivModUnique(l - 1 + sz, sz, 0, sz - 1);
    }
  }

  /**
   * For a power-of-two ring size the masked increment and decrement are the
   * ring successor and predecessor.
   */
  lemma MaskIsRing(l: int, k: nat)
    requires 0 <= l < Pow2(k)
    ensures BitAnd(l + 1, Pow2(k) - 1) == RingNext(l, Pow2(k))
    ensures BitAnd(l - 1, Pow2(k) - 1) == RingPrev(l, Pow2(k))
  {
    var sz := Pow2(k);
    BitAndLowMask(l + 1, k);
    BitAndLowMask(l - 1, k);
    RingCases(l, sz);
    if l > 0 {
      DivModUnique(l - 1, sz, 0, l - 1);
    } else {
      DivModUnique(-1, sz, -1, sz - 1);
    }
  }

  /**
   * With a power-of-two ring size, `DECR` after `INCR` (and `INCR` after
   * `DECR`) gives back every index in the ring.
   */
  lemma MaskedIncrDecr(l: int, k: nat)
    requires 0 <= l < Pow2(k)
    ensures BitAnd(BitAnd(l + 1, Pow2(k) - 1) - 1, Pow2(k) - 1) == l
    ensures BitAnd(BitAnd(l - 1, Pow2(k) - 1) + 1, Pow2(k) - 1) == l
  {
    MaskedIncrThenDecr(l, k);
    MaskedDecrThenIncr(l, k);
  }

  lemma MaskedIncrThenDecr(l: int, k: nat)
    requires 0 <= l < Pow2(k)
    ensures BitAnd(BitAnd(l + 1, Pow2(k) - 1) - 1, Pow2(k) - 1) == l
  {
    var sz := Pow2(k);
    var n := RingNext(l, sz);
    RingNextPrev(l, sz);
    assert 0 <= n < sz && RingPrev(n, sz) == l;
    MaskIsRing(l, k);
    assert BitAnd(l + 1, sz - 1) == n;
    MaskIsRing(n, k);
  }

  lemma MaskedDecrThenIncr(l: int, k: nat)
    requires 0 <= l < Pow2(k)
    ensures BitAnd(BitAnd(l - 1, Pow2(k) - 1) + 1, Pow2(k) - 1) == l
  {
    var sz := Pow2(k);
    var p := RingPrev(l, sz);
    RingNextPrev(l, sz);
    assert 0 <= p < sz && RingNext(p, sz) == l;
    MaskIsRing(l, k);
    assert BitAnd(l - 1, sz - 1) == p;
    MaskIsRing(p, k);
  }

  /**
   * The power-of-two condition is needed: in a ring of three slots `INCR`
   * takes slot 0 back to slot 0.
   */
  lemma IncrNeedsPowerOfTwo()
    ensures BitAnd(0 + 1, 3 - 1) == 0 != RingNext(0, 3)
  {
  }

  /** `A_MAX(a, b)`: the larger of the two (the second on a tie). */
  function AMax(a: int, b: int): (m: int)
    ensures m >= a && m >= b
    ensures m == a || m == b
  {
    if a > b then a else b
  }
}
