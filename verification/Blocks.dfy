/** Aligned power-of-two blocks of page indices.

    `Head(p, k)` clears the low `k` bits of `p` and `Buddy(p, k)` flips bit `k`, which is what
    `page ^ (1 << order)` computes. Both are defined by halving, so that every proof below is an
    induction on the order over linear arithmetic.
 */
module Blocks {

  /** 1 << k */
  function Pow2(k: nat): (r: nat)
    ensures r >= 1
  {
    if k == 0 then 1 else 2 * Pow2(k - 1)
  }

  /** The first page of the aligned block of order `k` that holds page `p`. */
  function Head(p: nat, k: nat): nat
  {
    if k == 0 then p else 2 * Head(p / 2, k - 1)
  }

  /** p ^ (1 << k) */
  function Buddy(p: nat, k: nat): nat
  {
    if k == 0 then (if p % 2 == 0 then p + 1 else p - 1) else 2 * Buddy(p / 2, k - 1) + p % 2
  }

  predicate Aligned(p: nat, k: nat)
  {
    Head(p, k) == p
  }

  lemma {:induction false} HeadBounds(p: nat, k: nat)
    ensures Head(p, k) <= p < Head(p, k) + Pow2(k)
    ensures Aligned(Head(p, k), k)
  {
    if k > 0 {
      HeadBounds(p / 2, k - 1);
    }
  }

  lemma {:induction false} HeadUnique(h: nat, p: nat, k: nat)
    requires Aligned(h, k) && h <= p < h + Pow2(k)
    ensures Head(p, k) == h
  {
    if k > 0 {
      HeadUnique(h / 2, p / 2, k - 1);
    }
  }

  /** Aligned blocks nest: clearing j >= i bits makes clearing i bits first irrelevant. */
  lemma {:induction false} HeadNest(p: nat, i: nat, j: nat)
    requires i <= j
    ensures Head(Head(p, i), j) == Head(p, j)
  {
    if i > 0 {
      HeadNest(p / 2, i - 1, j - 1);
    }
  }

  lemma {:induction false} Pow2Mono(i: nat, j: nat)
    requires i <= j
    ensures Pow2(i) <= Pow2(j)
  {
    if i < j {
      Pow2Mono(i, j - 1);
    }
  }

  lemma {:induction false} Pow2Strict(i: nat, j: nat)
    requires i < j
    ensures Pow2(i) < Pow2(j)
  {
    Pow2Mono(i + 1, j);
  }

  /** An aligned block of order i with its head inside an aligned block of order j >= i lies inside it. */
  lemma {:induction false} BlockInside(a: nat, i: nat, b: nat, j: nat)
    requires Aligned(a, i) && Aligned(b, j) && i <= j && b <= a < b + Pow2(j)
    ensures a + Pow2(i) <= b + Pow2(j)
  {
    if i > 0 {
      BlockInside(a / 2, i - 1, b / 2, j - 1);
    }
  }

  /** Aligned to a larger order means aligned to a smaller one. */
  lemma {:induction false} AlignedDown(p: nat, i: nat, j: nat)
    requires i <= j && Aligned(p, j)
    ensures Aligned(p, i)
  {
    HeadNest(p, i, j);
    HeadBounds(p, i);
    HeadBounds(Head(p, i), j);
  }

  /** The two buddies of order k are the two halves of one block of order k + 1. */
  lemma {:induction false} BuddyHalves(p: nat, k: nat)
    requires Aligned(p, k)
    ensures Aligned(Buddy(p, k), k)
    ensures Buddy(Buddy(p, k), k) == p
    ensures Head(p, k + 1) == Head(Buddy(p, k), k + 1)
    ensures if Aligned(p, k + 1) then Buddy(p, k) == p + Pow2(k) && Head(p, k + 1) == p
            else p == Buddy(p, k) + Pow2(k) && Head(p, k + 1) == Buddy(p, k)
    ensures Head(p, k + 1) == if Buddy(p, k) < p then Buddy(p, k) else p
  {
    if k > 0 {
      BuddyHalves(p / 2, k - 1);
    } else {
      assert Head(p, 1) == 2 * (p / 2);
    }
  }

  /** The upper half of an aligned block is aligned and is the buddy of its lower half. */
  lemma {:induction false} UpperHalf(p: nat, k: nat)
    requires Aligned(p, k + 1)
    ensures Aligned(p, k) && Aligned(p + Pow2(k), k)
    ensures Buddy(p, k) == p + Pow2(k) && Buddy(p + Pow2(k), k) == p
  {
    AlignedDown(p, k, k + 1);
    BuddyHalves(p, k);
  }

  /** A larger aligned block that holds one buddy holds the other. */
  lemma {:induction false} BuddyInside(p: nat, k: nat, h: nat, j: nat)
    requires Aligned(p, k) && Aligned(h, j) && k < j
    requires h <= p < h + Pow2(j) || h <= Buddy(p, k) < h + Pow2(j)
    ensures h <= p < h + Pow2(j) && h <= Buddy(p, k) < h + Pow2(j)
  {
    var q := Buddy(p, k);
    BuddyHalves(p, k);
    if h <= p < h + Pow2(j) {
      HeadUnique(h, p, j);
    } else {
      HeadUnique(h, q, j);
    }
    HeadNest(q, k + 1, j);
    HeadNest(p, k + 1, j);
    HeadBounds(p, j);
    HeadBounds(q, j);
  }

  /** A page aligned to order k is the first page of every aligned block of at most that order holding it. */
  lemma {:induction false} AlignedIsHead(q: nat, k: nat, h: nat, i: nat)
    requires Aligned(q, k) && i <= k && Aligned(h, i) && h <= q < h + Pow2(i)
    ensures h == q
  {
    AlignedDown(q, i, k);
    HeadUnique(h, q, i);
  }

  /** The buddies met when an aligned block is halved repeatedly. */
  lemma {:induction false} UpperHalfOf(h: nat, k: nat, c: nat)
    requires Aligned(h, c) && k < c
    ensures Aligned(h + Pow2(k), k) && Buddy(h + Pow2(k), k) == h
  {
    AlignedDown(h, k + 1, c);
    UpperHalf(h, k);
  }
}
