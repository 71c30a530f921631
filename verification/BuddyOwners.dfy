/** The block structure of the buddy allocator, page by page.

    Every page has exactly one owner: it is outside the allocator (`Hole`), reserved at boot, or part
    of one aligned block that is free or handed out. A block set is therefore a partition by
    construction, and what has to be kept is that all pages of a block agree on it (`Tiled`) and
    that no two free buddies of equal order coexist (`Canonical`).
 */
module BuddyOwners {
  import opened Blocks

  const MAX_ORDER: nat := 10

  datatype Owner =
    | Hole                            // not reserved and not inside an available region
    | Reserved                        // marked allocated at boot
    | Free(head: nat, order: nat)
    | Live(head: nat, order: nat)     // handed out by an allocation

  predicate Managed(b: Owner)
  {
    b.Free? || b.Live?
  }

  /** Page q lies in block b. */
  predicate In(q: int, b: Owner)
    requires Managed(b)
  {
    b.head <= q < b.head + Pow2(b.order)
  }

  /** Every page of block b is owned by b. */
  ghost predicate Uniform(s: seq<Owner>, b: Owner)
    requires Managed(b)
  {
    && b.head + Pow2(b.order) <= |s|
    && forall q :: 0 <= q < |s| && In(q, b) ==> s[q] == b
  }

  ghost predicate BlockOk(s: seq<Owner>, b: Owner)
    requires Managed(b)
  {
    && b.order <= MAX_ORDER
    && Aligned(b.head, b.order)
    && Uniform(s, b)
  }

  ghost predicate Tiled(s: seq<Owner>)
  {
    forall p :: 0 <= p < |s| && Managed(s[p]) ==> In(p, s[p]) && BlockOk(s, s[p])
  }

  /** A free block of order k starts at page p. */
  predicate FreeHead(s: seq<Owner>, p: nat, k: nat)
  {
    p < |s| && s[p] == Free(p, k)
  }

  /** If a free block below the largest order starts at p, its buddy is not a free block of its order. */
  predicate Lonely(s: seq<Owner>, p: nat, k: nat)
  {
    FreeHead(s, p, k) && k < MAX_ORDER ==> !FreeHead(s, Buddy(p, k), k)
  }

  /** No free block below the largest order has a free buddy of its own order. */
  ghost predicate Canonical(s: seq<Owner>)
  {
    forall p: nat, k: nat :: Lonely(s, p, k)
  }

  predicate HarmlessHole(s: seq<Owner>, p: nat)
  {
    p < |s| && s[p].Hole? ==> Buddy(p, 0) >= |s| || !Managed(s[Buddy(p, 0)])
  }

  /** A hole read by coalescing looks like a free page of order 0, so it must not be the order-0
      buddy of a page of the allocator. */
  ghost predicate HolesHarmless(s: seq<Owner>)
  {
    forall p: nat :: HarmlessHole(s, p)
  }

  // ---------- repainting a region ----------

  /** All pages of the block [h, h + 2^k) get owner v. */
  function Paint(s: seq<Owner>, h: nat, k: nat, v: Owner): (r: seq<Owner>)
    ensures |r| == |s|
    ensures forall q :: 0 <= q < |s| ==> r[q] == if h <= q < h + Pow2(k) then v else s[q]
  {
    seq(|s|, q requires 0 <= q < |s| => if h <= q < h + Pow2(k) then v else s[q])
  }

  /** [a, b) is a union of whole blocks of s. */
  ghost predicate Closed(s: seq<Owner>, a: nat, b: nat)
  {
    forall p :: a <= p < b && p < |s| && Managed(s[p]) ==>
      a <= s[p].head && s[p].head + Pow2(s[p].order) <= b
  }

  lemma {:induction false} RepaintTiled(s: seq<Owner>, r: seq<Owner>, a: nat, b: nat)
    requires Tiled(s) && Closed(s, a, b) && |r| == |s|
    requires forall q :: 0 <= q < |s| && !(a <= q < b) ==> r[q] == s[q]
    requires forall q :: 0 <= q < |s| && a <= q < b && Managed(r[q]) ==> In(q, r[q]) && BlockOk(r, r[q])
    ensures Tiled(r)
  {
    forall p | 0 <= p < |r| && Managed(r[p])
      ensures In(p, r[p]) && BlockOk(r, r[p])
    {
      if !(a <= p < b) {
        forall q | 0 <= q < |r| && In(q, r[p])
          ensures r[q] == r[p]
        {
          assert s[q] == s[p];
        }
      }
    }
  }

  /** A block inside a tiled state is closed under taking whole blocks. */
  lemma {:induction false} BlockClosed(s: seq<Owner>, p: nat)
    requires Tiled(s) && p < |s| && Managed(s[p])
    ensures Closed(s, s[p].head, s[p].head + Pow2(s[p].order))
  {
  }

  // ---------- uniqueness of the canonical decomposition ----------

  /** The buddy page of a block is never strictly inside another block, so the metadata read there
      during coalescing is that of a block head. */
  lemma {:induction false} BuddyIsHead(s: seq<Owner>, p: nat, k: nat)
    requires Tiled(s) && p < |s| && Managed(s[p]) && s[p].head == p && s[p].order == k
    requires Buddy(p, k) < |s| && Managed(s[Buddy(p, k)])
    ensures var b := s[Buddy(p, k)]; b.head == Buddy(p, k) && b.order <= k
  {
    var q := Buddy(p, k);
    BuddyHalves(p, k);
    if s[q].order > k {
      BuddyInside(p, k, s[q].head, s[q].order);
      assert In(p, s[q]);
    } else {
      AlignedIsHead(q, k, s[q].head, s[q].order);
    }
  }

  /** A fully free aligned block of order j holds no smaller block of a canonical state: following
      buddies from one would reach ever smaller blocks. */
  lemma {:induction false} NoSmallerInside(s: seq<Owner>, h: nat, j: nat, p: nat)
    requires Tiled(s) && Canonical(s)
    requires Aligned(h, j) && j <= MAX_ORDER && h <= p < h + Pow2(j) <= |s|
    requires forall q :: h <= q < h + Pow2(j) ==> s[q].Free?
    ensures s[p].order >= j
    decreases s[p].order
  {
    var b := s[p];
    if b.order < j {
      var q := Buddy(b.head, b.order);
      HeadUnique(b.head, p, b.order);
      HeadUnique(h, p, j);
      HeadNest(p, b.order, j);
      HeadBounds(b.head, j);
      BuddyInside(b.head, b.order, h, j);
      BuddyIsHead(s, b.head, b.order);
      assert Lonely(s, b.head, b.order);
      NoSmallerInside(s, h, j, q);
    }
  }

  /** The free blocks of a canonical state are determined by its free pages. */
  lemma {:induction false} CanonicalUnique(s: seq<Owner>, t: seq<Owner>, p: nat)
    requires Tiled(s) && Canonical(s) && Tiled(t) && Canonical(t) && |s| == |t|
    requires forall q :: 0 <= q < |s| ==> s[q].Free? == t[q].Free?
    requires p < |s| && s[p].Free?
    ensures s[p] == t[p]
  {
    NoSmallerInside(s, t[p].head, t[p].order, p);
    NoSmallerInside(t, s[p].head, s[p].order, p);
    HeadUnique(s[p].head, p, s[p].order);
    HeadUnique(t[p].head, p, t[p].order);
  }

  // ---------- splitting ----------

  /** The owner of page q of the free block (h, c) after an allocation of order o from it: the first
      2^o pages are live and each upper half on the way down is a free block of its own. */
  function HalfOf(h: nat, c: nat, o: nat, q: nat): (b: Owner)
    requires o <= c
    ensures Managed(b)
    decreases c
  {
    if c == o then Live(h, o)
    else if q >= h + Pow2(c - 1) then Free(h + Pow2(c - 1), c - 1)
    else HalfOf(h, c - 1, o, q)
  }

  function Split(s: seq<Owner>, h: nat, c: nat, o: nat): (r: seq<Owner>)
    requires o <= c
    ensures |r| == |s|
    ensures forall q :: 0 <= q < |s| ==> r[q] == if h <= q < h + Pow2(c) then HalfOf(h, c, o, q) else s[q]
  {
    seq(|s|, q requires 0 <= q < |s| => if h <= q < h + Pow2(c) then HalfOf(h, c, o, q) else s[q])
  }

  /** Which pages of a split block are live and which are free, and the free blocks it leaves. */
  ghost predicate IsHalf(b: Owner, h: nat, c: nat, o: nat, q: nat)
  {
    if q < h + Pow2(o) then b == Live(h, o)
    else b.Free? && o <= b.order < c && b.head == h + Pow2(b.order) && In(q, b)
  }

  lemma {:induction false} HalfShape(h: nat, c: nat, o: nat, q: nat)
    requires o <= c && h <= q < h + Pow2(c)
    ensures IsHalf(HalfOf(h, c, o, q), h, c, o, q)
    decreases c
  {
    if c > o {
      Pow2Mono(o, c - 1);
      if q < h + Pow2(c - 1) {
        HalfShape(h, c - 1, o, q);
      }
    }
  }

  lemma {:induction false} HalfUniform(h: nat, c: nat, o: nat, p: nat, q: nat)
    requires o <= c && h <= p < h + Pow2(c)
    requires In(q, HalfOf(h, c, o, p))
    ensures HalfOf(h, c, o, q) == HalfOf(h, c, o, p)
    decreases c
  {
    if c > o && p < h + Pow2(c - 1) {
      HalfShape(h, c - 1, o, p);
      HalfInside(h, c - 1, o, p);
      HalfUniform(h, c - 1, o, p, q);
    }
  }

  lemma {:induction false} HalfInside(h: nat, c: nat, o: nat, p: nat)
    requires o <= c && h <= p < h + Pow2(c)
    ensures var b := HalfOf(h, c, o, p); h <= b.head && b.head + Pow2(b.order) <= h + Pow2(c)
  {
    HalfShape(h, c, o, p);
    var k := HalfOf(h, c, o, p).order;
    Pow2Mono(o, c);
    if k < c {
      Pow2Mono(k + 1, c);
    }
  }

  lemma {:induction false} HalfAligned(h: nat, c: nat, o: nat, p: nat)
    requires o <= c && h <= p < h + Pow2(c) && Aligned(h, c)
    ensures var b := HalfOf(h, c, o, p); In(p, b) && Aligned(b.head, b.order) && b.order <= c
  {
    HalfShape(h, c, o, p);
    var k := HalfOf(h, c, o, p).order;
    AlignedDown(h, o, c);
    if k < c {
      UpperHalfOf(h, k, c);
    }
  }

  lemma {:induction false} SplitTiled(s: seq<Owner>, h: nat, c: nat, o: nat)
    requires Tiled(s) && o <= c && h < |s| && s[h] == Free(h, c)
    ensures Tiled(Split(s, h, c, o))
  {
    var r := Split(s, h, c, o);
    assert BlockOk(s, s[h]);
    forall p | 0 <= p < |s| && h <= p < h + Pow2(c)
      ensures In(p, r[p]) && BlockOk(r, r[p])
    {
      HalfInside(h, c, o, p);
      HalfAligned(h, c, o, p);
      forall q | 0 <= q < |r| && In(q, r[p]) ensures r[q] == r[p] {
        HalfUniform(h, c, o, p, q);
      }
    }
    BlockClosed(s, h);
    RepaintTiled(s, r, h, h + Pow2(c));
  }

  /** The buddy of a remainder of a split starts at h, where the live block starts. */
  lemma {:induction false} RemainderBuddy(s: seq<Owner>, h: nat, c: nat, o: nat, p: nat, k: nat)
    requires o <= c && Aligned(h, c) && h <= p < h + Pow2(c) <= |s|
    requires FreeHead(Split(s, h, c, o), p, k)
    ensures Buddy(p, k) == h && Split(s, h, c, o)[h] == Live(h, o)
  {
    HalfShape(h, c, o, p);
    HalfShape(h, c, o, h);
    UpperHalfOf(h, k, c);
  }

  lemma {:induction false} SplitCanonical(s: seq<Owner>, h: nat, c: nat, o: nat)
    requires Tiled(s) && Canonical(s) && o <= c && h < |s| && s[h] == Free(h, c)
    ensures Canonical(Split(s, h, c, o))
  {
    var r := Split(s, h, c, o);
    assert BlockOk(s, s[h]);
    forall p: nat, k: nat ensures Lonely(r, p, k) {
      if FreeHead(r, p, k) && k < MAX_ORDER {
        if h <= p < h + Pow2(c) {
          RemainderBuddy(s, h, c, o, p, k);
        } else if FreeHead(r, Buddy(p, k), k) {
          SplitBuddyOutside(s, h, c, o, p, k);
        }
      }
    }
  }

  lemma {:induction false} SplitBuddyOutside(s: seq<Owner>, h: nat, c: nat, o: nat, p: nat, k: nat)
    requires Tiled(s) && o <= c && h < |s| && s[h] == Free(h, c)
    requires !(h <= p < h + Pow2(c)) && k < MAX_ORDER
    requires FreeHead(Split(s, h, c, o), p, k) && FreeHead(Split(s, h, c, o), Buddy(p, k), k)
    ensures !Lonely(s, p, k)
  {
    var b := Buddy(p, k);
    BuddyHalves(p, k) by {
      assert BlockOk(s, s[p]);
    }
    assert BlockOk(s, s[h]);
    if h <= b < h + Pow2(c) {
      RemainderBuddy(s, h, c, o, b, k);
    } else {
      assert FreeHead(s, b, k);
    }
  }

  // ---------- coalescing ----------

  datatype Merged = Merged(owner: seq<Owner>, head: nat, order: nat)

  /** Merge the free block (h, k) with free buddies of equal order for as long as there is one. */
  function Merge(s: seq<Owner>, h: nat, k: nat): (m: Merged)
    ensures |m.owner| == |s|
    decreases MAX_ORDER - k
  {
    if k < MAX_ORDER && FreeHead(s, Buddy(h, k), k) then
      Merge(Joined(s, Lower(h, k), k), Lower(h, k), k + 1)
    else
      Merged(s, h, k)
  }

  /** The lower of the two buddies. */
  function Lower(h: nat, k: nat): nat
  {
    if Buddy(h, k) < h then Buddy(h, k) else h
  }

  /** The two halves of order k that start at `low` joined into one free block. */
  function Joined(s: seq<Owner>, low: nat, k: nat): (r: seq<Owner>)
    ensures |r| == |s|
  {
    Paint(s, low, k + 1, Free(low, k + 1))
  }

  /** Going from s to r frees no fewer pages and changes no other page. */
  ghost predicate FreeGrows(s: seq<Owner>, r: seq<Owner>)
  {
    && |r| == |s|
    && forall q :: 0 <= q < |s| ==> if s[q].Free? then r[q].Free? else r[q] == s[q]
  }

  predicate LonelyBut(s: seq<Owner>, h: nat, p: nat, k: nat)
  {
    p == h || Buddy(p, k) == h || Lonely(s, p, k)
  }

  /** Every free block other than the one at h has no free buddy of equal order other than h. */
  ghost predicate CanonicalBut(s: seq<Owner>, h: nat)
  {
    forall p: nat, k: nat :: LonelyBut(s, h, p, k)
  }

  /** Two free buddies become one free block of the next order. */
  lemma {:induction false} MergeTiled(s: seq<Owner>, low: nat, k: nat)
    requires Tiled(s) && k < MAX_ORDER && Aligned(low, k + 1)
    requires FreeHead(s, low, k) && FreeHead(s, low + Pow2(k), k)
    ensures var r := Joined(s, low, k);
            Tiled(r) && FreeHead(r, low, k + 1) && FreeGrows(s, r)
  {
    var up := low + Pow2(k);
    assert Uniform(s, s[low]) && Uniform(s, s[up]);
    forall q | low <= q < low + Pow2(k + 1)
      ensures s[q] == Free(low, k) || s[q] == Free(up, k)
    {
      assert In(q, s[low]) || In(q, s[up]);
    }
    RepaintTiled(s, Joined(s, low, k), low, low + Pow2(k + 1));
  }

  lemma {:induction false} MergeCanonicalBut(s: seq<Owner>, h: nat, low: nat, k: nat)
    requires Tiled(s) && CanonicalBut(s, h) && Aligned(low, k + 1)
    requires FreeHead(s, low, k) && FreeHead(s, low + Pow2(k), k) && (h == low || h == low + Pow2(k))
    ensures CanonicalBut(Joined(s, low, k), low)
  {
    var r := Joined(s, low, k);
    forall p: nat, j: nat ensures LonelyBut(r, low, p, j) {
      assert LonelyBut(s, h, p, j);
    }
  }

  lemma {:induction false} MergeStep(s: seq<Owner>, h: nat, k: nat)
    requires Tiled(s) && CanonicalBut(s, h) && FreeHead(s, h, k)
    requires k < MAX_ORDER && FreeHead(s, Buddy(h, k), k)
    ensures var r := Joined(s, Lower(h, k), k);
            Tiled(r) && CanonicalBut(r, Lower(h, k)) && FreeHead(r, Lower(h, k), k + 1) && FreeGrows(s, r)
  {
    var low := Lower(h, k);
    assert BlockOk(s, s[h]);
    BuddyHalves(h, k);
    HeadBounds(h, k + 1);
    MergeTiled(s, low, k);
    MergeCanonicalBut(s, h, low, k);
  }

  /** What coalescing leaves: a canonical state with all previously free pages still free. */
  ghost predicate MergeOk(s: seq<Owner>, m: Merged)
  {
    Tiled(m.owner) && Canonical(m.owner) && FreeHead(m.owner, m.head, m.order) && FreeGrows(s, m.owner)
  }

  lemma {:induction false} MergeOkFrom(s: seq<Owner>, r: seq<Owner>, m: Merged)
    requires FreeGrows(s, r) && MergeOk(r, m)
    ensures MergeOk(s, m)
  {
  }

  lemma {:induction false} MergeProps(s: seq<Owner>, h: nat, k: nat, m: Merged)
    requires Tiled(s) && CanonicalBut(s, h) && FreeHead(s, h, k)
    requires m == Merge(s, h, k)
    ensures MergeOk(s, m)
    decreases MAX_ORDER - k, 1
  {
    if k < MAX_ORDER && FreeHead(s, Buddy(h, k), k) {
      MergeRound(s, h, k, m);
    } else {
      MergeDone(s, h, k);
    }
  }

  lemma {:induction false} MergeRound(s: seq<Owner>, h: nat, k: nat, m: Merged)
    requires Tiled(s) && CanonicalBut(s, h) && FreeHead(s, h, k)
    requires k < MAX_ORDER && FreeHead(s, Buddy(h, k), k)
    requires m == Merge(Joined(s, Lower(h, k), k), Lower(h, k), k + 1)
    ensures MergeOk(s, m)
    decreases MAX_ORDER - k, 0
  {
    var r := Joined(s, Lower(h, k), k);
    MergeStep(s, h, k);
    MergeProps(r, Lower(h, k), k + 1, m);
    MergeOkFrom(s, r, m);
  }

  lemma {:induction false} MergeDone(s: seq<Owner>, h: nat, k: nat)
    requires Tiled(s) && CanonicalBut(s, h) && FreeHead(s, h, k)
    requires k == MAX_ORDER || !FreeHead(s, Buddy(h, k), k)
    ensures Canonical(s)
  {
    forall p: nat, j: nat ensures Lonely(s, p, j) {
      assert LonelyBut(s, h, p, j);
      if FreeHead(s, p, j) {
        assert BlockOk(s, s[p]);
        BuddyHalves(p, j);
      }
    }
  }

  /** The state after the live block at h is handed back. */
  function Release(s: seq<Owner>, h: nat): (m: Merged)
    requires h < |s| && Managed(s[h])
    ensures |m.owner| == |s|
  {
    Merge(Paint(s, h, s[h].order, Free(h, s[h].order)), h, s[h].order)
  }

  lemma {:induction false} ReleasePainted(s: seq<Owner>, h: nat)
    requires Tiled(s) && Canonical(s) && h < |s| && s[h].Live? && s[h].head == h
    ensures var r := Paint(s, h, s[h].order, Free(h, s[h].order));
            Tiled(r) && CanonicalBut(r, h) && FreeHead(r, h, s[h].order)
  {
    var k := s[h].order;
    var r := Paint(s, h, k, Free(h, k));
    assert BlockOk(s, s[h]);
    RepaintTiled(s, r, h, h + Pow2(k));
    forall p: nat, j: nat ensures LonelyBut(r, h, p, j) {
      assert Lonely(s, p, j);
    }
  }

  lemma {:induction false} ReleaseProps(s: seq<Owner>, h: nat)
    requires Tiled(s) && Canonical(s) && h < |s| && s[h].Live? && s[h].head == h
    ensures var m := Release(s, h);
            && Tiled(m.owner) && Canonical(m.owner) && FreeHead(m.owner, m.head, m.order)
            && (forall q :: 0 <= q < |s| ==> m.owner[q].Free? == (s[q].Free? || In(q, s[h])))
            && (forall q :: 0 <= q < |s| && !m.owner[q].Free? ==> m.owner[q] == s[q])
  {
    ReleasePainted(s, h);
    MergeProps(Paint(s, h, s[h].order, Free(h, s[h].order)), h, s[h].order, Release(s, h));
  }

  /** Which pages a split leaves free. */
  lemma {:induction false} SplitFree(s: seq<Owner>, h: nat, c: nat, o: nat, q: nat)
    requires Tiled(s) && o <= c && h < |s| && s[h] == Free(h, c) && q < |s|
    ensures var r := Split(s, h, c, o);
            && r[h] == Live(h, o)
            && (if h <= q < h + Pow2(o) then s[q] == Free(h, c) && r[q] == Live(h, o)
                else if s[q].Free? then r[q].Free? else r[q] == s[q])
  {
    assert BlockOk(s, s[h]);
    Pow2Mono(o, c);
    HalfShape(h, c, o, h);
    if h <= q < h + Pow2(c) {
      HalfShape(h, c, o, q);
      assert In(q, s[h]);
    }
  }

  /** Freeing what a split handed out gives back exactly the blocks there were before. */
  lemma {:induction false} SplitReleaseInverse(s: seq<Owner>, h: nat, c: nat, o: nat)
    requires Tiled(s) && Canonical(s) && o <= c && h < |s| && s[h] == Free(h, c)
    ensures var r := Split(s, h, c, o); r[h] == Live(h, o) && Release(r, h).owner == s
  {
    var r := Split(s, h, c, o);
    SplitTiled(s, h, c, o);
    SplitCanonical(s, h, c, o);
    SplitFree(s, h, c, o, h);
    ReleaseProps(r, h);
    var m := Release(r, h).owner;
    forall q | 0 <= q < |s|
      ensures m[q].Free? == s[q].Free? && (!s[q].Free? ==> m[q] == s[q])
    {
      SplitFree(s, h, c, o, q);
    }
    forall q | 0 <= q < |s| && s[q].Free? ensures s[q] == m[q] {
      CanonicalUnique(s, m, q);
    }
  }
}
