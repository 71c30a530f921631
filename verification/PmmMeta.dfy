/** The status and order maps of the page allocator. They are meaningful at block heads only: stale
    orders stay behind inside merged blocks. */
module PmmMeta {
  import opened Blocks
  import opened BuddyOwners
  import opened BuddyState

  ghost predicate MetaAt(status: bool, order: nat, b: Owner, p: nat)
  {
    && status == StatusBit(b, p)
    && (Managed(b) && b.head == p ==> order == b.order)
    && (b.Hole? ==> order == 0)
  }

  ghost predicate MetaOk(status: seq<bool>, order: seq<nat>, owner: seq<Owner>)
  {
    && |status| == |order| == |owner|
    && forall p :: 0 <= p < |owner| ==> MetaAt(status[p], order[p], owner[p], p)
  }

  /** The test coalescing makes at the buddy page, unset status bit and equal order, finds exactly the
      free buddies of equal order, unless the block has order 0 and the buddy page is a hole. */
  lemma {:induction false} BuddyReadExact(status: seq<bool>, order: seq<nat>, owner: seq<Owner>, p: nat, k: nat)
    requires Tiled(owner) && MetaOk(status, order, owner) && FreeHead(owner, p, k)
    requires Buddy(p, k) < |owner|
    ensures var q := Buddy(p, k);
            ((!status[q] && order[q] == k) <==> FreeHead(owner, q, k)) <==> !(k == 0 && owner[q].Hole?)
  {
    var q := Buddy(p, k);
    if Managed(owner[q]) {
      BuddyIsHead(owner, p, k);
    }
    assert MetaAt(status[q], order[q], owner[q], q);
  }

  lemma {:induction false} BuddyRead(status: seq<bool>, order: seq<nat>, owner: seq<Owner>, p: nat, k: nat)
    requires Tiled(owner) && HolesHarmless(owner) && MetaOk(status, order, owner) && FreeHead(owner, p, k)
    requires Buddy(p, k) < |owner|
    ensures (!status[Buddy(p, k)] && order[Buddy(p, k)] == k) <==> FreeHead(owner, Buddy(p, k), k)
  {
    BuddyReadExact(status, order, owner, p, k);
    BuddyHalves(p, 0);
    assert HarmlessHole(owner, Buddy(p, k));
  }

  /** Merging two free halves writes the order of the lower one. */
  lemma {:induction false} MetaJoin(status: seq<bool>, order: seq<nat>, owner: seq<Owner>, low: nat, k: nat)
    requires Tiled(owner) && MetaOk(status, order, owner)
    requires Aligned(low, k + 1) && FreeHead(owner, low, k) && FreeHead(owner, low + Pow2(k), k)
    ensures MetaOk(status, order[low := k + 1], Joined(owner, low, k))
  {
    var r := Joined(owner, low, k);
    var up := low + Pow2(k);
    assert Uniform(owner, owner[low]) && Uniform(owner, owner[up]);
    forall p | 0 <= p < |owner| ensures MetaAt(status[p], order[low := k + 1][p], r[p], p) {
      assert MetaAt(status[p], order[p], owner[p], p);
      if low <= p < low + Pow2(k + 1) {
        assert In(p, owner[low]) || In(p, owner[up]);
      }
    }
  }

  /** Clearing the status bit of a live block's head makes it a free block. */
  lemma {:induction false} MetaFree(status: seq<bool>, order: seq<nat>, owner: seq<Owner>, h: nat)
    requires Tiled(owner) && MetaOk(status, order, owner)
    requires h < |owner| && owner[h].Live? && owner[h].head == h
    ensures MetaOk(status[h := false], order, Paint(owner, h, owner[h].order, Free(h, owner[h].order)))
  {
    var r := Paint(owner, h, owner[h].order, Free(h, owner[h].order));
    assert Uniform(owner, owner[h]);
    forall p | 0 <= p < |owner| ensures MetaAt(status[h := false][p], order[p], r[p], p) {
      assert MetaAt(status[p], order[p], owner[p], p);
      assert In(p, owner[h]) ==> owner[p] == owner[h];
    }
  }

  /** The upper half of order k of the block at h is labelled with its order. */
  ghost predicate HalfLabelled(order: seq<nat>, h: nat, k: nat)
  {
    h + Pow2(k) < |order| ==> order[h + Pow2(k)] == k
  }

  ghost predicate HalvesLabelled(order: seq<nat>, h: nat, c: nat, o: nat)
  {
    forall k: nat :: o <= k < c ==> HalfLabelled(order, h, k)
  }

  /** What a split leaves in the maps. */
  lemma {:induction false} MetaSplit(status: seq<bool>, order: seq<nat>, owner: seq<Owner>,
                                     status': seq<bool>, order': seq<nat>, h: nat, c: nat, o: nat)
    requires Tiled(owner) && MetaOk(status, order, owner) && o <= c && FreeHead(owner, h, c)
    requires |status'| == |order'| == |owner|
    requires status' == status[h := true] && order'[h] == o
    requires HalvesLabelled(order', h, c, o)
    requires forall p :: 0 <= p < |owner| && !(h <= p < h + Pow2(c)) ==> order'[p] == order[p]
    ensures MetaOk(status', order', Split(owner, h, c, o))
  {
    var r := Split(owner, h, c, o);
    assert Uniform(owner, owner[h]);
    SplitFree(owner, h, c, o, h);
    forall p | 0 <= p < |owner| ensures MetaAt(status'[p], order'[p], r[p], p) {
      assert MetaAt(status[p], order[p], owner[p], p);
      if h <= p < h + Pow2(c) {
        HalfShape(h, c, o, p);
        assert In(p, owner[h]);
        assert HalfLabelled(order', h, HalfOf(h, c, o, p).order) || p < h + Pow2(o);
        assert HalfOf(h, c, o, p).Live? && HalfOf(h, c, o, p).head == p ==> p == h;
      }
    }
  }
}
