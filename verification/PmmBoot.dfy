/** Boot-time set-up of the page allocator: reserving regions and cutting the available ones into the
    largest aligned blocks. */
module PmmBoot {
  import opened Blocks
  import opened BuddyOwners
  import opened BuddyState
  import opened PmmMeta

  const PAGE_SIZE: nat := 4096
  const RESERVED_AREA: nat := 0x100000      // the first megabyte

  /** A byte range [start, end) of physical memory. */
  datatype Range = Range(start: nat, end: nat)

  function RoundUp(addr: nat): nat
  {
    (addr + PAGE_SIZE - 1) / PAGE_SIZE
  }

  function RoundDown(addr: nat): nat
  {
    addr / PAGE_SIZE
  }

  /** Page p touches the range: a reservation covers every page it touches. */
  predicate Touches(r: Range, p: int)
  {
    RoundDown(r.start) <= p < RoundUp(r.end)
  }

  /** Page p lies wholly inside the range: an available region gives whole pages only. */
  predicate Within(r: Range, p: int)
  {
    RoundUp(r.start) <= p < RoundDown(r.end)
  }

  // ---------- bytes ----------

  /** x is one of the 4096 bytes of page p. */
  predicate ByteOf(p: nat, x: nat)
  {
    4096 * p <= x < 4096 * p + 4096
  }

  predicate Holds(r: Range, x: nat)
  {
    r.start <= x < r.end
  }

  /** Some byte of page p lies in the range. */
  ghost predicate SomeByte(r: Range, p: nat)
  {
    exists x: nat :: ByteOf(p, x) && Holds(r, x)
  }

  /** Every byte of page p lies in the range. */
  ghost predicate EveryByte(r: Range, p: nat)
  {
    forall x: nat :: ByteOf(p, x) ==> Holds(r, x)
  }

  lemma {:induction false} TouchesIff(r: Range, p: nat)
    requires r.start < r.end
    ensures Touches(r, p) <==> SomeByte(r, p)
  {
    var x := if r.start <= 4096 * p then 4096 * p else r.start;
    assert Touches(r, p) ==> ByteOf(p, x) && Holds(r, x);
  }

  lemma {:induction false} WithinIff(r: Range, p: nat)
    ensures Within(r, p) <==> EveryByte(r, p)
  {
    if EveryByte(r, p) {
      assert ByteOf(p, 4096 * p) && ByteOf(p, 4096 * p + 4095);
    }
  }

  /** Page p after booting, told from the bytes of the memory map. */
  ghost predicate BootedBytes(b: Owner, reservations: seq<Range>, regions: seq<Range>, p: nat)
  {
    && (b.Reserved? <==> exists i :: 0 <= i < |reservations| && SomeByte(reservations[i], p))
    && (b.Free? <==> !b.Reserved? && exists i :: 0 <= i < |regions| && EveryByte(regions[i], p))
    && !b.Live?
  }

  lemma {:induction false} BootedBytesIff(b: Owner, reservations: seq<Range>, regions: seq<Range>, p: nat)
    requires forall i :: 0 <= i < |reservations| ==> reservations[i].start < reservations[i].end
    ensures BootedAs(b, reservations, regions, p) <==> BootedBytes(b, reservations, regions, p)
  {
    forall i | 0 <= i < |reservations| ensures Touches(reservations[i], p) <==> SomeByte(reservations[i], p) {
      TouchesIff(reservations[i], p);
    }
    forall i | 0 <= i < |regions| ensures Within(regions[i], p) <==> EveryByte(regions[i], p) {
      WithinIff(regions[i], p);
    }
  }

  /** The part of the invariant that holds while regions are still being added. */
  ghost predicate BootInv(s: Pmm)
  {
    && Tiled(s.owner) && Canonical(s.owner)
    && ListsMatch(s.owner, s.lists)
    && Counted(s.owner, s.used)
    && RefsOk(s.owner, s.refs)
  }

  ghost predicate AllHoles(owner: seq<Owner>, h: nat, n: nat)
  {
    h + n <= |owner| && forall p :: h <= p < h + n ==> owner[p].Hole?
  }

  // ---------- reserving ----------

  lemma {:induction false} ReservePage(s: Pmm, p: nat)
    requires BootInv(s) && p < |s.owner| && s.owner[p].Hole?
    ensures BootInv(s.(owner := s.owner[p := Reserved], used := s.used + 1))
  {
    var r := s.owner[p := Reserved];
    assert FreePages(r) == FreePages(s.owner);
    assert Holes(s.owner) == Holes(r) + {p};
    forall q | 0 <= q < |r| && Managed(r[q]) ensures In(q, r[q]) && BlockOk(r, r[q]) {
      assert BlockOk(s.owner, s.owner[q]);
    }
    SameFree(s.owner, r, s.lists);
  }

  /** Free blocks are all that canonical form and the lists speak of. */
  lemma {:induction false} SameFree(owner: seq<Owner>, r: seq<Owner>, lists: seq<seq<nat>>)
    requires Canonical(owner) && ListsMatch(owner, lists) && |r| == |owner|
    requires forall q :: 0 <= q < |owner| ==> (owner[q].Free? || r[q].Free? ==> r[q] == owner[q])
    ensures Canonical(r) && ListsMatch(r, lists)
  {
    forall p: nat, k: nat ensures Lonely(r, p, k) {
      assert Lonely(owner, p, k);
    }
    forall k: nat | k <= MAX_ORDER ensures ListMatches(r, lists[k], k) {
      assert ListMatches(owner, lists[k], k);
    }
  }

  // ---------- adding a block ----------

  lemma {:induction false} AddTiled(owner: seq<Owner>, h: nat, k: nat)
    requires Tiled(owner) && Aligned(h, k) && k <= MAX_ORDER && AllHoles(owner, h, Pow2(k))
    ensures Tiled(Paint(owner, h, k, Free(h, k)))
  {
    var r := Paint(owner, h, k, Free(h, k));
    RepaintTiled(owner, r, h, h + Pow2(k));
  }

  lemma {:induction false} AddCounted(owner: seq<Owner>, h: nat, k: nat)
    requires AllHoles(owner, h, Pow2(k))
    ensures var r := Paint(owner, h, k, Free(h, k));
            |FreePages(r)| + |Holes(r)| == |FreePages(owner)| + |Holes(owner)|
  {
    var r := Paint(owner, h, k, Free(h, k));
    var span := Span(h, Pow2(k));
    assert FreePages(r) == FreePages(owner) + span;
    assert Holes(owner) == Holes(r) + span;
    assert FreePages(owner) !! span && Holes(r) !! span;
  }

  lemma {:induction false} AddLists(owner: seq<Owner>, lists: seq<seq<nat>>, h: nat, k: nat)
    requires ListsMatch(owner, lists) && k <= MAX_ORDER && AllHoles(owner, h, Pow2(k))
    ensures ListsMatch(Paint(owner, h, k, Free(h, k)), lists[k := [h] + lists[k]])
    ensures forall j :: 0 <= j <= MAX_ORDER ==> h !in lists[j]
  {
    var r := Paint(owner, h, k, Free(h, k));
    assert owner[h].Hole?;
    forall j: nat | j <= MAX_ORDER
      ensures NoDup(lists[j]) && forall p: nat :: p in lists[j] <==> FreeHead(r, p, j) && p != h
    {
      assert ListMatches(owner, lists[j], j);
      forall p: nat ensures FreeHead(owner, p, j) <==> FreeHead(r, p, j) && p != h {
      }
    }
    PushMatches(r, lists, h, k);
  }

  /** The block (h, k) could have been one order larger within a region that ends at `last`. */
  ghost predicate CouldGrow(status: seq<bool>, h: nat, k: nat, last: nat)
  {
    && Aligned(h, k + 1) && h + Pow2(k + 1) <= last <= |status|
    && forall p :: h <= p < h + Pow2(k + 1) ==> !status[p]
  }

  ghost predicate Largest(owner: seq<Owner>, status: seq<bool>, h: nat, k: nat, last: nat)
  {
    FreeHead(owner, h, k) && k < MAX_ORDER ==> !CouldGrow(status, h, k, last)
  }

  /** Every block cut from the region so far was the largest possible where it starts. */
  ghost predicate Greedy(owner: seq<Owner>, status: seq<bool>, first: nat, cur: nat, last: nat)
  {
    forall h: nat, k: nat :: first <= h < cur ==> Largest(owner, status, h, k, last)
  }

  /** The region [first, last) with its pages below `cur` already cut into blocks: no free page next to
      it, nothing free from `cur` on. */
  ghost predicate Cutting(owner: seq<Owner>, first: nat, cur: nat, last: nat)
  {
    && first <= cur <= last <= |owner|
    && (forall p :: cur <= p < last ==> !owner[p].Free?)
    && (first > 0 ==> !owner[first - 1].Free?)
    && (last < |owner| ==> !owner[last].Free?)
  }

  /** A free block whose upper buddy is all holes could have been one order larger. */
  lemma {:induction false} LeftBuddyGrows(owner: seq<Owner>, status: seq<bool>, order: seq<nat>, b: nat, cur: nat,
                                          last: nat, k: nat)
    requires Tiled(owner) && MetaOk(status, order, owner) && last <= |owner|
    requires Aligned(cur, k) && cur + Pow2(k) <= last && AllHoles(owner, cur, Pow2(k))
    requires b == Buddy(cur, k) < cur && FreeHead(owner, b, k)
    ensures CouldGrow(status, b, k, last)
  {
    BuddyHalves(cur, k);
    HeadBounds(cur, k + 1);
    assert BlockOk(owner, owner[b]);
    forall p | b <= p < b + Pow2(k + 1) ensures !status[p] {
      assert MetaAt(status[p], order[p], owner[p], p);
      assert p < cur ==> In(p, owner[b]);
    }
  }

  /** A block added by the greedy cut does not meet a free buddy. */
  lemma {:induction false} AddNoBuddy(owner: seq<Owner>, status: seq<bool>, order: seq<nat>, first: nat, cur: nat,
                                      last: nat, k: nat)
    requires Tiled(owner) && MetaOk(status, order, owner) && Cutting(owner, first, cur, last)
    requires Greedy(owner, status, first, cur, last)
    requires Aligned(cur, k) && k < MAX_ORDER && cur + Pow2(k) <= last && AllHoles(owner, cur, Pow2(k))
    ensures !FreeHead(owner, Buddy(cur, k), k)
  {
    var b := Buddy(cur, k);
    BuddyHalves(cur, k);
    if FreeHead(owner, b, k) && b < cur {
      if b < first {
        assert BlockOk(owner, owner[b]);
        assert In(first - 1, owner[b]);
      } else {
        assert Largest(owner, status, b, k, last);
        LeftBuddyGrows(owner, status, order, b, cur, last, k);
      }
    }
  }

  lemma {:induction false} AddCanonical(owner: seq<Owner>, h: nat, k: nat)
    requires Tiled(owner) && Canonical(owner) && Aligned(h, k) && AllHoles(owner, h, Pow2(k))
    requires k < MAX_ORDER ==> !FreeHead(owner, Buddy(h, k), k)
    ensures Canonical(Paint(owner, h, k, Free(h, k)))
  {
    var r := Paint(owner, h, k, Free(h, k));
    BuddyHalves(h, k);
    forall p: nat, j: nat ensures Lonely(r, p, j) {
      assert Lonely(owner, p, j);
      if FreeHead(r, p, j) && FreeHead(r, Buddy(p, j), j) && p != h && j < MAX_ORDER {
        assert FreeHead(owner, p, j);
        assert BlockOk(owner, owner[p]);
        BuddyHalves(p, j);
      }
    }
  }

  lemma {:induction false} AddMeta(status: seq<bool>, order: seq<nat>, owner: seq<Owner>, h: nat, k: nat)
    requires MetaOk(status, order, owner) && AllHoles(owner, h, Pow2(k))
    ensures !status[h]
    ensures MetaOk(status, order[h := k], Paint(owner, h, k, Free(h, k)))
  {
    var r := Paint(owner, h, k, Free(h, k));
    forall p | 0 <= p < |owner| ensures MetaAt(status[p], order[h := k][p], r[p], p) {
      assert MetaAt(status[p], order[p], owner[p], p);
    }
  }

  lemma {:induction false} AddGreedy(owner: seq<Owner>, status: seq<bool>, first: nat, cur: nat, last: nat, k: nat)
    requires Tiled(owner) && Cutting(owner, first, cur, last) && Greedy(owner, status, first, cur, last)
    requires Aligned(cur, k) && cur + Pow2(k) <= last && AllHoles(owner, cur, Pow2(k))
    requires k < MAX_ORDER ==> !CouldGrow(status, cur, k, last)
    ensures Greedy(Paint(owner, cur, k, Free(cur, k)), status, first, cur + Pow2(k), last)
    ensures Cutting(Paint(owner, cur, k, Free(cur, k)), first, cur + Pow2(k), last)
  {
    var r := Paint(owner, cur, k, Free(cur, k));
    forall h: nat, j: nat | first <= h < cur + Pow2(k) ensures Largest(r, status, h, j, last) {
      assert h < cur ==> Largest(owner, status, h, j, last);
    }
  }

  /** Everything one added block keeps. */
  lemma {:induction false} AddBlockInv(s: Pmm, h: nat, k: nat)
    requires BootInv(s) && Aligned(h, k) && k <= MAX_ORDER && AllHoles(s.owner, h, Pow2(k))
    requires k < MAX_ORDER ==> !FreeHead(s.owner, Buddy(h, k), k)
    ensures BootInv(s.(owner := Paint(s.owner, h, k, Free(h, k)), lists := s.lists[k := [h] + s.lists[k]]))
  {
    AddTiled(s.owner, h, k);
    AddCanonical(s.owner, h, k);
    AddLists(s.owner, s.lists, h, k);
    AddCounted(s.owner, h, k);
  }

  // ---------- the memory map ----------

  predicate Empty(r: Range)
  {
    RoundUp(r.start) >= RoundDown(r.end)
  }

  /** No two available ranges overlap or adjoin in whole pages. */
  ghost predicate Separated(regions: seq<Range>)
  {
    forall i, j :: 0 <= i < j < |regions| && !Empty(regions[i]) && !Empty(regions[j]) ==>
      Apart(regions[i], regions[j])
  }

  predicate Apart(r: Range, t: Range)
  {
    RoundDown(r.end) < RoundUp(t.start) || RoundDown(t.end) < RoundUp(r.start)
  }

  ghost predicate IsReserved(reservations: seq<Range>, p: int)
  {
    exists i :: 0 <= i < |reservations| && Touches(reservations[i], p)
  }

  ghost predicate IsAvailable(regions: seq<Range>, p: int)
  {
    exists i :: 0 <= i < |regions| && Within(regions[i], p)
  }

  /** What the boot sequence makes of page p. */
  ghost predicate BootedAs(b: Owner, reservations: seq<Range>, regions: seq<Range>, p: int)
  {
    if IsReserved(reservations, p) then b.Reserved?
    else if IsAvailable(regions, p) then b.Free?
    else b.Hole?
  }

  /** A page in no range must not be the order-0 buddy of an available page. */
  ghost predicate HolesApart(reservations: seq<Range>, regions: seq<Range>, pages: nat)
  {
    forall p: nat :: p < pages ==> HoleApart(reservations, regions, pages, p)
  }

  ghost predicate HoleApart(reservations: seq<Range>, regions: seq<Range>, pages: nat, p: nat)
  {
    !IsReserved(reservations, p) && !IsAvailable(regions, p) && Buddy(p, 0) < pages ==>
      IsReserved(reservations, Buddy(p, 0)) || !IsAvailable(regions, Buddy(p, 0))
  }

  lemma {:induction false} BootHoles(owner: seq<Owner>, reservations: seq<Range>, regions: seq<Range>)
    requires forall p :: 0 <= p < |owner| ==> BootedAs(owner[p], reservations, regions, p)
    requires HolesApart(reservations, regions, |owner|)
    ensures HolesHarmless(owner)
  {
    forall p: nat ensures HarmlessHole(owner, p) {
      if p < |owner| && owner[p].Hole? && Buddy(p, 0) < |owner| {
        assert HoleApart(reservations, regions, |owner|, p);
        assert BootedAs(owner[Buddy(p, 0)], reservations, regions, Buddy(p, 0));
      }
    }
  }

  /** The next region touches nothing that is available already. */
  lemma {:induction false} NextApart(owner: seq<Owner>, reservations: seq<Range>, regions: seq<Range>, i: nat)
    requires i < |regions| && Separated(regions) && RoundDown(regions[i].end) <= |owner| && !Empty(regions[i])
    requires forall p :: 0 <= p < |owner| ==> BootedAs(owner[p], reservations, regions[..i], p)
    ensures forall p :: 0 <= p < |owner| && Within(regions[i], p) ==> !Managed(owner[p])
    ensures RoundUp(regions[i].start) > 0 ==> !owner[RoundUp(regions[i].start) - 1].Free?
    ensures RoundDown(regions[i].end) < |owner| ==> !owner[RoundDown(regions[i].end)].Free?
  {
    forall p | 0 <= p < |owner| && RoundUp(regions[i].start) - 1 <= p <= RoundDown(regions[i].end)
      ensures !Managed(owner[p])
    {
      assert BootedAs(owner[p], reservations, regions[..i], p);
    }
  }

  lemma {:induction false} BootNext(b: Owner, b': Owner, reservations: seq<Range>, regions: seq<Range>, i: nat, p: int)
    requires i < |regions| && BootedAs(b, reservations, regions[..i], p)
    requires if Within(regions[i], p) && b.Hole? then b'.Free? else b' == b
    requires Within(regions[i], p) ==> !Managed(b)
    ensures BootedAs(b', reservations, regions[..i + 1], p)
  {
    assert regions[..i + 1][i] == regions[i];
    if IsAvailable(regions[..i], p) {
      var j :| 0 <= j < i && Within(regions[..i][j], p);
      assert regions[..i + 1][j] == regions[..i][j];
    }
    if IsAvailable(regions[..i + 1], p) && !Within(regions[i], p) {
      var j :| 0 <= j < i + 1 && Within(regions[..i + 1][j], p);
      assert regions[..i][j] == regions[..i + 1][j];
    }
  }

  lemma {:induction false} ReserveNext(reservations: seq<Range>, i: nat, p: int)
    requires i < |reservations|
    ensures IsReserved(reservations[..i + 1], p) <==> IsReserved(reservations[..i], p) || Touches(reservations[i], p)
  {
    var l, l' := reservations[..i], reservations[..i + 1];
    assert l'[i] == reservations[i];
    if IsReserved(l, p) {
      var j :| 0 <= j < i && Touches(l[j], p);
      assert l'[j] == l[j];
    }
    if IsReserved(l', p) && !Touches(reservations[i], p) {
      var j :| 0 <= j < i + 1 && Touches(l'[j], p);
      assert l[j] == l'[j];
    }
  }
}
