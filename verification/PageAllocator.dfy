/** The physical page allocator as it runs: status, order and reference-count maps, a free list head
    per order and the links stored in the free pages. Addresses are page numbers; the address of page
    p is 4096 * p, so page 0 stands for the null address. */
module PageAllocator {
  import opened Blocks
  import opened BuddyOwners
  import opened BuddyState
  import opened FreeLists
  import opened PmmMeta
  import opened PmmBoot
  import BuddyRuns

  class Allocator {
    const total: nat                  // pmm_total_pages
    const status: array<bool>         // buddy_status_map
    const order: array<nat>           // buddy_order_map
    const refcount: array<nat>        // buddy_refcount_map
    const next: array<nat>            // links inside free pages
    const prev: array<nat>
    const heads: array<nat>           // buddy_free_lists
    var used: int                     // pmm_used_pages

    ghost var owner: seq<Owner>
    ghost var lists: seq<seq<nat>>

    ghost function Repr(): set<object>
    {
      {this, status, order, refcount, next, prev, heads}
    }

    ghost predicate Shape()
      reads this`owner, this`lists
    {
      && status.Length == order.Length == refcount.Length == next.Length == prev.Length == total
      && heads.Length == MAX_ORDER + 1
      && order != refcount && order != next && order != prev && order != heads
      && refcount != next && refcount != prev && refcount != heads
      && next != prev && next != heads && prev != heads
      && |owner| == total && |lists| == MAX_ORDER + 1
    }

    ghost function Abs(): Pmm
      reads Repr()
    {
      Pmm(owner, lists, refcount[..], used)
    }

    ghost predicate Links()
      reads this`lists, next, prev, heads
    {
      Linked(next[..], prev[..], heads[..], lists)
    }

    ghost predicate Meta()
      reads this`owner, status, order
    {
      MetaOk(status[..], order[..], owner)
    }

    ghost predicate Valid()
      reads Repr()
    {
      Shape() && Links() && Meta() && Inv(Abs())
    }

    /** The block of order k at page p is handed out as a whole. */
    ghost predicate HandedOut(p: nat, k: nat)
      reads this`owner
    {
      && k <= MAX_ORDER && Aligned(p, k) && p + Pow2(k) <= |owner|
      && forall q :: p <= q < p + Pow2(k) ==> owner[q] == Live(p, k)
    }

    /** The status map is set exactly at reserved pages and at the first page of every block that is handed out, whose
        size the order map tells. It is clear at every page on a free list, where the order map names the list. */
    lemma {:induction false} StatusMap(p: nat)
      requires Valid() && p < total
      ensures status[p] <==> owner[p].Reserved? || HandedOut(p, order[p])
      ensures forall k: nat :: k <= MAX_ORDER && p in lists[k] ==> !status[p] && order[p] == k
    {
      assert MetaAt(status[..][p], order[..][p], owner[p], p);
      if owner[p].Live? && owner[p].head == p {
        assert BlockOk(owner, owner[p]);
      }
      if HandedOut(p, order[p]) {
        assert owner[p] == Live(p, order[p]);
      }
      forall k: nat | k <= MAX_ORDER && p in lists[k] ensures !status[p] && order[p] == k {
        assert ListMatches(owner, lists[k], k);
      }
    }

    // ---------- boot ----------

    ghost predicate Booting()
      reads Repr()
    {
      Shape() && Links() && Meta() && BootInv(Abs())
    }

    /** All metadata cleared: nothing reserved, nothing available yet. */
    constructor (pages: nat)
      ensures Booting() && fresh(Repr() - {this}) && total == pages
      ensures forall p :: 0 <= p < pages ==> owner[p].Hole?
    {
      total := pages;
      status := new bool[pages](_ => false);
      order := new nat[pages](_ => 0);
      refcount := new nat[pages](_ => 0);
      next := new nat[pages](_ => 0);
      prev := new nat[pages](_ => 0);
      heads := new nat[MAX_ORDER + 1](_ => 0);
      used := 0;
      owner := seq(pages, _ => Hole);
      lists := seq(MAX_ORDER + 1, _ => []);
      new;
      NothingYet(owner, lists, refcount[..]);
      NoMeta(status[..], order[..], owner);
      NoLinks(next[..], prev[..], heads[..], lists);
    }

    /** Mark every page that the range touches as allocated. Runs before any region is added. */
    method ReserveRegion(r: Range)
      requires Booting()
      requires forall p :: 0 <= p < total ==> !Managed(owner[p])
      modifies status, this`used, this`owner
      ensures Booting()
      ensures forall p :: 0 <= p < total ==> owner[p] == if Touches(r, p) then Reserved else old(owner)[p]
    {
      var page := RoundDown(r.start);
      var end := RoundUp(r.end);
      while page < end && page < total
        invariant Booting() && RoundDown(r.start) <= page
        invariant forall p :: 0 <= p < total ==>
                    owner[p] == if Touches(r, p) && p < page then Reserved else old(owner)[p]
        decreases total - page
      {
        if !status[page] {
          assert MetaAt(status[page], order[page], owner[page], page);
          MarkReserved(page);
        } else {
          assert MetaAt(status[page], order[page], owner[page], page);
        }
        page := page + 1;
      }
    }

    method MarkReserved(page: nat)
      requires Booting() && page < total && owner[page].Hole?
      modifies status, this`used, this`owner
      ensures Booting() && owner == old(owner)[page := Reserved]
    {
      ReservePage(Abs(), page);
      ReservedMeta(status[..], order[..], owner, page);
      status[page] := true;
      used := used + 1;
      owner := owner[page := Reserved];
      assert status[..] == old(status[..])[page := true];
      assert BootInv(Abs());
    }

    /** The largest order of a block that starts at page `cur`, is aligned, ends by `last` and holds no
        reserved page. */
    method PickOrder(cur: nat, last: nat) returns (k: nat)
      requires Shape() && cur < last <= total && !status[cur]
      ensures k <= MAX_ORDER && Aligned(cur, k) && cur + Pow2(k) <= last
      ensures forall p :: cur <= p < cur + Pow2(k) ==> !status[p]
      ensures k < MAX_ORDER ==> !CouldGrow(status[..], cur, k, last)
    {
      k := MAX_ORDER;
      while k > 0
        invariant k <= MAX_ORDER
        invariant k < MAX_ORDER ==> !CouldGrow(status[..], cur, k, last)
      {
        if Pow2(k) <= last - cur && Aligned(cur, k) {
          var allFree := NoneReserved(cur, Pow2(k));
          if allFree {
            return;
          }
        }
        k := k - 1;
      }
    }

    method NoneReserved(cur: nat, n: nat) returns (ok: bool)
      requires Shape() && cur + n <= total
      ensures ok <==> forall p :: cur <= p < cur + n ==> !status[p]
    {
      for i := 0 to n
        invariant forall p :: cur <= p < cur + i ==> !status[p]
      {
        if status[cur + i] {
          return false;
        }
      }
      return true;
    }

    /** Cut the whole pages of an available range into the largest aligned blocks. The range must not
        overlap or adjoin memory that is already available. */
    method AddRegion(r: Range)
      requires Booting() && total > 0 && owner[0].Reserved? && RoundDown(r.end) <= total
      requires forall p :: 0 <= p < total && Within(r, p) ==> !Managed(owner[p])
      requires RoundUp(r.start) > 0 && RoundUp(r.start) < RoundDown(r.end) ==> !owner[RoundUp(r.start) - 1].Free?
      requires RoundUp(r.start) < RoundDown(r.end) < total ==> !owner[RoundDown(r.end)].Free?
      modifies Repr()
      ensures Booting()
      ensures forall p :: 0 <= p < total ==>
                if Within(r, p) && old(owner)[p].Hole? then owner[p].Free? else owner[p] == old(owner)[p]
    {
      hide Linked, Inv, BootInv;
      var first, last := RoundUp(r.start), RoundDown(r.end);
      if first >= last {
        return;
      }
      var cur := first;
      while cur < last
        invariant Booting() && Cutting(owner, first, cur, last)
        invariant Greedy(owner, status[..], first, cur, last)
        invariant forall p :: 0 <= p < total ==>
                    if Within(r, p) && old(owner)[p].Hole? && p < cur then owner[p].Free? else owner[p] == old(owner)[p]
      {
        assert MetaAt(status[cur], order[cur], owner[cur], cur);
        if status[cur] {
          StepOver(owner, status[..], first, cur, last);
          cur := cur + 1;
        } else {
          cur := AddBlock(first, cur, last);
        }
      }
    }

    /** One round of the cut. */
    method AddBlock(first: nat, cur: nat, last: nat) returns (cur': nat)
      requires Booting() && 0 < cur < last && Cutting(owner, first, cur, last) && !status[cur]
      requires Greedy(owner, status[..], first, cur, last)
      requires forall p :: cur <= p < last ==> !Managed(owner[p])
      modifies Repr()
      ensures Booting() && cur < cur' <= last && Cutting(owner, first, cur', last)
      ensures Greedy(owner, status[..], first, cur', last)
      ensures forall p :: 0 <= p < total ==>
                if cur <= p < cur' then old(owner)[p].Hole? && owner[p].Free? else owner[p] == old(owner)[p]
    {
      var k := PickOrder(cur, last);
      UnreservedHoles(status[..], order[..], owner, cur, Pow2(k));
      if k < MAX_ORDER {
        AddNoBuddy(owner, status[..], order[..], first, cur, last, k);
      }
      AddGreedy(owner, status[..], first, cur, last, k);
      ListBlock(cur, k);
      cur' := cur + Pow2(k);
    }

    method ListBlock(h: nat, k: nat)
      requires Booting() && 0 < h && k <= MAX_ORDER && Aligned(h, k) && AllHoles(owner, h, Pow2(k))
      requires k < MAX_ORDER ==> !FreeHead(owner, Buddy(h, k), k)
      modifies Repr()
      ensures Booting() && owner == Paint(old(owner), h, k, Free(h, k)) && status[..] == old(status[..])
    {
      AddBlockInv(Abs(), h, k);
      AddMeta(status[..], order[..], owner, h, k);
      AddLists(owner, lists, h, k);
      order[h] := k;
      status[h] := false;
      owner := Paint(owner, h, k, Free(h, k));
      assert status[..] == old(status[..]) && order[..] == old(order[..])[h := k];
      AddToFreeList(h, k);
      assert BootInv(Abs());
    }

    /** The boot sequence: the first megabyte and the given ranges are reserved, then the available
        regions are added. */
    static method Boot(pages: nat, reservations: seq<Range>, regions: seq<Range>) returns (a: Allocator)
      requires pages > 0 && |reservations| > 0 && reservations[0] == Range(0, RESERVED_AREA)
      requires Separated(regions) && HolesApart(reservations, regions, pages)
      requires forall i :: 0 <= i < |regions| ==> RoundDown(regions[i].end) <= pages
      ensures fresh(a.Repr()) && a.Valid() && a.total == pages
      ensures forall p :: 0 <= p < pages ==> BootedAs(a.owner[p], reservations, regions, p)
      ensures (forall i :: 0 <= i < |reservations| ==> reservations[i].start < reservations[i].end) ==>
                forall p :: 0 <= p < pages ==> BootedBytes(a.owner[p], reservations, regions, p)
    {
      a := new Allocator(pages);
      a.ReserveAll(reservations);
      a.AddAll(reservations, regions);
      BootHoles(a.owner, reservations, regions);
      if forall i :: 0 <= i < |reservations| ==> reservations[i].start < reservations[i].end {
        forall p | 0 <= p < pages ensures BootedBytes(a.owner[p], reservations, regions, p) {
          BootedBytesIff(a.owner[p], reservations, regions, p);
        }
      }
    }

    method ReserveAll(reservations: seq<Range>)
      requires Booting() && forall p :: 0 <= p < total ==> owner[p].Hole?
      modifies status, this`used, this`owner
      ensures Booting()
      ensures forall p :: 0 <= p < total ==> owner[p] == if IsReserved(reservations, p) then Reserved else Hole
    {
      for i := 0 to |reservations|
        invariant Booting()
        invariant forall p :: 0 <= p < total ==> owner[p] == if IsReserved(reservations[..i], p) then Reserved else Hole
      {
        forall p | 0 <= p < total
          ensures IsReserved(reservations[..i + 1], p) <==>
                  IsReserved(reservations[..i], p) || Touches(reservations[i], p)
        {
          ReserveNext(reservations, i, p);
        }
        ReserveRegion(reservations[i]);
      }
      assert reservations[..|reservations|] == reservations;
    }

    method AddAll(reservations: seq<Range>, regions: seq<Range>)
      requires Booting() && total > 0 && |reservations| > 0 && reservations[0] == Range(0, RESERVED_AREA)
      requires forall p :: 0 <= p < total ==> owner[p] == if IsReserved(reservations, p) then Reserved else Hole
      requires Separated(regions)
      requires forall i :: 0 <= i < |regions| ==> RoundDown(regions[i].end) <= total
      modifies Repr()
      ensures Booting() && owner[0].Reserved?
      ensures forall p :: 0 <= p < total ==> BootedAs(owner[p], reservations, regions, p)
    {
      assert Touches(reservations[0], 0);
      assert IsReserved(reservations, 0);
      for i := 0 to |regions|
        invariant Booting()
        invariant forall p :: 0 <= p < total ==> BootedAs(owner[p], reservations, regions[..i], p)
      {
        assert BootedAs(owner[0], reservations, regions[..i], 0);
        if !Empty(regions[i]) {
          NextApart(owner, reservations, regions, i);
        }
        ghost var before := owner;
        AddRegion(regions[i]);
        forall p | 0 <= p < total ensures BootedAs(owner[p], reservations, regions[..i + 1], p) {
          BootNext(before[p], owner[p], reservations, regions, i, p);
        }
      }
      assert regions[..|regions|] == regions;
      assert BootedAs(owner[0], reservations, regions, 0);
    }

    /** Put block p at the front of list k. */
    method AddToFreeList(p: nat, k: nat)
      requires Shape() && Links() && 0 < p < total && k <= MAX_ORDER
      requires forall j :: 0 <= j <= MAX_ORDER ==> p !in lists[j]
      modifies next, prev, heads, this`lists
      ensures Shape() && Links()
      ensures lists == old(lists)[k := [p] + old(lists)[k]]
    {
      LinkedPush(next[..], prev[..], heads[..], lists, p, k);
      var head := heads[k];
      next[p] := head;
      prev[p] := 0;
      if head != 0 {
        prev[head] := p;
      }
      heads[k] := p;
      lists := lists[k := [p] + lists[k]];
      assert next[..] == old(next[..])[p := head];
      assert prev[..] == PrevAfterPush(old(prev[..]), p, head);
      assert heads[..] == old(heads[..])[k := p];
    }

    /** Unlink block p from list k. */
    method RemoveFromFreeList(p: nat, k: nat)
      requires Shape() && Links() && k <= MAX_ORDER && p in lists[k]
      modifies next, prev, heads, this`lists
      ensures Shape() && Links()
      ensures lists == old(lists)[k := Without(old(lists)[k], p)]
    {
      LinkedRemove(next[..], prev[..], heads[..], lists, p, k);
      if prev[p] != 0 {
        next[prev[p]] := next[p];
      } else {
        heads[k] := next[p];
      }
      if next[p] != 0 {
        prev[next[p]] := prev[p];
      }
      lists := lists[k := Without(lists[k], p)];
      assert next[..] == NextAfterRemove(old(next[..]), p, old(prev[p]));
      assert prev[..] == PrevAfterRemove(old(prev[..]), p, old(next[p]));
      assert heads[..] == old(heads[..])[k := if old(prev[p]) == 0 then old(next[p]) else old(heads[k])];
    }

    /** List the upper half of order k of the block at h. */
    method SplitOnce(h: nat, k: nat)
      requires Shape() && Links() && k <= MAX_ORDER && h + Pow2(k) < total && !status[h + Pow2(k)]
      requires forall j :: 0 <= j <= MAX_ORDER ==> h + Pow2(k) !in lists[j]
      modifies next, prev, heads, status, order, this`lists
      ensures Shape() && Links()
      ensures lists == old(lists)[k := [h + Pow2(k)] + old(lists)[k]]
      ensures status[..] == old(status[..]) && order[..] == old(order[..])[h + Pow2(k) := k]
    {
      var buddy := h + Pow2(k);
      AddToFreeList(buddy, k);
      order[buddy] := k;
      status[buddy] := false;
    }

    /** Halve the block at h from one order down to another, listing every upper half. */
    method SplitBlock(h: nat, from: nat, to: nat)
      requires Shape() && Links() && to <= from <= MAX_ORDER && h + Pow2(from) <= total
      requires HalvesUnset(status[..], h, from) && HalvesUnlisted(lists, h, from)
      modifies next, prev, heads, status, order, this`lists
      ensures Shape() && Links()
      ensures lists == PushHalves(old(lists), h, from, to)
      ensures status[..] == old(status[..]) && order[..] == OrderHalves(old(order[..]), h, from, to)
    {
      ghost var lists0, status0, order0 := lists, status[..], order[..];
      var cur := from;
      while cur > to
        invariant to <= cur <= from
        invariant Halved(lists0, status0, order0, h, from, cur)
      {
        cur := cur - 1;
        Pow2Strict(cur, from);
        HalfStillUnlisted(lists0, h, from, cur);
        assert HalfUnset(status0, h, cur);
        SplitOnce(h, cur);
      }
    }

    /** Where a split of the block at h stands after its halves of orders from-1 to cur were listed. */
    ghost predicate Halved(lists0: seq<seq<nat>>, status0: seq<bool>, order0: seq<nat>, h: nat, from: nat, cur: nat)
      requires |lists0| == MAX_ORDER + 1 && cur <= from <= MAX_ORDER && h + Pow2(from) <= |order0|
      reads Repr()
    {
      && Shape() && Links()
      && lists == PushHalves(lists0, h, from, cur)
      && status[..] == status0
      && order[..] == OrderHalves(order0, h, from, cur)
    }

    /** The free block (page, k) has been taken off the lists for coalescing; all else is in order. */
    ghost predicate Floating(page: nat, k: nat)
      reads Repr()
    {
      && Shape() && Links() && Meta() && HolesHarmless(owner) && k <= MAX_ORDER
      && Tiled(owner) && CanonicalBut(owner, page) && FreeHead(owner, page, k)
      && ListsMatchBut(owner, lists, page)
    }

    /** Merge the free block at `start`, which is on no list, with its buddies. */
    method Coalesce(start: nat, order0: nat) returns (page: nat)
      requires Floating(start, order0)
      modifies next, prev, heads, order, this`lists, this`owner
      ensures Floating(page, Merge(old(owner), start, order0).order)
      ensures page == Merge(old(owner), start, order0).head
      ensures owner == Merge(old(owner), start, order0).owner
      ensures lists == MergeLists(old(owner), old(lists), start, order0)
    {
      ghost var merged := Merge(owner, start, order0);
      ghost var mergedLists := MergeLists(owner, lists, start, order0);
      page := start;
      var k := order0;
      while k < MAX_ORDER
        invariant Floating(page, k)
        invariant Towards(merged, mergedLists, page, k)
        invariant k <= MAX_ORDER
      {
        var mergeable := BuddyLooksFree(page, k);
        if !mergeable {
          break;
        }
        page, k := MergeOnce(page, k);
      }
      MergeStops(owner, lists, page, k);
    }

    /** Coalescing on from (page, k) ends in the given state. */
    ghost predicate Towards(merged: Merged, mergedLists: seq<seq<nat>>, page: nat, k: nat)
      requires |lists| == MAX_ORDER + 1
      reads this`owner, this`lists
    {
      Merge(owner, page, k) == merged && MergeLists(owner, lists, page, k) == mergedLists
    }

    /** The test at the buddy page: inside memory, status bit clear, equal order. */
    method BuddyLooksFree(page: nat, k: nat) returns (yes: bool)
      requires Shape() && Meta() && Tiled(owner) && HolesHarmless(owner) && FreeHead(owner, page, k)
      ensures yes == FreeHead(owner, Buddy(page, k), k)
    {
      var buddy := Buddy(page, k);
      if buddy >= total {
        return false;
      }
      BuddyRead(status[..], order[..], owner, page, k);
      return !status[buddy] && order[buddy] == k;
    }

    /** Merge with a buddy that has been found free. */
    method MergeOnce(page0: nat, k0: nat) returns (page: nat, k: nat)
      requires Floating(page0, k0) && k0 < MAX_ORDER && FreeHead(owner, Buddy(page0, k0), k0)
      modifies next, prev, heads, order, this`lists, this`owner
      ensures Floating(page, k) && k == k0 + 1
      ensures Towards(Merge(old(owner), page0, k0), MergeLists(old(owner), old(lists), page0, k0), page, k)
    {
      MergeUnfold(owner, lists, page0, k0);
      ghost var owner', order' := Joined(owner, Lower(page0, k0), k0), order[..][Lower(page0, k0) := k0 + 1];
      JoinedOk(status[..], order[..], owner, lists, page0, k0);
      var buddy := Buddy(page0, k0);
      page := page0;
      RemoveFromFreeList(buddy, k0);
      if buddy < page {
        page := buddy;
      }
      k := k0 + 1;
      order[page] := k;
      owner := owner';
      assert order[..] == order';
    }

    /** Take the block at the front of list c, halve it down to order o and mark it allocated. */
    method Carve(h: nat, c: nat, o: nat)
      requires Shape() && Links() && Meta() && Tiled(owner) && ListsMatch(owner, lists)
      requires o <= c <= MAX_ORDER && lists[c] != [] && lists[c][0] == h
      modifies next, prev, heads, status, order, this`lists, this`owner
      ensures Shape() && Links() && Meta()
      ensures owner == Split(old(owner), h, c, o)
      ensures lists == PushHalves(old(lists)[c := old(lists)[c][1..]], h, c, o)
    {
      FrontIsFree(owner, lists, h, c);
      HalvesInside(owner, lists, status[..], order[..], h, c);
      ghost var order0, status0 := order[..], status[..];
      CarvedMeta(status0, order0, owner, h, c, o);
      TailUnlisted(lists, h, c);
      RemoveFromFreeList(h, c);
      if c > o {
        SplitBlock(h, c, o);
      }
      order[h] := o;
      status[h] := true;
      assert order[..] == OrderHalves(order0, h, c, o)[h := o];
      assert status[..] == status0[h := true];
      owner := Split(owner, h, c, o);
    }

    /** Set the reference count of n pages from h on. */
    method FillRefcounts(h: nat, n: nat, v: nat)
      requires Shape()
      modifies refcount
      ensures refcount[..] == SetRange(old(refcount[..]), h, n, v)
    {
      for i := 0 to n
        invariant refcount[..] == SetRange(old(refcount[..]), h, i, v)
      {
        if h + i < total {
          refcount[h + i] := v;
        }
      }
    }

    /** A block of the given order, or page 0 when there is none. */
    method AllocOrder(o: nat) returns (page: nat)
      requires Valid()
      modifies Repr()
      ensures Valid()
      ensures (Abs(), page) == BuddyState.AllocOrder(old(Abs()), o)
    {
      ghost var s := Abs();
      AllocInv(s, o);
      var c := FindOrder(o);
      if c > MAX_ORDER {
        return 0;
      }
      page := heads[c];
      HeadIsFront(next[..], prev[..], heads[..], lists, c);
      HandOut(page, c, o);
      assert Inv(Abs());
    }

    /** A block for a number of pages. It holds them all exactly when at most 2^MAX_ORDER are asked for: a larger
        request gets a block of the largest order. The count must be at most 2^31, or the order has no end in
        32 bits. */
    method AllocPages(count: nat) returns (page: nat, ghost o: nat)
      requires Valid() && count <= 0x8000_0000
      modifies Repr()
      ensures Valid()
      ensures count == 0 ==> page == 0 && Abs() == old(Abs())
      ensures count > 0 ==> OrderFor(count, o) && (Abs(), page) == BuddyState.AllocOrder(old(Abs()), o)
      ensures count > 0 ==> (page == 0 <==> forall k: nat :: o <= k <= MAX_ORDER ==> old(lists)[k] == [])
      ensures page != 0 ==> page < |Abs().owner| && Abs().owner[page].Live? && Abs().owner[page].head == page
      ensures page != 0 ==> (Pow2(Abs().owner[page].order) >= count <==> count <= 1024)
      ensures page != 0 && count <= 1024 && Abs().owner[page].order > 0 ==> Pow2(Abs().owner[page].order - 1) < count
    {
      if count == 0 {
        return 0, 0;
      }
      var want := CalculateOrder(count);
      o := want;
      ghost var s := Abs();
      BuddyRuns.AllocFailsIff(s, o);
      page := AllocOrder(want);
      if page != 0 {
        HandedOutOrder(s, o);
      }
    }

    /** Carve the block, set its reference counts and account for it. */
    method HandOut(h: nat, c: nat, o: nat)
      requires Shape() && Links() && Meta() && Tiled(owner) && ListsMatch(owner, lists)
      requires c == FirstFit(lists, o) <= MAX_ORDER && lists[c][0] == h
      modifies Repr()
      ensures Shape() && Links() && Meta()
      ensures Abs() == BuddyState.AllocOrder(old(Abs()), o).0
    {
      Carve(h, c, o);
      FillRefcounts(h, Pow2(o), 1);
      used := used + Pow2(o);
    }

    /** The smallest order from o up whose list is not empty, or 11. */
    method FindOrder(o: nat) returns (c: nat)
      requires Shape() && Links()
      ensures c == FirstFit(lists, o)
    {
      if o > MAX_ORDER {
        return MAX_ORDER + 1;
      }
      c := o;
      while c <= MAX_ORDER && heads[c] == 0
        invariant o <= c <= MAX_ORDER + 1 && FirstFit(lists, c) == FirstFit(lists, o)
      {
        HeadIsFront(next[..], prev[..], heads[..], lists, c);
        c := c + 1;
      }
      if c <= MAX_ORDER {
        HeadIsFront(next[..], prev[..], heads[..], lists, c);
      }
    }

    /** Does any page of the block still have more than one reference? */
    method CheckShared(page: nat, n: nat) returns (shared: bool)
      requires Shape()
      ensures shared == StillShared(refcount[..], page, n)
    {
      for i := 0 to n
        invariant !StillShared(refcount[..], page, i)
      {
        if page + i < total && refcount[page + i] > 1 {
          assert refcount[..][page + i] > 1;
          return true;
        }
      }
      return false;
    }

    /** Free the block that starts at the page; anything else is refused and changes nothing. */
    method FreePage(page: nat)
      requires Valid() && (page < total ==> !owner[page].Reserved?)
      modifies Repr()
      ensures Valid()
      ensures Abs() == BuddyState.FreePage(old(Abs()), page)
    {
      if page >= total {
        return;
      }
      assert MetaAt(status[page], order[page], owner[page], page);
      var k := order[page];
      if !status[page] {
        return;
      }
      var shared := CheckShared(page, Pow2(k));
      if shared {
        return;
      }
      ReleasedInv(Abs(), page);
      ReleaseBlock(page, k);
    }

    /** Clear the block's bits and counts, merge it with its buddies and list the result. */
    method ReleaseBlock(page: nat, k: nat)
      requires Valid() && page < total && owner[page] == Live(page, k) && Inv(Released(Abs(), page))
      modifies Repr()
      ensures Valid()
      ensures Abs() == Released(old(Abs()), page)
    {
      ghost var s := Abs();
      ReleasedLists(s, page);
      Unmark(page, k);
      FillRefcounts(page, Pow2(k), 0);
      used := used - Pow2(k);
      var merged := Coalesce(page, k);
      var order' := order[merged];
      assert MetaAt(status[merged], order[merged], owner[merged], merged);
      MergedUnlisted(owner, lists, merged, order');
      AddToFreeList(merged, order');
    }

    /** Clear the status bit of a live block. */
    method Unmark(page: nat, k: nat)
      requires Valid() && page < total && owner[page] == Live(page, k)
      modifies status, this`owner
      ensures owner == Paint(old(owner), page, k, Free(page, k))
      ensures Floating(page, k)
    {
      MetaFree(status[..], order[..], owner, page);
      ReleasePainted(owner, page);
      LiveListsMatchBut(owner, lists, page);
      assert BlockOk(owner, owner[page]);
      ghost var before := owner;
      status[page] := false;
      owner := Paint(owner, page, k, Free(page, k));
      assert status[..] == old(status[..])[page := false];
      assert Uniform(before, before[page]);
      SameHoles(before, owner);
    }

    method GetRefcount(page: nat) returns (count: nat)
      requires Valid()
      ensures count == if page < total then Abs().refs[page] else 0
    {
      count := if page < total then refcount[page] else 0;
    }

    /** One more reference to a page whose status bit is set; the kernel aborts on any other page. */
    method IncRefcount(page: nat) returns (count: nat)
      requires Valid() && page < total && StatusBit(owner[page], page)
      modifies refcount
      ensures Valid()
      ensures Abs() == IncRef(old(Abs()), page) && count == Abs().refs[page]
      ensures count == (if old(refcount[page]) == 65535 then 65535 else old(refcount[page]) + 1)
      ensures refcount[..] == old(refcount[..])[page := count]
    {
      var current := refcount[page];
      assert refcount[..][page] == current;
      if current == MAX_REFCOUNT {
        return MAX_REFCOUNT;
      }
      refcount[page] := current + 1;
      assert refcount[..] == old(refcount[..])[page := current + 1];
      return current + 1;
    }

    /** One reference less; the kernel aborts when there is none. */
    method DecRefcount(page: nat) returns (count: nat)
      requires Valid() && page < total && StatusBit(owner[page], page) && refcount[page] > 0
      modifies refcount
      ensures Valid()
      ensures Abs() == DecRef(old(Abs()), page) && count == Abs().refs[page]
      ensures count == (if old(refcount[page]) == 65535 then 65535 else old(refcount[page]) - 1)
      ensures refcount[..] == old(refcount[..])[page := count]
    {
      var current := refcount[page];
      assert refcount[..][page] == current;
      if current == MAX_REFCOUNT {
        return MAX_REFCOUNT;
      }
      refcount[page] := current - 1;
      assert refcount[..] == old(refcount[..])[page := current - 1];
      return current - 1;
    }
  }

  /** The code takes every legal run step for step. */
  method Perform(a: Allocator, ops: seq<BuddyRuns.Op>)
    requires a.Valid() && BuddyRuns.Sized(a.Abs()) && BuddyRuns.LegalRun(a.Abs(), ops)
    modifies a.Repr()
    ensures a.Valid() && a.Abs() == BuddyRuns.Run(old(a.Abs()), ops)
  {
    hide AllocOrder, FreePage, IncRef, DecRef, Inv;
    for i := 0 to |ops|
      invariant a.Valid() && BuddyRuns.Sized(a.Abs()) && BuddyRuns.LegalRun(a.Abs(), ops[i..])
      invariant BuddyRuns.Run(a.Abs(), ops[i..]) == BuddyRuns.Run(old(a.Abs()), ops)
    {
      assert ops[i..][1..] == ops[i + 1..];
      match ops[i]
      case Alloc(o) => var _ := a.AllocOrder(o);
      case Free(p) => a.FreePage(p);
      case Inc(p) => var _ := a.IncRefcount(p);
      case Dec(p) => var _ := a.DecRefcount(p);
    }
  }

  lemma {:induction false} NoMeta(status: seq<bool>, order: seq<nat>, owner: seq<Owner>)
    requires |status| == |order| == |owner|
    requires forall p :: 0 <= p < |owner| ==> !status[p] && order[p] == 0 && owner[p].Hole?
    ensures MetaOk(status, order, owner)
  {
    forall p | 0 <= p < |owner| ensures MetaAt(status[p], order[p], owner[p], p) {
    }
  }

  lemma {:induction false} NoLinks(next: seq<nat>, prev: seq<nat>, heads: seq<nat>, lists: seq<seq<nat>>)
    requires |next| == |prev| && |heads| == |lists| == MAX_ORDER + 1
    requires forall k :: 0 <= k < |lists| ==> lists[k] == [] && heads[k] == 0
    ensures Linked(next, prev, heads, lists)
  {
  }

  lemma {:induction false} NothingYet(owner: seq<Owner>, lists: seq<seq<nat>>, refs: seq<nat>)
    requires forall p :: 0 <= p < |owner| ==> owner[p].Hole?
    requires |lists| == MAX_ORDER + 1 && forall k :: 0 <= k < |lists| ==> lists[k] == []
    requires |refs| == |owner| && forall p :: 0 <= p < |refs| ==> refs[p] == 0
    ensures BootInv(Pmm(owner, lists, refs, 0))
  {
    assert FreePages(owner) == {};
    SpanSize(0, |owner|);
    assert Holes(owner) == Span(0, |owner|);
    forall k: nat | k <= MAX_ORDER ensures ListMatches(owner, lists[k], k) {
    }
  }

  lemma {:induction false} ReservedMeta(status: seq<bool>, order: seq<nat>, owner: seq<Owner>, page: nat)
    requires MetaOk(status, order, owner) && page < |owner| && owner[page].Hole?
    ensures MetaOk(status[page := true], order, owner[page := Reserved])
  {
    var r := owner[page := Reserved];
    forall p | 0 <= p < |r| ensures MetaAt(status[page := true][p], order[p], r[p], p) {
      assert MetaAt(status[p], order[p], owner[p], p);
    }
  }

  lemma {:induction false} UnreservedHoles(status: seq<bool>, order: seq<nat>, owner: seq<Owner>, h: nat, n: nat)
    requires MetaOk(status, order, owner) && h + n <= |owner|
    requires forall p :: h <= p < h + n ==> !status[p] && !Managed(owner[p])
    ensures AllHoles(owner, h, n)
  {
    forall p | h <= p < h + n ensures owner[p].Hole? {
      assert MetaAt(status[p], order[p], owner[p], p);
    }
  }

  /** Skipping a reserved page. */
  lemma {:induction false} StepOver(owner: seq<Owner>, status: seq<bool>, first: nat, cur: nat, last: nat)
    requires Cutting(owner, first, cur, last) && Greedy(owner, status, first, cur, last) && cur < last
    ensures Cutting(owner, first, cur + 1, last) && Greedy(owner, status, first, cur + 1, last)
  {
    forall h: nat, k: nat | first <= h < cur + 1 ensures Largest(owner, status, h, k, last) {
      assert h < cur ==> Largest(owner, status, h, k, last);
    }
  }

  /** What one merge keeps. */
  lemma {:induction false} JoinedOk(status: seq<bool>, order: seq<nat>, owner: seq<Owner>, lists: seq<seq<nat>>,
                                    h: nat, k: nat)
    requires Tiled(owner) && HolesHarmless(owner) && MetaOk(status, order, owner)
    requires CanonicalBut(owner, h) && ListsMatchBut(owner, lists, h)
    requires k < MAX_ORDER && FreeHead(owner, h, k) && FreeHead(owner, Buddy(h, k), k)
    ensures var r, l, low := Joined(owner, Lower(h, k), k), lists[k := Without(lists[k], Buddy(h, k))], Lower(h, k);
            && Buddy(h, k) in lists[k] && low < |owner|
            && Tiled(r) && HolesHarmless(r) && MetaOk(status, order[low := k + 1], r)
            && CanonicalBut(r, low) && FreeHead(r, low, k + 1) && ListsMatchBut(r, l, low)
  {
    MergeStep(owner, h, k);
    MergeListsStep(owner, lists, h, k);
    LowerHalves(owner, h, k);
    MetaJoin(status, order, owner, Lower(h, k), k);
    SameHoles(owner, Joined(owner, Lower(h, k), k));
  }

  lemma {:induction false} MergeUnfold(owner: seq<Owner>, lists: seq<seq<nat>>, h: nat, k: nat)
    requires |lists| == MAX_ORDER + 1 && k < MAX_ORDER && FreeHead(owner, Buddy(h, k), k)
    ensures var r, l := Joined(owner, Lower(h, k), k), lists[k := Without(lists[k], Buddy(h, k))];
            && Merge(owner, h, k) == Merge(r, Lower(h, k), k + 1)
            && MergeLists(owner, lists, h, k) == MergeLists(r, l, Lower(h, k), k + 1)
  {
  }

  lemma {:induction false} MergeStops(owner: seq<Owner>, lists: seq<seq<nat>>, h: nat, k: nat)
    requires |lists| == MAX_ORDER + 1 && (k == MAX_ORDER || !FreeHead(owner, Buddy(h, k), k))
    ensures Merge(owner, h, k) == Merged(owner, h, k) && MergeLists(owner, lists, h, k) == lists
  {
  }

  lemma {:induction false} FrontIsFree(owner: seq<Owner>, lists: seq<seq<nat>>, h: nat, c: nat)
    requires ListsMatch(owner, lists) && c <= MAX_ORDER && lists[c] != [] && lists[c][0] == h
    ensures FreeHead(owner, h, c) && h in lists[c]
  {
    assert ListMatches(owner, lists[c], c);
  }

  /** The upper halves of a free block carry no status bit and start no listed block. */
  lemma {:induction false} HalvesInside(owner: seq<Owner>, lists: seq<seq<nat>>, status: seq<bool>, order: seq<nat>,
                                        h: nat, c: nat)
    requires Tiled(owner) && ListsMatch(owner, lists) && PmmMeta.MetaOk(status, order, owner) && FreeHead(owner, h, c)
    ensures h + Pow2(c) <= |owner| && c <= MAX_ORDER
    ensures HalvesUnset(status, h, c) && HalvesUnlisted(lists, h, c)
  {
    assert BlockOk(owner, owner[h]);
    forall k: nat | k < c ensures HalfUnset(status, h, k) && HalfUnlisted(lists, h, k) {
      Pow2Strict(k, c);
      var q := h + Pow2(k);
      assert In(q, owner[h]);
      assert MetaAt(status[q], order[q], owner[q], q);
      forall j | 0 <= j < |lists| ensures q !in lists[j] {
        assert ListMatches(owner, lists[j], j);
      }
    }
  }

  lemma {:induction false} TailUnlisted(lists: seq<seq<nat>>, h: nat, c: nat)
    requires c < |lists| && lists[c] != [] && lists[c][0] == h && HalvesUnlisted(lists, h, c)
    ensures Without(lists[c], h) == lists[c][1..]
    ensures HalvesUnlisted(lists[c := lists[c][1..]], h, c)
  {
    var tail := lists[c := lists[c][1..]];
    forall k: nat | k < c ensures HalfUnlisted(tail, h, k) {
      assert HalfUnlisted(lists, h, k);
    }
  }

  lemma {:induction false} CarvedOrders(order: seq<nat>, h: nat, c: nat, o: nat)
    requires o <= c && h + Pow2(c) <= |order|
    ensures var r := OrderHalves(order, h, c, o)[h := o];
            && HalvesLabelled(r, h, c, o)
            && (forall p :: 0 <= p < |order| && !(h <= p < h + Pow2(c)) ==> r[p] == order[p])
  {
    var r := OrderHalves(order, h, c, o);
    var r' := r[h := o];
    forall k: nat | o <= k < c ensures HalfLabelled(r', h, k) {
      OrderHalvesLabel(order, h, c, o, k);
    }
    forall p: nat | p < |order| && !(h <= p < h + Pow2(c)) ensures r[p] == order[p] {
      OrderHalvesOutside(order, h, c, o, p);
    }
  }

  lemma {:induction false} SameSizes(status: seq<bool>, order: seq<nat>, owner: seq<Owner>)
    requires MetaOk(status, order, owner)
    ensures |status| == |order| == |owner|
  {
  }

  lemma {:induction false} CarvedMeta(status: seq<bool>, order: seq<nat>, owner: seq<Owner>, h: nat, c: nat, o: nat)
    requires Tiled(owner) && MetaOk(status, order, owner) && o <= c && FreeHead(owner, h, c)
    requires h + Pow2(c) <= |owner|
    ensures MetaOk(status[h := true], OrderHalves(order, h, c, o)[h := o], Split(owner, h, c, o))
  {
    hide OrderHalves, HalvesLabelled, MetaOk, Tiled, Split, FreeHead;
    SameSizes(status, order, owner);
    var order' := OrderHalves(order, h, c, o)[h := o];
    CarvedOrders(order, h, c, o);
    MetaSplit(status, order, owner, status[h := true], order', h, c, o);
  }

  lemma {:induction false} HeadIsFront(next: seq<nat>, prev: seq<nat>, heads: seq<nat>, lists: seq<seq<nat>>, c: nat)
    requires Linked(next, prev, heads, lists) && c < |lists|
    ensures heads[c] == 0 <==> lists[c] == []
    ensures lists[c] != [] ==> heads[c] == lists[c][0]
  {
    assert Spells(next, prev, heads[c], lists[c]);
    if lists[c] != [] {
      assert LinkedAt(next, prev, lists[c], 0);
    }
  }

  lemma {:induction false} MergedUnlisted(owner: seq<Owner>, lists: seq<seq<nat>>, h: nat, k: nat)
    requires ListsMatchBut(owner, lists, h)
    ensures forall j :: 0 <= j < |lists| ==> h !in lists[j]
  {
  }

  ghost predicate HalfUnset(status: seq<bool>, h: nat, k: nat)
  {
    h + Pow2(k) < |status| ==> !status[h + Pow2(k)]
  }

  ghost predicate HalvesUnset(status: seq<bool>, h: nat, c: nat)
  {
    forall k: nat :: k < c ==> HalfUnset(status, h, k)
  }

  ghost predicate HalfUnlisted(lists: seq<seq<nat>>, h: nat, k: nat)
  {
    forall j :: 0 <= j < |lists| ==> h + Pow2(k) !in lists[j]
  }

  ghost predicate HalvesUnlisted(lists: seq<seq<nat>>, h: nat, c: nat)
  {
    forall k: nat :: k < c ==> HalfUnlisted(lists, h, k)
  }

  lemma {:induction false} HalfStillUnlisted(lists: seq<seq<nat>>, h: nat, from: nat, cur: nat)
    requires |lists| == MAX_ORDER + 1 && cur + 1 <= from <= MAX_ORDER && HalvesUnlisted(lists, h, from)
    ensures HalfUnlisted(PushHalves(lists, h, from, cur + 1), h, cur)
  {
    assert HalfUnlisted(lists, h, cur);
    var pushed := PushHalves(lists, h, from, cur + 1);
    forall j | 0 <= j < |pushed| ensures h + Pow2(cur) !in pushed[j] {
      PushHalvesAt(lists, h, from, cur + 1, j);
      if cur + 1 <= j < from {
        Pow2Strict(cur, j);
      }
    }
  }

  /** The order map after the upper halves of orders c-1 down to o have been labelled. */
  ghost function OrderHalves(order: seq<nat>, h: nat, c: nat, o: nat): (r: seq<nat>)
    requires o <= c && h + Pow2(c) <= |order|
    ensures |r| == |order|
    decreases c - o
  {
    if o == c then order else
      Pow2Strict(o, c);
      OrderHalves(order, h, c, o + 1)[h + Pow2(o) := o]
  }

  lemma {:induction false} OrderHalvesOutside(order: seq<nat>, h: nat, c: nat, o: nat, p: nat)
    requires o <= c && h + Pow2(c) <= |order| && p < |order| && !(h < p < h + Pow2(c))
    ensures OrderHalves(order, h, c, o)[p] == order[p]
    decreases c - o
  {
    if o < c {
      Pow2Strict(o, c);
      OrderHalvesOutside(order, h, c, o + 1, p);
    }
  }

  lemma {:induction false} OrderHalvesLabel(order: seq<nat>, h: nat, c: nat, o: nat, k: nat)
    requires o <= k < c && h + Pow2(c) <= |order|
    ensures HalfLabelled(OrderHalves(order, h, c, o), h, k)
    decreases c - o
  {
    Pow2Strict(o, c);
    if o < k {
      Pow2Strict(o, k);
      OrderHalvesLabel(order, h, c, o + 1, k);
    }
  }

  /** Two free buddies are the halves of one aligned block that starts at the lower one. */
  lemma {:induction false} LowerHalves(owner: seq<Owner>, h: nat, k: nat)
    requires Tiled(owner) && FreeHead(owner, h, k) && FreeHead(owner, Buddy(h, k), k)
    ensures Buddy(h, k) != h && Aligned(Lower(h, k), k + 1)
    ensures FreeHead(owner, Lower(h, k), k) && FreeHead(owner, Lower(h, k) + Pow2(k), k)
  {
    assert BlockOk(owner, owner[h]);
    BuddyHalves(h, k);
    HeadBounds(h, k + 1);
  }

  /** The smallest order that holds the pages, capped at the largest order. */
  ghost predicate OrderFor(count: nat, o: nat)
  {
    && o <= MAX_ORDER && (Pow2(o) >= count <==> count <= 1024)
    && (count <= 1024 && o > 0 ==> Pow2(o - 1) < count)
    && (count > 1024 ==> o == MAX_ORDER)
  }

  /** The order for a number of pages. */
  method CalculateOrder(count: nat) returns (o: nat)
    requires count <= 0x8000_0000
    ensures OrderFor(count, o)
  {
    TopOrder();
    if count <= 1 {
      return 0;
    }
    o := 0;
    var power := 1;
    while power < count
      invariant power == Pow2(o) && (o > 0 ==> Pow2(o - 1) < count)
      decreases count - power
    {
      power := 2 * power;
      o := o + 1;
    }
    if o > MAX_ORDER {
      Pow2Mono(MAX_ORDER, o - 1);
      return MAX_ORDER;
    }
    Pow2Mono(o, MAX_ORDER);
  }

  lemma {:induction false} TopOrder()
    ensures Pow2(MAX_ORDER) == 1024
  {
    assert Pow2(5) == 32;
    assert Pow2(MAX_ORDER) == 32 * Pow2(5);
  }

  lemma {:induction false} HandedOutOrder(s: Pmm, o: nat)
    requires Inv(s) && o <= MAX_ORDER && BuddyState.AllocOrder(s, o).1 != 0
    ensures var (t, page) := BuddyState.AllocOrder(s, o);
            page < |t.owner| && t.owner[page] == Live(page, o)
  {
    BuddyRuns.AllocSound(s, o);
  }
}
