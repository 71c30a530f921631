/**
 * The virtual memory manager (kernel/kernel/memory/vmm.c): a sorted, doubly linked list of regions over
 * [0x00100000, 0xC0000000), with its nodes taken from pools. Physical pages are granted or refused from outside.
 */
module Vmm {
  import opened BuddyState
  import opened FreeLists
  import opened VmmNodes
  import opened VmmRegions

  /** The regions that a list of nodes holds. */
  ghost function Held(info: seq<Region>, order: seq<nat>): (r: seq<Region>)
    ensures |r| == |order|
    ensures forall i :: 0 <= i < |order| && order[i] < |info| ==> r[i] == info[order[i]]
  {
    seq(|order|, i requires 0 <= i < |order| => if order[i] < |info| then info[order[i]] else Region(0, 0, 0, false))
  }

  class Manager {
    const info: array<Region>
    const next: array<nat>
    const prev: array<nat>
    var head: nat
    var spare: nat
    var boot: nat
    var page: nat
    var dynamic: bool

    ghost var order: seq<nat>
    ghost var reuse: seq<nat>

    /** The list of regions is sound, and every node is accounted for but for `loose` ones. */
    ghost predicate Sound(loose: set<nat>)
      reads this, next, prev
    {
      && info.Length == next.Length == prev.Length == NODES + 1
      && info as object != next && next != prev && info as object != prev
      && Spells(next[..], prev[..], head, order)
      && Chain(next[..], spare, reuse)
      && loose !! Elems(order) && Pool(Elems(order) + loose, reuse, boot, page)
    }

    ghost function Regions(): seq<Region>
      reads this, info
    {
      Held(info[..], order)
    }

    ghost predicate Valid()
      reads this, info, next, prev
    {
      Sound({}) && Tiles(Regions(), KERNEL_START, KERNEL_END) && Tidy(Regions())
    }

    /** The kernel image, user space and the kernel heap. */
    constructor ()
      ensures Valid() && !dynamic && NodeLeft() && fresh(info) && fresh(next) && fresh(prev)
      ensures Regions() == InitialRegions()
      ensures Regions() == [Region(0x10_0000, 0x40_0000, 3, false), Region(0x40_0000, 0x4000_0000, 6, true),
                            Region(0x4000_0000, 0xC000_0000, 2, true)]
      ensures boot == 3
    {
      info := new Region[NODES + 1](i => Region(0, 0, 0, false));
      next := new nat[NODES + 1](i => 0);
      prev := new nat[NODES + 1](i => 0);
      head, spare, boot, page, dynamic := 0, 0, 0, 0, false;
      order, reuse := [], [];
      new;
      hide Spells, Chain, Pool;
      EmptyLists(next[..], prev[..]);
      InsertInitial(Region(KERNEL_START, USER_START, WRITE + PRESENT, false));
      InsertInitial(Region(USER_START, USER_END, USER + WRITE, true));
      InsertInitial(Region(KERNEL_HEAP, KERNEL_END, WRITE, true));
      InitialTiles(Regions());
    }

    /** Append one of the first regions, which start one above the other. */
    method InsertInitial(r: Region)
      requires Sound({}) && !dynamic && boot < BOOT
      requires forall j :: 0 <= j < |order| ==> Regions()[j].start < r.start
      modifies this`head, this`order, this`spare, this`boot, this`page, this`reuse, info, next, prev
      ensures Sound({}) && boot == old(boot) + 1 && Regions() == old(Regions()) + [r]
    {
      hide Spells, Chain, Pool;
      ghost var was, f, h := order, info[..], Regions();
      var p := CreateRegion(r);
      HeldOther(f, info[..], was, p);
      ghost var k := InsertRegion(p);
      HeldInsert(f, was, k, p, r);
      assert h[..|was|] + [r] + h[|was|..] == h + [r];
    }

    /** From now on nodes come from a dedicated page, if there is one. */
    method EnableDynamic(granted: bool)
      requires Valid()
      modifies this`dynamic
      ensures Valid() && dynamic == (old(dynamic) || granted) && Regions() == old(Regions())
    {
      if dynamic || !granted {
        return;
      }
      dynamic := true;
    }

    // ---------- nodes ----------

    /** A node for a new region, or 0 when the pools are empty. */
    method CreateRegion(r: Region) returns (p: nat)
      requires Sound({})
      modifies this`spare, this`boot, this`page, this`reuse, info, next, prev
      ensures p == 0 <==> if dynamic then old(reuse) == [] && old(page) >= PAGE_NODES else old(boot) >= BOOT
      ensures p == 0 ==> Sound({}) && info[..] == old(info[..]) && spare == old(spare)
      ensures p == 0 ==> boot == old(boot) && page == old(page) && reuse == old(reuse)
      ensures p != 0 ==> 0 < p <= NODES && p !in order && Sound({p}) && info[..] == old(info[..])[p := r]
      ensures p != 0 ==> next[p] == prev[p] == 0 && (!dynamic ==> boot == old(boot) + 1)
    {
      hide Spells, Chain, Pool, NoDup;
      assert Elems(order) + {} == Elems(order);
      if dynamic {
        SpareIs(next[..], spare, reuse);
        if spare != 0 {
          ChainPop(next[..], spare, reuse);
          PoolReuse(Elems(order), reuse, boot, page);
          p := spare;
          spare := next[p];
          reuse := reuse[1..];
        } else {
          if page >= PAGE_NODES {
            return 0;
          }
          PoolPage(Elems(order), reuse, boot, page);
          page := page + 1;
          p := BOOT + page;
        }
      } else {
        if boot >= BOOT {
          return 0;
        }
        PoolBoot(Elems(order), reuse, boot, page);
        boot := boot + 1;
        p := boot;
      }
      ClearLinks(p, r);
    }

    /** Fill a fresh node in. */
    method ClearLinks(p: nat, r: Region)
      requires 0 < p <= NODES && info.Length == next.Length == prev.Length == NODES + 1
      requires info as object != next && next != prev && info as object != prev
      requires Spells(next[..], prev[..], head, order) && Chain(next[..], spare, reuse)
      requires p !in order && p !in reuse
      modifies info, next, prev
      ensures Spells(next[..], prev[..], head, order) && Chain(next[..], spare, reuse)
      ensures info[..] == old(info[..])[p := r] && next[p] == prev[p] == 0
    {
      hide Spells, Chain;
      ghost var n, v := next[..], prev[..];
      info[p] := r;
      next[p] := 0;
      prev[p] := 0;
      SpellsFrame(n, v, next[..], prev[..], head, order);
      ChainFrame(n, next[..], spare, reuse);
    }

    /** Put a loose node between two neighbours of the list. */
    method Link(p: nat, ghost k: nat, before: nat, after: nat)
      requires 0 < p <= NODES && p !in order && Sound({p}) && k <= |order|
      requires before == At(order, k - 1) && after == At(order, k)
      modifies this`head, this`order, next, prev
      ensures Sound({}) && order == InsertAt(old(order), k, p)
    {
      hide Spells, Chain, Pool, NoDup, At, NextAfterInsert, PrevAfterInsert, InsertAt;
      ghost var n, v := next[..], prev[..];
      SpellsInsert(n, v, head, order, k, p);
      HeadIs(n, v, head, order);
      NeighboursOf(n, v, head, order, k);
      prev[p] := before;
      next[p] := after;
      if before != 0 {
        next[before] := p;
      } else {
        head := p;
      }
      if after != 0 {
        prev[after] := p;
      }
      LinkFrame(n, v, next[..], prev[..], p, before, after);
      InsertLoose(n, next[..], spare, order, reuse, boot, page, k, p);
      order := InsertAt(order, k, p);
    }

    /** Take the node at place i out of the list, and keep it for reuse if it came from the page. */
    method RemoveRegion(p: nat, ghost i: nat)
      requires Sound({}) && i < |order| && p == order[i]
      modifies this`head, this`spare, this`order, this`reuse, next, prev
      ensures Sound({}) && order == old(order)[..i] + old(order)[i + 1..]
    {
      hide Spells, Chain, Pool, NoDup, At, NextAfterRemove, PrevAfterRemove, Without;
      ghost var n, v := next[..], prev[..];
      NodeAt(n, v, head, order, i);
      IndexOf(order, i);
      SpellsRemove(n, v, head, order, p);
      var before, after := prev[p], next[p];
      if before != 0 {
        next[before] := after;
      } else {
        head := after;
      }
      if after != 0 {
        prev[after] := before;
      }
      UnlinkFrame(n, v, next[..], prev[..], p, before, after);
      Unlinked(n, next[..], spare, order, reuse, boot, page, p, before);
      order := order[..i] + order[i + 1..];
      DestroyRegion(p);
    }

    method DestroyRegion(p: nat)
      requires p !in order && p !in reuse && Sound({p})
      modifies this`spare, this`reuse, next, prev
      ensures Sound({})
    {
      hide Spells, Chain, NoDup;
      ghost var n, v := next[..], prev[..];
      PoolRelease(Elems(order) + {p}, reuse, boot, page, p);
      assert Elems(order) + {p} - {p} == Elems(order) + {};
      if p <= BOOT {
        return;
      }
      ChainPush(n, spare, reuse, p);
      next[p] := spare;
      prev[p] := 0;
      SpellsFrame(n, v, next[..], prev[..], head, order);
      spare := p;
      reuse := [p] + reuse;
    }

    // ---------- walks over the list ----------

    /** Insert a loose node before the first region that does not start below it. */
    method InsertRegion(p: nat) returns (ghost k: nat)
      requires 0 < p <= NODES && p !in order && Sound({p})
      modifies this`head, this`order, next, prev
      ensures Sound({}) && k <= |old(order)| && order == InsertAt(old(order), k, p)
      ensures forall j :: 0 <= j < k ==> old(Regions())[j].start < info[p].start
      ensures k < |old(order)| ==> old(Regions())[k].start >= info[p].start
    {
      hide Spells, Chain, Pool, NoDup, At;
      var before, current;
      before, current, k := FindPlace(info[p].start);
      assert forall j :: 0 <= j < k ==> Regions()[j].start < info[p].start;
      Link(p, k, before, current);
    }

    /** The neighbours between which a region with the given start belongs. */
    method FindPlace(start: nat) returns (before: nat, current: nat, ghost k: nat)
      requires info.Length == next.Length == prev.Length == NODES + 1 && Spells(next[..], prev[..], head, order)
      ensures k <= |order| && current == At(order, k) && before == At(order, k - 1)
      ensures forall j :: 0 <= j < k ==> Regions()[j].start < start
      ensures k < |order| ==> Regions()[k].start >= start
    {
      hide Spells, NoDup;
      HeadIs(next[..], prev[..], head, order);
      current, before, k := head, 0, 0;
      while current != 0 && info[current].start < start
        invariant k <= |order| && current == At(order, k) && before == At(order, k - 1)
        invariant current != 0 <==> k < |order|
        invariant (forall j :: 0 <= j < k ==> Regions()[j].start < start) && current <= NODES
        decreases |order| - k
      {
        NodeAt(next[..], prev[..], head, order, k);
        before := current;
        current := next[current];
        k := k + 1;
      }
    }

    /** The region that holds an address, or 0. */
    method FindRegion(x: nat) returns (p: nat, ghost i: nat)
      requires Sound({})
      ensures i <= |order| && p == At(order, i) && (p == 0 <==> i == |order|) && p <= NODES
      ensures p != 0 ==> Holds(Regions(), i, x) && p == order[i]
      ensures p == 0 ==> forall j: nat :: !Holds(Regions(), j, x)
    {
      hide Spells, Chain, Pool, NoDup;
      HeadIs(next[..], prev[..], head, order);
      p, i := head, 0;
      while p != 0
        invariant i <= |order| && p == At(order, i) && (p == 0 <==> i == |order|) && p <= NODES
        invariant forall j: nat :: j < i ==> !Holds(Regions(), j, x)
        decreases |order| - i
      {
        NodeAt(next[..], prev[..], head, order, i);
        if info[p].start <= x && x < info[p].end {
          return;
        }
        p := next[p];
        i := i + 1;
      }
    }

    /** Merge adjacent free regions over the whole list. */
    method MergeFree()
      requires Sound({})
      modifies this`head, this`spare, this`order, this`reuse, info, next, prev
      ensures Sound({}) && Regions() == MergeFrom(old(Regions()), 0)
    {
      hide Spells, Chain, Pool, NoDup, Tiles;
      HeadIs(next[..], prev[..], head, order);
      var p := head;
      ghost var i := 0;
      while p != 0 && next[p] != 0
        invariant Sound({}) && i <= |order| && p == At(order, i) && (p == 0 <==> i == |order|) && p <= NODES
        invariant MergeFrom(Regions(), i) == MergeFrom(old(Regions()), 0)
        decreases |order| - i
      {
        NodeAt(next[..], prev[..], head, order, i);
        NodeAt(next[..], prev[..], head, order, i + 1);
        var q := next[p];
        if info[p].free && info[q].free && info[p].end == info[q].start {
          MergePair(p, q, i);
        } else {
          p := q;
          i := i + 1;
        }
      }
      if p != 0 {
        NodeAt(next[..], prev[..], head, order, i);
      }
    }

    method MergePair(p: nat, q: nat, ghost i: nat)
      requires Sound({}) && i + 1 < |order| && p == order[i] && q == order[i + 1] && p <= NODES && q <= NODES
      modifies this`head, this`spare, this`order, this`reuse, info, next, prev
      ensures Sound({}) && Regions() == Merge(old(Regions()), i)
      ensures i < |order| == |old(order)| - 1 && order[i] == p
    {
      hide Spells, Chain, Pool, NoDup;
      ghost var h := Regions();
      HeadIs(next[..], prev[..], head, order);
      HeldSet(info[..], order, i, info[p].(end := info[q].end));
      info[p] := info[p].(end := info[q].end);
      HeldRemove(info[..], order, i + 1);
      RemoveRegion(q, i + 1);
      assert Regions() == Merge(h, i);
    }

    /** Cut the region at place i at a point inside it; 0 when the point is outside or no node is left. */
    method SplitRegion(p: nat, at: nat, ghost i: nat) returns (q: nat)
      requires Sound({}) && i < |order| && p == order[i] && p <= NODES
      modifies this, info, next, prev
      ensures Sound({}) && dynamic == old(dynamic)
      ensures q == 0 <==> !(old(info[p]).start < at < old(info[p]).end) || !old(NodeLeft())
      ensures if q == 0 then Regions() == old(Regions()) && order == old(order)
              else q == p && Regions() == Split(old(Regions()), i, at) && i < |order| && order[i] == p
    {
      hide Spells, Chain, Pool, NoDup, At;
      var r := info[p];
      if at <= r.start || at >= r.end {
        return 0;
      }
      ghost var h, was := Regions(), order;
      var second := CreateRegion(Region(at, r.end, r.flags, r.free));
      if second == 0 {
        return 0;
      }
      HeadIs(next[..], prev[..], head, order);
      NodeAt(next[..], prev[..], head, order, i);
      AtIs(order, i);
      ghost var f := info[..];
      info[p] := info[p].(end := at);
      SplitHeld(old(info[..]), f, info[..], was, i, second, at, r);
      Link(second, i + 1, p, next[p]);
      return p;
    }

    // ---------- allocation ----------

    method FindFit(size: nat, flags: nat) returns (p: nat, ghost i: nat)
      requires Sound({})
      ensures i == FirstSuiting(Regions(), size, flags) && p == At(order, i) && (p == 0 <==> i == |order|) && p <= NODES
    {
      hide Spells, Chain, Pool, NoDup;
      HeadIs(next[..], prev[..], head, order);
      p, i := head, 0;
      while p != 0
        invariant i <= |order| && p == At(order, i) && (p == 0 <==> i == |order|) && p <= NODES
        invariant forall j :: 0 <= j < i ==> !Suits(Regions()[j], size, flags)
        decreases |order| - i
      {
        NodeAt(next[..], prev[..], head, order, i);
        if info[p].free && info[p].end - info[p].start >= size && !ForUser(flags) == IsKernel(info[p].start) {
          FirstSuitingIs(Regions(), size, flags, i);
          return;
        }
        p := next[p];
        i := i + 1;
      }
      FirstSuitingIs(Regions(), size, flags, i);
    }

    /** Turn the front of a free region into an allocation; fails when a split finds no node. */
    method Carve(p: nat, size: nat, flags: nat, ghost i: nat) returns (ok: bool)
      requires Valid() && i < |order| && p == order[i] && p <= NODES && Suits(Regions()[i], size, flags)
      requires 0 < size && size % PAGE == 0
      modifies this, info, next, prev
      ensures Sound({}) && dynamic == old(dynamic)
      ensures ok <==> old(info[p].end) - old(info[p].start) == size || old(NodeLeft())
      ensures if ok then Regions() == Take(old(Regions()), i, size, flags) && i < |order| && order[i] == p
              else Regions() == old(Regions()) && order == old(order)
    {
      hide Spells, Chain, Pool, NoDup, Tiles;
      var r := info[p];
      ghost var h := Regions();
      if r.end - r.start != size {
        var q := SplitRegion(p, r.start + size, i);
        if q == 0 {
          return false;
        }
        SplitAt(h, i, r.start + size);
      }
      HeadIs(next[..], prev[..], head, order);
      HeldSet(info[..], order, i, info[p].(free := false, flags := WithPresent(flags)));
      info[p] := info[p].(free := false, flags := WithPresent(flags));
      return true;
    }

    /** Mark the region at place i free and merge. */
    method Release(p: nat, ghost i: nat)
      requires Valid() && i < |order| && p == order[i] && p <= NODES && !Regions()[i].free
      modifies this`head, this`spare, this`order, this`reuse, info, next, prev
      ensures Valid() && Regions() == Freed(old(Regions()), i) && MergedTo(Regions(), |Regions()|)
      ensures forall c: nat, d: nat :: Used(Regions(), c, d) <==>
                Used(old(Regions()), c, d) && !(c == old(Regions())[i].start && d == old(Regions())[i].end)
    {
      hide Spells, Chain, Pool, NoDup, Tiles, Used;
      HeadIs(next[..], prev[..], head, order);
      UnmarkIs(Regions(), KERNEL_START, KERNEL_END, i);
      HeldSet(info[..], order, i, info[p].(free := true));
      info[p] := info[p].(free := true);
      ghost var h := Regions();
      MergeFromIs(h, KERNEL_START, KERNEL_END, 0);
      MergeFree();
      MergedTidy(Regions());
    }

    /** Allocate pages: the first fit becomes an allocation, unless it cannot be cut off or physical pages run out, in
        which case no allocation changes. */
    method Alloc(pages: nat, flags: nat, available: nat) returns (r: nat)
      requires Valid() && pages * PAGE < 0x1_0000_0000
      modifies this, info, next, prev
      ensures Valid() && dynamic == old(dynamic)
      ensures r == 0 ==> SameMemory(old(Regions()), Regions())
      ensures r == 0 && available >= pages ==> Regions() == old(Regions())
      ensures r != 0 ==>
                && (forall c: nat, d: nat ::
                      Used(Regions(), c, d) <==> Used(old(Regions()), c, d) || (c == r && d == r + pages * PAGE))
                && (forall x: nat :: r <= x < r + pages * PAGE ==> FreeAt(old(Regions()), x))
                && KERNEL_START <= r && r + pages * PAGE <= KERNEL_END && IsKernel(r) == !ForUser(flags)
                && var i := FirstSuiting(old(Regions()), pages * PAGE, flags);
                   i < |old(Regions())| && r == old(Regions())[i].start
                   && Regions() == Take(old(Regions()), i, pages * PAGE, flags)
      ensures r == 0 <==>
                || pages == 0 || available < pages
                || FirstSuiting(old(Regions()), pages * PAGE, flags) == |old(Regions())|
                || (var f := old(Regions())[FirstSuiting(old(Regions()), pages * PAGE, flags)];
                    f.end - f.start != pages * PAGE && !old(NodeLeft()))
      ensures r != 0 ==>
                exists f :: LowestFit(old(Regions()), f, pages * 4096, flags) && f.start == r &&
                            CutOff(old(Regions()), Regions(), f, pages * 4096, flags)
      ensures r == 0 <==>
                || pages == 0 || available < pages
                || (forall f :: !LowestFit(old(Regions()), f, pages * 4096, flags))
                || (exists f :: LowestFit(old(Regions()), f, pages * 4096, flags) &&
                                f.end - f.start != pages * 4096 && !old(NodeLeft()))
    {
      hide Spells, Chain, Pool, NoDup, Tiles, Used, FirstSuiting, Take, FreeAt, SameMemory, LowestFit, CutOff;
      SearchIsLowest(Regions(), pages * PAGE, flags);
      SameIs(Regions(), Regions());
      if pages == 0 {
        return 0;
      }
      var size := pages * PAGE;
      Multiple(pages);
      ghost var h := Regions();
      var p;
      ghost var i;
      p, i := FindFit(size, flags);
      if p == 0 {
        return 0;
      }
      FitFacts(h, KERNEL_START, KERNEL_END, i, size, flags);
      r := info[p].start;
      TakeIs(h, KERNEL_START, KERNEL_END, i, size, flags);
      TakeTidy(h, i, size, flags);
      TakeCutsOff(h, i, size, flags);
      var ok := Carve(p, size, flags, i);
      if !ok {
        return 0;
      }
      for k := 0 to pages
        invariant Valid() && dynamic == old(dynamic) && Regions() == Take(h, i, size, flags) && k <= available
      {
        if k >= available {
          Rollback(r, i, size, h, flags);
          return 0;
        }
      }
    }

    /** Physical pages ran out: the region goes back. */
    method Rollback(start: nat, ghost i: nat, ghost size: nat, ghost h: seq<Region>, ghost flags: nat)
      requires Valid() && i < |h| && Suits(h[i], size, flags) && 0 < size && size % PAGE == 0 && start == h[i].start
      requires Tiles(h, KERNEL_START, KERNEL_END) && Regions() == Take(h, i, size, flags)
      modifies this`head, this`spare, this`order, this`reuse, info, next, prev
      ensures Valid() && SameMemory(h, Regions())
    {
      hide Spells, Chain, Pool, NoDup, Tiles, Used, FirstSuiting, SameMemory;
      TakeIs(h, KERNEL_START, KERNEL_END, i, size, flags);
      TakenAt(h, KERNEL_START, KERNEL_END, i, size, flags);
      var p;
      ghost var j;
      p, j := FindRegion(start);
      if p != 0 {
        HoldsOne(Regions(), KERNEL_START, KERNEL_END, i, j, start);
        Release(p, j);
      }
      SameIs(h, Regions());
    }

    /** Free the allocation that holds an address, exactly if the number of pages is that of the allocation. */
    method Free(virt: nat, pages: nat) returns (ok: bool, ghost i: nat)
      requires Valid() && pages * PAGE < 0x1_0000_0000
      modifies this`head, this`spare, this`order, this`reuse, info, next, prev
      ensures Valid()
      ensures ok <==> virt != 0 && pages != 0 && virt % PAGE == 0 && Freeable(old(Regions()), virt, pages * PAGE)
      ensures ok ==> FreeableAt(old(Regions()), i, virt, pages * PAGE) && Regions() == Freed(old(Regions()), i)
      ensures ok ==>
                && MergedTo(Regions(), |Regions()|)
                && forall c: nat, d: nat :: Used(Regions(), c, d) <==>
                     Used(old(Regions()), c, d) && !(c == old(Regions())[i].start && d == old(Regions())[i].end)
      ensures ok ==> SameUsedBut(old(Regions()), Regions(), old(Regions())[i])
      ensures !ok ==> Regions() == old(Regions())
    {
      hide Spells, Chain, Pool, NoDup, Tiles, Tidy, Used, Freed, SameUsedBut;
      if virt == 0 || pages == 0 || virt % PAGE != 0 {
        return false, 0;
      }
      var p;
      p, i := FindRegion(virt);
      FoundFreeable(Regions(), i, virt, pages * PAGE);
      if p == 0 || info[p].free || info[p].end - info[p].start != pages * PAGE {
        return false, 0;
      }
      FreedUsed(Regions(), KERNEL_START, KERNEL_END, i);
      Release(p, i);
      return true, i;
    }

    /** CreateRegion would succeed. */
    ghost predicate NodeLeft()
      reads this
    {
      if dynamic then reuse != [] || page < PAGE_NODES else boot < BOOT
    }
  }

  lemma {:induction false} SpareIs(next: seq<nat>, spare: nat, reuse: seq<nat>)
    requires Chain(next, spare, reuse)
    ensures (spare == 0 <==> reuse == []) && NoDup(reuse)
  {
    assert reuse != [] ==> 0 < reuse[0];
  }

  // ---------- regions of changed lists ----------

  lemma {:induction false} HeldSet(info: seq<Region>, order: seq<nat>, i: nat, r: Region)
    requires NoDup(order) && i < |order| && order[i] < |info|
    ensures Held(info[order[i] := r], order) == Held(info, order)[i := r]
  {
    var a, b := Held(info[order[i] := r], order), Held(info, order)[i := r];
    forall k | 0 <= k < |order| ensures a[k] == b[k] {
    }
  }

  lemma {:induction false} HeldInsert(info: seq<Region>, order: seq<nat>, k: nat, p: nat, r: Region)
    requires p !in order && k <= |order| && p < |info|
    ensures Held(info[p := r], InsertAt(order, k, p)) == Held(info, order)[..k] + [r] + Held(info, order)[k..]
  {
    var all := InsertAt(order, k, p);
    var a := Held(info[p := r], all);
    var h := Held(info, order);
    var b := h[..k] + [r] + h[k..];
    forall n | 0 <= n < |all| ensures a[n] == b[n] {
      if n < k {
        assert all[n] == order[n] && order[n] in order;
      } else if n > k {
        assert all[n] == order[n - 1] && order[n - 1] in order;
      }
    }
  }

  lemma {:induction false} HeldRemove(info: seq<Region>, order: seq<nat>, i: nat)
    requires i < |order|
    ensures Held(info, order[..i] + order[i + 1..]) == Held(info, order)[..i] + Held(info, order)[i + 1..]
  {
    var l := order[..i] + order[i + 1..];
    var a := Held(info, l);
    var h := Held(info, order);
    var b := h[..i] + h[i + 1..];
    forall n | 0 <= n < |l| ensures a[n] == b[n] {
      assert l[n] == order[if n < i then n else n + 1];
    }
  }

  /** What the links of the node at place i are. */
  lemma {:induction false} NodeAt(next: seq<nat>, prev: seq<nat>, head: nat, order: seq<nat>, i: nat)
    requires Spells(next, prev, head, order) && i < |order| && next != []
    ensures 0 < order[i] < |next| && next[order[i]] == At(order, i + 1) && prev[order[i]] == At(order, i - 1)
    ensures At(order, i + 1) < |next| && (At(order, i + 1) != 0 <==> i + 1 < |order|)
    ensures At(order, i - 1) < |next| && (At(order, i - 1) != 0 <==> 0 < i)
    ensures NoDup(order) && order[i] in order && head == order[0] && (0 < i ==> At(order, i - 1) in order)
  {
    assert LinkedAt(next, prev, order, i);
    InBounds(next, prev, head, order, i + 1);
    InBounds(next, prev, head, order, i - 1);
  }

  lemma {:induction false} HeadIs(next: seq<nat>, prev: seq<nat>, head: nat, order: seq<nat>)
    requires Spells(next, prev, head, order) && next != []
    ensures head == At(order, 0) < |next| && (head == 0 <==> order == []) && NoDup(order)
  {
    InBounds(next, prev, head, order, 0);
  }

  lemma {:induction false} NeighboursOf(next: seq<nat>, prev: seq<nat>, head: nat, order: seq<nat>, k: nat)
    requires Spells(next, prev, head, order) && k <= |order| && next != []
    ensures At(order, k - 1) == 0 <==> k == 0
  {
    InBounds(next, prev, head, order, k - 1);
  }

  lemma {:induction false} LinkFrame(next: seq<nat>, prev: seq<nat>, next': seq<nat>, prev': seq<nat>, p: nat,
                                     before: nat, after: nat)
    requires |next| == |prev| && p < |next| && before < |next| && after < |next|
    requires next' == if before != 0 then next[p := after][before := p] else next[p := after]
    requires prev' == if after != 0 then prev[p := before][after := p] else prev[p := before]
    ensures next' == NextAfterInsert(next, p, before, after) && prev' == PrevAfterInsert(prev, p, before, after)
  {
  }

  lemma {:induction false} UnlinkFrame(next: seq<nat>, prev: seq<nat>, next': seq<nat>, prev': seq<nat>, p: nat,
                                       before: nat, after: nat)
    requires |next| == |prev| && p < |next| && before < |next| && after < |next| && next[p] == after
    requires prev[p] == before
    requires next' == if before != 0 then next[before := after] else next
    requires prev' == if after != 0 then prev[after := before] else prev
    ensures next' == NextAfterRemove(next, p, before) && prev' == PrevAfterRemove(prev, p, after)
  {
  }

  /** A loose node becomes live, and the reuse list does not notice. */
  lemma {:induction false} InsertLoose(next: seq<nat>, next': seq<nat>, spare: nat, order: seq<nat>, reuse: seq<nat>,
                                       boot: nat, page: nat, k: nat, p: nat)
    requires Chain(next, spare, reuse) && Pool(Elems(order) + {p}, reuse, boot, page) && k <= |order| && p !in order
    requires NoDup(order)
    requires p < |next| && At(order, k - 1) < |next|
    requires next' == NextAfterInsert(next, p, At(order, k - 1), At(order, k))
    ensures Chain(next', spare, reuse) && Pool(Elems(InsertAt(order, k, p)) + {}, reuse, boot, page)
  {
    InsertNoDup(order, k, p);
    assert Elems(InsertAt(order, k, p)) + {} == Elems(order) + {p};
    var before := At(order, k - 1);
    assert before != 0 ==> before in Elems(order) + {p};
    assert p in Elems(order) + {p};
    ChainFrame(next, next', spare, reuse);
  }

  lemma {:induction false} Unlinked(next: seq<nat>, next': seq<nat>, spare: nat, order: seq<nat>, reuse: seq<nat>,
                                    boot: nat, page: nat, p: nat, before: nat)
    requires Chain(next, spare, reuse) && Pool(Elems(order) + {}, reuse, boot, page) && p in order && NoDup(order)
    requires p < |next| && before < |next| && (before != 0 ==> before in order)
    requires next' == NextAfterRemove(next, p, before)
    ensures Chain(next', spare, reuse) && p !in reuse && p !in Without(order, p)
    ensures Pool(Elems(Without(order, p)) + {p}, reuse, boot, page)
  {
    WithoutElems(order, p);
    WithoutProps(order, p);
    assert Elems(Without(order, p)) + {p} == Elems(order) + {};
    assert p in Elems(order) + {};
    assert before != 0 ==> before in Elems(order) + {};
    ChainFrame(next, next', spare, reuse);
  }

  lemma {:induction false} AtIs(l: seq<nat>, i: nat)
    ensures i < |l| ==> At(l, i) == l[i]
    ensures i >= |l| ==> At(l, i) == 0
  {
  }

  /** The two halves of a region, in the list with the new node behind the old one. */
  lemma {:induction false} SplitHeld(info: seq<Region>, f: seq<Region>, g: seq<Region>, order: seq<nat>, i: nat,
                                     q: nat, at: nat, r: Region)
    requires NoDup(order) && i < |order| && q !in order && q < |info| && order[i] < |info| && info[order[i]] == r
    requires f == info[q := Region(at, r.end, r.flags, r.free)] && g == f[order[i] := r.(end := at)]
    ensures Held(g, InsertAt(order, i + 1, q)) == Split(Held(info, order), i, at)
    ensures InsertAt(order, i + 1, q)[i] == order[i]
  {
    var second := Region(at, r.end, r.flags, r.free);
    var info1 := info[order[i] := r.(end := at)];
    HeldSet(info, order, i, r.(end := at));
    HeldInsert(info1, order, i + 1, q, second);
    assert order[i] in order;
    assert g == info1[q := second];
  }

  lemma {:induction false} EmptyLists(next: seq<nat>, prev: seq<nat>)
    requires |next| == |prev|
    ensures Spells(next, prev, 0, []) && Chain(next, 0, []) && Elems([]) + {} == {} && Pool({}, [], 0, 0)
  {
  }

  lemma {:induction false} HeldOther(f: seq<Region>, g: seq<Region>, order: seq<nat>, p: nat)
    requires p !in order && p < |f| == |g| && g == f[p := g[p]]
    ensures Held(g, order) == Held(f, order)
  {
    var a, b := Held(g, order), Held(f, order);
    forall j | 0 <= j < |order| ensures a[j] == b[j] {
      assert order[j] in order;
    }
  }

  lemma {:induction false} InitialTiles(rs: seq<Region>)
    requires rs == InitialRegions()
    ensures Tiles(rs, KERNEL_START, KERNEL_END) && Tidy(rs)
  {
    forall i: nat ensures Joint(rs, i) {
    }
  }

  /** The same allocations and the same free addresses. */
  ghost predicate SameMemory(rs: seq<Region>, rs': seq<Region>)
  {
    && (forall c: nat, d: nat :: Used(rs', c, d) <==> Used(rs, c, d))
    && (forall x: nat :: KERNEL_START <= x < KERNEL_END ==> (FreeAt(rs', x) <==> FreeAt(rs, x)))
  }

  lemma {:induction false} SameIs(rs: seq<Region>, rs': seq<Region>)
    requires Tiles(rs, KERNEL_START, KERNEL_END) && Tiles(rs', KERNEL_START, KERNEL_END)
    requires forall c: nat, d: nat :: Used(rs', c, d) <==> Used(rs, c, d)
    ensures SameMemory(rs, rs')
  {
    forall x: nat | KERNEL_START <= x < KERNEL_END ensures FreeAt(rs', x) <==> FreeAt(rs, x) {
      SameUsedSameFree(rs, rs', KERNEL_START, KERNEL_END, x);
    }
  }

  lemma {:induction false} Multiple(pages: nat)
    requires pages > 0
    ensures pages * PAGE > 0 && pages * PAGE % PAGE == 0
  {
  }

  lemma {:induction false} SplitAt(rs: seq<Region>, i: nat, at: nat)
    requires i < |rs|
    ensures i < |Split(rs, i, at)| && Split(rs, i, at)[i] == rs[i].(end := at)
  {
  }

  lemma {:induction false} FitFacts(rs: seq<Region>, lo: nat, hi: nat, i: nat, size: nat, flags: nat)
    requires Tiles(rs, lo, hi) && i < |rs| && Suits(rs[i], size, flags)
    ensures lo <= rs[i].start && rs[i].start + size <= hi
    ensures forall x: nat :: rs[i].start <= x < rs[i].start + size ==> FreeAt(rs, x)
    ensures 0 < lo ==> rs[i].start != 0
  {
    TilesRange(rs, lo, hi, i);
    forall x: nat | rs[i].start <= x < rs[i].start + size ensures FreeAt(rs, x) {
      assert Holds(rs, i, x);
    }
  }

  /** After an allocation its region is the one that holds its first address, and it was not there before. */
  lemma {:induction false} TakenAt(rs: seq<Region>, lo: nat, hi: nat, i: nat, size: nat, flags: nat)
    requires Tiles(rs, lo, hi) && i < |rs| && rs[i].free && 0 < size <= rs[i].end - rs[i].start
    ensures var t := Take(rs, i, size, flags);
            && Holds(t, i, rs[i].start) && !t[i].free && t[i].start == rs[i].start && t[i].end == rs[i].start + size
    ensures !Used(rs, rs[i].start, rs[i].start + size)
  {
    if Used(rs, rs[i].start, rs[i].start + size) {
      var k: nat :| UsedAt(rs, k, rs[i].start, rs[i].start + size);
      assert Proper(rs[i]) && Proper(rs[k]);
      HoldsOne(rs, lo, hi, i, k, rs[i].start);
    }
  }

  /** What the search finds decides. */
  lemma {:induction false} FoundFreeable(rs: seq<Region>, i: nat, x: nat, size: nat)
    requires Tiles(rs, KERNEL_START, KERNEL_END)
    requires i < |rs| ==> Holds(rs, i, x)
    requires i >= |rs| ==> forall j: nat :: !Holds(rs, j, x)
    ensures Freeable(rs, x, size) <==> FreeableAt(rs, i, x, size)
  {
    if Freeable(rs, x, size) {
      var j: nat :| FreeableAt(rs, j, x, size);
      HoldsOne(rs, KERNEL_START, KERNEL_END, i, j, x);
    }
  }

  /** One kernel page is allocated and freed in a fresh manager. All free space is then one region that begins in user
      space, and the next kernel request is refused although the kernel heap is free. */
  method FreedKernelPage() returns (m: Manager, first: nat, freed: bool, second: nat)
    ensures fresh(m) && m.Valid() && first == KERNEL_HEAP && freed && second == 0
    ensures m.Regions() == JoinedRegions() && KernelRoom(JoinedRegions(), PAGE)
  {
    hide Manager.Sound, Tiles, Tidy, Used, FreeAt, FirstSuiting, Take, Freed, Freeable, KernelRoom, SameMemory;
    m := new Manager();
    FirstPage();
    first := m.Alloc(1, WRITE, 1);
    FirstPageFreed();
    FirstPageAt();
    ghost var i;
    freed, i := m.Free(first, 1);
    NoSecondPage();
    second := m.Alloc(1, WRITE, 1);
  }
}
