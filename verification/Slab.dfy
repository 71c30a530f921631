/**
 * One slab cache (kernel/kernel/memory/slab.c): slabs of one page, an in-object free list per slab, three lists of
 * slabs, and the count of objects handed out. Pages are granted or refused from outside.
 */
module Slab {
  import opened BuddyState
  import opened FreeLists
  import opened VmmNodes
  import opened SlabLists

  /** Slab i: its free list, its counter and the list it is on agree. */
  ghost predicate SlabAt(links: seq<seq<nat>>, freeHead: seq<nat>, free: seq<seq<nat>>, numFree: seq<nat>,
                         current: seq<nat>,
                         count: nat, i: nat)
    requires |links| == |freeHead| == |free| == |numFree| == |current|
  {
    1 <= i < |free| ==>
      SlabOk(links[i], freeHead[i], free[i], numFree[i], count) && current[i] == Target(numFree[i], count)
  }

  ghost predicate AllOk(links: seq<seq<nat>>, freeHead: seq<nat>, free: seq<seq<nat>>, numFree: seq<nat>,
                        current: seq<nat>,
                        count: nat, but: nat)
  {
    && |links| == |freeHead| == |free| == |numFree| == |current|
    && forall i: nat :: i != but ==> SlabAt(links, freeHead, free, numFree, current, count, i)
  }

  /** Object k of slab i is handed out. */
  ghost predicate LiveIn(free: seq<seq<nat>>, count: nat, i: nat, k: nat)
  {
    1 <= i < |free| && Handed(free[i], count, k)
  }

  /** The same objects are handed out, and object k of slab i besides if i is not 0. */
  ghost predicate Hands(free: seq<seq<nat>>, free': seq<seq<nat>>, count: nat, i: nat, k: nat)
  {
    forall j: nat, n: nat :: LiveIn(free', count, j, n) <==> LiveIn(free, count, j, n) || (i != 0 && j == i && n == k)
  }

  /** No object is free. */
  ghost predicate NoneFree(free: seq<seq<nat>>)
  {
    forall j :: 1 <= j < |free| ==> |free[j]| == 0
  }

  /** No slab has objects of both kinds. */
  ghost predicate NonePartial(free: seq<seq<nat>>, count: nat)
  {
    forall j :: 1 <= j < |free| ==> |free[j]| == 0 || |free[j]| == count
  }

  class Cache {
    const size: nat
    const count: nat
    var heads: seq<nat>                // empty, partial and full slabs
    var base: seq<nat>                 // per slab: its page,
    var next: seq<nat>                 // its neighbours on its list,
    var prev: seq<nat>
    var current: seq<nat>              // that list,
    var numFree: seq<nat>              // the number of its free objects,
    var freeHead: seq<nat>             // the first of them,
    var links: seq<seq<nat>>           // and the links between them
    var numSlabs: nat
    var numAllocations: nat
    var numFrees: nat
    var numActive: int

    ghost var lists: seq<seq<nat>>
    ghost var free: seq<seq<nat>>

    ghost predicate Shape()
      reads this
    {
      && 0 < size <= 1024 && count == ObjectsPerSlab(size)
      && |base| == |next| == |prev| == |current| == |numFree| == |freeHead| == |links| == |free| >= 1
      && |heads| == |lists| == 3 && Paged(base)
    }

    /** Every slab but one agrees with its free list, its counter and the list it is on. */
    ghost predicate SlabsValid(but: nat)
      reads this
    {
      AllOk(links, freeHead, free, numFree, current, count, but)
    }

    ghost predicate Valid()
      reads this
    {
      && Shape() && Linked(next, prev, heads, lists) && Listed(current, lists) && SlabsValid(0)
      && numActive == Active(free, count, |free|) && numSlabs == |free| - 1
    }

    /** Object k of slab i is handed out. */
    ghost predicate Live(i: nat, k: nat)
      reads this
    {
      LiveIn(free, count, i, k)
    }

    /** A slab is on the first list when all its objects are free, on the third when none is, else on the second. */
    lemma {:induction false} ListsMean(j: nat)
      requires Valid() && 1 <= j < |free|
      ensures |lists| == 3 && 3 <= count && |free[j]| <= count
      ensures j in lists[0] <==> |free[j]| == count
      ensures j in lists[1] <==> 0 < |free[j]| < count
      ensures j in lists[2] <==> |free[j]| == 0
    {
      OneOk(links, freeHead, free, numFree, current, count, j);
      HandedCount(links[j], freeHead[j], free[j], numFree[j], count);
      assert OnList(current, lists, j, 0) && OnList(current, lists, j, 1) && OnList(current, lists, j, 2);
    }

    /** What the heads of the first two lists say. */
    lemma {:induction false} HeadsMean()
      requires Valid()
      ensures heads[EMPTY] == 0 && heads[PARTIAL] == 0 <==> NoneFree(free)
      ensures heads[PARTIAL] == 0 ==> NonePartial(free, count)
      ensures heads[PARTIAL] != 0 ==> 1 <= heads[PARTIAL] < |free| && 0 < |free[heads[PARTIAL]]| < count
      ensures heads[EMPTY] != 0 ==> 1 <= heads[EMPTY] < |free| && |free[heads[EMPTY]]| == count
    {
      hide Listed, AllOk;
      HeadListed(next, prev, heads, current, lists, PARTIAL);
      HeadListed(next, prev, heads, current, lists, EMPTY);
      forall l: nat | l < 3 ensures heads[l] == 0 <==> lists[l] == [] {
        EmptyHead(next, prev, heads, lists, l);
      }
      forall j: nat | 1 <= j < |free|
        ensures j in lists[0] <==> |free[j]| == count
        ensures j in lists[1] <==> 0 < |free[j]| < count
        ensures |free[j]| <= count
      {
        ListsMean(j);
      }
      if heads[PARTIAL] != 0 {
        FirstListed(next, prev, heads, lists, PARTIAL);
      }
      if heads[EMPTY] != 0 {
        FirstListed(next, prev, heads, lists, EMPTY);
      }
    }

    constructor (objectSize: nat)
      requires 0 < objectSize <= 1024
      ensures Valid() && size == objectSize && numActive == 0
    {
      size, count := objectSize, ObjectsPerSlab(objectSize);
      heads := [0, 0, 0];
      base, next, prev, current, numFree, freeHead, links := [0], [0], [0], [0], [0], [0], [[]];
      numSlabs, numAllocations, numFrees, numActive := 0, 0, 0, 0;
      lists, free := [[], [], []], [[]];
    }

    // ---------- lists of slabs ----------

    method RemoveFromList(i: nat, l: nat)
      requires Linked(next, prev, heads, lists) && l < |lists| && i in lists[l]
      modifies this`next, this`prev, this`heads, this`lists
      ensures Linked(next, prev, heads, lists) && lists == old(lists)[l := Without(old(lists)[l], i)]
      ensures |next| == |old(next)| && |prev| == |old(prev)| && |heads| == |old(heads)| && 0 < i < |next|
      ensures Nowhere(lists, i)
    {
      hide Spells, Disjoint, Without;
      LinkedRemove(next, prev, heads, lists, i, l);
      Removed(next, prev, heads, lists, i, l);
      var before, after := prev[i], next[i];
      if before != 0 {
        next := next[before := after];
      } else {
        heads := heads[l := after];
      }
      if after != 0 {
        prev := prev[after := before];
      }
      lists := lists[l := Without(lists[l], i)];
      assert Linked(next, prev, heads, lists);
      ClearedNode(next, prev, heads, lists, i);
      next := next[i := 0];
      prev := prev[i := 0];
    }

    method AddToList(i: nat, l: nat)
      requires Linked(next, prev, heads, lists) && l < |lists| && 0 < i < |next|
      requires Nowhere(lists, i)
      modifies this`next, this`prev, this`heads, this`lists
      ensures Linked(next, prev, heads, lists) && lists == old(lists)[l := [i] + old(lists)[l]]
      ensures |next| == |old(next)| && |prev| == |old(prev)| && |heads| == |old(heads)| && heads[l] == i
    {
      hide Spells, Disjoint;
      LinkedPush(next, prev, heads, lists, i, l);
      next := next[i := heads[l]];
      prev := prev[i := 0];
      if heads[l] != 0 {
        prev := prev[heads[l] := i];
      }
      heads := heads[l := i];
      lists := lists[l := [i] + lists[l]];
    }

    /** Put a slab on the list that its counter dictates. */
    method UpdateLists(i: nat)
      requires Shape() && Linked(next, prev, heads, lists) && Listed(current, lists) && SlabsValid(i) && 1 <= i < |free|
      requires SlabOk(links[i], freeHead[i], free[i], numFree[i], count) && current[i] < 3
      modifies this`next, this`prev, this`heads, this`lists, this`current
      ensures Shape() && Linked(next, prev, heads, lists) && Listed(current, lists) && SlabsValid(0)
      ensures |heads| == 3 && (numFree[i] == count && old(current[i]) != EMPTY && 0 < count ==> heads[EMPTY] == i)
    {
      hide Linked, Listed, SlabOk, Paged, Moved;
      var target := Target(numFree[i], count);
      TargetOk(links, freeHead, free, numFree, current, count, i);
      if current[i] == target {
        return;
      }
      var from := current[i];
      ListOf(next, prev, heads, current, lists, i);
      MovedListed(current, lists, i, from, target);
      MovedIs(lists, i, from, target);
      RemoveFromList(i, from);
      AddToList(i, target);
      current := current[i := target];
    }

    // ---------- slabs ----------

    /** Thread all objects of a new slab together. */
    method Thread() returns (l: seq<nat>, h: nat, ghost f: seq<nat>)
      ensures SlabOk(l, h, f, count, count)
    {
      l, h, f := seq(count + 1, _ => 0), 0, [];
      for k := 1 to count + 1
        invariant |l| == count + 1 && Chain(l, h, f) && |f| == k - 1 && forall j :: 0 <= j < |f| ==> f[j] < k
      {
        ChainPush(l, h, f, k);
        l := l[k := h];
        h := k;
        f := [k] + f;
      }
    }

    /** Make a slab in a page of its own and put it on the empty list. */
    method CreateSlab(page: nat) returns (i: nat)
      requires Valid() && page > 0 && page % PAGE_BYTES == 0 && page !in base[1..]
      modifies this
      ensures Valid() && i == |old(free)| == |free| - 1 && heads[EMPTY] == i && numFree[i] == count
      ensures numActive == old(numActive) && numAllocations == old(numAllocations) && numFrees == old(numFrees)
      ensures base == old(base) + [page] && Hands(old(free), free, count, 0, 0)
    {
      hide Linked, Listed, SlabOk, AllOk, Paged, Hands, Active, Nowhere;
      ghost var f;
      var l, h;
      l, h, f := Thread();
      i := |base|;
      AppendSlab(page, l, h, f);
      AddToList(i, EMPTY);
    }

    /** Give a new slab its fields; it is not on a list yet. */
    method AppendSlab(page: nat, l: seq<nat>, h: nat, ghost f: seq<nat>)
      requires Valid() && page > 0 && page % PAGE_BYTES == 0 && page !in base[1..] && SlabOk(l, h, f, count, count)
      modifies this`base, this`next, this`prev, this`current, this`numFree, this`freeHead, this`links, this`free,
               this`numSlabs
      ensures Shape() && Linked(next, prev, heads, lists) && Nowhere(lists, |old(free)|) && |free| == |old(free)| + 1
      ensures Listed(current, lists[EMPTY := [|old(free)|] + lists[EMPTY]]) && SlabsValid(0)
      ensures numActive == Active(free, count, |free|) && numSlabs == |free| - 1
      ensures base == old(base) + [page] && Hands(old(free), free, count, 0, 0) && numFree[|old(free)|] == count
    {
      hide Linked, Listed, SlabOk, AllOk, Paged, Hands, Active, Nowhere;
      NewPage(base, page);
      NewSlab(links, freeHead, free, numFree, current, count, l, h, f);
      LinkedMore(next, prev, heads, lists);
      NewListed(current, lists);
      NewFree(free, count, l, h, f);
      base, next, prev := base + [page], next + [0], prev + [0];
      current, numFree, freeHead, links := current + [EMPTY], numFree + [count], freeHead + [h], links + [l];
      free := free + [f];
      numSlabs := numSlabs + 1;
    }

    /** Take the first free object of a slab. */
    method AllocFromSlab(i: nat) returns (k: nat)
      requires Shape() && 1 <= i < |free| && SlabOk(links[i], freeHead[i], free[i], numFree[i], count) && numFree[i] > 0
      modifies this`numFree, this`freeHead, this`free
      ensures old(free)[i] != [] && k == old(free)[i][0] && 1 <= k <= count
      ensures free == old(free)[i := old(free)[i][1..]] && numFree == old(numFree)[i := old(numFree)[i] - 1]
      ensures Shape() && freeHead == old(freeHead)[i := freeHead[i]]
      ensures SlabOk(links[i], freeHead[i], free[i], numFree[i], count)
      ensures k !in free[i]
    {
      hide Chain, Paged;
      ChainPop(links[i], freeHead[i], free[i]);
      k := freeHead[i];
      freeHead := freeHead[i := links[i][k]];
      numFree := numFree[i := numFree[i] - 1];
      free := free[i := free[i][1..]];
    }

    /** Hand an object out: an object that was free, and no other object changes hands. */
    method Alloc(page: nat) returns (p: nat, ghost i: nat, ghost k: nat)
      requires Valid() && (page == 0 || (page % PAGE_BYTES == 0 && page !in base[1..]))
      modifies this
      ensures Valid()
      ensures p == 0 <==> page == 0 && old(heads)[EMPTY] == 0 && old(heads)[PARTIAL] == 0
      ensures p == 0 ==> numActive == old(numActive) && base == old(base) && free == old(free)
      ensures p == 0 ==> numAllocations == old(numAllocations)
      ensures p != 0 ==>
                && 1 <= i < |base| && 1 <= k <= count && p == Address(base[i], size, k)
                && !old(Live(i, k)) && numActive == old(numActive) + 1 && numAllocations == old(numAllocations) + 1
                && Hands(old(free), free, count, i, k)
                && old(base) <= base
      ensures numFrees == old(numFrees)
      ensures p == 0 <==> page == 0 && NoneFree(old(free))
      ensures p != 0 ==> p == base[i] + 36 + (k - 1) * size && p + size <= base[i] + 4096
      ensures p != 0 ==> base == old(base) || (base == old(base) + [page] && i == |old(base)| && NoneFree(old(free)))
      ensures p != 0 && i < |old(free)| ==>
                && old(free)[i] != [] && k == old(free)[i][0] && free == old(free)[i := old(free)[i][1..]]
                && (|old(free)[i]| == count ==> NonePartial(old(free), count))
    {
      hide Linked, Listed, SlabOk, AllOk, Chain, Paged, NoneFree, NonePartial;
      HeadsMean();
      i, k := 0, 0;
      HeadListed(next, prev, heads, current, lists, PARTIAL);
      HeadListed(next, prev, heads, current, lists, EMPTY);
      var s;
      if heads[PARTIAL] != 0 {
        s := heads[PARTIAL];
      } else if heads[EMPTY] != 0 {
        s := heads[EMPTY];
      } else {
        if page == 0 {
          return 0, 0, 0;
        }
        s := CreateSlab(page);
        HeadListed(next, prev, heads, current, lists, EMPTY);
      }
      p, k := HandOut(s);
      i := s;
      ObjectInPage(base[s], size, k);
    }

    method HandOut(i: nat) returns (p: nat, ghost k: nat)
      requires Valid() && 1 <= i < |free| && current[i] != FULL
      modifies this`numFree, this`freeHead, this`free, this`numAllocations, this`numActive, this`next, this`prev,
               this`heads, this`lists, this`current
      ensures Valid() && 1 <= k <= count && p == Address(base[i], size, k) && p != 0
      ensures !old(Live(i, k)) && numActive == old(numActive) + 1 && numAllocations == old(numAllocations) + 1
      ensures Hands(old(free), free, count, i, k)
      ensures old(free)[i] != [] && k == old(free)[i][0] && free == old(free)[i := old(free)[i][1..]]
    {
      hide Linked, Listed, Chain, Paged, SlabOk;
      OneOk(links, freeHead, free, numFree, current, count, i);
      ghost var was := free;
      ghost var oldHead, oldNum := freeHead, numFree;
      var taken := AllocFromSlab(i);
      k := taken;
      HandedOver(was, free, count, i, k);
      OthersOk(links, oldHead, freeHead, was, free, oldNum, numFree, current, count, i);
      ActiveSet(was, count, |was|, i, free[i]);
      p := Address(base[i], size, taken);
      numAllocations := numAllocations + 1;
      numActive := numActive + 1;
      UpdateLists(i);
    }

    // ---------- free ----------

    /** The one slab whose object area holds an address, or 0 if there is none. */
    method GetSlab(p: nat) returns (i: nat)
      requires Shape() && Paged(base)
      ensures i != 0 ==> InArea(base, size, i, p)
      ensures forall j: nat :: InArea(base, size, j, p) ==> j == i
      ensures i == SlabAtAddress(base, size, p)
    {
      AreaOf(base, size, p);
      var page := p - p % PAGE_BYTES;
      i := FindPage(base, page, |base|);
      if i != 0 && (p < base[i] + META || p >= base[i] + META + count * size) {
        i := 0;
      }
    }

    /** Give an object back to its slab, unless it is on the free list already. */
    method FreeToSlab(i: nat, k: nat) returns (ok: bool)
      requires Shape() && 1 <= i < |free| && 1 <= k <= count
      requires SlabOk(links[i], freeHead[i], free[i], numFree[i], count)
      modifies this`links, this`freeHead, this`numFree, this`free
      ensures ok <==> k !in old(free)[i]
      ensures if ok then free == old(free)[i := [k] + old(free)[i]] && numFree == old(numFree)[i := old(numFree)[i] + 1]
              else free == old(free) && numFree == old(numFree) && links == old(links) && freeHead == old(freeHead)
      ensures Shape() && freeHead == old(freeHead)[i := freeHead[i]] && links == old(links)[i := links[i]]
      ensures SlabOk(links[i], freeHead[i], free[i], numFree[i], count)
    {
      hide Paged;
      var found := OnFreeList(i, k);
      if found {
        return false;
      }
      ChainPush(links[i], freeHead[i], free[i], k);
      links := links[i := links[i][k := freeHead[i]]];
      freeHead := freeHead[i := k];
      numFree := numFree[i := numFree[i] + 1];
      free := free[i := [k] + free[i]];
      return true;
    }

    /** Walk the free list of a slab. */
    method OnFreeList(i: nat, k: nat) returns (found: bool)
      requires |links| == |freeHead| == |free| && i < |free| && Chain(links[i], freeHead[i], free[i])
      ensures found <==> k in free[i]
    {
      var current := freeHead[i];
      ghost var n := 0;
      while current != 0
        invariant n <= |free[i]| && current == At(free[i], n) && forall j :: 0 <= j < n ==> free[i][j] != k
        decreases |free[i]| - n
      {
        if current == k {
          return true;
        }
        current := links[i][current];
        n := n + 1;
      }
      return false;
    }

    /** Take an object back: exactly the object at the address changes hands, and an object that is free already, or an
        address outside every slab, changes nothing. */
    method Free(p: nat) returns (ok: bool, ghost i: nat, ghost k: nat)
      requires Valid() && Whole(base, size, p)
      modifies this
      ensures Valid()
      ensures ok ==>
                && 1 <= i < |base| && 1 <= k <= count && p == Address(base[i], size, k)
                && old(Live(i, k)) && !Live(i, k)
                && Hands(free, old(free), count, i, k)
                && numActive == old(numActive) - 1 && numFrees == old(numFrees) + 1 && base == old(base)
                && (|free[i]| == count ==> heads[EMPTY] == i)    // so an emptied slab is never destroyed
                && p == base[i] + 36 + (k - 1) * size && free == old(free)[i := [k] + old(free)[i]]
      ensures !ok ==> unchanged(this)
      ensures forall j: nat, n: nat :: old(Live(j, n)) && p == Address(base[j], size, n) ==> ok
    {
      hide Linked, Listed, Chain, Paged, SlabOk, Hands, Active;
      i, k := 0, 0;
      var s := GetSlab(p);
      WhereIs(base, size, p, free, count);
      if s == 0 {
        return false, 0, 0;
      }
      var n := (p - base[s] - META) / size + 1;
      i, k := s, n;
      ok := TakeBack(s, n);
    }

    method TakeBack(i: nat, k: nat) returns (ok: bool)
      requires Valid() && 1 <= i < |free| && 1 <= k <= count
      modifies this
      ensures Valid() && base == old(base) && (ok <==> old(Live(i, k))) && (!ok ==> unchanged(this))
      ensures ok ==> !Live(i, k) && Hands(free, old(free), count, i, k)
      ensures ok ==> numActive == old(numActive) - 1 && numFrees == old(numFrees) + 1
      ensures ok && |free[i]| == count ==> heads[EMPTY] == i
      ensures ok ==> free == old(free)[i := [k] + old(free)[i]]
    {
      hide Linked, Listed, Chain, Paged, Active, Hands;
      OneOk(links, freeHead, free, numFree, current, count, i);
      ghost var was, oldHead, oldNum, oldLinks := free, freeHead, numFree, links;
      ok := FreeToSlab(i, k);
      if !ok {
        return;
      }
      TakenBack(was, free, count, i, k);
      OthersKept(oldLinks, links, oldHead, freeHead, was, free, oldNum, numFree, current, count, i);
      ActiveSet(was, count, |was|, i, free[i]);
      numFrees := numFrees + 1;
      numActive := numActive - 1;
      UpdateLists(i);
    }
  }

  lemma {:induction false} ListOf(next: seq<nat>, prev: seq<nat>, heads: seq<nat>, current: seq<nat>,
                                  lists: seq<seq<nat>>, i: nat)
    requires Linked(next, prev, heads, lists) && Listed(current, lists) && 1 <= i < |current| && current[i] < |lists|
    ensures i in lists[current[i]] && NoDup(lists[current[i]])
  {
    assert OnList(current, lists, i, current[i]);
    assert Spells(next, prev, heads[current[i]], lists[current[i]]);
  }

  lemma {:induction false} MovedIs(lists: seq<seq<nat>>, i: nat, from: nat, to: nat)
    requires from < |lists| && to < |lists| && from != to
    ensures Moved(lists, i, from, to) == lists[from := Without(lists[from], i)][to := [i] + lists[to]]
  {
  }

  lemma {:induction false} Removed(next: seq<nat>, prev: seq<nat>, heads: seq<nat>, lists: seq<seq<nat>>, i: nat,
                                   l: nat)
    requires Linked(next, prev, heads, lists) && l < |lists| && i in lists[l]
    ensures 0 < i < |next|
    ensures Nowhere(lists[l := Without(lists[l], i)], i)
  {
    assert Spells(next, prev, heads[l], lists[l]);
    Neighbours(next, prev, heads[l], lists[l], i);
    WithoutProps(lists[l], i);
  }

  lemma {:induction false} ClearedNode(next: seq<nat>, prev: seq<nat>, heads: seq<nat>, lists: seq<seq<nat>>, i: nat)
    requires Linked(next, prev, heads, lists) && i < |next| && Nowhere(lists, i)
    ensures Linked(next[i := 0], prev[i := 0], heads, lists)
  {
    forall j | 0 <= j < |lists| ensures Spells(next[i := 0], prev[i := 0], heads[j], lists[j]) {
      SpellsFrame(next, prev, next[i := 0], prev[i := 0], heads[j], lists[j]);
    }
  }

  /** A slab whose list field follows its counter agrees again. */
  lemma {:induction false} TargetOk(links: seq<seq<nat>>, freeHead: seq<nat>, free: seq<seq<nat>>, numFree: seq<nat>,
                                    current: seq<nat>,
                                    count: nat, i: nat)
    requires AllOk(links, freeHead, free, numFree, current, count, i) && 1 <= i < |free|
    requires SlabOk(links[i], freeHead[i], free[i], numFree[i], count)
    ensures AllOk(links, freeHead, free, numFree, current[i := Target(numFree[i], count)], count, 0)
  {
    var current' := current[i := Target(numFree[i], count)];
    forall j: nat | j != 0 ensures SlabAt(links, freeHead, free, numFree, current', count, j) {
      assert j != i ==> SlabAt(links, freeHead, free, numFree, current, count, j);
    }
  }

  lemma {:induction false} OneOk(links: seq<seq<nat>>, freeHead: seq<nat>, free: seq<seq<nat>>, numFree: seq<nat>,
                                 current: seq<nat>,
                                 count: nat, i: nat)
    requires AllOk(links, freeHead, free, numFree, current, count, 0) && 1 <= i < |free|
    ensures SlabOk(links[i], freeHead[i], free[i], numFree[i], count) && current[i] == Target(numFree[i], count)
  {
    assert SlabAt(links, freeHead, free, numFree, current, count, i);
  }

  /** Changing one slab leaves the others in order. */
  lemma {:induction false} OthersOk(links: seq<seq<nat>>, freeHead: seq<nat>, freeHead': seq<nat>,
                                    free: seq<seq<nat>>, free': seq<seq<nat>>,
                                    numFree: seq<nat>, numFree': seq<nat>, current: seq<nat>,
                                      count: nat, i: nat)
    requires AllOk(links, freeHead, free, numFree, current, count, 0) && 1 <= i < |free|
    requires |freeHead'| == |freeHead| && |free'| == |free| && |numFree'| == |numFree|
    requires freeHead' == freeHead[i := freeHead'[i]] && free' == free[i := free'[i]]
    requires numFree' == numFree[i := numFree'[i]]
    ensures AllOk(links, freeHead', free', numFree', current, count, i)
  {
    forall j: nat | j != i ensures SlabAt(links, freeHead', free', numFree', current, count, j) {
      if j != 0 {
        assert SlabAt(links, freeHead, free, numFree, current, count, j);
      }
    }
  }

  /** Exactly object k of slab i changes hands. */
  lemma {:induction false} HandedOver(free: seq<seq<nat>>, free': seq<seq<nat>>, count: nat, i: nat, k: nat)
    requires 1 <= i < |free| && free[i] != [] && k == free[i][0] && free' == free[i := free[i][1..]] && 1 <= k <= count
    requires k !in free[i][1..]
    ensures Hands(free, free', count, i, k) && !LiveIn(free, count, i, k)
  {
    var l := free[i];
    assert l == [l[0]] + l[1..];
  }

  lemma {:induction false} HeadListed(next: seq<nat>, prev: seq<nat>, heads: seq<nat>, current: seq<nat>,
                                      lists: seq<seq<nat>>, l: nat)
    requires Linked(next, prev, heads, lists) && Listed(current, lists) && l < |heads|
    ensures heads[l] != 0 ==> 1 <= heads[l] < |current| && current[heads[l]] == l
  {
    assert Spells(next, prev, heads[l], lists[l]);
    if heads[l] != 0 {
      assert heads[l] == lists[l][0];
      assert OnList(current, lists, heads[l], l);
    }
  }

  lemma {:induction false} EmptyHead(next: seq<nat>, prev: seq<nat>, heads: seq<nat>, lists: seq<seq<nat>>, l: nat)
    requires Linked(next, prev, heads, lists) && l < |lists|
    ensures heads[l] == 0 <==> lists[l] == []
  {
    assert Spells(next, prev, heads[l], lists[l]);
    assert lists[l] != [] ==> LinkedAt(next, prev, lists[l], 0);
  }

  lemma {:induction false} FirstListed(next: seq<nat>, prev: seq<nat>, heads: seq<nat>, lists: seq<seq<nat>>, l: nat)
    requires Linked(next, prev, heads, lists) && l < |lists| && heads[l] != 0
    ensures heads[l] in lists[l]
  {
    assert Spells(next, prev, heads[l], lists[l]);
  }

  // ---------- a new slab ----------

  lemma {:induction false} NewPage(base: seq<nat>, page: nat)
    requires Paged(base) && |base| >= 1 && page > 0 && page % PAGE_BYTES == 0 && page !in base[1..]
    ensures Paged(base + [page])
  {
    var b := base + [page];
    forall i, j | 1 <= i < j < |b| ensures b[i] != b[j] {
      assert j == |base| ==> base[1..][i - 1] == b[i];
    }
  }

  lemma {:induction false} NewSlab(links: seq<seq<nat>>, freeHead: seq<nat>, free: seq<seq<nat>>, numFree: seq<nat>,
                                   current: seq<nat>,
                                   count: nat, l: seq<nat>, h: nat, f: seq<nat>)
    requires AllOk(links, freeHead, free, numFree, current, count, 0) && SlabOk(l, h, f, count, count) && count > 0
    ensures AllOk(links + [l], freeHead + [h], free + [f], numFree + [count], current + [EMPTY], count, 0)
  {
    var n := |free|;
    var ls, hs, fs, ns, cs := links + [l], freeHead + [h], free + [f], numFree + [count], current + [EMPTY];
    forall i: nat | i != 0 ensures SlabAt(ls, hs, fs, ns, cs, count, i) {
      if i < n {
        assert SlabAt(links, freeHead, free, numFree, current, count, i);
      }
    }
  }

  lemma {:induction false} LinkedMore(next: seq<nat>, prev: seq<nat>, heads: seq<nat>, lists: seq<seq<nat>>)
    requires Linked(next, prev, heads, lists)
    ensures Linked(next + [0], prev + [0], heads, lists)
  {
    var next', prev' := next + [0], prev + [0];
    forall k | 0 <= k < |lists| ensures Spells(next', prev', heads[k], lists[k]) {
      assert Spells(next, prev, heads[k], lists[k]);
      SpellsMore(next, prev, heads[k], lists[k]);
    }
  }

  lemma {:induction false} SpellsMore(next: seq<nat>, prev: seq<nat>, head: nat, l: seq<nat>)
    requires Spells(next, prev, head, l)
    ensures Spells(next + [0], prev + [0], head, l)
  {
    forall i | 0 <= i < |l| ensures LinkedAt(next + [0], prev + [0], l, i) {
      assert LinkedAt(next, prev, l, i);
    }
  }

  /** All objects of a new slab are free. */
  lemma {:induction false} FullSlab(l: seq<nat>, h: nat, f: seq<nat>, count: nat)
    requires SlabOk(l, h, f, count, count)
    ensures |f| == count && forall k: nat :: !Handed(f, count, k)
  {
    HandedCount(l, h, f, count, count);
    assert Objects(count) - Elems(f) == {};
  }

  lemma {:induction false} NewFree(free: seq<seq<nat>>, count: nat, l: seq<nat>, h: nat, f: seq<nat>)
    requires SlabOk(l, h, f, count, count) && |free| >= 1
    ensures Hands(free, free + [f], count, 0, 0) && Active(free + [f], count, |free| + 1) == Active(free, count, |free|)
  {
    FullSlab(l, h, f, count);
    NoneHanded(free, free + [f], count);
    ActiveAppend(free, count, |free|, f);
  }

  lemma {:induction false} NoneHanded(free: seq<seq<nat>>, free': seq<seq<nat>>, count: nat)
    requires |free'| == |free| + 1 && free' == free + [free'[|free|]]
    requires forall k: nat :: !Handed(free'[|free|], count, k)
    ensures Hands(free, free', count, 0, 0)
  {
  }

  // ---------- free, on values ----------

  /** The slab below n with the given page, or 0. */
  function FindPage(base: seq<nat>, page: nat, n: nat): (i: nat)
    requires n <= |base|
    ensures i != 0 ==> 1 <= i < n && base[i] == page
    ensures i == 0 ==> forall j :: 1 <= j < n ==> base[j] != page
  {
    if n <= 1 then 0 else if base[n - 1] == page then n - 1 else FindPage(base, page, n - 1)
  }

  function SlabAtAddress(base: seq<nat>, size: nat, p: nat): (i: nat)
    requires 0 < size <= 1024
  {
    var i := FindPage(base, p - p % PAGE_BYTES, |base|);
    if i != 0 && (p < base[i] + META || p >= base[i] + META + ObjectsPerSlab(size) * size) then 0 else i
  }

  /** The address lies among the objects of slab j. */
  ghost predicate InArea(base: seq<nat>, size: nat, j: nat, p: nat)
    requires 0 < size <= 1024
  {
    1 <= j < |base| && base[j] + META <= p < base[j] + META + ObjectsPerSlab(size) * size
  }

  /** The page of an address tells the slab. */
  lemma {:induction false} AreaOf(base: seq<nat>, size: nat, p: nat)
    requires 0 < size <= 1024 && Paged(base)
    ensures SlabAtAddress(base, size, p) != 0 ==> InArea(base, size, SlabAtAddress(base, size, p), p)
    ensures forall j: nat :: InArea(base, size, j, p) ==> j == SlabAtAddress(base, size, p)
  {
    forall j: nat | InArea(base, size, j, p) ensures j == SlabAtAddress(base, size, p) {
      WithinPage(base[j], p);
      SamePage(base, p - p % PAGE_BYTES, j);
    }
  }

  /** The address is outside every slab or is where an object starts. */
  ghost predicate Whole(base: seq<nat>, size: nat, p: nat)
    requires 0 < size <= 1024
  {
    var i := SlabAtAddress(base, size, p);
    i != 0 && i < |base| && p >= base[i] + META ==> (p - base[i] - META) % size == 0
  }

  /** The slab and the object number that the address arithmetic finds are those of the object. */
  lemma {:induction false} WhereIs(base: seq<nat>, size: nat, p: nat, free: seq<seq<nat>>, count: nat)
    requires 0 < size <= 1024 && Paged(base) && Whole(base, size, p) && |free| == |base|
    requires count == ObjectsPerSlab(size)
    ensures var i := SlabAtAddress(base, size, p);
            && (i != 0 ==> 1 <= i < |base| && base[i] + META <= p)
            && (i != 0 ==> var k := (p - base[i] - META) / size + 1; 1 <= k <= count && p == Address(base[i], size, k))
            && forall j: nat, n: nat :: LiveIn(free, count, j, n) && p == Address(base[j], size, n) ==>
                 i == j && i != 0 && n == (p - base[j] - META) / size + 1
  {
    var i := SlabAtAddress(base, size, p);
    if i != 0 {
      ObjectNumber(p - base[i] - META, size, count);
    }
    forall j: nat, n: nat | LiveIn(free, count, j, n) && p == Address(base[j], size, n)
      ensures i == j && i != 0 && n == (p - base[j] - META) / size + 1
    {
      PageOf(base[j], size, n);
      SamePage(base, p - p % PAGE_BYTES, j);
    }
  }

  lemma {:induction false} SamePage(base: seq<nat>, page: nat, j: nat)
    requires Paged(base) && 1 <= j < |base| && base[j] == page
    ensures FindPage(base, page, |base|) == j
  {
    var i := FindPage(base, page, |base|);
    assert i != 0;
  }

  lemma {:induction false} ObjectNumber(offset: nat, size: nat, count: nat)
    requires size > 0 && offset % size == 0 && offset < count * size
    ensures var q := offset / size;
            q < count && q * size == offset
  {
    var q := offset / size;
    assert offset == size * q;
    if q >= count {
      TimesMono(count, q, size);
    }
  }

  /** Exactly object k of slab i is given back. */
  lemma {:induction false} TakenBack(free: seq<seq<nat>>, free': seq<seq<nat>>, count: nat, i: nat, k: nat)
    requires 1 <= i < |free| && k !in free[i] && free' == free[i := [k] + free[i]] && 1 <= k <= count
    ensures Hands(free', free, count, i, k) && !LiveIn(free', count, i, k) && LiveIn(free, count, i, k)
  {
    assert ([k] + free[i])[0] == k;
    forall j: nat, n: nat
      ensures LiveIn(free, count, j, n) <==> LiveIn(free', count, j, n) || (i != 0 && j == i && n == k)
    {
    }
  }

  lemma {:induction false} OthersKept(links: seq<seq<nat>>, links': seq<seq<nat>>, freeHead: seq<nat>,
                                      freeHead': seq<nat>, free: seq<seq<nat>>,
                                      free': seq<seq<nat>>, numFree: seq<nat>, numFree': seq<nat>, current: seq<nat>,
                                      count: nat, i: nat)
    requires AllOk(links, freeHead, free, numFree, current, count, 0) && 1 <= i < |free|
    requires |links'| == |links| && |freeHead'| == |freeHead| && |free'| == |free| && |numFree'| == |numFree|
    requires links' == links[i := links'[i]] && freeHead' == freeHead[i := freeHead'[i]]
    requires free' == free[i := free'[i]] && numFree' == numFree[i := numFree'[i]]
    ensures AllOk(links', freeHead', free', numFree', current, count, i)
  {
    forall j: nat | j != i ensures SlabAt(links', freeHead', free', numFree', current, count, j) {
      if j != 0 {
        assert SlabAt(links, freeHead, free, numFree, current, count, j);
      }
    }
  }
}
