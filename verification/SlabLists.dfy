/**
 * The slabs of one cache (kernel/kernel/memory/slab.c): which list a slab belongs on, how many objects are handed out,
 * and where objects lie. Slabs and objects are numbered from 1; 0 stands for NULL.
 */
module SlabLists {
  import opened BuddyState
  import opened VmmNodes

  const PAGE_BYTES: nat := 4096
  const META: nat := 36                // bytes of a slab header

  const EMPTY: nat := 0
  const PARTIAL: nat := 1
  const FULL: nat := 2

  /** Objects that fit behind the header in one page. */
  function ObjectsPerSlab(size: nat): (n: nat)
    requires 0 < size <= 1024
    ensures n >= 3 && META + n * size <= PAGE_BYTES < META + (n + 1) * size
  {
    (PAGE_BYTES - META) / size
  }

  /** The list that the number of free objects dictates. */
  function Target(free: nat, count: nat): (l: nat)
    ensures l < 3
  {
    if free == 0 then FULL else if free == count then EMPTY else PARTIAL
  }

  // ---------- one slab ----------

  /** A free list threaded through the objects of a slab, and the counter that goes with it. */
  ghost predicate SlabOk(links: seq<nat>, head: nat, free: seq<nat>, numFree: nat, count: nat)
  {
    |links| == count + 1 && Chain(links, head, free) && numFree == |free|
  }

  /** Object k is handed out. */
  predicate Handed(free: seq<nat>, count: nat, k: nat)
  {
    1 <= k <= count && k !in free
  }

  ghost function Objects(count: nat): set<nat>
  {
    if count == 0 then {} else Objects(count - 1) + {count}
  }

  lemma {:induction false} ObjectsAre(count: nat)
    ensures |Objects(count)| == count && forall k :: k in Objects(count) <==> 1 <= k <= count
  {
    if count > 0 {
      ObjectsAre(count - 1);
    }
  }

  lemma {:induction false} ElemsSize(l: seq<nat>)
    requires NoDup(l)
    ensures |Elems(l)| == |l|
    decreases |l|
  {
    if l == [] {
      assert Elems(l) == {};
    } else {
      TailMatches(l);
      ElemsSize(l[1..]);
      assert Elems(l) == Elems(l[1..]) + {l[0]};
      assert l[0] !in Elems(l[1..]);
    }
  }

  /** The counter tells how many objects of the slab are handed out. */
  lemma {:induction false} HandedCount(links: seq<nat>, head: nat, free: seq<nat>, numFree: nat, count: nat)
    requires SlabOk(links, head, free, numFree, count)
    ensures numFree <= count && |Objects(count) - Elems(free)| == count - numFree
    ensures forall k :: k in Objects(count) - Elems(free) <==> Handed(free, count, k)
  {
    ObjectsAre(count);
    ElemsSize(free);
    forall k | k in Elems(free) ensures k in Objects(count) {
      var i :| 0 <= i < |free| && free[i] == k;
    }
    SubsetSize(Elems(free), Objects(count));
  }

  lemma {:induction false} SubsetSize(a: set<nat>, b: set<nat>)
    requires a <= b
    ensures |a| <= |b| && |b - a| == |b| - |a|
  {
    assert b == a + (b - a);
  }

  // ---------- all slabs ----------

  /** Objects handed out by the slabs below n. */
  ghost function Active(free: seq<seq<nat>>, count: nat, n: nat): int
    requires n <= |free|
  {
    if n <= 1 then 0 else Active(free, count, n - 1) + count - |free[n - 1]|
  }

  lemma {:induction false} ActiveSet(free: seq<seq<nat>>, count: nat, n: nat, i: nat, l: seq<nat>)
    requires n <= |free| && 1 <= i < |free|
    ensures Active(free[i := l], count, n) == Active(free, count, n) + (if i < n then |free[i]| - |l| else 0)
  {
    if n > 1 {
      ActiveSet(free, count, n - 1, i, l);
    }
  }

  lemma {:induction false} ActiveAppend(free: seq<seq<nat>>, count: nat, n: nat, l: seq<nat>)
    requires n <= |free|
    ensures Active(free + [l], count, n) == Active(free, count, n)
  {
    if n > 1 {
      ActiveAppend(free, count, n - 1, l);
    }
  }

  /** Slab i is on list l exactly when its list field says so. */
  ghost predicate OnList(current: seq<nat>, lists: seq<seq<nat>>, i: nat, l: nat)
  {
    l < |lists| ==> (i in lists[l] <==> 1 <= i < |current| && current[i] == l)
  }

  ghost predicate Listed(current: seq<nat>, lists: seq<seq<nat>>)
  {
    forall i: nat, l: nat :: OnList(current, lists, i, l)
  }

  /** The slab is on no list. */
  ghost predicate Nowhere(lists: seq<seq<nat>>, i: nat)
  {
    forall j: nat :: j < |lists| ==> i !in lists[j]
  }

  /** Move slab i to the front of another list. */
  function Moved(lists: seq<seq<nat>>, i: nat, from: nat, to: nat): seq<seq<nat>>
    requires from < |lists| && to < |lists|
  {
    var a := lists[from := Without(lists[from], i)];
    a[to := [i] + a[to]]
  }

  lemma {:induction false} MovedListed(current: seq<nat>, lists: seq<seq<nat>>, i: nat, from: nat, to: nat)
    requires Listed(current, lists) && 1 <= i < |current| && current[i] == from < |lists| && to < |lists| && from != to
    requires NoDup(lists[from])
    ensures Listed(current[i := to], Moved(lists, i, from, to))
  {
    WithoutProps(lists[from], i);
    var current', lists' := current[i := to], Moved(lists, i, from, to);
    forall j: nat, l: nat ensures OnList(current', lists', j, l) {
      assert OnList(current, lists, j, l);
      assert OnList(current, lists, i, l);
    }
  }

  lemma {:induction false} NewListed(current: seq<nat>, lists: seq<seq<nat>>)
    requires Listed(current, lists) && |lists| == 3 && |current| >= 1
    ensures Listed(current + [EMPTY], lists[EMPTY := [|current|] + lists[EMPTY]])
    ensures Nowhere(lists, |current|)
  {
    var n := |current|;
    var current', lists' := current + [EMPTY], lists[EMPTY := [n] + lists[EMPTY]];
    forall l: nat | l < 3 ensures n !in lists[l] {
      assert OnList(current, lists, n, l);
    }
    forall j: nat, l: nat ensures OnList(current', lists', j, l) {
      assert OnList(current, lists, j, l);
    }
  }

  // ---------- addresses ----------

  function Address(base: nat, size: nat, k: nat): nat
    requires 1 <= k
  {
    base + META + (k - 1) * size
  }

  /** An object lies inside its page, and objects of one slab do not overlap. */
  lemma {:induction false} ObjectInPage(base: nat, size: nat, k: nat)
    requires 0 < size <= 1024 && 1 <= k <= ObjectsPerSlab(size)
    ensures base + META <= Address(base, size, k) && Address(base, size, k) + size <= base + PAGE_BYTES
  {
    var n := ObjectsPerSlab(size);
    assert (k - 1) * size + size == k * size;
    TimesMono(k, n, size);
  }

  lemma {:induction false} TimesMono(a: nat, b: nat, c: nat)
    requires a <= b
    ensures a * c <= b * c
  {
  }

  lemma {:induction false} ObjectsApart(base: nat, size: nat, j: nat, k: nat)
    requires 1 <= j < k
    ensures Address(base, size, j) + size <= Address(base, size, k)
  {
    assert (j - 1) * size + size == j * size;
    TimesMono(j, k - 1, size);
  }

  /** Bases of slabs: whole pages, all different. */
  ghost predicate Paged(base: seq<nat>)
  {
    && (forall i :: 1 <= i < |base| ==> base[i] % PAGE_BYTES == 0 && base[i] > 0)
    && (forall i, j :: 1 <= i < j < |base| ==> base[i] != base[j])
  }

  /** Two different objects of a cache never overlap. */
  lemma {:induction false} ObjectsDisjoint(base: seq<nat>, size: nat, i: nat, j: nat, i': nat, j': nat)
    requires 0 < size <= 1024 && Paged(base) && 1 <= i < |base| && 1 <= i' < |base|
    requires 1 <= j <= ObjectsPerSlab(size) && 1 <= j' <= ObjectsPerSlab(size) && (i, j) != (i', j')
    ensures var a, b := Address(base[i], size, j), Address(base[i'], size, j');
            a + size <= b || b + size <= a
  {
    if i == i' {
      if j < j' {
        ObjectsApart(base[i], size, j, j');
      } else {
        ObjectsApart(base[i], size, j', j);
      }
    } else {
      ObjectInPage(base[i], size, j);
      ObjectInPage(base[i'], size, j');
      PagesApart(base[i], base[i']);
    }
  }

  lemma {:induction false} PagesApart(a: nat, b: nat)
    requires a % PAGE_BYTES == 0 && b % PAGE_BYTES == 0 && a != b
    ensures a + PAGE_BYTES <= b || b + PAGE_BYTES <= a
  {
  }

  /** Rounding an object's address down to its page finds its slab. */
  lemma {:induction false} PageOf(base: nat, size: nat, k: nat)
    requires 0 < size <= 1024 && 1 <= k <= ObjectsPerSlab(size) && base % PAGE_BYTES == 0
    ensures Address(base, size, k) - Address(base, size, k) % PAGE_BYTES == base
    ensures (Address(base, size, k) - base - META) / size + 1 == k
    ensures base + META <= Address(base, size, k) < base + META + ObjectsPerSlab(size) * size
  {
    ObjectInPage(base, size, k);
    WithinPage(base, Address(base, size, k));
    Quotient(k - 1, size);
    var n := ObjectsPerSlab(size);
    assert (k - 1) * size + size == k * size;
    TimesMono(k, n, size);
  }

  lemma {:induction false} WithinPage(base: nat, a: nat)
    requires base % PAGE_BYTES == 0 && base <= a < base + PAGE_BYTES
    ensures a - a % PAGE_BYTES == base
  {
  }

  lemma {:induction false} Quotient(q: nat, size: nat)
    requires size > 0
    ensures q * size / size == q
  {
    var d, r := q * size / size, q * size % size;
    assert q * size == size * d + r;
    if d < q {
      Differ(q, d, size);
    } else if q < d {
      Differ(d, q, size);
    }
  }

  lemma {:induction false} Differ(a: nat, b: nat, size: nat)
    requires b < a
    ensures a * size >= b * size + size
  {
    TimesMono(b + 1, a, size);
  }
}
