/**
 * The nodes behind the regions (kernel/kernel/memory/vmm.c:15-38, 504-662): a bootstrap pool, a dedicated page and a
 * list of nodes to reuse. A node is in the region list or on the reuse list, never both. Node 0 stands for NULL.
 */
module VmmNodes {
  import opened BuddyState
  import opened FreeLists

  const BOOT: nat := 32                // nodes 1 to 32: the bootstrap pool
  const PAGE_NODES: nat := 170         // the next ones: 4096 / sizeof(vmm_region_t)
  const NODES: nat := BOOT + PAGE_NODES

  ghost function Elems(l: seq<nat>): set<nat>
  {
    set p | p in l
  }

  /** A list linked by `next` alone. */
  ghost predicate Chain(next: seq<nat>, head: nat, l: seq<nat>)
  {
    && NoDup(l) && head == At(l, 0)
    && forall i :: 0 <= i < |l| ==> 0 < l[i] < |next| && next[l[i]] == At(l, i + 1)
  }

  lemma {:induction false} ChainFrame(next: seq<nat>, next': seq<nat>, head: nat, l: seq<nat>)
    requires Chain(next, head, l) && |next'| == |next|
    requires forall p :: 0 <= p < |next| && p in l ==> next'[p] == next[p]
    ensures Chain(next', head, l)
  {
  }

  lemma {:induction false} ChainPop(next: seq<nat>, head: nat, l: seq<nat>)
    requires Chain(next, head, l) && l != []
    ensures 0 < head < |next| && head == l[0] && head !in l[1..] && Chain(next, next[head], l[1..])
  {
    var t := l[1..];
    forall i | 0 <= i < |t| ensures 0 < t[i] < |next| && next[t[i]] == At(t, i + 1) {
      assert t[i] == l[i + 1];
    }
    TailMatches(l);
  }

  lemma {:induction false} ChainPush(next: seq<nat>, head: nat, l: seq<nat>, p: nat)
    requires Chain(next, head, l) && 0 < p < |next| && p !in l
    ensures Chain(next[p := head], p, [p] + l)
  {
    var r := [p] + l;
    ConsNoDup(p, l);
    forall i | 0 <= i < |r| ensures 0 < r[i] < |next| && next[p := head][r[i]] == At(r, i + 1) {
      assert i > 0 ==> r[i] == l[i - 1];
      assert At(r, i + 1) == At(l, i);
    }
  }

  // ---------- who has which node ----------

  predicate FromPage(p: nat, page: nat)
  {
    BOOT < p <= BOOT + page
  }

  /** Every node that was ever taken from the page is in exactly one of the two lists. */
  ghost predicate Pool(live: set<nat>, reuse: seq<nat>, boot: nat, page: nat)
  {
    && boot <= BOOT && page <= PAGE_NODES
    && (forall p :: p in live ==> p !in reuse && (0 < p <= boot || FromPage(p, page)))
    && (forall p :: p in reuse ==> FromPage(p, page))
    && (forall p {:trigger FromPage(p, page)} :: FromPage(p, page) ==> p in live || p in reuse)
  }

  lemma {:induction false} PoolReuse(live: set<nat>, reuse: seq<nat>, boot: nat, page: nat)
    requires Pool(live, reuse, boot, page) && NoDup(reuse) && reuse != []
    ensures reuse[0] !in live && reuse[0] <= NODES && Pool(live + {reuse[0]}, reuse[1..], boot, page)
  {
    TailMatches(reuse);
    assert reuse[0] in reuse;
  }

  lemma {:induction false} PoolPage(live: set<nat>, reuse: seq<nat>, boot: nat, page: nat)
    requires Pool(live, reuse, boot, page) && page < PAGE_NODES
    ensures var p := BOOT + page + 1;
            p !in live && p !in reuse && Pool(live + {p}, reuse, boot, page + 1)
  {
    var p := BOOT + page + 1;
    assert p in live || p in reuse ==> FromPage(p, page) || p <= boot;
    forall q | FromPage(q, page + 1) ensures q in live + {p} || q in reuse {
      assert q != p ==> FromPage(q, page);
    }
  }

  lemma {:induction false} PoolBoot(live: set<nat>, reuse: seq<nat>, boot: nat, page: nat)
    requires Pool(live, reuse, boot, page) && boot < BOOT
    ensures var p := boot + 1;
            p !in live && p !in reuse && Pool(live + {p}, reuse, boot + 1, page)
  {
  }

  lemma {:induction false} PoolRelease(live: set<nat>, reuse: seq<nat>, boot: nat, page: nat, p: nat)
    requires Pool(live, reuse, boot, page) && p in live
    ensures p !in reuse
    ensures p <= BOOT ==> Pool(live - {p}, reuse, boot, page)
    ensures p > BOOT ==> FromPage(p, page) && Pool(live - {p}, [p] + reuse, boot, page)
  {
  }

  // ---------- inserting into a doubly linked list ----------

  function InsertAt(l: seq<nat>, k: nat, p: nat): seq<nat>
    requires k <= |l|
  {
    l[..k] + [p] + l[k..]
  }

  /** The links after p is put between `before` and `after`, either of which may be 0. */
  function NextAfterInsert(next: seq<nat>, p: nat, before: nat, after: nat): (r: seq<nat>)
    requires p < |next| && before < |next|
    ensures |r| == |next|
  {
    if before != 0 then next[p := after][before := p] else next[p := after]
  }

  function PrevAfterInsert(prev: seq<nat>, p: nat, before: nat, after: nat): (r: seq<nat>)
    requires p < |prev| && after < |prev|
    ensures |r| == |prev|
  {
    if after != 0 then prev[p := before][after := p] else prev[p := before]
  }

  lemma {:induction false} InBounds(next: seq<nat>, prev: seq<nat>, head: nat, l: seq<nat>, i: int)
    requires Spells(next, prev, head, l) && next != []
    ensures At(l, i) < |next| && (At(l, i) != 0 <==> 0 <= i < |l|)
  {
    if 0 <= i < |l| {
      assert LinkedAt(next, prev, l, i);
    }
  }

  lemma {:induction false} SpellsInsert(next: seq<nat>, prev: seq<nat>, head: nat, l: seq<nat>, k: nat, p: nat)
    requires Spells(next, prev, head, l) && 0 < p < |next| && p !in l && k <= |l|
    ensures At(l, k - 1) < |next| && At(l, k) < |next|
    ensures Spells(NextAfterInsert(next, p, At(l, k - 1), At(l, k)), PrevAfterInsert(prev, p, At(l, k - 1), At(l, k)),
                   if k == 0 then p else head, InsertAt(l, k, p))
  {
    hide NextAfterInsert, PrevAfterInsert;
    InBounds(next, prev, head, l, k - 1);
    InBounds(next, prev, head, l, k);
    var r := InsertAt(l, k, p);
    var next' := NextAfterInsert(next, p, At(l, k - 1), At(l, k));
    var prev' := PrevAfterInsert(prev, p, At(l, k - 1), At(l, k));
    InsertNoDup(l, k, p);
    forall i | 0 <= i < |r| ensures LinkedAt(next', prev', r, i) {
      InsertLink(next, prev, head, l, k, p, i);
    }
  }

  lemma {:induction false} InsertNoDup(l: seq<nat>, k: nat, p: nat)
    requires NoDup(l) && p !in l && k <= |l|
    ensures NoDup(InsertAt(l, k, p)) && Elems(InsertAt(l, k, p)) == Elems(l) + {p}
  {
    var r := InsertAt(l, k, p);
    forall i, j | 0 <= i < j < |r| ensures r[i] != r[j] {
      assert i < k ==> r[i] == l[i];
      assert i > k ==> r[i] == l[i - 1];
      assert j < k ==> r[j] == l[j];
      assert j > k ==> r[j] == l[j - 1];
    }
    forall q | q in l ensures q in r {
      var i :| 0 <= i < |l| && l[i] == q;
      assert r[if i < k then i else i + 1] == q;
    }
    assert r[k] == p;
  }

  lemma {:induction false} InsertLink(next: seq<nat>, prev: seq<nat>, head: nat, l: seq<nat>, k: nat, p: nat, i: nat)
    requires Spells(next, prev, head, l) && 0 < p < |next| && p !in l && k <= |l| && i <= |l|
    requires At(l, k - 1) < |next| && At(l, k) < |next| && (At(l, k - 1) != 0 <==> 0 < k)
    requires (At(l, k) != 0 <==> k < |l|)
    ensures LinkedAt(NextAfterInsert(next, p, At(l, k - 1), At(l, k)), PrevAfterInsert(prev, p, At(l, k - 1), At(l, k)),
                     InsertAt(l, k, p), i)
  {
    var r := InsertAt(l, k, p);
    if i == k {
      assert At(r, i + 1) == At(l, k) && At(r, i - 1) == At(l, k - 1);
    } else {
      var j := if i < k then i else i - 1;
      assert r[i] == l[j] && l[j] in l;
      assert LinkedAt(next, prev, l, j);
      assert At(r, i + 1) == if i + 1 == k then p else At(l, j + 1);
      assert At(r, i - 1) == if i - 1 == k then p else At(l, j - 1);
    }
  }

  lemma {:induction false} WithoutElems(l: seq<nat>, p: nat)
    requires NoDup(l)
    ensures Elems(Without(l, p)) == Elems(l) - {p}
  {
    WithoutProps(l, p);
  }

  /** In a list without repetitions an element is at one place only. */
  lemma {:induction false} IndexOf(l: seq<nat>, i: nat)
    requires NoDup(l) && i < |l|
    ensures l[i] in l && Index(l, l[i]) == i && Without(l, l[i]) == l[..i] + l[i + 1..]
  {
    WithoutAt(l, l[i]);
  }
}
