/** The whole state of the physical page allocator and its operations as functions on values:
    owners, the eleven free lists in their actual order, reference counts and the used-page counter.
    The class in PageAllocator.dfy is proved to compute these functions; theorems about whole runs are in
    BuddyRuns.dfy.
 */
module BuddyState {
  import opened Blocks
  import opened BuddyOwners

  const MAX_REFCOUNT: nat := 65535

  datatype Pmm = Pmm(owner: seq<Owner>, lists: seq<seq<nat>>, refs: seq<nat>, used: int)

  /** The status bit: set at the head of a live block and at reserved pages only. */
  predicate StatusBit(b: Owner, p: nat)
  {
    b.Reserved? || (b.Live? && b.head == p)
  }

  ghost predicate NoDup(l: seq<nat>)
  {
    forall i, j :: 0 <= i < j < |l| ==> l[i] != l[j]
  }

  /** List k holds exactly the heads of the free blocks of order k, each once. */
  ghost predicate ListMatches(owner: seq<Owner>, l: seq<nat>, k: nat)
  {
    && NoDup(l)
    && forall p: nat :: p in l <==> FreeHead(owner, p, k)
  }

  ghost predicate ListsMatch(owner: seq<Owner>, lists: seq<seq<nat>>)
  {
    && |lists| == MAX_ORDER + 1
    && forall k: nat :: k <= MAX_ORDER ==> ListMatches(owner, lists[k], k)
  }

  function FreePages(owner: seq<Owner>): set<nat>
  {
    set p: nat | p < |owner| && owner[p].Free?
  }

  function Holes(owner: seq<Owner>): set<nat>
  {
    set p: nat | p < |owner| && owner[p].Hole?
  }

  /** Total minus used is the number of free pages (and of pages outside every region). */
  ghost predicate Counted(owner: seq<Owner>, used: int)
  {
    used + |FreePages(owner)| + |Holes(owner)| == |owner|
  }

  ghost predicate RefsOk(owner: seq<Owner>, refs: seq<nat>)
  {
    && |refs| == |owner|
    && forall p :: 0 <= p < |owner| ==>
         refs[p] <= MAX_REFCOUNT && (owner[p].Free? || owner[p].Hole? ==> refs[p] == 0)
  }

  /** Page 0 is reserved, so that 0 can mean "no block". */
  ghost predicate OwnersOk(owner: seq<Owner>)
  {
    && |owner| > 0 && owner[0].Reserved?
    && Tiled(owner) && Canonical(owner) && HolesHarmless(owner)
  }

  ghost predicate Inv(s: Pmm)
  {
    && OwnersOk(s.owner)
    && ListsMatch(s.owner, s.lists)
    && Counted(s.owner, s.used)
    && RefsOk(s.owner, s.refs)
  }

  // ---------- operations ----------

  /** The smallest order from k up with a free block, or 11. */
  function FirstFit(lists: seq<seq<nat>>, k: nat): (c: nat)
    requires |lists| == MAX_ORDER + 1
    ensures c <= MAX_ORDER ==> k <= c && lists[c] != []
    ensures forall j: nat :: k <= j < c && j <= MAX_ORDER ==> lists[j] == []
    decreases MAX_ORDER + 1 - k
  {
    if k > MAX_ORDER then MAX_ORDER + 1
    else if lists[k] != [] then k else FirstFit(lists, k + 1)
  }

  /** The free lists after the upper halves of orders c-1 down to o have been pushed. */
  function PushHalves(lists: seq<seq<nat>>, h: nat, c: nat, o: nat): (r: seq<seq<nat>>)
    requires |lists| == MAX_ORDER + 1 && o <= c <= MAX_ORDER
    ensures |r| == |lists|
    decreases c - o
  {
    if o == c then lists
    else
      var l := PushHalves(lists, h, c, o + 1);
      l[o := [h + Pow2(o)] + l[o]]
  }

  lemma {:induction false} PushHalvesAt(lists: seq<seq<nat>>, h: nat, c: nat, o: nat, k: nat)
    requires |lists| == MAX_ORDER + 1 && o <= c <= MAX_ORDER && k <= MAX_ORDER
    ensures PushHalves(lists, h, c, o)[k] == if o <= k < c then [h + Pow2(k)] + lists[k] else lists[k]
    decreases c - o
  {
    if o < c {
      PushHalvesAt(lists, h, c, o + 1, k);
    }
  }

  function SetRange(refs: seq<nat>, h: nat, n: nat, v: nat): (r: seq<nat>)
    ensures |r| == |refs|
    ensures forall p :: 0 <= p < |refs| ==> r[p] == if h <= p < h + n then v else refs[p]
  {
    seq(|refs|, p requires 0 <= p < |refs| => if h <= p < h + n then v else refs[p])
  }

  function Without(l: seq<nat>, p: nat): seq<nat>
  {
    if l == [] then [] else if l[0] == p then l[1..] else [l[0]] + Without(l[1..], p)
  }

  /** The free lists after coalescing has unlinked every buddy it merged with. */
  function MergeLists(owner: seq<Owner>, lists: seq<seq<nat>>, h: nat, k: nat): (r: seq<seq<nat>>)
    requires |lists| == MAX_ORDER + 1
    ensures |r| == |lists|
    decreases MAX_ORDER - k
  {
    if k < MAX_ORDER && FreeHead(owner, Buddy(h, k), k) then
      MergeLists(Joined(owner, Lower(h, k), k), lists[k := Without(lists[k], Buddy(h, k))], Lower(h, k), k + 1)
    else
      lists
  }

  /** A block of the given order from the smallest sufficient free block; page 0 when there is none. */
  function AllocOrder(s: Pmm, o: nat): (r: (Pmm, nat))
    requires |s.lists| == MAX_ORDER + 1
  {
    var c := FirstFit(s.lists, o);
    if c > MAX_ORDER then (s, 0)
    else
      var h := s.lists[c][0];
      (Pmm(Split(s.owner, h, c, o),
           PushHalves(s.lists[c := s.lists[c][1..]], h, c, o),
           SetRange(s.refs, h, Pow2(o), 1),
           s.used + Pow2(o)),
       h)
  }

  /** Some page of the block at h is still referenced more than once. */
  predicate StillShared(refs: seq<nat>, h: nat, n: nat)
  {
    exists p :: h <= p < h + n && p < |refs| && refs[p] > 1
  }

  /** Freeing a page: refused beyond memory, at anything but an allocated head, and while shared. */
  function FreePage(s: Pmm, p: nat): (r: Pmm)
    requires |s.lists| == MAX_ORDER + 1 && |s.refs| == |s.owner|
    requires p < |s.owner| ==> !s.owner[p].Reserved?
  {
    if p >= |s.owner| || !StatusBit(s.owner[p], p) then s
    else
      var k := s.owner[p].order;
      if StillShared(s.refs, p, Pow2(k)) then s
      else Released(s, p)
  }

  function Released(s: Pmm, p: nat): (r: Pmm)
    requires |s.lists| == MAX_ORDER + 1 && |s.refs| == |s.owner|
    requires p < |s.owner| && s.owner[p].Live?
  {
    var k := s.owner[p].order;
    var m := Release(s.owner, p);
    var lists := MergeLists(Paint(s.owner, p, k, Free(p, k)), s.lists, p, k);
    Pmm(m.owner,
        if m.order <= MAX_ORDER then lists[m.order := [m.head] + lists[m.order]] else lists,
        SetRange(s.refs, p, Pow2(k), 0),
        s.used - Pow2(k))
  }

  /** One more reference, sticky at the maximum. */
  function IncRef(s: Pmm, p: nat): (r: Pmm)
    requires p < |s.refs|
  {
    if s.refs[p] == MAX_REFCOUNT then s else s.(refs := s.refs[p := s.refs[p] + 1])
  }

  function DecRef(s: Pmm, p: nat): (r: Pmm)
    requires p < |s.refs| && s.refs[p] > 0
  {
    if s.refs[p] == MAX_REFCOUNT then s else s.(refs := s.refs[p := s.refs[p] - 1])
  }

  // ---------- the lists after a split ----------

  lemma {:induction false} HalfPow(h: nat, c: nat, o: nat, k: nat)
    requires o <= k < c
    ensures HalfOf(h, c, o, h + Pow2(k)) == Free(h + Pow2(k), k)
    decreases c
  {
    if k < c - 1 {
      Pow2Mono(k + 1, c - 1);
      HalfPow(h, c - 1, o, k);
    }
  }

  /** Inside the split block exactly the upper halves start free blocks. */
  lemma {:induction false} HalfHeads(h: nat, c: nat, o: nat, p: nat, k: nat)
    requires o <= c && h <= p < h + Pow2(c)
    ensures HalfOf(h, c, o, p) == Free(p, k) <==> o <= k < c && p == h + Pow2(k)
  {
    HalfShape(h, c, o, p);
    if o <= k < c {
      HalfPow(h, c, o, k);
    }
  }

  lemma {:induction false} SplitHeads(owner: seq<Owner>, h: nat, c: nat, o: nat, p: nat, k: nat)
    requires Tiled(owner) && o <= c && FreeHead(owner, h, c)
    ensures FreeHead(Split(owner, h, c, o), p, k) <==>
              (o <= k < c && p == h + Pow2(k)) || (FreeHead(owner, p, k) && p != h)
  {
    assert BlockOk(owner, owner[h]);
    if o <= k < c {
      Pow2Mono(k + 1, c);
    }
    if h <= p < h + Pow2(c) {
      HalfHeads(h, c, o, p, k);
      assert In(p, owner[h]);
    }
  }

  lemma {:induction false} SplitListsMatch(owner: seq<Owner>, lists: seq<seq<nat>>, h: nat, c: nat, o: nat)
    requires Tiled(owner) && ListsMatch(owner, lists) && o <= c <= MAX_ORDER
    requires lists[c] != [] && lists[c][0] == h
    ensures ListsMatch(Split(owner, h, c, o), PushHalves(lists[c := lists[c][1..]], h, c, o))
  {
    var r := Split(owner, h, c, o);
    var l := PushHalves(lists[c := lists[c][1..]], h, c, o);
    assert h in lists[c];
    forall k: nat | k <= MAX_ORDER
      ensures ListMatches(r, l[k], k)
    {
      assert ListMatches(owner, lists[k], k);
      PushHalvesAt(lists[c := lists[c][1..]], h, c, o, k);
      forall p: nat
        ensures FreeHead(r, p, k) <==> (o <= k < c && p == h + Pow2(k)) || (FreeHead(owner, p, k) && p != h)
      {
        SplitHeads(owner, h, c, o, p, k);
      }
      if k == c {
        TailMatches(lists[k]);
      } else if o <= k < c {
        HalfNotListed(owner, h, c, k);
      }
    }
  }

  lemma {:induction false} TailMatches(l: seq<nat>)
    requires NoDup(l) && l != []
    ensures NoDup(l[1..]) && forall p :: p in l[1..] <==> p in l && p != l[0]
  {
    forall p | p in l && p != l[0] ensures p in l[1..] {
      var i :| 0 <= i < |l| && l[i] == p;
      assert l[1..][i - 1] == p;
    }
  }

  /** No free block starts strictly inside another one. */
  lemma {:induction false} HalfNotListed(owner: seq<Owner>, h: nat, c: nat, k: nat)
    requires Tiled(owner) && FreeHead(owner, h, c) && k < c
    ensures !FreeHead(owner, h + Pow2(k), k)
  {
    Pow2Mono(k + 1, c);
    assert BlockOk(owner, owner[h]);
    assert In(h + Pow2(k), owner[h]);
  }

  // ---------- the lists after coalescing ----------

  lemma {:induction false} ConsNoDup(x: nat, l: seq<nat>)
    requires NoDup(l) && x !in l
    ensures NoDup([x] + l)
  {
    var r := [x] + l;
    forall i, j | 0 <= i < j < |r| ensures r[i] != r[j] {
      assert r[j] == l[j - 1];
      assert i > 0 ==> r[i] == l[i - 1];
    }
  }

  lemma {:induction false} WithoutProps(l: seq<nat>, p: nat)
    requires NoDup(l)
    ensures NoDup(Without(l, p))
    ensures forall q :: q in Without(l, p) <==> q in l && q != p
  {
    if l != [] {
      TailMatches(l);
      if l[0] != p {
        WithoutProps(l[1..], p);
        var w := Without(l[1..], p);
        ConsNoDup(l[0], w);
      }
    }
  }

  /** All lists are right except that the free block (h, k) is on none of them. */
  ghost predicate ListsMatchBut(owner: seq<Owner>, lists: seq<seq<nat>>, h: nat)
  {
    && |lists| == MAX_ORDER + 1
    && forall k: nat :: k <= MAX_ORDER ==>
         NoDup(lists[k]) && forall p: nat :: p in lists[k] <==> FreeHead(owner, p, k) && p != h
  }

  lemma {:induction false} MergeListsStep(owner: seq<Owner>, lists: seq<seq<nat>>, h: nat, k: nat)
    requires Tiled(owner) && CanonicalBut(owner, h) && FreeHead(owner, h, k)
    requires ListsMatchBut(owner, lists, h)
    requires k < MAX_ORDER && FreeHead(owner, Buddy(h, k), k)
    ensures ListsMatchBut(Joined(owner, Lower(h, k), k), lists[k := Without(lists[k], Buddy(h, k))], Lower(h, k))
  {
    var b := Buddy(h, k);
    var r := Joined(owner, Lower(h, k), k);
    WithoutProps(lists[k], b);
    assert BlockOk(owner, owner[h]);
    BuddyHalves(h, k);
    assert Uniform(owner, owner[h]) && Uniform(owner, owner[b]);
    forall p: nat, j: nat
      ensures FreeHead(r, p, j) && p != Lower(h, k) <==> FreeHead(owner, p, j) && p != h && p != b
    {
      if p < |owner| && Lower(h, k) <= p < Lower(h, k) + Pow2(k + 1) {
        assert In(p, owner[h]) || In(p, owner[b]);
      }
    }
    assert Lower(h, k) == h || Lower(h, k) == b;
  }

  lemma {:induction false} ElevenLists(owner: seq<Owner>, lists: seq<seq<nat>>, h: nat)
    requires ListsMatchBut(owner, lists, h)
    ensures |lists| == MAX_ORDER + 1
  {
  }

  lemma {:induction false} MergeListsMatch(owner: seq<Owner>, lists: seq<seq<nat>>, h: nat, k: nat)
    requires Tiled(owner) && CanonicalBut(owner, h) && FreeHead(owner, h, k)
    requires ListsMatchBut(owner, lists, h)
    ensures var m := Merge(owner, h, k); ListsMatchBut(m.owner, MergeLists(owner, lists, h, k), m.head)
    decreases MAX_ORDER - k
  {
    hide ListsMatchBut, Tiled, CanonicalBut, FreeHead, Joined, Lower, Without, Buddy;
    ElevenLists(owner, lists, h);
    if k < MAX_ORDER && FreeHead(owner, Buddy(h, k), k) {
      MergeStep(owner, h, k);
      MergeListsStep(owner, lists, h, k);
      MergeListsMatch(Joined(owner, Lower(h, k), k), lists[k := Without(lists[k], Buddy(h, k))], Lower(h, k), k + 1);
    }
  }

  /** Pushing the one block that was missing makes all lists right. */
  lemma {:induction false} PushMatches(owner: seq<Owner>, lists: seq<seq<nat>>, h: nat, k: nat)
    requires ListsMatchBut(owner, lists, h) && FreeHead(owner, h, k) && k <= MAX_ORDER
    ensures ListsMatch(owner, lists[k := [h] + lists[k]])
  {
    var r := lists[k := [h] + lists[k]];
    forall j: nat | j <= MAX_ORDER ensures ListMatches(owner, r[j], j) {
      if j == k {
        assert forall p: nat :: p in r[j] <==> p == h || p in lists[j];
      }
    }
  }

  lemma {:induction false} LiveListsMatchBut(owner: seq<Owner>, lists: seq<seq<nat>>, h: nat)
    requires Tiled(owner) && ListsMatch(owner, lists)
    requires h < |owner| && owner[h].Live? && owner[h].head == h
    ensures ListsMatchBut(Paint(owner, h, owner[h].order, Free(h, owner[h].order)), lists, h)
  {
    var r := Paint(owner, h, owner[h].order, Free(h, owner[h].order));
    assert Uniform(owner, owner[h]);
    forall k: nat | k <= MAX_ORDER
      ensures NoDup(lists[k]) && forall p: nat :: p in lists[k] <==> FreeHead(r, p, k) && p != h
    {
      assert ListMatches(owner, lists[k], k);
      forall p: nat ensures FreeHead(owner, p, k) <==> FreeHead(r, p, k) && p != h {
        assert p < |owner| && In(p, owner[h]) ==> owner[p] == owner[h];
      }
    }
  }

  // ---------- counting ----------

  /** The pages h to h + n - 1. */
  function Span(h: nat, n: nat): (r: set<nat>)
    ensures forall p: nat :: p in r <==> h <= p < h + n
  {
    if n == 0 then {} else Span(h, n - 1) + {h + n - 1}
  }

  lemma {:induction false} SpanSize(h: nat, n: nat)
    ensures |Span(h, n)| == n
  {
    if n > 0 {
      SpanSize(h, n - 1);
    }
  }

  /** The free pages lose exactly the block [h, h + n). */
  lemma {:induction false} CountTaken(owner: seq<Owner>, r: seq<Owner>, h: nat, n: nat)
    requires |r| == |owner| && h + n <= |owner|
    requires forall q :: 0 <= q < |owner| ==>
               if h <= q < h + n then owner[q].Free? && r[q].Live? else
               r[q].Free? == owner[q].Free? && r[q].Hole? == owner[q].Hole?
    ensures |FreePages(r)| == |FreePages(owner)| - n && Holes(r) == Holes(owner)
  {
    SpanSize(h, n);
    assert FreePages(owner) == FreePages(r) + Span(h, n);
    assert FreePages(r) !! Span(h, n);
    assert Holes(r) == Holes(owner);
  }

  // ---------- every operation keeps the invariant ----------

  lemma {:induction false} AllocSplits(s: Pmm, o: nat)
    requires Inv(s) && FirstFit(s.lists, o) <= MAX_ORDER
    ensures var c := FirstFit(s.lists, o); var h := s.lists[c][0];
            o <= c && h > 0 && FreeHead(s.owner, h, c)
  {
    var c := FirstFit(s.lists, o);
    var h := s.lists[c][0];
    assert ListMatches(s.owner, s.lists[c], c);
    assert h in s.lists[c];
  }

  lemma {:induction false} SplitOwnersOk(owner: seq<Owner>, h: nat, c: nat, o: nat)
    requires OwnersOk(owner) && o <= c && FreeHead(owner, h, c)
    ensures OwnersOk(Split(owner, h, c, o))
  {
    var r := Split(owner, h, c, o);
    SplitTiled(owner, h, c, o);
    SplitCanonical(owner, h, c, o);
    forall q | 0 <= q < |owner| ensures Managed(r[q]) == Managed(owner[q]) && (!Managed(r[q]) ==> r[q] == owner[q]) {
      SplitFree(owner, h, c, o, q);
    }
    SameHoles(owner, r);
  }

  lemma {:induction false} SameHoles(owner: seq<Owner>, r: seq<Owner>)
    requires HolesHarmless(owner) && |r| == |owner|
    requires forall q :: 0 <= q < |owner| ==>
               Managed(r[q]) == Managed(owner[q]) && (!Managed(r[q]) ==> r[q] == owner[q])
    ensures HolesHarmless(r)
  {
    forall p: nat ensures HarmlessHole(r, p) {
      assert HarmlessHole(owner, p);
    }
  }

  lemma {:induction false} AllocInv(s: Pmm, o: nat)
    requires Inv(s)
    ensures Inv(AllocOrder(s, o).0)
  {
    var c := FirstFit(s.lists, o);
    if c <= MAX_ORDER {
      var h := s.lists[c][0];
      AllocSplits(s, o);
      SplitOwnersOk(s.owner, h, c, o);
      SplitListsMatch(s.owner, s.lists, h, c, o);
      AllocCounted(s.owner, h, c, o);
      AllocRefs(s.owner, s.refs, h, c, o);
    }
  }

  lemma {:induction false} AllocCounted(owner: seq<Owner>, h: nat, c: nat, o: nat)
    requires Tiled(owner) && o <= c && FreeHead(owner, h, c)
    ensures var r := Split(owner, h, c, o);
            |FreePages(r)| == |FreePages(owner)| - Pow2(o) && Holes(r) == Holes(owner)
  {
    var r := Split(owner, h, c, o);
    assert BlockOk(owner, owner[h]);
    Pow2Mono(o, c);
    forall q | 0 <= q < |owner|
      ensures if h <= q < h + Pow2(o) then owner[q].Free? && r[q].Live?
              else r[q].Free? == owner[q].Free? && r[q].Hole? == owner[q].Hole?
    {
      SplitFree(owner, h, c, o, q);
    }
    CountTaken(owner, r, h, Pow2(o));
  }

  lemma {:induction false} AllocRefs(owner: seq<Owner>, refs: seq<nat>, h: nat, c: nat, o: nat)
    requires Tiled(owner) && o <= c && FreeHead(owner, h, c) && RefsOk(owner, refs)
    ensures RefsOk(Split(owner, h, c, o), SetRange(refs, h, Pow2(o), 1))
  {
    var r := Split(owner, h, c, o);
    forall q | 0 <= q < |owner|
      ensures if h <= q < h + Pow2(o) then r[q].Live? else
              r[q].Free? == owner[q].Free? && r[q].Hole? == owner[q].Hole?
    {
      SplitFree(owner, h, c, o, q);
    }
  }

  lemma {:induction false} ReleaseOwnersOk(owner: seq<Owner>, h: nat)
    requires OwnersOk(owner) && h < |owner| && owner[h].Live? && owner[h].head == h
    ensures OwnersOk(Release(owner, h).owner)
  {
    ReleaseProps(owner, h);
    assert Uniform(owner, owner[h]);
    SameHoles(owner, Release(owner, h).owner);
  }

  lemma {:induction false} ReleasedInv(s: Pmm, p: nat)
    requires Inv(s) && p < |s.owner| && s.owner[p].Live? && s.owner[p].head == p
    ensures Inv(Released(s, p))
  {
    var k := s.owner[p].order;
    var m := Release(s.owner, p);
    ReleaseOwnersOk(s.owner, p);
    ReleaseProps(s.owner, p);
    ReleasedLists(s, p);
    assert Uniform(s.owner, s.owner[p]);
    assert m.owner[p].Free?;
    CountTaken(m.owner, s.owner, p, Pow2(k));
  }

  lemma {:induction false} ReleasedLists(s: Pmm, p: nat)
    requires Inv(s) && p < |s.owner| && s.owner[p].Live? && s.owner[p].head == p
    ensures Release(s.owner, p).order <= MAX_ORDER
    ensures ListsMatch(Released(s, p).owner, Released(s, p).lists)
  {
    var k := s.owner[p].order;
    var r := Paint(s.owner, p, k, Free(p, k));
    var m := Release(s.owner, p);
    LiveListsMatchBut(s.owner, s.lists, p);
    ReleasePainted(s.owner, p);
    MergeListsMatch(r, s.lists, p, k);
    ReleaseProps(s.owner, p);
    assert BlockOk(m.owner, m.owner[m.head]);
    PushMatches(m.owner, MergeLists(r, s.lists, p, k), m.head, m.order);
  }

  lemma {:induction false} FreeInv(s: Pmm, p: nat)
    requires Inv(s) && (p < |s.owner| ==> !s.owner[p].Reserved?)
    ensures Inv(FreePage(s, p))
  {
    if p < |s.owner| && StatusBit(s.owner[p], p) {
      ReleasedInv(s, p);
    }
  }
}
