/** What every run of the physical page allocator keeps. */
module BuddyRuns {
  import opened Blocks
  import opened BuddyOwners
  import opened BuddyState
  import FreeLists

  datatype Op = Alloc(order: nat) | Free(page: nat) | Inc(page: nat) | Dec(page: nat)

  predicate Sized(s: Pmm)
  {
    |s.lists| == MAX_ORDER + 1 && |s.refs| == |s.owner|
  }

  /** What callers owe: a reserved page is never freed, and references are only counted on pages
      whose status bit is set (the kernel aborts otherwise). */
  predicate Legal(s: Pmm, op: Op)
    requires Sized(s)
  {
    match op
    case Alloc(_) => true
    case Free(p) => p < |s.owner| ==> !s.owner[p].Reserved?
    case Inc(p) => p < |s.owner| && StatusBit(s.owner[p], p)
    case Dec(p) => p < |s.owner| && StatusBit(s.owner[p], p) && s.refs[p] > 0
  }

  function Step(s: Pmm, op: Op): (r: Pmm)
    requires Sized(s) && Legal(s, op)
    ensures Sized(r)
  {
    match op
    case Alloc(o) => AllocOrder(s, o).0
    case Free(p) => FreePage(s, p)
    case Inc(p) => IncRef(s, p)
    case Dec(p) => DecRef(s, p)
  }

  predicate LegalRun(s: Pmm, ops: seq<Op>)
    requires Sized(s)
    decreases |ops|
  {
    ops == [] || (Legal(s, ops[0]) && LegalRun(Step(s, ops[0]), ops[1..]))
  }

  function Run(s: Pmm, ops: seq<Op>): (r: Pmm)
    requires Sized(s) && LegalRun(s, ops)
    ensures Sized(r)
    decreases |ops|
  {
    if ops == [] then s else Run(Step(s, ops[0]), ops[1..])
  }

  /** Memory outside the allocator is the same in both states. */
  ghost predicate SameOutside(s: Pmm, t: Pmm)
  {
    && |s.owner| == |t.owner|
    && forall p :: 0 <= p < |s.owner| ==>
         Managed(s.owner[p]) == Managed(t.owner[p]) && (!Managed(s.owner[p]) ==> t.owner[p] == s.owner[p])
  }

  lemma {:induction false} StepInv(s: Pmm, op: Op)
    requires Inv(s) && Legal(s, op)
    ensures Inv(Step(s, op)) && SameOutside(s, Step(s, op))
  {
    match op
    case Alloc(o) =>
      AllocInv(s, o);
      AllocOutside(s, o);
    case Free(p) =>
      FreeInv(s, p);
      FreeOutside(s, p);
    case Inc(p) =>
    case Dec(p) =>
  }

  lemma {:induction false} AllocOutside(s: Pmm, o: nat)
    requires Inv(s)
    ensures SameOutside(s, AllocOrder(s, o).0)
  {
    var c := FirstFit(s.lists, o);
    if c <= MAX_ORDER {
      AllocSplits(s, o);
      forall p | 0 <= p < |s.owner|
        ensures var r := Split(s.owner, s.lists[c][0], c, o);
                Managed(s.owner[p]) == Managed(r[p]) && (!Managed(s.owner[p]) ==> r[p] == s.owner[p])
      {
        SplitFree(s.owner, s.lists[c][0], c, o, p);
      }
    }
  }

  lemma {:induction false} FreeOutside(s: Pmm, p: nat)
    requires Inv(s) && (p < |s.owner| ==> !s.owner[p].Reserved?)
    ensures SameOutside(s, FreePage(s, p))
  {
    if p < |s.owner| && StatusBit(s.owner[p], p) {
      ReleaseProps(s.owner, p);
      assert Uniform(s.owner, s.owner[p]);
    }
  }

  /** The invariant holds after every run. */
  lemma {:induction false} RunInv(s: Pmm, ops: seq<Op>)
    requires Inv(s) && LegalRun(s, ops)
    ensures Inv(Run(s, ops)) && SameOutside(s, Run(s, ops))
    decreases |ops|
  {
    if ops != [] {
      StepInv(s, ops[0]);
      RunInv(Step(s, ops[0]), ops[1..]);
    }
  }

  /** A run is its operations one after the other. */
  lemma {:induction false} RunOneMore(s: Pmm, ops: seq<Op>, op: Op)
    requires Sized(s) && LegalRun(s, ops) && Legal(Run(s, ops), op)
    ensures Run(s, []) == s
    ensures LegalRun(s, ops + [op]) && Run(s, ops + [op]) == Step(Run(s, ops), op)
    decreases |ops|
  {
    hide Step, Legal;
    var all := ops + [op];
    if ops == [] {
      assert all[1..] == [];
    } else {
      assert all[1..] == ops[1..] + [op];
      RunOneMore(Step(s, ops[0]), ops[1..], op);
    }
  }

  // ---------- the partition ----------

  /** Block (h, k) is on its free list or handed out, and holds page p. */
  ghost predicate Covers(s: Pmm, h: nat, k: nat, p: nat)
    requires Sized(s) && k <= MAX_ORDER
  {
    && (h in s.lists[k] || (h < |s.owner| && s.owner[h] == Live(h, k)))
    && h <= p < h + Pow2(k)
  }

  /** Every page of the allocator lies in exactly one block, no other page lies in any, and the block
      is aligned and inside memory. */
  lemma {:induction false} ExactlyOneBlock(s: Pmm, p: nat)
    requires Inv(s) && p < |s.owner|
    ensures Managed(s.owner[p]) ==>
              var h, k := s.owner[p].head, s.owner[p].order;
              k <= MAX_ORDER && Covers(s, h, k, p) && Aligned(h, k) && h + Pow2(k) <= |s.owner|
    ensures forall h: nat, k: nat | k <= MAX_ORDER && Covers(s, h, k, p) ::
              Managed(s.owner[p]) && h == s.owner[p].head && k == s.owner[p].order
  {
    if Managed(s.owner[p]) {
      var b := s.owner[p];
      assert BlockOk(s.owner, b);
      assert In(b.head, b);
      assert ListMatches(s.owner, s.lists[b.order], b.order);
    }
    forall h: nat, k: nat | k <= MAX_ORDER && Covers(s, h, k, p)
      ensures Managed(s.owner[p]) && h == s.owner[p].head && k == s.owner[p].order
    {
      assert ListMatches(s.owner, s.lists[k], k);
      assert Uniform(s.owner, s.owner[h]);
      assert In(p, s.owner[h]);
    }
  }

  // ---------- allocation ----------

  /** [h, h + 2^k) is an aligned run of free pages. */
  ghost predicate FreeRun(s: Pmm, h: nat, k: nat)
  {
    && Aligned(h, k) && h + Pow2(k) <= |s.owner|
    && forall p :: h <= p < h + Pow2(k) ==> s.owner[p].Free?
  }

  /** Allocation fails exactly when memory holds no aligned run of that many free pages. */
  lemma {:induction false} AllocComplete(s: Pmm, o: nat)
    requires Inv(s) && o <= MAX_ORDER
    ensures AllocOrder(s, o).1 == 0 <==> !exists h: nat :: FreeRun(s, h, o)
  {
    var c := FirstFit(s.lists, o);
    if c <= MAX_ORDER {
      AllocSplits(s, o);
      var h := s.lists[c][0];
      assert BlockOk(s.owner, s.owner[h]);
      AlignedDown(h, o, c);
      Pow2Mono(o, c);
      assert forall p :: h <= p < h + Pow2(o) ==> In(p, s.owner[h]);
      assert FreeRun(s, h, o);
    } else {
      forall h: nat | FreeRun(s, h, o) ensures false {
        FreeRunListed(s, h, o);
      }
    }
  }

  /** In a canonical state an aligned free run lies in one free block of at least its size. */
  lemma {:induction false} FreeRunListed(s: Pmm, h: nat, o: nat)
    requires Inv(s) && o <= MAX_ORDER && FreeRun(s, h, o)
    ensures FirstFit(s.lists, o) <= MAX_ORDER
  {
    NoSmallerInside(s.owner, h, o, h);
    var b := s.owner[h];
    assert BlockOk(s.owner, b);
    assert In(b.head, b);
    assert ListMatches(s.owner, s.lists[b.order], b.order);
    assert b.head in s.lists[b.order];
  }

  /** What a successful allocation hands out and what it leaves alone. */
  lemma {:induction false} AllocSound(s: Pmm, o: nat)
    requires Inv(s) && AllocOrder(s, o).1 != 0
    ensures var (t, h) := AllocOrder(s, o);
            && FreeRun(s, h, o) && t.owner[h] == Live(h, o) && t.used == s.used + Pow2(o)
            && (forall p :: 0 <= p < |s.owner| ==>
                  if h <= p < h + Pow2(o) then t.owner[p] == Live(h, o)
                  else if s.owner[p].Free? then t.owner[p].Free? else t.owner[p] == s.owner[p])
            && (forall p :: 0 <= p < |s.refs| ==> t.refs[p] == if h <= p < h + Pow2(o) then 1 else s.refs[p])
  {
    var c := FirstFit(s.lists, o);
    AllocSplits(s, o);
    var h := s.lists[c][0];
    assert BlockOk(s.owner, s.owner[h]);
    AlignedDown(h, o, c);
    Pow2Mono(o, c);
    SplitFree(s.owner, h, c, o, h);
    forall p | 0 <= p < |s.owner|
      ensures var r := Split(s.owner, h, c, o);
              if h <= p < h + Pow2(o) then s.owner[p].Free? && r[p] == Live(h, o)
              else if s.owner[p].Free? then r[p].Free? else r[p] == s.owner[p]
    {
      SplitFree(s.owner, h, c, o, p);
    }
  }

  /** Allocation fails exactly when no list from the wanted order up holds a block. */
  lemma {:induction false} AllocFailsIff(s: Pmm, o: nat)
    requires Inv(s) && o <= MAX_ORDER
    ensures AllocOrder(s, o).1 == 0 <==> forall k: nat :: o <= k <= MAX_ORDER ==> s.lists[k] == []
  {
    var c := FirstFit(s.lists, o);
    if c <= MAX_ORDER {
      AllocSplits(s, o);
    }
  }

  /** The block comes from the front of the first list from the wanted order up that holds one. The lists below it,
      which were empty, get the upper halves that are left over, and no other list changes. */
  lemma {:induction false} AllocChoice(s: Pmm, o: nat) returns (c: nat)
    requires Inv(s) && AllocOrder(s, o).1 != 0
    ensures var (t, h) := AllocOrder(s, o);
            && o <= c <= 10 && |s.lists| == |t.lists| == 11 && s.lists[c] != [] && h == s.lists[c][0]
            && forall j: nat :: j <= 10 ==>
                 if o <= j < c then s.lists[j] == [] && t.lists[j] == [h + Pow2(j)]
                 else t.lists[j] == if j == c then s.lists[c][1..] else s.lists[j]
  {
    hide Split, SetRange, FirstFit, PushHalves, OwnersOk, Counted, RefsOk, ListMatches;
    c := FirstFit(s.lists, o);
    var h := s.lists[c][0];
    var front := s.lists[c := s.lists[c][1..]];
    forall j: nat | j <= 10
      ensures PushHalves(front, h, c, o)[j] == if o <= j < c then [h + Pow2(j)] + front[j] else front[j]
    {
      PushHalvesAt(front, h, c, o, j);
    }
  }

  // ---------- freeing ----------

  /** l' is l without one of its elements. */
  ghost predicate OneFewer(l: seq<nat>, l': seq<nat>)
  {
    exists i :: 0 <= i < |l| && l' == l[..i] + l[i + 1..]
  }

  lemma {:induction false} WithoutOne(l: seq<nat>, p: nat)
    requires p in l
    ensures OneFewer(l, Without(l, p))
  {
    FreeLists.WithoutAt(l, p);
  }

  lemma {:induction false} BuddyListed(owner: seq<Owner>, lists: seq<seq<nat>>, h: nat, k: nat)
    requires Tiled(owner) && FreeHead(owner, h, k) && ListsMatchBut(owner, lists, h)
    requires k < MAX_ORDER && FreeHead(owner, Buddy(h, k), k)
    ensures OneFewer(lists[k], Without(lists[k], Buddy(h, k)))
    ensures Lower(h, k) <= h && h + Pow2(k) <= Lower(h, k) + Pow2(k + 1)
  {
    hide OneFewer;
    assert BlockOk(owner, owner[h]);
    BuddyHalves(h, k);
    WithoutOne(lists[k], Buddy(h, k));
  }

  lemma {:induction false} MergeListsAt(owner: seq<Owner>, lists: seq<seq<nat>>, h: nat, k: nat, j: nat)
    requires Tiled(owner) && CanonicalBut(owner, h) && FreeHead(owner, h, k) && ListsMatchBut(owner, lists, h)
    requires j <= MAX_ORDER && |lists| == MAX_ORDER + 1
    ensures var m := Merge(owner, h, k);
            var l := MergeLists(owner, lists, h, k)[j];
            && k <= m.order && m.head <= h && h + Pow2(k) <= m.head + Pow2(m.order)
            && if k <= j < m.order then OneFewer(lists[j], l) else l == lists[j]
    decreases MAX_ORDER - k
  {
    hide OneFewer, Tiled, CanonicalBut, ListsMatchBut, FreeHead, Joined, Buddy, Lower, Without;
    if k < MAX_ORDER && FreeHead(owner, Buddy(h, k), k) {
      var b, low := Buddy(h, k), Lower(h, k);
      MergeStep(owner, h, k);
      MergeListsStep(owner, lists, h, k);
      BuddyListed(owner, lists, h, k);
      MergeListsAt(Joined(owner, low, k), lists[k := Without(lists[k], b)], low, k + 1, j);
    }
  }

  /** The block that comes of a free is put in front of the list of its order. From each list between the freed order
      and that one the buddy it merged with is gone, and no other list changes. */
  lemma {:induction false} FreeChoice(s: Pmm, p: nat) returns (h: nat, k: nat)
    requires Inv(s) && p < |s.owner| && s.owner[p].Live? && s.owner[p].head == p
    requires forall q :: p <= q < p + Pow2(s.owner[p].order) && q < |s.refs| ==> s.refs[q] <= 1
    ensures var t := FreePage(s, p);
            && s.owner[p].order <= k <= 10 && |s.lists| == |t.lists| == 11 && h <= p < h + Pow2(k)
            && t.lists[k] == [h] + s.lists[k]
            && forall j: nat :: j <= 10 && j != k ==>
                 if s.owner[p].order <= j < k then OneFewer(s.lists[j], t.lists[j]) else t.lists[j] == s.lists[j]
  {
    hide OneFewer;
    var k0 := s.owner[p].order;
    var r := Paint(s.owner, p, k0, Owner.Free(p, k0));
    LiveListsMatchBut(s.owner, s.lists, p);
    ReleasePainted(s.owner, p);
    ReleasedLists(s, p);
    var m := Release(s.owner, p);
    h, k := m.head, m.order;
    forall j: nat | j <= MAX_ORDER
      ensures k0 <= k && h <= p && p + Pow2(k0) <= h + Pow2(k)
      ensures var l := MergeLists(r, s.lists, p, k0)[j];
              if k0 <= j < k then OneFewer(s.lists[j], l) else l == s.lists[j]
    {
      MergeListsAt(r, s.lists, p, k0, j);
    }
    assert MergeLists(r, s.lists, p, k0)[k] == s.lists[k];
  }

  /** A free changes nothing exactly when it is aimed beyond memory, at a page that is not the head of
      a handed-out block (a double or interior free), or at a block with a shared page. */
  lemma {:induction false} FreeRefusedIff(s: Pmm, p: nat)
    requires Inv(s) && (p < |s.owner| ==> !s.owner[p].Reserved?)
    ensures FreePage(s, p) == s <==>
              || p >= |s.owner|
              || !(s.owner[p].Live? && s.owner[p].head == p)
              || exists q :: p <= q < p + Pow2(s.owner[p].order) && q < |s.refs| && s.refs[q] > 1
  {
    if p < |s.owner| && s.owner[p].Live? && s.owner[p].head == p {
      ReleaseProps(s.owner, p);
      assert In(p, s.owner[p]);
      assert Released(s, p).owner[p].Free?;
    }
  }

  /** What a free that is not refused does. */
  lemma {:induction false} FreeSound(s: Pmm, p: nat)
    requires Inv(s) && p < |s.owner| && s.owner[p].Live? && s.owner[p].head == p
    requires forall q :: p <= q < p + Pow2(s.owner[p].order) && q < |s.refs| ==> s.refs[q] <= 1
    ensures var t := FreePage(s, p);
            && t.used == s.used - Pow2(s.owner[p].order) && |t.owner| == |s.owner|
            && (forall q :: 0 <= q < |s.owner| ==>
                  if In(q, s.owner[p]) || s.owner[q].Free? then t.owner[q].Free? else t.owner[q] == s.owner[q])
            && (forall q :: 0 <= q < |s.refs| ==> t.refs[q] == if In(q, s.owner[p]) then 0 else s.refs[q])
  {
    ReleaseProps(s.owner, p);
  }

  // ---------- canonical form ----------

  /** The free blocks are a function of the free pages: two states with the same free pages have the
      same blocks on every list. */
  lemma {:induction false} BlocksFromPages(s: Pmm, t: Pmm)
    requires Inv(s) && Inv(t) && |s.owner| == |t.owner| && FreePages(s.owner) == FreePages(t.owner)
    ensures forall k: nat, p: nat :: k <= MAX_ORDER ==> (p in s.lists[k] <==> p in t.lists[k])
  {
    forall q: nat | q < |s.owner| ensures s.owner[q].Free? == t.owner[q].Free? {
      assert q in FreePages(s.owner) <==> q in FreePages(t.owner);
    }
    forall k: nat, p: nat | k <= MAX_ORDER ensures p in s.lists[k] <==> p in t.lists[k] {
      assert ListMatches(s.owner, s.lists[k], k) && ListMatches(t.owner, t.lists[k], k);
      if p < |s.owner| && s.owner[p].Free? {
        CanonicalUnique(s.owner, t.owner, p);
      }
    }
  }

  /** An allocation followed by its free restores the blocks, the counts and the references. */
  lemma {:induction false} AllocFreeRestores(s: Pmm, o: nat)
    requires Inv(s) && AllocOrder(s, o).1 != 0
    ensures var (t, h) := AllocOrder(s, o);
            && h < |t.owner| && t.owner[h] == Live(h, o) && Sized(t)
            && var u := FreePage(t, h);
               && u.owner == s.owner && u.refs == s.refs && u.used == s.used
               && forall k: nat, p: nat :: k <= MAX_ORDER ==> (p in u.lists[k] <==> p in s.lists[k])
  {
    var (t, h) := AllocOrder(s, o);
    var c := FirstFit(s.lists, o);
    AllocSplits(s, o);
    AllocInv(s, o);
    AllocSound(s, o);
    SplitReleaseInverse(s.owner, h, c, o);
    FreeInv(t, h);
    var u := FreePage(t, h);
    assert u == Released(t, h);
    assert u.refs == s.refs;
    BlocksFromPages(u, s);
  }

  /** Any run that ends with the free pages it began with ends with the same blocks on every list and
      the same used-page count. */
  lemma {:induction false} RunRestoresBlocks(s: Pmm, ops: seq<Op>)
    requires Inv(s) && LegalRun(s, ops) && FreePages(Run(s, ops).owner) == FreePages(s.owner)
    ensures var t := Run(s, ops);
            && t.used == s.used
            && forall k: nat, p: nat :: k <= MAX_ORDER ==> (p in t.lists[k] <==> p in s.lists[k])
  {
    var t := Run(s, ops);
    RunInv(s, ops);
    BlocksFromPages(t, s);
    assert Holes(t.owner) == Holes(s.owner);
  }

  // ---------- room ----------

  /** The number of free pages. */
  function Room(p: Pmm): int
  {
    |p.owner| - p.used - |Holes(p.owner)|
  }

  /** A single page can be had exactly when some page is free. */
  lemma {:induction false} RoomAllocs(p: Pmm)
    requires Inv(p)
    ensures Room(p) >= 0 && (AllocOrder(p, 0).1 == 0 <==> Room(p) == 0)
  {
    AllocComplete(p, 0);
    assert Pow2(0) == 1;
    if Room(p) > 0 {
      var h: nat :| h in FreePages(p.owner);
      assert FreeRun(p, h, 0);
    } else {
      forall h: nat ensures !FreeRun(p, h, 0) {
        assert h !in FreePages(p.owner);
      }
    }
  }

  /** Page 0 stands for failure: it is never handed out. */
  lemma {:induction false} NoBlock(p: Pmm, o: nat)
    requires Inv(p) && AllocOrder(p, o).1 == 0
    ensures AllocOrder(p, o).0 == p
  {
    if FirstFit(p.lists, o) <= MAX_ORDER {
      AllocSplits(p, o);
    }
  }
}
