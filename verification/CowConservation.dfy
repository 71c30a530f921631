/** Conservation across the paging and allocator layers: what a clone and its teardown leave behind. */
module CowConservation {
  import opened BuddyOwners
  import opened BuddyState
  import opened BuddyRuns
  import opened CowMachine
  import opened CowRuns

  // ---------- pages that hold no user data ----------

  predicate IsKernel(p: Pmm, data: map<nat, Page>, q: nat)
  {
    q < |p.owner| && !p.owner[q].Free? && q !in data
  }

  ghost predicate KernelAt(p: Pmm, data: map<nat, Page>, p': Pmm, data': map<nat, Page>, q: nat)
  {
    && IsKernel(p, data, q) == IsKernel(p', data', q)
    && (IsKernel(p, data, q) && q < |p.refs| ==> p'.owner[q] == p.owner[q] && q < |p'.refs| && p'.refs[q] == p.refs[q])
  }

  /** Used pages without user data are the same, down to their reference counts. */
  ghost predicate SameKernel(p: Pmm, data: map<nat, Page>, p': Pmm, data': map<nat, Page>)
  {
    && |p.owner| == |p'.owner| && |p.refs| == |p'.refs| == |p.owner|
    && forall q: nat :: KernelAt(p, data, p', data', q)
  }

  lemma {:induction false} SameKernelTrans(p: Pmm, d: map<nat, Page>, p': Pmm, d': map<nat, Page>, p'': Pmm,
                                           d'': map<nat, Page>)
    requires SameKernel(p, d, p', d') && SameKernel(p', d', p'', d'')
    ensures SameKernel(p, d, p'', d'')
  {
    forall q: nat ensures KernelAt(p, d, p'', d'', q) {
      assert KernelAt(p, d, p', d', q) && KernelAt(p', d', p'', d'', q);
    }
  }

  lemma {:induction false} TookKernel(p: Pmm, p': Pmm, data: map<nat, Page>, f: nat, page: Page)
    requires Took(p, p', f)
    ensures SameKernel(p, data, p', data[f := page])
  {
    var data' := data[f := page];
    forall q: nat ensures KernelAt(p, data, p', data', q) {
    }
  }

  lemma {:induction false} GaveKernel(p: Pmm, p': Pmm, data: map<nat, Page>, f: nat)
    requires Gave(p, p', f) && f in data
    ensures SameKernel(p, data, p', data - {f})
  {
    var data' := data - {f};
    forall q: nat ensures KernelAt(p, data, p', data', q) {
    }
  }

  lemma {:induction false} CountKernel(p: Pmm, p': Pmm, data: map<nat, Page>, f: nat)
    requires p'.owner == p.owner && |p.refs| == |p'.refs| == |p.owner| && f in data
    requires forall q :: 0 <= q < |p.refs| && q != f ==> p'.refs[q] == p.refs[q]
    ensures SameKernel(p, data, p', data)
  {
    forall q: nat ensures KernelAt(p, data, p', data, q) {
    }
  }

  // ---------- what each step does to the allocator ----------

  lemma {:induction false} Release1Kernel(s: Sys, f: nat)
    requires SysInv(s) && f in s.data
    ensures FrameOk(s.pmm, s.entries, f)
    ensures var t := Release1(s, f); SameKernel(s.pmm, s.data, t.pmm, t.data)
  {
    assert FrameOk(s.pmm, s.entries, f);
    var p := DecRef(s.pmm, f);
    StepInv(s.pmm, Dec(f));
    CountKernel(s.pmm, p, s.data, f);
    if p.refs[f] == 0 {
      FreePageFacts(p, f);
      GaveKernel(p, BuddyState.FreePage(p, f), s.data, f);
      SameKernelTrans(s.pmm, s.data, p, s.data, BuddyState.FreePage(p, f), s.data - {f});
    }
  }

  lemma {:induction false} FaultKernel(s: Sys, at: Loc)
    requires SysInv(s) && at in s.entries
    ensures var t := FaultEntry(s, at); SameKernel(s.pmm, s.data, t.pmm, t.data)
  {
    MappedOk(s.pmm, s.entries, s.data, at);
    if CanAlloc(s) {
      var old_ := s.entries[at].frame;
      var page := s.data[old_];
      var (p', f) := AllocOrder(s.pmm, 0);
      AllocPageFacts(s.pmm);
      TookKernel(s.pmm, p', s.data, f, page);
      FaultDataOk(s.pmm, p', s.entries, s.data, at, f);
      var u := FreshEntry(s, at, page);
      Release1Kernel(u, old_);
      SameKernelTrans(s.pmm, s.data, u.pmm, u.data, Release1(u, old_).pmm, Release1(u, old_).data);
    } else {
      SameKernelRefl(s.pmm, s.data);
    }
  }

  lemma {:induction false} SameKernelRefl(p: Pmm, data: map<nat, Page>)
    requires |p.refs| == |p.owner|
    ensures SameKernel(p, data, p, data)
  {
    forall q: nat ensures KernelAt(p, data, p, data, q) {
    }
  }

  lemma {:induction false} DropKernel(s: Sys, at: Loc)
    requires SysInv(s) && at in s.entries
    ensures var t := DropEntry(s, at); SameKernel(s.pmm, s.data, t.pmm, t.data)
  {
    var f := s.entries[at].frame;
    MappedOk(s.pmm, s.entries, s.data, at);
    RemoveDataOk(s.pmm, s.entries, s.data, at);
    if s.entries[at].cow {
      Release1Kernel(s.(entries := s.entries - {at}), f);
    } else {
      FreePageFacts(s.pmm, f);
      GaveKernel(s.pmm, BuddyState.FreePage(s.pmm, f), s.data, f);
    }
  }

  lemma {:induction false} UnmapKernel(s: Sys, at: Loc)
    requires SysInv(s) && at in s.entries
    ensures var t := UnmapEntry(s, at); SameKernel(s.pmm, s.data, t.pmm, t.data)
  {
    var f := s.entries[at].frame;
    MappedOk(s.pmm, s.entries, s.data, at);
    FreePageFacts(s.pmm, f);
    if s.pmm.refs[f] > 1 {
      SameKernelRefl(s.pmm, s.data);
    } else {
      GaveKernel(s.pmm, BuddyState.FreePage(s.pmm, f), s.data, f);
    }
  }

  lemma {:induction false} FreshKernel(s: Sys, dst: Loc, page: Page)
    requires SysInv(s) && CanAlloc(s)
    ensures var t := FreshEntry(s, dst, page); SameKernel(s.pmm, s.data, t.pmm, t.data)
  {
    var (p', f) := AllocOrder(s.pmm, 0);
    AllocPageFacts(s.pmm);
    TookKernel(s.pmm, p', s.data, f, page);
  }

  lemma {:induction false} StepKernel(s: Sys, st: CowStep)
    requires SysInv(s) && CowLegal(s, st)
    ensures var t := StepSys(s, st); SameKernel(s.pmm, s.data, t.pmm, t.data)
  {
    match st
    case Share(src, dst) =>
      MappedOk(s.pmm, s.entries, s.data, src);
      CountKernel(s.pmm, IncRef(s.pmm, s.entries[src].frame), s.data, s.entries[src].frame);
    case Copy(src, dst) =>
      MappedOk(s.pmm, s.entries, s.data, src);
      FreshKernel(s, dst, s.data[s.entries[src].frame]);
    case Zero(dst) => FreshKernel(s, dst, ZeroPage());
    case Write(at, offset, value) =>
      MappedOk(s.pmm, s.entries, s.data, at);
      WriteKernel(s, at, offset, value);
    case Fault(at) => FaultKernel(s, at);
    case Drop(at) => DropKernel(s, at);
    case Unmap(at) => UnmapKernel(s, at);
  }

  lemma {:induction false} WriteKernel(s: Sys, at: Loc, offset: nat, value: int)
    requires SysInv(s) && at in s.entries && offset < PAGE_BYTES
    ensures var t := WriteByte(s, at, offset, value); SameKernel(s.pmm, s.data, t.pmm, t.data)
  {
    MappedOk(s.pmm, s.entries, s.data, at);
    var t := WriteByte(s, at, offset, value);
    assert t.data.Keys == s.data.Keys;
    forall q: nat ensures KernelAt(s.pmm, s.data, t.pmm, t.data, q) {
    }
  }

  lemma {:induction false} RunKernel(s: Sys, steps: seq<CowStep>)
    requires SysInv(s) && LegalSteps(s, steps)
    ensures var t := RunSys(s, steps); SysInv(t) && SameKernel(s.pmm, s.data, t.pmm, t.data)
    decreases |steps|
  {
    if steps == [] {
      SameKernelRefl(s.pmm, s.data);
    } else {
      hide SysInv, CowLegal, StepSys, SameKernel, LegalSteps, RunSys;
      RunHead(s, steps);
      var u := StepSys(s, steps[0]);
      var t := RunSys(u, steps[1..]);
      StepKernel(s, steps[0]);
      RunKernel(u, steps[1..]);
      SameKernelTrans(s.pmm, s.data, u.pmm, u.data, t.pmm, t.data);
    }
  }

  // ---------- the used-page counter ----------

  function KernelPages(p: Pmm, data: map<nat, Page>): set<nat>
  {
    set q: nat | q < |p.owner| && IsKernel(p, data, q)
  }

  lemma {:induction false} PageSplit(p: Pmm, data: map<nat, Page>)
    requires forall f :: f in data ==> f < |p.owner| && !p.owner[f].Free?
    ensures |FreePages(p.owner)| + |KernelPages(p, data)| + |data| == |p.owner|
  {
    PartitionSize(|p.owner|, FreePages(p.owner), KernelPages(p, data), data.Keys);
    assert |data.Keys| == |data|;
  }

  lemma {:induction false} PartitionSize(n: nat, a: set<nat>, b: set<nat>, c: set<nat>)
    requires a !! b && a !! c && b !! c
    requires forall q: nat :: q < n <==> q in a || q in b || q in c
    ensures |a| + |b| + |c| == n
  {
    SpanSize(0, n);
    assert Span(0, n) == a + b + c;
    assert |a + b| == |a| + |b|;
    assert (a + b) !! c;
  }

  /** Used pages are those of the kernel part that are no holes, plus the frames of user data. */
  lemma {:induction false} UsedCount(s: Sys)
    requires SysInv(s)
    ensures s.pmm.used + |Holes(s.pmm.owner)| == |KernelPages(s.pmm, s.data)| + |s.data|
  {
    forall f | f in s.data ensures f < |s.pmm.owner| && !s.pmm.owner[f].Free? {
      assert FrameOk(s.pmm, s.entries, f);
    }
    PageSplit(s.pmm, s.data);
  }

  /** Over any run the used-page counter moves exactly with the number of frames that hold user data. */
  lemma {:induction false} UsedFollowsData(s: Sys, steps: seq<CowStep>)
    requires SysInv(s) && LegalSteps(s, steps)
    ensures var t := RunSys(s, steps); t.pmm.used - s.pmm.used == |t.data| - |s.data|
  {
    var t := RunSys(s, steps);
    RunKernel(s, steps);
    UsedCount(s);
    UsedCount(t);
    KernelEqual(s, t);
  }

  lemma {:induction false} KernelEqual(s: Sys, t: Sys)
    requires SysInv(s) && SysInv(t) && SameKernel(s.pmm, s.data, t.pmm, t.data)
    ensures KernelPages(s.pmm, s.data) == KernelPages(t.pmm, t.data) && Holes(s.pmm.owner) == Holes(t.pmm.owner)
  {
    forall q: nat ensures IsKernel(s.pmm, s.data, q) == IsKernel(t.pmm, t.data, q) {
      assert KernelAt(s.pmm, s.data, t.pmm, t.data, q);
    }
    HolesInside(s, t);
    HolesInside(t, s) by {
      forall q: nat ensures KernelAt(t.pmm, t.data, s.pmm, s.data, q) {
        assert KernelAt(s.pmm, s.data, t.pmm, t.data, q);
      }
    }
  }

  lemma {:induction false} HolesInside(s: Sys, t: Sys)
    requires SysInv(s) && SysInv(t) && SameKernel(s.pmm, s.data, t.pmm, t.data)
    ensures Holes(s.pmm.owner) <= Holes(t.pmm.owner)
  {
    forall q | q in Holes(s.pmm.owner) ensures q in Holes(t.pmm.owner) {
      assert q in s.data ==> FrameOk(s.pmm, s.entries, q);
      assert KernelAt(s.pmm, s.data, t.pmm, t.data, q);
    }
  }

  // ---------- equal mappings, equal memory ----------

  function Frames(entries: map<Loc, Entry>): set<nat>
  {
    set l | l in entries :: entries[l].frame
  }

  /** With exact counts the frames that hold user data are the mapped ones and those with references left behind. */
  lemma {:induction false} DataIsMapped(s: Sys)
    requires SysInv(s) && Exact(s)
    ensures s.data.Keys == Frames(s.entries) + s.lost.Keys
  {
    forall f | f in s.data && f !in s.lost ensures f in Frames(s.entries) {
      assert FrameOk(s.pmm, s.entries, f) && ExactAt(s.pmm, s.entries, s.lost, f);
      assert Mappers(s.entries, f) != {};
      var l :| l in Mappers(s.entries, f);
    }
    forall f | f in Frames(s.entries) ensures f in s.data {
      var l :| l in s.entries && s.entries[l].frame == f;
      MappedOk(s.pmm, s.entries, s.data, l);
    }
  }

  /** The same locations are mapped, each to the same frame. */
  ghost predicate SameMapping(entries: map<Loc, Entry>, entries': map<Loc, Entry>)
  {
    && entries.Keys == entries'.Keys
    && forall l :: l in entries ==> entries'[l].frame == entries[l].frame
  }

  lemma {:induction false} SameMappers(entries: map<Loc, Entry>, entries': map<Loc, Entry>, f: nat)
    requires SameMapping(entries, entries')
    ensures Mappers(entries, f) == Mappers(entries', f)
  {
  }

  lemma {:induction false} SameFrameSet(entries: map<Loc, Entry>, entries': map<Loc, Entry>)
    requires SameMapping(entries, entries')
    ensures Frames(entries) == Frames(entries')
  {
  }

  /** Two exact states of one run that map the same frames at the same places and have the same references left behind
      agree on every reference count, on the used-page counter and on the blocks of every free list. */
  lemma {:induction false} SameMappingSameMemory(s: Sys, t: Sys)
    requires SysInv(s) && Exact(s) && SysInv(t) && Exact(t)
    requires SameKernel(s.pmm, s.data, t.pmm, t.data) && SameMapping(s.entries, t.entries) && s.lost == t.lost
    ensures t.data.Keys == s.data.Keys && t.pmm.refs == s.pmm.refs && t.pmm.used == s.pmm.used
    ensures forall k: nat, p: nat :: k <= MAX_ORDER ==> (p in t.pmm.lists[k] <==> p in s.pmm.lists[k])
  {
    DataIsMapped(s);
    DataIsMapped(t);
    SameFrameSet(s.entries, t.entries);
    UsedCount(s);
    UsedCount(t);
    KernelEqual(s, t);
    assert |s.data.Keys| == |s.data| && |t.data.Keys| == |t.data|;
    forall q: nat | q < |s.pmm.owner|
      ensures s.pmm.owner[q].Free? == t.pmm.owner[q].Free? && s.pmm.refs[q] == t.pmm.refs[q]
    {
      SamePage(s, t, q);
    }
    assert FreePages(s.pmm.owner) == FreePages(t.pmm.owner);
    BlocksFromPages(t.pmm, s.pmm);
  }

  lemma {:induction false} SamePage(s: Sys, t: Sys, q: nat)
    requires SysInv(s) && Exact(s) && SysInv(t) && Exact(t) && q < |s.pmm.owner|
    requires SameKernel(s.pmm, s.data, t.pmm, t.data) && SameMapping(s.entries, t.entries) && s.lost == t.lost
    requires s.data.Keys == t.data.Keys
    ensures s.pmm.owner[q].Free? == t.pmm.owner[q].Free? && s.pmm.refs[q] == t.pmm.refs[q]
  {
    assert KernelAt(s.pmm, s.data, t.pmm, t.data, q);
    if q in s.data {
      assert q in t.data;
      assert FrameOk(s.pmm, s.entries, q) && ExactAt(s.pmm, s.entries, s.lost, q);
      assert FrameOk(t.pmm, t.entries, q) && ExactAt(t.pmm, t.entries, t.lost, q);
      SameMappers(s.entries, t.entries, q);
    }
  }

  // ---------- clone and teardown ----------

  /** A step of making, using or tearing down the clone k; a fault may be the clone's only. */
  predicate ForClone(st: CowStep, k: nat)
  {
    match st
    case Share(src, dst) => src.dir != k && dst.dir == k
    case Copy(src, dst) => dst.dir == k
    case Zero(dst) => dst.dir == k
    case Write(at, offset, value) => true
    case Fault(at) => at.dir == k
    case Drop(at) => at.dir == k
    case Unmap(at) => false
  }

  /** As ForClone, with faults of the space p allowed too. */
  predicate ForCloneOf(st: CowStep, p: nat, k: nat)
  {
    ForClone(st, k) || (st.Fault? && st.at.dir == p)
  }

  predicate NoneOf(entries: map<Loc, Entry>, k: nat)
  {
    forall l :: l in entries ==> l.dir != k
  }

  /** Entries outside the space k are the same, frame for frame. */
  ghost predicate SameOutsideOf(entries: map<Loc, Entry>, entries': map<Loc, Entry>, k: nat)
  {
    forall l: Loc :: l.dir != k ==> SameLoc(entries, entries', l)
  }

  ghost predicate SameLoc(entries: map<Loc, Entry>, entries': map<Loc, Entry>, l: Loc)
  {
    && (l in entries <==> l in entries')
    && (l in entries ==> entries'[l].frame == entries[l].frame)
  }

  /** The one location a step is about. */
  function Touched(st: CowStep): Loc
  {
    match st
    case Share(src, dst) => dst
    case Copy(src, dst) => dst
    case Zero(dst) => dst
    case Write(at, offset, value) => at
    case Fault(at) => at
    case Drop(at) => at
    case Unmap(at) => at
  }

  ghost predicate SameBut(entries: map<Loc, Entry>, entries': map<Loc, Entry>, at: Loc)
  {
    forall l: Loc :: l != at ==> SameLoc(entries, entries', l)
  }

  /** A step changes the mapping at one location only; a write does not change it, and a fault moves it to
      a frame that held no user data before, if it finds one. */
  lemma {:induction false} StepMapping(s: Sys, st: CowStep)
    requires SysInv(s) && CowLegal(s, st)
    ensures SameBut(s.entries, StepSys(s, st).entries, Touched(st))
    ensures st.Write? ==> StepSys(s, st).entries == s.entries
    ensures st.Fault? ==> Moved(s.entries, s.data, StepSys(s, st).entries, st.at)
  {
    hide Inv, DataOk, AllocOrder, Release1;
    if st.Fault? {
      FaultMapping(s, st.at);
    } else if st.Drop? {
      DropMapping(s, st.at);
    }
  }

  ghost predicate Moved(entries: map<Loc, Entry>, data: map<nat, Page>, entries': map<Loc, Entry>, at: Loc)
  {
    && at in entries && at in entries'
    && (entries'[at].frame == entries[at].frame || entries'[at].frame !in data)
  }

  lemma {:induction false} DropMapping(s: Sys, at: Loc)
    requires SysInv(s) && at in s.entries
    ensures DropEntry(s, at).entries == s.entries - {at}
  {
    hide Inv, DataOk, DecRef;
    MappedOk(s.pmm, s.entries, s.data, at);
  }

  lemma {:induction false} FaultEntries(s: Sys, at: Loc)
    requires SysInv(s) && at in s.entries
    ensures !CanAlloc(s) ==> FaultEntry(s, at) == s
    ensures CanAlloc(s) ==>
              FaultEntry(s, at).entries == s.entries[at := Entry(AllocOrder(s.pmm, 0).1, true, false)]
  {
    assert |s.pmm.lists| == MAX_ORDER + 1;
    hide Inv, DataOk, Release1, AllocOrder;
    MappedOk(s.pmm, s.entries, s.data, at);
  }

  lemma {:induction false} NewFrame(s: Sys)
    requires SysInv(s) && CanAlloc(s)
    ensures AllocOrder(s.pmm, 0).1 !in s.data
  {
    AllocPageFacts(s.pmm);
    var f := AllocOrder(s.pmm, 0).1;
    assert f in s.data ==> FrameOk(s.pmm, s.entries, f);
  }

  lemma {:induction false} FaultMapping(s: Sys, at: Loc)
    requires SysInv(s) && at in s.entries
    ensures SameBut(s.entries, FaultEntry(s, at).entries, at) && Moved(s.entries, s.data, FaultEntry(s, at).entries, at)
  {
    assert |s.pmm.lists| == MAX_ORDER + 1;
    hide SysInv, FaultEntry, AllocOrder, SameBut, Moved;
    FaultEntries(s, at);
    if CanAlloc(s) {
      NewFrame(s);
      MovedBy(s.entries, s.data, at, Entry(AllocOrder(s.pmm, 0).1, true, false));
    } else {
      MovedBy(s.entries, s.data, at, s.entries[at]);
      assert s.entries[at := s.entries[at]] == s.entries;
    }
  }

  lemma {:induction false} MovedBy(entries: map<Loc, Entry>, data: map<nat, Page>, at: Loc, e: Entry)
    requires at in entries && (e.frame == entries[at].frame || e.frame !in data)
    ensures SameBut(entries, entries[at := e], at) && Moved(entries, data, entries[at := e], at)
  {
  }

  lemma {:induction false} RunOutside(s: Sys, steps: seq<CowStep>, k: nat)
    requires SysInv(s) && LegalSteps(s, steps)
    requires forall i :: 0 <= i < |steps| ==> ForClone(steps[i], k)
    ensures SameOutsideOf(s.entries, RunSys(s, steps).entries, k)
    decreases |steps|
  {
    hide SysInv, CowLegal, StepSys;
    if steps != [] {
      RunHead(s, steps);
      var u := StepSys(s, steps[0]);
      StepMapping(s, steps[0]);
      assert ForClone(steps[0], k);
      RunOutside(u, steps[1..], k);
      forall l: Loc | l.dir != k ensures SameLoc(s.entries, RunSys(s, steps).entries, l) {
        assert SameLoc(u.entries, RunSys(u, steps[1..]).entries, l);
        assert steps[0].Write? || l != Touched(steps[0]);
        assert SameLoc(s.entries, u.entries, l);
      }
    }
  }

  lemma {:induction false} CloneGone(entries: map<Loc, Entry>, entries': map<Loc, Entry>, k: nat)
    requires SameOutsideOf(entries, entries', k) && NoneOf(entries, k) && NoneOf(entries', k)
    ensures SameMapping(entries, entries')
  {
    forall l: Loc ensures SameLoc(entries, entries', l) {
    }
  }

  /** Cloning a space and tearing the clone down again, with any writes and any faults of the clone in
      between, restores every reference count, the used-page counter and the blocks of every free list. */
  lemma {:induction false} CloneTeardownRestores(s: Sys, steps: seq<CowStep>, k: nat)
    requires SysInv(s) && Exact(s) && LegalSteps(s, steps)
    requires forall i :: 0 <= i < |steps| ==> ForClone(steps[i], k)
    requires NoneOf(s.entries, k) && NoneOf(RunSys(s, steps).entries, k)
    ensures var t := RunSys(s, steps);
            && t.pmm.refs == s.pmm.refs && t.pmm.used == s.pmm.used && t.data.Keys == s.data.Keys && SysInv(t)
            && forall j: nat, p: nat :: j <= MAX_ORDER ==> (p in t.pmm.lists[j] <==> p in s.pmm.lists[j])
  {
    hide SysInv, LegalSteps, RunSys, Exact;
    var t := RunSys(s, steps);
    RunOutside(s, steps, k);
    RunRefines(s, steps);
    NothingLost(steps, k, k);
    RunKernel(s, steps);
    CloneGone(s.entries, t.entries, k);
    SameMappingSameMemory(s, t);
  }

  /** Such runs shrink no heap. */
  lemma {:induction false} NothingLost(steps: seq<CowStep>, p: nat, k: nat)
    requires forall i :: 0 <= i < |steps| ==> ForCloneOf(steps[i], p, k)
    ensures NoShrink(steps)
  {
    forall i | 0 <= i < |steps| ensures !steps[i].Unmap? {
      assert ForCloneOf(steps[i], p, k);
    }
  }

  // ---------- clone, faults of both, teardown ----------

  /** Within the space p no frame is mapped twice. */
  ghost predicate InjectiveIn(entries: map<Loc, Entry>, p: nat)
  {
    forall l, m ::
      l in entries && m in entries && l.dir == p && m.dir == p && entries[l].frame == entries[m].frame ==> l == m
  }

  /** The frames mapped by spaces other than p and k, and those in `held`, which have references left behind. */
  function OtherFrames(entries: map<Loc, Entry>, held: set<nat>, p: nat, k: nat): set<nat>
  {
    held + set l | l in entries && l.dir != p && l.dir != k :: entries[l].frame
  }

  /** Third spaces keep their mapping; p keeps its pages, each on its first frame or on one that nobody else holds. */
  ghost predicate CloneStage(entries: map<Loc, Entry>, entries': map<Loc, Entry>, held: set<nat>, p: nat, k: nat)
  {
    && (forall l: Loc :: l.dir != p && l.dir != k ==> SameLoc(entries, entries', l))
    && (forall l: Loc :: l.dir == p ==> PageStage(entries, entries', held, p, k, l))
    && InjectiveIn(entries', p)
  }

  ghost predicate PageStage(entries: map<Loc, Entry>, entries': map<Loc, Entry>, held: set<nat>, p: nat, k: nat, l: Loc)
  {
    && (l in entries <==> l in entries')
    && (l in entries ==>
          entries'[l].frame == entries[l].frame || entries'[l].frame !in OtherFrames(entries, held, p, k))
  }

  lemma {:induction false} StageStart(entries: map<Loc, Entry>, held: set<nat>, p: nat, k: nat)
    requires InjectiveIn(entries, p)
    ensures CloneStage(entries, entries, held, p, k)
  {
  }

  /** A step of the clone that leaves p's mapping alone keeps the stage. */
  lemma {:induction false} StageOther(e0: map<Loc, Entry>, e1: map<Loc, Entry>, e2: map<Loc, Entry>, held: set<nat>,
                                      p: nat, k: nat)
    requires p != k && CloneStage(e0, e1, held, p, k) && SameOutsideOf(e1, e2, k)
    ensures CloneStage(e0, e2, held, p, k)
  {
    forall l: Loc | l.dir != k ensures SameLoc(e1, e2, l) {
    }
  }

  /** Frames of third spaces and held ones still hold user data at every stage. */
  lemma {:induction false} OthersMapped(e0: map<Loc, Entry>, e1: map<Loc, Entry>, data: map<nat, Page>, held: set<nat>,
                                        p: nat, k: nat, f: nat)
    requires CloneStage(e0, e1, held, p, k) && AllMapped(e1, data) && held <= data.Keys
    requires f in OtherFrames(e0, held, p, k)
    ensures f in data
  {
    if f !in held {
      var l :| l in e0 && l.dir != p && l.dir != k && e0[l].frame == f;
      assert SameLoc(e0, e1, l);
    }
  }

  /** So does a fault of p, which moves one page to a frame nobody maps. */
  lemma {:induction false} StageFault(e0: map<Loc, Entry>, e1: map<Loc, Entry>, data: map<nat, Page>,
                                      e2: map<Loc, Entry>, held: set<nat>, p: nat, k: nat, at: Loc)
    requires p != k && AllMapped(e1, data) && held <= data.Keys && CloneStage(e0, e1, held, p, k) && at.dir == p
    requires SameBut(e1, e2, at) && Moved(e1, data, e2, at)
    ensures CloneStage(e0, e2, held, p, k)
  {
    forall l: Loc | l.dir != p && l.dir != k ensures SameLoc(e0, e2, l) {
      assert SameLoc(e0, e1, l) && SameLoc(e1, e2, l);
    }
    forall l: Loc | l.dir == p ensures PageStage(e0, e2, held, p, k, l) {
      assert PageStage(e0, e1, held, p, k, l);
      if l != at {
        assert SameLoc(e1, e2, l);
      } else if e2[at].frame in OtherFrames(e0, held, p, k) {
        OthersMapped(e0, e1, data, held, p, k, e2[at].frame);
      }
    }
    StageInjective(e1, data, e2, p, at);
  }

  lemma {:induction false} StageInjective(e1: map<Loc, Entry>, data: map<nat, Page>, e2: map<Loc, Entry>, p: nat,
                                          at: Loc)
    requires AllMapped(e1, data) && InjectiveIn(e1, p) && at.dir == p
    requires SameBut(e1, e2, at) && Moved(e1, data, e2, at)
    ensures InjectiveIn(e2, p)
  {
    forall l, m | l in e2 && m in e2 && l.dir == p && m.dir == p && e2[l].frame == e2[m].frame ensures l == m {
      assert l != at ==> SameLoc(e1, e2, l);
      assert m != at ==> SameLoc(e1, e2, m);
    }
  }

  lemma {:induction false} StepStage(e0: map<Loc, Entry>, s: Sys, st: CowStep, p: nat, k: nat)
    requires p != k && SysInv(s) && Exact(s) && CowLegal(s, st) && ForCloneOf(st, p, k)
    requires CloneStage(e0, s.entries, s.lost.Keys, p, k)
    ensures CloneStage(e0, StepSys(s, st).entries, s.lost.Keys, p, k)
  {
    hide SysInv, CowLegal, StepSys, CloneStage, Exact;
    var entries' := StepSys(s, st).entries;
    StepMapping(s, st);
    if st.Fault? && st.at.dir == p {
      SysMapped(s);
      LostHeld(s);
      StageFault(e0, s.entries, s.data, entries', s.lost.Keys, p, k, st.at);
    } else {
      StepOutside(s.entries, entries', st, k);
      StageOther(e0, s.entries, entries', s.lost.Keys, p, k);
    }
  }

  lemma {:induction false} LostHeld(s: Sys)
    requires Exact(s)
    ensures s.lost.Keys <= s.data.Keys
  {
  }

  lemma {:induction false} RunStage(e0: map<Loc, Entry>, s: Sys, steps: seq<CowStep>, p: nat, k: nat)
    requires p != k && SysInv(s) && Exact(s) && LegalSteps(s, steps) && CloneStage(e0, s.entries, s.lost.Keys, p, k)
    requires forall i :: 0 <= i < |steps| ==> ForCloneOf(steps[i], p, k)
    ensures CloneStage(e0, RunSys(s, steps).entries, s.lost.Keys, p, k)
    decreases |steps|
  {
    hide SysInv, CowLegal, StepSys, CloneStage, Exact;
    if steps != [] {
      RunHead(s, steps);
      StepSound(s, steps[0]);
      assert ForCloneOf(steps[0], p, k);
      StepStage(e0, s, steps[0], p, k);
      RunStage(e0, StepSys(s, steps[0]), steps[1..], p, k);
    }
  }

  lemma {:induction false} SysMapped(s: Sys)
    requires SysInv(s)
    ensures AllMapped(s.entries, s.data)
  {
    AllMappedOk(s.pmm, s.entries, s.data);
  }

  lemma {:induction false} StepOutside(entries: map<Loc, Entry>, entries': map<Loc, Entry>, st: CowStep, k: nat)
    requires ForClone(st, k) && SameBut(entries, entries', Touched(st)) && (st.Write? ==> entries' == entries)
    ensures SameOutsideOf(entries, entries', k)
  {
    forall l: Loc | l.dir != k ensures SameLoc(entries, entries', l) {
      assert st.Write? || l != Touched(st);
    }
  }

  // counting frames

  /** Locations of p whose frame nobody else holds. */
  function OwnPages(entries: map<Loc, Entry>, p: nat, others: set<nat>): set<Loc>
  {
    set l | l in entries && l.dir == p && entries[l].frame !in others
  }

  lemma {:induction false} ImageSize(entries: map<Loc, Entry>, locs: set<Loc>, frames: set<nat>)
    requires forall l :: l in locs ==> l in entries && entries[l].frame in frames
    requires forall f :: f in frames ==> exists l :: l in locs && entries[l].frame == f
    requires forall l, m :: l in locs && m in locs && entries[l].frame == entries[m].frame ==> l == m
    ensures |locs| == |frames|
  {
    if frames == {} {
      assert locs == {};
    } else {
      var f :| f in frames;
      var l :| l in locs && entries[l].frame == f;
      forall g | g in frames - {f} ensures exists m :: m in locs - {l} && entries[m].frame == g {
        var m :| m in locs && entries[m].frame == g;
        assert m in locs - {l};
      }
      ImageSize(entries, locs - {l}, frames - {f});
    }
  }

  /** Without entries of k, the frames in use are those of others and one per own page of p. */
  lemma {:induction false} FrameCount(entries: map<Loc, Entry>, held: set<nat>, p: nat, k: nat)
    requires InjectiveIn(entries, p) && NoneOf(entries, k)
    ensures var others := OtherFrames(entries, held, p, k);
            |Frames(entries) + held| == |others| + |OwnPages(entries, p, others)|
  {
    var others := OtherFrames(entries, held, p, k);
    var own := OwnPages(entries, p, others);
    var frames := Frames(entries) + held - others;
    forall f | f in frames ensures exists l :: l in own && entries[l].frame == f {
      var l :| l in entries && entries[l].frame == f;
      assert l in own;
    }
    ImageSize(entries, own, frames);
    assert Frames(entries) + held == others + frames;
  }

  lemma {:induction false} SameOthers(e0: map<Loc, Entry>, e1: map<Loc, Entry>, held: set<nat>, p: nat, k: nat)
    requires CloneStage(e0, e1, held, p, k)
    ensures OtherFrames(e0, held, p, k) == OtherFrames(e1, held, p, k)
  {
    forall l: Loc | l.dir != p && l.dir != k ensures SameLoc(e0, e1, l) {
    }
  }

  /** The page at l kept its frame, or nobody else held that frame at first. */
  ghost predicate KeptOrAlone(e0: map<Loc, Entry>, e1: map<Loc, Entry>, held: set<nat>, l: Loc)
    requires l in e0 && l in e1
  {
    e1[l].frame == e0[l].frame || (Mappers(e0, e0[l].frame) == {l} && e0[l].frame !in held)
  }

  /** A frame of p that nobody else holds is mapped once. */
  lemma {:induction false} AloneIff(e0: map<Loc, Entry>, held: set<nat>, p: nat, k: nat, l: Loc)
    requires InjectiveIn(e0, p) && NoneOf(e0, k) && l in e0 && l.dir == p && p != k
    ensures e0[l].frame !in OtherFrames(e0, held, p, k) <==> Mappers(e0, e0[l].frame) == {l} && e0[l].frame !in held
  {
    assert l in Mappers(e0, e0[l].frame);
    if e0[l].frame in OtherFrames(e0, held, p, k) {
      if e0[l].frame !in held {
        var m :| m in e0 && m.dir != p && m.dir != k && e0[m].frame == e0[l].frame;
        assert m in Mappers(e0, e0[l].frame);
      }
    } else {
      forall m | m in Mappers(e0, e0[l].frame) ensures m == l {
      }
    }
  }

  /** The frame at l has one reference exactly when nobody else holds it. */
  lemma {:induction false} OneReference(s: Sys, l: Loc)
    requires SysInv(s) && Exact(s) && l in s.entries
    ensures var f := s.entries[l].frame;
            f < |s.pmm.refs| && (s.pmm.refs[f] == 1 <==> Mappers(s.entries, f) == {l} && f !in s.lost)
  {
    var f := s.entries[l].frame;
    MappedOk(s.pmm, s.entries, s.data, l);
    assert ExactAt(s.pmm, s.entries, s.lost, f);
    var rest := Mappers(s.entries, f) - {l};
    assert Mappers(s.entries, f) == {l} + rest;
    assert |Mappers(s.entries, f)| == 1 + |rest|;
    assert |rest| == 0 <==> rest == {};
  }

  /** Pages of p that left a frame which somebody else held at first. */
  ghost function Stranded(e0: map<Loc, Entry>, e1: map<Loc, Entry>, held: set<nat>, p: nat): set<Loc>
  {
    set l | l in e0 && l in e1 && l.dir == p && !KeptOrAlone(e0, e1, held, l)
  }

  lemma {:induction false} OwnPagesGrow(e0: map<Loc, Entry>, e1: map<Loc, Entry>, held: set<nat>, p: nat, k: nat)
    requires p != k && InjectiveIn(e0, p) && CloneStage(e0, e1, held, p, k) && NoneOf(e0, k)
    ensures var others := OtherFrames(e0, held, p, k);
            |OwnPages(e1, p, others)| == |OwnPages(e0, p, others)| + |Stranded(e0, e1, held, p)|
  {
    var others := OtherFrames(e0, held, p, k);
    var own0, own1, left := OwnPages(e0, p, others), OwnPages(e1, p, others), Stranded(e0, e1, held, p);
    forall l: Loc ensures l in own1 <==> l in own0 || l in left
                  ensures !(l in own0 && l in left)
    {
      OwnPageGrows(e0, e1, held, p, k, l);
    }
    assert own1 == own0 + left && own0 !! left;
  }

  lemma {:induction false} OwnPageGrows(e0: map<Loc, Entry>, e1: map<Loc, Entry>, held: set<nat>, p: nat, k: nat,
                                        l: Loc)
    requires p != k && InjectiveIn(e0, p) && CloneStage(e0, e1, held, p, k) && NoneOf(e0, k)
    ensures var others := OtherFrames(e0, held, p, k);
            && (l in OwnPages(e1, p, others) <==> l in OwnPages(e0, p, others) || l in Stranded(e0, e1, held, p))
            && !(l in OwnPages(e0, p, others) && l in Stranded(e0, e1, held, p))
  {
    if l.dir == p {
      assert PageStage(e0, e1, held, p, k, l);
      if l in e0 {
        AloneIff(e0, held, p, k, l);
      }
    }
  }

  /** Once k is gone, there is one more frame in use for every stranded page. */
  lemma {:induction false} MappedGrow(e0: map<Loc, Entry>, e1: map<Loc, Entry>, held: set<nat>, p: nat, k: nat)
    requires p != k && InjectiveIn(e0, p) && CloneStage(e0, e1, held, p, k) && NoneOf(e0, k) && NoneOf(e1, k)
    ensures |Frames(e1) + held| == |Frames(e0) + held| + |Stranded(e0, e1, held, p)|
  {
    hide CloneStage, InjectiveIn, NoneOf, Stranded;
    StageEnds(e0, e1, held, p, k);
    FrameCount(e0, held, p, k);
    FrameCount(e1, held, p, k);
    SameOthers(e0, e1, held, p, k);
    OwnPagesGrow(e0, e1, held, p, k);
  }

  /** Equal kernel parts: the used-page counter differs by the number of data frames. */
  lemma {:induction false} UsedDiff(s: Sys, t: Sys)
    requires SysInv(s) && SysInv(t) && SameKernel(s.pmm, s.data, t.pmm, t.data)
    ensures t.pmm.used - s.pmm.used == |t.data| - |s.data|
  {
    UsedCount(s);
    UsedCount(t);
    KernelEqual(s, t);
  }

  lemma {:induction false} UsedGrows(s: Sys, t: Sys, p: nat, k: nat)
    requires SysInv(s) && SysInv(t) && Exact(s) && Exact(t) && SameKernel(s.pmm, s.data, t.pmm, t.data)
    requires p != k && InjectiveIn(s.entries, p) && CloneStage(s.entries, t.entries, s.lost.Keys, p, k)
    requires NoneOf(s.entries, k) && NoneOf(t.entries, k) && t.lost == s.lost
    ensures t.pmm.used == s.pmm.used + |Stranded(s.entries, t.entries, s.lost.Keys, p)|
  {
    hide SysInv, Exact, SameKernel, CloneStage, InjectiveIn, NoneOf, Stranded;
    UsedDiff(s, t);
    DataIsMapped(s);
    DataIsMapped(t);
    MappedGrow(s.entries, t.entries, s.lost.Keys, p, k);
    assert |s.data.Keys| == |s.data| && |t.data.Keys| == |t.data|;
  }

  /** Cloning p, any writes, any faults of p and of the clone k, and tearing k down leave one more used page for every
      page of p that left a frame which somebody else held at the start, and so restore the used-page counter exactly
      when there is none. */
  lemma {:induction false} CloneUsedRestoredIff(s: Sys, steps: seq<CowStep>, p: nat, k: nat)
    requires p != k && SysInv(s) && Exact(s) && LegalSteps(s, steps) && InjectiveIn(s.entries, p)
    requires forall i :: 0 <= i < |steps| ==> ForCloneOf(steps[i], p, k)
    requires NoneOf(s.entries, k) && NoneOf(RunSys(s, steps).entries, k)
    ensures var t := RunSys(s, steps);
            && t.pmm.used == s.pmm.used + |Stranded(s.entries, t.entries, s.lost.Keys, p)|
            && (t.pmm.used == s.pmm.used <==>
                forall l :: l in s.entries && l.dir == p ==>
                              l in t.entries && KeptOrAlone(s.entries, t.entries, s.lost.Keys, l))
  {
    hide SysInv, LegalSteps, RunSys, Exact, CloneStage, InjectiveIn, NoneOf, Stranded, SameKernel, KeptOrAlone,
         NoShrink;
    var t := RunSys(s, steps);
    StageStart(s.entries, s.lost.Keys, p, k);
    RunStage(s.entries, s, steps, p, k);
    RunRefines(s, steps);
    NothingLost(steps, p, k);
    RunKernel(s, steps);
    UsedGrows(s, t, p, k);
    NoneStranded(s.entries, t.entries, s.lost.Keys, p, k);
  }

  lemma {:induction false} NoneStranded(e0: map<Loc, Entry>, e1: map<Loc, Entry>, held: set<nat>, p: nat, k: nat)
    requires CloneStage(e0, e1, held, p, k)
    ensures |Stranded(e0, e1, held, p)| == 0 <==>
            forall l :: l in e0 && l.dir == p ==> l in e1 && KeptOrAlone(e0, e1, held, l)
  {
    var left := Stranded(e0, e1, held, p);
    assert |left| == 0 <==> left == {};
    forall l | l in e0 && l.dir == p ensures l in e1 {
      assert PageStage(e0, e1, held, p, k, l);
    }
    forall l | l in e0 && l in e1 && l.dir == p ensures l in left <==> !KeptOrAlone(e0, e1, held, l) {
    }
  }

  lemma {:induction false} StageEnds(e0: map<Loc, Entry>, e1: map<Loc, Entry>, held: set<nat>, p: nat, k: nat)
    requires CloneStage(e0, e1, held, p, k)
    ensures InjectiveIn(e1, p)
  {
  }
}
