/** Whole runs of the copy-on-write machine: refinement of eager copying, safety and conservation. */
module CowRuns {
  import opened Blocks
  import opened BuddyOwners
  import opened BuddyState
  import opened BuddyRuns
  import opened CowMachine

  function StepSys(s: Sys, st: CowStep): Sys
    requires SysInv(s) && CowLegal(s, st)
  {
    match st
    case Share(src, dst) => ShareEntry(s, src, dst)
    case Copy(src, dst) => CopyEntry(s, src, dst)
    case Zero(dst) => FreshEntry(s, dst, ZeroPage())
    case Write(at, offset, value) => WriteByte(s, at, offset, value)
    case Fault(at) => FaultEntry(s, at)
    case Drop(at) => DropEntry(s, at)
    case Unmap(at) => UnmapEntry(s, at)
  }

  /** The same step on memory where every location has a page of its own and a clone copies at once. */
  ghost function EagerStep(m: map<Loc, Page>, st: CowStep): map<Loc, Page>
    requires EagerLegal(m, st)
  {
    match st
    case Share(src, dst) => m[dst := m[src]]
    case Copy(src, dst) => m[dst := m[src]]
    case Zero(dst) => m[dst := ZeroPage()]
    case Write(at, offset, value) => m[at := m[at][offset := value]]
    case Fault(at) => m
    case Drop(at) => m - {at}
    case Unmap(at) => m - {at}
  }

  predicate EagerLegal(m: map<Loc, Page>, st: CowStep)
  {
    match st
    case Share(src, dst) => src in m
    case Copy(src, dst) => src in m
    case Zero(dst) => true
    case Write(at, offset, value) => at in m && offset < PAGE_BYTES
    case Fault(at) => true
    case Drop(at) => true
    case Unmap(at) => true
  }

  ghost predicate StepOk(s: Sys, st: CowStep)
    requires SysInv(s) && CowLegal(s, st)
  {
    var t := StepSys(s, st);
    && SysInv(t)
    && EagerLegal(Contents(s), st) && Contents(t) == EagerStep(Contents(s), st)
    && (Exact(s) ==> Exact(t)) && (!st.Unmap? ==> t.lost == s.lost)
  }

  lemma {:induction false} ShareSound(s: Sys, src: Loc, dst: Loc)
    requires SysInv(s) && CowLegal(s, Share(src, dst))
    ensures StepOk(s, Share(src, dst))
  {
    hide Inv, DataOk, ExactCounts;
    var e := s.entries[src].(rw := false, cow := true);
    ShareKeeps(s, src, dst);
    AllMappedOk(s.pmm, s.entries, s.data);
    ShareReads(s.entries, s.data, src, dst, e);
    if Exact(s) {
      ShareExact(s.pmm, IncRef(s.pmm, e.frame), s.entries, s.data, s.lost, src, dst, e);
    }
  }

  lemma {:induction false} FreshSound(s: Sys, dst: Loc, page: Page)
    requires SysInv(s) && dst !in s.entries && CanAlloc(s)
    ensures var t := FreshEntry(s, dst, page);
            SysInv(t) && Contents(t) == Contents(s)[dst := page] && (Exact(s) ==> Exact(t)) && t.lost == s.lost
  {
    var (p', f) := AllocOrder(s.pmm, 0);
    FreshKeeps(s, dst, page);
    AllocPageFacts(s.pmm);
    FreshDataOk(s.pmm, p', s.entries, s.data, dst, f, page);
    AllMappedOk(s.pmm, s.entries, s.data);
    FreshReads(s.entries, s.data, dst, Entry(f, true, false), page);
    if Exact(s) {
      FreshExact(s.pmm, p', s.entries, s.data, s.lost, dst, f, page);
    }
  }

  lemma {:induction false} CopySound(s: Sys, src: Loc, dst: Loc)
    requires SysInv(s) && CowLegal(s, Copy(src, dst))
    ensures StepOk(s, Copy(src, dst))
  {
    hide Inv, DataOk, FreshEntry;
    MappedOk(s.pmm, s.entries, s.data, src);
    FreshSound(s, dst, s.data[s.entries[src].frame]);
  }

  lemma {:induction false} ZeroSound(s: Sys, dst: Loc)
    requires SysInv(s) && CowLegal(s, Zero(dst))
    ensures StepOk(s, Zero(dst))
  {
    hide Inv, DataOk, FreshEntry;
    FreshSound(s, dst, ZeroPage());
  }

  lemma {:induction false} WriteSound(s: Sys, at: Loc, offset: nat, value: int)
    requires SysInv(s) && CowLegal(s, Write(at, offset, value))
    ensures StepOk(s, Write(at, offset, value))
  {
    hide Inv, DataOk, WriteByte;
    WriteKeeps(s, at, offset, value);
  }

  lemma {:induction false} FaultSound(s: Sys, at: Loc)
    requires SysInv(s) && CowLegal(s, Fault(at))
    ensures StepOk(s, Fault(at))
  {
    hide Inv, DataOk, FaultEntry;
    FaultKeeps(s, at);
  }

  lemma {:induction false} DropSound(s: Sys, at: Loc)
    requires SysInv(s) && CowLegal(s, Drop(at))
    ensures StepOk(s, Drop(at))
  {
    hide Inv, DataOk, DropEntry;
    DropKeeps(s, at);
  }

  lemma {:induction false} UnmapSound(s: Sys, at: Loc)
    requires SysInv(s) && CowLegal(s, Unmap(at))
    ensures StepOk(s, Unmap(at))
  {
    hide Inv, DataOk, UnmapEntry;
    UnmapKeeps(s, at);
  }

  lemma {:induction false} StepSound(s: Sys, st: CowStep)
    requires SysInv(s) && CowLegal(s, st)
    ensures StepOk(s, st)
  {
    match st
    case Share(src, dst) => ShareSound(s, src, dst);
    case Copy(src, dst) => CopySound(s, src, dst);
    case Zero(dst) => ZeroSound(s, dst);
    case Write(at, offset, value) => WriteSound(s, at, offset, value);
    case Fault(at) => FaultSound(s, at);
    case Drop(at) => DropSound(s, at);
    case Unmap(at) => UnmapSound(s, at);
  }

  // ---------- runs ----------

  ghost predicate LegalSteps(s: Sys, steps: seq<CowStep>)
    requires SysInv(s)
    decreases |steps|
  {
    steps == [] ||
    (&& CowLegal(s, steps[0])
     && (StepSound(s, steps[0]); LegalSteps(StepSys(s, steps[0]), steps[1..])))
  }

  ghost function RunSys(s: Sys, steps: seq<CowStep>): Sys
    requires SysInv(s) && LegalSteps(s, steps)
    decreases |steps|
  {
    if steps == [] then s else StepSound(s, steps[0]); RunSys(StepSys(s, steps[0]), steps[1..])
  }

  /** A run is its first step and the run from there. */
  lemma {:induction false} RunHead(s: Sys, steps: seq<CowStep>)
    requires SysInv(s) && LegalSteps(s, steps) && steps != []
    ensures CowLegal(s, steps[0])
    ensures var t := StepSys(s, steps[0]);
            SysInv(t) && LegalSteps(t, steps[1..]) && RunSys(s, steps) == RunSys(t, steps[1..])
  {
    hide SysInv, CowLegal, StepSys;
    StepSound(s, steps[0]);
  }

  /** A run is its steps one after the other. */
  lemma {:induction false} RunOneMore(s: Sys, steps: seq<CowStep>, st: CowStep)
    requires SysInv(s) && LegalSteps(s, steps)
    ensures RunSys(s, []) == s && SysInv(RunSys(s, steps))
    ensures CowLegal(RunSys(s, steps), st) ==>
              LegalSteps(s, steps + [st]) && RunSys(s, steps + [st]) == StepSys(RunSys(s, steps), st)
    decreases |steps|
  {
    hide SysInv, CowLegal, StepSys;
    var all := steps + [st];
    if steps == [] {
      assert all[1..] == [];
      if CowLegal(s, st) {
        StepSound(s, st);
      }
    } else {
      assert all[1..] == steps[1..] + [st];
      RunHead(s, steps);
      RunOneMore(StepSys(s, steps[0]), steps[1..], st);
    }
  }

  ghost predicate EagerRunLegal(m: map<Loc, Page>, steps: seq<CowStep>)
    decreases |steps|
  {
    steps == [] || (EagerLegal(m, steps[0]) && EagerRunLegal(EagerStep(m, steps[0]), steps[1..]))
  }

  ghost function EagerRun(m: map<Loc, Page>, steps: seq<CowStep>): map<Loc, Page>
    requires EagerRunLegal(m, steps)
    decreases |steps|
  {
    if steps == [] then m else EagerRun(EagerStep(m, steps[0]), steps[1..])
  }

  ghost predicate NoShrink(steps: seq<CowStep>)
  {
    forall i :: 0 <= i < |steps| ==> !steps[i].Unmap?
  }

  /** Copy-on-write refines eager copying over every run, and every reference count stays the number of mappers and of
      references that heap shrinks left behind; without heap shrinks none is left behind. */
  lemma {:induction false} RunRefines(s: Sys, steps: seq<CowStep>)
    requires SysInv(s) && LegalSteps(s, steps)
    ensures SysInv(RunSys(s, steps))
    ensures EagerRunLegal(Contents(s), steps) && Contents(RunSys(s, steps)) == EagerRun(Contents(s), steps)
    ensures Exact(s) ==> Exact(RunSys(s, steps))
    ensures NoShrink(steps) ==> RunSys(s, steps).lost == s.lost
    decreases |steps|
  {
    if steps != [] {
      StepSound(s, steps[0]);
      RunRefines(StepSys(s, steps[0]), steps[1..]);
    }
  }

  /** A mapped frame is live, counted at least once per mapper, and on no free list: it is never handed out again. */
  lemma {:induction false} MappedNeverFree(s: Sys, l: Loc)
    requires SysInv(s) && l in s.entries
    ensures var f := s.entries[l].frame;
            && f < |s.pmm.owner| && StatusBit(s.pmm.owner[f], f)
            && |Mappers(s.entries, f)| <= s.pmm.refs[f]
            && (forall k: nat, h: nat :: k <= MAX_ORDER && h in s.pmm.lists[k] ==> !(h <= f < h + Pow2(k)))
            && (s.entries[l].rw ==> Mappers(s.entries, f) == {l})
            && (CanAlloc(s) ==> AllocOrder(s.pmm, 0).1 != f)
  {
    MappedOk(s.pmm, s.entries, s.data, l);
    var f := s.entries[l].frame;
    ExactlyOneBlock(s.pmm, f);
    forall k: nat, h: nat | k <= MAX_ORDER && h in s.pmm.lists[k] ensures !(h <= f < h + Pow2(k)) {
      assert ListMatches(s.pmm.owner, s.pmm.lists[k], k);
      assert h <= f < h + Pow2(k) ==> Covers(s.pmm, h, k, f);
    }
    if CanAlloc(s) {
      AllocPageFacts(s.pmm);
    }
  }

  /** A frame with a reference left behind by a heap shrink is never free again, whoever drops it later. */
  lemma {:induction false} LostForever(s: Sys, steps: seq<CowStep>, f: nat)
    requires SysInv(s) && Exact(s) && LegalSteps(s, steps) && f in s.lost
    ensures var t := RunSys(s, steps);
            f in t.lost && f in t.data && f < |t.pmm.owner| && t.pmm.owner[f] == Live(f, 0)
    decreases |steps|
  {
    if steps == [] {
      DataFrame(s.pmm, s.entries, s.data, f);
    } else {
      hide SysInv, Exact, CowLegal, StepSys, LegalSteps, RunSys;
      RunHead(s, steps);
      StepSound(s, steps[0]);
      StepLost(s, steps[0], f);
      LostForever(StepSys(s, steps[0]), steps[1..], f);
    }
  }

  lemma {:induction false} StepLost(s: Sys, st: CowStep, f: nat)
    requires SysInv(s) && CowLegal(s, st) && f in s.lost
    ensures f in StepSys(s, st).lost
  {
    if st.Unmap? {
      MappedOk(s.pmm, s.entries, s.data, st.at);
    } else {
      hide Inv, DataOk, StepSys;
      StepSound(s, st);
    }
  }
}
