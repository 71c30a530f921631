/** When cloning a space and tearing the clone down is sure to give back every page, told from the state before. */
module CowRestored {
  import opened BuddyState
  import opened BuddyRuns
  import opened CowMachine
  import opened CowRuns
  import opened CowConservation

  /** A run that makes the clone k of p, lets both write and fault, and ends with the clone gone. */
  ghost predicate CloneRun(s: Sys, steps: seq<CowStep>, p: nat, k: nat)
    requires SysInv(s)
  {
    && LegalSteps(s, steps)
    && (forall i :: 0 <= i < |steps| ==> ForCloneOf(steps[i], p, k))
    && NoneOf(RunSys(s, steps).entries, k)
  }

  /** Every such run restores the used-page counter. */
  ghost predicate AlwaysRestored(s: Sys, p: nat, k: nat)
    requires SysInv(s)
  {
    forall steps: seq<CowStep> :: CloneRun(s, steps, p, k) ==> RunSys(s, steps).pmm.used == s.pmm.used
  }

  /** Every page of p is in a frame with a single reference. */
  ghost predicate AllAlone(s: Sys, p: nat)
  {
    forall l :: l in s.entries && l.dir == p ==> AloneAt(s, l)
  }

  ghost predicate AloneAt(s: Sys, l: Loc)
    requires l in s.entries
  {
    s.entries[l].frame < |s.pmm.refs| && s.pmm.refs[s.entries[l].frame] == 1
  }

  // ---------- enough: nothing of p is shared ----------

  /** It is enough that no page of the parent is shared before the clone is made. */
  lemma {:induction false} CloneUsedRestored(s: Sys, steps: seq<CowStep>, p: nat, k: nat)
    requires p != k && SysInv(s) && Exact(s) && CloneRun(s, steps, p, k)
    requires NoneOf(s.entries, k) && AllAlone(s, p)
    ensures RunSys(s, steps).pmm.used == s.pmm.used
  {
    hide SysInv, Exact;
    forall l | l in s.entries && l.dir == p
      ensures Mappers(s.entries, s.entries[l].frame) == {l} && s.entries[l].frame !in s.lost
    {
      OneReference(s, l);
      assert AloneAt(s, l);
    }
    forall l, m | l in s.entries && m in s.entries && l.dir == p && m.dir == p &&
                  s.entries[l].frame == s.entries[m].frame
      ensures l == m
    {
      assert m in Mappers(s.entries, s.entries[l].frame);
    }
    StageStart(s.entries, s.lost.Keys, p, k);
    RunStage(s.entries, s, steps, p, k);
    forall l | l in s.entries && l.dir == p ensures l in RunSys(s, steps).entries {
      assert PageStage(s.entries, RunSys(s, steps).entries, s.lost.Keys, p, k, l);
    }
    CloneUsedRestoredIff(s, steps, p, k);
  }

  // ---------- enough: no page is free ----------

  /** Some other space than k maps the frame at l. */
  ghost predicate Borrows(entries: map<Loc, Entry>, k: nat, l: Loc)
    requires l in entries
  {
    exists m :: m in entries && m.dir != k && entries[m].frame == entries[l].frame
  }

  /** The clone k has no frame of its own. */
  ghost predicate Borrowed(entries: map<Loc, Entry>, k: nat)
  {
    forall l :: l in entries && l.dir == k ==> Borrows(entries, k, l)
  }

  lemma {:induction false} NothingFree(s: Sys, t: Sys)
    requires SysInv(s) && SysInv(t) && !CanAlloc(s) && t.pmm.owner == s.pmm.owner && t.pmm.used == s.pmm.used
    ensures !CanAlloc(t)
  {
    RoomAllocs(s.pmm);
    RoomAllocs(t.pmm);
  }

  /** A clone without frames of its own frees none when it drops an entry. */
  lemma {:induction false} DropBorrowed(s: Sys, at: Loc, k: nat)
    requires SysInv(s) && at in s.entries && at.dir == k && Borrowed(s.entries, k)
    ensures var t := DropEntry(s, at); t.pmm.owner == s.pmm.owner && t.pmm.used == s.pmm.used
  {
    var f := s.entries[at].frame;
    MappedOk(s.pmm, s.entries, s.data, at);
    assert Borrows(s.entries, k, at);
    var m :| m in s.entries && m.dir != k && s.entries[m].frame == f;
    PrivateAlone(s.pmm, s.entries, s.data, at, m);
    assert {at, m} <= Mappers(s.entries, f);
    TwoMappers(Mappers(s.entries, f), at, m);
  }

  lemma {:induction false} TwoMappers(a: set<Loc>, l: Loc, m: Loc)
    requires l in a && m in a && l != m
    ensures |a| >= 2
  {
    assert a == {l} + (a - {l});
    assert m in a - {l};
  }

  lemma {:induction false} BorrowedDrop(entries: map<Loc, Entry>, at: Loc, k: nat)
    requires Borrowed(entries, k) && at.dir == k
    ensures Borrowed(entries - {at}, k)
  {
    var entries' := entries - {at};
    forall l | l in entries' && l.dir == k ensures Borrows(entries', k, l) {
      assert Borrows(entries, k, l);
      var m :| m in entries && m.dir != k && entries[m].frame == entries[l].frame;
      assert m in entries';
    }
  }

  lemma {:induction false} BorrowedShare(entries: map<Loc, Entry>, src: Loc, dst: Loc, e: Entry, k: nat)
    requires Borrowed(entries, k) && src in entries && src.dir != k && dst.dir == k && e.frame == entries[src].frame
    ensures Borrowed(entries[src := e][dst := e], k)
  {
    var entries' := entries[src := e][dst := e];
    forall l | l in entries' && l.dir == k ensures Borrows(entries', k, l) {
      if l == dst {
        assert src in entries';
      } else {
        assert Borrows(entries, k, l);
        var m :| m in entries && m.dir != k && entries[m].frame == entries[l].frame;
        assert m in entries' && entries'[m].frame == entries[m].frame;
      }
    }
  }

  /** While no page is free, a step for the clone changes no page's owner. */
  lemma {:induction false} FullStep(s: Sys, st: CowStep, p: nat, k: nat)
    requires SysInv(s) && CowLegal(s, st) && ForCloneOf(st, p, k) && !CanAlloc(s) && Borrowed(s.entries, k)
    ensures var t := StepSys(s, st);
            t.pmm.owner == s.pmm.owner && t.pmm.used == s.pmm.used && Borrowed(t.entries, k)
  {
    match st
    case Share(src, dst) =>
      hide Inv, DataOk, Borrowed;
      BorrowedShare(s.entries, src, dst, s.entries[src].(rw := false, cow := true), k);
    case Write(at, offset, value) =>
    case Fault(at) =>
      hide Inv, DataOk, Borrowed, FaultEntry;
      FaultEntries(s, at);
    case Drop(at) =>
      hide Inv, DataOk, Borrowed, DropEntry;
      DropBorrowed(s, at, k);
      DropMapping(s, at);
      BorrowedDrop(s.entries, at, k);
    case _ =>
  }

  lemma {:induction false} FullRun(s: Sys, steps: seq<CowStep>, p: nat, k: nat)
    requires SysInv(s) && LegalSteps(s, steps) && !CanAlloc(s) && Borrowed(s.entries, k)
    requires forall i :: 0 <= i < |steps| ==> ForCloneOf(steps[i], p, k)
    ensures RunSys(s, steps).pmm.used == s.pmm.used
    decreases |steps|
  {
    hide SysInv, CowLegal, StepSys, CanAlloc, Borrowed;
    if steps != [] {
      RunHead(s, steps);
      FullStep(s, steps[0], p, k);
      NothingFree(s, StepSys(s, steps[0]));
      FullRun(StepSys(s, steps[0]), steps[1..], p, k);
    }
  }

  // ---------- needed ----------

  /** A write fault at a shared page while a page is free: the run that does not restore the counter. */
  lemma {:induction false} FaultStrands(s: Sys, p: nat, k: nat, l: Loc)
    requires p != k && SysInv(s) && Exact(s) && InjectiveIn(s.entries, p) && NoneOf(s.entries, k) && CanAlloc(s)
    requires l in s.entries && l.dir == p && !AloneAt(s, l)
    ensures CloneRun(s, [Fault(l)], p, k) && RunSys(s, [Fault(l)]).pmm.used != s.pmm.used
  {
    var steps := [Fault(l)];
    SharedCow(s, l);
    FaultRun(s, l);
    var t := FaultEntry(s, l);
    hide SysInv, Exact, CanAlloc, FaultEntry, LegalSteps, RunSys;
    FaultMapping(s, l);
    NoneAfterFault(s.entries, t.entries, l, k);
    FaultMoves(s, l);
    CloneUsedRestoredIff(s, steps, p, k);
  }

  lemma {:induction false} SharedCow(s: Sys, l: Loc)
    requires SysInv(s) && l in s.entries && !AloneAt(s, l)
    ensures s.entries[l].cow
  {
    assert EntryOk(s.pmm, s.entries, s.data, l);
  }

  lemma {:induction false} FaultRun(s: Sys, l: Loc)
    requires SysInv(s) && l in s.entries && s.entries[l].cow
    ensures LegalSteps(s, [Fault(l)]) && RunSys(s, [Fault(l)]) == FaultEntry(s, l)
  {
    hide Inv, DataOk, FaultEntry;
    FaultSound(s, l);
    assert [Fault(l)][1..] == [];
  }

  lemma {:induction false} FaultMoves(s: Sys, l: Loc)
    requires SysInv(s) && Exact(s) && l in s.entries && CanAlloc(s) && !AloneAt(s, l)
    ensures l in FaultEntry(s, l).entries
    ensures !KeptOrAlone(s.entries, FaultEntry(s, l).entries, s.lost.Keys, l)
  {
    OneReference(s, l);
    MappedOk(s.pmm, s.entries, s.data, l);
    hide SysInv, FaultEntry, AllocOrder;
    FaultEntries(s, l);
    NewFrame(s);
  }

  lemma {:induction false} NoneAfterFault(entries: map<Loc, Entry>, entries': map<Loc, Entry>, l: Loc, k: nat)
    requires NoneOf(entries, k) && SameBut(entries, entries', l) && l.dir != k
    ensures NoneOf(entries', k)
  {
    forall m | m in entries' ensures m.dir != k {
      assert m != l ==> SameLoc(entries, entries', m);
    }
  }

  /** Making a clone of p, letting both write and tearing the clone down restores the used-page counter whatever the
      run, exactly when, before the clone is made, no page is free or every page of p is in a frame with a single
      reference. */
  lemma {:induction false} AlwaysRestoredIff(s: Sys, p: nat, k: nat)
    requires p != k && SysInv(s) && Exact(s) && InjectiveIn(s.entries, p) && NoneOf(s.entries, k)
    ensures AlwaysRestored(s, p, k) <==> !CanAlloc(s) || AllAlone(s, p)
  {
    hide DataOk, Exact, CanAlloc, LegalSteps, RunSys;
    if !CanAlloc(s) || AllAlone(s, p) {
      forall steps: seq<CowStep> | CloneRun(s, steps, p, k) ensures RunSys(s, steps).pmm.used == s.pmm.used {
        if AllAlone(s, p) {
          CloneUsedRestored(s, steps, p, k);
        } else {
          FullRun(s, steps, p, k);
        }
      }
    } else {
      var l :| l in s.entries && l.dir == p && !AloneAt(s, l);
      FaultStrands(s, p, k, l);
    }
  }
}
