/**
 * A clone that does not give back what it took: a page of the parent is already shared with a third space, the parent
 * writes to it while the clone lives, and the clone is torn down. The third space keeps the old frame and the parent
 * the new one, so one page more is in use than before the clone.
 */
module CowExample {
  import opened Blocks
  import opened BuddyOwners
  import opened BuddyState
  import opened BuddyRuns
  import opened CowMachine
  import opened CowRuns
  import opened CowConservation

  const PARENT: nat := 1
  const THIRD: nat := 2
  const CLONE: nat := 3

  /** Two reserved pages and one free block of two pages. */
  function FourPages(): Pmm
  {
    Pmm([Reserved, Reserved, Owner.Free(2, 1), Owner.Free(2, 1)],
        [[], [2], [], [], [], [], [], [], [], [], []], [0, 0, 0, 0], 2)
  }

  lemma {:induction false} FourPagesTiled()
    ensures Tiled(FourPages().owner)
  {
    var s := FourPages().owner;
    assert Pow2(1) == 2 && Aligned(2, 1);
    forall p | 0 <= p < |s| && Managed(s[p]) ensures In(p, s[p]) && BlockOk(s, s[p]) {
      assert s[p] == Owner.Free(2, 1);
    }
  }

  lemma {:induction false} FourPagesOwners()
    ensures OwnersOk(FourPages().owner)
  {
    var s := FourPages().owner;
    FourPagesTiled();
    forall p: nat, k: nat ensures Lonely(s, p, k) {
      if FreeHead(s, p, k) {
        assert p == 2 && k == 1;
        BuddyOfTwo();
      }
    }
  }

  lemma {:induction false} BuddyOfTwo()
    ensures Buddy(2, 1) == 0
  {
    assert Pow2(1) == 2;
  }

  lemma {:induction false} FourPagesLists()
    ensures ListsMatch(FourPages().owner, FourPages().lists)
  {
    var p := FourPages();
    forall k: nat | k <= MAX_ORDER ensures ListMatches(p.owner, p.lists[k], k) {
      forall h: nat ensures h in p.lists[k] <==> FreeHead(p.owner, h, k) {
        assert k != 1 ==> p.lists[k] == [];
      }
    }
  }

  lemma {:induction false} FourPagesInv()
    ensures Inv(FourPages())
  {
    var p := FourPages();
    FourPagesOwners();
    FourPagesLists();
    assert FreePages(p.owner) == {2, 3};
    assert Holes(p.owner) == {};
  }

  /** No user pages yet. */
  lemma {:induction false} StartInv(s: Sys)
    requires s == Sys(FourPages(), map[], map[], map[])
    ensures SysInv(s) && Exact(s) && Spare(s, 2) && Spare(s, 3) && |s.pmm.lists| == MAX_ORDER + 1
  {
    FourPagesInv();
  }

  /** Page h is free, so an allocation finds memory. */
  predicate Spare(s: Sys, h: nat)
  {
    h < |s.pmm.owner| && s.pmm.owner[h].Free?
  }

  lemma {:induction false} SpareAllocs(s: Sys, h: nat)
    requires SysInv(s) && Spare(s, h)
    ensures CanAlloc(s)
  {
    assert Pow2(0) == 1;
    assert FreeRun(s.pmm, h, 0);
    AllocComplete(s.pmm, 0);
  }

  /** The parent's page, shared with a third space. */
  ghost predicate Shared(s: Sys, f: nat, h: nat)
  {
    && SysInv(s) && Exact(s) && Spare(s, h) && s.lost == map[]
    && s.entries == map[Loc(PARENT, 0) := Entry(f, false, true), Loc(THIRD, 0) := Entry(f, false, true)]
  }

  lemma {:induction false} MakeShared() returns (s: Sys, f: nat, h: nat)
    ensures Shared(s, f, h)
  {
    hide SysInv, Exact, FourPages, Spare, FreshEntry, ShareEntry, CanAlloc, CowLegal;
    var s0 := Sys(FourPages(), map[], map[], map[]);
    StartInv(s0);
    SpareAllocs(s0, 2);
    var p0, q0 := Loc(PARENT, 0), Loc(THIRD, 0);
    f, h := Fresh(s0, p0, 2, 3);
    var s1 := FreshEntry(s0, p0, ZeroPage());
    Share1(s1, p0, q0, f);
    s := ShareEntry(s1, p0, q0);
  }

  /** One page is taken; of two free pages one is left. */
  lemma {:induction false} Fresh(s: Sys, l: Loc, a: nat, b: nat) returns (f: nat, h: nat)
    requires SysInv(s) && Exact(s) && CanAlloc(s) && l !in s.entries && Spare(s, a) && Spare(s, b) && a != b
    ensures var t := FreshEntry(s, l, ZeroPage());
            && SysInv(t) && Exact(t) && Spare(t, h) && t.entries == s.entries[l := Entry(f, true, false)]
            && t.lost == s.lost
            && f < |t.pmm.refs| && t.pmm.refs[f] == 1 && f !in s.data
  {
    FreshSound(s, l, ZeroPage());
    AllocPageFacts(s.pmm);
    f := AllocOrder(s.pmm, 0).1;
    h := if f == a then b else a;
    assert f in s.data ==> FrameOk(s.pmm, s.entries, f);
  }

  lemma {:induction false} Share1(s: Sys, src: Loc, dst: Loc, f: nat)
    requires SysInv(s) && Exact(s) && src in s.entries && s.entries[src].frame == f && dst !in s.entries && src != dst
    requires f < |s.pmm.refs| && s.pmm.refs[f] < 10
    ensures CowLegal(s, Share(src, dst))
    ensures var t := ShareEntry(s, src, dst);
            && SysInv(t) && Exact(t) && t == StepSys(s, Share(src, dst)) && t.lost == s.lost
            && t.entries == s.entries[src := Entry(f, false, true)][dst := Entry(f, false, true)]
            && (forall h: nat :: Spare(s, h) ==> Spare(t, h))
            && f < |t.pmm.refs| && t.pmm.refs[f] == s.pmm.refs[f] + 1
  {
    ShareSound(s, src, dst);
  }

  /** The run that loses a page: share, fault, drop. */
  function Losing(): seq<CowStep>
  {
    [Share(Loc(PARENT, 0), Loc(CLONE, 0)), Fault(Loc(PARENT, 0)), Drop(Loc(CLONE, 0))]
  }

  /** A run of a clone of the parent that does not restore the used pages. */
  ghost predicate NotRestored(s: Sys, steps: seq<CowStep>)
  {
    && SysInv(s) && Exact(s) && LegalSteps(s, steps) && InjectiveIn(s.entries, PARENT)
    && (forall i :: 0 <= i < |steps| ==> ForCloneOf(steps[i], PARENT, CLONE))
    && NoneOf(s.entries, CLONE) && NoneOf(RunSys(s, steps).entries, CLONE)
    && RunSys(s, steps).pmm.used != s.pmm.used
  }

  /** The state after the parent's fault. */
  lemma {:induction false} FaultMoves(s: Sys, at: Loc, f: nat, h: nat)
    requires SysInv(s) && Exact(s) && at in s.entries && s.entries[at] == Entry(f, false, true) && Spare(s, h)
    ensures CowLegal(s, Fault(at))
    ensures var t := FaultEntry(s, at);
            && SysInv(t) && t == StepSys(s, Fault(at)) && at in t.entries && t.entries[at].frame != f
            && t.entries == s.entries[at := t.entries[at]]
  {
    SpareAllocs(s, h);
    FaultSound(s, at);
    FaultEntries(s, at);
    NewFrame(s);
    MappedOk(s.pmm, s.entries, s.data, at);
  }

  lemma {:induction false} LosingRun(s: Sys, f: nat, h: nat) returns (t: Sys)
    requires Shared(s, f, h) && f < |s.pmm.refs| && s.pmm.refs[f] == 2
    ensures LegalSteps(s, Losing()) && t == RunSys(s, Losing()) && SysInv(t)
    ensures t.entries.Keys == {Loc(PARENT, 0), Loc(THIRD, 0)} && t.entries[Loc(PARENT, 0)].frame != f
  {
    hide SysInv, Exact, StepSys, CowLegal, Spare;
    var p0, k0 := Loc(PARENT, 0), Loc(CLONE, 0);
    Share1(s, p0, k0, f);
    var s1 := StepSys(s, Share(p0, k0));
    FaultMoves(s1, p0, f, h);
    var s2 := StepSys(s1, Fault(p0));
    DropOne(s2, k0);
    t := StepSys(s2, Drop(k0));
    ThreeSteps(s, Share(p0, k0), Fault(p0), Drop(k0));
  }

  lemma {:induction false} DropOne(s: Sys, at: Loc)
    requires SysInv(s) && at in s.entries
    ensures CowLegal(s, Drop(at)) && SysInv(StepSys(s, Drop(at))) && StepSys(s, Drop(at)).entries == s.entries - {at}
  {
    DropSound(s, at);
    MappedOk(s.pmm, s.entries, s.data, at);
  }

  lemma {:induction false} ThreeSteps(s: Sys, a: CowStep, b: CowStep, c: CowStep)
    requires SysInv(s) && CowLegal(s, a) && SysInv(StepSys(s, a)) && CowLegal(StepSys(s, a), b)
    requires SysInv(StepSys(StepSys(s, a), b)) && CowLegal(StepSys(StepSys(s, a), b), c)
    requires SysInv(StepSys(StepSys(StepSys(s, a), b), c))
    ensures LegalSteps(s, [a, b, c]) && RunSys(s, [a, b, c]) == StepSys(StepSys(StepSys(s, a), b), c)
  {
    hide SysInv, CowLegal, StepSys;
    assert [a, b, c][1..] == [b, c] && [b, c][1..] == [c] && [c][1..] == [];
    var s1 := StepSys(s, a);
    var s2 := StepSys(s1, b);
    var s3 := StepSys(s2, c);
    assert LegalSteps(s3, []) && RunSys(s3, []) == s3;
    assert LegalSteps(s2, [c]) && RunSys(s2, [c]) == s3;
    assert LegalSteps(s1, [b, c]) && RunSys(s1, [b, c]) == s3;
  }

  /** The clone of a space and its teardown do not always restore the used pages. */
  lemma {:induction false} CloneUsedNotRestored()
    ensures exists s: Sys, steps: seq<CowStep> :: NotRestored(s, steps)
  {
    hide Shared, NotRestored;
    var s, f, h := MakeShared();
    SharedTwice(s, f, h);
    Loses(s, f, h);
  }

  lemma {:induction false} Loses(s: Sys, f: nat, h: nat)
    requires Shared(s, f, h) && f < |s.pmm.refs| && s.pmm.refs[f] == 2
    ensures NotRestored(s, Losing())
  {
    hide SysInv, Exact, LegalSteps, RunSys, Spare;
    var t := LosingRun(s, f, h);
    assert Loc(THIRD, 0) in Mappers(s.entries, f);
    assert !KeptOrAlone(s.entries, t.entries, s.lost.Keys, Loc(PARENT, 0));
    CloneUsedRestoredIff(s, Losing(), PARENT, CLONE);
  }

  lemma {:induction false} SharedTwice(s: Sys, f: nat, h: nat)
    requires Shared(s, f, h)
    ensures f < |s.pmm.refs| && s.pmm.refs[f] == 2
  {
    MappedOk(s.pmm, s.entries, s.data, Loc(PARENT, 0));
    assert Mappers(s.entries, f) == {Loc(PARENT, 0), Loc(THIRD, 0)};
    assert ExactAt(s.pmm, s.entries, s.lost, f);
  }
}
