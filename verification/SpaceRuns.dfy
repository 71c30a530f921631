/** Clone, use and teardown on the code itself: what a space that comes and goes gives back. */
module SpaceRuns {
  import opened BuddyOwners
  import opened BuddyState
  import opened CowMachine
  import opened CowConservation
  import opened CowRestored
  import opened PageTables
  import opened PageAllocator
  import opened SpaceFrames
  import opened SpaceMemory
  import opened Paging

  /** What a program does with memory: a write, or an access that only makes its page private. */
  datatype Access =
    | UserWrite(byClone: bool, addr: nat, value: int)
    | UserFault(byClone: bool, addr: nat)

  /** The addresses are 32-bit ones. */
  predicate InRange(accesses: seq<Access>)
  {
    forall i :: 0 <= i < |accesses| ==> accesses[i].addr / PAGE_BYTES / SLOTS < SLOTS
  }

  /** None of the accesses is the parent's. */
  predicate ByClone(accesses: seq<Access>)
  {
    forall i :: 0 <= i < |accesses| ==> accesses[i].byClone
  }

  /** Memory reads the same outside the two spaces, and outside k alone if `alone`. */
  ghost predicate SameReads(m: map<Loc, Page>, m': map<Loc, Page>, p: nat, k: nat, alone: bool)
  {
    forall l: Loc :: l.dir != k && (alone || l.dir != p) ==> SamePageAt(m, m', l)
  }

  /** How far a run with the clone k of p has come from the mapping e0: third spaces map what they mapped, and so does
      p if only the clone acted. */
  ghost predicate Progress(e0: map<Loc, Entry>, e: map<Loc, Entry>, held: set<nat>, p: nat, k: nat, alone: bool)
  {
    CloneStage(e0, e, held, p, k) && (alone ==> SameOutsideOf(e0, e, k))
  }

  lemma {:induction false} ProgressStart(e0: map<Loc, Entry>, e: map<Loc, Entry>, held: set<nat>, p: nat, k: nat)
    requires p != k && InjectiveIn(e0, p) && SameOutsideOf(e0, e, k)
    ensures Progress(e0, e, held, p, k, true)
  {
    StageStart(e0, held, p, k);
    StageOther(e0, e0, e, held, p, k);
  }

  /** A page of p or of k moves to a new frame. */
  lemma {:induction false} ProgressMoved(e0: map<Loc, Entry>, s: Sys, e: map<Loc, Entry>, p: nat, k: nat, at: Loc,
                                         alone: bool)
    requires SysInv(s) && Exact(s) && p != k && Progress(e0, s.entries, s.lost.Keys, p, k, alone)
    requires (at.dir == p || at.dir == k) && SameBut(s.entries, e, at) && Moved(s.entries, s.data, e, at)
    ensures Progress(e0, e, s.lost.Keys, p, k, alone && at.dir == k)
  {
    hide SysInv, Exact, CloneStage, SameOutsideOf;
    SysMapped(s);
    LostHeld(s);
    if at.dir == p {
      StageFault(e0, s.entries, s.data, e, s.lost.Keys, p, k, at);
    } else {
      ButOutside(s.entries, e, at);
      StageOther(e0, s.entries, e, s.lost.Keys, p, k);
      if alone {
        OutsideTrans(e0, s.entries, e, k);
      }
    }
  }

  lemma {:induction false} ButOutside(e: map<Loc, Entry>, e': map<Loc, Entry>, at: Loc)
    requires SameBut(e, e', at)
    ensures SameOutsideOf(e, e', at.dir)
  {
    forall l: Loc | l.dir != at.dir ensures SameLoc(e, e', l) {
    }
  }

  lemma {:induction false} ProgressWeaker(e0: map<Loc, Entry>, e: map<Loc, Entry>, held: set<nat>, p: nat, k: nat,
                                          alone: bool, b: bool)
    requires Progress(e0, e, held, p, k, alone)
    ensures Progress(e0, e, held, p, k, alone && b)
  {
  }

  ghost predicate ReadsBut(m: map<Loc, Page>, m': map<Loc, Page>, at: Loc)
  {
    forall l: Loc :: l != at ==> SamePageAt(m, m', l)
  }

  /** A write to one page of p or of k. */
  lemma {:induction false} ReadsWritten(m0: map<Loc, Page>, m: map<Loc, Page>, m': map<Loc, Page>, p: nat, k: nat,
                                        at: Loc, alone: bool)
    requires SameReads(m0, m, p, k, alone) && (at.dir == p || at.dir == k)
    requires ReadsBut(m, m', at)
    ensures SameReads(m0, m', p, k, alone && at.dir == k)
  {
    forall l: Loc | l.dir != k && ((alone && at.dir == k) || l.dir != p) ensures SamePageAt(m0, m', l) {
      assert SamePageAt(m0, m, l) && SamePageAt(m, m', l);
    }
  }

  /** One access in the current space. At most the page at the address changes, or moves to a new frame. */
  method Touch(spaces: AddressSpaces, a: Access) returns (ok: bool)
    requires spaces.Valid() && spaces.current in spaces.dirs && a.addr / PAGE_BYTES / SLOTS < SLOTS
    modifies spaces`tables, spaces`data, spaces`entries, spaces.pmm.Repr()
    ensures spaces.Valid()
    ensures var at := Loc(spaces.current, a.addr / PAGE_BYTES);
            && ReadsBut(old(spaces.Memory()), spaces.Memory(), at)
            && (if ok then SameBut(old(spaces.entries), spaces.entries, at) &&
                           Moved(old(spaces.entries), old(spaces.data), spaces.entries, at)
                else spaces.entries == old(spaces.entries))
  {
    hide SysInv, Exact, Contents, Wired, Agrees, Backed, CanAlloc, SameBut, Moved, Others, Allocator.Valid;
    match a {
      case UserWrite(_, addr, value) => ok := spaces.Store(addr, value);
      case UserFault(_, addr) => ok := spaces.HandleCowFault(addr);
    }
  }

  /** One access of the parent p or of its clone k. */
  method Perform(spaces: AddressSpaces, p: nat, k: nat, a: Access, ghost e0: map<Loc, Entry>, ghost m0: map<Loc, Page>,
                 ghost alone: bool)
    requires spaces.Valid() && p in spaces.dirs && k in spaces.dirs && p != k
    requires a.addr / PAGE_BYTES / SLOTS < SLOTS
    requires Progress(e0, spaces.entries, spaces.lost.Keys, p, k, alone)
    requires SameReads(m0, spaces.Memory(), p, k, alone)
    modifies spaces`current, spaces`tables, spaces`data, spaces`entries, spaces.pmm.Repr()
    ensures spaces.Valid()
    ensures Progress(e0, spaces.entries, spaces.lost.Keys, p, k, alone && a.byClone)
    ensures SameReads(m0, spaces.Memory(), p, k, alone && a.byClone)
  {
    hide AddressSpaces.Layout, Wired, Agrees, Accounted, SysInv, Exact, Contents, SameBut, Moved, ReadsBut, Progress,
         SameReads, Allocator.Valid;
    spaces.Balanced(spaces.dirs, spaces.tables);
    spaces.current := if a.byClone then k else p;
    ghost var at := Loc(spaces.current, a.addr / PAGE_BYTES);
    ghost var s, m := spaces.Abs(), spaces.Memory();
    var ok := Touch(spaces, a);
    spaces.Balanced(spaces.dirs, spaces.tables);
    ReadsWritten(m0, m, spaces.Memory(), p, k, at, alone);
    if ok {
      ProgressMoved(e0, s, spaces.entries, p, k, at, alone);
    } else {
      ProgressWeaker(e0, spaces.entries, spaces.lost.Keys, p, k, alone, a.byClone);
    }
  }

  /** All accesses in turn. */
  method PerformAll(spaces: AddressSpaces, p: nat, k: nat, accesses: seq<Access>, ghost e0: map<Loc, Entry>,
                    ghost m0: map<Loc, Page>)
    requires spaces.Valid() && p in spaces.dirs && k in spaces.dirs && p != k
    requires InRange(accesses)
    requires Progress(e0, spaces.entries, spaces.lost.Keys, p, k, true) && SameReads(m0, spaces.Memory(), p, k, true)
    modifies spaces`current, spaces`tables, spaces`data, spaces`entries, spaces.pmm.Repr()
    ensures spaces.Valid()
    ensures Progress(e0, spaces.entries, spaces.lost.Keys, p, k, ByClone(accesses))
    ensures SameReads(m0, spaces.Memory(), p, k, ByClone(accesses))
  {
    hide AddressSpaces.Layout, Wired, Agrees, Accounted, SysInv, Exact, Contents, Progress, SameReads, ByClone,
         Allocator.Valid;
    spaces.Balanced(spaces.dirs, spaces.tables);
    ByCloneNone(accesses);
    for i := 0 to |accesses|
      invariant spaces.Valid() && spaces.Flat()
      invariant Progress(e0, spaces.entries, spaces.lost.Keys, p, k, ByClone(accesses[..i]))
      invariant SameReads(m0, spaces.Memory(), p, k, ByClone(accesses[..i]))
    {
      ByCloneNext(accesses, i);
      Perform(spaces, p, k, accesses[i], e0, m0, ByClone(accesses[..i]));
      spaces.Balanced(spaces.dirs, spaces.tables);
    }
    assert accesses[..|accesses|] == accesses;
  }

  lemma {:induction false} ByCloneNone(accesses: seq<Access>)
    ensures ByClone(accesses[..0])
  {
  }

  lemma {:induction false} ByCloneNext(accesses: seq<Access>, i: nat)
    requires i < |accesses|
    ensures ByClone(accesses[..i + 1]) <==> ByClone(accesses[..i]) && accesses[i].byClone
  {
    assert accesses[..i + 1] == accesses[..i] + [accesses[i]];
  }

  /** Reference counts, used pages and the blocks of every free list are as before. */
  ghost predicate Restored(p: Pmm, p': Pmm)
  {
    && p'.refs == p.refs && p'.used == p.used && |p.lists| == |p'.lists| == MAX_ORDER + 1
    && forall o: nat, h: nat :: o <= MAX_ORDER ==> (h in p'.lists[o] <==> h in p.lists[o])
  }

  lemma {:induction false} NoDirNoEntry(dirs: Dirs, tables: Tables, entries: map<Loc, Entry>, d: nat)
    requires Agrees(dirs, tables, entries) && d !in dirs
    ensures NoneOf(entries, d)
  {
    forall l | l in entries ensures l.dir != d {
      assert AgreeAt(dirs, tables, entries, l);
    }
  }

  lemma {:induction false} AgreesInjective(dirs: Dirs, tables: Tables, entries: map<Loc, Entry>, d: nat)
    requires Agrees(dirs, tables, entries)
    ensures InjectiveIn(entries, d)
  {
    SpacesInjective(entries, d);
  }

  lemma {:induction false} SameDirsTables(dirs: Dirs, tables: Tables, tables': Tables)
    requires Wired(dirs, tables) && Wired(dirs, tables')
    ensures tables.Keys == tables'.Keys
  {
    forall t ensures t in tables <==> t in tables' {
      if t in tables || t in tables' {
        assert Hung(dirs, t);
        var d: nat, i: nat :| HasTable(dirs, d, i) && dirs[d][i].frame == t;
        assert SlotOk(dirs, tables, d, i) && SlotOk(dirs, tables', d, i);
      }
    }
  }

  /** The state after the clone is gone, from the state before it was made. */
  lemma {:induction false} GivenBack(rest: Rest, s: Sys, dirs: Dirs, tables: Tables, t: Sys, tables': Tables, p: nat,
                                     k: nat, alone: bool)
    requires Accounted(rest, s, dirs, tables) && Accounted(rest, t, dirs, tables') && |s.pmm.owner| == |t.pmm.owner|
    requires Wired(dirs, tables) && Wired(dirs, tables') && Exact(s) && Exact(t) && t.lost == s.lost
    requires p != k && InjectiveIn(s.entries, p) && Progress(s.entries, t.entries, s.lost.Keys, p, k, alone)
    requires NoneOf(s.entries, k) && NoneOf(t.entries, k)
    ensures tables.Keys == tables'.Keys
    ensures t.pmm.used == s.pmm.used + |Stranded(s.entries, t.entries, s.lost.Keys, p)|
    ensures alone ==> Restored(s.pmm, t.pmm) && SameMapping(s.entries, t.entries)
  {
    hide Accounted, Wired, Exact, InjectiveIn, NoneOf, Stranded, CloneStage, SameOutsideOf, SameMapping;
    SameDirsTables(dirs, tables, tables');
    SpacesKernel(rest, s, dirs, tables, t, dirs, tables');
    AccountedInv(rest, s, dirs, tables);
    AccountedInv(rest, t, dirs, tables');
    UsedGrows(s, t, p, k);
    if alone {
      CloneGone(s.entries, t.entries, k);
      SameMappingSameMemory(s, t);
    }
  }

  lemma {:induction false} AccountedInv(rest: Rest, s: Sys, dirs: Dirs, tables: Tables)
    requires Accounted(rest, s, dirs, tables)
    ensures SysInv(s) && |s.pmm.lists| == MAX_ORDER + 1
  {
  }

  lemma {:induction false} ProgressGone(e0: map<Loc, Entry>, e1: map<Loc, Entry>, e2: map<Loc, Entry>, held: set<nat>,
                                        p: nat, k: nat, alone: bool)
    requires p != k && Progress(e0, e1, held, p, k, alone) && SameOutsideOf(e1, e2, k)
    ensures Progress(e0, e2, held, p, k, alone)
  {
    hide CloneStage, SameOutsideOf;
    StageOther(e0, e1, e2, held, p, k);
    if alone {
      OutsideTrans(e0, e1, e2, k);
    }
  }

  /** Making the clone changes what nobody else reads. */
  lemma {:induction false} CloneReads(m: map<Loc, Page>, dirs: Dirs, p: nat, k: nat, base: nat, size: nat)
    requires p != k
    ensures SameReads(m, CloneSlots(m, dirs, p, k, USER_END, base, size), p, k, true)
  {
    var r := CloneSlots(m, dirs, p, k, USER_END, base, size);
    forall l: Loc | l.dir != k ensures SamePageAt(m, r, l) {
      CloneSlotsAt(m, dirs, p, k, USER_END, base, size, l);
    }
  }

  lemma {:induction false} SameReadsRefl(m: map<Loc, Page>, p: nat, k: nat)
    ensures SameReads(m, m, p, k, true)
  {
  }

  /** Once the clone is gone, nothing but the parent's own writes is left. */
  lemma {:induction false} ReadsGone(s: Sys, m: map<Loc, Page>, p: nat, k: nat, alone: bool)
    requires SysInv(s) && NoneOf(s.entries, k) && SameReads(Contents(s), m, p, k, alone)
    ensures SameOthers(Contents(s), WithoutSpace(m, k), p)
    ensures alone ==> WithoutSpace(m, k) == Contents(s)
  {
    hide SysInv, Contents, WithoutSpace;
    var m0, m1 := Contents(s), WithoutSpace(m, k);
    forall l: Loc | l.dir != p || alone ensures SamePageAt(m0, m1, l) {
      WithoutSpaceAt(m, k, l);
      MemoryKeys(s, l);
    }
    if alone {
      SameMaps(m0, m1);
    }
  }

  /** Memory reads the same outside p. */
  ghost predicate SameOthers(m: map<Loc, Page>, m': map<Loc, Page>, p: nat)
  {
    forall l: Loc :: l.dir != p ==> SamePageAt(m, m', l)
  }

  /** Clone a space, let the parent and the clone write and fault as they like, and tear the clone down. Directories
      and tables are as before, third spaces read and map what they did, and the used pages have grown by the number of
      parent pages that left a frame shared with a third space. Without accesses of the parent, memory, every
      reference count, the used pages and the blocks of every free list are as before. */
  method CloneUseDestroy(spaces: AddressSpaces, src: nat, usermode: bool, base: nat, size: nat, accesses: seq<Access>)
    returns (ok: bool)
    requires spaces.Valid() && src in spaces.dirs && InRange(accesses)
    modifies spaces`dirs, spaces`tables, spaces`data, spaces`entries, spaces`current, spaces.pmm.Repr()
    ensures !ok ==> spaces.Stuck()
    ensures ok ==> spaces.Valid()
    ensures ok ==> spaces.dirs == old(spaces.dirs) && spaces.tables.Keys == old(spaces.tables).Keys
    ensures ok ==> SameOutsideOf(old(spaces.entries), spaces.entries, src)
    ensures ok ==> SameOthers(old(spaces.Memory()), spaces.Memory(), src)
    ensures ok ==> spaces.pmm.used == old(spaces.pmm.used) +
                     |Stranded(old(spaces.entries), spaces.entries, spaces.lost.Keys, src)|
    ensures ok && AllAlone(old(spaces.Abs()), src) ==> spaces.pmm.used == old(spaces.pmm.used)
    ensures ok && ByClone(accesses) ==>
              && Restored(old(spaces.pmm.Abs()), spaces.pmm.Abs()) && spaces.Memory() == old(spaces.Memory())
              && SameMapping(old(spaces.entries), spaces.entries)
  {
    hide AddressSpaces.Layout, SysInv, Exact, Contents, Progress, SameReads, SameOthers, Agrees, Wired, Accounted,
         InjectiveIn, NoneOf, Stranded, SameOutsideOf, SameMapping, AllAlone, Restored, WithoutSpace, TablesOf,
         Untouched, ByClone, InRange, Allocator.Valid;
    spaces.Balanced(spaces.dirs, spaces.tables);
    ghost var s, m, dirs, tables := spaces.Abs(), spaces.Memory(), spaces.dirs, spaces.tables;
    var dst: nat;
    ok, dst := CloneAndUse(spaces, src, usermode, base, size, accesses);
    if !ok {
      return;
    }
    spaces.Balanced(spaces.dirs, spaces.tables);
    ghost var e1, m1 := spaces.entries, spaces.Memory();
    spaces.Destroy(dst);
    spaces.Balanced(spaces.dirs, spaces.tables);
    AfterUse(spaces.rest, s, dirs, tables, spaces.Abs(), spaces.tables, e1, m1, src, dst, ByClone(accesses));
  }

  /** Make the clone and let both spaces run. */
  method CloneAndUse(spaces: AddressSpaces, src: nat, usermode: bool, base: nat, size: nat, accesses: seq<Access>)
    returns (ok: bool, dst: nat)
    requires spaces.Valid() && src in spaces.dirs && InRange(accesses)
    modifies spaces`dirs, spaces`tables, spaces`data, spaces`entries, spaces`current, spaces.pmm.Repr()
    ensures !ok ==> spaces.Stuck()
    ensures ok ==> spaces.Valid() && dst in spaces.dirs && dst != src
    ensures ok ==> spaces.dirs - {dst} == old(spaces.dirs)
    ensures ok ==> NoneOf(old(spaces.entries), dst) && InjectiveIn(old(spaces.entries), src)
    ensures ok ==> Progress(old(spaces.entries), spaces.entries, spaces.lost.Keys, src, dst, ByClone(accesses))
    ensures ok ==> SameReads(old(spaces.Memory()), spaces.Memory(), src, dst, ByClone(accesses))
  {
    hide AddressSpaces.Layout, SysInv, Exact, Contents, Progress, SameReads, Agrees, Wired, Accounted, InjectiveIn,
         NoneOf, SameOutsideOf, CloneSlots, TablesOf, Untouched, ByClone, InRange, Allocator.Valid;
    spaces.Balanced(spaces.dirs, spaces.tables);
    ghost var s, m, dirs, tables := spaces.Abs(), spaces.Memory(), spaces.dirs, spaces.tables;
    AgreesInjective(dirs, tables, s.entries, src);
    ok, dst := spaces.CloneDirectory(src, usermode, base, size);
    if !ok {
      return;
    }
    NoDirNoEntry(dirs, tables, s.entries, dst);
    ProgressStart(s.entries, spaces.entries, s.lost.Keys, src, dst);
    CloneReads(m, dirs, src, dst, base, size);
    SameReadsRefl(m, src, dst);
    PerformAll(spaces, src, dst, accesses, s.entries, m);
  }

  lemma {:induction false} AfterUse(rest: Rest, s: Sys, dirs: Dirs, tables: Tables, t: Sys, tables': Tables,
                                    e1: map<Loc, Entry>, m1: map<Loc, Page>, p: nat, k: nat, alone: bool)
    requires Accounted(rest, s, dirs, tables) && Accounted(rest, t, dirs, tables') && |s.pmm.owner| == |t.pmm.owner|
    requires Wired(dirs, tables) && Wired(dirs, tables') && SysInv(s) && SysInv(t) && Exact(s) && Exact(t)
    requires p != k && InjectiveIn(s.entries, p) && Progress(s.entries, e1, s.lost.Keys, p, k, alone)
    requires t.lost == s.lost
    requires NoneOf(s.entries, k) && NoneOf(t.entries, k) && SameOutsideOf(e1, t.entries, k)
    requires SameReads(Contents(s), m1, p, k, alone) && Contents(t) == WithoutSpace(m1, k)
    ensures tables.Keys == tables'.Keys && SameOutsideOf(s.entries, t.entries, p)
    ensures SameOthers(Contents(s), Contents(t), p)
    ensures t.pmm.used == s.pmm.used + |Stranded(s.entries, t.entries, s.lost.Keys, p)|
    ensures AllAlone(s, p) ==> t.pmm.used == s.pmm.used
    ensures alone ==> Restored(s.pmm, t.pmm) && SameMapping(s.entries, t.entries) && Contents(t) == Contents(s)
  {
    hide *;
    ProgressGone(s.entries, e1, t.entries, s.lost.Keys, p, k, alone);
    ReadsGone(s, m1, p, k, alone);
    GivenBack(rest, s, dirs, tables, t, tables', p, k, alone);
    ThirdsKept(s.entries, t.entries, s.lost.Keys, p, k, alone);
    NoneLost(s, t.entries, p);
  }

  lemma {:induction false} ThirdsKept(e0: map<Loc, Entry>, e: map<Loc, Entry>, held: set<nat>, p: nat, k: nat,
                                      alone: bool)
    requires Progress(e0, e, held, p, k, alone) && NoneOf(e0, k) && NoneOf(e, k)
    ensures SameOutsideOf(e0, e, p)
  {
    forall l: Loc | l.dir != p ensures SameLoc(e0, e, l) {
    }
  }

  lemma {:induction false} NoneLost(s: Sys, e: map<Loc, Entry>, p: nat)
    requires SysInv(s) && Exact(s)
    ensures AllAlone(s, p) ==> |Stranded(s.entries, e, s.lost.Keys, p)| == 0
  {
    hide SysInv, Exact;
    if AllAlone(s, p) {
      forall l | l in s.entries && l in e && l.dir == p ensures KeptOrAlone(s.entries, e, s.lost.Keys, l) {
        assert AloneAt(s, l);
        OneReference(s, l);
      }
      assert Stranded(s.entries, e, s.lost.Keys, p) == {};
    }
  }
}
