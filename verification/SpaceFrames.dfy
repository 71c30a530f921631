/** The frames behind address spaces: directories and tables in frames of their own, user data in others, and the
    rest of the kernel's pages, which address spaces never touch. */
module SpaceFrames {
  import opened BuddyOwners
  import opened BuddyState
  import opened BuddyRuns
  import opened CowMachine
  import opened CowRuns
  import opened CowConservation
  import opened PageTables
  import opened SpaceMemory

  /** Frame f holds a directory or a table: a live page with one reference and no user data. */
  ghost predicate HoldsFrame(p: Pmm, data: map<nat, Page>, f: nat)
  {
    f < |p.owner| && f < |p.refs| && p.owner[f] == Live(f, 0) && p.refs[f] == 1 && f !in data
  }

  datatype PageState = PageState(owner: Owner, refs: nat)

  /** The pages that are neither free nor part of an address space, each with its owner and reference count. */
  type Rest = map<nat, PageState>

  /** Page q is as the rest of the kernel left it. */
  ghost predicate AtRest(rest: Rest, p: Pmm, q: nat)
    requires q in rest
  {
    && q < |p.owner| && q < |p.refs| && !p.owner[q].Free?
    && p.owner[q] == rest[q].owner && p.refs[q] == rest[q].refs
  }

  ghost predicate RestOk(rest: Rest, p: Pmm, data: map<nat, Page>, dirs: Dirs, tables: Tables)
  {
    && (forall q :: q in rest ==> AtRest(rest, p, q) && q !in data && q !in dirs && q !in tables)
    && (forall q: nat :: q < |p.owner| && p.owner[q].Hole? ==> q in rest)
  }

  /** Directories and tables are in frames of their own, and the rest of the kernel's pages are untouched. */
  ghost predicate Backed(rest: Rest, p: Pmm, data: map<nat, Page>, dirs: Dirs, tables: Tables)
  {
    && (forall d :: d in dirs ==> HoldsFrame(p, data, d) && d !in tables)
    && (forall t :: t in tables ==> HoldsFrame(p, data, t))
    && RestOk(rest, p, data, dirs, tables)
  }

  function RestHoles(rest: Rest): set<nat>
  {
    set q | q in rest && rest[q].owner.Hole?
  }

  /** The used pages among the rest. */
  function Others(rest: Rest): int
  {
    |rest| - |RestHoles(rest)|
  }

  lemma {:induction false} BackedKept(rest: Rest, s: Sys, t: Sys, dirs: Dirs, tables: Tables)
    requires Backed(rest, s.pmm, s.data, dirs, tables) && SameKernel(s.pmm, s.data, t.pmm, t.data)
    requires SysInv(s) && SysInv(t)
    ensures Backed(rest, t.pmm, t.data, dirs, tables)
  {
    forall f | f in dirs || f in tables ensures HoldsFrame(t.pmm, t.data, f) {
      assert HoldsFrame(s.pmm, s.data, f);
      assert KernelAt(s.pmm, s.data, t.pmm, t.data, f);
    }
    RestKept(rest, s, t, dirs, tables);
  }

  lemma {:induction false} RestKept(rest: Rest, s: Sys, t: Sys, dirs: Dirs, tables: Tables)
    requires RestOk(rest, s.pmm, s.data, dirs, tables) && SameKernel(s.pmm, s.data, t.pmm, t.data)
    requires SysInv(s) && SysInv(t)
    ensures RestOk(rest, t.pmm, t.data, dirs, tables)
  {
    forall q | q in rest ensures AtRest(rest, t.pmm, q) && q !in t.data {
      assert AtRest(rest, s.pmm, q);
      assert KernelAt(s.pmm, s.data, t.pmm, t.data, q);
    }
    KernelEqual(s, t);
    forall q: nat | q < |t.pmm.owner| && t.pmm.owner[q].Hole? ensures q in rest {
      assert q in Holes(t.pmm.owner);
    }
  }

  lemma {:induction false} BackedTook(rest: Rest, p: Pmm, p': Pmm, data: map<nat, Page>, dirs: Dirs, tables: Tables,
                                      f: nat)
    requires Backed(rest, p, data, dirs, tables) && Took(p, p', f)
    ensures Backed(rest, p', data, dirs, tables) && f !in dirs && f !in tables && f !in rest
  {
    forall g | g in dirs || g in tables ensures HoldsFrame(p', data, g) && g != f {
      assert HoldsFrame(p, data, g);
    }
    forall q | q in rest ensures AtRest(rest, p', q) && q != f {
      assert AtRest(rest, p, q);
    }
  }

  lemma {:induction false} BackedGave(rest: Rest, p: Pmm, p': Pmm, data: map<nat, Page>, dirs: Dirs, tables: Tables,
                                      f: nat)
    requires Backed(rest, p, data, dirs, tables) && Gave(p, p', f)
    requires f !in dirs && f !in tables && f !in rest
    ensures Backed(rest, p', data, dirs, tables)
  {
    forall g | g in dirs || g in tables ensures HoldsFrame(p', data, g) {
      assert HoldsFrame(p, data, g);
    }
    forall q | q in rest ensures AtRest(rest, p', q) {
      assert AtRest(rest, p, q);
    }
  }

  /** Page q is in use, but by no address space. */
  ghost predicate Outside(s: Sys, dirs: Dirs, tables: Tables, q: nat)
  {
    IsKernel(s.pmm, s.data, q) && q !in dirs && q !in tables
  }

  ghost predicate OutsideSame(s: Sys, dirs: Dirs, tables: Tables, t: Sys, dirs': Dirs, tables': Tables, q: nat)
  {
    && (Outside(s, dirs, tables, q) <==> Outside(t, dirs', tables', q))
    && (Outside(s, dirs, tables, q) ==>
          && q < |s.pmm.refs| && q < |t.pmm.refs|
          && s.pmm.owner[q] == t.pmm.owner[q] && s.pmm.refs[q] == t.pmm.refs[q])
  }

  /** The pages in use by no address space are the same, with the same owners and counts. */
  ghost predicate Untouched(s: Sys, dirs: Dirs, tables: Tables, t: Sys, dirs': Dirs, tables': Tables)
  {
    forall q: nat :: OutsideSame(s, dirs, tables, t, dirs', tables', q)
  }

  /** Directories, tables, data frames and the rest account for every used page. */
  ghost predicate Accounted(rest: Rest, s: Sys, dirs: Dirs, tables: Tables)
  {
    && SysInv(s) && Backed(rest, s.pmm, s.data, dirs, tables)
    && s.pmm.used == Others(rest) + |dirs| + |tables| + |s.data|
  }

  lemma {:induction false} SameSize(a: set<nat>, b: set<nat>)
    requires a <= b && |a| == |b|
    ensures a == b
  {
    assert b == a + (b - a);
    assert |b| == |a| + |b - a|;
  }

  lemma {:induction false} HeldKernel(rest: Rest, s: Sys, dirs: Dirs, tables: Tables)
    requires Backed(rest, s.pmm, s.data, dirs, tables)
    ensures rest.Keys + dirs.Keys + tables.Keys <= KernelPages(s.pmm, s.data)
    ensures RestHoles(rest) == Holes(s.pmm.owner)
  {
    forall q | q in rest ensures IsKernel(s.pmm, s.data, q) && (rest[q].owner.Hole? <==> q in Holes(s.pmm.owner)) {
      assert AtRest(rest, s.pmm, q);
    }
    forall f | f in dirs || f in tables ensures IsKernel(s.pmm, s.data, f) {
      assert HoldsFrame(s.pmm, s.data, f);
    }
  }

  lemma {:induction false} HeldCount(rest: Rest, s: Sys, dirs: Dirs, tables: Tables)
    requires Backed(rest, s.pmm, s.data, dirs, tables)
    ensures |rest.Keys + dirs.Keys + tables.Keys| == |rest| + |dirs| + |tables|
  {
    hide HoldsFrame, AtRest;
    UnionSize(rest.Keys, dirs.Keys, tables.Keys);
    assert |rest.Keys| == |rest| && |dirs.Keys| == |dirs| && |tables.Keys| == |tables|;
  }

  lemma {:induction false} UnionSize(a: set<nat>, b: set<nat>, c: set<nat>)
    requires a !! b && a !! c && b !! c
    ensures |a + b + c| == |a| + |b| + |c|
  {
    assert |a + b| == |a| + |b|;
    assert (a + b) !! c;
  }

  /** Every page in use is a directory, a table, a data frame or one of the rest. */
  lemma {:induction false} KernelIsHeld(rest: Rest, s: Sys, dirs: Dirs, tables: Tables)
    requires Accounted(rest, s, dirs, tables)
    ensures KernelPages(s.pmm, s.data) == rest.Keys + dirs.Keys + tables.Keys
  {
    hide SysInv, Backed;
    HeldKernel(rest, s, dirs, tables);
    HeldCount(rest, s, dirs, tables);
    UsedCount(s);
    SameSize(rest.Keys + dirs.Keys + tables.Keys, KernelPages(s.pmm, s.data));
  }

  lemma {:induction false} OutsideIsRest(rest: Rest, s: Sys, dirs: Dirs, tables: Tables, q: nat)
    requires Accounted(rest, s, dirs, tables)
    ensures Outside(s, dirs, tables, q) <==> q in rest
    ensures q in rest ==> AtRest(rest, s.pmm, q)
  {
    hide Accounted, IsKernel;
    HeldAt(rest, s, dirs, tables, q);
    if q in rest {
      RestApart(rest, s, dirs, tables, q);
    }
  }

  lemma {:induction false} RestApart(rest: Rest, s: Sys, dirs: Dirs, tables: Tables, q: nat)
    requires Accounted(rest, s, dirs, tables) && q in rest
    ensures q !in dirs && q !in tables
  {
  }

  lemma {:induction false} RestUntouched(rest: Rest, s: Sys, dirs: Dirs, tables: Tables, t: Sys, dirs': Dirs,
                                         tables': Tables)
    requires Accounted(rest, s, dirs, tables) && Accounted(rest, t, dirs', tables')
    ensures Untouched(s, dirs, tables, t, dirs', tables')
  {
    hide Accounted, Outside;
    forall q: nat ensures OutsideSame(s, dirs, tables, t, dirs', tables', q) {
      OutsideIsRest(rest, s, dirs, tables, q);
      OutsideIsRest(rest, t, dirs', tables', q);
    }
  }

  /** With the same directory and table frames, the pages that hold no user data are the same. */
  lemma {:induction false} SpacesKernel(rest: Rest, s: Sys, dirs: Dirs, tables: Tables, t: Sys, dirs': Dirs,
                                        tables': Tables)
    requires Accounted(rest, s, dirs, tables) && Accounted(rest, t, dirs', tables')
    requires dirs.Keys == dirs'.Keys && tables.Keys == tables'.Keys && |s.pmm.owner| == |t.pmm.owner|
    ensures SameKernel(s.pmm, s.data, t.pmm, t.data)
  {
    hide Accounted, KernelAt;
    forall q: nat ensures KernelAt(s.pmm, s.data, t.pmm, t.data, q) {
      SpacesKernelAt(rest, s, dirs, tables, t, dirs', tables', q);
    }
    RefsSize(rest, s, dirs, tables);
    RefsSize(rest, t, dirs', tables');
  }

  lemma {:induction false} RefsSize(rest: Rest, s: Sys, dirs: Dirs, tables: Tables)
    requires Accounted(rest, s, dirs, tables)
    ensures |s.pmm.refs| == |s.pmm.owner|
  {
  }

  /** Where a page is, and how. */
  lemma {:induction false} HeldAt(rest: Rest, s: Sys, dirs: Dirs, tables: Tables, q: nat)
    requires Accounted(rest, s, dirs, tables)
    ensures IsKernel(s.pmm, s.data, q) <==> q in rest || q in dirs || q in tables
    ensures q in rest ==> AtRest(rest, s.pmm, q)
    ensures q in dirs || q in tables ==> HoldsFrame(s.pmm, s.data, q)
  {
    hide SysInv, Others, AtRest, HoldsFrame, KernelPages, IsKernel;
    KernelIsHeld(rest, s, dirs, tables);
    KernelIn(s.pmm, s.data, q);
  }

  lemma {:induction false} KernelIn(p: Pmm, data: map<nat, Page>, q: nat)
    ensures IsKernel(p, data, q) <==> q in KernelPages(p, data)
  {
  }

  lemma {:induction false} SpacesKernelAt(rest: Rest, s: Sys, dirs: Dirs, tables: Tables, t: Sys, dirs': Dirs,
                                          tables': Tables, q: nat)
    requires Accounted(rest, s, dirs, tables) && Accounted(rest, t, dirs', tables')
    requires dirs.Keys == dirs'.Keys && tables.Keys == tables'.Keys && |s.pmm.owner| == |t.pmm.owner|
    ensures KernelAt(s.pmm, s.data, t.pmm, t.data, q)
  {
    hide Accounted;
    HeldAt(rest, s, dirs, tables, q);
    HeldAt(rest, t, dirs', tables', q);
  }

  lemma {:induction false} RoomNonneg(s: Sys)
    requires SysInv(s)
    ensures Room(s.pmm) >= 0
  {
    RoomAllocs(s.pmm);
  }

  lemma {:induction false} RoomUses(p: Pmm, p': Pmm, f: nat)
    requires Took(p, p', f) || Gave(p, p', f)
    requires p.owner[f].Live? || p.owner[f].Free?
    ensures Room(p') == Room(p) - (p'.used - p.used)
  {
    assert Holes(p'.owner) == Holes(p.owner);
  }

  /** What a slot costs that has to have a table. */
  function TableCost(dirs: Dirs, d: nat, i: nat): nat
  {
    if HasTable(dirs, d, i) then 0 else 1
  }

  /** Slot i of d has a table now; every other slot is as it was. */
  ghost predicate Tabled(dirs: Dirs, dirs': Dirs, d: nat, i: nat)
  {
    forall e: nat, j: nat :: HasTable(dirs', e, j) <==> HasTable(dirs, e, j) || (e == d && j == i)
  }

  lemma {:induction false} TabledBy(dirs: Dirs, d: nat, i: nat, e: Pde)
    requires d in dirs && i < |dirs[d]| && e.present
    ensures Tabled(dirs, SetPde(dirs, d, i, e), d, i) && HasTable(SetPde(dirs, d, i, e), d, i)
  {
  }

  lemma {:induction false} SlotPresent(dirs: Dirs, d: nat, i: nat)
    requires d in dirs && i < |dirs[d]|
    ensures HasTable(dirs, d, i) <==> dirs[d][i].present
    ensures HasTable(dirs, d, i) ==> Tabled(dirs, dirs, d, i)
  {
  }

  lemma {:induction false} SpareApart(dirs: Dirs, tables: Tables, d: nat, i: nat, t: nat, spare: nat)
    requires spare !in dirs && spare !in tables && spare != t
    ensures spare !in SetPde(dirs, d, i, Pde(true, t)) && spare !in tables[t := EmptyTable()]
  {
  }

  /** Frames without user data come and go without touching user memory. */
  lemma {:induction false} TookDataOk(p: Pmm, p': Pmm, entries: map<Loc, Entry>, data: map<nat, Page>,
                                      lost: map<nat, nat>, f: nat)
    requires DataOk(p, entries, data) && ExactCounts(p, entries, data, lost) && Took(p, p', f)
    ensures f !in data && DataOk(p', entries, data) && ExactCounts(p', entries, data, lost)
  {
    assert f in data ==> FrameOk(p, entries, f);
    forall g | g in data ensures FrameOk(p', entries, g) && ExactAt(p', entries, lost, g) {
      assert FrameOk(p, entries, g) && ExactAt(p, entries, lost, g);
    }
    forall l | l in entries ensures EntryOk(p', entries, data, l) {
      assert EntryOk(p, entries, data, l);
    }
  }

  lemma {:induction false} GaveOtherDataOk(p: Pmm, p': Pmm, entries: map<Loc, Entry>, data: map<nat, Page>,
                                           lost: map<nat, nat>, f: nat)
    requires DataOk(p, entries, data) && ExactCounts(p, entries, data, lost) && Gave(p, p', f) && f !in data
    ensures DataOk(p', entries, data) && ExactCounts(p', entries, data, lost)
  {
    forall g | g in data ensures FrameOk(p', entries, g) && ExactAt(p', entries, lost, g) {
      assert FrameOk(p, entries, g) && ExactAt(p, entries, lost, g);
    }
    forall l | l in entries ensures EntryOk(p', entries, data, l) {
      assert EntryOk(p, entries, data, l);
    }
  }

  lemma {:induction false} TakeSys(s: Sys)
    requires SysInv(s) && Exact(s)
    ensures var (p, f) := AllocOrder(s.pmm, 0);
            var t := s.(pmm := p);
            && SysInv(t) && Contents(t) == Contents(s) && Exact(t)
            && (f == 0 ==> p == s.pmm)
            && (f != 0 ==> Took(s.pmm, p, f) && f !in s.data && p.used == s.pmm.used + 1)
            && (f == 0 <==> Room(s.pmm) == 0) && Room(p) == Room(s.pmm) - (if f == 0 then 0 else 1)
  {
    var (p, f) := AllocOrder(s.pmm, 0);
    RoomAllocs(s.pmm);
    if f == 0 {
      NoBlock(s.pmm, 0);
    } else {
      AllocPageFacts(s.pmm);
      TookDataOk(s.pmm, p, s.entries, s.data, s.lost, f);
      RoomUses(s.pmm, p, f);
    }
  }

  lemma {:induction false} GiveSys(s: Sys, f: nat)
    requires SysInv(s) && Exact(s) && HoldsFrame(s.pmm, s.data, f)
    ensures var p := FreePage(s.pmm, f);
            var t := s.(pmm := p);
            && SysInv(t) && Contents(t) == Contents(s) && Exact(t)
            && Gave(s.pmm, p, f) && p.used == s.pmm.used - 1 && Room(p) == Room(s.pmm) + 1
  {
    FreePageFacts(s.pmm, f);
    RoomUses(s.pmm, FreePage(s.pmm, f), f);
    GaveOtherDataOk(s.pmm, FreePage(s.pmm, f), s.entries, s.data, s.lost, f);
  }

  /** A frame taken from the allocator becomes the private page of a new location. */
  lemma {:induction false} AdoptDataOk(p: Pmm, entries: map<Loc, Entry>, data: map<nat, Page>, lost: map<nat, nat>,
                                       dst: Loc, f: nat, page: Page)
    requires DataOk(p, entries, data) && ExactCounts(p, entries, data, lost) && dst !in entries
    requires HoldsFrame(p, data, f)
    ensures DataOk(p, entries[dst := Entry(f, true, false)], data[f := page])
    ensures ExactCounts(p, entries[dst := Entry(f, true, false)], data[f := page], lost)
  {
    var e := Entry(f, true, false);
    var entries', data' := entries[dst := e], data[f := page];
    AllMappedOk(p, entries, data);
    forall g | g in data' ensures FrameOk(p, entries', g) && ExactAt(p, entries', lost, g) {
      FreshMappers(entries, data, dst, e, g);
      assert g != f ==> FrameOk(p, entries, g) && ExactAt(p, entries, lost, g);
    }
    forall l | l in entries' ensures EntryOk(p, entries', data', l) {
      FreshMappers(entries, data, dst, e, entries'[l].frame);
      assert l != dst ==> EntryOk(p, entries, data, l);
    }
  }

  /** From s to t user memory becomes m and the rest of the kernel's pages stay as they are. */
  ghost predicate Effect(s: Sys, t: Sys, m: map<Loc, Page>)
  {
    && SysInv(t) && Exact(t) && Contents(t) == m
    && SameKernel(s.pmm, s.data, t.pmm, t.data)
    && t.pmm.used - s.pmm.used == |t.data| - |s.data|
  }

  lemma {:induction false} StepEffect(s: Sys, st: CowStep)
    requires SysInv(s) && Exact(s) && CowLegal(s, st)
    ensures EagerLegal(Contents(s), st) && Effect(s, StepSys(s, st), EagerStep(Contents(s), st))
    ensures !st.Unmap? ==> StepSys(s, st).lost == s.lost
  {
    hide SysInv, CowLegal, StepSys, Exact, SameKernel, EagerStep;
    StepSound(s, st);
    StepKernel(s, st);
    UsedDiff(s, StepSys(s, st));
  }

  lemma {:induction false} AdoptEffect(s: Sys, dst: Loc, f: nat, page: Page)
    requires SysInv(s) && Exact(s) && dst !in s.entries && HoldsFrame(s.pmm, s.data, f)
    ensures var t := Sys(s.pmm, s.entries[dst := Entry(f, true, false)], s.data[f := page], s.lost);
            SysInv(t) && Contents(t) == Contents(s)[dst := page] && Exact(t)
  {
    AdoptDataOk(s.pmm, s.entries, s.data, s.lost, dst, f, page);
    AllMappedOk(s.pmm, s.entries, s.data);
    FreshReads(s.entries, s.data, dst, Entry(f, true, false), page);
  }

  lemma {:induction false} AdoptBacked(rest: Rest, p: Pmm, data: map<nat, Page>, dirs: Dirs, tables: Tables, f: nat,
                                       page: Page)
    requires Backed(rest, p, data, dirs, tables) && f !in dirs && f !in tables && f !in rest
    ensures Backed(rest, p, data[f := page], dirs, tables)
  {
    forall g | g in dirs || g in tables ensures HoldsFrame(p, data[f := page], g) {
      assert HoldsFrame(p, data, g);
    }
  }

  /** Everything that is in use. */
  function RestOf(p: Pmm): Rest
    requires |p.owner| == |p.refs|
  {
    map q: nat | q < |p.owner| && !p.owner[q].Free? :: PageState(p.owner[q], p.refs[q])
  }

  lemma {:induction false} RestCount(p: Pmm)
    requires Inv(p)
    ensures |p.owner| == |p.refs| && Others(RestOf(p)) == p.used
    ensures Backed(RestOf(p), p, map[], map[], map[])
  {
    var rest := RestOf(p);
    assert RestHoles(rest) == Holes(p.owner);
    PartitionSize(|p.owner|, FreePages(p.owner), rest.Keys, {});
    assert |rest.Keys| == |rest|;
  }

  lemma {:induction false} SharedFits(dirs: Dirs, tables: Tables, entries: map<Loc, Entry>, src: Loc, dst: Loc, e: Pte)
    requires Agrees(dirs, tables, entries) && e.present
    requires src in entries && e.frame == entries[src].frame && src.page == dst.page
    ensures Fits(entries, src, e) && Fits(SetEntry(entries, src, e), dst, e)
  {
  }

  lemma {:induction false} ShareOutside(entries: map<Loc, Entry>, src: Loc, dst: Loc, e: Entry)
    requires src in entries && e.frame == entries[src].frame
    ensures SameOutsideOf(entries, entries[src := e][dst := e], dst.dir)
  {
  }

  /** One more mapper, with both entries as given. */
  function SharedSys(s: Sys, src: Loc, dst: Loc, e: Pte): Sys
    requires e.frame < |s.pmm.refs|
  {
    Sys(IncRef(s.pmm, e.frame), s.entries[src := FlatEntry(e)][dst := FlatEntry(e)], s.data, s.lost)
  }

  lemma {:induction false} ShareSys(s: Sys, src: Loc, dst: Loc, e: Pte)
    requires SysInv(s) && Exact(s) && src in s.entries && dst !in s.entries
    requires Sharable(s.pmm, s.entries[src].frame)
    requires e.frame == s.entries[src].frame && e.cow && !e.rw
    ensures src in Contents(s)
    ensures var t := SharedSys(s, src, dst, e);
            && Effect(s, t, Contents(s)[dst := Contents(s)[src]])
            && SameOutsideOf(s.entries, t.entries, dst.dir) && t.pmm.used == s.pmm.used && t.data == s.data
            && t.entries == s.entries[src := FlatEntry(e)][dst := FlatEntry(e)]
  {
    hide Inv, DataOk, Exact, Contents, SameKernel, SameOutsideOf;
    StepEffect(s, Share(src, dst));
    ShareOutside(s.entries, src, dst, FlatEntry(e));
  }

  lemma {:induction false} ShareBacked(rest: Rest, s: Sys, t: Sys, dirs: Dirs, tables: Tables, st: nat, i: nat, dt: nat,
                                       j: nat, e: Pte)
    requires Backed(rest, s.pmm, s.data, dirs, tables) && SameKernel(s.pmm, s.data, t.pmm, t.data)
    requires SysInv(s) && SysInv(t)
    requires st in tables && dt in tables && |tables[st]| == |tables[dt]| == SLOTS && i < SLOTS && j < SLOTS
    ensures var tables' := SetPte(SetPte(tables, st, i, e), dt, j, e);
            Backed(rest, t.pmm, t.data, dirs, tables') && tables'.Keys == tables.Keys && |tables'| == |tables|
  {
    hide Backed, SysInv, SameKernel;
    BackedKept(rest, s, t, dirs, tables);
    SetPteBacked(rest, t.pmm, t.data, dirs, tables, st, i, e);
    SetPteBacked(rest, t.pmm, t.data, dirs, SetPte(tables, st, i, e), dt, j, e);
  }

  /** Both entries of a shared page are written. */
  lemma {:induction false} ShareLayout(dirs: Dirs, tables: Tables, entries: map<Loc, Entry>, src: Loc, dst: Loc, e: Pte)
    requires Wired(dirs, tables) && Agrees(dirs, tables, entries) && e.present && e.user
    requires HasTable(dirs, src.dir, src.page / SLOTS) && HasTable(dirs, dst.dir, dst.page / SLOTS)
    requires src in entries && e.frame == entries[src].frame && src.page == dst.page
    ensures var st, dt := dirs[src.dir][src.page / SLOTS].frame, dirs[dst.dir][dst.page / SLOTS].frame;
            && st in tables && dt in tables && |tables[st]| == SLOTS && |tables[dt]| == SLOTS
            && var tables1 := SetPte(tables, st, src.page % SLOTS, e);
               && dt in tables1 && |tables1[dt]| == SLOTS
               && var tables2 := SetPte(tables1, dt, dst.page % SLOTS, e);
                  Wired(dirs, tables2) && Agrees(dirs, tables2, entries[src := FlatEntry(e)][dst := FlatEntry(e)])
  {
    hide Wired, Agrees, Fits;
    SharedFits(dirs, tables, entries, src, dst, e);
    SetPteAgrees(dirs, tables, entries, src, e);
    var tables1 := SetPte(tables, dirs[src.dir][src.page / SLOTS].frame, src.page % SLOTS, e);
    SetPteAgrees(dirs, tables1, SetEntry(entries, src, e), dst, e);
    TableThere(dirs, tables, dst);
  }

  /** What the tables and the allocator say about a mapped location. */
  lemma {:induction false} PresentFacts(s: Sys, dirs: Dirs, tables: Tables, l: Loc)
    requires SysInv(s) && Wired(dirs, tables) && Agrees(dirs, tables, s.entries) && l in s.entries
    ensures HasTable(dirs, l.dir, l.page / SLOTS)
    ensures var t := dirs[l.dir][l.page / SLOTS].frame;
            && t in tables && |tables[t]| == SLOTS
            && var e := tables[t][l.page % SLOTS];
               && e == PteAt(dirs, tables, l) && e.present && e.user && s.entries[l] == FlatEntry(e)
               && e.frame in s.data && e.frame < |s.pmm.owner| == |s.pmm.refs|
               && s.pmm.owner[e.frame] == Live(e.frame, 0)
               && l in Contents(s) && Contents(s)[l] == s.data[e.frame]
  {
    assert AgreeAt(dirs, tables, s.entries, l);
    TableThere(dirs, tables, l);
    MappedOk(s.pmm, s.entries, s.data, l);
  }

  /** As PresentFacts, for a location that may be absent. */
  lemma {:induction false} EntryFacts(s: Sys, dirs: Dirs, tables: Tables, l: Loc)
    requires SysInv(s) && Wired(dirs, tables) && Agrees(dirs, tables, s.entries)
    requires HasTable(dirs, l.dir, l.page / SLOTS)
    ensures var t := dirs[l.dir][l.page / SLOTS].frame;
            && t in tables && |tables[t]| == SLOTS
            && var e := tables[t][l.page % SLOTS];
               && (e.present <==> l in s.entries) && (l in Contents(s) <==> l in s.entries)
               && (e.present ==> e.frame in s.data && Contents(s)[l] == s.data[e.frame])
               && (e.present ==> e.user && s.entries[l] == FlatEntry(e))
  {
    assert AgreeAt(dirs, tables, s.entries, l);
    TableThere(dirs, tables, l);
    if l in s.entries {
      MappedOk(s.pmm, s.entries, s.data, l);
    }
  }

  lemma {:induction false} DirSize(dirs: Dirs, tables: Tables, d: nat)
    requires Wired(dirs, tables) && d in dirs
    ensures |dirs[d]| == SLOTS
  {
  }

  lemma {:induction false} MemoryKeys(s: Sys, l: Loc)
    requires SysInv(s)
    ensures l in Contents(s) <==> l in s.entries
  {
  }

  /** A slot without a table maps nothing. */
  lemma {:induction false} NoTableNoMemory(s: Sys, dirs: Dirs, tables: Tables, d: nat, i: nat)
    requires SysInv(s) && Agrees(dirs, tables, s.entries) && !HasTable(dirs, d, i)
    ensures NoPagesIn(Contents(s), d, i)
  {
    forall v: nat | v / SLOTS == i ensures Loc(d, v) !in Contents(s) {
      assert AgreeAt(dirs, tables, s.entries, Loc(d, v));
    }
  }

  /** Only user slots with a table map anything. */
  lemma {:induction false} WhereMapped(s: Sys, dirs: Dirs, tables: Tables, l: Loc)
    requires SysInv(s) && Wired(dirs, tables) && Agrees(dirs, tables, s.entries)
    ensures l in Contents(s) ==>
              USER_FIRST <= l.page / SLOTS < USER_END && HasTable(dirs, l.dir, l.page / SLOTS) && l.dir in dirs
  {
    assert AgreeAt(dirs, tables, s.entries, l);
    assert SlotOk(dirs, tables, l.dir, l.page / SLOTS);
  }

  lemma {:induction false} LinkBacked(rest: Rest, p: Pmm, data: map<nat, Page>, dirs: Dirs, tables: Tables, d: nat,
                                      e: seq<Pde>,
                                      t: nat, table: seq<Pte>)
    requires Backed(rest, p, data, dirs, tables) && HoldsFrame(p, data, t) && t !in dirs && t !in tables && d in dirs
    requires t !in rest
    ensures Backed(rest, p, data, dirs[d := e], tables[t := table])
  {
    var dirs', tables' := dirs[d := e], tables[t := table];
    forall f | f in dirs' ensures HoldsFrame(p, data, f) && f !in tables' {
      assert f in dirs;
    }
    forall f | f in tables' ensures HoldsFrame(p, data, f) {
      assert f == t || f in tables;
    }
  }

  /** A frame just taken becomes the table of an absent slot. */
  lemma {:induction false} TableIn(rest: Rest, p: Pmm, p': Pmm, data: map<nat, Page>, dirs: Dirs, tables: Tables,
                                   entries: map<Loc, Entry>, d: nat, i: nat, t: nat)
    requires Backed(rest, p, data, dirs, tables) && Took(p, p', t) && t !in data
    requires Wired(dirs, tables) && Agrees(dirs, tables, entries)
    requires d in dirs && |dirs[d]| == SLOTS && USER_FIRST <= i < USER_END && !HasTable(dirs, d, i)
    ensures var dirs', tables' := SetPde(dirs, d, i, Pde(true, t)), tables[t := EmptyTable()];
            && Wired(dirs', tables') && Agrees(dirs', tables', entries) && Backed(rest, p', data, dirs', tables')
            && |dirs'| == |dirs| && |tables'| == |tables| + 1 && dirs'.Keys == dirs.Keys && t !in tables
  {
    hide Backed, Wired, Agrees, Took, HoldsFrame, HasTable;
    BackedTook(rest, p, p', data, dirs, tables, t);
    TookHolds(p, p', data, t);
    LinkTable(dirs, tables, entries, d, i, t);
    LinkBacked(rest, p', data, dirs, tables, d, dirs[d][i := Pde(true, t)], t, EmptyTable());
    MapSizes(dirs, d, dirs[d][i := Pde(true, t)], tables, t, EmptyTable());
  }

  lemma {:induction false} MapSizes<V, W>(m: map<nat, V>, d: nat, e: V, n: map<nat, W>, t: nat, w: W)
    requires d in m && t !in n
    ensures |m[d := e]| == |m| && |n[t := w]| == |n| + 1
  {
    assert m[d := e].Keys == m.Keys;
    assert n[t := w].Keys == n.Keys + {t};
  }

  lemma {:induction false} DirBacked(rest: Rest, p: Pmm, data: map<nat, Page>, dirs: Dirs, tables: Tables, d: nat,
                                     e: seq<Pde>)
    requires Backed(rest, p, data, dirs, tables) && HoldsFrame(p, data, d) && d !in dirs && d !in tables
    requires d !in rest
    ensures Backed(rest, p, data, dirs[d := e], tables) && |dirs[d := e]| == |dirs| + 1
  {
    hide HoldsFrame, AtRest;
    var dirs' := dirs[d := e];
    forall f | f in dirs' ensures HoldsFrame(p, data, f) && f !in tables {
      assert f == d || f in dirs;
    }
    assert dirs'.Keys == dirs.Keys + {d};
  }

  lemma {:induction false} SetPdeOthers(dirs: Dirs, d: nat, i: nat, e: Pde)
    requires d in dirs && i < |dirs[d]|
    ensures forall j: nat :: j != i ==> (HasTable(SetPde(dirs, d, i, e), d, j) <==> HasTable(dirs, d, j))
    ensures d in SetPde(dirs, d, i, e) && SetPde(dirs, d, i, e) - {d} == dirs - {d}
  {
    assert SetPde(dirs, d, i, e) - {d} == dirs - {d};
  }

  lemma {:induction false} NewDir(dirs: Dirs, d: nat, e: seq<Pde>)
    requires d !in dirs
    ensures dirs[d := e] - {d} == dirs == dirs - {d}
  {
    assert dirs[d := e] - {d} == dirs;
    assert dirs - {d} == dirs;
  }

  lemma {:induction false} OutsideRefl(entries: map<Loc, Entry>, k: nat)
    ensures SameOutsideOf(entries, entries, k)
  {
  }

  lemma {:induction false} OutsideTrans(e0: map<Loc, Entry>, e1: map<Loc, Entry>, e2: map<Loc, Entry>, k: nat)
    requires SameOutsideOf(e0, e1, k) && SameOutsideOf(e1, e2, k)
    ensures SameOutsideOf(e0, e2, k)
  {
    forall l: Loc | l.dir != k ensures SameLoc(e0, e2, l) {
      assert SameLoc(e0, e1, l) && SameLoc(e1, e2, l);
    }
  }

  lemma {:induction false} FaultEagerly(m: map<Loc, Page>, at: Loc)
    ensures EagerLegal(m, Fault(at)) && EagerStep(m, Fault(at)) == m
  {
  }

  /** A fault in terms of its parts. */
  lemma {:induction false} FaultParts(s: Sys, at: Loc)
    requires SysInv(s) && Exact(s) && at in s.entries
    ensures |s.pmm.lists| == MAX_ORDER + 1 && (CanAlloc(s) <==> AllocOrder(s.pmm, 0).1 != 0)
    ensures s.entries[at].frame in s.data && SysInv(FaultEntry(s, at)) && Exact(FaultEntry(s, at))
    ensures !CanAlloc(s) ==> FaultEntry(s, at) == s && AllocOrder(s.pmm, 0).0 == s.pmm
    ensures CanAlloc(s) ==>
              var f := s.entries[at].frame;
              var t := FreshEntry(s, at, s.data[f]);
              && Inv(t.pmm) && f < |t.pmm.owner| && t.pmm.owner[f] == Live(f, 0)
              && f < |t.pmm.refs| && t.pmm.refs[f] > 0
              && FaultEntry(s, at) == Release1(t, f)
  {
    FaultKeeps(s, at);
    MappedOk(s.pmm, s.entries, s.data, at);
    if CanAlloc(s) {
      AllocPageFacts(s.pmm);
    } else {
      NoBlock(s.pmm, 0);
    }
  }

  lemma {:induction false} WithoutItself(dirs: Dirs, d: nat)
    ensures (dirs - {d}) - {d} == dirs - {d}
  {
    assert (dirs - {d}) - {d} == dirs - {d};
  }

  lemma {:induction false} NoneLeft(s: Sys, m: map<Loc, Page>, d: nat)
    requires SysInv(s) && Contents(s) == WithoutSpace(m, d)
    ensures NoneOf(s.entries, d)
  {
    forall l | l in s.entries ensures l.dir != d {
      MemoryKeys(s, l);
    }
  }

  lemma {:induction false} DropEagerly(m: map<Loc, Page>, at: Loc)
    ensures EagerLegal(m, Drop(at)) && EagerStep(m, Drop(at)) == m - {at}
  {
  }

  lemma {:induction false} DropOutside(entries: map<Loc, Entry>, at: Loc)
    ensures SameOutsideOf(entries, entries - {at}, at.dir)
  {
  }

  lemma {:induction false} DropEffect(s: Sys, at: Loc)
    requires SysInv(s) && Exact(s) && at in s.entries
    ensures Effect(s, DropEntry(s, at), Contents(s) - {at}) && DropEntry(s, at).entries == s.entries - {at}
  {
    hide SysInv, Exact, Contents, SameKernel, EagerStep, DropEntry;
    StepEffect(s, Drop(at));
    DropEagerly(Contents(s), at);
    DropMapping(s, at);
  }

  /** A teardown step in terms of its parts. */
  lemma {:induction false} DropParts(s: Sys, at: Loc)
    requires SysInv(s) && Exact(s) && at in s.entries
    ensures SysInv(DropEntry(s, at)) && Exact(DropEntry(s, at))
    ensures var f := s.entries[at].frame;
            var t := s.(entries := s.entries - {at});
            && Inv(s.pmm) && f < |s.pmm.owner| && s.pmm.owner[f] == Live(f, 0) && f < |s.pmm.refs| && s.pmm.refs[f] > 0
            && DropEntry(s, at) == if s.entries[at].cow then Release1(t, f)
                                   else t.(pmm := FreePage(s.pmm, f), data := s.data - {f})
  {
    DropKeeps(s, at);
    MappedOk(s.pmm, s.entries, s.data, at);
  }

  /** The tables with the first j entries of table t cleared. */
  ghost predicate ClearedTo(tables: Tables, vtables: Tables, t: nat, j: nat)
  {
    && vtables - {t} == tables - {t} && t in tables && t in vtables
    && |tables[t]| == |vtables[t]| == SLOTS
    && forall n :: j <= n < SLOTS ==> vtables[t][n] == tables[t][n]
  }

  lemma {:induction false} ClearNext(tables: Tables, vtables: Tables, t: nat, j: nat)
    requires ClearedTo(tables, vtables, t, j) && j < SLOTS
    ensures ClearedTo(tables, SetPte(vtables, t, j, NO_PTE), t, j + 1)
  {
    assert SetPte(vtables, t, j, NO_PTE) - {t} == vtables - {t};
  }

  lemma {:induction false} TableSize(dirs: Dirs, tables: Tables, t: nat)
    requires Wired(dirs, tables) && t in tables
    ensures |tables[t]| == SLOTS
  {
  }

  /** After all its pages went, a table maps nothing. */
  lemma {:induction false} TableEmptied(s: Sys, m: map<Loc, Page>, dirs: Dirs, tables: Tables, d: nat, i: nat)
    requires SysInv(s) && Contents(s) == WithoutPages(m, d, i * SLOTS, SLOTS)
    ensures forall l :: l in s.entries && l.dir == d ==> l.page / SLOTS != i
  {
    forall l | l in s.entries && l.dir == d ensures l.page / SLOTS != i {
      WithoutPagesAt(m, d, i * SLOTS, SLOTS, l);
      MemoryKeys(s, l);
    }
  }

  /** An emptied table leaves its directory slot, and its frame can go back. */
  lemma {:induction false} TableOut(rest: Rest, s: Sys, m: map<Loc, Page>, dirs: Dirs, tables: Tables, vtables: Tables,
                                    d: nat,
                                    i: nat, t: nat)
    requires SysInv(s) && Contents(s) == WithoutPages(m, d, i * SLOTS, SLOTS)
    requires Wired(dirs, vtables) && Agrees(dirs, vtables, s.entries) && Backed(rest, s.pmm, s.data, dirs, vtables)
    requires HasTable(dirs, d, i) && dirs[d][i].frame == t && ClearedTo(tables, vtables, t, SLOTS)
    ensures var dirs' := SetPde(dirs, d, i, NO_PDE);
            && Wired(dirs', vtables - {t}) && Agrees(dirs', vtables - {t}, s.entries)
            && Backed(rest, s.pmm, s.data, dirs', vtables - {t})
            && HoldsFrame(s.pmm, s.data, t) && t !in dirs' && t !in rest
            && |dirs'| == |dirs| && |vtables - {t}| == |vtables| - 1
    ensures vtables - {t} == tables - {t}
  {
    hide SysInv, Contents, Wired, Agrees, Backed, HoldsFrame, WithoutPages, SetPde;
    TableEmptied(s, m, dirs, vtables, d, i);
    UnlinkTable(dirs, vtables, s.entries, d, i);
    UnlinkBacked(rest, s.pmm, s.data, dirs, vtables, d, i, t);
  }

  lemma {:induction false} UnlinkBacked(rest: Rest, p: Pmm, data: map<nat, Page>, dirs: Dirs, tables: Tables, d: nat,
                                        i: nat,
                                        t: nat)
    requires Backed(rest, p, data, dirs, tables) && t in tables && d in dirs
    ensures HoldsFrame(p, data, t) && t !in dirs && t !in rest && t !in SetPde(dirs, d, i, NO_PDE)
    ensures Backed(rest, p, data, SetPde(dirs, d, i, NO_PDE), tables - {t})
    ensures |SetPde(dirs, d, i, NO_PDE)| == |dirs| && |tables - {t}| == |tables| - 1
  {
    hide HoldsFrame, AtRest;
    UnlinkSizes(dirs, tables, d, i, t);
  }

  lemma {:induction false} UnlinkSizes(dirs: Dirs, tables: Tables, d: nat, i: nat, t: nat)
    requires t in tables
    ensures SetPde(dirs, d, i, NO_PDE).Keys == dirs.Keys && |SetPde(dirs, d, i, NO_PDE)| == |dirs|
    ensures |tables - {t}| == |tables| - 1
  {
    var dirs', tables' := SetPde(dirs, d, i, NO_PDE), tables - {t};
    assert dirs'.Keys == dirs.Keys;
    assert |dirs'.Keys| == |dirs.Keys|;
    assert tables.Keys == tables'.Keys + {t};
  }

  /** The directories with the user slots of d below n cleared. */
  ghost predicate SlotsCleared(dirs: Dirs, vdirs: Dirs, d: nat, n: nat)
  {
    && d in dirs && d in vdirs && |dirs[d]| == |vdirs[d]| == SLOTS && vdirs - {d} == dirs - {d}
    && (forall i: nat :: i < n ==> !HasTable(vdirs, d, i))
    && (forall i: nat :: n <= i < SLOTS ==> vdirs[d][i] == dirs[d][i])
  }

  lemma {:induction false} NoSlotBelow(dirs: Dirs, tables: Tables, d: nat)
    requires Wired(dirs, tables) && d in dirs
    ensures SlotsCleared(dirs, dirs, d, USER_FIRST)
  {
    forall i: nat | i < USER_FIRST ensures !HasTable(dirs, d, i) {
      assert SlotOk(dirs, tables, d, i);
    }
  }

  lemma {:induction false} ClearSlot(dirs: Dirs, vdirs: Dirs, d: nat, i: nat)
    requires SlotsCleared(dirs, vdirs, d, i) && i < SLOTS
    ensures d in vdirs && |vdirs[d]| == SLOTS && (HasTable(vdirs, d, i) <==> dirs[d][i].present)
    ensures dirs[d][i].present ==> vdirs[d][i] == dirs[d][i]
    ensures !dirs[d][i].present ==> SlotsCleared(dirs, vdirs, d, i + 1)
    ensures SlotsCleared(dirs, SetPde(vdirs, d, i, NO_PDE), d, i + 1)
  {
    var r := SetPde(vdirs, d, i, NO_PDE);
    assert r - {d} == vdirs - {d};
    forall j: nat | j < i + 1 ensures !HasTable(r, d, j) {
      assert j < i ==> !HasTable(vdirs, d, j);
    }
  }

  lemma {:induction false} SlotHasTable(dirs: Dirs, tables: Tables, d: nat, i: nat)
    requires Wired(dirs, tables) && HasTable(dirs, d, i)
    ensures dirs[d][i].frame in tables
  {
    assert SlotOk(dirs, tables, d, i);
  }

  lemma {:induction false} SlotsGone(dirs: Dirs, vdirs: Dirs, tables: Tables, d: nat)
    requires Wired(vdirs, tables) && SlotsCleared(dirs, vdirs, d, USER_END)
    ensures vdirs - {d} == dirs - {d} && d in vdirs && forall i: nat :: !HasTable(vdirs, d, i)
  {
    forall i: nat ensures !HasTable(vdirs, d, i) {
      assert SlotOk(vdirs, tables, d, i);
    }
  }

  lemma {:induction false} DirGone(rest: Rest, p: Pmm, data: map<nat, Page>, dirs: Dirs, tables: Tables, d: nat)
    requires Backed(rest, p, data, dirs, tables) && d in dirs
    ensures HoldsFrame(p, data, d) && d !in tables && d !in rest
    ensures Backed(rest, p, data, dirs - {d}, tables) && |dirs - {d}| == |dirs| - 1
  {
    assert dirs.Keys == (dirs - {d}).Keys + {d};
  }

  /** A directory without user slots can go. */
  lemma {:induction false} DirOut(rest: Rest, p: Pmm, data: map<nat, Page>, entries: map<Loc, Entry>, dirs: Dirs,
                                  vdirs: Dirs,
                                  tables: Tables, d: nat)
    requires Wired(vdirs, tables) && Agrees(vdirs, tables, entries) && Backed(rest, p, data, vdirs, tables)
    requires SlotsCleared(dirs, vdirs, d, USER_END)
    ensures Wired(dirs - {d}, tables) && Agrees(dirs - {d}, tables, entries)
    ensures Backed(rest, p, data, dirs - {d}, tables)
    ensures HoldsFrame(p, data, d) && d !in tables && d !in rest && |dirs - {d}| == |vdirs| - 1
  {
    hide Wired, Agrees, Backed, SlotsCleared, HoldsFrame;
    SlotsGone(dirs, vdirs, tables, d);
    RemoveDir(vdirs, tables, entries, d);
    DirGone(rest, p, data, vdirs, tables, d);
  }

  /** Clearing the slots that have a table removes the whole space. */
  lemma {:induction false} SpaceEmptied(s: Sys, dirs: Dirs, tables: Tables, d: nat)
    requires SysInv(s) && Wired(dirs, tables) && Agrees(dirs, tables, s.entries)
    ensures WithoutSlots(Contents(s), dirs, d, USER_END) == WithoutSpace(Contents(s), d)
  {
    hide SysInv, Wired, Agrees, Contents, WithoutSlots, WithoutSpace, SamePageAt;
    forall l: Loc
      ensures SamePageAt(WithoutSpace(Contents(s), d), WithoutSlots(Contents(s), dirs, d, USER_END), l)
    {
      SpaceEmptiedAt(s, dirs, tables, d, l);
    }
    SameMaps(WithoutSpace(Contents(s), d), WithoutSlots(Contents(s), dirs, d, USER_END));
  }

  lemma {:induction false} SpaceEmptiedAt(s: Sys, dirs: Dirs, tables: Tables, d: nat, l: Loc)
    requires SysInv(s) && Wired(dirs, tables) && Agrees(dirs, tables, s.entries)
    ensures SamePageAt(WithoutSpace(Contents(s), d), WithoutSlots(Contents(s), dirs, d, USER_END), l)
  {
    assert AgreeAt(dirs, tables, s.entries, l);
    assert SlotOk(dirs, tables, l.dir, l.page / SLOTS);
    MemoryKeys(s, l);
    hide SysInv, Wired, Agrees, Contents, WithoutSlots, WithoutSpace;
    WithoutSlotsAt(Contents(s), dirs, d, USER_END, l);
    WithoutSpaceAt(Contents(s), d, l);
  }

  lemma {:induction false} WriteValue(s: Sys, at: Loc, offset: nat, value: int)
    requires SysInv(s) && at in s.entries && offset < PAGE_BYTES
    ensures s.entries[at].frame in s.data
    ensures var f := s.entries[at].frame;
            WriteByte(s, at, offset, value) == s.(data := s.data[f := s.data[f][offset := value]])
    ensures |WriteByte(s, at, offset, value).data| == |s.data|
  {
    MappedOk(s.pmm, s.entries, s.data, at);
    assert WriteByte(s, at, offset, value).data.Keys == s.data.Keys;
    assert |WriteByte(s, at, offset, value).data.Keys| == |s.data.Keys|;
  }

  lemma {:induction false} WriteEffect(s: Sys, at: Loc, offset: nat, value: int)
    requires SysInv(s) && Exact(s) && at in s.entries && s.entries[at].rw && offset < PAGE_BYTES
    ensures at in Contents(s)
    ensures Effect(s, WriteByte(s, at, offset, value), Contents(s)[at := Contents(s)[at][offset := value]])
  {
    hide SysInv, Exact, SameKernel, Contents, WriteByte;
    WriteKeeps(s, at, offset, value);
    StepEffect(s, Write(at, offset, value));
  }

  lemma {:induction false} NothingMoved(entries: map<Loc, Entry>, data: map<nat, Page>, at: Loc)
    ensures SameBut(entries, entries, at) && (at in entries ==> Moved(entries, data, entries, at))
  {
  }

  lemma {:induction false} SpareKept(p: Pmm, p': Pmm, data: map<nat, Page>, spare: nat, t: nat)
    requires HoldsFrame(p, data, spare) && Took(p, p', t)
    ensures HoldsFrame(p', data, spare) && spare != t
  {
  }

  /** The location l got a writable entry, and no other changed. */
  ghost predicate Added(entries: map<Loc, Entry>, entries': map<Loc, Entry>, l: Loc)
  {
    && l in entries' && entries'[l].rw
    && forall m: Loc :: m != l ==> (m in entries' <==> m in entries) && (m in entries ==> entries'[m] == entries[m])
  }

  /** The entry at l is gone, and no other changed. */
  ghost predicate Gone(entries: map<Loc, Entry>, entries': map<Loc, Entry>, l: Loc)
  {
    entries' == entries - {l}
  }

  lemma {:induction false} AddedBy(entries: map<Loc, Entry>, l: Loc)
    ensures forall f: nat :: Added(entries, entries[l := Entry(f, true, false)], l)
  {
  }

  /** Unmapping a writable page frees its frame. */
  lemma {:induction false} UnmapUsed(s: Sys, at: Loc)
    requires SysInv(s) && at in s.entries
    ensures s.entries[at].rw ==> UnmapEntry(s, at).pmm.used == s.pmm.used - 1
  {
    assert EntryOk(s.pmm, s.entries, s.data, at);
    MappedOk(s.pmm, s.entries, s.data, at);
    FreePageFacts(s.pmm, s.entries[at].frame);
  }

  lemma {:induction false} UnmapEffect(s: Sys, at: Loc)
    requires SysInv(s) && Exact(s) && at in s.entries
    ensures Effect(s, UnmapEntry(s, at), Contents(s) - {at}) && UnmapEntry(s, at).entries == s.entries - {at}
  {
    hide SysInv, Exact, Contents, SameKernel, EagerStep, UnmapEntry;
    StepEffect(s, Unmap(at));
    UnmapEagerly(Contents(s), at);
    UnmapMapping(s, at);
  }

  lemma {:induction false} UnmapEagerly(m: map<Loc, Page>, at: Loc)
    requires EagerLegal(m, Unmap(at))
    ensures EagerStep(m, Unmap(at)) == m - {at}
  {
  }

  lemma {:induction false} UnmapMapping(s: Sys, at: Loc)
    requires SysInv(s) && at in s.entries
    ensures UnmapEntry(s, at).entries == s.entries - {at}
  {
    hide Inv, DataOk, FreePage, LostAt;
    MappedOk(s.pmm, s.entries, s.data, at);
  }

  /** Unmapping a page, entry and frames. */
  lemma {:induction false} UnmapStep(rest: Rest, s: Sys, dirs: Dirs, tables: Tables, at: Loc, t: nat)
    requires SysInv(s) && Exact(s) && at in s.entries && Wired(dirs, tables) && Agrees(dirs, tables, s.entries)
    requires Backed(rest, s.pmm, s.data, dirs, tables)
    requires HasTable(dirs, at.dir, at.page / SLOTS) && dirs[at.dir][at.page / SLOTS].frame == t
    ensures t in tables && |tables[t]| == SLOTS
    ensures var u := UnmapEntry(s, at);
            var tables' := SetPte(tables, t, at.page % SLOTS, NO_PTE);
            && SysInv(u) && Exact(u) && Contents(u) == Contents(s) - {at} && Gone(s.entries, u.entries, at)
            && u.pmm.used - s.pmm.used == |u.data| - |s.data| && (s.entries[at].rw ==> u.pmm.used == s.pmm.used - 1)
            && Wired(dirs, tables') && Agrees(dirs, tables', u.entries)
            && Backed(rest, u.pmm, u.data, dirs, tables') && |tables'| == |tables|
  {
    hide SysInv, Contents, Wired, Agrees, Backed, SameKernel, UnmapEntry, HasTable;
    SetPteAgrees(dirs, tables, s.entries, at, NO_PTE);
    UnmapEffect(s, at);
    UnmapUsed(s, at);
    var u := UnmapEntry(s, at);
    BackedKept(rest, s, u, dirs, tables);
    SetPteBacked(rest, u.pmm, u.data, dirs, tables, t, at.page % SLOTS, NO_PTE);
  }

  lemma {:induction false} UnmapParts(s: Sys, at: Loc)
    requires SysInv(s) && Exact(s) && at in s.entries
    ensures SysInv(UnmapEntry(s, at)) && Exact(UnmapEntry(s, at))
    ensures var f := s.entries[at].frame;
            && f < |s.pmm.owner| == |s.pmm.refs| && s.pmm.owner[f] == Live(f, 0) && |s.pmm.lists| == MAX_ORDER + 1
            && UnmapEntry(s, at) ==
               var t := Sys(FreePage(s.pmm, f), s.entries - {at}, s.data, s.lost);
               if s.pmm.refs[f] > 1 then t.(lost := s.lost[f := LostAt(s.lost, f) + 1]) else t.(data := s.data - {f})
  {
    UnmapKeeps(s, at);
    MappedOk(s.pmm, s.entries, s.data, at);
  }

  lemma {:induction false} TookHolds(p: Pmm, p': Pmm, data: map<nat, Page>, f: nat)
    requires Took(p, p', f) && f !in data
    ensures HoldsFrame(p', data, f)
  {
  }

  lemma {:induction false} TableThere(dirs: Dirs, tables: Tables, l: Loc)
    requires Wired(dirs, tables) && HasTable(dirs, l.dir, l.page / SLOTS)
    ensures var t := dirs[l.dir][l.page / SLOTS].frame;
            t in tables && |tables[t]| == SLOTS && PteAt(dirs, tables, l) == tables[t][l.page % SLOTS]
  {
    assert SlotOk(dirs, tables, l.dir, l.page / SLOTS);
  }

  lemma {:induction false} SetPteBacked(rest: Rest, p: Pmm, data: map<nat, Page>, dirs: Dirs, tables: Tables, t: nat,
                                        i: nat,
                                        e: Pte)
    requires Backed(rest, p, data, dirs, tables) && t in tables && i < |tables[t]|
    ensures Backed(rest, p, data, dirs, SetPte(tables, t, i, e)) && SetPte(tables, t, i, e).Keys == tables.Keys
    ensures |SetPte(tables, t, i, e)| == |tables|
  {
    assert SetPte(tables, t, i, e).Keys == tables.Keys;
    assert |SetPte(tables, t, i, e).Keys| == |tables.Keys|;
  }

  /** Entering a taken frame at a location: the new mapping and data. */
  lemma {:induction false} PlaceSys(s: Sys, dst: Loc, f: nat, page: Page)
    requires SysInv(s) && Exact(s) && HoldsFrame(s.pmm, s.data, f) && dst !in s.entries
    ensures var t := Sys(s.pmm, s.entries[dst := Entry(f, true, false)], s.data[f := page], s.lost);
            && SysInv(t) && Exact(t) && Contents(t) == Contents(s)[dst := page]
            && SameOutsideOf(s.entries, t.entries, dst.dir)
            && f !in s.data && t.data.Keys == s.data.Keys + {f} && |t.data| == |s.data| + 1
    ensures Fits(s.entries, dst, Pte(true, true, true, false, f))
  {
    hide SysInv, Exact, Contents, Fits, SameOutsideOf, AllMapped;
    AdoptEffect(s, dst, f, page);
    PlaceOutside(s.entries, dst, Entry(f, true, false));
    PlaceData(s.data, f, page);
    SysMapped(s);
    FreshFits(s.entries, s.data, dst, Pte(true, true, true, false, f));
  }

  lemma {:induction false} PlaceOutside(entries: map<Loc, Entry>, dst: Loc, e: Entry)
    ensures SameOutsideOf(entries, entries[dst := e], dst.dir)
  {
  }

  lemma {:induction false} PlaceData(data: map<nat, Page>, f: nat, page: Page)
    requires f !in data
    ensures data[f := page].Keys == data.Keys + {f} && |data[f := page]| == |data| + 1
  {
    assert data[f := page].Keys == data.Keys + {f};
    assert |data[f := page]| == |data[f := page].Keys|;
  }

  /** And the table that maps it. */
  lemma {:induction false} PlaceTable(rest: Rest, s: Sys, dirs: Dirs, tables: Tables, dst: Loc, f: nat, page: Page)
    requires Wired(dirs, tables) && Agrees(dirs, tables, s.entries)
    requires Fits(s.entries, dst, Pte(true, true, true, false, f))
    requires Backed(rest, s.pmm, s.data, dirs, tables) && f !in dirs && f !in tables && f !in rest
    requires HasTable(dirs, dst.dir, dst.page / SLOTS) && dst !in s.entries
    ensures var dt := dirs[dst.dir][dst.page / SLOTS].frame;
            && dt in tables && |tables[dt]| == SLOTS
            && var tables' := SetPte(tables, dt, dst.page % SLOTS, Pte(true, true, true, false, f));
               && Wired(dirs, tables') && Agrees(dirs, tables', s.entries[dst := Entry(f, true, false)])
               && Backed(rest, s.pmm, s.data[f := page], dirs, tables')
               && tables'.Keys == tables.Keys && |tables'| == |tables|
  {
    hide Wired, Agrees, Backed, Fits;
    var e := Pte(true, true, true, false, f);
    AdoptBacked(rest, s.pmm, s.data, dirs, tables, f, page);
    SetPteAgrees(dirs, tables, s.entries, dst, e);
    SetPteBacked(rest, s.pmm, s.data[f := page], dirs, tables, dirs[dst.dir][dst.page / SLOTS].frame, dst.page % SLOTS,
                 e);
  }
}
