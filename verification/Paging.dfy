/** Address spaces as the kernel keeps them: page directories and page tables in physical frames, updated in
    place by clone, copy-on-write faults, mapping and teardown over the physical page allocator. */
module Paging {
  import opened BuddyOwners
  import opened BuddyState
  import opened BuddyRuns
  import opened CowMachine
  import opened CowRuns
  import opened CowConservation
  import opened PageTables
  import opened PageAllocator
  import opened SpaceClone
  import opened SpaceFrames
  import opened SpaceMemory

  class AddressSpaces {
    const pmm: Allocator
    var dirs: Dirs
    var tables: Tables
    var data: map<nat, Page>
    var current: nat                          // frame of the current page directory

    ghost var entries: map<Loc, Entry>        // the mapping the tables spell
    ghost var lost: map<nat, nat>             // references that heap shrinks left behind
    ghost const rest: Rest                    // the pages of the rest of the kernel

    ghost function Abs(): Sys
      reads this`entries, this`data, this`lost, pmm.Repr()
    {
      Sys(pmm.Abs(), entries, data, lost)
    }

    /** User memory is consistent with the allocator: every reference count is accounted for. */
    ghost predicate Flat()
      reads this`entries, this`data, this`lost, pmm.Repr()
    {
      pmm.Valid() && SysInv(Abs()) && Exact(Abs())
    }

    /** What the address spaces read. */
    ghost function Memory(): map<Loc, Page>
      requires Flat()
      reads this`entries, this`data, this`lost, pmm.Repr()
    {
      Contents(Abs())
    }

    /** The given directories and tables spell the mapping, are backed by live frames, and account for every
        used page together with the data frames and the rest of the kernel. */
    ghost predicate Layout(dirs: Dirs, tables: Tables)
      reads this`entries, this`data, this`lost, pmm.Repr()
    {
      && Flat() && Wired(dirs, tables) && Agrees(dirs, tables, entries)
      && Backed(rest, pmm.Abs(), data, dirs, tables)
      && pmm.used == Others(rest) + |dirs| + |tables| + |data|
    }

    /** Like Layout, but for one frame that is taken and in use nowhere. */
    ghost predicate Loose(f: nat, dirs: Dirs, tables: Tables)
      reads this`entries, this`data, this`lost, pmm.Repr()
    {
      && Flat() && Wired(dirs, tables) && Agrees(dirs, tables, entries)
      && Backed(rest, pmm.Abs(), data, dirs, tables) && f !in dirs && f !in tables && f !in rest
      && HoldsFrame(pmm.Abs(), data, f) && pmm.used == Others(rest) + |dirs| + |tables| + |data| + 1
    }

    ghost predicate Valid()
      reads this, pmm.Repr()
    {
      Layout(dirs, tables)
    }

    lemma {:induction false} Balanced(dirs: Dirs, tables: Tables)
      requires Layout(dirs, tables)
      ensures Flat() && |Abs().pmm.owner| == pmm.total
      ensures Wired(dirs, tables) && Agrees(dirs, tables, entries) && Accounted(rest, Abs(), dirs, tables)
    {
    }

    /** No frame is left, or some frame has as many references as are counted. */
    ghost predicate Stuck()
      reads this`data, pmm.Repr()
    {
      Room(pmm.Abs()) == 0 || exists f :: f in data && f < |pmm.Abs().refs| && pmm.Abs().refs[f] >= 65534
    }

    /** No address space yet. */
    constructor (allocator: Allocator)
      requires allocator.Valid()
      ensures Valid() && pmm == allocator && Memory() == map[] && lost == map[]
    {
      pmm := allocator;
      dirs, tables, data, current := map[], map[], map[], 0;
      entries, lost := map[], map[];
      rest := RestOf(allocator.Abs());
      RestCount(allocator.Abs());
    }

    // ---------- frames ----------

    /** A frame for a table, a directory or data; 0 when memory is exhausted. */
    method TakeFrame() returns (f: nat)
      requires Flat()
      modifies pmm.Repr()
      ensures Flat() && Memory() == old(Memory())
      ensures f == 0 ==> pmm.Abs() == old(pmm.Abs())
      ensures f != 0 ==> Took(old(pmm.Abs()), pmm.Abs(), f) && f !in data && pmm.used == old(pmm.used) + 1
      ensures (f == 0 <==> old(Room(pmm.Abs())) == 0)
      ensures Room(pmm.Abs()) == old(Room(pmm.Abs())) - (if f == 0 then 0 else 1)
    {
      hide SysInv, Exact, Contents, Took, Room;
      ghost var s := Abs();
      TakeSys(s);
      f := pmm.AllocOrder(0);
      assert Abs() == s.(pmm := AllocOrder(s.pmm, 0).0);
    }

    /** A frame that the given directories and tables do not use yet. */
    method TakeLoose(ghost vdirs: Dirs, ghost vtables: Tables) returns (f: nat)
      requires Layout(vdirs, vtables)
      modifies pmm.Repr()
      ensures Flat() && Memory() == old(Memory())
      ensures if f == 0 then Layout(vdirs, vtables) else Loose(f, vdirs, vtables)
      ensures f == 0 <==> old(Room(pmm.Abs())) == 0
      ensures Room(pmm.Abs()) == old(Room(pmm.Abs())) - (if f == 0 then 0 else 1)
      ensures pmm.used == old(pmm.used) + (if f == 0 then 0 else 1)
    {
      hide SysInv, Exact, Contents, Wired, Agrees, Backed, Took, AllocOrder, Allocator.Valid, Room;
      ghost var p := pmm.Abs();
      f := TakeFrame();
      if f != 0 {
        BackedTook(rest, p, pmm.Abs(), data, vdirs, vtables, f);
        TookHolds(p, pmm.Abs(), data, f);
      }
    }

    /** Free a frame that holds no user data. */
    method GiveFrame(f: nat)
      requires Flat() && HoldsFrame(pmm.Abs(), data, f)
      modifies pmm.Repr()
      ensures Flat() && Memory() == old(Memory())
      ensures Gave(old(pmm.Abs()), pmm.Abs(), f) && pmm.used == old(pmm.used) - 1
      ensures Room(pmm.Abs()) == old(Room(pmm.Abs())) + 1
    {
      hide SysInv, Exact, Contents, Gave, Room, Inv, BuddyState.FreePage;
      ghost var s := Abs();
      GiveSys(s, f);
      pmm.FreePage(f);
      assert Abs() == s.(pmm := FreePage(s.pmm, f));
    }

    /** Free a frame that the given directories and tables do not use. */
    method GiveBack(f: nat, ghost vdirs: Dirs, ghost vtables: Tables)
      requires Loose(f, vdirs, vtables)
      modifies pmm.Repr()
      ensures Layout(vdirs, vtables) && Memory() == old(Memory())
      ensures pmm.used == old(pmm.used) - 1 && Room(pmm.Abs()) == old(Room(pmm.Abs())) + 1
    {
      hide SysInv, Exact, Contents, Wired, Agrees, Backed, Gave, HoldsFrame, Allocator.Valid, Room;
      ghost var p := pmm.Abs();
      GiveFrame(f);
      BackedGave(rest, p, pmm.Abs(), data, vdirs, vtables, f);
    }

    // ---------- one entry of a clone ----------

    /** Give the location dst the frame f, just taken, with the given contents. */
    method PlacePage(dt: nat, dst: Loc, f: nat, page: Page, ghost vdirs: Dirs)
      requires Loose(f, vdirs, tables)
      requires HasTable(vdirs, dst.dir, dst.page / SLOTS) && vdirs[dst.dir][dst.page / SLOTS].frame == dt
      requires dst !in entries
      modifies this`tables, this`data, this`entries
      ensures Layout(vdirs, tables) && tables.Keys == old(tables.Keys)
      ensures Memory() == old(Memory())[dst := page]
      ensures SameOutsideOf(old(entries), entries, dst.dir) && entries == old(entries)[dst := Entry(f, true, false)]
      ensures data.Keys == old(data.Keys) + {f} && f !in old(data)
    {
      hide SysInv, Exact, Contents, Wired, Agrees, Backed, SameOutsideOf, HoldsFrame, Fits;
      ghost var s := Abs();
      PlaceSys(s, dst, f, page);
      PlaceTable(rest, s, vdirs, tables, dst, f, page);
      data := data[f := page];
      entries := entries[dst := Entry(f, true, false)];
      tables := SetPte(tables, dt, dst.page % SLOTS, Pte(true, true, true, false, f));
      assert Abs() == Sys(s.pmm, s.entries[dst := Entry(f, true, false)], s.data[f := page], s.lost);
    }

    /** Share the frame of src with dst: one more reference, and both entries become read-only and
        copy-on-write. Fails only when the reference count is at its end. */
    method SharePage(st: nat, dt: nat, src: Loc, dst: Loc, ghost vdirs: Dirs) returns (ok: bool)
      requires Layout(vdirs, tables)
      requires HasTable(vdirs, src.dir, src.page / SLOTS) && vdirs[src.dir][src.page / SLOTS].frame == st
      requires HasTable(vdirs, dst.dir, dst.page / SLOTS) && vdirs[dst.dir][dst.page / SLOTS].frame == dt
      requires src in entries && dst !in entries && src.page == dst.page
      modifies this`tables, this`entries, pmm.refcount
      ensures tables.Keys == old(tables.Keys)
      ensures ok ==> Layout(vdirs, tables)
      ensures ok ==> src in old(Memory()) && Memory() == old(Memory())[dst := old(Memory())[src]]
      ensures ok ==> SameOutsideOf(old(entries), entries, dst.dir)
      ensures ok ==> var e := Entry(old(entries)[src].frame, false, true);
                     entries == old(entries)[src := e][dst := e]
      ensures !ok ==> Stuck()
    {
      hide SysInv, Exact, Contents, Wired, Agrees, Backed, SameOutsideOf;
      PresentFacts(Abs(), vdirs, tables, src);
      var e := tables[st][src.page % SLOTS];
      var count := pmm.GetRefcount(e.frame);
      if count + 1 >= MAX_REFCOUNT {
        return false;
      }
      ShareCounted(st, dt, src, dst, e.(rw := false, cow := true), vdirs);
      return true;
    }

    /** Clone one page of a table: stack pages are copied into a new frame, others are shared. Fails when memory is
        exhausted, where the kernel aborts, or a reference count is at its end. */
    method CloneEntry(st: nat, dt: nat, src: nat, dst: nat, v: nat, base: nat, size: nat,
                      ghost vdirs: Dirs) returns (ok: bool)
      requires Layout(vdirs, tables) && src != dst
      requires HasTable(vdirs, src, v / SLOTS) && vdirs[src][v / SLOTS].frame == st
      requires HasTable(vdirs, dst, v / SLOTS) && vdirs[dst][v / SLOTS].frame == dt
      requires Loc(dst, v) !in entries
      modifies this`tables, this`data, this`entries, pmm.Repr()
      ensures tables.Keys == old(tables.Keys)
      ensures ok ==> Layout(vdirs, tables)
      ensures ok ==> Memory() == ClonePage(old(Memory()), src, dst, v, base, size)
      ensures ok ==> SameOutsideOf(old(entries), entries, dst)
      ensures ok ==> RangeCloned(old(entries), old(data.Keys), entries, src, dst, v, 1, base, size)
      ensures ok ==> old(data.Keys) <= data.Keys
      ensures !ok ==> Stuck()
    {
      hide SysInv, Exact, Contents, Wired, Agrees, Backed, Took, AllocOrder, SameOutsideOf, RangeCloned,
           Allocator.Valid;
      ghost var entries0, was := entries, data.Keys;
      OutsideRefl(entries, dst);
      EntryFacts(Abs(), vdirs, tables, Loc(src, v));
      var e := tables[st][v % SLOTS];
      if IsStack(base, size, v) {
        ok := CopyPage(dt, Loc(dst, v), e, vdirs);
        if ok {
          CopiedEntry(entries0, was, entries, src, dst, v, base, size);
        }
      } else if e.present {
        ok := SharePage(st, dt, Loc(src, v), Loc(dst, v), vdirs);
        if ok {
          SharedEntry(entries0, was, entries, src, dst, v, base, size, Entry(entries0[Loc(src, v)].frame, false, true));
        }
      } else {
        ok := true;
        AbsentEntry(entries0, was, src, dst, v, base, size);
      }
    }

    /** A new frame for dst with the contents of the entry's frame, or zeroed if the entry is absent. */
    method CopyPage(dt: nat, dst: Loc, e: Pte, ghost vdirs: Dirs) returns (ok: bool)
      requires Layout(vdirs, tables)
      requires HasTable(vdirs, dst.dir, dst.page / SLOTS) && vdirs[dst.dir][dst.page / SLOTS].frame == dt
      requires dst !in entries && (e.present ==> e.frame in data)
      modifies this`tables, this`data, this`entries, pmm.Repr()
      ensures tables.Keys == old(tables.Keys)
      ensures ok ==> Layout(vdirs, tables)
      ensures ok ==> Memory() == old(Memory())[dst := if e.present then old(data)[e.frame] else ZeroPage()]
      ensures ok ==> SameOutsideOf(old(entries), entries, dst.dir)
      ensures ok ==> OwnPage(old(data.Keys), entries, dst) && entries == old(entries)[dst := entries[dst]]
      ensures ok ==> old(data.Keys) <= data.Keys
      ensures !ok ==> Stuck()
    {
      hide Layout, Loose, SysInv, Exact, Contents, SameOutsideOf, Allocator.Valid, Room;
      var f := TakeLoose(vdirs, tables);
      if f == 0 {
        return false;
      }
      PlacePage(dt, dst, f, if e.present then data[e.frame] else ZeroPage(), vdirs);
      return true;
    }

    /** An empty table for slot i of directory d, not yet entered there; 0 when memory is exhausted. */
    method NewTable(d: nat, i: nat) returns (t: nat)
      requires Valid() && d in dirs && USER_FIRST <= i < USER_END && !HasTable(dirs, d, i)
      modifies this`tables, pmm.Repr()
      ensures Flat() && Memory() == old(Memory())
      ensures t == 0 ==> Valid()
      ensures t != 0 ==> Layout(SetPde(dirs, d, i, Pde(true, t)), tables)
      ensures t == 0 ==> Stuck()
    {
      hide SysInv, Exact, Contents, Wired, Agrees, Backed, Took, AllocOrder, Allocator.Valid;
      DirSize(dirs, tables, d);
      ghost var p := pmm.Abs();
      t := TakeFrame();
      if t == 0 {
        return;
      }
      TableIn(rest, p, pmm.Abs(), data, dirs, tables, entries, d, i, t);
      tables := tables[t := EmptyTable()];
    }

    /** Clone table i of src for dst: every entry in turn. The new table is returned for the caller to enter. */
    method CloneTable(src: nat, dst: nat, i: nat, base: nat, size: nat) returns (ok: bool, t: nat)
      requires Valid() && src in dirs && dst in dirs && src != dst && USER_FIRST <= i < USER_END
      requires HasTable(dirs, src, i) && !HasTable(dirs, dst, i)
      modifies this`tables, this`data, this`entries, pmm.Repr()
      ensures ok ==> Layout(SetPde(dirs, dst, i, Pde(true, t)), tables)
      ensures ok ==> Memory() == CloneRange(old(Memory()), src, dst, i * SLOTS, SLOTS, base, size)
      ensures ok ==> SameOutsideOf(old(entries), entries, dst)
      ensures ok ==> RangeCloned(old(entries), old(data.Keys), entries, src, dst, i * SLOTS, SLOTS, base, size)
      ensures ok ==> old(data.Keys) <= data.Keys
      ensures !ok ==> Stuck()
    {
      hide SysInv, Exact, Contents, Wired, Agrees, Backed, ClonePage, SameOutsideOf, RangeCloned, Allocator.Valid;
      OutsideRefl(entries, dst);
      NoRange(entries, data.Keys, src, dst, i * SLOTS, base, size);
      DirSize(dirs, tables, dst);
      NoTableNoMemory(Abs(), dirs, tables, dst, i);
      ghost var m := Memory();
      t := NewTable(dst, i);
      if t == 0 {
        return false, 0;
      }
      ghost var vdirs := SetPde(dirs, dst, i, Pde(true, t));
      var st := dirs[src][i].frame;
      for j := 0 to SLOTS
        invariant Layout(vdirs, tables)
        invariant Memory() == CloneRange(m, src, dst, i * SLOTS, j, base, size)
        invariant SameOutsideOf(old(entries), entries, dst)
        invariant RangeCloned(old(entries), old(data.Keys), entries, src, dst, i * SLOTS, j, base, size)
        invariant old(data.Keys) <= data.Keys
      {
        ghost var entries1, was1 := entries, data.Keys;
        ok := CloneNext(st, t, src, dst, i, j, base, size, m, vdirs);
        if !ok {
          return;
        }
        OutsideTrans(old(entries), entries1, entries, dst);
        RangeMore(old(entries), old(data.Keys), entries1, was1, entries, src, dst, i * SLOTS, j, base, size);
      }
      ok := true;
    }

    /** Entry j of table i, when the ones before it are done. */
    method CloneNext(st: nat, dt: nat, src: nat, dst: nat, i: nat, j: nat, base: nat, size: nat,
                     ghost m: map<Loc, Page>, ghost vdirs: Dirs) returns (ok: bool)
      requires Layout(vdirs, tables) && src != dst && j < SLOTS
      requires HasTable(vdirs, src, i) && vdirs[src][i].frame == st && HasTable(vdirs, dst, i)
      requires vdirs[dst][i].frame == dt
      requires NoPagesIn(m, dst, i) && Memory() == CloneRange(m, src, dst, i * SLOTS, j, base, size)
      modifies this`tables, this`data, this`entries, pmm.Repr()
      ensures tables.Keys == old(tables.Keys)
      ensures ok ==> Layout(vdirs, tables)
      ensures ok ==> Memory() == CloneRange(m, src, dst, i * SLOTS, j + 1, base, size)
      ensures ok ==> SameOutsideOf(old(entries), entries, dst)
      ensures ok ==> RangeCloned(old(entries), old(data.Keys), entries, src, dst, i * SLOTS + j, 1, base, size)
      ensures ok ==> old(data.Keys) <= data.Keys
      ensures !ok ==> Stuck()
    {
      hide SysInv, Exact, Contents, Wired, Agrees, Backed, SameOutsideOf, ClonePage, RangeCloned, Allocator.Valid;
      var v := i * SLOTS + j;
      SlotOf(i, j);
      CloneRangeAt(m, src, dst, i * SLOTS, j, base, size, Loc(dst, v));
      MemoryKeys(Abs(), Loc(dst, v));
      assert Loc(dst, v) !in m;
      ok := CloneEntry(st, dt, src, dst, v, base, size, vdirs);
    }

    /** A table with zeroed stack pages only, for a slot the source does not have. */
    method CreateStackTable(ghost src: nat, dst: nat, i: nat, base: nat, size: nat) returns (ok: bool, t: nat)
      requires Valid() && src in dirs && dst in dirs && src != dst && USER_FIRST <= i < USER_END && size > 0
      requires !HasTable(dirs, src, i) && !HasTable(dirs, dst, i)
      modifies this`tables, this`data, this`entries, pmm.Repr()
      ensures ok ==> Layout(SetPde(dirs, dst, i, Pde(true, t)), tables)
      ensures ok ==> Memory() == CloneRange(old(Memory()), src, dst, i * SLOTS, SLOTS, base, size)
      ensures ok ==> SameOutsideOf(old(entries), entries, dst)
      ensures ok ==> RangeCloned(old(entries), old(data.Keys), entries, src, dst, i * SLOTS, SLOTS, base, size)
      ensures ok ==> old(data.Keys) <= data.Keys
      ensures !ok ==> Stuck()
    {
      hide SysInv, Exact, Contents, Wired, Agrees, Backed, ClonePage, SameOutsideOf, RangeCloned, Allocator.Valid;
      OutsideRefl(entries, dst);
      NoRange(entries, data.Keys, src, dst, i * SLOTS, base, size);
      DirSize(dirs, tables, dst);
      NoTableNoMemory(Abs(), dirs, tables, dst, i);
      NoTableNoMemory(Abs(), dirs, tables, src, i);
      ghost var m := Memory();
      t := NewTable(dst, i);
      if t == 0 {
        return false, 0;
      }
      ghost var vdirs := SetPde(dirs, dst, i, Pde(true, t));
      for j := 0 to SLOTS
        invariant Layout(vdirs, tables)
        invariant Memory() == CloneRange(m, src, dst, i * SLOTS, j, base, size)
        invariant SameOutsideOf(old(entries), entries, dst)
        invariant RangeCloned(old(entries), old(data.Keys), entries, src, dst, i * SLOTS, j, base, size)
        invariant old(data.Keys) <= data.Keys
      {
        ghost var entries1, was1 := entries, data.Keys;
        ok := StackNext(t, src, dst, i, j, base, size, m, vdirs);
        if !ok {
          return;
        }
        OutsideTrans(old(entries), entries1, entries, dst);
        RangeMore(old(entries), old(data.Keys), entries1, was1, entries, src, dst, i * SLOTS, j, base, size);
      }
      ok := true;
    }

    /** Entry j of a stack table, when the ones before it are done. */
    method StackNext(dt: nat, ghost src: nat, dst: nat, i: nat, j: nat, base: nat, size: nat,
                     ghost m: map<Loc, Page>, ghost vdirs: Dirs) returns (ok: bool)
      requires Layout(vdirs, tables) && src != dst && j < SLOTS
      requires HasTable(vdirs, dst, i) && vdirs[dst][i].frame == dt
      requires NoPagesIn(m, src, i) && NoPagesIn(m, dst, i)
      requires Memory() == CloneRange(m, src, dst, i * SLOTS, j, base, size)
      modifies this`tables, this`data, this`entries, pmm.Repr()
      ensures tables.Keys == old(tables.Keys)
      ensures ok ==> Layout(vdirs, tables)
      ensures ok ==> Memory() == CloneRange(m, src, dst, i * SLOTS, j + 1, base, size)
      ensures ok ==> SameOutsideOf(old(entries), entries, dst)
      ensures ok ==> RangeCloned(old(entries), old(data.Keys), entries, src, dst, i * SLOTS + j, 1, base, size)
      ensures ok ==> old(data.Keys) <= data.Keys
      ensures !ok ==> Stuck()
    {
      hide SysInv, Exact, Contents, Wired, Agrees, Backed, SameOutsideOf, RangeCloned, Allocator.Valid;
      ghost var entries0, was := entries, data.Keys;
      MemoryKeys(Abs(), Loc(src, i * SLOTS + j));
      var v := i * SLOTS + j;
      SlotOf(i, j);
      CloneRangeAt(m, src, dst, i * SLOTS, j, base, size, Loc(dst, v));
      CloneRangeAt(m, src, dst, i * SLOTS, j, base, size, Loc(src, v));
      MemoryKeys(Abs(), Loc(dst, v));
      assert Loc(dst, v) !in m && Loc(src, v) !in m;
      ok := true;
      OutsideRefl(entries, dst);
      if IsStack(base, size, v) {
        ok := CopyPage(dt, Loc(dst, v), NO_PTE, vdirs);
        if ok {
          CopiedEntry(entries0, was, entries, src, dst, v, base, size);
        }
      } else {
        AbsentEntry(entries0, was, src, dst, v, base, size);
      }
    }

    /** A directory with no user entries; 0 when memory is exhausted. */
    method CreateDirectory() returns (d: nat)
      requires Valid()
      modifies this`dirs, pmm.Repr()
      ensures Valid() && Memory() == old(Memory())
      ensures d == 0 ==> dirs == old(dirs) && Stuck()
      ensures d != 0 ==> d !in old(dirs) && dirs == old(dirs)[d := EmptyDir()]
    {
      hide SysInv, Exact, Contents, Wired, Agrees, Backed, HoldsFrame, Allocator.Valid, Room;
      d := TakeLoose(dirs, tables);
      if d == 0 {
        return;
      }
      AddDir(dirs, tables, entries, d);
      DirBacked(rest, pmm.Abs(), data, dirs, tables, d, EmptyDir());
      dirs := dirs[d := EmptyDir()];
    }

    /** A copy of the user part of the space src with every page shared copy-on-write, except stack pages, which
        are copied. The clone reads what an eager copy would read, and it takes a directory, its own tables and data
        frames: every other directory, table and page frame, and every page of the rest of the kernel, stays. */
    method CloneDirectory(src: nat, usermode: bool, base: nat, size: nat) returns (ok: bool, dst: nat)
      requires Valid() && src in dirs
      modifies this`dirs, this`tables, this`data, this`entries, pmm.Repr()
      ensures ok ==> Valid() && dst !in old(dirs) && dst in dirs && dirs - {dst} == old(dirs)
      ensures ok ==> tables.Keys == old(tables).Keys + TablesOf(dirs, dst) && old(tables).Keys !! TablesOf(dirs, dst)
      ensures ok ==> SameOutsideOf(old(entries), entries, dst)
      ensures ok ==> Untouched(old(Abs()), old(dirs), old(tables), Abs(), dirs, tables)
      ensures ok ==> Memory() == if usermode then CloneSlots(old(Memory()), old(dirs), src, dst, USER_END, base, size)
                                 else old(Memory())
      ensures ok && usermode ==> UserCloned(old(entries), old(data.Keys), entries, old(dirs), src, dst, base, size)
      ensures ok && usermode ==> SpaceRead(old(Memory()), Memory(), src, dst, base, size)
      ensures ok && !usermode ==> entries == old(entries)
      ensures !ok ==> Stuck()
    {
      hide Layout, SysInv, Exact, Contents, Wired, Agrees, CloneSlots, SameOutsideOf, Untouched, Accounted, TablesOf,
           UserCloned, SlotsCloned, SpaceRead, Allocator.Valid;
      ghost var s, dirs0, tables0 := Abs(), dirs, tables;
      Balanced(dirs, tables);
      dst := CreateDirectory();
      if dst == 0 {
        return false, 0;
      }
      ok := CloneInto(src, dst, usermode, base, size, s, dirs0, tables0);
      if ok && usermode {
        ClonedUser(s, dirs0, tables0, entries, src, dst, base, size);
      }
    }

    /** Fill the new directory dst, which the state s did not have. */
    method CloneInto(src: nat, dst: nat, usermode: bool, base: nat, size: nat, ghost s: Sys, ghost dirs0: Dirs,
                     ghost tables0: Tables) returns (ok: bool)
      requires Valid() && src in dirs0 && dst !in dirs0 && dirs == dirs0[dst := EmptyDir()]
      requires Accounted(rest, s, dirs0, tables0) && Wired(dirs0, tables0)
      modifies this`dirs, this`tables, this`data, this`entries, pmm.Repr()
      ensures ok ==> Valid() && dst in dirs && dirs - {dst} == dirs0
      ensures ok ==> tables.Keys == tables0.Keys + TablesOf(dirs, dst) && tables0.Keys !! TablesOf(dirs, dst)
      ensures ok ==> Untouched(s, dirs0, tables0, Abs(), dirs, tables)
      ensures ok ==> Memory() == if usermode then CloneSlots(old(Memory()), dirs0, src, dst, USER_END, base, size)
                                 else old(Memory())
      ensures ok ==> SameOutsideOf(old(entries), entries, dst)
      ensures ok && usermode ==>
                SlotsCloned(old(entries), old(data.Keys), entries, dirs0, src, dst, USER_END, base, size)
      ensures ok && !usermode ==> entries == old(entries)
      ensures !ok ==> Stuck()
    {
      hide Layout, SysInv, Exact, Contents, Wired, CloneSlots, SameOutsideOf, Untouched, Accounted, TablesOf,
           SlotsCloned, Allocator.Valid;
      NewDir(dirs0, dst, EmptyDir());
      ok := CloneContents(src, dst, usermode, base, size, dirs0);
      if ok {
        Cloned(s, dirs0, tables0, dst);
      }
    }

    /** What the new directory brought with it. */
    lemma {:induction false} Cloned(s: Sys, dirs0: Dirs, tables0: Tables, dst: nat)
      requires Layout(dirs, tables) && Accounted(rest, s, dirs0, tables0) && Wired(dirs0, tables0)
      requires dst in dirs && dst !in dirs0 && dirs - {dst} == dirs0 - {dst}
      ensures tables.Keys == tables0.Keys + TablesOf(dirs, dst) && tables0.Keys !! TablesOf(dirs, dst)
      ensures Untouched(s, dirs0, tables0, Abs(), dirs, tables)
    {
      hide Layout, SysInv, Wired, Agrees, Accounted, Untouched, TablesOf, Allocator.Valid;
      Balanced(dirs, tables);
      TablesFollow(dirs0, tables0, dirs, tables, dst);
      RestUntouched(rest, s, dirs0, tables0, Abs(), dirs, tables);
    }

    /** What the clone's entries and bytes are, in addresses. */
    lemma {:induction false} ClonedUser(s: Sys, dirs0: Dirs, tables0: Tables, entries1: Entries, src: nat, dst: nat,
                                        base: nat, size: nat)
      requires SysInv(s) && Wired(dirs0, tables0) && Agrees(dirs0, tables0, s.entries) && src in dirs0 && dst !in dirs0
      requires SlotsCloned(s.entries, s.data.Keys, entries1, dirs0, src, dst, USER_END, base, size)
      ensures UserCloned(s.entries, s.data.Keys, entries1, dirs0, src, dst, base, size)
      ensures SpaceRead(Contents(s), CloneSlots(Contents(s), dirs0, src, dst, USER_END, base, size), src, dst, base,
                        size)
    {
      hide SysInv, Wired, Agrees, Contents, CloneSlots, UserCloned, SlotsCloned, SpaceRead;
      SlotsAreUser(s.entries, s.data.Keys, entries1, dirs0, tables0, src, dst, base, size);
      forall v: nat
        ensures Loc(dst, v) !in Contents(s)
        ensures Loc(src, v) in Contents(s) ==>
                  USER_FIRST <= v / SLOTS < USER_END && HasTable(dirs0, src, v / SLOTS)
      {
        WhereMapped(s, dirs0, tables0, Loc(dst, v));
        WhereMapped(s, dirs0, tables0, Loc(src, v));
      }
      CloneIsRead(Contents(s), dirs0, src, dst, base, size);
    }

    method CloneContents(src: nat, dst: nat, usermode: bool, base: nat, size: nat, ghost dirs0: Dirs) returns (ok: bool)
      requires Valid() && src in dirs0 && dst !in dirs0 && dirs == dirs0[dst := EmptyDir()]
      modifies this`dirs, this`tables, this`data, this`entries, pmm.Repr()
      ensures ok ==> Valid() && dst in dirs && dirs - {dst} == old(dirs) - {dst}
      ensures ok ==> Memory() == if usermode then CloneSlots(old(Memory()), dirs0, src, dst, USER_END, base, size)
                                 else old(Memory())
      ensures ok ==> SameOutsideOf(old(entries), entries, dst)
      ensures ok && usermode ==>
                SlotsCloned(old(entries), old(data.Keys), entries, dirs0, src, dst, USER_END, base, size)
      ensures ok && !usermode ==> entries == old(entries)
      ensures !ok ==> Stuck()
    {
      hide Layout, SysInv, Exact, Contents, CloneSlots, SameOutsideOf, SlotsCloned, Allocator.Valid;
      Balanced(dirs, tables);
      OutsideRefl(entries, dst);
      ok := true;
      if usermode {
        CloneSlotsSame(Memory(), dirs0, dirs, src, dst, USER_END, base, size);
        ghost var entries0, was := entries, data.Keys;
        ok := CloneUser(src, dst, base, size);
        if ok {
          SlotsOfSame(entries0, was, entries, old(dirs), dirs0, src, dst, base, size);
        }
      }
    }

    method CloneUser(src: nat, dst: nat, base: nat, size: nat) returns (ok: bool)
      requires Valid() && src in dirs && dst in dirs && src != dst
      requires forall i: nat :: !HasTable(dirs, dst, i)
      modifies this`dirs, this`tables, this`data, this`entries, pmm.Repr()
      ensures ok ==> Valid() && dst in dirs && dirs - {dst} == old(dirs) - {dst}
      ensures ok ==> Memory() == CloneSlots(old(Memory()), old(dirs), src, dst, USER_END, base, size)
      ensures ok ==> SameOutsideOf(old(entries), entries, dst)
      ensures ok ==> SlotsCloned(old(entries), old(data.Keys), entries, old(dirs), src, dst, USER_END, base, size)
      ensures !ok ==> Stuck()
    {
      hide SysInv, Exact, Contents, Wired, Agrees, Backed, CloneSlots, SameOutsideOf, SlotsCloned, SlotCloned,
           Allocator.Valid;
      ghost var m, dirs0 := Memory(), dirs;
      NoSlots(entries, data.Keys, dirs0, src, dst, base, size);
      CloneNothing(m, dirs0, src, dst, base, size);
      OutsideRefl(entries, dst);
      for i := USER_FIRST to USER_END
        invariant Valid() && dst in dirs && dirs - {dst} == dirs0 - {dst}
        invariant forall j: nat :: j >= i ==> !HasTable(dirs, dst, j)
        invariant Memory() == CloneSlots(m, dirs0, src, dst, i, base, size)
        invariant SameOutsideOf(old(entries), entries, dst)
        invariant SlotsCloned(old(entries), old(data.Keys), entries, dirs0, src, dst, i, base, size)
        invariant old(data.Keys) <= data.Keys
      {
        ghost var entries1, was1 := entries, data.Keys;
        ok := CloneSlot(src, dst, i, base, size, m, dirs0);
        if !ok {
          return;
        }
        OutsideTrans(old(entries), entries1, entries, dst);
        SlotsMore(old(entries), old(data.Keys), entries1, was1, entries, dirs0, src, dst, i, base, size);
      }
      ok := true;
    }

    /** One directory slot of a clone. */
    method CloneSlot(src: nat, dst: nat, i: nat, base: nat, size: nat, ghost m: map<Loc, Page>,
                     ghost dirs0: Dirs) returns (ok: bool)
      requires Valid() && src in dirs0 && dst in dirs && src != dst && USER_FIRST <= i < USER_END
      requires dirs - {dst} == dirs0 - {dst} && forall j: nat :: j >= i ==> !HasTable(dirs, dst, j)
      requires Memory() == CloneSlots(m, dirs0, src, dst, i, base, size)
      modifies this`dirs, this`tables, this`data, this`entries, pmm.Repr()
      ensures ok ==> Valid() && dst in dirs && dirs - {dst} == dirs0 - {dst}
      ensures ok ==> forall j: nat :: j > i ==> !HasTable(dirs, dst, j)
      ensures ok ==> Memory() == CloneSlots(m, dirs0, src, dst, i + 1, base, size)
      ensures ok ==> SameOutsideOf(old(entries), entries, dst)
      ensures ok ==> SlotCloned(old(entries), old(data.Keys), entries, dirs0, src, dst, i, base, size)
      ensures ok ==> old(data.Keys) <= data.Keys
      ensures !ok ==> Stuck()
    {
      hide SysInv, Exact, Contents, Wired, Agrees, Backed, CloneSlots, CloneRange, SameOutsideOf, RangeCloned,
           Allocator.Valid;
      CloneOneMore(m, dirs0, src, dst, i, base, size);
      SameSlot(dirs0, dirs, dst, src);
      DirSize(dirs, tables, src);
      DirSize(dirs, tables, dst);
      OutsideRefl(entries, dst);
      var t := 0;
      if dirs[src][i].present {
        ok, t := CloneTable(src, dst, i, base, size);
      } else if StackSlot(base, size, i) {
        ok, t := CreateStackTable(src, dst, i, base, size);
      } else {
        return true;
      }
      SetPdeOthers(dirs, dst, i, Pde(true, t));
      if ok {
        dirs := SetPde(dirs, dst, i, Pde(true, t));
      }
    }

    // ---------- copy-on-write faults ----------

    /** Resolve a write fault in the current space by a private copy. Memory reads the same before and after. */
    method HandleCowFault(addr: nat) returns (ok: bool)
      requires Valid() && current in dirs && addr / PAGE_BYTES / SLOTS < SLOTS
      modifies this`tables, this`data, this`entries, pmm.Repr()
      ensures Valid() && Memory() == old(Memory())
      ensures var at := Loc(current, addr / PAGE_BYTES);
              && (ok ==> OwnPage(old(data.Keys), entries, at))
              && (ok ==> SameBut(old(entries), entries, at) && Moved(old(entries), old(data), entries, at))
              && (!ok ==> entries == old(entries) && tables == old(tables))
              && (at in old(entries) && old(entries)[at].cow && old(CanAlloc(Abs())) <==> ok)
    {
      hide SysInv, Exact, Contents, Wired, Agrees, Backed, CanAlloc, SameBut, Moved, Allocator.Valid;
      var page := addr / PAGE_BYTES;
      DirSize(dirs, tables, current);
      if !dirs[current][page / SLOTS].present {
        NoTableNoMemory(Abs(), dirs, tables, current, page / SLOTS);
        MemoryKeys(Abs(), Loc(current, page));
        return false;
      }
      EntryFacts(Abs(), dirs, tables, Loc(current, page));
      var t := dirs[current][page / SLOTS].frame;
      var e := tables[t][page % SLOTS];
      if !e.present || !e.cow {
        return false;
      }
      ok := ResolveFault(t, Loc(current, page), e);
    }

    method ResolveFault(t: nat, at: Loc, e: Pte) returns (ok: bool)
      requires Valid() && at in entries && HasTable(dirs, at.dir, at.page / SLOTS)
      requires dirs[at.dir][at.page / SLOTS].frame == t
      requires e.present && e.user && e.cow && entries[at] == FlatEntry(e)
      modifies this`tables, this`data, this`entries, pmm.Repr()
      ensures Valid() && Memory() == old(Memory())
      ensures ok == old(CanAlloc(Abs()))
      ensures ok ==> OwnPage(old(data.Keys), entries, at)
      ensures ok ==> SameBut(old(entries), entries, at) && Moved(old(entries), old(data), entries, at)
      ensures !ok ==> entries == old(entries) && tables == old(tables)
    {
      hide SysInv, Exact, Contents, Wired, Agrees, Backed, SameKernel, EagerStep, AllocOrder, FaultEntry, SameBut,
           Moved, Allocator.Valid;
      ghost var s := Abs();
      FaultMapping(s, at);
      StepEffect(s, Fault(at));
      FaultEagerly(Contents(s), at);
      FaultEntries(s, at);
      var f := FaultFrames(at, e.frame);
      ok := f != 0;
      if ok {
        var e' := Pte(true, true, e.user, false, f);
        SysMapped(s);
        NewFrame(s);
        FreshFits(s.entries, s.data, at, e');
        SetPteAgrees(dirs, tables, s.entries, at, e');
        BackedKept(rest, s, Abs(), dirs, tables);
        SetPteBacked(rest, pmm.Abs(), data, dirs, tables, t, at.page % SLOTS, e');
        tables := SetPte(tables, t, at.page % SLOTS, e');
      }
    }

    /** The frames of a fault: allocate, copy, drop one reference to the old frame. */
    method FaultFrames(ghost at: Loc, shared: nat) returns (f: nat)
      requires Flat() && at in entries && entries[at].frame == shared
      modifies this`data, this`entries, pmm.Repr()
      ensures Flat() && Abs() == FaultEntry(old(Abs()), at)
      ensures f == AllocOrder(old(pmm.Abs()), 0).1 && (f != 0 <==> old(CanAlloc(Abs())))
    {
      hide SysInv, Exact, Contents, AllocOrder, FaultEntry, Release1;
      ghost var s := Abs();
      FaultParts(s, at);
      f := pmm.AllocOrder(0);
      if f == 0 {
        return;
      }
      data := data[f := data[shared]];
      entries := entries[at := Entry(f, true, false)];
      assert Abs() == FreshEntry(s, at, s.data[shared]);
      ReleaseFrame(shared);
    }

    /** Drop one reference to a data frame and free it when it was the last. */
    method ReleaseFrame(f: nat)
      requires pmm.Valid() && f < |pmm.owner| && pmm.owner[f] == Live(f, 0) && f < |pmm.Abs().refs|
      requires pmm.Abs().refs[f] > 0
      modifies this`data, pmm.Repr()
      ensures pmm.Valid() && Abs() == Release1(old(Abs()), f)
    {
      hide Inv, BuddyState.FreePage, DecRef;
      var count := pmm.DecRefcount(f);
      if count == 0 {
        pmm.FreePage(f);
        data := data - {f};
      }
    }

    // ---------- teardown ----------

    /** Give up one page: drop the reference of a shared frame, free a private one. */
    method DropFrames(ghost at: Loc, e: Pte)
      requires Flat() && at in entries && entries[at] == FlatEntry(e)
      modifies this`data, this`entries, pmm.Repr()
      ensures Flat() && Abs() == DropEntry(old(Abs()), at)
    {
      hide SysInv, Exact, Contents, DropEntry, Release1, BuddyState.FreePage;
      ghost var s := Abs();
      DropParts(s, at);
      entries := entries - {at};
      if e.cow {
        ReleaseFrame(e.frame);
      } else {
        pmm.FreePage(e.frame);
        data := data - {e.frame};
      }
    }

    /** Entry j of a table that is being torn down; the table itself is freed later, so it is not written. */
    method DropNext(d: nat, i: nat, j: nat, e: Pte, t: nat, ghost m: map<Loc, Page>, ghost vdirs: Dirs,
                    ghost vtables: Tables)
      requires Layout(vdirs, vtables) && j < SLOTS && HasTable(vdirs, d, i) && vdirs[d][i].frame == t
      requires t in vtables && |vtables[t]| == SLOTS && vtables[t][j] == e
      requires Memory() == WithoutPages(m, d, i * SLOTS, j)
      modifies this`data, this`entries, pmm.Repr()
      ensures Layout(vdirs, SetPte(vtables, t, j, NO_PTE))
      ensures Memory() == WithoutPages(m, d, i * SLOTS, j + 1)
      ensures SameOutsideOf(old(entries), entries, d)
    {
      hide SysInv, Exact, Contents, Wired, Agrees, Backed, HoldsFrame, SameOutsideOf, Allocator.Valid;
      OutsideRefl(entries, d);
      ghost var at := Loc(d, i * SLOTS + j);
      SlotOf(i, j);
      EntryFacts(Abs(), vdirs, vtables, at);
      if e.present {
        DropPresent(at, e, t, vdirs, vtables);
      } else {
        SetPteAgrees(vdirs, vtables, entries, at, NO_PTE);
        NotThere(entries, at);
        NotThere(Memory(), at);
        SetPteBacked(rest, pmm.Abs(), data, vdirs, vtables, t, j, NO_PTE);
      }
    }

    method DropPresent(ghost at: Loc, e: Pte, t: nat, ghost vdirs: Dirs, ghost vtables: Tables)
      requires Layout(vdirs, vtables) && HasTable(vdirs, at.dir, at.page / SLOTS)
      requires vdirs[at.dir][at.page / SLOTS].frame == t
      requires at in entries && entries[at] == FlatEntry(e) && t in vtables && |vtables[t]| == SLOTS
      modifies this`data, this`entries, pmm.Repr()
      ensures Layout(vdirs, SetPte(vtables, t, at.page % SLOTS, NO_PTE))
      ensures Memory() == old(Memory()) - {at}
      ensures SameOutsideOf(old(entries), entries, at.dir)
    {
      hide SysInv, Exact, Contents, Wired, Agrees, Backed, SameKernel, DropEntry, HoldsFrame, SameOutsideOf,
           Allocator.Valid;
      ghost var s := Abs();
      DropOutside(s.entries, at);
      SetPteAgrees(vdirs, vtables, s.entries, at, NO_PTE);
      DropEffect(s, at);
      DropFrames(at, e);
      BackedKept(rest, s, Abs(), vdirs, vtables);
      SetPteBacked(rest, pmm.Abs(), data, vdirs, vtables, t, at.page % SLOTS, NO_PTE);
    }

    /** Free every page a table maps, then the table. The directory slot is left as it is. */
    method FreeTable(d: nat, i: nat, t: nat, ghost vdirs: Dirs)
      requires Layout(vdirs, tables) && HasTable(vdirs, d, i) && vdirs[d][i].frame == t && t in tables && d in vdirs
      modifies this`tables, this`data, this`entries, pmm.Repr()
      ensures tables == old(tables) - {t} && Layout(SetPde(vdirs, d, i, NO_PDE), tables)
      ensures Memory() == WithoutPages(old(Memory()), d, i * SLOTS, SLOTS)
      ensures SameOutsideOf(old(entries), entries, d)
    {
      hide SysInv, Exact, Contents, Wired, Agrees, Backed, Gave, SameOutsideOf, Allocator.Valid;
      ghost var m := Memory();
      ghost var vtables := tables;
      TableSize(vdirs, tables, t);
      OutsideRefl(entries, d);
      for j := 0 to SLOTS
        invariant tables == old(tables) && Layout(vdirs, vtables) && ClearedTo(tables, vtables, t, j)
        invariant Memory() == WithoutPages(m, d, i * SLOTS, j)
        invariant SameOutsideOf(old(entries), entries, d)
      {
        ghost var entries1 := entries;
        DropNext(d, i, j, tables[t][j], t, m, vdirs, vtables);
        OutsideTrans(old(entries), entries1, entries, d);
        ClearNext(tables, vtables, t, j);
        vtables := SetPte(vtables, t, j, NO_PTE);
      }
      FinishTable(d, i, t, m, vdirs, vtables);
    }

    /** Free the table itself once its pages are gone. */
    method FinishTable(d: nat, i: nat, t: nat, ghost m: map<Loc, Page>, ghost vdirs: Dirs, ghost vtables: Tables)
      requires Layout(vdirs, vtables) && HasTable(vdirs, d, i) && vdirs[d][i].frame == t
      requires ClearedTo(tables, vtables, t, SLOTS)
      requires Memory() == WithoutPages(m, d, i * SLOTS, SLOTS)
      modifies this`tables, pmm.Repr()
      ensures tables == old(tables) - {t} && Layout(SetPde(vdirs, d, i, NO_PDE), tables)
      ensures Memory() == old(Memory())
    {
      hide Layout, Loose, SysInv, Exact, Contents, ClearedTo, WithoutPages, SetPde, HasTable, Allocator.Valid;
      TableLoose(d, i, t, m, vdirs, vtables);
      GiveBack(t, SetPde(vdirs, d, i, NO_PDE), tables - {t});
      tables := tables - {t};
    }

    lemma {:induction false} TableLoose(d: nat, i: nat, t: nat, m: map<Loc, Page>, vdirs: Dirs, vtables: Tables)
      requires Layout(vdirs, vtables) && HasTable(vdirs, d, i) && vdirs[d][i].frame == t
      requires ClearedTo(tables, vtables, t, SLOTS)
      requires Memory() == WithoutPages(m, d, i * SLOTS, SLOTS)
      ensures Loose(t, SetPde(vdirs, d, i, NO_PDE), tables - {t})
    {
      hide SysInv, Exact, Contents, Wired, Agrees, Backed, HoldsFrame, WithoutPages, SetPde, ClearedTo, HasTable,
           Allocator.Valid;
      TableOut(rest, Abs(), m, vdirs, tables, vtables, d, i, t);
    }

    /** Free every user page and table of a space. Its directory keeps its stale slots. */
    method FreeUserPages(d: nat) returns (ghost vdirs: Dirs)
      requires Valid() && d in dirs
      modifies this`tables, this`data, this`entries, pmm.Repr()
      ensures Layout(vdirs, tables) && SlotsCleared(dirs, vdirs, d, USER_END)
      ensures Memory() == WithoutSlots(old(Memory()), dirs, d, USER_END)
      ensures SameOutsideOf(old(entries), entries, d)
    {
      hide SysInv, Exact, Contents, Wired, Agrees, Backed, WithoutPages, SlotsCleared, SetPde, SameOutsideOf,
           Allocator.Valid;
      ghost var m := Memory();
      vdirs := dirs;
      OutsideRefl(entries, d);
      DirSize(dirs, tables, d);
      NoSlotBelow(dirs, tables, d);
      for i := USER_FIRST to USER_END
        invariant Layout(vdirs, tables) && SlotsCleared(dirs, vdirs, d, i)
        invariant Memory() == WithoutSlots(m, dirs, d, i)
        invariant SameOutsideOf(old(entries), entries, d)
      {
        ClearSlot(dirs, vdirs, d, i);
        if dirs[d][i].present {
          SlotHasTable(vdirs, tables, d, i);
          ghost var entries1 := entries;
          FreeTable(d, i, dirs[d][i].frame, vdirs);
          OutsideTrans(old(entries), entries1, entries, d);
          vdirs := SetPde(vdirs, d, i, NO_PDE);
        }
      }
    }

    /** Free a directory whose user slots are all gone. */
    method FreeDirectory(d: nat, ghost vdirs: Dirs)
      requires Layout(vdirs, tables) && SlotsCleared(dirs, vdirs, d, USER_END)
      modifies this`dirs, pmm.Repr()
      ensures Valid() && dirs == old(dirs) - {d} && Memory() == old(Memory())
    {
      hide Layout, Loose, SysInv, Exact, Contents, SlotsCleared, Allocator.Valid;
      DirLoose(d, vdirs);
      dirs := dirs - {d};
      GiveBack(d, dirs, tables);
    }

    lemma {:induction false} DirLoose(d: nat, vdirs: Dirs)
      requires Layout(vdirs, tables) && SlotsCleared(dirs, vdirs, d, USER_END)
      ensures Loose(d, dirs - {d}, tables)
    {
      hide SysInv, Exact, Contents, Wired, Agrees, Backed, Gave, HoldsFrame, SlotsCleared, Allocator.Valid;
      DirOut(rest, pmm.Abs(), data, entries, dirs, vdirs, tables, d);
    }

    /** Tear a space down: its pages, its tables and its directory go. Every other space reads on as before and keeps
        its directory, its tables and its page frames, and so does the rest of the kernel. */
    method Destroy(d: nat)
      requires Valid() && d in dirs
      modifies this`dirs, this`tables, this`data, this`entries, pmm.Repr()
      ensures Valid() && dirs == old(dirs) - {d}
      ensures old(tables).Keys == tables.Keys + TablesOf(old(dirs), d) && tables.Keys !! TablesOf(old(dirs), d)
      ensures SameOutsideOf(old(entries), entries, d) && NoneOf(entries, d)
      ensures Untouched(old(Abs()), old(dirs), old(tables), Abs(), dirs, tables)
      ensures Memory() == WithoutSpace(old(Memory()), d)
    {
      hide Layout, SysInv, Exact, Contents, Wired, Agrees, WithoutSlots, WithoutSpace, SlotsCleared, SameOutsideOf,
           NoneOf, Untouched, Accounted, Allocator.Valid;
      Balanced(dirs, tables);
      SpaceEmptied(Abs(), dirs, tables, d);
      WithoutItself(dirs, d);
      ghost var vdirs := FreeUserPages(d);
      FreeDirectory(d, vdirs);
      Balanced(dirs, tables);
      TablesFollow(dirs, tables, old(dirs), old(tables), d);
      RestUntouched(rest, old(Abs()), old(dirs), old(tables), Abs(), dirs, tables);
      NoneLeft(Abs(), old(Memory()), d);
    }

    // ---------- user accesses ----------

    /** A user write in the current space: done when the entry is writable, after resolving a copy-on-write
        fault when it is not, and refused otherwise. */
    method Store(addr: nat, value: int) returns (ok: bool)
      requires Valid() && current in dirs && addr / PAGE_BYTES / SLOTS < SLOTS
      modifies this`tables, this`data, this`entries, pmm.Repr()
      ensures Valid()
      ensures var at := Loc(current, addr / PAGE_BYTES);
              && (ok <==> at in old(entries) && (old(entries)[at].rw || (old(entries)[at].cow && old(CanAlloc(Abs())))))
              && (!ok ==> Memory() == old(Memory()) && entries == old(entries))
              && (ok ==> SameBut(old(entries), entries, at) && Moved(old(entries), old(data), entries, at))
              && (ok ==> at in old(Memory()) &&
                         Memory() == old(Memory())[at := old(Memory())[at][addr % PAGE_BYTES := value]])
    {
      hide SysInv, Exact, Contents, Wired, Agrees, Backed, CanAlloc, SameBut, Moved, Allocator.Valid;
      var page := addr / PAGE_BYTES;
      ghost var at := Loc(current, page);
      NothingMoved(entries, data, at);
      DirSize(dirs, tables, current);
      MemoryKeys(Abs(), at);
      if !dirs[current][page / SLOTS].present {
        NoTableNoMemory(Abs(), dirs, tables, current, page / SLOTS);
        return false;
      }
      EntryFacts(Abs(), dirs, tables, at);
      var e := tables[dirs[current][page / SLOTS].frame][page % SLOTS];
      if !e.present {
        return false;
      }
      if e.rw {
        WriteThrough(at, e.frame, addr % PAGE_BYTES, value);
        return true;
      }
      ok := HandleCowFault(addr);
      if ok {
        PresentFacts(Abs(), dirs, tables, at);
        var f := tables[dirs[current][page / SLOTS].frame][page % SLOTS].frame;
        WriteThrough(at, f, addr % PAGE_BYTES, value);
      }
    }

    /** Write one byte of a page through a writable entry. */
    method WriteThrough(ghost at: Loc, f: nat, offset: nat, value: int)
      requires Valid() && at in entries && entries[at].rw && entries[at].frame == f && offset < PAGE_BYTES
      modifies this`data
      ensures Valid()
      ensures at in old(Memory()) && Memory() == old(Memory())[at := old(Memory())[at][offset := value]]
    {
      hide SysInv, Exact, Contents, Wired, Agrees, Backed, SameKernel, EagerStep, WriteByte;
      ghost var s := Abs();
      WriteValue(s, at, offset, value);
      WriteEffect(s, at, offset, value);
      data := data[f := data[f][offset := value]];
      BackedKept(rest, s, Abs(), dirs, tables);
      assert Abs() == WriteByte(s, at, offset, value);
    }

    // ---------- heap pages ----------

    /** The table of slot i of the current directory, made if it is absent; fails when memory is exhausted. */
    method EnsureTable(d: nat, i: nat, ghost spare: nat) returns (ok: bool)
      requires Loose(spare, dirs, tables) && d in dirs && USER_FIRST <= i < USER_END
      modifies this`dirs, this`tables, pmm.Repr()
      ensures Loose(spare, dirs, tables) && Memory() == old(Memory()) && dirs.Keys == old(dirs).Keys
      ensures ok <==> HasTable(old(dirs), d, i) || old(Room(pmm.Abs())) > 0
      ensures ok ==> HasTable(dirs, d, i) && Tabled(old(dirs), dirs, d, i)
      ensures ok ==> Room(pmm.Abs()) == old(Room(pmm.Abs())) - TableCost(old(dirs), d, i)
      ensures pmm.used == old(pmm.used) + if ok then TableCost(old(dirs), d, i) else 0
      ensures !ok ==> dirs == old(dirs) && Room(pmm.Abs()) == old(Room(pmm.Abs()))
    {
      hide SysInv, Exact, Contents, Wired, Agrees, Backed, Took, AllocOrder, HoldsFrame, Allocator.Valid, Room,
           HasTable, SetPde, Tabled, EmptyTable;
      RoomNonneg(Abs());
      DirSize(dirs, tables, d);
      SlotPresent(dirs, d, i);
      if dirs[d][i].present {
        return true;
      }
      ghost var p := pmm.Abs();
      var t := TakeFrame();
      if t == 0 {
        return false;
      }
      SpareKept(p, pmm.Abs(), data, spare, t);
      TableIn(rest, p, pmm.Abs(), data, dirs, tables, entries, d, i, t);
      TabledBy(dirs, d, i, Pde(true, t));
      SpareApart(dirs, tables, d, i, t, spare);
      tables := tables[t := EmptyTable()];
      dirs := SetPde(dirs, d, i, Pde(true, t));
      return true;
    }

    /** Map a new zeroed writable page at v in the space d, where nothing is mapped. */
    method MapFresh(d: nat, v: nat) returns (ok: bool)
      requires Valid() && d in dirs && USER_FIRST <= v / SLOTS < USER_END && Loc(d, v) !in Memory()
      modifies this`dirs, this`tables, this`data, this`entries, pmm.Repr()
      ensures Valid() && dirs.Keys == old(dirs).Keys
      ensures Memory() == if ok then old(Memory())[Loc(d, v) := ZeroPage()] else old(Memory())
      ensures ok <==> old(Room(pmm.Abs())) >= 1 + TableCost(old(dirs), d, v / SLOTS)
      ensures if ok then Tabled(old(dirs), dirs, d, v / SLOTS) else dirs == old(dirs)
      ensures Room(pmm.Abs()) == old(Room(pmm.Abs())) - if ok then 1 + TableCost(old(dirs), d, v / SLOTS) else 0
      ensures pmm.used == old(pmm.used) + if ok then 1 + TableCost(old(dirs), d, v / SLOTS) else 0
      ensures if ok then Added(old(entries), entries, Loc(d, v)) else entries == old(entries)
    {
      hide Layout, Loose, SysInv, Exact, Contents, Wired, Agrees, SameOutsideOf, Added, HasTable, Allocator.Valid, Room,
           Tabled, Accounted;
      Balanced(dirs, tables);
      RoomNonneg(Abs());
      MemoryKeys(Abs(), Loc(d, v));
      AddedBy(entries, Loc(d, v));
      var f := TakeLoose(dirs, tables);
      if f == 0 {
        return false;
      }
      ok := EnsureTable(d, v / SLOTS, f);
      if ok {
        LooseTable(f, d, v / SLOTS);
        PlacePage(dirs[d][v / SLOTS].frame, Loc(d, v), f, ZeroPage(), dirs);
      } else {
        GiveBack(f, dirs, tables);
      }
    }

    lemma {:induction false} LooseTable(f: nat, d: nat, i: nat)
      requires Loose(f, dirs, tables) && HasTable(dirs, d, i)
      ensures d in dirs && i < |dirs[d]| && dirs[d][i].frame in tables
    {
      SlotHasTable(dirs, tables, d, i);
    }

    /** Unmap the page at v of the space d, if any, and free its frame unless it is shared. */
    method UnmapPage(d: nat, v: nat)
      requires Valid() && d in dirs && v / SLOTS < SLOTS
      modifies this`tables, this`data, this`entries, this`lost, pmm.Repr()
      ensures Valid() && dirs == old(dirs)
      ensures Memory() == old(Memory()) - {Loc(d, v)} && Gone(old(entries), entries, Loc(d, v))
      ensures Loc(d, v) in old(entries) && old(entries)[Loc(d, v)].rw ==> pmm.used == old(pmm.used) - 1
    {
      hide SysInv, Exact, Contents, Wired, Agrees, Backed, Allocator.Valid;
      DirSize(dirs, tables, d);
      var at := Loc(d, v);
      MemoryKeys(Abs(), at);
      if !dirs[d][v / SLOTS].present {
        NoTableNoMemory(Abs(), dirs, tables, d, v / SLOTS);
        NotThere(Memory(), at);
        NotThere(entries, at);
        return;
      }
      EntryFacts(Abs(), dirs, tables, at);
      var t := dirs[d][v / SLOTS].frame;
      var e := tables[t][v % SLOTS];
      if e.present {
        UnmapPresent(at, e, t);
      } else {
        NotThere(Memory(), at);
        NotThere(entries, at);
      }
    }

    method UnmapPresent(at: Loc, e: Pte, t: nat)
      requires Valid() && HasTable(dirs, at.dir, at.page / SLOTS) && dirs[at.dir][at.page / SLOTS].frame == t
      requires at in entries && entries[at] == FlatEntry(e) && t in tables && |tables[t]| == SLOTS
      modifies this`tables, this`data, this`entries, this`lost, pmm.Repr()
      ensures Valid() && Memory() == old(Memory()) - {at} && Gone(old(entries), entries, at)
      ensures old(entries)[at].rw ==> pmm.used == old(pmm.used) - 1
    {
      hide SysInv, Exact, Contents, Wired, Agrees, Backed, UnmapEntry, HasTable, Gone, Allocator.Valid;
      ghost var s := Abs();
      UnmapStep(rest, s, dirs, tables, at, t);
      UnmapFrames(at, e.frame);
      tables := SetPte(tables, t, at.page % SLOTS, NO_PTE);
    }

    method UnmapFrames(ghost at: Loc, f: nat)
      requires Flat() && at in entries && entries[at].frame == f
      modifies this`data, this`entries, this`lost, pmm.Repr()
      ensures Flat() && Abs() == UnmapEntry(old(Abs()), at)
    {
      hide SysInv, Exact, Contents, UnmapEntry, Inv, LostAt, BuddyState.FreePage;
      ghost var s := Abs();
      UnmapParts(s, at);
      var count := pmm.GetRefcount(f);
      FreeUnlessShared(f, count);
      entries := entries - {at};
    }

    /** Ask for a free; the allocator refuses when the frame is shared. */
    method FreeUnlessShared(f: nat, count: nat)
      requires pmm.Valid() && f < pmm.total && pmm.owner[f] == Live(f, 0)
      modifies this`data, this`lost, pmm.Repr()
      ensures pmm.Valid() && pmm.Abs() == BuddyState.FreePage(old(pmm.Abs()), f)
      ensures if count <= 1 then data == old(data) - {f} && lost == old(lost)
              else data == old(data) && lost == old(lost)[f := LostAt(old(lost), f) + 1]
    {
      hide Inv, BuddyState.FreePage;
      pmm.FreePage(f);
      if count <= 1 {
        data := data - {f};
      } else {
        lost := lost[f := LostAt(lost, f) + 1];
      }
    }

    /** One more reference, and both entries. */
    method CountMapper(ghost src: Loc, ghost dst: Loc, e: Pte)
      requires pmm.Valid() && e.frame < pmm.total && StatusBit(pmm.owner[e.frame], e.frame)
      modifies this`entries, pmm.refcount
      ensures pmm.Valid() && e.frame < |old(Abs()).pmm.refs| && Abs() == SharedSys(old(Abs()), src, dst, e)
    {
      hide Inv, IncRef;
      var count := pmm.IncRefcount(e.frame);
      entries := entries[src := FlatEntry(e)][dst := FlatEntry(e)];
    }

    method ShareCounted(st: nat, dt: nat, src: Loc, dst: Loc, e: Pte, ghost vdirs: Dirs)
      requires Layout(vdirs, tables)
      requires HasTable(vdirs, src.dir, src.page / SLOTS) && vdirs[src.dir][src.page / SLOTS].frame == st
      requires HasTable(vdirs, dst.dir, dst.page / SLOTS) && vdirs[dst.dir][dst.page / SLOTS].frame == dt
      requires src in entries && dst !in entries && e.present && e.user && e.cow && !e.rw
      requires e.frame == entries[src].frame
      requires src.page == dst.page
      requires e.frame < pmm.total && StatusBit(pmm.owner[e.frame], e.frame) && Sharable(pmm.Abs(), e.frame)
      modifies this`tables, this`entries, pmm.refcount
      ensures tables.Keys == old(tables.Keys) && Layout(vdirs, tables)
      ensures src in old(Memory()) && Memory() == old(Memory())[dst := old(Memory())[src]]
      ensures SameOutsideOf(old(entries), entries, dst.dir)
      ensures entries == old(entries)[src := FlatEntry(e)][dst := FlatEntry(e)]
    {
      hide SysInv, Exact, Contents, Wired, Agrees, Backed, SameKernel, SameOutsideOf, HasTable, SharedSys,
           Allocator.Valid;
      ghost var s := Abs();
      ShareSys(s, src, dst, e);
      ShareLayout(vdirs, tables, entries, src, dst, e);
      CountMapper(src, dst, e);
      assert this !in pmm.Repr();
      ShareBacked(rest, s, Abs(), vdirs, tables, st, src.page % SLOTS, dt, dst.page % SLOTS, e);
      tables := SetPte(SetPte(tables, st, src.page % SLOTS, e), dt, dst.page % SLOTS, e);
    }
  }
}
