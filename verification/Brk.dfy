/**
 * The heap end of a task (kernel/kernel/task/syscall/brk.c): growing maps fresh zeroed pages and takes every one of
 * them back when memory runs out, shrinking unmaps pages, and no other page of any address space changes.
 */
module Brk {
  import opened CowMachine
  import opened BuddyRuns
  import opened PageTables
  import opened SpaceFrames
  import opened SpaceMemory
  import opened Paging
  import opened PageAllocator

  const ENOMEM := 12

  /** The first page at or above an address. */
  function PageUp(addr: nat): nat
  {
    (addr + PAGE_BYTES - 1) / PAGE_BYTES
  }

  lemma {:induction false} PageUpMono(a: nat, b: nat)
    requires a <= b
    ensures PageUp(a) <= PageUp(b)
  {
  }

  /** Memory with n zeroed pages of space d from page `lo` on. */
  function Grown(m: map<Loc, Page>, d: nat, lo: nat, n: nat): map<Loc, Page>
  {
    if n == 0 then m else Grown(m, d, lo, n - 1)[Loc(d, lo + n - 1) := ZeroPage()]
  }

  lemma {:induction false} GrownAt(m: map<Loc, Page>, d: nat, lo: nat, n: nat, l: Loc)
    ensures var r := Grown(m, d, lo, n);
            var new_ := l.dir == d && lo <= l.page < lo + n;
            && (l in r <==> l in m || new_)
            && (l in r ==> r[l] == if new_ then ZeroPage() else m[l])
  {
    if n > 0 {
      GrownAt(m, d, lo, n - 1, l);
    }
  }

  /** No page of d is mapped from page lo up to page hi. */
  ghost predicate ClearFrom(m: map<Loc, Page>, d: nat, lo: nat, hi: nat)
  {
    forall v: nat :: lo <= v < hi ==> Loc(d, v) !in m
  }

  /** Taking back the pages just added gives the old memory. */
  lemma {:induction false} GrowUndone(m: map<Loc, Page>, d: nat, lo: nat, n: nat)
    requires ClearFrom(m, d, lo, lo + n)
    ensures WithoutPages(Grown(m, d, lo, n), d, lo, n) == m
  {
    var g := Grown(m, d, lo, n);
    var r := WithoutPages(g, d, lo, n);
    forall l: Loc ensures (l in r <==> l in m) && (l in r ==> r[l] == m[l]) {
      GrownAt(m, d, lo, n, l);
      WithoutPagesAt(g, d, lo, n, l);
      assert l.dir == d && lo <= l.page < lo + n ==> Loc(d, l.page) !in m;
    }
  }

  lemma {:induction false} GrownClear(m: map<Loc, Page>, d: nat, lo: nat, n: nat, hi: nat)
    requires ClearFrom(m, d, lo, hi)
    ensures ClearFrom(Grown(m, d, lo, n), d, lo + n, hi)
  {
    var g := Grown(m, d, lo, n);
    forall v: nat | lo + n <= v < hi ensures Loc(d, v) !in g {
      GrownAt(m, d, lo, n, Loc(d, v));
    }
  }

  lemma {:induction false} ShrunkClear(m: map<Loc, Page>, d: nat, lo: nat, n: nat, hi: nat)
    requires ClearFrom(m, d, lo + n, hi)
    ensures ClearFrom(WithoutPages(m, d, lo, n), d, lo, hi)
  {
    var g := WithoutPages(m, d, lo, n);
    forall v: nat | lo <= v < hi ensures Loc(d, v) !in g {
      WithoutPagesAt(m, d, lo, n, Loc(d, v));
    }
  }

  /** The memory after moving the heap end from page `from` to page `to`. */
  function Moved(m: map<Loc, Page>, d: nat, from: nat, to: nat): map<Loc, Page>
  {
    if from <= to then Grown(m, d, from, to - from) else WithoutPages(m, d, to, from - to)
  }

  lemma {:induction false} MovedNone(m: map<Loc, Page>, d: nat, n: nat)
    ensures Moved(m, d, n, n) == m
  {
  }

  lemma {:induction false} MovedClear(m: map<Loc, Page>, d: nat, from: nat, to: nat, hi: nat)
    requires ClearFrom(m, d, from, hi)
    ensures ClearFrom(Moved(m, d, from, to), d, to, hi)
  {
    if from <= to {
      GrownClear(m, d, from, to - from, hi);
    } else {
      ShrunkClear(m, d, to, from - to, hi);
    }
  }

  // ---------- byte addresses ----------

  lemma {:induction false} PageUpIff(addr: nat, v: nat)
    ensures PageUp(addr) <= v <==> addr <= v * PAGE_BYTES
  {
  }

  /** Some page begins at or above a and below b. */
  ghost predicate PageBegins(a: nat, b: nat)
  {
    exists v: nat :: a <= v * PAGE_BYTES < b
  }

  lemma {:induction false} PageBeginsIff(a: nat, b: nat)
    ensures PageBegins(a, b) <==> PageUp(a) < PageUp(b)
  {
    PageUpIff(a, PageUp(a));
    PageUpIff(b, PageUp(a));
    if PageBegins(a, b) {
      var v: nat :| a <= v * PAGE_BYTES < b;
      PageUpIff(a, v);
      PageUpIff(b, v);
    }
  }

  /** No page of d that begins at or above a and below b is mapped. */
  ghost predicate ClearBytes(m: map<Loc, Page>, d: nat, a: nat, b: nat)
  {
    forall v: nat :: a <= v * PAGE_BYTES < b ==> Loc(d, v) !in m
  }

  lemma {:induction false} ClearBytesIff(m: map<Loc, Page>, d: nat, a: nat, b: nat)
    ensures ClearBytes(m, d, a, b) <==> ClearFrom(m, d, PageUp(a), PageUp(b))
  {
    forall v: nat ensures a <= v * PAGE_BYTES < b <==> PageUp(a) <= v < PageUp(b) {
      PageUpIff(a, v);
      PageUpIff(b, v);
    }
  }

  /** Moving the heap end from one address to another, at one page: pages that begin below the new end and not below the
      old one are zero, those that begin below the old end and not below the new one are gone, all others stay. */
  ghost predicate MovedAt(m: map<Loc, Page>, m': map<Loc, Page>, d: nat, from: nat, to: nat, l: Loc)
  {
    if l.dir == d && from <= l.page * PAGE_BYTES < to then
      l in m' && forall i :: 0 <= i < PAGE_BYTES ==> m'[l][i] == 0
    else if l.dir == d && to <= l.page * PAGE_BYTES < from then l !in m'
    else (l in m' <==> l in m) && (l in m ==> m'[l] == m[l])
  }

  ghost predicate MovedBytes(m: map<Loc, Page>, m': map<Loc, Page>, d: nat, from: nat, to: nat)
  {
    forall l: Loc :: MovedAt(m, m', d, from, to, l)
  }

  lemma {:induction false} MovedBytesIs(m: map<Loc, Page>, d: nat, from: nat, to: nat)
    ensures MovedBytes(m, Moved(m, d, PageUp(from), PageUp(to)), d, from, to)
  {
    var a, b := PageUp(from), PageUp(to);
    forall l: Loc ensures MovedAt(m, Moved(m, d, a, b), d, from, to, l) {
      PageUpIff(from, l.page);
      PageUpIff(to, l.page);
      if a <= b {
        GrownAt(m, d, a, b - a, l);
      } else {
        WithoutPagesAt(m, d, b, a - b, l);
      }
    }
  }

  /** In bytes: every byte below the new end whose page begins at or above the old one is there and 0. */
  lemma {:induction false} GrownByte(m: map<Loc, Page>, m': map<Loc, Page>, d: nat, from: nat, to: nat, x: nat)
    requires MovedBytes(m, m', d, from, to) && from <= x / PAGE_BYTES * PAGE_BYTES && x < to
    ensures Loc(d, x / PAGE_BYTES) in m' && m'[Loc(d, x / PAGE_BYTES)][x % PAGE_BYTES] == 0
  {
    assert MovedAt(m, m', d, from, to, Loc(d, x / PAGE_BYTES));
  }

  // ---------- what growing costs ----------

  /** Frames that n pages from page lo on need: one per page and one per table that is missing. */
  function Cost(dirs: Dirs, d: nat, lo: nat, n: nat): nat
  {
    if n == 0 then 0 else Cost(dirs, d, lo, n - 1) + PageCost(dirs, d, lo, n - 1)
  }

  /** What page lo + i costs after the ones before it. */
  function PageCost(dirs: Dirs, d: nat, lo: nat, i: nat): nat
  {
    1 + if HasTable(dirs, d, (lo + i) / SLOTS) || (i > 0 && (lo + i - 1) / SLOTS == (lo + i) / SLOTS) then 0 else 1
  }

  lemma {:induction false} CostMono(dirs: Dirs, d: nat, lo: nat, i: nat, n: nat)
    requires i <= n
    ensures Cost(dirs, d, lo, i) <= Cost(dirs, d, lo, n)
  {
    if i < n {
      CostMono(dirs, d, lo, i, n - 1);
    }
  }

  /** Tables after i pages: those of before and those of the slots that the pages touch. */
  ghost predicate TablesAfter(dirs0: Dirs, dirs: Dirs, d: nat, lo: nat, i: nat)
  {
    forall s: nat :: SlotAfter(dirs0, dirs, d, lo, i, s)
  }

  ghost predicate SlotAfter(dirs0: Dirs, dirs: Dirs, d: nat, lo: nat, i: nat, s: nat)
  {
    HasTable(dirs, d, s) <==> HasTable(dirs0, d, s) || (i > 0 && lo / SLOTS <= s <= (lo + i - 1) / SLOTS)
  }

  lemma {:induction false} TablesNext(dirs0: Dirs, dirs: Dirs, dirs': Dirs, d: nat, lo: nat, i: nat)
    requires TablesAfter(dirs0, dirs, d, lo, i) && Tabled(dirs, dirs', d, (lo + i) / SLOTS)
    ensures TablesAfter(dirs0, dirs', d, lo, i + 1)
  {
    SlotSteps(lo, i);
    var n := i + 1;
    forall s: nat ensures SlotAfter(dirs0, dirs', d, lo, n, s) {
      assert SlotAfter(dirs0, dirs, d, lo, i, s);
    }
  }

  lemma {:induction false} SlotSteps(lo: nat, i: nat)
    ensures i > 0 ==> (lo + i - 1) / SLOTS <= (lo + i) / SLOTS <= (lo + i - 1) / SLOTS + 1
    ensures i > 0 ==> lo / SLOTS <= (lo + i - 1) / SLOTS
  {
  }

  lemma {:induction false} CostNow(dirs0: Dirs, dirs: Dirs, d: nat, lo: nat, i: nat)
    requires TablesAfter(dirs0, dirs, d, lo, i)
    ensures PageCost(dirs0, d, lo, i) == 1 + TableCost(dirs, d, (lo + i) / SLOTS)
  {
    SlotSteps(lo, i);
    assert SlotAfter(dirs0, dirs, d, lo, i, (lo + i) / SLOTS);
  }

  // ---------- pages just made ----------

  /** Pages lo to lo + n of d are mapped writable. */
  ghost predicate FreshPages(entries: map<Loc, Entry>, d: nat, lo: nat, n: nat)
  {
    StillFresh(entries, d, lo, 0, n)
  }

  ghost predicate StillFresh(entries: map<Loc, Entry>, d: nat, lo: nat, i: nat, n: nat)
  {
    forall v: nat :: lo + i <= v < lo + n ==> Loc(d, v) in entries && entries[Loc(d, v)].rw
  }

  lemma {:induction false} NoneFresh(entries: map<Loc, Entry>, d: nat, lo: nat)
    ensures FreshPages(entries, d, lo, 0)
  {
  }

  lemma {:induction false} FreshAll(entries: map<Loc, Entry>, d: nat, lo: nat, n: nat)
    ensures FreshPages(entries, d, lo, n) ==> StillFresh(entries, d, lo, 0, n)
  {
  }

  lemma {:induction false} OneMoreFresh(entries: map<Loc, Entry>, entries': map<Loc, Entry>, d: nat, lo: nat, i: nat)
    requires FreshPages(entries, d, lo, i) && Added(entries, entries', Loc(d, lo + i))
    ensures FreshPages(entries', d, lo, i + 1)
  {
    var n := i + 1;
    forall v: nat | lo <= v < lo + n ensures Loc(d, v) in entries' && entries'[Loc(d, v)].rw {
      assert v < lo + i ==> Loc(d, v) in entries;
    }
  }

  /** The next page is one of them. */
  lemma {:induction false} NextFresh(entries: map<Loc, Entry>, d: nat, lo: nat, i: nat, n: nat)
    requires StillFresh(entries, d, lo, i, n) && i < n
    ensures Loc(d, lo + i) in entries && entries[Loc(d, lo + i)].rw
  {
    var at := lo + i;
    assert Loc(d, at) in entries;
  }

  lemma {:induction false} RestFresh(entries: map<Loc, Entry>, entries': map<Loc, Entry>, d: nat, lo: nat, i: nat,
                                     n: nat)
    requires StillFresh(entries, d, lo, i, n) && Gone(entries, entries', Loc(d, lo + i))
    ensures StillFresh(entries', d, lo, i + 1, n)
  {
    var j := i + 1;
    forall v: nat | lo + j <= v < lo + n ensures Loc(d, v) in entries' && entries'[Loc(d, v)].rw {
      assert Loc(d, v) in entries;
    }
  }

  lemma {:induction false} WithoutNone(m: map<Loc, Page>, d: nat, lo: nat)
    ensures WithoutPages(m, d, lo, 0) == m
  {
  }

  lemma {:induction false} WithoutNext(m: map<Loc, Page>, d: nat, lo: nat, i: nat)
    ensures WithoutPages(m, d, lo, i + 1) == WithoutPages(m, d, lo, i) - {Loc(d, lo + i)}
  {
  }

  lemma {:induction false} GrownNext(m: map<Loc, Page>, d: nat, lo: nat, i: nat)
    ensures Grown(m, d, lo, i + 1) == Grown(m, d, lo, i)[Loc(d, lo + i) := ZeroPage()]
  {
  }

  class Task {
    const space: AddressSpaces
    const directory: nat
    const heapStart: nat
    const heapMax: nat
    var heapEnd: nat

    /** The heap lies in user slots, and no page that begins at or above its end is mapped. */
    ghost predicate Valid()
      reads this, space, space.pmm.Repr()
    {
      && space.Valid() && directory in space.dirs
      && heapStart <= heapEnd <= heapMax
      && USER_FIRST * SLOTS <= PageUp(heapStart) && PageUp(heapMax) <= USER_END * SLOTS
      && ClearBytes(space.Memory(), directory, heapEnd, heapMax)
    }

    /** A task whose heap is empty. */
    constructor (spaces: AddressSpaces, d: nat, lo: nat, hi: nat)
      requires spaces.Valid() && d in spaces.dirs && lo <= hi
      requires USER_FIRST * SLOTS <= PageUp(lo) && PageUp(hi) <= USER_END * SLOTS
      requires ClearBytes(spaces.Memory(), d, lo, hi)
      ensures Valid() && space == spaces && directory == d && heapStart == lo && heapMax == hi && heapEnd == lo
    {
      hide SysInv, Exact, Contents, Wired, Agrees, Backed, ClearBytes, Allocator.Valid;
      space, directory, heapStart, heapMax, heapEnd := spaces, d, lo, hi, lo;
      new;
      assert this !in spaces.pmm.Repr();
      assert spaces.pmm.Valid();
      assert spaces.pmm.Abs() == old(spaces.pmm.Abs());
    }

    /** Map n fresh pages from page lo on, or none of them. What a growth leaves behind that fails after `done` pages
        are the tables it made: their frames are used, and nothing else is. */
    method Grow(lo: nat, n: nat) returns (ok: bool, ghost done: nat)
      requires space.Valid() && directory in space.dirs
      requires USER_FIRST * SLOTS <= lo && lo + n <= USER_END * SLOTS
      requires ClearFrom(space.Memory(), directory, lo, lo + n)
      modifies space, space.pmm.Repr()
      ensures space.Valid() && space.dirs.Keys == old(space.dirs.Keys)
      ensures space.Memory() == if ok then Grown(old(space.Memory()), directory, lo, n) else old(space.Memory())
      ensures ok <==> old(Room(space.pmm.Abs())) >= Cost(old(space.dirs), directory, lo, n)
      ensures ok ==> space.pmm.used == old(space.pmm.used) + Cost(old(space.dirs), directory, lo, n)
      ensures !ok ==>
                && done < n && TablesAfter(old(space.dirs), space.dirs, directory, lo, done)
                && Cost(old(space.dirs), directory, lo, done) <= old(Room(space.pmm.Abs()))
                && old(Room(space.pmm.Abs())) < Cost(old(space.dirs), directory, lo, done + 1)
                && space.pmm.used == old(space.pmm.used) + Cost(old(space.dirs), directory, lo, done) - done
    {
      hide Growing, ClearFrom, TablesAfter, Room, Cost, Grown, AddressSpaces.Layout, Wired, Agrees, Accounted, SysInv,
           Exact, Allocator.Valid;
      space.Balanced(space.dirs, space.tables);
      ghost var m, dirs0, used0, room0 := space.Memory(), space.dirs, space.pmm.used, Room(space.pmm.Abs());
      StartGrowing(lo);
      for i := 0 to n
        invariant Growing(m, dirs0, used0, room0, lo, i)
      {
        CostMono(dirs0, directory, lo, i + 1, n);
        ok := GrowNext(m, dirs0, used0, room0, lo, i, n);
        if !ok {
          Undo(m, dirs0, used0, room0, lo, i, n);
          return false, i;
        }
      }
      EndGrowing(m, dirs0, used0, room0, lo, n);
      return true, n;
    }

    /** The first i pages are mapped, fresh and paid for. */
    ghost predicate Growing(m: map<Loc, Page>, dirs0: Dirs, used0: int, room0: int, lo: nat, i: nat)
      reads space, space.pmm.Repr()
    {
      && space.Valid() && directory in space.dirs && space.dirs.Keys == dirs0.Keys
      && space.Memory() == Grown(m, directory, lo, i) && FreshPages(space.entries, directory, lo, i)
      && TablesAfter(dirs0, space.dirs, directory, lo, i)
      && Room(space.pmm.Abs()) == room0 - Cost(dirs0, directory, lo, i) >= 0
      && space.pmm.used == used0 + Cost(dirs0, directory, lo, i)
    }

    lemma {:induction false} StartGrowing(lo: nat)
      requires space.Valid() && directory in space.dirs
      ensures Growing(space.Memory(), space.dirs, space.pmm.used, Room(space.pmm.Abs()), lo, 0)
    {
      hide AddressSpaces.Layout, Wired, Agrees, Accounted, SysInv, Exact, Contents, Allocator.Valid, Room;
      space.Balanced(space.dirs, space.tables);
      NoTables(space.dirs, directory, lo);
      NoneFresh(space.entries, directory, lo);
      RoomNonneg(space.Abs());
    }

    lemma {:induction false} EndGrowing(m: map<Loc, Page>, dirs0: Dirs, used0: int, room0: int, lo: nat, i: nat)
      requires Growing(m, dirs0, used0, room0, lo, i)
      ensures space.Valid() && space.dirs.Keys == dirs0.Keys
      ensures space.Memory() == Grown(m, directory, lo, i)
      ensures room0 >= Cost(dirs0, directory, lo, i) && space.pmm.used == used0 + Cost(dirs0, directory, lo, i)
    {
    }

    /** Page lo + i, when the ones before it are mapped. */
    method GrowNext(ghost m: map<Loc, Page>, ghost dirs0: Dirs, ghost used0: int, ghost room0: int, lo: nat, i: nat,
                    n: nat) returns (ok: bool)
      requires Growing(m, dirs0, used0, room0, lo, i) && i < n && ClearFrom(m, directory, lo, lo + n)
      requires USER_FIRST * SLOTS <= lo && lo + n <= USER_END * SLOTS
      modifies space, space.pmm.Repr()
      ensures Growing(m, dirs0, used0, room0, lo, if ok then i + 1 else i)
      ensures ok <==> room0 >= Cost(dirs0, directory, lo, i + 1)
    {
      hide AddressSpaces.Layout, Wired, Agrees, Accounted, SysInv, Exact, Contents, ClearFrom, Allocator.Valid, Room,
           TablesAfter, Tabled, PageCost, TableCost, FreshPages, Added, Grown;
      space.Balanced(space.dirs, space.tables);
      StillClear(m, directory, lo, n, i);
      SlotInRange(lo + i);
      CostNow(dirs0, space.dirs, directory, lo, i);
      GrownNext(m, directory, lo, i);
      ghost var dirs1, entries1 := space.dirs, space.entries;
      RoomNonneg(space.Abs());
      ok := space.MapFresh(directory, lo + i);
      space.Balanced(space.dirs, space.tables);
      RoomNonneg(space.Abs());
      if ok {
        TablesNext(dirs0, dirs1, space.dirs, directory, lo, i);
        OneMoreFresh(entries1, space.entries, directory, lo, i);
      }
    }

    /** Take the first i pages back. */
    method Undo(ghost m: map<Loc, Page>, ghost dirs0: Dirs, ghost used0: int, ghost room0: int, lo: nat, i: nat,
                ghost n: nat)
      requires Growing(m, dirs0, used0, room0, lo, i) && i <= n && lo + n <= USER_END * SLOTS
      requires ClearFrom(m, directory, lo, lo + n)
      modifies space, space.pmm.Repr()
      ensures space.Valid() && space.dirs.Keys == dirs0.Keys && space.Memory() == m
      ensures TablesAfter(dirs0, space.dirs, directory, lo, i) && room0 >= Cost(dirs0, directory, lo, i)
      ensures space.pmm.used == used0 + Cost(dirs0, directory, lo, i) - i
    {
      hide AddressSpaces.Layout, Wired, Agrees, Accounted, SysInv, Exact, Contents, ClearFrom, Allocator.Valid,
           FreshPages, Grown, WithoutPages, Room, TablesAfter;
      PartClear(m, directory, lo, n, i);
      GrowUndone(m, directory, lo, i);
      Shrink(lo, i);
    }

    /** Unmap n pages from page lo on. */
    method Shrink(lo: nat, n: nat)
      requires space.Valid() && directory in space.dirs && lo + n <= USER_END * SLOTS
      modifies space, space.pmm.Repr()
      ensures space.Valid() && space.dirs == old(space.dirs)
      ensures space.Memory() == WithoutPages(old(space.Memory()), directory, lo, n)
      ensures FreshPages(old(space.entries), directory, lo, n) ==> space.pmm.used == old(space.pmm.used) - n
    {
      hide SysInv, Exact, Contents, Wired, Agrees, Backed, Allocator.Valid, FreshPages, StillFresh, Gone, WithoutPages;
      FreshAll(space.entries, directory, lo, n);
      ghost var m := space.Memory();
      WithoutNone(m, directory, lo);
      for i := 0 to n
        invariant space.Valid() && space.dirs == old(space.dirs)
        invariant space.Memory() == WithoutPages(m, directory, lo, i)
        invariant FreshPages(old(space.entries), directory, lo, n) ==>
                    space.pmm.used == old(space.pmm.used) - i && StillFresh(space.entries, directory, lo, i, n)
      {
        ghost var entries1 := space.entries;
        if FreshPages(old(space.entries), directory, lo, n) {
          NextFresh(entries1, directory, lo, i, n);
        }
        WithoutNext(m, directory, lo, i);
        space.UnmapPage(directory, lo + i);
        if FreshPages(old(space.entries), directory, lo, n) {
          RestFresh(entries1, space.entries, directory, lo, i, n);
        }
      }
    }

    /** Move the heap end. It moves exactly when a page begins between the two addresses and, for a growth, there are
        frames enough. */
    method Brk(addr: nat) returns (r: int)
      requires Valid()
      modifies this`heapEnd, space, space.pmm.Repr()
      ensures Valid()
      ensures addr == 0 ==> r == heapEnd
      ensures 0 < addr < heapStart ==> r == 0
      ensures addr > heapMax && addr != 0 && addr >= heapStart ==> r == -ENOMEM
      ensures heapEnd == old(heapEnd) || heapEnd == addr
      ensures heapStart <= addr <= heapMax && addr != 0 ==>
                && r == heapEnd
                && (heapEnd != old(heapEnd) ==> PageUp(addr) != PageUp(old(heapEnd)))
                && (PageUp(addr) < PageUp(old(heapEnd)) ==> heapEnd == addr)
      ensures space.Memory() == Moved(old(space.Memory()), directory, PageUp(old(heapEnd)), PageUp(heapEnd))
      ensures heapStart <= addr <= heapMax && addr != 0 && PageUp(addr) > PageUp(old(heapEnd)) ==>
                var from := PageUp(old(heapEnd));
                (r == addr <==>
                   old(Room(space.pmm.Abs())) >= Cost(old(space.dirs), directory, from, PageUp(addr) - from))
      ensures MovedBytes(old(space.Memory()), space.Memory(), directory, old(heapEnd), heapEnd)
      ensures heapStart <= addr <= heapMax && addr != 0 ==>
                var from := PageUp(old(heapEnd));
                var pages := PageUp(addr) - from;
                (heapEnd != old(heapEnd) <==>
                   || PageBegins(addr, old(heapEnd))
                   || (PageBegins(old(heapEnd), addr) && pages >= 0 &&
                       old(Room(space.pmm.Abs())) >= Cost(old(space.dirs), directory, from, pages)))
    {
      hide SysInv, Exact, Contents, Wired, Agrees, Backed, ClearFrom, Grown, WithoutPages, Room, Cost, TablesAfter,
           FreshPages, ClearBytes, MovedBytes, PageBegins, Allocator.Valid;
      ghost var m := space.Memory();
      MovedNone(m, directory, PageUp(heapEnd));
      MovedBytesIs(m, directory, heapEnd, heapEnd);
      MovedBytesIs(m, directory, heapEnd, addr);
      PageBeginsIff(heapEnd, addr);
      PageBeginsIff(addr, heapEnd);
      ClearBytesIff(m, directory, heapEnd, heapMax);
      if addr == 0 {
        return heapEnd;
      }
      if addr < heapStart {
        return 0;
      }
      if addr > heapMax {
        return -ENOMEM;
      }
      var from, to := PageUp(heapEnd), PageUp(addr);
      if from == to {
        return heapEnd;
      }
      MovedClear(m, directory, from, to, PageUp(heapMax));
      ClearBytesIff(Moved(m, directory, from, to), directory, addr, heapMax);
      if to > from {
        PageUpMono(addr, heapMax);
        PartClear(space.Memory(), directory, from, PageUp(heapMax) - from, to - from);
        var ok;
        ghost var done;
        ok, done := Grow(from, to - from);
        if !ok {
          return heapEnd;
        }
      } else {
        Shrink(to, from - to);
      }
      heapEnd := addr;
      return heapEnd;
    }
  }

  lemma {:induction false} StillClear(m: map<Loc, Page>, d: nat, lo: nat, n: nat, i: nat)
    requires ClearFrom(m, d, lo, lo + n) && i < n
    ensures Loc(d, lo + i) !in Grown(m, d, lo, i)
  {
    GrownAt(m, d, lo, i, Loc(d, lo + i));
  }

  lemma {:induction false} PartClear(m: map<Loc, Page>, d: nat, lo: nat, n: nat, i: nat)
    requires ClearFrom(m, d, lo, lo + n) && i <= n
    ensures ClearFrom(m, d, lo, lo + i)
  {
  }

  lemma {:induction false} SlotInRange(v: nat)
    requires USER_FIRST * SLOTS <= v < USER_END * SLOTS
    ensures USER_FIRST <= v / SLOTS < USER_END
  {
  }

  lemma {:induction false} NoTables(dirs: Dirs, d: nat, lo: nat)
    ensures TablesAfter(dirs, dirs, d, lo, 0)
  {
    forall s: nat ensures SlotAfter(dirs, dirs, d, lo, 0, s) {
    }
  }
}
