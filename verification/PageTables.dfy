/** Two-level page tables: directories and tables held in frames, and the flat mapping they spell.
    The format is 32-bit paging as in section 4.3 of the Intel SDM volume 3A, reduced to the bits the
    copy-on-write code uses. Only user entries (directory slots 1 to 255) are modelled.
 */
module PageTables {
  import opened CowMachine
  import opened CowConservation

  const SLOTS: nat := 1024
  const USER_FIRST: nat := 1        // 0x00400000 >> 22
  const USER_END: nat := 256        // 0x40000000 >> 22

  datatype Pde = Pde(present: bool, frame: nat)

  datatype Pte = Pte(present: bool, rw: bool, user: bool, cow: bool, frame: nat)

  const NO_PDE: Pde := Pde(false, 0)
  const NO_PTE: Pte := Pte(false, false, false, false, 0)

  type Dirs = map<nat, seq<Pde>>
  type Tables = map<nat, seq<Pte>>

  predicate HasTable(dirs: Dirs, d: nat, i: nat)
  {
    d in dirs && i < |dirs[d]| && dirs[d][i].present
  }

  /** The entry that translates a location; absent where there is no table. */
  function PteAt(dirs: Dirs, tables: Tables, l: Loc): Pte
  {
    if HasTable(dirs, l.dir, l.page / SLOTS) then
      var t := dirs[l.dir][l.page / SLOTS].frame;
      if t in tables && l.page % SLOTS < |tables[t]| then tables[t][l.page % SLOTS] else NO_PTE
    else NO_PTE
  }

  function FlatEntry(e: Pte): Entry
  {
    Entry(e.frame, e.rw, e.cow)
  }

  ghost predicate AgreeAt(dirs: Dirs, tables: Tables, entries: map<Loc, Entry>, l: Loc)
  {
    var e := PteAt(dirs, tables, l);
    && (e.present <==> l in entries)
    && (e.present ==> entries[l] == FlatEntry(e) && e.user)
    && (!e.present ==> !e.cow)
  }

  /** A frame that several spaces map has the same page number in each. */
  ghost predicate SamePageNumber(entries: map<Loc, Entry>)
  {
    forall l, m :: l in entries && m in entries && entries[l].frame == entries[m].frame ==> l.page == m.page
  }

  /** The flat mapping is what the tables say, every present entry is one for user mode, and a shared frame has one page
      number. */
  ghost predicate Agrees(dirs: Dirs, tables: Tables, entries: map<Loc, Entry>)
  {
    && (forall l: Loc :: AgreeAt(dirs, tables, entries, l))
    && SamePageNumber(entries)
  }

  /** Writing the entry e at l keeps page numbers of shared frames equal. */
  ghost predicate Fits(entries: map<Loc, Entry>, l: Loc, e: Pte)
  {
    e.present ==> forall m :: m in entries && entries[m].frame == e.frame ==> m.page == l.page
  }

  /** In such a mapping no space maps a frame twice. */
  lemma {:induction false} SpacesInjective(entries: map<Loc, Entry>, d: nat)
    requires SamePageNumber(entries)
    ensures InjectiveIn(entries, d)
  {
  }

  ghost predicate SlotOk(dirs: Dirs, tables: Tables, d: nat, i: nat)
  {
    HasTable(dirs, d, i) ==>
      USER_FIRST <= i < USER_END && dirs[d][i].frame in tables
  }

  /** Two present slots never share a table. */
  ghost predicate SlotAlone(dirs: Dirs, d: nat, i: nat, d': nat, i': nat)
  {
    HasTable(dirs, d, i) && HasTable(dirs, d', i') && dirs[d][i].frame == dirs[d'][i'].frame ==> d == d' && i == i'
  }

  /** Table t is the table of some present slot. */
  ghost predicate Hung(dirs: Dirs, t: nat)
  {
    exists d: nat, i: nat :: HasTable(dirs, d, i) && dirs[d][i].frame == t
  }

  /** Directories and tables have their full size, slots point at tables, and every table is the table of exactly
      one present slot. */
  ghost predicate Wired(dirs: Dirs, tables: Tables)
  {
    && (forall d :: d in dirs ==> |dirs[d]| == SLOTS)
    && (forall t :: t in tables ==> |tables[t]| == SLOTS)
    && (forall d: nat, i: nat :: SlotOk(dirs, tables, d, i))
    && (forall d: nat, i: nat, d': nat, i': nat :: SlotAlone(dirs, d, i, d', i'))
    && (forall t :: t in tables ==> Hung(dirs, t))
  }

  /** The entry of an address is the one the processor's walk finds: bits 31 to 22 of the address select the slot of
      the directory, bits 21 to 12 the entry of the table. */
  lemma {:induction false} WalkFinds(dirs: Dirs, tables: Tables, d: nat, addr: nat)
    requires Wired(dirs, tables) && d in dirs && addr < 0x1_0000_0000
    ensures var slot := dirs[d][addr / 0x40_0000];
            var e := PteAt(dirs, tables, Loc(d, addr / 0x1000));
            if slot.present then
              slot.frame in tables && e == tables[slot.frame][addr / 0x1000 % 0x400]
            else !e.present
  {
    assert addr / 0x1000 / SLOTS == addr / 0x40_0000;
    assert SlotOk(dirs, tables, d, addr / 0x40_0000);
  }

  /** The tables of the directory d. */
  function TablesOf(dirs: Dirs, d: nat): set<nat>
  {
    if d in dirs then set i: nat | i < |dirs[d]| && dirs[d][i].present :: dirs[d][i].frame else {}
  }

  /** A directory that comes or goes takes exactly its own tables with it. */
  lemma {:induction false} TablesFollow(dirs: Dirs, tables: Tables, dirs': Dirs, tables': Tables, d: nat)
    requires Wired(dirs, tables) && Wired(dirs', tables') && d in dirs' && dirs' - {d} == dirs - {d} && d !in dirs
    ensures tables'.Keys == tables.Keys + TablesOf(dirs', d) && tables.Keys !! TablesOf(dirs', d)
  {
    forall t | t in tables' ensures t in tables || t in TablesOf(dirs', d) {
      var e: nat, i: nat :| HasTable(dirs', e, i) && dirs'[e][i].frame == t;
      if e != d {
        SameSlot(dirs, dirs', d, e);
        assert SlotOk(dirs, tables, e, i);
      }
    }
    forall t | t in TablesOf(dirs', d) ensures t in tables' {
      var i: nat :| i < |dirs'[d]| && dirs'[d][i].present && dirs'[d][i].frame == t;
      assert HasTable(dirs', d, i) && SlotOk(dirs', tables', d, i);
    }
    forall t | t in tables ensures t in tables' && t !in TablesOf(dirs', d) {
      var e: nat, j: nat :| HasTable(dirs, e, j) && dirs[e][j].frame == t;
      SameSlot(dirs, dirs', d, e);
      assert SlotOk(dirs', tables', e, j);
      forall i: nat ensures HasTable(dirs', d, i) ==> dirs'[d][i].frame != t {
        assert SlotAlone(dirs', d, i, e, j);
      }
    }
  }

  lemma {:induction false} SameSlot(dirs: Dirs, dirs': Dirs, d: nat, e: nat)
    requires dirs' - {d} == dirs - {d} && e != d
    ensures (e in dirs <==> e in dirs') && (e in dirs ==> dirs[e] == dirs'[e])
  {
    assert e in dirs <==> e in dirs - {d};
    assert e in dirs' <==> e in dirs' - {d};
    assert e in dirs - {d} ==> (dirs - {d})[e] == dirs[e];
    assert e in dirs' - {d} ==> (dirs' - {d})[e] == dirs'[e];
  }

  // ---------- writing one entry ----------

  /** Table t has the entry e at index i. */
  function SetPte(tables: Tables, t: nat, i: nat, e: Pte): Tables
    requires t in tables && i < |tables[t]|
  {
    tables[t := tables[t][i := e]]
  }

  function SetEntry(entries: map<Loc, Entry>, l: Loc, e: Pte): map<Loc, Entry>
  {
    if e.present then entries[l := FlatEntry(e)] else entries - {l}
  }

  lemma {:induction false} SetPteAt(dirs: Dirs, tables: Tables, l: Loc, e: Pte, m: Loc)
    requires Wired(dirs, tables) && HasTable(dirs, l.dir, l.page / SLOTS)
    ensures var t := dirs[l.dir][l.page / SLOTS].frame;
            && t in tables && |tables[t]| == SLOTS
            && PteAt(dirs, SetPte(tables, t, l.page % SLOTS, e), m) == if m == l then e else PteAt(dirs, tables, m)
  {
    assert SlotOk(dirs, tables, l.dir, l.page / SLOTS);
    assert SlotAlone(dirs, l.dir, l.page / SLOTS, m.dir, m.page / SLOTS);
    assert l.page == l.page / SLOTS * SLOTS + l.page % SLOTS;
    assert m.page == m.page / SLOTS * SLOTS + m.page % SLOTS;
  }

  lemma {:induction false} SetPteAgrees(dirs: Dirs, tables: Tables, entries: map<Loc, Entry>, l: Loc, e: Pte)
    requires Wired(dirs, tables) && Agrees(dirs, tables, entries)
    requires HasTable(dirs, l.dir, l.page / SLOTS) && (if e.present then e.user else !e.cow) && Fits(entries, l, e)
    ensures var t := dirs[l.dir][l.page / SLOTS].frame;
            && t in tables && |tables[t]| == SLOTS
            && Wired(dirs, SetPte(tables, t, l.page % SLOTS, e))
            && Agrees(dirs, SetPte(tables, t, l.page % SLOTS, e), SetEntry(entries, l, e))
  {
    assert SlotOk(dirs, tables, l.dir, l.page / SLOTS);
    var t := dirs[l.dir][l.page / SLOTS].frame;
    var tables' := SetPte(tables, t, l.page % SLOTS, e);
    var entries' := SetEntry(entries, l, e);
    forall m: Loc ensures AgreeAt(dirs, tables', entries', m) {
      assert AgreeAt(dirs, tables, entries, m);
      SetPteAt(dirs, tables, l, e, m);
    }
    SameKeysWired(dirs, tables, tables');
  }

  /** A frame that nobody maps fits anywhere. */
  lemma {:induction false} FreshFits(entries: map<Loc, Entry>, data: map<nat, Page>, l: Loc, e: Pte)
    requires AllMapped(entries, data) && e.frame !in data
    ensures Fits(entries, l, e)
  {
  }

  lemma {:induction false} SameKeysWired(dirs: Dirs, tables: Tables, tables': Tables)
    requires Wired(dirs, tables) && tables'.Keys == tables.Keys
    requires forall t :: t in tables' ==> |tables'[t]| == SLOTS
    ensures Wired(dirs, tables')
  {
    forall d: nat, i: nat ensures SlotOk(dirs, tables', d, i) {
      assert SlotOk(dirs, tables, d, i);
    }
  }

  // ---------- adding and removing tables and directories ----------

  function EmptyTable(): (r: seq<Pte>)
    ensures |r| == SLOTS && forall i :: 0 <= i < SLOTS ==> r[i] == NO_PTE
  {
    seq(SLOTS, _ => NO_PTE)
  }

  function EmptyDir(): (r: seq<Pde>)
    ensures |r| == SLOTS && forall i :: 0 <= i < SLOTS ==> r[i] == NO_PDE
  {
    seq(SLOTS, _ => NO_PDE)
  }

  function SetPde(dirs: Dirs, d: nat, i: nat, e: Pde): Dirs
  {
    if d in dirs && i < |dirs[d]| then dirs[d := dirs[d][i := e]] else dirs
  }

  /** A new empty table in an absent slot maps nothing. */
  lemma {:induction false} LinkTable(dirs: Dirs, tables: Tables, entries: map<Loc, Entry>, d: nat, i: nat, t: nat)
    requires Wired(dirs, tables) && Agrees(dirs, tables, entries)
    requires d in dirs && USER_FIRST <= i < USER_END && !HasTable(dirs, d, i) && t !in tables
    ensures var dirs', tables' := SetPde(dirs, d, i, Pde(true, t)), tables[t := EmptyTable()];
            Wired(dirs', tables') && Agrees(dirs', tables', entries)
  {
    var dirs', tables' := SetPde(dirs, d, i, Pde(true, t)), tables[t := EmptyTable()];
    forall d1: nat, i1: nat ensures SlotOk(dirs', tables', d1, i1) {
      assert SlotOk(dirs, tables, d1, i1);
    }
    forall d1: nat, i1: nat, d2: nat, i2: nat ensures SlotAlone(dirs', d1, i1, d2, i2) {
      assert SlotAlone(dirs, d1, i1, d2, i2);
      assert SlotOk(dirs, tables, d1, i1) && SlotOk(dirs, tables, d2, i2);
    }
    forall t1 | t1 in tables' ensures Hung(dirs', t1) {
      if t1 == t {
        assert HasTable(dirs', d, i);
      } else {
        HungMoved(dirs, dirs', t1, d, i);
      }
    }
    forall m: Loc ensures AgreeAt(dirs', tables', entries, m) {
      assert AgreeAt(dirs, tables, entries, m);
      assert SlotOk(dirs, tables, m.dir, m.page / SLOTS);
    }
  }

  /** A table stays where it hangs when another slot changes. */
  lemma {:induction false} HungMoved(dirs: Dirs, dirs': Dirs, t: nat, d: nat, i: nat)
    requires Hung(dirs, t)
    requires HasTable(dirs, d, i) ==> dirs[d][i].frame != t
    requires forall d1: nat, i1: nat :: HasTable(dirs, d1, i1) && (d1 != d || i1 != i) ==>
                                          HasTable(dirs', d1, i1) && dirs'[d1][i1] == dirs[d1][i1]
    ensures Hung(dirs', t)
  {
    var d1: nat, i1: nat :| HasTable(dirs, d1, i1) && dirs[d1][i1].frame == t;
    assert HasTable(dirs', d1, i1);
  }

  lemma {:induction false} AddDir(dirs: Dirs, tables: Tables, entries: map<Loc, Entry>, d: nat)
    requires Wired(dirs, tables) && Agrees(dirs, tables, entries) && d !in dirs
    ensures Wired(dirs[d := EmptyDir()], tables) && Agrees(dirs[d := EmptyDir()], tables, entries)
  {
    var dirs' := dirs[d := EmptyDir()];
    forall d1: nat, i1: nat ensures SlotOk(dirs', tables, d1, i1) {
      assert SlotOk(dirs, tables, d1, i1);
    }
    forall d1: nat, i1: nat, d2: nat, i2: nat ensures SlotAlone(dirs', d1, i1, d2, i2) {
      assert SlotAlone(dirs, d1, i1, d2, i2);
    }
    forall t | t in tables ensures Hung(dirs', t) {
      HungMoved(dirs, dirs', t, d, 0);
    }
    forall m: Loc ensures AgreeAt(dirs', tables, entries, m) {
      assert AgreeAt(dirs, tables, entries, m);
    }
  }

  /** A slot whose table maps nothing can be cleared and the table dropped. */
  lemma {:induction false} UnlinkTable(dirs: Dirs, tables: Tables, entries: map<Loc, Entry>, d: nat, i: nat)
    requires Wired(dirs, tables) && Agrees(dirs, tables, entries) && HasTable(dirs, d, i)
    requires forall l :: l in entries && l.dir == d ==> l.page / SLOTS != i
    ensures var dirs', tables' := SetPde(dirs, d, i, NO_PDE), tables - {dirs[d][i].frame};
            Wired(dirs', tables') && Agrees(dirs', tables', entries)
  {
    var t := dirs[d][i].frame;
    var dirs', tables' := SetPde(dirs, d, i, NO_PDE), tables - {t};
    forall d1: nat, i1: nat ensures SlotOk(dirs', tables', d1, i1) {
      assert SlotOk(dirs, tables, d1, i1);
      assert SlotAlone(dirs, d, i, d1, i1);
    }
    forall d1: nat, i1: nat, d2: nat, i2: nat ensures SlotAlone(dirs', d1, i1, d2, i2) {
      assert SlotAlone(dirs, d1, i1, d2, i2);
    }
    forall t1 | t1 in tables' ensures Hung(dirs', t1) {
      HungMoved(dirs, dirs', t1, d, i);
    }
    forall m: Loc ensures AgreeAt(dirs', tables', entries, m) {
      assert AgreeAt(dirs, tables, entries, m);
      assert SlotAlone(dirs, d, i, m.dir, m.page / SLOTS);
    }
  }

  lemma {:induction false} RemoveDir(dirs: Dirs, tables: Tables, entries: map<Loc, Entry>, d: nat)
    requires Wired(dirs, tables) && Agrees(dirs, tables, entries)
    requires forall i: nat :: !HasTable(dirs, d, i)
    ensures Wired(dirs - {d}, tables) && Agrees(dirs - {d}, tables, entries)
  {
    var dirs' := dirs - {d};
    forall d1: nat, i1: nat ensures SlotOk(dirs', tables, d1, i1) {
      assert SlotOk(dirs, tables, d1, i1);
    }
    forall d1: nat, i1: nat, d2: nat, i2: nat ensures SlotAlone(dirs', d1, i1, d2, i2) {
      assert SlotAlone(dirs, d1, i1, d2, i2);
    }
    forall t | t in tables ensures Hung(dirs', t) {
      assert !HasTable(dirs, d, 0);
      HungMoved(dirs, dirs', t, d, 0);
    }
    forall m: Loc ensures AgreeAt(dirs', tables, entries, m) {
      assert AgreeAt(dirs, tables, entries, m);
      assert !HasTable(dirs, d, m.page / SLOTS);
    }
  }
}
