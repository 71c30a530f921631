/** What cloning does to the entries of both spaces and to the bytes they read, said of byte addresses
    (kernel/arch/i386/paging/paging.c:730-905). */
module SpaceClone {
  import opened CowMachine
  import opened PageTables
  import opened SpaceMemory

  type Entries = map<Loc, Entry>

  // ---------- one entry, one table, all slots ----------

  ghost predicate SameAt(e0: Entries, e1: Entries, l: Loc)
  {
    (l in e1 <==> l in e0) && (l in e0 ==> e1[l] == e0[l])
  }

  /** A writable page of its own, on a frame that held no data before. */
  ghost predicate OwnPage(was: set<nat>, e1: Entries, l: Loc)
  {
    l in e1 && e1[l].rw && !e1[l].cow && e1[l].frame !in was
  }

  /** One frame, read-only and copy-on-write in both spaces. */
  ghost predicate SharedPage(e0: Entries, e1: Entries, from: Loc, to: Loc)
  {
    from in e0 && from in e1 && to in e1 && e1[from] == e1[to] == Entry(e0[from].frame, false, true)
  }

  ghost predicate EntryCloned(e0: Entries, was: set<nat>, e1: Entries, src: nat, dst: nat, base: nat, size: nat, v: nat)
  {
    var from, to := Loc(src, v), Loc(dst, v);
    if IsStack(base, size, v) then SameAt(e0, e1, from) && OwnPage(was, e1, to)
    else if from in e0 then SharedPage(e0, e1, from, to)
    else from !in e1 && to !in e1
  }

  /** The pages [lo, lo + n) of src are cloned to dst, and no other entry changes. */
  ghost predicate RangeCloned(e0: Entries, was: set<nat>, e1: Entries, src: nat, dst: nat, lo: nat, n: nat, base: nat,
                              size: nat)
  {
    && (forall v: nat :: lo <= v < lo + n ==> EntryCloned(e0, was, e1, src, dst, base, size, v))
    && (forall l: Loc :: !((l.dir == src || l.dir == dst) && lo <= l.page < lo + n) ==> SameAt(e0, e1, l))
  }

  lemma {:induction false} NoRange(e: Entries, was: set<nat>, src: nat, dst: nat, lo: nat, base: nat, size: nat)
    ensures RangeCloned(e, was, e, src, dst, lo, 0, base, size)
  {
  }

  lemma {:induction false} CopiedEntry(e0: Entries, was: set<nat>, e1: Entries, src: nat, dst: nat, v: nat, base: nat,
                                       size: nat)
    requires src != dst && IsStack(base, size, v) && OwnPage(was, e1, Loc(dst, v))
    requires e1 == e0[Loc(dst, v) := e1[Loc(dst, v)]]
    ensures RangeCloned(e0, was, e1, src, dst, v, 1, base, size)
  {
  }

  lemma {:induction false} SharedEntry(e0: Entries, was: set<nat>, e1: Entries, src: nat, dst: nat, v: nat, base: nat,
                                       size: nat, e: Entry)
    requires src != dst && !IsStack(base, size, v) && Loc(src, v) in e0
    requires e == Entry(e0[Loc(src, v)].frame, false, true) && e1 == e0[Loc(src, v) := e][Loc(dst, v) := e]
    ensures RangeCloned(e0, was, e1, src, dst, v, 1, base, size)
  {
  }

  lemma {:induction false} AbsentEntry(e0: Entries, was: set<nat>, src: nat, dst: nat, v: nat, base: nat, size: nat)
    requires src != dst && !IsStack(base, size, v) && Loc(src, v) !in e0 && Loc(dst, v) !in e0
    ensures RangeCloned(e0, was, e0, src, dst, v, 1, base, size)
  {
  }

  lemma {:induction false} RangeMore(e0: Entries, was0: set<nat>, e1: Entries, was1: set<nat>, e2: Entries, src: nat,
                                     dst: nat, lo: nat, n: nat, base: nat, size: nat)
    requires RangeCloned(e0, was0, e1, src, dst, lo, n, base, size) && was0 <= was1
    requires RangeCloned(e1, was1, e2, src, dst, lo + n, 1, base, size)
    ensures RangeCloned(e0, was0, e2, src, dst, lo, n + 1, base, size)
  {
    forall v: nat | lo <= v < lo + n + 1 ensures EntryCloned(e0, was0, e2, src, dst, base, size, v) {
      if v < lo + n {
        assert EntryCloned(e0, was0, e1, src, dst, base, size, v);
        assert SameAt(e1, e2, Loc(src, v)) && SameAt(e1, e2, Loc(dst, v));
      } else {
        assert EntryCloned(e1, was1, e2, src, dst, base, size, v);
        assert SameAt(e0, e1, Loc(src, v));
      }
    }
    forall l: Loc | !((l.dir == src || l.dir == dst) && lo <= l.page < lo + n + 1) ensures SameAt(e0, e2, l) {
      assert SameAt(e0, e1, l) && SameAt(e1, e2, l);
    }
  }

  /** Does the clone have a table in slot i? */
  ghost predicate SlotMade(dirs: Dirs, src: nat, base: nat, size: nat, i: nat)
  {
    USER_FIRST <= i < USER_END && (HasTable(dirs, src, i) || StackSlot(base, size, i))
  }

  ghost predicate LocCloned(e0: Entries, was: set<nat>, e1: Entries, dirs: Dirs, src: nat, dst: nat, n: nat, base: nat,
                            size: nat, l: Loc)
  {
    if (l.dir == src || l.dir == dst) && l.page / SLOTS < n && SlotMade(dirs, src, base, size, l.page / SLOTS)
    then EntryCloned(e0, was, e1, src, dst, base, size, l.page) else SameAt(e0, e1, l)
  }

  /** The slots below n are cloned. */
  ghost predicate SlotsCloned(e0: Entries, was: set<nat>, e1: Entries, dirs: Dirs, src: nat, dst: nat, n: nat,
                              base: nat, size: nat)
  {
    forall l: Loc :: LocCloned(e0, was, e1, dirs, src, dst, n, base, size, l)
  }

  /** Directories that agree outside the clone call for the same tables. */
  lemma {:induction false} SlotsOfSame(e0: Entries, was: set<nat>, e1: Entries, dirs: Dirs, dirs': Dirs, src: nat,
                                       dst: nat, base: nat, size: nat)
    requires SlotsCloned(e0, was, e1, dirs, src, dst, USER_END, base, size) && src in dirs && src in dirs'
    requires dirs[src] == dirs'[src]
    ensures SlotsCloned(e0, was, e1, dirs', src, dst, USER_END, base, size)
  {
    hide StackSlot, IsStack, EntryCloned;
    forall l: Loc ensures LocCloned(e0, was, e1, dirs', src, dst, USER_END, base, size, l) {
      assert LocCloned(e0, was, e1, dirs, src, dst, USER_END, base, size, l);
    }
  }

  lemma {:induction false} NoSlots(e: Entries, was: set<nat>, dirs: Dirs, src: nat, dst: nat, base: nat, size: nat)
    ensures SlotsCloned(e, was, e, dirs, src, dst, USER_FIRST, base, size)
  {
  }

  /** What one slot adds. */
  ghost predicate SlotCloned(e0: Entries, was: set<nat>, e1: Entries, dirs: Dirs, src: nat, dst: nat, i: nat, base: nat,
                             size: nat)
  {
    if SlotMade(dirs, src, base, size, i) then RangeCloned(e0, was, e1, src, dst, i * SLOTS, SLOTS, base, size)
    else e1 == e0
  }

  lemma {:induction false} SlotsMore(e0: Entries, was0: set<nat>, e1: Entries, was1: set<nat>, e2: Entries, dirs: Dirs,
                                     src: nat, dst: nat, i: nat, base: nat, size: nat)
    requires SlotsCloned(e0, was0, e1, dirs, src, dst, i, base, size) && was0 <= was1
    requires SlotCloned(e1, was1, e2, dirs, src, dst, i, base, size)
    ensures SlotsCloned(e0, was0, e2, dirs, src, dst, i + 1, base, size)
  {
    hide StackSlot, IsStack;
    var n := i + 1;
    forall l: Loc ensures LocCloned(e0, was0, e2, dirs, src, dst, n, base, size, l) {
      var a, b := Loc(src, l.page), Loc(dst, l.page);
      assert LocCloned(e0, was0, e1, dirs, src, dst, i, base, size, a);
      assert LocCloned(e0, was0, e1, dirs, src, dst, i, base, size, b);
      assert LocCloned(e0, was0, e1, dirs, src, dst, i, base, size, l);
      if SlotMade(dirs, src, base, size, i) {
        if l.page / SLOTS == i {
          assert i * SLOTS <= l.page < i * SLOTS + SLOTS;
          assert EntryCloned(e1, was1, e2, src, dst, base, size, l.page);
          if l.dir != src && l.dir != dst {
            assert SameAt(e1, e2, l);
          }
        } else {
          assert SameAt(e1, e2, a) && SameAt(e1, e2, b) && SameAt(e1, e2, l);
        }
      }
    }
  }

  // ---------- byte addresses ----------

  /** Page v of a cloned space. The stack is the bytes [base, base + size). A stack page is copied and the source's
      entry stays; any other page is shared. A page that only the clone has begins in the stack, in a slot of user space
      that the source has a table for or that the stack begins in. */
  ghost predicate ClonedAs(e0: Entries, was: set<nat>, e1: Entries, dirs: Dirs, src: nat, dst: nat, base: nat,
                           size: nat, v: nat)
  {
    var from, to := Loc(src, v), Loc(dst, v);
    var stack := base <= v * 4096 < base + size;
    && (from in e0 && stack ==> SameAt(e0, e1, from) && OwnPage(was, e1, to))
    && (from in e0 && !stack ==> SharedPage(e0, e1, from, to))
    && (from !in e0 ==>
          && from !in e1 && (to in e1 ==> OwnPage(was, e1, to))
          && (to in e1 <==>
                && stack && 1 <= v / 1024 < 256
                && (v / 1024 == base / 0x40_0000 || HasTable(dirs, src, v / 1024))))
  }

  /** Every page is cloned, and no entry of a third space changes. */
  ghost predicate UserCloned(e0: Entries, was: set<nat>, e1: Entries, dirs: Dirs, src: nat, dst: nat, base: nat,
                             size: nat)
  {
    && (forall v: nat :: ClonedAs(e0, was, e1, dirs, src, dst, base, size, v))
    && (forall l: Loc :: l.dir != src && l.dir != dst ==> SameAt(e0, e1, l))
  }

  lemma {:induction false} StackSlotIs(base: nat, size: nat, i: nat)
    requires size > 0
    ensures StackSlot(base, size, i) <==> i == base / 0x40_0000
  {
  }

  lemma {:induction false} SlotsAreUser(e0: Entries, was: set<nat>, e1: Entries, dirs: Dirs, tables: Tables, src: nat,
                                        dst: nat, base: nat, size: nat)
    requires SlotsCloned(e0, was, e1, dirs, src, dst, USER_END, base, size) && src != dst && dst !in dirs
    requires Agrees(dirs, tables, e0) && Wired(dirs, tables)
    ensures UserCloned(e0, was, e1, dirs, src, dst, base, size)
  {
    hide SlotsCloned, Wired, Agrees;
    forall v: nat ensures ClonedAs(e0, was, e1, dirs, src, dst, base, size, v) {
      PageIsUser(e0, was, e1, dirs, tables, src, dst, base, size, v);
    }
    forall l: Loc | l.dir != src && l.dir != dst ensures SameAt(e0, e1, l) {
      ThirdSpace(e0, was, e1, dirs, src, dst, base, size, l);
    }
  }

  lemma {:induction false} ThirdSpace(e0: Entries, was: set<nat>, e1: Entries, dirs: Dirs, src: nat, dst: nat,
                                      base: nat, size: nat, l: Loc)
    requires SlotsCloned(e0, was, e1, dirs, src, dst, USER_END, base, size) && l.dir != src && l.dir != dst
    ensures SameAt(e0, e1, l)
  {
    assert LocCloned(e0, was, e1, dirs, src, dst, USER_END, base, size, l);
  }

  lemma {:induction false} PageIsUser(e0: Entries, was: set<nat>, e1: Entries, dirs: Dirs, tables: Tables, src: nat,
                                      dst: nat, base: nat, size: nat, v: nat)
    requires SlotsCloned(e0, was, e1, dirs, src, dst, USER_END, base, size) && src != dst && dst !in dirs
    requires Agrees(dirs, tables, e0) && Wired(dirs, tables)
    ensures ClonedAs(e0, was, e1, dirs, src, dst, base, size, v)
  {
    var from, to := Loc(src, v), Loc(dst, v);
    assert LocCloned(e0, was, e1, dirs, src, dst, USER_END, base, size, from);
    assert LocCloned(e0, was, e1, dirs, src, dst, USER_END, base, size, to);
    assert AgreeAt(dirs, tables, e0, from) && AgreeAt(dirs, tables, e0, to);
    assert SlotOk(dirs, tables, src, v / SLOTS);
    if size > 0 {
      StackSlotIs(base, size, v / SLOTS);
    }
  }

  /** What the clone reads. Every page of the source reads the same in it. A page that the source lacks begins in the
      stack and is zero; it lies wholly inside the stack when that is made of whole pages. Other spaces read on. */
  ghost predicate CloneReads(m0: map<Loc, Page>, m1: map<Loc, Page>, src: nat, dst: nat, base: nat, size: nat, v: nat)
  {
    var from, to := Loc(src, v), Loc(dst, v);
    && (from in m0 ==> to in m1 && m1[to] == m0[from])
    && (from !in m0 && to in m1 ==>
          && base <= v * 4096 < base + size && (forall i :: 0 <= i < 4096 ==> m1[to][i] == 0)
          && (base % 4096 == 0 && size % 4096 == 0 ==> v * 4096 + 4096 <= base + size))
    && (from in m0 <==> from in m1) && (from in m0 ==> m1[from] == m0[from])
  }

  /** Every byte of the stack is there in the clone, with the source's byte or 0. */
  ghost predicate StackThere(m0: map<Loc, Page>, m1: map<Loc, Page>, src: nat, dst: nat, base: nat, size: nat)
  {
    forall x: nat :: base <= x < base + size ==> StackByte(m0, m1, Loc(src, x / 4096), Loc(dst, x / 4096), x % 4096)
  }

  ghost predicate StackByte(m0: map<Loc, Page>, m1: map<Loc, Page>, from: Loc, to: Loc, i: nat)
    requires i < 4096
  {
    to in m1 && m1[to][i] == if from in m0 then m0[from][i] else 0
  }

  /** A stack of whole pages from its base on, in user space, that ends in the slot it begins in. */
  ghost predicate StackPlaced(base: nat, size: nat)
  {
    && size > 0 && base % 4096 == 0 && 0x40_0000 <= base && base + size <= 0x4000_0000
    && base / 0x40_0000 == (base + size - 1) / 0x40_0000
  }

  ghost predicate SpaceRead(m0: map<Loc, Page>, m1: map<Loc, Page>, src: nat, dst: nat, base: nat, size: nat)
  {
    && (forall v: nat :: CloneReads(m0, m1, src, dst, base, size, v))
    && (StackPlaced(base, size) ==> StackThere(m0, m1, src, dst, base, size))
  }

  lemma {:induction false} CloneIsRead(m: map<Loc, Page>, dirs: Dirs, src: nat, dst: nat, base: nat, size: nat)
    requires src != dst
    requires forall v: nat :: Loc(dst, v) !in m
    requires forall v: nat :: Loc(src, v) in m ==> USER_FIRST <= v / SLOTS < USER_END && HasTable(dirs, src, v / SLOTS)
    ensures SpaceRead(m, CloneSlots(m, dirs, src, dst, USER_END, base, size), src, dst, base, size)
  {
    hide CloneSlots;
    var m1 := CloneSlots(m, dirs, src, dst, USER_END, base, size);
    forall v: nat ensures CloneReads(m, m1, src, dst, base, size, v) {
      CloneSlotsAt(m, dirs, src, dst, USER_END, base, size, Loc(src, v));
      CloneSlotsAt(m, dirs, src, dst, USER_END, base, size, Loc(dst, v));
    }
    if StackPlaced(base, size) {
      forall x: nat | base <= x < base + size
        ensures StackByte(m, m1, Loc(src, x / 4096), Loc(dst, x / 4096), x % 4096)
      {
        StackByteIs(m, dirs, src, dst, base, size, x);
      }
    }
  }

  lemma {:induction false} StackByteIs(m: map<Loc, Page>, dirs: Dirs, src: nat, dst: nat, base: nat, size: nat, x: nat)
    requires src != dst && StackPlaced(base, size) && base <= x < base + size
    requires forall v: nat :: Loc(src, v) in m ==> USER_FIRST <= v / SLOTS < USER_END && HasTable(dirs, src, v / SLOTS)
    ensures var m1 := CloneSlots(m, dirs, src, dst, USER_END, base, size);
            StackByte(m, m1, Loc(src, x / 4096), Loc(dst, x / 4096), x % 4096)
  {
    hide CloneSlots;
    var v := x / 4096;
    StackSlotIs(base, size, v / SLOTS);
    assert v / SLOTS == x / 0x40_0000;
    assert base / 0x40_0000 <= x / 0x40_0000 <= (base + size - 1) / 0x40_0000;
    CloneSlotsAt(m, dirs, src, dst, USER_END, base, size, Loc(dst, v));
  }
}
