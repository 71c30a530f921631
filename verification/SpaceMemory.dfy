/** What cloning and teardown make of user memory, on values. */
module SpaceMemory {
  import opened CowMachine
  import opened PageTables

  /** Is virtual page v part of the user stack? */
  predicate IsStack(base: nat, size: nat, v: nat)
  {
    size > 0 && base <= v * PAGE_BYTES < base + size
  }

  /** What cloning one page does to memory: a stack page is copied, or zeroed where the source has none;
      any other page reads the same in both spaces. */
  function ClonePage(m: map<Loc, Page>, src: nat, dst: nat, v: nat, base: nat, size: nat): map<Loc, Page>
  {
    var from, to := Loc(src, v), Loc(dst, v);
    if from in m then m[to := m[from]]
    else if IsStack(base, size, v) then m[to := ZeroPage()]
    else m
  }

  /** Cloning the first n pages from page `lo` on. */
  function CloneRange(m: map<Loc, Page>, src: nat, dst: nat, lo: nat, n: nat, base: nat, size: nat): map<Loc, Page>
  {
    if n == 0 then m
    else ClonePage(CloneRange(m, src, dst, lo, n - 1, base, size), src, dst, lo + n - 1, base, size)
  }

  /** Is this the directory slot the stack starts in? */
  predicate StackSlot(base: nat, size: nat, i: nat)
  {
    size > 0 && i * SLOTS * PAGE_BYTES <= base < i * SLOTS * PAGE_BYTES + SLOTS * PAGE_BYTES
  }

  /** Cloning the slots from USER_FIRST up to n: every slot the source has, and the one its stack starts in. */
  function CloneSlots(m: map<Loc, Page>, dirs: Dirs, src: nat, dst: nat, n: nat, base: nat, size: nat): map<Loc, Page>
  {
    if n <= USER_FIRST then m
    else
      var m' := CloneSlots(m, dirs, src, dst, n - 1, base, size);
      if HasTable(dirs, src, n - 1) || StackSlot(base, size, n - 1)
      then CloneRange(m', src, dst, (n - 1) * SLOTS, SLOTS, base, size) else m'
  }

  lemma {:induction false} CloneRangeAt(m: map<Loc, Page>, src: nat, dst: nat, lo: nat, n: nat, base: nat, size: nat,
                                        l: Loc)
    requires src != dst
    ensures var r := CloneRange(m, src, dst, lo, n, base, size);
            if l.dir == dst && lo <= l.page < lo + n && (Loc(src, l.page) in m || IsStack(base, size, l.page)) then
              l in r && r[l] == if Loc(src, l.page) in m then m[Loc(src, l.page)] else ZeroPage()
            else (l in r <==> l in m) && (l in m ==> r[l] == m[l])
  {
    if n > 0 {
      CloneRangeAt(m, src, dst, lo, n - 1, base, size, l);
      CloneRangeAt(m, src, dst, lo, n - 1, base, size, Loc(src, lo + n - 1));
    }
  }

  /** The page of the clone at v: a copy of the source's page, or a zeroed stack page where the source has none
      but a table is cloned or made for it. */
  ghost predicate CloneMade(m: map<Loc, Page>, dirs: Dirs, src: nat, v: nat, base: nat, size: nat)
  {
    && USER_FIRST <= v / SLOTS < USER_END
    && (HasTable(dirs, src, v / SLOTS) || StackSlot(base, size, v / SLOTS))
    && (Loc(src, v) in m || IsStack(base, size, v))
  }

  /** What a clone reads: its own pages are copies of the source's or zeroed stack, every other space reads on
      as before. */
  lemma {:induction false} CloneSlotsAt(m: map<Loc, Page>, dirs: Dirs, src: nat, dst: nat, n: nat, base: nat,
                                        size: nat, l: Loc)
    requires src != dst && USER_FIRST <= n <= USER_END
    ensures var r := CloneSlots(m, dirs, src, dst, n, base, size);
            if l.dir == dst && l.page / SLOTS < n && CloneMade(m, dirs, src, l.page, base, size) then
              l in r && r[l] == if Loc(src, l.page) in m then m[Loc(src, l.page)] else ZeroPage()
            else (l in r <==> l in m) && (l in m ==> r[l] == m[l])
    decreases n
  {
    if n > USER_FIRST {
      CloneSlotsAt(m, dirs, src, dst, n - 1, base, size, l);
      CloneSlotsAt(m, dirs, src, dst, n - 1, base, size, Loc(src, l.page));
      var m' := CloneSlots(m, dirs, src, dst, n - 1, base, size);
      CloneRangeAt(m', src, dst, (n - 1) * SLOTS, SLOTS, base, size, l);
    }
  }

  /** Memory without the n pages of space d from page `lo` on. */
  function WithoutPages(m: map<Loc, Page>, d: nat, lo: nat, n: nat): map<Loc, Page>
  {
    if n == 0 then m else WithoutPages(m, d, lo, n - 1) - {Loc(d, lo + n - 1)}
  }

  lemma {:induction false} WithoutPagesAt(m: map<Loc, Page>, d: nat, lo: nat, n: nat, l: Loc)
    ensures var r := WithoutPages(m, d, lo, n);
            && (l in r <==> l in m && !(l.dir == d && lo <= l.page < lo + n))
            && (l in r ==> r[l] == m[l])
  {
    if n > 0 {
      WithoutPagesAt(m, d, lo, n - 1, l);
    }
  }

  /** Memory without the pages of space d in the slots below n that have a table. */
  function WithoutSlots(m: map<Loc, Page>, dirs: Dirs, d: nat, n: nat): map<Loc, Page>
  {
    if n <= USER_FIRST then m
    else
      var m' := WithoutSlots(m, dirs, d, n - 1);
      if HasTable(dirs, d, n - 1) then WithoutPages(m', d, (n - 1) * SLOTS, SLOTS) else m'
  }

  lemma {:induction false} WithoutSlotsAt(m: map<Loc, Page>, dirs: Dirs, d: nat, n: nat, l: Loc)
    ensures var r := WithoutSlots(m, dirs, d, n);
            var slot := l.page / SLOTS;
            && (l in r <==> l in m && !(l.dir == d && USER_FIRST <= slot < n && HasTable(dirs, d, slot)))
            && (l in r ==> r[l] == m[l])
  {
    if n > USER_FIRST {
      WithoutSlotsAt(m, dirs, d, n - 1, l);
      WithoutPagesAt(WithoutSlots(m, dirs, d, n - 1), d, (n - 1) * SLOTS, SLOTS, l);
    }
  }

  /** Memory without the space d. */
  function WithoutSpace(m: map<Loc, Page>, d: nat): map<Loc, Page>
  {
    map l | l in m && l.dir != d :: m[l]
  }

  lemma {:induction false} SlotOf(i: nat, j: nat)
    requires j < SLOTS
    ensures (i * SLOTS + j) / SLOTS == i && (i * SLOTS + j) % SLOTS == j
  {
  }

  /** Nothing is mapped in slot i of space d. */
  ghost predicate NoPagesIn(m: map<Loc, Page>, d: nat, i: nat)
  {
    forall v: nat :: v / SLOTS == i ==> Loc(d, v) !in m
  }

  lemma {:induction false} CloneNothing(m: map<Loc, Page>, dirs: Dirs, src: nat, dst: nat, base: nat, size: nat)
    ensures CloneSlots(m, dirs, src, dst, USER_FIRST, base, size) == m
  {
  }

  /** Only the source's directory matters. */
  lemma {:induction false} CloneSlotsSame(m: map<Loc, Page>, dirs: Dirs, dirs': Dirs, src: nat, dst: nat, n: nat,
                                          base: nat, size: nat)
    requires src in dirs && src in dirs' && dirs[src] == dirs'[src]
    ensures CloneSlots(m, dirs, src, dst, n, base, size) == CloneSlots(m, dirs', src, dst, n, base, size)
    decreases n
  {
    if n > USER_FIRST {
      CloneSlotsSame(m, dirs, dirs', src, dst, n - 1, base, size);
    }
  }

  lemma {:induction false} CloneOneMore(m: map<Loc, Page>, dirs: Dirs, src: nat, dst: nat, i: nat, base: nat, size: nat)
    requires i >= USER_FIRST
    ensures var m' := CloneSlots(m, dirs, src, dst, i, base, size);
            CloneSlots(m, dirs, src, dst, i + 1, base, size) ==
              if HasTable(dirs, src, i) || StackSlot(base, size, i)
              then CloneRange(m', src, dst, i * SLOTS, SLOTS, base, size) else m'
  {
  }

  lemma {:induction false} NotThere<V>(m: map<Loc, V>, at: Loc)
    requires at !in m
    ensures m - {at} == m
  {
  }

  ghost predicate SamePageAt(m: map<Loc, Page>, m': map<Loc, Page>, l: Loc)
  {
    (l in m <==> l in m') && (l in m ==> m[l] == m'[l])
  }

  lemma {:induction false} WithoutSpaceAt(m: map<Loc, Page>, k: nat, l: Loc)
    ensures if l.dir == k then l !in WithoutSpace(m, k) else SamePageAt(m, WithoutSpace(m, k), l)
  {
  }

  lemma {:induction false} SameMaps(m: map<Loc, Page>, m': map<Loc, Page>)
    requires forall l: Loc :: SamePageAt(m, m', l)
    ensures m' == m
  {
    forall l: Loc ensures l in m <==> l in m' {
      assert SamePageAt(m, m', l);
    }
    forall l | l in m ensures m[l] == m'[l] {
      assert SamePageAt(m, m', l);
    }
  }
}
