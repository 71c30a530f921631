/** Copy-on-write user memory over the physical page allocator, one page-table entry at a time.

    A location is a page of one address space (named by the frame of its page directory). The state
    holds the present user entries, the contents of the frames they map, and the allocator itself.
    `Contents` is what the address spaces read; the theorem is that it always equals what the same
    run would give if every clone copied.
 */
module CowMachine {
  import opened Blocks
  import opened BuddyOwners
  import opened BuddyState
  import opened BuddyRuns

  const PAGE_BYTES: nat := 4096

  type Page = s: seq<int> | |s| == PAGE_BYTES witness seq(PAGE_BYTES, _ => 0)

  function ZeroPage(): (r: Page)
    ensures forall i :: 0 <= i < PAGE_BYTES ==> r[i] == 0
  {
    seq(PAGE_BYTES, _ => 0)
  }

  /** Virtual page `page` of the address space whose directory is in frame `dir`. */
  datatype Loc = Loc(dir: nat, page: nat)

  /** A present user entry. */
  datatype Entry = Entry(frame: nat, rw: bool, cow: bool)

  /** The last part counts the references that heap shrinks have left behind: the free of a shared frame is refused, so
      its count stays while its entry goes. */
  datatype Sys = Sys(pmm: Pmm, entries: map<Loc, Entry>, data: map<nat, Page>, lost: map<nat, nat>)

  function Mappers(entries: map<Loc, Entry>, f: nat): set<Loc>
  {
    set l | l in entries && entries[l].frame == f
  }

  // ---------- invariant ----------

  /** A frame of user data is a live single page, counted at least once per entry that maps it. */
  ghost predicate FrameOk(p: Pmm, entries: map<Loc, Entry>, f: nat)
  {
    && f < |p.owner| && f < |p.refs| && p.owner[f] == Live(f, 0)
    && |Mappers(entries, f)| <= p.refs[f] && 1 <= p.refs[f] < MAX_REFCOUNT
  }

  /** An entry maps a data frame; a writable one is private, and a private one is its frame's only mapper. */
  ghost predicate EntryOk(p: Pmm, entries: map<Loc, Entry>, data: map<nat, Page>, l: Loc)
    requires l in entries
  {
    var e := entries[l];
    && e.frame in data
    && (e.rw ==> !e.cow)
    && (!e.cow ==> Mappers(entries, e.frame) == {l} && e.frame < |p.refs| && p.refs[e.frame] == 1)
  }

  ghost predicate DataOk(p: Pmm, entries: map<Loc, Entry>, data: map<nat, Page>)
  {
    && (forall f :: f in data ==> FrameOk(p, entries, f))
    && (forall l :: l in entries ==> EntryOk(p, entries, data, l))
  }

  ghost predicate SysInv(s: Sys)
  {
    Inv(s.pmm) && DataOk(s.pmm, s.entries, s.data)
  }

  function LostAt(lost: map<nat, nat>, f: nat): nat
  {
    if f in lost then lost[f] else 0
  }

  ghost predicate ExactAt(p: Pmm, entries: map<Loc, Entry>, lost: map<nat, nat>, f: nat)
  {
    f < |p.refs| && p.refs[f] == |Mappers(entries, f)| + LostAt(lost, f)
  }

  ghost predicate LostOk(data: map<nat, Page>, lost: map<nat, nat>)
  {
    forall f :: f in lost ==> f in data && lost[f] > 0
  }

  /** Every reference count is the number of entries that map the frame and of references left behind. */
  ghost predicate ExactCounts(p: Pmm, entries: map<Loc, Entry>, data: map<nat, Page>, lost: map<nat, nat>)
  {
    && (forall f :: f in data ==> ExactAt(p, entries, lost, f))
    && LostOk(data, lost)
  }

  ghost predicate Exact(s: Sys)
  {
    ExactCounts(s.pmm, s.entries, s.data, s.lost)
  }

  ghost predicate AllMapped(entries: map<Loc, Entry>, data: map<nat, Page>)
  {
    forall l :: l in entries ==> entries[l].frame in data
  }

  /** What the address spaces read. */
  ghost function Reads(entries: map<Loc, Entry>, data: map<nat, Page>): (r: map<Loc, Page>)
    requires AllMapped(entries, data)
    ensures forall l :: l in r <==> l in entries
    ensures forall l :: l in r ==> r[l] == data[entries[l].frame]
  {
    map l | l in entries :: data[entries[l].frame]
  }

  lemma {:induction false} AllMappedOk(p: Pmm, entries: map<Loc, Entry>, data: map<nat, Page>)
    requires DataOk(p, entries, data)
    ensures AllMapped(entries, data)
  {
    forall l | l in entries ensures entries[l].frame in data {
      assert EntryOk(p, entries, data, l);
    }
  }

  ghost function Contents(s: Sys): map<Loc, Page>
    requires SysInv(s)
  {
    AllMappedOk(s.pmm, s.entries, s.data);
    Reads(s.entries, s.data)
  }

  // ---------- steps ----------

  datatype CowStep =
    | Share(src: Loc, dst: Loc)               // clone of a data or heap page
    | Copy(src: Loc, dst: Loc)                // clone of a stack page
    | Zero(dst: Loc)                          // fresh zeroed page: stack of a clone, heap growth
    | Write(at: Loc, offset: nat, value: int)
    | Fault(at: Loc)                          // write fault on a copy-on-write entry
    | Drop(at: Loc)                           // teardown of one entry
    | Unmap(at: Loc)                          // heap shrink

  predicate CanAlloc(s: Sys)
    requires |s.pmm.lists| == MAX_ORDER + 1
  {
    AllocOrder(s.pmm, 0).1 != 0
  }

  /** Entries exist where they are used and not where they are made; a write needs the write bit; a clone
      finds memory; no reference count reaches its maximum. */
  ghost predicate CowLegal(s: Sys, st: CowStep)
    requires SysInv(s)
  {
    match st
    case Share(src, dst) => src in s.entries && dst !in s.entries && Sharable(s.pmm, s.entries[src].frame)
    case Copy(src, dst) => src in s.entries && dst !in s.entries && CanAlloc(s)
    case Zero(dst) => dst !in s.entries && CanAlloc(s)
    case Write(at, offset, _) => at in s.entries && s.entries[at].rw && offset < PAGE_BYTES
    case Fault(at) => at in s.entries && s.entries[at].cow
    case Drop(at) => at in s.entries
    case Unmap(at) => at in s.entries
  }

  /** One more reference stays below the maximum, where counting stops. */
  predicate Sharable(p: Pmm, f: nat)
  {
    f < |p.refs| && p.refs[f] + 1 < MAX_REFCOUNT
  }

  /** One more mapper of the frame: both entries become read-only and copy-on-write. */
  function ShareEntry(s: Sys, src: Loc, dst: Loc): Sys
    requires src in s.entries && s.entries[src].frame < |s.pmm.refs|
  {
    var e := s.entries[src].(rw := false, cow := true);
    Sys(IncRef(s.pmm, e.frame), s.entries[src := e][dst := e], s.data, s.lost)
  }

  /** A private writable page with the given contents in a new frame. */
  function FreshEntry(s: Sys, dst: Loc, page: Page): Sys
    requires |s.pmm.lists| == MAX_ORDER + 1
  {
    var (pmm, f) := AllocOrder(s.pmm, 0);
    Sys(pmm, s.entries[dst := Entry(f, true, false)], s.data[f := page], s.lost)
  }

  /** A private copy of the page at src. */
  function CopyEntry(s: Sys, src: Loc, dst: Loc): Sys
    requires SysInv(s) && src in s.entries
  {
    MappedOk(s.pmm, s.entries, s.data, src);
    FreshEntry(s, dst, s.data[s.entries[src].frame])
  }

  /** Take one reference off a frame and free it when none is left. */
  function Release1(s: Sys, f: nat): (r: Sys)
    requires Inv(s.pmm) && f < |s.pmm.owner| && s.pmm.owner[f] == Live(f, 0)
    requires f < |s.pmm.refs| && s.pmm.refs[f] > 0
    ensures r.entries == s.entries && r.lost == s.lost
  {
    var pmm := DecRef(s.pmm, f);
    if pmm.refs[f] == 0 then
      s.(pmm := BuddyState.FreePage(pmm, f), data := s.data - {f})
    else
      s.(pmm := pmm)
  }

  /** A private writable copy for one mapper of a shared frame; nothing happens without memory. */
  function FaultEntry(s: Sys, at: Loc): Sys
    requires SysInv(s) && at in s.entries
  {
    var old_ := s.entries[at].frame;
    MappedOk(s.pmm, s.entries, s.data, at);
    if !CanAlloc(s) then s
    else
      AllocPageFacts(s.pmm);
      Release1(FreshEntry(s, at, s.data[old_]), old_)
  }

  /** Teardown: a copy-on-write entry gives up its reference, a private frame is freed. */
  function DropEntry(s: Sys, at: Loc): Sys
    requires SysInv(s) && at in s.entries
  {
    MappedOk(s.pmm, s.entries, s.data, at);
    var e := s.entries[at];
    var t := s.(entries := s.entries - {at});
    if e.cow then Release1(t, e.frame)
    else t.(pmm := BuddyState.FreePage(s.pmm, e.frame), data := s.data - {e.frame})
  }

  /** Heap shrink: the entry goes, and the frame is freed unless the allocator refuses because it is shared. */
  function UnmapEntry(s: Sys, at: Loc): Sys
    requires SysInv(s) && at in s.entries
  {
    MappedOk(s.pmm, s.entries, s.data, at);
    var f := s.entries[at].frame;
    var t := Sys(BuddyState.FreePage(s.pmm, f), s.entries - {at}, s.data, s.lost);
    if s.pmm.refs[f] > 1 then t.(lost := s.lost[f := LostAt(s.lost, f) + 1]) else t.(data := s.data - {f})
  }

  // ---------- what single-page calls do to the allocator ----------

  /** The free page f was handed out; every other page is as free or as used as before. */
  ghost predicate Took(p: Pmm, p': Pmm, f: nat)
  {
    && f < |p.owner| == |p'.owner| == |p.refs| && p.owner[f].Free? && p'.owner[f] == Live(f, 0)
    && p'.refs == p.refs[f := 1]
    && forall q :: 0 <= q < |p.owner| && q != f ==> SameUse(p.owner[q], p'.owner[q])
  }

  /** The page f was freed; every other page is as free or as used as before. */
  ghost predicate Gave(p: Pmm, p': Pmm, f: nat)
  {
    && f < |p.owner| == |p'.owner| == |p.refs| && p'.owner[f].Free? && p'.refs == p.refs[f := 0]
    && forall q :: 0 <= q < |p.owner| && q != f ==> SameUse(p.owner[q], p'.owner[q])
  }

  predicate SameUse(b: Owner, b': Owner)
  {
    if b.Free? then b'.Free? else b' == b
  }

  lemma {:induction false} AllocPageFacts(p: Pmm)
    requires Inv(p) && AllocOrder(p, 0).1 != 0
    ensures var (t, f) := AllocOrder(p, 0);
            && Inv(t) && 0 < f && t.used == p.used + 1
            && Took(p, t, f)
  {
    AllocInv(p, 0);
    AllocSound(p, 0);
    AllocSplits(p, 0);
    var (t, f) := AllocOrder(p, 0);
    assert t.refs == p.refs[f := 1];
  }

  lemma {:induction false} FreePageFacts(p: Pmm, f: nat)
    requires Inv(p) && f < |p.owner| && p.owner[f] == Live(f, 0)
    ensures p.refs[f] > 1 ==> BuddyState.FreePage(p, f) == p
    ensures p.refs[f] <= 1 ==>
              var t := BuddyState.FreePage(p, f);
              Inv(t) && t.used == p.used - 1 && Gave(p, t, f)
  {
    FreeInv(p, f);
    if p.refs[f] > 1 {
      assert StillShared(p.refs, f, Pow2(0));
    } else {
      FreeSound(p, f);
      assert BuddyState.FreePage(p, f).refs == p.refs[f := 0];
    }
  }

  // ---------- who maps a frame ----------

  lemma {:induction false} MappersUpdate(entries: map<Loc, Entry>, l: Loc, e: Entry, f: nat)
    ensures Mappers(entries[l := e], f) == (Mappers(entries, f) - {l}) + (if e.frame == f then {l} else {})
  {
  }

  lemma {:induction false} MappersRemove(entries: map<Loc, Entry>, l: Loc, f: nat)
    ensures Mappers(entries - {l}, f) == Mappers(entries, f) - {l}
  {
  }

  /** A private entry shares its frame with no other entry. */
  lemma {:induction false} PrivateAlone(p: Pmm, entries: map<Loc, Entry>, data: map<nat, Page>, l: Loc, k: Loc)
    requires DataOk(p, entries, data)
    requires l in entries && k in entries && entries[l].frame == entries[k].frame && l != k
    ensures entries[l].cow && entries[k].cow
  {
    assert EntryOk(p, entries, data, l) && EntryOk(p, entries, data, k);
    assert k in Mappers(entries, entries[l].frame) && l in Mappers(entries, entries[l].frame);
  }

  lemma {:induction false} MappedOk(p: Pmm, entries: map<Loc, Entry>, data: map<nat, Page>, l: Loc)
    requires DataOk(p, entries, data) && l in entries
    ensures entries[l].frame in data && FrameOk(p, entries, entries[l].frame) && EntryOk(p, entries, data, l)
    ensures l in Mappers(entries, entries[l].frame)
  {
    assert EntryOk(p, entries, data, l);
  }

  // ---------- share ----------

  lemma {:induction false} ShareMappers(entries: map<Loc, Entry>, src: Loc, dst: Loc, e: Entry, f: nat)
    requires src in entries && dst !in entries && e.frame == entries[src].frame
    ensures Mappers(entries[src := e][dst := e], f) == Mappers(entries, f) + (if e.frame == f then {dst} else {})
    ensures |Mappers(entries[src := e][dst := e], f)| == |Mappers(entries, f)| + (if e.frame == f then 1 else 0)
  {
    MappersUpdate(entries, src, e, f);
    MappersUpdate(entries[src := e], dst, e, f);
    assert src in Mappers(entries, entries[src].frame);
  }

  lemma {:induction false} ShareDataOk(p: Pmm, p': Pmm, entries: map<Loc, Entry>, data: map<nat, Page>, src: Loc,
                                       dst: Loc, e: Entry)
    requires DataOk(p, entries, data) && src in entries && dst !in entries
    requires e == entries[src].(rw := false, cow := true)
    requires p'.owner == p.owner && Sharable(p, e.frame) && p'.refs == p.refs[e.frame := p.refs[e.frame] + 1]
    ensures DataOk(p', entries[src := e][dst := e], data)
  {
    var entries' := entries[src := e][dst := e];
    assert EntryOk(p, entries, data, src);
    forall f | f in data ensures FrameOk(p', entries', f) {
      assert FrameOk(p, entries, f);
      ShareMappers(entries, src, dst, e, f);
    }
    forall l | l in entries' ensures EntryOk(p', entries', data, l) {
      if l != src && l != dst {
        ShareOther(p, p', entries, data, src, dst, e, l);
      }
    }
  }

  lemma {:induction false} ShareOther(p: Pmm, p': Pmm, entries: map<Loc, Entry>, data: map<nat, Page>, src: Loc,
                                      dst: Loc, e: Entry, l: Loc)
    requires DataOk(p, entries, data) && src in entries && dst !in entries
    requires e == entries[src].(rw := false, cow := true)
    requires p'.owner == p.owner && e.frame < |p.refs| && p'.refs == p.refs[e.frame := p.refs[e.frame] + 1]
    requires l in entries && l != src
    ensures EntryOk(p', entries[src := e][dst := e], data, l)
  {
    assert EntryOk(p, entries, data, l);
    if entries[l].frame == e.frame {
      PrivateAlone(p, entries, data, l, src);
    }
    ShareMappers(entries, src, dst, e, entries[l].frame);
  }

  lemma {:induction false} ShareExact(p: Pmm, p': Pmm, entries: map<Loc, Entry>, data: map<nat, Page>,
                                      lost: map<nat, nat>, src: Loc, dst: Loc, e: Entry)
    requires ExactCounts(p, entries, data, lost) && src in entries && dst !in entries
    requires e.frame == entries[src].frame
    requires e.frame < |p.refs| && p'.refs == p.refs[e.frame := p.refs[e.frame] + 1]
    ensures ExactCounts(p', entries[src := e][dst := e], data, lost)
  {
    forall f | f in data ensures ExactAt(p', entries[src := e][dst := e], lost, f) {
      assert ExactAt(p, entries, lost, f);
      ShareMappers(entries, src, dst, e, f);
    }
  }

  lemma {:induction false} ShareReads(entries: map<Loc, Entry>, data: map<nat, Page>, src: Loc, dst: Loc, e: Entry)
    requires AllMapped(entries, data) && src in entries && e.frame == entries[src].frame
    ensures AllMapped(entries[src := e][dst := e], data)
    ensures Reads(entries[src := e][dst := e], data) == Reads(entries, data)[dst := Reads(entries, data)[src]]
  {
  }

  lemma {:induction false} ShareKeeps(s: Sys, src: Loc, dst: Loc)
    requires SysInv(s) && CowLegal(s, Share(src, dst))
    ensures SysInv(ShareEntry(s, src, dst))
  {
    hide Inv, DataOk;
    MappedOk(s.pmm, s.entries, s.data, src);
    var e := s.entries[src].(rw := false, cow := true);
    StepInv(s.pmm, Inc(e.frame));
    ShareDataOk(s.pmm, IncRef(s.pmm, e.frame), s.entries, s.data, src, dst, e);
  }

  // ---------- fresh page ----------

  lemma {:induction false} FreshMappers(entries: map<Loc, Entry>, data: map<nat, Page>, dst: Loc, e: Entry, f: nat)
    requires AllMapped(entries, data) && dst !in entries && e.frame !in data
    ensures Mappers(entries[dst := e], f) == if f == e.frame then {dst} else Mappers(entries, f)
  {
    MappersUpdate(entries, dst, e, f);
    assert Mappers(entries, e.frame) == {};
  }

  lemma {:induction false} FreshDataOk(p: Pmm, p': Pmm, entries: map<Loc, Entry>, data: map<nat, Page>, dst: Loc,
                                       f: nat, page: Page)
    requires DataOk(p, entries, data) && dst !in entries && Took(p, p', f)
    ensures f !in data
    ensures DataOk(p', entries[dst := Entry(f, true, false)], data[f := page])
  {
    var e := Entry(f, true, false);
    var entries', data' := entries[dst := e], data[f := page];
    assert f in data ==> FrameOk(p, entries, f);
    AllMappedOk(p, entries, data);
    forall g | g in data' ensures FrameOk(p', entries', g) {
      FreshMappers(entries, data, dst, e, g);
      assert g != f ==> FrameOk(p, entries, g);
    }
    forall l | l in entries' ensures EntryOk(p', entries', data', l) {
      if l != dst {
        assert EntryOk(p, entries, data, l);
        FreshMappers(entries, data, dst, e, entries[l].frame);
      } else {
        FreshMappers(entries, data, dst, e, f);
      }
    }
  }

  lemma {:induction false} FreshExact(p: Pmm, p': Pmm, entries: map<Loc, Entry>, data: map<nat, Page>,
                                      lost: map<nat, nat>, dst: Loc, f: nat, page: Page)
    requires ExactCounts(p, entries, data, lost) && dst !in entries && Took(p, p', f) && f !in data
    requires AllMapped(entries, data)
    ensures ExactCounts(p', entries[dst := Entry(f, true, false)], data[f := page], lost)
  {
    var e := Entry(f, true, false);
    forall g | g == f || g in data ensures ExactAt(p', entries[dst := e], lost, g) {
      FreshMappers(entries, data, dst, e, g);
      assert g != f ==> ExactAt(p, entries, lost, g);
    }
  }

  lemma {:induction false} FreshReads(entries: map<Loc, Entry>, data: map<nat, Page>, dst: Loc, e: Entry, page: Page)
    requires AllMapped(entries, data) && e.frame !in data
    ensures AllMapped(entries[dst := e], data[e.frame := page])
    ensures Reads(entries[dst := e], data[e.frame := page]) == Reads(entries, data)[dst := page]
  {
  }

  lemma {:induction false} FreshKeeps(s: Sys, dst: Loc, page: Page)
    requires SysInv(s) && dst !in s.entries && CanAlloc(s)
    ensures SysInv(FreshEntry(s, dst, page))
  {
    var (p', f) := AllocOrder(s.pmm, 0);
    AllocPageFacts(s.pmm);
    FreshDataOk(s.pmm, p', s.entries, s.data, dst, f, page);
  }

  // ---------- taking an entry away ----------

  /** The count of f is one ahead of its entries, all of them copy-on-write. */
  ghost predicate Slack(p: Pmm, entries: map<Loc, Entry>, f: nat)
  {
    && f < |p.refs| && |Mappers(entries, f)| + 1 <= p.refs[f]
    && forall l :: l in entries && entries[l].frame == f ==> entries[l].cow
  }

  /** All counts are exact but that of f, which is one ahead. */
  ghost predicate ExactBut(p: Pmm, entries: map<Loc, Entry>, data: map<nat, Page>, lost: map<nat, nat>, f: nat)
  {
    && (forall g :: g in data && g != f ==> ExactAt(p, entries, lost, g))
    && f < |p.refs| && p.refs[f] == |Mappers(entries, f)| + LostAt(lost, f) + 1
    && LostOk(data, lost)
  }

  lemma {:induction false} RemoveMappers(entries: map<Loc, Entry>, at: Loc, g: nat)
    requires at in entries
    ensures |Mappers(entries - {at}, g)| == |Mappers(entries, g)| - (if g == entries[at].frame then 1 else 0)
    ensures Mappers(entries - {at}, g) == Mappers(entries, g) - {at}
  {
    MappersRemove(entries, at, g);
    assert g == entries[at].frame <==> at in Mappers(entries, g);
  }

  lemma {:induction false} RemoveDataOk(p: Pmm, entries: map<Loc, Entry>, data: map<nat, Page>, at: Loc)
    requires DataOk(p, entries, data) && at in entries
    ensures DataOk(p, entries - {at}, data)
  {
    var entries' := entries - {at};
    forall g | g in data ensures FrameOk(p, entries', g) {
      assert FrameOk(p, entries, g);
      RemoveMappers(entries, at, g);
    }
    forall l | l in entries' ensures EntryOk(p, entries', data, l) {
      assert EntryOk(p, entries, data, l);
      RemoveMappers(entries, at, entries[l].frame);
      if entries[l].frame == entries[at].frame {
        PrivateAlone(p, entries, data, l, at);
      }
    }
  }

  lemma {:induction false} RemoveSlack(p: Pmm, entries: map<Loc, Entry>, data: map<nat, Page>, at: Loc)
    requires DataOk(p, entries, data) && at in entries
    ensures Slack(p, entries - {at}, entries[at].frame)
  {
    var f := entries[at].frame;
    var entries' := entries - {at};
    MappedOk(p, entries, data, at);
    RemoveMappers(entries, at, f);
    forall l | l in entries' && entries'[l].frame == f ensures entries'[l].cow {
      PrivateAlone(p, entries, data, l, at);
    }
  }

  lemma {:induction false} RemoveExact(p: Pmm, entries: map<Loc, Entry>, data: map<nat, Page>, lost: map<nat, nat>,
                                       at: Loc)
    requires ExactCounts(p, entries, data, lost) && at in entries && entries[at].frame in data
    ensures ExactBut(p, entries - {at}, data, lost, entries[at].frame)
  {
    var f := entries[at].frame;
    assert ExactAt(p, entries, lost, f);
    RemoveMappers(entries, at, f);
    forall g | g in data && g != f ensures ExactAt(p, entries - {at}, lost, g) {
      assert ExactAt(p, entries, lost, g);
      RemoveMappers(entries, at, g);
    }
  }

  lemma {:induction false} RemoveReads(entries: map<Loc, Entry>, data: map<nat, Page>, at: Loc)
    requires AllMapped(entries, data)
    ensures AllMapped(entries - {at}, data) && Reads(entries - {at}, data) == Reads(entries, data) - {at}
  {
  }

  // ---------- giving a reference or a frame back ----------

  lemma {:induction false} GaveDataOk(p: Pmm, p': Pmm, entries: map<Loc, Entry>, data: map<nat, Page>, f: nat)
    requires DataOk(p, entries, data) && Gave(p, p', f) && Mappers(entries, f) == {}
    ensures DataOk(p', entries, data - {f})
  {
    var data' := data - {f};
    forall g | g in data' ensures FrameOk(p', entries, g) {
      assert FrameOk(p, entries, g);
    }
    forall l | l in entries ensures EntryOk(p', entries, data', l) {
      assert EntryOk(p, entries, data, l);
      assert entries[l].frame == f ==> l in Mappers(entries, f);
    }
  }

  lemma {:induction false} GaveExact(p: Pmm, p': Pmm, entries: map<Loc, Entry>, data: map<nat, Page>,
                                     lost: map<nat, nat>, f: nat)
    requires ExactBut(p, entries, data, lost, f) && Gave(p, p', f) && p.refs[f] == 1
    ensures ExactCounts(p', entries, data - {f}, lost)
  {
    forall g | g in data - {f} ensures ExactAt(p', entries, lost, g) {
      assert ExactAt(p, entries, lost, g);
    }
  }

  lemma {:induction false} GaveReads(entries: map<Loc, Entry>, data: map<nat, Page>, f: nat)
    requires AllMapped(entries, data) && Mappers(entries, f) == {}
    ensures AllMapped(entries, data - {f}) && Reads(entries, data - {f}) == Reads(entries, data)
  {
    forall l | l in entries ensures entries[l].frame != f {
      assert entries[l].frame == f ==> l in Mappers(entries, f);
    }
  }

  lemma {:induction false} GaveAll(p: Pmm, p': Pmm, entries: map<Loc, Entry>, data: map<nat, Page>, f: nat)
    requires DataOk(p, entries, data) && Gave(p, p', f) && Mappers(entries, f) == {}
    ensures DataOk(p', entries, data - {f})
    ensures AllMapped(entries, data) && AllMapped(entries, data - {f})
    ensures Reads(entries, data - {f}) == Reads(entries, data)
  {
    hide DataOk;
    AllMappedOk(p, entries, data);
    GaveDataOk(p, p', entries, data, f);
    GaveReads(entries, data, f);
  }

  lemma {:induction false} DecDataOk(p: Pmm, p': Pmm, entries: map<Loc, Entry>, data: map<nat, Page>, f: nat)
    requires DataOk(p, entries, data) && Slack(p, entries, f) && p.refs[f] > 1
    requires p'.owner == p.owner && p'.refs == p.refs[f := p.refs[f] - 1]
    ensures DataOk(p', entries, data)
  {
    forall g | g in data ensures FrameOk(p', entries, g) {
      assert FrameOk(p, entries, g);
    }
    forall l | l in entries ensures EntryOk(p', entries, data, l) {
      assert EntryOk(p, entries, data, l);
    }
  }

  lemma {:induction false} DecExact(p: Pmm, p': Pmm, entries: map<Loc, Entry>, data: map<nat, Page>,
                                    lost: map<nat, nat>, f: nat)
    requires ExactBut(p, entries, data, lost, f) && f < |p.refs| && p.refs[f] > 0
    requires p'.refs == p.refs[f := p.refs[f] - 1]
    ensures ExactCounts(p', entries, data, lost)
  {
    forall g | g in data ensures ExactAt(p', entries, lost, g) {
      assert g != f ==> ExactAt(p, entries, lost, g);
    }
  }

  /** Nothing maps a frame whose one reference is slack. */
  lemma {:induction false} SlackOne(p: Pmm, entries: map<Loc, Entry>, f: nat)
    requires Slack(p, entries, f) && p.refs[f] == 1
    ensures Mappers(entries, f) == {}
  {
  }

  lemma {:induction false} DataFrame(p: Pmm, entries: map<Loc, Entry>, data: map<nat, Page>, f: nat)
    requires DataOk(p, entries, data) && f in data
    ensures FrameOk(p, entries, f)
  {
  }

  /** The state after Release1, in terms of its parts. */
  lemma {:induction false} Release1Keeps(s: Sys, f: nat)
    requires SysInv(s) && f in s.data && Slack(s.pmm, s.entries, f)
    ensures FrameOk(s.pmm, s.entries, f)
    ensures var t := Release1(s, f);
            && SysInv(t) && t.entries == s.entries
            && (ExactBut(s.pmm, s.entries, s.data, s.lost, f) ==> Exact(t))
            && AllMapped(s.entries, s.data) && AllMapped(t.entries, t.data)
            && Reads(t.entries, t.data) == Reads(s.entries, s.data)
  {
    hide Inv, DataOk, ExactBut, ExactCounts, BuddyState.FreePage;
    DataFrame(s.pmm, s.entries, s.data, f);
    var p := DecRef(s.pmm, f);
    StepInv(s.pmm, Dec(f));
    AllMappedOk(s.pmm, s.entries, s.data);
    if s.pmm.refs[f] == 1 {
      FreePageFacts(p, f);
      SlackOne(s.pmm, s.entries, f);
      assert Gave(s.pmm, BuddyState.FreePage(p, f), f);
      GaveAll(s.pmm, BuddyState.FreePage(p, f), s.entries, s.data, f);
      if ExactBut(s.pmm, s.entries, s.data, s.lost, f) {
        GaveExact(s.pmm, BuddyState.FreePage(p, f), s.entries, s.data, s.lost, f);
      }
    } else {
      DecDataOk(s.pmm, p, s.entries, s.data, f);
      if ExactBut(s.pmm, s.entries, s.data, s.lost, f) {
        DecExact(s.pmm, p, s.entries, s.data, s.lost, f);
      }
    }
  }

  // ---------- the remaining steps ----------

  lemma {:induction false} FaultSlack(p: Pmm, p': Pmm, entries: map<Loc, Entry>, data: map<nat, Page>, at: Loc, f: nat)
    requires DataOk(p, entries, data) && at in entries && Took(p, p', f)
    ensures f !in data && f != entries[at].frame && entries[at].frame in data
    ensures Slack(p', entries[at := Entry(f, true, false)], entries[at].frame)
  {
    hide DataOk;
    var old_ := entries[at].frame;
    NotData(p, p', entries, data, f);
    MappedOk(p, entries, data, at);
    RemoveSlack(p, entries, data, at);
    RemovedMapped(p, entries, data, at);
    assert entries[at := Entry(f, true, false)] == (entries - {at})[at := Entry(f, true, false)];
    FreshMappers(entries - {at}, data, at, Entry(f, true, false), old_);
  }

  lemma {:induction false} FaultExact(p: Pmm, p': Pmm, entries: map<Loc, Entry>, data: map<nat, Page>,
                                      lost: map<nat, nat>, at: Loc, f: nat)
    requires DataOk(p, entries, data) && at in entries && Took(p, p', f) && ExactCounts(p, entries, data, lost)
    ensures entries[at].frame in data
    ensures ExactBut(p', entries[at := Entry(f, true, false)], data[f := data[entries[at].frame]], lost,
                     entries[at].frame)
  {
    hide DataOk;
    var old_ := entries[at].frame;
    var e := Entry(f, true, false);
    var entries0 := entries - {at};
    NotData(p, p', entries, data, f);
    MappedOk(p, entries, data, at);
    RemoveExact(p, entries, data, lost, at);
    RemovedMapped(p, entries, data, at);
    assert entries[at := e] == entries0[at := e];
    FreshMappers(entries0, data, at, e, old_);
    forall g | (g == f || g in data) && g != old_ ensures ExactAt(p', entries[at := e], lost, g) {
      FreshMappers(entries0, data, at, e, g);
      assert g != f ==> ExactAt(p, entries0, lost, g);
    }
  }

  lemma {:induction false} NotData(p: Pmm, p': Pmm, entries: map<Loc, Entry>, data: map<nat, Page>, f: nat)
    requires DataOk(p, entries, data) && Took(p, p', f)
    ensures f !in data
  {
    assert f in data ==> FrameOk(p, entries, f);
  }

  lemma {:induction false} RemovedMapped(p: Pmm, entries: map<Loc, Entry>, data: map<nat, Page>, at: Loc)
    requires DataOk(p, entries, data) && at in entries
    ensures AllMapped(entries - {at}, data)
  {
    AllMappedOk(p, entries, data);
  }

  lemma {:induction false} FaultDataOk(p: Pmm, p': Pmm, entries: map<Loc, Entry>, data: map<nat, Page>, at: Loc, f: nat)
    requires DataOk(p, entries, data) && at in entries && Took(p, p', f) && entries[at].frame in data
    ensures DataOk(p', entries[at := Entry(f, true, false)], data[f := data[entries[at].frame]])
  {
    RemoveDataOk(p, entries, data, at);
    FreshDataOk(p, p', entries - {at}, data, at, f, data[entries[at].frame]);
    assert (entries - {at})[at := Entry(f, true, false)] == entries[at := Entry(f, true, false)];
  }

  /** The copy reads like the original. */
  lemma {:induction false} FaultReads(entries: map<Loc, Entry>, data: map<nat, Page>, at: Loc, e: Entry)
    requires AllMapped(entries, data) && at in entries && e.frame !in data
    ensures AllMapped(entries[at := e], data[e.frame := data[entries[at].frame]])
    ensures Reads(entries[at := e], data[e.frame := data[entries[at].frame]]) == Reads(entries, data)
  {
  }

  lemma {:induction false} FaultKeeps(s: Sys, at: Loc)
    requires SysInv(s) && at in s.entries
    ensures SysInv(FaultEntry(s, at))
    ensures Exact(s) ==> Exact(FaultEntry(s, at))
    ensures Contents(FaultEntry(s, at)) == Contents(s)
    ensures CanAlloc(s) ==> at in FaultEntry(s, at).entries && FaultEntry(s, at).entries[at].rw
    ensures FaultEntry(s, at).lost == s.lost
  {
    MappedOk(s.pmm, s.entries, s.data, at);
    if CanAlloc(s) {
      var old_ := s.entries[at].frame;
      var (p', f) := AllocOrder(s.pmm, 0);
      AllocPageFacts(s.pmm);
      FaultSlack(s.pmm, p', s.entries, s.data, at, f);
      if Exact(s) {
        FaultExact(s.pmm, p', s.entries, s.data, s.lost, at, f);
      }
      FaultDataOk(s.pmm, p', s.entries, s.data, at, f);
      AllMappedOk(s.pmm, s.entries, s.data);
      FaultReads(s.entries, s.data, at, Entry(f, true, false));
      Release1Keeps(FreshEntry(s, at, s.data[old_]), old_);
    }
  }

  lemma {:induction false} DropKeeps(s: Sys, at: Loc)
    requires SysInv(s) && at in s.entries
    ensures SysInv(DropEntry(s, at))
    ensures Exact(s) ==> Exact(DropEntry(s, at))
    ensures Contents(DropEntry(s, at)) == Contents(s) - {at} && DropEntry(s, at).lost == s.lost
  {
    var f := s.entries[at].frame;
    var t := s.(entries := s.entries - {at});
    MappedOk(s.pmm, s.entries, s.data, at);
    RemoveDataOk(s.pmm, s.entries, s.data, at);
    RemoveSlack(s.pmm, s.entries, s.data, at);
    AllMappedOk(s.pmm, s.entries, s.data);
    RemoveReads(s.entries, s.data, at);
    if Exact(s) {
      RemoveExact(s.pmm, s.entries, s.data, s.lost, at);
    }
    if s.entries[at].cow {
      Release1Keeps(t, f);
    } else {
      GivePrivate(t, f);
    }
  }

  /** Freeing a frame that nothing maps any more. */
  lemma {:induction false} GivePrivate(s: Sys, f: nat)
    requires SysInv(s) && f in s.data && Slack(s.pmm, s.entries, f)
    requires f < |s.pmm.refs| && s.pmm.refs[f] == 1
    ensures f < |s.pmm.owner| && !s.pmm.owner[f].Reserved?
    ensures var t := s.(pmm := BuddyState.FreePage(s.pmm, f), data := s.data - {f});
            && SysInv(t)
            && (ExactBut(s.pmm, s.entries, s.data, s.lost, f) ==> Exact(t))
            && AllMapped(s.entries, s.data) && AllMapped(t.entries, t.data)
            && Reads(t.entries, t.data) == Reads(s.entries, s.data)
  {
    assert FrameOk(s.pmm, s.entries, f);
    FreePageFacts(s.pmm, f);
    SlackOne(s.pmm, s.entries, f);
    GaveAll(s.pmm, BuddyState.FreePage(s.pmm, f), s.entries, s.data, f);
    if ExactBut(s.pmm, s.entries, s.data, s.lost, f) {
      GaveExact(s.pmm, BuddyState.FreePage(s.pmm, f), s.entries, s.data, s.lost, f);
    }
  }

  /** A heap shrink keeps counts exact: a shared frame keeps its count, and one more reference is left behind. */
  lemma {:induction false} UnmapExact(s: Sys, at: Loc)
    requires SysInv(s) && at in s.entries && Exact(s)
    ensures Exact(UnmapEntry(s, at))
  {
    hide Inv, DataOk, ExactBut, ExactCounts, Slack;
    var f := s.entries[at].frame;
    MappedOk(s.pmm, s.entries, s.data, at);
    RemoveExact(s.pmm, s.entries, s.data, s.lost, at);
    if s.pmm.refs[f] <= 1 {
      RemoveDataOk(s.pmm, s.entries, s.data, at);
      RemoveSlack(s.pmm, s.entries, s.data, at);
      GivePrivate(s.(entries := s.entries - {at}), f);
    } else {
      FreePageFacts(s.pmm, f);
      LostMore(s.pmm, s.entries - {at}, s.data, s.lost, f);
    }
  }

  lemma {:induction false} LostMore(p: Pmm, entries: map<Loc, Entry>, data: map<nat, Page>, lost: map<nat, nat>, f: nat)
    requires ExactBut(p, entries, data, lost, f) && f in data
    ensures ExactCounts(p, entries, data, lost[f := LostAt(lost, f) + 1])
  {
    var lost' := lost[f := LostAt(lost, f) + 1];
    forall g | g in data ensures ExactAt(p, entries, lost', g) {
      assert g != f ==> ExactAt(p, entries, lost, g);
    }
  }

  /** No count falls below the number of mappers; a reference is left behind exactly when the frame was shared. */
  lemma {:induction false} UnmapKeeps(s: Sys, at: Loc)
    requires SysInv(s) && at in s.entries
    ensures SysInv(UnmapEntry(s, at)) && (Exact(s) ==> Exact(UnmapEntry(s, at)))
    ensures Contents(UnmapEntry(s, at)) == Contents(s) - {at}
    ensures var f := s.entries[at].frame;
            f < |s.pmm.refs| && (UnmapEntry(s, at).lost == s.lost <==> s.pmm.refs[f] == 1)
  {
    if Exact(s) {
      UnmapExact(s, at);
    }
    var f := s.entries[at].frame;
    MappedOk(s.pmm, s.entries, s.data, at);
    RemoveDataOk(s.pmm, s.entries, s.data, at);
    RemoveSlack(s.pmm, s.entries, s.data, at);
    AllMappedOk(s.pmm, s.entries, s.data);
    RemoveReads(s.entries, s.data, at);
    FreePageFacts(s.pmm, f);
    if s.pmm.refs[f] <= 1 {
      GivePrivate(s.(entries := s.entries - {at}), f);
    } else {
      assert LostAt(UnmapEntry(s, at).lost, f) != LostAt(s.lost, f);
    }
  }

  function WriteByte(s: Sys, at: Loc, offset: nat, value: int): Sys
    requires SysInv(s) && at in s.entries && offset < PAGE_BYTES
  {
    MappedOk(s.pmm, s.entries, s.data, at);
    var f := s.entries[at].frame;
    s.(data := s.data[f := s.data[f][offset := value]])
  }

  lemma {:induction false} WriteKeeps(s: Sys, at: Loc, offset: nat, value: int)
    requires SysInv(s) && at in s.entries && s.entries[at].rw && offset < PAGE_BYTES
    ensures at in Contents(s)
    ensures SysInv(WriteByte(s, at, offset, value))
    ensures Exact(s) ==> Exact(WriteByte(s, at, offset, value))
    ensures WriteByte(s, at, offset, value).lost == s.lost
    ensures Contents(WriteByte(s, at, offset, value)) == Contents(s)[at := Contents(s)[at][offset := value]]
  {
    MappedOk(s.pmm, s.entries, s.data, at);
    var f := s.entries[at].frame;
    SameFrames(s.pmm, s.entries, s.data, s.data[f := s.data[f][offset := value]]);
    forall l | l in s.entries && s.entries[l].frame == f ensures l == at {
      if l != at {
        PrivateAlone(s.pmm, s.entries, s.data, l, at);
      }
    }
    WriteReads(s.entries, s.data, at, s.data[f][offset := value]);
  }

  lemma {:induction false} WriteReads(entries: map<Loc, Entry>, data: map<nat, Page>, at: Loc, page: Page)
    requires AllMapped(entries, data) && at in entries
    requires forall l :: l in entries && entries[l].frame == entries[at].frame ==> l == at
    ensures AllMapped(entries, data[entries[at].frame := page])
    ensures Reads(entries, data[entries[at].frame := page]) == Reads(entries, data)[at := page]
  {
  }

  lemma {:induction false} SameFrames(p: Pmm, entries: map<Loc, Entry>, data: map<nat, Page>, data': map<nat, Page>)
    requires DataOk(p, entries, data) && data'.Keys == data.Keys
    ensures DataOk(p, entries, data') && AllMapped(entries, data) && AllMapped(entries, data')
    ensures forall lost :: ExactCounts(p, entries, data, lost) ==> ExactCounts(p, entries, data', lost)
  {
    AllMappedOk(p, entries, data);
    forall l | l in entries ensures EntryOk(p, entries, data', l) {
      assert EntryOk(p, entries, data, l);
    }
  }
}
