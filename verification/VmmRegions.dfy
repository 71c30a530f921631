/**
 * The virtual memory manager's regions as a sequence (kernel/kernel/memory/vmm.c): they lie end to end over the managed
 * range, and splitting, marking and merging keep it that way.
 */
module VmmRegions {
  const PAGE: nat := 4096
  const KERNEL_START: nat := 0x0010_0000
  const USER_START: nat := 0x0040_0000
  const USER_END: nat := 0x4000_0000
  const KERNEL_HEAP: nat := 0x4000_0000
  const KERNEL_END: nat := 0xC000_0000

  const PRESENT: nat := 1
  const WRITE: nat := 2
  const USER: nat := 4

  datatype Region = Region(start: nat, end: nat, flags: nat, free: bool)

  predicate IsKernel(a: nat)
  {
    KERNEL_START <= a < USER_START || KERNEL_HEAP <= a < KERNEL_END
  }

  predicate ForUser(flags: nat)
  {
    flags / USER % 2 == 1
  }

  function WithPresent(flags: nat): nat
  {
    if flags % 2 == 1 then flags else flags + PRESENT
  }

  /** A non-empty page-aligned region. */
  predicate Proper(r: Region)
  {
    r.start < r.end && r.start % PAGE == 0 && r.end % PAGE == 0
  }

  ghost predicate Joint(rs: seq<Region>, i: nat)
  {
    i + 1 < |rs| ==> rs[i].end == rs[i + 1].start
  }

  /** The regions cover [lo, hi) exactly, in order. */
  ghost predicate Tiles(rs: seq<Region>, lo: nat, hi: nat)
  {
    && rs != [] && rs[0].start == lo && rs[|rs| - 1].end == hi
    && (forall i :: 0 <= i < |rs| ==> Proper(rs[i]))
    && (forall i: nat :: Joint(rs, i))
  }

  lemma {:induction false} TilesOrder(rs: seq<Region>, lo: nat, hi: nat, i: nat, j: nat)
    requires Tiles(rs, lo, hi) && i < j < |rs|
    ensures rs[i].end <= rs[j].start
    decreases j - i
  {
    assert Joint(rs, j - 1);
    if i + 1 < j {
      TilesOrder(rs, lo, hi, i, j - 1);
      assert Proper(rs[j - 1]);
    }
  }

  lemma {:induction false} TilesRange(rs: seq<Region>, lo: nat, hi: nat, i: nat)
    requires Tiles(rs, lo, hi) && i < |rs|
    ensures lo <= rs[i].start < rs[i].end <= hi
  {
    assert Proper(rs[i]) && Proper(rs[0]) && Proper(rs[|rs| - 1]);
    if i > 0 {
      TilesOrder(rs, lo, hi, 0, i);
    }
    if i < |rs| - 1 {
      TilesOrder(rs, lo, hi, i, |rs| - 1);
    }
  }

  // ---------- used ranges and free addresses ----------

  ghost predicate UsedAt(rs: seq<Region>, i: nat, a: nat, b: nat)
  {
    i < |rs| && !rs[i].free && rs[i].start == a && rs[i].end == b
  }

  /** [a, b) is an allocation. */
  ghost predicate Used(rs: seq<Region>, a: nat, b: nat)
  {
    exists i: nat :: UsedAt(rs, i, a, b)
  }

  ghost predicate Holds(rs: seq<Region>, i: nat, x: nat)
  {
    i < |rs| && rs[i].start <= x < rs[i].end
  }

  ghost predicate FreeAt(rs: seq<Region>, x: nat)
  {
    exists i: nat :: Holds(rs, i, x) && rs[i].free
  }

  /** Live allocations never overlap. */
  lemma {:induction false} UsedDisjoint(rs: seq<Region>, lo: nat, hi: nat, a: nat, b: nat, c: nat, d: nat)
    requires Tiles(rs, lo, hi) && Used(rs, a, b) && Used(rs, c, d) && (a, b) != (c, d)
    ensures b <= c || d <= a
  {
    var i: nat :| UsedAt(rs, i, a, b);
    var j: nat :| UsedAt(rs, j, c, d);
    if i < j {
      TilesOrder(rs, lo, hi, i, j);
    } else {
      TilesOrder(rs, lo, hi, j, i);
    }
  }

  /** Every managed address lies in one region. */
  lemma {:induction false} Located(rs: seq<Region>, lo: nat, hi: nat, x: nat) returns (i: nat)
    requires Tiles(rs, lo, hi) && lo <= x < hi
    ensures Holds(rs, i, x)
  {
    i := 0;
    while rs[i].end <= x
      invariant i < |rs| && rs[i].start <= x
      decreases |rs| - i
    {
      assert Joint(rs, i);
      i := i + 1;
    }
  }

  lemma {:induction false} HoldsOne(rs: seq<Region>, lo: nat, hi: nat, i: nat, j: nat, x: nat)
    requires Tiles(rs, lo, hi) && Holds(rs, i, x) && Holds(rs, j, x)
    ensures i == j
  {
    if i < j {
      TilesOrder(rs, lo, hi, i, j);
    } else if j < i {
      TilesOrder(rs, lo, hi, j, i);
    }
  }

  /** x lies in an allocation. */
  ghost predicate Covered(rs: seq<Region>, x: nat)
  {
    exists a: nat, b: nat :: Used(rs, a, b) && a <= x < b
  }

  /** The free addresses are exactly the managed ones that no allocation covers. */
  lemma {:induction false} FreeIsRest(rs: seq<Region>, lo: nat, hi: nat, x: nat)
    requires Tiles(rs, lo, hi) && lo <= x < hi
    ensures FreeAt(rs, x) <==> !Covered(rs, x)
  {
    var i := Located(rs, lo, hi, x);
    if !rs[i].free {
      assert UsedAt(rs, i, rs[i].start, rs[i].end);
      assert Used(rs, rs[i].start, rs[i].end);
    }
    if Covered(rs, x) {
      var a: nat, b: nat :| Used(rs, a, b) && a <= x < b;
      var j: nat :| UsedAt(rs, j, a, b);
      HoldsOne(rs, lo, hi, i, j, x);
    }
    if FreeAt(rs, x) {
      var j: nat :| Holds(rs, j, x) && rs[j].free;
      HoldsOne(rs, lo, hi, i, j, x);
    }
  }

  /** Two layouts with the same allocations have the same free addresses. */
  lemma {:induction false} SameUsedSameFree(rs: seq<Region>, rs': seq<Region>, lo: nat, hi: nat, x: nat)
    requires Tiles(rs, lo, hi) && Tiles(rs', lo, hi) && lo <= x < hi
    requires forall a: nat, b: nat :: Used(rs, a, b) <==> Used(rs', a, b)
    ensures FreeAt(rs, x) <==> FreeAt(rs', x)
  {
    FreeIsRest(rs, lo, hi, x);
    FreeIsRest(rs', lo, hi, x);
  }

  // ---------- replacing one stretch ----------

  /** Regions i..j give way to `mid`, which covers the same addresses. */
  function Replace(rs: seq<Region>, i: nat, j: nat, mid: seq<Region>): seq<Region>
    requires i <= j <= |rs|
  {
    rs[..i] + mid + rs[j..]
  }

  lemma {:induction false} ReplaceTiles(rs: seq<Region>, lo: nat, hi: nat, i: nat, j: nat, mid: seq<Region>)
    requires Tiles(rs, lo, hi) && i < j <= |rs| && Tiles(mid, rs[i].start, rs[j - 1].end)
    ensures Tiles(Replace(rs, i, j, mid), lo, hi)
  {
    var r := Replace(rs, i, j, mid);
    forall n: nat ensures Joint(r, n) {
      if n + 1 < |r| {
        ReplaceJoint(rs, lo, hi, i, j, mid, n);
      }
    }
    forall n | 0 <= n < |r| ensures Proper(r[n]) {
      if i + |mid| <= n {
        assert r[n] == rs[n - i - |mid| + j];
      } else if i <= n {
        assert r[n] == mid[n - i];
      } else {
        assert r[n] == rs[n];
      }
    }
  }

  lemma {:induction false} ReplaceJoint(rs: seq<Region>, lo: nat, hi: nat, i: nat, j: nat, mid: seq<Region>, n: nat)
    requires Tiles(rs, lo, hi) && i < j <= |rs| && Tiles(mid, rs[i].start, rs[j - 1].end)
    requires n + 1 < |Replace(rs, i, j, mid)|
    ensures Joint(Replace(rs, i, j, mid), n)
  {
    var r := Replace(rs, i, j, mid);
    if n + 1 < i {
      assert Joint(rs, n);
    } else if n + 1 == i {
      assert r[n] == rs[i - 1] && r[n + 1] == mid[0];
      assert Joint(rs, i - 1);
    } else if n + 1 < i + |mid| {
      assert r[n] == mid[n - i] && r[n + 1] == mid[n - i + 1];
      assert Joint(mid, n - i);
    } else if n + 1 == i + |mid| {
      assert r[n] == mid[|mid| - 1] && r[n + 1] == rs[j];
      assert Joint(rs, j - 1);
    } else {
      var k := n - i - |mid| + j;
      assert r[n] == rs[k] && r[n + 1] == rs[k + 1];
      assert Joint(rs, k);
    }
  }

  /** The allocations outside the stretch stay, those inside are replaced. */
  lemma {:induction false} ReplaceUsed(rs: seq<Region>, i: nat, j: nat, mid: seq<Region>, a: nat, b: nat)
    requires i <= j <= |rs|
    ensures Used(Replace(rs, i, j, mid), a, b) <==> Used(rs[..i], a, b) || Used(mid, a, b) || Used(rs[j..], a, b)
  {
    UsedConcat(rs[..i] + mid, rs[j..], a, b);
    UsedConcat(rs[..i], mid, a, b);
  }

  lemma {:induction false} UsedConcat(s: seq<Region>, t: seq<Region>, a: nat, b: nat)
    ensures Used(s + t, a, b) <==> Used(s, a, b) || Used(t, a, b)
  {
    if Used(s, a, b) {
      var k: nat :| UsedAt(s, k, a, b);
      assert UsedAt(s + t, k, a, b);
    }
    if Used(t, a, b) {
      var k: nat :| UsedAt(t, k, a, b);
      assert UsedAt(s + t, |s| + k, a, b);
    }
    if Used(s + t, a, b) {
      var k: nat :| UsedAt(s + t, k, a, b);
      if k < |s| {
        assert UsedAt(s, k, a, b);
      } else {
        assert UsedAt(t, k - |s|, a, b);
      }
    }
  }

  lemma {:induction false} UsedSplit(rs: seq<Region>, i: nat, j: nat, a: nat, b: nat)
    requires i <= j <= |rs|
    ensures Used(rs, a, b) <==> Used(rs[..i], a, b) || Used(rs[i..j], a, b) || Used(rs[j..], a, b)
  {
    assert rs == Replace(rs, i, j, rs[i..j]);
    ReplaceUsed(rs, i, j, rs[i..j], a, b);
  }

  lemma {:induction false} UsedOne(r: Region, a: nat, b: nat)
    ensures Used([r], a, b) <==> !r.free && r.start == a && r.end == b
  {
    assert UsedAt([r], 0, a, b) <==> !r.free && r.start == a && r.end == b;
  }

  lemma {:induction false} UsedTwo(r: Region, q: Region, a: nat, b: nat)
    ensures Used([r, q], a, b) <==> Used([r], a, b) || Used([q], a, b)
  {
    assert [r, q] == [r] + [q];
    UsedConcat([r], [q], a, b);
  }

  // ---------- allocation ----------

  /** A free region of the right kind that is long enough. */
  predicate Suits(r: Region, size: nat, flags: nat)
  {
    r.free && r.end - r.start >= size && !ForUser(flags) == IsKernel(r.start)
  }

  function FirstSuiting(rs: seq<Region>, size: nat, flags: nat): (i: nat)
    ensures i <= |rs| && (i < |rs| ==> Suits(rs[i], size, flags))
    ensures forall j :: 0 <= j < i ==> !Suits(rs[j], size, flags)
  {
    if rs == [] || Suits(rs[0], size, flags) then 0 else 1 + FirstSuiting(rs[1..], size, flags)
  }

  lemma {:induction false} FirstSuitingIs(rs: seq<Region>, size: nat, flags: nat, i: nat)
    requires i <= |rs| && (i < |rs| ==> Suits(rs[i], size, flags))
    requires forall j :: 0 <= j < i ==> !Suits(rs[j], size, flags)
    ensures FirstSuiting(rs, size, flags) == i
  {
  }

  /** The front of region i, cut off at a point inside it. */
  function Split(rs: seq<Region>, i: nat, at: nat): seq<Region>
    requires i < |rs|
  {
    Replace(rs, i, i + 1, [rs[i].(end := at), rs[i].(start := at)])
  }

  function Mark(rs: seq<Region>, i: nat, flags: nat): seq<Region>
    requires i < |rs|
  {
    rs[i := rs[i].(free := false, flags := WithPresent(flags))]
  }

  /** Region i of the layout, or its front, becomes an allocation of `size` bytes. */
  function Take(rs: seq<Region>, i: nat, size: nat, flags: nat): seq<Region>
    requires i < |rs|
  {
    if rs[i].end - rs[i].start == size then Mark(rs, i, flags)
    else Mark(Split(rs, i, rs[i].start + size), i, flags)
  }

  lemma {:induction false} TakeIs(rs: seq<Region>, lo: nat, hi: nat, i: nat, size: nat, flags: nat)
    requires Tiles(rs, lo, hi) && i < |rs| && rs[i].free && 0 < size <= rs[i].end - rs[i].start && size % PAGE == 0
    ensures var a := rs[i].start;
            && Tiles(Take(rs, i, size, flags), lo, hi)
            && i < |Take(rs, i, size, flags)|
            && forall c: nat, d: nat ::
                 Used(Take(rs, i, size, flags), c, d) <==> Used(rs, c, d) || (c == a && d == a + size)
  {
    var a, b := rs[i].start, rs[i].end;
    assert Proper(rs[i]);
    var used := Region(a, a + size, WithPresent(flags), false);
    var rest := Region(a + size, b, rs[i].flags, true);
    var mid := if b - a == size then [used] else [used, rest];
    assert Take(rs, i, size, flags) == Replace(rs, i, i + 1, mid);
    AlignedSum(a, size);
    PiecesTile(used, rest, a, b, mid);
    ReplaceTiles(rs, lo, hi, i, i + 1, mid);
    forall c: nat, d: nat
      ensures Used(Take(rs, i, size, flags), c, d) <==> Used(rs, c, d) || (c == a && d == a + size)
    {
      TakeUsed(rs, i, used, rest, mid, c, d);
    }
  }

  lemma {:induction false} AlignedSum(a: nat, size: nat)
    requires a % PAGE == 0 && size % PAGE == 0
    ensures (a + size) % PAGE == 0
  {
  }

  lemma {:induction false} PiecesTile(used: Region, rest: Region, a: nat, b: nat, mid: seq<Region>)
    requires Proper(used) && used.start == a
    requires used.end == b ==> mid == [used]
    requires used.end != b ==> mid == [used, rest] && rest.start == used.end && rest.end == b && Proper(rest)
    ensures Tiles(mid, a, b)
  {
    forall n: nat ensures Joint(mid, n) {
    }
  }

  lemma {:induction false} TakeUsed(rs: seq<Region>, i: nat, used: Region, rest: Region, mid: seq<Region>, c: nat,
                                    d: nat)
    requires i < |rs| && rs[i].free && !used.free && rest.free && (mid == [used] || mid == [used, rest])
    ensures Used(Replace(rs, i, i + 1, mid), c, d) <==> Used(rs, c, d) || (c == used.start && d == used.end)
  {
    ReplaceUsed(rs, i, i + 1, mid, c, d);
    UsedSplit(rs, i, i + 1, c, d);
    assert rs[i..i + 1] == [rs[i]];
    UsedOne(rs[i], c, d);
    UsedOne(used, c, d);
    UsedOne(rest, c, d);
    UsedTwo(used, rest, c, d);
  }

  // ---------- freeing and merging ----------

  lemma {:induction false} UnmarkIs(rs: seq<Region>, lo: nat, hi: nat, i: nat)
    requires Tiles(rs, lo, hi) && i < |rs| && !rs[i].free
    ensures var r := rs[i := rs[i].(free := true)];
            && Tiles(r, lo, hi)
            && forall c: nat, d: nat :: Used(r, c, d) <==> Used(rs, c, d) && !(c == rs[i].start && d == rs[i].end)
  {
    var q := rs[i].(free := true);
    var r := rs[i := q];
    assert r == Replace(rs, i, i + 1, [q]);
    assert Proper(rs[i]);
    PiecesTile(q, q, q.start, q.end, [q]);
    ReplaceTiles(rs, lo, hi, i, i + 1, [q]);
    forall c: nat, d: nat ensures Used(r, c, d) <==> Used(rs, c, d) && !(c == rs[i].start && d == rs[i].end) {
      UnmarkUsed(rs, lo, hi, i, q, c, d);
    }
  }

  lemma {:induction false} UnmarkUsed(rs: seq<Region>, lo: nat, hi: nat, i: nat, q: Region, c: nat, d: nat)
    requires Tiles(rs, lo, hi) && i < |rs| && !rs[i].free && q.free
    ensures Used(rs[i := q], c, d) <==> Used(rs, c, d) && !(c == rs[i].start && d == rs[i].end)
  {
    var r := rs[i := q];
    if Used(rs, c, d) && !(c == rs[i].start && d == rs[i].end) {
      var k: nat :| UsedAt(rs, k, c, d);
      assert UsedAt(r, k, c, d);
    }
    if Used(r, c, d) {
      var k: nat :| UsedAt(r, k, c, d);
      assert UsedAt(rs, k, c, d);
      assert Proper(rs[i]) && Proper(rs[k]);
      if k < i {
        TilesOrder(rs, lo, hi, k, i);
      } else {
        TilesOrder(rs, lo, hi, i, k);
      }
    }
  }

  predicate Mergeable(rs: seq<Region>, i: nat)
  {
    i + 1 < |rs| && rs[i].free && rs[i + 1].free && rs[i].end == rs[i + 1].start
  }

  /** Regions i and i + 1 become one. */
  function Merge(rs: seq<Region>, i: nat): seq<Region>
    requires i + 1 < |rs|
  {
    Replace(rs, i, i + 2, [rs[i].(end := rs[i + 1].end)])
  }

  /** Merge adjacent free regions from region i on. */
  function MergeFrom(rs: seq<Region>, i: nat): seq<Region>
    decreases |rs| - i
  {
    if i + 1 >= |rs| then rs
    else if Mergeable(rs, i) then MergeFrom(Merge(rs, i), i)
    else MergeFrom(rs, i + 1)
  }

  lemma {:induction false} MergeIs(rs: seq<Region>, lo: nat, hi: nat, i: nat)
    requires Tiles(rs, lo, hi) && Mergeable(rs, i)
    ensures Tiles(Merge(rs, i), lo, hi)
    ensures forall c: nat, d: nat :: Used(Merge(rs, i), c, d) <==> Used(rs, c, d)
  {
    var q := rs[i].(end := rs[i + 1].end);
    assert Proper(rs[i]) && Proper(rs[i + 1]);
    PiecesTile(q, q, q.start, q.end, [q]);
    ReplaceTiles(rs, lo, hi, i, i + 2, [q]);
    forall c: nat, d: nat ensures Used(Merge(rs, i), c, d) <==> Used(rs, c, d) {
      ReplaceUsed(rs, i, i + 2, [q], c, d);
      UsedSplit(rs, i, i + 2, c, d);
      assert rs[i..i + 2] == [rs[i], rs[i + 1]];
      UsedTwo(rs[i], rs[i + 1], c, d);
      UsedOne(rs[i], c, d);
      UsedOne(rs[i + 1], c, d);
      UsedOne(q, c, d);
    }
  }

  /** No two neighbours before region i are both free. */
  ghost predicate MergedTo(rs: seq<Region>, i: nat)
  {
    forall k: nat {:trigger Mergeable(rs, k)} :: k < i ==> !Mergeable(rs, k)
  }

  /** Merging changes no allocation and leaves no two free neighbours. */
  lemma {:induction false} MergeFromIs(rs: seq<Region>, lo: nat, hi: nat, i: nat)
    requires Tiles(rs, lo, hi) && MergedTo(rs, i)
    ensures var r := MergeFrom(rs, i);
            && Tiles(r, lo, hi) && MergedTo(r, |r|)
            && forall c: nat, d: nat :: Used(r, c, d) <==> Used(rs, c, d)
    decreases |rs| - i
  {
    hide Tiles, Used;
    if i + 1 < |rs| {
      if Mergeable(rs, i) {
        MergeIs(rs, lo, hi, i);
        MergeKeepsFront(rs, i);
        MergeFromIs(Merge(rs, i), lo, hi, i);
      } else {
        MergeFromIs(rs, lo, hi, i + 1);
      }
    }
  }

  lemma {:induction false} MergeKeepsFront(rs: seq<Region>, i: nat)
    requires MergedTo(rs, i) && Mergeable(rs, i)
    ensures MergedTo(Merge(rs, i), i)
  {
    var m := Merge(rs, i);
    forall k: nat | k < i ensures !Mergeable(m, k) {
      assert !Mergeable(rs, k);
      assert m[k] == rs[k];
      assert m[k + 1].start == rs[k + 1].start && m[k + 1].free == rs[k + 1].free;
    }
  }

  // ---------- the boundary between user space and the kernel heap ----------

  /** Free neighbours meet only where user space ends and the kernel heap begins. */
  ghost predicate Tidy(rs: seq<Region>)
  {
    forall k: nat {:trigger Mergeable(rs, k)} :: Mergeable(rs, k) ==> rs[k].end == KERNEL_HEAP
  }

  lemma {:induction false} MergedTidy(rs: seq<Region>)
    requires MergedTo(rs, |rs|)
    ensures Tidy(rs)
  {
  }

  lemma {:induction false} TakeTidy(rs: seq<Region>, i: nat, size: nat, flags: nat)
    requires Tidy(rs) && i < |rs|
    ensures Tidy(Take(rs, i, size, flags))
  {
    var r := Take(rs, i, size, flags);
    var n := |r| - |rs|;
    forall k: nat | Mergeable(r, k) ensures r[k].end == KERNEL_HEAP {
      if k + 1 < i {
        assert Mergeable(rs, k);
      } else if k > i {
        assert r[k].end == rs[k - n].end && r[k + 1] == rs[k + 1 - n];
        assert Mergeable(rs, k - n);
      }
    }
  }

  /** [a, a + size) is free and belongs to the kernel. */
  ghost predicate KernelRun(rs: seq<Region>, a: nat, size: nat)
  {
    forall x: nat :: a <= x < a + size ==> FreeAt(rs, x) && IsKernel(x)
  }

  /** The kernel addresses would do for an allocation of `size` bytes. */
  ghost predicate KernelRoom(rs: seq<Region>, size: nat)
  {
    exists a: nat :: KernelRun(rs, a, size)
  }

  /** A free region that begins in user space and reaches `size` bytes into the kernel heap. */
  predicate Straddles(r: Region, size: nat)
  {
    r.free && USER_START <= r.start < KERNEL_HEAP && KERNEL_HEAP + size <= r.end
  }

  /** A run that starts in region i lies in it. */
  lemma {:induction false} RunInRegion(rs: seq<Region>, lo: nat, hi: nat, a: nat, size: nat, i: nat)
    requires Tiles(rs, lo, hi) && Tidy(rs) && size > 0 && KernelRun(rs, a, size) && Holds(rs, i, a)
    ensures rs[i].free && a + size <= rs[i].end
  {
    assert FreeAt(rs, a);
    var j: nat :| Holds(rs, j, a) && rs[j].free;
    HoldsOne(rs, lo, hi, i, j, a);
    if rs[i].end < a + size {
      var e := rs[i].end;
      assert FreeAt(rs, e) && IsKernel(e);
      var n: nat :| Holds(rs, n, e) && rs[n].free;
      NextRegion(rs, lo, hi, i, n);
      NoCrossing(rs, a, size);
      assert Mergeable(rs, i);
    }
  }

  /** The last address of user space is in no such run. */
  lemma {:induction false} NoCrossing(rs: seq<Region>, a: nat, size: nat)
    requires KernelRun(rs, a, size)
    ensures !(a < KERNEL_HEAP < a + size)
  {
    var x: nat := KERNEL_HEAP - 1;
    assert a <= x < a + size ==> FreeAt(rs, x) && IsKernel(x);
  }

  lemma {:induction false} NextRegion(rs: seq<Region>, lo: nat, hi: nat, i: nat, n: nat)
    requires Tiles(rs, lo, hi) && i < |rs| && Holds(rs, n, rs[i].end)
    ensures n == i + 1 && rs[i].end == rs[n].start
  {
    assert Proper(rs[i]) && Joint(rs, i);
    assert i + 1 < |rs| ==> Proper(rs[i + 1]);
    if n < i {
      TilesOrder(rs, lo, hi, n, i);
    } else if n > i + 1 {
      TilesOrder(rs, lo, hi, i + 1, n);
    }
  }

  /** A kernel request is refused although the kernel has enough free addresses in a row exactly when no free region
      that begins at a kernel address is long enough, and a free region that begins in user space reaches far enough
      into the kernel heap. */
  lemma {:induction false} RefusedWithRoomIff(rs: seq<Region>, size: nat, flags: nat)
    requires Tiles(rs, KERNEL_START, KERNEL_END) && Tidy(rs) && size > 0 && !ForUser(flags)
    ensures FirstSuiting(rs, size, flags) == |rs| && KernelRoom(rs, size) <==>
            && (forall j :: 0 <= j < |rs| && rs[j].free && IsKernel(rs[j].start) ==> rs[j].end - rs[j].start < size)
            && (exists i :: 0 <= i < |rs| && Straddles(rs[i], size))
  {
    if FirstSuiting(rs, size, flags) == |rs| && KernelRoom(rs, size) {
      var a: nat :| KernelRun(rs, a, size);
      assert FreeAt(rs, a) && IsKernel(a);
      var i := Located(rs, KERNEL_START, KERNEL_END, a);
      RunInRegion(rs, KERNEL_START, KERNEL_END, a, size, i);
      TilesRange(rs, KERNEL_START, KERNEL_END, i);
      assert !Suits(rs[i], size, flags);
      assert Straddles(rs[i], size);
      forall j | 0 <= j < |rs| && rs[j].free && IsKernel(rs[j].start) ensures rs[j].end - rs[j].start < size {
        assert !Suits(rs[j], size, flags);
      }
    }
    if exists i :: 0 <= i < |rs| && Straddles(rs[i], size) {
      var i: nat :| i < |rs| && Straddles(rs[i], size);
      StraddleRuns(rs, i, size);
    }
  }

  lemma {:induction false} StraddleRuns(rs: seq<Region>, i: nat, size: nat)
    requires Tiles(rs, KERNEL_START, KERNEL_END) && i < |rs| && Straddles(rs[i], size)
    ensures KernelRoom(rs, size)
  {
    TilesRange(rs, KERNEL_START, KERNEL_END, i);
    forall x: nat | KERNEL_HEAP <= x < KERNEL_HEAP + size ensures FreeAt(rs, x) && IsKernel(x) {
      assert Holds(rs, i, x);
    }
    assert KernelRun(rs, KERNEL_HEAP, size);
  }

  // ---------- freeing ----------

  /** Region i is an allocation of `size` bytes and holds x. */
  ghost predicate FreeableAt(rs: seq<Region>, i: nat, x: nat, size: nat)
  {
    Holds(rs, i, x) && !rs[i].free && rs[i].end - rs[i].start == size
  }

  ghost predicate Freeable(rs: seq<Region>, x: nat, size: nat)
  {
    exists i: nat :: FreeableAt(rs, i, x, size)
  }

  /** The kernel image, user space and the kernel heap. */
  function InitialRegions(): seq<Region>
  {
    [Region(KERNEL_START, USER_START, WRITE + PRESENT, false), Region(USER_START, USER_END, USER + WRITE, true),
     Region(KERNEL_HEAP, KERNEL_END, WRITE, true)]
  }

  /** The kernel image, and one region from user space to the end of the kernel heap. */
  function JoinedRegions(): seq<Region>
  {
    [Region(KERNEL_START, USER_START, WRITE + PRESENT, false), Region(USER_START, KERNEL_END, USER + WRITE, true)]
  }

  lemma {:induction false} FirstPage()
    ensures FirstSuiting(InitialRegions(), PAGE, WRITE) == 2
    ensures Take(InitialRegions(), 2, PAGE, WRITE) ==
            InitialRegions()[..2] + [Region(KERNEL_HEAP, KERNEL_HEAP + PAGE, WRITE + PRESENT, false),
                                     Region(KERNEL_HEAP + PAGE, KERNEL_END, WRITE, true)]
  {
    FirstSuitingIs(InitialRegions(), PAGE, WRITE, 2);
  }

  lemma {:induction false} FirstPageAt()
    ensures Freeable(Take(InitialRegions(), 2, PAGE, WRITE), KERNEL_HEAP, PAGE)
    ensures forall i: nat :: FreeableAt(Take(InitialRegions(), 2, PAGE, WRITE), i, KERNEL_HEAP, PAGE) ==> i == 2
  {
    FirstPage();
    assert FreeableAt(Take(InitialRegions(), 2, PAGE, WRITE), 2, KERNEL_HEAP, PAGE);
  }

  lemma {:induction false} FirstPageFreed()
    ensures 2 < |Take(InitialRegions(), 2, PAGE, WRITE)|
    ensures Freed(Take(InitialRegions(), 2, PAGE, WRITE), 2) == JoinedRegions()
  {
    FirstPage();
    var heap := Region(KERNEL_HEAP, KERNEL_HEAP + PAGE, WRITE + PRESENT, true);
    var rs := InitialRegions()[..2] + [heap, Region(KERNEL_HEAP + PAGE, KERNEL_END, WRITE, true)];
    assert Take(InitialRegions(), 2, PAGE, WRITE)[2 := heap] == rs;
    var user := Region(USER_START, KERNEL_HEAP + PAGE, USER + WRITE, true);
    var rs1 := [rs[0], user, rs[3]];
    assert Mergeable(rs, 1) && Merge(rs, 1) == rs1;
    assert Mergeable(rs1, 1) && Merge(rs1, 1) == JoinedRegions();
    assert MergeFrom(JoinedRegions(), 1) == JoinedRegions();
    assert MergeFrom(rs1, 1) == JoinedRegions();
    assert MergeFrom(rs, 1) == JoinedRegions();
  }

  lemma {:induction false} NoSecondPage()
    ensures FirstSuiting(JoinedRegions(), PAGE, WRITE) == |JoinedRegions()| && KernelRoom(JoinedRegions(), PAGE)
  {
    FirstSuitingIs(JoinedRegions(), PAGE, WRITE, 2);
    forall x: nat | KERNEL_HEAP <= x < KERNEL_HEAP + PAGE ensures FreeAt(JoinedRegions(), x) && IsKernel(x) {
      assert Holds(JoinedRegions(), 1, x);
    }
    assert KernelRun(JoinedRegions(), KERNEL_HEAP, PAGE);
  }

  /** The layout after region i is freed. */
  function Freed(rs: seq<Region>, i: nat): seq<Region>
    requires i < |rs|
  {
    MergeFrom(rs[i := rs[i].(free := true)], 0)
  }

  // ---------- allocation and free, in addresses ----------

  /** A free region of at least `size` bytes whose first address is in user space exactly when the flags ask for it. */
  ghost predicate Fit(r: Region, size: nat, flags: nat)
  {
    r.free && r.end - r.start >= size && (flags / 4 % 2 == 1 <==> 0x40_0000 <= r.start < 0x4000_0000)
  }

  ghost predicate LowestFit(rs: seq<Region>, f: Region, size: nat, flags: nat)
  {
    f in rs && Fit(f, size, flags) && forall g :: g in rs && g.start < f.start ==> !Fit(g, size, flags)
  }

  /** The search finds the fit with the lowest address. */
  lemma {:induction false} SearchIsLowest(rs: seq<Region>, size: nat, flags: nat)
    requires Tiles(rs, KERNEL_START, KERNEL_END)
    ensures var i := FirstSuiting(rs, size, flags);
            && (i < |rs| ==> LowestFit(rs, rs[i], size, flags))
            && (forall f :: LowestFit(rs, f, size, flags) ==> i < |rs| && f == rs[i])
  {
    hide FirstSuiting;
    var i := FirstSuiting(rs, size, flags);
    forall k | 0 <= k < |rs| ensures Suits(rs[k], size, flags) <==> Fit(rs[k], size, flags) {
      TilesRange(rs, KERNEL_START, KERNEL_END, k);
    }
    forall k: nat | i < k < |rs| ensures rs[i].start < rs[k].start {
      TilesOrder(rs, KERNEL_START, KERNEL_END, i, k);
      TilesRange(rs, KERNEL_START, KERNEL_END, i);
    }
    if i < |rs| {
      forall g | g in rs && g.start < rs[i].start ensures !Fit(g, size, flags) {
        var k: nat :| k < |rs| && rs[k] == g;
      }
    }
    forall f | LowestFit(rs, f, size, flags) ensures i < |rs| && f == rs[i] {
      var k: nat :| k < |rs| && rs[k] == f;
      assert Suits(rs[k], size, flags) && (i < |rs| ==> rs[i] in rs);
    }
  }

  /** The layout after `size` bytes are cut off the front of f: they are an allocation with the flags asked for and the
      present bit, the rest of f stays free, and no other region changes. */
  ghost predicate CutOff(rs: seq<Region>, rs': seq<Region>, f: Region, size: nat, flags: nat)
  {
    && Region(f.start, f.start + size, if flags % 2 == 1 then flags else flags + 1, false) in rs'
    && (f.end - f.start > size ==> Region(f.start + size, f.end, f.flags, true) in rs')
    && (forall r :: r in rs && r != f ==> r in rs')
    && |rs'| == |rs| + (if f.end - f.start > size then 1 else 0)
  }

  lemma {:induction false} TakeCutsOff(rs: seq<Region>, i: nat, size: nat, flags: nat)
    requires i < |rs| && rs[i].free && 0 < size <= rs[i].end - rs[i].start
    ensures CutOff(rs, Take(rs, i, size, flags), rs[i], size, flags)
  {
    var t, f := Take(rs, i, size, flags), rs[i];
    assert t[i] == Region(f.start, f.start + size, if flags % 2 == 1 then flags else flags + 1, false);
    if f.end - f.start > size {
      assert t[i + 1] == Region(f.start + size, f.end, f.flags, true);
    }
    forall r | r in rs && r != f ensures r in t {
      var k: nat :| k < |rs| && rs[k] == r;
      assert t[if k < i then k else k + |t| - |rs|] == r;
    }
  }

  /** The allocations of a layout, flags and all, but for one. */
  ghost predicate SameUsedBut(rs: seq<Region>, rs': seq<Region>, f: Region)
  {
    forall r: Region :: !r.free ==> (r in rs' <==> r in rs && r != f)
  }

  lemma {:induction false} MergeUsed(rs: seq<Region>, i: nat, r: Region)
    requires !r.free
    ensures r in MergeFrom(rs, i) <==> r in rs
    decreases |rs| - i
  {
    if i + 1 < |rs| {
      if Mergeable(rs, i) {
        var m := Merge(rs, i);
        assert rs == rs[..i] + [rs[i], rs[i + 1]] + rs[i + 2..];
        MergeUsed(m, i, r);
      } else {
        MergeUsed(rs, i + 1, r);
      }
    }
  }

  /** A free takes one allocation away and keeps every other one as it is. */
  lemma {:induction false} FreedUsed(rs: seq<Region>, lo: nat, hi: nat, i: nat)
    requires Tiles(rs, lo, hi) && i < |rs| && !rs[i].free
    ensures SameUsedBut(rs, Freed(rs, i), rs[i])
  {
    hide MergeFrom;
    var q := rs[i := rs[i].(free := true)];
    forall r: Region | !r.free ensures r in Freed(rs, i) <==> r in rs && r != rs[i] {
      MergeUsed(q, 0, r);
      if r in rs && r != rs[i] {
        var k: nat :| k < |rs| && rs[k] == r;
        assert q[k] == r;
      }
      if r in q {
        var k: nat :| k < |q| && q[k] == r;
        assert rs[k] == r && k != i && Proper(rs[k]) && Proper(rs[i]);
        if k < i {
          TilesOrder(rs, lo, hi, k, i);
        } else {
          TilesOrder(rs, lo, hi, i, k);
        }
      }
    }
  }
}
