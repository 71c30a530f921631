/**
 * The user heap as a list of blocks that lie end to end, each behind its header
 * (libc/src/stdlib/malloc.c, libc/src/stdlib/free.c). A block's place is the size of all blocks before it.
 */
module HeapBlocks {
  const HEADER: nat := 12
  const MIN_ALLOC: nat := 16
  const PAGE: nat := 4096

  datatype Block = Block(length: nat, used: bool)

  /** Where block i starts. */
  function Start(bs: seq<Block>, i: nat): nat
    requires i <= |bs|
  {
    if i == 0 then 0 else Start(bs, i - 1) + HEADER + bs[i - 1].length
  }

  function Size(bs: seq<Block>): nat
  {
    Start(bs, |bs|)
  }

  lemma {:induction false} StartPrefix(a: seq<Block>, b: seq<Block>, i: nat)
    requires i <= |a|
    ensures Start(a + b, i) == Start(a, i)
  {
    if i > 0 {
      StartPrefix(a, b, i - 1);
    }
  }

  lemma {:induction false} StartSuffix(a: seq<Block>, b: seq<Block>, i: nat)
    requires i <= |b|
    ensures Start(a + b, |a| + i) == Size(a) + Start(b, i)
  {
    if i == 0 {
      StartPrefix(a, b, |a|);
    } else {
      StartSuffix(a, b, i - 1);
    }
  }

  /** A block ends where the next one starts, and earlier blocks end before it. */
  lemma {:induction false} StartOrder(bs: seq<Block>, i: nat, j: nat)
    requires i < j <= |bs|
    ensures Start(bs, i) + HEADER + bs[i].length <= Start(bs, j)
  {
    if i + 1 < j {
      StartOrder(bs, i, j - 1);
    }
  }

  /** The block list is what malloc and free keep it: neighbours are not both free, and no block is tiny. */
  ghost predicate Neat(bs: seq<Block>)
  {
    && (forall i :: 0 <= i < |bs| ==> bs[i].length >= MIN_ALLOC)
    && (forall i {:trigger bs[i]} :: 0 <= i < |bs| - 1 ==> bs[i].used || bs[i + 1].used)
  }

  lemma {:induction false} Neighbours(bs: seq<Block>, i: nat)
    requires Neat(bs) && i + 1 < |bs|
    ensures bs[i].used || bs[i + 1].used
  {
  }

  /** The first free block that is long enough, or the number of blocks. */
  function FirstFit(bs: seq<Block>, size: nat): (i: nat)
    ensures i <= |bs|
    ensures i < |bs| ==> !bs[i].used && bs[i].length >= size
    ensures forall j :: 0 <= j < i ==> bs[j].used || bs[j].length < size
  {
    if bs == [] then 0
    else if !bs[0].used && bs[0].length >= size then 0
    else 1 + FirstFit(bs[1..], size)
  }

  lemma {:induction false} FirstFitIs(bs: seq<Block>, size: nat, i: nat)
    requires i <= |bs|
    requires i < |bs| ==> !bs[i].used && bs[i].length >= size
    requires forall j :: 0 <= j < i ==> bs[j].used || bs[j].length < size
    ensures FirstFit(bs, size) == i
  {
  }

  /** What becomes of a free block when `size` bytes of it are handed out. */
  function Pieces(b: Block, size: nat): seq<Block>
    requires size <= b.length
  {
    if b.length - size < HEADER + MIN_ALLOC then [Block(b.length, true)]
    else [Block(size, true), Block(b.length - size - HEADER, false)]
  }

  /** Hand out `size` bytes of the free block i. */
  function Allocate(bs: seq<Block>, i: nat, size: nat): seq<Block>
    requires i < |bs| && size <= bs[i].length
  {
    bs[..i] + Pieces(bs[i], size) + bs[i + 1..]
  }

  /** Give block i back and join it with its free neighbours. */
  function Release(bs: seq<Block>, i: nat): seq<Block>
    requires i < |bs|
  {
    JoinPrevious(JoinNext(bs[i := Block(bs[i].length, false)], i), i)
  }

  function JoinNext(bs: seq<Block>, i: nat): seq<Block>
    requires i < |bs|
  {
    if i + 1 < |bs| && !bs[i + 1].used
    then bs[..i] + [Block(bs[i].length + bs[i + 1].length + HEADER, bs[i].used)] + bs[i + 2..]
    else bs
  }

  function JoinPrevious(bs: seq<Block>, i: nat): seq<Block>
    requires i < |bs|
  {
    if 0 < i && !bs[i - 1].used
    then bs[..i - 1] + [Block(bs[i - 1].length + bs[i].length + HEADER, false)] + bs[i + 1..]
    else bs
  }

  /** The blocks after the heap has grown by n bytes, header included. */
  function Extend(bs: seq<Block>, n: nat): seq<Block>
    requires bs != [] && n >= HEADER
  {
    var last := |bs| - 1;
    if bs[last].used then bs + [Block(n - HEADER, false)]
    else bs[..last] + [Block(bs[last].length + n, false)]
  }

  // ---------- sizes ----------

  /** Replacing consecutive blocks by blocks of the same total size moves nothing else. */
  lemma {:induction false} Replaced(bs: seq<Block>, i: nat, j: nat, mid: seq<Block>)
    requires i <= j <= |bs| && Size(mid) == Size(bs[i..j])
    ensures Size(bs[..i] + mid + bs[j..]) == Size(bs)
    ensures Start(bs, i) + Size(mid) == Start(bs, j)
    ensures forall k: nat {:trigger Start(bs, k)} :: k <= i ==> Start(bs[..i] + mid + bs[j..], k) == Start(bs, k)
    ensures forall k: nat {:trigger Start(mid, k)} :: k <= |mid| ==>
              Start(bs[..i] + mid + bs[j..], i + k) == Start(bs, i) + Start(mid, k)
    ensures forall k: nat {:trigger Start(bs, k)} :: j <= k <= |bs| ==>
              Start(bs[..i] + mid + bs[j..], k - j + i + |mid|) == Start(bs, k)
  {
    hide Start;
    var a, old_, c := bs[..i], bs[i..j], bs[j..];
    assert bs == a + old_ + c;
    var b := a + mid + c;
    MiddleStart(a, mid, c);
    MiddleStart(a, old_, c);
    forall k: nat | k <= i ensures Start(b, k) == Start(bs, k) {
      PrefixStart(a, mid, c, k);
      PrefixStart(a, old_, c, k);
    }
    forall k: nat | k <= |mid| ensures Start(b, i + k) == Start(bs, i) + Start(mid, k) {
      InnerStart(a, mid, c, k);
      PrefixStart(a, old_, c, i);
    }
    forall k: nat | j <= k <= |bs| ensures Start(b, k - j + i + |mid|) == Start(bs, k) {
      OuterStart(a, mid, c, k - j);
      OuterStart(a, old_, c, k - j);
    }
    OuterStart(a, mid, c, |c|);
    OuterStart(a, old_, c, |c|);
  }

  lemma {:induction false} PrefixStart(a: seq<Block>, b: seq<Block>, c: seq<Block>, k: nat)
    requires k <= |a|
    ensures Start(a + b + c, k) == Start(a, k)
  {
    StartPrefix(a, b, k);
    StartPrefix(a + b, c, k);
  }

  lemma {:induction false} InnerStart(a: seq<Block>, b: seq<Block>, c: seq<Block>, k: nat)
    requires k <= |b|
    ensures Start(a + b + c, |a| + k) == Size(a) + Start(b, k) && Start(a + b + c, |a|) == Size(a)
  {
    StartSuffix(a, b, k);
    StartPrefix(a + b, c, |a| + k);
    StartSuffix(a, b, 0);
    StartPrefix(a + b, c, |a|);
  }

  lemma {:induction false} MiddleStart(a: seq<Block>, b: seq<Block>, c: seq<Block>)
    ensures Start(a + b + c, |a|) == Size(a) && Start(a + b + c, |a| + |b|) == Size(a) + Size(b)
  {
    InnerStart(a, b, c, |b|);
  }

  lemma {:induction false} OuterStart(a: seq<Block>, b: seq<Block>, c: seq<Block>, k: nat)
    requires k <= |c|
    ensures Start(a + b + c, |a| + |b| + k) == Size(a) + Size(b) + Start(c, k)
  {
    StartSuffix(a + b, c, k);
    StartSuffix(a, b, |b|);
  }

  // ---------- neatness over operations ----------

  lemma {:induction false} AllocateNeat(bs: seq<Block>, i: nat, size: nat)
    requires Neat(bs) && i < |bs| && MIN_ALLOC <= size <= bs[i].length && !bs[i].used
    ensures Neat(Allocate(bs, i, size))
  {
    var r := Allocate(bs, i, size);
    var p := Pieces(bs[i], size);
    forall k | 0 <= k < |r| - 1 ensures r[k].used || r[k + 1].used {
      if k + 1 < i {
        assert r[k] == bs[k] && r[k + 1] == bs[k + 1];
      } else if k >= i + |p| {
        var n := k - |p| + 1;
        assert r[k] == bs[n] && r[k + 1] == bs[n + 1];
      } else if k + 1 == i + |p| {
        assert r[k + 1] == bs[i + 1];
        assert bs[i].used || bs[i + 1].used;
      } else if k + 1 == i {
        assert r[k + 1] == p[0];
      } else {
        assert r[k] == p[0];
      }
    }
    forall k | 0 <= k < |r| ensures r[k].length >= MIN_ALLOC {
      if k >= i + |p| {
        assert r[k] == bs[k - |p| + 1];
      }
    }
  }

  lemma {:induction false} ExtendNeat(bs: seq<Block>, n: nat)
    requires Neat(bs) && bs != [] && n >= HEADER + MIN_ALLOC
    ensures Neat(Extend(bs, n))
  {
    var r := Extend(bs, n);
    forall k | 0 <= k < |r| - 1 ensures r[k].used || r[k + 1].used {
      assert k + 1 < |bs| ==> bs[k].used || bs[k + 1].used;
    }
  }

  /** Neat but for neighbours of block i. */
  ghost predicate NeatBut(bs: seq<Block>, i: nat)
  {
    && (forall k :: 0 <= k < |bs| ==> bs[k].length >= MIN_ALLOC)
    && (forall k {:trigger bs[k]} :: 0 <= k < |bs| - 1 && k != i && k + 1 != i ==> bs[k].used || bs[k + 1].used)
  }

  lemma {:induction false} JoinNextNeat(bs: seq<Block>, i: nat)
    requires i < |bs| && NeatBut(bs, i) && (i + 2 < |bs| && !bs[i + 1].used ==> bs[i + 2].used)
    ensures var r := JoinNext(bs, i);
            NeatBut(r, i) && (i + 1 < |r| ==> r[i + 1].used) && r[..i] == bs[..i] && i < |r|
  {
    var r := JoinNext(bs, i);
    if r != bs {
      forall k | 0 <= k < |r| - 1 && k != i && k + 1 != i ensures r[k].used || r[k + 1].used {
        if k > i {
          assert r[k] == bs[k + 1] && r[k + 1] == bs[k + 2];
        } else {
          assert r[k] == bs[k] && r[k + 1] == bs[k + 1];
        }
      }
      forall k | 0 <= k < |r| ensures r[k].length >= MIN_ALLOC {
        assert k > i ==> r[k] == bs[k + 1];
      }
    }
  }

  lemma {:induction false} JoinPreviousNeat(bs: seq<Block>, i: nat)
    requires i < |bs| && NeatBut(bs, i) && (i + 1 < |bs| ==> bs[i + 1].used)
    requires i >= 2 && !bs[i - 1].used ==> bs[i - 2].used
    ensures Neat(JoinPrevious(bs, i))
  {
    var r := JoinPrevious(bs, i);
    if r != bs {
      forall k | 0 <= k < |r| - 1 ensures r[k].used || r[k + 1].used {
        if k > i - 1 {
          assert r[k] == bs[k + 1] && r[k + 1] == bs[k + 2];
        } else if k == i - 1 {
          assert r[k + 1] == bs[i + 1];
        } else {
          assert r[k] == bs[k];
          assert k + 1 < i - 1 ==> r[k + 1] == bs[k + 1];
        }
      }
      forall k | 0 <= k < |r| ensures r[k].length >= MIN_ALLOC {
        assert k > i - 1 ==> r[k] == bs[k + 1];
      }
    } else {
      forall k | 0 <= k < |r| - 1 ensures r[k].used || r[k + 1].used {
        assert k + 1 == i ==> bs[k].used;
        assert k == i ==> bs[k + 1].used;
      }
    }
  }

  lemma {:induction false} ReleaseNeat(bs: seq<Block>, i: nat)
    requires Neat(bs) && i < |bs| && bs[i].used
    ensures Neat(Release(bs, i))
  {
    var c := bs[i := Block(bs[i].length, false)];
    assert NeatBut(c, i) by {
      forall k | 0 <= k < |c| - 1 && k != i && k + 1 != i ensures c[k].used || c[k + 1].used {
        assert bs[k].used || bs[k + 1].used;
      }
    }
    assert i + 2 < |c| && !c[i + 1].used ==> bs[i + 1].used || bs[i + 2].used;
    JoinNextNeat(c, i);
    var r := JoinNext(c, i);
    if i >= 2 && !r[i - 1].used {
      assert r[..i][i - 1] == bs[i - 1] && r[..i][i - 2] == bs[i - 2];
      Neighbours(bs, i - 2);
    }
    JoinPreviousNeat(r, i);
  }

  // ---------- inverse and completeness ----------

  /** Freeing what malloc has just handed out restores the very same blocks. */
  lemma {:induction false} ReleaseUndoesAllocate(bs: seq<Block>, i: nat, size: nat)
    requires Neat(bs) && i < |bs| && MIN_ALLOC <= size <= bs[i].length && !bs[i].used
    ensures Release(Allocate(bs, i, size), i) == bs
  {
    var a := Allocate(bs, i, size);
    var c := a[i := Block(a[i].length, false)];
    if i > 0 {
      Neighbours(bs, i - 1);
    }
    if i + 1 < |bs| {
      Neighbours(bs, i);
    }
    var r := JoinNext(c, i);
    if |Pieces(bs[i], size)| == 2 {
      assert c == bs[..i] + [Block(size, false), Block(bs[i].length - size - HEADER, false)] + bs[i + 1..];
      assert r == bs[..i] + [bs[i]] + bs[i + 1..];
    } else {
      assert c == bs[..i] + [bs[i]] + bs[i + 1..];
      assert i + 1 < |c| ==> c[i + 1] == bs[i + 1];
    }
    assert r == bs;
  }
}
