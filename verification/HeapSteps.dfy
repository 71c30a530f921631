/**
 * What each write to a block header does to the blocks and to the live allocations.
 */
module HeapSteps {
  import opened Bytes
  import opened HeapBlocks
  import opened HeapMemory

  /** The heap is the given blocks and shows the given live allocations. */
  ghost predicate Heap(m: seq<Byte>, base: nat, bs: seq<Block>, live: Store)
  {
    Spelled(m, base, bs) && Views(m, base, bs, live)
  }

  // ---------- writes to one header ----------

  lemma {:induction false} SetFlags(m: seq<Byte>, o: nat, flags: Byte)
    requires o + HEADER <= |m|
    ensures var m' := m[o + FLAGS := flags];
            Only(m, m', o, o + HEADER) && HeaderAt(m', o) == HeaderAt(m, o).(used := flags % 2 == 1)
  {
    var m' := m[o + FLAGS := flags];
    GetKept(m, m', o, o + 1, o + LENGTH);
    GetKept(m, m', o, o + 1, o + NEXT);
  }

  lemma {:induction false} SetLength(m: seq<Byte>, o: nat, v: nat)
    requires o + HEADER <= |m| && v < WORD
    ensures var m' := Put32(m, o + LENGTH, v);
            Only(m, m', o, o + HEADER) && HeaderAt(m', o) == HeaderAt(m, o).(length := v)
  {
    var m' := Put32(m, o + LENGTH, v);
    PutGet(m, o + LENGTH, v);
    hide Get32, Put32;
    GetKept(m, m', o + LENGTH, o + LENGTH + 4, o + NEXT);
  }

  lemma {:induction false} SetNext(m: seq<Byte>, o: nat, v: nat)
    requires o + HEADER <= |m| && v < WORD
    ensures var m' := Put32(m, o + NEXT, v);
            Only(m, m', o, o + HEADER) && HeaderAt(m', o) == HeaderAt(m, o).(next := v)
  {
    var m' := Put32(m, o + NEXT, v);
    PutGet(m, o + NEXT, v);
    hide Get32, Put32;
    GetKept(m, m', o + NEXT, o + NEXT + 4, o + LENGTH);
  }

  // ---------- replacing a stretch ----------

  ghost predicate AllFree(bs: seq<Block>)
  {
    forall k :: 0 <= k < |bs| ==> !bs[k].used
  }

  /** Free blocks become other free blocks: nothing live changes. */
  lemma {:induction false} FreeSwap(m: seq<Byte>, m': seq<Byte>, base: nat, bs: seq<Block>, i: nat, j: nat,
                                    mid: seq<Block>, live: Store)
    requires Heap(m, base, bs, live) && Swapped(m, m', base, bs, i, j, mid) && AllFree(bs[i..j]) && AllFree(mid)
    ensures Heap(m', base, Swap(bs, i, j, mid), live)
  {
    hide Start, Only, HeaderOk, Spelled;
    SwapSpelled(m, m', base, bs, i, j, mid);
    var r := Swap(bs, i, j, mid);
    forall n: nat | i <= n < i + |mid| ensures Shows(m', base, r, live, n) {
      assert r[n] == mid[n - i];
    }
    forall p | p in live ensures !InStretch(base, bs, i, j, p) {
      NoneInFree(base, bs, i, j, p);
    }
    SwapViews(m, m', base, bs, i, j, mid, live, live);
  }

  lemma {:induction false} NoneInFree(base: nat, bs: seq<Block>, i: nat, j: nat, p: nat)
    requires i <= j <= |bs| && AllFree(bs[i..j]) && Owns(base, bs, p)
    ensures !InStretch(base, bs, i, j, p)
  {
    var n: nat :| LiveAt(base, bs, n, p);
    StretchOf(base, bs, i, j, n);
    if i <= n < j {
      SliceFree(bs, i, j, n);
    }
  }

  lemma {:induction false} SliceFree(bs: seq<Block>, i: nat, j: nat, n: nat)
    requires i <= n < j <= |bs| && AllFree(bs[i..j])
    ensures !bs[n].used
  {
    assert bs[i..j][n - i] == bs[n];
  }

  /** One block of the same length, live afterwards: its payload is what the store shows. */
  lemma {:induction false} LiveSwap(m: seq<Byte>, m': seq<Byte>, base: nat, bs: seq<Block>, i: nat, b: Block,
                                    live: Store)
    requires Heap(m, base, bs, live) && i < |bs| && b == Block(bs[i].length, true)
    requires Swapped(m, m', base, bs, i, i + 1, [b])
    ensures var r := bs[i := b];
            && Spelled(m', base, r) && InMemory(m', r, i)
            && Start(r, i) == Start(bs, i)
            && Heap(m', base, r, live[base + Start(bs, i) + HEADER := Payload(m', r, i)])
  {
    hide Start, Only, MidHeader, Spelled, AgreeOutside, Owns, Shows;
    SwapSpelled(m, m', base, bs, i, i + 1, [b]);
    assert Swap(bs, i, i + 1, [b]) == bs[i := b];
    var r := bs[i := b];
    Replaced(bs, i, i + 1, [b]);
    SpelledInMemory(m', base, r, i);
    var p := base + Start(bs, i) + HEADER;
    var live' := live[p := Payload(m', r, i)];
    OneShown(m', base, r, live', i);
    OneOwner(base, bs, r, live, live', i, p);
    assert Start(r, i) == Start(bs, i);
    forall n: nat | i <= n < i + 1 ensures Shows(m', base, r, live', n) {
    }
    SwapViews(m, m', base, bs, i, i + 1, [b], live, live');
  }

  lemma {:induction false} SpelledInMemory(m: seq<Byte>, base: nat, bs: seq<Block>, i: nat)
    requires Spelled(m, base, bs) && i < |bs|
    ensures InMemory(m, bs, i)
  {
    assert HeaderOk(m, base, bs, i);
  }

  lemma {:induction false} OneShown(m: seq<Byte>, base: nat, r: seq<Block>, live: Store, i: nat)
    requires i < |r| && InMemory(m, r, i)
    requires base + Start(r, i) + HEADER in live && live[base + Start(r, i) + HEADER] == Payload(m, r, i)
    ensures Shows(m, base, r, live, i)
  {
  }

  lemma {:induction false} OneOwner(base: nat, bs: seq<Block>, r: seq<Block>, live: Store, live': Store, i: nat, p: nat)
    requires i < |bs| == |r| && r[i].used && Start(r, i) == Start(bs, i) && p == base + Start(bs, i) + HEADER
    requires forall q :: q in live ==> Owns(base, bs, q)
    requires p in live' && live' == live[p := live'[p]]
    ensures AgreeOutside(live, live', base + Start(bs, i) + HEADER, base + Start(bs, i + 1))
    ensures forall q :: q in live' && InStretch(base, bs, i, i + 1, q) ==> Owns(base, r, q)
  {
    assert p <= base + Start(bs, i + 1);
    forall q | q in live' && InStretch(base, bs, i, i + 1, q) ensures Owns(base, r, q) {
      if q != p {
        assert Owns(base, bs, q);
        var n: nat :| LiveAt(base, bs, n, q);
        StretchOf(base, bs, i, i + 1, n);
      }
      assert LiveAt(base, r, i, p);
    }
  }

  /** One live block becomes free: its allocation is gone. */
  lemma {:induction false} DeadSwap(m: seq<Byte>, m': seq<Byte>, base: nat, bs: seq<Block>, i: nat, b: Block,
                                    live: Store)
    requires Heap(m, base, bs, live) && i < |bs| && b == Block(bs[i].length, false)
    requires Swapped(m, m', base, bs, i, i + 1, [b])
    ensures Heap(m', base, bs[i := b], live - {base + Start(bs, i) + HEADER})
  {
    hide Start, Only, MidHeader, Spelled, AgreeOutside, Owns;
    SwapSpelled(m, m', base, bs, i, i + 1, [b]);
    assert Swap(bs, i, i + 1, [b]) == bs[i := b];
    var r := bs[i := b];
    var p := base + Start(bs, i) + HEADER;
    var live' := live - {p};
    NoOwner(base, bs, live, live', i, p);
    forall n: nat | i <= n < i + 1 ensures Shows(m', base, r, live', n) {
    }
    SwapViews(m, m', base, bs, i, i + 1, [b], live, live');
  }

  lemma {:induction false} NoOwner(base: nat, bs: seq<Block>, live: Store, live': Store, i: nat, p: nat)
    requires i < |bs| && p == base + Start(bs, i) + HEADER && live' == live - {p}
    requires forall q :: q in live ==> Owns(base, bs, q)
    ensures AgreeOutside(live, live', base + Start(bs, i) + HEADER, base + Start(bs, i + 1))
    ensures forall q :: q in live' ==> !InStretch(base, bs, i, i + 1, q)
  {
    forall q | q in live' ensures !InStretch(base, bs, i, i + 1, q) {
      assert Owns(base, bs, q);
      var n: nat :| LiveAt(base, bs, n, q);
      StretchOf(base, bs, i, i + 1, n);
    }
    assert p <= base + Start(bs, i + 1);
  }

  // ---------- the swaps the code makes ----------

  /** A header write that changes the flag of block i, or bytes of its payload. */
  lemma {:induction false} OneSwapped(m: seq<Byte>, m': seq<Byte>, base: nat, bs: seq<Block>, i: nat, b: Block)
    requires Spelled(m, base, bs) && i < |bs| && b.length == bs[i].length
    requires Only(m, m', Start(bs, i), Start(bs, i + 1)) && Start(bs, i) + HEADER <= |m|
    requires HeaderAt(m', Start(bs, i)) == HeaderAt(m, Start(bs, i)).(used := b.used)
    ensures Swapped(m, m', base, bs, i, i + 1, [b])
  {
    hide HeaderAt;
    assert HeaderOk(m, base, bs, i);
    OneSize(b);
    OneSize(bs[i]);
    assert bs[i..i + 1] == [bs[i]];
    assert MidHeader(m', base, bs, i, i + 1, [b], 0);
  }

  lemma {:induction false} OneSize(b: Block)
    ensures Start([b], 0) == 0 && Size([b]) == HEADER + b.length
  {
    assert Start([b], 1) == Start([b], 0) + HEADER + b.length;
  }

  lemma {:induction false} TwoSizes(a: Block, b: Block)
    ensures Start([a, b], 0) == 0 && Start([a, b], 1) == HEADER + a.length
    ensures Size([a, b]) == HEADER + a.length + HEADER + b.length
  {
    assert Start([a, b], 1) == Start([a, b], 0) + HEADER + a.length;
    assert Start([a, b], 2) == Start([a, b], 1) + HEADER + b.length;
  }

  /** Splitting: the two headers are written, the second inside the old payload. */
  lemma {:induction false} SplitSwapped(m: seq<Byte>, m': seq<Byte>, base: nat, bs: seq<Block>, i: nat, a: Block,
                                        b: Block)
    requires Spelled(m, base, bs) && i < |bs| && a.length + HEADER + b.length == bs[i].length
    requires Only(m, m', Start(bs, i), Start(bs, i + 1)) && Start(bs, i) + HEADER + a.length + HEADER <= |m|
    requires HeaderAt(m', Start(bs, i)) == Header(a.used, a.length, base + Start(bs, i) + HEADER + a.length)
    requires HeaderAt(m', Start(bs, i) + HEADER + a.length) == Header(b.used, b.length, NextOf(base, bs, i))
    ensures Swapped(m, m', base, bs, i, i + 1, [a, b])
  {
    hide HeaderAt;
    assert HeaderOk(m, base, bs, i);
    TwoSizes(a, b);
    OneSize(bs[i]);
    assert bs[i..i + 1] == [bs[i]];
    assert MidHeader(m', base, bs, i, i + 1, [a, b], 0);
    assert MidHeader(m', base, bs, i, i + 1, [a, b], 1);
  }

  /** Joining two blocks: only the first header is written. */
  lemma {:induction false} JoinSwapped(m: seq<Byte>, m': seq<Byte>, base: nat, bs: seq<Block>, i: nat, b: Block)
    requires Spelled(m, base, bs) && i + 1 < |bs| && b.length == bs[i].length + bs[i + 1].length + HEADER
    requires Only(m, m', Start(bs, i), Start(bs, i) + HEADER) && Start(bs, i) + HEADER <= |m|
    requires HeaderAt(m', Start(bs, i)) == Header(b.used, b.length, NextOf(base, bs, i + 1))
    ensures Swapped(m, m', base, bs, i, i + 2, [b])
  {
    hide HeaderAt;
    assert HeaderOk(m, base, bs, i) && HeaderOk(m, base, bs, i + 1);
    OneSize(b);
    TwoSizes(bs[i], bs[i + 1]);
    assert bs[i..i + 2] == [bs[i], bs[i + 1]];
    assert MidHeader(m', base, bs, i, i + 2, [b], 0);
  }

  // ---------- growing the heap ----------

  /** The heap grows by one free block behind a used one: the last header now points to it. */
  lemma {:induction false} AppendBlock(m: seq<Byte>, m': seq<Byte>, base: nat, bs: seq<Block>, b: Block, live: Store)
    requires Heap(m, base, bs, live) && |m'| == |m| + HEADER + b.length && base + |m'| < WORD && !b.used
    requires var o := Start(bs, |bs| - 1);
             && o + HEADER <= |m|
             && Only(m, m'[..|m|], o, o + HEADER)
             && HeaderAt(m', o) == Header(bs[|bs| - 1].used, bs[|bs| - 1].length, base + |m|)
    requires HeaderAt(m', |m|) == Header(false, b.length, 0)
    ensures Heap(m', base, bs + [b], live)
  {
    hide Start, HeaderAt;
    var r := bs + [b];
    forall k: nat | k <= |bs| ensures Start(r, k) == Start(bs, k) {
      StartPrefix(bs, [b], k);
    }
    LastStart(bs, b);
    forall n: nat | n < |r| ensures HeaderOk(m', base, r, n) {
      AppendHeader(m, m', base, bs, b, n);
    }
    assert Size(r) == |m'|;
    AppendViews(m, m', base, bs, b, live);
  }

  lemma {:induction false} LastStart(bs: seq<Block>, b: Block)
    ensures Start(bs + [b], |bs|) == Size(bs) && Size(bs + [b]) == Size(bs) + HEADER + b.length
  {
    StartSuffix(bs, [b], 0);
    StartPrefix(bs, [b], |bs|);
    OneSize(b);
    StartSuffix(bs, [b], 1);
  }

  lemma {:induction false} AppendHeader(m: seq<Byte>, m': seq<Byte>, base: nat, bs: seq<Block>, b: Block, n: nat)
    requires Spelled(m, base, bs) && |m'| == |m| + HEADER + b.length && !b.used && n <= |bs|
    requires var o := Start(bs, |bs| - 1);
             && o + HEADER <= |m|
             && Only(m, m'[..|m|], o, o + HEADER)
             && HeaderAt(m', o) == Header(bs[|bs| - 1].used, bs[|bs| - 1].length, base + |m|)
    requires HeaderAt(m', |m|) == Header(false, b.length, 0)
    ensures HeaderOk(m', base, bs + [b], n)
  {
    var r := bs + [b];
    LastStart(bs, b);
    StartPrefix(bs, [b], n);
    if n < |bs| - 1 {
      hide Get32;
      StartPrefix(bs, [b], n + 1);
      assert HeaderOk(m, base, bs, n);
      StartOrder(bs, n, |bs| - 1);
      var o := Start(bs, |bs| - 1);
      HeaderKept(m, m'[..|m|], o, o + HEADER, Start(bs, n));
      HeaderPrefix(m', |m|, Start(bs, n));
    } else if n == |bs| - 1 {
      assert HeaderOk(m, base, bs, n);
      StartPrefix(bs, [b], n + 1);
    }
  }

  lemma {:induction false} HeaderPrefix(m: seq<Byte>, n: nat, o: nat)
    requires o + HEADER <= n <= |m|
    ensures HeaderAt(m[..n], o) == HeaderAt(m, o)
  {
  }

  lemma {:induction false} AppendViews(m: seq<Byte>, m': seq<Byte>, base: nat, bs: seq<Block>, b: Block, live: Store)
    requires Heap(m, base, bs, live) && |m'| >= |m| && !b.used
    requires var o := Start(bs, |bs| - 1);
             o + HEADER <= |m| && Only(m, m'[..|m|], o, o + HEADER)
    ensures Views(m', base, bs + [b], live)
  {
    var r := bs + [b];
    forall n: nat | n < |r| ensures Shows(m', base, r, live, n) {
      if n < |bs| {
        AppendShows(m, m', base, bs, b, live, n);
      }
    }
    forall p | p in live ensures Owns(base, r, p) {
      assert Owns(base, bs, p);
      var n: nat :| LiveAt(base, bs, n, p);
      StartPrefix(bs, [b], n);
      assert LiveAt(base, r, n, p);
    }
  }

  lemma {:induction false} AppendShows(m: seq<Byte>, m': seq<Byte>, base: nat, bs: seq<Block>, b: Block, live: Store,
                                       n: nat)
    requires Heap(m, base, bs, live) && |m'| >= |m| && n < |bs|
    requires var o := Start(bs, |bs| - 1);
             o + HEADER <= |m| && Only(m, m'[..|m|], o, o + HEADER)
    ensures Shows(m', base, bs + [b], live, n)
  {
    hide Only;
    StartPrefix(bs, [b], n);
    assert HeaderOk(m, base, bs, n);
    assert Shows(m, base, bs, live, n);
    if n < |bs| - 1 {
      StartOrder(bs, n, |bs| - 1);
    }
    SamePayload(m, m', Start(bs, n) + HEADER, bs[n].length, Start(bs, |bs| - 1));
  }

  lemma {:induction false} SamePayload(m: seq<Byte>, m': seq<Byte>, a: nat, n: nat, o: nat)
    requires |m| <= |m'| && a + n <= |m| && Only(m, m'[..|m|], o, o + HEADER) && (a + n <= o || o + HEADER <= a)
    ensures m'[a..a + n] == m[a..a + n]
  {
    var f, x, y := m'[..|m|], m'[a..a + n], m[a..a + n];
    forall k | 0 <= k < n ensures x[k] == y[k] {
      assert f[a + k] == m'[a + k] && f[a + k] == m[a + k];
    }
  }

  /** The heap grows behind a free block: that block takes the new bytes. */
  lemma {:induction false} GrowLast(m: seq<Byte>, m': seq<Byte>, base: nat, bs: seq<Block>, n: nat, live: Store)
    requires Heap(m, base, bs, live) && |m'| == |m| + n && base + |m'| < WORD && !bs[|bs| - 1].used
    requires var o := Start(bs, |bs| - 1);
             && o + HEADER <= |m|
             && Only(m, m'[..|m|], o, o + HEADER)
             && HeaderAt(m', o) == Header(false, bs[|bs| - 1].length + n, 0)
    ensures var last := |bs| - 1;
            Heap(m', base, bs[..last] + [Block(bs[last].length + n, false)], live)
  {
    hide Start, HeaderAt;
    var last := |bs| - 1;
    var r := bs[..last] + [Block(bs[last].length + n, false)];
    LastGrown(bs, n);
    forall k: nat | k < |r| ensures HeaderOk(m', base, r, k) {
      GrowHeader(m, m', base, bs, n, k);
    }
    forall k: nat | k < |r| ensures Shows(m', base, r, live, k) {
      GrowShows(m, m', base, bs, n, live, k);
    }
    forall p | p in live ensures Owns(base, r, p) {
      assert Owns(base, bs, p);
      var k: nat :| LiveAt(base, bs, k, p);
      assert LiveAt(base, r, k, p);
    }
  }

  lemma {:induction false} LastGrown(bs: seq<Block>, n: nat)
    requires bs != []
    ensures var last := |bs| - 1;
            var r := bs[..last] + [Block(bs[last].length + n, false)];
            && Size(r) == Size(bs) + n
            && forall k: nat {:trigger Start(r, k)} {:trigger Start(bs, k)} :: k <= last ==> Start(r, k) == Start(bs, k)
  {
    var last := |bs| - 1;
    var a, b := bs[..last], [Block(bs[last].length + n, false)];
    var r := a + b;
    assert bs == a + [bs[last]];
    LastStart(a, b[0]);
    LastStart(a, bs[last]);
    forall k: nat | k <= last ensures Start(r, k) == Start(bs, k) {
      StartPrefix(a, b, k);
      StartPrefix(a, [bs[last]], k);
    }
  }

  lemma {:induction false} GrowHeader(m: seq<Byte>, m': seq<Byte>, base: nat, bs: seq<Block>, n: nat, k: nat)
    requires Spelled(m, base, bs) && |m'| == |m| + n && k < |bs|
    requires var o := Start(bs, |bs| - 1);
             && o + HEADER <= |m|
             && Only(m, m'[..|m|], o, o + HEADER)
             && HeaderAt(m', o) == Header(false, bs[|bs| - 1].length + n, 0)
    ensures HeaderOk(m', base, bs[..|bs| - 1] + [Block(bs[|bs| - 1].length + n, false)], k)
  {
    hide HeaderAt;
    LastGrown(bs, n);
    assert HeaderOk(m, base, bs, k);
    var last := |bs| - 1;
    var o := Start(bs, last);
    if k < last {
      StartOrder(bs, k, last);
      HeaderKept(m, m'[..|m|], o, o + HEADER, Start(bs, k));
      HeaderPrefix(m', |m|, Start(bs, k));
      var r := bs[..last] + [Block(bs[last].length + n, false)];
      assert Start(r, k + 1) == Start(bs, k + 1);
    } else {
      assert Start(bs, last + 1) == o + HEADER + bs[last].length;
    }
  }

  lemma {:induction false} GrowShows(m: seq<Byte>, m': seq<Byte>, base: nat, bs: seq<Block>, n: nat, live: Store,
                                     k: nat)
    requires Heap(m, base, bs, live) && |m'| == |m| + n && k < |bs|
    requires var o := Start(bs, |bs| - 1);
             o + HEADER <= |m| && Only(m, m'[..|m|], o, o + HEADER)
    ensures Shows(m', base, bs[..|bs| - 1] + [Block(bs[|bs| - 1].length + n, false)], live, k)
  {
    hide Only;
    if k < |bs| - 1 {
      LastGrown(bs, n);
      assert HeaderOk(m, base, bs, k);
      assert Shows(m, base, bs, live, k);
      StartOrder(bs, k, |bs| - 1);
      SamePayload(m, m', Start(bs, k) + HEADER, bs[k].length, Start(bs, |bs| - 1));
    }
  }
}
