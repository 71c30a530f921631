/**
 * malloc, free and realloc over the bytes of the heap (libc/src/stdlib/malloc.c, free.c, realloc.c, _stdlib_mem.h).
 * sbrk either grows the heap contiguously or refuses.
 */
module UserHeap {
  import opened Bytes
  import opened HeapBlocks
  import opened HeapMemory
  import opened HeapSteps

  function AtLeast(a: nat, b: nat): nat
  {
    if a < b then b else a
  }

  /** No free block has the bytes asked for (or 16), and the heap that ends at `end` cannot grow by them and a header,
      or not by a page. */
  ghost predicate NoRoom(bs: seq<Block>, end: nat, size: nat, granted: bool)
  {
    && (forall b :: b in bs ==> b.used || b.length < size || b.length < 16)
    && !(granted && end + 4096 < WORD && end + size + 12 < WORD)
  }

  function Patched(bytes: seq<Byte>, k: nat, v: Byte): seq<Byte>
    requires k < |bytes|
  {
    bytes[k := v]
  }

  class Allocator {
    const base: nat                 // the program break before the first call
    const junk: nat -> Byte         // what new memory holds
    var mem: seq<Byte>              // the bytes from base up to the program break
    var started: bool               // the heap start is known

    ghost var blocks: seq<Block>
    ghost var live: Store           // the allocations of the program and their contents

    ghost predicate Valid()
      reads this
    {
      0 < base &&
      if started then Heap(mem, base, blocks, live) && Neat(blocks)
      else mem == [] && blocks == [] && live == map[]
    }

    /** The heap start is known but there is no first block: the state after the first page was refused. */
    ghost predicate Stillborn()
      reads this
    {
      started && mem == [] && blocks == [] && live == map[]
    }

    constructor (start: nat, contents: nat -> Byte)
      requires 0 < start
      ensures Valid() && live == map[] && !started
    {
      base, junk, mem, started, blocks, live := start, contents, [], false, [], map[];
    }

    // ---------- the program break ----------

    /** Grow the heap by n bytes, or refuse. */
    method Sbrk(n: nat, granted: bool) returns (ok: bool)
      modifies this`mem
      ensures ok <==> granted && base + |old(mem)| + n < WORD
      ensures if ok then |mem| == |old(mem)| + n && mem[..|old(mem)|] == old(mem) else mem == old(mem)
    {
      ok := granted && base + |mem| + n < WORD;
      if ok {
        mem := mem + seq(n, i requires 0 <= i => junk(i));
      }
    }

    // ---------- reading the list ----------

    /** The first free block that is long enough; 0 when there is none. */
    method FindFit(size: nat) returns (p: nat, ghost i: nat)
      requires Spelled(mem, base, blocks)
      ensures i == FirstFit(blocks, size)
      ensures p == var f := FirstFit(blocks, size); if f < |blocks| then base + Start(blocks, f) else 0
    {
      hide Spelled, Start;
      SpelledFirst(mem, base, blocks);
      p, i := base, 0;
      while p != 0
        invariant i <= |blocks| && p == if i < |blocks| then base + Start(blocks, i) else 0
        invariant forall j :: 0 <= j < i ==> blocks[j].used || blocks[j].length < size
        decreases |blocks| - i
      {
        SpelledFacts(mem, base, blocks, i);
        var o := p - base;
        if mem[o + FLAGS] % 2 == 1 || Get32(mem, o + LENGTH) < size {
          p := Get32(mem, o + NEXT);
          i := i + 1;
        } else {
          FirstFitIs(blocks, size, i);
          return;
        }
      }
      FirstFitIs(blocks, size, i);
    }

    /** The last block, in a memory that begins with the one the blocks spell. */
    method FindLast(ghost m: seq<Byte>) returns (o: nat)
      requires Spelled(m, base, blocks) && |m| <= |mem| && mem[..|m|] == m
      ensures o == Start(blocks, |blocks| - 1)
    {
      hide Spelled, Start;
      SpelledFirst(m, base, blocks);
      o := 0;
      ghost var i := 0;
      PrefixFacts(m, mem, base, blocks, i);
      while Get32(mem, o + NEXT) != 0
        invariant i < |blocks| && o == Start(blocks, i) && o + HEADER <= |m|
        invariant Get32(mem, o + NEXT) == NextOf(base, blocks, i)
        decreases |blocks| - i
      {
        SpelledFacts(m, base, blocks, i);
        o := Get32(mem, o + NEXT) - base;
        i := i + 1;
        PrefixFacts(m, mem, base, blocks, i);
      }
      SpelledFacts(m, base, blocks, i);
    }

    /** The block whose next pointer is the given address; 0 when there is none. */
    method FindPrevious(entry: nat, ghost i: nat) returns (p: nat)
      requires Spelled(mem, base, blocks) && i < |blocks| && entry == base + Start(blocks, i)
      ensures p == if i > 0 then base + Start(blocks, i - 1) else 0
    {
      hide Spelled, Start;
      SpelledFirst(mem, base, blocks);
      p := base;
      ghost var k := 0;
      while p != 0
        invariant k <= |blocks| && p == if k < |blocks| then base + Start(blocks, k) else 0
        invariant i == 0 || k < i
        decreases |blocks| - k
      {
        SpelledFacts(mem, base, blocks, k);
        NextIs(base, blocks, k, i);
        var next := Get32(mem, p - base + NEXT);
        if next == entry {
          return;
        }
        p := next;
        k := k + 1;
      }
    }

    // ---------- malloc ----------

    /** Grow the heap for a request that found no block. */
    method ExtendHeap(size: nat, granted: bool) returns (p: nat, ghost i: nat)
      requires Heap(mem, base, blocks, live) && size + HEADER < WORD
      modifies this`mem, this`blocks
      ensures var n := AtLeast(size + HEADER, PAGE);
              && (p == 0 <==> !(granted && base + |old(mem)| + n < WORD))
              && (p == 0 ==> mem == old(mem) && blocks == old(blocks))
              && (p != 0 ==> old(blocks) != [] && blocks == Extend(old(blocks), n))
              && (p != 0 ==> i == |blocks| - 1 && p == base + Start(blocks, i))
      ensures Heap(mem, base, blocks, live)
    {
      hide Spelled, Views, Start, Put32, Get32, HeaderAt, Only;
      var total := AtLeast(size + HEADER, PAGE);
      ghost var m := mem;
      var ok := Sbrk(total, granted);
      i := 0;
      if !ok {
        return 0, 0;
      }
      var entry := |mem| - total;
      NewEntry(m, mem, total);
      mem := NewHeader(mem, entry, total - HEADER);
      SpelledFirst(m, base, blocks);
      var last := FindLast(m);
      SpelledFacts(m, base, blocks, |blocks| - 1);
      if mem[last + FLAGS] % 2 == 1 {
        LinkEntry(m, mem, base, blocks, live, total);
        mem := Put32(mem, last + NEXT, base + entry);
        blocks := blocks + [Block(total - HEADER, false)];
        p := base + entry;
      } else {
        WidenLast(m, mem, base, blocks, live, total);
        mem := Put32(mem, last + LENGTH, Get32(mem, last + LENGTH) + total);
        blocks := blocks[..|blocks| - 1] + [Block(blocks[|blocks| - 1].length + total, false)];
        p := base + last;
      }
      i := |blocks| - 1;
    }

    /** Cut a free block in two when the rest is worth a block of its own. */
    method SplitBlock(p: nat, size: nat, ghost i: nat)
      requires Heap(mem, base, blocks, live) && i < |blocks| && p == base + Start(blocks, i)
      requires !blocks[i].used && size <= blocks[i].length
      modifies this`mem, this`blocks
      ensures Heap(mem, base, blocks, live) && blocks == SplitOf(old(blocks), i, size)
    {
      hide Spelled, Views, Start, Put32, Get32, HeaderAt, Only;
      SpelledFacts(mem, base, blocks, i);
      var o := p - base;
      var remainder := Get32(mem, o + LENGTH) - size;
      if remainder < HEADER + MIN_ALLOC {
        return;
      }
      SplitHeap(mem, base, blocks, live, i, size);
      var next := o + HEADER + size;
      mem := SplitHeaders(mem, base, o, next, size, remainder - HEADER);
      blocks := SplitOf(blocks, i, size);
    }

    /** Mark a block used; its payload becomes a live allocation. */
    method MarkUsed(p: nat, ghost i: nat)
      requires Heap(mem, base, blocks, live) && i < |blocks| && p == base + Start(blocks, i) && !blocks[i].used
      modifies this`mem, this`blocks, this`live
      ensures Heap(mem, base, blocks, live) && blocks == old(blocks)[i := Block(old(blocks)[i].length, true)]
      ensures var q := p + HEADER;
              && q !in old(live) && q in live && live == old(live)[q := live[q]] && |live[q]| == old(blocks)[i].length
    {
      hide Spelled, Views, Start, Put32, Get32, HeaderAt, Only;
      SpelledFacts(mem, base, blocks, i);
      var o := p - base;
      NotLive(mem, base, blocks, live, i);
      MarkHeap(mem, base, blocks, live, i);
      var flags := mem[o + FLAGS];
      mem := mem[o + FLAGS := if flags % 2 == 1 then flags else flags + 1];
      blocks := blocks[i := Block(blocks[i].length, true)];
      live := live[p + HEADER := Payload(mem, blocks, i)];
    }

    /** The first block of a new heap; fails when the first page is refused. */
    method Initialise(granted: bool) returns (ok: bool)
      requires Valid() && !started
      modifies this`mem, this`blocks, this`started
      ensures ok <==> granted && base + PAGE < WORD
      ensures ok ==> Valid() && started && blocks == [Block(PAGE - HEADER, false)] && |mem| == PAGE
      ensures !ok ==> Stillborn() && !Valid()
    {
      hide Put32, Get32, HeaderAt, Only, Views, NewHeader;
      started := true;
      ok := Sbrk(PAGE, granted);
      if ok {
        FirstBlock(mem, base);
        mem := NewHeader(mem, 0, PAGE - HEADER);
        blocks := [Block(PAGE - HEADER, false)];
      }
    }

    /** Allocate: a fresh address with at least the bytes asked for, and every other allocation untouched. */
    method Malloc(size: nat, grantFirst: bool, grantMore: bool) returns (p: nat)
      requires Valid() && size + HEADER < WORD
      modifies this
      ensures Valid() <==> old(started) || (grantFirst && base + PAGE < WORD)
      ensures !Valid() ==> Stillborn() && p == 0
      ensures p == 0 ==> live == old(live)
      ensures p != 0 ==> 0 < size && p !in old(live) && p in live
      ensures p != 0 ==> live == old(live)[p := live[p]]
      ensures p != 0 ==> size <= |live[p]| && (|live[p]| < size + 28 || |live[p]| < 44)
      ensures old(started) ==> (p == 0 <==> size == 0 || NoRoom(old(blocks), base + |old(mem)|, size, grantMore))
      ensures !old(started) ==>
                (p == 0 <==>
                   || size == 0 || !grantFirst || base + 4096 >= WORD
                   || NoRoom([Block(4084, false)], base + 4096, size, grantMore))
      ensures p == 0 && 0 < size && Valid() ==>
                !(grantMore && base + |mem| + AtLeast(AtLeast(size, MIN_ALLOC) + HEADER, PAGE) < WORD) &&
                forall i :: 0 <= i < |blocks| ==> blocks[i].used || blocks[i].length < AtLeast(size, MIN_ALLOC)
      ensures old(started) && 0 < size ==>
                var n, i := AtLeast(size, MIN_ALLOC), FirstFit(old(blocks), AtLeast(size, MIN_ALLOC));
                i < |old(blocks)| ==> blocks == Allocate(old(blocks), i, n) && p == base + Start(blocks, i) + HEADER
      ensures old(started) && p != 0 && FirstFit(old(blocks), AtLeast(size, MIN_ALLOC)) == |old(blocks)| ==>
                var m := AtLeast(size, MIN_ALLOC);
                && old(blocks) != [] && var bs := Extend(old(blocks), AtLeast(m + HEADER, PAGE));
                && bs != [] && m <= bs[|bs| - 1].length && blocks == Allocate(bs, |bs| - 1, m)
                && p == base + Start(blocks, |bs| - 1) + HEADER
    {
      hide Heap, Start, Neat, Allocate, Extend;
      if !started {
        var ok := Initialise(grantFirst);
        if !ok {
          return 0;
        }
      }
      if size == 0 {
        return 0;
      }
      p := Place(AtLeast(size, MIN_ALLOC), grantMore);
    }

    /** Find or make room for a request, and hand it out. */
    method Place(size: nat, granted: bool) returns (p: nat)
      requires Heap(mem, base, blocks, live) && Neat(blocks) && MIN_ALLOC <= size && size + HEADER < WORD
      modifies this`mem, this`blocks, this`live
      ensures Heap(mem, base, blocks, live) && Neat(blocks)
      ensures p == 0 ==> live == old(live) && blocks == old(blocks) && mem == old(mem)
      ensures p != 0 ==> p !in old(live) && p in live && live == old(live)[p := live[p]]
      ensures p != 0 ==> size <= |live[p]| < size + 28
      ensures p == 0 <==> FirstFit(old(blocks), size) == |old(blocks)| &&
                          !(granted && base + |old(mem)| + AtLeast(size + HEADER, PAGE) < WORD)
      ensures var i := FirstFit(old(blocks), size);
              i < |old(blocks)| ==> blocks == Allocate(old(blocks), i, size) && p == base + Start(blocks, i) + HEADER
      ensures p != 0 && FirstFit(old(blocks), size) == |old(blocks)| ==>
                var n := AtLeast(size + HEADER, PAGE);
                && old(blocks) != [] && var bs := Extend(old(blocks), n);
                && bs != [] && size <= bs[|bs| - 1].length && blocks == Allocate(bs, |bs| - 1, size)
                && p == base + Start(blocks, |bs| - 1) + HEADER
    {
      hide Spelled, Views, Start, Neat, Get32, Put32;
      assert Spelled(mem, base, blocks);
      SpelledFirst(mem, base, blocks);
      ghost var i;
      p, i := FindFit(size);
      if p == 0 {
        p, i := ExtendHeap(size, granted);
        if p == 0 {
          return;
        }
        ExtendNeat(old(blocks), AtLeast(size + HEADER, PAGE));
        ExtendFits(old(blocks), AtLeast(size + HEADER, PAGE));
      }
      HandOut(p, size, i);
      p := p + HEADER;
    }

    method HandOut(p: nat, size: nat, ghost i: nat)
      requires Heap(mem, base, blocks, live) && Neat(blocks) && i < |blocks| && p == base + Start(blocks, i)
      requires !blocks[i].used && MIN_ALLOC <= size <= blocks[i].length
      modifies this`mem, this`blocks, this`live
      ensures Heap(mem, base, blocks, live) && Neat(blocks) && blocks == Allocate(old(blocks), i, size)
      ensures var q := p + HEADER;
              && q !in old(live) && q in live && live == old(live)[q := live[q]] && size <= |live[q]| < size + 28
              && q == base + Start(blocks, i) + HEADER
    {
      hide Heap, Start, Neat;
      AllocateNeat(blocks, i, size);
      SplitParts(blocks, i, size);
      SplitBlock(p, size, i);
      MarkUsed(p, i);
    }

    // ---------- free ----------

    /** Join the free block at o with the free block right behind it. */
    method Join(o: nat, ghost i: nat)
      requires Heap(mem, base, blocks, live) && i + 1 < |blocks| && o == Start(blocks, i)
      requires !blocks[i].used && !blocks[i + 1].used
      modifies this`mem, this`blocks
      ensures Heap(mem, base, blocks, live) && blocks == JoinNext(old(blocks), i)
    {
      hide Spelled, Views, Start, Put32, Get32, HeaderAt, Only;
      SpelledFacts(mem, base, blocks, i);
      SpelledFacts(mem, base, blocks, i + 1);
      EndOf(blocks, i);
      JoinHeap(mem, base, blocks, live, i);
      var next := Get32(mem, o + NEXT) - base;
      var length := Get32(mem, o + LENGTH) + Get32(mem, next + LENGTH) + HEADER;
      mem := Put32(Put32(mem, o + NEXT, Get32(mem, next + NEXT)), o + LENGTH, length);
      blocks := JoinNext(blocks, i);
    }

    /** Give an allocation back. */
    method Free(p: nat)
      requires Valid() && (p == 0 || p in live)
      modifies this`mem, this`blocks, this`live
      ensures Valid() && live == old(live) - {p}
      ensures forall i: nat :: LiveAt(base, old(blocks), i, p) ==> blocks == Release(old(blocks), i)
      ensures p == 0 ==> mem == old(mem) && blocks == old(blocks)
    {
      hide Spelled, Views, Start, Neat, Owns;
      if p == 0 {
        NullNotLive(mem, base, blocks, live);
        return;
      }
      ghost var i := Owner(mem, base, blocks, live, p);
      ReleaseNeat(blocks, i);
      FreeBlock(p - HEADER - base, i);
    }

    /** Clear the flag of a block and join it with its free neighbours, the next one first. */
    method FreeBlock(o: nat, ghost i: nat)
      requires Heap(mem, base, blocks, live) && i < |blocks| && o == Start(blocks, i)
      modifies this`mem, this`blocks, this`live
      ensures Heap(mem, base, blocks, live) && live == old(live) - {base + o + HEADER}
      ensures blocks == Release(old(blocks), i)
    {
      hide Spelled, Views, Start, Get32;
      Unmark(o, i);
      ghost var c := blocks;
      SpelledFacts(mem, base, blocks, i);
      var next := Get32(mem, o + NEXT);
      if next != 0 {
        SpelledFacts(mem, base, blocks, i + 1);
        if mem[next - base + FLAGS] % 2 == 0 {
          Join(o, i);
        }
      }
      JoinedStart(c, i);
      JoinBack(o, i);
    }

    method JoinBack(o: nat, ghost i: nat)
      requires Heap(mem, base, blocks, live) && i < |blocks| && o == Start(blocks, i) && !blocks[i].used
      modifies this`mem, this`blocks
      ensures Heap(mem, base, blocks, live) && blocks == JoinPrevious(old(blocks), i)
    {
      hide Spelled, Views, Start, Get32;
      SpelledFirst(mem, base, blocks);
      var previous := FindPrevious(base + o, i);
      if previous != 0 {
        SpelledFacts(mem, base, blocks, i - 1);
        if mem[previous - base + FLAGS] % 2 == 0 {
          JoinedPrevious(blocks, i);
          Join(previous - base, i - 1);
        }
      }
    }

    method Unmark(o: nat, ghost i: nat)
      requires Heap(mem, base, blocks, live) && i < |blocks| && o == Start(blocks, i)
      modifies this`mem, this`blocks, this`live
      ensures Heap(mem, base, blocks, live) && blocks == old(blocks)[i := Block(old(blocks)[i].length, false)]
      ensures live == old(live) - {base + o + HEADER} && Start(blocks, i) == o
    {
      hide Spelled, Views, Start, Put32, Get32, HeaderAt, Only;
      SpelledFacts(mem, base, blocks, i);
      UnmarkHeap(mem, base, blocks, live, i);
      mem := mem[o + FLAGS := 0];
      blocks := blocks[i := Block(blocks[i].length, false)];
      live := live - {base + o + HEADER};
    }

    // ---------- the program's own accesses, and realloc ----------

    /** Write one byte of an allocation: no other byte of any allocation changes. */
    method Store(p: nat, k: nat, v: Byte)
      requires Valid() && p in live && k < |live[p]|
      modifies this`mem, this`live
      ensures Valid() && live == old(live)[p := Patched(old(live)[p], k, v)]
    {
      hide Spelled, Views, Neat, Owns;
      StoreHeap(mem, base, blocks, live, p, k, v);
      mem := mem[p - base + k := v];
      live := live[p := Patched(live[p], k, v)];
    }

    /** Read one byte of an allocation. */
    method Load(p: nat, k: nat) returns (v: Byte)
      requires Valid() && p in live && k < |live[p]|
      ensures v == live[p][k]
    {
      hide Spelled, Views, Neat, Owns;
      LoadHeap(mem, base, blocks, live, p, k);
      v := mem[p - base + k];
    }

    method Copy(dst: nat, src: nat, n: nat)
      requires Valid() && dst in live && src in live && dst != src && n <= |live[dst]| && n <= |live[src]|
      modifies this`mem, this`live
      ensures Valid() && live == old(live)[dst := old(live)[src][..n] + old(live)[dst][n..]]
    {
      hide Heap, Neat;
      ghost var from, to := live[src], live[dst];
      assert from[..0] + to[0..] == to;
      for k := 0 to n
        invariant Valid() && started && live == old(live)[dst := from[..k] + to[k..]]
      {
        var v := Load(src, k);
        CopyNext(from, to, k);
        Store(dst, k, v);
      }
    }

    /** The length field of an allocation's header. */
    method Capacity(p: nat) returns (n: nat)
      requires Valid() && p in live
      ensures n == |live[p]| && started
    {
      hide Spelled, Views, Neat, Owns, Get32;
      CapacityIs(mem, base, blocks, live, p);
      n := Get32(mem, p - HEADER - base + LENGTH);
    }

    /** Move an allocation to one of another size, keeping the common prefix. */
    method Realloc(p: nat, size: nat, grantFirst: bool, grantMore: bool) returns (r: nat)
      requires Valid() && (p == 0 || p in live) && size + HEADER < WORD
      modifies this
      ensures p != 0 ==> Valid()
      ensures p != 0 && size == 0 ==> r == 0 && live == old(live) - {p}
      ensures p != 0 && size != 0 && r == 0 ==> live == old(live)
      ensures p != 0 && size != 0 ==> (r == 0 <==> NoRoom(old(blocks), base + |old(mem)|, size, grantMore))
      ensures p != 0 && r != 0 ==>
                && r !in old(live) && r in live && size <= |live[r]| && (|live[r]| < size + 28 || |live[r]| < 44)
                && live == (old(live) - {p})[r := live[r]]
                && forall k :: 0 <= k < size && k < |old(live)[p]| ==> live[r][k] == old(live)[p][k]
      ensures p == 0 && r != 0 ==> r !in old(live) && r in live && live == old(live)[r := live[r]] && |live[r]| >= size
      ensures p == 0 && r == 0 ==> live == old(live)
      ensures p == 0 && old(started) ==>
                (r == 0 <==> size == 0 || NoRoom(old(blocks), base + |old(mem)|, size, grantMore))
    {
      hide Heap, Neat, Start, FirstFit, Allocate;
      if p == 0 {
        r := Malloc(size, grantFirst, grantMore);
        return;
      }
      if size == 0 {
        Free(p);
        return 0;
      }
      assert started;
      r := Malloc(size, grantFirst, grantMore);
      if r == 0 {
        return;
      }
      var length := Capacity(p);
      Copy(r, p, if size < length then size else length);
      Free(p);
    }
  }

  lemma {:induction false} CopyNext(from: seq<Byte>, to: seq<Byte>, k: nat)
    requires k < |from| && k < |to|
    ensures Patched(from[..k] + to[k..], k, from[k]) == from[..k + 1] + to[k + 1..]
    ensures |from[..k] + to[k..]| == |to|
  {
  }

  lemma {:induction false} CapacityIs(m: seq<Byte>, base: nat, bs: seq<Block>, live: Store, p: nat)
    requires Heap(m, base, bs, live) && p in live
    ensures base + HEADER <= p && p - base + |live[p]| <= |m| && Get32(m, p - HEADER - base + LENGTH) == |live[p]|
  {
    hide Get32, Spelled;
    var i := Owner(m, base, bs, live, p);
    SpelledFacts(m, base, bs, i);
    assert Shows(m, base, bs, live, i);
  }

  lemma {:induction false} LoadHeap(m: seq<Byte>, base: nat, bs: seq<Block>, live: Store, p: nat, k: nat)
    requires Heap(m, base, bs, live) && p in live && k < |live[p]|
    ensures base + HEADER <= p && p - base + k < |m| && m[p - base + k] == live[p][k]
  {
    hide Get32, Spelled;
    var i := Owner(m, base, bs, live, p);
    SpelledFacts(m, base, bs, i);
    assert Shows(m, base, bs, live, i);
  }

  lemma {:induction false} StoreHeap(m: seq<Byte>, base: nat, bs: seq<Block>, live: Store, p: nat, k: nat, v: Byte)
    requires Heap(m, base, bs, live) && p in live && k < |live[p]|
    ensures base + HEADER <= p && p - base + k < |m|
    ensures Heap(m[p - base + k := v], base, bs, live[p := Patched(live[p], k, v)])
  {
    hide Get32, Spelled, Views, Shows, Owns;
    LoadHeap(m, base, bs, live, p, k);
    var i := Owner(m, base, bs, live, p);
    LivePayload(m, base, bs, live, i, p);
    var m' := m[p - base + k := v];
    SpelledFacts(m, base, bs, i);
    HeaderKept(m, m', p - base + k, p - base + k + 1, Start(bs, i));
    hide HeaderAt;
    EndOf(bs, i);
    assert Only(m, m', Start(bs, i), Start(bs, i + 1));
    OneSwapped(m, m', base, bs, i, bs[i]);
    LiveSwap(m, m', base, bs, i, bs[i], live);
    assert bs[i := bs[i]] == bs;
    assert Payload(m', bs, i) == Patched(live[p], k, v);
  }

  lemma {:induction false} LivePayload(m: seq<Byte>, base: nat, bs: seq<Block>, live: Store, i: nat, p: nat)
    requires Heap(m, base, bs, live) && LiveAt(base, bs, i, p) && p in live
    ensures InMemory(m, bs, i) && live[p] == Payload(m, bs, i)
  {
    SpelledInMemory(m, base, bs, i);
    assert Shows(m, base, bs, live, i);
  }

  // ---------- malloc, on values ----------

  function SplitOf(bs: seq<Block>, i: nat, size: nat): seq<Block>
    requires i < |bs| && size <= bs[i].length
  {
    if bs[i].length - size < HEADER + MIN_ALLOC then bs
    else bs[..i] + [Block(size, false), Block(bs[i].length - size - HEADER, false)] + bs[i + 1..]
  }

  function SplitHeaders(m: seq<Byte>, base: nat, o: nat, next: nat, size: nat, rest: nat): seq<Byte>
    requires o + HEADER <= next && next + HEADER <= |m| && base + |m| < WORD && size < WORD && rest < WORD
  {
    var m1 := Put32(m, o + LENGTH, size);
    var m2 := Put32(Put32(m1[next + FLAGS := 0], next + LENGTH, rest), next + NEXT, Get32(m1, o + NEXT));
    Put32(m2, o + NEXT, base + next)
  }

  lemma {:induction false} SplitHeadersIs(m: seq<Byte>, base: nat, o: nat, next: nat, size: nat, rest: nat)
    requires o + HEADER <= next && next + HEADER <= |m| && base + |m| < WORD && size < WORD && rest < WORD
    ensures var m' := SplitHeaders(m, base, o, next, size, rest);
            && Only(m, m', o, next + HEADER)
            && HeaderAt(m', o) == Header(HeaderAt(m, o).used, size, base + next)
            && HeaderAt(m', next) == Header(false, rest, HeaderAt(m, o).next)
  {
    hide Get32, Put32, Only;
    var hi := next + HEADER;
    var m1 := Put32(m, o + LENGTH, size);
    SetLength(m, o, size);
    SetFlags(m1, next, 0);
    var m2 := m1[next + FLAGS := 0];
    SetLength(m2, next, rest);
    var m3 := Put32(m2, next + LENGTH, rest);
    var link := Get32(m1, o + NEXT);
    SetNext(m3, next, link);
    var m4 := Put32(m3, next + NEXT, link);
    SetNext(m4, o, base + next);
    var m5 := Put32(m4, o + NEXT, base + next);
    OnlyTrans(m1, m2, m3, next, hi, next, hi, next, hi);
    OnlyTrans(m1, m3, m4, next, hi, next, hi, next, hi);
    HeaderKept(m1, m4, next, hi, o);
    HeaderKept(m4, m5, o, o + HEADER, next);
    OnlyTrans(m, m1, m4, o, o + HEADER, next, hi, o, hi);
    OnlyTrans(m, m4, m5, o, hi, o, o + HEADER, o, hi);
  }

  lemma {:induction false} SplitHeap(m: seq<Byte>, base: nat, bs: seq<Block>, live: Store, i: nat, size: nat)
    requires Heap(m, base, bs, live) && i < |bs| && !bs[i].used && size + HEADER + MIN_ALLOC <= bs[i].length
    requires Start(bs, i) + HEADER + bs[i].length <= |m| && base + |m| < WORD
    ensures var o := Start(bs, i);
            Heap(SplitHeaders(m, base, o, o + HEADER + size, size, bs[i].length - size - HEADER), base,
                 SplitOf(bs, i, size), live)
  {
    hide Get32, Put32, Views, SplitHeaders, Start;
    var o := Start(bs, i);
    var a, b := Block(size, false), Block(bs[i].length - size - HEADER, false);
    var next := o + HEADER + size;
    var m' := SplitHeaders(m, base, o, next, size, b.length);
    SplitHeadersIs(m, base, o, next, size, b.length);
    SpelledFacts(m, base, bs, i);
    hide HeaderAt;
    EndOf(bs, i);
    OnlyWider(m, m', o, next + HEADER, o, Start(bs, i + 1));
    SplitSwapped(m, m', base, bs, i, a, b);
    FreeSwap(m, m', base, bs, i, i + 1, [a, b], live);
  }

  lemma {:induction false} EndOf(bs: seq<Block>, i: nat)
    requires i < |bs|
    ensures Start(bs, i + 1) == Start(bs, i) + HEADER + bs[i].length
  {
  }

  lemma {:induction false} OnlyWider(m: seq<Byte>, m': seq<Byte>, lo: nat, hi: nat, lo': nat, hi': nat)
    requires Only(m, m', lo, hi) && lo' <= lo && hi <= hi'
    ensures Only(m, m', lo', hi')
  {
  }

  lemma {:induction false} NotLive(m: seq<Byte>, base: nat, bs: seq<Block>, live: Store, i: nat)
    requires Heap(m, base, bs, live) && i < |bs| && !bs[i].used
    ensures base + Start(bs, i) + HEADER !in live
  {
    var p := base + Start(bs, i) + HEADER;
    if p in live {
      assert bs[i..i + 1] == [bs[i]];
      NoneInFree(base, bs, i, i + 1, p);
      EndOf(bs, i);
    }
  }

  lemma {:induction false} MarkHeap(m: seq<Byte>, base: nat, bs: seq<Block>, live: Store, i: nat)
    requires Heap(m, base, bs, live) && i < |bs| && Start(bs, i) + HEADER <= |m|
    ensures var o, b := Start(bs, i), Block(bs[i].length, true);
            var flags := m[o + FLAGS];
            var m' := m[o + FLAGS := if flags % 2 == 1 then flags else flags + 1];
            && InMemory(m', bs[i := b], i) && Start(bs[i := b], i) == o
            && Heap(m', base, bs[i := b], live[base + o + HEADER := Payload(m', bs[i := b], i)])
  {
    hide Views, Start, Get32;
    var o, b := Start(bs, i), Block(bs[i].length, true);
    var flags := m[o + FLAGS];
    var flags': Byte := if flags % 2 == 1 then flags else flags + 1;
    SetFlags(m, o, flags');
    hide HeaderAt;
    var m' := m[o + FLAGS := flags'];
    EndOf(bs, i);
    OnlyWider(m, m', o, o + HEADER, o, Start(bs, i + 1));
    OneSwapped(m, m', base, bs, i, b);
    LiveSwap(m, m', base, bs, i, b, live);
  }

  lemma {:induction false} FirstBlock(m: seq<Byte>, base: nat)
    requires |m| == PAGE && 0 < base && base + PAGE < WORD
    ensures var bs := [Block(PAGE - HEADER, false)];
            Heap(NewHeader(m, 0, PAGE - HEADER), base, bs, map[]) && Neat(bs)
  {
    hide Get32, Put32, NewHeader;
    var bs := [Block(PAGE - HEADER, false)];
    NewHeaderIs(m, 0, PAGE - HEADER);
    OneSize(bs[0]);
  }

  lemma {:induction false} ExtendFits(bs: seq<Block>, n: nat)
    requires bs != [] && n >= HEADER
    ensures var r := Extend(bs, n);
            r != [] && !r[|r| - 1].used && r[|r| - 1].length >= n - HEADER
  {
  }

  lemma {:induction false} SplitParts(bs: seq<Block>, i: nat, size: nat)
    requires i < |bs| && size <= bs[i].length && !bs[i].used
    ensures var c := SplitOf(bs, i, size);
            && i < |c| && !c[i].used && size <= c[i].length < size + 28 && Start(c, i) == Start(bs, i)
            && c[i := Block(c[i].length, true)] == Allocate(bs, i, size)
            && Start(Allocate(bs, i, size), i) == Start(bs, i)
  {
    var c := SplitOf(bs, i, size);
    var a := Allocate(bs, i, size);
    SamePrefix(bs, c, i);
    SamePrefix(bs, a, i);
    assert c[i := Block(c[i].length, true)] == a;
  }

  lemma {:induction false} SamePrefix(bs: seq<Block>, c: seq<Block>, i: nat)
    requires i <= |bs| && i <= |c| && bs[..i] == c[..i]
    ensures Start(bs, i) == Start(c, i)
  {
    assert bs == bs[..i] + bs[i..] && c == c[..i] + c[i..];
    StartPrefix(bs[..i], bs[i..], i);
    StartPrefix(c[..i], c[i..], i);
  }

  // ---------- free, on values ----------

  ghost function Owner(m: seq<Byte>, base: nat, bs: seq<Block>, live: Store, p: nat): (i: nat)
    requires Views(m, base, bs, live) && p in live
    ensures LiveAt(base, bs, i, p)
    ensures forall k: nat :: LiveAt(base, bs, k, p) ==> k == i
  {
    assert Owns(base, bs, p);
    var i: nat :| LiveAt(base, bs, i, p);
    OwnerUnique(base, bs, i, p);
    i
  }

  lemma {:induction false} OwnerUnique(base: nat, bs: seq<Block>, i: nat, p: nat)
    requires LiveAt(base, bs, i, p)
    ensures forall k: nat :: LiveAt(base, bs, k, p) ==> k == i
  {
    forall k: nat | LiveAt(base, bs, k, p) ensures k == i {
      if k < i {
        StartOrder(bs, k, i);
      } else if i < k {
        StartOrder(bs, i, k);
      }
    }
  }

  lemma {:induction false} NullNotLive(m: seq<Byte>, base: nat, bs: seq<Block>, live: Store)
    requires Views(m, base, bs, live) || live == map[]
    ensures 0 !in live && live - {0} == live && forall i: nat :: !LiveAt(base, bs, i, 0)
  {
    assert 0 in live ==> Owns(base, bs, 0);
  }

  lemma {:induction false} UnmarkHeap(m: seq<Byte>, base: nat, bs: seq<Block>, live: Store, i: nat)
    requires Heap(m, base, bs, live) && i < |bs| && Start(bs, i) + HEADER <= |m|
    ensures var o, r := Start(bs, i), bs[i := Block(bs[i].length, false)];
            Heap(m[o + FLAGS := 0], base, r, live - {base + o + HEADER}) && Start(r, i) == o
  {
    hide Views, Start, Get32;
    var o, b := Start(bs, i), Block(bs[i].length, false);
    SetFlags(m, o, 0);
    hide HeaderAt;
    var m' := m[o + FLAGS := 0];
    EndOf(bs, i);
    OnlyWider(m, m', o, o + HEADER, o, Start(bs, i + 1));
    OneSwapped(m, m', base, bs, i, b);
    DeadSwap(m, m', base, bs, i, b, live);
    SamePrefix(bs, bs[i := b], i);
  }

  lemma {:induction false} JoinHeap(m: seq<Byte>, base: nat, bs: seq<Block>, live: Store, i: nat)
    requires Heap(m, base, bs, live) && i + 1 < |bs| && !bs[i].used && !bs[i + 1].used
    requires Start(bs, i) + HEADER <= |m| && NextOf(base, bs, i + 1) < WORD
    requires bs[i].length + bs[i + 1].length + HEADER < WORD
    ensures Heap(Put32(Put32(m, Start(bs, i) + NEXT, NextOf(base, bs, i + 1)), Start(bs, i) + LENGTH,
                       bs[i].length + bs[i + 1].length + HEADER), base, JoinNext(bs, i), live)
  {
    hide Views, Start, Get32, Put32;
    var o := Start(bs, i);
    var b := Block(bs[i].length + bs[i + 1].length + HEADER, false);
    SpelledFacts(m, base, bs, i);
    var m1 := Put32(m, o + NEXT, NextOf(base, bs, i + 1));
    SetNext(m, o, NextOf(base, bs, i + 1));
    var m2 := Put32(m1, o + LENGTH, b.length);
    SetLength(m1, o, b.length);
    hide HeaderAt;
    OnlyTrans(m, m1, m2, o, o + HEADER, o, o + HEADER, o, o + HEADER);
    JoinSwapped(m, m2, base, bs, i, b);
    assert bs[i..i + 2] == [bs[i], bs[i + 1]];
    FreeSwap(m, m2, base, bs, i, i + 2, [b], live);
  }

  lemma {:induction false} JoinedStart(bs: seq<Block>, i: nat)
    requires i < |bs|
    ensures i < |JoinNext(bs, i)| && Start(JoinNext(bs, i), i) == Start(bs, i)
    ensures JoinNext(bs, i)[i].used == bs[i].used
  {
    SamePrefix(bs, JoinNext(bs, i), i);
  }

  lemma {:induction false} JoinedPrevious(bs: seq<Block>, i: nat)
    requires 0 < i < |bs| && !bs[i - 1].used && !bs[i].used
    ensures JoinNext(bs, i - 1) == JoinPrevious(bs, i)
  {
  }

  lemma {:induction false} SpelledFirst(m: seq<Byte>, base: nat, bs: seq<Block>)
    requires Spelled(m, base, bs)
    ensures 0 < base && base + |m| < WORD && bs != [] && Start(bs, 0) == 0
  {
  }

  /** What a block list says about the bytes of block i. */
  lemma {:induction false} SpelledFacts(m: seq<Byte>, base: nat, bs: seq<Block>, i: nat)
    requires Spelled(m, base, bs) && i < |bs|
    ensures 0 < base && base + |m| < WORD && bs != [] && Start(bs, 0) == 0
    ensures Start(bs, i) + HEADER + bs[i].length <= |m| && Start(bs, i) >= 0
    ensures var o := Start(bs, i);
            && (m[o + FLAGS] % 2 == 1 <==> bs[i].used) && Get32(m, o + LENGTH) == bs[i].length
            && Get32(m, o + NEXT) == NextOf(base, bs, i)
            && HeaderAt(m, o) == Header(bs[i].used, bs[i].length, NextOf(base, bs, i))
    ensures NextOf(base, bs, i) == if i + 1 < |bs| then base + Start(bs, i + 1) else 0
  {
    assert HeaderOk(m, base, bs, i);
  }

  lemma {:induction false} PrefixFacts(m: seq<Byte>, m': seq<Byte>, base: nat, bs: seq<Block>, i: nat)
    requires Spelled(m, base, bs) && i < |bs| && |m| <= |m'| && m'[..|m|] == m
    ensures Start(bs, i) + HEADER <= |m| && HeaderAt(m', Start(bs, i)) == HeaderAt(m, Start(bs, i))
    ensures Get32(m', Start(bs, i) + NEXT) == NextOf(base, bs, i)
  {
    SpelledFacts(m, base, bs, i);
    HeaderPrefix(m', |m|, Start(bs, i));
  }

  /** Only the block before block i points to it. */
  lemma {:induction false} NextIs(base: nat, bs: seq<Block>, k: nat, i: nat)
    requires 0 < base && k < |bs| && i < |bs|
    ensures NextOf(base, bs, k) == base + Start(bs, i) <==> k + 1 == i
  {
    if k + 1 < i {
      StartOrder(bs, k + 1, i);
    } else if i < k + 1 < |bs| {
      StartOrder(bs, i, k + 1);
    }
  }

  /** The header of a new free block at an offset. */
  function NewHeader(m: seq<Byte>, o: nat, length: nat): (r: seq<Byte>)
    requires o + HEADER <= |m| && length < WORD
    ensures |r| == |m|
  {
    Put32(Put32(m[o + FLAGS := 0], o + LENGTH, length), o + NEXT, 0)
  }

  lemma {:induction false} NewHeaderIs(m: seq<Byte>, o: nat, length: nat)
    requires o + HEADER <= |m| && length < WORD
    ensures var m' := NewHeader(m, o, length);
            Only(m, m', o, o + HEADER) && HeaderAt(m', o) == Header(false, length, 0)
  {
    hide Get32, Put32;
    var m1 := m[o + FLAGS := 0];
    SetFlags(m, o, 0);
    SetLength(m1, o, length);
    var m2 := Put32(m1, o + LENGTH, length);
    SetNext(m2, o, 0);
    hide HeaderAt;
    OnlyTrans(m, m1, m2, o, o + HEADER, o, o + HEADER, o, o + HEADER);
  }

  /** A heap that has grown by n bytes has room for a header there, and begins as before. */
  lemma {:induction false} NewEntry(m: seq<Byte>, m': seq<Byte>, n: nat)
    requires n >= HEADER && |m'| == |m| + n && m'[..|m|] == m && n - HEADER < WORD
    ensures var m'' := NewHeader(m', |m|, n - HEADER);
            |m''| == |m'| && m''[..|m|] == m && HeaderAt(m'', |m|) == Header(false, n - HEADER, 0)
  {
    hide NewHeader;
    NewHeaderIs(m', |m|, n - HEADER);
    var m'' := NewHeader(m', |m|, n - HEADER);
    forall k | 0 <= k < |m| ensures m''[k] == m[k] {
      assert m''[k] == m'[k] == m'[..|m|][k];
    }
    assert m''[..|m|] == m;
  }

  /** The new block hangs behind a used last block. */
  lemma {:induction false} LinkEntry(m: seq<Byte>, m': seq<Byte>, base: nat, bs: seq<Block>, live: Store, n: nat)
    requires Heap(m, base, bs, live) && n >= HEADER && |m'| == |m| + n && m'[..|m|] == m && base + |m'| < WORD
    requires HeaderAt(m', |m|) == Header(false, n - HEADER, 0) && Start(bs, |bs| - 1) + HEADER <= |m|
    ensures var m'' := Put32(m', Start(bs, |bs| - 1) + NEXT, base + |m|);
            && Heap(m'', base, bs + [Block(n - HEADER, false)], live)
            && Start(bs + [Block(n - HEADER, false)], |bs|) == |m|
  {
    hide Get32, Put32, Start, Views;
    LastStart(bs, Block(n - HEADER, false));
    var o := Start(bs, |bs| - 1);
    SpelledFacts(m, base, bs, |bs| - 1);
    PrefixFacts(m, m', base, bs, |bs| - 1);
    SetNext(m', o, base + |m|);
    var m'' := Put32(m', o + NEXT, base + |m|);
    HeaderKept(m', m'', o, o + HEADER, |m|);
    hide HeaderAt;
    OnlyPrefix(m, m', m'', o, o + HEADER);
    AppendBlock(m, m'', base, bs, Block(n - HEADER, false), live);
  }

  lemma {:induction false} OnlyPrefix(m: seq<Byte>, m': seq<Byte>, m'': seq<Byte>, lo: nat, hi: nat)
    requires |m| <= |m'| && m'[..|m|] == m && Only(m', m'', lo, hi)
    ensures Only(m, m''[..|m|], lo, hi)
  {
    forall k | 0 <= k < |m| && !(lo <= k < hi) ensures m''[..|m|][k] == m[k] {
      assert m'[..|m|][k] == m'[k];
    }
  }

  /** A free last block takes the new bytes. */
  lemma {:induction false} WidenLast(m: seq<Byte>, m': seq<Byte>, base: nat, bs: seq<Block>, live: Store, n: nat)
    requires Heap(m, base, bs, live) && |m'| == |m| + n && m'[..|m|] == m && base + |m'| < WORD
    requires bs != [] && !bs[|bs| - 1].used && Start(bs, |bs| - 1) + HEADER <= |m|
    ensures var o, last := Start(bs, |bs| - 1), |bs| - 1;
            && Get32(m', o + LENGTH) + n < WORD
            && Heap(Put32(m', o + LENGTH, Get32(m', o + LENGTH) + n), base,
                    bs[..last] + [Block(bs[last].length + n, false)], live)
            && Start(bs[..last] + [Block(bs[last].length + n, false)], last) == o
  {
    hide Put32, Start, Views;
    LastGrown(bs, n);
    var o := Start(bs, |bs| - 1);
    SpelledFacts(m, base, bs, |bs| - 1);
    PrefixFacts(m, m', base, bs, |bs| - 1);
    var v := Get32(m', o + LENGTH) + n;
    SetLength(m', o, v);
    var m'' := Put32(m', o + LENGTH, v);
    hide HeaderAt;
    OnlyPrefix(m, m', m'', o, o + HEADER);
    GrowLast(m, m'', base, bs, n, live);
  }
}
