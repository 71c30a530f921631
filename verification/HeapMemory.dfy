/**
 * The bytes of the user heap: block headers laid out as in libc/src/stdlib/_stdlib_mem.h, little-endian, between the
 * payloads of the blocks they describe.
 */
module HeapMemory {
  import opened HeapBlocks
  import opened Bytes

  const FLAGS: nat := 0
  const LENGTH: nat := 4
  const NEXT: nat := 8

  /** The header at an offset. */
  datatype Header = Header(used: bool, length: nat, next: nat)

  function HeaderAt(m: seq<Byte>, o: nat): Header
    requires o + HEADER <= |m|
  {
    Header(m[o + FLAGS] % 2 == 1, Get32(m, o + LENGTH), Get32(m, o + NEXT))
  }

  lemma {:induction false} HeaderKept(m: seq<Byte>, m': seq<Byte>, lo: nat, hi: nat, o: nat)
    requires Only(m, m', lo, hi) && o + HEADER <= |m| && (o + HEADER <= lo || hi <= o)
    ensures HeaderAt(m', o) == HeaderAt(m, o)
  {
    GetKept(m, m', lo, hi, o + LENGTH);
    GetKept(m, m', lo, hi, o + NEXT);
  }

  /** The value of the next pointer of block i. */
  function NextOf(base: nat, bs: seq<Block>, i: nat): nat
    requires i < |bs|
  {
    if i + 1 < |bs| then base + Start(bs, i + 1) else 0
  }

  ghost predicate HeaderOk(m: seq<Byte>, base: nat, bs: seq<Block>, i: nat)
  {
    && i < |bs| && Start(bs, i) + HEADER + bs[i].length <= |m|
    && HeaderAt(m, Start(bs, i)) == Header(bs[i].used, bs[i].length, NextOf(base, bs, i))
  }

  /** The memory from `base` on is exactly the given blocks. */
  ghost predicate Spelled(m: seq<Byte>, base: nat, bs: seq<Block>)
  {
    && 0 < base && base + |m| < WORD && bs != [] && Size(bs) == |m|
    && forall i: nat :: i < |bs| ==> HeaderOk(m, base, bs, i)
  }

  // ---------- payloads ----------

  /** Block i is allocated and its payload is at p. */
  ghost predicate LiveAt(base: nat, bs: seq<Block>, i: nat, p: nat)
  {
    i < |bs| && bs[i].used && p == base + Start(bs, i) + HEADER
  }

  ghost predicate InMemory(m: seq<Byte>, bs: seq<Block>, i: nat)
  {
    i < |bs| && Start(bs, i) + HEADER + bs[i].length <= |m|
  }

  function Payload(m: seq<Byte>, bs: seq<Block>, i: nat): seq<Byte>
    requires InMemory(m, bs, i)
  {
    m[Start(bs, i) + HEADER..Start(bs, i) + HEADER + bs[i].length]
  }

  /** The live allocations as the program sees them: an address and the bytes there. */
  type Store = map<nat, seq<Byte>>

  ghost predicate Owns(base: nat, bs: seq<Block>, p: nat)
  {
    exists i :: LiveAt(base, bs, i, p)
  }

  ghost predicate Shows(m: seq<Byte>, base: nat, bs: seq<Block>, live: Store, i: nat)
  {
    InMemory(m, bs, i) ==>
      (bs[i].used ==> var p := base + Start(bs, i) + HEADER; p in live && live[p] == Payload(m, bs, i))
  }

  /** `live` lists the allocated blocks and their contents. */
  ghost predicate Views(m: seq<Byte>, base: nat, bs: seq<Block>, live: Store)
  {
    && (forall i: nat :: i < |bs| ==> Shows(m, base, bs, live, i))
    && (forall p :: p in live ==> Owns(base, bs, p))
  }

  /** Distinct live allocations do not overlap, and all lie inside the heap. */
  lemma {:induction false} LiveDisjoint(m: seq<Byte>, base: nat, bs: seq<Block>, live: Store, p: nat, q: nat)
    requires Spelled(m, base, bs) && Views(m, base, bs, live) && p in live && q in live && p != q
    ensures base + HEADER <= p && p + |live[p]| <= base + |m|
    ensures p + |live[p]| + HEADER <= q || q + |live[q]| + HEADER <= p
  {
    hide HeaderAt;
    assert Owns(base, bs, p) && Owns(base, bs, q);
    var i: nat :| LiveAt(base, bs, i, p);
    var j: nat :| LiveAt(base, bs, j, q);
    assert HeaderOk(m, base, bs, i) && HeaderOk(m, base, bs, j);
    assert Shows(m, base, bs, live, i) && Shows(m, base, bs, live, j);
    if i < j {
      StartOrder(bs, i, j);
    } else {
      StartOrder(bs, j, i);
    }
  }

  // ---------- replacing a stretch of blocks ----------

  /** The stretch of blocks i..j is replaced by `mid`, and m' differs from m only there. */
  ghost predicate Swapped(m: seq<Byte>, m': seq<Byte>, base: nat, bs: seq<Block>, i: nat, j: nat, mid: seq<Block>)
  {
    && i < j <= |bs| && mid != [] && Size(mid) == Size(bs[i..j])
    && Only(m, m', Start(bs, i), Start(bs, j))
    && forall k: nat :: k < |mid| ==> MidHeader(m', base, bs, i, j, mid, k)
  }

  /** The header of block k of the new stretch. */
  ghost predicate MidHeader(m': seq<Byte>, base: nat, bs: seq<Block>, i: nat, j: nat, mid: seq<Block>, k: nat)
    requires i < j <= |bs|
  {
    k < |mid| ==>
      var o := Start(bs, i) + Start(mid, k);
      && o + HEADER + mid[k].length <= |m'|
      && HeaderAt(m', o) == Header(mid[k].used, mid[k].length,
                                   if k + 1 < |mid| then base + Start(bs, i) + Start(mid, k + 1)
                                   else if j < |bs| then base + Start(bs, j) else 0)
  }

  function Swap(bs: seq<Block>, i: nat, j: nat, mid: seq<Block>): seq<Block>
    requires i <= j <= |bs|
  {
    bs[..i] + mid + bs[j..]
  }

  lemma {:induction false} SwapSpelled(m: seq<Byte>, m': seq<Byte>, base: nat, bs: seq<Block>, i: nat, j: nat,
                                       mid: seq<Block>)
    requires Spelled(m, base, bs) && Swapped(m, m', base, bs, i, j, mid)
    ensures Spelled(m', base, Swap(bs, i, j, mid))
  {
    hide Start, HeaderAt;
    var r := Swap(bs, i, j, mid);
    Replaced(bs, i, j, mid);
    forall n: nat | n < |r| ensures HeaderOk(m', base, r, n) {
      if n < i {
        SwapBefore(m, m', base, bs, i, j, mid, n);
      } else if n < i + |mid| {
        SwapInside(m, m', base, bs, i, j, mid, n - i);
      } else {
        SwapAfter(m, m', base, bs, i, j, mid, n - i - |mid| + j);
      }
    }
  }

  lemma {:induction false} SwapBefore(m: seq<Byte>, m': seq<Byte>, base: nat, bs: seq<Block>, i: nat, j: nat,
                                      mid: seq<Block>, n: nat)
    requires Spelled(m, base, bs) && Swapped(m, m', base, bs, i, j, mid) && n < i
    ensures HeaderOk(m', base, Swap(bs, i, j, mid), n)
  {
    hide HeaderAt;
    var r := Swap(bs, i, j, mid);
    Replaced(bs, i, j, mid);
    assert HeaderOk(m, base, bs, n);
    StartOrder(bs, n, i);
    HeaderKept(m, m', Start(bs, i), Start(bs, j), Start(bs, n));
    assert Start(r, n) == Start(bs, n) && Start(r, n + 1) == Start(bs, n + 1);
  }

  lemma {:induction false} SwapInside(m: seq<Byte>, m': seq<Byte>, base: nat, bs: seq<Block>, i: nat, j: nat,
                                      mid: seq<Block>, k: nat)
    requires Spelled(m, base, bs) && Swapped(m, m', base, bs, i, j, mid) && k < |mid|
    ensures HeaderOk(m', base, Swap(bs, i, j, mid), i + k)
  {
    hide HeaderAt;
    var r := Swap(bs, i, j, mid);
    Replaced(bs, i, j, mid);
    assert MidHeader(m', base, bs, i, j, mid, k);
    assert Start(r, i + k) == Start(bs, i) + Start(mid, k);
    assert Start(r, i + (k + 1)) == Start(bs, i) + Start(mid, k + 1);
  }

  lemma {:induction false} SwapAfter(m: seq<Byte>, m': seq<Byte>, base: nat, bs: seq<Block>, i: nat, j: nat,
                                     mid: seq<Block>, n: nat)
    requires Spelled(m, base, bs) && Swapped(m, m', base, bs, i, j, mid) && j <= n < |bs|
    ensures HeaderOk(m', base, Swap(bs, i, j, mid), n - j + i + |mid|)
  {
    hide HeaderAt;
    var r := Swap(bs, i, j, mid);
    Replaced(bs, i, j, mid);
    assert HeaderOk(m, base, bs, n);
    if j < n {
      StartOrder(bs, j, n);
    }
    HeaderKept(m, m', Start(bs, i), Start(bs, j), Start(bs, n));
    assert Start(r, n - j + i + |mid|) == Start(bs, n);
    assert Start(r, n + 1 - j + i + |mid|) == Start(bs, n + 1);
  }

  /** The stores agree on every address that is not a payload address of the stretch. */
  ghost predicate AgreeOutside(live: Store, live': Store, lo: nat, hi: nat)
  {
    forall p {:trigger p in live} {:trigger p in live'} :: !(lo <= p <= hi) ==>
      (p in live <==> p in live') && (p in live ==> live'[p] == live[p])
  }

  /** Payload addresses of the stretch i..j. */
  ghost predicate InStretch(base: nat, bs: seq<Block>, i: nat, j: nat, p: nat)
    requires i <= j <= |bs|
  {
    base + Start(bs, i) + HEADER <= p <= base + Start(bs, j)
  }

  lemma {:induction false} SwapViews(m: seq<Byte>, m': seq<Byte>, base: nat, bs: seq<Block>, i: nat, j: nat,
                                     mid: seq<Block>,
                                     live: Store, live': Store)
    requires Spelled(m, base, bs) && Swapped(m, m', base, bs, i, j, mid) && Views(m, base, bs, live)
    requires AgreeOutside(live, live', base + Start(bs, i) + HEADER, base + Start(bs, j))
    requires forall n: nat :: i <= n < i + |mid| ==> Shows(m', base, Swap(bs, i, j, mid), live', n)
    requires forall p :: p in live' && InStretch(base, bs, i, j, p) ==> Owns(base, Swap(bs, i, j, mid), p)
    ensures Views(m', base, Swap(bs, i, j, mid), live')
  {
    hide Start, Shows, Owns, AgreeOutside, Spelled, MidHeader, Only;
    var r := Swap(bs, i, j, mid);
    forall n: nat | n < |r| ensures Shows(m', base, r, live', n) {
      if n < i {
        ShowsBefore(m, m', base, bs, i, j, mid, live, live', n);
      } else if n < i + |mid| {
        assert Shows(m', base, r, live', n);
      } else {
        ShowsAfter(m, m', base, bs, i, j, mid, live, live', n - i - |mid| + j);
      }
    }
    forall p | p in live' ensures Owns(base, r, p) {
      if !InStretch(base, bs, i, j, p) {
        OwnsOutside(m, m', base, bs, i, j, mid, live, live', p);
      }
    }
  }

  lemma {:induction false} ShowsBefore(m: seq<Byte>, m': seq<Byte>, base: nat, bs: seq<Block>, i: nat, j: nat,
                                       mid: seq<Block>,
                                       live: Store, live': Store, n: nat)
    requires Spelled(m, base, bs) && Swapped(m, m', base, bs, i, j, mid) && n < i && Shows(m, base, bs, live, n)
    requires AgreeOutside(live, live', base + Start(bs, i) + HEADER, base + Start(bs, j))
    ensures Shows(m', base, Swap(bs, i, j, mid), live', n)
  {
    var r := Swap(bs, i, j, mid);
    Replaced(bs, i, j, mid);
    StartOrder(bs, n, i);
    assert Start(r, n) == Start(bs, n);
    assert HeaderOk(m, base, bs, n);
    assert Payload(m', r, n) == Payload(m, bs, n);
  }

  lemma {:induction false} ShowsAfter(m: seq<Byte>, m': seq<Byte>, base: nat, bs: seq<Block>, i: nat, j: nat,
                                      mid: seq<Block>,
                                      live: Store, live': Store, n: nat)
    requires Spelled(m, base, bs) && Swapped(m, m', base, bs, i, j, mid) && j <= n < |bs| && Shows(m, base, bs, live, n)
    requires AgreeOutside(live, live', base + Start(bs, i) + HEADER, base + Start(bs, j))
    ensures Shows(m', base, Swap(bs, i, j, mid), live', n - j + i + |mid|)
  {
    hide HeaderAt, MidHeader;
    var r := Swap(bs, i, j, mid);
    Replaced(bs, i, j, mid);
    if j < n {
      StartOrder(bs, j, n);
    }
    assert Start(r, n - j + i + |mid|) == Start(bs, n);
    assert HeaderOk(m, base, bs, n);
    assert Payload(m', r, n - j + i + |mid|) == Payload(m, bs, n);
  }

  lemma {:induction false} OwnsOutside(m: seq<Byte>, m': seq<Byte>, base: nat, bs: seq<Block>, i: nat, j: nat,
                                       mid: seq<Block>,
                                       live: Store, live': Store, p: nat)
    requires Spelled(m, base, bs) && Swapped(m, m', base, bs, i, j, mid) && Views(m, base, bs, live)
    requires AgreeOutside(live, live', base + Start(bs, i) + HEADER, base + Start(bs, j))
    requires p in live' && !InStretch(base, bs, i, j, p)
    ensures Owns(base, Swap(bs, i, j, mid), p)
  {
    hide Shows;
    assert p in live;
    assert Owns(base, bs, p);
    var n: nat :| LiveAt(base, bs, n, p);
    var r := Swap(bs, i, j, mid);
    Replaced(bs, i, j, mid);
    StretchOf(base, bs, i, j, n);
    if n < i {
      assert Start(r, n) == Start(bs, n);
      assert LiveAt(base, r, n, p);
    } else {
      assert Start(r, n - j + i + |mid|) == Start(bs, n);
      assert LiveAt(base, r, n - j + i + |mid|, p);
    }
  }

  /** The payload address of a block of the stretch is a payload address of the stretch. */
  lemma {:induction false} StretchOf(base: nat, bs: seq<Block>, i: nat, j: nat, n: nat)
    requires i <= j <= |bs| && n < |bs|
    ensures i <= n < j <==> InStretch(base, bs, i, j, base + Start(bs, n) + HEADER)
  {
    if i < n {
      StartOrder(bs, i, n);
    } else if n < i {
      StartOrder(bs, n, i);
    }
    if j < n {
      StartOrder(bs, j, n);
    } else if n < j {
      StartOrder(bs, n, j);
    }
  }
}
