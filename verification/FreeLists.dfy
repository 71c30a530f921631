/** The free lists as they are stored: a head per order and `next`/`prev` links kept inside the free
    pages themselves, with page 0 for "none". `Linked` says which sequences of pages they spell. */
module FreeLists {
  import opened BuddyState

  function At(l: seq<nat>, i: int): nat
  {
    if 0 <= i < |l| then l[i] else 0
  }

  ghost predicate LinkedAt(next: seq<nat>, prev: seq<nat>, l: seq<nat>, i: int)
    requires 0 <= i < |l|
  {
    && 0 < l[i] < |next| == |prev|
    && next[l[i]] == At(l, i + 1)
    && prev[l[i]] == At(l, i - 1)
  }

  /** `head`, `next` and `prev` spell the list l. */
  ghost predicate Spells(next: seq<nat>, prev: seq<nat>, head: nat, l: seq<nat>)
  {
    && |next| == |prev|
    && NoDup(l)
    && head == At(l, 0)
    && forall i :: 0 <= i < |l| ==> LinkedAt(next, prev, l, i)
  }

  ghost predicate Disjoint(lists: seq<seq<nat>>)
  {
    forall j, k, p :: 0 <= j < k < |lists| && p in lists[j] ==> p !in lists[k]
  }

  ghost predicate Linked(next: seq<nat>, prev: seq<nat>, heads: seq<nat>, lists: seq<seq<nat>>)
  {
    && |heads| == |lists|
    && |next| == |prev|
    && Disjoint(lists)
    && forall k :: 0 <= k < |lists| ==> Spells(next, prev, heads[k], lists[k])
  }

  /** The list at p's side is untouched when links of pages outside it are written. */
  lemma {:induction false} SpellsFrame(next: seq<nat>, prev: seq<nat>, next': seq<nat>, prev': seq<nat>, head: nat,
                                       l: seq<nat>)
    requires Spells(next, prev, head, l) && |next'| == |prev'| == |next|
    requires forall p :: 0 <= p < |next| && p in l ==> next'[p] == next[p] && prev'[p] == prev[p]
    ensures Spells(next', prev', head, l)
  {
    forall i | 0 <= i < |l| ensures LinkedAt(next', prev', l, i) {
      assert LinkedAt(next, prev, l, i);
    }
  }

  function PrevAfterPush(prev: seq<nat>, p: nat, head: nat): (r: seq<nat>)
    requires p < |prev| && head < |prev|
    ensures |r| == |prev|
  {
    if head != 0 then prev[p := 0][head := p] else prev[p := 0]
  }

  lemma {:induction false} SpellsPush(next: seq<nat>, prev: seq<nat>, head: nat, l: seq<nat>, p: nat)
    requires Spells(next, prev, head, l) && 0 < p < |next| && p !in l && head < |next|
    ensures Spells(next[p := head], PrevAfterPush(prev, p, head), p, [p] + l)
  {
    var next' := next[p := head];
    var prev' := PrevAfterPush(prev, p, head);
    var r := [p] + l;
    ConsNoDup(p, l);
    forall i | 0 <= i < |r| ensures LinkedAt(next', prev', r, i) {
      if i > 0 {
        assert r[i] == l[i - 1];
        assert LinkedAt(next, prev, l, i - 1);
        assert i > 1 ==> r[i - 1] == l[i - 2] && l[i - 1] != l[0];
        assert At(r, i + 1) == At(l, i);
      } else {
        assert At(r, 1) == At(l, 0);
      }
    }
  }

  /** Position of p in l. */
  function Index(l: seq<nat>, p: nat): (i: nat)
    requires p in l
    ensures i < |l| && l[i] == p
  {
    if l[0] == p then 0 else 1 + Index(l[1..], p)
  }

  lemma {:induction false} WithoutAt(l: seq<nat>, p: nat)
    requires p in l
    ensures Without(l, p) == l[..Index(l, p)] + l[Index(l, p) + 1..]
  {
    if l[0] != p {
      WithoutAt(l[1..], p);
      var i := Index(l[1..], p);
      assert [l[0]] + l[1..][..i] == l[..i + 1];
      assert l[1..][i + 1..] == l[i + 2..];
    }
  }

  function NextAfterRemove(next: seq<nat>, p: nat, before: nat): (r: seq<nat>)
    requires p < |next| && before < |next|
    ensures |r| == |next|
  {
    if before != 0 then next[before := next[p]] else next
  }

  function PrevAfterRemove(prev: seq<nat>, p: nat, after: nat): (r: seq<nat>)
    requires p < |prev| && after < |prev|
    ensures |r| == |prev|
  {
    if after != 0 then prev[after := prev[p]] else prev
  }

  /** The neighbours of p are elements of the list, or 0 at its ends. */
  lemma {:induction false} Neighbours(next: seq<nat>, prev: seq<nat>, head: nat, l: seq<nat>, p: nat)
    requires Spells(next, prev, head, l) && p in l
    ensures 0 < p < |next|
    ensures next[p] == At(l, Index(l, p) + 1) && prev[p] == At(l, Index(l, p) - 1)
    ensures next[p] < |next| && prev[p] < |next|
    ensures (next[p] != 0 ==> next[p] in l && next[p] != p) && (prev[p] != 0 ==> prev[p] in l && prev[p] != p)
    ensures prev[p] == 0 <==> Index(l, p) == 0
  {
    var i := Index(l, p);
    assert LinkedAt(next, prev, l, i);
    if i + 1 < |l| {
      assert LinkedAt(next, prev, l, i + 1);
    }
    if i > 0 {
      assert LinkedAt(next, prev, l, i - 1);
    }
  }

  lemma {:induction false} SpellsRemove(next: seq<nat>, prev: seq<nat>, head: nat, l: seq<nat>, p: nat)
    requires Spells(next, prev, head, l) && p in l
    ensures p < |next| && next[p] < |next| && prev[p] < |next|
    ensures Spells(NextAfterRemove(next, p, prev[p]), PrevAfterRemove(prev, p, next[p]),
                   if prev[p] == 0 then next[p] else head, Without(l, p))
  {
    Neighbours(next, prev, head, l, p);
    var i := Index(l, p);
    var r := Without(l, p);
    WithoutAt(l, p);
    WithoutProps(l, p);
    forall j | 0 <= j < |r|
      ensures LinkedAt(NextAfterRemove(next, p, prev[p]), PrevAfterRemove(prev, p, next[p]), r, j)
    {
      RemoveLink(next, prev, head, l, i, j);
    }
  }

  lemma {:induction false} RemoveLink(next: seq<nat>, prev: seq<nat>, head: nat, l: seq<nat>, i: nat, j: nat)
    requires Spells(next, prev, head, l) && i < |l| && j < |l| - 1
    requires 0 < l[i] < |next| && next[l[i]] == At(l, i + 1) < |next| && prev[l[i]] == At(l, i - 1) < |next|
    ensures LinkedAt(NextAfterRemove(next, l[i], prev[l[i]]), PrevAfterRemove(prev, l[i], next[l[i]]),
                     l[..i] + l[i + 1..], j)
  {
    var r := l[..i] + l[i + 1..];
    if j < i {
      assert r[j] == l[j];
      assert LinkedAt(next, prev, l, j);
      assert At(r, j + 1) == if j + 1 == i then At(l, i + 1) else At(l, j + 1);
      assert At(r, j - 1) == At(l, j - 1);
    } else {
      assert r[j] == l[j + 1];
      assert LinkedAt(next, prev, l, j + 1);
      assert At(r, j - 1) == if j == i then At(l, i - 1) else At(l, j);
      assert At(r, j + 1) == At(l, j + 2);
    }
  }

  lemma {:induction false} LinkedPush(next: seq<nat>, prev: seq<nat>, heads: seq<nat>, lists: seq<seq<nat>>, p: nat,
                                      k: nat)
    requires Linked(next, prev, heads, lists) && k < |lists| && 0 < p < |next|
    requires forall j :: 0 <= j < |lists| ==> p !in lists[j]
    ensures heads[k] < |next|
    ensures Linked(next[p := heads[k]], PrevAfterPush(prev, p, heads[k]), heads[k := p], lists[k := [p] + lists[k]])
  {
    assert Spells(next, prev, heads[k], lists[k]);
    assert lists[k] != [] ==> LinkedAt(next, prev, lists[k], 0) && heads[k] in lists[k];
    SpellsPush(next, prev, heads[k], lists[k], p);
    forall j | 0 <= j < |lists| && j != k
      ensures Spells(next[p := heads[k]], PrevAfterPush(prev, p, heads[k]), heads[j], lists[j])
    {
      SpellsFrame(next, prev, next[p := heads[k]], PrevAfterPush(prev, p, heads[k]), heads[j], lists[j]);
    }
  }

  lemma {:induction false} LinkedRemove(next: seq<nat>, prev: seq<nat>, heads: seq<nat>, lists: seq<seq<nat>>, p: nat,
                                        k: nat)
    requires Linked(next, prev, heads, lists) && k < |lists| && p in lists[k]
    ensures p < |next| && next[p] < |next| && prev[p] < |next| && prev[p] != p
    ensures Linked(NextAfterRemove(next, p, prev[p]), PrevAfterRemove(prev, p, next[p]),
                   heads[k := if prev[p] == 0 then next[p] else heads[k]], lists[k := Without(lists[k], p)])
  {
    assert Spells(next, prev, heads[k], lists[k]);
    Neighbours(next, prev, heads[k], lists[k], p);
    SpellsRemove(next, prev, heads[k], lists[k], p);
    WithoutProps(lists[k], p);
    var next' := NextAfterRemove(next, p, prev[p]);
    var prev' := PrevAfterRemove(prev, p, next[p]);
    forall j | 0 <= j < |lists| && j != k ensures Spells(next', prev', heads[j], lists[j]) {
      SpellsFrame(next, prev, next', prev', heads[j], lists[j]);
    }
  }
}
