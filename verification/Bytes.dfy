/** Byte memory with little-endian 32-bit words. */
module Bytes {
  type Byte = x: int | 0 <= x < 256

  const WORD: nat := 0x1_0000_0000

  function Get32(m: seq<Byte>, a: nat): (v: nat)
    requires a + 4 <= |m|
    ensures v < WORD
  {
    m[a] as int + 0x100 * (m[a + 1] as int) + 0x1_0000 * (m[a + 2] as int) + 0x100_0000 * (m[a + 3] as int)
  }

  function Put32(m: seq<Byte>, a: nat, v: nat): (r: seq<Byte>)
    requires a + 4 <= |m| && v < WORD
    ensures |r| == |m|
  {
    var word: seq<Byte> := [v % 0x100, v / 0x100 % 0x100, v / 0x1_0000 % 0x100, v / 0x100_0000];
    m[..a] + word + m[a + 4..]
  }

  /** The two memories differ only in [lo, hi). */
  ghost predicate Only(m: seq<Byte>, m': seq<Byte>, lo: nat, hi: nat)
  {
    |m'| == |m| && forall k :: 0 <= k < |m| && !(lo <= k < hi) ==> m'[k] == m[k]
  }

  lemma {:induction false} Digits(v: nat)
    requires v < WORD
    ensures v == v % 0x100 + 0x100 * (v / 0x100 % 0x100) + 0x1_0000 * (v / 0x1_0000 % 0x100)
                 + 0x100_0000 * (v / 0x100_0000)
  {
    assert v / 0x1_0000 == v / 0x100 / 0x100;
    assert v / 0x100_0000 == v / 0x1_0000 / 0x100;
  }

  /** A word reads back as written, lowest byte first, and no other byte changes. */
  lemma {:induction false} PutGet(m: seq<Byte>, a: nat, v: nat)
    requires a + 4 <= |m| && v < WORD
    ensures var m' := Put32(m, a, v);
            && Only(m, m', a, a + 4) && Get32(m', a) == v
            && v == (m'[a] as int) + 0x100 * (m'[a + 1] as int) + 0x1_0000 * (m'[a + 2] as int)
                    + 0x100_0000 * (m'[a + 3] as int)
  {
    Digits(v);
  }

  lemma {:induction false} GetKept(m: seq<Byte>, m': seq<Byte>, lo: nat, hi: nat, a: nat)
    requires Only(m, m', lo, hi) && a + 4 <= |m| && (a + 4 <= lo || hi <= a)
    ensures Get32(m', a) == Get32(m, a)
  {
  }

  lemma {:induction false} OnlyTrans(m: seq<Byte>, m': seq<Byte>, m'': seq<Byte>, lo: nat, hi: nat, lo': nat,
                                     hi': nat, a: nat, b: nat)
    requires Only(m, m', lo, hi) && Only(m', m'', lo', hi') && a <= lo && a <= lo' && hi <= b && hi' <= b
    ensures Only(m, m'', a, b)
  {
  }
}
