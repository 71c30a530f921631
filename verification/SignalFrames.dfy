/**
 * Signal frames (kernel/include/kernel/task/task.h:183-204): dispatch saves the registers and the blocked mask in a
 * frame on the user stack, byte by byte, and sigreturn reads them back.
 */
module SignalFrames {
  import opened Bytes

  const USER_START: nat := 0x0040_0000
  const USER_END: nat := 0x4000_0000
  const SIGNALS: nat := 32
  const SIGSEGV: nat := 11

  // Offsets in a frame: the return address, the signal number, twelve registers and the mask, the trampoline.
  const CONTEXT: nat := 8
  const TRAMPOLINE: nat := 60
  const FRAME_BYTES: nat := 68

  // Register slots that the kernel names.
  const EAX: nat := 0
  const EIP: nat := 7
  const CS: nat := 8
  const ESP: nat := 10
  const SS: nat := 11
  const REGISTERS: nat := 12

  const SIG_DFL: nat := 0
  const SIG_IGN: nat := 1

  type Sigset = set<nat>

  /** What to do with a signal. */
  datatype Action = Action(handler: nat, mask: Sigset, nodefer: bool, resethand: bool)

  // ---------- masks ----------

  /** The word of a set of signals, from signal k on. */
  function Mask(s: Sigset, k: nat): nat
    decreases SIGNALS - k
  {
    if k >= SIGNALS then 0 else (if k in s then 1 else 0) + 2 * Mask(s, k + 1)
  }

  function FromMask(v: nat, k: nat): Sigset
    decreases SIGNALS - k
  {
    if k >= SIGNALS then {} else (if v % 2 == 1 then {k} else {}) + FromMask(v / 2, k + 1)
  }

  function Power(n: nat): nat
  {
    if n == 0 then 1 else 2 * Power(n - 1)
  }

  lemma {:induction false} MaskBound(s: Sigset, k: nat)
    requires k <= SIGNALS
    ensures Mask(s, k) < Power(SIGNALS - k)
    decreases SIGNALS - k
  {
    if k < SIGNALS {
      MaskBound(s, k + 1);
    }
  }

  lemma {:induction false} PowerIs32()
    ensures Power(32) == WORD
  {
    assert Power(8) == 256;
    assert Power(16) == 65536;
    assert Power(24) == 16777216;
  }

  /** A mask word names the same signals. */
  lemma {:induction false} MaskReads(s: Sigset, k: nat, x: nat)
    requires k <= SIGNALS
    ensures x in FromMask(Mask(s, k), k) <==> k <= x < SIGNALS && x in s
    decreases SIGNALS - k
  {
    if k < SIGNALS {
      MaskReads(s, k + 1, x);
      var v := Mask(s, k);
      assert v / 2 == Mask(s, k + 1);
    }
  }

  /** Bit x of the mask word is set exactly when the set holds signal x. */
  lemma {:induction false} MaskBit(s: Sigset, k: nat, x: nat)
    requires k <= x < SIGNALS
    ensures Power(x - k) > 0 && (Mask(s, k) / Power(x - k) % 2 == 1 <==> x in s)
    decreases x - k
  {
    var v := Mask(s, k);
    assert v / 2 == Mask(s, k + 1);
    if x == k {
      assert v / 1 == v;
    } else {
      MaskBit(s, k + 1, x);
      Halved(v, Power(x - k - 1));
    }
  }

  /** The set of a mask word holds exactly the signals whose bits are set. */
  lemma {:induction false} FromMaskBit(v: nat, k: nat, x: nat)
    requires k <= SIGNALS
    ensures k <= x < SIGNALS ==> Power(x - k) > 0 && (x in FromMask(v, k) <==> v / Power(x - k) % 2 == 1)
    ensures !(k <= x < SIGNALS) ==> x !in FromMask(v, k)
    decreases SIGNALS - k
  {
    if k < SIGNALS {
      FromMaskBit(v / 2, k + 1, x);
      if k < x < SIGNALS {
        Halved(v, Power(x - k - 1));
      } else if x == k {
        assert v / 1 == v;
      }
    }
  }

  lemma {:induction false} Halved(v: nat, p: nat)
    requires p > 0
    ensures v / 2 / p == v / (2 * p)
  {
    var q := v / (2 * p);
    var r := v - 2 * p * q;
    assert 2 * p * q == 2 * (p * q);
    assert v / 2 == p * q + r / 2;
    assert r / 2 < p;
    Quotient(v / 2, p, q, r / 2);
  }

  lemma {:induction false} Quotient(a: nat, p: nat, q: nat, r: nat)
    requires a == p * q + r && r < p
    ensures a / p == q
  {
    var d := a / p;
    assert a == p * d + a % p;
    assert p * (q - d) == p * q - p * d;
    Between(p, q - d);
  }

  lemma {:induction false} Between(p: nat, x: int)
    requires 0 - p < p * x < p
    ensures x == 0
  {
    assert x >= 1 ==> p * x >= p;
    assert x <= -1 ==> p * x <= 0 - p;
  }

  predicate ValidSet(s: Sigset)
  {
    forall x :: x in s ==> x < SIGNALS
  }

  lemma {:induction false} MaskRoundTrip(s: Sigset)
    requires ValidSet(s)
    ensures Mask(s, 0) < WORD && FromMask(Mask(s, 0), 0) == s
  {
    MaskBound(s, 0);
    PowerIs32();
    forall x: nat ensures x in FromMask(Mask(s, 0), 0) <==> x in s {
      MaskReads(s, 0, x);
    }
  }

  /** The lowest signal of a set from k on, or 32. */
  function Lowest(s: Sigset, k: nat): (r: nat)
    ensures k <= r
    ensures r < SIGNALS ==> r in s
    ensures forall x :: k <= x < r && x < SIGNALS ==> x !in s
    decreases SIGNALS - k
  {
    if k >= SIGNALS || k in s then k else Lowest(s, k + 1)
  }

  // ---------- frames in memory ----------

  /** Consecutive words. */
  ghost predicate WordsAt(m: seq<Byte>, a: nat, ws: seq<nat>)
  {
    a + 4 * |ws| <= |m| && forall k: nat {:trigger ws[k]} :: k < |ws| ==> Get32(m, a + 4 * k) == ws[k]
  }

  predicate AllWords(ws: seq<nat>)
  {
    forall k :: 0 <= k < |ws| ==> ws[k] < WORD
  }

  function PutWords(m: seq<Byte>, a: nat, ws: seq<nat>): (r: seq<Byte>)
    requires a + 4 * |ws| <= |m| && AllWords(ws)
    ensures |r| == |m|
    decreases |ws|
  {
    if ws == [] then m else PutWords(Put32(m, a, ws[0]), a + 4, ws[1..])
  }

  lemma {:induction false} PutWordsRead(m: seq<Byte>, a: nat, ws: seq<nat>)
    requires a + 4 * |ws| <= |m| && AllWords(ws)
    ensures var m' := PutWords(m, a, ws);
            Only(m, m', a, a + 4 * |ws|) && WordsAt(m', a, ws)
    decreases |ws|
  {
    hide Get32, Put32;
    if ws != [] {
      var m1 := Put32(m, a, ws[0]);
      PutGet(m, a, ws[0]);
      PutWordsRead(m1, a + 4, ws[1..]);
      var m2 := PutWords(m1, a + 4, ws[1..]);
      GetKept(m1, m2, a + 4, a + 4 * |ws|, a);
      OnlyTrans(m, m1, m2, a, a + 4, a + 4, a + 4 * |ws|, a, a + 4 * |ws|);
      WordsMore(m2, a, ws);
    }
  }

  lemma {:induction false} WordsMore(m: seq<Byte>, a: nat, ws: seq<nat>)
    requires ws != [] && a + 4 <= |m| && Get32(m, a) == ws[0] && WordsAt(m, a + 4, ws[1..])
    ensures WordsAt(m, a, ws)
  {
    hide Get32;
    var rest := ws[1..];
    forall k: nat | k < |ws| ensures Get32(m, a + 4 * k) == ws[k] {
      if k > 0 {
        assert rest[k - 1] == ws[k] && a + 4 + 4 * (k - 1) == a + 4 * k;
      }
    }
  }

  lemma {:induction false} WordsKept(m: seq<Byte>, m': seq<Byte>, lo: nat, hi: nat, a: nat, ws: seq<nat>)
    requires WordsAt(m, a, ws) && Only(m, m', lo, hi) && (a + 4 * |ws| <= lo || hi <= a)
    ensures WordsAt(m', a, ws)
  {
    hide Get32;
    forall k: nat | k < |ws| ensures Get32(m', a + 4 * k) == ws[k] {
      assert Get32(m, a + 4 * k) == ws[k];
      GetKept(m, m', lo, hi, a + 4 * k);
    }
  }

  /** Read back as many words. */
  function GetWords(m: seq<Byte>, a: nat, n: nat): seq<nat>
    requires a + 4 * n <= |m|
    decreases n
  {
    if n == 0 then [] else GetWords(m, a, n - 1) + [Get32(m, a + 4 * (n - 1))]
  }

  lemma {:induction false} GetWordsAt(m: seq<Byte>, a: nat, n: nat, k: nat)
    requires a + 4 * n <= |m| && k < n
    ensures |GetWords(m, a, n)| == n && GetWords(m, a, n)[k] == Get32(m, a + 4 * k)
    decreases n
  {
    if n > 1 {
      GetWordsAt(m, a, n - 1, if k < n - 1 then k else 0);
    }
  }

  lemma {:induction false} GetWordsIs(m: seq<Byte>, a: nat, ws: seq<nat>)
    requires WordsAt(m, a, ws)
    ensures GetWords(m, a, |ws|) == ws
  {
    hide Get32;
    if ws != [] {
      GetWordsAt(m, a, |ws|, 0);
      var r := GetWords(m, a, |ws|);
      forall k: nat | k < |ws| ensures r[k] == ws[k] {
        GetWordsAt(m, a, |ws|, k);
      }
    }
  }

  /** mov eax, 0x52; int 0x80; nop */
  function Trampoline(): seq<Byte>
  {
    [0xb8, 0x52, 0, 0, 0, 0xcd, 0x80, 0x90]
  }

  /** The frame of a delivery: return address, signal, registers and mask, trampoline. */
  function PutFrame(m: seq<Byte>, base: nat, sig: nat, saved: seq<nat>): (r: seq<Byte>)
    requires base + FRAME_BYTES <= |m| <= WORD && sig < WORD && |saved| == REGISTERS + 1 && AllWords(saved)
    ensures |r| == |m|
  {
    var m1 := m[..base + TRAMPOLINE] + Trampoline() + m[base + FRAME_BYTES..];
    PutWords(m1, base, [base + TRAMPOLINE, sig] + saved)
  }

  lemma {:induction false} PutFrameIs(m: seq<Byte>, base: nat, sig: nat, saved: seq<nat>)
    requires base + FRAME_BYTES <= |m| <= WORD && sig < WORD && |saved| == REGISTERS + 1 && AllWords(saved)
    ensures var m' := PutFrame(m, base, sig, saved);
            && Only(m, m', base, base + FRAME_BYTES)
            && WordsAt(m', base + CONTEXT, saved)
            && Get32(m', base) == base + TRAMPOLINE && Get32(m', base + 4) == sig
            && m'[base + TRAMPOLINE..base + FRAME_BYTES] == Trampoline()
  {
    hide Get32;
    var m1 := m[..base + TRAMPOLINE] + Trampoline() + m[base + FRAME_BYTES..];
    var ws := [base + TRAMPOLINE, sig] + saved;
    PutWordsRead(m1, base, ws);
    var m' := PutWords(m1, base, ws);
    hide PutWords;
    assert Only(m, m1, base, base + FRAME_BYTES);
    OnlyTrans(m, m1, m', base, base + FRAME_BYTES, base, base + TRAMPOLINE, base, base + FRAME_BYTES);
    assert m1[base + TRAMPOLINE..base + FRAME_BYTES] == Trampoline();
    assert m'[base + TRAMPOLINE..base + FRAME_BYTES] == m1[base + TRAMPOLINE..base + FRAME_BYTES];
    SavedWords(m', base, ws, saved);
  }

  lemma {:induction false} SavedWords(m: seq<Byte>, base: nat, ws: seq<nat>, saved: seq<nat>)
    requires WordsAt(m, base, ws) && |ws| == |saved| + 2 && ws[2..] == saved
    ensures WordsAt(m, base + CONTEXT, saved) && Get32(m, base) == ws[0] && Get32(m, base + 4) == ws[1]
  {
    hide Get32;
    assert Get32(m, base + 4 * 0) == ws[0];
    assert Get32(m, base + 4 * 1) == ws[1];
    forall k: nat | k < |saved| ensures Get32(m, base + CONTEXT + 4 * k) == saved[k] {
      assert ws[2..][k] == ws[k + 2];
      assert base + CONTEXT + 4 * k == base + 4 * (k + 2);
    }
  }
}
