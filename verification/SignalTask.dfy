/**
 * The code of signal delivery and return (kernel/kernel/task/sighandler.c): a frame is written to user memory field by
 * field and read back the same way.
 */
module SignalTask {
  import opened Bytes
  import opened SignalFrames
  import opened SignalRuns

  /** Appending a word to those written so far. */
  lemma {:induction false} PutOneMore(m: seq<Byte>, a: nat, ws: seq<nat>, k: nat)
    requires k < |ws| && a + 4 * |ws| <= |m| && AllWords(ws)
    ensures AllWords(ws[..k]) && AllWords(ws[..k + 1])
    ensures PutWords(m, a, ws[..k + 1]) == Put32(PutWords(m, a, ws[..k]), a + 4 * k, ws[k])
    decreases k
  {
    hide Put32;
    assert AllWords(ws[..k]) && AllWords(ws[..k + 1]);
    if k > 0 {
      PutOneMore(Put32(m, a, ws[0]), a + 4, ws[1..], k - 1);
      assert ws[..k][1..] == ws[1..][..k - 1];
      assert ws[..k + 1][1..] == ws[1..][..k];
    } else {
      assert ws[..1] == [ws[0]] && ws[..1][1..] == [];
    }
  }

  class Task {
    const mem: array<Byte>
    const regs: array<nat>
    var pending: Sigset
    var blocked: Sigset
    var handlers: seq<Action>
    var exited: bool

    ghost function Abs(): Cpu
      reads this, mem, regs
    {
      Cpu(mem[..], regs[..], pending, blocked, handlers)
    }

    method Exit()
      modifies this`exited
      ensures exited
    {
      exited := true;
    }

    method ResetHandler(sig: nat)
      requires sig < |handlers|
      modifies this`handlers
      ensures handlers == old(handlers)[sig := Reset(old(handlers)[sig])]
    {
      handlers := handlers[sig := handlers[sig].(handler := SIG_DFL, nodefer := false, resethand := false)];
    }

    /** Store a 32-bit word. */
    method Store32(a: nat, v: nat)
      requires a + 4 <= mem.Length && v < WORD
      modifies mem
      ensures mem[..] == Put32(old(mem[..]), a, v)
    {
      mem[a] := v % 0x100;
      mem[a + 1] := v / 0x100 % 0x100;
      mem[a + 2] := v / 0x1_0000 % 0x100;
      mem[a + 3] := v / 0x100_0000;
      assert mem[..] == Put32(old(mem[..]), a, v);
    }

    /** Load a 32-bit word. */
    method Load32(a: nat) returns (v: nat)
      requires a + 4 <= mem.Length
      ensures v == Get32(mem[..], a) && v < WORD
    {
      v := mem[a] as int + 0x100 * (mem[a + 1] as int) + 0x1_0000 * (mem[a + 2] as int)
           + 0x100_0000 * (mem[a + 3] as int);
    }

    /** The code a handler returns to. */
    method WriteTrampoline(base: nat)
      requires base + FRAME_BYTES <= mem.Length
      modifies mem
      ensures mem[..] == old(mem[..base + TRAMPOLINE]) + Trampoline() + old(mem[base + FRAME_BYTES..])
    {
      var t := base + TRAMPOLINE;
      mem[t] := 0xb8;
      mem[t + 1] := 0x52;
      mem[t + 2] := 0x00;
      mem[t + 3] := 0x00;
      mem[t + 4] := 0x00;
      mem[t + 5] := 0xcd;
      mem[t + 6] := 0x80;
      mem[t + 7] := 0x90;
      Pieces(old(mem[..]), mem[..], t, Trampoline());
    }

    /** Field k of the frame, when those before it are written. */
    method WriteField(base: nat, k: nat, v: nat, ghost m: seq<Byte>, ghost ws: seq<nat>)
      requires k < |ws| && base + 4 * |ws| <= |m| == mem.Length && AllWords(ws) && v == ws[k] && AllWords(ws[..k])
      requires mem[..] == PutWords(m, base, ws[..k])
      modifies mem
      ensures AllWords(ws[..k + 1]) && mem[..] == PutWords(m, base, ws[..k + 1])
    {
      hide PutWords, Put32;
      PutOneMore(m, base, ws, k);
      Store32(base + 4 * k, v);
    }

    /** The whole frame: trampoline, return address, signal, registers and mask. */
    method WriteFrame(base: nat, sig: nat, mask: nat)
      requires base + FRAME_BYTES <= mem.Length <= WORD && regs.Length == REGISTERS && sig < WORD && mask < WORD
      requires AllWords(regs[..])
      modifies mem
      ensures mem[..] == PutFrame(old(mem[..]), base, sig, regs[..] + [mask])
    {
      hide PutWords;
      WriteTrampoline(base);
      ghost var m := mem[..];
      ghost var ws := [base + TRAMPOLINE, sig] + (regs[..] + [mask]);
      NoWords(m, base, ws);
      WriteField(base, 0, base + TRAMPOLINE, m, ws);
      WriteField(base, 1, sig, m, ws);
      WriteField(base, 2, regs[0], m, ws);
      WriteField(base, 3, regs[1], m, ws);
      WriteField(base, 4, regs[2], m, ws);
      WriteField(base, 5, regs[3], m, ws);
      WriteField(base, 6, regs[4], m, ws);
      WriteField(base, 7, regs[5], m, ws);
      WriteField(base, 8, regs[6], m, ws);
      WriteField(base, 9, regs[EIP], m, ws);
      WriteField(base, 10, regs[CS], m, ws);
      WriteField(base, 11, regs[9], m, ws);
      WriteField(base, 12, regs[ESP], m, ws);
      WriteField(base, 13, regs[SS], m, ws);
      WriteField(base, 14, mask, m, ws);
      assert ws[..15] == ws;
    }

    /** Deliver at most one pending signal on the way back to user mode. */
    method DispatchPending() returns (d: Delivery)
      requires ValidCpu(Abs()) && USER_START <= regs[ESP] <= USER_END
      modifies this, mem, regs
      ensures (Abs(), d) == Dispatch(old(Abs())) && exited == (old(exited) || d.Killed?)
    {
      hide PutFrame, Mask;
      var deliverable := pending - blocked;
      var sig := Lowest(deliverable, 0);
      if sig >= SIGNALS {
        return Nothing;
      }
      pending := pending - {sig};
      var a := handlers[sig];
      if a.handler == SIG_IGN {
        return Ignored(sig);
      }
      if a.handler == SIG_DFL {
        if Terminates(sig) {
          Exit();
          return Killed(sig);
        }
        return Ignored(sig);
      }
      var base := FrameBase(regs[ESP]);
      if !InUserSpace(base) {
        Exit();
        return Killed(SIGSEGV);
      }
      BaseBelow(regs[ESP]);
      MaskRoundTrip(blocked);
      WriteFrame(base, sig, Mask(blocked, 0));
      if !a.nodefer {
        blocked := blocked + {sig};
      }
      blocked := blocked + a.mask;
      assert blocked == BlockedIn(a, sig, old(blocked));
      if a.resethand {
        ResetHandler(sig);
      }
      regs[EIP] := handlers[sig].handler;
      regs[ESP] := base;
      assert regs[..] == old(regs[..])[EIP := handlers[sig].handler][ESP := base];
      d := Delivered(sig, base);
    }

    /** Register k from the frame at base. */
    method RestoreRegister(base: nat, k: nat)
      requires base + FRAME_BYTES <= mem.Length && k < REGISTERS == regs.Length
      modifies regs
      ensures regs[..] == old(regs[..])[k := Get32(mem[..], base + CONTEXT + 4 * k)]
    {
      hide Get32;
      var v := Load32(base + CONTEXT + 4 * k);
      regs[k] := v;
      assert regs[..] == old(regs[..])[k := v];
    }

    /** Every register of the frame but CS and SS. */
    method RestoreRegisters(base: nat)
      requires base + FRAME_BYTES <= mem.Length && REGISTERS == regs.Length
      modifies regs
      ensures regs[..] == RestoredFrom(GetWords(mem[..], base + CONTEXT, REGISTERS + 1), old(regs[..]))
    {
      hide Get32, GetWords;
      RestoreRegister(base, 1);
      RestoreRegister(base, 2);
      RestoreRegister(base, 3);
      RestoreRegister(base, 4);
      RestoreRegister(base, 5);
      RestoreRegister(base, 6);
      RestoreRegister(base, EIP);
      RestoreRegister(base, 9);
      RestoreRegister(base, ESP);
      RestoreRegister(base, EAX);
      forall k: nat | k <= REGISTERS
        ensures |GetWords(mem[..], base + CONTEXT, REGISTERS + 1)| == REGISTERS + 1
        ensures GetWords(mem[..], base + CONTEXT, REGISTERS + 1)[k] == Get32(mem[..], base + CONTEXT + 4 * k)
      {
        GetWordsAt(mem[..], base + CONTEXT, REGISTERS + 1, k);
      }
      assert regs[..] == RestoredFrom(GetWords(mem[..], base + CONTEXT, REGISTERS + 1), old(regs[..]));
    }

    /** Return from a handler. */
    method Return() returns (ok: bool)
      requires ValidCpu(Abs())
      modifies this, regs
      ensures (ok, Abs()) == Sigreturn(old(Abs())) && exited == (old(exited) || !ok)
    {
      hide Get32, FromMask, GetWords;
      var base := (regs[ESP] + WORD - 4) % WORD;
      if !InUserSpace(base) || base + FRAME_BYTES > mem.Length {
        Exit();
        return false;
      }
      GetWordsAt(mem[..], base + CONTEXT, REGISTERS + 1, REGISTERS);
      RestoreRegisters(base);
      var saved := Load32(base + CONTEXT + 4 * REGISTERS);
      blocked := FromMask(saved, 0);
      return true;
    }
  }

  /** The saved registers, with CS and SS as they are. */
  function RestoredFrom(ws: seq<nat>, regs: seq<nat>): seq<nat>
  {
    if |ws| == REGISTERS + 1 && |regs| == REGISTERS then ws[..REGISTERS][CS := regs[CS]][SS := regs[SS]] else regs
  }

  lemma {:induction false} Pieces(m: seq<Byte>, m': seq<Byte>, t: nat, code: seq<Byte>)
    requires |m'| == |m| && t + |code| <= |m|
    requires forall k :: 0 <= k < |code| ==> m'[t + k] == code[k]
    requires forall k :: 0 <= k < |m| && !(t <= k < t + |code|) ==> m'[k] == m[k]
    ensures m' == m[..t] + code + m[t + |code|..]
  {
    forall k | t <= k < t + |code| ensures m'[k] == code[k - t] {
      assert m'[t + (k - t)] == code[k - t];
    }
  }

  lemma {:induction false} NoWords(m: seq<Byte>, a: nat, ws: seq<nat>)
    requires a + 4 * |ws| <= |m|
    ensures AllWords(ws[..0]) && PutWords(m, a, ws[..0]) == m
  {
  }
}
