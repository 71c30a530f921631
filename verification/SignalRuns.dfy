/**
 * Signal delivery and return (kernel/kernel/task/sighandler.c) over whole runs: frames of nested deliveries form a
 * stack, and every return restores the state its delivery interrupted.
 */
module SignalRuns {
  import opened Bytes
  import opened SignalFrames

  /** What the kernel knows of a task: its user memory, its saved registers, and its signal state. */
  datatype Cpu = Cpu(mem: seq<Byte>, regs: seq<nat>, pending: Sigset, blocked: Sigset, handlers: seq<Action>)

  datatype Delivery = Nothing | Ignored(sig: nat) | Delivered(sig: nat, base: nat) | Killed(sig: nat)

  ghost predicate ValidCpu(c: Cpu)
  {
    && USER_END <= |c.mem| <= WORD && |c.regs| == REGISTERS && AllWords(c.regs)
    && ValidSet(c.pending) && ValidSet(c.blocked) && |c.handlers| == SIGNALS
    && forall k :: 0 <= k < SIGNALS ==> ValidSet(c.handlers[k].mask) && c.handlers[k].handler < WORD
  }

  /** Signals whose default action ends the process. */
  predicate Terminates(sig: nat)
  {
    sig !in {0, 17, 18, 23, 28}
  }

  /** Where the next frame goes: below the stack pointer, 16-byte aligned, in 32-bit arithmetic. */
  function FrameBase(esp: nat): nat
  {
    var top := (esp + WORD - FRAME_BYTES) % WORD;
    top - top % 16
  }

  predicate InUserSpace(base: nat)
  {
    !(base < USER_START || (base + FRAME_BYTES) % WORD > USER_END)
  }

  function Saved(c: Cpu): seq<nat>
  {
    c.regs + [Mask(c.blocked, 0)]
  }

  lemma {:induction false} SavedIsWords(c: Cpu)
    requires ValidCpu(c)
    ensures |Saved(c)| == REGISTERS + 1 && AllWords(Saved(c))
  {
    hide Mask;
    MaskRoundTrip(c.blocked);
  }

  /** The blocked mask while a handler runs. */
  function BlockedIn(a: Action, sig: nat, blocked: Sigset): Sigset
  {
    blocked + (if a.nodefer then {} else {sig}) + a.mask
  }

  /** The action after a reset: the default, without flags. */
  function Reset(a: Action): Action
  {
    a.(handler := SIG_DFL, nodefer := false, resethand := false)
  }

  /** Deliver at most one pending signal. A user stack pointer outside user space is not modelled. */
  function Dispatch(c: Cpu): (Cpu, Delivery)
    requires ValidCpu(c) && USER_START <= c.regs[ESP] <= USER_END
  {
    var deliverable := c.pending - c.blocked;
    var sig := Lowest(deliverable, 0);
    if sig >= SIGNALS then (c, Nothing)
    else
      var c1 := c.(pending := c.pending - {sig});
      var a := c.handlers[sig];
      if a.handler == SIG_IGN then (c1, Ignored(sig))
      else if a.handler == SIG_DFL then (c1, if Terminates(sig) then Killed(sig) else Ignored(sig))
      else
        var base := FrameBase(c.regs[ESP]);
        if !InUserSpace(base) then (c1, Killed(SIGSEGV))
        else
          SavedIsWords(c);
          var handlers := if a.resethand then c.handlers[sig := Reset(a)] else c.handlers;
          (Cpu(PutFrame(c.mem, base, sig, Saved(c)),
               c.regs[EIP := handlers[sig].handler][ESP := base],
               c1.pending, BlockedIn(a, sig, c.blocked), handlers),
           Delivered(sig, base))
  }

  /** Restore what the frame below the stack pointer holds; CS and SS stay. The process is ended when the frame is
      not in user space. */
  function Sigreturn(c: Cpu): (r: (bool, Cpu))
    requires ValidCpu(c)
  {
    var base := (c.regs[ESP] + WORD - 4) % WORD;
    if !InUserSpace(base) || base + FRAME_BYTES > |c.mem| then (false, c)
    else
      var ws := GetWords(c.mem, base + CONTEXT, REGISTERS + 1);
      GetWordsAt(c.mem, base + CONTEXT, REGISTERS + 1, 0);
      (true, c.(regs := ws[..REGISTERS][CS := c.regs[CS]][SS := c.regs[SS]], blocked := FromMask(ws[REGISTERS], 0)))
  }

  /** The frame a return reads: four bytes below the stack pointer, in 32-bit arithmetic. */
  ghost function ReturnBase(c: Cpu): nat
    requires ValidCpu(c)
  {
    if c.regs[10] >= 4 then c.regs[10] - 4 else c.regs[10] + 0xffff_fffc
  }

  /** A return succeeds exactly when the 68 bytes of its frame lie in user space, or are the very last of the address
      space, where the 32-bit sum that the check takes is 0. A failed one changes nothing. */
  lemma {:induction false} ReturnOkIff(c: Cpu)
    requires ValidCpu(c)
    ensures var base := ReturnBase(c);
            Sigreturn(c).0 <==>
            || (0x40_0000 <= base && base + 68 <= 0x4000_0000)
            || (base + 68 == 0x1_0000_0000 && |c.mem| == 0x1_0000_0000)
    ensures !Sigreturn(c).0 ==> Sigreturn(c).1 == c
    ensures Sigreturn(c).0 ==> ReturnBase(c) + 68 <= |c.mem|
  {
    assert (c.regs[ESP] + WORD - 4) % WORD == ReturnBase(c);
  }

  /** It takes every register but the two segments from the words of the frame, and the mask bit by bit. */
  lemma {:induction false} ReturnReads(c: Cpu)
    requires ValidCpu(c) && Sigreturn(c).0
    ensures var c' := Sigreturn(c).1;
            var base := ReturnBase(c);
            && c' == c.(regs := c'.regs, blocked := c'.blocked) && |c'.regs| == 12 && base + 68 <= |c.mem|
            && (forall k :: 0 <= k < 12 && k != 8 && k != 11 ==> c'.regs[k] == Get32(c.mem, base + 8 + 4 * k))
            && c'.regs[8] == c.regs[8] && c'.regs[11] == c.regs[11]
            && (forall x: nat ::
                  x in c'.blocked <==> x < 32 && Power(x) > 0 && Get32(c.mem, base + 56) / Power(x) % 2 == 1)
  {
    hide Get32, Power, FromMask, GetWords, InUserSpace;
    ReturnOkIff(c);
    var base := ReturnBase(c);
    assert (c.regs[ESP] + WORD - 4) % WORD == base;
    var ws := GetWords(c.mem, base + CONTEXT, REGISTERS + 1);
    forall k: nat | k <= REGISTERS ensures |ws| == REGISTERS + 1 && ws[k] == Get32(c.mem, base + 8 + 4 * k) {
      GetWordsAt(c.mem, base + CONTEXT, REGISTERS + 1, k);
    }
    assert ws[REGISTERS] == Get32(c.mem, base + 56);
    forall x: nat
      ensures x in FromMask(ws[REGISTERS], 0) <==> x < 32 && Power(x) > 0 && ws[REGISTERS] / Power(x) % 2 == 1
    {
      FromMaskBit(ws[REGISTERS], 0, x);
    }
  }

  // ---------- the stack of live frames ----------

  /** A live frame: where it is and what it saves. */
  datatype Live = Live(base: nat, regs: seq<nat>, blocked: Sigset)

  ghost predicate LiveOk(c: Cpu, f: Live)
  {
    && USER_START <= f.base && f.base + FRAME_BYTES <= USER_END
    && |f.regs| == |c.regs| == REGISTERS && ValidSet(f.blocked)
    && WordsAt(c.mem, f.base + CONTEXT, f.regs + [Mask(f.blocked, 0)])
    && f.regs[CS] == c.regs[CS] && f.regs[SS] == c.regs[SS]
  }

  ghost predicate Above(frames: seq<Live>, j: nat, k: nat)
  {
    j < k < |frames| ==> frames[k].base + FRAME_BYTES <= frames[j].base
  }

  /** Later frames lie wholly below earlier ones, and each still holds what it saved. */
  ghost predicate Inv(c: Cpu, frames: seq<Live>)
  {
    && ValidCpu(c)
    && (forall k :: 0 <= k < |frames| ==> LiveOk(c, frames[k]))
    && (forall j: nat, k: nat :: Above(frames, j, k))
  }

  lemma {:induction false} FramesDisjoint(c: Cpu, frames: seq<Live>, j: nat, k: nat)
    requires Inv(c, frames) && j < |frames| && k < |frames| && j != k
    ensures frames[j].base + FRAME_BYTES <= frames[k].base || frames[k].base + FRAME_BYTES <= frames[j].base
  {
    assert Above(frames, j, k) && Above(frames, k, j);
  }

  // ---------- steps ----------

  /** User code runs and leaves some other state; signals are posted; a signal is dispatched; a handler
      has returned to its trampoline. */
  datatype Event = User(after: Cpu) | Deliver | Return

  /** Memory of the live frames is as it was. */
  ghost predicate FramesIntact(m: seq<Byte>, m': seq<Byte>, frames: seq<Live>)
  {
    && |m'| == |m|
    && forall k, a {:trigger frames[k], m'[a]} ::
         0 <= k < |frames| && frames[k].base <= a < frames[k].base + FRAME_BYTES && 0 <= a < |m| ==> m'[a] == m[a]
  }

  ghost predicate Legal(c: Cpu, frames: seq<Live>, e: Event)
  {
    match e
    case User(c') =>
      && ValidCpu(c) && ValidCpu(c') && FramesIntact(c.mem, c'.mem, frames)
      && c'.regs[CS] == c.regs[CS] && c'.regs[SS] == c.regs[SS]
    case Deliver =>
      && ValidCpu(c) && USER_START <= c.regs[ESP] <= USER_END && !Dispatch(c).1.Killed?
      && (frames != [] ==> c.regs[ESP] <= frames[|frames| - 1].base)
    case Return =>
      ValidCpu(c) && frames != [] && c.regs[ESP] == frames[|frames| - 1].base + 4
  }

  ghost function Step(c: Cpu, frames: seq<Live>, e: Event): (Cpu, seq<Live>)
    requires Legal(c, frames, e)
  {
    match e
    case User(c') => (c', frames)
    case Deliver =>
      var (c', d) := Dispatch(c);
      (c', if d.Delivered? then frames + [Live(d.base, c.regs, c.blocked)] else frames)
    case Return => (Sigreturn(c).1, frames[..|frames| - 1])
  }

  /** The signal a dispatch has to take: pending, not blocked, and the lowest such. */
  ghost predicate Next(c: Cpu, sig: nat)
  {
    sig in c.pending && sig !in c.blocked && forall x :: x in c.pending && x < sig ==> x in c.blocked
  }

  /** The signal is dropped: its action is 1, or 0 with a default that ignores. */
  ghost predicate Dropped(c: Cpu, sig: nat)
    requires sig < |c.handlers|
  {
    var handler := c.handlers[sig].handler;
    handler == 1 || (handler == 0 && sig in {0, 17, 18, 23, 28})
  }

  /** The frame at base: the address of the code at its end, the signal, the registers, the mask bit by bit, and the
      code. */
  ghost predicate FrameHolds(m: seq<Byte>, base: nat, sig: nat, regs: seq<nat>, blocked: Sigset)
  {
    && base + 68 <= |m| && |regs| == 12
    && Get32(m, base) == base + 60 && Get32(m, base + 4) == sig
    && (forall k :: 0 <= k < 12 ==> Get32(m, base + 8 + 4 * k) == regs[k])
    && (forall x: nat :: x < 32 ==>
          Power(x) > 0 && (Get32(m, base + 56) / Power(x) % 2 == 1 <==> x in blocked))
    && m[base + 60..base + 68] == [0xb8, 0x52, 0, 0, 0, 0xcd, 0x80, 0x90]
  }

  /** A handler is entered: the frame lies next below the stack pointer, the handler runs on it with its signal (unless
      deferring is off) and its mask blocked on top of what was blocked, and a reset takes the action back. */
  ghost predicate Entered(c: Cpu, c': Cpu, sig: nat, base: nat)
    requires ValidCpu(c) && sig < SIGNALS
  {
    var a := c.handlers[sig];
    && base % 16 == 0 && base + 68 <= c.regs[10] < base + 84
    && Only(c.mem, c'.mem, base, base + 68) && FrameHolds(c'.mem, base, sig, c.regs, c.blocked)
    && |c'.regs| == 12 && c'.regs[10] == base && c'.regs[7] == (if a.resethand then 0 else a.handler)
    && (forall k :: 0 <= k < 12 && k != 7 && k != 10 ==> c'.regs[k] == c.regs[k])
    && (forall x :: x in c'.blocked <==> x in c.blocked || x in a.mask || (x == sig && !a.nodefer))
    && |c'.handlers| == 32 && (forall k :: 0 <= k < 32 && k != sig ==> c'.handlers[k] == c.handlers[k])
    && c'.handlers[sig] == if a.resethand then Action(0, a.mask, false, false) else a
  }

  /** A dispatch takes the lowest signal that is pending and not blocked, if there is one. That signal is dropped, ends
      the process, or enters its handler; there is no room for a frame exactly below 68 bytes of user stack. */
  lemma {:induction false} DispatchSelects(c: Cpu)
    requires ValidCpu(c) && USER_START <= c.regs[ESP] <= USER_END
    ensures var (c', d) := Dispatch(c);
            && (d.Nothing? <==> c.pending <= c.blocked)
            && (d.Nothing? ==> c' == c)
            && (!d.Nothing? ==> exists sig: nat :: Next(c, sig))
            && (!d.Delivered? && !d.Nothing? ==> c'.(pending := c.pending) == c)
            && (forall sig: nat :: Next(c, sig) ==>
                  && sig < SIGNALS && c'.pending == c.pending - {sig}
                  && (d == Ignored(sig) <==> Dropped(c, sig))
                  && (c.handlers[sig].handler == 0 && !Dropped(c, sig) ==> d == Killed(sig))
                  && (c.handlers[sig].handler > 1 && c.regs[10] < 0x40_0000 + 68 ==> d == Killed(11))
                  && (c.handlers[sig].handler > 1 && c.regs[10] >= 0x40_0000 + 68 ==>
                        d.Delivered? && d.sig == sig && Entered(c, c', sig, d.base)))
            && (d.Ignored? || d.Delivered? ==> Next(c, d.sig))
            && (d.Delivered? ==>
                  && d.sig < |c.handlers| && |c'.regs| == REGISTERS
                  && (c'.regs[EIP] == c.handlers[d.sig].handler <==> !c.handlers[d.sig].resethand)
                  && (c'.regs[EIP] == 0 <==> c.handlers[d.sig].resethand))
  {
    hide PutFrame, Mask, FrameHolds, Only, Dispatch;
    var sig := Lowest(c.pending - c.blocked, 0);
    if sig < SIGNALS {
      assert sig in c.pending - c.blocked;
      forall x | x in c.pending && x < sig ensures x in c.blocked {
        assert x !in c.pending - c.blocked;
      }
      assert Next(c, sig);
      forall other | Next(c, other) ensures other == sig {
        NextOnce(c, sig, other);
      }
      DispatchFate(c, sig);
    } else {
      NothingTaken(c);
    }
  }

  lemma {:induction false} NextOnce(c: Cpu, a: nat, b: nat)
    requires Next(c, a) && Next(c, b)
    ensures a == b
  {
  }

  lemma {:induction false} NothingTaken(c: Cpu)
    requires ValidCpu(c) && USER_START <= c.regs[ESP] <= USER_END && Lowest(c.pending - c.blocked, 0) >= SIGNALS
    ensures Dispatch(c) == (c, Nothing) && c.pending <= c.blocked && forall sig: nat :: !Next(c, sig)
  {
    hide PutFrame, Mask;
    forall x | x in c.pending ensures x in c.blocked {
      assert x < SIGNALS;
      assert x !in c.pending - c.blocked;
    }
  }

  lemma {:induction false} DispatchFate(c: Cpu, sig: nat)
    requires ValidCpu(c) && USER_START <= c.regs[ESP] <= USER_END
    requires sig == Lowest(c.pending - c.blocked, 0) && sig < SIGNALS && Next(c, sig)
    ensures var (c', d) := Dispatch(c);
            && !d.Nothing? && c'.pending == c.pending - {sig}
            && (!d.Delivered? ==> c'.(pending := c.pending) == c)
            && (d == Ignored(sig) <==> Dropped(c, sig))
            && (c.handlers[sig].handler == 0 && !Dropped(c, sig) ==> d == Killed(sig))
            && (c.handlers[sig].handler > 1 && c.regs[10] < 0x40_0000 + 68 ==> d == Killed(11))
            && (c.handlers[sig].handler > 1 && c.regs[10] >= 0x40_0000 + 68 ==>
                  d.Delivered? && d.sig == sig && Entered(c, c', sig, d.base))
  {
    hide PutFrame, Mask, FrameHolds, Only, Entered;
    BaseBelow(c.regs[ESP]);
    BaseRoom(c.regs[ESP]);
    if c.handlers[sig].handler > 1 && InUserSpace(FrameBase(c.regs[ESP])) {
      EnteredBy(c, sig);
    }
  }

  lemma {:induction false} BaseRoom(esp: nat)
    requires USER_START <= esp <= USER_END
    ensures InUserSpace(FrameBase(esp)) <==> esp >= 0x40_0000 + 68
    ensures esp >= 0x40_0000 + 68 ==> esp < FrameBase(esp) + 84
  {
    assert esp + WORD - FRAME_BYTES == (esp - FRAME_BYTES) + 1 * WORD;
  }

  lemma {:induction false} EnteredBy(c: Cpu, sig: nat)
    requires ValidCpu(c) && USER_START <= c.regs[ESP] <= USER_END
    requires sig == Lowest(c.pending - c.blocked, 0) && sig < SIGNALS
    requires c.handlers[sig].handler > 1 && InUserSpace(FrameBase(c.regs[ESP]))
    ensures Entered(c, Dispatch(c).0, sig, FrameBase(c.regs[ESP]))
  {
    hide PutFrame, Mask, FrameHolds, Only;
    var base := FrameBase(c.regs[ESP]);
    BaseBelow(c.regs[ESP]);
    BaseRoom(c.regs[ESP]);
    SavedIsWords(c);
    FrameWritten(c, base, sig);
  }

  lemma {:induction false} FrameWritten(c: Cpu, base: nat, sig: nat)
    requires ValidCpu(c) && base + FRAME_BYTES <= |c.mem| && sig < SIGNALS && |Saved(c)| == 13 && AllWords(Saved(c))
    ensures var m := PutFrame(c.mem, base, sig, Saved(c));
            Only(c.mem, m, base, base + 68) && FrameHolds(m, base, sig, c.regs, c.blocked)
  {
    hide PutFrame, Mask, Get32, Only, Power;
    var m := PutFrame(c.mem, base, sig, Saved(c));
    PutFrameIs(c.mem, base, sig, Saved(c));
    forall k | 0 <= k < 12 ensures Get32(m, base + 8 + 4 * k) == c.regs[k] {
      assert Saved(c)[k] == c.regs[k];
    }
    assert Saved(c)[12] == Mask(c.blocked, 0);
    forall x: nat | x < 32
      ensures Power(x) > 0 && (Get32(m, base + 56) / Power(x) % 2 == 1 <==> x in c.blocked)
    {
      MaskBit(c.blocked, 0, x);
    }
  }

  /** A task whose only action is a handler at 0x401000 for signal 10 that is to be reset, with that signal pending. */
  function ResetOnce(): Cpu
  {
    var zeros: seq<Byte> := seq(USER_END, _ => 0);
    var regs := [0, 0, 0, 0, 0, 0, 0, 0x40_0000, 0, 0, 0x3fff_ff00, 0];
    var none := Action(SIG_DFL, {}, false, false);
    Cpu(zeros, regs, {10}, {}, seq(SIGNALS, k => if k == 10 then Action(0x40_1000, {}, false, true) else none))
  }

  /** The handler of SA_RESETHAND is never entered: a concrete dispatch goes on at address 0. */
  lemma {:induction false} ResetHandlerLost()
    ensures ValidCpu(ResetOnce()) && USER_START <= ResetOnce().regs[ESP] <= USER_END
    ensures var (c, d) := Dispatch(ResetOnce());
            d.Delivered? && d.sig == 10 && |c.regs| == REGISTERS && c.regs[EIP] == 0
  {
    hide PutFrame, Mask;
    var c := ResetOnce();
    assert c.pending - c.blocked == {10};
    var sig := Lowest({10}, 0);
    assert sig == 10;
    assert FrameBase(0x3fff_ff00) == 0x3fff_feb0;
    DispatchSelects(c);
  }

  lemma {:induction false} BaseBelow(esp: nat)
    requires USER_START <= esp <= USER_END
    ensures FrameBase(esp) + FRAME_BYTES <= esp && FrameBase(esp) + FRAME_BYTES < WORD
    ensures InUserSpace(FrameBase(esp)) ==> USER_START <= FrameBase(esp) && FrameBase(esp) + FRAME_BYTES <= USER_END
    ensures FrameBase(esp) % 16 == 0
  {
    assert esp + WORD - FRAME_BYTES == (esp - FRAME_BYTES) + 1 * WORD;
  }

  // ---------- what each step keeps ----------

  lemma {:induction false} LiveKept(c: Cpu, c': Cpu, lo: nat, hi: nat, f: Live)
    requires LiveOk(c, f) && Only(c.mem, c'.mem, lo, hi) && hi <= f.base && |c.regs| == |c'.regs| == REGISTERS
    requires c'.regs[CS] == c.regs[CS] && c'.regs[SS] == c.regs[SS]
    ensures LiveOk(c', f)
  {
    WordsKept(c.mem, c'.mem, lo, hi, f.base + CONTEXT, f.regs + [Mask(f.blocked, 0)]);
  }

  lemma {:induction false} DeliverKeeps(c: Cpu, frames: seq<Live>)
    requires Inv(c, frames) && Legal(c, frames, Deliver)
    ensures var (c', frames') := Step(c, frames, Deliver);
            Inv(c', frames')
  {
    hide PutFrame, Mask, WordsAt;
    var (c', d) := Dispatch(c);
    if d.Delivered? {
      BaseBelow(c.regs[ESP]);
      SavedIsWords(c);
      PutFrameIs(c.mem, d.base, d.sig, Saved(c));
      DeliveredCpu(c);
      PushLive(c, c', frames, d.base);
    } else {
      SameState(c, c', frames);
    }
  }

  /** A state that differs only in its signal sets. */
  lemma {:induction false} SameState(c: Cpu, c': Cpu, frames: seq<Live>)
    requires Inv(c, frames) && c' == c.(pending := c'.pending) && c'.pending <= c.pending
    ensures Inv(c', frames)
  {
    forall k | 0 <= k < |frames| ensures LiveOk(c', frames[k]) {
      assert LiveOk(c, frames[k]);
    }
  }

  lemma {:induction false} DeliveredCpu(c: Cpu)
    requires ValidCpu(c) && USER_START <= c.regs[ESP] <= USER_END && Dispatch(c).1.Delivered?
    ensures ValidCpu(Dispatch(c).0)
    ensures Dispatch(c).0.regs[CS] == c.regs[CS] && Dispatch(c).0.regs[SS] == c.regs[SS]
  {
    hide PutFrame, Mask;
    BaseBelow(c.regs[ESP]);
  }

  lemma {:induction false} PushLive(c: Cpu, c': Cpu, frames: seq<Live>, base: nat)
    requires Inv(c, frames) && ValidCpu(c') && Only(c.mem, c'.mem, base, base + FRAME_BYTES)
    requires c'.regs[CS] == c.regs[CS] && c'.regs[SS] == c.regs[SS]
    requires frames != [] ==> base + FRAME_BYTES <= frames[|frames| - 1].base
    requires LiveOk(c', Live(base, c.regs, c.blocked))
    ensures Inv(c', frames + [Live(base, c.regs, c.blocked)])
  {
    hide LiveOk, ValidCpu, Only;
    var all := frames + [Live(base, c.regs, c.blocked)];
    forall k | 0 <= k < |all| ensures LiveOk(c', all[k]) {
      if k < |frames| {
        BelowAll(c, frames, base, k);
        assert LiveOk(c, frames[k]);
        SizeOf(c, c');
        LiveKept(c, c', base, base + FRAME_BYTES, frames[k]);
      }
    }
    forall j: nat, k: nat ensures Above(all, j, k) {
      if j < k < |frames| {
        assert Above(frames, j, k);
      } else if j < k == |frames| {
        BelowAll(c, frames, base, j);
      }
    }
  }

  lemma {:induction false} SizeOf(c: Cpu, c': Cpu)
    requires ValidCpu(c) && ValidCpu(c')
    ensures |c.regs| == |c'.regs| == REGISTERS
  {
  }

  lemma {:induction false} BelowAll(c: Cpu, frames: seq<Live>, base: nat, k: nat)
    requires Inv(c, frames) && k < |frames| && base + FRAME_BYTES <= frames[|frames| - 1].base
    ensures base + FRAME_BYTES <= frames[k].base
  {
    assert Above(frames, k, |frames| - 1);
  }

  lemma {:induction false} UserKeeps(c: Cpu, frames: seq<Live>, c': Cpu)
    requires Inv(c, frames) && Legal(c, frames, User(c'))
    ensures Inv(c', frames)
  {
    forall k | 0 <= k < |frames| ensures LiveOk(c', frames[k]) {
      IntactLive(c, c', frames, k);
    }
  }

  lemma {:induction false} IntactLive(c: Cpu, c': Cpu, frames: seq<Live>, k: nat)
    requires Inv(c, frames) && Legal(c, frames, User(c')) && k < |frames|
    ensures LiveOk(c', frames[k])
  {
    hide Mask;
    var f := frames[k];
    assert LiveOk(c, f);
    var ws := f.regs + [Mask(f.blocked, 0)];
    assert |ws| == REGISTERS + 1;
    forall n: nat | n < |ws| ensures Get32(c'.mem, f.base + CONTEXT + 4 * n) == ws[n] {
      assert Get32(c.mem, f.base + CONTEXT + 4 * n) == ws[n];
      var a := f.base + CONTEXT + 4 * n;
      assert forall b :: a <= b < a + 4 ==> c'.mem[b] == c.mem[b];
    }
  }

  /** A return restores the registers and the mask that its delivery saved. */
  lemma {:induction false} ReturnRestores(c: Cpu, frames: seq<Live>)
    requires Inv(c, frames) && Legal(c, frames, Return)
    ensures var f := frames[|frames| - 1];
            var (ok, c') := Sigreturn(c);
            ok && c'.regs == f.regs && c'.blocked == f.blocked && c'.mem == c.mem
            && c'.pending == c.pending && c'.handlers == c.handlers
  {
    hide Mask, FromMask, Get32, GetWords, WordsAt;
    var f := frames[|frames| - 1];
    assert LiveOk(c, f);
    var ws := f.regs + [Mask(f.blocked, 0)];
    GetWordsIs(c.mem, f.base + CONTEXT, ws);
    MaskRoundTrip(f.blocked);
    assert (c.regs[ESP] + WORD - 4) % WORD == f.base;
    assert ws[..REGISTERS] == f.regs;
  }

  lemma {:induction false} ReturnKeeps(c: Cpu, frames: seq<Live>)
    requires Inv(c, frames) && Legal(c, frames, Return)
    ensures var (c', frames') := Step(c, frames, Return);
            Inv(c', frames')
  {
    hide Sigreturn;
    ReturnRestores(c, frames);
    var c' := Sigreturn(c).1;
    var rest := frames[..|frames| - 1];
    var top := frames[|frames| - 1];
    assert LiveOk(c, top);
    TopWords(c, top);
    forall k | 0 <= k < |rest| ensures LiveOk(c', rest[k]) {
      assert LiveOk(c, frames[k]);
    }
    forall j: nat, k: nat ensures Above(rest, j, k) {
      assert Above(frames, j, k);
    }
  }

  lemma {:induction false} TopWords(c: Cpu, f: Live)
    requires LiveOk(c, f)
    ensures AllWords(f.regs)
  {
    var ws := f.regs + [Mask(f.blocked, 0)];
    forall k | 0 <= k < |f.regs| ensures f.regs[k] < WORD {
      assert ws[k] == f.regs[k];
    }
  }

  lemma {:induction false} StepKeeps(c: Cpu, frames: seq<Live>, e: Event)
    requires Inv(c, frames) && Legal(c, frames, e)
    ensures Inv(Step(c, frames, e).0, Step(c, frames, e).1)
  {
    hide Inv, Dispatch, Sigreturn;
    match e
    case User(c') => UserKeeps(c, frames, c');
    case Deliver => DeliverKeeps(c, frames);
    case Return => ReturnKeeps(c, frames);
  }

  // ---------- runs ----------

  /** Every event is legal where it happens and the number of live frames never drops below n. */
  ghost predicate LegalRun(c: Cpu, frames: seq<Live>, es: seq<Event>, n: nat)
    decreases |es|
  {
    |frames| >= n &&
    (es == [] ||
     (Legal(c, frames, es[0]) &&
      var (c', frames') := Step(c, frames, es[0]);
      LegalRun(c', frames', es[1..], n)))
  }

  ghost function Run(c: Cpu, frames: seq<Live>, es: seq<Event>, n: nat): (Cpu, seq<Live>)
    requires LegalRun(c, frames, es, n)
    decreases |es|
  {
    if es == [] then (c, frames) else var (c', frames') := Step(c, frames, es[0]); Run(c', frames', es[1..], n)
  }

  /** A run is its events one after the other. */
  lemma {:induction false} RunOneMore(c: Cpu, frames: seq<Live>, es: seq<Event>, e: Event, n: nat)
    requires LegalRun(c, frames, es, n)
    requires var (c', frames') := Run(c, frames, es, n);
             Legal(c', frames', e) && |Step(c', frames', e).1| >= n
    ensures Run(c, frames, [], n) == (c, frames)
    ensures var (c', frames') := Run(c, frames, es, n);
            LegalRun(c, frames, es + [e], n) && Run(c, frames, es + [e], n) == Step(c', frames', e)
    decreases |es|
  {
    hide Legal, Step;
    var all := es + [e];
    if es == [] {
      assert all[1..] == [];
    } else {
      assert all[1..] == es[1..] + [e];
      var (c1, frames1) := Step(c, frames, es[0]);
      RunOneMore(c1, frames1, es[1..], e, n);
    }
  }

  /** Frames are kept apart and intact over every run, and the n oldest of them are untouched. */
  lemma {:induction false} RunKeeps(c: Cpu, frames: seq<Live>, es: seq<Event>, n: nat)
    requires Inv(c, frames) && LegalRun(c, frames, es, n)
    ensures var (c', frames') := Run(c, frames, es, n);
            Inv(c', frames') && |frames'| >= n && frames'[..n] == frames[..n]
    decreases |es|
  {
    hide Inv, Dispatch, Sigreturn;
    if es != [] {
      var (c1, frames1) := Step(c, frames, es[0]);
      StepKeeps(c, frames, es[0]);
      RunKeeps(c1, frames1, es[1..], n);
      assert |frames1| >= n;
      assert frames1[..n] == frames[..n];
    }
  }

  /** A signal is delivered; then anything happens, with further deliveries and returns nested inside; then the handler
      returns. Registers and mask are again what they were before the delivery. */
  lemma {:induction false} NestedRestores(c: Cpu, frames: seq<Live>, es: seq<Event>)
    requires Inv(c, frames) && Legal(c, frames, Deliver) && Dispatch(c).1.Delivered?
    requires var (c1, frames1) := Step(c, frames, Deliver);
             && LegalRun(c1, frames1, es, |frames| + 1)
             && |Run(c1, frames1, es, |frames| + 1).1| == |frames| + 1
             && Legal(Run(c1, frames1, es, |frames| + 1).0, Run(c1, frames1, es, |frames| + 1).1, Return)
    ensures var (c1, frames1) := Step(c, frames, Deliver);
            var (c2, frames2) := Run(c1, frames1, es, |frames| + 1);
            var (c3, frames3) := Step(c2, frames2, Return);
            c3.regs == c.regs && c3.blocked == c.blocked && frames3 == frames && Inv(c3, frames3)
  {
    hide Inv, Dispatch, Sigreturn;
    var (c1, frames1) := Step(c, frames, Deliver);
    StepKeeps(c, frames, Deliver);
    RunKeeps(c1, frames1, es, |frames| + 1);
    var (c2, frames2) := Run(c1, frames1, es, |frames| + 1);
    ReturnRestores(c2, frames2);
    StepKeeps(c2, frames2, Return);
    assert frames2[..|frames| + 1] == frames2 && frames1[..|frames| + 1] == frames1;
    assert frames2[..|frames2| - 1] == frames;
  }

  // ---------- what a handler blocks stays blocked ----------

  /** Signal x is blocked now and in everything that the frames after the n oldest save. */
  ghost predicate Shut(c: Cpu, frames: seq<Live>, n: nat, x: nat)
  {
    x in c.blocked && forall k :: n <= k < |frames| ==> x in frames[k].blocked
  }

  /** User code does not unblock x. */
  ghost predicate LeavesBlocked(es: seq<Event>, x: nat)
  {
    forall k :: 0 <= k < |es| && es[k].User? ==> x in es[k].after.blocked
  }

  lemma {:induction false} StepShut(c: Cpu, frames: seq<Live>, e: Event, n: nat, x: nat)
    requires Inv(c, frames) && Legal(c, frames, e) && Shut(c, frames, n, x) && (e.User? ==> x in e.after.blocked)
    requires |Step(c, frames, e).1| >= n
    ensures Shut(Step(c, frames, e).0, Step(c, frames, e).1, n, x)
  {
    match e
    case User(_) =>
    case Deliver =>
      DeliverBlocks(c, x);
    case Return =>
      ReturnRestores(c, frames);
  }

  /** A dispatch unblocks nothing, and does not take what is blocked. */
  lemma {:induction false} DeliverBlocks(c: Cpu, x: nat)
    requires ValidCpu(c) && USER_START <= c.regs[ESP] <= USER_END && x in c.blocked
    ensures var (c', d) := Dispatch(c);
            && x in c'.blocked && (x in c'.pending <==> x in c.pending)
            && (d.Ignored? || d.Delivered? ==> d.sig != x)
  {
    DispatchSelects(c);
    hide Dispatch, FrameHolds, Dropped, Only;
    var (c', d) := Dispatch(c);
    if !d.Nothing? {
      var sig :| Next(c, sig);
      assert d == Ignored(sig) <==> Dropped(c, sig);
      if d.Delivered? {
        assert Entered(c, c', sig, d.base);
      }
    }
  }

  lemma {:induction false} RunShut(c: Cpu, frames: seq<Live>, es: seq<Event>, n: nat, x: nat)
    requires Inv(c, frames) && LegalRun(c, frames, es, n) && Shut(c, frames, n, x) && LeavesBlocked(es, x)
    ensures var (c', frames') := Run(c, frames, es, n);
            Shut(c', frames', n, x)
    decreases |es|
  {
    hide Inv, Dispatch, Sigreturn, Shut, Legal;
    if es != [] {
      var (c1, frames1) := Step(c, frames, es[0]);
      StepKeeps(c, frames, es[0]);
      StepShut(c, frames, es[0], n, x);
      RunShut(c1, frames1, es[1..], n, x);
    }
  }

  /** While a handler runs, with whatever deliveries and returns nested inside, a signal that its delivery blocked stays
      blocked unless user code unblocks it, and no dispatch takes it: the handler's own signal unless deferring is off,
      the signals of its mask, and all that was blocked before. */
  lemma {:induction false} NoReentry(c: Cpu, frames: seq<Live>, es: seq<Event>, x: nat)
    requires Inv(c, frames) && Legal(c, frames, Deliver) && Dispatch(c).1.Delivered?
    requires var (c1, frames1) := Step(c, frames, Deliver);
             LegalRun(c1, frames1, es, |frames| + 1) && LeavesBlocked(es, x)
    requires var d := Dispatch(c).1;
             && d.sig < |c.handlers|
             && (|| x in c.blocked || x in c.handlers[d.sig].mask
                 || (x == d.sig && !c.handlers[d.sig].nodefer))
    ensures var (c1, frames1) := Step(c, frames, Deliver);
            var (c2, frames2) := Run(c1, frames1, es, |frames| + 1);
            && x in c2.blocked
            && (ValidCpu(c2) && USER_START <= c2.regs[ESP] <= USER_END ==>
                  var (c3, d) := Dispatch(c2);
                  (x in c3.pending <==> x in c2.pending) && (d.Ignored? || d.Delivered? ==> d.sig != x))
  {
    hide Dispatch, Sigreturn, Entered;
    var (c1, frames1) := Step(c, frames, Deliver);
    StepKeeps(c, frames, Deliver);
    EntryBlocks(c, x);
    assert |frames1| == |frames| + 1;
    RunShut(c1, frames1, es, |frames| + 1, x);
    var c2 := Run(c1, frames1, es, |frames| + 1).0;
    if ValidCpu(c2) && USER_START <= c2.regs[ESP] <= USER_END {
      DeliverBlocks(c2, x);
    }
  }

  lemma {:induction false} EntryBlocks(c: Cpu, x: nat)
    requires ValidCpu(c) && USER_START <= c.regs[ESP] <= USER_END && Dispatch(c).1.Delivered?
    ensures var (c', d) := Dispatch(c);
            && d.sig < SIGNALS
            && (x in c'.blocked <==>
                  || x in c.blocked || x in c.handlers[d.sig].mask || (x == d.sig && !c.handlers[d.sig].nodefer))
  {
    DispatchSelects(c);
    hide Dispatch, FrameHolds, Dropped, Only;
    var (c', d) := Dispatch(c);
    var sig :| Next(c, sig);
    assert d == Ignored(sig) <==> Dropped(c, sig);
    assert Entered(c, c', sig, d.base);
  }
}
