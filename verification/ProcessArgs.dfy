/**
 * The argument block of a new process: the kernel writes argc, argv and envp onto the user stack
 * (kernel/kernel/task/task_args.c) and the start-up code reads them back (usermode/crt0.c), both in the layout of
 * chapter 3, "Process Initialization", of the System V ABI i386 supplement.
 */
module ProcessArgs {
  import opened Bytes

  /** A string without its terminator. */
  type Text = seq<Byte>

  predicate NulFree(s: Text)
  {
    forall k :: 0 <= k < |s| ==> s[k] != 0
  }

  ghost predicate AllNulFree(ss: seq<Text>)
  {
    forall k :: 0 <= k < |ss| ==> NulFree(ss[k])
  }

  // ---------- the reader ----------

  /** The string at an address, up to its terminator. */
  function StringAt(m: seq<Byte>, a: nat): Text
    decreases |m| - a
  {
    if a >= |m| || m[a] == 0 then [] else [m[a]] + StringAt(m, a + 1)
  }

  /** The strings that a NULL-terminated array of pointers leads to. */
  function VectorAt(m: seq<Byte>, a: nat): seq<Text>
    decreases |m| - a
  {
    if a + 4 > |m| || Get32(m, a) == 0 then [] else [StringAt(m, Get32(m, a))] + VectorAt(m, a + 4)
  }

  /** What the start-up code passes to main: the count and the addresses of the two arrays. */
  function Start(m: seq<Byte>, sp: nat): (r: (nat, nat, nat))
    requires sp + 4 <= |m|
  {
    var argc := Get32(m, sp);
    (argc, sp + 4, sp + 4 * (argc + 2))
  }

  /** A string read is the bytes from its address on, up to a zero byte or the end of memory. */
  lemma {:induction false} StringBytes(m: seq<Byte>, a: nat)
    requires a <= |m|
    ensures var n := |StringAt(m, a)|;
            && a + n <= |m| && m[a..a + n] == StringAt(m, a) && 0 !in m[a..a + n]
            && (a + n < |m| ==> m[a + n] == 0)
    decreases |m| - a
  {
    if a < |m| && m[a] != 0 {
      StringBytes(m, a + 1);
      var n := |StringAt(m, a)|;
      assert m[a..a + n] == [m[a]] + m[a + 1..a + n];
    }
  }

  /** The strings read are those at the addresses in consecutive words, up to a zero word. */
  lemma {:induction false} VectorWords(m: seq<Byte>, a: nat, k: nat)
    ensures var n := |VectorAt(m, a)|;
            && (k < n ==> a + 4 * k + 4 <= |m| && Get32(m, a + 4 * k) != 0 &&
                          VectorAt(m, a)[k] == StringAt(m, Get32(m, a + 4 * k)))
            && (a + 4 * n + 4 <= |m| ==> Get32(m, a + 4 * n) == 0)
    decreases |m| - a
  {
    hide StringAt, Get32;
    if a + 4 <= |m| && Get32(m, a) != 0 {
      VectorWords(m, a + 4, if k > 0 then k - 1 else 0);
      var n := |VectorAt(m, a)|;
      assert a + 4 + 4 * (n - 1) == a + 4 * n && (k > 0 ==> a + 4 + 4 * (k - 1) == a + 4 * k);
    }
  }

  // ---------- what writes keep ----------

  lemma {:induction false} StringKept(m: seq<Byte>, m': seq<Byte>, lo: nat, hi: nat, a: nat)
    requires Only(m, m', lo, hi) && hi <= a
    ensures StringAt(m', a) == StringAt(m, a)
    decreases |m| - a
  {
    if a < |m| && m[a] != 0 {
      StringKept(m, m', lo, hi, a + 1);
    }
  }

  /** A string and its terminator in memory read back as the string. */
  lemma {:induction false} StringReads(m: seq<Byte>, a: nat, s: Text)
    requires NulFree(s) && a + |s| < |m| && m[a..a + |s|] == s && m[a + |s|] == 0
    ensures StringAt(m, a) == s
    decreases |s|
  {
    if s != [] {
      assert m[a] == m[a..a + |s|][0] == s[0];
      assert m[a + 1..a + 1 + |s[1..]|] == s[1..];
      StringReads(m, a + 1, s[1..]);
    }
  }

  /** The pointers lead to the strings, all at or above sp. */
  ghost predicate Leads(m: seq<Byte>, ptrs: seq<nat>, ss: seq<Text>, sp: nat)
  {
    && |ptrs| == |ss|
    && forall k {:trigger ptrs[k]} :: 0 <= k < |ptrs| ==> sp <= ptrs[k] < WORD && StringAt(m, ptrs[k]) == ss[k]
  }

  lemma {:induction false} LeadsKept(m: seq<Byte>, m': seq<Byte>, lo: nat, hi: nat, ptrs: seq<nat>, ss: seq<Text>,
                                     sp: nat)
    requires Leads(m, ptrs, ss, sp) && Only(m, m', lo, hi) && hi <= sp
    ensures Leads(m', ptrs, ss, sp)
  {
    forall k | 0 <= k < |ptrs| ensures sp <= ptrs[k] < WORD && StringAt(m', ptrs[k]) == ss[k] {
      StringKept(m, m', lo, hi, ptrs[k]);
    }
  }

  /** An array of pointers and its NULL sentinel. */
  ghost predicate Pointers(m: seq<Byte>, a: nat, ptrs: seq<nat>)
  {
    a + 4 * |ptrs| + 4 <= |m| && Get32(m, a + 4 * |ptrs|) == 0 &&
    forall k: nat {:trigger ptrs[k]} :: k < |ptrs| ==> Get32(m, a + 4 * k) == ptrs[k]
  }

  lemma {:induction false} PointersKept(m: seq<Byte>, m': seq<Byte>, lo: nat, hi: nat, a: nat, ptrs: seq<nat>)
    requires Pointers(m, a, ptrs) && Only(m, m', lo, hi) && hi <= a
    ensures Pointers(m', a, ptrs)
  {
    hide Get32;
    GetKept(m, m', lo, hi, a + 4 * |ptrs|);
    forall k: nat | k < |ptrs| ensures Get32(m', a + 4 * k) == ptrs[k] {
      assert Get32(m, a + 4 * k) == ptrs[k];
      GetKept(m, m', lo, hi, a + 4 * k);
    }
  }

  /** An array of pointers to strings reads back as the strings. */
  lemma {:induction false} VectorReads(m: seq<Byte>, a: nat, ptrs: seq<nat>, ss: seq<Text>, sp: nat)
    requires Pointers(m, a, ptrs) && Leads(m, ptrs, ss, sp) && 0 < sp
    ensures VectorAt(m, a) == ss
    decreases |ptrs|
  {
    hide Get32;
    if ptrs != [] {
      assert Get32(m, a + 4 * 0) == ptrs[0];
      TailPointers(m, a, ptrs);
      VectorReads(m, a + 4, ptrs[1..], ss[1..], sp);
    }
  }

  lemma {:induction false} TailPointers(m: seq<Byte>, a: nat, ptrs: seq<nat>)
    requires Pointers(m, a, ptrs) && ptrs != []
    ensures Pointers(m, a + 4, ptrs[1..])
  {
    hide Get32;
    var t := ptrs[1..];
    assert a + 4 + 4 * |t| == a + 4 * |ptrs|;
    forall k: nat | k < |t| ensures Get32(m, a + 4 + 4 * k) == t[k] {
      assert a + 4 + 4 * k == a + 4 * (k + 1) && t[k] == ptrs[k + 1];
    }
  }

  // ---------- sizes ----------

  /** Bytes that the strings take, terminators included. */
  function TextBytes(ss: seq<Text>): nat
  {
    if ss == [] then 0 else |ss[0]| + 1 + TextBytes(ss[1..])
  }

  lemma {:induction false} TextBytesOne(ss: seq<Text>, i: nat)
    requires i < |ss|
    ensures TextBytes(ss[i..]) == |ss[i]| + 1 + TextBytes(ss[i + 1..])
  {
    assert ss[i..][1..] == ss[i + 1..];
  }

  lemma {:induction false} TextBytesLeft(ss: seq<Text>, i: nat)
    requires i <= |ss|
    ensures TextBytes(ss[i..]) <= TextBytes(ss)
  {
    if i == 0 {
      assert ss[0..] == ss;
    } else {
      TextBytesLeft(ss, i - 1);
      TextBytesOne(ss, i - 1);
    }
  }

  function AlignDown(a: nat): nat
  {
    a - a % 4
  }

  /** The strings, the two arrays with their sentinels and the count fit below esp. */
  ghost predicate Fits(esp: nat, argv: seq<Text>, envp: seq<Text>)
  {
    TextBytes(argv) + TextBytes(envp) <= esp &&
    4 * (|argv| + |envp| + 3) <= AlignDown(esp - TextBytes(argv) - TextBytes(envp))
  }

  // ---------- the writer ----------

  /** Copy one string and its terminator below sp. */
  method PushString(mem: array<Byte>, sp: nat, s: Text) returns (r: nat)
    requires |s| + 1 <= sp <= mem.Length && NulFree(s)
    modifies mem
    ensures r == sp - (|s| + 1) && Only(old(mem[..]), mem[..], r, sp) && StringAt(mem[..], r) == s
  {
    r := sp - (|s| + 1);
    for k := 0 to |s|
      invariant Only(old(mem[..]), mem[..], r, sp)
      invariant forall n :: 0 <= n < k ==> mem[r + n] == s[n]
    {
      mem[r + k] := s[k];
    }
    mem[r + |s|] := 0;
    assert mem[..][r..r + |s|] == s;
    StringReads(mem[..], r, s);
  }

  /** Copy the strings, the last one first, and note where each one is. */
  method PushStrings(mem: array<Byte>, esp: nat, ss: seq<Text>) returns (sp: nat, ptrs: seq<nat>)
    requires TextBytes(ss) <= esp <= mem.Length < WORD && AllNulFree(ss)
    modifies mem
    ensures sp == esp - TextBytes(ss) && Only(old(mem[..]), mem[..], sp, esp) && Leads(mem[..], ptrs, ss, sp)
  {
    hide NulFree, TextBytes;
    sp, ptrs := esp, [];
    var i := |ss|;
    NoText(ss);
    while i > 0
      invariant 0 <= i <= |ss| && sp == esp - TextBytes(ss[i..]) && sp >= 0
      invariant Only(old(mem[..]), mem[..], sp, esp) && Leads(mem[..], ptrs, ss[i..], sp)
    {
      i := i - 1;
      TextBytesOne(ss, i);
      TextBytesLeft(ss, i);
      ghost var m, sp' := mem[..], sp;
      sp := PushString(mem, sp, ss[i]);
      LeadsMore(m, mem[..], sp, sp', ptrs, ss, i);
      OnlyTrans(old(mem[..]), m, mem[..], sp', esp, sp, sp', sp, esp);
      ptrs := [sp] + ptrs;
    }
    assert ss[0..] == ss;
  }

  lemma {:induction false} NoText(ss: seq<Text>)
    ensures ss[|ss|..] == [] && TextBytes(ss[|ss|..]) == 0
  {
  }

  lemma {:induction false} LeadsMore(m: seq<Byte>, m': seq<Byte>, sp: nat, sp': nat, ptrs: seq<nat>, ss: seq<Text>,
                                     i: nat)
    requires i < |ss| && Leads(m, ptrs, ss[i + 1..], sp') && Only(m, m', sp, sp') && sp <= sp' && sp < WORD
    requires StringAt(m', sp) == ss[i]
    ensures Leads(m', [sp] + ptrs, ss[i..], sp)
  {
    LeadsKept(m, m', sp, sp', ptrs, ss[i + 1..], sp');
    var all, rest := [sp] + ptrs, ss[i..];
    forall k | 0 <= k < |all| ensures sp <= all[k] < WORD && StringAt(m', all[k]) == rest[k] {
      assert k > 0 ==> all[k] == ptrs[k - 1] && rest[k] == ss[i + 1..][k - 1];
    }
  }

  /** Write one word below sp. */
  method PushWord(mem: array<Byte>, sp: nat, v: nat) returns (r: nat)
    requires 4 <= sp <= mem.Length && v < WORD
    modifies mem
    ensures r == sp - 4 && Only(old(mem[..]), mem[..], r, sp) && Get32(mem[..], r) == v
  {
    r := sp - 4;
    ghost var m := mem[..];
    mem[r], mem[r + 1], mem[r + 2], mem[r + 3] := v % 0x100, v / 0x100 % 0x100, v / 0x1_0000 % 0x100, v / 0x100_0000;
    assert mem[..] == Put32(m, r, v);
    PutGet(m, r, v);
  }

  /** Write a NULL sentinel and below it the pointers, the last one first. */
  method PushVector(mem: array<Byte>, esp: nat, ptrs: seq<nat>) returns (sp: nat)
    requires 4 * |ptrs| + 4 <= esp <= mem.Length && forall k :: 0 <= k < |ptrs| ==> ptrs[k] < WORD
    modifies mem
    ensures sp == esp - 4 * |ptrs| - 4 && Only(old(mem[..]), mem[..], sp, esp) && Pointers(mem[..], sp, ptrs)
  {
    hide Get32;
    sp := PushWord(mem, esp, 0);
    var i := |ptrs|;
    while i > 0
      invariant 0 <= i <= |ptrs| && sp == esp - 4 - 4 * (|ptrs| - i)
      invariant Only(old(mem[..]), mem[..], sp, esp) && Pointers(mem[..], sp, ptrs[i..])
    {
      i := i - 1;
      ghost var m, sp' := mem[..], sp;
      sp := PushWord(mem, sp, ptrs[i]);
      PointersKept(m, mem[..], sp, sp', sp', ptrs[i + 1..]);
      PointersMore(mem[..], sp, ptrs, i);
      OnlyTrans(old(mem[..]), m, mem[..], sp', esp, sp, sp', sp, esp);
    }
    assert ptrs[0..] == ptrs;
  }

  lemma {:induction false} PointersMore(m: seq<Byte>, sp: nat, ptrs: seq<nat>, i: nat)
    requires i < |ptrs| && sp + 4 <= |m| && Get32(m, sp) == ptrs[i] && Pointers(m, sp + 4, ptrs[i + 1..])
    ensures Pointers(m, sp, ptrs[i..])
  {
    hide Get32;
    var all, rest := ptrs[i..], ptrs[i + 1..];
    assert sp + 4 + 4 * |rest| == sp + 4 * |all|;
    forall k: nat | k < |all| ensures Get32(m, sp + 4 * k) == all[k] {
      if k > 0 {
        assert rest[k - 1] == all[k] && sp + 4 + 4 * (k - 1) == sp + 4 * k;
      }
    }
  }

  /** The start-up code reads back exactly what the kernel was given, and only bytes below the old stack pointer and
      from the new one on have changed. */
  method PushArgs(mem: array<Byte>, esp: nat, argv: seq<Text>, envp: seq<Text>) returns (sp: nat)
    requires esp <= mem.Length < WORD && AllNulFree(argv) && AllNulFree(envp) && Fits(esp, argv, envp)
    modifies mem
    ensures sp % 4 == 0 && sp <= esp && sp + 4 <= mem.Length && Only(old(mem[..]), mem[..], sp, esp)
    ensures var (argc, args, envs) := Start(mem[..], sp);
            && argc == |argv| && VectorAt(mem[..], args) == argv && VectorAt(mem[..], envs) == envp
            && args + 4 * argc + 4 <= |mem[..]| && Get32(mem[..], args + 4 * argc) == 0
            && envs + 4 * |envp| + 4 <= |mem[..]| && Get32(mem[..], envs + 4 * |envp|) == 0
    ensures Get32(mem[..], sp) == |argv| && VectorAt(mem[..], sp + 4) == argv
    ensures VectorAt(mem[..], sp + 8 + 4 * |argv|) == envp
    ensures var bytes := TextBytes(argv) + TextBytes(envp) + 4 * (|argv| + |envp| + 3);
            esp - bytes - 4 < sp <= esp - bytes
  {
    hide Get32, NulFree, TextBytes, Only, Leads, Pointers, StringAt, VectorAt;
    var top, envPtrs := PushStrings(mem, esp, envp);
    ghost var m1 := mem[..];
    var low, argPtrs := PushStrings(mem, top, argv);
    ghost var m2 := mem[..];
    LeadsKept(m1, m2, low, top, envPtrs, envp, top);
    OnlyTrans(old(mem[..]), m1, m2, top, esp, low, top, low, esp);
    var base := AlignDown(low);
    sp := PushArrays(mem, base, low, argPtrs, envPtrs, argv, envp, top);
    OnlyTrans(old(mem[..]), m2, mem[..], low, esp, sp, base, sp, esp);
  }

  method PushArrays(mem: array<Byte>, base: nat, ghost low: nat, argPtrs: seq<nat>, envPtrs: seq<nat>,
                    ghost argv: seq<Text>, ghost envp: seq<Text>, ghost top: nat) returns (sp: nat)
    requires base % 4 == 0 && 4 * (|argv| + |envp| + 3) <= base <= low <= top && low <= mem.Length < WORD
    requires Leads(mem[..], argPtrs, argv, low) && Leads(mem[..], envPtrs, envp, top)
    modifies mem
    ensures sp % 4 == 0 && sp <= base && sp + 4 <= mem.Length && Only(old(mem[..]), mem[..], sp, base)
    ensures var (argc, args, envs) := Start(mem[..], sp);
            && argc == |argv| && VectorAt(mem[..], args) == argv && VectorAt(mem[..], envs) == envp
            && args + 4 * argc + 4 <= |mem[..]| && Get32(mem[..], args + 4 * argc) == 0
            && envs + 4 * |envp| + 4 <= |mem[..]| && Get32(mem[..], envs + 4 * |envp|) == 0
    ensures sp == base - 4 * (|argv| + |envp| + 3)
  {
    hide Get32, Only, StringAt, VectorAt;
    ghost var m0 := mem[..];
    var envs := PushVector(mem, base, envPtrs);
    ghost var m1 := mem[..];
    var args := PushVector(mem, envs, argPtrs);
    ghost var m2 := mem[..];
    PointersKept(m1, m2, args, envs, envs, envPtrs);
    sp := PushWord(mem, args, |argPtrs|);
    ghost var m3 := mem[..];
    PointersKept(m2, m3, sp, args, args, argPtrs);
    PointersKept(m2, m3, sp, args, envs, envPtrs);
    OnlyTrans(m0, m1, m2, envs, base, args, envs, args, base);
    OnlyTrans(m0, m2, m3, args, base, sp, args, sp, base);
    LeadsKept(m0, m3, sp, base, argPtrs, argv, low);
    LeadsKept(m0, m3, sp, base, envPtrs, envp, top);
    VectorReads(m3, args, argPtrs, argv, low);
    VectorReads(m3, envs, envPtrs, envp, top);
  }
}
