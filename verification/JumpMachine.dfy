/**
 The assembly routines, one assignment for each instruction. `call` pushes the address
 after it and `ret` pops rip, so that each routine's contract says where control goes next.
 */
module JumpMachine {
  import opened Words
  import opened Bits
  import opened Memory
  import opened Signals
  import opened JumpSpec

  method Push(c: Ctx, w: Word) returns (c': Ctx)
    ensures c' == c.(rsp := Minus(c.rsp, 8), mem := Poke(c.mem, Minus(c.rsp, 8), w))
  {
    c' := c.(rsp := Minus(c.rsp, 8));
    c' := c'.(mem := Poke(c'.mem, c'.rsp, w));
  }

  method Pop(c: Ctx) returns (w: Word, c': Ctx)
    requires WordMapped(c.mem, c.rsp)
    ensures w == Peek(c.mem, c.rsp) && c' == c.(rsp := Plus(c.rsp, 8))
  {
    w := Peek(c.mem, c.rsp);
    c' := c.(rsp := Plus(c.rsp, 8));
  }

  /** Pops the address to go on at. */
  method Ret(c: Ctx) returns (c': Ctx)
    requires WordMapped(c.mem, c.rsp)
    ensures c' == c.(rsp := Plus(c.rsp, 8), rip := Peek(c.mem, c.rsp))
  {
    var target;
    target, c' := Pop(c);
    c' := c'.(rip := target);
  }

  /** sys_rt_sigprocmask, entered by a call. */
  method SysRtSigprocmask(c0: Ctx, text: Labels) returns (c: Ctx)
    requires WordMapped(c0.mem, c0.rsp) && WordMapped(c0.mem, StackWord(c0.rsp, -1))
    requires c0.rdx != 0 ==> Apart(c0.rdx, c0.rsp) && Apart(c0.rdx, StackWord(c0.rsp, -1))
    ensures c == Stub(c0, text)
  {
    StubStack(c0);
    c := Push(c0, c0.r10);
    c := c.(r10 := c.rcx);
    c := c.(rax := 14);
    c := SystemCall(c, text);
    var w;
    w, c := Pop(c);
    c := c.(r10 := w);
    c := Ret(c);
  }

  /** The first part of setjmp: eight stores to the buffer. */
  method SaveRegisters(c0: Ctx) returns (c: Ctx)
    requires WordMapped(c0.mem, c0.rsp) && BufferMapped(c0.mem, c0.rdi)
    requires forall i: Word | i < BUFFER_WORDS :: Apart(Slot(c0.rdi, i), c0.rsp)
    ensures c == c0.(rax := Peek(c0.mem, c0.rsp), mem := Filled(c0.mem, c0.rdi, Saved(c0)))
  {
    FilledSteps(c0);
    c := c0;
    c := c.(mem := Poke(c.mem, c.rdi, c.rbx));
    c := c.(mem := Poke(c.mem, Plus(c.rdi, 0x08), c.rbp));
    c := c.(mem := Poke(c.mem, Plus(c.rdi, 0x10), c.rsp));
    c := c.(mem := Poke(c.mem, Plus(c.rdi, 0x18), c.r12));
    c := c.(mem := Poke(c.mem, Plus(c.rdi, 0x20), c.r13));
    c := c.(mem := Poke(c.mem, Plus(c.rdi, 0x28), c.r14));
    c := c.(mem := Poke(c.mem, Plus(c.rdi, 0x30), c.r15));
    c := c.(rax := Peek(c.mem, c.rsp));
    c := c.(mem := Poke(c.mem, Plus(c.rdi, 0x38), c.rax));
  }

  /** The second part: the kernel writes the mask to the buffer's last slot. */
  method ReadMask(c0: Ctx, text: Labels) returns (c: Ctx)
    requires WordMapped(c0.mem, StackWord(c0.rsp, -1)) && WordMapped(c0.mem, StackWord(c0.rsp, -2))
    requires WordMapped(c0.mem, Slot(c0.rdi, 8)) && Slot(c0.rdi, 8) != 0
    requires Apart(Slot(c0.rdi, 8), StackWord(c0.rsp, -1)) && Apart(Slot(c0.rdi, 8), StackWord(c0.rsp, -2))
    ensures c == c0.(rax := 0, rcx := text.inStub, rdx := Slot(c0.rdi, 8), rsi := 0, rdi := 0, r11 := c0.rflags,
                 rip := text.inSetJmp,
                 mem := Poke(Poke(Poke(c0.mem, StackWord(c0.rsp, -1), text.inSetJmp), StackWord(c0.rsp, -2), c0.r10),
                             Slot(c0.rdi, 8), c0.mask))
  {
    PeekPoke(c0.mem, StackWord(c0.rsp, -1), text.inSetJmp);
    c := c0;
    c := c.(rax := c.rdi);
    c := c.(rdi := 0);
    c := c.(rsi := 0);
    c := c.(rdx := Plus(c.rax, 0x40));
    c := c.(rcx := 8);
    c := Push(c, text.inSetJmp);
    StubReads(c, text);
    c := SysRtSigprocmask(c, text);
  }

  method SetJmp(c0: Ctx, text: Labels) returns (c: Ctx)
    requires MaySet(c0) && WordMapped(c0.mem, c0.rsp)
    ensures c == JumpSpec.SetJmp(c0, text)
  {
    SetJmpStack(c0, text);
    BufferOffStack(c0);
    c := SaveRegisters(c0);
    c := Push(c, c.rcx);
    c := ReadMask(c, text);
    c := Leave(c);
  }

  /** The last part: rcx is restored, and the direct return value is 0. */
  method Leave(c0: Ctx) returns (c: Ctx)
    requires WordMapped(c0.mem, c0.rsp) && WordMapped(c0.mem, Plus(c0.rsp, 8))
    ensures c == c0.(rcx := Peek(c0.mem, c0.rsp), rax := 0,
                 rip := Peek(c0.mem, Plus(c0.rsp, 8)), rsp := Plus(c0.rsp, 16))
  {
    var w;
    w, c := Pop(c0);
    c := c.(rcx := w);
    c := c.(rax := 0);
    c := Ret(c);
  }

  /** The first part of longjmp: seven loads from the buffer. */
  method RestoreRegisters(c0: Ctx) returns (c: Ctx)
    requires BufferMapped(c0.mem, c0.rdi)
    ensures c == Restored(c0)
  {
    SlotOffsets(c0.rdi);
    c := c0;
    c := c.(rbx := Peek(c.mem, c.rdi));
    c := c.(rbp := Peek(c.mem, Plus(c.rdi, 0x08)));
    c := c.(rsp := Peek(c.mem, Plus(c.rdi, 0x10)));
    c := c.(r12 := Peek(c.mem, Plus(c.rdi, 0x18)));
    c := c.(r13 := Peek(c.mem, Plus(c.rdi, 0x20)));
    c := c.(r14 := Peek(c.mem, Plus(c.rdi, 0x28)));
    c := c.(r15 := Peek(c.mem, Plus(c.rdi, 0x30)));
  }

  /** The last part but one: the kernel sets the mask from the buffer's last slot. */
  method SetMask(c0: Ctx, text: Labels) returns (c: Ctx)
    requires WordMapped(c0.mem, StackWord(c0.rsp, -1)) && WordMapped(c0.mem, StackWord(c0.rsp, -2))
    requires WordMapped(c0.mem, Slot(c0.rdi, 8)) && Slot(c0.rdi, 8) != 0
    requires Apart(StackWord(c0.rsp, -1), Slot(c0.rdi, 8)) && Apart(StackWord(c0.rsp, -2), Slot(c0.rdi, 8))
    ensures c == c0.(rax := 0, rcx := text.inStub, rdx := 0, rsi := Slot(c0.rdi, 8), rdi := SIG_SETMASK,
                 r11 := c0.rflags, rip := text.inLongJmp,
                 mem := Poke(Poke(c0.mem, StackWord(c0.rsp, -1), text.inLongJmp), StackWord(c0.rsp, -2), c0.r10),
                 mask := Blockable(Peek(c0.mem, Slot(c0.rdi, 8))))
  {
    PeekPoke(c0.mem, StackWord(c0.rsp, -1), text.inLongJmp);
    PeekPokeApart(c0.mem, StackWord(c0.rsp, -1), text.inLongJmp, Slot(c0.rdi, 8));
    c := c0;
    c := c.(rax := c.rdi);
    c := c.(rdi := 2);
    c := c.(rsi := Plus(c.rax, 0x40));
    c := c.(rdx := 0);
    c := c.(rcx := 8);
    c := Push(c, text.inLongJmp);
    StubSets(c, text);
    c := SysRtSigprocmask(c, text);
  }

  /** The second part: the return address goes back to its slot, rcx and rsi are kept below it. */
  method PushFrame(c0: Ctx) returns (c: Ctx)
    requires WordMapped(c0.mem, c0.rsp) && WordMapped(c0.mem, Slot(c0.rdi, 7))
    ensures c == Framed(c0)
  {
    SlotOffsets(c0.rdi);
    ghost var top := StackWord(c0.rsp, -1);
    assert Minus(Plus(c0.rsp, 8), 8) == c0.rsp && Minus(c0.rsp, 8) == top && Minus(top, 8) == StackWord(c0.rsp, -2);
    var w;
    w, c := Pop(c0);
    c := c.(rax := w);
    c := c.(rax := Peek(c.mem, Plus(c.rdi, 0x38)));
    c := Push(c, c.rax);
    assert c.rsp == c0.rsp;
    c := Push(c, c.rcx);
    assert c.rsp == top;
    c := Push(c, c.rsi);
  }

  /** The last part: the frame is taken down, and the return value is val, or 1 for 0. */
  method PopFrame(c0: Ctx) returns (c: Ctx)
    requires WordMapped(c0.mem, c0.rsp) && WordMapped(c0.mem, Plus(c0.rsp, 8)) && WordMapped(c0.mem, Plus(c0.rsp, 16))
    ensures var val := Peek(c0.mem, c0.rsp);
            var value := if val == 0 then 1 else val;
            c == c0.(rsi := value, rax := value, rcx := Peek(c0.mem, Plus(c0.rsp, 8)),
                 rflags := ComparedWithZero(c0.rflags, val),
                 rip := Peek(c0.mem, Plus(c0.rsp, 16)), rsp := Plus(c0.rsp, 24))
  {
    var w;
    w, c := Pop(c0);
    c := c.(rsi := w);
    w, c := Pop(c);
    c := c.(rcx := w);
    ComparedFlags(c.rflags, c.rsi, 6);
    c := c.(rflags := ComparedWithZero(c.rflags, c.rsi));
    if Bit(c.rflags, 6) {
      c := c.(rsi := 1);
    }
    c := c.(rax := c.rsi);
    c := Ret(c);
  }

  method LongJmp(c0: Ctx, text: Labels) returns (c: Ctx)
    requires MayJump(c0)
    ensures c == JumpSpec.LongJmp(c0, text)
  {
    LongJmpStack(c0, text);
    c := RestoreRegisters(c0);
    c := PushFrame(c);
    c := SetMask(c, text);
    c := PopFrame(c);
  }

  /** The state after longjmp's three pushes. */
  function Framed(c: Ctx): Ctx
    requires WordMapped(c.mem, Slot(c.rdi, 7))
  {
    var ret := Peek(c.mem, Slot(c.rdi, 7));
    c.(rax := ret, rsp := StackWord(c.rsp, -2),
    mem := Poke(Poke(Poke(c.mem, c.rsp, ret), StackWord(c.rsp, -1), c.rcx), StackWord(c.rsp, -2), c.rsi))
  }

  /** The stub called to read the mask only. */
  lemma StubReads(c: Ctx, text: Labels)
    requires WordMapped(c.mem, c.rsp) && c.rcx == 8 && c.rsi == 0 && c.rdx != 0 && WordMapped(c.mem, c.rdx)
    ensures Stub(c, text) ==
              c.(rax := 0, rcx := text.inStub, r11 := c.rflags, rsp := Plus(c.rsp, 8), rip := Peek(c.mem, c.rsp),
              mem := Poke(Poke(c.mem, StackWord(c.rsp, -1), c.r10), c.rdx, c.mask))
  {
  }

  /** The stub called to set the mask only. */
  lemma StubSets(c: Ctx, text: Labels)
    requires WordMapped(c.mem, c.rsp) && c.rcx == 8 && c.rdi == SIG_SETMASK && c.rdx == 0 && c.rsi != 0
    requires WordMapped(c.mem, c.rsi) && Apart(StackWord(c.rsp, -1), c.rsi)
    ensures Stub(c, text) ==
              c.(rax := 0, rcx := text.inStub, r11 := c.rflags, rsp := Plus(c.rsp, 8), rip := Peek(c.mem, c.rsp),
              mem := Poke(c.mem, StackWord(c.rsp, -1), c.r10), mask := Blockable(Peek(c.mem, c.rsi)))
  {
    PeekPokeApart(c.mem, StackWord(c.rsp, -1), c.r10, c.rsi);
  }

  lemma SlotOffsets(buf: Word)
    ensures Slot(buf, 0) == buf && Slot(buf, 1) == Plus(buf, 0x08) && Slot(buf, 2) == Plus(buf, 0x10)
    ensures Slot(buf, 3) == Plus(buf, 0x18) && Slot(buf, 4) == Plus(buf, 0x20) && Slot(buf, 5) == Plus(buf, 0x28)
    ensures Slot(buf, 6) == Plus(buf, 0x30) && Slot(buf, 7) == Plus(buf, 0x38) && Slot(buf, 8) == Plus(buf, 0x40)
  {
  }

  /** The stub's two pops find what it and its caller pushed. */
  lemma StubStack(c: Ctx)
    requires WordMapped(c.mem, c.rsp) && WordMapped(c.mem, StackWord(c.rsp, -1))
    requires c.rdx != 0 ==> Apart(c.rdx, c.rsp) && Apart(c.rdx, StackWord(c.rsp, -1))
    ensures var m, top := Poke(c.mem, StackWord(c.rsp, -1), c.r10), StackWord(c.rsp, -1);
            && WordMapped(m, c.rsp) && Peek(m, c.rsp) == Peek(c.mem, c.rsp)
            && WordMapped(m, top) && Peek(m, top) == c.r10
            && (c.rdx != 0 ==>
                 var m' := Poke(m, c.rdx, c.mask);
                 && WordMapped(m', c.rsp) && Peek(m', c.rsp) == Peek(c.mem, c.rsp)
                 && WordMapped(m', top) && Peek(m', top) == c.r10)
  {
    var m, top := Poke(c.mem, StackWord(c.rsp, -1), c.r10), StackWord(c.rsp, -1);
    StackWordsApart(c.rsp, -1, 0);
    assert StackWord(c.rsp, 0) == c.rsp;
    PeekPoke(c.mem, top, c.r10);
    PeekPokeApart(c.mem, top, c.r10, c.rsp);
    if c.rdx != 0 {
      PeekPokeApart(m, c.rdx, c.mask, c.rsp);
      PeekPokeApart(m, c.rdx, c.mask, top);
    }
  }

  /** The eight stores, one by one, and the return address as it is read before the last. */
  lemma FilledSteps(c: Ctx)
    requires WordMapped(c.mem, c.rsp) && BufferMapped(c.mem, c.rdi)
    requires forall i: Word | i < BUFFER_WORDS :: Apart(Slot(c.rdi, i), c.rsp)
    ensures var m0 := Poke(c.mem, c.rdi, c.rbx);
            var m1 := Poke(m0, Plus(c.rdi, 0x08), c.rbp);
            var m2 := Poke(m1, Plus(c.rdi, 0x10), c.rsp);
            var m3 := Poke(m2, Plus(c.rdi, 0x18), c.r12);
            var m4 := Poke(m3, Plus(c.rdi, 0x20), c.r13);
            var m5 := Poke(m4, Plus(c.rdi, 0x28), c.r14);
            var m6 := Poke(m5, Plus(c.rdi, 0x30), c.r15);
            && WordMapped(m6, c.rsp) && Peek(m6, c.rsp) == Peek(c.mem, c.rsp)
            && Filled(c.mem, c.rdi, Saved(c)) == Poke(m6, Plus(c.rdi, 0x38), Peek(c.mem, c.rsp))
  {
    var ws := Saved(c);
    SlotOffsets(c.rdi);
    assert ws[..8] == ws && ws[..0] == [];
    FilledNext(c.mem, c.rdi, ws, 0, c.rsp);
    FilledNext(c.mem, c.rdi, ws, 1, c.rsp);
    FilledNext(c.mem, c.rdi, ws, 2, c.rsp);
    FilledNext(c.mem, c.rdi, ws, 3, c.rsp);
    FilledNext(c.mem, c.rdi, ws, 4, c.rsp);
    FilledNext(c.mem, c.rdi, ws, 5, c.rsp);
    FilledNext(c.mem, c.rdi, ws, 6, c.rsp);
    FilledNext(c.mem, c.rdi, ws, 7, c.rsp);
  }

  /** One more store to the buffer, which leaves the word at `a` alone. */
  lemma FilledNext(m: Mem, buf: Word, ws: seq<Word>, n: nat, a: Word)
    requires n < |ws| < BUFFER_WORDS && Apart(Slot(buf, n), a)
    requires WordMapped(Filled(m, buf, ws[..n]), a)
    ensures Filled(m, buf, ws[..n + 1]) == Poke(Filled(m, buf, ws[..n]), Slot(buf, n), ws[n])
    ensures WordMapped(Filled(m, buf, ws[..n + 1]), a)
    ensures Peek(Filled(m, buf, ws[..n + 1]), a) == Peek(Filled(m, buf, ws[..n]), a)
  {
    assert ws[..n + 1][..n] == ws[..n];
    PeekPokeApart(Filled(m, buf, ws[..n]), Slot(buf, n), ws[n], a);
  }

  // ----- the stack of each routine

  ghost predicate HasWord(m: Mem, a: Word, w: Word) {
    WordMapped(m, a) && Peek(m, a) == w
  }

  lemma Keeps(m: Mem, a: Word, w: Word, b: Word, v: Word)
    requires HasWord(m, b, v) && Apart(a, b)
    ensures HasWord(Poke(m, a, w), b, v)
  {
    PeekPokeApart(m, a, w, b);
  }

  lemma Sets(m: Mem, a: Word, w: Word)
    requires WordMapped(m, a)
    ensures HasWord(Poke(m, a, w), a, w)
  {
    PeekPoke(m, a, w);
  }

  /** Stores to the buffer leave a word off the buffer alone. */
  lemma {:induction false} FilledKeeps(m: Mem, buf: Word, ws: seq<Word>, a: Word, v: Word)
    requires |ws| < BUFFER_WORDS && HasWord(m, a, v)
    requires forall i: Word | i < BUFFER_WORDS :: Apart(Slot(buf, i), a)
    ensures HasWord(Filled(m, buf, ws), a, v)
    decreases |ws|
  {
    if ws == [] {
    } else {
      var n := |ws| - 1;
      FilledKeeps(m, buf, ws[..n], a, v);
      Keeps(Filled(m, buf, ws[..n]), Slot(buf, n), ws[n], a, v);
    }
  }

  lemma {:induction false} FilledKeys(m: Mem, buf: Word, ws: seq<Word>)
    requires |ws| < BUFFER_WORDS
    ensures Filled(m, buf, ws).Keys == m.Keys
    decreases |ws|
  {
    if ws == [] {
    } else {
      FilledKeys(m, buf, ws[..|ws| - 1]);
    }
  }

  lemma BufferOffStack(c: Ctx)
    requires MaySet(c)
    ensures forall i: Word | i < BUFFER_WORDS :: Apart(Slot(c.rdi, i), c.rsp)
  {
    assert StackWord(c.rsp, 0) == c.rsp;
  }

  /** What setjmp needs of its stack and buffer after its first push, and finds there at the end. */
  ghost predicate SetReady(c: Ctx, text: Labels)
    requires WordMapped(c.mem, c.rsp)
  {
    var top, mask := StackWord(c.rsp, -1), Slot(c.rdi, 8);
    var m := Poke(Filled(c.mem, c.rdi, Saved(c)), top, c.rcx);
    && WordMapped(m, StackWord(top, -1)) && WordMapped(m, StackWord(top, -2)) && WordMapped(m, mask) && mask != 0
    && Apart(mask, StackWord(top, -1)) && Apart(mask, StackWord(top, -2))
    && Poke(Poke(Poke(m, StackWord(top, -1), text.inSetJmp), StackWord(top, -2), c.r10), mask, c.mask)
       == SetJmpMem(c, text)
    && HasWord(SetJmpMem(c, text), top, c.rcx)
    && HasWord(SetJmpMem(c, text), Plus(top, 8), Peek(c.mem, c.rsp))
    && Plus(top, 16) == Plus(c.rsp, 8)
  }

  /** setjmp's pushes are still there, each in its place, after the kernel has written the mask. */
  lemma SetJmpStack(c: Ctx, text: Labels)
    requires MaySet(c) && WordMapped(c.mem, c.rsp)
    ensures SetReady(c, text)
  {
    var s, ret := c.rsp, Peek(c.mem, c.rsp);
    assert StackWord(s, 0) == s == Plus(StackWord(s, -1), 8);
    assert StackWord(StackWord(s, -1), -1) == StackWord(s, -2) && StackWord(StackWord(s, -1), -2) == StackWord(s, -3);
    BufferOffStack(c);
    FilledKeys(c.mem, c.rdi, Saved(c));
    FilledKeeps(c.mem, c.rdi, Saved(c), s, ret);
    var m0 := Filled(c.mem, c.rdi, Saved(c));
    var m1 := Poke(m0, StackWord(s, -1), c.rcx);
    Sets(m0, StackWord(s, -1), c.rcx);
    KeepsAll(m0, s, -1, c.rcx, ret, c.rcx, 0);
    var m2 := Poke(m1, StackWord(s, -2), text.inSetJmp);
    KeepsAll(m1, s, -2, text.inSetJmp, ret, c.rcx, 0);
    var m3 := Poke(m2, StackWord(s, -3), c.r10);
    KeepsAll(m2, s, -3, c.r10, ret, c.rcx, 0);
    Keeps(m3, Slot(c.rdi, 8), c.mask, StackWord(s, -1), c.rcx);
    Keeps(m3, Slot(c.rdi, 8), c.mask, s, ret);
  }

  /** What longjmp needs of its stack and buffer after its pushes, and finds there at the end. */
  ghost predicate FrameReady(c: Ctx, text: Labels)
    requires BufferMapped(c.mem, c.rdi)
  {
    var framed := Framed(Restored(c));
    var s, m, mask := Restored(c).rsp, framed.mem, Slot(c.rdi, 8);
    && WordMapped(c.mem, s)
    && WordMapped(m, StackWord(framed.rsp, -1)) && WordMapped(m, StackWord(framed.rsp, -2))
    && HasWord(m, mask, Peek(c.mem, mask))
    && Apart(StackWord(framed.rsp, -1), mask) && Apart(StackWord(framed.rsp, -2), mask)
    && Poke(Poke(m, StackWord(framed.rsp, -1), text.inLongJmp), StackWord(framed.rsp, -2), c.r10) == LongJmpMem(c, text)
    && HasWord(LongJmpMem(c, text), framed.rsp, c.rsi)
    && HasWord(LongJmpMem(c, text), Plus(framed.rsp, 8), c.rcx)
    && HasWord(LongJmpMem(c, text), Plus(framed.rsp, 16), Peek(c.mem, Slot(c.rdi, 7)))
    && Plus(framed.rsp, 24) == Plus(s, 8)
  }

  lemma LongJmpStack(c: Ctx, text: Labels)
    requires MayJump(c)
    ensures FrameReady(c, text)
  {
    var s := Peek(c.mem, Slot(c.rdi, 2));
    var top := StackWord(s, -2);
    assert Plus(top, 8) == StackWord(s, -1) && Plus(top, 16) == s == StackWord(s, 0) && Plus(top, 24) == Plus(s, 8);
    assert StackWord(top, -1) == StackWord(s, -3) && StackWord(top, -2) == StackWord(s, -4);
    FrameWords(c, text, s);
    FrameMask(c, s);
  }

  /** The three words that longjmp pushes outlast the two that the stub's call pushes. */
  lemma FrameWords(c: Ctx, text: Labels, s: Word)
    requires BufferMapped(c.mem, c.rdi) && s == Peek(c.mem, Slot(c.rdi, 2))
    requires forall j | -4 <= j <= 0 :: WordMapped(c.mem, StackWord(s, j))
    ensures HasWord(LongJmpMem(c, text), StackWord(s, -2), c.rsi)
    ensures HasWord(LongJmpMem(c, text), StackWord(s, -1), c.rcx)
    ensures HasWord(LongJmpMem(c, text), StackWord(s, 0), Peek(c.mem, Slot(c.rdi, 7)))
  {
    var ret := Peek(c.mem, Slot(c.rdi, 7));
    assert StackWord(s, 0) == s;
    var m0 := Poke(c.mem, s, ret);
    Sets(c.mem, s, ret);
    var m1 := Poke(m0, StackWord(s, -1), c.rcx);
    Sets(m0, StackWord(s, -1), c.rcx);
    KeepsAll(m0, s, -1, c.rcx, ret, c.rcx, c.rsi);
    var m2 := Poke(m1, StackWord(s, -2), c.rsi);
    Sets(m1, StackWord(s, -2), c.rsi);
    KeepsAll(m1, s, -2, c.rsi, ret, c.rcx, c.rsi);
    var m3 := Poke(m2, StackWord(s, -3), text.inLongJmp);
    KeepsAll(m2, s, -3, text.inLongJmp, ret, c.rcx, c.rsi);
    KeepsAll(m3, s, -4, c.r10, ret, c.rcx, c.rsi);
  }

  /** They leave the buffer's mask in place. */
  lemma FrameMask(c: Ctx, s: Word)
    requires MayJump(c) && s == Peek(c.mem, Slot(c.rdi, 2))
    ensures HasWord(Framed(Restored(c)).mem, Slot(c.rdi, 8), Peek(c.mem, Slot(c.rdi, 8)))
  {
    var ret, mask := Peek(c.mem, Slot(c.rdi, 7)), Peek(c.mem, Slot(c.rdi, 8));
    assert StackWord(s, 0) == s;
    var m0 := Poke(c.mem, s, ret);
    Keeps(c.mem, StackWord(s, 0), ret, Slot(c.rdi, 8), mask);
    var m1 := Poke(m0, StackWord(s, -1), c.rcx);
    Keeps(m0, StackWord(s, -1), c.rcx, Slot(c.rdi, 8), mask);
    Keeps(m1, StackWord(s, -2), c.rsi, Slot(c.rdi, 8), mask);
  }

  /** A push keeps the words already pushed above it. */
  lemma KeepsAll(m: Mem, sp: Word, j: int, w: Word, v0: Word, v1: Word, v2: Word)
    requires -4 <= j < 0
    ensures var m' := Poke(m, StackWord(sp, j), w);
            && (HasWord(m, StackWord(sp, 0), v0) ==> HasWord(m', StackWord(sp, 0), v0))
            && (j < -1 && HasWord(m, StackWord(sp, -1), v1) ==> HasWord(m', StackWord(sp, -1), v1))
            && (j < -2 && HasWord(m, StackWord(sp, -2), v2) ==> HasWord(m', StackWord(sp, -2), v2))
  {
    StackWordsApart(sp, j, 0);
    if HasWord(m, StackWord(sp, 0), v0) {
      Keeps(m, StackWord(sp, j), w, StackWord(sp, 0), v0);
    }
    if j < -1 && HasWord(m, StackWord(sp, -1), v1) {
      StackWordsApart(sp, j, -1);
      Keeps(m, StackWord(sp, j), w, StackWord(sp, -1), v1);
    }
    if j < -2 && HasWord(m, StackWord(sp, -2), v2) {
      StackWordsApart(sp, j, -2);
      Keeps(m, StackWord(sp, j), w, StackWord(sp, -2), v2);
    }
  }
}
