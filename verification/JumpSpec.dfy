/**
 What setjmp and longjmp do to the processor, its memory and the kernel's signal mask, and
 the non-local return that the pair makes.
 */
module JumpSpec {
  import opened Words
  import opened Bits
  import opened Memory
  import opened Signals

  /** The registers that the two routines touch, memory, and the mask of blocked signals. */
  datatype Ctx = Ctx(
    rax: Word, rbx: Word, rcx: Word, rdx: Word, rsi: Word, rdi: Word, rbp: Word, rsp: Word,
    r10: Word, r11: Word, r12: Word, r13: Word, r14: Word, r15: Word,
    rip: Word, rflags: Word, mem: Mem, mask: Word)

  /** Code addresses that end up in memory or registers: after the calls, after the syscall. */
  datatype Labels = Labels(inSetJmp: Word, inLongJmp: Word, inStub: Word)

  const BUFFER_WORDS: Word := 9

  /** The address of the i-th word of the jmp_buf at `buf`: eight registers and the mask. */
  function Slot(buf: Word, i: Word): Word
    requires i < BUFFER_WORDS
  {
    Plus(buf, 8 * i)
  }

  /** The i-th word above the one at `sp`, or below it for negative `i`. */
  function StackWord(sp: Word, i: int): Word
    requires -4 <= i <= 0
  {
    Minus(sp, -8 * i)
  }

  /** Two words share no byte. */
  predicate Apart(a: Word, b: Word) {
    !InWord(a, b) && !InWord(b, a)
  }

  /** The jmp_buf is mapped. */
  ghost predicate BufferMapped(m: Mem, buf: Word) {
    forall i: Word | i < BUFFER_WORDS :: WordMapped(m, Slot(buf, i))
  }

  /** The stack words from `low` words below `sp` up to `sp` are mapped and off the jmp_buf. */
  ghost predicate StackReady(m: Mem, buf: Word, sp: Word, low: int)
    requires -4 <= low <= 0
  {
    && (forall j | low <= j <= 0 :: WordMapped(m, StackWord(sp, j)))
    && (forall i: Word, j | i < BUFFER_WORDS && low <= j <= 0 :: Apart(Slot(buf, i), StackWord(sp, j)))
  }

  // ----- words in memory

  lemma PeekPoke(m: Mem, a: Word, w: Word)
    requires WordMapped(m, a)
    ensures WordMapped(Poke(m, a, w), a) && Peek(Poke(m, a, w), a) == w
  {
    Pow256Eight();
    PackUnpack(w, 8);
    var m' := Poke(m, a, w);
    forall i: Word | i < 8
      ensures BytesAt(m', a, 8)[i] == Unpack(w, 8)[i]
    {
      assert Minus(Plus(a, i), a) == i;
    }
    assert BytesAt(m', a, 8) == Unpack(w, 8);
  }

  lemma PeekPokeApart(m: Mem, a: Word, w: Word, b: Word)
    requires WordMapped(m, b) && Apart(a, b)
    ensures WordMapped(Poke(m, a, w), b) && Peek(Poke(m, a, w), b) == Peek(m, b)
  {
    var m' := Poke(m, a, w);
    forall i: Word | i < 8
      ensures !InWord(a, Plus(b, i))
    {
    }
    assert BytesAt(m', b, 8) == BytesAt(m, b, 8);
  }

  lemma SlotsApart(buf: Word, i: Word, j: Word)
    requires i < BUFFER_WORDS && j < BUFFER_WORDS && i != j
    ensures Apart(Slot(buf, i), Slot(buf, j))
  {
  }

  lemma StackWordsApart(sp: Word, i: int, j: int)
    requires -4 <= i <= 0 && -4 <= j <= 0 && i != j
    ensures Apart(StackWord(sp, i), StackWord(sp, j))
  {
  }

  // ----- the system call

  const EFAULT: Word := MODULUS - 14
  const EINVAL: Word := MODULUS - 22

  /** rt_sigprocmask: reads the set at rsi, if any, and writes the old mask to rdx, if given. */
  function SigProcMask(c: Ctx): Ctx {
    if c.r10 != 8 then c.(rax := EINVAL)
    else if c.rsi != 0 && !WordMapped(c.mem, c.rsi) then c.(rax := EFAULT)
    else if c.rsi != 0 && c.rdi > SIG_SETMASK then c.(rax := EINVAL)
    else
      var mask := if c.rsi != 0 then NewMask(c.mask, c.rdi, Peek(c.mem, c.rsi)) else c.mask;
      if c.rdx != 0 && !WordMapped(c.mem, c.rdx) then c.(mask := mask, rax := EFAULT)
      else c.(mask := mask, rax := 0, mem := if c.rdx != 0 then Poke(c.mem, c.rdx, c.mask) else c.mem)
  }

  /** The syscall instruction: the kernel's work, with rcx and r11 lost. */
  function SystemCall(c: Ctx, text: Labels): Ctx {
    SigProcMask(c).(rcx := text.inStub, r11 := c.rflags)
  }

  /** The stub: fourth argument into r10, which is preserved on the stack. */
  function Stub(c: Ctx, text: Labels): Ctx
    requires WordMapped(c.mem, c.rsp)
  {
    var top := StackWord(c.rsp, -1);
    var entered := c.(mem := Poke(c.mem, top, c.r10), rsp := top, r10 := c.rcx, rax := 14);
    SystemCall(entered, text).(r10 := c.r10, rsp := Plus(c.rsp, 8), rip := Peek(c.mem, c.rsp))
  }

  // ----- the flags

  /** Carry, parity, adjust, zero, sign and overflow: bits 0, 2, 4, 6, 7 and 11. */
  const ARITHMETIC: Word := 0x8d5

  function Ones(x: nat, n: nat): nat {
    if n == 0 then 0 else x % 2 + Ones(x / 2, n - 1)
  }

  function Flag(on: bool, i: nat): nat {
    if on then Pow2(i) else 0
  }

  /** Zero, sign and parity of a word, the last of its low byte. */
  function ResultFlags(w: Word): nat {
    Or(Or(Flag(w == 0, 6), Flag(w >= MODULUS / 2, 7), 64), Flag(Ones(w % 256, 8) % 2 == 0, 2), 64)
  }

  /** The flags after comparing `w` with 0: nothing is borrowed and nothing overflows. */
  function ComparedWithZero(flags: Word, w: Word): Word {
    Pow2Values();
    OrBound(And(flags, MODULUS - 1 - ARITHMETIC, 64), ResultFlags(w), 64);
    Or(And(flags, MODULUS - 1 - ARITHMETIC, 64), ResultFlags(w), 64)
  }

  lemma {:induction false} HighBits(x: nat, n: nat, i: nat)
    requires x < Pow2(n) && i >= n
    ensures !Bit(x, i)
  {
    if n == 0 {
      BitZero(i);
    } else {
      HighBits(x / 2, n - 1, i - 1);
    }
  }

  predicate Arithmetic(i: nat) {
    i == 0 || i == 2 || i == 4 || i == 6 || i == 7 || i == 11
  }

  lemma ArithmeticBits(i: nat)
    ensures Bit(ARITHMETIC, i) <==> Arithmetic(i)
  {
    if i >= 12 {
      assert Pow2(12) == 0x1000;
      HighBits(ARITHMETIC, 12, i);
    } else {
      assert Bit(0x8d5, 0) && !Bit(0x8d5, 1) && Bit(0x8d5, 2) && !Bit(0x8d5, 3) && Bit(0x8d5, 4) && !Bit(0x8d5, 5);
      assert Bit(0x8d5, 6) && Bit(0x8d5, 7) && !Bit(0x8d5, 8) && !Bit(0x8d5, 9) && !Bit(0x8d5, 10) && Bit(0x8d5, 11);
    }
  }

  lemma FlagBit(on: bool, k: nat, i: nat)
    ensures Bit(Flag(on, k), i) <==> on && i == k
  {
    BitPow2(k, i);
    BitZero(i);
  }

  lemma ResultBits(w: Word, i: nat)
    ensures Bit(ResultFlags(w), i) <==>
            (i == 2 && Ones(w % 256, 8) % 2 == 0) || (i == 6 && w == 0) || (i == 7 && w >= MODULUS / 2)
  {
    FlagBit(w == 0, 6, i);
    FlagBit(w >= MODULUS / 2, 7, i);
    FlagBit(Ones(w % 256, 8) % 2 == 0, 2, i);
    BitOr(Flag(w == 0, 6), Flag(w >= MODULUS / 2, 7), 64, i);
    BitOr(Or(Flag(w == 0, 6), Flag(w >= MODULUS / 2, 7), 64), Flag(Ones(w % 256, 8) % 2 == 0, 2), 64, i);
  }

  /**
   Of the flags after the comparison, the zero flag says whether the word was 0, sign and parity
   are its own, the other arithmetic ones are clear, and the rest is as before.
   */
  lemma ComparedFlags(flags: Word, w: Word, i: nat)
    ensures Bit(ComparedWithZero(flags, w), i) <==>
            if Arithmetic(i) then
              (i == 2 && Ones(w % 256, 8) % 2 == 0) || (i == 6 && w == 0) || (i == 7 && w >= MODULUS / 2)
            else i < 64 && Bit(flags, i)
  {
    Pow2Values();
    var kept := And(flags, MODULUS - 1 - ARITHMETIC, 64);
    BitOr(kept, ResultFlags(w), 64, i);
    BitAnd(flags, MODULUS - 1 - ARITHMETIC, 64, i);
    BitNot(ARITHMETIC, 64, i);
    ArithmeticBits(i);
    ResultBits(w, i);
  }

  // ----- the two routines

  /** Memory after setjmp has filled the first `n` slots of the buffer. */
  function Filled(m: Mem, buf: Word, ws: seq<Word>): Mem
    requires |ws| < BUFFER_WORDS
  {
    if ws == [] then m
    else
      var n := |ws| - 1;
      Poke(Filled(m, buf, ws[..n]), Slot(buf, n), ws[n])
  }

  /** What setjmp saves: callee-saved registers, rsp, and the return address. */
  function Saved(c: Ctx): (ws: seq<Word>)
    requires WordMapped(c.mem, c.rsp)
  {
    [c.rbx, c.rbp, c.rsp, c.r12, c.r13, c.r14, c.r15, Peek(c.mem, c.rsp)]
  }

  /** Buffer, then the three pushes, then the mask that the kernel writes. */
  function SetJmpMem(c: Ctx, text: Labels): Mem
    requires WordMapped(c.mem, c.rsp)
  {
    var filled := Filled(c.mem, c.rdi, Saved(c));
    var pushed := Poke(Poke(Poke(filled, StackWord(c.rsp, -1), c.rcx), StackWord(c.rsp, -2), text.inSetJmp),
                       StackWord(c.rsp, -3), c.r10);
    Poke(pushed, Slot(c.rdi, 8), c.mask)
  }

  function SetJmp(c: Ctx, text: Labels): Ctx
    requires WordMapped(c.mem, c.rsp)
  {
    c.(rax := 0, rdi := 0, rsi := 0, rdx := Slot(c.rdi, 8), r11 := c.rflags,
    rsp := Plus(c.rsp, 8), rip := Peek(c.mem, c.rsp), mem := SetJmpMem(c, text))
  }

  /** The saved return address goes back to its slot; the pushes go below it. */
  function LongJmpMem(c: Ctx, text: Labels): Mem
    requires BufferMapped(c.mem, c.rdi)
  {
    var sp := Peek(c.mem, Slot(c.rdi, 2));
    var returning := Poke(c.mem, sp, Peek(c.mem, Slot(c.rdi, 7)));
    var pushed := Poke(Poke(returning, StackWord(sp, -1), c.rcx), StackWord(sp, -2), c.rsi);
    Poke(Poke(pushed, StackWord(sp, -3), text.inLongJmp), StackWord(sp, -4), c.r10)
  }

  /** The callee-saved registers and the stack pointer as the buffer has them. */
  function Restored(c: Ctx): Ctx
    requires BufferMapped(c.mem, c.rdi)
  {
    c.(rbx := Peek(c.mem, Slot(c.rdi, 0)),
    rbp := Peek(c.mem, Slot(c.rdi, 1)),
    rsp := Peek(c.mem, Slot(c.rdi, 2)),
    r12 := Peek(c.mem, Slot(c.rdi, 3)),
    r13 := Peek(c.mem, Slot(c.rdi, 4)),
    r14 := Peek(c.mem, Slot(c.rdi, 5)),
    r15 := Peek(c.mem, Slot(c.rdi, 6)))
  }

  function LongJmp(c: Ctx, text: Labels): Ctx
    requires BufferMapped(c.mem, c.rdi)
  {
    var value := if c.rsi == 0 then 1 else c.rsi;
    Restored(c).(rax := value, rsi := value, rdi := SIG_SETMASK, rdx := 0, r11 := c.rflags,
    rflags := ComparedWithZero(c.rflags, c.rsi),
    rsp := Plus(Peek(c.mem, Slot(c.rdi, 2)), 8),
    rip := Peek(c.mem, Slot(c.rdi, 7)),
    mask := Blockable(Peek(c.mem, Slot(c.rdi, 8))),
    mem := LongJmpMem(c, text))
  }

  // ----- what the pair does

  /** setjmp may be called: a mapped buffer off the mapped stack words in use, a mask the kernel allows. */
  ghost predicate MaySet(c: Ctx) {
    && BufferMapped(c.mem, c.rdi) && StackReady(c.mem, c.rdi, c.rsp, -3)
    && Slot(c.rdi, 8) != 0 && Blockable(c.mask) == c.mask
  }

  /** longjmp may be called: the same of the stack that the buffer remembers. */
  ghost predicate MayJump(c: Ctx) {
    && BufferMapped(c.mem, c.rdi) && Slot(c.rdi, 8) != 0
    && StackReady(c.mem, c.rdi, Peek(c.mem, Slot(c.rdi, 2)), -4)
  }

  /** The buffer at `buf` holds the same nine words. */
  ghost predicate SameBuffer(m: Mem, m': Mem, buf: Word)
    requires BufferMapped(m, buf) && BufferMapped(m', buf)
  {
    forall i: Word | i < BUFFER_WORDS :: Peek(m', Slot(buf, i)) == Peek(m, Slot(buf, i))
  }

  /** `d` stands where setjmp, called in `c`, returned to, with its registers, stack and mask. */
  ghost predicate BackAt(c: Ctx, d: Ctx)
    requires WordMapped(c.mem, c.rsp)
  {
    && d.rbx == c.rbx && d.rbp == c.rbp && d.r12 == c.r12 && d.r13 == c.r13 && d.r14 == c.r14 && d.r15 == c.r15
    && d.rsp == Plus(c.rsp, 8) && d.rip == Peek(c.mem, c.rsp) && d.mask == c.mask
  }

  /** A store to one slot changes that slot only. */
  lemma PokeSlot(m: Mem, buf: Word, n: Word, w: Word, i: Word)
    requires BufferMapped(m, buf) && n < BUFFER_WORDS && i < BUFFER_WORDS
    ensures BufferMapped(Poke(m, Slot(buf, n), w), buf)
    ensures Peek(Poke(m, Slot(buf, n), w), Slot(buf, i)) == if i == n then w else Peek(m, Slot(buf, i))
  {
    if i == n {
      PeekPoke(m, Slot(buf, n), w);
    } else {
      SlotsApart(buf, n, i);
      PeekPokeApart(m, Slot(buf, n), w, Slot(buf, i));
    }
  }

  lemma {:induction false} FilledSlots(m: Mem, buf: Word, ws: seq<Word>, i: Word)
    requires |ws| < BUFFER_WORDS && i < BUFFER_WORDS && BufferMapped(m, buf)
    ensures BufferMapped(Filled(m, buf, ws), buf)
    ensures Peek(Filled(m, buf, ws), Slot(buf, i)) == if i < |ws| then ws[i] else Peek(m, Slot(buf, i))
    decreases |ws|
  {
    if ws == [] {
    } else {
      var n := |ws| - 1;
      FilledSlots(m, buf, ws[..n], i);
      PokeSlot(Filled(m, buf, ws[..n]), buf, n, ws[n], i);
    }
  }

  /** A push off the buffer leaves it as it is. */
  lemma PushKeepsBuffer(m: Mem, buf: Word, a: Word, w: Word)
    requires BufferMapped(m, buf) && forall i: Word | i < BUFFER_WORDS :: Apart(Slot(buf, i), a)
    ensures BufferMapped(Poke(m, a, w), buf) && SameBuffer(m, Poke(m, a, w), buf)
  {
    forall i: Word | i < BUFFER_WORDS
      ensures Peek(Poke(m, a, w), Slot(buf, i)) == Peek(m, Slot(buf, i))
    {
      assert Apart(Slot(buf, i), a);
      PeekPokeApart(m, a, w, Slot(buf, i));
    }
  }

  /** The buffer after setjmp has stored its eight words. */
  lemma SavedSlots(c: Ctx, m: Mem)
    requires MaySet(c) && WordMapped(c.mem, c.rsp) && m == Filled(c.mem, c.rdi, Saved(c))
    ensures BufferMapped(m, c.rdi)
    ensures forall i: Word | i < 8 :: Peek(m, Slot(c.rdi, i)) == Saved(c)[i]
  {
    FilledSlots(c.mem, c.rdi, Saved(c), 0);
    forall i: Word | i < 8
      ensures Peek(m, Slot(c.rdi, i)) == Saved(c)[i]
    {
      FilledSlots(c.mem, c.rdi, Saved(c), i);
    }
  }

  /** Three pushes below the stack pointer leave the buffer as it is. */
  lemma PushesKeepBuffer(m: Mem, buf: Word, sp: Word, w1: Word, w2: Word, w3: Word)
    requires BufferMapped(m, buf)
    requires forall i: Word, j | i < BUFFER_WORDS && -3 <= j <= 0 :: Apart(Slot(buf, i), StackWord(sp, j))
    ensures var m' := Poke(Poke(Poke(m, StackWord(sp, -1), w1), StackWord(sp, -2), w2), StackWord(sp, -3), w3);
            BufferMapped(m', buf) && SameBuffer(m, m', buf)
  {
    var m1 := Poke(m, StackWord(sp, -1), w1);
    PushKeepsBuffer(m, buf, StackWord(sp, -1), w1);
    var m2 := Poke(m1, StackWord(sp, -2), w2);
    PushKeepsBuffer(m1, buf, StackWord(sp, -2), w2);
    PushKeepsBuffer(m2, buf, StackWord(sp, -3), w3);
  }

  /** The buffer that setjmp leaves behind. */
  lemma SetJmpFills(c: Ctx, text: Labels)
    requires MaySet(c) && WordMapped(c.mem, c.rsp)
    ensures BufferMapped(SetJmp(c, text).mem, c.rdi)
    ensures forall i: Word | i < BUFFER_WORDS ::
              Peek(SetJmp(c, text).mem, Slot(c.rdi, i)) == if i < 8 then Saved(c)[i] else c.mask
  {
    var buf, m := c.rdi, Filled(c.mem, c.rdi, Saved(c));
    SavedSlots(c, m);
    PushesKeepBuffer(m, buf, c.rsp, c.rcx, text.inSetJmp, c.r10);
    var m' := Poke(Poke(Poke(m, StackWord(c.rsp, -1), c.rcx), StackWord(c.rsp, -2), text.inSetJmp),
                   StackWord(c.rsp, -3), c.r10);
    MaskSlot(m', buf, c.mask);
  }

  /** Writing the mask's slot leaves the other eight. */
  lemma MaskSlot(m: Mem, buf: Word, mask: Word)
    requires BufferMapped(m, buf)
    ensures var m' := Poke(m, Slot(buf, 8), mask);
            BufferMapped(m', buf) && forall i: Word | i < BUFFER_WORDS ::
              Peek(m', Slot(buf, i)) == if i < 8 then Peek(m, Slot(buf, i)) else mask
  {
    PokeSlot(m, buf, 8, mask, 8);
    forall i: Word | i < BUFFER_WORDS
      ensures Peek(Poke(m, Slot(buf, 8), mask), Slot(buf, i)) == if i < 8 then Peek(m, Slot(buf, i)) else mask
    {
      PokeSlot(m, buf, 8, mask, i);
    }
  }

  /**
   setjmp in `c`, and later longjmp in `d` through the same, unchanged buffer: control is back
   at setjmp's return address with its callee-saved registers, stack pointer and signal mask,
   whatever else has changed, the return address on the stack included.
   */
  lemma LongJmpReturns(c: Ctx, d: Ctx, text: Labels)
    requires MaySet(c) && MayJump(d) && d.rdi == c.rdi
    requires WordMapped(c.mem, c.rsp) && BufferMapped(SetJmp(c, text).mem, c.rdi)
    requires SameBuffer(SetJmp(c, text).mem, d.mem, c.rdi)
    ensures BackAt(c, SetJmp(c, text)) && SetJmp(c, text).rax == 0
    ensures BackAt(c, LongJmp(d, text))
    ensures LongJmp(d, text).rax == if d.rsi == 0 then 1 else d.rsi
  {
    SetJmpFills(c, text);
  }

  /** longjmp writes nothing to the buffer. */
  lemma LongJmpKeepsBuffer(d: Ctx, text: Labels)
    requires MayJump(d)
    ensures BufferMapped(LongJmp(d, text).mem, d.rdi) && SameBuffer(d.mem, LongJmp(d, text).mem, d.rdi)
  {
    var buf, sp := d.rdi, Peek(d.mem, Slot(d.rdi, 2));
    assert StackWord(sp, 0) == sp;
    var ret := Peek(d.mem, Slot(buf, 7));
    var m0 := Poke(d.mem, sp, ret);
    PushKeepsBuffer(d.mem, buf, StackWord(sp, 0), ret);
    var m1 := Poke(m0, StackWord(sp, -1), d.rcx);
    PushKeepsBuffer(m0, buf, StackWord(sp, -1), d.rcx);
    var m2 := Poke(m1, StackWord(sp, -2), d.rsi);
    PushKeepsBuffer(m1, buf, StackWord(sp, -2), d.rsi);
    var m3 := Poke(m2, StackWord(sp, -3), text.inLongJmp);
    PushKeepsBuffer(m2, buf, StackWord(sp, -3), text.inLongJmp);
    PushKeepsBuffer(m3, buf, StackWord(sp, -4), d.r10);
  }

  /** `x` is off the words from `low` below `sp` up to `sp`. */
  ghost predicate OffStack(sp: Word, low: int, x: Word)
    requires -4 <= low <= 0
  {
    forall j | low <= j <= 0 :: !InWord(StackWord(sp, j), x)
  }

  lemma {:induction false} FilledOutside(m: Mem, buf: Word, ws: seq<Word>, x: Word)
    requires |ws| < BUFFER_WORDS && x in m && forall i: Word | i < BUFFER_WORDS :: !InWord(Slot(buf, i), x)
    ensures x in Filled(m, buf, ws) && Filled(m, buf, ws)[x] == m[x]
    decreases |ws|
  {
    if ws != [] {
      FilledOutside(m, buf, ws[..|ws| - 1], x);
    }
  }

  /** setjmp writes its buffer and three stack words only, and brings r10 and rcx back. */
  lemma SetJmpKeepsRest(c: Ctx, text: Labels, x: Word)
    requires MaySet(c) && WordMapped(c.mem, c.rsp) && x in c.mem
    requires OffStack(c.rsp, -3, x) && forall i: Word | i < BUFFER_WORDS :: !InWord(Slot(c.rdi, i), x)
    ensures var d := SetJmp(c, text);
            && x in d.mem && d.mem[x] == c.mem[x] && d.r10 == c.r10 && d.rcx == c.rcx && d.rflags == c.rflags
  {
    FilledOutside(c.mem, c.rdi, Saved(c), x);
    assert !InWord(StackWord(c.rsp, -1), x) && !InWord(StackWord(c.rsp, -2), x) && !InWord(StackWord(c.rsp, -3), x);
  }

  /** longjmp writes five stack words only, from the saved stack pointer down. */
  lemma LongJmpKeepsRest(d: Ctx, text: Labels, x: Word)
    requires MayJump(d) && x in d.mem && OffStack(Peek(d.mem, Slot(d.rdi, 2)), -4, x)
    ensures var e := LongJmp(d, text);
            x in e.mem && e.mem[x] == d.mem[x] && e.r10 == d.r10 && e.rcx == d.rcx
  {
    var sp := Peek(d.mem, Slot(d.rdi, 2));
    assert StackWord(sp, 0) == sp;
    assert !InWord(StackWord(sp, 0), x) && !InWord(StackWord(sp, -1), x) && !InWord(StackWord(sp, -2), x);
    assert !InWord(StackWord(sp, -3), x) && !InWord(StackWord(sp, -4), x);
  }

  /** The mapped buffer at `buf` is the same in both memories. */
  ghost predicate Preserved(m: Mem, m': Mem, buf: Word) {
    BufferMapped(m, buf) && BufferMapped(m', buf) && SameBuffer(m, m', buf)
  }

  /** A longjmp through `buf`, entered with the buffer as it was in `m`. */
  ghost predicate Enters(m: Mem, d: Ctx, buf: Word) {
    MayJump(d) && d.rdi == buf && Preserved(m, d.mem, buf)
  }

  /** Each longjmp is entered with the buffer as the one before it, or setjmp, left it. */
  ghost predicate Jumps(m: Mem, buf: Word, ds: seq<Ctx>, text: Labels) {
    && (forall i | 0 <= i < |ds| :: BufferMapped(ds[i].mem, ds[i].rdi))
    && (ds != [] ==> Enters(m, ds[0], buf))
    && (forall i, j | 0 <= i < j < |ds| && j == i + 1 :: Enters(LongJmp(ds[i], text).mem, ds[j], buf))
  }

  /** What one longjmp is entered with, the next one is. */
  lemma EntersOn(m: Mem, d: Ctx, d': Ctx, buf: Word, text: Labels)
    requires Enters(m, d, buf) && Enters(LongJmp(d, text).mem, d', buf)
    ensures Enters(m, d', buf)
  {
    LongJmpKeepsBuffer(d, text);
  }

  lemma {:induction false} JumpsKeepBuffer(m: Mem, buf: Word, ds: seq<Ctx>, text: Labels, i: nat)
    requires Jumps(m, buf, ds, text) && i < |ds|
    ensures Enters(m, ds[i], buf)
  {
    if i == 0 {
    } else {
      JumpsKeepBuffer(m, buf, ds, text, i - 1);
      assert Enters(LongJmp(ds[i - 1], text).mem, ds[i], buf);
      EntersOn(m, ds[i - 1], ds[i], buf, text);
    }
  }

  /** Any number of longjmps through one buffer each come back to the same place. */
  lemma BufferIsReusable(c: Ctx, ds: seq<Ctx>, text: Labels)
    requires MaySet(c) && WordMapped(c.mem, c.rsp) && BufferMapped(SetJmp(c, text).mem, c.rdi)
    requires Jumps(SetJmp(c, text).mem, c.rdi, ds, text)
    ensures forall i | 0 <= i < |ds| ::
              MayJump(ds[i]) && BackAt(c, LongJmp(ds[i], text)) &&
              LongJmp(ds[i], text).rax == if ds[i].rsi == 0 then 1 else ds[i].rsi
  {
    forall i | 0 <= i < |ds|
      ensures MayJump(ds[i]) && BackAt(c, LongJmp(ds[i], text)) &&
              LongJmp(ds[i], text).rax == if ds[i].rsi == 0 then 1 else ds[i].rsi
    {
      JumpsKeepBuffer(SetJmp(c, text).mem, c.rdi, ds, text, i);
      LongJmpReturns(c, ds[i], text);
    }
  }
}
