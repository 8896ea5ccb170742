/**
 The traced process. The instruction set is a parameter: `complete` says when enough
 bytes have been decoded and `exec` is one instruction's effect, so by construction a
 step depends on the processor state and on the bytes of the instruction at rip only.
 */
module Child {
  import opened Words
  import opened Options
  import opened Memory

  /** Registers, instruction pointer and data memory; the text is kept apart. */
  datatype Cpu = Cpu(rip: Word, regs: seq<Word>, data: Mem)

  datatype StepResult =
    | Next(cpu: Cpu)
    | Fault(sig: int)   // a signal-delivery stop; nothing has changed
    | Exit(code: int)
    | Kill(sig: int)

  datatype Isa = Isa(complete: seq<Byte> -> bool, exec: (Cpu, seq<Byte>) -> StepResult)

  datatype Proc = Proc(text: Mem, cpu: Cpu)

  const MAX_INSN := 15

  /** Up to `n` bytes from `a` on, ending before the first unmapped address. */
  function Window(m: Mem, a: Word, n: nat): (w: seq<Byte>)
    ensures |w| <= n
    decreases n
  {
    if n == 0 || a !in m then [] else [m[a]] + Window(m, Plus(a, 1), n - 1)
  }

  /** The number of bytes the decoder looks at, given that it has looked at `n` so far. */
  function Decoded(isa: Isa, w: seq<Byte>, n: nat): (k: nat)
    requires n <= |w|
    ensures n <= k <= |w|
    decreases |w| - n
  {
    if n == |w| || (n > 0 && isa.complete(w[..n])) then n else Decoded(isa, w, n + 1)
  }

  function InsnLength(isa: Isa, m: Mem, a: Word): (n: nat)
    ensures n <= MAX_INSN
  {
    Decoded(isa, Window(m, a, MAX_INSN), 0)
  }

  /** One instruction, executed from the bytes that `m` holds at rip. */
  function StepOf(isa: Isa, m: Mem, cpu: Cpu): StepResult {
    isa.exec(cpu, Window(m, cpu.rip, MAX_INSN)[..InsnLength(isa, m, cpu.rip)])
  }

  /** The processor state after `k` instructions of an untraced run, if it gets that far. */
  function RunFor(isa: Isa, m: Mem, start: Cpu, k: nat): Option<Cpu> {
    if k == 0 then Some(start)
    else match RunFor(isa, m, start, k - 1)
         case None => None
         case Some(cpu) =>
           match StepOf(isa, m, cpu)
           case Next(cpu') => Some(cpu')
           case _ => None
  }

  // ----- ptrace and waitpid

  datatype Status =
    | NoStatus
    | Exited(code: int)
    | TrapStop
    | SignalStop(sig: int)
    | Signaled(sig: int)

  /** `Continue` runs until something stops the child; `fuel` bounds how long we watch it. */
  datatype Request = SingleStep | Continue(fuel: nat)

  /** What waitpid delivers; `Blocked` when the child is still running. */
  datatype WaitResult = Waited(cpu: Cpu, status: Status) | Blocked(cpu: Cpu)

  predicate AtInt3(m: Mem, a: Word) {
    a in m && m[a] == INT3
  }

  /** A traced step: INT3 traps with rip one past the 0xCC byte. */
  function Traced(isa: Isa, p: Proc): WaitResult {
    if AtInt3(p.text, p.cpu.rip) then Waited(p.cpu.(rip := Plus(p.cpu.rip, 1)), TrapStop)
    else match StepOf(isa, p.text, p.cpu)
         case Next(cpu) => Waited(cpu, TrapStop)
         case Fault(sig) => Waited(p.cpu, SignalStop(sig))
         case Exit(code) => Waited(p.cpu, Exited(code))
         case Kill(sig) => Waited(p.cpu, Signaled(sig))
  }

  function Resume(isa: Isa, p: Proc, fuel: nat): WaitResult
    decreases fuel
  {
    if fuel == 0 then Blocked(p.cpu)
    else if AtInt3(p.text, p.cpu.rip) || !StepOf(isa, p.text, p.cpu).Next? then Traced(isa, p)
    else Resume(isa, p.(cpu := StepOf(isa, p.text, p.cpu).cpu), fuel - 1)
  }

  function Wait(isa: Isa, p: Proc, request: Request): WaitResult {
    match request
    case SingleStep => Traced(isa, p)
    case Continue(fuel) => Resume(isa, p, fuel)
  }

  // ----- the step depends only on the bytes of the instruction

  lemma {:induction false} WindowAt(m: Mem, a: Word, n: nat, i: nat)
    requires n <= MAX_INSN && i < |Window(m, a, n)|
    ensures Plus(a, i) in m && Window(m, a, n)[i] == m[Plus(a, i)]
    decreases n
  {
    if i == 0 {
    } else {
      WindowAt(m, Plus(a, 1), n - 1, i - 1);
      assert Plus(Plus(a, 1), i - 1) == Plus(a, i);
    }
  }

  lemma {:induction false} WindowLength(m: Mem, m': Mem, a: Word, n: nat)
    requires m.Keys == m'.Keys
    ensures |Window(m, a, n)| == |Window(m', a, n)|
    decreases n
  {
    if n == 0 || a !in m {
    } else {
      WindowLength(m, m', Plus(a, 1), n - 1);
    }
  }

  lemma {:induction false} DecodedAgree(isa: Isa, w: seq<Byte>, w': seq<Byte>, n: nat)
    requires |w| == |w'| && n <= |w|
    requires w[..Decoded(isa, w, n)] == w'[..Decoded(isa, w, n)]
    ensures Decoded(isa, w', n) == Decoded(isa, w, n)
    decreases |w| - n
  {
    var k := Decoded(isa, w, n);
    assert w[..n] == w[..k][..n] == w'[..k][..n] == w'[..n];
    if n == |w| || (n > 0 && isa.complete(w[..n])) {
    } else {
      DecodedAgree(isa, w, w', n + 1);
    }
  }

  /** Two texts that agree on the bytes of the instruction at rip step alike. */
  lemma StepDependsOnInsn(isa: Isa, m: Mem, m': Mem, cpu: Cpu)
    requires m.Keys == m'.Keys
    requires forall a: Word | a in m && Minus(a, cpu.rip) < InsnLength(isa, m, cpu.rip) :: m[a] == m'[a]
    ensures StepOf(isa, m', cpu) == StepOf(isa, m, cpu)
  {
    var w, w' := Window(m, cpu.rip, MAX_INSN), Window(m', cpu.rip, MAX_INSN);
    var n := InsnLength(isa, m, cpu.rip);
    WindowLength(m, m', cpu.rip, MAX_INSN);
    forall i: nat | i < n
      ensures w[i] == w'[i]
    {
      WindowAt(m, cpu.rip, MAX_INSN, i);
      WindowAt(m', cpu.rip, MAX_INSN, i);
      assert Minus(Plus(cpu.rip, i), cpu.rip) == i;
    }
    assert w[..n] == w'[..n];
    DecodedAgree(isa, w, w', 0);
  }
}
