/**
 The patched child behaves as the original program. A child is compared with RunFor, the
 run of its original text without a debugger, from the state in which it was launched.
 */
module Transparency {
  import opened Words
  import opened Options
  import opened Memory
  import opened Child
  import opened Commands
  import opened MemoryInvariant
  import opened MemorySafety
  import opened AnySpacing
  import opened LiftSafety
  import opened CloseBreakpoints

  /** No breakpoint of the list lies inside the instruction at `rip`, past its first byte. */
  ghost predicate Unsplit(isa: Isa, orig: Mem, rip: Word, bps: seq<Bp>) {
    forall i | 0 <= i < |bps| && bps[i].addr != rip :: Minus(bps[i].addr, rip) >= InsnLength(isa, orig, rip)
  }

  /** The instruction at `rip` is whole, and is not an INT3 of the program's own. */
  ghost predicate Decodable(isa: Isa, orig: Mem, rip: Word, bps: seq<Bp>) {
    Unsplit(isa, orig, rip, bps) && !AtInt3(orig, rip)
  }

  /** The stop that a single step from `cpu` makes is not one byte past a breakpoint. */
  ghost predicate StopClear(isa: Isa, orig: Mem, cpu: Cpu, bps: seq<Bp>) {
    match StepOf(isa, orig, cpu)
    case Next(c) => !Live(bps, Minus(c.rip, 1))
    case Fault(_) => !Live(bps, Minus(cpu.rip, 1))
    case _ => true
  }

  // ----- runs

  /** A run goes on from any of its states as a run from there does. */
  lemma {:induction false} RunForOn(isa: Isa, m: Mem, start: Cpu, cpu: Cpu, k: nat, n: nat)
    requires RunFor(isa, m, start, k) == Some(cpu)
    ensures RunFor(isa, m, start, k + n) == RunFor(isa, m, cpu, n)
  {
    if n == 0 {
    } else {
      RunForOn(isa, m, start, cpu, k, n - 1);
    }
  }

  lemma {:induction false} RunForPrefix(isa: Isa, orig: Mem, start: Cpu, j: nat, k: nat)
    requires j <= k && RunFor(isa, orig, start, k).Some?
    ensures RunFor(isa, orig, start, j).Some?
    decreases k
  {
    if j < k {
      RunForPrefix(isa, orig, start, j, k - 1);
    }
  }

  lemma StepsOn(isa: Isa, orig: Mem, start: Cpu, j: nat, k: nat)
    requires j < k && RunFor(isa, orig, start, k).Some?
    ensures RunFor(isa, orig, start, j).Some? && StepOf(isa, orig, RunFor(isa, orig, start, j).value).Next?
  {
    RunForPrefix(isa, orig, start, j + 1, k);
  }

  // ----- one instruction

  /** Off an INT3, an instruction of clean text is the original one. */
  lemma CleanStep(isa: Isa, orig: Mem, p: Proc, bps: seq<Bp>)
    requires CleanText(orig, p.text, bps) && Unsplit(isa, orig, p.cpu.rip, bps)
    requires !AtInt3(p.text, p.cpu.rip)
    ensures StepOf(isa, p.text, p.cpu) == StepOf(isa, orig, p.cpu)
  {
    var rip := p.cpu.rip;
    forall a: Word | Live(bps, a) && a != rip
      ensures Minus(a, rip) >= InsnLength(isa, orig, rip)
    {
      var i :| 0 <= i < |bps| && bps[i].addr == a;
    }
    StepDependsOnInsn(isa, orig, p.text, p.cpu);
  }

  /** The text that a single step runs on: the breakpoint at rip, if there is one, is lifted. */
  function Lifted(d: Dbg): Mem
    requires d.proc.Some?
  {
    var p := d.proc.value;
    match Find(d.bps, p.cpu.rip)
    case None => p.text
    case Some(i) => Unpatch(p.text, p.cpu.rip, d.bps[i].code)
  }

  /** The text is clean, and so is the word that a single step writes back, if it writes any. */
  ghost predicate MayLift(orig: Mem, d: Dbg) {
    && d.proc.Some? && Tracked(orig, d.proc.value.text, d.bps)
    && Lifts(orig, d, Si)
  }

  /** With the breakpoint at rip lifted, the child's next step is the original one. */
  lemma LiftedStep(isa: Isa, orig: Mem, d: Dbg)
    requires d.stat == RUNNING && MayLift(orig, d) && Decodable(isa, orig, d.proc.value.cpu.rip, d.bps)
    ensures !AtInt3(Lifted(d), d.proc.value.cpu.rip)
    ensures StepOf(isa, Lifted(d), d.proc.value.cpu) == StepOf(isa, orig, d.proc.value.cpu)
  {
    var p := d.proc.value;
    match Find(d.bps, p.cpu.rip)
    case None =>
      assert !Live(d.bps, p.cpu.rip);
      CleanStep(isa, orig, p, d.bps);
    case Some(i) =>
      UnpatchTrackedExactlyWhen(orig, p.text, d.bps, i);
      LiveWithout(d.bps, i);
      var bps' := Without(d.bps, i);
      assert forall j | 0 <= j < |bps'| :: bps'[j] == d.bps[if j < i then j else j + 1];
      assert p.cpu.rip in orig ==> Allowed(orig, bps', p.cpu.rip, Lifted(d)[p.cpu.rip]);
      CleanStep(isa, orig, p.(text := Lifted(d)), bps');
  }

  /** The state in which `si` leaves the debugger when the instruction at rip does `step`. */
  function AfterSi(d: Dbg, step: StepResult): Dbg
    requires Linked(d) && d.proc.Some?
  {
    var p := d.proc.value;
    var text := if Find(d.bps, p.cpu.rip).Some? then Patch(Lifted(d), p.cpu.rip) else p.text;
    match step
    case Next(c) => d.(status := TrapStop, proc := Some(Proc(text, ResetRip(d.bps, c))))
    case Fault(sig) => d.(status := SignalStop(sig), proc := Some(Proc(text, ResetRip(d.bps, p.cpu))))
    case Exit(code) => Stop(d.(status := Exited(code), proc := None))
    case Kill(sig) => d.(status := Signaled(sig), proc := None)
  }

  /** A single step of a child that is not on an INT3. */
  lemma StepCmd(isa: Isa, d: Dbg)
    requires Linked(d) && d.proc.Some? && !AtInt3(d.proc.value.text, d.proc.value.cpu.rip)
    ensures var p := d.proc.value;
            Cmd(isa, d, SingleStep) ==
              match StepOf(isa, p.text, p.cpu)
              case Next(c) => Result(d.(status := TrapStop, proc := Some(p.(cpu := ResetRip(d.bps, c)))), Done)
              case Fault(sig) =>
                Result(d.(status := SignalStop(sig), proc := Some(p.(cpu := ResetRip(d.bps, p.cpu)))), Done)
              case Exit(code) => Result(Stop(d.(status := Exited(code), proc := None)), Done)
              case Kill(sig) => Result(d.(status := Signaled(sig), proc := None), Done)
  {
  }

  /** `si` does to the child what the original instruction at rip does, and then rolls rip back. */
  lemma SiMatchesOriginal(isa: Isa, orig: Mem, d: Dbg)
    requires Linked(d) && d.stat == RUNNING && MayLift(orig, d)
    requires Decodable(isa, orig, d.proc.value.cpu.rip, d.bps)
    ensures SiCommand(isa, d) == Result(AfterSi(d, StepOf(isa, orig, d.proc.value.cpu)), Done)
  {
    var p := d.proc.value;
    LiftedStep(isa, orig, d);
    StepCmd(isa, d.(proc := Some(p.(text := Lifted(d)))));
  }

  /** The text after `si` is clean again. */
  lemma AfterSiTracked(orig: Mem, d: Dbg, step: StepResult)
    requires Linked(d) && d.stat == RUNNING && MayLift(orig, d) && (step.Next? || step.Fault?)
    ensures Tracked(orig, AfterSi(d, step).proc.value.text, d.bps)
  {
    var p := d.proc.value;
    if Find(d.bps, p.cpu.rip).Some? {
      RepatchTrackedExactlyWhen(orig, p.text, d.bps, Find(d.bps, p.cpu.rip).value);
    }
  }

  /**
   A single step leaves rip at the original program's next rip if and only if the byte
   before it holds no breakpoint; otherwise it leaves rip exactly one byte lower, and
   nothing else is off.
   */
  lemma SiExactlyWhen(isa: Isa, orig: Mem, d: Dbg)
    requires Linked(d) && d.stat == RUNNING && MayLift(orig, d)
    requires Decodable(isa, orig, d.proc.value.cpu.rip, d.bps)
    requires StepOf(isa, orig, d.proc.value.cpu).Next?
    ensures var next, r := StepOf(isa, orig, d.proc.value.cpu).cpu, SiCommand(isa, d);
            && r.d.proc.Some?
            && (r.d.proc.value.cpu.rip == next.rip <==> !Live(d.bps, Minus(next.rip, 1)))
            && r.d.proc.value.cpu == if Live(d.bps, Minus(next.rip, 1)) then next.(rip := Minus(next.rip, 1)) else next
  {
    SiMatchesOriginal(isa, orig, d);
  }

  // ----- running on

  /** Instruction `k` of the original run stands on a planted INT3. */
  ghost predicate HitAt(isa: Isa, orig: Mem, start: Cpu, m: Mem, k: nat) {
    RunFor(isa, orig, start, k).Some? && AtInt3(m, RunFor(isa, orig, start, k).value.rip)
  }

  /** The original run, `k` instructions in, ends the way the status says. */
  ghost predicate EndsAt(isa: Isa, orig: Mem, start: Cpu, status: Status, k: nat) {
    RunFor(isa, orig, start, k).Some? &&
    match StepOf(isa, orig, RunFor(isa, orig, start, k).value)
    case Exit(code) => status == Exited(code)
    case Kill(sig) => status == Signaled(sig)
    case _ => false
  }

  /** What waitpid says about a resumed child, in terms of the original run at `k`. */
  ghost predicate WaitMatches(isa: Isa, orig: Mem, start: Cpu, m: Mem, w: WaitResult, k: nat) {
    RunFor(isa, orig, start, k).Some? &&
    var cpu := RunFor(isa, orig, start, k).value;
    match w
    case Blocked(c) => c == cpu
    case Waited(c, status) =>
      match status
      case NoStatus => false
      case TrapStop => AtInt3(m, cpu.rip) && c == cpu.(rip := Plus(cpu.rip, 1))
      case SignalStop(sig) => !AtInt3(m, cpu.rip) && c == cpu && StepOf(isa, orig, cpu) == Fault(sig)
      case Exited(_) => EndsAt(isa, orig, start, status, k)
      case Signaled(_) => EndsAt(isa, orig, start, status, k)
  }

  /** The first `k` instructions of the original run stand on no planted INT3. */
  ghost predicate Unhit(isa: Isa, orig: Mem, start: Cpu, m: Mem, k: nat) {
    forall j: nat | j < k :: !HitAt(isa, orig, start, m, j)
  }

  /** Wherever the original run gets without meeting a planted INT3, the child's next step is its own. */
  ghost predicate StepsAgree(isa: Isa, orig: Mem, start: Cpu, m: Mem) {
    forall k: nat | RunFor(isa, orig, start, k).Some? && Unhit(isa, orig, start, m, k + 1) ::
      StepOf(isa, m, RunFor(isa, orig, start, k).value) == StepOf(isa, orig, RunFor(isa, orig, start, k).value)
  }

  /** A resumed child follows the original run up to the first planted INT3. */
  lemma {:induction false} ResumeMatches(isa: Isa, orig: Mem, start: Cpu, p: Proc, fuel: nat, k: nat) returns (n: nat)
    requires StepsAgree(isa, orig, start, p.text) && RunFor(isa, orig, start, k) == Some(p.cpu)
    requires Unhit(isa, orig, start, p.text, k)
    ensures k <= n && WaitMatches(isa, orig, start, p.text, Resume(isa, p, fuel), n)
    ensures Unhit(isa, orig, start, p.text, n)
    ensures if Resume(isa, p, fuel).Blocked? then n == k + fuel else n < k + fuel
    decreases fuel
  {
    n := k;
    if fuel == 0 || AtInt3(p.text, p.cpu.rip) {
    } else {
      AgreeAt(isa, orig, start, p, k);
      var step := StepOf(isa, orig, p.cpu);
      if step.Next? {
        n := ResumeMatches(isa, orig, start, p.(cpu := step.cpu), fuel - 1, k + 1);
      } else {
        StopMatches(isa, orig, start, p, k);
      }
    }
  }

  /** Off the planted INT3s, the child and the run go on together. */
  lemma AgreeAt(isa: Isa, orig: Mem, start: Cpu, p: Proc, k: nat)
    requires StepsAgree(isa, orig, start, p.text) && RunFor(isa, orig, start, k) == Some(p.cpu)
    requires Unhit(isa, orig, start, p.text, k) && !AtInt3(p.text, p.cpu.rip)
    ensures Unhit(isa, orig, start, p.text, k + 1)
    ensures StepOf(isa, p.text, p.cpu) == StepOf(isa, orig, p.cpu)
    ensures StepOf(isa, orig, p.cpu).Next? ==>
              RunFor(isa, orig, start, k + 1) == Some(StepOf(isa, orig, p.cpu).cpu)
  {
    assert Unhit(isa, orig, start, p.text, k + 1);
  }

  lemma StopMatches(isa: Isa, orig: Mem, start: Cpu, p: Proc, k: nat)
    requires RunFor(isa, orig, start, k) == Some(p.cpu) && !AtInt3(p.text, p.cpu.rip)
    requires StepOf(isa, p.text, p.cpu) == StepOf(isa, orig, p.cpu) && !StepOf(isa, orig, p.cpu).Next?
    ensures WaitMatches(isa, orig, start, p.text, Traced(isa, p), k)
  {
  }

  // ----- the simulation

  /** The child, or the way it ended, is that of the original run after `k` instructions. */
  ghost predicate Follows(isa: Isa, orig: Mem, start: Cpu, d: Dbg, k: nat) {
    if d.proc.None? then EndsAt(isa, orig, start, d.status, k)
    else
      && d.stat == RUNNING
      && Tracked(orig, d.proc.value.text, d.bps)
      && RunFor(isa, orig, start, k) == Some(d.proc.value.cpu)
  }

  /** A single step, as things stand: over a whole instruction, and clear of the breakpoints. */
  ghost predicate MayStep(isa: Isa, orig: Mem, d: Dbg) {
    d.stat == RUNNING && d.proc.Some? ==>
      Decodable(isa, orig, d.proc.value.cpu.rip, d.bps) && StopClear(isa, orig, d.proc.value.cpu, d.bps)
  }

  /**
   Resuming, as things stand: up to and including the first planted INT3 that the run meets, the
   program has no INT3 of its own, and before it, the run's instructions hold no breakpoint past
   their first byte. One-byte instructions at breakpoints are allowed.
   */
  ghost predicate MayResume(isa: Isa, orig: Mem, d: Dbg) {
    d.proc.Some? ==>
      forall k: nat | RunFor(isa, orig, d.proc.value.cpu, k).Some?
                      && Unhit(isa, orig, d.proc.value.cpu, d.proc.value.text, k) ::
        Passable(isa, orig, d.proc.value.text, RunFor(isa, orig, d.proc.value.cpu, k).value, d.bps)
  }

  ghost predicate Passable(isa: Isa, orig: Mem, m: Mem, cpu: Cpu, bps: seq<Bp>) {
    !AtInt3(orig, cpu.rip) && (!AtInt3(m, cpu.rip) ==> Unsplit(isa, orig, cpu.rip, bps))
  }

  /** Instruction `k` of the original run faults, one byte past a breakpoint. */
  ghost predicate FaultsPast(isa: Isa, orig: Mem, start: Cpu, bps: seq<Bp>, k: nat) {
    RunFor(isa, orig, start, k).Some? &&
    var cpu := RunFor(isa, orig, start, k).value;
    StepOf(isa, orig, cpu).Fault? && Live(bps, Minus(cpu.rip, 1))
  }

  /** While it is watched, the resumed child does not fault one byte past a breakpoint. */
  ghost predicate ResumeClear(isa: Isa, orig: Mem, d: Dbg, fuel: nat) {
    d.proc.Some? ==>
      forall k: nat | k < fuel && Unhit(isa, orig, d.proc.value.cpu, d.proc.value.text, k + 1) ::
        !FaultsPast(isa, orig, d.proc.value.cpu, d.bps, k)
  }

  ghost predicate MayContinue(isa: Isa, orig: Mem, d: Dbg, fuel: nat)
    requires Linked(d)
  {
    MayStep(isa, orig, d) &&
    (d.stat == RUNNING ==>
       MayResume(isa, orig, SiCommand(isa, d).d) && ResumeClear(isa, orig, SiCommand(isa, d).d, fuel))
  }

  /**
   Commands that keep tracing the same child. Only the breakpoints that are live when the child
   moves count, and only the instructions that it then executes. Setting and deleting
   breakpoints is free here; what they do to each other is the matter of AllLift.
   */
  ghost predicate Traces(isa: Isa, orig: Mem, d: Dbg, c: Command)
    requires Linked(d)
  {
    match c
    case Load(_) => false
    case Exit => false
    case Start(_) => d.stat != LOADED
    case Run(_, fuel) => d.stat != LOADED && (!OnBreakpoint(d) ==> MayContinue(isa, orig, d, fuel))
    case Si => MayStep(isa, orig, d)
    case Cont(fuel) => MayContinue(isa, orig, d, fuel)
    case _ => true
  }

  predicate OnBreakpoint(d: Dbg) {
    d.proc.Some? && Find(d.bps, d.proc.value.cpu.rip).Some?
  }

  ghost predicate AllTrace(isa: Isa, orig: Mem, d: Dbg, cs: seq<Command>)
    requires Linked(d)
    decreases |cs|
  {
    cs == [] ||
    (Traces(isa, orig, d, cs[0]) &&
     (Step(isa, d, cs[0]).out == Done ==> AllTrace(isa, orig, Step(isa, d, cs[0]).d, cs[1..])))
  }

  lemma SiFollows(isa: Isa, orig: Mem, start: Cpu, d: Dbg, k: nat) returns (k': nat)
    requires Linked(d) && Follows(isa, orig, start, d, k) && MayStep(isa, orig, d) && Lifts(orig, d, Si)
    ensures Follows(isa, orig, start, SiCommand(isa, d).d, k')
    ensures k' == if d.proc.Some? && StepOf(isa, orig, d.proc.value.cpu).Next? then k + 1 else k
  {
    k' := k;
    if d.proc.Some? {
      var step := StepOf(isa, orig, d.proc.value.cpu);
      SiMatchesOriginal(isa, orig, d);
      if step.Next? {
        k' := k + 1;
        assert RunFor(isa, orig, start, k') == Some(step.cpu);
      }
      if step.Next? || step.Fault? {
        AfterSiTracked(orig, d, step);
      }
    }
  }

  /**
   The condition on a single step is exact: over a whole instruction, `si` leaves the child
   following the original run if and only if the stop is clear of the breakpoints.
   */
  lemma SiFollowsExactlyWhen(isa: Isa, orig: Mem, start: Cpu, d: Dbg, k: nat)
    requires Linked(d) && d.proc.Some? && Follows(isa, orig, start, d, k)
    requires Decodable(isa, orig, d.proc.value.cpu.rip, d.bps) && Lifts(orig, d, Si)
    ensures var k' := if StepOf(isa, orig, d.proc.value.cpu).Next? then k + 1 else k;
            Follows(isa, orig, start, SiCommand(isa, d).d, k') <==> StopClear(isa, orig, d.proc.value.cpu, d.bps)
  {
    var step := StepOf(isa, orig, d.proc.value.cpu);
    if StopClear(isa, orig, d.proc.value.cpu, d.bps) {
      var k' := SiFollows(isa, orig, start, d, k);
    } else {
      SiMatchesOriginal(isa, orig, d);
      if step.Next? {
        assert RunFor(isa, orig, start, k + 1) == Some(step.cpu);
      }
    }
  }

  /** What follows the run from one of its states follows the whole run. */
  lemma FollowsOn(isa: Isa, orig: Mem, start: Cpu, cpu: Cpu, d: Dbg, k: nat, n: nat)
    requires RunFor(isa, orig, start, k) == Some(cpu) && Follows(isa, orig, cpu, d, n)
    ensures Follows(isa, orig, start, d, k + n)
  {
    RunForOn(isa, orig, start, cpu, k, n);
  }

  lemma ResumableStepsAgree(isa: Isa, orig: Mem, d: Dbg)
    requires d.proc.Some? && CleanText(orig, d.proc.value.text, d.bps) && MayResume(isa, orig, d)
    ensures StepsAgree(isa, orig, d.proc.value.cpu, d.proc.value.text)
  {
    var start, m := d.proc.value.cpu, d.proc.value.text;
    forall k: nat | RunFor(isa, orig, start, k).Some? && Unhit(isa, orig, start, m, k + 1)
      ensures StepOf(isa, m, RunFor(isa, orig, start, k).value) == StepOf(isa, orig, RunFor(isa, orig, start, k).value)
    {
      var cpu := RunFor(isa, orig, start, k).value;
      assert !HitAt(isa, orig, start, m, k);
      assert Unhit(isa, orig, start, m, k);
      assert Passable(isa, orig, m, cpu, d.bps);
      CleanStep(isa, orig, Proc(m, cpu), d.bps);
    }
  }

  /** `a` holds a breakpoint that could be planted. */
  ghost predicate Stoppable(orig: Mem, bps: seq<Bp>, a: Word) {
    Live(bps, a) && WordMapped(orig, a)
  }

  /** A trap leaves the child on a planted breakpoint. */
  ghost predicate TrapsOnLive(orig: Mem, d: Dbg, r: Result)
    requires d.proc.Some?
  {
    r.out == Done && r.d.status == TrapStop ==>
      && r.d.proc.Some? && r.d.bps == d.bps
      && Stoppable(orig, d.bps, r.d.proc.value.cpu.rip) && AtInt3(d.proc.value.text, r.d.proc.value.cpu.rip)
  }

  /**
   CONT, and the rollback onto the breakpoint it stopped at, counted from the present state. The
   child follows the original run if and only if it does not fault one byte past a breakpoint.
   */
  lemma ContinueFollowsExactlyWhen(isa: Isa, orig: Mem, d: Dbg, fuel: nat, cpu: Cpu) returns (n: nat)
    requires Linked(d) && d.proc.Some? && d.proc.value.cpu == cpu
    requires Follows(isa, orig, cpu, d, 0) && MayResume(isa, orig, d)
    ensures Unhit(isa, orig, cpu, d.proc.value.text, n)
    ensures Follows(isa, orig, cpu, Cmd(isa, d, Continue(fuel)).d, n) <==> ResumeClear(isa, orig, d, fuel)
    ensures TrapsOnLive(orig, d, Cmd(isa, d, Continue(fuel)))
  {
    var p := d.proc.value;
    ResumableStepsAgree(isa, orig, d);
    n := ResumeMatches(isa, orig, cpu, p, fuel, 0);
    var c := RunFor(isa, orig, cpu, n).value;
    assert Passable(isa, orig, p.text, c, d.bps);
    WaitFollows(isa, orig, d, fuel, c, n);
    FaultsOnce(isa, orig, d, fuel, n);
  }

  /** The resumed child stops on a signal with a breakpoint one byte back. */
  ghost predicate SignalPast(isa: Isa, d: Dbg, fuel: nat)
    requires d.proc.Some?
  {
    var w := Resume(isa, d.proc.value, fuel);
    w.Waited? && w.status.SignalStop? && Live(d.bps, Minus(w.cpu.rip, 1))
  }

  /** The debugger's state after the wait, once rip has been rolled back. */
  lemma WaitFollows(isa: Isa, orig: Mem, d: Dbg, fuel: nat, c: Cpu, n: nat)
    requires Linked(d) && d.proc.Some? && d.stat == RUNNING && Tracked(orig, d.proc.value.text, d.bps)
    requires WaitMatches(isa, orig, d.proc.value.cpu, d.proc.value.text, Resume(isa, d.proc.value, fuel), n)
    requires RunFor(isa, orig, d.proc.value.cpu, n) == Some(c) && Passable(isa, orig, d.proc.value.text, c, d.bps)
    ensures Follows(isa, orig, d.proc.value.cpu, Cmd(isa, d, Continue(fuel)).d, n) <==> !SignalPast(isa, d, fuel)
    ensures TrapsOnLive(orig, d, Cmd(isa, d, Continue(fuel)))
  {
    var m := d.proc.value.text;
    if AtInt3(m, c.rip) {
      assert Allowed(orig, d.bps, c.rip, m[c.rip]);
      assert Stoppable(orig, d.bps, c.rip);
      assert Minus(Plus(c.rip, 1), 1) == c.rip;
    }
    assert Minus(c.rip, 1) != c.rip;
  }

  /** A run faults at most once, and a resumed child stops there. */
  lemma FaultsOnce(isa: Isa, orig: Mem, d: Dbg, fuel: nat, n: nat)
    requires d.proc.Some?
    requires var w := Resume(isa, d.proc.value, fuel);
             && WaitMatches(isa, orig, d.proc.value.cpu, d.proc.value.text, w, n)
             && Unhit(isa, orig, d.proc.value.cpu, d.proc.value.text, n)
             && if w.Blocked? then n == fuel else n < fuel
    ensures SignalPast(isa, d, fuel) <==> !ResumeClear(isa, orig, d, fuel)
  {
    var start, m, w := d.proc.value.cpu, d.proc.value.text, Resume(isa, d.proc.value, fuel);
    if SignalPast(isa, d, fuel) {
      assert Unhit(isa, orig, start, m, n + 1) && FaultsPast(isa, orig, start, d.bps, n);
    } else if k: nat :| k < fuel && Unhit(isa, orig, start, m, k + 1) && FaultsPast(isa, orig, start, d.bps, k) {
      assert !HitAt(isa, orig, start, m, k);
      FaultIsStop(isa, orig, start, m, w, n, k);
    }
  }

  lemma FaultIsStop(isa: Isa, orig: Mem, start: Cpu, m: Mem, w: WaitResult, n: nat, k: nat)
    requires WaitMatches(isa, orig, start, m, w, n) && (w.Waited? || k < n)
    requires Unhit(isa, orig, start, m, k + 1)
    requires RunFor(isa, orig, start, k).Some? && StepOf(isa, orig, RunFor(isa, orig, start, k).value).Fault?
    ensures n == k && w.Waited? && w.status.SignalStop?
  {
    if k < n {
      StepsOn(isa, orig, start, k, n);
    } else {
      assert !HitAt(isa, orig, start, m, n);
      if n < k {
        StepsOn(isa, orig, start, n, k);
      }
    }
  }

  /** The same, counted from the start of the run. */
  lemma ContinueFollows(isa: Isa, orig: Mem, start: Cpu, d: Dbg, fuel: nat, k: nat) returns (k': nat)
    requires Linked(d) && d.proc.Some? && Follows(isa, orig, start, d, k)
    requires MayResume(isa, orig, d) && ResumeClear(isa, orig, d, fuel)
    ensures k <= k' && Follows(isa, orig, start, Cmd(isa, d, Continue(fuel)).d, k')
    ensures forall j: nat | k <= j < k' :: !HitAt(isa, orig, start, d.proc.value.text, j)
    ensures TrapsOnLive(orig, d, Cmd(isa, d, Continue(fuel)))
  {
    var cpu := d.proc.value.cpu;
    var n := ContinueFollowsExactlyWhen(isa, orig, d, fuel, cpu);
    k' := k + n;
    FollowsOn(isa, orig, start, cpu, Cmd(isa, d, Continue(fuel)).d, k, n);
    UnhitOn(isa, orig, start, cpu, d.proc.value.text, k, n);
  }

  lemma UnhitOn(isa: Isa, orig: Mem, start: Cpu, cpu: Cpu, m: Mem, k: nat, n: nat)
    requires RunFor(isa, orig, start, k) == Some(cpu) && Unhit(isa, orig, cpu, m, n)
    ensures forall j: nat | k <= j < k + n :: !HitAt(isa, orig, start, m, j)
  {
    forall j: nat | k <= j < k + n
      ensures !HitAt(isa, orig, start, m, j)
    {
      RunForOn(isa, orig, start, cpu, k, j - k);
      assert !HitAt(isa, orig, cpu, m, j - k);
    }
  }

  lemma ContFollows(isa: Isa, orig: Mem, start: Cpu, d: Dbg, fuel: nat, k: nat) returns (k': nat)
    requires Linked(d) && Follows(isa, orig, start, d, k) && MayContinue(isa, orig, d, fuel) && Lifts(orig, d, Si)
    ensures k <= k' && Follows(isa, orig, start, ContCommand(isa, d, fuel).d, k')
  {
    k' := k;
    if d.stat == RUNNING {
      k' := SiFollows(isa, orig, start, d, k);
      var r := SiCommand(isa, d);
      if r.out == Done && r.d.proc.Some? {
        k' := ContinueFollows(isa, orig, start, r.d, fuel, k');
      }
    }
  }

  lemma BreakFollows(isa: Isa, orig: Mem, start: Cpu, d: Dbg, target: Option<Word>, k: nat)
    requires Linked(d) && Follows(isa, orig, start, d, k)
    ensures Follows(isa, orig, start, BreakCommand(d, target), k)
  {
    if target.Some? && Accepts(d, target.value) && d.proc.Some? {
      TrackedPatch(orig, d.proc.value.text, d.bps, Bp(d.bpi, target.value, PatchCode(d.proc, target.value)));
    }
  }

  lemma DeleteFollows(isa: Isa, orig: Mem, start: Cpu, d: Dbg, id: Option<int>, k: nat)
    requires Linked(d) && Follows(isa, orig, start, d, k) && Lifts(orig, d, Delete(id))
    ensures Follows(isa, orig, start, DeleteCommand(d, id), k)
  {
    if id.Some? && FindIdFrom(d.bps, id.value, 0).Some? && d.proc.Some? {
      UnpatchTrackedExactlyWhen(orig, d.proc.value.text, d.bps, FindIdFrom(d.bps, id.value, 0).value);
    }
  }

  lemma StepFollows(isa: Isa, orig: Mem, start: Cpu, d: Dbg, c: Command, k: nat) returns (k': nat)
    requires Linked(d) && Follows(isa, orig, start, d, k) && Traces(isa, orig, d, c) && Lifts(orig, d, c)
    ensures k <= k' && Follows(isa, orig, start, Step(isa, d, c).d, k')
  {
    k' := k;
    match c
    case Si => k' := SiFollows(isa, orig, start, d, k);
    case Cont(fuel) => k' := ContFollows(isa, orig, start, d, fuel, k);
    case Run(_, fuel) =>
      if d.proc.Some? && Find(d.bps, d.proc.value.cpu.rip).None? {
        k' := ContFollows(isa, orig, start, d, fuel, k);
      }
    case Break(target) => BreakFollows(isa, orig, start, d, target, k);
    case Delete(id) => DeleteFollows(isa, orig, start, d, id, k);
    case _ =>
  }

  /**
   Whatever tracing commands are given, the child's registers and data are those of the
   original program some instructions further on, never fewer than before.
   */
  lemma {:induction false} Transparent(isa: Isa, orig: Mem, start: Cpu, d: Dbg, cs: seq<Command>, k: nat)
    requires Linked(d) && Follows(isa, orig, start, d, k) && AllTrace(isa, orig, d, cs) && AllLift(isa, orig, d, cs)
    ensures exists k': nat :: k <= k' && Follows(isa, orig, start, Exec(isa, d, cs).d, k')
    decreases |cs|
  {
    if cs == [] {
      assert Follows(isa, orig, start, Exec(isa, d, cs).d, k);
    } else {
      var k1 := StepFollows(isa, orig, start, d, cs[0], k);
      var r := Step(isa, d, cs[0]);
      if r.out == Done {
        assert !Launches(d, cs[0]);
        Transparent(isa, orig, start, r.d, cs[1..], k1);
        assert Exec(isa, d, cs) == Exec(isa, r.d, cs[1..]);
      } else {
        assert Exec(isa, d, cs) == r;
      }
    }
  }

  /** A started child begins at instruction 0, wherever the breakpoints are. */
  lemma StartFollows(isa: Isa, d: Dbg, launch: Launch)
    requires Linked(d) && Launches(d, Command.Start(launch)) && Distinct(d.bps)
    ensures Follows(isa, launch.image, launch.cpu, StartCommand(d, launch).d, 0)
    ensures TrackedBy(true, launch.image, StartCommand(d, launch).d)
  {
    TrackedStart(d.bps, if Pie(d) then launch.begin else 0, launch.image);
  }

  /** `run` starts the child and, if it does not begin on a breakpoint, continues it. */
  lemma RunFollows(isa: Isa, d: Dbg, launch: Launch, fuel: nat) returns (k: nat)
    requires Linked(d) && Launches(d, Run(launch, fuel)) && Distinct(d.bps)
    requires var d1 := StartCommand(d, launch).d; !OnBreakpoint(d1) ==> MayContinue(isa, launch.image, d1, fuel)
    ensures Follows(isa, launch.image, launch.cpu, RunCommand(isa, d, launch, fuel).d, k)
  {
    k := 0;
    StartFollows(isa, d, launch);
    var d1 := StartCommand(d, launch).d;
    if !OnBreakpoint(d1) {
      k := ContFollows(isa, launch.image, launch.cpu, d1, fuel, 0);
    }
  }

  /** `start`, or `run` as the first command. */
  ghost predicate LaunchTraces(isa: Isa, d: Dbg, c: Command)
    requires Linked(d)
  {
    Launches(d, c) && Distinct(d.bps) &&
    var d1 := StartCommand(d, c.launch).d;
    c.Run? && !OnBreakpoint(d1) ==> MayContinue(isa, c.launch.image, d1, c.fuel)
  }

  /**
   From `start` or `run` on: whatever tracing commands follow, the child's registers and data,
   or the way it ended, are those of some point of the original run of the loaded image, as
   long as every word written back is an allowed one.
   */
  lemma TransparentFromLaunch(isa: Isa, d: Dbg, c: Command, cs: seq<Command>)
    requires Linked(d) && LaunchTraces(isa, d, c)
    requires var r := Step(isa, d, c);
             r.out == Done ==> AllTrace(isa, c.launch.image, r.d, cs) && AllLift(isa, c.launch.image, r.d, cs)
    ensures exists k: nat :: Follows(isa, c.launch.image, c.launch.cpu, Exec(isa, d, [c] + cs).d, k)
  {
    var r, k := Step(isa, d, c), 0;
    if c.Start? {
      StartFollows(isa, d, c.launch);
    } else {
      k := RunFollows(isa, d, c.launch, c.fuel);
    }
    assert ([c] + cs)[1..] == cs;
    assert Exec(isa, d, [c] + cs) == if r.out != Done then r else Exec(isa, r.d, cs);
    if r.out == Done {
      Transparent(isa, c.launch.image, c.launch.cpu, r.d, cs, k);
    }
  }

  /** They are if no breakpoint is deleted whose INT3 another one has saved. */
  lemma TransparentAtAnySpacing(isa: Isa, d: Dbg, c: Command, cs: seq<Command>)
    requires Linked(d) && LaunchTraces(isa, d, c)
    requires var r := Step(isa, d, c);
             r.out == Done ==> AllTrace(isa, c.launch.image, r.d, cs) && AllFit(true, isa, c.launch.image, r.d, cs)
    ensures exists k: nat :: Follows(isa, c.launch.image, c.launch.cpu, Exec(isa, d, [c] + cs).d, k)
  {
    var r := Step(isa, d, c);
    LaunchTracked(isa, d, c);
    if r.out == Done {
      DeletesFitAllFit(isa, c.launch.image, r.d, cs);
    }
    TransparentFromLaunch(isa, d, c, cs);
  }

  lemma LaunchTracked(isa: Isa, d: Dbg, c: Command)
    requires Linked(d) && Launches(d, c) && Distinct(d.bps)
    ensures TrackedBy(true, c.launch.image, Step(isa, d, c).d)
  {
    var before := d.(proc := None);
    assert StartCommand(before, c.launch) == StartCommand(d, c.launch);
    assert Step(isa, before, c) == Step(isa, d, c);
    StepTracked(true, map[], isa, before, c);
  }

  // ----- continuing

  /**
   `cont` ends the debugger exactly when its inner step ends the child: there is then
   nothing left to wait for.
   */
  lemma ContQuitsExactlyWhen(isa: Isa, orig: Mem, d: Dbg, fuel: nat)
    requires Linked(d) && d.stat == RUNNING && MayLift(orig, d)
    requires Decodable(isa, orig, d.proc.value.cpu.rip, d.bps)
    ensures ContCommand(isa, d, fuel).out == Quit <==>
            StepOf(isa, orig, d.proc.value.cpu).Exit? || StepOf(isa, orig, d.proc.value.cpu).Kill?
  {
    SiMatchesOriginal(isa, orig, d);
  }

  /**
   The step before resuming leaves a breakpoint at `a` planted: always the one at rip; of the
   others, in the word it writes back, those whose INT3 had been saved in it.
   */
  ghost predicate StaysPlanted(orig: Mem, d: Dbg, a: Word)
    requires d.proc.Some?
  {
    var p := d.proc.value;
    Stoppable(orig, d.bps, a) &&
    match Find(d.bps, p.cpu.rip)
    case None => AtInt3(p.text, a)
    case Some(i) =>
      a != p.cpu.rip ==>
        if WordMapped(orig, p.cpu.rip) && InWord(p.cpu.rip, a) then SavedByte(d.bps[i], a) == INT3
        else AtInt3(p.text, a)
  }

  lemma SiStaysPlanted(isa: Isa, orig: Mem, d: Dbg, a: Word)
    requires Linked(d) && d.stat == RUNNING && d.proc.Some? && d.proc.value.text.Keys == orig.Keys
    requires SiCommand(isa, d).d.proc.Some? && Stoppable(orig, d.bps, a)
    ensures AtInt3(SiCommand(isa, d).d.proc.value.text, a) <==> StaysPlanted(orig, d, a)
  {
    var m := d.proc.value.text;
    SameMapped(orig, m);
    assert Plus(a, 0) == a;
    match Find(d.bps, d.proc.value.cpu.rip)
    case None =>
    case Some(i) =>
      LiftedCmd(isa, d, i);
      Lifting(m, d.bps[i]);
      SameMapped(orig, Unpatch(m, d.bps[i].addr, d.bps[i].code));
  }

  /** The original run gets as far as instruction `k`, where no planted breakpoint stops it. */
  ghost predicate PassesAt(isa: Isa, orig: Mem, start: Cpu, d: Dbg, k: nat)
    requires d.proc.Some?
  {
    RunFor(isa, orig, start, k).Some? && !StaysPlanted(orig, d, RunFor(isa, orig, start, k).value.rip)
  }

  /**
   A trap leaves rip on the first breakpoint, of those that the step leaves planted, that the
   original run reaches after at least one instruction, before that instruction runs.
   (An instruction that faults in the inner step takes no step: then it may be this one.)
   */
  lemma ContStopsAtFirst(isa: Isa, orig: Mem, start: Cpu, d: Dbg, fuel: nat, k: nat)
    requires Linked(d) && d.proc.Some? && Follows(isa, orig, start, d, k)
    requires MayContinue(isa, orig, d, fuel) && Lifts(orig, d, Si)
    requires ContCommand(isa, d, fuel).out == Done && ContCommand(isa, d, fuel).d.status == TrapStop
    ensures var r := ContCommand(isa, d, fuel);
            && r.d.proc.Some?
            && StaysPlanted(orig, d, r.d.proc.value.cpu.rip)
            && exists k': nat ::
                 && RunFor(isa, orig, start, k') == Some(r.d.proc.value.cpu)
                 && (if StepOf(isa, orig, d.proc.value.cpu).Fault? then k <= k' else k < k')
                 && forall j: nat | k < j < k' :: PassesAt(isa, orig, start, d, j)
  {
    var r1, r := SiCommand(isa, d), ContCommand(isa, d, fuel);
    SiMatchesOriginal(isa, orig, d);
    var k1 := SiFollows(isa, orig, start, d, k);
    var m := r1.d.proc.value.text;
    var k' := ContinueFollows(isa, orig, start, r1.d, fuel, k1);
    SiStaysPlanted(isa, orig, d, r.d.proc.value.cpu.rip);
    forall j: nat | k < j < k'
      ensures PassesAt(isa, orig, start, d, j)
    {
      RunForPrefix(isa, orig, start, j, k');
      var a := RunFor(isa, orig, start, j).value.rip;
      assert !HitAt(isa, orig, start, m, j);
      if Stoppable(orig, d.bps, a) {
        SiStaysPlanted(isa, orig, d, a);
      }
    }
  }

  /**
   If all breakpoints are planted, those are all of them, and no breakpoint is skipped, exactly
   when the word at rip, if a breakpoint is there, holds the others' INT3s.
   */
  lemma SkipsNoneExactlyWhen(orig: Mem, d: Dbg)
    requires d.proc.Some? && d.proc.value.text.Keys == orig.Keys && Armed(orig, d.proc.value.text, d.bps)
    requires Distinct(d.bps)
    ensures (forall a: Word | Stoppable(orig, d.bps, a) :: StaysPlanted(orig, d, a)) <==>
            var found := Find(d.bps, d.proc.value.cpu.rip);
            found.Some? ==> KeepsOthers(orig, d.bps, found.value)
  {
    MappedAddresses(orig, d.bps);
    forall j | 0 <= j < |d.bps|
      ensures Live(d.bps, d.bps[j].addr)
    {
    }
    var found := Find(d.bps, d.proc.value.cpu.rip);
    if found.Some? && !KeepsOthers(orig, d.bps, found.value) {
      var j :| && 0 <= j < |d.bps| && j != found.value && WordMapped(orig, d.bps[j].addr)
               && InWord(d.bps[found.value].addr, d.bps[j].addr)
               && SavedByte(d.bps[found.value], d.bps[j].addr) != INT3;
      assert Stoppable(orig, d.bps, d.bps[j].addr) && !StaysPlanted(orig, d, d.bps[j].addr);
    }
  }

  /** A breakpoint in the word at rip whose INT3 is not in it does not stop the child. */
  lemma ContMissesLost(isa: Isa, orig: Mem, start: Cpu, d: Dbg, fuel: nat, k: nat, i: nat, a: Word)
    requires Linked(d) && d.proc.Some? && Follows(isa, orig, start, d, k)
    requires MayContinue(isa, orig, d, fuel) && Lifts(orig, d, Si)
    requires Find(d.bps, d.proc.value.cpu.rip) == Some(i) && WordMapped(orig, d.bps[i].addr)
    requires a != d.bps[i].addr && InWord(d.bps[i].addr, a) && SavedByte(d.bps[i], a) != INT3
    ensures var r := ContCommand(isa, d, fuel);
            r.out == Done && r.d.status == TrapStop ==> r.d.proc.Some? && r.d.proc.value.cpu.rip != a
  {
    var r := ContCommand(isa, d, fuel);
    if r.out == Done && r.d.status == TrapStop {
      ContStopsAtFirst(isa, orig, start, d, fuel, k);
    }
  }

  // ----- where instruction lengths matter

  /**
   When a step leads to the byte after a breakpoint that it leaves planted, `cont` stops on
   that breakpoint at once: the step has been made, but rip is one lower.
   */
  lemma ContRollsBack(isa: Isa, orig: Mem, d: Dbg, fuel: nat)
    requires Linked(d) && d.stat == RUNNING && MayLift(orig, d) && fuel > 0
    requires Decodable(isa, orig, d.proc.value.cpu.rip, d.bps)
    requires var step := StepOf(isa, orig, d.proc.value.cpu);
             step.Next? && StaysPlanted(orig, d, Minus(step.cpu.rip, 1))
    ensures var r, next := ContCommand(isa, d, fuel), StepOf(isa, orig, d.proc.value.cpu).cpu;
            && r.out == Done && r.d == d.(status := TrapStop, proc := r.d.proc) && r.d.proc.Some?
            && r.d.proc.value.cpu == next.(rip := Minus(next.rip, 1))
            && Tracked(orig, r.d.proc.value.text, d.bps)
  {
    var step := StepOf(isa, orig, d.proc.value.cpu);
    SiMatchesOriginal(isa, orig, d);
    AfterSiTracked(orig, d, step);
    SiStaysPlanted(isa, orig, d, Minus(step.cpu.rip, 1));
    ContinueTraps(isa, SiCommand(isa, d).d, fuel, Minus(step.cpu.rip, 1));
  }

  /** The instruction at `b` is one byte long and falls through, whatever the state. */
  ghost predicate OneByteAt(isa: Isa, orig: Mem, b: Word) {
    forall cpu: Cpu | cpu.rip == b ::
      StepOf(isa, orig, cpu).Next? && StepOf(isa, orig, cpu).cpu.rip == Plus(b, 1)
  }

  /** The child stands on a breakpoint at `b` that can be planted, on a one-byte instruction. */
  ghost predicate OnOneByte(isa: Isa, orig: Mem, d: Dbg, b: Word) {
    && Linked(d) && d.stat == RUNNING && MayLift(orig, d) && d.proc.value.cpu.rip == b
    && Stoppable(orig, d.bps, b) && Decodable(isa, orig, b, d.bps) && OneByteAt(isa, orig, b)
  }

  /** One `cont` from there ends there again, with the instruction run but rip rolled back. */
  lemma ContReturns(isa: Isa, orig: Mem, d: Dbg, fuel: nat, b: Word)
    requires OnOneByte(isa, orig, d, b) && fuel > 0
    ensures var r := ContCommand(isa, d, fuel);
            && r.out == Done && OnOneByte(isa, orig, r.d, b)
            && r.d.proc.value.cpu == StepOf(isa, orig, d.proc.value.cpu).cpu.(rip := b)
  {
    assert Minus(Plus(b, 1), 1) == b;
    ContRollsBack(isa, orig, d, fuel);
  }

  /** Resumed on a planted breakpoint, the child stops there at once. */
  lemma ContinueTraps(isa: Isa, d: Dbg, fuel: nat, b: Word)
    requires Linked(d) && d.proc.Some? && d.proc.value.cpu.rip == b && fuel > 0
    requires AtInt3(d.proc.value.text, b) && Live(d.bps, b)
    ensures Cmd(isa, d, Continue(fuel)) == Result(d.(status := TrapStop), Done)
  {
    assert Minus(Plus(b, 1), 1) == b;
  }

  /** Nothing but `cont`, watched for at least one step each. */
  predicate OnlyConts(cs: seq<Command>) {
    cs == [] || (cs[0].Cont? && cs[0].fuel > 0 && OnlyConts(cs[1..]))
  }

  /** So no number of `cont`s gets past a breakpoint on a one-byte instruction. */
  lemma {:induction false} ContNeverLeaves(isa: Isa, orig: Mem, d: Dbg, cs: seq<Command>, b: Word)
    requires OnOneByte(isa, orig, d, b) && OnlyConts(cs)
    ensures Exec(isa, d, cs).out == Done && OnOneByte(isa, orig, Exec(isa, d, cs).d, b)
    decreases |cs|
  {
    if cs == [] {
    } else {
      var r := ContCommand(isa, d, cs[0].fuel);
      ContReturns(isa, orig, d, cs[0].fuel, b);
      ExecCont(isa, d, cs);
      ContNeverLeaves(isa, orig, r.d, cs[1..], b);
    }
  }

  lemma ExecCont(isa: Isa, d: Dbg, cs: seq<Command>)
    requires Linked(d) && cs != [] && cs[0].Cont? && ContCommand(isa, d, cs[0].fuel).out == Done
    ensures Exec(isa, d, cs) == Exec(isa, ContCommand(isa, d, cs[0].fuel).d, cs[1..])
  {
  }
}
