/**
 What each command of a session does to the debugger, told by the fields of the state before
 and after it.
 */
module Outcomes {
  import opened Words
  import opened Options
  import opened Memory
  import opened Child
  import opened Commands
  import opened MemoryInvariant
  import opened MemorySafety
  import opened AnySpacing
  import opened CloseBreakpoints
  import opened Lifecycle
  import opened Undo
  import opened Transparency

  // ----- si, cont and run: how the child fares

  /** LOADED again: no child, base 0, and every breakpoint where it was relative to the old base. */
  ghost predicate BackToLoaded(d: Dbg, d': Dbg) {
    && d' == d.(stat := LOADED, status := d'.status, base := 0, ldisasm := 0, bps := d'.bps, proc := None)
    && |d'.bps| == |d.bps|
    && forall i | 0 <= i < |d.bps| :: d'.bps[i] == d.bps[i].(addr := Minus(d.bps[i].addr, d.base))
  }

  predicate MovesChild(c: Command) {
    c.Si? || c.Cont? || c.Run?
  }

  /** The three ways in which a command that lets the child run comes back to the prompt. */
  ghost predicate ChildFared(d: Dbg, d': Dbg) {
    match d'.status
    case Exited(_) => BackToLoaded(d, d')
    case Signaled(_) => d' == d.(status := d'.status, proc := None)
    case TrapStop => d'.proc.Some? && d' == d.(status := d'.status, proc := d'.proc)
    case SignalStop(_) => d'.proc.Some? && d' == d.(status := d'.status, proc := d'.proc)
    case NoStatus => false
  }

  /**
   A child that exits takes the debugger back to LOADED; one that is killed leaves it RUNNING
   without a child; one that stops leaves everything else as it was.
   */
  lemma ChildOutcome(isa: Isa, d: Dbg, c: Command)
    requires WellFormed(d) && d.stat == RUNNING && d.proc.Some? && MovesChild(c)
    ensures var r := Step(isa, d, c); r.out == Done ==> ChildFared(d, r.d)
  {
    SiFared(isa, d);
    match c
    case Si =>
    case Cont(fuel) => ContFared(isa, d, fuel);
    case Run(_, fuel) => ContFared(isa, d, fuel);
  }

  lemma CmdFared(isa: Isa, d: Dbg, request: Request)
    requires WellFormed(d) && d.stat == RUNNING && d.proc.Some?
    ensures var r := Cmd(isa, d, request);
            r.out == Done ==>
              ChildFared(d, r.d) && (r.d.proc.Some? ==> r.d.proc.value.text == d.proc.value.text)
  {
    CmdKeepsForm(isa, d, request);
    if request.Continue? {
      ResumeReports(isa, d.proc.value, request.fuel);
    }
  }

  lemma SiFared(isa: Isa, d: Dbg)
    requires WellFormed(d) && d.stat == RUNNING && d.proc.Some?
    ensures SiCommand(isa, d).out == Done ==> ChildFared(d, SiCommand(isa, d).d)
  {
    match Find(d.bps, d.proc.value.cpu.rip)
    case None => CmdFared(isa, d, SingleStep);
    case Some(i) => CmdFared(isa, d.(proc := UnpatchProc(d.proc, d.bps[i])), SingleStep);
  }

  lemma ContFared(isa: Isa, d: Dbg, fuel: nat)
    requires WellFormed(d) && d.stat == RUNNING && d.proc.Some?
    ensures ContCommand(isa, d, fuel).out == Done ==> ChildFared(d, ContCommand(isa, d, fuel).d)
  {
    SiFared(isa, d);
    SiKeepsForm(isa, d);
    var r := SiCommand(isa, d);
    if r.out == Done && r.d.proc.Some? {
      CmdFared(isa, r.d, Continue(fuel));
    }
  }

  /** Without a child none of them does anything, but in state RUNNING they end the debugger. */
  lemma NoChildOutcome(isa: Isa, d: Dbg, c: Command)
    requires WellFormed(d) && d.proc.None? && MovesChild(c) && (d.stat == LOADED ==> !c.Run?)
    ensures Step(isa, d, c) == Result(d, if d.stat == RUNNING then Quit else Done)
  {
  }

  // ----- start

  /** The child begins, with every breakpoint moved up by `base` and planted. */
  ghost predicate Started(d: Dbg, d': Dbg, image: Mem, cpu: Cpu, base: Word) {
    && d' == d.(stat := RUNNING, status := TrapStop, base := base, bps := d'.bps, proc := d'.proc)
    && |d'.bps| == |d.bps|
    && (forall i | 0 <= i < |d.bps| :: d'.bps[i].id == d.bps[i].id && d'.bps[i].addr == Plus(d.bps[i].addr, base))
    && d'.proc == Some(Proc(Planted(image, d'.bps), cpu))
  }

  /**
   `start` works in state LOADED only, and then if the child comes up: all breakpoints of a
   position-independent program move by where its image begins, those of others stay.
   */
  lemma StartOutcome(isa: Isa, d: Dbg, launch: Launch)
    requires WellFormed(d)
    ensures var r := Step(isa, d, Command.Start(launch));
            if d.stat != LOADED || launch.NotForked? then r == Result(d, Done)
            else if launch.ChildError? then r == Result(d.(status := launch.status), Done)
            else if d.ptext.None? then r.out == Crash
            else r.out == Done &&
                 Started(d, r.d, launch.image, launch.cpu, if d.ptext.value.vaddr == 0 then launch.begin else 0)
  {
    if Launches(d, Command.Start(launch)) {
      var base := if d.ptext.value.vaddr == 0 then launch.begin else 0;
      var (bps, m) := Relocate(d.bps, base, launch.image);
      forall i | 0 <= i < |d.bps|
        ensures bps[i].id == d.bps[i].id && bps[i].addr == Plus(d.bps[i].addr, base)
      {
        RelocateMember(d.bps, base, launch.image, i);
      }
      TrackedStart(d.bps, base, launch.image);
      ArmedStart(d.bps, base, launch.image);
      ArmedIsPlanted(launch.image, m, bps);
    }
  }

  lemma {:induction false} ArmedStart(bps: seq<Bp>, base: Word, orig: Mem)
    ensures var (bps', m) := Relocate(bps, base, orig); m.Keys == orig.Keys && Armed(orig, m, bps')
    decreases |bps|
  {
    if bps == [] {
    } else {
      var front, last := bps[..|bps| - 1], bps[|bps| - 1];
      ArmedStart(front, base, orig);
      var (front', m) := Relocate(front, base, orig);
      var a := Plus(last.addr, base);
      ArmedPatch(orig, m, front', last.(addr := a, code := SavedCode(m, a)));
    }
  }

  /** Clean text with every breakpoint planted is the original one with 0xCC at the live addresses. */
  lemma ArmedIsPlanted(orig: Mem, m: Mem, bps: seq<Bp>)
    requires CleanText(orig, m, bps) && Armed(orig, m, bps)
    ensures m == Planted(orig, bps)
  {
    MappedAddresses(orig, bps);
    forall x: Word | x in orig
      ensures m[x] == Planted(orig, bps)[x]
    {
      assert Allowed(orig, bps, x, m[x]);
    }
  }

  // ----- run

  /** A breakpoint will be at the entry point. */
  ghost predicate StopsAtEntry(d: Dbg, launch: Launch)
    requires d.ptext.Some? && launch.Launched?
  {
    exists i | 0 <= i < |d.bps| ::
      Plus(d.bps[i].addr, if d.ptext.value.vaddr == 0 then launch.begin else 0) == launch.cpu.rip
  }

  /**
   `run` is `start`, followed by `cont` unless there is a breakpoint at the entry point; and if
   the child does not come up, the debugger exits.
   */
  lemma RunOutcome(isa: Isa, d: Dbg, launch: Launch, fuel: nat)
    requires WellFormed(d) && d.stat == LOADED
    ensures var r, start := Step(isa, d, Run(launch, fuel)), [Command.Start(launch)];
            if !launch.Launched? then r == Result(Exec(isa, d, start).d, Quit)
            else if d.ptext.None? || StopsAtEntry(d, launch) then r == Exec(isa, d, start)
            else r == Exec(isa, d, start + [Cont(fuel)])
  {
    var start := Command.Start(launch);
    StartOutcome(isa, d, launch);
    ExecOne(isa, d, start);
    if Launches(d, start) {
      var d1 := Step(isa, d, start).d;
      var base := if d.ptext.value.vaddr == 0 then launch.begin else 0;
      if StopsAtEntry(d, launch) {
        var i :| 0 <= i < |d.bps| && Plus(d.bps[i].addr, base) == launch.cpu.rip;
        assert d1.bps[i].addr == launch.cpu.rip;
      } else {
        forall i | 0 <= i < |d1.bps|
          ensures d1.bps[i].addr != launch.cpu.rip
        {
          assert d1.bps[i].addr == Plus(d.bps[i].addr, base);
        }
      }
      ExecOn(isa, d, start, [Cont(fuel)]);
      ExecOne(isa, d1, Cont(fuel));
    }
  }

  /** For a running child it is `cont`, unless the child stands on a breakpoint. */
  lemma RunAgainOutcome(isa: Isa, d: Dbg, launch: Launch, fuel: nat)
    requires WellFormed(d) && d.stat == RUNNING && d.proc.Some?
    ensures Step(isa, d, Run(launch, fuel)) ==
              if Live(d.bps, d.proc.value.cpu.rip) then Result(d, Done) else Step(isa, d, Cont(fuel))
  {
  }

  /**
   If `run` ends in a trap, the child is on the first breakpoint that the original run of the
   image reaches, before that instruction runs; or it has not moved from one at its entry point.
   */
  lemma RunStopsAtFirst(isa: Isa, d: Dbg, launch: Launch, fuel: nat)
    requires WellFormed(d) && LaunchTraces(isa, d, Run(launch, fuel))
    requires var r := Step(isa, d, Run(launch, fuel)); r.out == Done && r.d.status == TrapStop
    ensures var r := Step(isa, d, Run(launch, fuel));
            && r.d.proc.Some? && Live(r.d.bps, r.d.proc.value.cpu.rip)
            && exists k: nat ::
                 && RunFor(isa, launch.image, launch.cpu, k) == Some(r.d.proc.value.cpu)
                 && forall j: nat | j < k :: MeetsNone(isa, launch.image, launch.cpu, r.d.bps, j)
  {
    var r, start := Step(isa, d, Run(launch, fuel)), Command.Start(launch);
    StartOutcome(isa, d, launch);
    var d1 := Step(isa, d, start).d;
    if OnBreakpoint(d1) {
      assert r.d == d1 && RunFor(isa, launch.image, launch.cpu, 0) == Some(d1.proc.value.cpu);
    } else {
      StartFollows(isa, d, launch);
      StartKeepsForm(d, launch);
      assert !Live(d1.bps, launch.cpu.rip);
      ContStopsAtFirst(isa, launch.image, launch.cpu, d1, fuel, 0);
      ContFared(isa, d1, fuel);
      var k: nat :| && RunFor(isa, launch.image, launch.cpu, k) == Some(r.d.proc.value.cpu)
                    && forall j: nat | 0 < j < k :: PassesAt(isa, launch.image, launch.cpu, d1, j);
      forall j: nat | j < k
        ensures MeetsNone(isa, launch.image, launch.cpu, d1.bps, j)
      {
        PassesMeetsNone(isa, launch.image, launch.cpu, d1, j);
      }
    }
  }

  /** With no breakpoint at rip and all planted, to pass is to meet none. */
  lemma PassesMeetsNone(isa: Isa, orig: Mem, start: Cpu, d: Dbg, j: nat)
    requires d.proc == Some(Proc(Planted(orig, d.bps), start)) && !Live(d.bps, start.rip)
    requires j > 0 ==> PassesAt(isa, orig, start, d, j)
    ensures MeetsNone(isa, orig, start, d.bps, j)
  {
    if j > 0 {
      var a := RunFor(isa, orig, start, j).value.rip;
      assert Plus(a, 0) == a;
    }
  }

  /** Instruction `j` of the original run is not at a breakpoint that could be planted. */
  ghost predicate MeetsNone(isa: Isa, orig: Mem, start: Cpu, bps: seq<Bp>, j: nat) {
    RunFor(isa, orig, start, j).Some? && !Stoppable(orig, bps, RunFor(isa, orig, start, j).value.rip)
  }

  // ----- break and delete

  /** A free address at most the section's size above its start, of a section that does not wrap. */
  ghost predicate MayBreakAt(d: Dbg, a: Word) {
    && d.stat != INIT && d.stext.Some? && !Live(d.bps, a)
    && Minus(Minus(a, d.base), d.stext.value.addr) <= d.stext.value.size
    && Plus(d.base, d.stext.value.addr) + d.stext.value.size < MODULUS
  }

  /** `break` appends a breakpoint with the next number, and plants it if there is a child. */
  lemma BreakOutcome(isa: Isa, d: Dbg, a: Word)
    requires WellFormed(d)
    ensures var r := Step(isa, d, Break(Some(a)));
            r.out == Done &&
            if !MayBreakAt(d, a) then r.d == d
            else && r.d == d.(bpi := d.bpi + 1, bps := r.d.bps, proc := r.d.proc)
                 && |r.d.bps| == |d.bps| + 1 && r.d.bps[..|d.bps|] == d.bps
                 && r.d.bps[|d.bps|].id == d.bpi && r.d.bps[|d.bps|].addr == a
                 && match d.proc
                    case None => r.d.proc.None?
                    case Some(p) => r.d.proc.Some? && PlantedAt(p, r.d.proc.value, r.d.bps[|d.bps|])
  {
    if d.stat != INIT {
      RangeCheckExactlyWhen(d, a);
    }
    if Accepts(d, a) && d.proc.Some? && WordMapped(d.proc.value.text, a) {
      var bp := BreakCommand(d, Some(a)).bps[|d.bps|];
      SavedBytes(d.proc.value.text, bp);
      assert Plus(a, 0) == a;
    }
  }

  /** The child has an INT3 more, if its word is mapped, and the breakpoint has the bytes that were there. */
  ghost predicate PlantedAt(p: Proc, p': Proc, bp: Bp) {
    var m, m' := p.text, p'.text;
    p'.cpu == p.cpu &&
    if !WordMapped(m, bp.addr) then m' == m
    else && m'.Keys == m.Keys
         && (forall x: Word | x in m :: m'[x] == if x == bp.addr then 0xcc else m[x])
         && forall x: Word | x in m && InWord(bp.addr, x) :: SavedByte(bp, x) == m[x]
  }

  /** `delete` writes the bytes saved with the one breakpoint that it removes, and does nothing else. */
  lemma DeleteOutcome(isa: Isa, d: Dbg, id: int)
    requires WellFormed(d)
    ensures var r := Step(isa, d, Delete(Some(id)));
            && r.out == Done && r.d == d.(bps := Except(d.bps, id), proc := r.d.proc)
            && ((forall i | 0 <= i < |d.bps| :: d.bps[i].id != id) ==> r.d == d)
            && (forall i | 0 <= i < |d.bps| && d.bps[i].id == id :: HasBack(d.proc, r.d.proc, d.bps[i]))
  {
    DeleteRemovesExactly(d, id);
    match FindIdFrom(d.bps, id, 0)
    case None => ExceptNone(d.bps, id);
    case Some(found) =>
      DeleteAt(d, found);
      ProcHasBack(d.proc, d.bps[found]);
      forall i | 0 <= i < |d.bps| && d.bps[i].id == id
        ensures i == found
      {
        WithoutMember(d.bps, d.bpi, found, i);
      }
  }

  lemma ProcHasBack(p: Option<Proc>, bp: Bp)
    ensures HasBack(p, UnpatchProc(p, bp), bp)
  {
    if p.Some? {
      Lifting(p.value.text, bp);
    }
  }

  /** The child, if there is one, has its registers, and the bytes that were saved. */
  ghost predicate HasBack(p: Option<Proc>, p': Option<Proc>, bp: Bp) {
    match p
    case None => p'.None?
    case Some(q) => p'.Some? && p'.value.cpu == q.cpu && WrittenBack(q.text, p'.value.text, bp)
  }

  ghost predicate WrittenBack(m: Mem, m': Mem, bp: Bp) {
    if !WordMapped(m, bp.addr) then m' == m
    else && m'.Keys == m.Keys
         && forall x: Word | x in m :: m'[x] == if InWord(bp.addr, x) then SavedByte(bp, x) else m[x]
  }

  // ----- disasm, and leaving

  /** A `disasm` of a running child crashes on an unexplained 0xCC, and otherwise moves on by what it shows. */
  lemma DisasmOutcome(isa: Isa, d: Dbg, a: Word, n: Word)
    requires WellFormed(d) && d.stat == RUNNING
    ensures var r := Step(isa, d, Disasm(Some(a), Some(n)));
            if View(d, a).None? then r == Result(d, Crash) else r == Result(d.(ldisasm := Plus(a, n)), Done)
  {
  }

  /** A bare `disasm` after it goes on behind the bytes shown, as if their end had been given (unless that is 0). */
  lemma DisasmGoesOn(isa: Isa, d: Dbg, a: Word, n: Word, shown: Option<Word>)
    requires WellFormed(d) && d.stat != INIT && Step(isa, d, Disasm(Some(a), Some(n))).out == Done
    ensures var first := Disasm(Some(a), Some(n));
            var bare := Exec(isa, d, [first, Disasm(None, shown)]);
            if Plus(a, n) == 0 then bare == Exec(isa, d, [first])
            else bare == Exec(isa, d, [first, Disasm(Some(Plus(a, n)), shown)])
  {
    var first := Disasm(Some(a), Some(n));
    var d1 := Step(isa, d, first).d;
    ExecOne(isa, d, first);
    ExecOn(isa, d, first, [Disasm(None, shown)]);
    ExecOn(isa, d, first, [Disasm(Some(Plus(a, n)), shown)]);
    ExecOne(isa, d1, Disasm(None, shown));
    ExecOne(isa, d1, Disasm(Some(Plus(a, n)), shown));
    assert [first] + [Disasm(None, shown)] == [first, Disasm(None, shown)];
    assert [first] + [Disasm(Some(Plus(a, n)), shown)] == [first, Disasm(Some(Plus(a, n)), shown)];
  }

  /** `exit` ends the debugger, with child, list and program gone; commands without their argument do nothing. */
  lemma OtherOutcomes(isa: Isa, d: Dbg)
    requires WellFormed(d)
    ensures var r := Step(isa, d, Command.Exit);
            && r.out == Quit && r.d.stat == INIT && r.d.proc.None? && r.d.bps == [] && r.d.eh.None?
    ensures Step(isa, d, Load(None)) == Step(isa, d, Break(None)) == Step(isa, d, Delete(None)) == Result(d, Done)
    ensures d.ldisasm == 0 ==> Step(isa, d, Disasm(None, None)) == Result(d, Done)
  {
    StopKeeps(d);
  }
}
