/**
 What holds of the debugger state after every command sequence: the life cycle, the
 breakpoint list and its numbering, and the relocation of breakpoint addresses.
 */
module Lifecycle {
  import opened Words
  import opened Options
  import opened Child
  import opened Elf
  import ElfTool
  import opened Commands
  import opened MemoryInvariant
  import opened MemorySafety

  /** Ids strictly increase along the list and lie below the next id to be given. */
  ghost predicate Numbered(bps: seq<Bp>, bpi: int) {
    && 0 <= bpi
    && (forall i | 0 <= i < |bps| :: 0 <= bps[i].id < bpi)
    && (forall i, j | 0 <= i < j < |bps| :: bps[i].id < bps[j].id)
  }

  /** Each address lies in the text section or at its end, relative to the load base. */
  ghost predicate InSection(bps: seq<Bp>, base: Word, s: Shdr) {
    forall i | 0 <= i < |bps| :: Minus(Minus(bps[i].addr, base), s.addr) <= s.size
  }

  ghost predicate WellFormed(d: Dbg) {
    && Linked(d)
    && Numbered(d.bps, d.bpi)
    && Distinct(d.bps)
    && (d.stat == INIT ==> d == BLANK.(status := d.status))
    && (d.stat != INIT ==> d.eh.Some? && IsTextSection(d.stext.value, d.eh.value.file.entry)
                           && InSection(d.bps, d.base, d.stext.value))
    && (d.stat == LOADED || !Pie(d) ==> d.base == 0)
    && (d.stat != RUNNING ==> d.proc.None?)
    && (d.stat == RUNNING ==>
          if d.proc.Some? then d.status.TrapStop? || d.status.SignalStop? else d.status.Signaled?)
  }

  // ----- every command keeps the state well formed

  lemma StopKeeps(d: Dbg)
    requires WellFormed(d)
    ensures WellFormed(Stop(d)) && Stop(d).proc.None?
  {
  }

  lemma StoppedKeeps(d: Dbg, status: Status)
    requires WellFormed(d) && d.stat == RUNNING
    ensures WellFormed(Stop(d.(status := status, proc := None)))
  {
    StopKeeps(d);
  }

  /** waitpid reports something. */
  lemma {:induction false} ResumeReports(isa: Isa, p: Proc, fuel: nat)
    ensures var w := Resume(isa, p, fuel); w.Waited? ==> !w.status.NoStatus?
    decreases fuel
  {
    if fuel > 0 && !AtInt3(p.text, p.cpu.rip) && StepOf(isa, p.text, p.cpu).Next? {
      ResumeReports(isa, p.(cpu := StepOf(isa, p.text, p.cpu).cpu), fuel - 1);
    }
  }

  lemma CmdKeepsForm(isa: Isa, d: Dbg, request: Request)
    requires WellFormed(d)
    ensures WellFormed(Cmd(isa, d, request).d)
  {
    if d.proc.Some? {
      var w := Wait(isa, d.proc.value, request);
      if request.Continue? {
        ResumeReports(isa, d.proc.value, request.fuel);
      }
      if w.Waited? && w.status.Exited? {
        StoppedKeeps(d, w.status);
      }
    }
  }

  lemma SiKeepsForm(isa: Isa, d: Dbg)
    requires WellFormed(d)
    ensures WellFormed(SiCommand(isa, d).d)
  {
    if d.stat == RUNNING && d.proc.Some? {
      match Find(d.bps, d.proc.value.cpu.rip)
      case None => CmdKeepsForm(isa, d, SingleStep);
      case Some(i) => CmdKeepsForm(isa, d.(proc := UnpatchProc(d.proc, d.bps[i])), SingleStep);
    }
  }

  lemma ContKeepsForm(isa: Isa, d: Dbg, fuel: nat)
    requires WellFormed(d)
    ensures WellFormed(ContCommand(isa, d, fuel).d)
  {
    SiKeepsForm(isa, d);
    CmdKeepsForm(isa, SiCommand(isa, d).d, Continue(fuel));
  }

  lemma StartKeepsForm(d: Dbg, launch: Launch)
    requires WellFormed(d)
    ensures WellFormed(StartCommand(d, launch).d)
  {
    if Launches(d, Command.Start(launch)) {
      var d' := StartCommand(d, launch).d;
      forall i | 0 <= i < |d.bps|
        ensures d'.bps[i].id == d.bps[i].id && Minus(d'.bps[i].addr, d'.base) == d.bps[i].addr
      {
        RelocateMember(d.bps, d'.base, launch.image, i);
      }
    }
  }

  lemma BreakKeepsForm(d: Dbg, target: Option<Word>)
    requires WellFormed(d)
    ensures WellFormed(BreakCommand(d, target))
  {
  }

  /**
   The wrapping range check accepts exactly the addresses at most the section's size above
   its start, and none at all when the section's end would wrap.
   */
  lemma RangeCheckExactlyWhen(d: Dbg, a: Word)
    requires d.stext.Some?
    ensures var s := d.stext.value;
            InRange(d, a) <==> Minus(Minus(a, d.base), s.addr) <= s.size && Plus(d.base, s.addr) + s.size < MODULUS
  {
  }

  lemma WithoutKeeps(bps: seq<Bp>, i: nat, bpi: int, base: Word, s: Shdr)
    requires i < |bps| && Numbered(bps, bpi) && Distinct(bps) && InSection(bps, base, s)
    ensures Numbered(Without(bps, i), bpi) && Distinct(Without(bps, i)) && InSection(Without(bps, i), base, s)
  {
  }

  lemma DeleteKeepsForm(d: Dbg, id: Option<int>)
    requires WellFormed(d)
    ensures WellFormed(DeleteCommand(d, id))
  {
    if id.Some? && FindIdFrom(d.bps, id.value, 0).Some? {
      WithoutKeeps(d.bps, FindIdFrom(d.bps, id.value, 0).value, d.bpi, d.base, d.stext.value);
    }
  }

  lemma LoadKeepsForm(d: Dbg, file: Option<OpenResult>)
    requires WellFormed(d)
    ensures WellFormed(LoadCommand(d, file))
  {
  }

  lemma StepKeepsForm(isa: Isa, d: Dbg, c: Command)
    requires WellFormed(d)
    ensures WellFormed(Step(isa, d, c).d)
  {
    match c
    case Load(file) => LoadKeepsForm(d, file);
    case Start(launch) => StartKeepsForm(d, launch);
    case Run(launch, fuel) =>
      StartKeepsForm(d, launch);
      ContKeepsForm(isa, d, fuel);
      ContKeepsForm(isa, StartCommand(d, launch).d, fuel);
    case Break(target) => BreakKeepsForm(d, target);
    case Delete(id) => DeleteKeepsForm(d, id);
    case Si => SiKeepsForm(isa, d);
    case Cont(fuel) => ContKeepsForm(isa, d, fuel);
    case Disasm(_, _) =>
    case Exit => StopKeeps(d);
  }

  /** Every state that a command sequence reaches from a well-formed one is well formed. */
  lemma {:induction false} AlwaysWellFormed(isa: Isa, d: Dbg, cs: seq<Command>)
    requires WellFormed(d)
    ensures WellFormed(Exec(isa, d, cs).d)
    decreases |cs|
  {
    if cs == [] {
    } else {
      StepKeepsForm(isa, d, cs[0]);
      var r := Step(isa, d, cs[0]);
      if r.out == Done {
        AlwaysWellFormed(isa, r.d, cs[1..]);
      }
    }
  }

  lemma ReachableWellFormed(isa: Isa, cs: seq<Command>)
    ensures WellFormed(Exec(isa, BLANK, cs).d)
  {
    AlwaysWellFormed(isa, BLANK, cs);
  }

  // ----- loading

  /** What the debugger needs of a file. */
  ghost predicate Loadable(file: ElfFile) {
    && file.phdr != []
    && (forall i | 0 <= i < |file.shdr| && file.shdr[i].kind == 3 ::
          Readable(file, file.shdr[i].offset, file.shdr[i].size))
    && 0 <= file.shstrndx < |file.shdr| && file.shdr[file.shstrndx].kind == 3
    && exists i | 0 <= i < |file.shdr| :: ElfTool.CodeSection(file.shdr[i], file.entry)
  }

  /**
   With a path given, `load` ends LOADED on a loadable file, with its first code segment and its
   first code section around the entry point, and blank on any other file.
   */
  lemma LoadOutcome(d: Dbg, arg: OpenResult)
    requires WellFormed(d)
    ensures var d' := LoadCommand(d, Some(arg));
            if arg.Opened? && Loadable(arg.file)
            then && d'.stat == LOADED && d'.status == d.status && d'.ldisasm == 0
                 && d'.bps == [] && d'.bpi == 0 && d'.base == 0 && d'.proc.None?
                 && d'.eh.Some? && d'.eh.value.file == arg.file
                 && d'.stext.Some? && ElfTool.FirstCodeSection(arg.file.shdr, arg.file.entry, 0, d'.stext)
                 && ElfTool.FirstCodeSegment(arg.file.phdr, 0, d'.ptext)
            else d' == BLANK.(status := d.status)
  {
    StopKeeps(d);
    if arg.Opened? {
      var file := arg.file;
      ElfTool.StrTabsReadable(file, |file.shdr|);
      ElfTool.SegmentFound(file.phdr, 0);
      ElfTool.SectionFound(file.shdr, file.entry, 0);
      if LoadAll(file).Some? {
        ElfTool.StrTabLookup(file, |file.shdr|, file.shstrndx);
      }
    }
  }

  // ----- relocation

  /** `d` has a breakpoint numbered `id` at `offset` above its load base. */
  ghost predicate HasAt(d: Dbg, id: int, offset: Word) {
    exists i | 0 <= i < |d.bps| :: d.bps[i].id == id && Minus(d.bps[i].addr, d.base) == offset
  }

  /** Every breakpoint of `d'` that is not newer than `d` was in `d`, equally far above the base. */
  ghost predicate Carries(d: Dbg, d': Dbg) {
    && d.bpi <= d'.bpi
    && forall i | 0 <= i < |d'.bps| && d'.bps[i].id < d.bpi :: HasAt(d, d'.bps[i].id, Minus(d'.bps[i].addr, d'.base))
  }

  /** The same breakpoints at the same distance from the base, up to saved words. */
  ghost predicate SameOffsets(d: Dbg, d': Dbg) {
    && d'.bpi == d.bpi && |d'.bps| == |d.bps|
    && forall i | 0 <= i < |d.bps| ::
         d'.bps[i].id == d.bps[i].id && Minus(d'.bps[i].addr, d'.base) == Minus(d.bps[i].addr, d.base)
  }

  lemma SameOffsetsCarries(d: Dbg, d': Dbg)
    requires SameOffsets(d, d')
    ensures Carries(d, d')
  {
  }

  lemma CarriesOn(d: Dbg, d1: Dbg, d2: Dbg)
    requires Carries(d, d1) && Carries(d1, d2)
    ensures Carries(d, d2)
  {
  }

  /** The child's run and its end move no breakpoint relative to the base. */
  lemma CmdOffsets(isa: Isa, d: Dbg, request: Request)
    requires WellFormed(d)
    ensures SameOffsets(d, Cmd(isa, d, request).d)
  {
  }

  lemma SiOffsets(isa: Isa, d: Dbg)
    requires WellFormed(d)
    ensures SameOffsets(d, SiCommand(isa, d).d)
  {
    if d.stat == RUNNING && d.proc.Some? {
      match Find(d.bps, d.proc.value.cpu.rip)
      case None =>
      case Some(i) => CmdOffsets(isa, d.(proc := UnpatchProc(d.proc, d.bps[i])), SingleStep);
    }
  }

  lemma ContOffsets(isa: Isa, d: Dbg, fuel: nat)
    requires WellFormed(d)
    ensures SameOffsets(d, ContCommand(isa, d, fuel).d)
  {
    SiOffsets(isa, d);
    SiKeepsForm(isa, d);
    CmdOffsets(isa, SiCommand(isa, d).d, Continue(fuel));
  }

  lemma StartOffsets(d: Dbg, launch: Launch)
    requires WellFormed(d)
    ensures SameOffsets(d, StartCommand(d, launch).d)
  {
    if Launches(d, Command.Start(launch)) {
      var d' := StartCommand(d, launch).d;
      forall i | 0 <= i < |d.bps|
        ensures d'.bps[i].id == d.bps[i].id && Minus(d'.bps[i].addr, d'.base) == d.bps[i].addr
      {
        RelocateMember(d.bps, d'.base, launch.image, i);
      }
    }
  }

  /** Starting and then stopping puts every breakpoint back at its address. */
  lemma StartStopRestores(d: Dbg, launch: Launch)
    requires WellFormed(d) && d.stat == LOADED
    ensures var d' := Stop(StartCommand(d, launch).d);
            && d'.stat == LOADED && d'.base == 0 && |d'.bps| == |d.bps|
            && forall i | 0 <= i < |d.bps| :: d'.bps[i].id == d.bps[i].id && d'.bps[i].addr == d.bps[i].addr
  {
    StartOffsets(d, launch);
    StartKeepsForm(d, launch);
    var d1 := StartCommand(d, launch).d;
    assert forall i | 0 <= i < |d.bps| :: Stop(d1).bps[i].addr == Minus(d1.bps[i].addr, d1.base);
  }

  /** Commands other than the two that drop the program. */
  predicate SameProgram(c: Command) {
    !c.Load? && !c.Exit?
  }

  lemma StepCarries(isa: Isa, d: Dbg, c: Command)
    requires WellFormed(d) && SameProgram(c)
    ensures Carries(d, Step(isa, d, c).d)
  {
    var d' := Step(isa, d, c).d;
    match c
    case Start(launch) =>
      StartOffsets(d, launch);
      SameOffsetsCarries(d, d');
    case Run(launch, fuel) =>
      if d.stat == LOADED {
        StartOffsets(d, launch);
        StartKeepsForm(d, launch);
        ContOffsets(isa, StartCommand(d, launch).d, fuel);
      } else {
        ContOffsets(isa, d, fuel);
      }
      SameOffsetsCarries(d, d');
    case Break(_) => AppendCarries(d, d');
    case Delete(_) => SubsetCarries(d, d');
    case Si =>
      SiOffsets(isa, d);
      SameOffsetsCarries(d, d');
    case Cont(fuel) =>
      ContOffsets(isa, d, fuel);
      SameOffsetsCarries(d, d');
    case Disasm(_, _) =>
      SameOffsetsCarries(d, d');
  }

  lemma SubsetCarries(d: Dbg, d': Dbg)
    requires d'.base == d.base && d'.bpi >= d.bpi
    requires forall bp | bp in d'.bps && bp.id < d.bpi :: bp in d.bps
    ensures Carries(d, d')
  {
  }

  lemma AppendCarries(d: Dbg, d': Dbg)
    requires d'.base == d.base && d'.bpi >= d.bpi
    requires d'.bps == d.bps || exists bp :: d'.bps == d.bps + [bp] && bp.id >= d.bpi
    ensures Carries(d, d')
  {
  }

  /**
   As long as the program stays loaded, starting, stopping, breaking, deleting and running
   in any order never move a breakpoint relative to the load base, nor reuse its number.
   */
  lemma {:induction false} RelocationConserves(isa: Isa, d: Dbg, cs: seq<Command>)
    requires WellFormed(d) && forall i | 0 <= i < |cs| :: SameProgram(cs[i])
    ensures Carries(d, Exec(isa, d, cs).d)
    decreases |cs|
  {
    if cs == [] {
      SameOffsetsCarries(d, d);
    } else {
      StepCarries(isa, d, cs[0]);
      StepKeepsForm(isa, d, cs[0]);
      var r := Step(isa, d, cs[0]);
      if r.out == Done {
        RelocationConserves(isa, r.d, cs[1..]);
        CarriesOn(d, r.d, Exec(isa, r.d, cs[1..]).d);
      }
    }
  }

  // ----- deleting

  function Except(bps: seq<Bp>, id: int): seq<Bp> {
    if bps == [] then []
    else if bps[0].id == id then Except(bps[1..], id)
    else [bps[0]] + Except(bps[1..], id)
  }

  lemma {:induction false} ExceptNone(bps: seq<Bp>, id: int)
    requires forall i | 0 <= i < |bps| :: bps[i].id != id
    ensures Except(bps, id) == bps
  {
    if bps == [] {
    } else {
      ExceptNone(bps[1..], id);
      assert [bps[0]] + bps[1..] == bps;
    }
  }

  lemma {:induction false} ExceptOne(bps: seq<Bp>, i: nat)
    requires i < |bps| && forall j | 0 <= j < |bps| && j != i :: bps[j].id != bps[i].id
    ensures Except(bps, bps[i].id) == Without(bps, i)
  {
    if i == 0 {
      ExceptNone(bps[1..], bps[0].id);
      assert Without(bps, 0) == bps[1..];
    } else {
      assert bps[1..][i - 1] == bps[i];
      ExceptOne(bps[1..], i - 1);
      assert Without(bps, i) == [bps[0]] + Without(bps[1..], i - 1);
    }
  }

  /** `delete n` removes the breakpoint numbered n, or none, and keeps the others in order. */
  lemma DeleteRemovesExactly(d: Dbg, id: int)
    requires WellFormed(d)
    ensures DeleteCommand(d, Some(id)).bps == Except(d.bps, id)
    ensures forall i | 0 <= i < |d.bps| ::
              d.bps[i] in DeleteCommand(d, Some(id)).bps <==> d.bps[i].id != id
  {
    match FindIdFrom(d.bps, id, 0)
    case None => ExceptNone(d.bps, id);
    case Some(i) =>
      ExceptOne(d.bps, i);
      forall j | 0 <= j < |d.bps|
        ensures d.bps[j] in Without(d.bps, i) <==> d.bps[j].id != id
      {
        WithoutMember(d.bps, d.bpi, i, j);
      }
  }

  lemma WithoutMember(bps: seq<Bp>, bpi: int, i: nat, j: nat)
    requires Numbered(bps, bpi) && i < |bps| && j < |bps|
    ensures bps[j].id == bps[i].id <==> j == i
    ensures bps[j] in Without(bps, i) <==> j != i
  {
    var bps' := Without(bps, i);
    if j != i {
      assert bps'[if j < i then j else j - 1] == bps[j];
    } else {
      assert forall k | 0 <= k < |bps'| :: bps'[k] == bps[if k < i then k else k + 1];
    }
  }
}
