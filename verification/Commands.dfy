/**
 The debugger as a state machine on values: what each command makes of the state. The
 class Debugger carries out these transitions on a heap-linked list, field by field.
 */
module Commands {
  import opened Words
  import opened Options
  import opened Memory
  import opened Child
  import opened Elf

  datatype Stat = INIT | LOADED | RUNNING

  datatype Bp = Bp(id: int, addr: Word, code: Word)

  /** `proc` is the child as the kernel holds it, None when there is none to trace. */
  datatype Dbg = Dbg(
    stat: Stat,
    status: Status,
    bpi: int,
    base: Word,
    ldisasm: Word,
    eh: Option<Handle>,
    ptext: Option<Phdr>,
    stext: Option<Shdr>,
    bps: seq<Bp>,
    proc: Option<Proc>)

  const BLANK := Dbg(INIT, NoStatus, 0, 0, 0, None, None, None, [], None)

  /**
   How a command ends: back at the prompt, with exit(1) or exit(0), on a NULL pointer,
   or not yet, because waitpid has not returned.
   */
  datatype Outcome = Done | Quit | Crash | Waiting

  datatype Result = Result(d: Dbg, out: Outcome)

  /** What elf_open finds at the given path. */
  datatype OpenResult = Unopenable | Opened(file: ElfFile)

  /** What fork, execvp and the first waitpid lead to, and where the first mapping begins. */
  datatype Launch = NotForked | ChildError(status: Status) | Launched(image: Mem, cpu: Cpu, begin: Word)

  /** A command with its parsed argument; None where the user gave none. */
  datatype Command =
    | Load(file: Option<OpenResult>)
    | Start(launch: Launch)
    | Run(launch: Launch, fuel: nat)
    | Break(target: Option<Word>)
    | Delete(id: Option<int>)
    | Si
    | Cont(fuel: nat)
    | Disasm(addr: Option<Word>, shown: Option<Word>)
    | Exit

  /** The text section is known once a program is loaded, and its segment once it runs. */
  predicate Linked(d: Dbg) {
    (d.stat != INIT ==> d.stext.Some?) && (d.stat == RUNNING ==> d.ptext.Some?)
  }

  // ----- breakpoints

  /** The index of the first breakpoint from `i` on with the given address. */
  function FindFrom(bps: seq<Bp>, addr: Word, i: nat): (r: Option<nat>)
    requires i <= |bps|
    ensures r.Some? ==> i <= r.value < |bps| && bps[r.value].addr == addr
    ensures r.None? ==> forall j | i <= j < |bps| :: bps[j].addr != addr
    decreases |bps| - i
  {
    if i == |bps| then None
    else if bps[i].addr == addr then Some(i)
    else FindFrom(bps, addr, i + 1)
  }

  function Find(bps: seq<Bp>, addr: Word): (r: Option<nat>)
    ensures r.Some? ==> r.value < |bps| && bps[r.value].addr == addr
    ensures r.None? ==> forall j | 0 <= j < |bps| :: bps[j].addr != addr
  {
    FindFrom(bps, addr, 0)
  }

  /** The index of the first breakpoint from `i` on with the given id. */
  function FindIdFrom(bps: seq<Bp>, id: int, i: nat): (r: Option<nat>)
    requires i <= |bps|
    ensures r.Some? ==> i <= r.value < |bps| && bps[r.value].id == id
    ensures r.None? ==> forall j | i <= j < |bps| :: bps[j].id != id
    decreases |bps| - i
  {
    if i == |bps| then None
    else if bps[i].id == id then Some(i)
    else FindIdFrom(bps, id, i + 1)
  }

  function PatchProc(p: Option<Proc>, a: Word): Option<Proc> {
    match p
    case None => None
    case Some(proc) => Some(proc.(text := Patch(proc.text, a)))
  }

  function PatchCode(p: Option<Proc>, a: Word): Word {
    if p.Some? then SavedCode(p.value.text, a) else 0
  }

  function UnpatchProc(p: Option<Proc>, bp: Bp): Option<Proc> {
    match p
    case None => None
    case Some(proc) => Some(proc.(text := Unpatch(proc.text, bp.addr, bp.code)))
  }

  /** Moving every breakpoint down by the load base. */
  function Unrelocate(bps: seq<Bp>, base: Word): (r: seq<Bp>)
    ensures |r| == |bps|
  {
    seq(|bps|, i requires 0 <= i < |bps| => bps[i].(addr := Minus(bps[i].addr, base)))
  }

  /** Moving every breakpoint up by the load base and patching it, in list order. */
  function Relocate(bps: seq<Bp>, base: Word, text: Mem): (r: (seq<Bp>, Mem))
    ensures |r.0| == |bps|
  {
    if bps == [] then ([], text)
    else
      var last := bps[|bps| - 1];
      var (front, t) := Relocate(bps[..|bps| - 1], base, text);
      var a := Plus(last.addr, base);
      (front + [last.(addr := a, code := SavedCode(t, a))], Patch(t, a))
  }

  // ----- stopping and resetting

  predicate Pie(d: Dbg) {
    d.ptext.Some? && d.ptext.value.vaddr == 0
  }

  function Stop(d: Dbg): (d': Dbg)
    requires Linked(d)
    ensures Linked(d') && |d'.bps| == |d.bps|
  {
    if d.stat == INIT then d
    else
      var bps := if d.stat == RUNNING && Pie(d) then Unrelocate(d.bps, d.base) else d.bps;
      var proc := if d.stat == RUNNING then None else d.proc;
      d.(bps := bps, proc := proc, base := 0, ldisasm := 0, stat := LOADED)
  }

  function Reset(d: Dbg): (d': Dbg)
    ensures Linked(d')
  {
    BLANK.(status := d.status, proc := d.proc)
  }

  function Free(d: Dbg): (d': Dbg)
    requires Linked(d)
    ensures Linked(d')
  {
    Reset(Stop(d))
  }

  // ----- running the child

  /** Rip moves back onto the breakpoint whose INT3 it has just passed. */
  function ResetRip(bps: seq<Bp>, cpu: Cpu): Cpu {
    if Find(bps, Minus(cpu.rip, 1)).Some? then cpu.(rip := Minus(cpu.rip, 1)) else cpu
  }

  function Cmd(isa: Isa, d: Dbg, request: Request): (r: Result)
    requires Linked(d)
    ensures Linked(r.d) && |r.d.bps| == |d.bps|
  {
    if d.proc.None? then Result(d, Quit)
    else match Wait(isa, d.proc.value, request)
         case Blocked(cpu) => Result(d.(proc := Some(d.proc.value.(cpu := cpu))), Waiting)
         case Waited(cpu, status) =>
           match status
           case Exited(_) => Result(Stop(d.(status := status, proc := None)), Done)
           case Signaled(_) => Result(d.(status := status, proc := None), Done)
           case _ =>
             Result(d.(status := status, proc := Some(d.proc.value.(cpu := ResetRip(d.bps, cpu)))), Done)
  }

  function SiCommand(isa: Isa, d: Dbg): (r: Result)
    requires Linked(d)
    ensures Linked(r.d)
  {
    if d.stat != RUNNING then Result(d, Done)
    else if d.proc.None? then Result(d, Quit)
    else match Find(d.bps, d.proc.value.cpu.rip)
         case None => Cmd(isa, d, SingleStep)
         case Some(i) =>
           var r := Cmd(isa, d.(proc := UnpatchProc(d.proc, d.bps[i])), SingleStep);
           if r.out != Done then r else Result(r.d.(proc := PatchProc(r.d.proc, r.d.bps[i].addr)), Done)
  }

  function ContCommand(isa: Isa, d: Dbg, fuel: nat): (r: Result)
    requires Linked(d)
    ensures Linked(r.d)
  {
    if d.stat != RUNNING then Result(d, Done)
    else
      var r := SiCommand(isa, d);
      if r.out != Done then r else Cmd(isa, r.d, Continue(fuel))
  }

  function StartCommand(d: Dbg, launch: Launch): (r: Result)
    requires Linked(d)
    ensures Linked(r.d)
  {
    if d.stat != LOADED then Result(d, Done)
    else match launch
         case NotForked => Result(d.(proc := None), Done)
         case ChildError(status) => Result(d.(status := status, proc := None), Done)
         case Launched(image, cpu, begin) =>
           if d.ptext.None? then Result(d.(status := TrapStop), Crash)
           else
             var base := if Pie(d) then begin else 0;
             var (bps, text) := Relocate(d.bps, base, image);
             Result(d.(status := TrapStop, base := base, bps := bps, proc := Some(Proc(text, cpu)), stat := RUNNING),
                    Done)
  }

  function RunCommand(isa: Isa, d: Dbg, launch: Launch, fuel: nat): (r: Result)
    requires Linked(d)
    ensures Linked(r.d)
  {
    if d.stat == INIT then Result(d, Done)
    else
      var r := if d.stat == LOADED then StartCommand(d, launch) else Result(d, Done);
      if r.out != Done then r
      else if r.d.proc.None? then Result(r.d, Quit)
      else if Find(r.d.bps, r.d.proc.value.cpu.rip).None? then ContCommand(isa, r.d, fuel)
      else r
  }

  // ----- breakpoints, disassembly, loading

  /** The address passes the range check, which includes the section's end. */
  predicate InRange(d: Dbg, target: Word) {
    d.stext.Some? &&
    var begin := Plus(d.base, d.stext.value.addr);
    begin <= target <= Plus(begin, d.stext.value.size)
  }

  predicate Accepts(d: Dbg, target: Word) {
    d.stat != INIT && InRange(d, target) && Find(d.bps, target).None?
  }

  function BreakCommand(d: Dbg, target: Option<Word>): (d': Dbg)
    requires Linked(d)
    ensures Linked(d')
  {
    if target.None? || !Accepts(d, target.value) then d
    else
      var a := target.value;
      var code := if d.stat == RUNNING then PatchCode(d.proc, a) else 0;
      d.(bpi := d.bpi + 1,
      bps := d.bps + [Bp(d.bpi, a, code)],
      proc := if d.stat == RUNNING then PatchProc(d.proc, a) else d.proc)
  }

  function DeleteCommand(d: Dbg, id: Option<int>): (d': Dbg)
    requires Linked(d)
    ensures Linked(d')
  {
    if id.None? then d
    else match FindIdFrom(d.bps, id.value, 0)
         case None => d
         case Some(i) => d.(bps := d.bps[..i] + d.bps[i + 1..], proc := UnpatchProc(d.proc, d.bps[i]))
  }

  const VIEW := 160

  /** The bytes that twenty 8-byte peeks from `addr` on deliver; a failing peek reads as -1. */
  function RawView(p: Option<Proc>, addr: Word): (bs: seq<Byte>)
    ensures |bs| == VIEW
  {
    seq(VIEW, i requires 0 <= i < VIEW =>
      if p.Some? && WordMapped(p.value.text, Plus(addr, i / 8 * 8))
      then p.value.text[Plus(Plus(addr, i / 8 * 8), i % 8)]
      else 0xff)
  }

  /** A 0xCC byte is shown as the low byte of its breakpoint's saved word; NULL without one. */
  function MaskedByte(bps: seq<Bp>, addr: Word, b: Byte): Option<Byte> {
    if b != INT3 then Some(b)
    else match Find(bps, addr)
         case None => None
         case Some(j) => Some(bps[j].code % 256)
  }

  /** The bytes handed to the disassembler; None when a 0xCC has no breakpoint. */
  function View(d: Dbg, addr: Word): (v: Option<seq<Byte>>)
    ensures v.Some? ==> |v.value| == VIEW
  {
    var raw := RawView(d.proc, addr);
    if exists i: nat | i < VIEW :: MaskedByte(d.bps, Plus(addr, i), raw[i]).None? then None
    else Some(seq(VIEW, i requires 0 <= i < VIEW => MaskedByte(d.bps, Plus(addr, i), raw[i]).value))
  }

  /** `shown` is how many bytes the disassembler printed, None when the file has no text there. */
  function DisasmCommand(d: Dbg, arg: Option<Word>, shown: Option<Word>): (r: Result)
    requires Linked(d)
    ensures Linked(r.d)
  {
    if (arg.None? && d.ldisasm == 0) || d.stat == INIT then Result(d, Done)
    else
      var addr := if arg.Some? then arg.value else d.ldisasm;
      if d.stat == LOADED && d.ptext.None? then Result(d, Crash)
      else if d.stat == RUNNING && View(d, addr).None? then Result(d, Crash)
      else if d.stat == LOADED && shown.None? then Result(d, Done)
      else Result(d.(ldisasm := Plus(addr, if shown.Some? then shown.value else 0)), Done)
  }

  /** The file is usable if it has its section header string table and a text section. */
  function SelectText(d: Dbg, file: ElfFile, h: Handle): (d': Dbg)
    requires d.stat == INIT
    ensures Linked(d')
  {
    var ptext, stext := TextSegment(file.phdr, 0), TextSection(file.shdr, file.entry, 0);
    if FindStrTab(h.strtab, file.shstrndx).None? then Reset(d)
    else if stext.None? && d.stext.None? then Reset(d)
    else
      d.(eh := Some(h),
      ptext := if ptext.Some? then ptext else d.ptext,
      stext := if stext.Some? then stext else d.stext,
      stat := LOADED)
  }

  function LoadFrom(d: Dbg, found: OpenResult): (d': Dbg)
    requires d.stat == INIT
    ensures Linked(d')
  {
    match found
    case Unopenable => d.(eh := None)
    case Opened(file) =>
      match LoadAll(file)
      case None => Free(d.(eh := None))
      case Some(h) => SelectText(d, file, h)
  }

  function LoadCommand(d: Dbg, arg: Option<OpenResult>): (d': Dbg)
    requires Linked(d)
    ensures Linked(d')
  {
    if arg.None? then d
    else LoadFrom(if d.stat != INIT then Free(d) else d, arg.value)
  }

  // ----- command sequences

  function Step(isa: Isa, d: Dbg, c: Command): (r: Result)
    requires Linked(d)
    ensures Linked(r.d)
  {
    match c
    case Load(file) => Result(LoadCommand(d, file), Done)
    case Start(launch) => StartCommand(d, launch)
    case Run(launch, fuel) => RunCommand(isa, d, launch, fuel)
    case Break(target) => Result(BreakCommand(d, target), Done)
    case Delete(id) => Result(DeleteCommand(d, id), Done)
    case Si => SiCommand(isa, d)
    case Cont(fuel) => ContCommand(isa, d, fuel)
    case Disasm(addr, shown) => DisasmCommand(d, addr, shown)
    case Exit => Result(Free(d), Quit)
  }

  /** The main loop: commands one after another until one does not come back to the prompt. */
  function Exec(isa: Isa, d: Dbg, cs: seq<Command>): (r: Result)
    requires Linked(d)
    ensures Linked(r.d)
    decreases |cs|
  {
    if cs == [] then Result(d, Done)
    else
      var r := Step(isa, d, cs[0]);
      if r.out != Done then r else Exec(isa, r.d, cs[1..])
  }
}
