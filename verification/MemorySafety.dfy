/**
 The memory invariants over whole command sequences. With `strict` the discipline is that
 breakpoints stay a word apart, and the text is then exactly known; without it closer
 breakpoints are allowed as long as they are set in ascending order.
 */
module MemorySafety {
  import opened Words
  import opened Options
  import opened Memory
  import opened Child
  import opened Commands
  import opened MemoryInvariant

  ghost predicate Ordered(strict: bool, bps: seq<Bp>) {
    if strict then Spaced(bps) else Ascending(bps)
  }

  ghost predicate TextOk(strict: bool, orig: Mem, m: Mem, bps: seq<Bp>) {
    Clean(orig, m, bps) && (strict ==> Spaced(bps) && Armed(orig, m, bps))
  }

  /** `orig` is the unpatched text of the child that is being traced, if there is one. */
  ghost predicate Inv(strict: bool, orig: Mem, d: Dbg) {
    && Ordered(strict, d.bps)
    && (d.proc.Some? ==> d.stat == RUNNING && TextOk(strict, orig, d.proc.value.text, d.bps))
  }

  /** The word at a new breakpoint holds no earlier one; if `strict`, no earlier word reaches it. */
  ghost predicate FitsIn(strict: bool, bps: seq<Bp>, a: Word) {
    WordFree(bps, a) && (strict ==> Outside(bps, a))
  }

  ghost predicate BreakFits(strict: bool, d: Dbg, c: Command) {
    c.Break? && c.target.Some? && Accepts(d, c.target.value) ==> FitsIn(strict, d.bps, c.target.value)
  }

  /** Each command of the sequence that gets its turn fits the state it is given in. */
  ghost predicate BreaksFit(strict: bool, isa: Isa, d: Dbg, cs: seq<Command>)
    requires Linked(d)
    decreases |cs|
  {
    cs == [] ||
    (BreakFits(strict, d, cs[0]) &&
     (Step(isa, d, cs[0]).out == Done ==> BreaksFit(strict, isa, Step(isa, d, cs[0]).d, cs[1..])))
  }

  predicate Launches(d: Dbg, c: Command) {
    d.stat == LOADED && d.ptext.Some? && (c.Start? || c.Run?) && c.launch.Launched?
  }

  /** The original text of the child traced after command `c`. */
  function ImageAfter(d: Dbg, c: Command, image: Mem): Mem {
    if Launches(d, c) then c.launch.image else image
  }

  function LastImage(isa: Isa, d: Dbg, cs: seq<Command>, image: Mem): Mem
    requires Linked(d)
    decreases |cs|
  {
    if cs == [] then image
    else
      var r, image' := Step(isa, d, cs[0]), ImageAfter(d, cs[0], image);
      if r.out != Done then image' else LastImage(isa, r.d, cs[1..], image')
  }

  // ----- the breakpoint list

  lemma UnrelocateOrdered(strict: bool, bps: seq<Bp>, base: Word)
    requires Ordered(strict, bps)
    ensures Ordered(strict, Unrelocate(bps, base))
  {
    var bps' := Unrelocate(bps, base);
    forall i, j | 0 <= i < |bps| && 0 <= j < |bps|
      ensures InWord(bps'[j].addr, bps'[i].addr) == InWord(bps[j].addr, bps[i].addr)
    {
    }
  }

  lemma RelocateOrdered(strict: bool, bps: seq<Bp>, base: Word, text: Mem)
    requires Ordered(strict, bps)
    ensures Ordered(strict, Relocate(bps, base, text).0)
  {
    var bps' := Relocate(bps, base, text).0;
    forall i, j | 0 <= i < |bps| && 0 <= j < |bps|
      ensures InWord(bps'[j].addr, bps'[i].addr) == InWord(bps[j].addr, bps[i].addr)
    {
      RelocateMember(bps, base, text, i);
      RelocateMember(bps, base, text, j);
    }
  }

  lemma StopOrdered(strict: bool, d: Dbg)
    requires Linked(d) && Ordered(strict, d.bps)
    ensures Ordered(strict, Stop(d).bps)
  {
    UnrelocateOrdered(strict, d.bps, d.base);
  }

  // ----- one command

  lemma CmdKeeps(strict: bool, orig: Mem, isa: Isa, d: Dbg, request: Request)
    requires Linked(d) && Inv(strict, orig, d)
    ensures Inv(strict, orig, Cmd(isa, d, request).d)
  {
    if d.proc.Some? {
      var w := Wait(isa, d.proc.value, request);
      if w.Waited? && w.status.Exited? {
        StopOrdered(strict, d.(status := w.status, proc := None));
      }
    }
  }

  /** While a breakpoint is lifted the text is that of the list without it. */
  lemma LiftedCmd(isa: Isa, d: Dbg, i: nat)
    requires Linked(d) && d.proc.Some? && d.stat == RUNNING && i < |d.bps|
    ensures var lifted := d.(proc := UnpatchProc(d.proc, d.bps[i]));
            var r := Cmd(isa, lifted, SingleStep);
            && r.out == Done
            && (r.d.proc.Some? ==> r.d.bps == d.bps && r.d.stat == RUNNING &&
                                   r.d.proc.value.text == Unpatch(d.proc.value.text, d.bps[i].addr, d.bps[i].code))
  {
  }

  lemma SiKeeps(strict: bool, orig: Mem, isa: Isa, d: Dbg)
    requires Linked(d) && Inv(strict, orig, d)
    ensures Inv(strict, orig, SiCommand(isa, d).d)
  {
    if d.stat == RUNNING && d.proc.Some? {
      match Find(d.bps, d.proc.value.cpu.rip)
      case None => CmdKeeps(strict, orig, isa, d, SingleStep);
      case Some(i) =>
        var text := d.proc.value.text;
        LiftedCmd(isa, d, i);
        CleanRepatch(orig, text, d.bps, i);
        if strict {
          ExactRepatch(orig, text, d.bps, i);
        }
        StopOrdered(strict, d.(proc := None));
    }
  }

  lemma ContKeeps(strict: bool, orig: Mem, isa: Isa, d: Dbg, fuel: nat)
    requires Linked(d) && Inv(strict, orig, d)
    ensures Inv(strict, orig, ContCommand(isa, d, fuel).d)
  {
    SiKeeps(strict, orig, isa, d);
    var r := SiCommand(isa, d);
    CmdKeeps(strict, orig, isa, r.d, Continue(fuel));
  }

  lemma StartKeeps(strict: bool, orig: Mem, d: Dbg, launch: Launch)
    requires Linked(d) && Inv(strict, orig, d)
    ensures Inv(strict, ImageAfter(d, Command.Start(launch), orig), StartCommand(d, launch).d)
  {
    if Launches(d, Command.Start(launch)) {
      var base := if Pie(d) then launch.begin else 0;
      RelocateOrdered(strict, d.bps, base, launch.image);
      if strict {
        ExactStart(d.bps, base, launch.image);
      } else {
        CleanStart(d.bps, base, launch.image);
      }
    }
  }

  lemma RunKeeps(strict: bool, orig: Mem, isa: Isa, d: Dbg, launch: Launch, fuel: nat)
    requires Linked(d) && Inv(strict, orig, d)
    ensures Inv(strict, ImageAfter(d, Run(launch, fuel), orig), RunCommand(isa, d, launch, fuel).d)
  {
    StartKeeps(strict, orig, d, launch);
    if d.stat != INIT {
      var r := if d.stat == LOADED then StartCommand(d, launch) else Result(d, Done);
      ContKeeps(strict, ImageAfter(d, Run(launch, fuel), orig), isa, r.d, fuel);
    }
  }

  lemma BreakKeeps(strict: bool, orig: Mem, d: Dbg, target: Option<Word>)
    requires Linked(d) && Inv(strict, orig, d) && BreakFits(strict, d, Break(target))
    ensures Inv(strict, orig, BreakCommand(d, target))
  {
    if target.Some? && Accepts(d, target.value) {
      var a := target.value;
      var code := if d.stat == RUNNING then PatchCode(d.proc, a) else 0;
      var bp := Bp(d.bpi, a, code);
      var bps' := d.bps + [bp];
      assert forall i | 0 <= i < |d.bps| :: bps'[i] == d.bps[i];
      if d.proc.Some? {
        CleanPatch(orig, d.proc.value.text, d.bps, bp);
        if strict {
          ArmedPatch(orig, d.proc.value.text, d.bps, bp);
        }
      }
    }
  }

  lemma WithoutOrdered(strict: bool, bps: seq<Bp>, i: nat)
    requires Ordered(strict, bps) && i < |bps|
    ensures Ordered(strict, Without(bps, i))
  {
  }

  lemma DeleteKeeps(strict: bool, orig: Mem, d: Dbg, id: Option<int>)
    requires Linked(d) && Inv(strict, orig, d)
    ensures Inv(strict, orig, DeleteCommand(d, id))
  {
    if id.Some? && FindIdFrom(d.bps, id.value, 0).Some? {
      var i := FindIdFrom(d.bps, id.value, 0).value;
      WithoutOrdered(strict, d.bps, i);
      if d.proc.Some? {
        CleanUnpatch(orig, d.proc.value.text, d.bps, i);
        if strict {
          ExactUnpatch(orig, d.proc.value.text, d.bps, i);
        }
      }
    }
  }

  lemma LoadKeeps(strict: bool, orig: Mem, d: Dbg, file: Option<OpenResult>)
    requires Linked(d) && Inv(strict, orig, d)
    ensures Inv(strict, orig, LoadCommand(d, file))
  {
  }

  lemma StepKeeps(strict: bool, orig: Mem, isa: Isa, d: Dbg, c: Command)
    requires Linked(d) && Inv(strict, orig, d) && BreakFits(strict, d, c)
    ensures Inv(strict, ImageAfter(d, c, orig), Step(isa, d, c).d)
  {
    match c
    case Load(file) => LoadKeeps(strict, orig, d, file);
    case Start(launch) => StartKeeps(strict, orig, d, launch);
    case Run(launch, fuel) => RunKeeps(strict, orig, isa, d, launch, fuel);
    case Break(target) => BreakKeeps(strict, orig, d, target);
    case Delete(id) => DeleteKeeps(strict, orig, d, id);
    case Si => SiKeeps(strict, orig, isa, d);
    case Cont(fuel) => ContKeeps(strict, orig, isa, d, fuel);
    case Disasm(_, _) =>
    case Exit => StopOrdered(strict, d);
  }

  lemma {:induction false} ExecKeeps(strict: bool, orig: Mem, isa: Isa, d: Dbg, cs: seq<Command>)
    requires Linked(d) && Inv(strict, orig, d) && BreaksFit(strict, isa, d, cs)
    ensures Inv(strict, LastImage(isa, d, cs, orig), Exec(isa, d, cs).d)
    decreases |cs|
  {
    if cs == [] {
    } else {
      StepKeeps(strict, orig, isa, d, cs[0]);
      var r := Step(isa, d, cs[0]);
      if r.out == Done {
        ExecKeeps(strict, ImageAfter(d, cs[0], orig), isa, r.d, cs[1..]);
      }
    }
  }

  // ----- from the initial state

  /**
   Breakpoints a word apart: whatever commands are given, the text of a traced child is
   its original text with 0xCC at exactly the live addresses.
   */
  lemma TextIsPlanted(isa: Isa, cs: seq<Command>)
    requires BreaksFit(true, isa, BLANK, cs)
    ensures var d, orig := Exec(isa, BLANK, cs).d, LastImage(isa, BLANK, cs, map[]);
            d.proc.Some? ==> d.proc.value.text == Planted(orig, d.bps) && CleanCodes(orig, d.bps)
  {
    var d, orig := Exec(isa, BLANK, cs).d, LastImage(isa, BLANK, cs, map[]);
    ExecKeeps(true, map[], isa, BLANK, cs);
    if d.proc.Some? {
      ExactIsPlanted(orig, d.proc.value.text, d.bps);
    }
  }

  /**
   Close breakpoints in ascending order: some may be disarmed, but each byte is original
   or the INT3 of a live breakpoint, and every saved word is wholly original.
   */
  lemma NoStrayInt3(isa: Isa, cs: seq<Command>)
    requires BreaksFit(false, isa, BLANK, cs)
    ensures var d, orig := Exec(isa, BLANK, cs).d, LastImage(isa, BLANK, cs, map[]);
            d.proc.Some? ==> Clean(orig, d.proc.value.text, d.bps)
  {
    ExecKeeps(false, map[], isa, BLANK, cs);
  }
}
