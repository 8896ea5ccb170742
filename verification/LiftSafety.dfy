/**
 The text over whole command sequences, with breakpoints at any spacing and in any order. It is
 clean in every state exactly when every command that lifts a breakpoint writes back an
 allowed word; and that is so of all of them if it is minded which breakpoints are deleted.
 */
module LiftSafety {
  import opened Words
  import opened Options
  import opened Memory
  import opened Child
  import opened Commands
  import opened MemoryInvariant
  import opened MemorySafety
  import opened AnySpacing

  /** `orig` is the text of the traced child; with `sound`, every breakpoint may be lifted. */
  ghost predicate TrackedBy(sound: bool, orig: Mem, d: Dbg) {
    && Distinct(d.bps)
    && (d.proc.Some? ==>
          && d.stat == RUNNING && Tracked(orig, d.proc.value.text, d.bps)
          && (sound ==> AllRestore(orig, d.bps)))
  }

  /** The breakpoint whose word the command writes back, if there is one. */
  function LiftedBy(d: Dbg, c: Command): (i: Option<nat>)
    ensures i.Some? ==> i.value < |d.bps|
  {
    if d.proc.None? then None
    else match c
         case Si => if d.stat == RUNNING then Find(d.bps, d.proc.value.cpu.rip) else None
         case Cont(_) => if d.stat == RUNNING then Find(d.bps, d.proc.value.cpu.rip) else None
         case Delete(id) => if id.Some? then FindIdFrom(d.bps, id.value, 0) else None
         case _ => None
  }

  /** The word that the command writes back, if any, is an allowed one. */
  ghost predicate Lifts(orig: Mem, d: Dbg, c: Command) {
    LiftedBy(d, c).Some? ==> Restores(orig, d.bps, LiftedBy(d, c).value)
  }

  ghost predicate AllLift(isa: Isa, orig: Mem, d: Dbg, cs: seq<Command>)
    requires Linked(d)
    decreases |cs|
  {
    cs == [] ||
    (Lifts(orig, d, cs[0]) &&
     (Step(isa, d, cs[0]).out == Done ==>
        AllLift(isa, ImageAfter(d, cs[0], orig), Step(isa, d, cs[0]).d, cs[1..])))
  }

  /** It matters only if the child outlives the command. */
  ghost predicate LiftFits(isa: Isa, orig: Mem, d: Dbg, c: Command)
    requires Linked(d)
  {
    Step(isa, d, c).d.proc.Some? ==> Lifts(orig, d, c)
  }

  /** A breakpoint that is deleted has its INT3 in no other saved word. */
  ghost predicate DeleteFits(orig: Mem, d: Dbg, c: Command) {
    c.Delete? && LiftedBy(d, c).Some? ==> Unsaved(orig, d.bps, LiftedBy(d, c).value)
  }

  ghost predicate Fits(sound: bool, isa: Isa, orig: Mem, d: Dbg, c: Command)
    requires Linked(d)
  {
    if sound then DeleteFits(orig, d, c) else LiftFits(isa, orig, d, c)
  }

  ghost predicate AllFit(sound: bool, isa: Isa, orig: Mem, d: Dbg, cs: seq<Command>)
    requires Linked(d)
    decreases |cs|
  {
    cs == [] ||
    (Fits(sound, isa, orig, d, cs[0]) &&
     (Step(isa, d, cs[0]).out == Done ==>
        AllFit(sound, isa, ImageAfter(d, cs[0], orig), Step(isa, d, cs[0]).d, cs[1..])))
  }

  ghost predicate CleanChild(orig: Mem, d: Dbg) {
    d.proc.Some? ==> CleanText(orig, d.proc.value.text, d.bps)
  }

  /** The text is clean after each command of the sequence. */
  ghost predicate StaysClean(isa: Isa, orig: Mem, d: Dbg, cs: seq<Command>)
    requires Linked(d)
    decreases |cs|
  {
    cs == [] ||
    (var r, orig' := Step(isa, d, cs[0]), ImageAfter(d, cs[0], orig);
     CleanChild(orig', r.d) && (r.out == Done ==> StaysClean(isa, orig', r.d, cs[1..])))
  }

  // ----- the breakpoint list

  lemma StopDistinct(d: Dbg)
    requires Linked(d) && Distinct(d.bps)
    ensures Distinct(Stop(d).bps)
  {
    forall i | 0 <= i < |d.bps|
      ensures Plus(Minus(d.bps[i].addr, d.base), d.base) == d.bps[i].addr
    {
    }
  }

  // ----- one command

  /** Neither of the requests to the child changes text or list, as long as it lives. */
  lemma CmdText(isa: Isa, d: Dbg, request: Request)
    requires Linked(d) && d.proc.Some? && Distinct(d.bps)
    ensures var d' := Cmd(isa, d, request).d;
            && Distinct(d'.bps)
            && (d'.proc.Some? ==>
                  d'.proc.value.text == d.proc.value.text && d'.bps == d.bps && d'.stat == d.stat)
  {
    StopDistinct(d);
  }

  /** A single step lifts and re-plants the breakpoint at rip. */
  lemma SiText(isa: Isa, d: Dbg)
    requires Linked(d) && d.stat == RUNNING && d.proc.Some? && Distinct(d.bps)
    ensures var d', m := SiCommand(isa, d).d, d.proc.value.text;
            && Distinct(d'.bps)
            && (d'.proc.Some? ==>
                  d'.bps == d.bps && d'.stat == d.stat &&
                  d'.proc.value.text == match Find(d.bps, d.proc.value.cpu.rip)
                                        case None => m
                                        case Some(i) => Patch(Unpatch(m, d.bps[i].addr, d.bps[i].code), d.bps[i].addr))
  {
    match Find(d.bps, d.proc.value.cpu.rip)
    case None => CmdText(isa, d, SingleStep);
    case Some(i) => CmdText(isa, d.(proc := UnpatchProc(d.proc, d.bps[i])), SingleStep);
  }

  /** A single step, alone or before resuming. */
  lemma SiTracked(sound: bool, orig: Mem, isa: Isa, d: Dbg)
    requires Linked(d) && TrackedBy(sound, orig, d)
    ensures var d' := SiCommand(isa, d).d;
            && Distinct(d'.bps) && (d'.proc.Some? ==> d'.bps == d.bps && d'.stat == d.stat)
            && (CleanChild(orig, d') <==> (d'.proc.Some? ==> Lifts(orig, d, Si)))
            && (CleanChild(orig, d') ==> TrackedBy(sound, orig, d'))
  {
    if d.stat == RUNNING && d.proc.Some? {
      SiText(isa, d);
      var found := Find(d.bps, d.proc.value.cpu.rip);
      if found.Some? {
        RepatchTrackedExactlyWhen(orig, d.proc.value.text, d.bps, found.value);
      }
    }
  }

  /** Resuming adds nothing to what the step has done to text and list. */
  lemma ContText(isa: Isa, d: Dbg, fuel: nat)
    requires Linked(d) && Distinct(SiCommand(isa, d).d.bps)
    ensures var d1, d' := SiCommand(isa, d).d, ContCommand(isa, d, fuel).d;
            && Distinct(d'.bps)
            && (d'.proc.Some? ==>
                  d1.proc.Some? && d'.proc.value.text == d1.proc.value.text && d'.bps == d1.bps && d'.stat == d1.stat)
  {
    var r := SiCommand(isa, d);
    if r.d.proc.Some? {
      CmdText(isa, r.d, Continue(fuel));
    }
  }

  lemma ContTracked(sound: bool, orig: Mem, isa: Isa, d: Dbg, fuel: nat)
    requires Linked(d) && TrackedBy(sound, orig, d)
    ensures var d' := ContCommand(isa, d, fuel).d;
            && (CleanChild(orig, d') <==> (d'.proc.Some? ==> Lifts(orig, d, Si)))
            && (CleanChild(orig, d') ==> TrackedBy(sound, orig, d'))
  {
    SiTracked(sound, orig, isa, d);
    ContText(isa, d, fuel);
  }

  lemma StartTracked(sound: bool, orig: Mem, d: Dbg, launch: Launch)
    requires Linked(d) && TrackedBy(sound, orig, d)
    ensures TrackedBy(sound, ImageAfter(d, Command.Start(launch), orig), StartCommand(d, launch).d)
  {
    if Launches(d, Command.Start(launch)) {
      TrackedStart(d.bps, if Pie(d) then launch.begin else 0, launch.image);
    }
  }

  lemma RunTracked(sound: bool, orig: Mem, isa: Isa, d: Dbg, launch: Launch, fuel: nat)
    requires Linked(d) && TrackedBy(sound, orig, d)
    ensures TrackedBy(sound, ImageAfter(d, Run(launch, fuel), orig), RunCommand(isa, d, launch, fuel).d)
  {
    StartTracked(sound, orig, d, launch);
    if d.stat != INIT {
      var r := if d.stat == LOADED then StartCommand(d, launch) else Result(d, Done);
      if r.d.proc.Some? && Find(r.d.bps, r.d.proc.value.cpu.rip).None? {
        ContTracked(sound, ImageAfter(d, Run(launch, fuel), orig), isa, r.d, fuel);
      }
    }
  }

  lemma BreakTracked(sound: bool, orig: Mem, d: Dbg, target: Option<Word>)
    requires Linked(d) && TrackedBy(sound, orig, d)
    ensures TrackedBy(sound, orig, BreakCommand(d, target))
  {
    if target.Some? && Accepts(d, target.value) {
      var a := target.value;
      if d.proc.Some? {
        TrackedPatch(orig, d.proc.value.text, d.bps, Bp(d.bpi, a, SavedCode(d.proc.value.text, a)));
      }
    }
  }

  lemma DeleteTracked(sound: bool, orig: Mem, d: Dbg, id: Option<int>)
    requires Linked(d) && TrackedBy(sound, orig, d)
    ensures CleanChild(orig, DeleteCommand(d, id)) <==> Lifts(orig, d, Delete(id))
    ensures CleanChild(orig, DeleteCommand(d, id)) && (sound ==> DeleteFits(orig, d, Delete(id))) ==>
              TrackedBy(sound, orig, DeleteCommand(d, id))
  {
    if id.Some? && FindIdFrom(d.bps, id.value, 0).Some? {
      var i := FindIdFrom(d.bps, id.value, 0).value;
      LiveWithout(d.bps, i);
      if d.proc.Some? {
        UnpatchTrackedExactlyWhen(orig, d.proc.value.text, d.bps, i);
        if sound {
          WithoutRestoresExactlyWhen(orig, d.bps, i);
        }
      }
    }
  }

  lemma LoadTracked(sound: bool, orig: Mem, d: Dbg, file: Option<OpenResult>)
    requires Linked(d) && TrackedBy(sound, orig, d)
    ensures TrackedBy(sound, orig, LoadCommand(d, file))
  {
  }

  /**
   After a command the text is clean exactly when the command wrote back an allowed word, or
   none; and the invariant then holds again.
   */
  lemma StepTracked(sound: bool, orig: Mem, isa: Isa, d: Dbg, c: Command)
    requires Linked(d) && TrackedBy(sound, orig, d)
    ensures var d', orig' := Step(isa, d, c).d, ImageAfter(d, c, orig);
            && (CleanChild(orig', d') <==> (d'.proc.Some? ==> Lifts(orig, d, c)))
            && (CleanChild(orig', d') && (sound ==> DeleteFits(orig, d, c)) ==> TrackedBy(sound, orig', d'))
  {
    match c
    case Load(file) => LoadTracked(sound, orig, d, file);
    case Start(launch) => StartTracked(sound, orig, d, launch);
    case Run(launch, fuel) => RunTracked(sound, orig, isa, d, launch, fuel);
    case Break(target) => BreakTracked(sound, orig, d, target);
    case Delete(id) => DeleteTracked(sound, orig, d, id);
    case Si => SiTracked(sound, orig, isa, d);
    case Cont(fuel) => ContTracked(sound, orig, isa, d, fuel);
    case Disasm(_, _) =>
    case Exit => StopDistinct(d);
  }

  /** A breakpoint that may be deleted: then all others may still be lifted, and only then. */
  lemma DeleteSoundExactlyWhen(orig: Mem, d: Dbg, id: int)
    requires Linked(d) && d.proc.Some? && TrackedBy(true, orig, d)
    ensures TrackedBy(true, orig, DeleteCommand(d, Some(id))) <==> DeleteFits(orig, d, Delete(Some(id)))
  {
    if FindIdFrom(d.bps, id, 0).Some? {
      var i := FindIdFrom(d.bps, id, 0).value;
      UnpatchTrackedExactlyWhen(orig, d.proc.value.text, d.bps, i);
      WithoutRestoresExactlyWhen(orig, d.bps, i);
    }
  }

  // ----- command sequences

  /** The text is clean all the time exactly when every word that is written back is allowed. */
  lemma {:induction false} StaysCleanExactlyWhen(isa: Isa, orig: Mem, d: Dbg, cs: seq<Command>)
    requires Linked(d) && TrackedBy(false, orig, d)
    ensures StaysClean(isa, orig, d, cs) <==> AllFit(false, isa, orig, d, cs)
    decreases |cs|
  {
    if cs == [] {
    } else {
      StepTracked(false, orig, isa, d, cs[0]);
      var r := Step(isa, d, cs[0]);
      if r.out == Done && LiftFits(isa, orig, d, cs[0]) {
        StaysCleanExactlyWhen(isa, ImageAfter(d, cs[0], orig), r.d, cs[1..]);
      }
    }
  }

  /** Where no breakpoint is deleted whose INT3 another one has saved, every word written back is allowed. */
  lemma {:induction false} DeletesFitAllFit(isa: Isa, orig: Mem, d: Dbg, cs: seq<Command>)
    requires Linked(d) && TrackedBy(true, orig, d) && AllFit(true, isa, orig, d, cs)
    ensures AllFit(false, isa, orig, d, cs) && AllLift(isa, orig, d, cs)
    ensures TrackedBy(true, LastImage(isa, d, cs, orig), Exec(isa, d, cs).d)
    decreases |cs|
  {
    if cs == [] {
    } else {
      StepTracked(true, orig, isa, d, cs[0]);
      var r := Step(isa, d, cs[0]);
      assert Lifts(orig, d, cs[0]);
      if r.out == Done {
        DeletesFitAllFit(isa, ImageAfter(d, cs[0], orig), r.d, cs[1..]);
      }
    }
  }

  lemma CleanIsUnsaved(orig: Mem, bps: seq<Bp>, i: nat)
    requires CleanCodes(orig, bps) && i < |bps|
    ensures Unsaved(orig, bps, i)
  {
    var a := bps[i].addr;
    forall j | 0 <= j < |bps| && WordMapped(orig, bps[j].addr) && InWord(bps[j].addr, a) && a in orig
      ensures SavedByte(bps[j], a) == orig[a]
    {
      SavedBytes(orig, bps[j]);
    }
  }

  lemma AscendingTracked(orig: Mem, d: Dbg)
    requires Inv(false, orig, d)
    ensures TrackedBy(true, orig, d)
  {
    forall i, j | 0 <= i < j < |d.bps|
      ensures d.bps[i].addr != d.bps[j].addr
    {
      assert !InWord(d.bps[j].addr, d.bps[i].addr);
    }
    if d.proc.Some? {
      CleanIsTracked(orig, d.proc.value.text, d.bps);
    }
  }

  /** Setting close breakpoints in ascending order is one way to be free to delete any of them. */
  lemma {:induction false} AscendingAllFit(isa: Isa, orig: Mem, d: Dbg, cs: seq<Command>)
    requires Linked(d) && Inv(false, orig, d) && BreaksFit(false, isa, d, cs)
    ensures TrackedBy(true, orig, d) && AllFit(true, isa, orig, d, cs)
    decreases |cs|
  {
    AscendingTracked(orig, d);
    if cs == [] {
    } else {
      var r := Step(isa, d, cs[0]);
      if LiftedBy(d, cs[0]).Some? {
        CleanIsUnsaved(orig, d.bps, LiftedBy(d, cs[0]).value);
      }
      StepKeeps(false, orig, isa, d, cs[0]);
      if r.out == Done {
        AscendingAllFit(isa, ImageAfter(d, cs[0], orig), r.d, cs[1..]);
      }
    }
  }

  /** From the initial state on. */
  lemma AlwaysCleanExactlyWhen(isa: Isa, cs: seq<Command>)
    ensures StaysClean(isa, map[], BLANK, cs) <==> AllFit(false, isa, map[], BLANK, cs)
  {
    StaysCleanExactlyWhen(isa, map[], BLANK, cs);
  }

  /** No stray INT3, at any spacing and in any order, under the condition on deleted breakpoints alone. */
  lemma NoStrayAtAnySpacing(isa: Isa, cs: seq<Command>)
    requires AllFit(true, isa, map[], BLANK, cs)
    ensures StaysClean(isa, map[], BLANK, cs)
    ensures TrackedBy(true, LastImage(isa, BLANK, cs, map[]), Exec(isa, BLANK, cs).d)
  {
    DeletesFitAllFit(isa, map[], BLANK, cs);
    AlwaysCleanExactlyWhen(isa, cs);
  }
}
