/**
 Breakpoints less than a word apart: exactly when a new one saves another's INT3, and exactly
 when lifting one takes the INT3 of another with it.
 */
module CloseBreakpoints {
  import opened Words
  import opened Options
  import opened Memory
  import opened Child
  import opened Commands
  import opened MemoryInvariant
  import opened MemorySafety
  import opened AnySpacing
  import opened Lifecycle
  import opened Undo

  // ----- setting

  /**
   A new breakpoint saves an original word exactly when no armed breakpoint lies in the seven
   bytes above it (unless the program has a 0xCC of its own there). The text itself stays clean
   in any case, see PatchedText.
   */
  lemma BreakCleanExactlyWhen(orig: Mem, d: Dbg, target: Word)
    requires Linked(d) && d.stat == RUNNING && d.proc.Some? && Accepts(d, target)
    requires Clean(orig, d.proc.value.text, d.bps) && WordMapped(orig, target)
    ensures var d', m := BreakCommand(d, Some(target)), d.proc.value.text;
            Clean(orig, d'.proc.value.text, d'.bps) <==>
            forall i | 0 <= i < |d.bps| && InWord(target, d.bps[i].addr) && AtInt3(m, d.bps[i].addr)
              :: AtInt3(orig, d.bps[i].addr)
  {
    var d', m := BreakCommand(d, Some(target)), d.proc.value.text;
    var bp := Bp(d.bpi, target, SavedCode(m, target));
    assert d'.bps == d.bps + [bp] && d'.bps[|d.bps|] == bp;
    assert forall i | 0 <= i < |d.bps| :: d'.bps[i] == d.bps[i];
    PatchedText(orig, m, d.bps, bp);
    SavesOriginal(orig, m, target);
    OriginalWordExactlyWhen(orig, m, d.bps, target);
  }

  /** The text stays clean in any case. */
  lemma PatchedText(orig: Mem, m: Mem, bps: seq<Bp>, bp: Bp)
    requires CleanText(orig, m, bps)
    ensures CleanText(orig, Patch(m, bp.addr), bps + [bp])
  {
    SameMapped(orig, m);
    LiveAppend(bps, bp);
    assert Plus(bp.addr, 0) == bp.addr;
  }

  lemma OriginalWordExactlyWhen(orig: Mem, m: Mem, bps: seq<Bp>, a: Word)
    requires CleanText(orig, m, bps) && WordMapped(orig, a)
    ensures (forall x: Word | x in m && InWord(a, x) :: m[x] == orig[x]) <==>
            forall i | 0 <= i < |bps| && InWord(a, bps[i].addr) && AtInt3(m, bps[i].addr) :: AtInt3(orig, bps[i].addr)
  {
    forall i | 0 <= i < |bps| && InWord(a, bps[i].addr)
      ensures bps[i].addr in orig
    {
      assert Plus(a, Minus(bps[i].addr, a)) == bps[i].addr;
    }
  }

  // ----- lifting

  /** The word that lifting breakpoint `i` writes back holds the INT3s of all others that could be planted in it. */
  ghost predicate KeepsOthers(orig: Mem, bps: seq<Bp>, i: nat)
    requires i < |bps|
  {
    WordMapped(orig, bps[i].addr) ==>
      forall j | 0 <= j < |bps| && j != i && WordMapped(orig, bps[j].addr) && InWord(bps[i].addr, bps[j].addr) ::
        SavedByte(bps[i], bps[j].addr) == INT3
  }

  /**
   The word of breakpoint `i` holds no other breakpoint that could be planted, save where the
   program has a 0xCC of its own.
   */
  ghost predicate LiftsAlone(orig: Mem, bps: seq<Bp>, i: nat)
    requires i < |bps|
  {
    WordMapped(orig, bps[i].addr) ==>
      forall j | 0 <= j < |bps| && j != i && WordMapped(orig, bps[j].addr) && InWord(bps[i].addr, bps[j].addr) ::
        AtInt3(orig, bps[j].addr)
  }

  /** If original words have been saved, which ascending order sees to, it is that condition. */
  lemma LiftsAloneExactlyWhen(orig: Mem, bps: seq<Bp>, i: nat)
    requires CleanCodes(orig, bps) && i < |bps|
    ensures KeepsOthers(orig, bps, i) <==> LiftsAlone(orig, bps, i)
  {
    MappedAddresses(orig, bps);
    if WordMapped(orig, bps[i].addr) {
      SavedBytes(orig, bps[i]);
    }
  }

  lemma MappedAddresses(orig: Mem, bps: seq<Bp>)
    ensures forall j | 0 <= j < |bps| && WordMapped(orig, bps[j].addr) :: bps[j].addr in orig
    ensures forall j | 0 <= j < |bps| :: Plus(bps[j].addr, 0) == bps[j].addr
  {
    forall j | 0 <= j < |bps|
      ensures Plus(bps[j].addr, 0) == bps[j].addr
    {
    }
  }

  /** Lifting a breakpoint leaves the others planted exactly when its saved word holds their INT3s. */
  lemma UnpatchArmedExactlyWhen(orig: Mem, m: Mem, bps: seq<Bp>, i: nat)
    requires m.Keys == orig.Keys && Armed(orig, m, bps) && i < |bps|
    ensures var m' := Unpatch(m, bps[i].addr, bps[i].code);
            m'.Keys == orig.Keys && (Armed(orig, m', Without(bps, i)) <==> KeepsOthers(orig, bps, i))
  {
    Lifting(m, bps[i]);
    SameMapped(orig, m);
    MappedAddresses(orig, bps);
    var m', bps' := Unpatch(m, bps[i].addr, bps[i].code), Without(bps, i);
    if KeepsOthers(orig, bps, i) {
      forall j | 0 <= j < |bps'| && WordMapped(orig, bps'[j].addr)
        ensures m'[Plus(bps'[j].addr, 0)] == INT3
      {
        assert bps'[j] == bps[if j < i then j else j + 1];
      }
    }
    if Armed(orig, m', bps') {
      forall j | 0 <= j < |bps| && j != i && WordMapped(orig, bps[j].addr)
        ensures AtInt3(m', bps[j].addr)
      {
        assert bps'[if j < i then j else j - 1] == bps[j];
      }
    }
  }

  /** So does lifting and re-planting it, as a single step over it does. */
  lemma RepatchArmedExactlyWhen(orig: Mem, m: Mem, bps: seq<Bp>, i: nat)
    requires m.Keys == orig.Keys && Armed(orig, m, bps) && Distinct(bps) && i < |bps|
    ensures var m' := Patch(Unpatch(m, bps[i].addr, bps[i].code), bps[i].addr);
            m'.Keys == orig.Keys && (Armed(orig, m', bps) <==> KeepsOthers(orig, bps, i))
  {
    Lifting(m, bps[i]);
    SameMapped(orig, m);
    SameMapped(orig, Unpatch(m, bps[i].addr, bps[i].code));
    MappedAddresses(orig, bps);
  }

  /** `delete` leaves every other breakpoint planted exactly when the deleted one's word holds their INT3s. */
  lemma DeleteArmedExactlyWhen(orig: Mem, d: Dbg, id: int)
    requires Linked(d) && d.proc.Some?
    requires d.proc.value.text.Keys == orig.Keys && Armed(orig, d.proc.value.text, d.bps)
    ensures var d', found := DeleteCommand(d, Some(id)), FindIdFrom(d.bps, id, 0);
            && d'.proc.Some? && d'.proc.value.text.Keys == orig.Keys
            && (Armed(orig, d'.proc.value.text, d'.bps) <==>
                (found.Some? ==> KeepsOthers(orig, d.bps, found.value)))
  {
    if FindIdFrom(d.bps, id, 0).Some? {
      UnpatchArmedExactlyWhen(orig, d.proc.value.text, d.bps, FindIdFrom(d.bps, id, 0).value);
    }
  }

  /** `si`, as long as the child lives: exactly when the word at rip, if a breakpoint is there, holds them. */
  lemma SiArmedExactlyWhen(isa: Isa, orig: Mem, d: Dbg)
    requires Linked(d) && d.stat == RUNNING && d.proc.Some? && Distinct(d.bps)
    requires d.proc.value.text.Keys == orig.Keys && Armed(orig, d.proc.value.text, d.bps)
    ensures var d', found := SiCommand(isa, d).d, Find(d.bps, d.proc.value.cpu.rip);
            d'.proc.Some? ==>
              && d'.bps == d.bps && d'.proc.value.text.Keys == orig.Keys
              && (Armed(orig, d'.proc.value.text, d'.bps) <==>
                  (found.Some? ==> KeepsOthers(orig, d.bps, found.value)))
  {
    match Find(d.bps, d.proc.value.cpu.rip)
    case None =>
    case Some(i) =>
      LiftedCmd(isa, d, i);
      RepatchArmedExactlyWhen(orig, d.proc.value.text, d.bps, i);
  }

  // ----- what goes wrong otherwise, as commands

  /**
   Two free addresses in the text section, the higher one inside the lower one's word, of a
   running child.
   */
  predicate ClosePair(d: Dbg, low: Word, high: Word) {
    && d.stat == RUNNING && d.proc.Some? && Accepts(d, low) && Accepts(d, high)
    && WordMapped(d.proc.value.text, low) && WordMapped(d.proc.value.text, high)
    && InWord(low, high) && low != high
  }

  /** The state after both have been set, the first one first. */
  function BothSet(d: Dbg, first: Word, second: Word): Dbg
    requires Linked(d)
  {
    BreakCommand(BreakCommand(d, Some(first)), Some(second))
  }

  lemma BothAccepted(d: Dbg, first: Word, second: Word)
    requires WellFormed(d) && Accepts(d, first) && Accepts(d, second) && first != second
    ensures WellFormed(BreakCommand(d, Some(first))) && Accepts(BreakCommand(d, Some(first)), second)
    ensures WellFormed(BothSet(d, first, second))
    ensures var d2 := BothSet(d, first, second);
            && |d2.bps| == |d.bps| + 2 && d2.bps[..|d.bps|] == d.bps
            && d2.bps[|d.bps|].addr == first && d2.bps[|d.bps|].id == d.bpi
            && d2.bps[|d.bps| + 1].addr == second && d2.bps[|d.bps| + 1].id == d.bpi + 1
  {
    BreakKeepsForm(d, Some(first));
    var d1 := BreakCommand(d, Some(first));
    BreakKeepsForm(d1, Some(second));
    assert d1.bps == d.bps + [d1.bps[|d.bps|]];
  }

  /**
   Set in descending order and deleted in the order in which they were set: no breakpoint is
   left of the two, but the INT3 of the higher one is back in the text.
   */
  lemma DescendingLeavesInt3(isa: Isa, d: Dbg, low: Word, high: Word)
    requires WellFormed(d) && ClosePair(d, low, high)
    ensures var cs := [Break(Some(high)), Break(Some(low)), Delete(Some(d.bpi)), Delete(Some(d.bpi + 1))];
            Exec(isa, d, cs) ==
              Result(d.(bpi := d.bpi + 2, proc := Some(d.proc.value.(text := d.proc.value.text[high := INT3]))), Done)
  {
    DescendingStates(d, low, high);
    ExecBothDeletes(isa, d, high, low, d.bpi, d.bpi + 1);
  }

  lemma DescendingStates(d: Dbg, low: Word, high: Word)
    requires WellFormed(d) && ClosePair(d, low, high)
    ensures DeleteCommand(DeleteCommand(BothSet(d, high, low), Some(d.bpi)), Some(d.bpi + 1)) ==
              d.(bpi := d.bpi + 2, proc := Some(d.proc.value.(text := d.proc.value.text[high := INT3])))
  {
    BothAccepted(d, high, low);
    DeleteLastTwo(BothSet(d, high, low));
    DescendingText(d.proc.value.text, low, high);
  }

  /** Deleting the last two, the older one first. */
  lemma DeleteLastTwo(d: Dbg)
    requires WellFormed(d) && |d.bps| >= 2
    ensures var bp, bp' := d.bps[|d.bps| - 2], d.bps[|d.bps| - 1];
            DeleteCommand(DeleteCommand(d, Some(bp.id)), Some(bp'.id)) ==
              d.(bps := d.bps[..|d.bps| - 2], proc := UnpatchProc(UnpatchProc(d.proc, bp), bp'))
  {
    var n := |d.bps| - 2;
    DeleteAt(d, n);
    DeleteKeepsForm(d, Some(d.bps[n].id));
    var d' := DeleteCommand(d, Some(d.bps[n].id));
    assert d'.bps == d.bps[..n] + [d.bps[n + 1]];
    DeleteAt(d', n);
    assert Without(d'.bps, n) == d.bps[..n];
  }

  lemma DeleteAt(d: Dbg, i: nat)
    requires WellFormed(d) && i < |d.bps|
    ensures DeleteCommand(d, Some(d.bps[i].id))
         == d.(bps := Without(d.bps, i), proc := UnpatchProc(d.proc, d.bps[i]))
  {
    assert FindIdFrom(d.bps, d.bps[i].id, 0) == Some(i);
  }

  /** What the four commands do to the text. */
  lemma DescendingText(m: Mem, low: Word, high: Word)
    requires WordMapped(m, low) && WordMapped(m, high) && InWord(low, high) && low != high
    ensures var m1 := Patch(m, high);
            var m3 := Unpatch(Patch(m1, low), high, SavedCode(m, high));
            Unpatch(m3, low, SavedCode(m1, low)) == m1 == m[high := INT3]
  {
    assert Plus(high, 0) == high && Plus(low, 0) == low;
    var m1 := Patch(m, high);
    var m2 := Patch(m1, low);
    UnpatchOriginal(m, m2, high);
    UnpatchOriginal(m1, Unpatch(m2, high, SavedCode(m, high)), low);
  }

  lemma ExecBothDeletes(isa: Isa, d: Dbg, first: Word, second: Word, i: int, j: int)
    requires Linked(d)
    ensures Exec(isa, d, [Break(Some(first)), Break(Some(second)), Delete(Some(i)), Delete(Some(j))]) ==
              Result(DeleteCommand(DeleteCommand(BothSet(d, first, second), Some(i)), Some(j)), Done)
  {
    var c1, c2, c3, c4 := Break(Some(first)), Break(Some(second)), Delete(Some(i)), Delete(Some(j));
    ExecOn(isa, d, c1, [c2, c3, c4]);
    ExecOn(isa, BreakCommand(d, Some(first)), c2, [c3, c4]);
    ExecOn(isa, BothSet(d, first, second), c3, [c4]);
    ExecOne(isa, DeleteCommand(BothSet(d, first, second), Some(i)), c4);
    assert [c1] + [c2, c3, c4] == [c1, c2, c3, c4] && [c2] + [c3, c4] == [c2, c3, c4] && [c3] + [c4] == [c3, c4];
  }

  lemma ExecOn(isa: Isa, d: Dbg, c: Command, cs: seq<Command>)
    requires Linked(d) && Step(isa, d, c).out == Done
    ensures Exec(isa, d, [c] + cs) == Exec(isa, Step(isa, d, c).d, cs)
  {
    ExecConcat(isa, d, [c], cs);
    ExecOne(isa, d, c);
  }

  /**
   Set in ascending order, with the child standing on the lower one: after one step, if the
   child lives, the higher one is still on the list but no longer in the text.
   */
  lemma AscendingDisarms(isa: Isa, d: Dbg, low: Word, high: Word)
    requires WellFormed(d) && ClosePair(d, low, high) && d.proc.value.cpu.rip == low
    ensures var r := SiCommand(isa, BothSet(d, low, high));
            r.d.proc.Some? ==>
              Live(r.d.bps, high) && r.d.proc.value.text == d.proc.value.text[low := INT3]
  {
    var m, n := d.proc.value.text, |d.bps|;
    BothAccepted(d, low, high);
    var d2 := BothSet(d, low, high);
    assert forall i | 0 <= i < n :: d2.bps[i] == d2.bps[..n][i];
    assert Find(d2.bps, low) == Some(n);
    LiftedCmd(isa, d2, n);
    AscendingText(m, low, high);
    assert d2.bps[n + 1].addr == high;
  }

  lemma AscendingText(m: Mem, low: Word, high: Word)
    requires WordMapped(m, low) && WordMapped(m, high) && InWord(low, high) && low != high
    ensures var m2 := Patch(Patch(m, low), high);
            Patch(Unpatch(m2, low, SavedCode(m, low)), low) == m[low := INT3]
  {
    assert Plus(high, 0) == high && Plus(low, 0) == low;
    var m2 := Patch(Patch(m, low), high);
    UnpatchOriginal(m, m2, low);
    assert Unpatch(m2, low, SavedCode(m, low)) == m;
  }
}
