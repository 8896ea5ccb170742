/**
 Deleting breakpoints in the reverse of the order in which they were set undoes all of
 it, however close together they lie.
 */
module Undo {
  import opened Words
  import opened Options
  import opened Memory
  import opened Child
  import opened Commands
  import opened Lifecycle

  /** One `break` for each target, in order. */
  function Breaks(targets: seq<Word>): (cs: seq<Command>)
    ensures |cs| == |targets|
  {
    seq(|targets|, i requires 0 <= i < |targets| => Break(Some(targets[i])))
  }

  /** `delete` for the ids from `high - 1` down to `low`. */
  function Deletes(high: int, low: int): seq<Command>
    decreases high - low
  {
    if high <= low then [] else [Delete(Some(high - 1))] + Deletes(high - 1, low)
  }

  lemma {:induction false} ExecConcat(isa: Isa, d: Dbg, cs: seq<Command>, cs': seq<Command>)
    requires Linked(d)
    ensures var r := Exec(isa, d, cs);
            Exec(isa, d, cs + cs') == if r.out != Done then r else Exec(isa, r.d, cs')
    decreases |cs|
  {
    if cs == [] {
      assert [] + cs' == cs';
    } else {
      assert (cs + cs')[1..] == cs[1..] + cs';
      var r := Step(isa, d, cs[0]);
      if r.out == Done {
        ExecConcat(isa, r.d, cs[1..], cs');
      }
    }
  }

  /** Deleting the newest breakpoint right after setting it leaves only the counter changed. */
  lemma DeleteUndoesBreak(d: Dbg, target: Word)
    requires WellFormed(d) && Accepts(d, target)
    ensures DeleteCommand(BreakCommand(d, Some(target)), Some(d.bpi)) == d.(bpi := d.bpi + 1)
  {
    var d1 := BreakCommand(d, Some(target));
    var n := |d.bps|;
    assert forall i | 0 <= i < n :: d1.bps[i] == d.bps[i];
    var found := FindIdFrom(d1.bps, d.bpi, 0);
    assert d1.bps[n].id == d.bpi;
    assert found == Some(n);
    assert d1.bps[..n] + d1.bps[n + 1..] == d.bps;
    if d.proc.Some? {
      UnpatchPatch(d.proc.value.text, target);
    }
  }

  /** `delete` neither reads nor writes the counter. */
  lemma {:induction false} DeletesIgnoreCounter(isa: Isa, d: Dbg, high: int, low: int, n: int)
    requires Linked(d)
    ensures Exec(isa, d, Deletes(high, low)).out == Done
    ensures Exec(isa, d.(bpi := n), Deletes(high, low)).d == Exec(isa, d, Deletes(high, low)).d.(bpi := n)
    ensures Exec(isa, d.(bpi := n), Deletes(high, low)).out == Done
    decreases high - low
  {
    if high <= low {
    } else {
      var d1 := DeleteCommand(d, Some(high - 1));
      assert DeleteCommand(d.(bpi := n), Some(high - 1)) == d1.(bpi := n);
      assert Deletes(high, low)[1..] == Deletes(high - 1, low);
      DeletesIgnoreCounter(isa, d1, high - 1, low, n);
    }
  }

  lemma {:induction false} BreaksSucceed(isa: Isa, d: Dbg, targets: seq<Word>)
    requires WellFormed(d)
    ensures var r := Exec(isa, d, Breaks(targets));
            r.out == Done && WellFormed(r.d) && r.d.bpi >= d.bpi
    decreases |targets|
  {
    if targets == [] {
    } else {
      BreakKeepsForm(d, Some(targets[0]));
      assert Breaks(targets)[1..] == Breaks(targets[1..]);
      BreaksSucceed(isa, BreakCommand(d, Some(targets[0])), targets[1..]);
    }
  }

  lemma ExecOne(isa: Isa, d: Dbg, c: Command)
    requires Linked(d)
    ensures Exec(isa, d, [c]) == Step(isa, d, c)
  {
  }

  /** If deleting down to `low` turns `d` into `d0`, it does so after one more `break` too. */
  lemma UndoOne(isa: Isa, d: Dbg, target: Word, low: int, d0: Dbg)
    requires WellFormed(d) && Linked(d0) && low <= d.bpi
    requires Exec(isa, d, Deletes(d.bpi, low)) == Result(d0.(bpi := d.bpi), Done)
    ensures var d' := BreakCommand(d, Some(target));
            Exec(isa, d', Deletes(d'.bpi, low)) == Result(d0.(bpi := d'.bpi), Done)
  {
    if Accepts(d, target) {
      DeleteUndoesBreak(d, target);
      var n := d.bpi + 1;
      assert Deletes(n, low)[0] == Delete(Some(d.bpi)) && Deletes(n, low)[1..] == Deletes(d.bpi, low);
      DeletesIgnoreCounter(isa, d, d.bpi, low, n);
    }
  }

  /** Setting one more is the last of the breaks. */
  lemma BreaksOneMore(isa: Isa, d: Dbg, front: seq<Word>, last: Word)
    requires WellFormed(d)
    ensures var r := Exec(isa, d, Breaks(front));
            && r.out == Done && WellFormed(r.d) && r.d.bpi >= d.bpi
            && Exec(isa, d, Breaks(front + [last])) == Result(BreakCommand(r.d, Some(last)), Done)
  {
    BreaksSucceed(isa, d, front);
    assert Breaks(front + [last]) == Breaks(front) + [Break(Some(last))];
    ExecConcat(isa, d, Breaks(front), [Break(Some(last))]);
    ExecOne(isa, Exec(isa, d, Breaks(front)).d, Break(Some(last)));
  }

  lemma {:induction false} UndoAll(isa: Isa, d: Dbg, targets: seq<Word>)
    requires WellFormed(d)
    ensures var d' := Exec(isa, d, Breaks(targets)).d;
            Exec(isa, d', Deletes(d'.bpi, d.bpi)) == Result(d.(bpi := d'.bpi), Done)
    decreases |targets|
  {
    if targets == [] {
    } else {
      var front, last := targets[..|targets| - 1], targets[|targets| - 1];
      assert targets == front + [last];
      UndoAll(isa, d, front);
      BreaksOneMore(isa, d, front, last);
      UndoOne(isa, Exec(isa, d, Breaks(front)).d, last, d.bpi, d);
    }
  }

  /**
   Any breaks, accepted or refused, followed by deleting what they added, newest first:
   the child's memory, the breakpoint list and everything but the id counter are as before.
   */
  lemma LastInFirstOutRestores(isa: Isa, d: Dbg, targets: seq<Word>)
    requires WellFormed(d)
    ensures var high := Exec(isa, d, Breaks(targets)).d.bpi;
            Exec(isa, d, Breaks(targets) + Deletes(high, d.bpi)) == Result(d.(bpi := high), Done)
  {
    UndoAll(isa, d, targets);
    BreaksSucceed(isa, d, targets);
    ExecConcat(isa, d, Breaks(targets), Deletes(Exec(isa, d, Breaks(targets)).d.bpi, d.bpi));
  }
}
