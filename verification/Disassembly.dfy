/** What the disassembler is shown of a running child. */
module Disassembly {
  import opened Words
  import opened Options
  import opened Memory
  import opened Child
  import opened Commands
  import opened MemoryInvariant
  import opened AnySpacing

  /** The address of byte `i` of the view. */
  function ViewAddr(addr: Word, i: nat): Word
    requires i < VIEW
  {
    Plus(addr, i)
  }

  /** Byte `i` is either its address's content or, in a word that cannot be read, 0xff. */
  lemma RawViewAt(p: Proc, addr: Word, i: nat)
    requires i < VIEW
    ensures RawView(Some(p), addr)[i]
         == if WordMapped(p.text, Plus(addr, i / 8 * 8))
            then (assert Plus(Plus(addr, i / 8 * 8), i % 8) == ViewAddr(addr, i); p.text[ViewAddr(addr, i)])
            else 0xff
  {
  }

  /** The program itself has a 0xCC at byte `i` of the view. */
  ghost predicate NativeAt(orig: Mem, cpu: Cpu, addr: Word, i: nat)
    requires i < VIEW
  {
    RawView(Some(Proc(orig, cpu)), addr)[i] == INT3
  }

  /**
   A planted byte is shown as the original one, every other byte as it is; but a 0xCC of the
   program's own that carries a breakpoint is shown as 0 if its word is not all mapped.
   */
  lemma ShownByte(orig: Mem, d: Dbg, addr: Word, i: nat)
    requires d.proc.Some? && Tracked(orig, d.proc.value.text, d.bps) && i < VIEW
    ensures var native := RawView(Some(Proc(orig, d.proc.value.cpu)), addr)[i];
            var shown := MaskedByte(d.bps, ViewAddr(addr, i), RawView(d.proc, addr)[i]);
            && (shown.None? <==> native == INT3 && !Live(d.bps, ViewAddr(addr, i)))
            && (shown.Some? ==>
                  (shown.value == native <==> (native == INT3 ==> WordMapped(orig, ViewAddr(addr, i)))))
  {
    var m := d.proc.value.text;
    var a := ViewAddr(addr, i);
    RawViewAt(d.proc.value, addr, i);
    RawViewAt(Proc(orig, d.proc.value.cpu), addr, i);
    SameMapped(orig, m);
    if WordMapped(m, Plus(addr, i / 8 * 8)) {
      assert Plus(Plus(addr, i / 8 * 8), i % 8) == a;
      assert Allowed(orig, d.bps, a, m[a]);
      if Find(d.bps, a).Some? && WordMapped(orig, a) {
        LowByteSaved(orig, d.bps[Find(d.bps, a).value]);
      }
    }
  }

  ghost predicate NativesCarryBreakpoints(orig: Mem, d: Dbg, addr: Word)
    requires d.proc.Some?
  {
    forall i: nat | i < VIEW && NativeAt(orig, d.proc.value.cpu, addr, i) :: Live(d.bps, ViewAddr(addr, i))
  }

  ghost predicate NativesMapped(orig: Mem, d: Dbg, addr: Word)
    requires d.proc.Some?
  {
    forall i: nat | i < VIEW && NativeAt(orig, d.proc.value.cpu, addr, i) :: WordMapped(orig, ViewAddr(addr, i))
  }

  /**
   The debugger follows no NULL pointer exactly when every 0xCC that the program itself has in
   the window carries a breakpoint; and then the 160 bytes handed to the disassembler are those
   that the unpatched child would show, exactly when the whole word at each such 0xCC is mapped.
   */
  lemma ViewIsOriginal(orig: Mem, d: Dbg, addr: Word)
    requires d.proc.Some? && Tracked(orig, d.proc.value.text, d.bps)
    ensures View(d, addr).Some? <==> NativesCarryBreakpoints(orig, d, addr)
    ensures var native := RawView(Some(Proc(orig, d.proc.value.cpu)), addr);
            View(d, addr).Some? ==> (View(d, addr).value == native <==> NativesMapped(orig, d, addr))
  {
    var cpu := d.proc.value.cpu;
    var raw, native := RawView(d.proc, addr), RawView(Some(Proc(orig, cpu)), addr);
    forall i: nat | i < VIEW
      ensures MaskedByte(d.bps, Plus(addr, i), raw[i]).None? <==>
              NativeAt(orig, cpu, addr, i) && !Live(d.bps, ViewAddr(addr, i))
      ensures MaskedByte(d.bps, Plus(addr, i), raw[i]).Some? ==>
                (MaskedByte(d.bps, Plus(addr, i), raw[i]).value == native[i] <==>
                 (NativeAt(orig, cpu, addr, i) ==> WordMapped(orig, ViewAddr(addr, i))))
    {
      ShownByte(orig, d, addr, i);
    }
    if View(d, addr).Some? {
      var shown := View(d, addr).value;
      forall i: nat | i < VIEW
        ensures shown[i] == native[i] <==> (NativeAt(orig, cpu, addr, i) ==> WordMapped(orig, ViewAddr(addr, i)))
      {
        assert shown[i] == MaskedByte(d.bps, Plus(addr, i), raw[i]).value;
      }
      if shown != native {
        var i :| 0 <= i < VIEW && shown[i] != native[i];
      }
    }
  }
}
