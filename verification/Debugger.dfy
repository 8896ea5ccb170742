/**
 The debugger as an object: its fields, its heap-linked breakpoint list and the commands
 that update them. Every method is specified by the transition of the same name in Commands.
 */
module Debugger {
  import opened Words
  import opened Options
  import opened Memory
  import opened Child
  import opened Elf
  import opened Commands
  import ElfTool

  class BreakPt {
    var id: int
    var addr: Word
    var code: Word
    var next: BreakPt?

    constructor (id: int, addr: Word, code: Word)
      ensures this.id == id && this.addr == addr && this.code == code && this.next == null
    {
      this.id, this.addr, this.code, this.next := id, addr, code, null;
    }

    ghost function Value(): Bp
      reads `id, `addr, `code
    {
      Bp(id, addr, code)
    }
  }

  /** The node at position `i`, NULL from the end of the list on. */
  function NodeAt(ns: seq<BreakPt>, i: nat): BreakPt? {
    if i < |ns| then ns[i] else null
  }

  lemma UnrelocateStep(now: seq<Bp>, before: seq<Bp>, base: Word, k: nat)
    requires k < |before| && now == Unrelocate(before[..k], base) + before[k..]
    ensures now[k := before[k].(addr := Minus(before[k].addr, base))]
         == Unrelocate(before[..k + 1], base) + before[k + 1..]
  {
  }

  lemma RelocateStep(before: seq<Bp>, base: Word, image: Mem, k: nat)
    requires k < |before|
    ensures var (moved, text) := Relocate(before[..k], base, image);
            var a := Plus(before[k].addr, base);
            Relocate(before[..k + 1], base, image) ==
              (moved + [before[k].(addr := a, code := SavedCode(text, a))], Patch(text, a))
  {
    assert before[..k + 1][..k] == before[..k];
  }

  /** The bytes of a peeked word are those of the raw view. */
  lemma PeekedWord(p: Option<Proc>, addr: Word, i: nat, w: Word)
    requires i % 8 == 0 && i + 8 <= VIEW
    requires w == if p.Some? && WordMapped(p.value.text, Plus(addr, i)) then Peek(p.value.text, Plus(addr, i))
                  else MODULUS - 1
    ensures forall j: nat | j < 8 :: Unpack(w, 8)[j] == RawView(p, addr)[i + j]
  {
    if p.Some? && WordMapped(p.value.text, Plus(addr, i)) {
      UnpackPack(BytesAt(p.value.text, Plus(addr, i), 8));
    } else {
      Pow256Eight();
      AllOnes(8);
    }
    forall j: nat | j < 8
      ensures Unpack(w, 8)[j] == RawView(p, addr)[i + j]
    {
      assert (i + j) / 8 * 8 == i && (i + j) % 8 == j;
    }
  }

  lemma {:induction false} AllOnes(n: nat)
    ensures Unpack(Pow256(n) - 1, n) == seq(n, _ => 255)
  {
    if n == 0 {
    } else {
      AllOnes(n - 1);
      assert (Pow256(n) - 1) % 256 == 255 && (Pow256(n) - 1) / 256 == Pow256(n - 1) - 1;
    }
  }

  class Debugger {
    const isa: Isa
    var stat: Stat
    var status: Status
    var bpi: int
    var base: Word
    var ldisasm: Word
    var eh: Option<Handle>
    var ptext: Option<Phdr>
    var stext: Option<Shdr>
    var bp: BreakPt?
    var proc: Option<Proc>
    // the nodes of the list that starts at `bp`, in order, and what they hold
    ghost var nodes: seq<BreakPt>
    ghost var bps: seq<Bp>

    /** The list is acyclic, ends in NULL and holds `bps`. */
    ghost predicate Chained()
      reads `bp, `nodes, `bps, nodes
    {
      && bp == NodeAt(nodes, 0)
      && (forall i, j | 0 <= i < |nodes| && j == i + 1 :: nodes[i].next == NodeAt(nodes, j))
      && (forall i, j | 0 <= i < j < |nodes| :: nodes[i] != nodes[j])
      && |bps| == |nodes|
      && (forall i {:trigger nodes[i]} | 0 <= i < |nodes| :: nodes[i].Value() == bps[i])
    }

    ghost function State(): Dbg
      reads this
    {
      Dbg(stat, status, bpi, base, ldisasm, eh, ptext, stext, bps, proc)
    }

    ghost predicate Valid()
      reads this, nodes
    {
      Chained() && Linked(State())
    }

    constructor (isa: Isa)
      ensures Valid() && State() == BLANK && this.isa == isa && nodes == []
    {
      this.isa := isa;
      stat, status, bpi, base, ldisasm := INIT, NoStatus, 0, 0, 0;
      eh, ptext, stext, bp, proc := None, None, None, null, None;
      nodes, bps := [], [];
    }

    // ----- ptrace

    method PeekText(a: Word) returns (w: Word)
      ensures w == if proc.Some? && WordMapped(proc.value.text, a) then Peek(proc.value.text, a) else MODULUS - 1
    {
      if proc.Some? && WordMapped(proc.value.text, a) {
        w := Peek(proc.value.text, a);
      } else {
        w := MODULUS - 1;
      }
    }

    method PokeText(a: Word, w: Word) returns (ok: bool)
      modifies this`proc
      ensures ok == (old(proc).Some? && WordMapped(old(proc).value.text, a))
      ensures proc == if ok then Some(old(proc).value.(text := Poke(old(proc).value.text, a, w))) else old(proc)
    {
      ok := proc.Some? && WordMapped(proc.value.text, a);
      if ok {
        proc := Some(proc.value.(text := Poke(proc.value.text, a, w)));
      }
    }

    // ----- breakpoints

    method BpPatch(target: Word) returns (code: Word)
      modifies this`proc
      ensures proc == PatchProc(old(proc), target) && code == PatchCode(old(proc), target)
    {
      if proc.Some? && WordMapped(proc.value.text, target) {
        PatchOneByte(proc.value.text, target);
      }
      code := PeekText(target);
      Int3WordBytes(code);
      var ok := PokeText(target, Or(And(code, 0xffff_ffff_ffff_ff00, 64), 0xcc, 64));
      if !ok {
        code := 0;
      }
    }

    method BpUnpatch(b: BreakPt)
      modifies this`proc
      ensures proc == UnpatchProc(old(proc), b.Value())
    {
      var ok := PokeText(b.addr, b.code);
    }

    method BpFindByAddr(addr: Word) returns (r: BreakPt?)
      requires Chained()
      ensures r == match Find(bps, addr) case None => null case Some(i) => nodes[i]
    {
      r := bp;
      ghost var i := 0;
      while r != null
        invariant i <= |nodes| && r == NodeAt(nodes, i)
        invariant FindFrom(bps, addr, i) == Find(bps, addr)
        decreases |nodes| - i
      {
        if r.addr == addr {
          return;
        }
        r, i := r.next, i + 1;
      }
    }

    /** Fails, ending the debugger, when the registers cannot be read. */
    method BpCheck() returns (r: BreakPt?, ok: bool)
      requires Chained()
      ensures ok == proc.Some?
      ensures ok ==> r == match Find(bps, proc.value.cpu.rip) case None => null case Some(i) => nodes[i]
    {
      r, ok := null, proc.Some?;
      if ok {
        r := BpFindByAddr(proc.value.cpu.rip);
      }
    }

    method ResetRip()
      requires Chained() && proc.Some?
      modifies this`proc
      ensures proc == Some(old(proc).value.(cpu := Commands.ResetRip(bps, old(proc).value.cpu)))
      ensures bps == old(bps)
    {
      var cpu := proc.value.cpu;
      var current := BpFindByAddr(Minus(cpu.rip, 1));
      if current != null {
        proc := Some(proc.value.(cpu := cpu.(rip := Minus(cpu.rip, 1))));
      }
    }

    // ----- stopping and resetting

    /** The loop of stop_debugger over the list. */
    method UnrelocateAll()
      requires Chained()
      modifies `bps, nodes`addr
      ensures Chained() && bps == Unrelocate(old(bps), base)
    {
      var current := bp;
      ghost var k := 0;
      while current != null
        invariant Chained() && k <= |nodes| && current == NodeAt(nodes, k)
        invariant bps == Unrelocate(old(bps)[..k], base) + old(bps)[k..]
        decreases |nodes| - k
      {
        UnrelocateStep(bps, old(bps), base, k);
        UnrelocateNode(current, k);
        assert current.next == NodeAt(nodes, k + 1);
        current, k := current.next, k + 1;
      }
      assert old(bps)[..k] == old(bps) && old(bps)[k..] == [];
    }

    method UnrelocateNode(current: BreakPt, ghost k: nat)
      requires Chained() && k < |nodes| && current == nodes[k]
      modifies `bps, current`addr
      ensures Chained() && bps == old(bps)[k := old(bps)[k].(addr := Minus(old(bps)[k].addr, base))]
    {
      current.addr := Minus(current.addr, base);
      bps := bps[k := current.Value()];
    }

    method StopDebugger()
      requires Valid()
      modifies this, nodes`addr
      ensures Valid() && nodes == old(nodes)
      ensures State() == Stop(old(State()))
    {
      if stat == INIT {
        return;
      }
      if stat == RUNNING {
        proc := None;
        if ptext.value.vaddr == 0 {
          UnrelocateAll();
        }
      }
      base, ldisasm, stat := 0, 0, LOADED;
    }

    /** Reads a link, which a freed node no longer has. */
    method NextOf(node: BreakPt, ghost freed: seq<BreakPt>) returns (next: BreakPt?)
      requires node !in freed
      ensures next == node.next
    {
      next := node.next;
    }

    /** The walk that frees every node of the list once, in order, and reads none that has been freed. */
    method FreeNodes() returns (ghost freed: seq<BreakPt>)
      requires Chained()
      ensures freed == nodes
    {
      var current := bp;
      freed := [];
      while current != null
        invariant |freed| <= |nodes| && freed == nodes[..|freed|] && current == NodeAt(nodes, |freed|)
        decreases |nodes| - |freed|
      {
        var next := NextOf(current, freed);
        freed := freed + [current];
        current := next;
      }
    }

    method ResetDebugger() returns (ghost freed: seq<BreakPt>)
      requires Chained()
      modifies this
      ensures freed == old(nodes) && Valid() && nodes == []
      ensures State() == Reset(old(State()))
    {
      freed := FreeNodes();
      bpi, base, ldisasm := 0, 0, 0;
      eh, ptext, stext, bp := None, None, None, null;
      stat := INIT;
      nodes, bps := [], [];
    }

    method FreeDebugger() returns (ghost freed: seq<BreakPt>)
      requires Valid()
      modifies this, nodes`addr
      ensures freed == old(nodes) && Valid() && nodes == []
      ensures State() == Free(old(State()))
    {
      StopDebugger();
      freed := ResetDebugger();
    }

    // ----- running the child

    method Cmd(request: Request) returns (out: Outcome)
      requires Valid()
      modifies this, nodes`addr
      ensures Valid() && nodes == old(nodes)
      ensures Result(State(), out) == Commands.Cmd(isa, old(State()), request)
    {
      if proc.None? {
        return Quit;
      }
      var w := Wait(isa, proc.value, request);
      if w.Blocked? {
        proc := Some(proc.value.(cpu := w.cpu));
        return Waiting;
      }
      status := w.status;
      if status.Exited? {
        proc := None;
        assert State() == old(State()).(status := w.status, proc := None);
        StopDebugger();
      } else if status.Signaled? {
        proc := None;
      } else {
        proc := Some(proc.value.(cpu := w.cpu));
        ResetRip();
      }
      out := Done;
    }

    method Si() returns (out: Outcome)
      requires Valid()
      modifies this, nodes`addr
      ensures Valid() && nodes == old(nodes)
      ensures Result(State(), out) == SiCommand(isa, old(State()))
    {
      if stat != RUNNING {
        return Done;
      }
      var current, ok := BpCheck();
      if !ok {
        return Quit;
      }
      if current != null {
        BpUnpatch(current);
        assert State() == old(State()).(proc := UnpatchProc(old(proc), current.Value()));
      }
      out := Cmd(SingleStep);
      if out == Done && current != null {
        var _ := BpPatch(current.addr);
      }
    }

    method Cont(fuel: nat) returns (out: Outcome)
      requires Valid()
      modifies this, nodes`addr
      ensures Valid() && nodes == old(nodes)
      ensures Result(State(), out) == ContCommand(isa, old(State()), fuel)
    {
      if stat != RUNNING {
        return Done;
      }
      out := Si();
      if out == Done {
        out := Cmd(Continue(fuel));
      }
    }

    /** The loop of start over the list. */
    method RelocateAll()
      requires Chained() && proc.Some?
      modifies `proc, `bps, nodes`addr, nodes`code
      ensures Chained() && proc.Some? && proc.value.cpu == old(proc).value.cpu
      ensures (bps, proc.value.text) == Relocate(old(bps), base, old(proc).value.text)
    {
      ghost var before, image := bps, proc.value.text;
      var current := bp;
      ghost var k := 0;
      while current != null
        invariant Chained() && k <= |nodes| && current == NodeAt(nodes, k)
        invariant proc.Some? && proc.value.cpu == old(proc).value.cpu
        invariant |bps| == |before| && forall i | k <= i < |before| :: bps[i] == before[i]
        invariant (bps[..k], proc.value.text) == Relocate(before[..k], base, image)
        decreases |nodes| - k
      {
        RelocateStep(before, base, image, k);
        ghost var moved := bps[..k];
        RelocateNode(current, k);
        assert bps[..k + 1] == moved + [current.Value()];
        assert current.next == NodeAt(nodes, k + 1);
        current, k := current.next, k + 1;
      }
      assert before[..k] == before && bps[..k] == bps;
    }

    method RelocateNode(current: BreakPt, ghost k: nat)
      requires Chained() && k < |nodes| && current == nodes[k]
      modifies `proc, `bps, current`addr, current`code
      ensures Chained()
      ensures var a := Plus(old(current.addr), base);
              && proc == PatchProc(old(proc), a)
              && bps == old(bps)[k := old(bps)[k].(addr := a, code := PatchCode(old(proc), a))]
    {
      current.addr := Plus(current.addr, base);
      var code := BpPatch(current.addr);
      current.code := code;
      bps := bps[k := current.Value()];
    }

    /** Also finds the breakpoint at the entry point, which is reported. */
    method Start(launch: Launch) returns (out: Outcome, hit: BreakPt?)
      requires Valid()
      modifies `stat, `status, `base, `proc, `bps, nodes`addr, nodes`code
      ensures Valid() && nodes == old(nodes)
      ensures Result(State(), out) == StartCommand(old(State()), launch)
      ensures if old(stat) != LOADED || stat != RUNNING then hit == null
              else hit == match Find(bps, launch.cpu.rip) case None => null case Some(i) => nodes[i]
    {
      out, hit := Done, null;
      if stat != LOADED {
        return;
      }
      match launch
      case NotForked =>
        proc := None;
      case ChildError(s) =>
        status, proc := s, None;
      case Launched(image, cpu, begin) =>
        status := TrapStop;
        if ptext.None? {
          return Crash, null;
        }
        hit := Begin(image, cpu, begin);
    }

    /** The part of start after the child has stopped in its new image. */
    method Begin(image: Mem, cpu: Cpu, begin: Word) returns (hit: BreakPt?)
      requires Chained() && ptext.Some?
      modifies `base, `proc, `stat, `bps, nodes`addr, nodes`code
      ensures Chained() && proc.Some? && proc.value.cpu == cpu && stat == RUNNING
      ensures base == if ptext.value.vaddr == 0 then begin else 0
      ensures (bps, proc.value.text) == Relocate(old(bps), base, image)
      ensures hit == match Find(bps, cpu.rip) case None => null case Some(i) => nodes[i]
    {
      Place(image, cpu, begin);
      stat := RUNNING;
      var ok;
      hit, ok := BpCheck();
    }

    /** Moves the breakpoints to where the image begins, and plants them. */
    method Place(image: Mem, cpu: Cpu, begin: Word)
      requires Chained() && ptext.Some?
      modifies `base, `proc, `bps, nodes`addr, nodes`code
      ensures Chained() && proc.Some? && proc.value.cpu == cpu
      ensures base == if ptext.value.vaddr == 0 then begin else 0
      ensures (bps, proc.value.text) == Relocate(old(bps), base, image)
    {
      base := if ptext.value.vaddr == 0 then begin else 0;
      proc := Some(Proc(image, cpu));
      RelocateAll();
    }

    method Run(launch: Launch, fuel: nat) returns (out: Outcome)
      requires Valid()
      modifies this, nodes`addr, nodes`code
      ensures Valid() && nodes == old(nodes)
      ensures Result(State(), out) == RunCommand(isa, old(State()), launch, fuel)
    {
      out := Done;
      if stat == INIT {
        return;
      }
      if stat == LOADED {
        var hit;
        out, hit := Start(launch);
        if out != Done {
          return;
        }
      }
      var current, ok := BpCheck();
      if !ok {
        return Quit;
      }
      if current == null {
        out := Cont(fuel);
      }
    }

    // ----- setting and deleting breakpoints

    /** The checks on a new breakpoint's address: in the text section, and not taken. */
    method MayBreak(target: Word) returns (ok: bool)
      requires Valid() && stat != INIT
      ensures ok == Accepts(State(), target)
    {
      var begin := Plus(base, stext.value.addr);
      var end := Plus(Plus(base, stext.value.addr), stext.value.size);
      if target < begin || target > end {
        return false;
      }
      var existing := BpFindByAddr(target);
      ok := existing == null;
    }

    method Break(arg: Option<Word>)
      requires Valid()
      modifies `bpi, `bp, `proc, `nodes, `bps, nodes`next
      ensures Valid() && forall i | 0 <= i < |nodes| :: nodes[i] in old(nodes) || fresh(nodes[i])
      ensures State() == BreakCommand(old(State()), arg)
    {
      if arg.None? || stat == INIT {
        return;
      }
      var target := arg.value;
      var ok := MayBreak(target);
      if !ok {
        return;
      }
      var code := 0;
      if stat == RUNNING {
        code := BpPatch(target);
      }
      bpi := bpi + 1;
      Append(bpi - 1, target, code);
    }

    /** Links a new node to the end of the list. */
    method Append(id: int, addr: Word, code: Word)
      requires Chained()
      modifies `bp, `nodes, `bps, nodes`next
      ensures Chained() && bps == old(bps) + [Bp(id, addr, code)]
      ensures forall i | 0 <= i < |nodes| :: nodes[i] in old(nodes) || fresh(nodes[i])
    {
      var b := new BreakPt(id, addr, code);
      if bp == null {
        bp := b;
      } else {
        var current := bp;
        ghost var k := 0;
        while current.next != null
          invariant k < |nodes| && current == nodes[k]
          decreases |nodes| - k
        {
          assert current.next == NodeAt(nodes, k + 1);
          current, k := current.next, k + 1;
        }
        assert current.next == NodeAt(nodes, k + 1);
        current.next := b;
      }
      nodes, bps := nodes + [b], bps + [b.Value()];
      assert forall i | 0 <= i < |old(nodes)| :: NodeAt(nodes, i) == NodeAt(old(nodes), i);
    }

    /** Takes the first node numbered `n` out of the list. */
    method Unlink(n: int) returns (current: BreakPt?)
      requires Chained()
      modifies `bp, `nodes, `bps, nodes`next
      ensures Chained() && forall i | 0 <= i < |nodes| :: nodes[i] in old(nodes)
      ensures match FindIdFrom(old(bps), n, 0)
              case None => current == null && nodes == old(nodes) && bps == old(bps)
              case Some(i) => current == old(nodes)[i] && current.Value() == old(bps)[i] &&
                              nodes == old(nodes)[..i] + old(nodes)[i + 1..] &&
                              bps == old(bps)[..i] + old(bps)[i + 1..]
    {
      current := null;
      var ptr := bp;
      if ptr == null {
        return;
      }
      ghost var k := 0;
      if ptr.id == n {
        bp := ptr.next;
        current := ptr;
      } else {
        current, k := ptr.next, 1;
        while current != null
          invariant 1 <= k <= |nodes| && ptr == nodes[k - 1] && current == NodeAt(nodes, k)
          invariant Chained()
          invariant FindIdFrom(bps, n, k) == FindIdFrom(bps, n, 0)
          decreases |nodes| - k
        {
          if current.id == n {
            ptr.next := current.next;
            break;
          }
          ptr, k := ptr.next, k + 1;
          current := ptr.next;
        }
      }
      if current != null {
        Drop(k);
      }
    }

    /** The list after its pointers have been led around node `k`. */
    ghost method Drop(k: nat)
      requires k < |nodes| && |bps| == |nodes|
      requires bp == if k == 0 then NodeAt(nodes, 1) else NodeAt(nodes, 0)
      requires forall i, j | 0 <= i < |nodes| && i != k - 1 && j == i + 1 :: nodes[i].next == NodeAt(nodes, j)
      requires k > 0 ==> nodes[k - 1].next == NodeAt(nodes, k + 1)
      requires forall i, j | 0 <= i < j < |nodes| :: nodes[i] != nodes[j]
      requires forall i {:trigger nodes[i]} | 0 <= i < |nodes| :: nodes[i].Value() == bps[i]
      modifies `nodes, `bps
      ensures Chained() && nodes == old(nodes)[..k] + old(nodes)[k + 1..] && bps == old(bps)[..k] + old(bps)[k + 1..]
    {
      nodes, bps := nodes[..k] + nodes[k + 1..], bps[..k] + bps[k + 1..];
      assert forall i | 0 <= i < |nodes| :: nodes[i] == old(nodes)[if i < k then i else i + 1];
      assert forall i: nat | i <= |nodes| :: NodeAt(nodes, i) == NodeAt(old(nodes), if i < k then i else i + 1);
    }

    /** The node taken out of the list is freed once its word has been written back. */
    method Delete(arg: Option<int>) returns (ghost freed: seq<BreakPt>)
      requires Valid()
      modifies `bp, `proc, `nodes, `bps, nodes`next
      ensures Valid() && forall i | 0 <= i < |nodes| :: nodes[i] in old(nodes) && nodes[i] !in freed
      ensures State() == DeleteCommand(old(State()), arg)
      ensures match if arg.None? then None else FindIdFrom(old(bps), arg.value, 0)
              case None => freed == []
              case Some(i) => freed == [old(nodes)[i]]
    {
      freed := [];
      if arg.None? {
        return;
      }
      var current := Unlink(arg.value);
      if current != null {
        BpUnpatch(current);
        freed := [current];
      }
    }

    // ----- disassembling

    /** Twenty peeks, stored one after another. */
    method PeekCode(addr: Word, code: array<Byte>)
      requires code.Length == 256
      modifies code
      ensures code[..VIEW] == RawView(proc, addr)
    {
      var i := 0;
      while i < VIEW
        invariant i % 8 == 0 && 0 <= i <= VIEW
        invariant forall j | 0 <= j < i :: code[j] == RawView(proc, addr)[j]
      {
        var w := PeekText(Plus(addr, i));
        PeekedWord(proc, addr, i, w);
        forall j | 0 <= j < 8 {
          code[i + j] := Unpack(w, 8)[j];
        }
        i := i + 8;
      }
    }

    /** Puts the saved byte in place of each INT3; fails on an INT3 that has no breakpoint. */
    method MaskCode(addr: Word, code: array<Byte>) returns (ok: bool)
      requires Chained() && code.Length == 256
      modifies code
      ensures ok ==> forall j | 0 <= j < VIEW :: MaskedByte(bps, Plus(addr, j), old(code[j])) == Some(code[j])
      ensures !ok ==> exists j | 0 <= j < VIEW :: MaskedByte(bps, Plus(addr, j), old(code[j])).None?
    {
      var i := 0;
      while i < VIEW
        invariant 0 <= i <= VIEW
        invariant forall j | 0 <= j < i :: MaskedByte(bps, Plus(addr, j), old(code[j])) == Some(code[j])
        invariant forall j | i <= j < VIEW :: code[j] == old(code[j])
      {
        if code[i] == INT3 {
          var b := BpFindByAddr(Plus(addr, i));
          if b == null {
            return false;
          }
          code[i] := b.code % 256;
        }
        i := i + 1;
      }
      ok := true;
    }

    /** The bytes to disassemble; without success, the source dereferences NULL. */
    method ReadCode(addr: Word) returns (code: array<Byte>, ok: bool)
      requires Chained()
      ensures fresh(code) && code.Length == 256
      ensures View(State(), addr) == if ok then Some(code[..VIEW]) else None
    {
      code := new Byte[256];
      PeekCode(addr, code);
      ghost var raw := code[..VIEW];
      assert forall j | 0 <= j < VIEW :: code[j] == raw[j];
      ok := MaskCode(addr, code);
      if ok {
        assert View(State(), addr).value == code[..VIEW];
      }
    }

    method Disasm(arg: Option<Word>, shown: Option<Word>) returns (out: Outcome)
      requires Valid()
      modifies `ldisasm
      ensures Valid()
      ensures Result(State(), out) == DisasmCommand(old(State()), arg, shown)
    {
      out := Done;
      if (arg.None? && ldisasm == 0) || stat == INIT {
        return;
      }
      var addr := if arg.Some? then arg.value else ldisasm;
      if stat == LOADED {
        if ptext.None? {
          return Crash;
        }
        if shown.None? {
          return;
        }
      } else {
        var _, ok := ReadCode(addr);
        if !ok {
          return Crash;
        }
      }
      ldisasm := Plus(addr, if shown.Some? then shown.value else 0);
    }

    // ----- loading

    method Load(arg: Option<OpenResult>)
      requires Valid()
      modifies this, nodes`addr
      ensures Valid() && (nodes == old(nodes) || nodes == [])
      ensures State() == LoadCommand(old(State()), arg)
    {
      if arg.None? {
        return;
      }
      if stat == LOADED || stat == RUNNING {
        ghost var freed := FreeDebugger();
      }
      LoadFile(arg.value);
    }

    /** The part of load after the previous program has been dropped. */
    method LoadFile(found: OpenResult)
      requires Valid() && stat == INIT
      modifies this, nodes`addr
      ensures Valid() && (nodes == old(nodes) || nodes == [])
      ensures State() == LoadFrom(old(State()), found)
    {
      match found
      case Unopenable =>
        eh := None;
      case Opened(file) =>
        var h := ElfTool.LoadAll(file);
        if h.None? {
          eh := None;
          ghost var freed := FreeDebugger();
        } else {
          var ok := Select(file, h.value);
          if !ok {
            ghost var freed := ResetDebugger();
          }
        }
    }

    /** The part of load after the file has been read: the lookups, all but the last of them needed. */
    method Select(file: ElfFile, h: Handle) returns (ok: bool)
      requires stat == INIT
      modifies `eh, `ptext, `stext, `stat
      ensures if ok then State() == SelectText(old(State()), file, h)
              else SelectText(old(State()), file, h) == Reset(old(State()))
    {
      eh := Some(h);
      var tab := ElfTool.FindTab(h.strtab, file.shstrndx);
      if tab.None? {
        return false;
      }
      var segment := ElfTool.FindTextSegment(file.phdr);
      if segment.Some? {
        ptext := segment;
      }
      var section := ElfTool.FindTextSection(file.shdr, file.entry);
      if section.Some? {
        stext := section;
      }
      ok := stext.Some?;
      if ok {
        stat := LOADED;
      }
    }

    // ----- the main loop

    method Execute(c: Command) returns (out: Outcome)
      requires Valid()
      modifies this, nodes
      ensures Valid() && forall i | 0 <= i < |nodes| :: nodes[i] in old(nodes) || fresh(nodes[i])
      ensures Result(State(), out) == Step(isa, old(State()), c)
    {
      out := Done;
      match c
      case Load(file) => Load(file);
      case Start(launch) =>
        var hit;
        out, hit := Start(launch);
      case Run(launch, fuel) => out := Run(launch, fuel);
      case Break(target) => Break(target);
      case Delete(id) => ghost var freed := Delete(id);
      case Si => out := Si();
      case Cont(fuel) => out := Cont(fuel);
      case Disasm(addr, shown) => out := Disasm(addr, shown);
      case Exit =>
        ghost var freed := FreeDebugger();
        out := Quit;
    }

    method Session(cs: seq<Command>) returns (out: Outcome)
      requires Valid()
      modifies this, nodes
      ensures Valid() && forall i | 0 <= i < |nodes| :: nodes[i] in old(nodes) || fresh(nodes[i])
      ensures Result(State(), out) == Exec(isa, old(State()), cs)
    {
      out := Done;
      var i := 0;
      while i < |cs| && out == Done
        invariant i <= |cs|
        invariant Valid() && forall i | 0 <= i < |nodes| :: nodes[i] in old(nodes) || fresh(nodes[i])
        invariant Exec(isa, old(State()), cs) ==
                  if out == Done then Exec(isa, State(), cs[i..]) else Result(State(), out)
      {
        assert cs[i..][0] == cs[i] && cs[i..][1..] == cs[i + 1..];
        out := Execute(cs[i]);
        i := i + 1;
      }
    }
  }
}
