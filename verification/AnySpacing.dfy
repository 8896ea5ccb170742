/**
 Breakpoints at any spacing, set in any order. A word saved while another breakpoint lies in
 it holds that one's INT3, which does no harm as long as that one is live whenever the word is
 written back. So the text stays clean exactly when each word that is written back allows it.
 */
module AnySpacing {
  import opened Words
  import opened Memory
  import opened Commands
  import opened MemoryInvariant

  /** The byte that lifting a breakpoint writes to the address `x` of its word. */
  function SavedByte(bp: Bp, x: Word): Byte
    requires InWord(bp.addr, x)
  {
    Unpack(bp.code, 8)[Minus(x, bp.addr)]
  }

  /** Of each saved word, at least the byte under the INT3 is original. */
  ghost predicate LowBytes(orig: Mem, bps: seq<Bp>) {
    forall i | 0 <= i < |bps| :: bps[i].code % 256 == SavedCode(orig, bps[i].addr) % 256
  }

  /** What holds of text and list as long as the text is clean. */
  ghost predicate Tracked(orig: Mem, m: Mem, bps: seq<Bp>) {
    CleanText(orig, m, bps) && LowBytes(orig, bps) && Distinct(bps)
  }

  /** The word that lifting breakpoint `i` writes holds INT3s of live breakpoints only, and original bytes. */
  ghost predicate Restores(orig: Mem, bps: seq<Bp>, i: nat)
    requires i < |bps|
  {
    WordMapped(orig, bps[i].addr) ==>
      forall x: Word | x in orig && InWord(bps[i].addr, x) :: Allowed(orig, bps, x, SavedByte(bps[i], x))
  }

  ghost predicate AllRestore(orig: Mem, bps: seq<Bp>) {
    forall i | 0 <= i < |bps| :: Restores(orig, bps, i)
  }

  /** No other saved word holds the INT3 of breakpoint `i`. */
  ghost predicate Unsaved(orig: Mem, bps: seq<Bp>, i: nat)
    requires i < |bps|
  {
    forall j | 0 <= j < |bps| && j != i && WordMapped(orig, bps[j].addr) && InWord(bps[j].addr, bps[i].addr) ::
      bps[i].addr in orig ==> SavedByte(bps[j], bps[i].addr) == orig[bps[i].addr]
  }

  // ----- single operations

  lemma LiveAppend(bps: seq<Bp>, bp: Bp)
    ensures forall x: Word :: Live(bps + [bp], x) <==> Live(bps, x) || x == bp.addr
  {
    var bps' := bps + [bp];
    assert bps'[|bps|] == bp && forall i | 0 <= i < |bps| :: bps'[i] == bps[i];
    forall x: Word | Live(bps, x)
      ensures Live(bps', x)
    {
      var i :| 0 <= i < |bps| && bps[i].addr == x;
      assert bps'[i].addr == x;
    }
  }

  lemma LiveWithout(bps: seq<Bp>, i: nat)
    requires i < |bps| && Distinct(bps)
    ensures Distinct(Without(bps, i))
    ensures forall x: Word :: Live(Without(bps, i), x) <==> Live(bps, x) && x != bps[i].addr
  {
    var bps' := Without(bps, i);
    assert forall j | 0 <= j < |bps'| :: bps'[j] == bps[if j < i then j else j + 1];
    forall x: Word | Live(bps, x) && x != bps[i].addr
      ensures Live(bps', x)
    {
      var j :| 0 <= j < |bps| && bps[j].addr == x;
      assert bps'[if j < i then j else j - 1].addr == x;
    }
  }

  /** The bytes of a saved word are those that were read. */
  lemma SavedBytes(m: Mem, bp: Bp)
    requires WordMapped(m, bp.addr) && bp.code == SavedCode(m, bp.addr)
    ensures forall x: Word | x in m && InWord(bp.addr, x) :: SavedByte(bp, x) == m[x]
  {
    UnpackPack(BytesAt(m, bp.addr, 8));
    forall x: Word | x in m && InWord(bp.addr, x)
      ensures SavedByte(bp, x) == m[x]
    {
      assert Plus(bp.addr, Minus(x, bp.addr)) == x;
    }
  }

  /** The byte under the INT3 is the low one. */
  lemma LowByteSaved(orig: Mem, bp: Bp)
    requires WordMapped(orig, bp.addr)
    ensures bp.addr in orig && SavedByte(bp, bp.addr) == bp.code % 256
    ensures SavedCode(orig, bp.addr) % 256 == orig[bp.addr]
  {
    assert Plus(bp.addr, 0) == bp.addr;
    assert BytesAt(orig, bp.addr, 8)[0] == orig[bp.addr];
  }

  /** What lifting writes. */
  lemma Lifting(m: Mem, bp: Bp)
    ensures Unpatch(m, bp.addr, bp.code)
         == if WordMapped(m, bp.addr)
            then map x: Word | x in m :: if InWord(bp.addr, x) then SavedByte(bp, x) else m[x]
            else m
  {
  }

  lemma SameMapped(orig: Mem, m: Mem)
    requires m.Keys == orig.Keys
    ensures forall a: Word :: WordMapped(m, a) == WordMapped(orig, a)
  {
  }

  /** Planting one more, wherever it lies. */
  lemma TrackedPatch(orig: Mem, m: Mem, bps: seq<Bp>, bp: Bp)
    requires Tracked(orig, m, bps) && !Live(bps, bp.addr) && bp.code == SavedCode(m, bp.addr)
    ensures Tracked(orig, Patch(m, bp.addr), bps + [bp])
    ensures AllRestore(orig, bps) ==> AllRestore(orig, bps + [bp])
  {
    var bps' := bps + [bp];
    LiveAppend(bps, bp);
    SameMapped(orig, m);
    assert Plus(bp.addr, 0) == bp.addr;
    if WordMapped(orig, bp.addr) {
      LowByteSaved(m, bp);
      LowByteSaved(orig, bp);
      SavedBytes(m, bp);
    }
    forall i | 0 <= i < |bps'|
      ensures bps'[i].code % 256 == SavedCode(orig, bps'[i].addr) % 256
    {
      assert i < |bps| ==> bps'[i] == bps[i];
    }
    if AllRestore(orig, bps) {
      forall i | 0 <= i < |bps'|
        ensures Restores(orig, bps', i)
      {
        assert i < |bps| ==> bps'[i] == bps[i] && Restores(orig, bps, i);
      }
    }
  }

  /** Lifting one for good leaves the text clean exactly when its saved word allows it. */
  lemma UnpatchTrackedExactlyWhen(orig: Mem, m: Mem, bps: seq<Bp>, i: nat)
    requires Tracked(orig, m, bps) && i < |bps|
    ensures var m', bps' := Unpatch(m, bps[i].addr, bps[i].code), Without(bps, i);
            && LowBytes(orig, bps') && Distinct(bps')
            && (CleanText(orig, m', bps') <==> Restores(orig, bps, i))
  {
    var m', bps' := Unpatch(m, bps[i].addr, bps[i].code), Without(bps, i);
    LiveWithout(bps, i);
    SameMapped(orig, m);
    Lifting(m, bps[i]);
    if WordMapped(orig, bps[i].addr) {
      LowByteSaved(orig, bps[i]);
    }
    assert Minus(bps[i].addr, bps[i].addr) == 0;
    assert forall j | 0 <= j < |bps'| :: bps'[j] == bps[if j < i then j else j + 1];
    if CleanText(orig, m', bps') {
      forall x: Word | x in orig && WordMapped(orig, bps[i].addr) && InWord(bps[i].addr, x)
        ensures Allowed(orig, bps, x, SavedByte(bps[i], x))
      {
        assert Allowed(orig, bps', x, m'[x]);
      }
    }
  }

  /** So does lifting one, and planting it again. */
  lemma RepatchTrackedExactlyWhen(orig: Mem, m: Mem, bps: seq<Bp>, i: nat)
    requires Tracked(orig, m, bps) && i < |bps|
    ensures var m' := Patch(Unpatch(m, bps[i].addr, bps[i].code), bps[i].addr);
            CleanText(orig, m', bps) <==> Restores(orig, bps, i)
  {
    var m' := Patch(Unpatch(m, bps[i].addr, bps[i].code), bps[i].addr);
    SameMapped(orig, m);
    Lifting(m, bps[i]);
    assert Live(bps, bps[i].addr) && Plus(bps[i].addr, 0) == bps[i].addr;
    if WordMapped(orig, bps[i].addr) {
      LowByteSaved(orig, bps[i]);
      SameMapped(orig, Unpatch(m, bps[i].addr, bps[i].code));
    }
    if CleanText(orig, m', bps) {
      forall x: Word | x in orig && WordMapped(orig, bps[i].addr) && InWord(bps[i].addr, x)
        ensures Allowed(orig, bps, x, SavedByte(bps[i], x))
      {
        assert Allowed(orig, bps, x, m'[x]);
      }
    }
  }

  /** After one is gone, all others can be lifted exactly when none of them has saved its INT3. */
  lemma WithoutRestoresExactlyWhen(orig: Mem, bps: seq<Bp>, i: nat)
    requires AllRestore(orig, bps) && Distinct(bps) && i < |bps|
    ensures AllRestore(orig, Without(bps, i)) <==> Unsaved(orig, bps, i)
  {
    var bps' := Without(bps, i);
    LiveWithout(bps, i);
    assert forall j | 0 <= j < |bps'| :: bps'[j] == bps[if j < i then j else j + 1];
    if Unsaved(orig, bps, i) {
      forall j | 0 <= j < |bps'|
        ensures Restores(orig, bps', j)
      {
        assert Restores(orig, bps, if j < i then j else j + 1);
      }
    }
    if AllRestore(orig, bps') {
      forall j | 0 <= j < |bps| && j != i && WordMapped(orig, bps[j].addr) && InWord(bps[j].addr, bps[i].addr) &&
                 bps[i].addr in orig
        ensures SavedByte(bps[j], bps[i].addr) == orig[bps[i].addr]
      {
        var j' := if j < i then j else j - 1;
        assert bps'[j'] == bps[j] && Restores(orig, bps', j');
      }
    }
  }

  /** A freshly loaded child starts out clean, whatever the order and the spacing. */
  lemma {:induction false} TrackedStart(bps: seq<Bp>, base: Word, orig: Mem)
    requires Distinct(bps)
    ensures var (bps', m) := Relocate(bps, base, orig);
            Tracked(orig, m, bps') && AllRestore(orig, bps')
    decreases |bps|
  {
    if bps == [] {
    } else {
      var front, last := bps[..|bps| - 1], bps[|bps| - 1];
      TrackedStart(front, base, orig);
      var (front', m) := Relocate(front, base, orig);
      var a := Plus(last.addr, base);
      forall i | 0 <= i < |front'|
        ensures front'[i].addr != a
      {
        RelocateMember(front, base, orig, i);
        assert bps[i].addr != last.addr;
        assert Minus(Plus(bps[i].addr, base), base) == bps[i].addr && Minus(a, base) == last.addr;
      }
      TrackedPatch(orig, m, front', last.(addr := a, code := SavedCode(m, a)));
    }
  }

  /** Breakpoints that save original words only can always be lifted. */
  lemma CleanIsTracked(orig: Mem, m: Mem, bps: seq<Bp>)
    requires Clean(orig, m, bps) && Distinct(bps)
    ensures Tracked(orig, m, bps) && AllRestore(orig, bps)
  {
    forall i | 0 <= i < |bps|
      ensures Restores(orig, bps, i)
    {
      if WordMapped(orig, bps[i].addr) {
        SavedBytes(orig, bps[i]);
      }
    }
  }
}
