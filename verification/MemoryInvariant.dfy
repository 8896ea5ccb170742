/**
 What the child's text looks like under breakpoints. `Clean` can hold even when breakpoints
 lie closer than a word: no stray 0xCC, and every saved word is original. `Armed` adds
 that no breakpoint has been lost, so that text and breakpoint list determine each other.
 */
module MemoryInvariant {
  import opened Words
  import opened Memory
  import opened Commands

  ghost predicate Live(bps: seq<Bp>, a: Word) {
    exists i | 0 <= i < |bps| :: bps[i].addr == a
  }

  /** The byte `b` at `x` is original, or is the INT3 of a live breakpoint. */
  ghost predicate Allowed(orig: Mem, bps: seq<Bp>, x: Word, b: Byte)
    requires x in orig
  {
    b != orig[x] ==> b == INT3 && Live(bps, x) && WordMapped(orig, x)
  }

  ghost predicate CleanText(orig: Mem, m: Mem, bps: seq<Bp>) {
    m.Keys == orig.Keys && forall x: Word | x in m :: Allowed(orig, bps, x, m[x])
  }

  ghost predicate CleanCodes(orig: Mem, bps: seq<Bp>) {
    forall i | 0 <= i < |bps| :: bps[i].code == SavedCode(orig, bps[i].addr)
  }

  ghost predicate Clean(orig: Mem, m: Mem, bps: seq<Bp>) {
    CleanText(orig, m, bps) && CleanCodes(orig, bps)
  }

  /** Every breakpoint whose word can be written at all is planted. */
  ghost predicate Armed(orig: Mem, m: Mem, bps: seq<Bp>)
    requires m.Keys == orig.Keys
  {
    forall i | 0 <= i < |bps| && WordMapped(orig, bps[i].addr) :: m[Plus(bps[i].addr, 0)] == INT3
  }

  /** The original text with 0xCC at exactly the live addresses. */
  ghost function Planted(orig: Mem, bps: seq<Bp>): Mem {
    map x: Word | x in orig :: if Live(bps, x) && WordMapped(orig, x) then INT3 else orig[x]
  }

  /** No breakpoint of the list lies in the word at `a`. */
  ghost predicate WordFree(bps: seq<Bp>, a: Word) {
    forall i | 0 <= i < |bps| :: !InWord(a, bps[i].addr)
  }

  /** `a` lies in no word of a breakpoint of the list. */
  ghost predicate Outside(bps: seq<Bp>, a: Word) {
    forall i | 0 <= i < |bps| :: !InWord(bps[i].addr, a)
  }

  /** Of two breakpoints less than a word apart, the lower one comes first in the list. */
  ghost predicate Ascending(bps: seq<Bp>) {
    forall i, j | 0 <= i < j < |bps| :: !InWord(bps[j].addr, bps[i].addr)
  }

  /** Breakpoints are pairwise at least a word apart. */
  ghost predicate Spaced(bps: seq<Bp>) {
    forall i, j | 0 <= i < |bps| && 0 <= j < |bps| && i != j :: !InWord(bps[j].addr, bps[i].addr)
  }

  ghost predicate Distinct(bps: seq<Bp>) {
    forall i, j | 0 <= i < j < |bps| :: bps[i].addr != bps[j].addr
  }

  ghost predicate Exact(orig: Mem, m: Mem, bps: seq<Bp>) {
    Clean(orig, m, bps) && Spaced(bps) && Armed(orig, m, bps)
  }

  /** Text and saved words are determined by the original text and the list of addresses. */
  lemma ExactIsPlanted(orig: Mem, m: Mem, bps: seq<Bp>)
    requires Spaced(bps)
    ensures Exact(orig, m, bps) <==> m == Planted(orig, bps) && CleanCodes(orig, bps)
  {
  }

  // ----- single operations

  /** A word whose bytes are all original is saved as the original word. */
  lemma SavesOriginal(orig: Mem, m: Mem, a: Word)
    requires m.Keys == orig.Keys
    ensures WordMapped(m, a) ==>
              (SavedCode(m, a) == SavedCode(orig, a) <==> forall x: Word | x in m && InWord(a, x) :: m[x] == orig[x])
    ensures !WordMapped(m, a) ==> SavedCode(m, a) == SavedCode(orig, a)
  {
    if WordMapped(m, a) {
      var bs, os := BytesAt(m, a, 8), BytesAt(orig, a, 8);
      if SavedCode(m, a) == SavedCode(orig, a) {
        UnpackPack(bs);
        UnpackPack(os);
        forall x: Word | x in m && InWord(a, x)
          ensures m[x] == orig[x]
        {
          assert Plus(a, Minus(x, a)) == x;
          assert bs[Minus(x, a)] == os[Minus(x, a)];
        }
      }
      if forall x: Word | x in m && InWord(a, x) :: m[x] == orig[x] {
        forall i: nat | i < 8
          ensures bs[i] == os[i]
        {
          assert InWord(a, Plus(a, i));
        }
        assert bs == os;
      }
    }
  }

  /** Planting a new breakpoint whose word holds no earlier one. */
  lemma CleanPatch(orig: Mem, m: Mem, bps: seq<Bp>, bp: Bp)
    requires Clean(orig, m, bps) && WordFree(bps, bp.addr)
    requires bp.code == SavedCode(m, bp.addr)
    ensures Clean(orig, Patch(m, bp.addr), bps + [bp])
  {
    SavesOriginal(orig, m, bp.addr);
    var bps' := bps + [bp];
    assert bps'[|bps|] == bp;
    forall x: Word | Live(bps, x)
      ensures Live(bps', x)
    {
      var i :| 0 <= i < |bps| && bps[i].addr == x;
      assert bps'[i].addr == x;
    }
    assert Plus(bp.addr, 0) == bp.addr;
  }

  lemma ArmedPatch(orig: Mem, m: Mem, bps: seq<Bp>, bp: Bp)
    requires m.Keys == orig.Keys && Armed(orig, m, bps)
    ensures Patch(m, bp.addr).Keys == orig.Keys
    ensures Armed(orig, Patch(m, bp.addr), bps + [bp])
  {
    assert Plus(bp.addr, 0) == bp.addr;
    var m', bps' := Patch(m, bp.addr), bps + [bp];
    assert m'.Keys == m.Keys;
    forall i | 0 <= i < |bps'| && WordMapped(orig, bps'[i].addr)
      ensures m'[Plus(bps'[i].addr, 0)] == INT3
    {
      if i < |bps| {
        assert bps'[i] == bps[i];
      }
    }
  }

  function Without(bps: seq<Bp>, i: nat): seq<Bp>
    requires i < |bps|
  {
    bps[..i] + bps[i + 1..]
  }

  /** Writing back one breakpoint's word, whatever else lies in that word. */
  lemma CleanUnpatch(orig: Mem, m: Mem, bps: seq<Bp>, i: nat)
    requires Clean(orig, m, bps) && i < |bps|
    ensures Clean(orig, Unpatch(m, bps[i].addr, bps[i].code), Without(bps, i))
  {
    UnpatchOriginal(orig, m, bps[i].addr);
    var m', bps' := Unpatch(m, bps[i].addr, bps[i].code), Without(bps, i);
    forall x: Word | x in m' && m'[x] != orig[x]
      ensures Live(bps', x)
    {
      var j :| 0 <= j < |bps| && bps[j].addr == x;
      if j == i {
        assert false;
      }
      assert bps'[if j < i then j else j - 1].addr == x;
    }
    forall j | 0 <= j < |bps'|
      ensures bps'[j].code == SavedCode(orig, bps'[j].addr)
    {
      assert bps'[j] == bps[if j < i then j else j + 1];
    }
  }

  lemma ExactUnpatch(orig: Mem, m: Mem, bps: seq<Bp>, i: nat)
    requires Exact(orig, m, bps) && i < |bps|
    ensures Exact(orig, Unpatch(m, bps[i].addr, bps[i].code), Without(bps, i))
  {
    CleanUnpatch(orig, m, bps, i);
    UnpatchOriginal(orig, m, bps[i].addr);
    var m', bps' := Unpatch(m, bps[i].addr, bps[i].code), Without(bps, i);
    forall j | 0 <= j < |bps'|
      ensures bps'[j] == bps[if j < i then j else j + 1]
    {
    }
    forall j | 0 <= j < |bps'| && WordMapped(orig, bps'[j].addr)
      ensures m'[Plus(bps'[j].addr, 0)] == INT3
    {
      var k := if j < i then j else j + 1;
      assert Plus(bps[k].addr, 0) == bps[k].addr;
      assert bps[k].addr in orig;
      assert !InWord(bps[i].addr, bps[k].addr);
    }
  }

  /** Unpatch, step, re-patch: the step leaves the text alone, so the invariants hold again. */
  lemma CleanRepatch(orig: Mem, m: Mem, bps: seq<Bp>, i: nat)
    requires Clean(orig, m, bps) && i < |bps|
    ensures Clean(orig, Patch(Unpatch(m, bps[i].addr, bps[i].code), bps[i].addr), bps)
  {
    var a := bps[i].addr;
    UnpatchOriginal(orig, m, a);
    assert Plus(a, 0) == a && Live(bps, a);
  }

  lemma ExactRepatch(orig: Mem, m: Mem, bps: seq<Bp>, i: nat)
    requires Exact(orig, m, bps) && i < |bps|
    ensures Patch(Unpatch(m, bps[i].addr, bps[i].code), bps[i].addr) == m
  {
    var a := bps[i].addr;
    UnpatchOriginal(orig, m, a);
    assert Plus(a, 0) == a;
    assert forall j | 0 <= j < |bps| && j != i :: !InWord(a, bps[j].addr);
    assert forall x: Word | x in m && InWord(a, x) && x != a :: m[x] == orig[x];
  }

  // ----- starting

  lemma RelocateMember(bps: seq<Bp>, base: Word, text: Mem, i: nat)
    requires i < |bps|
    ensures Relocate(bps, base, text).0[i].id == bps[i].id
    ensures Relocate(bps, base, text).0[i].addr == Plus(bps[i].addr, base)
    decreases |bps|
  {
  }

  /** A freshly loaded child with ascending breakpoints starts out clean. */
  lemma {:induction false} CleanStart(bps: seq<Bp>, base: Word, orig: Mem)
    requires Ascending(bps)
    ensures var (bps', m) := Relocate(bps, base, orig); Clean(orig, m, bps') && Armed(orig, m, bps')
    decreases |bps|
  {
    if bps == [] {
    } else {
      var front, last := bps[..|bps| - 1], bps[|bps| - 1];
      CleanStart(front, base, orig);
      var (front', m) := Relocate(front, base, orig);
      var a := Plus(last.addr, base);
      forall i | 0 <= i < |front'|
        ensures !InWord(a, front'[i].addr)
      {
        RelocateMember(front, base, orig, i);
        assert !InWord(bps[|bps| - 1].addr, bps[i].addr);
      }
      var bp := last.(addr := a, code := SavedCode(m, a));
      CleanPatch(orig, m, front', bp);
      ArmedPatch(orig, m, front', bp);
    }
  }

  lemma ExactStart(bps: seq<Bp>, base: Word, orig: Mem)
    requires Spaced(bps)
    ensures var (bps', m) := Relocate(bps, base, orig); Exact(orig, m, bps')
  {
    CleanStart(bps, base, orig);
    var (bps', m) := Relocate(bps, base, orig);
    forall i, j | 0 <= i < |bps'| && 0 <= j < |bps'| && i != j
      ensures !InWord(bps'[j].addr, bps'[i].addr)
    {
      RelocateMember(bps, base, orig, i);
      RelocateMember(bps, base, orig, j);
    }
  }

}
