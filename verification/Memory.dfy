/**
 Byte-addressed memory of another process, read and written one 8-byte word at a
 time, and the rewriting of single words that plants and removes an INT3.
 */
module Memory {
  import opened Words

  /** The mapped addresses and their contents. */
  type Mem = map<Word, Byte>

  const INT3: Byte := 0xCC

  /** All eight bytes of the word at `a` are mapped. */
  predicate WordMapped(m: Mem, a: Word) {
    forall i: Word | 0 <= i < 8 :: Plus(a, i) in m
  }

  /** `a` lies in the eight bytes starting at `base`. */
  predicate InWord(base: Word, a: Word) {
    Minus(a, base) < 8
  }

  function BytesAt(m: Mem, a: Word, n: nat): (bs: seq<Byte>)
    requires n < MODULUS
    requires forall i: Word | 0 <= i < n :: Plus(a, i) in m
    ensures |bs| == n
  {
    seq(n, i requires 0 <= i < n => m[Plus(a, i)])
  }

  /** PTRACE_PEEKTEXT on a mapped word. */
  function Peek(m: Mem, a: Word): (w: Word)
    requires WordMapped(m, a)
  {
    Pow256Eight();
    Pack(BytesAt(m, a, 8))
  }

  /** PTRACE_POKETEXT on a mapped word. */
  function Poke(m: Mem, a: Word, w: Word): (m': Mem)
  {
    var bs := Unpack(w, 8);
    map x: Word | x in m :: if InWord(a, x) then bs[Minus(x, a)] else m[x]
  }

  /** The bytes that a poked word leaves behind are the bytes of the word that was peeked. */
  lemma PokePeek(m: Mem, m': Mem, a: Word)
    requires WordMapped(m, a) && m'.Keys == m.Keys
    ensures Poke(m', a, Peek(m, a)) == map x: Word | x in m' :: if InWord(a, x) then m[x] else m'[x]
  {
    UnpackPack(BytesAt(m, a, 8));
    forall x: Word | x in m && InWord(a, x)
      ensures Unpack(Peek(m, a), 8)[Minus(x, a)] == m[x]
    {
      assert Plus(a, Minus(x, a)) == x;
    }
  }

  /** The instruction word with its low byte replaced by INT3. */
  function Int3Word(code: Word): (w: nat) {
    Or(And(code, 0xffff_ffff_ffff_ff00, 64), 0xcc, 64)
  }

  /** Masking clears the low byte, or-ing sets it. */
  lemma Int3WordValue(code: Word)
    ensures Int3Word(code) == 256 * (code / 256) + 0xcc
  {
    var high := code / 256;
    Pow2FiftySix();
    AndOnes(high, 56);
    OrZero(high, 56);
    AndHigh(code, 0xff_ffff_ffff_ffff, 56);
    OrLow(high, 56);
  }

  /** Masking and or-ing replaces exactly the low byte, for each of the 2^64 words. */
  lemma Int3WordBytes(code: Word)
    ensures Int3Word(code) < MODULUS
    ensures Unpack(Int3Word(code), 8) == [INT3] + Unpack(code, 8)[1..]
  {
    Int3WordValue(code);
    LowByteBytes(code, Int3Word(code));
  }

  lemma LowByteBytes(code: Word, w: nat)
    requires w == 256 * (code / 256) + 0xcc
    ensures w < MODULUS && Unpack(w, 8) == [INT3] + Unpack(code, 8)[1..]
  {
    assert w % 256 == 0xcc && w / 256 == code / 256;
    assert Unpack(code, 8)[1..] == Unpack(code / 256, 7);
  }

  lemma AndHigh(x: nat, y: nat, n: nat)
    ensures And(x, 256 * y, n + 8) == 256 * And(x / 256, y, n)
  {
    AndHigh2(x, 64 * y, n + 6);
    AndHigh2(x / 4, 16 * y, n + 4);
    AndHigh2(x / 4 / 4, 4 * y, n + 2);
    AndHigh2(x / 4 / 4 / 4, y, n);
    assert x / 4 / 4 / 4 / 4 == x / 256;
  }

  lemma AndHigh2(x: nat, y: nat, n: nat)
    ensures And(x, 4 * y, n + 2) == 4 * And(x / 4, y, n)
  {
    AndHigh1(x, 2 * y, n + 1);
    AndHigh1(x / 2, y, n);
    assert x / 2 / 2 == x / 4;
  }

  lemma AndHigh1(x: nat, y: nat, n: nat)
    ensures And(x, 2 * y, n + 1) == 2 * And(x / 2, y, n)
  {
  }

  lemma OrLow(x: nat, n: nat)
    ensures Or(256 * x, 0xcc, n + 8) == 256 * Or(x, 0, n) + 0xcc
  {
    OrLow2(64 * x, 0xcc, n + 6);
    OrLow2(16 * x, 0x33, n + 4);
    OrLow2(4 * x, 0xc, n + 2);
    OrLow2(x, 0x3, n);
  }

  lemma OrLow2(x: nat, y: nat, n: nat)
    ensures Or(4 * x, y, n + 2) == y % 4 + 4 * Or(x, y / 4, n)
  {
    OrLow1(2 * x, y, n + 1);
    OrLow1(x, y / 2, n);
    assert y / 2 / 2 == y / 4;
  }

  lemma OrLow1(x: nat, y: nat, n: nat)
    ensures Or(2 * x, y, n + 1) == y % 2 + 2 * Or(x, y / 2, n)
  {
  }

  // ----- what a breakpoint does to memory

  /** The word `bp_patch` returns: the one it read, or 0 when the write failed. */
  function SavedCode(m: Mem, a: Word): Word {
    if WordMapped(m, a) then Peek(m, a) else 0
  }

  /** The memory `bp_patch` leaves behind; PatchOneByte says so of the words it writes. */
  function Patch(m: Mem, a: Word): Mem {
    if WordMapped(m, a) then m[a := INT3] else m
  }

  function Unpatch(m: Mem, a: Word, code: Word): Mem {
    if WordMapped(m, a) then Poke(m, a, code) else m
  }

  /** Reading, masking, or-ing and writing a word changes exactly the byte at the target. */
  lemma PatchOneByte(m: Mem, a: Word)
    requires WordMapped(m, a)
    ensures Int3Word(Peek(m, a)) < MODULUS
    ensures Poke(m, a, Int3Word(Peek(m, a))) == Patch(m, a)
  {
    var code := Peek(m, a);
    Int3WordBytes(code);
    UnpackPack(BytesAt(m, a, 8));
    assert Plus(a, 0) == a;
    var m' := Poke(m, a, Int3Word(code));
    forall x: Word | x in m
      ensures m'[x] == m[a := INT3][x]
    {
      assert Plus(a, Minus(x, a)) == x;
    }
  }

  /** Writing the word that a patch returned undoes that patch. */
  lemma UnpatchPatch(m: Mem, a: Word)
    ensures Unpatch(Patch(m, a), a, SavedCode(m, a)) == m
  {
    assert Plus(a, 0) == a;
    if WordMapped(m, a) {
      PokePeek(m, Patch(m, a), a);
    }
  }

  /** Writing back the original word makes all eight bytes original and leaves the rest. */
  lemma UnpatchOriginal(orig: Mem, m: Mem, a: Word)
    requires m.Keys == orig.Keys
    ensures WordMapped(m, a) == WordMapped(orig, a)
    ensures Unpatch(m, a, SavedCode(orig, a))
         == if WordMapped(orig, a) then map x: Word | x in m :: if InWord(a, x) then orig[x] else m[x] else m
  {
    if WordMapped(orig, a) {
      PokePeek(orig, m, a);
    }
  }
}
