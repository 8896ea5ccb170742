/**
 Unsigned 64-bit words: address arithmetic modulo 2^64, the little-endian byte
 representation, and the bitwise operators used on instruction words.
 */
module Words {
  const MODULUS := 0x1_0000_0000_0000_0000

  type Word = w: int | 0 <= w < MODULUS
  type Byte = b: int | 0 <= b < 256

  /** Unsigned addition, wrapping at 2^64. */
  function Plus(a: Word, b: Word): Word {
    if a + b < MODULUS then a + b else a + b - MODULUS
  }

  /** Unsigned subtraction, wrapping at 2^64: how far `a` lies above `b`. */
  function Minus(a: Word, b: Word): Word {
    if a >= b then a - b else a - b + MODULUS
  }

  /** The signed (two's complement) reading of a word. */
  function Signed(w: Word): int {
    if w < 0x8000_0000_0000_0000 then w else w - MODULUS
  }

  function Pow2(n: nat): (p: nat)
    ensures p > 0
  {
    if n == 0 then 1 else 2 * Pow2(n - 1)
  }

  // ----- little-endian representation

  function Pow256(n: nat): (p: nat)
    ensures p > 0
  {
    if n == 0 then 1 else 256 * Pow256(n - 1)
  }

  /** The number whose little-endian bytes are `bs`. */
  function Pack(bs: seq<Byte>): (w: nat)
    ensures w < Pow256(|bs|)
  {
    if bs == [] then 0 else bs[0] + 256 * Pack(bs[1..])
  }

  /** The `n` low bytes of `w`, least significant first. */
  function Unpack(w: nat, n: nat): (bs: seq<Byte>)
    ensures |bs| == n
  {
    if n == 0 then [] else [w % 256] + Unpack(w / 256, n - 1)
  }

  lemma {:induction false} UnpackPack(bs: seq<Byte>)
    ensures Unpack(Pack(bs), |bs|) == bs
  {
    if bs == [] {
    } else {
      UnpackPack(bs[1..]);
      var w := Pack(bs);
      assert w % 256 == bs[0] && w / 256 == Pack(bs[1..]);
      assert [bs[0]] + bs[1..] == bs;
    }
  }

  lemma {:induction false} PackUnpack(w: nat, n: nat)
    requires w < Pow256(n)
    ensures Pack(Unpack(w, n)) == w
  {
    if n == 0 {
    } else {
      PackUnpack(w / 256, n - 1);
      assert Unpack(w, n)[1..] == Unpack(w / 256, n - 1);
    }
  }

  lemma Pow256Eight()
    ensures Pow256(8) == MODULUS
  {
  }

  // ----- bitwise operators on the low `n` bits

  function And(x: nat, y: nat, n: nat): nat {
    if n == 0 then 0 else (if x % 2 == 1 && y % 2 == 1 then 1 else 0) + 2 * And(x / 2, y / 2, n - 1)
  }

  function Or(x: nat, y: nat, n: nat): nat {
    if n == 0 then 0 else (if x % 2 == 1 || y % 2 == 1 then 1 else 0) + 2 * Or(x / 2, y / 2, n - 1)
  }

  /** A mask of `n` ones keeps an `n`-bit number. */
  lemma {:induction false} AndOnes(x: nat, n: nat)
    requires x < Pow2(n)
    ensures And(x, Pow2(n) - 1, n) == x
  {
    if n == 0 {
    } else {
      assert (Pow2(n) - 1) / 2 == Pow2(n - 1) - 1 && (Pow2(n) - 1) % 2 == 1;
      AndOnes(x / 2, n - 1);
    }
  }

  /** Or with nothing keeps an `n`-bit number. */
  lemma {:induction false} OrZero(x: nat, n: nat)
    requires x < Pow2(n)
    ensures Or(x, 0, n) == x
  {
    if n == 0 {
    } else {
      OrZero(x / 2, n - 1);
    }
  }

  lemma Pow2FiftySix()
    ensures Pow2(56) == 0x100_0000_0000_0000
  {
    assert Pow2(8) == 256;
    assert Pow2(16) == 256 * Pow2(8) by { assert Pow2(12) == 16 * Pow2(8); }
    assert Pow2(24) == 256 * Pow2(16) by { assert Pow2(20) == 16 * Pow2(16); }
    assert Pow2(32) == 256 * Pow2(24) by { assert Pow2(28) == 16 * Pow2(24); }
    assert Pow2(40) == 256 * Pow2(32) by { assert Pow2(36) == 16 * Pow2(32); }
    assert Pow2(48) == 256 * Pow2(40) by { assert Pow2(44) == 16 * Pow2(40); }
    assert Pow2(52) == 16 * Pow2(48);
  }
}
