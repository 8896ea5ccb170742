/**
 Signal sets as 64-bit masks: the macros that build them, and the kernel call that reads
 and replaces the mask of blocked signals.
 */
module Signals {
  import opened Words
  import opened Bits

  // ----- the macros

  const NSIG: nat := 29

  /** Converting a 32-bit int, given by its bit pattern, to unsigned long. */
  function SignExtend(v: nat): Word
    requires v < 0x1_0000_0000
  {
    if v < 0x8000_0000 then v else v + 0xffff_ffff_0000_0000
  }

  /** sigmask: the signal's bit, as an int. The shift is defined for signals 1 to 32. */
  function SigMask(sig: nat): (v: nat)
    requires 1 <= sig <= 32
    ensures v < 0x1_0000_0000
  {
    Pow2Values();
    Pow2Monotone(sig - 1, 31);
    Pow2(sig - 1)
  }

  function SigEmptySet(): Word {
    0
  }

  function SigFillSet(): Word {
    SignExtend(SigMask(NSIG) - 1)
  }

  function SigAddSet(signals: Word, sig: nat): Word
    requires 1 <= sig <= 32
  {
    Pow2Values();
    OrBound(signals, SignExtend(SigMask(sig)), 64);
    Or(signals, SignExtend(SigMask(sig)), 64)
  }

  function SigDelSet(signals: Word, sig: nat): Word
    requires 1 <= sig <= 32
  {
    Pow2Values();
    AndBound(signals, SignExtend(0xffff_ffff - SigMask(sig)), 64);
    And(signals, SignExtend(0xffff_ffff - SigMask(sig)), 64)
  }

  predicate SigIsMember(signals: Word, sig: nat)
    requires 1 <= sig <= 32
  {
    And(signals, SignExtend(SigMask(sig)), 64) != 0
  }

  // ----- what the macros do

  /** The bits of a signal's mask: its own, and for signal 32 the sign bits above it. */
  lemma MaskBits(sig: nat, i: nat)
    requires 1 <= sig <= 32
    ensures Bit(SignExtend(SigMask(sig)), i) == (i == sig - 1 || (sig == 32 && 32 <= i < 64))
  {
    Pow2Values();
    if sig < 32 {
      Pow2Monotone(sig - 1, 30);
      BitPow2(sig - 1, i);
    } else {
      BitZero(i);
      BitNot(0, 31, i);
      BitNot(Pow2(31) - 1, 64, i);
    }
  }

  /** The bits of the complement of a signal's mask. */
  lemma NotMaskBits(sig: nat, i: nat)
    requires 1 <= sig <= 32
    ensures Bit(SignExtend(0xffff_ffff - SigMask(sig)), i) == (i < 64 && !Bit(SignExtend(SigMask(sig)), i))
  {
    Pow2Values();
    BitNot(SignExtend(SigMask(sig)), 64, i);
    if sig < 32 {
      Pow2Monotone(sig - 1, 30);
    } else {
    }
  }

  /** Below 32, membership is the signal's own bit. */
  lemma MemberIsBit(signals: Word, sig: nat)
    requires 1 <= sig <= 31
    ensures SigIsMember(signals, sig) == Bit(signals, sig - 1)
  {
    Pow2Values();
    Pow2Monotone(sig - 1, 30);
    AndNonzero(signals, sig - 1);
  }

  /** Adding or deleting a signal changes that signal's bit, and with it, for signal 32, all above. */
  lemma AddDeleteBits(signals: Word, sig: nat, i: nat)
    requires 1 <= sig <= 32 && i < 64
    ensures var touched := i == sig - 1 || (sig == 32 && i >= 32);
            && Bit(SigAddSet(signals, sig), i) == (Bit(signals, i) || touched)
            && Bit(SigDelSet(signals, sig), i) == (Bit(signals, i) && !touched)
  {
    MaskBits(sig, i);
    NotMaskBits(sig, i);
    BitOr(signals, SignExtend(SigMask(sig)), 64, i);
    BitAnd(signals, SignExtend(0xffff_ffff - SigMask(sig)), 64, i);
  }

  /** The macros act as set operations on signals 1 to 31; the full set stops at signal 28. */
  lemma MacrosAreSetOperations(signals: Word, sig: nat, other: nat)
    requires 1 <= sig <= 31 && 1 <= other <= 31
    ensures !SigIsMember(SigEmptySet(), other)
    ensures SigIsMember(SigFillSet(), other) <==> other < NSIG
    ensures SigIsMember(SigAddSet(signals, sig), other) <==> other == sig || SigIsMember(signals, other)
    ensures SigIsMember(SigDelSet(signals, sig), other) <==> other != sig && SigIsMember(signals, other)
  {
    MemberIsBit(SigEmptySet(), other);
    BitZero(other - 1);
    MemberIsBit(SigFillSet(), other);
    BitNot(0, 28, other - 1);
    Pow2Values();
    MemberIsBit(signals, other);
    MemberIsBit(SigAddSet(signals, sig), other);
    MemberIsBit(SigDelSet(signals, sig), other);
    AddDeleteBits(signals, sig, other - 1);
  }

  // ----- the kernel's mask

  /** SIGKILL and SIGSTOP, signals 9 and 19, cannot be blocked. */
  function Blockable(signals: Word): Word {
    Pow2Values();
    AndBound(signals, 0xffff_ffff_fffb_feff, 64);
    And(signals, 0xffff_ffff_fffb_feff, 64)
  }

  const SIG_BLOCK: Word := 0
  const SIG_UNBLOCK: Word := 1
  const SIG_SETMASK: Word := 2

  /** rt_sigprocmask's new mask; the operation is one of the three above. */
  function NewMask(mask: Word, how: Word, signals: Word): Word
    requires how <= SIG_SETMASK
  {
    Pow2Values();
    OrBound(mask, Blockable(signals), 64);
    AndBound(mask, MODULUS - 1 - Blockable(signals), 64);
    if how == SIG_BLOCK then Or(mask, Blockable(signals), 64)
    else if how == SIG_UNBLOCK then And(mask, MODULUS - 1 - Blockable(signals), 64)
    else Blockable(signals)
  }

  /** All signals but the two can be blocked. */
  lemma BlockableBits(signals: Word, i: nat)
    ensures Bit(Blockable(signals), i) <==> i < 64 && Bit(signals, i) && i != 9 - 1 && i != 19 - 1
  {
    Pow2Values();
    BitAnd(signals, 0xffff_ffff_fffb_feff, 64, i);
    BitNot(0x40100, 64, i);
    KillAndStop(i);
  }

  lemma KillAndStop(i: nat)
    ensures Bit(0x40100, i) <==> i == 8 || i == 18
  {
    assert !Bit(0x40100, 0) && !Bit(0x40100, 1) && !Bit(0x40100, 2) && !Bit(0x40100, 3);
    assert !Bit(0x40100, 4) && !Bit(0x40100, 5) && !Bit(0x40100, 6) && !Bit(0x40100, 7) && Bit(0x40100, 8);
    if i > 8 {
      assert Bit(0x40100, i) == Bit(0x20080, i - 1) == Bit(0x10040, i - 2) == Bit(0x8020, i - 3) == Bit(0x4010, i - 4);
      assert Bit(0x4010, i - 4) == Bit(0x2008, i - 5) == Bit(0x1004, i - 6) == Bit(0x802, i - 7) == Bit(0x401, i - 8);
      assert Bit(0x401, i - 8) == Bit(0x200, i - 9) && Pow2(9) == 0x200;
      BitPow2(9, i - 9);
    }
  }

  /** Blocking adds the given signals, unblocking removes them, and setting replaces the mask. */
  lemma NewMaskBits(mask: Word, how: Word, signals: Word, i: nat)
    requires how <= SIG_SETMASK
    ensures var given := i < 64 && Bit(signals, i) && i != 9 - 1 && i != 19 - 1;
            Bit(NewMask(mask, how, signals), i) <==>
              if how == 0 then i < 64 && (Bit(mask, i) || given)
              else if how == 1 then i < 64 && Bit(mask, i) && !given
              else given
  {
    Pow2Values();
    BlockableBits(signals, i);
    BitOr(mask, Blockable(signals), 64, i);
    BitAnd(mask, MODULUS - 1 - Blockable(signals), 64, i);
    BitNot(Blockable(signals), 64, i);
  }
}
