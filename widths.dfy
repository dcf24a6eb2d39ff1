/** The field widths of an identifier and the two masks built from them
    (TIMESTAMP_BITS, FLAG_BITS, RANDOM_BITS, MAX_TIMESTAMP, MAX_RANDOM). */
module Widths {
  import opened Bits

  function TimestampBits(): nat { 42 }
  function FlagBits(): nat { 1 }
  function RandomBits(): nat { 23 }
  /** Width of the whole identifier. */
  function IdBits(): nat { TimestampBits() + FlagBits() + RandomBits() }

  /** MAX_TIMESTAMP, `(1 << 42) - 1` */
  function MaxTimestamp(): nat { Pow2(TimestampBits()) - 1 }
  /** MAX_RANDOM, `(1 << 23) - 1` */
  function MaxRandom(): nat { Pow2(RandomBits()) - 1 }

  /** The powers of two at the widths in use, as numbers. The verifier does
      not evaluate `Pow2` at a literal by itself; proofs about the fixed
      widths call this lemma instead of unfolding `Pow2`. */
  lemma Powers()
    ensures Pow2(1) == 2 && Pow2(6) == 64 && Pow2(12) == 0x1000
    ensures Pow2(13) == 0x2000 && Pow2(15) == 0x8000 && Pow2(16) == 0x1_0000
    ensures Pow2(23) == 0x80_0000 && Pow2(24) == 0x100_0000
    ensures Pow2(42) == 0x400_0000_0000 && Pow2(43) == 0x800_0000_0000
    ensures Pow2(64) == 0x1_0000_0000_0000_0000 && Pow2(66) == 0x4_0000_0000_0000_0000
  {
    SmallPowers();
    assert Pow2(48) == 0x1_0000_0000_0000 by { Pow2Add(24, 24); }
    assert Pow2(42) == 0x400_0000_0000 by { Pow2Add(42, 6); }
    assert Pow2(43) == 0x800_0000_0000;
    assert Pow2(66) == 0x4_0000_0000_0000_0000 by { Pow2Add(24, 42); }
    assert Pow2(64) == 0x1_0000_0000_0000_0000 by { Pow2Add(64, 2); }
  }

  lemma SmallPowers()
    ensures Pow2(1) == 2 && Pow2(2) == 4 && Pow2(6) == 64 && Pow2(12) == 0x1000
    ensures Pow2(13) == 0x2000 && Pow2(15) == 0x8000 && Pow2(16) == 0x1_0000
    ensures Pow2(23) == 0x80_0000 && Pow2(24) == 0x100_0000
  {
    assert Pow2(2) == 4;
    assert Pow2(6) == 64;
    assert Pow2(12) == 0x1000 by { Pow2Add(6, 6); }
    assert Pow2(13) == 0x2000;
    assert Pow2(16) == 0x1_0000 by { Pow2Add(12, 4); }
    assert Pow2(15) == 0x8000;
    assert Pow2(24) == 0x100_0000 by { Pow2Add(12, 12); }
  }

  /** Both masks as numbers. */
  lemma MaskValues()
    ensures MaxTimestamp() == 0x3FF_FFFF_FFFF && MaxRandom() == 0x7F_FFFF
  {
    Powers();
  }

  /** Masking with MAX_TIMESTAMP keeps the 42 low bits. */
  lemma TimestampMask(x: nat)
    ensures And(x, MaxTimestamp()) == x % Pow2(TimestampBits())
    ensures And(x, MaxTimestamp()) < Pow2(TimestampBits())
  {
    Powers();
    AndLowMask(x, TimestampBits());
  }

  /** A value below 2^42 is unchanged by the MAX_TIMESTAMP mask. */
  lemma TimestampMaskId(x: nat)
    requires x < Pow2(TimestampBits())
    ensures And(x, MaxTimestamp()) == x
  {
    Powers();
    AndLowMaskId(x, TimestampBits());
  }

  /** Masking with MAX_RANDOM keeps the 23 low bits. */
  lemma RandomMask(x: nat)
    ensures And(x, MaxRandom()) == x % Pow2(RandomBits())
    ensures And(x, MaxRandom()) < Pow2(RandomBits())
  {
    Powers();
    AndLowMask(x, RandomBits());
  }
}
