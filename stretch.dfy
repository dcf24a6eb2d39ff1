/** stretchRandom: the 23-bit random field mixed into a 42-bit mask with
    the xor-shift and multiply rounds of the SplitMix64 finaliser. Both
    implementations work on unbounded integers (JavaScript BigInt, PHP
    decimal strings): the products are never cut to 64 bits, only the final
    result is masked to 42 bits. */
module StretchRandom {
  import opened Bits
  import opened Widths

  /** The first multiplier, 0x9e3779b97f4a7c15 (11400714819323198485). */
  const FirstMultiplier: nat := 0x9e3779b97f4a7c15
  /** The first multiplier as the PHP implementation writes it, in decimal. */
  const PhpFirstMultiplier: nat := 11400714819323198485
  /** The second multiplier of the JavaScript implementation,
      0xbf58476d1ce4e5b9 (13787848793156543929). */
  const SecondMultiplier: nat := 0xbf58476d1ce4e5b9
  /** The second multiplier as the PHP implementation writes it, in decimal:
      512 less than the JavaScript one. */
  const PhpSecondMultiplier: nat := 13787848793156543417

  /** The mixing rounds on an already masked value, with a given second
      multiplier: xor-shift by 13, multiply, xor-shift by 12, multiply,
      xor-shift by 15. */
  function Rounds(v0: nat, second: nat): nat
  {
    var v1 := Xor(v0, ShiftRight(v0, 13));
    var v2 := v1 * FirstMultiplier;
    var v3 := Xor(v2, ShiftRight(v2, 12));
    var v4 := v3 * second;
    Xor(v4, ShiftRight(v4, 15))
  }

  /** stretchRandom with a given second multiplier: mask the input to 23
      bits, mix, and keep the low 42 bits. */
  function Mix(random: nat, second: nat): (mask: nat)
    ensures mask < Pow2(TimestampBits())
  {
    TimestampMask(Rounds(And(random, MaxRandom()), second));
    And(Rounds(And(random, MaxRandom()), second), MaxTimestamp())
  }

  /** The two implementations write the same first multiplier, one in
      hexadecimal and one in decimal. */
  lemma FirstMultiplierLiteral()
    ensures PhpFirstMultiplier == FirstMultiplier
  {
  }

  /** stretchRandom as the JavaScript implementation writes it; the model
      uses it for both implementations. */
  function Stretch(random: nat): (mask: nat)
    ensures mask < Pow2(TimestampBits())
  {
    Mix(random, SecondMultiplier)
  }

  /** stretchRandom as the PHP implementation writes it, with its own
      second multiplier. */
  function StretchAsWritten(random: nat): (mask: nat)
    ensures mask < Pow2(TimestampBits())
  {
    Mix(random, PhpSecondMultiplier)
  }

  /** Two inputs that agree after masking give the same mask. */
  lemma MixCongruent(a: nat, b: nat, second: nat)
    requires And(a, MaxRandom()) == And(b, MaxRandom())
    ensures Mix(a, second) == Mix(b, second)
  {
  }

  /** The mask reads only the low 23 bits of its input: masking the input
      first, or reducing it modulo 2^23, changes nothing. */
  lemma MixMasksInput(random: nat, second: nat)
    ensures Mix(random, second) == Mix(random % Pow2(RandomBits()), second)
    ensures Mix(random, second) == Mix(And(random, MaxRandom()), second)
  {
    var low := random % Pow2(RandomBits());
    RandomMask(random);
    RandomMask(low);
    RandomMask(And(random, MaxRandom()));
    ModBelow(low, Pow2(RandomBits()));
    MixCongruent(random, low, second);
    MixCongruent(random, And(random, MaxRandom()), second);
  }

  /** `stretchRandom(r) == stretchRandom(r & MAX_RANDOM)`, and the result is
      at most MAX_TIMESTAMP. */
  lemma StretchMasksInput(random: nat)
    ensures Stretch(random) == Stretch(random % Pow2(RandomBits()))
    ensures Stretch(random) == Stretch(And(random, MaxRandom()))
    ensures Stretch(random) <= MaxTimestamp()
  {
    MixMasksInput(random, SecondMultiplier);
  }

  // ---------------------------------------------------------------------
  // The two second multipliers give different masks

  /** The 16 low bits of `m ^ (m >> 12)` for a value with the low bits of
      `FirstMultiplier`. */
  lemma FirstRoundLowBits(m: nat)
    requires m % 0x1_0000 == 0x7c15 && (m / 0x1000) % 0x1_0000 == 0xf4a7
    ensures Xor(m, ShiftRight(m, 12)) % 0x1_0000 == 0x88b2
  {
    SmallPowers();
    ShiftRightIsDiv(m, 12);
    XorMod(m, ShiftRight(m, 12), 16);
    // 0x7c15 ^ 0xf4a7, one bit at a time from the top
    assert Xor(0x0, 0x1) == 0x1;
    assert Xor(0x1, 0x3) == 0x2;
    assert Xor(0x3, 0x7) == 0x4;
    assert Xor(0x7, 0xf) == 0x8;
    assert Xor(0xf, 0x1e) == 0x11;
    assert Xor(0x1f, 0x3d) == 0x22;
    assert Xor(0x3e, 0x7a) == 0x44;
    assert Xor(0x7c, 0xf4) == 0x88;
    assert Xor(0xf8, 0x1e9) == 0x111;
    assert Xor(0x1f0, 0x3d2) == 0x222;
    assert Xor(0x3e0, 0x7a5) == 0x445;
    assert Xor(0x7c1, 0xf4a) == 0x88b;
    assert Xor(0xf82, 0x1e94) == 0x1116;
    assert Xor(0x1f05, 0x3d29) == 0x222c;
    assert Xor(0x3e0a, 0x7a53) == 0x4459;
    assert Xor(0x7c15, 0xf4a7) == 0x88b2;
  }

  /** The product after the first xor-shift has the 28 low bits of
      `FirstMultiplier`, as it has when the masked input is 1. */
  predicate FirstProductLowBits(v0: nat)
  {
    (Xor(v0, ShiftRight(v0, 13)) * FirstMultiplier) % 0x1000_0000 == 0xf4a7c15
  }

  /** Under `FirstProductLowBits`, the lowest bit of the rounds is bit 0 xor
      bit 15 of `0x88b2 * second`, taken modulo 2^16. */
  lemma RoundsLowBit(v0: nat, second: nat)
    requires FirstProductLowBits(v0)
    ensures var low := (0x88b2 * second) % 0x1_0000;
            Rounds(v0, second) % 2 == (if low % 2 != low / 0x8000 then 1 else 0)
  {
    var v2 := Xor(v0, ShiftRight(v0, 13)) * FirstMultiplier;
    var v3 := Xor(v2, ShiftRight(v2, 12));
    var v4 := v3 * second;
    assert v4 % 0x1_0000 == (0x88b2 * second) % 0x1_0000 by {
      ModProduct(v2, 0x1000, 0x1_0000);
      ModProduct(v2, 0x1_0000, 0x1000);
      FirstRoundLowBits(v2);
      MulMod(v3, second, 0x1_0000);
    }
    assert ShiftRight(v4, 15) % 2 == (v4 % 0x1_0000) / 0x8000 by {
      SmallPowers();
      ShiftRightIsDiv(v4, 15);
      ModProduct(v4, 0x8000, 2);
    }
    ModProduct(v4, 2, 0x8000);
    XorHalves(v4, ShiftRight(v4, 15));
  }

  /** A random value whose low 23 bits are 1 masks to 1, and 1 survives the
      first xor-shift. */
  lemma OneFirstProduct(random: nat)
    requires random % Pow2(RandomBits()) == 1
    ensures FirstProductLowBits(And(random, MaxRandom()))
  {
    SmallPowers();
    RandomMask(random);
    ShiftRightIsDiv(1, 13);
    XorZero(1);
  }

  /** Masking keeps the lowest bit of the rounds. */
  lemma MixLowBit(random: nat, second: nat)
    ensures Mix(random, second) % 2 == Rounds(And(random, MaxRandom()), second) % 2
  {
    var r := Rounds(And(random, MaxRandom()), second);
    TimestampMask(r);
    Powers();
    ModProduct(r, 2, 0x200_0000_0000);
  }

  /** The 16 low bits of `0x88b2 * second` depend only on the 16 low bits
      of `second`. */
  lemma ProductLowBits(second: nat, low16: nat, low: nat)
    requires second % 0x1_0000 == low16 && (0x88b2 * low16) % 0x1_0000 == low
    ensures (0x88b2 * second) % 0x1_0000 == low
  {
    MulMod(second, 0x88b2, 0x1_0000);
  }

  /** Under `FirstProductLowBits`, the lowest bit of the mask is that of the
      rounds: bit 0 xor bit 15 of `low`, the 16 low bits of
      `0x88b2 * second`. */
  lemma MaskLowBit(random: nat, second: nat, low: nat)
    requires FirstProductLowBits(And(random, MaxRandom()))
    requires (0x88b2 * second) % 0x1_0000 == low
    ensures Mix(random, second) % 2 == (if low % 2 != low / 0x8000 then 1 else 0)
  {
    RoundsLowBit(And(random, MaxRandom()), second);
    MixLowBit(random, second);
  }

  /** A second multiplier ending in 0xe5b9, as the JavaScript one does,
      gives an even mask. */
  lemma MaskEven(random: nat, second: nat)
    requires FirstProductLowBits(And(random, MaxRandom()))
    requires second % 0x1_0000 == 0xe5b9
    ensures Mix(random, second) % 2 == 0
  {
    ProductLowBits(second, 0xe5b9, 0x2a2);
    MaskLowBit(random, second, 0x2a2);
  }

  /** A second multiplier ending in 0xe3b9, as the PHP one does, gives an
      odd mask. */
  lemma MaskOdd(random: nat, second: nat)
    requires FirstProductLowBits(And(random, MaxRandom()))
    requires second % 0x1_0000 == 0xe3b9
    ensures Mix(random, second) % 2 == 1
  {
    ProductLowBits(second, 0xe3b9, 0x9ea2);
    MaskLowBit(random, second, 0x9ea2);
  }

  /** The PHP mask differs from the JavaScript one: for a random field of 1
      the PHP mask is odd and the JavaScript mask is even. */
  lemma AsWrittenDiffers(random: nat)
    requires random % Pow2(RandomBits()) == 1
    ensures StretchAsWritten(random) % 2 == 1
    ensures Stretch(random) % 2 == 0
    ensures StretchAsWritten(random) != Stretch(random)
  {
    OneFirstProduct(random);
    MaskOdd(random, PhpSecondMultiplier);
    MaskEven(random, SecondMultiplier);
  }
}
