/** The PHP implementation as written: the same algorithm as the rest of the
    model, but every wide integer is a decimal string and every operation on
    one goes through the bigInt helpers. Each method here is proved to
    compute what the number-level model computes on the values the strings
    denote. The random source is a parameter (`entropy`, the 32-bit value
    `unpack('N', random_bytes(4))` yields). */
module PhpNfuid {
  import opened Wrappers
  import opened Bits
  import opened Widths
  import Alphabet
  import opened Codec
  import Mixer = StretchRandom
  import opened DecimalString
  import opened DecimalBits
  import Nfuid
  import CodecLaws

  /** The first multiplier of stretchRandom as a decimal string,
      '11400714819323198485'. */
  function FirstMultiplierDigits(): (s: string)
    ensures Canonical(s) && Value(s) == Mixer.PhpFirstMultiplier
  {
    ToDecimal(Mixer.PhpFirstMultiplier)
  }

  /** The second multiplier as the PHP implementation writes it,
      '13787848793156543417'. */
  function SecondMultiplierDigits(): (s: string)
    ensures Canonical(s) && Value(s) == Mixer.PhpSecondMultiplier
  {
    ToDecimal(Mixer.PhpSecondMultiplier)
  }

  /** `bigIntSubtract(bigIntLeftShift('1', bits), '1')`: the all-ones mask of
      a width. */
  method LowMask(bits: nat) returns (mask: string)
    requires bits > 0
    ensures Canonical(mask) && Value(mask) == Pow2(bits) - 1
  {
    SmallValues();
    var power := LeftShift("1", bits);
    ShiftLeftIsMul(1, bits);
    mask := Subtract(power, "1");
  }

  /** initConstants without the lazy guard: MAX_TIMESTAMP and MAX_RANDOM as
      decimal strings (the alphabet map is `Alphabet.BuildTable`). */
  method InitConstants() returns (maxTimestamp: string, maxRandom: string)
    ensures Canonical(maxTimestamp) && Value(maxTimestamp) == MaxTimestamp()
    ensures Canonical(maxRandom) && Value(maxRandom) == MaxRandom()
  {
    var tb := TimestampBits();
    var rb := RandomBits();
    maxTimestamp := LowMask(tb);
    maxRandom := LowMask(rb);
  }

  /** getSecureRandom with the 32-bit value read from the random source as
      a parameter: its decimal, masked with MAX_RANDOM. */
  method SecureRandom(entropy: nat) returns (random: string)
    ensures Canonical(random) && Value(random) == Nfuid.SecureRandom(entropy)
  {
    var maxTimestamp, maxRandom := InitConstants();
    random := BitAnd(ToDecimal(entropy), maxRandom);
  }

  /** The xor-shift and multiply rounds of stretchRandom on decimal
      strings, with the second multiplier as a parameter. */
  method Rounds(v0: string, second: string) returns (v: string)
    requires IsDigits(v0)
    ensures Canonical(v) && Value(v) == Mixer.Rounds(Value(v0), Value(second))
  {
    var shifted := RightShift(v0, 13);
    v := BitXor(v0, shifted);
    Mixer.FirstMultiplierLiteral();
    v := Multiply(v, FirstMultiplierDigits());
    shifted := RightShift(v, 12);
    v := BitXor(v, shifted);
    v := Multiply(v, second);
    shifted := RightShift(v, 15);
    v := BitXor(v, shifted);
  }

  /** stretchRandom on decimal strings, with the PHP second multiplier. */
  method StretchRandom(random: string) returns (mask: string)
    requires IsDigits(random)
    ensures Canonical(mask) && Value(mask) == Mixer.StretchAsWritten(Value(random))
  {
    var maxTimestamp, maxRandom := InitConstants();
    var v := BitAnd(random, maxRandom);
    v := Rounds(v, SecondMultiplierDigits());
    mask := BitAnd(v, maxTimestamp);
  }

  /** The body of one round of encodeBitsToBase64 up to the alphabet
      lookup: the next min(6, remaining) bits cut out with bigInt shifts
      and masks, read as a native integer and padded to six bits. */
  method Group(value: string, remainingBits: nat) returns (index: nat)
    requires IsDigits(value) && remainingBits > 0
    ensures index == GroupIndex(Value(value), remainingBits)
  {
    var bitsToTake := Min(6, remainingBits);
    var shift := remainingBits - bitsToTake;
    var shiftedValue := RightShift(value, shift);
    var mask := LowMask(bitsToTake);
    var group := BitAnd(shiftedValue, mask);
    index := Value(group);
    if bitsToTake < 6 {
      index := ShiftLeft(index, 6 - bitsToTake);
    }
  }

  /** encodeBitsToBase64 on a decimal string: the same loop as
      `Codec.EncodeBitsToBase64`, with each group cut out by bigInt shifts
      and masks and then read as a native integer. */
  method EncodeBitsToBase64(value: string, bitCount: nat) returns (s: string)
    requires IsDigits(value)
    ensures s == EncodeBits(Value(value), bitCount)
  {
    var chars: seq<char> := [];
    var remainingBits: nat := bitCount;
    while remainingBits > 0
      invariant remainingBits <= bitCount
      invariant chars + EncodeBits(Value(value), remainingBits) == EncodeBits(Value(value), bitCount)
    {
      var index := Group(value, remainingBits);
      var bitsToTake := Min(6, remainingBits);
      EncodeBitsFirst(chars, Value(value), remainingBits, bitCount);
      chars := chars + [Alphabet.Symbol(index)];
      remainingBits := remainingBits - bitsToTake;
    }
    s := chars;
  }

  /** decodeBase64ToBits on decimal strings: the same loop as
      `Codec.DecodeBase64ToBits`, with the value kept as a decimal and
      extended by bigIntLeftShift and bigIntOr. */
  method DecodeBase64ToBits(str: string, expectedBitCount: nat) returns (r: Result<string, DecodeError>)
    ensures r.Err? <==> DecodeBits(str, expectedBitCount).Err?
    ensures r.Ok? ==> Canonical(r.value) && Value(r.value) == DecodeBits(str, expectedBitCount).value
  {
    SmallValues();
    var value := "0";
    var totalBits: nat := 0;
    var i := 0;
    while i < |str|
      invariant i <= |str| && totalBits <= expectedBitCount && Canonical(value)
      invariant DecodeFrom(str[i..], expectedBitCount, DecodeState(Value(value), totalBits))
             == DecodeFrom(str, expectedBitCount, DecodeState(0, 0))
    {
      ghost var st := DecodeState(Value(value), totalBits);
      DecodeFromFirst(str[i..], expectedBitCount, st);
      assert str[i..][1..] == str[i + 1..];
      var symbol := Alphabet.IndexOf(str[i]);
      if symbol.None? {
        return Err(InvalidCharacter);
      }
      var charBits := Min(6, expectedBitCount - totalBits);
      var charValue := symbol.value;
      if charBits < 6 {
        charValue := ShiftRight(charValue, 6 - charBits);
      }
      var shifted := LeftShift(value, charBits);
      value := BitOr(shifted, ToDecimal(charValue));
      totalBits := totalBits + charBits;
      assert DecodeState(Value(value), totalBits) == Step(st, symbol.value, expectedBitCount);
      i := i + 1;
    }
    return Ok(value);
  }

  /** encodeRandomToBase64 */
  method EncodeRandomToBase64(random: string) returns (s: string)
    requires IsDigits(random)
    ensures s == Nfuid.EncodeRandom(Value(random))
  {
    s := EncodeBitsToBase64(random, RandomBits());
  }

  // ---------------------------------------------------------------------
  // generate and parse as the PHP implementation writes them

  /** The hidden timestamp field with the PHP mask. */
  function HideAsWritten(timestamp: nat, random: nat): (field: nat)
    ensures field < Pow2(TimestampBits())
  {
    TimestampMask(Xor(timestamp, Mixer.StretchAsWritten(random)));
    And(Xor(timestamp, Mixer.StretchAsWritten(random)), MaxTimestamp())
  }

  /** On a 42-bit timestamp, hiding with the PHP mask is plain xor with it. */
  lemma HideAsWrittenIsXor(timestamp: nat, random: nat)
    requires timestamp < Pow2(TimestampBits())
    ensures HideAsWritten(timestamp, random) == Xor(timestamp, Mixer.StretchAsWritten(random))
  {
    XorBound(timestamp, Mixer.StretchAsWritten(random), TimestampBits());
    TimestampMaskId(Xor(timestamp, Mixer.StretchAsWritten(random)));
  }

  /** Hiding twice with the PHP mask gives back the timestamp: the PHP
      implementation parses its own hidden identifiers correctly. */
  lemma HideAsWrittenInvolution(timestamp: nat, random: nat)
    requires timestamp < Pow2(TimestampBits())
    ensures HideAsWritten(HideAsWritten(timestamp, random), random) == timestamp
  {
    var mask := Mixer.StretchAsWritten(random);
    HideAsWrittenIsXor(timestamp, random);
    HideAsWrittenIsXor(Xor(timestamp, mask), random);
    XorInvolution(timestamp, mask);
  }

  /** The fields PHP generate packs. They fit their widths when the random
      field does, and the timestamp PHP parse reads from them is the clock
      reading modulo 2^42, in both modes. */
  function GeneratedFields(nowMs: nat, random: nat, hidden: bool): (f: Nfuid.Fields)
    ensures random < Pow2(RandomBits()) ==> Nfuid.InRange(f)
    ensures (if f.flag == 1 then HideAsWritten(f.timestamp, f.random) else f.timestamp)
            == nowMs % Pow2(TimestampBits())
  {
    var timestamp := And(nowMs, MaxTimestamp());
    TimestampMask(nowMs);
    if hidden then
      HideAsWrittenInvolution(timestamp, random);
      Nfuid.Fields(HideAsWritten(timestamp, random), 1, random)
    else
      Nfuid.Fields(timestamp, 0, random)
  }

  /** PHP generate on numbers, with the clock reading and the random source
      as parameters. */
  function GenerateAsWritten(nowMs: nat, entropy: nat, hidden: bool): (id: string)
    ensures |id| == 11
  {
    EncodeBits(Nfuid.Pack(GeneratedFields(nowMs, Nfuid.SecureRandom(entropy), hidden)), IdBits())
  }

  /** PHP parse on numbers: as `Nfuid.Parse`, but unhiding with the PHP
      mask. */
  function ParseAsWritten(id: string): (r: Result<Nfuid.ParsedId, DecodeError>)
    ensures r.Ok? ==> r.value.timestamp < Pow2(TimestampBits())
    ensures r.Err? <==> DecodeBits(id, IdBits()).Err?
  {
    match DecodeBits(id, IdBits())
    case Err(e) => Err(e)
    case Ok(value) =>
      var f := Nfuid.Unpack(value);
      TimestampMask(ShiftRight(value, RandomBits() + FlagBits()));
      Ok(Nfuid.ParsedId(if f.flag == 1 then HideAsWritten(f.timestamp, f.random) else f.timestamp,
                        f.flag == 1, Nfuid.EncodeRandom(f.random)))
  }

  /** What `ParseAsWritten` gives when the identifier decodes. */
  lemma ParseAsWrittenOk(id: string, value: nat)
    requires DecodeBits(id, IdBits()) == Ok(value)
    ensures var f := Nfuid.Unpack(value);
            ParseAsWritten(id)
            == Ok(Nfuid.ParsedId(if f.flag == 1 then HideAsWritten(f.timestamp, f.random) else f.timestamp,
                                 f.flag == 1, Nfuid.EncodeRandom(f.random)))
  {
  }

  /** generate: the clock reading becomes a decimal string, and the fields
      are masked, hidden and packed with the bigInt helpers. */
  method Generate(nowMs: nat, entropy: nat, hidden: bool) returns (id: string)
    ensures id == GenerateAsWritten(nowMs, entropy, hidden)
  {
    var maxTimestamp, maxRandom := InitConstants();
    var randomBits, flagBits, idBits := RandomBits(), FlagBits(), IdBits();
    var timestamp := BitAnd(ToDecimal(nowMs), maxTimestamp);
    var random := SecureRandom(entropy);
    var flagBit := if hidden then "1" else "0";
    SmallValues();
    var finalTimestamp := timestamp;
    if hidden {
      var stretched := StretchRandom(random);
      finalTimestamp := BitXor(timestamp, stretched);
      finalTimestamp := BitAnd(finalTimestamp, maxTimestamp);
    }
    var high := LeftShift(finalTimestamp, randomBits + flagBits);
    var flag := LeftShift(flagBit, randomBits);
    var combined := BitOr(high, flag);
    combined := BitOr(combined, random);
    assert Value(combined) == Nfuid.Pack(GeneratedFields(nowMs, Nfuid.SecureRandom(entropy), hidden));
    id := EncodeBitsToBase64(combined, idBits);
  }

  /** parse: decode to a decimal string, cut out the fields with the bigInt
      helpers, and unhide the timestamp when the flag is '1'. The
      timestamp is reported in milliseconds (`(int)$timestamp`). */
  method Parse(id: string) returns (r: Result<Nfuid.ParsedId, DecodeError>)
    ensures r == ParseAsWritten(id)
  {
    var maxTimestamp, maxRandom := InitConstants();
    var randomBits, flagBits, idBits := RandomBits(), FlagBits(), IdBits();
    var decoded := DecodeBase64ToBits(id, idBits);
    if decoded.Err? {
      assert ParseAsWritten(id).error == InvalidCharacter;
      return Err(InvalidCharacter);
    }
    var value := decoded.value;
    SmallValues();
    var random := BitAnd(value, maxRandom);
    var shifted := RightShift(value, randomBits);
    var flagBit := BitAnd(shifted, "1");
    shifted := RightShift(value, randomBits + flagBits);
    var timestamp := BitAnd(shifted, maxTimestamp);
    assert Value(flagBit) < 2 by {
      AndLowMaskBelow(ShiftRight(Value(value), randomBits), 1);
    }
    SmallCanonical(flagBit);
    ghost var f := Nfuid.Unpack(Value(value));
    assert Value(random) == f.random && Value(flagBit) == f.flag && Value(timestamp) == f.timestamp;
    var isHidden := flagBit == "1";
    if isHidden {
      var stretched := StretchRandom(random);
      timestamp := BitXor(timestamp, stretched);
      timestamp := BitAnd(timestamp, maxTimestamp);
    }
    assert Value(timestamp) == if f.flag == 1 then HideAsWritten(f.timestamp, f.random) else f.timestamp;
    var encoded := EncodeRandomToBase64(random);
    r := Ok(Nfuid.ParsedId(Value(timestamp), isHidden, encoded));
    ParseAsWrittenOk(id, Value(value));
  }

  /** A PHP identifier decodes to the packed PHP fields, and unpacking
      gives the fields back. */
  lemma DecodeGeneratedAsWritten(nowMs: nat, entropy: nat, hidden: bool)
    ensures DecodeBits(GenerateAsWritten(nowMs, entropy, hidden), IdBits()).Ok?
    ensures Nfuid.Unpack(DecodeBits(GenerateAsWritten(nowMs, entropy, hidden), IdBits()).value)
            == GeneratedFields(nowMs, Nfuid.SecureRandom(entropy), hidden)
  {
    var f := GeneratedFields(nowMs, Nfuid.SecureRandom(entropy), hidden);
    assert GenerateAsWritten(nowMs, entropy, hidden) == EncodeBits(Nfuid.Pack(f), IdBits());
    Nfuid.PackBound(f);
    CodecLaws.DecodeEncode(Nfuid.Pack(f), IdBits());
    Nfuid.UnpackPack(f);
  }

  /** Parsing a PHP-generated identifier in PHP gives back the clock
      reading modulo 2^42, the hidden flag and the encoded random field. */
  lemma ParseGenerateAsWritten(nowMs: nat, entropy: nat, hidden: bool)
    ensures ParseAsWritten(GenerateAsWritten(nowMs, entropy, hidden))
            == Ok(Nfuid.ParsedId(nowMs % Pow2(TimestampBits()), hidden,
                                 Nfuid.EncodeRandom(entropy % Pow2(RandomBits()))))
  {
    var f := GeneratedFields(nowMs, Nfuid.SecureRandom(entropy), hidden);
    DecodeGeneratedAsWritten(nowMs, entropy, hidden);
    var id := GenerateAsWritten(nowMs, entropy, hidden);
    ParseAsWrittenOk(id, DecodeBits(id, IdBits()).value);
  }

  /** The two implementations do not read each other's hidden identifiers:
      for a random field of 1, an identifier the PHP implementation hides
      parses in the JavaScript implementation to a timestamp other than
      the one generated (the two masks differ in their lowest bit). */
  lemma CrossParse(nowMs: nat, entropy: nat)
    requires entropy % Pow2(RandomBits()) == 1
    ensures Nfuid.Parse(GenerateAsWritten(nowMs, entropy, true)).Ok?
    ensures Nfuid.Parse(GenerateAsWritten(nowMs, entropy, true)).value.timestamp
            != nowMs % Pow2(TimestampBits())
  {
    var random := Nfuid.SecureRandom(entropy);
    var f := GeneratedFields(nowMs, random, true);
    var id := GenerateAsWritten(nowMs, entropy, true);
    var t := And(nowMs, MaxTimestamp());
    TimestampMask(nowMs);
    DecodeGeneratedAsWritten(nowMs, entropy, true);
    assert Nfuid.Parse(id) == Ok(Nfuid.ParsedId(Nfuid.ParsedTimestamp(f), true, Nfuid.EncodeRandom(random)));
    ModBelow(random, Pow2(RandomBits()));
    assert f == Nfuid.Fields(HideAsWritten(t, random), 1, random);
    HideAsWrittenThenUnhide(t, random);
  }

  /** The other direction: for a random field of 1, an identifier the
      JavaScript implementation hides parses in the PHP implementation to a
      timestamp other than the one generated. */
  lemma ReverseCrossParse(nowMs: nat, entropy: nat)
    requires entropy % Pow2(RandomBits()) == 1
    ensures ParseAsWritten(Nfuid.Generate(nowMs, entropy, true)).Ok?
    ensures ParseAsWritten(Nfuid.Generate(nowMs, entropy, true)).value.timestamp
            != nowMs % Pow2(TimestampBits())
  {
    var random := Nfuid.SecureRandom(entropy);
    var f := Nfuid.GeneratedFields(nowMs, random, true);
    var id := Nfuid.Generate(nowMs, entropy, true);
    var t := And(nowMs, MaxTimestamp());
    TimestampMask(nowMs);
    Nfuid.DecodeGenerated(nowMs, entropy, true);
    ParseAsWrittenOk(id, DecodeBits(id, IdBits()).value);
    ModBelow(random, Pow2(RandomBits()));
    assert f == Nfuid.Fields(Nfuid.Hide(t, random), 1, random);
    HideThenUnhideAsWritten(t, random);
  }

  /** Hiding with the JavaScript mask and unhiding with the PHP one flips
      the lowest bit of a timestamp when the random field is 1. */
  lemma HideThenUnhideAsWritten(t: nat, random: nat)
    requires t < Pow2(TimestampBits()) && random % Pow2(RandomBits()) == 1
    ensures HideAsWritten(Nfuid.Hide(t, random), random) % 2 != t % 2
  {
    var h := Nfuid.Hide(t, random);
    Mixer.AsWrittenDiffers(random);
    Nfuid.HideIsXor(t, random);
    XorHalves(t, Mixer.Stretch(random));
    HideAsWrittenIsXor(h, random);
    XorHalves(h, Mixer.StretchAsWritten(random));
  }

  /** Hiding with the PHP mask and unhiding with the JavaScript one flips
      the lowest bit of a timestamp when the random field is 1. */
  lemma HideAsWrittenThenUnhide(t: nat, random: nat)
    requires t < Pow2(TimestampBits()) && random % Pow2(RandomBits()) == 1
    ensures Nfuid.Hide(HideAsWritten(t, random), random) % 2 != t % 2
  {
    var h := HideAsWritten(t, random);
    Mixer.AsWrittenDiffers(random);
    HideAsWrittenIsXor(t, random);
    XorHalves(t, Mixer.StretchAsWritten(random));
    Nfuid.HideIsXor(h, random);
    XorHalves(h, Mixer.Stretch(random));
  }
}
