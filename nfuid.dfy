/** The identifier itself: a 66-bit value laid out as
    timestamp (42 bits) | hidden flag (1 bit) | random (23 bits),
    written as 11 characters of the URL-safe alphabet. In hidden mode the
    timestamp field holds the timestamp xor-ed with a 42-bit mask stretched
    from the random field, and parsing applies the same mask again.
    The clock and the random source are parameters: `nowMs` is the
    millisecond clock reading and `entropy` the 32-bit value read from the
    random source. */
module Nfuid {
  import opened Wrappers
  import opened Bits
  import Alphabet
  import opened Codec
  import opened CodecLaws
  import opened Widths
  import opened StretchRandom

  // ---------------------------------------------------------------------
  // Hiding the timestamp

  /** The timestamp field of a hidden identifier: the timestamp xor-ed with
      the mask stretched from the random field, cut back to 42 bits. Parsing
      applies the same operation to undo it. */
  function Hide(timestamp: nat, random: nat): (field: nat)
    ensures field < Pow2(TimestampBits())
  {
    TimestampMask(Xor(timestamp, Stretch(random)));
    And(Xor(timestamp, Stretch(random)), MaxTimestamp())
  }

  /** On a 42-bit timestamp, hiding is plain xor with the mask. */
  lemma HideIsXor(timestamp: nat, random: nat)
    requires timestamp < Pow2(TimestampBits())
    ensures Hide(timestamp, random) == Xor(timestamp, Stretch(random))
  {
    XorBound(timestamp, Stretch(random), TimestampBits());
    TimestampMaskId(Xor(timestamp, Stretch(random)));
  }

  /** Hiding twice with the same random field gives back the timestamp. */
  lemma HideInvolution(timestamp: nat, random: nat)
    requires timestamp < Pow2(TimestampBits())
    ensures Hide(Hide(timestamp, random), random) == timestamp
  {
    var mask := Stretch(random);
    HideIsXor(timestamp, random);
    HideIsXor(Xor(timestamp, mask), random);
    XorInvolution(timestamp, mask);
  }

  /** Hiding reads only the low 23 bits of the random value. */
  lemma HideMasksRandom(timestamp: nat, random: nat)
    ensures Hide(timestamp, random) == Hide(timestamp, random % Pow2(RandomBits()))
  {
    StretchMasksInput(random);
  }

  // ---------------------------------------------------------------------
  // Field layout: timestamp (42 bits) | flag (1 bit) | random (23 bits)

  datatype Fields = Fields(timestamp: nat, flag: nat, random: nat)

  /** Each field fits its width. */
  predicate InRange(f: Fields)
  {
    f.timestamp < Pow2(TimestampBits()) && f.flag < 2 && f.random < Pow2(RandomBits())
  }

  /** `(timestamp << 24) | (flag << 23) | random`. Fields that fit their
      widths are placed side by side, so the or-ed value is their sum
      `(2·timestamp + flag)·2^23 + random`. */
  function Pack(f: Fields): (value: nat)
    ensures InRange(f) ==> value == ShiftLeft(2 * f.timestamp + f.flag, RandomBits()) + f.random
  {
    if InRange(f) then
      JoinThree(f.timestamp, f.flag, f.random, RandomBits(), RandomBits() + FlagBits());
      Or(Or(ShiftLeft(f.timestamp, RandomBits() + FlagBits()), ShiftLeft(f.flag, RandomBits())), f.random)
    else
      Or(Or(ShiftLeft(f.timestamp, RandomBits() + FlagBits()), ShiftLeft(f.flag, RandomBits())), f.random)
  }

  /** Packed fields that fit their widths have 66 bits. */
  lemma PackBound(f: Fields)
    requires InRange(f)
    ensures Pack(f) < Pow2(IdBits())
  {
    Powers();
    JoinThreeBelow(f.timestamp, f.flag, f.random, TimestampBits(), RandomBits(), IdBits());
  }

  /** The three fields read back from a value: `(value >> 24) & MAX_TIMESTAMP`,
      `(value >> 23) & 1` and `value & MAX_RANDOM`. Whatever the value, each
      field fits its width. */
  function Unpack(value: nat): (f: Fields)
    ensures InRange(f)
  {
    TimestampMask(ShiftRight(value, RandomBits() + FlagBits()));
    RandomMask(value);
    SmallPowers();
    AndLowMaskBelow(ShiftRight(value, RandomBits()), 1);
    Fields(And(ShiftRight(value, RandomBits() + FlagBits()), MaxTimestamp()),
           And(ShiftRight(value, RandomBits()), 1),
           And(value, MaxRandom()))
  }

  /** Unpacking a packed value gives back the fields. */
  lemma UnpackPack(f: Fields)
    requires InRange(f)
    ensures Unpack(Pack(f)) == f
  {
    var value := Pack(f);
    var n, k := TimestampBits(), RandomBits();
    assert value == ShiftLeft(2 * f.timestamp + f.flag, k) + f.random;
    Powers();
    SplitThreeMasked(f.timestamp, f.flag, f.random, n, k, k + 1);
    var g := Unpack(value);
    assert g.timestamp == f.timestamp;
    assert g.flag == f.flag;
    assert g.random == f.random;
  }

  /** Every 66-bit value is the packing of its unpacked fields, and those
      fields fit their widths. */
  lemma PackUnpack(value: nat)
    requires value < Pow2(IdBits())
    ensures InRange(Unpack(value))
    ensures Pack(Unpack(value)) == value
  {
    Powers();
    JoinThreeMasked(value, TimestampBits(), RandomBits(), RandomBits() + FlagBits(), IdBits());
  }

  // ---------------------------------------------------------------------
  // Encodings at the fixed widths

  /** encode64ToBase64: a 64-bit value as 11 characters. */
  function Encode64(value: nat): (s: string)
    ensures |s| == 11
  {
    EncodeBits(value, 64)
  }

  /** decodeBase64To64: a decoded value has at most 64 bits, whatever the
      length of the string. */
  function Decode64(s: string): (r: Result<nat, DecodeError>)
    ensures r.Ok? ==> r.value < Pow2(64)
  {
    if DecodeBits(s, 64).Ok? then
      DecodeWidth(s, 64);
      Pow2Monotone(Min(64, 6 * |s|), 64);
      DecodeBits(s, 64)
    else
      DecodeBits(s, 64)
  }

  /** encodeRandomToBase64: the 23-bit random field as 4 characters. */
  function EncodeRandom(random: nat): (s: string)
    ensures |s| == 4
  {
    EncodeBits(random, RandomBits())
  }

  /** A 64-bit encoding has 11 symbols; the last carries 4 bits over 2 zero
      padding bits, so its index is a multiple of 4. */
  lemma Encode64Shape(value: nat)
    ensures |Encode64(value)| == 11
    ensures forall i :: 0 <= i < 11 ==> Alphabet.IsSymbol(Encode64(value)[i])
    ensures Alphabet.IndexOf(Encode64(value)[10]).Some?
    ensures Alphabet.IndexOf(Encode64(value)[10]).value % 4 == 0
  {
    EncodeCanonical(value, 64);
    assert PadBits(64) == 2;
    assert Pow2(2) == 4;
  }

  /** A 64-bit value comes back from its encoding. */
  lemma Decode64Encode64(value: nat)
    requires value < Pow2(64)
    ensures Decode64(Encode64(value)) == Ok(value)
  {
    DecodeEncode(value, 64);
  }

  /** The random field takes 4 symbols; the last carries 5 bits over one
      zero padding bit, so its index is even. */
  lemma EncodeRandomShape(random: nat)
    ensures |EncodeRandom(random)| == 4
    ensures forall i :: 0 <= i < 4 ==> Alphabet.IsSymbol(EncodeRandom(random)[i])
    ensures Alphabet.IndexOf(EncodeRandom(random)[3]).Some?
    ensures Alphabet.IndexOf(EncodeRandom(random)[3]).value % 2 == 0
  {
    EncodeCanonical(random, RandomBits());
    assert PadBits(RandomBits()) == 1;
    assert Pow2(1) == 2;
  }

  /** A 23-bit random field comes back from its encoding. */
  lemma DecodeEncodeRandom(random: nat)
    requires random < Pow2(RandomBits())
    ensures DecodeBits(EncodeRandom(random), RandomBits()) == Ok(random)
  {
    DecodeEncode(random, RandomBits());
  }

  // ---------------------------------------------------------------------
  // Generating and parsing identifiers

  /** getSecureRandom without the random source: the 32-bit value read from
      it, masked with MAX_RANDOM. */
  function SecureRandom(entropy: nat): (random: nat)
    ensures random == entropy % Pow2(RandomBits())
    ensures random < Pow2(RandomBits())
  {
    RandomMask(entropy);
    And(entropy, MaxRandom())
  }

  /** The fields `generate` packs for a clock reading, a random field and
      the hidden flag. They fit their widths when the random field does,
      and the timestamp `parse` reads from them is the clock reading
      modulo 2^42, in both modes. */
  function GeneratedFields(nowMs: nat, random: nat, hidden: bool): (f: Fields)
    ensures random < Pow2(RandomBits()) ==> InRange(f)
    ensures ParsedTimestamp(f) == nowMs % Pow2(TimestampBits())
  {
    var timestamp := And(nowMs, MaxTimestamp());
    TimestampMask(nowMs);
    if hidden then
      HideInvolution(timestamp, random);
      Fields(Hide(timestamp, random), 1, random)
    else
      Fields(timestamp, 0, random)
  }

  /** generate(hidden) with the clock reading and the random source as
      parameters. */
  function Generate(nowMs: nat, entropy: nat, hidden: bool): (id: string)
    ensures |id| == 11
  {
    EncodeBits(Pack(GeneratedFields(nowMs, SecureRandom(entropy), hidden)), IdBits())
  }

  /** What parse returns: the timestamp in milliseconds (the date rendering
      is not part of this model), the hidden flag and the encoded random
      field. */
  datatype ParsedId = ParsedId(timestamp: nat, hidden: bool, random: string)

  /** The timestamp parse reports for a set of fields: the field itself,
      or the field unhidden when the flag is set. */
  function ParsedTimestamp(f: Fields): (timestamp: nat)
    ensures f.timestamp < Pow2(TimestampBits()) ==> timestamp < Pow2(TimestampBits())
  {
    if f.flag == 1 then Hide(f.timestamp, f.random) else f.timestamp
  }

  /** parse(id): decode 66 bits, read the three fields, and undo the hiding
      when the flag is set. Any character outside the alphabet is an error;
      the length of `id` is not checked. */
  function Parse(id: string): (r: Result<ParsedId, DecodeError>)
    ensures r.Ok? ==> r.value.timestamp < Pow2(TimestampBits()) && |r.value.random| == 4
  {
    match DecodeBits(id, IdBits())
    case Err(e) => Err(e)
    case Ok(value) =>
      var f := Unpack(value);
      TimestampMask(ShiftRight(value, RandomBits() + FlagBits()));
      Ok(ParsedId(ParsedTimestamp(f), f.flag == 1, EncodeRandom(f.random)))
  }

  /** Generating from the timestamp parse reports, the random field and the
      flag gives back the fields. */
  lemma RegenerateFields(f: Fields)
    requires InRange(f)
    ensures GeneratedFields(ParsedTimestamp(f), f.random, f.flag == 1) == f
  {
    TimestampMaskId(ParsedTimestamp(f));
    if f.flag == 1 {
      HideInvolution(f.timestamp, f.random);
    }
  }

  /** Every identifier is 11 symbols of the alphabet, in the canonical form
      of a 66-bit encoding. */
  lemma GenerateCanonical(nowMs: nat, entropy: nat, hidden: bool)
    ensures Canonical(Generate(nowMs, entropy, hidden), IdBits())
    ensures forall i :: 0 <= i < 11 ==> Alphabet.IsSymbol(Generate(nowMs, entropy, hidden)[i])
  {
    EncodeCanonical(Pack(GeneratedFields(nowMs, SecureRandom(entropy), hidden)), IdBits());
  }

  /** A generated identifier decodes to the packed fields, and unpacking
      gives the fields back. */
  lemma DecodeGenerated(nowMs: nat, entropy: nat, hidden: bool)
    ensures DecodeBits(Generate(nowMs, entropy, hidden), IdBits()).Ok?
    ensures Unpack(DecodeBits(Generate(nowMs, entropy, hidden), IdBits()).value)
            == GeneratedFields(nowMs, SecureRandom(entropy), hidden)
  {
    var f := GeneratedFields(nowMs, SecureRandom(entropy), hidden);
    assert Generate(nowMs, entropy, hidden) == EncodeBits(Pack(f), IdBits());
    PackBound(f);
    DecodeEncode(Pack(f), IdBits());
    UnpackPack(f);
  }

  /** Parsing a generated identifier gives back the clock reading modulo
      2^42, the hidden flag, and the encoding of the random field. */
  lemma ParseGenerate(nowMs: nat, entropy: nat, hidden: bool)
    ensures Parse(Generate(nowMs, entropy, hidden))
            == Ok(ParsedId(nowMs % Pow2(TimestampBits()), hidden,
                           EncodeRandom(entropy % Pow2(RandomBits()))))
  {
    var f := GeneratedFields(nowMs, SecureRandom(entropy), hidden);
    var id := Generate(nowMs, entropy, hidden);
    DecodeGenerated(nowMs, entropy, hidden);
    assert Parse(id) == Ok(ParsedId(ParsedTimestamp(f), f.flag == 1, EncodeRandom(f.random)));
  }

  /** Every canonical identifier parses, and generating from what it parses
      to (the timestamp, the decoded random field and the flag) gives the
      same identifier back. */
  lemma GenerateParse(id: string)
    requires Canonical(id, IdBits())
    ensures Parse(id).Ok?
    ensures DecodeBits(Parse(id).value.random, RandomBits()).Ok?
    ensures Generate(Parse(id).value.timestamp,
                     DecodeBits(Parse(id).value.random, RandomBits()).value,
                     Parse(id).value.hidden) == id
  {
    DecodeCanonical(id, IdBits());
    var value := DecodeBits(id, IdBits()).value;
    var f := Unpack(value);
    assert InRange(f) && Pack(f) == value by {
      PackUnpack(value);
    }
    DecodeEncodeRandom(f.random);
    assert SecureRandom(f.random) == f.random by {
      ModBelow(f.random, Pow2(RandomBits()));
    }
    RegenerateFields(f);
  }

  /** Parsing fails exactly when some character is outside the alphabet. */
  lemma ParseFails(id: string)
    ensures Parse(id).Err? <==> exists i :: 0 <= i < |id| && !Alphabet.IsSymbol(id[i])
  {
  }

  /** With no length check, characters after the eleventh are read but
      ignored as long as they are in the alphabet. */
  lemma ParseIgnoresTrailing(id: string, extra: string)
    requires |id| >= 11
    requires forall i :: 0 <= i < |extra| ==> Alphabet.IsSymbol(extra[i])
    ensures Parse(id + extra) == Parse(id)
  {
    DecodeIgnoresTrailing(id, extra, IdBits());
  }

  /** A string that decodes to zero parses as timestamp 0, not hidden,
      with the random field zero. */
  lemma ParseZero(id: string)
    requires DecodeBits(id, IdBits()) == Ok(0)
    ensures Parse(id) == Ok(ParsedId(0, false, EncodeRandom(0)))
  {
    ShiftRightZero(RandomBits() + FlagBits());
    ShiftRightZero(RandomBits());
    AndZero(MaxTimestamp());
    AndZero(MaxRandom());
    AndZero(1);
  }

  /** With no length check, the empty string parses as the all-zero
      identifier. */
  lemma ParseEmpty()
    ensures Parse("") == Ok(ParsedId(0, false, EncodeRandom(0)))
  {
    ParseZero("");
  }
}
