/** The bit-group codec: an unsigned integer of a given bit width written as
    characters of the 64-symbol alphabet, six bits per character, most
    significant group first; a final group narrower than six bits is
    zero-padded at its low end (encodeBitsToBase64 / decodeBase64ToBits). */
module Codec {
  import opened Wrappers
  import opened Bits
  import Alphabet

  /** The one failure of decoding: a character outside the alphabet. */
  datatype DecodeError = InvalidCharacter

  /** Number of characters for a bit width: ceil(bitCount / 6). */
  function CharCount(bitCount: nat): nat { (bitCount + 5) / 6 }

  // ---------------------------------------------------------------------
  // Encoding

  /** A group value below 2^take, moved to the high end of a six-bit slot. */
  lemma PaddedBelow64(group: nat, take: nat)
    requires take <= 6 && group < Pow2(take)
    ensures ShiftLeft(group, 6 - take) < 64
  {
    ShiftLeftBelow(group, take, 0, 6 - take);
    assert Pow2(6) == 64;
  }

  /** Alphabet index of the next character when `remaining` bits are still to
      be written: the next min(6, remaining) bits, padded on the right to six. */
  function GroupIndex(value: nat, remaining: nat): (index: nat)
    requires remaining > 0
    ensures index < 64
  {
    var take := Min(6, remaining);
    var group := And(ShiftRight(value, remaining - take), Pow2(take) - 1);
    AndLowMask(ShiftRight(value, remaining - take), take);
    PaddedBelow64(group, take);
    assert Pow2(0) == 1;
    if take < 6 then ShiftLeft(group, 6 - take) else group
  }

  /** The characters for the low `remaining` bits of `value`. */
  function EncodeBits(value: nat, remaining: nat): (s: string)
    ensures |s| == CharCount(remaining)
    decreases remaining
  {
    if remaining == 0 then ""
    else
      var index := GroupIndex(value, remaining);
      [Alphabet.Symbol(index)] + EncodeBits(value, remaining - Min(6, remaining))
  }

  /** encodeBitsToBase64: the loop that appends one character per group. */
  method EncodeBitsToBase64(value: nat, bitCount: nat) returns (s: string)
    ensures s == EncodeBits(value, bitCount)
    ensures |s| == CharCount(bitCount)
    ensures forall i :: 0 <= i < |s| ==> Alphabet.IsSymbol(s[i])
  {
    var chars: seq<char> := [];
    var remainingBits: nat := bitCount;
    while remainingBits > 0
      invariant remainingBits <= bitCount
      invariant chars + EncodeBits(value, remainingBits) == EncodeBits(value, bitCount)
    {
      var bitsToTake := Min(6, remainingBits);
      var shift := remainingBits - bitsToTake;
      var shiftedValue := ShiftRight(value, shift);
      var mask := Pow2(bitsToTake) - 1;
      var index := And(shiftedValue, mask);
      if bitsToTake < 6 {
        index := ShiftLeft(index, 6 - bitsToTake);
      }
      assert index == GroupIndex(value, remainingBits);
      EncodeBitsFirst(chars, value, remainingBits, bitCount);
      chars := chars + [Alphabet.Symbol(index)];
      remainingBits := remainingBits - bitsToTake;
    }
    s := chars;
    EncodeBitsSymbols(value, bitCount);
  }

  /** Every character of an encoding is one of the 64 symbols. */
  lemma {:induction false} EncodeBitsSymbols(value: nat, remaining: nat)
    ensures forall i :: 0 <= i < |EncodeBits(value, remaining)|
                        ==> Alphabet.IsSymbol(EncodeBits(value, remaining)[i])
    decreases remaining
  {
    if remaining > 0 {
      var rest := remaining - Min(6, remaining);
      EncodeBitsCons(value, remaining);
      EncodeBitsSymbols(value, rest);
      Alphabet.IndexOfSymbol(GroupIndex(value, remaining));
    }
  }

  /** A non-empty encoding is the character of the first group followed by
      the encoding of the bits below it. */
  lemma EncodeBitsCons(value: nat, remaining: nat)
    requires remaining > 0
    ensures EncodeBits(value, remaining)
         == [Alphabet.Symbol(GroupIndex(value, remaining))]
            + EncodeBits(value, remaining - Min(6, remaining))
  {
  }

  /** Appending the character of the first group still to be written keeps
      `chars` a prefix of the whole encoding. */
  lemma EncodeBitsFirst(chars: string, value: nat, remaining: nat, bitCount: nat)
    requires remaining > 0
    requires chars + EncodeBits(value, remaining) == EncodeBits(value, bitCount)
    ensures (chars + [Alphabet.Symbol(GroupIndex(value, remaining))])
            + EncodeBits(value, remaining - Min(6, remaining))
         == EncodeBits(value, bitCount)
  {
    var c := [Alphabet.Symbol(GroupIndex(value, remaining))];
    var rest := EncodeBits(value, remaining - Min(6, remaining));
    assert EncodeBits(value, remaining) == c + rest;
    assert (chars + c) + rest == chars + (c + rest);
  }

  // ---------------------------------------------------------------------
  // Decoding

  /** The decoder's running state: the value so far and the bits it holds. */
  datatype DecodeState = DecodeState(value: nat, totalBits: nat)

  /** One character's contribution: of the symbol's six bits, keep the
      min(6, expected - totalBits) highest; characters past the expected
      width keep none and leave the value as it is. */
  function Step(st: DecodeState, symbol: nat, expected: nat): (next: DecodeState)
    requires st.totalBits <= expected
    ensures next.totalBits == Min(expected, st.totalBits + 6)
  {
    var charBits := Min(6, expected - st.totalBits);
    var charValue := if charBits < 6 then ShiftRight(symbol, 6 - charBits) else symbol;
    DecodeState(Or(ShiftLeft(st.value, charBits), charValue), st.totalBits + charBits)
  }

  /** Decoding the characters of `s` from the state `st` on. */
  function DecodeFrom(s: string, expected: nat, st: DecodeState): (r: Result<DecodeState, DecodeError>)
    requires st.totalBits <= expected
    ensures r.Ok? ==> st.totalBits <= r.value.totalBits <= expected
    decreases |s|
  {
    if s == [] then Ok(st)
    else match Alphabet.IndexOf(s[0])
      case None => Err(InvalidCharacter)
      case Some(symbol) => DecodeFrom(s[1..], expected, Step(st, symbol, expected))
  }

  /** Decoding fails exactly when some character is outside the alphabet,
      whatever the width and the state it starts from. */
  lemma {:induction false} DecodeFromFails(s: string, e: nat, st: DecodeState)
    requires st.totalBits <= e
    ensures DecodeFrom(s, e, st).Err?
        <==> exists i :: 0 <= i < |s| && !Alphabet.IsSymbol(s[i])
    decreases |s|
  {
    if s != [] {
      match Alphabet.IndexOf(s[0])
      case None =>
      case Some(symbol) =>
        DecodeFromFails(s[1..], e, Step(st, symbol, e));
        if exists i :: 0 <= i < |s| && !Alphabet.IsSymbol(s[i]) {
          var i :| 0 <= i < |s| && !Alphabet.IsSymbol(s[i]);
          assert s[1..][i - 1] == s[i];
        }
    }
  }

  /** The value `s` decodes to at the given width. There is no check on the
      length of `s`: decoding fails exactly when some character is outside
      the alphabet, and there is no other error. */
  function DecodeBits(s: string, expected: nat): (r: Result<nat, DecodeError>)
    ensures r.Err? <==> exists i :: 0 <= i < |s| && !Alphabet.IsSymbol(s[i])
  {
    DecodeFromFails(s, expected, DecodeState(0, 0));
    match DecodeFrom(s, expected, DecodeState(0, 0))
    case Ok(st) => Ok(st.value)
    case Err(e) => Err(e)
  }

  /** decodeBase64ToBits: the loop that folds each character into the value,
      throwing on the first character outside the alphabet. */
  method DecodeBase64ToBits(s: string, expectedBitCount: nat) returns (r: Result<nat, DecodeError>)
    ensures r == DecodeBits(s, expectedBitCount)
  {
    var value: nat, totalBits: nat := 0, 0;
    var i := 0;
    while i < |s|
      invariant i <= |s| && totalBits <= expectedBitCount
      invariant DecodeFrom(s[i..], expectedBitCount, DecodeState(value, totalBits))
             == DecodeFrom(s, expectedBitCount, DecodeState(0, 0))
    {
      ghost var st := DecodeState(value, totalBits);
      DecodeFromFirst(s[i..], expectedBitCount, st);
      assert s[i..][1..] == s[i + 1..];
      var symbol := Alphabet.IndexOf(s[i]);
      if symbol.None? {
        return Err(InvalidCharacter);
      }
      var charBits := Min(6, expectedBitCount - totalBits);
      var charValue := symbol.value;
      if charBits < 6 {
        charValue := ShiftRight(charValue, 6 - charBits);
      }
      value := Or(ShiftLeft(value, charBits), charValue);
      totalBits := totalBits + charBits;
      assert DecodeState(value, totalBits) == Step(st, symbol.value, expectedBitCount);
      i := i + 1;
    }
    return Ok(value);
  }

  /** Decoding a symbol followed by `rest` is one step and then `rest`. */
  lemma DecodeCons(c: char, rest: string, e: nat, st: DecodeState, i: nat)
    requires Alphabet.IndexOf(c) == Some(i) && st.totalBits <= e
    ensures DecodeFrom([c] + rest, e, st) == DecodeFrom(rest, e, Step(st, i, e))
  {
    assert ([c] + rest)[1..] == rest;
  }

  /** Decoding a non-empty string looks at its first character first. */
  lemma DecodeFromFirst(s: string, expected: nat, st: DecodeState)
    requires s != [] && st.totalBits <= expected
    ensures DecodeFrom(s, expected, st)
         == match Alphabet.IndexOf(s[0])
            case None => Err(InvalidCharacter)
            case Some(symbol) => DecodeFrom(s[1..], expected, Step(st, symbol, expected))
  {
  }
}
