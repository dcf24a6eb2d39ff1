/** What the codec promises: exact round trips at a fixed width, the shape
    of an encoding, the padding of a final short group, and how decoding
    treats bad characters and strings of the wrong length. */
module CodecLaws {
  import opened Wrappers
  import opened Bits
  import Alphabet
  import opened Codec

  /** The character for a group is the group's bits, padded to six. */
  lemma GroupIndexValue(v: nat, r: nat)
    requires r > 0
    ensures GroupIndex(v, r)
         == ShiftLeft(ShiftRight(v, r - Min(6, r)) % Pow2(Min(6, r)), 6 - Min(6, r))
  {
    AndLowMask(ShiftRight(v, r - Min(6, r)), Min(6, r));
  }

  /** Encoding reads only the low `r` bits of the value: every group is
      masked, so `v` and `v mod 2^r` encode alike. */
  lemma {:induction false} EncodeDependsOnLowBits(v: nat, w: nat, r: nat)
    requires v % Pow2(r) == w % Pow2(r)
    ensures EncodeBits(v, r) == EncodeBits(w, r)
    decreases r
  {
    if r > 0 {
      var t := Min(6, r);
      ModSplit(v, r - t, t);
      ModSplit(w, r - t, t);
      GroupIndexValue(v, r);
      GroupIndexValue(w, r);
      EncodeDependsOnLowBits(v, w, r - t);
    }
  }

  /** Decoding the character of a padded group gives back the group: the
      right shift by the padding undoes the left shift. */
  lemma StepOnGroup(acc: nat, g: nat, t: nat, e: nat, r: nat)
    requires 0 < t <= 6 && t <= r <= e && (t < 6 ==> t == r) && g < Pow2(t)
    ensures Step(DecodeState(acc, e - r), ShiftLeft(g, 6 - t), e)
         == DecodeState(ShiftLeft(acc, t) + g, e - (r - t))
  {
    ShiftJoinSplit(g, 0, 6 - t);
    OrDisjoint(acc, g, t);
  }

  /** `acc` followed by the low `r` bits of `v`. */
  function Appended(acc: nat, v: nat, r: nat): nat
  {
    ShiftLeft(acc, r) + v % Pow2(r)
  }

  /** Shifting `acc` over t bits `g` and then over `r - t` more bits `rest`
      shifts it over `r` bits with `g` above `rest`. */
  lemma ValueJoin(acc: nat, g: nat, rest: nat, t: nat, r: nat)
    requires t <= r
    ensures ShiftLeft(ShiftLeft(acc, t) + g, r - t) + rest
         == ShiftLeft(acc, r) + (ShiftLeft(g, r - t) + rest)
  {
    ShiftLeftAdd(ShiftLeft(acc, t), g, r - t);
    ShiftLeftCompose(acc, t, r - t);
  }

  /** Appending a group's bits and then the bits below it appends the low
      bits of the value. */
  lemma AppendGroup(v: nat, r: nat, t: nat, acc: nat)
    requires 0 < t <= r
    ensures Appended(Appended(acc, ShiftRight(v, r - t), t), v, r - t) == Appended(acc, v, r)
  {
    ModSplit(v, r - t, t);
    ValueJoin(acc, ShiftRight(v, r - t) % Pow2(t), v % Pow2(r - t), t, r);
  }

  /** The first character of an encoding, decoded, appends the first group. */
  lemma DecodeFirstGroup(v: nat, r: nat, e: nat, acc: nat, t: nat)
    requires 0 < r <= e && t == Min(6, r)
    ensures DecodeFrom(EncodeBits(v, r), e, DecodeState(acc, e - r))
         == DecodeFrom(EncodeBits(v, r - t), e,
                       DecodeState(Appended(acc, ShiftRight(v, r - t), t), e - (r - t)))
  {
    var g := ShiftRight(v, r - t) % Pow2(t);
    var index := GroupIndex(v, r);
    Alphabet.IndexOfSymbol(index);
    EncodeBitsCons(v, r);
    DecodeCons(Alphabet.Symbol(index), EncodeBits(v, r - t), e, DecodeState(acc, e - r), index);
    assert Step(DecodeState(acc, e - r), index, e)
        == DecodeState(Appended(acc, ShiftRight(v, r - t), t), e - (r - t)) by {
      GroupIndexValue(v, r);
      StepOnGroup(acc, g, t, e, r);
    }
  }

  /** Decoding the encoding of the low `r` bits of `v`, starting from a value
      `acc` that already holds `e - r` bits, appends exactly those bits. */
  lemma {:induction false} DecodeEncodeFrom(v: nat, r: nat, e: nat, acc: nat)
    requires r <= e
    ensures DecodeFrom(EncodeBits(v, r), e, DecodeState(acc, e - r))
         == Ok(DecodeState(Appended(acc, v, r), e))
    decreases r
  {
    if r == 0 {
      assert Appended(acc, v, r) == acc;
    } else {
      var t := Min(6, r);
      DecodeFirstGroup(v, r, e, acc, t);
      DecodeEncodeFrom(v, r - t, e, Appended(acc, ShiftRight(v, r - t), t));
      AppendGroup(v, r, t, acc);
    }
  }

  /** Round trip: every value below 2^n is decoded from its own encoding. */
  lemma DecodeEncode(v: nat, n: nat)
    requires v < Pow2(n)
    ensures DecodeBits(EncodeBits(v, n), n) == Ok(v)
  {
    DecodeEncodeFrom(v, n, n, 0);
    DivModUnique(v, Pow2(n), 0, v);
    ShiftLeftZero(n);
  }

  // ---------------------------------------------------------------------
  // Width of a decoded value

  /** One character adds min(6, remaining) bits and keeps the value within
      the bits counted so far. */
  lemma StepWidth(st: DecodeState, symbol: nat, e: nat)
    requires st.totalBits <= e && symbol < 64 && st.value < Pow2(st.totalBits)
    ensures Step(st, symbol, e).value < Pow2(Step(st, symbol, e).totalBits)
  {
    var charBits := Min(6, e - st.totalBits);
    var charValue := if charBits < 6 then ShiftRight(symbol, 6 - charBits) else symbol;
    CharValueBelow(symbol, charBits);
    assert Step(st, symbol, e).value == ShiftLeft(st.value, charBits) + charValue by {
      OrDisjoint(st.value, charValue, charBits);
    }
    ShiftLeftBelow(st.value, st.totalBits, charValue, charBits);
  }

  /** The bits a character contributes fit in their count. */
  lemma CharValueBelow(symbol: nat, charBits: nat)
    requires symbol < 64 && charBits <= 6
    ensures (if charBits < 6 then ShiftRight(symbol, 6 - charBits) else symbol) < Pow2(charBits)
  {
    assert Pow2(6) == 64;
    if charBits < 6 {
      ShiftRightBound(symbol, 6, 6 - charBits);
    }
  }

  lemma {:induction false} DecodeFromWidth(s: string, e: nat, st: DecodeState)
    requires st.totalBits <= e && st.value < Pow2(st.totalBits)
    requires DecodeFrom(s, e, st).Ok?
    ensures DecodeFrom(s, e, st).value.totalBits == Min(e, st.totalBits + 6 * |s|)
    ensures DecodeFrom(s, e, st).value.value < Pow2(DecodeFrom(s, e, st).value.totalBits)
    decreases |s|
  {
    if s != [] {
      var symbol := Alphabet.IndexOf(s[0]).value;
      StepWidth(st, symbol, e);
      DecodeFromWidth(s[1..], e, Step(st, symbol, e));
    }
  }

  /** Decoding has no length check: a string of k characters yields a value
      of at most min(n, 6k) bits, so a short string decodes to a small value
      instead of failing. */
  lemma DecodeWidth(s: string, n: nat)
    requires DecodeBits(s, n).Ok?
    ensures DecodeBits(s, n).value < Pow2(Min(n, 6 * |s|))
  {
    DecodeFromWidth(s, n, DecodeState(0, 0));
  }

  // ---------------------------------------------------------------------
  // Characters past the expected width

  /** Decoding `s + t` is decoding `s` and then going on with `t`. */
  lemma {:induction false} DecodeFromAppend(s: string, t: string, e: nat, st: DecodeState)
    requires st.totalBits <= e
    ensures DecodeFrom(s + t, e, st)
         == match DecodeFrom(s, e, st)
            case Ok(mid) => DecodeFrom(t, e, mid)
            case Err(err) => Err(err)
    decreases |s|
  {
    if s == [] {
      assert s + t == t;
    } else {
      assert (s + t)[0] == s[0] && (s + t)[1..] == s[1..] + t;
      match Alphabet.IndexOf(s[0])
      case None =>
      case Some(symbol) => DecodeFromAppend(s[1..], t, e, Step(st, symbol, e));
    }
  }

  /** Once all expected bits are in, further symbols change nothing. */
  lemma {:induction false} DecodeFromFull(t: string, e: nat, value: nat)
    requires forall i :: 0 <= i < |t| ==> Alphabet.IsSymbol(t[i])
    ensures DecodeFrom(t, e, DecodeState(value, e)) == Ok(DecodeState(value, e))
    decreases |t|
  {
    if t != [] {
      var symbol := Alphabet.IndexOf(t[0]).value;
      assert Pow2(6) == 64;
      ShiftRightBound(symbol, 6, 6);
      OrZero(value);
      assert Step(DecodeState(value, e), symbol, e) == DecodeState(value, e);
      DecodeFromFull(t[1..], e, value);
    }
  }

  /** Characters after the first ceil(n/6) are checked against the alphabet
      and otherwise ignored. */
  lemma DecodeIgnoresTrailing(s: string, t: string, n: nat)
    requires |s| >= CharCount(n)
    requires forall i :: 0 <= i < |t| ==> Alphabet.IsSymbol(t[i])
    ensures DecodeBits(s + t, n) == DecodeBits(s, n)
  {
    var init := DecodeState(0, 0);
    DecodeFromAppend(s, t, n, init);
    if DecodeFrom(s, n, init).Ok? {
      DecodeFromWidth(s, n, init);
      DecodeFromFull(t, n, DecodeFrom(s, n, init).value.value);
    }
  }

  // ---------------------------------------------------------------------
  // Padding of the final group and canonical strings

  /** Zero bits at the low end of the last character: 6 - n mod 6 when the
      width is not a multiple of six. */
  function PadBits(n: nat): (pad: nat)
    ensures pad < 6 && (n + pad) % 6 == 0
  {
    if n % 6 == 0 then 0 else 6 - n % 6
  }

  /** The last character of `s`, if any, is a symbol with its padding bits
      for width `n` clear. */
  predicate LastPadded(s: string, n: nat)
  {
    s != [] ==> Alphabet.IndexOf(s[|s| - 1]).Some?
                && Alphabet.IndexOf(s[|s| - 1]).value % Pow2(PadBits(n)) == 0
  }

  /** The strings an encoding at width `n` can produce: ceil(n/6) symbols, the
      last of which has its padding bits clear. */
  predicate Canonical(s: string, n: nat)
  {
    && |s| == CharCount(n)
    && (forall i :: 0 <= i < |s| ==> Alphabet.IsSymbol(s[i]))
    && LastPadded(s, n)
  }

  /** A width of at most six bits takes one character. */
  lemma SmallWidth(n: nat)
    requires 0 < n <= 6
    ensures CharCount(n) == 1 && PadBits(n) == 6 - n
  {
    DivModUnique(n + 5, 6, 1, n - 1);
    if n < 6 {
      DivModUnique(n, 6, 0, n);
    }
  }

  /** Six more bits take one more character and the same padding. */
  lemma WidthStep(n: nat)
    requires n > 6
    ensures CharCount(n) == CharCount(n - 6) + 1 && PadBits(n) == PadBits(n - 6)
  {
    DivModUnique(n + 5, 6, (n - 1) / 6 + 1, (n - 1) % 6);
    DivModUnique(n, 6, (n - 6) / 6 + 1, (n - 6) % 6);
  }

  /** The final character of an encoding carries the last group shifted left
      by the padding, so its index is a multiple of 2^PadBits(n). */
  lemma {:induction false} EncodeLastPadded(v: nat, n: nat)
    ensures LastPadded(EncodeBits(v, n), n)
    decreases n
  {
    if 0 < n <= 6 {
      ShortLastPadded(v, n);
    } else if n > 6 {
      EncodeLastPadded(v, n - 6);
      LastPaddedStep(v, n);
    }
  }

  lemma ShortLastPadded(v: nat, n: nat)
    requires 0 < n <= 6
    ensures LastPadded(EncodeBits(v, n), n)
  {
    EncodeBitsFirst("", v, n, n);
    var index := GroupIndex(v, n);
    SmallWidth(n);
    assert EncodeBits(v, n)[0] == Alphabet.Symbol(index);
    Alphabet.IndexOfSymbol(index);
    var q := ShiftRight(v, 0) % Pow2(n);
    assert index == ShiftLeft(q, 6 - n) by { GroupIndexValue(v, n); }
    ShiftJoinSplit(q, 0, 6 - n);
    assert Alphabet.IndexOf(EncodeBits(v, n)[CharCount(n) - 1]) == Some(index);
  }

  lemma LastPaddedStep(v: nat, n: nat)
    requires n > 6 && LastPadded(EncodeBits(v, n - 6), n - 6)
    ensures LastPadded(EncodeBits(v, n), n)
  {
    EncodeBitsFirst("", v, n, n);
    WidthStep(n);
    assert EncodeBits(v, n)[CharCount(n) - 1] == EncodeBits(v, n - 6)[CharCount(n - 6) - 1];
    assert Pow2(PadBits(n)) == Pow2(PadBits(n - 6));
  }

  /** Every encoding is canonical. */
  lemma EncodeCanonical(v: nat, n: nat)
    ensures Canonical(EncodeBits(v, n), n)
  {
    EncodeBitsSymbols(v, n);
    EncodeLastPadded(v, n);
  }

  /** The first character of a canonical string is a group of min(6, r) bits
      shifted left by the padding. */
  lemma CanonicalFirst(s: string, r: nat) returns (g: nat)
    requires r > 0 && Canonical(s, r)
    ensures g < Pow2(Min(6, r))
    ensures Alphabet.IndexOf(s[0]) == Some(ShiftLeft(g, 6 - Min(6, r)))
  {
    var t := Min(6, r);
    assert Alphabet.IsSymbol(s[0]);
    var index := Alphabet.IndexOf(s[0]).value;
    if t < 6 {
      SmallWidth(r);
      assert s[|s| - 1] == s[0];
      g := PaddedGroup(index, 6 - t);
    } else {
      g := index;
      assert Pow2(0) == 1 && Pow2(6) == 64;
    }
  }

  /** A symbol index with its `pad` low bits clear is a group of 6 - pad bits
      shifted left by `pad`. */
  lemma PaddedGroup(index: nat, pad: nat) returns (g: nat)
    requires index < 64 && pad <= 6 && index % Pow2(pad) == 0
    ensures g < Pow2(6 - pad) && index == ShiftLeft(g, pad)
  {
    var p := Pow2(pad);
    g := ShiftRight(index, pad);
    assert g == index / p by { ShiftRightIsDiv(index, pad); }
    assert ShiftLeft(g, pad) == g * p by { ShiftLeftIsMul(g, pad); }
    DivMod(index, p);
    assert g < Pow2(6 - pad) by {
      assert Pow2(6) == 64;
      ShiftRightBound(index, 6, pad);
    }
  }

  /** After its first character, a canonical string is canonical at the
      width that is left. */
  lemma CanonicalRest(s: string, r: nat)
    requires r > 0 && Canonical(s, r)
    ensures Canonical(s[1..], r - Min(6, r))
  {
    if r <= 6 {
      SmallWidth(r);
      assert s[1..] == [];
    } else {
      WidthStep(r);
      var rest := s[1..];
      assert forall i :: 0 <= i < |rest| ==> rest[i] == s[i + 1];
      assert rest != [] ==> rest[|rest| - 1] == s[|s| - 1];
    }
  }

  /** Writing a group in front of the low `r - t` bits encodes as that group's
      character followed by the encoding of those bits. */
  lemma EncodeJoin(g: nat, rest: nat, r: nat)
    requires r > 0 && g < Pow2(Min(6, r)) && rest < Pow2(r - Min(6, r))
    ensures ShiftLeft(g, r - Min(6, r)) + rest < Pow2(r)
    ensures ShiftLeft(g, 6 - Min(6, r)) < 64
    ensures EncodeBits(ShiftLeft(g, r - Min(6, r)) + rest, r)
         == [Alphabet.Symbol(ShiftLeft(g, 6 - Min(6, r)))] + EncodeBits(rest, r - Min(6, r))
  {
    var t := Min(6, r);
    PaddedBelow64(g, t);
    ShiftLeftBelow(g, t, rest, r - t);
    JoinEncodes(g, rest, r);
  }

  lemma JoinEncodes(g: nat, rest: nat, r: nat)
    requires r > 0 && g < Pow2(Min(6, r)) && rest < Pow2(r - Min(6, r))
    requires ShiftLeft(g, 6 - Min(6, r)) < 64
    ensures EncodeBits(ShiftLeft(g, r - Min(6, r)) + rest, r)
         == [Alphabet.Symbol(ShiftLeft(g, 6 - Min(6, r)))] + EncodeBits(rest, r - Min(6, r))
  {
    var w := ShiftLeft(g, r - Min(6, r)) + rest;
    JoinGroupIndex(g, rest, r);
    JoinLowBits(g, rest, r);
    EncodeBitsCons(w, r);
  }

  /** The first group of `g` written above `rest` is `g`. */
  lemma JoinGroupIndex(g: nat, rest: nat, r: nat)
    requires r > 0 && g < Pow2(Min(6, r)) && rest < Pow2(r - Min(6, r))
    ensures GroupIndex(ShiftLeft(g, r - Min(6, r)) + rest, r) == ShiftLeft(g, 6 - Min(6, r))
  {
    ShiftJoinSplit(g, rest, r - Min(6, r));
    GroupIndexValue(ShiftLeft(g, r - Min(6, r)) + rest, r);
    ModBelow(g, Pow2(Min(6, r)));
  }

  /** The groups after the first of `g` written above `rest` are those of `rest`. */
  lemma JoinLowBits(g: nat, rest: nat, r: nat)
    requires r > 0 && rest < Pow2(r - Min(6, r))
    ensures EncodeBits(ShiftLeft(g, r - Min(6, r)) + rest, r - Min(6, r))
         == EncodeBits(rest, r - Min(6, r))
  {
    ShiftJoinSplit(g, rest, r - Min(6, r));
    ModBelow(rest, Pow2(r - Min(6, r)));
    EncodeDependsOnLowBits(ShiftLeft(g, r - Min(6, r)) + rest, rest, r - Min(6, r));
  }

  /** The value a string of symbols stands for at width `r`, read group by
      group from the most significant end: each character gives min(6, r)
      bits, taken from the high end of its six. A reference reading of
      decoding that places each group at its position instead of folding. */
  function GroupsValue(s: string, r: nat): nat
    decreases r
  {
    if s == [] || r == 0 then 0
    else
      var t := Min(6, r);
      var index := match Alphabet.IndexOf(s[0]) case Some(i) => i case None => 0;
      var g := if t < 6 then ShiftRight(index, 6 - t) else index;
      ShiftLeft(g, r - t) + GroupsValue(s[1..], r - t)
  }

  /** A first character that holds the group `g` contributes `g` at the top. */
  lemma GroupsValueFirst(s: string, r: nat, g: nat)
    requires r > 0 && s != [] && Alphabet.IndexOf(s[0]) == Some(ShiftLeft(g, 6 - Min(6, r)))
    ensures GroupsValue(s, r) == ShiftLeft(g, r - Min(6, r)) + GroupsValue(s[1..], r - Min(6, r))
  {
    ShiftJoinSplit(g, 0, 6 - Min(6, r));
  }

  /** A canonical string is the encoding of the value its groups stand for. */
  lemma {:induction false} EncodeGroupsValue(s: string, r: nat)
    requires Canonical(s, r)
    ensures GroupsValue(s, r) < Pow2(r)
    ensures EncodeBits(GroupsValue(s, r), r) == s
    decreases r
  {
    if r == 0 {
      assert s == [];
    } else {
      var t := Min(6, r);
      var g := CanonicalFirst(s, r);
      var rest := GroupsValue(s[1..], r - t);
      assert rest < Pow2(r - t) && EncodeBits(rest, r - t) == s[1..] by {
        CanonicalRest(s, r);
        EncodeGroupsValue(s[1..], r - t);
      }
      GroupsValueFirst(s, r, g);
      EncodeJoin(g, rest, r);
      assert s == [s[0]] + s[1..];
    }
  }

  /** The other direction of the round trip: a canonical string decodes to a
      value below 2^n that encodes back to the same string. With DecodeEncode
      and EncodeCanonical this makes the codec a bijection between values
      below 2^n and canonical strings of width n. */
  lemma DecodeCanonical(s: string, n: nat)
    requires Canonical(s, n)
    ensures DecodeBits(s, n).Ok?
    ensures DecodeBits(s, n).value < Pow2(n)
    ensures EncodeBits(DecodeBits(s, n).value, n) == s
  {
    EncodeGroupsValue(s, n);
    DecodeEncode(GroupsValue(s, n), n);
  }
}
