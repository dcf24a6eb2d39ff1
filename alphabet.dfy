/** The URL-safe 64-symbol alphabet and its lookup table (BASE64_CHARS and
    BASE64_MAP in both implementations). */
module Alphabet {
  import opened Wrappers

  /** Position i of this string is the character for the 6-bit group value i:
      "ABC…XYZabc…xyz0123456789-_", written in pieces so that the verifier can
      look up every position. */
  const Chars: string :=
    "ABCDEFGHIJKLM" + "NOPQRSTUVWXYZ" + "abcdefghijklm" + "nopqrstuvwxyz" + "0123456789" + "-_"

  /** The character at position i of `Chars`, computed from the four ranges
      of the alphabet (see `SymbolIsCharsAt`). */
  function Symbol(i: nat): (c: char)
    requires i < 64
  {
    if i < 26 then (i + 'A' as int) as char
    else if i < 52 then (i - 26 + 'a' as int) as char
    else if i < 62 then (i - 52 + '0' as int) as char
    else if i == 62 then '-'
    else '_'
  }

  /** The lookup table: the position of `c` in the alphabet, or None when `c`
      is not one of the 64 symbols. */
  function IndexOf(c: char): (r: Option<nat>)
    ensures r.Some? ==> r.value < 64 && Symbol(r.value) == c
  {
    if 'A' <= c <= 'Z' then Some(c as int - 'A' as int)
    else if 'a' <= c <= 'z' then Some(c as int - 'a' as int + 26)
    else if '0' <= c <= '9' then Some(c as int - '0' as int + 52)
    else if c == '-' then Some(62)
    else if c == '_' then Some(63)
    else None
  }

  predicate IsSymbol(c: char) { IndexOf(c).Some? }

  /** Every position of the alphabet is found again by the lookup: the 64
      symbols are distinct, so the table is a bijection with 0..63. */
  lemma IndexOfSymbol(i: nat)
    requires i < 64
    ensures IndexOf(Symbol(i)) == Some(i)
  {
  }

  /** `Symbol` is the string `Chars` read position by position. */
  lemma SymbolIsCharsAt(i: nat)
    requires i < 64
    ensures |Chars| == 64 && Chars[i] == Symbol(i)
  {
    if i < 26 { UpperAt(i); } else if i < 52 { LowerAt(i); } else if i < 62 { DigitAt(i); }
  }

  lemma UpperAt(i: nat)
    requires i < 26
    ensures Chars[i] == (i + 'A' as int) as char
  {
  }

  lemma LowerAt(i: nat)
    requires 26 <= i < 52
    ensures Chars[i] == (i - 26 + 'a' as int) as char
  {
  }

  lemma DigitAt(i: nat)
    requires 52 <= i < 62
    ensures Chars[i] == (i - 52 + '0' as int) as char
  {
  }

  /** The lookup finds exactly the characters of `Chars`, at their positions. */
  lemma IndexOfFinds(c: char)
    ensures IndexOf(c).Some? <==> c in Chars
    ensures IndexOf(c).Some? ==> Chars[IndexOf(c).value] == c
  {
    if IndexOf(c).Some? {
      SymbolIsCharsAt(IndexOf(c).value);
    }
    if c in Chars {
      var i :| 0 <= i < |Chars| && Chars[i] == c;
      SymbolIsCharsAt(i);
      IndexOfSymbol(i);
    }
  }

  /** The table filled once at start-up: each of the 64 characters of `Chars`
      is mapped to its position. The result is the lookup `IndexOf`, on
      exactly the alphabet's characters. */
  method BuildTable() returns (table: map<char, nat>)
    ensures forall c :: c in table <==> IsSymbol(c)
    ensures forall c :: c in table ==> IndexOf(c) == Some(table[c])
  {
    table := map[];
    var i := 0;
    while i < 64
      invariant 0 <= i <= 64 == |Chars|
      invariant forall c :: c in table <==> c in Chars[..i]
      invariant forall c :: c in table ==> IndexOf(c) == Some(table[c])
    {
      SymbolIsCharsAt(i);
      IndexOfSymbol(i);
      assert Chars[..i + 1] == Chars[..i] + [Chars[i]];
      table := table[Chars[i] := i];
      i := i + 1;
    }
    assert Chars[..64] == Chars;
    forall c ensures c in table <==> IsSymbol(c) {
      IndexOfFinds(c);
    }
  }
}
