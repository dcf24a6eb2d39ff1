/** The bit operations of the PHP implementation on decimal strings
    (bigIntAnd, bigIntOr, bigIntXor, decimalToBinary, binaryToDecimal): each
    operand is written in binary by repeated halving, the two binary strings
    are padded to one length and combined character by character, and the
    result is read back as a decimal. Their contracts tie them to the
    operations on numbers in `Bits`. */
module DecimalBits {
  import opened Bits
  import opened DecimalString

  /** A string of '0' and '1' characters. */
  predicate IsBinary(s: string) { forall i :: 0 <= i < |s| ==> s[i] == '0' || s[i] == '1' }

  /** What binaryToDecimal counts a character as: 1 for '1', 0 otherwise. */
  function Bit(c: char): (b: nat)
    ensures b < 2
  {
    if c == '1' then 1 else 0
  }

  /** The number a binary string denotes, most significant bit first. */
  function BinValue(s: string): nat
  {
    if s == [] then 0 else 2 * BinValue(s[..|s| - 1]) + Bit(s[|s| - 1])
  }

  /** The bit of weight 2^t, 0 beyond the string's length. */
  function BitAt(s: string, t: nat): (b: nat)
    ensures b < 2
  {
    if t < |s| then Bit(s[|s| - 1 - t]) else 0
  }

  // ---------------------------------------------------------------------
  // What a binary string denotes

  lemma {:induction false} BinSnoc(s: string, c: char)
    ensures BinValue(s + [c]) == 2 * BinValue(s) + Bit(c)
  {
    assert (s + [c])[..|s|] == s;
  }

  lemma BinShift(a: int, p: int, b: int, d: int)
    ensures 2 * (a * p + b) + d == a * (p + p) + (2 * b + d)
  {
  }

  /** Two binary strings side by side: the left one shifted by the length of
      the right one. */
  lemma {:induction false} BinConcat(x: string, y: string)
    ensures BinValue(x + y) == BinValue(x) * Pow2(|y|) + BinValue(y)
    decreases |y|
  {
    if y == [] {
      assert x + y == x;
    } else {
      var y0, c := y[..|y| - 1], y[|y| - 1];
      assert y == y0 + [c];
      assert x + y == (x + y0) + [c];
      BinConcat(x, y0);
      BinSnoc(x + y0, c);
      BinSnoc(y0, c);
      BinShift(BinValue(x), Pow2(|y0|), BinValue(y0), Bit(c));
    }
  }

  /** A bit in front of a string counts at the weight of the string's length. */
  lemma {:induction false} BinCons(c: char, s: string)
    ensures BinValue([c] + s) == Bit(c) * Pow2(|s|) + BinValue(s)
  {
    BinSnoc([], c);
    assert [] + [c] == [c];
    BinConcat([c], s);
  }

  /** A string of k bits denotes less than 2^k. */
  lemma {:induction false} BinBelow(s: string)
    ensures BinValue(s) < Pow2(|s|)
    decreases |s|
  {
    if s != [] {
      BinBelow(s[..|s| - 1]);
    }
  }

  /** Leading zeros do not change a binary value. */
  lemma {:induction false} BinZeros(k: nat, s: string)
    ensures BinValue(Zeros(k) + s) == BinValue(s)
  {
    BinConcat(Zeros(k), s);
    BinZerosValue(k);
  }

  lemma {:induction false} BinZerosValue(k: nat)
    ensures BinValue(Zeros(k)) == 0
  {
    if k > 0 {
      assert Zeros(k) == ['0'] + Zeros(k - 1);
      BinCons('0', Zeros(k - 1));
      BinZerosValue(k - 1);
    }
  }

  /** The arithmetic of one step of BinModStep. */
  lemma BinModDigit(v0: nat, d: nat, bit: nat, p: nat)
    requires d < 2 && p >= 1
    requires v0 % (p + p) == bit * p + v0 % p
    ensures (2 * v0 + d) % (4 * p) == bit * (p + p) + (2 * v0 + d) % (p + p)
  {
    BinModTwo(v0, d, p + p);
    BinModTwo(v0, d, p);
    assert 2 * (p + p) == 4 * p;
  }

  /** A doubled value plus a bit, modulo a doubled modulus. */
  lemma BinModTwo(v: nat, d: nat, p: nat)
    requires d < 2 && p >= 1
    ensures (2 * v + d) % (2 * p) == 2 * (v % p) + d
  {
    var q, r := v / p, v % p;
    assert 2 * v + d == q * (2 * p) + (2 * r + d);
    DivModUnique(2 * v + d, 2 * p, q, 2 * r + d);
  }

  /** One more bit of the modulus adds the bit of weight 2^t. */
  lemma {:induction false} BinModStep(s: string, t: nat)
    ensures BinValue(s) % Pow2(t + 1) == BitAt(s, t) * Pow2(t) + BinValue(s) % Pow2(t)
    decreases |s|
  {
    if s == [] {
      assert BinValue(s) == 0 && BitAt(s, t) == 0;
      var P, Q := Pow2(t + 1), Pow2(t);
      assert 0 % P == 0 && 0 % Q == 0;
    } else if t == 0 {
      var v, v0, d := BinValue(s), BinValue(s[..|s| - 1]), Bit(s[|s| - 1]);
      assert Pow2(1) == 2 && Pow2(0) == 1 && BitAt(s, 0) == d;
      DivModUnique(v, 2, v0, d);
      DivModUnique(v, 1, v, 0);
    } else {
      var s0, d := s[..|s| - 1], Bit(s[|s| - 1]);
      var p := Pow2(t - 1);
      assert BinValue(s) == 2 * BinValue(s0) + d;
      assert Pow2(t) == p + p && Pow2(t + 1) == 4 * p;
      BinModStep(s0, t - 1);
      assert BitAt(s, t) == BitAt(s0, t - 1);
      BinModDigit(BinValue(s0), d, BitAt(s, t), p);
    }
  }

  // ---------------------------------------------------------------------
  // decimalToBinary

  /** A canonical decimal below 2 is "0" or "1". */
  lemma {:induction false} SmallCanonical(s: string)
    requires Canonical(s) && Value(s) < 2
    ensures s == "0" || s == "1"
    ensures Bit(s[0]) == Value(s)
  {
    ToDecimalValue(s);
    assert DigitChar(0) == '0' && DigitChar(1) == '1';
  }

  /** The arithmetic of one halving in decimalToBinary. */
  lemma HalveStep(low: int, p: int, v: int, half: int, bit: int, total: int)
    requires low + p * v == total && v == 2 * half + bit
    ensures (bit * p + low) + (p + p) * half == total
  {
  }

  /** decimalToBinary: "0" for "0"; otherwise the remainders of repeated
      halving, each written in front of the bits found so far. */
  method DecimalToBinary(decimal: string) returns (binary: string)
    requires IsDigits(decimal)
    ensures IsBinary(binary) && BinValue(binary) == Value(decimal)
  {
    SmallValues();
    if decimal == "0" {
      BinSnoc("", '0');
      assert "" + ['0'] == "0";
      return "0";
    }
    binary := "";
    var d := decimal;
    while Compare(d, "0") > 0
      invariant IsDigits(d) && IsBinary(binary)
      invariant BinValue(binary) + Pow2(|binary|) * Value(d) == Value(decimal)
      decreases Value(d)
    {
      var remainder := Modulo(d, "2");
      var half := Divide(d, "2");
      ghost var previous := binary;
      binary := remainder.value + binary;
      PrependBit(previous, remainder.value, binary, Value(d), Value(half.value), Value(decimal));
      d := half.value;
    }
  }

  /** One halving of decimalToBinary: the remainder written in front of the
      bits keeps what the bits and the halved decimal denote together. */
  lemma {:induction false} PrependBit(binary: string, remainder: string, next: string,
                                      v: nat, half: nat, total: nat)
    requires IsBinary(binary) && Canonical(remainder)
    requires Value(remainder) == v % 2 && half == v / 2
    requires BinValue(binary) + Pow2(|binary|) * v == total
    requires next == remainder + binary
    ensures IsBinary(next) && BinValue(next) + Pow2(|next|) * half == total
    ensures v > 0 ==> half < v
  {
    SmallCanonical(remainder);
    DivMod(v, 2);
    BinCons(remainder[0], binary);
    assert remainder == [remainder[0]];
    assert Pow2(|next|) == Pow2(|binary|) + Pow2(|binary|);
    HalveStep(BinValue(binary), Pow2(|binary|), v, half, Value(remainder), total);
  }

  // ---------------------------------------------------------------------
  // binaryToDecimal

  /** One bit of binaryToDecimal: the power of two added when the bit is set. */
  lemma {:induction false} BinaryStep(binary: string, t: nat, decimal: nat, power: nat, next: nat)
    requires decimal == BinValue(binary) % Pow2(t) && power == Pow2(t)
    requires next == decimal + BitAt(binary, t) * power
    ensures next == BinValue(binary) % Pow2(t + 1)
  {
    BinModStep(binary, t);
  }

  /** binaryToDecimal: "0" for "0" and for the empty string; otherwise the
      powers of two of the '1' bits, summed from the right. */
  method BinaryToDecimal(binary: string) returns (decimal: string)
    ensures Canonical(decimal) && Value(decimal) == BinValue(binary)
  {
    SmallValues();
    if binary == "0" || binary == "" {
      BinSnoc("", '0');
      assert "" + ['0'] == "0";
      return "0";
    }
    decimal := "0";
    var power := "1";
    var i := |binary| - 1;
    assert Pow2(0) == 1;
    while i >= 0
      invariant -1 <= i < |binary|
      invariant Canonical(decimal)
      invariant Value(decimal) == BinValue(binary) % Pow2(|binary| - 1 - i)
      invariant Value(power) == Pow2(|binary| - 1 - i)
    {
      ghost var t := |binary| - 1 - i;
      ghost var previous := Value(decimal);
      assert Bit(binary[i]) == BitAt(binary, t);
      if binary[i] == '1' {
        decimal := Add(decimal, power);
      }
      BinaryStep(binary, t, previous, Value(power), Value(decimal));
      power := Multiply(power, "2");
      assert Pow2(t + 1) == Value(power);
      i := i - 1;
    }
    BinBelow(binary);
    ModBelow(BinValue(binary), Pow2(|binary|));
  }

  // ---------------------------------------------------------------------
  // bigIntAnd, bigIntOr and bigIntXor

  /** The three operations, which share one shape. */
  datatype BitOp = AndOp | OrOp | XorOp

  /** The operation on numbers. */
  function Apply(op: BitOp, a: nat, b: nat): nat
  {
    match op
    case AndOp => And(a, b)
    case OrOp => Or(a, b)
    case XorOp => Xor(a, b)
  }

  /** The character each operation writes for one pair of bit characters. */
  function BitChar(op: BitOp, x: char, y: char): char
  {
    match op
    case AndOp => if x == '1' && y == '1' then '1' else '0'
    case OrOp => if x == '1' || y == '1' then '1' else '0'
    case XorOp => if x != y then '1' else '0'
  }

  /** `str_pad(s, n, '0', STR_PAD_LEFT)` */
  function PadLeft(s: string, n: nat): (t: string)
    ensures |t| == if |s| < n then n else |s|
    ensures IsBinary(s) ==> IsBinary(t)
    ensures BinValue(t) == BinValue(s)
  {
    if |s| < n then
      BinZeros(n - |s|, s);
      Zeros(n - |s|) + s
    else
      s
  }

  /** Each operation, on two numbers with one more low bit each: the
      operation on the high parts, with the bit the character test gives. */
  lemma {:induction false} ApplyStep(op: BitOp, p: nat, q: nat, x: char, y: char)
    requires x == '0' || x == '1'
    requires y == '0' || y == '1'
    ensures Apply(op, 2 * p + Bit(x), 2 * q + Bit(y)) == 2 * Apply(op, p, q) + Bit(BitChar(op, x, y))
  {
    var a, b := 2 * p + Bit(x), 2 * q + Bit(y);
    assert a / 2 == p && a % 2 == Bit(x) && b / 2 == q && b % 2 == Bit(y);
    match op {
      case AndOp =>
        assert And(a, b) == 2 * And(p, q) + (if a % 2 == 1 && b % 2 == 1 then 1 else 0);
      case OrOp =>
        assert Or(a, b) == 2 * Or(p, q) + (if a % 2 == 1 || b % 2 == 1 then 1 else 0);
      case XorOp =>
        assert Xor(a, b) == 2 * Xor(p, q) + (if a % 2 != b % 2 then 1 else 0);
    }
  }

  /** One character of the combining loop. */
  lemma {:induction false} CombineStep(op: BitOp, x: string, y: string, i: nat, result: string, next: string)
    requires i < |x| && i < |y| && IsBinary(x) && IsBinary(y)
    requires BinValue(result) == Apply(op, BinValue(x[..i]), BinValue(y[..i]))
    requires next == result + [BitChar(op, x[i], y[i])]
    ensures BinValue(next) == Apply(op, BinValue(x[..i + 1]), BinValue(y[..i + 1]))
  {
    BinPrefix(x, i);
    BinPrefix(y, i);
    BinSnoc(result, BitChar(op, x[i], y[i]));
    ApplyStep(op, BinValue(x[..i]), BinValue(y[..i]), x[i], y[i]);
  }

  /** The bits of `s` up to position i + 1: those up to i, then bit i. */
  lemma BinPrefix(s: string, i: nat)
    requires i < |s|
    ensures BinValue(s[..i + 1]) == 2 * BinValue(s[..i]) + Bit(s[i])
  {
    assert s[..i + 1] == s[..i] + [s[i]];
    BinSnoc(s[..i], s[i]);
  }

  /** The shared body of bigIntAnd, bigIntOr and bigIntXor: both operands in
      binary, padded to one length, combined character by character from
      the left, and read back as a decimal. */
  method Bitwise(op: BitOp, a: string, b: string) returns (r: string)
    requires IsDigits(a) && IsDigits(b)
    ensures Canonical(r) && Value(r) == Apply(op, Value(a), Value(b))
  {
    var binA := DecimalToBinary(a);
    var binB := DecimalToBinary(b);
    var maxLen := if |binA| < |binB| then |binB| else |binA|;
    binA := PadLeft(binA, maxLen);
    binB := PadLeft(binB, maxLen);
    var result := Combine(op, binA, binB);
    r := BinaryToDecimal(result);
  }

  /** The loop of bigIntAnd, bigIntOr and bigIntXor: the character test
      applied to each pair of bits, from the left. */
  method Combine(op: BitOp, x: string, y: string) returns (result: string)
    requires |x| == |y| && IsBinary(x) && IsBinary(y)
    ensures BinValue(result) == Apply(op, BinValue(x), BinValue(y))
  {
    result := "";
    var i := 0;
    assert x[..0] == [] && y[..0] == [];
    assert Apply(op, 0, 0) == 0 by {
      AndZero(0);
      OrZero(0);
      XorZero(0);
    }
    while i < |x|
      invariant 0 <= i <= |x|
      invariant BinValue(result) == Apply(op, BinValue(x[..i]), BinValue(y[..i]))
    {
      ghost var previous := result;
      result := result + [BitChar(op, x[i], y[i])];
      CombineStep(op, x, y, i, previous, result);
      i := i + 1;
    }
    assert x[..|x|] == x && y[..|y|] == y;
  }

  /** bigIntAnd */
  method BitAnd(a: string, b: string) returns (r: string)
    requires IsDigits(a) && IsDigits(b)
    ensures Canonical(r) && Value(r) == And(Value(a), Value(b))
  {
    r := Bitwise(AndOp, a, b);
  }

  /** bigIntOr */
  method BitOr(a: string, b: string) returns (r: string)
    requires IsDigits(a) && IsDigits(b)
    ensures Canonical(r) && Value(r) == Or(Value(a), Value(b))
  {
    r := Bitwise(OrOp, a, b);
  }

  /** bigIntXor */
  method BitXor(a: string, b: string) returns (r: string)
    requires IsDigits(a) && IsDigits(b)
    ensures Canonical(r) && Value(r) == Xor(Value(a), Value(b))
  {
    r := Bitwise(XorOp, a, b);
  }
}
