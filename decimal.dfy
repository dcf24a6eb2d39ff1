/** Arithmetic on non-negative integers written as strings of decimal digits:
    the bigInt helpers the PHP implementation uses in place of native 64-bit
    integers (bigIntAdd, bigIntSubtract, bigIntMultiply, bigIntDivide,
    bigIntModulo, bigIntCompare, bigIntLeftShift, bigIntRightShift). Each
    helper with a loop is a method that follows the helper's own digit
    loops; its contract gives the number its result denotes. */
module DecimalString {
  import opened Wrappers
  import opened Bits

  predicate IsDigit(c: char) { '0' <= c <= '9' }

  predicate IsDigits(s: string) { forall i :: 0 <= i < |s| ==> IsDigit(s[i]) }

  /** PHP's `(int)` of a one-character string: the digit's value, and 0 for
      any other character. */
  function DigitValue(c: char): (d: nat)
    ensures d < 10
  {
    if IsDigit(c) then c as int - '0' as int else 0
  }

  function DigitChar(d: nat): (c: char)
    requires d < 10
    ensures IsDigit(c) && DigitValue(c) == d
  {
    (d + '0' as int) as char
  }

  function Pow10(k: nat): (p: nat)
    ensures p >= 1
  {
    if k == 0 then 1 else 10 * Pow10(k - 1)
  }

  /** The number a digit string denotes, most significant digit first; the
      empty string denotes 0. */
  function Value(s: string): nat
  {
    if s == [] then 0 else 10 * Value(s[..|s| - 1]) + DigitValue(s[|s| - 1])
  }

  /** A decimal without leading zeros, "0" being the only way to write 0:
      what the helpers return. */
  predicate Canonical(s: string)
  {
    IsDigits(s) && |s| > 0 && (s[0] == '0' ==> s == "0")
  }

  /** `str_repeat('0', k)` */
  function Zeros(k: nat): (z: string)
    ensures |z| == k && IsDigits(z)
    ensures forall i :: 0 <= i < k ==> z[i] == '0'
  {
    if k == 0 then "" else "0" + Zeros(k - 1)
  }

  /** Errors the helpers throw. */
  datatype ArithmeticError = DivisionByZero

  // ---------------------------------------------------------------------
  // What a digit string denotes

  /** Appending one digit multiplies by ten and adds the digit. */
  lemma {:induction false} ValueSnoc(s: string, c: char)
    ensures Value(s + [c]) == 10 * Value(s) + DigitValue(c)
  {
    assert (s + [c])[..|s|] == s;
  }

  /** The one-digit strings the helpers pass as operands. */
  lemma SmallValues()
    ensures Value("0") == 0 && Value("1") == 1 && Value("2") == 2 && Value("10") == 10
  {
    ValueSnoc("", '0');
    ValueSnoc("", '1');
    ValueSnoc("", '2');
    assert "" + ['0'] == "0" && "" + ['1'] == "1" && "" + ['2'] == "2";
    ValueSnoc("1", '0');
    assert "1" + ['0'] == "10";
  }

  lemma ShiftDigit(a: nat, p: nat, b: nat, d: nat)
    ensures 10 * (a * p + b) + d == a * (10 * p) + (10 * b + d)
  {
  }

  /** Two digit strings side by side: the left one shifted by the length of
      the right one. */
  lemma {:induction false} ValueConcat(x: string, y: string)
    ensures Value(x + y) == Value(x) * Pow10(|y|) + Value(y)
    decreases |y|
  {
    if y == [] {
      assert x + y == x;
    } else {
      var y0, c := y[..|y| - 1], y[|y| - 1];
      assert y == y0 + [c];
      assert x + y == (x + y0) + [c];
      ValueConcat(x, y0);
      ValueSnoc(x + y0, c);
      ValueSnoc(y0, c);
      ShiftDigit(Value(x), Pow10(|y0|), Value(y0), DigitValue(c));
    }
  }

  /** Putting one digit in front adds it at the weight of the string's length. */
  lemma {:induction false} ValueCons(c: char, s: string)
    ensures Value([c] + s) == DigitValue(c) * Pow10(|s|) + Value(s)
  {
    ValueSnoc([], c);
    assert [] + [c] == [c];
    ValueConcat([c], s);
  }

  /** A string of k characters denotes less than 10^k. */
  lemma {:induction false} ValueBelow(s: string)
    ensures Value(s) < Pow10(|s|)
    decreases |s|
  {
    if s != [] {
      ValueBelow(s[..|s| - 1]);
    }
  }

  /** Zeros denote 0. */
  lemma {:induction false} ValueZeros(k: nat)
    ensures Value(Zeros(k)) == 0
  {
    if k > 0 {
      ValueCons('0', Zeros(k - 1));
      assert Zeros(k) == ['0'] + Zeros(k - 1);
      ValueZeros(k - 1);
    }
  }

  /** A number written with k zeros after it is multiplied by 10^k. */
  lemma ValueShifted(s: string, k: nat)
    ensures Value(s + Zeros(k)) == Value(s) * Pow10(k)
  {
    ValueConcat(s, Zeros(k));
    ValueZeros(k);
  }

  lemma {:induction false} Pow10Monotone(a: nat, b: nat)
    requires a <= b
    ensures Pow10(a) <= Pow10(b)
    decreases b
  {
    if a < b { Pow10Monotone(a, b - 1); }
  }

  /** The digit of weight 10^t, 0 beyond the string's length. */
  function DigitAt(s: string, t: nat): (d: nat)
    ensures d < 10
  {
    if t < |s| then DigitValue(s[|s| - 1 - t]) else 0
  }

  /** A ten-fold value plus a digit, modulo a ten-fold modulus. */
  lemma ModTen(v: nat, d: nat, p: nat)
    requires d < 10 && p >= 1
    ensures (10 * v + d) % (10 * p) == 10 * (v % p) + d
  {
    var q, r := v / p, v % p;
    assert 10 * v + d == q * (10 * p) + (10 * r + d);
    DivModUnique(10 * v + d, 10 * p, q, 10 * r + d);
  }

  /** One more digit of the modulus adds the digit of weight 10^t. */
  lemma {:induction false} ModStep(s: string, t: nat)
    ensures Value(s) % Pow10(t + 1) == DigitAt(s, t) * Pow10(t) + Value(s) % Pow10(t)
    decreases |s|
  {
    if s == [] {
      assert Value(s) == 0 && DigitAt(s, t) == 0;
      var P, Q := Pow10(t + 1), Pow10(t);
      assert 0 % P == 0 && 0 % Q == 0;
    } else if t == 0 {
      var v, v0, d := Value(s), Value(s[..|s| - 1]), DigitValue(s[|s| - 1]);
      assert Pow10(1) == 10 && Pow10(0) == 1 && DigitAt(s, 0) == d;
      DivModUnique(v, 10, v0, d);
      DivModUnique(v, 1, v, 0);
    } else {
      var s0, d := s[..|s| - 1], DigitValue(s[|s| - 1]);
      var p := Pow10(t - 1);
      assert Value(s) == 10 * Value(s0) + d;
      assert Pow10(t) == 10 * p && Pow10(t + 1) == 100 * p;
      ModStep(s0, t - 1);
      assert DigitAt(s, t) == DigitAt(s0, t - 1);
      ModStepDigit(Value(s0), d, DigitAt(s, t), p);
    }
  }

  /** The arithmetic of one step of ModStep: a number with one digit more,
      taken modulo ten times as much. */
  lemma ModStepDigit(v0: nat, d: nat, digit: nat, p: nat)
    requires d < 10 && p >= 1
    requires v0 % (10 * p) == digit * p + v0 % p
    ensures (10 * v0 + d) % (100 * p) == digit * (10 * p) + (10 * v0 + d) % (10 * p)
  {
    ModTen(v0, d, 10 * p);
    ModTen(v0, d, p);
    assert 10 * (10 * p) == 100 * p;
  }

  /** Modulo a power of ten at least as wide as the string, the value is
      unchanged. */
  lemma {:induction false} WideModulus(s: string, t: nat)
    requires |s| <= t
    ensures Value(s) % Pow10(t) == Value(s)
  {
    ValueBelow(s);
    Pow10Monotone(|s|, t);
    ModBelow(Value(s), Pow10(t));
  }

  // ---------------------------------------------------------------------
  // Leading zeros and the `ltrim(..., '0') ?: '0'` idiom

  /** `ltrim(s, '0')`: `s` without its leading zeros. */
  function TrimZeros(s: string): (t: string)
    ensures |t| <= |s| && (|t| > 0 ==> t[0] != '0')
  {
    if |s| > 0 && s[0] == '0' then TrimZeros(s[1..]) else s
  }

  /** What TrimZeros removes is a run of zeros. */
  lemma {:induction false} TrimZerosSplit(s: string)
    ensures s == Zeros(|s| - |TrimZeros(s)|) + TrimZeros(s)
    decreases |s|
  {
    var t := TrimZeros(s);
    if |s| > 0 && s[0] == '0' {
      TrimZerosSplit(s[1..]);
      assert s == [s[0]] + s[1..];
      assert Zeros(|s| - |t|) == "0" + Zeros(|s| - 1 - |t|);
    } else {
      assert s == Zeros(0) + s;
    }
  }

  /** `ltrim(s, '0') ?: '0'`: the canonical form of a digit string. It
      denotes the same number, and is canonical when `s` is made of
      digits. */
  function Normalize(s: string): (r: string)
    ensures Value(r) == Value(s)
    ensures IsDigits(s) ==> Canonical(r)
  {
    var t := TrimZeros(s);
    NormalizeSteps(s);
    if t == "" then "0" else t
  }

  /** Removing the leading zeros keeps the value, and leaves the digits
      that follow them. */
  lemma NormalizeSteps(s: string)
    ensures Value(TrimZeros(s)) == Value(s)
    ensures IsDigits(s) ==> IsDigits(TrimZeros(s))
    ensures Value("0") == 0
  {
    var t := TrimZeros(s);
    var k := |s| - |t|;
    TrimZerosSplit(s);
    ValueConcat(Zeros(k), t);
    ValueZeros(k);
    if IsDigits(s) {
      assert forall i :: 0 <= i < |t| ==> t[i] == s[k + i];
    }
    SmallValues();
  }

  /** Canonical decimals are their own normal form. */
  lemma NormalizeCanonical(s: string)
    requires Canonical(s)
    ensures Normalize(s) == s
  {
  }

  // ---------------------------------------------------------------------
  // PHP's `(string)` of a non-negative integer

  /** The canonical decimal of `n`. */
  function ToDecimal(n: nat): (s: string)
    ensures Canonical(s) && Value(s) == n
  {
    if n < 10 then
      ValueSnoc([], DigitChar(n));
      assert [] + [DigitChar(n)] == [DigitChar(n)];
      [DigitChar(n)]
    else
      var hi := ToDecimal(n / 10);
      ValueSnoc(hi, DigitChar(n % 10));
      hi + [DigitChar(n % 10)]
  }

  /** Writing the number a canonical decimal denotes gives the decimal back:
      there is one canonical decimal per number. */
  lemma {:induction false} ToDecimalValue(s: string)
    requires Canonical(s)
    ensures ToDecimal(Value(s)) == s
    decreases |s|
  {
    if |s| > 1 {
      var hi, c := s[..|s| - 1], s[|s| - 1];
      assert s == hi + [c];
      ValueSnoc(hi, c);
      assert Canonical(hi) && hi != "0";
      assert Value(hi) >= 1 by {
        assert hi == [hi[0]] + hi[1..];
        ValueCons(hi[0], hi[1..]);
        MulAtLeast(DigitValue(hi[0]), Pow10(|hi| - 1));
      }
      DivModUnique(Value(s), 10, Value(hi), DigitValue(c));
      ToDecimalValue(hi);
      assert ToDecimal(Value(s)) == ToDecimal(Value(hi)) + [DigitChar(DigitValue(c))];
    } else {
      ValueSnoc([], s[0]);
      assert [] + [s[0]] == s;
    }
  }

  // ---------------------------------------------------------------------
  // bigIntCompare

  /** `strcmp` on two strings of one length, as a sign: the first differing
      character decides. */
  function LexCompare(x: string, y: string): (r: int)
    requires |x| == |y|
    ensures -1 <= r <= 1
  {
    if x == [] then 0
    else if x[0] < y[0] then -1
    else if x[0] > y[0] then 1
    else LexCompare(x[1..], y[1..])
  }

  /** bigIntCompare: both sides normalized, then the longer is larger, and
      equal lengths compare character by character. */
  function Compare(a: string, b: string): (r: int)
    requires IsDigits(a) && IsDigits(b)
    ensures r == -1 || r == 0 || r == 1
    ensures r < 0 <==> Value(a) < Value(b)
    ensures r == 0 <==> Value(a) == Value(b)
  {
    var x, y := Normalize(a), Normalize(b);
    if |x| > |y| then
      LongerIsLarger(x, y);
      1
    else if |x| < |y| then
      LongerIsLarger(y, x);
      -1
    else
      LexCompareValue(x, y);
      LexCompare(x, y)
  }

  /** A canonical decimal with more digits than another is larger. */
  lemma {:induction false} LongerIsLarger(x: string, y: string)
    requires Canonical(x) && Canonical(y) && |x| > |y|
    ensures Value(x) > Value(y)
  {
    var p := Pow10(|x| - 1);
    assert x == [x[0]] + x[1..];
    assert x != "0" && IsDigit(x[0]);
    assert DigitValue(x[0]) >= 1;
    assert Value(x) >= p by {
      ValueCons(x[0], x[1..]);
      MulAtLeast(DigitValue(x[0]), p);
    }
    ValueBelow(y);
    Pow10Monotone(|y|, |x| - 1);
  }

  /** On digit strings of one length, `strcmp` orders as the values do. */
  lemma {:induction false} LexCompareValue(x: string, y: string)
    requires IsDigits(x) && IsDigits(y) && |x| == |y|
    ensures LexCompare(x, y) < 0 <==> Value(x) < Value(y)
    ensures LexCompare(x, y) == 0 <==> Value(x) == Value(y)
    decreases |x|
  {
    if x != [] {
      var n := |x| - 1;
      assert x == [x[0]] + x[1..] && y == [y[0]] + y[1..];
      ValueCons(x[0], x[1..]);
      ValueCons(y[0], y[1..]);
      ValueBelow(x[1..]);
      ValueBelow(y[1..]);
      if x[0] == y[0] {
        LexCompareValue(x[1..], y[1..]);
      } else {
        assert IsDigit(x[0]) && IsDigit(y[0]);
        LeadingDigitDecides(DigitValue(x[0]), Value(x[1..]), DigitValue(y[0]), Value(y[1..]), Pow10(n));
      }
    }
  }

  lemma LeadingDigitDecides(dx: nat, rx: nat, dy: nat, ry: nat, p: nat)
    requires dx != dy && rx < p && ry < p
    ensures dx < dy <==> dx * p + rx < dy * p + ry
    ensures dx * p + rx != dy * p + ry
  {
    if dx < dy {
      assert dx * p + rx < (dx + 1) * p <= dy * p;
    } else {
      assert dy * p + ry < (dy + 1) * p <= dx * p;
    }
  }

  // ---------------------------------------------------------------------
  // bigIntAdd

  /** A carry or borrow of 0 or 1 into the column of weight 10^t. */
  function CarryValue(carry: nat, t: nat): nat
  {
    if carry == 0 then 0 else Pow10(t)
  }

  /** The arithmetic of one column of bigIntAdd or bigIntSubtract: a digit
      and an outgoing carry of ten that make up the column's digits and the
      incoming carry. */
  lemma Column(p: int, da: int, db: int, carry: int, digit: int, carryOut: int)
    ensures digit + 10 * carryOut == da + db + carry
            ==> digit * p + carryOut * (10 * p) == da * p + db * p + carry * p
  {
    if digit + 10 * carryOut == da + db + carry {
      assert (digit + 10 * carryOut) * p == (da + db + carry) * p;
    }
  }

  /** A carry of 0 or 1 at weight p. */
  lemma CarryScaled(carry: nat, t: nat)
    requires carry <= 1
    ensures CarryValue(carry, t) == carry * Pow10(t)
  {
  }

  /** One column of bigIntAdd: the digit written in front of the result and
      the carry passed on keep the sum of the low digits. */
  lemma {:induction false} AddStep(a: string, b: string, result: string, carry: nat,
                                   next: string, carryOut: nat)
    requires carry <= 1
    requires Value(result) + CarryValue(carry, |result|)
             == Value(a) % Pow10(|result|) + Value(b) % Pow10(|result|)
    requires var sum := DigitAt(a, |result|) + DigitAt(b, |result|) + carry;
      next == [DigitChar(sum % 10)] + result && carryOut == sum / 10
    ensures carryOut <= 1 && |next| == |result| + 1
    ensures Value(next) + CarryValue(carryOut, |next|)
            == Value(a) % Pow10(|next|) + Value(b) % Pow10(|next|)
  {
    var t, p := |result|, Pow10(|result|);
    var da, db := DigitAt(a, t), DigitAt(b, t);
    var sum := da + db + carry;
    var digit := sum % 10;
    assert |next| == t + 1 && Pow10(t + 1) == 10 * p;
    ModStep(a, t);
    ModStep(b, t);
    ValueCons(DigitChar(digit), result);
    CarryScaled(carry, t);
    CarryScaled(carryOut, t + 1);
    Column(p, da, db, carry, digit, carryOut);
  }

  /** bigIntAdd: column by column from the right with a carry, each digit
      written in front of the result, then normalized. A character that is
      not a digit counts as 0, as PHP's `(int)` makes it. */
  method Add(a: string, b: string) returns (r: string)
    ensures Canonical(r) && Value(r) == Value(a) + Value(b)
  {
    var result := "";
    var carry := 0;
    var i := |a| - 1;
    var j := |b| - 1;
    ghost var m := if |a| < |b| then |b| else |a|;
    while i >= 0 || j >= 0 || carry > 0
      invariant i == |a| - 1 - |result| && j == |b| - 1 - |result|
      invariant carry == 0 || carry == 1
      invariant |result| <= m + 1 && (|result| == m + 1 ==> carry == 0)
      invariant IsDigits(result)
      invariant Value(result) + CarryValue(carry, |result|)
                == Value(a) % Pow10(|result|) + Value(b) % Pow10(|result|)
      decreases 2 * (m + 1 - |result|) + carry
    {
      var digitA := if i >= 0 then DigitValue(a[i]) else 0;
      var digitB := if j >= 0 then DigitValue(b[j]) else 0;
      assert digitA == DigitAt(a, |result|) && digitB == DigitAt(b, |result|);
      var sum := digitA + digitB + carry;
      ghost var previous, carryIn := result, carry;
      result := [DigitChar(sum % 10)] + result;
      carry := sum / 10;
      i := i - 1;
      j := j - 1;
      AddStep(a, b, previous, carryIn, result, carry);
    }
    WideModulus(a, |result|);
    WideModulus(b, |result|);
    r := Normalize(result);
  }

  // ---------------------------------------------------------------------
  // bigIntSubtract

  lemma {:induction false} SubtractColumn(v: int, borrow: int, p: int, la: int, lb: int,
                                          da: int, db: int, digit: int, borrowOut: int)
    requires 0 <= borrow
    requires borrow <= 1 && v + lb == la + (if borrow == 0 then 0 else p)
    requires digit + db == da - borrow + 10 * borrowOut
    ensures digit * p + v + (db * p + lb) == (da * p + la) + borrowOut * (10 * p)
  {
    assert digit * p + db * p == da * p - borrow * p + borrowOut * (10 * p) by {
      assert (digit + db) * p == (da - borrow + 10 * borrowOut) * p;
    }
  }

  /** One column of bigIntSubtract: the digit written in front of the result
      and the borrow passed on keep the difference of the low digits. */
  lemma {:induction false} SubtractStep(a: string, b: string, result: string, borrow: nat,
                                        digit: nat, next: string, borrowOut: nat)
    requires borrow <= 1 && borrowOut <= 1 && digit < 10
    requires Value(result) + Value(b) % Pow10(|result|)
             == Value(a) % Pow10(|result|) + CarryValue(borrow, |result|)
    requires digit + DigitAt(b, |result|) == DigitAt(a, |result|) - borrow + 10 * borrowOut
    requires next == [DigitChar(digit)] + result
    ensures |next| == |result| + 1
    ensures Value(next) + Value(b) % Pow10(|next|)
            == Value(a) % Pow10(|next|) + CarryValue(borrowOut, |next|)
  {
    var t, p := |result|, Pow10(|result|);
    var da, db := DigitAt(a, t), DigitAt(b, t);
    assert |next| == t + 1 && Pow10(t + 1) == 10 * p;
    assert Value(a) % Pow10(t + 1) == da * p + Value(a) % p by {
      ModStep(a, t);
    }
    assert Value(b) % Pow10(t + 1) == db * p + Value(b) % p by {
      ModStep(b, t);
    }
    assert Value(next) == digit * p + Value(result) by {
      ValueCons(DigitChar(digit), result);
    }
    assert CarryValue(borrowOut, t + 1) == borrowOut * (10 * p);
    SubtractColumn(Value(result), borrow, p, Value(a) % p, Value(b) % p, da, db, digit, borrowOut);
  }

  /** After the last column: with `a` at least `b`, no borrow is left and the
      result is the difference. */
  lemma SubtractDone(a: string, b: string, result: string, borrow: nat)
    requires Value(a) >= Value(b) && |result| == |a|
    requires Value(result) + Value(b) % Pow10(|a|) == Value(a) % Pow10(|a|) + CarryValue(borrow, |a|)
    ensures Value(result) == Value(a) - Value(b)
  {
    WideModulus(a, |a|);
    ValueBelow(a);
    ModBelow(Value(b), Pow10(|a|));
    ValueBelow(result);
  }

  /** bigIntSubtract: "0" when `a` is the smaller; otherwise column by column
      from the right over the digits of `a` with a borrow, then normalized. */
  method Subtract(a: string, b: string) returns (r: string)
    requires IsDigits(a) && IsDigits(b)
    ensures Canonical(r)
    ensures Value(r) == if Value(a) < Value(b) then 0 else Value(a) - Value(b)
  {
    if Compare(a, b) < 0 {
      SmallValues();
      return "0";
    }
    var result := "";
    var borrow := 0;
    var i := |a| - 1;
    var j := |b| - 1;
    while i >= 0
      invariant -1 <= i < |a|
      invariant i == |a| - 1 - |result| && j == |b| - 1 - |result|
      invariant borrow == 0 || borrow == 1
      invariant IsDigits(result)
      invariant Value(result) + Value(b) % Pow10(|result|)
                == Value(a) % Pow10(|result|) + CarryValue(borrow, |result|)
    {
      var digitA := DigitValue(a[i]) - borrow;
      var digitB := if j >= 0 then DigitValue(b[j]) else 0;
      assert DigitValue(a[i]) == DigitAt(a, |result|) && digitB == DigitAt(b, |result|);
      ghost var previous, borrowIn := result, borrow;
      if digitA < digitB {
        digitA := digitA + 10;
        borrow := 1;
      } else {
        borrow := 0;
      }
      result := [DigitChar(digitA - digitB)] + result;
      i := i - 1;
      j := j - 1;
      SubtractStep(a, b, previous, borrowIn, digitA - digitB, result, borrow);
    }
    SubtractDone(a, b, result, borrow);
    r := Normalize(result);
  }

  // ---------------------------------------------------------------------
  // bigIntMultiply

  /** The arithmetic of one column of bigIntMultiply: adding `digit` times
      `factor` at weight `p` to `factor` times the low part. */
  lemma MulColumn(factor: int, digit: int, p: int, low: int, wider: int, before: int, added: int)
    requires wider == digit * p + low && before == factor * low && added == (digit * factor) * p
    ensures before + added == factor * wider
  {
    assert factor * wider == factor * (digit * p) + factor * low;
    assert (digit * factor) * p == factor * (digit * p);
  }

  /** One step of the inner loop of bigIntMultiply: adding the product of
      two digits, shifted to its column, to the partial product. */
  lemma {:induction false} MultiplyInnerStep(a: string, digit: nat, k: nat, temp: nat, product: nat,
                                             shifted: nat, next: nat)
    requires temp == digit * (Value(a) % Pow10(k))
    requires product == digit * DigitAt(a, k)
    requires shifted == product * Pow10(k) && next == temp + shifted
    ensures next == digit * (Value(a) % Pow10(k + 1))
  {
    var p, da := Pow10(k), DigitAt(a, k);
    ModStep(a, k);
    MulColumn(digit, da, p, Value(a) % p, Value(a) % Pow10(k + 1), temp, shifted);
  }

  /** One step of the outer loop of bigIntMultiply: the partial product for
      one digit of `b`, shifted to its column, added to the result. */
  lemma {:induction false} MultiplyOuterStep(a: string, b: string, k: nat, result: nat, temp: nat,
                                             shifted: nat, next: nat)
    requires result == Value(a) * (Value(b) % Pow10(k))
    requires temp == DigitAt(b, k) * Value(a)
    requires shifted == temp * Pow10(k) && next == result + shifted
    ensures next == Value(a) * (Value(b) % Pow10(k + 1))
  {
    var p := Pow10(k);
    ModStep(b, k);
    MulColumn(Value(a), DigitAt(b, k), p, Value(b) % p, Value(b) % Pow10(k + 1), result, shifted);
  }

  /** bigIntMultiply: for each digit of `b` from the right, the partial
      product of `a` and that digit, shifted to the digit's column, is added
      to the result. */
  method Multiply(a: string, b: string) returns (r: string)
    ensures Canonical(r) && Value(r) == Value(a) * Value(b)
  {
    SmallValues();
    if a == "0" || b == "0" {
      return "0";
    }
    var result := "0";
    var i := |b| - 1;
    while i >= 0
      invariant -1 <= i < |b|
      invariant Canonical(result)
      invariant Value(result) == Value(a) * (Value(b) % Pow10(|b| - 1 - i))
    {
      ghost var k := |b| - 1 - i;
      var digit := DigitValue(b[i]);
      assert digit == DigitAt(b, k);
      var temp := PartialProduct(a, digit);
      ghost var partial := Value(temp);
      ValueShifted(temp, k);
      temp := temp + Zeros(|b| - 1 - i);
      ghost var previous := Value(result);
      result := Add(result, temp);
      MultiplyOuterStep(a, b, k, previous, partial, Value(temp), Value(result));
      i := i - 1;
    }
    WideModulus(b, |b|);
    r := result;
  }

  /** The inner loop of bigIntMultiply: the product of each digit of `a` with
      `digit`, shifted to its column, summed from the right. */
  method PartialProduct(a: string, digit: nat) returns (temp: string)
    requires digit < 10
    ensures Canonical(temp) && Value(temp) == digit * Value(a)
  {
    SmallValues();
    temp := "0";
    var j := |a| - 1;
    while j >= 0
      invariant -1 <= j < |a|
      invariant Canonical(temp)
      invariant Value(temp) == digit * (Value(a) % Pow10(|a| - 1 - j))
    {
      ghost var k := |a| - 1 - j;
      var product := digit * DigitValue(a[j]);
      assert DigitValue(a[j]) == DigitAt(a, k);
      ghost var previous := Value(temp);
      var shifted := ToDecimal(product) + Zeros(|a| - 1 - j);
      ValueShifted(ToDecimal(product), k);
      temp := Add(temp, shifted);
      MultiplyInnerStep(a, digit, k, previous, product, Value(shifted), Value(temp));
      j := j - 1;
    }
    WideModulus(a, |a|);
  }

  // ---------------------------------------------------------------------
  // bigIntDivide and bigIntModulo

  /** Long division by one more digit: the new remainder is below ten times
      the divisor, and quotient and remainder of the longer prefix follow from
      those of the shorter one. */
  lemma DivideDigit(v: nat, d: nat, divisor: nat, count: nat, rest: nat)
    requires divisor > 0 && d < 10
    requires rest < divisor && rest + count * divisor == 10 * (v % divisor) + d
    ensures count < 10
    ensures (10 * v + d) / divisor == 10 * (v / divisor) + count
    ensures (10 * v + d) % divisor == rest
  {
    var q, m := v / divisor, v % divisor;
    DivideCount(m, d, divisor, count, rest);
    DivideSum(v, q, m, d, divisor, count, rest);
    DivModUnique(10 * v + d, divisor, 10 * q + count, rest);
  }

  lemma DivideCount(m: nat, d: nat, divisor: nat, count: nat, rest: nat)
    requires m < divisor && d < 10 && rest + count * divisor == 10 * m + d
    ensures count < 10
  {
    if count >= 10 {
      MulMonotone(10, count, divisor);
    }
  }

  lemma DivideSum(v: nat, q: nat, m: nat, d: nat, divisor: nat, count: nat, rest: nat)
    requires divisor > 0 && q == v / divisor && m == v % divisor
    requires rest + count * divisor == 10 * m + d
    ensures 10 * v + d == (10 * q + count) * divisor + rest
  {
    assert v == q * divisor + m;
    assert (10 * q + count) * divisor == 10 * (q * divisor) + count * divisor;
  }

  lemma MulMonotone(x: nat, y: nat, z: nat)
    requires x <= y
    ensures x * z <= y * z
  {
  }

  /** A one-digit string denotes its digit. */
  lemma ValueDigit(c: char)
    ensures Value([c]) == DigitValue(c)
  {
    ValueSnoc([], c);
    assert [] + [c] == [c];
  }

  /** One digit of bigIntDivide: bringing down digit i of `a` and subtracting
      the divisor `count` times extends the quotient by the digit `count` and
      leaves the remainder of the longer prefix. */
  lemma {:induction false} DivideStep(a: string, i: nat, divisor: nat, result: string,
                                      previous: nat, count: nat, rest: nat, next: string)
    requires i < |a| && divisor > 0 && IsDigits(result)
    requires previous == Value(a[..i]) % divisor && Value(result) == Value(a[..i]) / divisor
    requires rest < divisor && rest + count * divisor == 10 * previous + DigitValue(a[i])
    requires next == result + ToDecimal(count)
    ensures IsDigits(next)
    ensures rest == Value(a[..i + 1]) % divisor && Value(next) == Value(a[..i + 1]) / divisor
  {
    DivideDigit(Value(a[..i]), DigitValue(a[i]), divisor, count, rest);
    assert a[..i + 1] == a[..i] + [a[i]];
    ValueSnoc(a[..i], a[i]);
    assert ToDecimal(count) == [DigitChar(count)];
    ValueSnoc(result, DigitChar(count));
  }

  lemma TimesTen(x: nat, y: nat)
    requires y == 10
    ensures x * y == 10 * x
  {
  }

  /** A number below the divisor: quotient 0, remainder itself. */
  lemma SmallQuotient(v: nat, divisor: nat)
    requires v < divisor
    ensures v / divisor == 0 && v % divisor == v
  {
    DivModUnique(v, divisor, 0, v);
  }

  /** One more subtraction of the divisor in bigIntDivide's inner loop. */
  lemma SubtractOnce(larger: nat, divisor: nat, count: nat, smaller: nat, total: nat)
    requires larger >= divisor && smaller == larger - divisor
    requires larger + count * divisor == total
    ensures smaller + (count + 1) * divisor == total
  {
  }

  /** The body of bigIntDivide's loop: the digit `c` brought down behind the
      remainder, then the divisor subtracted as long as it fits. */
  method BringDown(remainder: string, c: char, b: string) returns (count: nat, rest: string)
    requires Canonical(remainder) && IsDigits(b) && Value(b) > 0
    ensures Canonical(rest) && Value(rest) < Value(b)
    ensures Value(rest) + count * Value(b) == 10 * Value(remainder) + DigitValue(c)
  {
    SmallValues();
    ghost var total := 10 * Value(remainder) + DigitValue(c);
    var shifted := Multiply(remainder, "10");
    TimesTen(Value(remainder), Value("10"));
    ValueDigit(c);
    rest := Add(shifted, [c]);
    count := 0;
    assert count * Value(b) == 0;
    while Compare(rest, b) >= 0
      invariant Canonical(rest)
      invariant Value(rest) + count * Value(b) == total
      decreases Value(rest)
    {
      ghost var larger := Value(rest);
      rest := Subtract(rest, b);
      SubtractOnce(larger, Value(b), count, Value(rest), total);
      count := count + 1;
    }
  }

  /** bigIntDivide: an error for the divisor "0", "0" when `a` is the
      smaller, otherwise long division. */
  method Divide(a: string, b: string) returns (r: Result<string, ArithmeticError>)
    requires IsDigits(a) && IsDigits(b)
    requires b == "0" || Value(b) > 0
    ensures r.Err? <==> b == "0"
    ensures r.Ok? ==> Canonical(r.value) && Value(r.value) == Value(a) / Value(b)
  {
    SmallValues();
    if b == "0" {
      return Err(DivisionByZero);
    }
    if Compare(a, b) < 0 {
      SmallQuotient(Value(a), Value(b));
      return Ok("0");
    }
    var quotient := LongDivision(a, b);
    r := Ok(quotient);
  }

  /** The loop of bigIntDivide: long division from the left, one quotient
      digit per digit of `a` found by repeated subtraction, then normalized. */
  method LongDivision(a: string, b: string) returns (quotient: string)
    requires IsDigits(a) && IsDigits(b) && Value(b) > 0
    ensures Canonical(quotient) && Value(quotient) == Value(a) / Value(b)
  {
    SmallValues();
    var result := "";
    var remainder := "0";
    var i := 0;
    assert a[..0] == [] && Value([]) == 0;
    SmallQuotient(0, Value(b));
    while i < |a|
      invariant 0 <= i <= |a|
      invariant IsDigits(result) && Canonical(remainder)
      invariant Value(remainder) == Value(a[..i]) % Value(b)
      invariant Value(result) == Value(a[..i]) / Value(b)
    {
      ghost var previous := Value(remainder);
      var count;
      count, remainder := BringDown(remainder, a[i], b);
      ghost var before := result;
      result := result + ToDecimal(count);
      DivideStep(a, i, Value(b), before, previous, count, Value(remainder), result);
      i := i + 1;
    }
    assert a[..|a|] == a;
    quotient := Normalize(result);
  }

  /** bigIntModulo: `a` less the product of the quotient and `b`. */
  method Modulo(a: string, b: string) returns (r: Result<string, ArithmeticError>)
    requires IsDigits(a) && IsDigits(b)
    requires b == "0" || Value(b) > 0
    ensures r.Err? <==> b == "0"
    ensures r.Ok? ==> Canonical(r.value) && Value(r.value) == Value(a) % Value(b)
  {
    var quotient := Divide(a, b);
    if quotient.Err? {
      return Err(quotient.error);
    }
    var product := Multiply(quotient.value, b);
    DivMod(Value(a), Value(b));
    var difference := Subtract(a, product);
    r := Ok(difference);
  }

  // ---------------------------------------------------------------------
  // bigIntLeftShift and bigIntRightShift

  /** bigIntLeftShift: doubled `bits` times. With no shift the argument is
      returned as it is. */
  method LeftShift(a: string, bits: nat) returns (r: string)
    ensures Value(r) == ShiftLeft(Value(a), bits)
    ensures bits > 0 ==> Canonical(r)
    ensures bits == 0 ==> r == a
  {
    SmallValues();
    r := a;
    var i := 0;
    while i < bits
      invariant 0 <= i <= bits
      invariant Value(r) == ShiftLeft(Value(a), i)
      invariant i > 0 ==> Canonical(r)
      invariant i == 0 ==> r == a
    {
      r := Multiply(r, "2");
      i := i + 1;
    }
  }

  /** bigIntRightShift: halved `bits` times, rounding down. */
  method RightShift(a: string, bits: nat) returns (r: string)
    requires IsDigits(a)
    ensures IsDigits(r) && Value(r) == ShiftRight(Value(a), bits)
    ensures bits > 0 ==> Canonical(r)
  {
    SmallValues();
    r := a;
    var i := 0;
    while i < bits
      invariant 0 <= i <= bits
      invariant IsDigits(r) && Value(r) == ShiftRight(Value(a), i)
      invariant i > 0 ==> Canonical(r)
    {
      var half := Divide(r, "2");
      r := half.value;
      i := i + 1;
    }
  }
}
