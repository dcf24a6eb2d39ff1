/** Unsigned arbitrary-precision integers and the bit operations both
    implementations apply to them: JavaScript BigInt operators and the PHP
    decimal-string emulation have the same meaning on non-negative values,
    which is what this module defines over `nat`. */
module Bits {

  function Min(a: int, b: int): int { if a <= b then a else b }

  /** 2^k */
  function Pow2(k: nat): (p: nat)
    ensures p >= 1
  {
    if k == 0 then 1 else Pow2(k - 1) + Pow2(k - 1)
  }

  /** `v << k`: `v` doubled k times */
  function ShiftLeft(v: nat, k: nat): nat
  {
    if k == 0 then v else 2 * ShiftLeft(v, k - 1)
  }

  /** `v >> k` on a non-negative value: `v` halved k times, rounding down */
  function ShiftRight(v: nat, k: nat): nat
  {
    if k == 0 then v else ShiftRight(v, k - 1) / 2
  }

  /** `a & b`, bit by bit from the least significant end */
  function And(a: nat, b: nat): nat
    decreases a + b
  {
    if a == 0 && b == 0 then 0
    else 2 * And(a / 2, b / 2) + (if a % 2 == 1 && b % 2 == 1 then 1 else 0)
  }

  /** `a | b` */
  function Or(a: nat, b: nat): nat
    decreases a + b
  {
    if a == 0 && b == 0 then 0
    else 2 * Or(a / 2, b / 2) + (if a % 2 == 1 || b % 2 == 1 then 1 else 0)
  }

  /** `a ^ b` */
  function Xor(a: nat, b: nat): nat
    decreases a + b
  {
    if a == 0 && b == 0 then 0
    else 2 * Xor(a / 2, b / 2) + (if a % 2 != b % 2 then 1 else 0)
  }

  // ---------------------------------------------------------------------
  // Arithmetic facts about division by products and powers of two

  lemma DivIsNat(v: int, d: int)
    requires v >= 0 && d > 0
    ensures v / d >= 0
  {
    var q, m := v / d, v % d;
    assert v == q * d + m && m < d;
    MulNegative(q, d);
  }

  lemma MulNegative(q: int, d: int)
    requires d > 0
    ensures q < 0 ==> q * d <= -d
  {
    if q < 0 {
      assert q * d == -((-q) * d);
      assert (-q) * d >= d;
    }
  }

  lemma DivModUnique(v: int, d: int, q: int, r: int)
    requires d > 0 && 0 <= r < d && v == q * d + r
    ensures v / d == q && v % d == r
  {
    var q0, r0 := v / d, v % d;
    assert (q - q0) * d == r0 - r;
    if q > q0 {
      assert (q - q0) * d >= d by { MulAtLeast(q - q0, d); }
    } else if q < q0 {
      assert (q0 - q) * d >= d by { MulAtLeast(q0 - q, d); }
    }
  }

  /** Euclidean division splits a value into quotient and remainder. */
  lemma DivMod(v: nat, d: nat)
    requires d > 0
    ensures v == (v / d) * d + v % d
  {
  }

  /** A value below the modulus is its own remainder. */
  lemma ModBelow(v: nat, d: nat)
    requires v < d
    ensures v % d == v
  {
    DivModUnique(v, d, 0, v);
  }

  lemma MulAtLeast(x: int, d: int)
    requires x >= 1 && d > 0
    ensures x * d >= d
  {
  }

  /** Splitting a remainder modulo a product into its two digits. */
  lemma ModProduct(v: nat, a: nat, b: nat)
    requires a > 0 && b > 0
    ensures v % (a * b) == ((v / a) % b) * a + v % a
    ensures (v % (a * b)) / a == (v / a) % b
    ensures (v % (a * b)) % a == v % a
    ensures v / (a * b) == (v / a) / b
  {
    var q1, r1 := v / a, v % a;
    var q2, r2 := q1 / b, q1 % b;
    Regroup(q2, r2, a, b, r1);
    BelowProduct(r2, b, r1, a);
    DivModUnique(v, a * b, q2, r2 * a + r1);
    DivModUnique(r2 * a + r1, a, r2, r1);
  }

  lemma Regroup(q2: int, r2: int, a: int, b: int, r1: int)
    ensures (q2 * b + r2) * a + r1 == q2 * (a * b) + (r2 * a + r1)
  {
  }

  /** A two-digit number in base Y stays below X * Y. */
  lemma BelowProduct(x: nat, X: nat, y: nat, Y: nat)
    requires x < X && y < Y
    ensures x * Y + y < X * Y
  {
    assert x * Y <= (X - 1) * Y;
  }

  lemma {:induction false} Pow2Add(a: nat, b: nat)
    ensures Pow2(a + b) == Pow2(a) * Pow2(b)
  {
    if a > 0 {
      Pow2Add(a - 1, b);
      assert Pow2(a + b) == 2 * Pow2(a - 1 + b);
    }
  }

  lemma Pow2Monotone(a: nat, b: nat)
    requires a <= b
    ensures Pow2(a) <= Pow2(b)
  {
    Pow2Add(a, b - a);
    assert Pow2(b) == Pow2(a) * Pow2(b - a);
  }

  /** Shifting left by k multiplies by 2^k. */
  lemma {:induction false} ShiftLeftIsMul(v: nat, k: nat)
    ensures ShiftLeft(v, k) == v * Pow2(k)
  {
    if k > 0 {
      ShiftLeftIsMul(v, k - 1);
      assert v * (2 * Pow2(k - 1)) == 2 * (v * Pow2(k - 1));
    }
  }

  /** Shifting right by k divides by 2^k, rounding down. */
  lemma {:induction false} ShiftRightIsDiv(v: nat, k: nat)
    ensures ShiftRight(v, k) == v / Pow2(k)
  {
    if k > 0 {
      ShiftRightIsDiv(v, k - 1);
      ModProduct(v, Pow2(k - 1), 2);
      assert Pow2(k - 1) * 2 == Pow2(k);
    }
  }

  lemma {:induction false} ShiftLeftZero(k: nat)
    ensures ShiftLeft(0, k) == 0
  {
    if k > 0 { ShiftLeftZero(k - 1); }
  }

  /** Shifting distributes over addition. */
  lemma {:induction false} ShiftLeftAdd(x: nat, y: nat, k: nat)
    ensures ShiftLeft(x + y, k) == ShiftLeft(x, k) + ShiftLeft(y, k)
  {
    if k > 0 { ShiftLeftAdd(x, y, k - 1); }
  }

  /** Two left shifts are one shift by the sum. */
  lemma {:induction false} ShiftLeftCompose(v: nat, a: nat, b: nat)
    ensures ShiftLeft(ShiftLeft(v, a), b) == ShiftLeft(v, a + b)
  {
    if b > 0 { ShiftLeftCompose(v, a, b - 1); }
  }

  /** A value below 2^n shifted left by k, with k low bits filled in, stays
      below 2^(n+k). */
  lemma ShiftLeftBelow(x: nat, n: nat, y: nat, k: nat)
    requires x < Pow2(n) && y < Pow2(k)
    ensures ShiftLeft(x, k) + y < Pow2(n + k)
  {
    ShiftLeftIsMul(x, k);
    BelowProduct(x, Pow2(n), y, Pow2(k));
    Pow2Add(n, k);
  }

  /** Shifting `g` left by k over k low bits `rest`, then shifting right by k
      gives back `g`; the low k bits are `rest`. */
  lemma ShiftJoinSplit(g: nat, rest: nat, k: nat)
    requires rest < Pow2(k)
    ensures ShiftRight(ShiftLeft(g, k) + rest, k) == g
    ensures (ShiftLeft(g, k) + rest) % Pow2(k) == rest
  {
    ShiftLeftIsMul(g, k);
    ShiftRightIsDiv(ShiftLeft(g, k) + rest, k);
    DivModUnique(ShiftLeft(g, k) + rest, Pow2(k), g, rest);
  }

  /** The low a + b bits of `v` are its bits a..a+b-1 over its low a bits. */
  lemma ModSplit(v: nat, a: nat, b: nat)
    ensures v % Pow2(a + b) == ShiftLeft(ShiftRight(v, a) % Pow2(b), a) + v % Pow2(a)
    ensures (v % Pow2(a + b)) % Pow2(a) == v % Pow2(a)
    ensures ShiftRight(v % Pow2(a + b), a) == ShiftRight(v, a) % Pow2(b)
  {
    Pow2Add(a, b);
    assert Pow2(a + b) == Pow2(b) * Pow2(a);
    ModProduct(v, Pow2(a), Pow2(b));
    ShiftRightIsDiv(v, a);
    ShiftRightIsDiv(v % Pow2(a + b), a);
    ShiftLeftIsMul(ShiftRight(v, a) % Pow2(b), a);
  }

  /** Dividing a value below 2^n by 2^k leaves a value below 2^(n-k). */
  lemma ShiftRightBound(v: nat, n: nat, k: nat)
    requires k <= n && v < Pow2(n)
    ensures ShiftRight(v, k) < Pow2(n - k)
  {
    Pow2Add(k, n - k);
    DivBelow(v, Pow2(k), Pow2(n - k));
    ShiftRightIsDiv(v, k);
  }

  lemma DivBelow(v: nat, p: nat, bound: nat)
    requires p > 0 && v < bound * p
    ensures v / p < bound
  {
    var q := v / p;
    assert q * p <= v;
    assert (bound - q) * p > 0 by {
      assert (bound - q) * p == bound * p - q * p;
    }
    PositiveFactor(bound - q, p);
  }

  lemma PositiveFactor(x: int, p: int)
    requires p > 0 && x * p > 0
    ensures x > 0
  {
  }

  // ---------------------------------------------------------------------
  // Meaning of the bit operations

  lemma AndZero(a: nat)
    ensures And(a, 0) == 0 && And(0, a) == 0
    decreases a
  {
    if a != 0 { AndZero(a / 2); }
  }

  lemma ShiftRightZero(k: nat)
    ensures ShiftRight(0, k) == 0
  {
  }

  lemma OrZero(a: nat)
    ensures Or(a, 0) == a
    decreases a
  {
    if a != 0 { OrZero(a / 2); }
  }

  /** Masking with 2^k - 1 keeps the k low bits. */
  lemma {:induction false} AndLowMask(a: nat, k: nat)
    ensures And(a, Pow2(k) - 1) == a % Pow2(k)
  {
    if k == 0 {
      AndZero(a);
    } else {
      var low := And(a / 2, Pow2(k - 1) - 1);
      assert low == (a / 2) % Pow2(k - 1) by { AndLowMask(a / 2, k - 1); }
      assert And(a, Pow2(k) - 1) == 2 * low + a % 2 by { AndOddMask(a, k); }
      ModTwoSplit(a, k);
    }
  }

  /** Masking with 2^k - 1 leaves a value below 2^k. */
  lemma AndLowMaskBelow(a: nat, k: nat)
    ensures And(a, Pow2(k) - 1) < Pow2(k)
  {
    AndLowMask(a, k);
  }

  /** Masking with 2^k - 1 reads only the k low bits. */
  lemma AndLowMaskOfMod(a: nat, k: nat)
    ensures And(a, Pow2(k) - 1) == And(a % Pow2(k), Pow2(k) - 1)
  {
    var low := a % Pow2(k);
    AndLowMask(a, k);
    AndLowMask(low, k);
    ModBelow(low, Pow2(k));
  }

  /** The low bit of 2^k - 1 is set and the rest is 2^(k-1) - 1. */
  lemma AndOddMask(a: nat, k: nat)
    requires k >= 1
    ensures And(a, Pow2(k) - 1) == 2 * And(a / 2, Pow2(k - 1) - 1) + a % 2
  {
    DivModUnique(Pow2(k) - 1, 2, Pow2(k - 1) - 1, 1);
  }

  /** The k low bits are the lowest bit below the k - 1 bits above it. */
  lemma ModTwoSplit(a: nat, k: nat)
    requires k >= 1
    ensures a % Pow2(k) == 2 * ((a / 2) % Pow2(k - 1)) + a % 2
  {
    ModProduct(a, 2, Pow2(k - 1));
  }

  /** Or-ing a value below 2^k into a value shifted left by k is addition. */
  lemma {:induction false} OrDisjoint(hi: nat, lo: nat, k: nat)
    requires lo < Pow2(k)
    ensures Or(ShiftLeft(hi, k), lo) == ShiftLeft(hi, k) + lo
  {
    if k == 0 {
      OrZero(hi);
    } else {
      OrDisjoint(hi, lo / 2, k - 1);
    }
  }

  lemma XorZero(a: nat)
    ensures Xor(a, 0) == a
    decreases a
  {
    if a != 0 { XorZero(a / 2); }
  }

  lemma XorHalves(a: nat, b: nat)
    ensures Xor(a, b) / 2 == Xor(a / 2, b / 2)
    ensures Xor(a, b) % 2 == (if a % 2 != b % 2 then 1 else 0)
  {
  }

  /** Xor-ing twice with the same mask gives back the original value. */
  lemma {:induction false} XorInvolution(a: nat, b: nat)
    ensures Xor(Xor(a, b), b) == a
    decreases a + b
  {
    var x := Xor(a, b);
    XorHalves(a, b);
    if !(x == 0 && b == 0) {
      XorInvolution(a / 2, b / 2);
    } else {
      XorZero(a);
    }
  }

  /** Xor never sets a bit above the width of both operands. */
  lemma {:induction false} XorBound(a: nat, b: nat, k: nat)
    requires a < Pow2(k) && b < Pow2(k)
    ensures Xor(a, b) < Pow2(k)
    decreases k
  {
    if k > 0 && !(a == 0 && b == 0) {
      XorBound(a / 2, b / 2, k - 1);
    }
  }

  // ---------------------------------------------------------------------
  // Three fields side by side: a high part, one bit, and k low bits

  /** A value below 2^k masks to itself. */
  lemma AndLowMaskId(x: nat, k: nat)
    requires x < Pow2(k)
    ensures And(x, Pow2(k) - 1) == x
  {
    AndLowMask(x, k);
    ModBelow(x, Pow2(k));
  }

  /** `(hi << k1) | (bit << k) | lo`, with k1 = k + 1 and `lo` below 2^k, is
      the value whose bits above k are `hi` followed by `bit`, and whose low
      k bits are `lo`. */
  lemma {:induction false} JoinThree(hi: nat, bit: nat, lo: nat, k: nat, k1: nat)
    requires k1 == k + 1 && bit < 2 && lo < Pow2(k)
    ensures Or(Or(ShiftLeft(hi, k1), ShiftLeft(bit, k)), lo) == ShiftLeft(2 * hi + bit, k) + lo
  {
    assert ShiftLeft(bit, k) < Pow2(k + 1) by {
      ShiftLeftBelow(bit, 1, 0, k);
    }
    assert ShiftLeft(hi, k + 1) == ShiftLeft(2 * hi, k) by {
      ShiftLeftCompose(hi, 1, k);
    }
    assert Or(ShiftLeft(hi, k + 1), ShiftLeft(bit, k)) == ShiftLeft(2 * hi + bit, k) by {
      ShiftLeftCompose(hi, 1, k);
      OrDisjoint(hi, ShiftLeft(bit, k), k + 1);
      ShiftLeftAdd(2 * hi, bit, k);
    }
    OrDisjoint(2 * hi + bit, lo, k);
  }

  /** The joined value has n + 1 + k bits when `hi` has n. */
  lemma JoinThreeBelow(hi: nat, bit: nat, lo: nat, n: nat, k: nat, total: nat)
    requires total == n + 1 + k && hi < Pow2(n) && bit < 2 && lo < Pow2(k)
    ensures ShiftLeft(2 * hi + bit, k) + lo < Pow2(total)
  {
    ShiftLeftBelow(2 * hi + bit, n + 1, lo, k);
  }

  /** Shifting a joined value right by k and by k + 1 gives back the parts
      above the low k bits. */
  lemma SplitThree(w: nat, lo: nat, k: nat)
    requires lo < Pow2(k)
    ensures ShiftRight(ShiftLeft(w, k) + lo, k) == w
    ensures ShiftRight(ShiftLeft(w, k) + lo, k + 1) == w / 2
    ensures (ShiftLeft(w, k) + lo) % Pow2(k) == lo
  {
    ShiftJoinSplit(w, lo, k);
  }

  /** Every value is its bits above k over its k low bits. */
  lemma SplitLow(v: nat, k: nat)
    ensures v == ShiftLeft(ShiftRight(v, k), k) + v % Pow2(k)
  {
    ShiftRightIsDiv(v, k);
    ShiftLeftIsMul(v / Pow2(k), k);
    DivMod(v, Pow2(k));
  }

  /** Reading the three parts back from a joined value: shifting right by
      k1 = k + 1 and masking to n bits gives `hi`, bit k is `bit`, and
      masking to k bits gives `lo`. */
  lemma SplitThreeMasked(hi: nat, bit: nat, lo: nat, n: nat, k: nat, k1: nat)
    requires k1 == k + 1 && hi < Pow2(n) && bit < 2 && lo < Pow2(k)
    ensures And(ShiftRight(ShiftLeft(2 * hi + bit, k) + lo, k1), Pow2(n) - 1) == hi
    ensures And(ShiftRight(ShiftLeft(2 * hi + bit, k) + lo, k), 1) == bit
    ensures And(ShiftLeft(2 * hi + bit, k) + lo, Pow2(k) - 1) == lo
  {
    var w := 2 * hi + bit;
    var v := ShiftLeft(w, k) + lo;
    SplitThree(w, lo, k);
    assert w / 2 == hi;
    AndLowMaskId(hi, n);
    assert And(w, 1) == bit by {
      AndLowMask(w, 1);
    }
    assert And(v, Pow2(k) - 1) == lo by {
      AndLowMask(v, k);
    }
  }

  /** Every value below 2^(n + 1 + k) is its part above bit k, its bit k
      and its k low bits joined, each read with the masks of
      `SplitThreeMasked`; k1 and total name k + 1 and n + 1 + k as the
      caller writes them. */
  lemma {:induction false} JoinThreeMasked(v: nat, n: nat, k: nat, k1: nat, total: nat)
    requires k1 == k + 1 && total == n + 1 + k && v < Pow2(total)
    ensures And(ShiftRight(v, k1), Pow2(n) - 1) < Pow2(n)
    ensures And(ShiftRight(v, k), 1) < 2
    ensures And(v, Pow2(k) - 1) < Pow2(k)
    ensures v == ShiftLeft(2 * And(ShiftRight(v, k1), Pow2(n) - 1) + And(ShiftRight(v, k), 1), k)
                 + And(v, Pow2(k) - 1)
  {
    var w := ShiftRight(v, k);
    var lo := v % Pow2(k);
    SplitLow(v, k);
    SplitThree(w, lo, k);
    assert ShiftRight(v, k1) < Pow2(n) by {
      ShiftRightBound(v, total, k1);
    }
    AndLowMaskId(w / 2, n);
    assert And(w, 1) == w % 2 by {
      AndLowMask(w, 1);
    }
    AndLowMask(v, k);
  }

  // ---------------------------------------------------------------------
  // Low bits of xor and of products

  /** The k low bits of `a ^ b` are the xor of the k low bits of each. */
  lemma {:induction false} XorMod(a: nat, b: nat, k: nat)
    ensures Xor(a, b) % Pow2(k) == Xor(a % Pow2(k), b % Pow2(k))
    decreases k
  {
    if k == 0 {
      XorZero(0);
    } else {
      var la, lb := a % Pow2(k), b % Pow2(k);
      XorMod(a / 2, b / 2, k - 1);
      ModTwoSplit(Xor(a, b), k);
      ModTwoSplit(a, k);
      ModTwoSplit(b, k);
      XorHalves(a, b);
      XorHalves(la, lb);
      DivModUnique(la, 2, (a / 2) % Pow2(k - 1), a % 2);
      DivModUnique(lb, 2, (b / 2) % Pow2(k - 1), b % 2);
      DivMod(Xor(la, lb), 2);
    }
  }

  /** The remainder of a product depends only on the remainder of its
      first factor. */
  lemma MulMod(a: nat, b: nat, d: nat)
    requires d > 0
    ensures (a * b) % d == ((a % d) * b) % d
  {
    var q, r := a / d, a % d;
    var q2, r2 := (r * b) / d, (r * b) % d;
    DivMod(a, d);
    DivMod(r * b, d);
    assert a * b == (q * b + q2) * d + r2 by {
      assert a * b == q * d * b + r * b;
      assert q * d * b == (q * b) * d;
    }
    DivModUnique(a * b, d, q * b + q2, r2);
  }
}
