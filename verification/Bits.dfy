/** Bitwise operators on unbounded naturals, bit by bit, with the arithmetic facts that the
    masks and shifts of the repository rely on. */
module Bits {

  function Pow2(n: nat): (r: nat)
    ensures r >= 1
  {
    if n == 0 then 1 else 2 * Pow2(n - 1)
  }

  function Shl(a: nat, k: nat): nat {
    if k == 0 then a else 2 * Shl(a, k - 1)
  }

  function And(a: nat, b: nat): nat {
    if a == 0 then 0
    else (if a % 2 == 1 && b % 2 == 1 then 1 else 0) + 2 * And(a / 2, b / 2)
  }

  function Or(a: nat, b: nat): nat
    decreases a + b
  {
    if a == 0 && b == 0 then 0
    else (if a % 2 == 1 || b % 2 == 1 then 1 else 0) + 2 * Or(a / 2, b / 2)
  }

  function Xor(a: nat, b: nat): nat
    decreases a + b
  {
    if a == 0 && b == 0 then 0
    else (if a % 2 != b % 2 then 1 else 0) + 2 * Xor(a / 2, b / 2)
  }

  // ---------------------------------------------------------------- division

  /** The only multiple of m strictly between -m and m is zero. */
  lemma SmallMultiple(d: int, m: int)
    requires -m < d * m < m
    ensures d == 0
  {}

  /** The quotient and remainder of a division are the only pair that fits. */
  lemma DivModUnique(x: int, m: int, q: int, r: int)
    requires m > 0 && 0 <= r < m && x == q * m + r
    ensures x / m == q && x % m == r
  {
    var d := x / m - q;
    assert d * m == (x / m) * m - q * m;
    SmallMultiple(d, m);
  }

  lemma SmallQuotient(q: int, n: int, m: int)
    requires m > 0 && q * m < n * m
    ensures q < n
  {}

  lemma DivModForm(x: int, m: int)
    requires m > 0
    ensures x == (x / m) * m + x % m && 0 <= x % m < m
  {}

  lemma NatQuotient(x: int, m: int)
    requires m > 0 && x >= 0
    ensures x / m >= 0
  {}

  lemma NonNegativeProduct(a: int, b: int)
    requires a >= 0 && b >= 0
    ensures a * b >= 0
  {}

  lemma MulAssociates(a: int, b: int, c: int)
    ensures a * b * c == a * (b * c)
  {}

  /** Dividing by a product is dividing twice. */
  lemma DivDiv(x: int, m: int, k: int)
    requires m > 0 && k > 0
    ensures m * k > 0 && x / (m * k) == (x / k) / m
  {
    var y := x / k;
    var q, r := y / m, y % m;
    NestedRemainder(x, m, k, q, r, x % k);
    DivModUnique(x, m * k, q, r * k + x % k);
  }

  lemma NestedRemainder(x: int, m: int, k: int, q: int, r: int, t: int)
    requires m > 0 && k > 0 && 0 <= r < m && 0 <= t < k
    requires x == (q * m + r) * k + t
    ensures x == q * (m * k) + (r * k + t)
    ensures m * k > 0 && 0 <= r * k + t < m * k
  {
    MulAssociates(q, m, k);
    NonNegativeProduct(m - 1 - r, k);
    NonNegativeProduct(r, k);
    assert (m - 1 - r) * k == m * k - k - r * k;
  }

  lemma Pow2Add(a: nat, b: nat)
    ensures Pow2(a + b) == Pow2(a) * Pow2(b)
  {
    if a > 0 {
      Pow2Add(a - 1, b);
      assert Pow2(a + b) == 2 * Pow2(a - 1 + b);
    }
  }

  lemma DoubleProduct(a: int, m: int)
    ensures a * (2 * m) == 2 * (a * m)
  {}

  lemma {:induction false} ShlIsProduct(a: nat, k: nat)
    ensures Shl(a, k) == a * Pow2(k)
  {
    if k > 0 {
      ShlIsProduct(a, k - 1);
      DoubleProduct(a, Pow2(k - 1));
    }
  }

  lemma {:induction false} Pow2Monotone(a: nat, b: nat)
    requires a <= b
    ensures Pow2(a) <= Pow2(b)
  {
    if a < b { Pow2Monotone(a, b - 1); }
  }

  lemma Pow2Values()
    ensures Pow2(3) == 8 && Pow2(6) == 64 && Pow2(7) == 128 && Pow2(8) == 256
  {
    assert Pow2(6) == 64;
  }

  lemma Pow2Words()
    ensures Pow2(31) == 0x8000_0000 && Pow2(32) == 0x1_0000_0000
  {
    Pow2Values();
    Pow2Add(8, 8);
    Pow2Add(16, 8);
    Pow2Add(24, 7);
    Pow2Add(24, 8);
  }

  // ---------------------------------------------------------------- masks

  lemma AndHalves(a: nat, b: nat)
    ensures And(a, b) == (if a % 2 == 1 && b % 2 == 1 then 1 else 0) + 2 * And(a / 2, b / 2)
  {}

  lemma OrHalves(a: nat, b: nat)
    ensures Or(a, b) == (if a % 2 == 1 || b % 2 == 1 then 1 else 0) + 2 * Or(a / 2, b / 2)
  {}

  lemma {:induction false} AndOddMask(x: nat, m: nat)
    requires m >= 1 && And(x / 2, m - 1) == x / 2
    ensures And(x, 2 * m - 1) == x
  {
    assert (2 * m - 1) / 2 == m - 1 && (2 * m - 1) % 2 == 1;
    AndHalves(x, 2 * m - 1);
  }

  lemma {:induction false} HalfBelow(x: nat, k: nat)
    requires k > 0 && x < Pow2(k)
    ensures x / 2 < Pow2(k - 1)
  {}

  /** Masking with w ones keeps a w-bit number. */
  lemma {:induction false} AndOnes(x: nat, w: nat)
    requires x < Pow2(w)
    ensures And(x, Pow2(w) - 1) == x
  {
    if w > 0 {
      HalfBelow(x, w);
      AndOnes(x / 2, w - 1);
      AndOddMask(x, Pow2(w - 1));
    }
  }

  /** One bit at a time: how a statement about halves gives the statement about wholes. */
  lemma AndStep(a: nat, x: nat, b: nat, y: nat, c: nat)
    requires And(a + x / 2, b + y / 2) == c + And(x / 2, y / 2)
    ensures And(2 * a + x, 2 * b + y) == 2 * c + And(x, y)
  {
    assert (2 * a + x) / 2 == a + x / 2 && (2 * b + y) / 2 == b + y / 2;
    AndHalves(2 * a + x, 2 * b + y);
    AndHalves(x, y);
  }

  lemma OrStep(a: nat, x: nat, b: nat, y: nat, c: nat)
    requires Or(a + x / 2, b + y / 2) == c + Or(x / 2, y / 2)
    ensures Or(2 * a + x, 2 * b + y) == 2 * c + Or(x, y)
  {
    assert (2 * a + x) / 2 == a + x / 2 && (2 * b + y) / 2 == b + y / 2;
    OrHalves(2 * a + x, 2 * b + y);
    OrHalves(x, y);
  }

  /** And works separately on the bits above and below any cut. */
  lemma {:induction false} AndSplit(a: nat, x: nat, b: nat, y: nat, k: nat)
    requires x < Pow2(k) && y < Pow2(k)
    ensures And(Shl(a, k) + x, Shl(b, k) + y) == Shl(And(a, b), k) + And(x, y)
  {
    if k > 0 {
      HalfBelow(x, k);
      HalfBelow(y, k);
      AndSplit(a, x / 2, b, y / 2, k - 1);
      AndStep(Shl(a, k - 1), x, Shl(b, k - 1), y, Shl(And(a, b), k - 1));
    }
  }

  /** Or works separately on the bits above and below any cut. */
  lemma {:induction false} OrSplit(a: nat, x: nat, b: nat, y: nat, k: nat)
    requires x < Pow2(k) && y < Pow2(k)
    ensures Or(Shl(a, k) + x, Shl(b, k) + y) == Shl(Or(a, b), k) + Or(x, y)
  {
    if k > 0 {
      HalfBelow(x, k);
      HalfBelow(y, k);
      OrSplit(a, x / 2, b, y / 2, k - 1);
      OrStep(Shl(a, k - 1), x, Shl(b, k - 1), y, Shl(Or(a, b), k - 1));
    }
  }

  /** The part of a number above its k low bits. */
  function High(x: nat, k: nat): (q: nat)
    ensures x == q * Pow2(k) + x % Pow2(k) && 0 <= x % Pow2(k) < Pow2(k)
  {
    DivModForm(x, Pow2(k));
    NatQuotient(x, Pow2(k));
    x / Pow2(k)
  }

  /** Masking with w - k ones followed by k zeros clears the k low bits. */
  lemma {:induction false} AndHighMask(x: nat, w: nat, k: nat)
    requires k <= w && x < Pow2(w)
    ensures Pow2(k) <= Pow2(w)
    ensures And(x, Pow2(w) - Pow2(k)) == x - x % Pow2(k)
  {
    var q := High(x, k);
    var r := x - q * Pow2(k);
    Pow2Monotone(k, w);
    QuotientBound(x, w, k);
    AndSplit(q, r, Pow2(w - k) - 1, 0, k);
    AndOnes(q, w - k);
    AndZero(r);
    ShlIsProduct(q, k);
    ShlOnes(w, k);
  }

  lemma {:induction false} QuotientBound(x: nat, w: nat, k: nat)
    requires k <= w && x < Pow2(w)
    ensures High(x, k) < Pow2(w - k)
  {
    Pow2Add(w - k, k);
    var m, n, q := Pow2(k), Pow2(w - k), High(x, k);
    SmallQuotient(q, n, m);
  }

  lemma ShlOnes(w: nat, k: nat)
    requires k <= w
    ensures Shl(Pow2(w - k) - 1, k) == Pow2(w) - Pow2(k)
  {
    if k > 0 {
      ShlOnes(w - 1, k - 1);
    }
  }

  /** Masking with k ones keeps the remainder modulo 2^k. */
  lemma {:induction false} AndLowMask(x: nat, k: nat)
    ensures And(x, Pow2(k) - 1) == x % Pow2(k)
  {
    var q := High(x, k);
    var r := x - q * Pow2(k);
    AndSplit(q, r, 0, Pow2(k) - 1, k);
    AndZero(q);
    AndOnes(r, k);
    ShlIsProduct(q, k);
    ShlIsProduct(0, k);
  }

  lemma AndZero(x: nat)
    ensures And(x, 0) == 0
  {}

  lemma OrZero(a: nat)
    ensures Or(a, 0) == a && Or(0, a) == a
  {}

  lemma {:induction false} ShlZero(k: nat)
    ensures Shl(0, k) == 0
  {
    if k > 0 { ShlZero(k - 1); }
  }

  /** A shifted value and a value below the shift are joined without carries. */
  lemma {:induction false} OrJoins(a: nat, y: nat, k: nat)
    requires y < Pow2(k)
    ensures Or(Shl(a, k), y) == a * Pow2(k) + y
  {
    ShlIsProduct(a, k);
    ShlZero(k);
    OrSplit(a, 0, 0, y, k);
    OrZero(a);
    OrZero(y);
  }

  // ---------------------------------------------------------------- exclusive or

  lemma XorBasics(a: nat)
    ensures Xor(a, 0) == a && Xor(0, a) == a && Xor(a, a) == 0
  {}

  lemma {:induction a, b} XorCommutes(a: nat, b: nat)
    ensures Xor(a, b) == Xor(b, a)
    decreases a + b
  {}

  lemma {:induction false} XorAssociates(a: nat, b: nat, c: nat)
    ensures Xor(Xor(a, b), c) == Xor(a, Xor(b, c))
    decreases a + b + c
  {
    if a + b + c > 0 {
      XorAssociates(a / 2, b / 2, c / 2);
      XorHalves(a, b);
      XorHalves(b, c);
    }
  }

  lemma XorHalves(a: nat, b: nat)
    ensures Xor(a, b) / 2 == Xor(a / 2, b / 2)
    ensures Xor(a, b) % 2 == (if a % 2 != b % 2 then 1 else 0)
  {}

  /** Bit k of a number. */
  predicate Bit(a: nat, k: nat) { a / Pow2(k) % 2 == 1 }

  lemma BitOfHalf(a: nat, k: nat)
    ensures a / 2 >= 0 && (Bit(a, k + 1) <==> Bit(a / 2, k))
  {
    DivDiv(a, Pow2(k), 2);
  }

  /** Exclusive or, seen on each bit alone. */
  lemma {:induction false} XorBit(a: nat, b: nat, k: nat)
    ensures Bit(Xor(a, b), k) <==> Bit(a, k) != Bit(b, k)
  {
    XorHalves(a, b);
    if k > 0 {
      XorBit(a / 2, b / 2, k - 1);
      BitOfHalf(Xor(a, b), k - 1);
      BitOfHalf(a, k - 1);
      BitOfHalf(b, k - 1);
    }
  }

  lemma {:induction false} XorBound(a: nat, b: nat, k: nat)
    requires a < Pow2(k) && b < Pow2(k)
    ensures Xor(a, b) < Pow2(k)
  {
    if k > 0 { XorBound(a / 2, b / 2, k - 1); }
  }
}
