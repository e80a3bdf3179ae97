/** The curve that XEdDSA signs on, as an abstract group with Edwards coordinates, and the
    clamping and point encoding that the repository does itself. */
module Curve {
  import opened Bits
  import opened Bytes
  import opened Wrappers
  import Field

  type Digest = b: seq<Byte> | |b| == 64 witness seq(64, _ => 0)
  type Key = b: seq<Byte> | |b| == 32 witness seq(32, _ => 0)

  /** 2^255, the weight of the top bit of a 32-byte number. */
  const HALF: nat := 0x8000000000000000000000000000000000000000000000000000000000000000

  /** 2^252 + 27742317777372353535851937790883648493, the order of the base point. */
  const BASE_ORDER := 0x1000000000000000000000000000000014def9dea2f79cd65812631a5cf5d3ed

  /** What the library supplies: field size and inverse, group operations, coordinates, point
      decoding (section 5.1.3 of RFC 8032) and SHA-512. */
  datatype Curve<!Point(!new)> = Curve(
    p: int,
    inv: int -> int,
    plus: (Point, Point) -> Point,
    negate: Point -> Point,
    zero: Point,
    base: Point,
    order: int,
    x: Point -> int,
    y: Point -> int,
    decode: seq<Byte> -> Option<Point>,
    sha512: seq<Byte> -> Digest)

  function Plus<Point(!new)>(c: Curve<Point>, a: Point, b: Point): Point { c.plus(a, b) }
  function Minus<Point(!new)>(c: Curve<Point>, a: Point): Point { c.negate(a) }

  function Times<Point(!new)>(c: Curve<Point>, n: nat, a: Point): Point {
    if n == 0 then c.zero else Plus(c, a, Times(c, n - 1, a))
  }

  ghost predicate Associates<Point(!new)>(c: Curve<Point>, a: Point, b: Point, d: Point) {
    Plus(c, Plus(c, a, b), d) == Plus(c, a, Plus(c, b, d))
  }

  ghost predicate Commutes<Point(!new)>(c: Curve<Point>, a: Point, b: Point) {
    Plus(c, a, b) == Plus(c, b, a)
  }

  /** A commutative group in which the base point has the stated order. */
  ghost predicate GroupLaws<Point(!new)>(c: Curve<Point>) {
    && (forall a, b, d :: Associates(c, a, b, d))
    && (forall a, b :: Commutes(c, a, b))
    && (forall a :: Plus(c, c.zero, a) == a)
    && (forall a :: Plus(c, Minus(c, a), a) == c.zero)
    && c.order > 0 && Times(c, c.order, c.base) == c.zero
    && (forall n: nat :: 0 < n < c.order ==> Times(c, n, c.base) != c.zero)
  }

  /** Edwards coordinates over an odd prime field below 2^255: negation flips x and keeps y, only
      the neutral point has y = 1, and decoding recovers every encoded point. */
  ghost predicate CoordinateLaws<Point(!new)>(c: Curve<Point>) {
    && 2 < c.p <= HALF && c.p % 2 == 1 && Field.Inverts(c.p, c.inv)
    && (forall a :: 0 <= c.x(a) < c.p && 0 <= c.y(a) < c.p)
    && (forall a {:trigger Minus(c, a)} :: c.y(Minus(c, a)) == c.y(a))
    && (forall a {:trigger Minus(c, a)} :: c.x(Minus(c, a)) == if c.x(a) == 0 then 0 else c.p - c.x(a))
    && (forall a :: c.y(a) == 1 ==> a == c.zero)
    && (forall a :: c.decode(EncodePoint(c, a)) == Some(a))
  }

  /** Section 5.1.2 of RFC 8032: y, with the low bit of x on top. */
  function EncodePoint<Point(!new)>(c: Curve<Point>, a: Point): Key {
    LittleEndian(Natural(c.y(a)) + if c.x(a) % 2 == 1 then HALF else 0, 32)
  }

  function Natural(v: int): nat { if v < 0 then 0 else v }

  // ---------------------------------------------------------------- group consequences

  lemma MinusUnique<Point(!new)>(c: Curve<Point>, a: Point, b: Point)
    requires GroupLaws(c) && Plus(c, a, b) == c.zero
    ensures a == Minus(c, b)
  {
    var m := Minus(c, b);
    assert Commutes(c, m, b) && Commutes(c, c.zero, a) && Commutes(c, c.zero, m);
    assert Associates(c, a, b, m);
  }

  lemma MinusPlus<Point(!new)>(c: Curve<Point>, a: Point, b: Point)
    requires GroupLaws(c)
    ensures Minus(c, Plus(c, a, b)) == Plus(c, Minus(c, a), Minus(c, b))
  {
    var m, n := Minus(c, a), Minus(c, b);
    // (m + n) + (b + a) = m + (n + (b + a)) = m + ((n + b) + a) = m + a = 0
    assert Associates(c, m, n, Plus(c, b, a)) && Associates(c, n, b, a) && Commutes(c, a, b);
    MinusUnique(c, Plus(c, m, n), Plus(c, a, b));
  }

  lemma {:induction false} TimesAdd<Point(!new)>(c: Curve<Point>, n: nat, m: nat, a: Point)
    requires GroupLaws(c)
    ensures Times(c, n + m, a) == Plus(c, Times(c, n, a), Times(c, m, a))
  {
    if n > 0 {
      TimesAdd(c, n - 1, m, a);
      assert Associates(c, a, Times(c, n - 1, a), Times(c, m, a));
      assert n - 1 + m == n + m - 1;
    }
  }

  lemma {:induction false} TimesTimes<Point(!new)>(c: Curve<Point>, n: nat, m: nat, a: Point)
    requires GroupLaws(c)
    ensures n * m >= 0 && Times(c, n * m, a) == Times(c, n, Times(c, m, a))
  {
    if n > 0 {
      TimesTimes(c, n - 1, m, a);
      assert n * m == m + (n - 1) * m;
      TimesAdd(c, m, (n - 1) * m, a);
    }
  }

  lemma {:induction false} TimesMinus<Point(!new)>(c: Curve<Point>, n: nat, a: Point)
    requires GroupLaws(c)
    ensures Times(c, n, Minus(c, a)) == Minus(c, Times(c, n, a))
  {
    if n == 0 {
      MinusUnique(c, c.zero, c.zero);
    } else {
      TimesMinus(c, n - 1, a);
      MinusPlus(c, a, Times(c, n - 1, a));
    }
  }

  lemma {:induction false} TimesZero<Point(!new)>(c: Curve<Point>, n: nat)
    requires GroupLaws(c)
    ensures Times(c, n, c.zero) == c.zero
  {
    if n > 0 { TimesZero(c, n - 1); }
  }

  /** Scalars count only modulo the order of the base point. */
  lemma TimesReduced<Point(!new)>(c: Curve<Point>, n: nat)
    requires GroupLaws(c)
    ensures Times(c, Field.Reduce(c.order, n), c.base) == Times(c, n, c.base)
  {
    var q := Field.Quotient(c.order, n);
    var r := Field.Reduce(c.order, n);
    TimesTimes(c, q, c.order, c.base);
    TimesZero(c, q);
    TimesAdd(c, q * c.order, r, c.base);
  }

  /** A multiple of the base point is neutral only for multiples of the order. */
  lemma NeutralMultiple<Point(!new)>(c: Curve<Point>, n: nat)
    requires GroupLaws(c)
    ensures Times(c, n, c.base) == c.zero <==> Field.Reduce(c.order, n) == 0
  {
    TimesReduced(c, n);
  }

  /** The scalar negated modulo the order gives the opposite point. */
  lemma TimesNegated<Point(!new)>(c: Curve<Point>, n: nat)
    requires GroupLaws(c) && n <= c.order
    ensures Times(c, Field.Reduce(c.order, c.order - n), c.base) == Minus(c, Times(c, n, c.base))
  {
    TimesReduced(c, c.order - n);
    TimesAdd(c, c.order - n, n, c.base);
    MinusUnique(c, Times(c, c.order - n, c.base), Times(c, n, c.base));
  }

  // ---------------------------------------------------------------- sign bits

  lemma {:induction false} TopByte(v: nat)
    requires v < 2 * HALF
    ensures LittleEndian(v, 32)[31] >= 128 <==> v >= HALF
    ensures LittleValue(LittleEndian(v, 32)) == v
  {
    Pow256At31();
    TopByteAt(v, 31, LittleEndian(v, 32));
  }

  lemma {:induction false} TopByteAt(v: nat, n: nat, b: seq<Byte>)
    requires b == LittleEndian(v, n + 1) && v < 256 * Pow256(n)
    ensures b[n] >= 128 <==> v >= 128 * Pow256(n)
    ensures LittleValue(b) == v
  {
    LittleRoundTrip(v, n + 1);
    assert b == b[..n] + [b[n]];
    LastByte(b[..n], b[n]);
    TopDigit(v, Pow256(n), LittleValue(b[..n]), b[n]);
  }

  lemma TopDigit(v: int, m: int, low: int, top: int)
    requires 0 <= low < m && v == low + m * top
    ensures v >= 128 * m <==> top >= 128
  {
    if top >= 128 { NonNegativeProduct(m, top - 128); } else { NonNegativeProduct(m, 127 - top); }
  }

  lemma HighBit(b: Byte)
    ensures And(b, 0x80) == if b >= 128 then 128 else 0
    ensures And(b, 0x7F) == if b >= 128 then b - 128 else b
  {
    Pow2Values();
    AndHighMask(b, 8, 7);
    AndLowMask(b, 7);
  }

  /** The bit the signer tests is the low bit of x. */
  lemma SignBit<Point(!new)>(c: Curve<Point>, a: Point)
    requires CoordinateLaws(c)
    ensures And(EncodePoint(c, a)[31], 0x80) != 0 <==> c.x(a) % 2 == 1
  {
    YFits(c, a);
    SignBitOf(c, a);
  }

  lemma SignBitOf<Point(!new)>(c: Curve<Point>, a: Point)
    requires 0 <= c.y(a) < HALF
    ensures And(EncodePoint(c, a)[31], 0x80) != 0 <==> c.x(a) % 2 == 1
  {
    SignedEncoding(c.y(a), c.x(a) % 2 == 1);
    EncodedY(c, a);
  }

  lemma YFits<Point(!new)>(c: Curve<Point>, a: Point)
    requires CoordinateLaws(c)
    ensures 0 <= c.y(a) < HALF
  {}

  lemma EncodedY<Point(!new)>(c: Curve<Point>, a: Point)
    requires 0 <= c.y(a)
    ensures EncodePoint(c, a) == LittleEndian(c.y(a) + if c.x(a) % 2 == 1 then HALF else 0, 32)
  {}

  /** Section 5.1.2 of RFC 8032 on numbers: the sign goes into the top bit. */
  lemma SignedEncoding(y: nat, odd: bool)
    requires y < HALF
    ensures And(LittleEndian(y + if odd then HALF else 0, 32)[31], 0x80) != 0 <==> odd
  {
    var v := y + if odd then HALF else 0;
    TopByte(v);
    HighBit(LittleEndian(v, 32)[31]);
  }

  /** Of a point and its opposite, the one that follows a set sign bit has it clear: one negation
      is always enough. */
  lemma OneNegationSuffices<Point(!new)>(c: Curve<Point>, a: Point)
    requires CoordinateLaws(c) && And(EncodePoint(c, a)[31], 0x80) != 0
    ensures And(EncodePoint(c, Minus(c, a))[31], 0x80) == 0
  {
    SignBit(c, a);
    OppositeSigns(c, a);
    SignBit(c, Minus(c, a));
  }

  lemma OppositeSigns<Point(!new)>(c: Curve<Point>, a: Point)
    requires CoordinateLaws(c) && c.x(a) % 2 == 1
    ensures c.x(Minus(c, a)) % 2 == 0
  {
    var b := Minus(c, a);
    assert c.x(b) == c.p - c.x(a);
  }

  // ---------------------------------------------------------------- clamping

  predicate IsClamped(k: Key) { k[0] % 8 == 0 && 64 <= k[31] < 128 }

  /** Clear the three low bits and the top bit, set the bit below it. */
  function Clamp(seed: Key): (k: Key)
    ensures IsClamped(k) && (IsClamped(seed) ==> k == seed)
    ensures forall i :: 1 <= i < 31 ==> k[i] == seed[i]
  {
    var low, high := ClampLow(seed[0]), ClampHigh(seed[31]);
    seed[0 := low][31 := high]
  }

  /** Which number each byte of a clamped key is. */
  lemma ClampBytes(seed: Key, i: nat)
    requires i < 32
    ensures Clamp(seed)[i]
         == if i == 0 then seed[0] - seed[0] % 8 else if i == 31 then 64 + seed[31] % 64 else seed[i]
  {}

  function ClampLow(b: Byte): (r: Byte)
    ensures r == b - b % 8
  {
    Pow2Values();
    AndHighMask(b, 8, 3);
    And(b, 0xF8)
  }

  function ClampHigh(b: Byte): (r: Byte)
    ensures r == b % 64 + 64
  {
    HighBit(b);
    OrWith64(And(b, 0x7F));
    Low6(b, And(b, 0x7F));
    Or(And(b, 0x7F), 0x40)
  }

  lemma Low6(b: Byte, v: nat)
    requires v == if b >= 128 then b - 128 else b
    ensures v < 128 && v % 64 == b % 64
  {}

  lemma OrWith64(v: nat)
    requires v < 128
    ensures Or(v, 64) == v % 64 + 64
  {
    OrWith64At(v, v / 64, v % 64);
  }

  lemma OrWith64At(v: nat, h: nat, low: nat)
    requires h <= 1 && low < 64 && v == h * 64 + low
    ensures Or(v, 64) == low + 64
  {
    OrBit6(h, low);
  }

  lemma OrBit6(h: nat, low: nat)
    requires h <= 1 && low < 64
    ensures Or(h * 64 + low, 64) == low + 64
  {
    Pow2Values();
    OrSplit(h, low, 1, 0, 6);
    ShlIsProduct(h, 6);
    ShlIsProduct(1, 6);
    OrZero(low);
    OrOne(h);
  }

  lemma OrOne(h: nat)
    requires h <= 1
    ensures Or(h, 1) == 1
  {
    OrZero(1);
  }

  /** The top byte of a clamped key fixes the number's range. */
  lemma {:induction false} ClampedRange(k: Key)
    requires IsClamped(k)
    ensures 64 * Pow256(31) <= LittleValue(k) < 128 * Pow256(31)
  {
    assert k == k[..31] + [k[31]];
    TopByteRange(k[..31], k[31], 31);
  }

  lemma {:induction false} TopByteRange(front: seq<Byte>, top: Byte, n: nat)
    requires |front| == n && 64 <= top < 128
    ensures 64 * Pow256(n) <= LittleValue(front + [top]) < 128 * Pow256(n)
  {
    LastByte(front, top);
    TopRange(LittleValue(front + [top]), Pow256(n), LittleValue(front), top);
  }

  lemma {:induction false} LastByte(front: seq<Byte>, top: Byte)
    ensures LittleValue(front) < Pow256(|front|)
    ensures LittleValue(front + [top]) == LittleValue(front) + Pow256(|front|) * top
  {
    LittleSplit(front, [top]);
    LittleInverse(front);
    assert LittleValue([top]) == top;
  }

  lemma {:induction false} ClampedMultiple(k: Key)
    requires IsClamped(k)
    ensures LittleValue(k) % 8 == 0
  {
    assert LittleValue(k) == k[0] + 256 * LittleValue(k[1..]);
  }

  lemma TopRange(v: int, m: int, low: int, top: int)
    requires 0 <= low < m && v == low + m * top && 64 <= top < 128
    ensures 64 * m <= v < 128 * m
  {
    NonNegativeProduct(m, top - 64);
    NonNegativeProduct(m, 127 - top);
  }

  lemma {:induction false} Pow256Add(a: nat, b: nat)
    ensures Pow256(a + b) == Pow256(a) * Pow256(b)
  {
    if a > 0 {
      Pow256Add(a - 1, b);
      MulAssociates(256, Pow256(a - 1), Pow256(b));
    }
  }

  lemma Pow256At31()
    ensures Pow256(31) == 0x100000000000000000000000000000000000000000000000000000000000000
  {
    Pow256Add(15, 15);
    assert Pow256(15) == 0x1000000000000000000000000000000;
    assert Pow256(31) == 256 * Pow256(30);
  }

  /** No clamped scalar is a multiple of the group order, so no identity maps to the neutral point. */
  lemma ClampedScalarIsNotZero(k: Key)
    requires IsClamped(k)
    ensures Field.Reduce(BASE_ORDER, LittleValue(k)) != 0
  {
    Pow256At31();
    ClampedRange(k);
    ClampedMultiple(k);
    NotAMultiple(LittleValue(k));
  }

  lemma NotAMultiple(v: int)
    requires v % 8 == 0
    requires 0x4000000000000000000000000000000000000000000000000000000000000000 <= v
    requires v < 0x8000000000000000000000000000000000000000000000000000000000000000
    ensures v % BASE_ORDER != 0
  {
    var q := v / BASE_ORDER;
    assert 0 < q < 8;
    assert v == q * BASE_ORDER + v % BASE_ORDER;
  }
}
