/** Byte strings and their fixed-width integer encodings. */
module Bytes {
  import opened Bits

  type Byte = x: int | 0 <= x < 256
  type Uint32 = x: int | 0 <= x < 0x1_0000_0000
  type Int32 = x: int | -0x8000_0000 <= x < 0x8000_0000

  /** Go's conversions between int32 and uint32, and uint32 wrap-around. */
  function Unsigned(c: Int32): Uint32 { if c < 0 then c + 0x1_0000_0000 else c }
  function Signed(u: Uint32): Int32 { if u >= 0x8000_0000 then u - 0x1_0000_0000 else u }
  function Wrap(x: nat): Uint32 { x % 0x1_0000_0000 }

  /** The number of values of n bytes. */
  function Pow256(n: nat): (r: nat)
    ensures r >= 1
  {
    if n == 0 then 1 else 256 * Pow256(n - 1)
  }

  function LittleEndian(v: nat, n: nat): (b: seq<Byte>)
    ensures |b| == n
  {
    if n == 0 then [] else [v % 256] + LittleEndian(v / 256, n - 1)
  }

  function LittleValue(b: seq<Byte>): nat {
    if b == [] then 0 else b[0] + 256 * LittleValue(b[1..])
  }

  function BigEndian(v: nat, n: nat): (b: seq<Byte>)
    ensures |b| == n
  {
    if n == 0 then [] else BigEndian(v / 256, n - 1) + [v % 256]
  }

  function BigValue(b: seq<Byte>): nat {
    if b == [] then 0 else 256 * BigValue(b[..|b| - 1]) + b[|b| - 1]
  }

  lemma Digit(d: Byte, v: nat)
    ensures (d + 256 * v) % 256 == d && (d + 256 * v) / 256 == v
  {}

  lemma {:induction false} LittleRoundTrip(v: nat, n: nat)
    requires v < Pow256(n)
    ensures LittleValue(LittleEndian(v, n)) == v
  {
    if n > 0 {
      LittleRoundTrip(v / 256, n - 1);
      assert LittleEndian(v, n)[1..] == LittleEndian(v / 256, n - 1);
    }
  }

  lemma {:induction false} LittleInverse(b: seq<Byte>)
    ensures LittleEndian(LittleValue(b), |b|) == b
    ensures LittleValue(b) < Pow256(|b|)
  {
    if b != [] {
      LittleInverse(b[1..]);
      Digit(b[0], LittleValue(b[1..]));
      assert LittleValue(b) == b[0] + 256 * LittleValue(b[1..]);
    }
  }

  /** Different values below 256^n have different n-byte encodings. */
  lemma LittleInjective(v: nat, w: nat, n: nat)
    requires v < Pow256(n) && w < Pow256(n)
    ensures LittleEndian(v, n) == LittleEndian(w, n) <==> v == w
  {
    LittleRoundTrip(v, n);
    LittleRoundTrip(w, n);
  }

  lemma {:induction false} LittleSplit(a: seq<Byte>, b: seq<Byte>)
    ensures LittleValue(a + b) == LittleValue(a) + Pow256(|a|) * LittleValue(b)
  {
    if a == [] {
      assert a + b == b;
    } else {
      LittleSplit(a[1..], b);
      assert (a + b)[1..] == a[1..] + b;
      MulAssociates(256, Pow256(|a| - 1), LittleValue(b));
    }
  }

  lemma {:induction false} BigRoundTrip(v: nat, n: nat)
    requires v < Pow256(n)
    ensures BigValue(BigEndian(v, n)) == v
  {
    if n > 0 {
      BigRoundTrip(v / 256, n - 1);
      assert BigEndian(v, n)[..n - 1] == BigEndian(v / 256, n - 1);
    }
  }

  lemma {:induction false} BigInverse(b: seq<Byte>)
    ensures BigEndian(BigValue(b), |b|) == b
    ensures BigValue(b) < Pow256(|b|)
  {
    if b != [] {
      BigInverse(b[..|b| - 1]);
      Digit(b[|b| - 1], BigValue(b[..|b| - 1]));
    }
  }

  lemma BigAppend(b: seq<Byte>, x: Byte)
    ensures BigValue(b + [x]) == 256 * BigValue(b) + x
  {
    assert (b + [x])[..|b|] == b;
  }

  lemma {:induction false} BigSplit(a: seq<Byte>, b: seq<Byte>)
    ensures BigValue(a + b) == BigValue(a) * Pow256(|b|) + BigValue(b)
  {
    if b == [] {
      assert a + b == a;
    } else {
      var front, x := b[..|b| - 1], b[|b| - 1];
      BigSplit(a, front);
      assert b == front + [x] && a + b == a + front + [x];
      BigAppend(a + front, x);
      BigAppend(front, x);
      ScaleProduct(BigValue(a), Pow256(|front|));
      assert Pow256(|b|) == 256 * Pow256(|front|);
    }
  }

  lemma ScaleProduct(a: int, m: int)
    ensures 256 * (a * m) == a * (256 * m)
  {}

  /** Bytes beyond the width of a value are zero. */
  lemma {:induction false} LittlePadded(v: nat, n: nat, m: nat)
    requires v < Pow256(n)
    ensures LittleEndian(v, n + m) == LittleEndian(v, n) + LittleEndian(0, m)
  {
    if n == 0 {
      assert LittleEndian(v, n) == [];
    } else {
      LittlePadded(v / 256, n - 1, m);
    }
  }

  lemma Uint32Width()
    ensures Pow256(4) == 0x1_0000_0000
  {}
}
