/** Arithmetic modulo an odd number p, as far as the birational map of RFC 7748 needs it. */
module Field {
  import opened Bits

  function Reduce(p: int, a: int): (r: nat)
    requires p > 0
    ensures r < p
  {
    a % p
  }

  function Add(p: int, a: int, b: int): (r: nat) requires p > 0 ensures r < p { Reduce(p, a + b) }
  function Subtract(p: int, a: int, b: int): (r: nat) requires p > 0 ensures r < p { Reduce(p, a - b) }
  function Multiply(p: int, a: int, b: int): (r: nat) requires p > 0 ensures r < p { Reduce(p, a * b) }

  /** `inv` inverts every element but zero. */
  ghost predicate Inverts(p: int, inv: int -> int)
    requires p > 0
  {
    forall a: int :: 0 < a < p ==> Multiply(p, a, inv(a)) == 1
  }

  /** Section 4.1 of RFC 7748: the u coordinate of the point with Edwards coordinate y. */
  function MontgomeryU(p: int, inv: int -> int, y: int): (u: nat)
    requires p > 0
    ensures u < p
  {
    Multiply(p, Add(p, 1, y), inv(Subtract(p, 1, y)))
  }

  /** Section 4.1 of RFC 7748, the other way. */
  function EdwardsY(p: int, inv: int -> int, u: int): (y: nat)
    requires p > 0
    ensures y < p
  {
    Multiply(p, Subtract(p, u, 1), inv(Add(p, u, 1)))
  }

  lemma Congruent(p: int, a: int, r: int, k: int)
    requires 0 <= r < p && a == r + k * p
    ensures Reduce(p, a) == r
  {
    DivModUnique(a, p, k, r);
  }

  lemma Quotient(p: int, a: int) returns (k: int)
    requires p > 0
    ensures a == Reduce(p, a) + k * p
    ensures a >= 0 ==> k >= 0
  {
    k := a / p;
    if a >= 0 { NatQuotient(a, p); }
    DivModForm(a, p);
  }

  lemma Distribute(a: int, b: int, k: int, p: int)
    ensures a * (b + k * p) == a * b + (a * k) * p
  {
    MulAssociates(a, k, p);
  }

  lemma Collect(a: int, b: int, p: int)
    ensures a * p + b * p == (a + b) * p && a * p - b * p == (a - b) * p
  {}

  /** u(1 - y) is congruent to 1 + y: the map without its division, rearranged. */
  lemma CrossMultiplied(p: int, inv: int -> int, y: int) returns (k: int)
    requires p > 2 && Inverts(p, inv) && 0 <= y < p && y != 1
    ensures MontgomeryU(p, inv, y) - 1 == y * (MontgomeryU(p, inv, y) + 1) + k * p
  {
    var z, n, u := Subtract(p, 1, y), Add(p, 1, y), MontgomeryU(p, inv, y);
    var w := inv(z);
    assert z != 0 by {
      if y == 0 { Congruent(p, 1, 1, 0); } else { Congruent(p, 1 - y, p + 1 - y, -1); }
    }
    var k1 := Quotient(p, z * w);
    var k2 := Quotient(p, n * w);
    var k3 := Quotient(p, 1 - y);
    var k4 := Quotient(p, 1 + y);
    k := Combine(p, u, n, w, z, y, k1, k2, k3, k4);
  }

  lemma Combine(p: int, u: int, n: int, w: int, z: int, y: int, k1: int, k2: int, k3: int, k4: int) returns (k: int)
    requires z * w == 1 + k1 * p && n * w == u + k2 * p && 1 - y == z + k3 * p && 1 + y == n + k4 * p
    ensures u - 1 == y * (u + 1) + k * p
  {
    // u (1 - y) = u z + u k3 p = n + (e + u k3) p
    var e := CombineProducts(p, u, n, w, z, k1, k2);
    Distribute(u, z, k3, p);
    Collect(e, u * k3, p);
    Collect(e + u * k3, k4, p);
    ExpandOneMinus(u, y);
    k := e + u * k3 - k4;
    Gather(u, y, n, u * (1 - y), u * z, e * p, (u * k3) * p, k4 * p, (e + u * k3) * p, k * p, y * u, y * (u + 1));
  }

  /** The linear end of the computation, with every product under a name of its own. */
  lemma Gather(u: int, y: int, n: int, uy1: int, uz: int, ep: int, uk3p: int, k4p: int, both: int, kp: int,
               yu: int, yu1: int)
    requires uy1 == uz + uk3p && uz == n + ep && 1 + y == n + k4p
    requires ep + uk3p == both && both - k4p == kp
    requires uy1 == u - yu && yu1 == yu + y
    ensures u - 1 == yu1 + kp
  {}

  lemma CombineProducts(p: int, u: int, n: int, w: int, z: int, k1: int, k2: int) returns (e: int)
    requires z * w == 1 + k1 * p && n * w == u + k2 * p
    ensures u * z == n + e * p
  {
    // u z = n w z - k2 z p = n + (n k1 - z k2) p
    Distribute(n, 1, k1, p);
    Distribute(z, u, k2, p);
    Rotate(z, n, w);
    Collect(n * k1, z * k2, p);
    e := n * k1 - z * k2;
  }

  /** The verifier's map undoes the key exchange's map everywhere but at the neutral point. */
  lemma MapsBack(p: int, inv: int -> int, y: int)
    requires p > 2 && Inverts(p, inv) && 0 <= y < p && y != 1
    ensures EdwardsY(p, inv, MontgomeryU(p, inv, y)) == y
  {
    var u := MontgomeryU(p, inv, y);
    var e := CrossMultiplied(p, inv, y);
    MapsBackFrom(p, inv, u, y, e);
  }

  lemma MapsBackFrom(p: int, inv: int -> int, u: int, y: int, e: int)
    requires p > 2 && Inverts(p, inv) && 0 <= y < p && u - 1 == y * (u + 1) + e * p
    ensures EdwardsY(p, inv, u) == y
  {
    MinusOneAvoided(p, u, y, e);
    var d, n, t := Add(p, u, 1), Subtract(p, u, 1), inv(Add(p, u, 1));
    var kd := Quotient(p, u + 1);
    var kn := Quotient(p, u - 1);
    var k := Quotient(p, d * t);
    CombineBack(p, u, y, e, d, n, t, kd, kn, k);
  }

  lemma CombineBack(p: int, u: int, y: int, e: int, d: int, n: int, t: int, kd: int, kn: int, k: int)
    requires 0 <= y < p && u - 1 == y * (u + 1) + e * p
    requires u + 1 == d + kd * p && u - 1 == n + kn * p && d * t == 1 + k * p
    ensures Multiply(p, n, t) == y
  {
    // n t = (y d + f p) t = y (d t) + t f p = y + (y k + t f) p
    var f := y * kd + e - kn;
    Distribute(y, d, kd, p);
    Collect(y * kd, e, p);
    Collect(y * kd + e, kn, p);
    assert n == y * d + f * p;
    Distribute(t, y * d, f, p);
    Rotate(t, y, d);
    Distribute(y, 1, k, p);
    Collect(y * k, t * f, p);
    Rotate(1, t, n);
    Congruent(p, n * t, y, y * k + t * f);
  }

  lemma Rotate(a: int, b: int, c: int)
    ensures a * (b * c) == b * (c * a)
  {}

  lemma ExpandOneMinus(u: int, y: int)
    ensures u * (1 - y) == u - y * u && y * (u + 1) == y * u + y
  {}

  lemma MinusOneAvoided(p: int, u: int, y: int, e: int)
    requires p > 2 && u - 1 == y * (u + 1) + e * p
    ensures Add(p, u, 1) != 0
  {
    var kd := Quotient(p, u + 1);
    if Add(p, u, 1) == 0 {
      MulAssociates(y, kd, p);
      Collect(y * kd, e, p);
      Collect(y * kd + e, kd, p);
      SmallMultiple(y * kd + e - kd, p);
    }
  }
}
