/** XEdDSA signatures (core/crypto/xeddsa.go): one X25519 identity key both signs and is
    recognised by verifiers that only hold its public u coordinate. */
module XEdDSA {
  import opened Bits
  import opened Bytes
  import opened Curve
  import opened Wrappers
  import Field
  import Nonce

  /** edwards25519: the group and coordinate laws, with the base point's known order. */
  ghost predicate Edwards25519<Point(!new)>(c: Curve<Point>) {
    GroupLaws(c) && CoordinateLaws(c) && c.order == BASE_ORDER
  }

  datatype Failure = InvalidKeyLength | BadRandomness
  datatype Result<+T> = Ok(value: T) | Err(why: Failure)

  datatype SigningKey = SigningKey(scalar: nat, scalarBytes: Key, publicKey: Key)

  // ---------------------------------------------------------------- key derivation

  function DerivedKey<Point(!new)>(c: Curve<Point>, priv: Key): SigningKey
    requires c.order > 0
  {
    SignCleared(c, Field.Reduce(c.order, LittleValue(Clamp(priv))), Clamp(priv))
  }

  /** The scalar a, or its negation when the sign bit of its point is set. */
  function SignCleared<Point(!new)>(c: Curve<Point>, a: nat, bytes: Key): SigningKey
    requires c.order > 0
  {
    var pub := EncodePoint(c, Times(c, a, c.base));
    if And(pub[31], 0x80) == 0 then
      SigningKey(a, bytes, pub)
    else
      var s := Field.Reduce(c.order, c.order - a);
      SigningKey(s, LittleEndian(s, 32), EncodePoint(c, Times(c, s, c.base)))
  }

  /** Clamps a copy of the key byte by byte and negates the scalar when the sign bit is set. */
  method DeriveEd25519Key<Point(!new)>(c: Curve<Point>, privateKey: Key) returns (k: SigningKey)
    requires c.order > 0
    ensures k == DerivedKey(c, privateKey)
  {
    var scalarBytes := new Byte[32](i requires 0 <= i < 32 => privateKey[i]);
    scalarBytes[0] := ClampLow(scalarBytes[0]);
    scalarBytes[31] := ClampHigh(scalarBytes[31]);
    assert scalarBytes[..] == Clamp(privateKey);
    var scalar := Field.Reduce(c.order, LittleValue(scalarBytes[..]));
    var publicKey := EncodePoint(c, Times(c, scalar, c.base));
    if And(publicKey[31], 0x80) != 0 {
      scalar := Field.Reduce(c.order, c.order - scalar);
      publicKey := EncodePoint(c, Times(c, scalar, c.base));
      k := SigningKey(scalar, LittleEndian(scalar, 32), publicKey);
    } else {
      k := SigningKey(scalar, scalarBytes[..], publicKey);
    }
  }

  /** The point of an X25519 identity: its clamped private scalar times the base point. */
  function IdentityPoint<Point(!new)>(c: Curve<Point>, priv: Key): Point {
    Times(c, LittleValue(Clamp(priv)), c.base)
  }

  /** The signing point is the identity point or its opposite, and always has a clear sign bit. */
  lemma DerivedPoint<Point(!new)>(c: Curve<Point>, priv: Key)
    requires Edwards25519(c)
    ensures var k := DerivedKey(c, priv); var a := Times(c, k.scalar, c.base);
            && k.scalar < c.order
            && k.publicKey == EncodePoint(c, a) && And(k.publicKey[31], 0x80) == 0
            && (a == IdentityPoint(c, priv) || a == Minus(c, IdentityPoint(c, priv)))
  {
    var a := Field.Reduce(c.order, LittleValue(Clamp(priv)));
    TimesReduced(c, LittleValue(Clamp(priv)));
    TimesNegated(c, a);
    if And(EncodePoint(c, Times(c, a, c.base))[31], 0x80) != 0 {
      OneNegationSuffices(c, Times(c, a, c.base));
    }
  }

  /** The identity point is never neutral, so the birational map is defined at it. */
  lemma IdentityIsNotNeutral<Point(!new)>(c: Curve<Point>, priv: Key)
    requires Edwards25519(c)
    ensures c.y(IdentityPoint(c, priv)) != 1
  {
    ClampedScalarIsNotZero(Clamp(priv));
    NeutralMultiple(c, LittleValue(Clamp(priv)));
  }

  // ---------------------------------------------------------------- public keys

  /** X25519 of the private key and the base point: the u coordinate of the identity point. */
  function X25519Public<Point(!new)>(c: Curve<Point>, priv: Key): Key
    requires c.p > 0
  {
    LittleEndian(Field.MontgomeryU(c.p, c.inv, c.y(IdentityPoint(c, priv))), 32)
  }

  function PublicKeyFromPrivate<Point(!new)>(c: Curve<Point>, priv: seq<Byte>): Result<Key>
    requires c.p > 0
  {
    if |priv| != 32 then Err(InvalidKeyLength) else Ok(X25519Public(c, priv))
  }

  /** The field decoder ignores the top bit and reduces; the sign bit of the result is cleared. */
  function PublicKeyToEd25519<Point(!new)>(c: Curve<Point>, pub: seq<Byte>): Result<Key>
    requires c.p > 0
  {
    if |pub| != 32 then Err(InvalidKeyLength)
    else
      var u := Field.Reduce(c.p, LittleValue(pub[31 := ClearTop(pub[31])]));
      var y := LittleEndian(Field.EdwardsY(c.p, c.inv, u), 32);
      Ok(y[31 := ClearTop(y[31])])
  }

  function ClearTop(b: Byte): (r: Byte)
    ensures r == if b >= 128 then b - 128 else b
  {
    HighBit(b);
    And(b, 0x7F)
  }

  /** Numbers below 2^255 have nothing in the top bit to clear. */
  lemma TopIsClear(v: nat)
    requires v < HALF
    ensures LittleEndian(v, 32)[31] < 128 && LittleValue(LittleEndian(v, 32)) == v
  {
    TopByte(v);
  }

  lemma SignClearEncoding<Point(!new)>(c: Curve<Point>, a: Point)
    requires CoordinateLaws(c) && And(EncodePoint(c, a)[31], 0x80) == 0
    ensures EncodePoint(c, a) == LittleEndian(Natural(c.y(a)), 32)
  {
    SignBit(c, a);
  }

  /** The secret path and the public path land on the same Ed25519 key: what a verifier computes
      from the X25519 public key is exactly what the signer derived from the private key. */
  lemma KeysAgree<Point(!new)>(c: Curve<Point>, priv: Key)
    requires Edwards25519(c)
    ensures PublicKeyToEd25519(c, X25519Public(c, priv)) == Ok(DerivedKey(c, priv).publicKey)
  {
    IdentityIsNotNeutral(c, priv);
    DerivedPoint(c, priv);
    var id, a := IdentityPoint(c, priv), Times(c, DerivedKey(c, priv).scalar, c.base);
    SignClearEncoding(c, a);
    SameY(c, id, a);
    UnmapsPublic(c, c.y(id));
  }

  lemma SameY<Point(!new)>(c: Curve<Point>, id: Point, a: Point)
    requires CoordinateLaws(c) && (a == id || a == Minus(c, id))
    ensures 0 <= c.y(id) < c.p && c.y(a) == c.y(id)
  {}

  /** The converted key is the encoding of y with a clear sign bit. */
  lemma UnmapsPublic<Point(!new)>(c: Curve<Point>, y: int)
    requires 2 < c.p <= HALF && Field.Inverts(c.p, c.inv) && 0 <= y < c.p && y != 1
    ensures PublicKeyToEd25519(c, LittleEndian(Field.MontgomeryU(c.p, c.inv, y), 32)) == Ok(LittleEndian(y, 32))
  {
    var u := Field.MontgomeryU(c.p, c.inv, y);
    Field.MapsBack(c.p, c.inv, y);
    TopIsClear(u);
    TopIsClear(y);
    SmallReduce(c.p, u);
    ClearTopUnchanged(LittleEndian(u, 32));
    ClearTopUnchanged(LittleEndian(y, 32));
  }

  lemma ClearTopUnchanged(k: Key)
    requires k[31] < 128
    ensures k[31 := ClearTop(k[31])] == k
  {}

  lemma SmallReduce(p: int, a: int)
    requires 0 <= a < p
    ensures Field.Reduce(p, a) == a
  {
    Field.Congruent(p, a, a, 0);
  }

  // ---------------------------------------------------------------- signing and verifying

  function Challenge<Point(!new)>(c: Curve<Point>, r: seq<Byte>, pub: seq<Byte>, message: seq<Byte>): nat
    requires c.order > 0
  {
    Field.Reduce(c.order, LittleValue(c.sha512(r + pub + message)))
  }

  /** The nonce folds in a secret prefix, the message and fresh randomness. */
  function NonceScalar<Point(!new)>(c: Curve<Point>, key: SigningKey, message: seq<Byte>, random: seq<Byte>): nat
    requires c.order > 0
  {
    Field.Reduce(c.order, LittleValue(c.sha512(c.sha512(key.scalarBytes)[32..] + message + random)))
  }

  function SignXEdDSA<Point(!new)>(c: Curve<Point>, priv: seq<Byte>, message: seq<Byte>, random: seq<Byte>)
    : Result<seq<Byte>>
    requires c.order > 0
  {
    if |priv| != 32 then Err(InvalidKeyLength)
    else if |random| != 32 then Err(BadRandomness)
    else
      var key := DerivedKey(c, priv);
      var r := NonceScalar(c, key, message, random);
      var commitment := EncodePoint(c, Times(c, r, c.base));
      var k := Challenge(c, commitment, key.publicKey, message);
      Ok(commitment + LittleEndian(Field.Reduce(c.order, Product(k, key.scalar) + r), 32))
  }

  function Product(a: nat, b: nat): nat { a * b }

  /** crypto/ed25519.Verify, section 5.1.7 of RFC 8032: a canonical s, and [s]B - [k]A encodes to R. */
  predicate Ed25519Verify<Point(!new)>(c: Curve<Point>, pub: Key, message: seq<Byte>, signature: seq<Byte>)
    requires c.order > 0 && |signature| == 64
  {
    match c.decode(pub)
    case None => false
    case Some(a) =>
      var s := LittleValue(signature[32..]);
      var k := Challenge(c, signature[..32], pub, message);
      && s < c.order
      && EncodePoint(c, Plus(c, Times(c, k, Minus(c, a)), Times(c, s, c.base))) == signature[..32]
  }

  predicate VerifyXEdDSA<Point(!new)>(c: Curve<Point>, pub: seq<Byte>, message: seq<Byte>, signature: seq<Byte>)
    requires c.order > 0 && c.p > 0
  {
    && |signature| == 64
    && var ed := PublicKeyToEd25519(c, pub);
    && ed.Ok?
    && Ed25519Verify(c, ed.value, message, signature)
  }

  /** [k a + r]B - [k]([a]B) is [r]B. */
  lemma VerifyEquation<Point(!new)>(c: Curve<Point>, k: nat, a: nat, r: nat)
    requires GroupLaws(c)
    ensures var s := Field.Reduce(c.order, Product(k, a) + r);
            Plus(c, Times(c, k, Minus(c, Times(c, a, c.base))), Times(c, s, c.base)) == Times(c, r, c.base)
  {
    var pub, ka, nr := Times(c, a, c.base), Times(c, Product(k, a), c.base), Times(c, r, c.base);
    TimesReduced(c, Product(k, a) + r);
    TimesAdd(c, Product(k, a), r, c.base);
    TimesTimes(c, k, a, c.base);
    TimesMinus(c, k, pub);
    assert Associates(c, Minus(c, ka), ka, nr);
  }

  /** Every signature is accepted under the X25519 public key of the private key that made it,
      for every key, message and randomness. */
  lemma SignatureVerifies<Point(!new)>(c: Curve<Point>, priv: Key, message: seq<Byte>, random: seq<Byte>)
    requires Edwards25519(c) && |random| == 32
    ensures var sig := SignXEdDSA(c, priv, message, random);
            sig.Ok? && VerifyXEdDSA(c, X25519Public(c, priv), message, sig.value)
  {
    KeysAgree(c, priv);
    DerivedPoint(c, priv);
    var key := DerivedKey(c, priv);
    SignIsSeal(c, priv, message, random);
    OrderFits();
    Decodes(c, Times(c, key.scalar, c.base));
    var r := NonceScalar(c, key, message, random);
    var k := Challenge(c, EncodePoint(c, Times(c, r, c.base)), key.publicKey, message);
    SealEquation(c, key.scalar, r, k, message);
    AcceptsBy(c, key.scalar, r, k, message);
    VerifyUnder(c, X25519Public(c, priv), key.publicKey, message, Seal(c, key.scalar, r, message));
  }

  /** The signature made with a given scalar and nonce. */
  function Seal<Point(!new)>(c: Curve<Point>, a: nat, r: nat, message: seq<Byte>): (sig: seq<Byte>)
    requires c.order > 0
    ensures |sig| == 64
  {
    var commitment := EncodePoint(c, Times(c, r, c.base));
    commitment + LittleEndian(Response(c, a, r, message), 32)
  }

  function Response<Point(!new)>(c: Curve<Point>, a: nat, r: nat, message: seq<Byte>): (s: nat)
    requires c.order > 0
    ensures s < c.order
  {
    var k := Challenge(c, EncodePoint(c, Times(c, r, c.base)), EncodePoint(c, Times(c, a, c.base)), message);
    Field.Reduce(c.order, Product(k, a) + r)
  }

  lemma SignIsSeal<Point(!new)>(c: Curve<Point>, priv: Key, message: seq<Byte>, random: seq<Byte>)
    requires c.order > 0 && |random| == 32
    ensures var key := DerivedKey(c, priv);
            key.publicKey == EncodePoint(c, Times(c, key.scalar, c.base)) ==>
              SignXEdDSA(c, priv, message, random)
              == Ok(Seal(c, key.scalar, NonceScalar(c, key, message, random), message))
  {
    var key := DerivedKey(c, priv);
    if key.publicKey == EncodePoint(c, Times(c, key.scalar, c.base)) {
      SealSpelledOut(c, key, NonceScalar(c, key, message, random), message);
    }
  }

  lemma SealSpelledOut<Point(!new)>(c: Curve<Point>, key: SigningKey, r: nat, message: seq<Byte>)
    requires c.order > 0 && key.publicKey == EncodePoint(c, Times(c, key.scalar, c.base))
    ensures var commitment := EncodePoint(c, Times(c, r, c.base));
            var k := Challenge(c, commitment, key.publicKey, message);
            Seal(c, key.scalar, r, message)
            == commitment + LittleEndian(Field.Reduce(c.order, Product(k, key.scalar) + r), 32)
  {}

  lemma SealParts<Point(!new)>(c: Curve<Point>, a: nat, r: nat, message: seq<Byte>)
    requires 0 < c.order <= Pow256(32)
    ensures var sig := Seal(c, a, r, message);
            && sig[..32] == EncodePoint(c, Times(c, r, c.base))
            && LittleValue(sig[32..]) == Response(c, a, r, message)
  {
    var sig, s := Seal(c, a, r, message), Response(c, a, r, message);
    assert sig[32..] == LittleEndian(s, 32);
    LittleRoundTrip(s, 32);
  }

  lemma SealEquation<Point(!new)>(c: Curve<Point>, a: nat, r: nat, k: nat, message: seq<Byte>)
    requires GroupLaws(c)
    requires k == Challenge(c, EncodePoint(c, Times(c, r, c.base)), EncodePoint(c, Times(c, a, c.base)), message)
    ensures Plus(c, Times(c, k, Minus(c, Times(c, a, c.base))), Times(c, Response(c, a, r, message), c.base))
         == Times(c, r, c.base)
  {
    VerifyEquation(c, k, a, r);
  }

  /** The check of a seal, given what the equation comes to. */
  lemma AcceptsBy<Point(!new)>(c: Curve<Point>, a: nat, r: nat, k: nat, message: seq<Byte>)
    requires 0 < c.order <= Pow256(32)
    requires c.decode(EncodePoint(c, Times(c, a, c.base))) == Some(Times(c, a, c.base))
    requires k == Challenge(c, EncodePoint(c, Times(c, r, c.base)), EncodePoint(c, Times(c, a, c.base)), message)
    requires Plus(c, Times(c, k, Minus(c, Times(c, a, c.base))), Times(c, Response(c, a, r, message), c.base))
          == Times(c, r, c.base)
    ensures Ed25519Verify(c, EncodePoint(c, Times(c, a, c.base)), message, Seal(c, a, r, message))
  {
    SealParts(c, a, r, message);
  }

  lemma VerifyUnder<Point(!new)>(c: Curve<Point>, pub: Key, ed: Key, message: seq<Byte>, sig: seq<Byte>)
    requires c.order > 0 && c.p > 0 && |sig| == 64
    requires PublicKeyToEd25519(c, pub) == Ok(ed) && Ed25519Verify(c, ed, message, sig)
    ensures VerifyXEdDSA(c, pub, message, sig)
  {}

  lemma Decodes<Point(!new)>(c: Curve<Point>, a: Point)
    requires CoordinateLaws(c)
    ensures c.decode(EncodePoint(c, a)) == Some(a)
  {}

  lemma OrderFits()
    ensures BASE_ORDER <= Pow256(32)
  {
    Pow256At31();
    assert Pow256(32) == 256 * Pow256(31);
  }

  // ---------------------------------------------------------------- spelled out

  /** Section 5.1.7 of RFC 8032, written out: what is accepted under a public key that converts to ed
      and decodes to a. */
  lemma VerifiesExactly<Point(!new)>(c: Curve<Point>, pub: seq<Byte>, ed: Key, a: Point,
                                     message: seq<Byte>, sig: seq<Byte>)
    requires c.order > 0 && c.p > 0
    requires PublicKeyToEd25519(c, pub) == Ok(ed) && c.decode(ed) == Some(a)
    ensures VerifyXEdDSA(c, pub, message, sig) <==>
              && |sig| == 64 && LittleValue(sig[32..]) < c.order
              && var k := LittleValue(c.sha512(sig[..32] + ed + message)) % c.order;
                 EncodePoint(c, Plus(c, Times(c, k, Minus(c, a)), Times(c, LittleValue(sig[32..]), c.base)))
                 == sig[..32]
  {}

  /** Malformed keys and signatures are refused, as are keys that decode to no point. */
  lemma VerifyRefuses<Point(!new)>(c: Curve<Point>, pub: seq<Byte>, message: seq<Byte>, sig: seq<Byte>)
    requires c.order > 0 && c.p > 0
    requires |pub| != 32 || |sig| != 64 || c.decode(PublicKeyToEd25519(c, pub).value) == None
    ensures !VerifyXEdDSA(c, pub, message, sig)
    ensures |pub| != 32 ==> PublicKeyToEd25519(c, pub) == Err(InvalidKeyLength)
                            && PublicKeyFromPrivate(c, pub) == Err(InvalidKeyLength)
  {}

  /** The two errors of signing, and when each is reported. */
  lemma SignRefusesExactly<Point(!new)>(c: Curve<Point>, priv: seq<Byte>, message: seq<Byte>, random: seq<Byte>)
    requires c.order > 0
    ensures var r := SignXEdDSA(c, priv, message, random);
            && (r == Err(InvalidKeyLength) <==> |priv| != 32)
            && (r == Err(BadRandomness) <==> |priv| == 32 && |random| != 32)
  {}

  /** The signing key, written out: the clamped key and its multiple of the base point when that has
      an even x, and otherwise the opposites. */
  lemma DerivedKeySpelled<Point(!new)>(c: Curve<Point>, priv: Key)
    requires Edwards25519(c)
    ensures var a := LittleValue(Clamp(priv)) % c.order; var point := Times(c, a, c.base);
            var k := DerivedKey(c, priv);
            && (c.x(point) % 2 == 0 ==>
                 k.scalar == a && k.scalarBytes == Clamp(priv) && k.publicKey == EncodePoint(c, point))
            && (c.x(point) % 2 == 1 ==>
                 && (k.scalar + a) % c.order == 0 && k.scalar < c.order && LittleValue(k.scalarBytes) == k.scalar
                 && k.publicKey == EncodePoint(c, Minus(c, point)))
  {
    SignClearedSpelled(c, Field.Reduce(c.order, LittleValue(Clamp(priv))), Clamp(priv));
  }

  lemma SignClearedSpelled<Point(!new)>(c: Curve<Point>, a: nat, bytes: Key)
    requires Edwards25519(c) && a < c.order
    ensures var point := Times(c, a, c.base); var k := SignCleared(c, a, bytes);
            && (c.x(point) % 2 == 0 ==>
                 k.scalar == a && k.scalarBytes == bytes && k.publicKey == EncodePoint(c, point))
            && (c.x(point) % 2 == 1 ==>
                 && (k.scalar + a) % c.order == 0 && k.scalar < c.order && LittleValue(k.scalarBytes) == k.scalar
                 && k.publicKey == EncodePoint(c, Minus(c, point)))
  {
    var s := Field.Reduce(c.order, c.order - a);
    SignBit(c, Times(c, a, c.base));
    TimesNegated(c, a);
    NegatedScalar(c.order, a);
    OrderFits();
    LittleRoundTrip(s, 32);
  }

  lemma NegatedScalar(order: int, a: nat)
    requires a < order
    ensures (Field.Reduce(order, order - a) + a) % order == 0
  {
    Field.Congruent(order, order, 0, 1);
    if a != 0 { SmallReduce(order, order - a); }
  }

  /** A signature, written out: the commitment to the hash of the secret prefix, message and
      randomness, and the response to the hash of commitment, public key and message. */
  lemma SignatureSpelled<Point(!new)>(c: Curve<Point>, priv: Key, message: seq<Byte>, random: seq<Byte>)
    requires Edwards25519(c) && |random| == 32
    ensures var sig := SignXEdDSA(c, priv, message, random); var key := DerivedKey(c, priv);
            var r := LittleValue(c.sha512(c.sha512(key.scalarBytes)[32..] + message + random)) % c.order;
            && sig.Ok? && |sig.value| == 64
            && sig.value[..32] == EncodePoint(c, Times(c, r, c.base))
            && var k := LittleValue(c.sha512(sig.value[..32] + key.publicKey + message)) % c.order;
               LittleValue(sig.value[32..]) == (k * key.scalar + r) % c.order
  {
    DerivedPoint(c, priv);
    var key := DerivedKey(c, priv);
    SignIsSeal(c, priv, message, random);
    NonceSpelled(c, key, message, random);
    SealHashes(c, key.scalar, NonceScalar(c, key, message, random), key.publicKey, message);
  }

  lemma SealHashes<Point(!new)>(c: Curve<Point>, a: nat, r: nat, pub: seq<Byte>, message: seq<Byte>)
    requires Edwards25519(c) && pub == EncodePoint(c, Times(c, a, c.base))
    ensures var sig := Seal(c, a, r, message);
            && sig[..32] == EncodePoint(c, Times(c, r, c.base))
            && var k := LittleValue(c.sha512(sig[..32] + pub + message)) % c.order;
               LittleValue(sig[32..]) == (k * a + r) % c.order
  {
    OrderFits();
    SealParts(c, a, r, message);
    ResponseSpelled(c, a, r, pub, message);
  }

  lemma NonceSpelled<Point(!new)>(c: Curve<Point>, key: SigningKey, message: seq<Byte>, random: seq<Byte>)
    requires c.order > 0
    ensures NonceScalar(c, key, message, random)
         == LittleValue(c.sha512(c.sha512(key.scalarBytes)[32..] + message + random)) % c.order
  {}

  lemma ResponseSpelled<Point(!new)>(c: Curve<Point>, a: nat, r: nat, pub: seq<Byte>, message: seq<Byte>)
    requires c.order > 0 && pub == EncodePoint(c, Times(c, a, c.base))
    ensures var k := LittleValue(c.sha512(EncodePoint(c, Times(c, r, c.base)) + pub + message)) % c.order;
            Response(c, a, r, message) == (k * a + r) % c.order
  {}

  /** The conversion, written out: with u the key's low 255 bits, any field element y for which
      y (u + 1) is congruent to u - 1 is the y coordinate of the converted key. */
  lemma ConversionSpelled<Point(!new)>(c: Curve<Point>, pub: seq<Byte>, u: nat, y: nat, e: int)
    requires CoordinateLaws(c) && |pub| == 32 && y < c.p
    requires u == LittleValue(pub) % HALF && u - 1 == y * (u + 1) + e * c.p
    ensures PublicKeyToEd25519(c, pub) == Ok(LittleEndian(y, 32))
  {
    LowBits(pub);
    var v := Field.Reduce(c.p, u);
    var q := Field.Quotient(c.p, u);
    SameClass(c.p, u, v, q, y, e);
    Field.MapsBackFrom(c.p, c.inv, v, y, e - q + y * q);
    TopIsClear(y);
    ClearTopUnchanged(LittleEndian(y, 32));
  }

  lemma SameClass(p: int, u: int, v: int, q: int, y: int, e: int)
    requires u == v + q * p && u - 1 == y * (u + 1) + e * p
    ensures v - 1 == y * (v + 1) + (e - q + y * q) * p
  {
    // v - 1 = y (v + 1) + y q p + e p - q p
    Field.Distribute(y, v + 1, q, p);
    Field.Collect(e, q, p);
    Field.Collect(e - q, y * q, p);
  }

  lemma LowBits(pub: Key)
    ensures LittleValue(pub[31 := ClearTop(pub[31])]) == LittleValue(pub) % HALF
  {
    var front, top := pub[..31], pub[31];
    assert pub == front + [top] && pub[31 := ClearTop(top)] == front + [ClearTop(top)];
    LastByte(front, top);
    LastByte(front, ClearTop(top));
    Pow256At31();
    var low := LittleValue(front) + Pow256(31) * ClearTop(top);
    Field.Congruent(HALF, LittleValue(pub), low, if top >= 128 then 1 else 0);
  }

  /** The public key's number u, for the identity point's y: u (1 - y) is congruent to 1 + y. */
  lemma PublicKeySpelled<Point(!new)>(c: Curve<Point>, priv: Key) returns (k: int)
    requires Edwards25519(c)
    ensures var u, y := LittleValue(X25519Public(c, priv)), c.y(IdentityPoint(c, priv));
            u < c.p && u - 1 == y * (u + 1) + k * c.p
  {
    IdentityIsNotNeutral(c, priv);
    k := Field.CrossMultiplied(c.p, c.inv, c.y(IdentityPoint(c, priv)));
    TopIsClear(Field.MontgomeryU(c.p, c.inv, c.y(IdentityPoint(c, priv))));
  }

  // ---------------------------------------------------------------- nothing else is accepted

  lemma Cancel<Point(!new)>(c: Curve<Point>, q: Point, a: Point, b: Point)
    requires GroupLaws(c) && Plus(c, q, a) == Plus(c, q, b)
    ensures a == b
  {
    var m := Minus(c, q);
    assert Associates(c, m, q, a) && Associates(c, m, q, b);
  }

  /** Below the order, different multiples of the base point are different points. */
  lemma MultiplesApart<Point(!new)>(c: Curve<Point>, s: nat, s': nat)
    requires GroupLaws(c) && s <= s' < c.order && Times(c, s, c.base) == Times(c, s', c.base)
    ensures s == s'
  {
    var sum, d := Times(c, s, c.base), Times(c, s' - s, c.base);
    TimesAdd(c, s, s' - s, c.base);
    assert Commutes(c, sum, c.zero);
    Cancel(c, sum, d, c.zero);
  }

  /** Given the commitment and the challenge, at most one response below the order fits. */
  lemma ResponseUnique<Point(!new)>(c: Curve<Point>, q: Point, s: nat, s': nat)
    requires GroupLaws(c) && s < c.order && s' < c.order
    requires Plus(c, q, Times(c, s, c.base)) == Plus(c, q, Times(c, s', c.base))
    ensures s == s'
  {
    Cancel(c, q, Times(c, s, c.base), Times(c, s', c.base));
    if s <= s' { MultiplesApart(c, s, s'); } else { MultiplesApart(c, s', s); }
  }

  lemma EncodingUnique<Point(!new)>(c: Curve<Point>, a: Point, b: Point)
    requires CoordinateLaws(c) && EncodePoint(c, a) == EncodePoint(c, b)
    ensures a == b
  {
    Decodes(c, a);
    Decodes(c, b);
  }

  lemma SameResponse(sig: seq<Byte>, sig': seq<Byte>)
    requires |sig| == |sig'| == 64 && sig[..32] == sig'[..32]
    requires LittleValue(sig[32..]) == LittleValue(sig'[32..])
    ensures sig == sig'
  {
    LittleInverse(sig[32..]);
    LittleInverse(sig'[32..]);
    assert sig == sig[..32] + sig[32..] && sig' == sig'[..32] + sig'[32..];
  }

  /** No accepted signature can be altered in its second half: for any public key, message and
      commitment, honest or not, at most one signature is accepted. */
  lemma OneSignature<Point(!new)>(c: Curve<Point>, pub: seq<Byte>, message: seq<Byte>,
                                  sig: seq<Byte>, sig': seq<Byte>)
    requires Edwards25519(c) && VerifyXEdDSA(c, pub, message, sig) && VerifyXEdDSA(c, pub, message, sig')
    requires sig[..32] == sig'[..32]
    ensures sig == sig'
  {
    var ed := PublicKeyToEd25519(c, pub).value;
    var a := c.decode(ed).value;
    var q := Times(c, Challenge(c, sig[..32], ed, message), Minus(c, a));
    var s, s' := LittleValue(sig[32..]), LittleValue(sig'[32..]);
    EncodingUnique(c, Plus(c, q, Times(c, s, c.base)), Plus(c, q, Times(c, s', c.base)));
    ResponseUnique(c, q, s, s');
    SameResponse(sig, sig');
  }

  /** Under an honest public key, what is accepted with the signer's commitment is exactly what the
      signer produces. */
  lemma AcceptedExactly<Point(!new)>(c: Curve<Point>, priv: Key, message: seq<Byte>, random: seq<Byte>, sig: seq<Byte>)
    requires Edwards25519(c) && |random| == 32
    ensures var own := SignXEdDSA(c, priv, message, random);
            && own.Ok? && |own.value| == 64
            && (VerifyXEdDSA(c, X25519Public(c, priv), message, sig) && sig[..32] == own.value[..32]
                <==> sig == own.value)
  {
    SignatureVerifies(c, priv, message, random);
    var own, pub := SignXEdDSA(c, priv, message, random).value, X25519Public(c, priv);
    if VerifyXEdDSA(c, pub, message, sig) && sig[..32] == own[..32] {
      OneSignature(c, pub, message, sig, own);
    }
  }

  /** A signature accepted for one message is accepted for another exactly when both hashes take the
      public point to the same multiple. */
  lemma MessageBound<Point(!new)>(c: Curve<Point>, pub: seq<Byte>, ed: Key, a: Point,
                                  m: seq<Byte>, m': seq<Byte>, sig: seq<Byte>)
    requires Edwards25519(c) && PublicKeyToEd25519(c, pub) == Ok(ed) && c.decode(ed) == Some(a)
    requires VerifyXEdDSA(c, pub, m, sig)
    ensures VerifyXEdDSA(c, pub, m', sig) <==>
              Times(c, LittleValue(c.sha512(sig[..32] + ed + m)) % c.order, a)
              == Times(c, LittleValue(c.sha512(sig[..32] + ed + m')) % c.order, a)
  {
    var k := LittleValue(c.sha512(sig[..32] + ed + m)) % c.order;
    var k' := LittleValue(c.sha512(sig[..32] + ed + m')) % c.order;
    VerifiesExactly(c, pub, ed, a, m, sig);
    VerifiesExactly(c, pub, ed, a, m', sig);
    var q, q', s := Times(c, k, Minus(c, a)), Times(c, k', Minus(c, a)), Times(c, LittleValue(sig[32..]), c.base);
    TimesMinus(c, k, a);
    TimesMinus(c, k', a);
    if VerifyXEdDSA(c, pub, m', sig) {
      EncodingUnique(c, Plus(c, q, s), Plus(c, q', s));
      assert Commutes(c, q, s) && Commutes(c, q', s);
      Cancel(c, s, q, q');
      MinusTwice(c, Times(c, k, a));
      MinusTwice(c, Times(c, k', a));
    }
  }

  /** The order of the base point is prime: no product of smaller positive numbers is a multiple. */
  ghost predicate PrimeOrder<Point(!new)>(c: Curve<Point>)
    requires c.order > 0
  {
    forall n, k :: 0 < n < c.order && 0 < k < c.order ==> Field.Multiply(c.order, n, k) != 0
  }

  /** Under an honest key one signature covers two messages only if their hashes agree modulo the
      order. */
  lemma TwoMessagesCollide<Point(!new)>(c: Curve<Point>, priv: Key, m: seq<Byte>, m': seq<Byte>, sig: seq<Byte>)
    requires Edwards25519(c) && PrimeOrder(c)
    requires VerifyXEdDSA(c, X25519Public(c, priv), m, sig) && VerifyXEdDSA(c, X25519Public(c, priv), m', sig)
    ensures var ed := DerivedKey(c, priv).publicKey;
            LittleValue(c.sha512(sig[..32] + ed + m)) % c.order == LittleValue(c.sha512(sig[..32] + ed + m')) % c.order
  {
    KeysAgree(c, priv);
    DerivedPoint(c, priv);
    var key := DerivedKey(c, priv);
    var a := Times(c, key.scalar, c.base);
    Decodes(c, a);
    MessageBound(c, X25519Public(c, priv), key.publicKey, a, m, m', sig);
    ScalarIsNotZero(c, priv);
    SameMultiple(c, LittleValue(c.sha512(sig[..32] + key.publicKey + m)) % c.order,
                 LittleValue(c.sha512(sig[..32] + key.publicKey + m')) % c.order, key.scalar);
  }

  lemma ScalarIsNotZero<Point(!new)>(c: Curve<Point>, priv: Key)
    requires Edwards25519(c)
    ensures 0 < DerivedKey(c, priv).scalar < c.order
  {
    var a := Field.Reduce(c.order, LittleValue(Clamp(priv)));
    ClampedScalarIsNotZero(Clamp(priv));
    SmallReduce(c.order, c.order - a);
  }

  lemma SameMultiple<Point(!new)>(c: Curve<Point>, k: nat, l: nat, n: nat)
    requires GroupLaws(c) && PrimeOrder(c) && k < c.order && l < c.order && 0 < n < c.order
    requires Times(c, k, Times(c, n, c.base)) == Times(c, l, Times(c, n, c.base))
    ensures k == l
  {
    if k < l { SmallerMultiple(c, k, l, n); }
    if l < k { SmallerMultiple(c, l, k, n); }
  }

  lemma SmallerMultiple<Point(!new)>(c: Curve<Point>, k: nat, l: nat, n: nat)
    requires GroupLaws(c) && PrimeOrder(c) && k < l < c.order && 0 < n < c.order
    ensures Times(c, k, Times(c, n, c.base)) != Times(c, l, Times(c, n, c.base))
  {
    var a := Times(c, n, c.base);
    TimesAdd(c, k, l - k, a);
    TimesTimes(c, l - k, n, c.base);
    NeutralMultiple(c, (l - k) * n);
    assert Commutes(c, Times(c, k, a), c.zero);
    assert Field.Multiply(c.order, l - k, n) != 0;
    if Times(c, k, a) == Times(c, l, a) { Cancel(c, Times(c, k, a), Times(c, l - k, a), c.zero); }
  }

  /** One signature on two different packets, in sender, id, port or payload, is two different hash
      inputs that agree modulo the order. */
  lemma TwoPacketsCollide<Point(!new)>(c: Curve<Point>, priv: Key, sig: seq<Byte>,
                                       from: Uint32, packetID: Uint32, portnum: Int32, payload: seq<Byte>,
                                       from': Uint32, packetID': Uint32, portnum': Int32, payload': seq<Byte>)
    requires Edwards25519(c) && PrimeOrder(c)
    requires VerifyXEdDSA(c, X25519Public(c, priv), Nonce.SigningBytes(from, packetID, portnum, payload), sig)
    requires VerifyXEdDSA(c, X25519Public(c, priv), Nonce.SigningBytes(from', packetID', portnum', payload'), sig)
    requires from != from' || packetID != packetID' || portnum != portnum' || payload != payload'
    ensures exists h, h' :: h != h' && LittleValue(c.sha512(h)) % c.order == LittleValue(c.sha512(h')) % c.order
  {
    var m := Nonce.SigningBytes(from, packetID, portnum, payload);
    var m' := Nonce.SigningBytes(from', packetID', portnum', payload');
    Nonce.SigningBytesInjective(from, packetID, portnum, payload, from', packetID', portnum', payload');
    TwoMessagesCollide(c, priv, m, m', sig);
    var front := sig[..32] + DerivedKey(c, priv).publicKey;
    assert (front + m)[|front|..] == m && (front + m')[|front|..] == m';
  }

  lemma MinusTwice<Point(!new)>(c: Curve<Point>, a: Point)
    requires GroupLaws(c)
    ensures Minus(c, Minus(c, a)) == a
  {
    assert Commutes(c, a, Minus(c, a));
    MinusUnique(c, a, Minus(c, a));
  }

  // ---------------------------------------------------------------- packets and seeds

  /** A signed packet is accepted for the sender, id, port and payload it was signed for. */
  lemma PacketSignatureVerifies<Point(!new)>(c: Curve<Point>, priv: Key, from: Uint32, packetID: Uint32,
                                             portnum: Int32, payload: seq<Byte>, random: seq<Byte>)
    requires Edwards25519(c) && |random| == 32
    ensures var covered := Nonce.SigningBytes(from, packetID, portnum, payload);
            var sig := SignXEdDSA(c, priv, covered, random);
            sig.Ok? && VerifyXEdDSA(c, X25519Public(c, priv), covered, sig.value)
  {
    SignatureVerifies(c, priv, Nonce.SigningBytes(from, packetID, portnum, payload), random);
  }

  datatype KeyPair = KeyPair(publicKey: Key, privateKey: Key)

  method KeyPairFromSeed<Point(!new)>(c: Curve<Point>, seed: seq<Byte>) returns (r: Result<KeyPair>)
    requires c.p > 0
    ensures r.Ok? <==> |seed| == 32
    ensures r.Err? ==> r.why == InvalidKeyLength
    ensures r.Ok? ==> r.value.privateKey == Clamp(seed) && r.value.publicKey == X25519Public(c, seed)
  {
    if |seed| != 32 { return Err(InvalidKeyLength); }
    var priv := new Byte[32](i requires 0 <= i < 32 => seed[i]);
    priv[0] := ClampLow(priv[0]);
    priv[31] := ClampHigh(priv[31]);
    assert priv[..] == Clamp(seed);
    var pub := PublicKeyFromPrivate(c, priv[..]);
    return Ok(KeyPair(pub.value, priv[..]));
  }

  /** What the pair's private half signs, its public half verifies, and the signing key derived
      from the canonical private half is the one derived from the raw seed. */
  lemma SeedPairSigns<Point(!new)>(c: Curve<Point>, seed: Key, message: seq<Byte>, random: seq<Byte>)
    requires Edwards25519(c) && |random| == 32
    ensures DerivedKey(c, Clamp(seed)) == DerivedKey(c, seed)
    ensures var sig := SignXEdDSA(c, Clamp(seed), message, random);
            sig.Ok? && VerifyXEdDSA(c, X25519Public(c, seed), message, sig.value)
  {
    SeedIdentity(c, seed);
    SignatureVerifies(c, Clamp(seed), message, random);
  }

  lemma SeedIdentity<Point(!new)>(c: Curve<Point>, seed: Key)
    requires c.p > 0 && c.order > 0
    ensures X25519Public(c, Clamp(seed)) == X25519Public(c, seed)
    ensures DerivedKey(c, Clamp(seed)) == DerivedKey(c, seed)
  {
    ClampTwice(seed);
    SameClampSameKeys(c, Clamp(seed), seed);
  }

  lemma ClampTwice(seed: Key)
    ensures Clamp(Clamp(seed)) == Clamp(seed)
  {}

  /** Only the clamped form of a private key matters. */
  lemma SameClampSameKeys<Point(!new)>(c: Curve<Point>, priv: Key, priv': Key)
    requires c.p > 0 && c.order > 0 && Clamp(priv) == Clamp(priv')
    ensures X25519Public(c, priv) == X25519Public(c, priv')
    ensures DerivedKey(c, priv) == DerivedKey(c, priv')
  {}
}
