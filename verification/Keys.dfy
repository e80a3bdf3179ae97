/** Channel keys: parsing, short forms and hashing (core/crypto/keys.go). */
module Keys {
  import opened Bits
  import opened Bytes
  import Base64

  /** The published key, 1PG7OiApB1nwvP+rz05pAQ== in base 64. */
  const DEFAULT_KEY: seq<Byte> :=
    [0xd4, 0xf1, 0xbb, 0x3a, 0x20, 0x29, 0x07, 0x59, 0xf0, 0xbc, 0xff, 0xab, 0xcf, 0x4e, 0x69, 0x01]

  /** The member of the default family with the given last byte. */
  function Family(last: Byte): (k: seq<Byte>)
    ensures |k| == 16 && k[..15] == DEFAULT_KEY[..15] && k[15] == last
  {
    DEFAULT_KEY[..15] + [last]
  }

  /** Eight-bit addition and subtraction. */
  function Add8(a: int, b: int): Byte { (a + b) % 256 }
  function Sub8(a: int, b: int): Byte { (a - b) % 256 }

  // ---------------------------------------------------------------- short keys

  function Expanded(input: seq<Byte>): seq<Byte> {
    if |input| == 0 then DEFAULT_KEY
    else if |input| >= 16 then input
    else if |input| == 1 then
      if input[0] == 0 then [] else Family(Add8(DEFAULT_KEY[15], Sub8(input[0], 1)))
    else input + seq(16 - |input|, _ => 0)
  }

  /** Fills a fresh buffer and adjusts its last byte, or pads with zeros. */
  method ExpandShortPSK(input: seq<Byte>) returns (key: seq<Byte>)
    ensures key == Expanded(input)
  {
    if |input| == 0 { return DEFAULT_KEY; }
    if |input| >= 16 { return input; }
    if |input| == 1 {
      var index := input[0];
      if index == 0 { return []; }
      var expanded := new Byte[16](i requires 0 <= i < 16 => DEFAULT_KEY[i]);
      expanded[15] := Add8(expanded[15], Sub8(index, 1));
      assert expanded[..] == Expanded(input);
      return expanded[..];
    }
    var expanded := new Byte[16](_ => 0);
    for i := 0 to |input|
      invariant forall j :: 0 <= j < 16 ==> expanded[j] == if j < i then input[j] else 0
    {
      expanded[i] := input[i];
    }
    assert expanded[..] == Expanded(input);
    return expanded[..];
  }

  function Compacted(key: seq<Byte>): seq<Byte> {
    if |key| == 16 && key[..15] == DEFAULT_KEY[..15] then [Add8(Sub8(key[15], DEFAULT_KEY[15]), 1)] else key
  }

  method TryCompactKey(key: seq<Byte>) returns (r: seq<Byte>)
    ensures r == Compacted(key)
  {
    if |key| != |DEFAULT_KEY| { return key; }
    var i := 0;
    while i < |DEFAULT_KEY| - 1
      invariant 0 <= i <= 15 && forall j :: 0 <= j < i ==> key[j] == DEFAULT_KEY[j]
    {
      if key[i] != DEFAULT_KEY[i] {
        assert key[..15][i] != DEFAULT_KEY[..15][i];
        return key;
      }
      i := i + 1;
    }
    assert key[..15] == DEFAULT_KEY[..15];
    var diff := Sub8(key[15], DEFAULT_KEY[15]);
    return [Add8(diff, 1)];
  }

  /** Compacting and expanding gives a key back exactly when it is a full key other than the one
      family member whose index is 0. */
  lemma CompactThenExpand(k: seq<Byte>)
    ensures Expanded(Compacted(k)) == k <==> |k| >= 16 && k != Family(0)
  {
    if |k| == 16 && k[..15] == DEFAULT_KEY[..15] {
      assert k == Family(k[15]);
      assert DEFAULT_KEY[15] == 1;
      assert Compacted(k) == [k[15]];
      if k[15] != 0 { assert Expanded([k[15]]) == Family(k[15]); }
    }
  }

  /** A one-byte key survives expanding and compacting exactly when it is not 0. */
  lemma ExpandThenCompact(index: Byte)
    ensures Compacted(Expanded([index])) == [index] <==> index != 0
    ensures index != 0 ==> Expanded([index]) == Family(index)
  {
    CompactFamily(index);
    if index != 0 { ExpandByte(index); }
  }

  lemma CompactFamily(last: Byte)
    ensures Compacted(Family(last)) == [last]
  {
    assert DEFAULT_KEY[15] == 1;
  }

  lemma ExpandByte(index: Byte)
    requires index != 0
    ensures Expanded([index]) == Family(index)
  {
    assert DEFAULT_KEY[15] == 1;
  }

  /** No input stands for the published key, and the index 0 for no encryption. */
  lemma ExpandedExtremes()
    ensures Expanded([]) == DEFAULT_KEY && Expanded([0]) == []
  {}

  /** Any other index stands for the published key with the index as its last byte. */
  lemma ExpandedIndex(index: Byte)
    requires index != 0
    ensures Expanded([index]) == DEFAULT_KEY[..15] + [index]
  {
    ExpandByte(index);
  }

  /** Longer input is kept, with zeros behind it up to 16 bytes. */
  lemma ExpandedLonger(input: seq<Byte>)
    requires |input| >= 2
    ensures var e := Expanded(input);
            && |e| == (if |input| < 16 then 16 else |input|) && e[..|input|] == input
            && forall i :: |input| <= i < |e| ==> e[i] == 0
  {}

  /** Only members of the published family become shorter, and each becomes its last byte. */
  lemma CompactedExactly(key: seq<Byte>, last: Byte)
    ensures Compacted(DEFAULT_KEY[..15] + [last]) == [last]
    ensures (forall i: Byte :: key != DEFAULT_KEY[..15] + [i]) ==> Compacted(key) == key
  {
    CompactFamily(last);
    if |key| == 16 && key[..15] == DEFAULT_KEY[..15] { assert key == DEFAULT_KEY[..15] + [key[15]]; }
  }

  /** The published key and its short form are the ones their documentation spells in base 64. */
  lemma DefaultKeySpelled(key: seq<Byte>, short: seq<Byte>)
    requires key == DEFAULT_KEY && short == Compacted(DEFAULT_KEY)
    ensures Base64.Encode(false, key) == Base64.Ascii("1PG7OiAp" + ("B1nwvP+r" + ("z05p" + "AQ==")))
    ensures Base64.Encode(false, short) == Base64.Ascii("AQ==")
  {
    ShortOfDefault();
    SpelledShort();
    KeyInGroups(short);
    SpelledWhole(short, "AQ==");
  }

  lemma ShortOfDefault()
    ensures Compacted(DEFAULT_KEY) == [1]
  {
    IsFamilyOne(DEFAULT_KEY);
    CompactFamily(1);
  }

  lemma {:induction false} IsFamilyOne(key: seq<Byte>)
    requires key == DEFAULT_KEY
    ensures key == Family(1)
  {
    assert |key| == 16 && key[15] == 1;
    assert key == key[..15] + [key[15]];
  }

  lemma KeyInGroups(t: seq<Byte>)
    requires t == [1]
    ensures DEFAULT_KEY == [0xd4, 0xf1, 0xbb] + ([0x3a, 0x20, 0x29]
                           + ([0x07, 0x59, 0xf0] + ([0xbc, 0xff, 0xab] + ([0xcf, 0x4e, 0x69] + t))))
  {}

  lemma SpelledShort()
    ensures Base64.Encode(false, [1]) == Base64.Ascii("AQ==")
  {}

  lemma {:induction false} SpelledWhole(t: seq<Byte>, more: string)
    requires Base64.Encode(false, t) == Base64.Ascii(more)
    ensures Base64.Encode(false, [0xd4, 0xf1, 0xbb] + ([0x3a, 0x20, 0x29]
                                 + ([0x07, 0x59, 0xf0] + ([0xbc, 0xff, 0xab] + ([0xcf, 0x4e, 0x69] + t)))))
         == Base64.Ascii("1PG7OiAp" + ("B1nwvP+r" + ("z05p" + more)))
  {
    SpelledEnd(t, more);
    SpelledMiddle([0xcf, 0x4e, 0x69] + t, "z05p" + more);
    SpelledStart([0x07, 0x59, 0xf0] + ([0xbc, 0xff, 0xab] + ([0xcf, 0x4e, 0x69] + t)), "B1nwvP+r" + ("z05p" + more));
  }

  lemma {:induction false} SpelledEnd(rest: seq<Byte>, more: string)
    requires Base64.Encode(false, rest) == Base64.Ascii(more)
    ensures Base64.Encode(false, [0xcf, 0x4e, 0x69] + rest) == Base64.Ascii("z05p" + more)
  {
    SpelledGroup(0xcf, 0x4e, 0x69, rest, "z05p", more);
  }

  lemma {:induction false} SpelledMiddle(rest: seq<Byte>, more: string)
    requires Base64.Encode(false, rest) == Base64.Ascii(more)
    ensures Base64.Encode(false, [0x07, 0x59, 0xf0] + ([0xbc, 0xff, 0xab] + rest)) == Base64.Ascii("B1nwvP+r" + more)
  {
    SpelledGroup(0xbc, 0xff, 0xab, rest, "vP+r", more);
    SpelledGroup(0x07, 0x59, 0xf0, [0xbc, 0xff, 0xab] + rest, "B1nw", "vP+r" + more);
    assert "B1nwvP+r" + more == "B1nw" + ("vP+r" + more);
  }

  lemma {:induction false} SpelledStart(rest: seq<Byte>, more: string)
    requires Base64.Encode(false, rest) == Base64.Ascii(more)
    ensures Base64.Encode(false, [0xd4, 0xf1, 0xbb] + ([0x3a, 0x20, 0x29] + rest)) == Base64.Ascii("1PG7OiAp" + more)
  {
    SpelledGroup(0x3a, 0x20, 0x29, rest, "OiAp", more);
    SpelledGroup(0xd4, 0xf1, 0xbb, [0x3a, 0x20, 0x29] + rest, "1PG7", "OiAp" + more);
    assert "1PG7OiAp" + more == "1PG7" + ("OiAp" + more);
  }

  lemma SpelledGroup(a: Byte, b: Byte, c: Byte, rest: seq<Byte>, text: string, more: string)
    requires |text| == 4 && Base64.Encode(false, rest) == Base64.Ascii(more)
    requires Base64.Letter(false, a / 4) == text[0] as int
    requires Base64.Letter(false, a % 4 * 16 + b / 16) == text[1] as int
    requires Base64.Letter(false, b % 16 * 4 + c / 64) == text[2] as int
    requires Base64.Letter(false, c % 64) == text[3] as int
    ensures Base64.Encode(false, [a, b, c] + rest) == Base64.Ascii(text + more)
  {
    Base64.EncodeFullGroup(false, a, b, c, rest);
    Base64.AsciiAppend(text, more);
    Base64.AsciiOfFour(text);
  }

  // ---------------------------------------------------------------- parsing

  datatype Parsed = Key(bytes: seq<Byte>) | BadBase64

  function ParseKey(text: seq<Byte>): Parsed {
    match Base64.Decode(Base64.LooksUrlSafe(text), text)
    case None => BadBase64
    case Some(decoded) => Key(Expanded(decoded))
  }

  /** Both encodings of every byte string parse to the same key. */
  lemma ParsesEitherAlphabet(url: bool, b: seq<Byte>)
    ensures ParseKey(Base64.Encode(url, b)) == Key(Expanded(b))
  {
    Base64.EitherAlphabetDecodes(url, b);
  }

  /** Text without line breaks is refused exactly when it is not well-formed base 64 in the alphabet
      it shows. */
  lemma ParseRefusesExactly(text: seq<Byte>)
    requires Base64.NoBreaks(text)
    ensures ParseKey(text) == BadBase64 <==> !Base64.WellFormed(0x2D in text || 0x5F in text, text)
  {
    Base64.DecodesExactly(Base64.LooksUrlSafe(text), text);
  }

  // ---------------------------------------------------------------- hashing

  function XorHash(p: seq<Byte>): (h: Byte) {
    if p == [] then 0
    else
      var h := XorHash(p[..|p| - 1]);
      Pow2Values();
      XorBound(h, p[|p| - 1], 8);
      Xor(h, p[|p| - 1])
  }

  method ComputeXorHash(p: seq<Byte>) returns (code: Byte)
    ensures code == XorHash(p)
  {
    code := 0;
    for i := 0 to |p|
      invariant code == XorHash(p[..i])
    {
      assert p[..i + 1][..i] == p[..i];
      Pow2Values();
      XorBound(code, p[i], 8);
      code := Xor(code, p[i]);
    }
    assert p[..|p|] == p;
  }

  function ChannelHash(name: seq<Byte>, key: seq<Byte>): (h: nat)
    ensures h < 256
  {
    Pow2Values();
    XorBound(XorHash(name), XorHash(key), 8);
    Xor(XorHash(name), XorHash(key))
  }

  /** How many bytes have bit k set. */
  function CountBit(p: seq<Byte>, k: nat): nat {
    if p == [] then 0 else CountBit(p[..|p| - 1], k) + if Bit(p[|p| - 1], k) then 1 else 0
  }

  lemma {:induction false} XorHashParity(p: seq<Byte>, k: nat)
    ensures Bit(XorHash(p), k) <==> CountBit(p, k) % 2 == 1
  {
    if p == [] {
      ZeroHasNoBits(k);
    } else {
      XorHashParity(p[..|p| - 1], k);
      XorHashStep(p);
      ParityStep(XorHash(p[..|p| - 1]), p[|p| - 1], k, CountBit(p[..|p| - 1], k));
    }
  }

  lemma ParityStep(h: nat, x: nat, k: nat, count: nat)
    requires Bit(h, k) <==> count % 2 == 1
    ensures Bit(Xor(h, x), k) <==> (count + if Bit(x, k) then 1 else 0) % 2 == 1
  {
    XorBit(h, x, k);
  }

  lemma XorHashStep(p: seq<Byte>)
    requires p != []
    ensures XorHash(p) == Xor(XorHash(p[..|p| - 1]), p[|p| - 1])
  {}

  lemma ZeroHasNoBits(k: nat)
    ensures !Bit(0, k)
  {
    DivModUnique(0, Pow2(k), 0, 0);
  }

  /** Each bit of the channel hash is the parity of that bit over all bytes of name and key. */
  lemma HashIsParity(name: seq<Byte>, key: seq<Byte>, k: nat)
    ensures Bit(ChannelHash(name, key), k) <==> CountBit(name + key, k) % 2 == 1
  {
    XorHashAppend(name, key);
    XorHashParity(name + key, k);
  }

  /** An empty key contributes nothing. */
  lemma EmptyKeyHash(name: seq<Byte>, k: nat)
    ensures ChannelHash(name, []) == XorHash(name)
    ensures Bit(ChannelHash(name, []), k) <==> CountBit(name, k) % 2 == 1
  {
    XorBasics(XorHash(name));
    XorHashParity(name, k);
  }

  lemma {:induction false} XorHashAppend(a: seq<Byte>, b: seq<Byte>)
    ensures XorHash(a + b) == Xor(XorHash(a), XorHash(b))
  {
    if b == [] {
      assert a + b == a;
      XorBasics(XorHash(a));
    } else {
      var front := b[..|b| - 1];
      XorHashAppend(a, front);
      assert (a + b)[..|a + b| - 1] == a + front;
      XorAssociates(XorHash(a), XorHash(front), b[|b| - 1]);
    }
  }

  lemma XorHashSingle(x: Byte)
    ensures XorHash([x]) == x
  {
    XorBasics(x);
  }

  /** Moving one byte to the end of the string leaves the hash alone. */
  lemma {:induction false} XorHashMove(a: seq<Byte>, x: Byte, b: seq<Byte>)
    ensures XorHash(a + [x] + b) == XorHash(a + b + [x])
  {
    XorHashSingle(x);
    XorHashAppend(a + [x], b);
    XorHashAppend(a, [x]);
    XorHashAppend(a + b, [x]);
    XorHashAppend(a, b);
    XorAssociates(XorHash(a), x, XorHash(b));
    XorAssociates(XorHash(a), XorHash(b), x);
    XorCommutes(x, XorHash(b));
  }

  lemma {:induction false} XorHashPermuted(p: seq<Byte>, q: seq<Byte>)
    requires multiset(p) == multiset(q)
    ensures XorHash(p) == XorHash(q)
  {
    if p == [] {
      assert |multiset(q)| == 0;
    } else {
      var x, front := p[|p| - 1], p[..|p| - 1];
      assert p == front + [x];
      assert x in multiset(p);
      assert x in multiset(q);
      var i :| 0 <= i < |q| && q[i] == x;
      var a, b := q[..i], q[i + 1..];
      assert q == a + [x] + b;
      DropBoth(front, x, a, b);
      XorHashPermuted(front, a + b);
      XorHashMove(a, x, b);
      assert (a + b + [x])[..|a + b|] == a + b;
    }
  }

  lemma DropBoth(front: seq<Byte>, x: Byte, a: seq<Byte>, b: seq<Byte>)
    requires multiset(front + [x]) == multiset(a + [x] + b)
    ensures multiset(front) == multiset(a + b)
  {
    assert multiset(front + [x]) - multiset{x} == multiset(front);
    assert multiset(a + [x] + b) - multiset{x} == multiset(a + b);
  }

  /** The wire hash sees only the combined multiset of name and key bytes. */
  lemma HashIgnoresOrder(name: seq<Byte>, key: seq<Byte>, name': seq<Byte>, key': seq<Byte>)
    requires multiset(name + key) == multiset(name' + key')
    ensures ChannelHash(name, key) == ChannelHash(name', key')
  {
    XorHashPermuted(name + key, name' + key');
    XorHashAppend(name, key);
    XorHashAppend(name', key');
  }

  lemma XorCancels(h: nat, a: nat, b: nat)
    requires Xor(h, a) == Xor(h, b)
    ensures a == b
  {
    XorAssociates(h, h, a);
    XorAssociates(h, h, b);
    XorBasics(h);
    XorBasics(a);
    XorBasics(b);
  }

  /** Under one name the 255 short keys that encrypt all hash differently. */
  lemma ShortKeysHashApart(name: seq<Byte>, i: Byte, j: Byte)
    requires i != 0 && j != 0
    ensures ChannelHash(name, Expanded([i])) == ChannelHash(name, Expanded([j])) <==> i == j
  {
    ExpandThenCompact(i);
    ExpandThenCompact(j);
    FamilyHash(i);
    FamilyHash(j);
    if ChannelHash(name, Family(i)) == ChannelHash(name, Family(j)) {
      XorCancels(XorHash(name), XorHash(Family(i)), XorHash(Family(j)));
      XorCancels(XorHash(DEFAULT_KEY[..15]), i, j);
    }
  }

  lemma FamilyHash(i: Byte)
    ensures XorHash(Family(i)) == Xor(XorHash(DEFAULT_KEY[..15]), i)
  {
    XorHashAppend(DEFAULT_KEY[..15], [i]);
    XorHashSingle(i);
  }

  // ---------------------------------------------------------------- weak keys

  function WeakKey(n: nat): (k: seq<Byte>)
    requires n < 768
  {
    if n < 256 then Weak16(n) else if n < 512 then Padded(7, n - 256) else Padded(15, n - 512)
  }

  function Weak16(i: Byte): seq<Byte> { Family(Sub8(Add8(DEFAULT_KEY[15], i), 1)) }
  function Padded(zeros: nat, last: Byte): seq<Byte> { DEFAULT_KEY + seq(zeros, _ => 0) + [last] }

  /** A zeroed buffer of n bytes, the default key copied to its front, and its last byte set. */
  method DefaultKeyVariant(n: nat, last: Byte) returns (r: seq<Byte>)
    requires n >= 16
    ensures r == (DEFAULT_KEY + seq(n - 16, _ => 0))[n - 1 := last]
  {
    var slice := new Byte[n](_ => 0);
    for j := 0 to |DEFAULT_KEY|
      invariant forall l :: 0 <= l < n ==> slice[l] == if l < j then DEFAULT_KEY[l] else 0
    {
      slice[j] := DEFAULT_KEY[j];
    }
    slice[n - 1] := last;
    return slice[..];
  }

  lemma VariantForms(last: Byte)
    ensures (DEFAULT_KEY + seq(0, _ => 0))[15 := last] == Family(last)
    ensures (DEFAULT_KEY + seq(8, _ => 0))[23 := last] == Padded(7, last)
    ensures (DEFAULT_KEY + seq(16, _ => 0))[31 := last] == Padded(15, last)
  {}

  method GenerateWeakKeys() returns (keys: seq<seq<Byte>>)
    ensures |keys| == 768 && forall n :: 0 <= n < 768 ==> keys[n] == WeakKey(n)
  {
    var all := new seq<Byte>[768](_ => []);
    for i := 0 to 256
      invariant forall n :: 0 <= n < i ==> all[n] == Weak16(n)
      invariant forall n :: 256 <= n < 256 + i ==> all[n] == Padded(7, n - 256)
      invariant forall n :: 512 <= n < 512 + i ==> all[n] == Padded(15, n - 512)
    {
      var last := Sub8(Add8(DEFAULT_KEY[15], i), 1);
      VariantForms(last);
      VariantForms(i);
      var slice16 := DefaultKeyVariant(16, last);
      all[i] := slice16;
      var slice24 := DefaultKeyVariant(24, i);
      all[i + 256] := slice24;
      var slice32 := DefaultKeyVariant(32, i);
      all[i + 512] := slice32;
    }
    return all[..];
  }

  /** The generated 16-byte keys are the expanded short keys at every index but 0, where the
      generator gives a family member and the expansion gives no key at all. */
  lemma WeakKeysAreShortKeys(i: Byte)
    ensures WeakKey(i) == Expanded([i]) <==> i != 0
  {
    WeakIsFamily(i);
    if i != 0 { ExpandByte(i); }
  }

  lemma WeakIsFamily(i: Byte)
    ensures WeakKey(i) == Family(i)
  {
    assert DEFAULT_KEY[15] == 1;
    assert Sub8(Add8(1, i), 1) == i;
  }

  /** The wider keys: the published key, zeros, and the index in the last byte. */
  lemma WideWeakKeys(i: Byte)
    ensures |WeakKey(i)| == 16 && |WeakKey(256 + i)| == 24 && |WeakKey(512 + i)| == 32
    ensures var k, l := WeakKey(256 + i), WeakKey(512 + i);
            && k[..16] == DEFAULT_KEY == l[..16] && k[23] == i == l[31]
            && (forall j :: 16 <= j < 23 ==> k[j] == 0) && (forall j :: 16 <= j < 31 ==> l[j] == 0)
  {}

  /** Nothing that compacts to one byte is missed by the generator. */
  lemma WeakKeysCoverCompactKeys(k: seq<Byte>)
    requires |k| == 16
    ensures |Compacted(k)| == 1 <==> exists i: nat :: i < 256 && WeakKey(i) == k
  {
    if k[..15] == DEFAULT_KEY[..15] {
      assert k == Family(k[15]);
      WeakIsFamily(k[15]);
    }
  }
}
