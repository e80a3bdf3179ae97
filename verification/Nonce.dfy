/** Packet nonces, the counter-mode keystream and the signing buffer
    (core/crypto/aes.go, core/crypto/xeddsa.go). */
module Nonce {
  import opened Bits
  import opened Bytes

  /** [packetId or extraNonce-tagged packetId][fromNode][counter start], all little-endian. */
  function NonceBytes(packetId: Uint32, fromNode: Uint32, extraNonce: Uint32): (b: seq<Byte>)
    ensures |b| == 16
  {
    Word(packetId) + Word(extraNonce) + Word(fromNode) + ZEROS
  }

  const ZEROS: seq<Byte> := [0, 0, 0, 0]

  function Word(v: Uint32): (w: seq<Byte>)
    ensures |w| == 4
  {
    LittleEndian(v, 4)
  }

  lemma WordInjective(v: Uint32, w: Uint32)
    ensures Word(v) == Word(w) <==> v == w
  {
    Uint32Width();
    LittleInjective(v, w, 4);
  }

  lemma ZeroWord()
    ensures Word(0) == ZEROS
  {
    assert LittleEndian(0, 2) == [0, 0];
  }

  lemma WideIsPadded(v: Uint32)
    ensures LittleEndian(v, 8) == Word(v) + ZEROS
  {
    Uint32Width();
    LittlePadded(v, 4, 4);
    ZeroWord();
  }

  /** The number whose little-endian bytes stand at `at`. */
  function WordAt(b: seq<Byte>, at: nat): nat
    requires at + 4 <= |b|
  {
    b[at] as nat + 0x100 * (b[at + 1] as nat) + 0x1_0000 * (b[at + 2] as nat) + 0x100_0000 * (b[at + 3] as nat)
  }

  lemma WordBytes(v: Uint32, b: seq<Byte>, at: nat)
    requires at + 4 <= |b| && b[at..at + 4] == Word(v)
    ensures WordAt(b, at) == v
  {
    var w := Word(v);
    assert b[at] == w[0] && b[at + 1] == w[1] && b[at + 2] == w[2] && b[at + 3] == w[3];
    Uint32Width();
    LittleRoundTrip(v, 4);
    FourBytes(w);
  }

  lemma FourBytes(w: seq<Byte>)
    requires |w| == 4
    ensures LittleValue(w) == WordAt(w, 0)
  {
    assert LittleValue(w[3..]) == w[3];
    assert w[2..][1..] == w[3..] && LittleValue(w[2..]) == w[2] + 256 * LittleValue(w[3..]);
    assert w[1..][1..] == w[2..] && LittleValue(w[1..]) == w[1] + 256 * LittleValue(w[2..]);
  }

  /** Where each number stands in the nonce. */
  lemma NonceLayout(p: Uint32, f: Uint32, e: Uint32)
    ensures var b := NonceBytes(p, f, e);
            && WordAt(b, 0) == p && WordAt(b, 4) == e && WordAt(b, 8) == f
            && b[12] == b[13] == b[14] == b[15] == 0
  {
    var b := NonceBytes(p, f, e);
    Words(Word(p), Word(e), Word(f), ZEROS);
    WordBytes(p, b, 0);
    WordBytes(e, b, 4);
    WordBytes(f, b, 8);
    assert b[12..] == ZEROS;
    assert b[12] == b[12..][0] && b[13] == b[12..][1] && b[14] == b[12..][2] && b[15] == b[12..][3];
  }

  /** Cutting a string of four words into its words. */
  lemma Words<T>(a: seq<T>, b: seq<T>, c: seq<T>, d: seq<T>)
    requires |a| == |b| == |c| == 4
    ensures var s := a + b + c + d; s[..4] == a && s[4..8] == b && s[8..12] == c && s[12..] == d
    ensures var s := a + b + c + d; s[..8] == a + b && s[8..] == c + d && s[4..] == b + c + d
  {}

  /** Write v little-endian over the `hole` at `at`, leaving what is before and after alone. */
  method Put(buf: array<Byte>, at: nat, v: nat, n: nat,
             ghost before: seq<Byte>, ghost hole: seq<Byte>, ghost after: seq<Byte>)
    requires |before| == at && |hole| == n && buf[..] == before + hole + after
    modifies buf
    ensures buf[..] == before + LittleEndian(v, n) + after
  {
    var rest := v;
    ghost var want := LittleEndian(v, n);
    for i := 0 to n
      invariant forall j :: 0 <= j < buf.Length && !(at <= j < at + i) ==> buf[j] == old(buf[j])
      invariant forall j :: 0 <= j < i ==> buf[at + j] == want[j]
      invariant want[i..] == LittleEndian(rest, n - i)
    {
      assert want[i] == want[i..][0] && want[i + 1..] == want[i..][1..];
      buf[at + i] := rest % 256;
      rest := rest / 256;
    }
    assert forall j :: 0 <= j < buf.Length ==> buf[j] == (before + want + after)[j];
  }

  /** The 64-bit write of a 32-bit packet id, then the node, then the optional overwrite of the
      id's upper half. */
  method CreateNonce(packetId: Uint32, fromNode: Uint32, extraNonce: Uint32) returns (nonce: array<Byte>)
    ensures fresh(nonce) && nonce[..] == NonceBytes(packetId, fromNode, extraNonce)
  {
    nonce := new Byte[16](_ => 0);
    ghost var p, f, e := Word(packetId), Word(fromNode), Word(extraNonce);
    WideIsPadded(packetId);
    assert nonce[..] == [] + (ZEROS + ZEROS) + (ZEROS + ZEROS);
    Put(nonce, 0, packetId, 8, [], ZEROS + ZEROS, ZEROS + ZEROS);
    assert nonce[..] == (p + ZEROS) + ZEROS + ZEROS;
    Put(nonce, 8, fromNode, 4, p + ZEROS, ZEROS, ZEROS);
    assert nonce[..] == p + ZEROS + (f + ZEROS);
    if extraNonce != 0 {
      Put(nonce, 4, extraNonce, 4, p, ZEROS, f + ZEROS);
      assert nonce[..] == p + e + f + ZEROS;
    } else {
      ZeroWord();
      assert nonce[..] == p + e + f + ZEROS;
    }
  }

  /** The first 12 bytes, and so the 13 handed to CCM, determine packet, sender and extra nonce. */
  lemma NonceInjective(p: Uint32, f: Uint32, e: Uint32, p': Uint32, f': Uint32, e': Uint32, used: nat)
    requires 12 <= used <= 16
    ensures NonceBytes(p, f, e)[..used] == NonceBytes(p', f', e')[..used] <==> p == p' && f == f' && e == e'
  {
    var n, n' := NonceBytes(p, f, e), NonceBytes(p', f', e');
    Words(Word(p), Word(e), Word(f), ZEROS);
    Words(Word(p'), Word(e'), Word(f'), ZEROS);
    PrefixSlices(n, used);
    PrefixSlices(n', used);
    WordInjective(p, p');
    WordInjective(e, e');
    WordInjective(f, f');
  }

  lemma PrefixSlices<T>(n: seq<T>, used: nat)
    requires 12 <= used <= |n|
    ensures n[..used][..4] == n[..4] && n[..used][4..8] == n[4..8] && n[..used][8..12] == n[8..12]
  {}

  // ---------------------------------------------------------------- counter mode

  /** The i-th input block: the 128-bit big-endian counter started at the nonce (the standard
      incrementing function of NIST SP 800-38A, appendix B.1, over all 128 bits). */
  function CounterBlock(nonce: seq<Byte>, i: nat): (b: seq<Byte>)
    requires |nonce| == 16
    ensures |b| == 16
  {
    BigEndian((BigValue(nonce) + i) % Pow256(16), 16)
  }

  /** For the first 2^32 blocks the counter only fills the four zero bytes. */
  lemma CounterFillsTail(p: Uint32, f: Uint32, i: Uint32)
    ensures CounterBlock(NonceBytes(p, f, 0), i) == NonceBytes(p, f, 0)[..12] + BigEndian(i, 4)
  {
    var head, tail := NonceBytes(p, f, 0)[..12], BigEndian(i, 4);
    assert NonceBytes(p, f, 0) == head + ZEROS by { Words(Word(p), Word(0), Word(f), ZEROS); }
    Uint32Width();
    BigRoundTrip(i, 4);
    BigTail([], 0);
    BigSplit(head, ZEROS);
    BigSplit(head, tail);
    BigInverse(head + tail);
    SmallMod(BigValue(head + tail), Pow256(16));
  }

  /** Four bytes, most significant first. */
  function BigWord(i: Uint32): (b: seq<Byte>)
    ensures |b| == 4
  {
    [i / 0x100_0000, i / 0x1_0000 % 256, i / 256 % 256, i % 256]
  }

  lemma BigEndianWord(i: Uint32)
    ensures BigEndian(i, 4) == BigWord(i)
  {
    assert i / 256 / 256 == i / 0x1_0000 && i / 256 / 256 / 256 == i / 0x100_0000;
    assert BigEndian(i / 0x100_0000, 1) == [i / 0x100_0000];
    assert BigEndian(i / 0x1_0000, 2) == [i / 0x100_0000, i / 0x1_0000 % 256];
    assert BigEndian(i / 256, 3) == [i / 0x100_0000, i / 0x1_0000 % 256, i / 256 % 256];
  }

  lemma SmallMod(x: nat, m: nat)
    requires x < m
    ensures x % m == x
  {}

  /** Two packets that differ in id or sender never feed the cipher the same block, as long as
      neither message is longer than 2^32 blocks. */
  lemma CounterBlocksDisjoint(p: Uint32, f: Uint32, i: Uint32, p': Uint32, f': Uint32, j: Uint32)
    requires p != p' || f != f'
    ensures CounterBlock(NonceBytes(p, f, 0), i) != CounterBlock(NonceBytes(p', f', 0), j)
  {
    CounterFillsTail(p, f, i);
    CounterFillsTail(p', f', j);
    var b, b' := CounterBlock(NonceBytes(p, f, 0), i), CounterBlock(NonceBytes(p', f', 0), j);
    assert b[..12] == NonceBytes(p, f, 0)[..12] && b'[..12] == NonceBytes(p', f', 0)[..12];
    NonceInjective(p, f, 0, p', f', 0, 12);
  }

  /** The length bound is tight: block 2^32 of one packet is block 0 of another. */
  lemma CounterBlocksCollideAfter(p: Uint32)
    ensures CounterBlock(NonceBytes(p, 0, 0), 0x1_0000_0000) == CounterBlock(NonceBytes(p, 0x0100_0000, 0), 0)
  {
    var a := Word(p) + Word(0) + [0, 0, 0];
    ZeroWord();
    TopWord();
    assert NonceBytes(p, 0, 0) == a + [0] + ZEROS;
    assert NonceBytes(p, 0x0100_0000, 0) == a + [1] + ZEROS;
    BigTail(a, 0);
    BigTail(a, 1);
  }

  lemma TopWord()
    ensures Word(0x0100_0000) == [0, 0, 0] + [1]
  {
    assert LittleEndian(0x1_0000, 3) == [0] + LittleEndian(0x100, 2);
    assert LittleEndian(0x100, 2) == [0, 1];
  }

  lemma BigTail(a: seq<Byte>, x: Byte)
    ensures BigValue(a + [x] + ZEROS) == (256 * BigValue(a) + x) * 0x1_0000_0000
    ensures BigValue(ZEROS) == 0
  {
    BigAppend(a, x);
    var b := a + [x];
    assert b + ZEROS == b + [0] + [0] + [0] + [0];
    BigAppend(b, 0);
    BigAppend(b + [0], 0);
    BigAppend(b + [0] + [0], 0);
    BigAppend(b + [0] + [0] + [0], 0);
    assert ZEROS == [] + [0] + [0] + [0] + [0];
    BigAppend([], 0);
    BigAppend([] + [0], 0);
    BigAppend([] + [0] + [0], 0);
    BigAppend([] + [0] + [0] + [0], 0);
  }

  /** The block cipher under a key, left abstract. */
  type BlockCipher = (seq<Byte>, seq<Byte>) -> seq<Byte>

  function KeystreamByte(aes: BlockCipher, key: seq<Byte>, nonce: seq<Byte>, i: nat): Byte
    requires |nonce| == 16
  {
    var out := aes(key, CounterBlock(nonce, i / 16));
    if i % 16 < |out| then out[i % 16] else 0
  }

  datatype Crypted = Done(text: seq<Byte>) | BadKeyLength

  /** Byte i of the output is byte i of the text combined with keystream byte i. */
  function Combined(aes: BlockCipher, text: seq<Byte>, key: seq<Byte>, nonce: seq<Byte>): (r: seq<Byte>)
    requires |nonce| == 16
    ensures |r| == |text|
  {
    seq(|text|, i requires 0 <= i < |text| => XorByte(text[i], KeystreamByte(aes, key, nonce, i)))
  }

  function XorByte(a: Byte, b: Byte): Byte {
    Pow2Values();
    XorBound(a, b, 8);
    Xor(a, b)
  }

  /** Byte i of the text is combined with byte i mod 16 of the enciphered block number i / 16: sender,
      packet and zero bytes of the nonce in front, the block number behind them (section 6.5 of
      NIST SP 800-38A). */
  ghost predicate CounterMode(aes: BlockCipher, text: seq<Byte>, key: seq<Byte>, nonce: seq<Byte>, out: seq<Byte>)
    requires |nonce| == 16
  {
    && |out| == |text|
    && forall i :: 0 <= i < |text| ==> ByteOfCounterMode(aes, text[i], key, nonce, i, out[i])
  }

  ghost predicate ByteOfCounterMode(aes: BlockCipher, plain: Byte, key: seq<Byte>, nonce: seq<Byte>, i: nat, out: Byte)
    requires |nonce| == 16
  {
    i / 16 < 0x1_0000_0000 ==> Ciphered(aes(key, nonce[..12] + BigWord(i / 16)), plain, i % 16, out)
  }

  ghost predicate Ciphered(block: seq<Byte>, plain: Byte, at: nat, out: Byte) {
    |block| == 16 && at < 16 ==> CombinesBits(out, plain, block[at])
  }

  /** Every bit of `out` is set when exactly one of the two others is. */
  ghost predicate CombinesBits(out: Byte, a: Byte, b: Byte) {
    forall k: nat :: k < 8 ==> (Bit(out, k) <==> Bit(a, k) != Bit(b, k))
  }

  lemma XorByteCombines(a: Byte, b: Byte)
    ensures CombinesBits(XorByte(a, b), a, b)
  {
    forall k: nat | k < 8 ensures Bit(XorByte(a, b), k) <==> Bit(a, k) != Bit(b, k) { XorBit(a, b, k); }
  }

  /** Keystream byte i comes from the enciphered block number i / 16. */
  ghost predicate KeystreamIsBlock(aes: BlockCipher, key: seq<Byte>, nonce: seq<Byte>, i: nat)
    requires |nonce| == 16
  {
    i / 16 < 0x1_0000_0000 ==> KeystreamAt(aes, key, nonce, i, nonce[..12] + BigWord(i / 16))
  }

  ghost predicate KeystreamAt(aes: BlockCipher, key: seq<Byte>, nonce: seq<Byte>, i: nat, input: seq<Byte>)
    requires |nonce| == 16
  {
    |aes(key, input)| == 16 ==> KeystreamByte(aes, key, nonce, i) == aes(key, input)[i % 16]
  }

  lemma InputIsCounter(aes: BlockCipher, key: seq<Byte>, nonce: seq<Byte>, i: nat, input: seq<Byte>)
    requires |nonce| == 16 && input == CounterBlock(nonce, i / 16)
    ensures KeystreamAt(aes, key, nonce, i, input)
  {}

  lemma KeystreamBlocks(aes: BlockCipher, key: seq<Byte>, p: Uint32, f: Uint32, i: nat)
    ensures KeystreamIsBlock(aes, key, NonceBytes(p, f, 0), i)
  {
    if i / 16 < 0x1_0000_0000 {
      TailIsWord(p, f, i / 16);
      InputIsCounter(aes, key, NonceBytes(p, f, 0), i, NonceBytes(p, f, 0)[..12] + BigWord(i / 16));
    }
  }

  lemma TailIsWord(p: Uint32, f: Uint32, n: Uint32)
    ensures CounterBlock(NonceBytes(p, f, 0), n) == NonceBytes(p, f, 0)[..12] + BigWord(n)
  {
    CounterFillsTail(p, f, n);
    BigEndianWord(n);
  }

  lemma CombinedByte(aes: BlockCipher, text: seq<Byte>, key: seq<Byte>, nonce: seq<Byte>, i: nat)
    requires i < |text| && |nonce| == 16 && KeystreamIsBlock(aes, key, nonce, i)
    ensures ByteOfCounterMode(aes, text[i], key, nonce, i, Combined(aes, text, key, nonce)[i])
  {
    XorByteCombines(text[i], KeystreamByte(aes, key, nonce, i));
  }

  lemma CombinedBytes(aes: BlockCipher, text: seq<Byte>, key: seq<Byte>, nonce: seq<Byte>)
    requires |nonce| == 16 && forall i: nat :: KeystreamIsBlock(aes, key, nonce, i)
    ensures CounterMode(aes, text, key, nonce, Combined(aes, text, key, nonce))
  {
    forall i | 0 <= i < |text|
      ensures ByteOfCounterMode(aes, text[i], key, nonce, i, Combined(aes, text, key, nonce)[i])
    {
      CombinedByte(aes, text, key, nonce, i);
    }
  }

  lemma CombinedIsCounterMode(aes: BlockCipher, text: seq<Byte>, key: seq<Byte>, p: Uint32, f: Uint32)
    ensures CounterMode(aes, text, key, NonceBytes(p, f, 0), Combined(aes, text, key, NonceBytes(p, f, 0)))
  {
    var nonce := NonceBytes(p, f, 0);
    forall i: nat ensures KeystreamIsBlock(aes, key, nonce, i) { KeystreamBlocks(aes, key, p, f, i); }
    CombinedBytes(aes, text, key, nonce);
  }

  method XorKeystream(aes: BlockCipher, text: seq<Byte>, key: seq<Byte>, packetID: Uint32, fromNode: Uint32)
    returns (r: Crypted)
    ensures r.BadKeyLength? <==> |key| != 16 && |key| != 24 && |key| != 32
    ensures r.Done? ==> r.text == Combined(aes, text, key, NonceBytes(packetID, fromNode, 0))
    ensures r.Done? ==> CounterMode(aes, text, key, NonceBytes(packetID, fromNode, 0), r.text)
  {
    if |key| != 16 && |key| != 24 && |key| != 32 { return BadKeyLength; }
    var iv := CreateNonce(packetID, fromNode, 0);
    var nonce := iv[..];
    var plaintext := [];
    for i := 0 to |text|
      invariant plaintext == Combined(aes, text, key, nonce)[..i]
    {
      plaintext := plaintext + [XorByte(text[i], KeystreamByte(aes, key, nonce, i))];
    }
    CombinedIsCounterMode(aes, text, key, packetID, fromNode);
    return Done(plaintext);
  }

  /** Decrypting is encrypting again, whatever the cipher is. */
  lemma CombinedTwice(aes: BlockCipher, text: seq<Byte>, key: seq<Byte>, nonce: seq<Byte>)
    requires |nonce| == 16
    ensures Combined(aes, Combined(aes, text, key, nonce), key, nonce) == text
  {
    forall i | 0 <= i < |text|
      ensures XorByte(XorByte(text[i], KeystreamByte(aes, key, nonce, i)), KeystreamByte(aes, key, nonce, i)) == text[i]
    {
      var k := KeystreamByte(aes, key, nonce, i);
      XorAssociates(text[i], k, k);
      XorBasics(k);
      XorBasics(text[i]);
    }
  }

  // ---------------------------------------------------------------- what a signature covers

  function SigningBytes(from: Uint32, packetID: Uint32, portnum: Int32, payload: seq<Byte>): seq<Byte> {
    Word(from) + Word(packetID) + Word(Unsigned(portnum)) + payload
  }

  method PacketSigningBuffer(from: Uint32, packetID: Uint32, portnum: Int32, payload: seq<Byte>)
    returns (buf: seq<Byte>)
    ensures buf == SigningBytes(from, packetID, portnum, payload)
  {
    var head := new Byte[12](_ => 0);
    ghost var f, p, n := Word(from), Word(packetID), Word(Unsigned(portnum));
    assert head[..] == [] + ZEROS + (ZEROS + ZEROS);
    Put(head, 0, from, 4, [], ZEROS, ZEROS + ZEROS);
    assert head[..] == f + ZEROS + ZEROS;
    Put(head, 4, packetID, 4, f, ZEROS, ZEROS);
    assert head[..] == (f + p) + ZEROS + [];
    Put(head, 8, Unsigned(portnum), 4, f + p, ZEROS, []);
    assert head[..] == f + p + n;
    buf := head[..] + payload;
  }

  /** Where each number stands in the signed bytes, with negative ports as unsigned numbers. */
  lemma SigningLayout(f: Uint32, p: Uint32, n: Int32, d: seq<Byte>)
    ensures var b := SigningBytes(f, p, n, d);
            && |b| == 12 + |d| && b[12..] == d && WordAt(b, 0) == f && WordAt(b, 4) == p
            && WordAt(b, 8) == if n < 0 then n + 0x1_0000_0000 else n
  {
    var b := SigningBytes(f, p, n, d);
    Words(Word(f), Word(p), Word(Unsigned(n)), d);
    WordBytes(f, b, 0);
    WordBytes(p, b, 4);
    WordBytes(Unsigned(n), b, 8);
  }

  /** A signature binds sender, id, port and payload: no two tuples share the signed bytes. */
  lemma SigningBytesInjective(f: Uint32, p: Uint32, n: Int32, d: seq<Byte>,
                              f': Uint32, p': Uint32, n': Int32, d': seq<Byte>)
    ensures SigningBytes(f, p, n, d) == SigningBytes(f', p', n', d') <==> f == f' && p == p' && n == n' && d == d'
  {
    Words(Word(f), Word(p), Word(Unsigned(n)), d);
    Words(Word(f'), Word(p'), Word(Unsigned(n')), d');
    WordInjective(f, f');
    WordInjective(p, p');
    WordInjective(Unsigned(n), Unsigned(n'));
  }
}
