/** UTF-8 as RFC 3629 defines it, and decoding at either end of a byte string as Go's
    unicode/utf8 package does it. */
module Utf8 {
  import opened Bytes

  /** Unicode scalar values. */
  type Rune = r: int | 0 <= r <= 0x10FFFF && !(0xD800 <= r <= 0xDFFF)

  const RUNE_ERROR: Rune := 0xFFFD

  /** The encoding table of section 3 of RFC 3629. */
  function EncodeRune(r: Rune): (b: seq<Byte>)
    ensures 1 <= |b| <= 4
  {
    if r < 0x80 then [r]
    else if r < 0x800 then [0xC0 + r / 64, 0x80 + r % 64]
    else if r < 0x1_0000 then [0xE0 + r / 4096, 0x80 + r / 64 % 64, 0x80 + r % 64]
    else [0xF0 + r / 262144, 0x80 + r / 4096 % 64, 0x80 + r / 64 % 64, 0x80 + r % 64]
  }

  predicate IsTail(b: Byte) { 0x80 <= b <= 0xBF }

  /** The grammar of section 4 of RFC 3629: UTF8-1, UTF8-2, UTF8-3 and UTF8-4. */
  predicate IsEncoding(b: seq<Byte>) {
    match |b|
    case 1 => b[0] <= 0x7F
    case 2 => 0xC2 <= b[0] <= 0xDF && IsTail(b[1])
    case 3 =>
      && IsTail(b[2])
      && (|| (b[0] == 0xE0 && 0xA0 <= b[1] <= 0xBF)
          || (0xE1 <= b[0] <= 0xEC && IsTail(b[1]))
          || (b[0] == 0xED && 0x80 <= b[1] <= 0x9F)
          || (0xEE <= b[0] <= 0xEF && IsTail(b[1])))
    case 4 =>
      && IsTail(b[2]) && IsTail(b[3])
      && (|| (b[0] == 0xF0 && 0x90 <= b[1] <= 0xBF)
          || (0xF1 <= b[0] <= 0xF3 && IsTail(b[1]))
          || (b[0] == 0xF4 && 0x80 <= b[1] <= 0x8F))
    case _ => false
  }

  function DecodeRune(b: seq<Byte>): Rune
    requires IsEncoding(b)
  {
    match |b|
    case 1 => b[0]
    case 2 => Decode2(b[0], b[1])
    case 3 => Decode3(b[0], b[1], b[2])
    case _ => Decode4(b[0], b[1], b[2], b[3])
  }

  function Decode2(b0: int, b1: int): int { (b0 - 0xC0) * 64 + (b1 - 0x80) }
  function Decode3(b0: int, b1: int, b2: int): int { (b0 - 0xE0) * 4096 + (b1 - 0x80) * 64 + (b2 - 0x80) }
  function Decode4(b0: int, b1: int, b2: int, b3: int): int {
    (b0 - 0xF0) * 262144 + (b1 - 0x80) * 4096 + (b2 - 0x80) * 64 + (b3 - 0x80)
  }

  /** The table and the grammar describe the same strings, and decoding inverts encoding. */
  lemma EncodeThenDecode(r: Rune)
    ensures IsEncoding(EncodeRune(r)) && DecodeRune(EncodeRune(r)) == r
  {
    Digits64(r);
    if r < 0x800 {
    } else if r < 0x1_0000 {
      var b := EncodeRune(r);
      assert |b| == 3 && IsEncoding(b);
    } else {
      var b := EncodeRune(r);
      assert |b| == 4 && IsEncoding(b);
    }
  }

  /** The base-64 digits of a number. */
  lemma Digits64(r: nat)
    requires r < 0x20_0000
    ensures r / 4096 == r / 64 / 64 && r / 262144 == r / 4096 / 64
    ensures r == r / 64 * 64 + r % 64 && r / 64 == r / 4096 * 64 + r / 64 % 64
    ensures r / 4096 == r / 262144 * 64 + r / 4096 % 64
  {}

  lemma DecodeThenEncode(b: seq<Byte>)
    requires IsEncoding(b)
    ensures EncodeRune(DecodeRune(b)) == b
  {
    match |b| {
      case 1 =>
      case 2 => Inverse2(b[0], b[1]);
      case 3 => Inverse3(b[0], b[1], b[2]);
      case _ => Inverse4(b[0], b[1], b[2], b[3]);
    }
  }

  lemma Inverse2(b0: int, b1: int)
    requires 0xC0 <= b0 && 0x80 <= b1 < 0xC0
    ensures var r := Decode2(b0, b1); r / 64 == b0 - 0xC0 && r % 64 == b1 - 0x80
  {}

  lemma Inverse3(b0: int, b1: int, b2: int)
    requires 0xE0 <= b0 && 0x80 <= b1 < 0xC0 && 0x80 <= b2 < 0xC0
    ensures var r := Decode3(b0, b1, b2);
            r / 4096 == b0 - 0xE0 && r / 64 % 64 == b1 - 0x80 && r % 64 == b2 - 0x80
  {
    var r := Decode3(b0, b1, b2);
    assert r / 64 == (b0 - 0xE0) * 64 + (b1 - 0x80);
  }

  lemma Inverse4(b0: int, b1: int, b2: int, b3: int)
    requires 0xF0 <= b0 && 0x80 <= b1 < 0xC0 && 0x80 <= b2 < 0xC0 && 0x80 <= b3 < 0xC0
    ensures var r := Decode4(b0, b1, b2, b3);
            r / 262144 == b0 - 0xF0 && r / 4096 % 64 == b1 - 0x80 && r / 64 % 64 == b2 - 0x80 && r % 64 == b3 - 0x80
  {
    var r := Decode4(b0, b1, b2, b3);
    assert r / 64 == (b0 - 0xF0) * 4096 + (b1 - 0x80) * 64 + (b2 - 0x80);
    assert r / 4096 == (b0 - 0xF0) * 64 + (b1 - 0x80);
  }

  function Encode(rs: seq<Rune>): seq<Byte> {
    if rs == [] then [] else Encode(rs[..|rs| - 1]) + EncodeRune(rs[|rs| - 1])
  }

  /** The length a lead byte announces. */
  function LeadLength(b: Byte): nat {
    if b <= 0x7F then 1 else if b <= 0xBF then 0 else if b <= 0xDF then 2 else if b <= 0xEF then 3 else 4
  }

  lemma EncodingShape(b: seq<Byte>)
    ensures IsEncoding(b) ==> 1 <= |b| <= 4 && LeadLength(b[0]) == |b| && !IsTail(b[0])
    ensures IsEncoding(b) ==> forall i :: 1 <= i < |b| ==> IsTail(b[i])
  {}

  // ---------------------------------------------------------------- decoding at the ends

  /** A rune and the number of bytes it took; RuneError with size 1 for invalid input, size 0 for
      the empty string. */
  datatype Decoded = Decoded(rune: Rune, size: nat)

  predicate EndsIn(b: seq<Byte>, n: nat) { n <= |b| && IsEncoding(b[|b| - n..]) }
  predicate StartsWith(b: seq<Byte>, n: nat) { n <= |b| && IsEncoding(b[..n]) }

  /** The length of the encoding at the end of a string, or 0. */
  function LastSize(b: seq<Byte>): (n: nat)
    ensures if n == 0 then !EndsIn(b, 1) && !EndsIn(b, 2) && !EndsIn(b, 3) && !EndsIn(b, 4) else n <= 4 && EndsIn(b, n)
  {
    if EndsIn(b, 1) then 1 else if EndsIn(b, 2) then 2 else if EndsIn(b, 3) then 3 else if EndsIn(b, 4) then 4 else 0
  }

  function FirstSize(b: seq<Byte>): (n: nat)
    ensures if n == 0 then !StartsWith(b, 1) && !StartsWith(b, 2) && !StartsWith(b, 3) && !StartsWith(b, 4)
            else n <= 4 && StartsWith(b, n)
  {
    if StartsWith(b, 1) then 1 else if StartsWith(b, 2) then 2
    else if StartsWith(b, 3) then 3 else if StartsWith(b, 4) then 4 else 0
  }

  function DecodeLast(b: seq<Byte>): (d: Decoded)
    ensures if b == [] then d.size == 0 else 1 <= d.size <= |b|
  {
    var n := LastSize(b);
    if b == [] then Decoded(RUNE_ERROR, 0)
    else if n == 0 then Decoded(RUNE_ERROR, 1)
    else Decoded(DecodeRune(b[|b| - n..]), n)
  }

  function DecodeFirst(b: seq<Byte>): (d: Decoded)
    ensures if b == [] then d.size == 0 else 1 <= d.size <= |b|
  {
    var n := FirstSize(b);
    if b == [] then Decoded(RUNE_ERROR, 0)
    else if n == 0 then Decoded(RUNE_ERROR, 1)
    else Decoded(DecodeRune(b[..n]), n)
  }

  /** No encoding is a proper suffix of another. */
  lemma EndsInUnique(b: seq<Byte>, n: nat, m: nat)
    requires EndsIn(b, n) && EndsIn(b, m)
    ensures n == m
  {
    if m < n { EndsInUnique(b, m, n); }
    EncodingShape(b[|b| - n..]);
    EncodingShape(b[|b| - m..]);
    assert b[|b| - m..][m - n] == b[|b| - n..][0];
  }

  lemma StartsWithUnique(b: seq<Byte>, n: nat, m: nat)
    requires StartsWith(b, n) && StartsWith(b, m)
    ensures n == m
  {
    EncodingShape(b[..n]);
    EncodingShape(b[..m]);
    assert b[..n][0] == b[..m][0];
  }

  /** A string that ends in an encoded rune decodes to that rune at its end. */
  lemma DecodeLastOf(a: seq<Byte>, r: Rune)
    ensures DecodeLast(a + EncodeRune(r)) == Decoded(r, |EncodeRune(r)|)
  {
    var b, n := a + EncodeRune(r), |EncodeRune(r)|;
    EncodeThenDecode(r);
    assert b[|b| - n..] == EncodeRune(r);
    assert EndsIn(b, n);
    if LastSize(b) != 0 { EndsInUnique(b, n, LastSize(b)); }
  }

  lemma DecodeFirstOf(r: Rune, a: seq<Byte>)
    ensures DecodeFirst(EncodeRune(r) + a) == Decoded(r, |EncodeRune(r)|)
  {
    var b, n := EncodeRune(r) + a, |EncodeRune(r)|;
    EncodeThenDecode(r);
    assert b[..n] == EncodeRune(r);
    assert StartsWith(b, n);
    if FirstSize(b) != 0 { StartsWithUnique(b, n, FirstSize(b)); }
  }

  /** A string cut inside a rune does not end in one. */
  lemma CutRuneEndsInNone(a: seq<Byte>, r: Rune, cut: nat, n: nat)
    requires 0 < cut < |EncodeRune(r)|
    ensures !EndsIn(a + EncodeRune(r)[..cut], n)
  {
    var e := EncodeRune(r);
    var b := a + e[..cut];
    EncodeThenDecode(r);
    EncodingShape(e);
    if 0 < n <= |b| {
      var t := b[|b| - n..];
      EncodingShape(t);
      if n <= cut { assert t[0] == e[cut - n]; } else { assert t[n - cut] == e[0]; }
    }
  }

  lemma Reassociate<T>(a: seq<T>, b: seq<T>, c: seq<T>)
    ensures a + b + c == a + (b + c)
  {}

  lemma EncodeLast(rs: seq<Rune>, r: Rune)
    ensures Encode(rs + [r]) == Encode(rs) + EncodeRune(r)
  {
    assert (rs + [r])[..|rs|] == rs;
  }

  lemma {:induction false} EncodePrefix(rs: seq<Rune>, k: nat)
    requires k <= |rs|
    ensures Encode(rs[..k]) <= Encode(rs)
  {
    if k < |rs| {
      EncodePrefix(rs[..|rs| - 1], k);
      assert rs[..|rs| - 1][..k] == rs[..k];
    } else {
      assert rs[..k] == rs;
    }
  }

  lemma AppendStep(rs: seq<Rune>, front: seq<Rune>, r: Rune, ts: seq<Rune>)
    requires ts == front + [r]
    requires Encode(rs + front) == Encode(rs) + Encode(front)
    requires Encode(rs + front + [r]) == Encode(rs + front) + EncodeRune(r)
    requires Encode(ts) == Encode(front) + EncodeRune(r)
    ensures Encode(rs + ts) == Encode(rs) + Encode(ts)
  {
    Reassociate(rs, front, [r]);
    Reassociate(Encode(rs), Encode(front), EncodeRune(r));
  }

  lemma {:induction false} EncodeAppend(rs: seq<Rune>, ts: seq<Rune>)
    ensures Encode(rs + ts) == Encode(rs) + Encode(ts)
  {
    if ts == [] {
      assert rs + ts == rs;
    } else {
      var front, r := ts[..|ts| - 1], ts[|ts| - 1];
      EncodeAppend(rs, front);
      EncodeLast(rs + front, r);
      EncodeLast(front, r);
      AppendStep(rs, front, r, ts);
    }
  }

  lemma EncodeSingle(r: Rune)
    ensures Encode([r]) == EncodeRune(r)
  {
    assert [r][..0] == [];
  }

  lemma {:induction false} EncodeFirst(rs: seq<Rune>)
    requires rs != []
    ensures Encode(rs) == EncodeRune(rs[0]) + Encode(rs[1..])
  {
    EncodeSingle(rs[0]);
    EncodeAppend([rs[0]], rs[1..]);
    assert [rs[0]] + rs[1..] == rs;
  }
}
