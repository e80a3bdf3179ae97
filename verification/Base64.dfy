/** The base 64 encodings of RFC 4648, sections 4 and 5, decoded the way Go's encoding/base64
    decodes them: padded, ignoring line breaks, and not insisting on zero trailing bits. */
module Base64 {
  import opened Bytes
  import opened Wrappers

  const PAD: Byte := 0x3D

  /** The standard alphabet, or the URL-safe one, which differs at 62 and 63. */
  function Letter(url: bool, i: nat): Byte
    requires i < 64
  {
    if i < 26 then 0x41 + i
    else if i < 52 then 0x47 + i
    else if i < 62 then i - 4
    else if i == 62 then if url then 0x2D else 0x2B
    else if url then 0x5F else 0x2F
  }

  function LetterValue(url: bool, b: Byte): Option<nat> {
    if 0x41 <= b <= 0x5A then Some(b - 0x41)
    else if 0x61 <= b <= 0x7A then Some(b - 0x47)
    else if 0x30 <= b <= 0x39 then Some(b + 4)
    else if b == (if url then 0x2D else 0x2B) then Some(62)
    else if b == (if url then 0x5F else 0x2F) then Some(63)
    else None
  }

  predicate IsLetter(url: bool, b: Byte) { LetterValue(url, b).Some? }

  function Sextet(url: bool, b: Byte): (v: nat)
    requires IsLetter(url, b)
    ensures v < 64
  {
    LetterValue(url, b).value
  }

  lemma LetterRoundTrip(url: bool, i: nat)
    requires i < 64
    ensures LetterValue(url, Letter(url, i)) == Some(i)
  {}

  function Encode(url: bool, b: seq<Byte>): seq<Byte> {
    if |b| == 0 then []
    else if |b| == 1 then [Letter(url, b[0] / 4), Letter(url, b[0] % 4 * 16), PAD, PAD]
    else if |b| == 2 then
      [Letter(url, b[0] / 4), Letter(url, b[0] % 4 * 16 + b[1] / 16), Letter(url, b[1] % 16 * 4), PAD]
    else
      [Letter(url, b[0] / 4), Letter(url, b[0] % 4 * 16 + b[1] / 16),
       Letter(url, b[1] % 16 * 4 + b[2] / 64), Letter(url, b[2] % 64)]
      + Encode(url, b[3..])
  }

  /** Line breaks are skipped wherever they stand. */
  function WithoutBreaks(s: seq<Byte>): seq<Byte> {
    if s == [] then []
    else if s[0] == 0x0A || s[0] == 0x0D then WithoutBreaks(s[1..])
    else [s[0]] + WithoutBreaks(s[1..])
  }

  function First(x: nat, y: nat): Byte requires x < 64 && y < 64 { x * 4 + y / 16 }
  function Second(y: nat, z: nat): Byte requires y < 64 && z < 64 { y % 16 * 16 + z / 4 }
  function Third(z: nat, w: nat): Byte requires z < 64 && w < 64 { z % 4 * 64 + w }

  function DecodeGroups(url: bool, s: seq<Byte>): Option<seq<Byte>> {
    if s == [] then Some([])
    else if |s| < 4 || !IsLetter(url, s[0]) || !IsLetter(url, s[1]) then None
    else
      var x, y := Sextet(url, s[0]), Sextet(url, s[1]);
      if IsLetter(url, s[2]) && IsLetter(url, s[3]) then
        var z, w := Sextet(url, s[2]), Sextet(url, s[3]);
        match DecodeGroups(url, s[4..])
        case None => None
        case Some(rest) => Some([First(x, y), Second(y, z), Third(z, w)] + rest)
      else if |s| == 4 && s[2] == PAD && s[3] == PAD then Some([First(x, y)])
      else if |s| == 4 && IsLetter(url, s[2]) && s[3] == PAD then Some([First(x, y), Second(y, Sextet(url, s[2]))])
      else None
  }

  function Decode(url: bool, s: seq<Byte>): Option<seq<Byte>> { DecodeGroups(url, WithoutBreaks(s)) }

  /** The sextets of three bytes give the bytes back. */
  lemma Regroup(a: Byte, b: Byte, c: Byte)
    ensures var x, y, z, w := a / 4, a % 4 * 16 + b / 16, b % 16 * 4 + c / 64, c % 64;
            First(x, y) == a && Second(y, z) == b && Third(z, w) == c
  {
    assert (a % 4 * 16 + b / 16) / 16 == a % 4;
    assert (a % 4 * 16 + b / 16) % 16 == b / 16;
    assert (b % 16 * 4 + c / 64) / 4 == b % 16;
    assert (b % 16 * 4 + c / 64) % 4 == c / 64;
  }

  lemma {:induction false} FullGroup(url: bool, a: Byte, b: Byte, c: Byte, rest: seq<Byte>, tail: seq<Byte>)
    requires DecodeGroups(url, tail) == Some(rest)
    ensures DecodeGroups(url, [Letter(url, a / 4), Letter(url, a % 4 * 16 + b / 16),
                               Letter(url, b % 16 * 4 + c / 64), Letter(url, c % 64)] + tail) == Some([a, b, c] + rest)
  {
    Regroup(a, b, c);
    var s := [Letter(url, a / 4), Letter(url, a % 4 * 16 + b / 16),
              Letter(url, b % 16 * 4 + c / 64), Letter(url, c % 64)] + tail;
    assert s[4..] == tail;
    LetterRoundTrip(url, a / 4);
    LetterRoundTrip(url, a % 4 * 16 + b / 16);
    LetterRoundTrip(url, b % 16 * 4 + c / 64);
    LetterRoundTrip(url, c % 64);
  }

  lemma {:induction false} LastByte(url: bool, a: Byte)
    ensures DecodeGroups(url, Encode(url, [a])) == Some([a])
  {
    Regroup(a, 0, 0);
    LetterRoundTrip(url, a / 4);
    LetterRoundTrip(url, a % 4 * 16);
    var s := Encode(url, [a]);
    assert s == [Letter(url, a / 4), Letter(url, a % 4 * 16), PAD, PAD];
  }

  lemma {:induction false} LastBytes(url: bool, a: Byte, b: Byte)
    ensures DecodeGroups(url, Encode(url, [a, b])) == Some([a, b])
  {
    Regroup(a, b, 0);
    LetterRoundTrip(url, a / 4);
    LetterRoundTrip(url, a % 4 * 16 + b / 16);
    LetterRoundTrip(url, b % 16 * 4);
    var s := Encode(url, [a, b]);
    assert s == [Letter(url, a / 4), Letter(url, a % 4 * 16 + b / 16), Letter(url, b % 16 * 4), PAD];
  }

  lemma {:induction false} GroupsRoundTrip(url: bool, b: seq<Byte>)
    ensures DecodeGroups(url, Encode(url, b)) == Some(b)
  {
    if |b| > 2 {
      GroupsRoundTrip(url, b[3..]);
      FullGroup(url, b[0], b[1], b[2], b[3..], Encode(url, b[3..]));
      assert b == [b[0], b[1], b[2]] + b[3..];
    } else if |b| == 2 {
      LastBytes(url, b[0], b[1]);
      assert b == [b[0], b[1]];
    } else if |b| == 1 {
      LastByte(url, b[0]);
      assert b == [b[0]];
    }
  }

  predicate InAlphabet(url: bool, b: Byte) { IsLetter(url, b) || b == PAD }

  lemma {:induction false} EncodeUsesAlphabet(url: bool, b: seq<Byte>)
    ensures forall i :: 0 <= i < |Encode(url, b)| ==> InAlphabet(url, Encode(url, b)[i])
  {
    forall i: nat | i < 64 ensures IsLetter(url, Letter(url, i)) { LetterRoundTrip(url, i); }
    if |b| > 2 { EncodeUsesAlphabet(url, b[3..]); }
  }

  lemma {:induction false} NoBreaksToSkip(s: seq<Byte>)
    requires forall i :: 0 <= i < |s| ==> s[i] != 0x0A && s[i] != 0x0D
    ensures WithoutBreaks(s) == s
  {
    if s != [] { NoBreaksToSkip(s[1..]); }
  }

  /** Decoding inverts encoding, in either alphabet. */
  lemma RoundTrip(url: bool, b: seq<Byte>)
    ensures Decode(url, Encode(url, b)) == Some(b)
  {
    EncodeUsesAlphabet(url, b);
    NoBreaksToSkip(Encode(url, b));
    GroupsRoundTrip(url, b);
  }

  // ---------------------------------------------------------------- the text itself

  /** ASCII text as bytes. */
  function Ascii(s: string): (b: seq<Byte>)
    ensures |b| == |s|
  {
    seq(|s|, i requires 0 <= i < |s| => s[i] as int % 256)
  }

  lemma AsciiAppend(s: string, t: string)
    ensures Ascii(s + t) == Ascii(s) + Ascii(t)
  {}

  lemma AsciiOfFour(s: string)
    requires |s| == 4 && forall i :: 0 <= i < 4 ==> s[i] as int < 256
    ensures Ascii(s) == [s[0] as int, s[1] as int, s[2] as int, s[3] as int]
  {}

  const UPPER := "ABCDEFGHIJKLMNOPQRSTUVWXYZ"
  const LOWER := "abcdefghijklmnopqrstuvwxyz"
  const DIGITS := "0123456789"

  /** Tables 1 and 2 of RFC 4648. */
  lemma LettersAreTables(i: nat)
    requires i < 64
    ensures Letter(false, i) == (UPPER + LOWER + DIGITS + "+/")[i] as int
    ensures Letter(true, i) == (UPPER + LOWER + DIGITS + "-_")[i] as int
  {
    assert |UPPER| == 26 && |LOWER| == 26 && |DIGITS| == 10;
    if i < 26 { UpperLetter(i); } else if i < 52 { LowerLetter(i - 26); } else if i < 62 { DigitLetter(i - 52); }
  }

  lemma UpperLetter(i: nat)
    requires i < 26
    ensures UPPER[i] as int == 0x41 + i
  {}

  lemma LowerLetter(i: nat)
    requires i < 26
    ensures LOWER[i] as int == 0x61 + i
  {}

  lemma DigitLetter(i: nat)
    requires i < 10
    ensures DIGITS[i] as int == 0x30 + i
  {}

  predicate NoBreaks(s: seq<Byte>) { forall i :: 0 <= i < |s| ==> s[i] != 0x0A && s[i] != 0x0D }

  predicate Spelled(url: bool, b: Byte) {
    || 'A' as int <= b <= 'Z' as int || 'a' as int <= b <= 'z' as int || '0' as int <= b <= '9' as int
    || (if url then b == '-' as int || b == '_' as int else b == '+' as int || b == '/' as int)
  }

  /** Whole groups of four letters, the last with at most two pads at its end. */
  predicate WellFormed(url: bool, s: seq<Byte>) {
    && |s| % 4 == 0
    && (forall i :: 0 <= i < |s| - 2 ==> Spelled(url, s[i]))
    && (s != [] ==> var y, z := s[|s| - 2], s[|s| - 1];
                    (Spelled(url, y) && (Spelled(url, z) || z == '=' as int)) || y == z == '=' as int)
  }

  lemma GroupAhead(url: bool, s: seq<Byte>)
    requires |s| >= 8
    ensures WellFormed(url, s) <==>
              && Spelled(url, s[0]) && Spelled(url, s[1]) && Spelled(url, s[2]) && Spelled(url, s[3])
              && WellFormed(url, s[4..])
  {
    var t := s[4..];
    assert forall i :: 4 <= i < |s| ==> s[i] == t[i - 4];
    assert forall i :: 0 <= i < |t| ==> t[i] == s[i + 4];
  }

  lemma {:induction false} GroupsExactly(url: bool, s: seq<Byte>)
    ensures DecodeGroups(url, s).Some? <==> WellFormed(url, s)
  {
    if |s| >= 8 {
      GroupsExactly(url, s[4..]);
      GroupAhead(url, s);
    }
  }

  /** Text without line breaks decodes exactly when it is well formed. */
  lemma DecodesExactly(url: bool, s: seq<Byte>)
    requires NoBreaks(s)
    ensures Decode(url, s).Some? <==> WellFormed(url, s)
  {
    NoBreaksToSkip(s);
    GroupsExactly(url, s);
  }

  lemma {:induction false} WithoutBreaksAppend(a: seq<Byte>, b: seq<Byte>)
    ensures WithoutBreaks(a + b) == WithoutBreaks(a) + WithoutBreaks(b)
  {
    if a == [] {
      assert a + b == b;
    } else {
      assert (a + b)[1..] == a[1..] + b;
      WithoutBreaksAppend(a[1..], b);
    }
  }

  /** A line break anywhere makes no difference. */
  lemma BreakIgnored(url: bool, a: seq<Byte>, br: Byte, b: seq<Byte>)
    requires br == 0x0A || br == 0x0D
    ensures Decode(url, a + [br] + b) == Decode(url, a + b)
  {
    WithoutBreaksAppend(a + [br], b);
    WithoutBreaksAppend(a, [br]);
    WithoutBreaksAppend(a, b);
    assert WithoutBreaks([br]) == [];
    assert WithoutBreaks(a) + [] == WithoutBreaks(a);
  }

  /** All but a letter right before padding, which may carry unused bits. */
  predicate Carries(s: seq<Byte>, i: nat)
    requires i < |s|
  {
    i == |s| - 1 || s[i] == '=' as int || s[i + 1] != '=' as int
  }

  predicate SpellsAgain(e: seq<Byte>, s: seq<Byte>) {
    |e| == |s| && forall i :: 0 <= i < |s| && Carries(s, i) ==> e[i] == s[i]
  }

  /** Encoding what was decoded spells the text again, up to unused bits before padding. */
  lemma {:induction false} DecodeThenEncode(url: bool, s: seq<Byte>)
    requires DecodeGroups(url, s).Some?
    ensures SpellsAgain(Encode(url, DecodeGroups(url, s).value), s)
  {
    if s != [] {
      if IsLetter(url, s[2]) && IsLetter(url, s[3]) {
        FirstGroup(url, s);
        DecodeThenEncode(url, s[4..]);
        FullGroupBack(url, s, DecodeGroups(url, s[4..]).value);
      } else {
        PaddedGroupBack(url, s);
      }
    }
  }

  lemma FirstGroup(url: bool, s: seq<Byte>)
    requires DecodeGroups(url, s).Some? && |s| >= 4 && IsLetter(url, s[2]) && IsLetter(url, s[3])
    ensures IsLetter(url, s[0]) && IsLetter(url, s[1]) && DecodeGroups(url, s[4..]).Some?
    ensures var x, y, z, w := Sextet(url, s[0]), Sextet(url, s[1]), Sextet(url, s[2]), Sextet(url, s[3]);
            DecodeGroups(url, s).value
            == [First(x, y), Second(y, z), Third(z, w)] + DecodeGroups(url, s[4..]).value
  {}

  lemma FullGroupBack(url: bool, s: seq<Byte>, rest: seq<Byte>)
    requires |s| >= 4 && IsLetter(url, s[0]) && IsLetter(url, s[1]) && IsLetter(url, s[2]) && IsLetter(url, s[3])
    requires SpellsAgain(Encode(url, rest), s[4..])
    ensures var x, y, z, w := Sextet(url, s[0]), Sextet(url, s[1]), Sextet(url, s[2]), Sextet(url, s[3]);
            SpellsAgain(Encode(url, [First(x, y), Second(y, z), Third(z, w)] + rest), s)
  {
    var x, y, z, w := Sextet(url, s[0]), Sextet(url, s[1]), Sextet(url, s[2]), Sextet(url, s[3]);
    Ungroup(x, y, z, w);
    EncodeFullGroup(url, First(x, y), Second(y, z), Third(z, w), rest);
    FourLettersBack(url, s);
    SpellsMore(s[..4], Encode(url, rest), s);
  }

  lemma FourLettersBack(url: bool, s: seq<Byte>)
    requires |s| >= 4 && IsLetter(url, s[0]) && IsLetter(url, s[1]) && IsLetter(url, s[2]) && IsLetter(url, s[3])
    ensures s[..4] == [Letter(url, Sextet(url, s[0])), Letter(url, Sextet(url, s[1])),
                       Letter(url, Sextet(url, s[2])), Letter(url, Sextet(url, s[3]))]
  {
    LetterBack(url, s[0]);
    LetterBack(url, s[1]);
    LetterBack(url, s[2]);
    LetterBack(url, s[3]);
  }

  lemma SpellsMore(group: seq<Byte>, e: seq<Byte>, s: seq<Byte>)
    requires |s| >= 4 && group == s[..4] && SpellsAgain(e, s[4..])
    ensures SpellsAgain(group + e, s)
  {
    forall i | 0 <= i < |s| && Carries(s, i) ensures (group + e)[i] == s[i] {
      if i >= 4 { assert Carries(s[4..], i - 4) && s[4..][i - 4] == s[i]; }
    }
  }

  lemma EncodeFullGroup(url: bool, a: Byte, b: Byte, c: Byte, rest: seq<Byte>)
    ensures Encode(url, [a, b, c] + rest)
         == [Letter(url, a / 4), Letter(url, a % 4 * 16 + b / 16),
             Letter(url, b % 16 * 4 + c / 64), Letter(url, c % 64)] + Encode(url, rest)
  {
    assert ([a, b, c] + rest)[3..] == rest;
  }

  lemma PaddedGroupBack(url: bool, s: seq<Byte>)
    requires s != [] && DecodeGroups(url, s).Some? && !(IsLetter(url, s[2]) && IsLetter(url, s[3]))
    ensures SpellsAgain(Encode(url, DecodeGroups(url, s).value), s)
  {
    var x, y := Sextet(url, s[0]), Sextet(url, s[1]);
    LetterBack(url, s[0]);
    LetterBack(url, s[1]);
    if s[2] == PAD {
      Ungroup(x, y, 0, 0);
    } else {
      Ungroup(x, y, Sextet(url, s[2]), 0);
    }
  }

  lemma LetterBack(url: bool, b: Byte)
    requires IsLetter(url, b)
    ensures Letter(url, Sextet(url, b)) == b
  {}

  /** The bytes of four sextets give the sextets back. */
  lemma Ungroup(x: nat, y: nat, z: nat, w: nat)
    requires x < 64 && y < 64 && z < 64 && w < 64
    ensures First(x, y) / 4 == x && First(x, y) % 4 * 16 + Second(y, z) / 16 == y
    ensures Second(y, z) % 16 * 4 + Third(z, w) / 64 == z && Third(z, w) % 64 == w
  {
    assert y == y / 16 * 16 + y % 16 && z == z / 4 * 4 + z % 4;
  }

  /** Text is URL-safe when it shows one of that alphabet's two own letters. */
  predicate LooksUrlSafe(s: seq<Byte>) { 0x2D in s || 0x5F in s }

  lemma StandardNeverLooksUrlSafe(b: seq<Byte>)
    ensures !LooksUrlSafe(Encode(false, b))
  {
    EncodeUsesAlphabet(false, b);
  }

  /** URL-safe text without those letters is the standard text. */
  lemma {:induction false} AlphabetsAgree(b: seq<Byte>)
    requires !LooksUrlSafe(Encode(true, b))
    ensures Encode(true, b) == Encode(false, b)
  {
    var e := Encode(true, b);
    if |b| > 2 {
      assert e == e[..4] + Encode(true, b[3..]);
      AlphabetsAgree(b[3..]);
      assert e[0] in e && e[1] in e && e[2] in e && e[3] in e;
    } else if |b| > 0 {
      assert e[0] in e && e[1] in e && e[2] in e;
    }
  }

  /** Choosing the alphabet by looking at the text decodes both encodings of every byte string. */
  lemma EitherAlphabetDecodes(url: bool, b: seq<Byte>)
    ensures var s := Encode(url, b); Decode(LooksUrlSafe(s), s) == Some(b)
  {
    RoundTrip(true, b);
    RoundTrip(false, b);
    StandardNeverLooksUrlSafe(b);
    if url && !LooksUrlSafe(Encode(url, b)) { AlphabetsAgree(b); }
  }
}
