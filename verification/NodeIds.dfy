/** Node identifiers as text (core/node_id.go). Text is a byte string, as in Go. */
module NodeIds {
  import opened Bits
  import opened Bytes
  import opened Utf8
  import opened Wrappers

  type NodeID = Uint32

  // ---------------------------------------------------------------- digits

  /** The lower-case hexadecimal digits '0'-'9' and 'a'-'f'. */
  function HexDigit(d: nat): Byte
    requires d < 16
  {
    if d < 10 then 0x30 + d else 0x57 + d
  }

  /** n in hexadecimal, zero-padded to the given width. */
  function Hex(n: nat, width: nat): (s: seq<Byte>)
    ensures |s| == width
  {
    if width == 0 then [] else Hex(n / 16, width - 1) + [HexDigit(n % 16)]
  }

  /** fmt.Sprintf("!%08x", n). */
  function NodeString(n: NodeID): seq<Byte> { [0x21] + Hex(n, 8) }

  /** The value of an ASCII digit or letter of either case; 36 for anything else. */
  function DigitValue(b: Byte): nat {
    if 0x30 <= b <= 0x39 then b - 0x30
    else if 0x61 <= b <= 0x7A then b - 0x57
    else if 0x41 <= b <= 0x5A then b - 0x37
    else 36
  }

  predicate AreDigits(s: seq<Byte>, base: nat) {
    s != [] && forall i :: 0 <= i < |s| ==> DigitValue(s[i]) < base
  }

  function Value(s: seq<Byte>, base: nat): nat {
    if s == [] then 0 else Value(s[..|s| - 1], base) * base + DigitValue(s[|s| - 1])
  }

  /** strconv.ParseUint(s, base, 32). */
  function ParseUint(s: seq<Byte>, base: nat): Option<Uint32> {
    if AreDigits(s, base) && Value(s, base) < 0x1_0000_0000 then Some(Value(s, base)) else None
  }

  lemma {:induction false} HexRoundTrip(n: nat, width: nat)
    requires n < Pow2(4 * width)
    ensures Value(Hex(n, width), 16) == n
    ensures forall i :: 0 <= i < width ==> DigitValue(Hex(n, width)[i]) < 16
  {
    if width > 0 {
      Pow2Add(4, 4 * (width - 1));
      assert Pow2(4) == 16;
      HexRoundTrip(n / 16, width - 1);
      assert Hex(n, width)[..width - 1] == Hex(n / 16, width - 1);
    }
  }

  /** Any number of leading zeros leaves the value alone. */
  lemma {:induction false} LeadingZeros(zeros: nat, s: seq<Byte>, base: nat)
    ensures Value(seq(zeros, _ => 0x30) + s, base) == Value(s, base)
  {
    var z := seq(zeros, _ => 0x30);
    if s == [] {
      assert z + s == z;
      if zeros > 0 {
        LeadingZeros(zeros - 1, [], base);
        assert z[..zeros - 1] == seq(zeros - 1, _ => 0x30);
        assert seq(zeros - 1, _ => 0x30) + [] == z[..zeros - 1];
      }
    } else {
      LeadingZeros(zeros, s[..|s| - 1], base);
      assert (z + s)[..|z + s| - 1] == z + s[..|s| - 1];
    }
  }

  // ---------------------------------------------------------------- white space

  /** unicode.IsSpace. */
  predicate IsSpace(r: Rune) {
    || 0x09 <= r <= 0x0D || r == 0x20 || r == 0x85 || r == 0xA0 || r == 0x1680 || 0x2000 <= r <= 0x200A
    || r == 0x2028 || r == 0x2029 || r == 0x202F || r == 0x205F || r == 0x3000
  }

  function TrimLeft(s: seq<Byte>): seq<Byte> {
    if s != [] && IsSpace(DecodeFirst(s).rune) then TrimLeft(s[DecodeFirst(s).size..]) else s
  }

  function TrimRight(s: seq<Byte>): seq<Byte> {
    if s != [] && IsSpace(DecodeLast(s).rune) then TrimRight(s[..|s| - DecodeLast(s).size]) else s
  }

  /** strings.TrimSpace. */
  function TrimSpace(s: seq<Byte>): seq<Byte> { TrimRight(TrimLeft(s)) }

  predicate AllSpace(w: seq<Rune>) { forall i :: 0 <= i < |w| ==> IsSpace(w[i]) }

  lemma TrimLeftSpace(r: Rune, s: seq<Byte>)
    requires IsSpace(r)
    ensures TrimLeft(EncodeRune(r) + s) == TrimLeft(s)
  {
    DecodeFirstOf(r, s);
    assert (EncodeRune(r) + s)[|EncodeRune(r)|..] == s;
  }

  lemma {:induction false} TrimLeftSpaces(w: seq<Rune>, s: seq<Byte>)
    requires AllSpace(w)
    ensures TrimLeft(Encode(w) + s) == TrimLeft(s)
  {
    if w == [] {
      assert Encode(w) + s == s;
    } else {
      var rest := Encode(w[1..]) + s;
      EncodeFirst(w);
      Reassociate(EncodeRune(w[0]), Encode(w[1..]), s);
      TrimLeftSpace(w[0], rest);
      TrimLeftSpaces(w[1..], s);
    }
  }

  lemma {:induction false} TrimRightSpaces(s: seq<Byte>, w: seq<Rune>)
    requires AllSpace(w)
    ensures TrimRight(s + Encode(w)) == TrimRight(s)
  {
    if w == [] {
      assert s + Encode(w) == s;
    } else {
      var front, e := Encode(w[..|w| - 1]), EncodeRune(w[|w| - 1]);
      Reassociate(s, front, e);
      DecodeLastOf(s + front, w[|w| - 1]);
      assert (s + front + e)[..|s + front + e| - |e|] == s + front;
      TrimRightSpaces(s, w[..|w| - 1]);
    }
  }

  /** Text that begins and ends with a visible ASCII byte. */
  predicate Bare(s: seq<Byte>) {
    s != [] && 0x21 <= s[0] <= 0x7E && 0x21 <= s[|s| - 1] <= 0x7E
  }

  /** Surrounding white space of any kind is all that trimming removes. */
  lemma TrimAround(w: seq<Rune>, s: seq<Byte>, w': seq<Rune>)
    requires AllSpace(w) && AllSpace(w') && Bare(s)
    ensures TrimSpace(Encode(w) + s + Encode(w')) == s
  {
    var t := s + Encode(w');
    Reassociate(Encode(w), s, Encode(w'));
    TrimLeftSpaces(w, t);
    VisibleStart(t);
    TrimRightSpaces(s, w');
    VisibleEnd(s);
  }

  lemma VisibleStart(t: seq<Byte>)
    requires t != [] && 0x21 <= t[0] <= 0x7E
    ensures TrimLeft(t) == t
  {
    assert t[..1] == [t[0]];
    assert FirstSize(t) == 1;
  }

  lemma VisibleEnd(s: seq<Byte>)
    requires s != [] && 0x21 <= s[|s| - 1] <= 0x7E
    ensures TrimRight(s) == s
  {
    assert s[|s| - 1..] == [s[|s| - 1]];
    assert LastSize(s) == 1;
  }

  lemma TrimBare(s: seq<Byte>)
    requires Bare(s)
    ensures TrimSpace(s) == s
  {
    TrimAround([], s, []);
    assert Encode([]) + s + Encode([]) == s;
  }

  // ---------------------------------------------------------------- the parser

  datatype Parsed = Ok(id: NodeID) | EmptyText | InvalidText

  function FromOption(o: Option<Uint32>): Parsed {
    match o
    case Some(n) => Ok(n)
    case None => InvalidText
  }

  predicate HasPrefix(s: seq<Byte>, p: seq<Byte>) { p <= s }

  const BANG: seq<Byte> := [0x21]
  const ZERO_X: seq<Byte> := [0x30, 0x78]
  const ZERO_BIG_X: seq<Byte> := [0x30, 0x58]

  predicate IsHexLetter(b: Byte) { 0x61 <= b <= 0x66 || 0x41 <= b <= 0x46 }

  /** strings.ContainsAny(strings.ToLower(s), "abcdef"). */
  predicate HasHexLetter(s: seq<Byte>) { exists i :: 0 <= i < |s| && IsHexLetter(s[i]) }

  function ParseNodeID(text: seq<Byte>): Parsed { ParseTrimmed(TrimSpace(text)) }

  function ParseTrimmed(s: seq<Byte>): Parsed {
    if s == [] then EmptyText
    else if HasPrefix(s, BANG) then FromOption(ParseUint(s[1..], 16))
    else if HasPrefix(s, ZERO_X) || HasPrefix(s, ZERO_BIG_X) then FromOption(ParseUint(s[2..], 16))
    else if HasHexLetter(s) then FromOption(ParseUint(s, 16))
    else
      match ParseUint(s, 10)
      case Some(n) => Ok(n)
      case None => if |s| == 8 then FromOption(ParseUint(s, 16)) else InvalidText
  }

  /** The printed form parses back to the node, whatever white space surrounds it. */
  lemma PrintThenParse(w: seq<Rune>, n: NodeID, w': seq<Rune>)
    requires AllSpace(w) && AllSpace(w')
    ensures ParseNodeID(Encode(w) + NodeString(n) + Encode(w')) == Ok(n)
  {
    PrintedIsBare(n);
    TrimAround(w, NodeString(n), w');
    PrintedTrimmed(n);
  }

  lemma PrintedTrimmed(n: NodeID)
    ensures ParseTrimmed(NodeString(n)) == Ok(n)
  {
    Pow2Words();
    HexRoundTrip(n, 8);
    AfterPrefix(BANG, Hex(n, 8));
    ParsePrefixed(NodeString(n));
  }

  lemma PrintedIsBare(n: NodeID)
    ensures Bare(NodeString(n))
  {
    HexByte(n, 8, 7);
    assert NodeString(n)[8] == Hex(n, 8)[7];
  }

  lemma PrintedParses(n: NodeID)
    ensures ParseNodeID(NodeString(n)) == Ok(n)
  {
    PrintedIsBare(n);
    TrimBare(NodeString(n));
    PrintedTrimmed(n);
  }

  /** A prefixed string of hexadecimal digits of any case and any length parses to its value, and
      is refused exactly when that value needs more than 32 bits. */
  lemma PrefixedHex(prefix: seq<Byte>, d: seq<Byte>)
    requires prefix in {BANG, ZERO_X, ZERO_BIG_X} && AreDigits(d, 16)
    ensures ParseNodeID(prefix + d) == if Value(d, 16) < 0x1_0000_0000 then Ok(Value(d, 16)) else InvalidText
  {
    var s := prefix + d;
    assert DigitValue(d[|d| - 1]) < 16;
    assert s[0] == prefix[0] && s[|s| - 1] == d[|d| - 1];
    TrimBare(s);
    AfterPrefix(prefix, d);
    ParsePrefixed(s);
  }

  lemma AfterPrefix(prefix: seq<Byte>, d: seq<Byte>)
    ensures HasPrefix(prefix + d, prefix) && (prefix + d)[|prefix|..] == d
  {}

  lemma ParsePrefixed(s: seq<Byte>)
    ensures HasPrefix(s, BANG) ==> ParseTrimmed(s) == FromOption(ParseUint(s[1..], 16))
    ensures HasPrefix(s, ZERO_X) || HasPrefix(s, ZERO_BIG_X) ==> ParseTrimmed(s) == FromOption(ParseUint(s[2..], 16))
  {
    if HasPrefix(s, ZERO_X) || HasPrefix(s, ZERO_BIG_X) { assert s[0] == 0x30; }
  }

  // ---------------------------------------------------------------- text without a prefix

  function Pow10(n: nat): nat { if n == 0 then 1 else 10 * Pow10(n - 1) }

  lemma {:induction false} DecimalDigits(s: seq<Byte>, n: nat)
    requires forall i :: 0 <= i < |s| ==> DigitValue(s[i]) < 10
    ensures |s| <= n ==> Value(s, 10) < Pow10(n)
  {
    if 0 < |s| <= n {
      DecimalDigits(s[..|s| - 1], n - 1);
    } else if |s| == 0 && n > 0 {
      DecimalDigits(s, n - 1);
    }
  }

  /** The hexadecimal fallback for eight-character text can never succeed. */
  lemma FallbackNeverSucceeds(s: seq<Byte>)
    requires |s| == 8 && !HasHexLetter(s) && ParseUint(s, 10).None?
    ensures ParseUint(s, 16).None?
  {
    if AreDigits(s, 16) {
      forall i | 0 <= i < |s| ensures DigitValue(s[i]) < 10 {
        assert !IsHexLetter(s[i]);
      }
      DecimalDigits(s, 8);
    }
  }

  /** Without a prefix, text is hexadecimal when it has a letter a to f and decimal otherwise. */
  lemma UnprefixedText(text: seq<Byte>)
    requires var s := TrimSpace(text);
             s != [] && !HasPrefix(s, BANG) && !HasPrefix(s, ZERO_X) && !HasPrefix(s, ZERO_BIG_X)
    ensures var s := TrimSpace(text);
            ParseNodeID(text) == FromOption(ParseUint(s, if HasHexLetter(s) then 16 else 10))
  {
    UnprefixedTrimmed(TrimSpace(text));
  }

  lemma UnprefixedTrimmed(s: seq<Byte>)
    requires s != [] && !HasPrefix(s, BANG) && !HasPrefix(s, ZERO_X) && !HasPrefix(s, ZERO_BIG_X)
    ensures ParseTrimmed(s) == FromOption(ParseUint(s, if HasHexLetter(s) then 16 else 10))
  {
    if |s| == 8 && !HasHexLetter(s) && ParseUint(s, 10).None? { FallbackNeverSucceeds(s); }
  }

  /** Reading digits in base 10 loses against base 16 as soon as a digit counts. */
  lemma {:induction false} DecimalOfHex(s: seq<Byte>)
    ensures Value(s, 10) <= Value(s, 16)
    ensures s != [] ==> (Value(s, 10) == Value(s, 16) <==> Value(s[..|s| - 1], 16) == 0)
  {
    if s != [] {
      DecimalOfHex(s[..|s| - 1]);
    }
  }

  /** Plain eight-digit hexadecimal, which the parser documents as accepted, comes back as the same
      node exactly when it shows a letter or is a single digit; otherwise it is read as decimal. */
  lemma PlainHexRoundTrip(n: NodeID)
    ensures ParseNodeID(Hex(n, 8)) == Ok(n) <==> HasHexLetter(Hex(n, 8)) || n < 10
  {
    var s := Hex(n, 8);
    HexIsBare(n);
    TrimBare(s);
    HexHasNoPrefix(n);
    UnprefixedTrimmed(s);
    Pow2Words();
    HexRoundTrip(n, 8);
    if !HasHexLetter(s) { LetterlessHex(n); }
  }

  lemma LetterlessHex(n: NodeID)
    requires !HasHexLetter(Hex(n, 8))
    ensures AreDigits(Hex(n, 8), 10)
    ensures Value(Hex(n, 8), 10) <= n && (Value(Hex(n, 8), 10) == n <==> n < 10)
  {
    var s := Hex(n, 8);
    forall i | 0 <= i < |s| ensures DigitValue(s[i]) < 10 {
      HexByte(n, 8, i);
      assert !IsHexLetter(s[i]);
    }
    Pow2Words();
    HexRoundTrip(n, 8);
    HexRoundTripFront(n);
    assert s[..7] == Hex(n / 16, 7) && s[7] == HexDigit(n % 16);
    DecimalOfHex(s);
    if n < 16 { assert !IsHexLetter(s[7]); }
  }

  lemma HexRoundTripFront(n: NodeID)
    ensures Value(Hex(n / 16, 7), 16) == n / 16
  {
    Pow2Words();
    Pow2Add(4, 28);
    assert Pow2(4) == 16;
    HexRoundTrip(n / 16, 7);
  }

  lemma {:induction false} HexByte(n: nat, width: nat, i: nat)
    requires i < width
    ensures 0x30 <= Hex(n, width)[i] <= 0x39 || 0x61 <= Hex(n, width)[i] <= 0x66
  {
    if i < width - 1 { HexByte(n / 16, width - 1, i); }
  }

  lemma HexIsBare(n: NodeID)
    ensures Bare(Hex(n, 8))
  {
    HexByte(n, 8, 0);
    HexByte(n, 8, 7);
  }

  lemma HexHasNoPrefix(n: NodeID)
    ensures var s := Hex(n, 8); !HasPrefix(s, BANG) && !HasPrefix(s, ZERO_X) && !HasPrefix(s, ZERO_BIG_X)
  {
    HexByte(n, 8, 0);
    HexByte(n, 8, 1);
  }

  // ---------------------------------------------------------------- digits spelled out

  const HEX_DIGITS := "0123456789abcdef"
  const DECIMAL_DIGITS := "0123456789"

  function Pow16(n: nat): (r: nat)
    ensures r > 0
  {
    if n == 0 then 1 else 16 * Pow16(n - 1)
  }

  lemma HexDigitListed(d: nat)
    requires d < 16
    ensures HexDigit(d) == HEX_DIGITS[d] as int
  {}

  lemma {:induction false} HexNibble(n: nat, width: nat, i: nat)
    requires i < width
    ensures Hex(n, width)[i] == HexDigit(n / Pow16(width - 1 - i) % 16)
  {
    if i < width - 1 {
      HexNibble(n / 16, width - 1, i);
      DivDiv(n, Pow16(width - 2 - i), 16);
    }
  }

  /** The printed form: an exclamation mark and the eight hexadecimal digits, most significant first. */
  lemma PrintedForm(n: NodeID, i: nat)
    requires 1 <= i <= 8
    ensures |NodeString(n)| == 9 && NodeString(n)[0] == '!' as int
    ensures NodeString(n)[i] == HEX_DIGITS[n / Pow16(8 - i) % 16] as int
  {
    HexNibble(n, 8, i - 1);
    HexDigitListed(n / Pow16(8 - i) % 16);
  }

  /** The same digits with any letters among them in upper case. */
  predicate SameButCase(d: seq<Byte>, s: seq<Byte>) {
    |d| == |s| && forall i :: 0 <= i < |s| ==> d[i] == s[i] || ('a' as int <= s[i] <= 'f' as int && d[i] == s[i] - 0x20)
  }

  lemma {:induction false} CaseIsNoMatter(d: seq<Byte>, s: seq<Byte>)
    requires SameButCase(d, s)
    ensures Value(d, 16) == Value(s, 16)
  {
    if s != [] { CaseIsNoMatter(d[..|d| - 1], s[..|s| - 1]); }
  }

  lemma Pow16IsPow2(n: nat)
    ensures Pow16(n) == Pow2(4 * n)
  {
    if n > 0 {
      Pow16IsPow2(n - 1);
      Pow2Add(4, 4 * (n - 1));
      assert Pow2(4) == 16;
    }
  }

  lemma HexDigitsMean(d: seq<Byte>, n: nat, width: nat)
    requires width > 0 && n < Pow16(width) && SameButCase(d, Hex(n, width))
    ensures AreDigits(d, 16) && Value(d, 16) == n
    ensures Bare(d)
    ensures !HasPrefix(d, BANG) && !HasPrefix(d, ZERO_X) && !HasPrefix(d, ZERO_BIG_X)
  {
    Pow16IsPow2(width);
    HexRoundTrip(n, width);
    CaseIsNoMatter(d, Hex(n, width));
    forall i | 0 <= i < width ensures DigitValue(d[i]) < 16 && 0x30 <= d[i] <= 0x66 && d[i] != 0x58 {
      HexByte(n, width, i);
    }
  }

  /** Every number in hexadecimal of any width and any mixture of cases, behind any of the three
      prefixes and inside any white space, parses to itself, or is refused above 32 bits. */
  lemma HexTextParses(w: seq<Rune>, prefix: seq<Byte>, d: seq<Byte>, w': seq<Rune>, n: nat, width: nat)
    requires AllSpace(w) && AllSpace(w') && width > 0 && n < Pow16(width) && SameButCase(d, Hex(n, width))
    requires prefix == ['!' as int] || prefix == ['0' as int, 'x' as int] || prefix == ['0' as int, 'X' as int]
    ensures ParseNodeID(Encode(w) + (prefix + d) + Encode(w')) == if n < 0x1_0000_0000 then Ok(n) else InvalidText
  {
    HexDigitsMean(d, n, width);
    BareBehind(prefix, d);
    TrimAround(w, prefix + d, w');
    AfterPrefix(prefix, d);
    ParsePrefixed(prefix + d);
  }

  lemma BareBehind(prefix: seq<Byte>, d: seq<Byte>)
    requires Bare(d) && prefix != [] && 0x21 <= prefix[0] <= 0x7E
    ensures Bare(prefix + d)
  {}

  /** Without a prefix the same holds as soon as one of the digits is a letter. */
  lemma LetteredHexParses(w: seq<Rune>, d: seq<Byte>, w': seq<Rune>, n: nat, width: nat, i: nat)
    requires AllSpace(w) && AllSpace(w') && n < Pow16(width) && SameButCase(d, Hex(n, width))
    requires i < width && 'a' as int <= Hex(n, width)[i] <= 'f' as int
    ensures ParseNodeID(Encode(w) + d + Encode(w')) == if n < 0x1_0000_0000 then Ok(n) else InvalidText
  {
    HexDigitsMean(d, n, width);
    TrimAround(w, d, w');
    LetteredDigits(d, Hex(n, width), i);
    UnprefixedTrimmed(d);
  }

  lemma LetteredDigits(d: seq<Byte>, s: seq<Byte>, i: nat)
    requires SameButCase(d, s) && i < |s| && 'a' as int <= s[i] <= 'f' as int
    ensures HasHexLetter(d)
  {
    assert IsHexLetter(d[i]);
  }

  /** n in decimal, zero-padded to the given width. */
  function Decimal(n: nat, width: nat): (s: seq<Byte>)
    ensures |s| == width
  {
    if width == 0 then [] else Decimal(n / 10, width - 1) + [DECIMAL_DIGITS[n % 10] as int]
  }

  lemma {:induction false} DecimalMeans(n: nat, width: nat)
    requires n < Pow10(width)
    ensures forall i :: 0 <= i < width ==> '0' as int <= Decimal(n, width)[i] <= '9' as int
    ensures Value(Decimal(n, width), 10) == n
  {
    if width > 0 {
      DecimalMeans(n / 10, width - 1);
      assert Decimal(n, width)[..width - 1] == Decimal(n / 10, width - 1);
    }
  }

  /** Every number in decimal, with any leading zeros and inside any white space, parses to itself, or
      is refused above 32 bits. */
  lemma DecimalTextParses(w: seq<Rune>, w': seq<Rune>, n: nat, width: nat)
    requires AllSpace(w) && AllSpace(w') && width > 0 && n < Pow10(width)
    ensures ParseNodeID(Encode(w) + Decimal(n, width) + Encode(w')) == if n < 0x1_0000_0000 then Ok(n) else InvalidText
  {
    var d := Decimal(n, width);
    DecimalMeans(n, width);
    DigitsAreDecimal(d);
    TrimAround(w, d, w');
    UnprefixedTrimmed(d);
  }

  lemma DigitsAreDecimal(d: seq<Byte>)
    requires d != [] && forall i :: 0 <= i < |d| ==> '0' as int <= d[i] <= '9' as int
    ensures AreDigits(d, 10) && !HasHexLetter(d) && Bare(d)
    ensures !HasPrefix(d, BANG) && !HasPrefix(d, ZERO_X) && !HasPrefix(d, ZERO_BIG_X)
  {
    assert forall i :: 0 <= i < |d| ==> DigitValue(d[i]) < 10 && !IsHexLetter(d[i]);
    assert |d| > 1 ==> d[1] != 0x78 && d[1] != 0x58;
  }

  predicate IsHexDigit(b: Byte) {
    '0' as int <= b <= '9' as int || 'a' as int <= b <= 'f' as int || 'A' as int <= b <= 'F' as int
  }

  /** A prefix with nothing behind it, or any byte that is no hexadecimal digit outside the prefix,
      makes the text invalid. */
  lemma MalformedIsInvalid(text: seq<Byte>, prefix: seq<Byte>, d: seq<Byte>)
    requires TrimSpace(text) == prefix + d && prefix + d != []
    requires prefix == ['!' as int] || prefix == ['0' as int, 'x' as int] || prefix == ['0' as int, 'X' as int]
          || (prefix == [] && !HasPrefix(d, BANG) && !HasPrefix(d, ZERO_X) && !HasPrefix(d, ZERO_BIG_X))
    requires d == [] || exists i :: 0 <= i < |d| && !IsHexDigit(d[i])
    ensures ParseNodeID(text) == InvalidText
  {
    NotDigits(d);
    if prefix == [] {
      assert prefix + d == d;
      UnprefixedTrimmed(d);
    } else {
      AfterPrefix(prefix, d);
      ParsePrefixed(prefix + d);
    }
  }

  lemma NotDigits(d: seq<Byte>)
    requires d == [] || exists i :: 0 <= i < |d| && !IsHexDigit(d[i])
    ensures ParseUint(d, 16) == None && ParseUint(d, 10) == None
  {
    if d != [] {
      var i :| 0 <= i < |d| && !IsHexDigit(d[i]);
      assert DigitValue(d[i]) >= 16;
    }
  }

  /** The white space of Unicode, listed. */
  lemma SpacesListed()
    ensures forall r: Rune :: IsSpace(r) <==>
              r in {0x09, 0x0A, 0x0B, 0x0C, 0x0D, 0x20, 0x85, 0xA0, 0x1680, 0x2000, 0x2001, 0x2002, 0x2003, 0x2004,
                    0x2005, 0x2006, 0x2007, 0x2008, 0x2009, 0x200A, 0x2028, 0x2029, 0x202F, 0x205F, 0x3000}
  {}

  /** One step of trimming at the front: a rune of white space goes, or nothing does. */
  lemma TrimLeftStep(s: seq<Byte>) returns (more: bool, r: Rune, cut: nat)
    ensures more ==> 1 <= cut <= |s| && IsSpace(r) && s[..cut] == EncodeRune(r) && TrimLeft(s) == TrimLeft(s[cut..])
    ensures !more ==> TrimLeft(s) == s && (s != [] ==> !IsSpace(DecodeFirst(s).rune))
  {
    more := s != [] && IsSpace(DecodeFirst(s).rune);
    r, cut := DecodeFirst(s).rune, DecodeFirst(s).size;
    if more { DecodeThenEncode(s[..cut]); }
  }

  lemma TrimRightStep(s: seq<Byte>) returns (more: bool, r: Rune, cut: nat)
    ensures more ==> cut < |s| && IsSpace(r) && s[cut..] == EncodeRune(r) && TrimRight(s) == TrimRight(s[..cut])
    ensures !more ==> TrimRight(s) == s && (s != [] ==> !IsSpace(DecodeLast(s).rune))
  {
    more := s != [] && IsSpace(DecodeLast(s).rune);
    r, cut := DecodeLast(s).rune, |s| - DecodeLast(s).size;
    if more { DecodeThenEncode(s[cut..]); }
  }

  /** What the front trim removes is white space, and none is left at the front. */
  lemma {:induction false} TrimLeftMeaning(s: seq<Byte>) returns (w: seq<Rune>)
    ensures AllSpace(w) && s == Encode(w) + TrimLeft(s)
    ensures TrimLeft(s) != [] ==> !IsSpace(DecodeFirst(TrimLeft(s)).rune)
  {
    var more, r, cut := TrimLeftStep(s);
    if more {
      var rest := TrimLeftMeaning(s[cut..]);
      w := [r] + rest;
      EncodeFirst(w);
      assert w[1..] == rest;
      CutApart(s, cut, EncodeRune(r), Encode(rest), TrimLeft(s));
    } else {
      w := [];
      assert s == Encode(w) + s;
    }
  }

  lemma {:induction false} TrimRightMeaning(s: seq<Byte>) returns (w: seq<Rune>)
    ensures AllSpace(w) && s == TrimRight(s) + Encode(w)
    ensures TrimRight(s) != [] ==> !IsSpace(DecodeLast(TrimRight(s)).rune)
  {
    var more, r, cut := TrimRightStep(s);
    if more {
      var rest := TrimRightMeaning(s[..cut]);
      w := rest + [r];
      EncodeLast(rest, r);
      JoinApart(s, cut, TrimRight(s), Encode(rest), EncodeRune(r));
    } else {
      w := [];
      assert s == s + Encode(w);
    }
  }

  lemma CutApart<T>(s: seq<T>, cut: nat, a: seq<T>, b: seq<T>, c: seq<T>)
    requires cut <= |s| && s[..cut] == a && s[cut..] == b + c
    ensures s == (a + b) + c
  {
    assert s == s[..cut] + s[cut..];
  }

  lemma JoinApart<T>(s: seq<T>, cut: nat, a: seq<T>, b: seq<T>, c: seq<T>)
    requires cut <= |s| && s[..cut] == a + b && s[cut..] == c
    ensures s == a + (b + c)
  {
    assert s == s[..cut] + s[cut..];
  }

  /** Only white space is trimmed, at both ends, and none is left there. */
  lemma TrimMeaning(text: seq<Byte>) returns (w: seq<Rune>, w': seq<Rune>)
    ensures AllSpace(w) && AllSpace(w') && text == Encode(w) + TrimSpace(text) + Encode(w')
    ensures TrimSpace(text) != [] ==> !IsSpace(DecodeLast(TrimSpace(text)).rune)
  {
    w := TrimLeftMeaning(text);
    w' := TrimRightMeaning(TrimLeft(text));
    Reassociate(Encode(w), TrimSpace(text), Encode(w'));
  }

  /** Text is called empty exactly when it is nothing but white space. */
  lemma EmptyExactly(text: seq<Byte>)
    ensures ParseNodeID(text) == EmptyText <==> exists w :: AllSpace(w) && text == Encode(w)
  {
    OnlyEmptyIsEmpty(TrimSpace(text));
    if TrimSpace(text) == [] {
      var w, w' := TrimMeaning(text);
      EncodeAppend(w, w');
      assert Encode(w) + [] == Encode(w);
      assert AllSpace(w + w') && text == Encode(w + w');
    }
    if v :| AllSpace(v) && text == Encode(v) {
      TrimLeftSpaces(v, []);
      assert Encode(v) + [] == text;
    }
  }

  lemma OnlyEmptyIsEmpty(s: seq<Byte>)
    ensures ParseTrimmed(s) == EmptyText <==> s == []
  {}

  // ---------------------------------------------------------------- text marshalling

  /** A node identifier held by a configuration field. */
  class NodeField {
    var id: NodeID

    constructor (id: NodeID) ensures this.id == id { this.id := id; }

    /** Prints the identifier. */
    method MarshalText() returns (text: seq<Byte>)
      ensures ParseNodeID(text) == Ok(id)
      ensures |text| == 9 && text[0] == '!' as int
      ensures forall i :: 1 <= i < 9 ==> text[i] == HEX_DIGITS[id / Pow16(8 - i) % 16] as int
    {
      text := NodeString(id);
      PrintedParses(id);
      forall i | 1 <= i < 9 ensures text[i] == HEX_DIGITS[id / Pow16(8 - i) % 16] as int { PrintedForm(id, i); }
    }

    /** Stores the parsed identifier; text that does not parse leaves the field alone. */
    method UnmarshalText(text: seq<Byte>) returns (ok: bool)
      modifies this
      ensures ok == ParseNodeID(text).Ok?
      ensures id == if ok then ParseNodeID(text).id else old(id)
    {
      match ParseNodeID(text) {
        case Ok(n) => id := n; ok := true;
        case _ => ok := false;
      }
    }
  }
}
