/** Truncation of node names (core/node_id.go). */
module Names {
  import opened Bytes
  import opened Utf8

  const MAX_LONG_NAME := 24
  const MAX_SHORT_NAME := 4

  /** The loop's test: the last rune is complete. A genuine U+FFFD has size 3. */
  predicate LastIsComplete(b: seq<Byte>) {
    DecodeLast(b).rune != RUNE_ERROR || DecodeLast(b).size > 1
  }

  /** Drop trailing bytes until the string is empty or passes the test. */
  function TrimmedBy(complete: seq<Byte> -> bool, b: seq<Byte>): (t: seq<Byte>)
    ensures t <= b
  {
    if b == [] || complete(b) then b else TrimmedBy(complete, b[..|b| - 1])
  }

  function Trimmed(b: seq<Byte>): (t: seq<Byte>)
    ensures t <= b
  {
    TrimmedBy(LastIsComplete, b)
  }

  function Truncated(s: seq<Byte>, maxBytes: nat): seq<Byte> {
    if |s| <= maxBytes then s else Trimmed(s[..maxBytes])
  }

  method TruncateToBytes(s: seq<Byte>, maxBytes: nat) returns (r: seq<Byte>)
    ensures r == Truncated(s, maxBytes)
  {
    if |s| <= maxBytes { return s; }
    var b := s[..maxBytes];
    while |b| > 0
      invariant Trimmed(b) == Truncated(s, maxBytes)
      decreases |b|
    {
      var last := DecodeLast(b);
      if last.rune != RUNE_ERROR || last.size > 1 { break; }
      b := b[..|b| - 1];
    }
    return b;
  }

  method ValidateLongName(name: seq<Byte>) returns (r: seq<Byte>)
    ensures r == Truncated(name, 24)
  {
    r := TruncateToBytes(name, MAX_LONG_NAME);
  }

  method ValidateShortName(name: seq<Byte>) returns (r: seq<Byte>)
    ensures r == Truncated(name, 4)
  {
    r := TruncateToBytes(name, MAX_SHORT_NAME);
  }

  // ---------------------------------------------------------------- valid text

  /** k is the largest number of leading runes that fit into n bytes. */
  predicate Fits(rs: seq<Rune>, n: nat, k: nat) {
    && k <= |rs| && |Encode(rs[..k])| <= n
    && (k < |rs| ==> |Encode(rs[..k + 1])| > n)
  }

  lemma {:induction false} SomethingFits(rs: seq<Rune>, n: nat) returns (k: nat)
    ensures Fits(rs, n, k)
  {
    if |Encode(rs)| <= n {
      k := |rs|;
      assert rs[..k] == rs;
    } else {
      var front := rs[..|rs| - 1];
      k := SomethingFits(front, n);
      assert front[..k] == rs[..k];
      if k < |front| { assert front[..k + 1] == rs[..k + 1]; } else { assert rs[..k + 1] == rs; }
    }
  }

  lemma WholeIsComplete(rs: seq<Rune>)
    ensures Encode(rs) == [] || LastIsComplete(Encode(rs))
  {
    if rs != [] {
      DecodeLastOf(Encode(rs[..|rs| - 1]), rs[|rs| - 1]);
    }
  }

  lemma TrimmedWhole(rs: seq<Rune>)
    ensures Trimmed(Encode(rs)) == Encode(rs)
  {
    WholeIsComplete(rs);
  }

  lemma CutIsIncomplete(a: seq<Byte>, r: Rune, cut: nat)
    requires 0 < cut < |EncodeRune(r)|
    ensures !LastIsComplete(a + EncodeRune(r)[..cut])
  {
    CutRuneEndsInNone(a, r, cut, 1);
    CutRuneEndsInNone(a, r, cut, 2);
    CutRuneEndsInNone(a, r, cut, 3);
    CutRuneEndsInNone(a, r, cut, 4);
  }

  /** Trimming takes an incomplete tail off byte by byte. */
  lemma {:induction false} TrimmedTail(complete: seq<Byte> -> bool, a: seq<Byte>, tail: seq<Byte>)
    requires a == [] || complete(a)
    requires forall j :: 0 < j <= |tail| ==> !complete(a + tail[..j])
    ensures TrimmedBy(complete, a + tail) == a
  {
    if tail == [] {
      assert a + tail == a;
    } else {
      var shorter := tail[..|tail| - 1];
      assert tail[..|tail|] == tail;
      assert (a + tail)[..|a + tail| - 1] == a + shorter;
      forall j | 0 < j <= |shorter| ensures !complete(a + shorter[..j]) { assert shorter[..j] == tail[..j]; }
      TrimmedTail(complete, a, shorter);
    }
  }

  lemma TrimmedCut(rs: seq<Rune>, r: Rune, cut: nat)
    requires cut < |EncodeRune(r)|
    ensures Trimmed(Encode(rs) + EncodeRune(r)[..cut]) == Encode(rs)
  {
    var a, tail := Encode(rs), EncodeRune(r)[..cut];
    WholeIsComplete(rs);
    forall j | 0 < j <= |tail| ensures !LastIsComplete(a + tail[..j]) {
      assert tail[..j] == EncodeRune(r)[..j];
      CutIsIncomplete(a, r, j);
    }
    TrimmedTail(LastIsComplete, a, tail);
  }

  /** On valid text the result is exactly the longest run of whole runes within the limit, and it
      loses at most three bytes to the cut. */
  lemma {:induction false} LongestWholeRunes(rs: seq<Rune>, n: nat, k: nat)
    requires Fits(rs, n, k)
    ensures Truncated(Encode(rs), n) == Encode(rs[..k])
    ensures k < |rs| ==> n - 3 <= |Encode(rs[..k])| <= n
  {
    var s := Encode(rs);
    if k == |rs| {
      assert rs[..k] == rs;
    } else {
      var a, r := Encode(rs[..k]), rs[k];
      assert rs[..k + 1][..k] == rs[..k];
      assert Encode(rs[..k + 1]) == a + EncodeRune(r);
      EncodePrefix(rs, k + 1);
      assert s[..n] == a + EncodeRune(r)[..n - |a|];
      TrimmedCut(rs[..k], r, n - |a|);
    }
  }

  /** A non-empty valid name stays non-empty and valid under the short-name limit. */
  lemma ShortNameSurvives(rs: seq<Rune>)
    requires rs != []
    ensures exists k :: 1 <= k <= |rs| && Truncated(Encode(rs), MAX_SHORT_NAME) == Encode(rs[..k])
    ensures Truncated(Encode(rs), MAX_SHORT_NAME) != []
  {
    var k := SomethingFits(rs, MAX_SHORT_NAME);
    LongestWholeRunes(rs, MAX_SHORT_NAME, k);
    assert rs[..1][..0] == [];
    assert Encode(rs[..1]) == EncodeRune(rs[0]);
    if k > 0 {
      assert Encode(rs[..k]) == Encode(rs[..k][..k - 1]) + EncodeRune(rs[k - 1]);
    }
  }

  /** A genuine replacement character at the cut is kept. */
  lemma ReplacementCharacterKept(rs: seq<Rune>, tail: seq<Byte>)
    ensures var s := Encode(rs + [RUNE_ERROR]); Truncated(s + tail, |s|) == s
  {
    var s := Encode(rs + [RUNE_ERROR]);
    if tail == [] {
      assert s + tail == s;
    } else {
      assert (s + tail)[..|s|] == s;
      TrimmedWhole(rs + [RUNE_ERROR]);
    }
  }

  // ---------------------------------------------------------------- any bytes

  /** Cutting anywhere above the trimmed result trims to the same result. */
  lemma {:induction false} TrimmedStable(complete: seq<Byte> -> bool, b: seq<Byte>, m: nat)
    requires |TrimmedBy(complete, b)| <= m <= |b|
    ensures TrimmedBy(complete, b[..m]) == TrimmedBy(complete, b)
  {
    if m < |b| {
      var c := b[..|b| - 1];
      TrimmedStable(complete, c, m);
      assert c[..m] == b[..m];
    } else {
      assert b[..m] == b;
    }
  }

  /** The string ends in a whole encoded rune of the grammar of RFC 3629. */
  predicate EndsInRune(b: seq<Byte>) { EndsIn(b, 1) || EndsIn(b, 2) || EndsIn(b, 3) || EndsIn(b, 4) }

  lemma CompleteIsRune(b: seq<Byte>)
    ensures LastIsComplete(b) <==> EndsInRune(b)
  {
    if LastSize(b) == 1 { assert b[|b| - 1..][0] <= 0x7F; }
  }

  lemma {:induction false} TrimmedIsLongest(complete: seq<Byte> -> bool, b: seq<Byte>, m: nat)
    ensures var t := TrimmedBy(complete, b);
            (t == [] || complete(t)) && (|t| < m <= |b| ==> !complete(b[..m]))
  {
    if b != [] && !complete(b) {
      var c := b[..|b| - 1];
      TrimmedIsLongest(complete, c, m);
      if m < |b| { assert c[..m] == b[..m]; }
    }
    assert b[..|b|] == b;
  }

  /** Truncating any bytes, valid or not, keeps a short string, and otherwise gives a prefix within the
      limit that is empty or ends in a whole rune. */
  lemma TruncatedEndsInRune(s: seq<Byte>, n: nat)
    ensures Truncated(s, n) <= s && (|s| <= n ==> Truncated(s, n) == s)
    ensures |s| > n ==> |Truncated(s, n)| <= n && (Truncated(s, n) == [] || EndsInRune(Truncated(s, n)))
  {
    if |s| > n {
      TrimmedIsLongest(LastIsComplete, s[..n], 0);
      CompleteIsRune(Truncated(s, n));
    }
  }

  /** No longer prefix within the limit does. */
  lemma NoLongerPrefixEndsInRune(s: seq<Byte>, n: nat, m: nat)
    requires |Truncated(s, n)| < m <= n < |s|
    ensures !EndsInRune(s[..m])
  {
    NoLongerOf(s[..n], s[..m]);
  }

  lemma NoLongerOf(b: seq<Byte>, p: seq<Byte>)
    requires p <= b && |Trimmed(b)| < |p|
    ensures !EndsInRune(p)
  {
    TrimmedIsLongest(LastIsComplete, b, |p|);
    CompleteIsRune(p);
    assert b[..|p|] == p;
  }

  /** Truncating twice is truncating once to the smaller limit, for valid text or not. */
  lemma TruncationComposes(s: seq<Byte>, a: nat, b: nat)
    ensures Truncated(Truncated(s, a), b) == Truncated(s, if a <= b then a else b)
  {
    var t := Truncated(s, a);
    if b < a && |s| > b {
      if |s| > a {
        if |t| <= b {
          TrimmedStable(LastIsComplete, s[..a], b);
          assert s[..a][..b] == s[..b];
        } else {
          assert t[..b] == s[..b];
        }
      }
    }
  }
}
