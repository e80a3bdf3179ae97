/** Channels and the channel registry (core/channel.go). */
module Channels {
  import opened Bytes
  import Base64
  import Keys

  type Name = seq<Byte>

  /** A definition; `origin` tells apart definitions of one channel from different sources. */
  datatype ChannelDef = ChannelDef(name: Name, key: seq<Byte>, origin: nat)

  /** SameChannel on definitions that are not nil: equal name and equal key bytes. */
  predicate Same(a: ChannelDef, b: ChannelDef) { a.name == b.name && a.key == b.key }

  function Hash(c: ChannelDef): nat { Keys.ChannelHash(c.name, c.key) }

  // ---------------------------------------------------------------- text form of a key

  datatype Created = Created(name: Name, key: seq<Byte>) | BadKey

  function NewChannel(name: Name, keyText: seq<Byte>): Created {
    match Keys.ParseKey(keyText)
    case Key(k) => Created(name, k)
    case BadBase64 => BadKey
  }

  function GetKeyString(c: ChannelDef): seq<Byte> { Base64.Encode(false, Keys.Compacted(c.key)) }

  /** Printing a channel's key and rebuilding the channel from it gives the same channel exactly
      when the key is a full one other than the family member with index 0. */
  lemma PrintThenRebuild(c: ChannelDef)
    ensures NewChannel(c.name, GetKeyString(c)) == Created(c.name, c.key)
       <==> |c.key| >= 16 && c.key != Keys.Family(0)
  {
    Keys.ParsesEitherAlphabet(false, Keys.Compacted(c.key));
    Keys.CompactThenExpand(c.key);
  }

  /** A channel's key is printed in the standard alphabet. */
  lemma KeyTextIsStandard(c: ChannelDef)
    ensures var s := GetKeyString(c);
            Base64.NoBreaks(s) && Base64.WellFormed(false, s) && '-' as int !in s && '_' as int !in s
  {
    Base64.EncodeUsesAlphabet(false, Keys.Compacted(c.key));
    Base64.StandardNeverLooksUrlSafe(Keys.Compacted(c.key));
    Base64.RoundTrip(false, Keys.Compacted(c.key));
    Base64.DecodesExactly(false, GetKeyString(c));
  }

  // ---------------------------------------------------------------- lists of definitions

  predicate Contains(list: seq<ChannelDef>, c: ChannelDef) {
    exists i :: 0 <= i < |list| && Same(list[i], c)
  }

  predicate NoTwoSame(list: seq<ChannelDef>) {
    forall i, j :: 0 <= i < j < |list| ==> !Same(list[i], list[j])
  }

  /** Every definition of c's channel replaced by c. */
  function Replaced(list: seq<ChannelDef>, c: ChannelDef): (r: seq<ChannelDef>)
    ensures |r| == |list|
  {
    seq(|list|, i requires 0 <= i < |list| => if Same(list[i], c) then c else list[i])
  }

  /** The definitions with a hash, or with a name, in order: a plain scan. */
  function WithHash(list: seq<ChannelDef>, h: nat): seq<ChannelDef> {
    if list == [] then []
    else
      var front, last := WithHash(list[..|list| - 1], h), list[|list| - 1];
      if Hash(last) == h then front + [last] else front
  }

  function WithName(list: seq<ChannelDef>, n: Name): seq<ChannelDef> {
    if list == [] then []
    else
      var front, last := WithName(list[..|list| - 1], n), list[|list| - 1];
      if last.name == n then front + [last] else front
  }

  lemma WithHashAppend(list: seq<ChannelDef>, c: ChannelDef, h: nat)
    ensures WithHash(list + [c], h) == if Hash(c) == h then WithHash(list, h) + [c] else WithHash(list, h)
  {
    assert (list + [c])[..|list|] == list;
  }

  lemma WithNameAppend(list: seq<ChannelDef>, c: ChannelDef, n: Name)
    ensures WithName(list + [c], n) == if c.name == n then WithName(list, n) + [c] else WithName(list, n)
  {
    assert (list + [c])[..|list|] == list;
  }

  lemma ReplacedAppend(list: seq<ChannelDef>, last: ChannelDef, c: ChannelDef)
    ensures Replaced(list + [last], c) == Replaced(list, c) + [if Same(last, c) then c else last]
  {}

  /** Replacing commutes with both scans, because a channel's hash and name are settled by its
      identity. */
  lemma {:induction false} ReplacedWithHash(list: seq<ChannelDef>, c: ChannelDef, h: nat)
    ensures WithHash(Replaced(list, c), h) == if Hash(c) == h then Replaced(WithHash(list, h), c) else WithHash(list, h)
  {
    if list != [] {
      var front, last := list[..|list| - 1], list[|list| - 1];
      ReplacedWithHash(front, c, h);
      assert list == front + [last];
      ReplacedAppend(front, last, c);
      WithHashAppend(Replaced(front, c), if Same(last, c) then c else last, h);
      ReplacedAppend(WithHash(front, h), last, c);
    }
  }

  lemma {:induction false} ReplacedWithName(list: seq<ChannelDef>, c: ChannelDef, n: Name)
    ensures WithName(Replaced(list, c), n) == if c.name == n then Replaced(WithName(list, n), c) else WithName(list, n)
  {
    if list != [] {
      var front, last := list[..|list| - 1], list[|list| - 1];
      ReplacedWithName(front, c, n);
      assert list == front + [last];
      ReplacedAppend(front, last, c);
      WithNameAppend(Replaced(front, c), if Same(last, c) then c else last, n);
      ReplacedAppend(WithName(front, n), last, c);
    }
  }

  /** A scan finds what it looks for, nothing else. */
  lemma {:induction false} ScanFinds(list: seq<ChannelDef>, h: nat, n: Name)
    ensures forall c :: c in WithHash(list, h) <==> c in list && Hash(c) == h
    ensures forall c :: c in WithName(list, n) <==> c in list && c.name == n
  {
    if list != [] {
      var front := list[..|list| - 1];
      ScanFinds(front, h, n);
      assert list == front + [list[|list| - 1]];
    }
  }

  /** A hash scan is the list restricted, in order, to the entries whose name and key hash to h. */
  lemma {:induction false} HashScan(list: seq<ChannelDef>, h: nat) returns (f: seq<nat>)
    ensures |f| == |WithHash(list, h)|
    ensures forall k :: 0 <= k < |f| ==> f[k] < |list| && WithHash(list, h)[k] == list[f[k]]
    ensures forall k, l :: 0 <= k < l < |f| ==> f[k] < f[l]
    ensures forall i :: 0 <= i < |list| ==> (i in f <==> Keys.ChannelHash(list[i].name, list[i].key) == h)
  {
    if list == [] {
      f := [];
    } else {
      f := HashScan(list[..|list| - 1], h);
      if Hash(list[|list| - 1]) == h { f := f + [|list| - 1]; }
    }
  }

  /** A name scan likewise. */
  lemma {:induction false} NameScan(list: seq<ChannelDef>, n: Name) returns (f: seq<nat>)
    ensures |f| == |WithName(list, n)|
    ensures forall k :: 0 <= k < |f| ==> f[k] < |list| && WithName(list, n)[k] == list[f[k]]
    ensures forall k, l :: 0 <= k < l < |f| ==> f[k] < f[l]
    ensures forall i :: 0 <= i < |list| ==> (i in f <==> list[i].name == n)
  {
    if list == [] {
      f := [];
    } else {
      f := NameScan(list[..|list| - 1], n);
      if list[|list| - 1].name == n { f := f + [|list| - 1]; }
    }
  }

  // ---------------------------------------------------------------- registration histories

  /** The registry's order after one more registration. */
  function Registering(order: seq<ChannelDef>, c: ChannelDef): seq<ChannelDef> {
    if Contains(order, c) then Replaced(order, c) else order + [c]
  }

  function Registered(history: seq<ChannelDef>): seq<ChannelDef> {
    if history == [] then [] else Registering(Registered(history[..|history| - 1]), history[|history| - 1])
  }

  /** Position i is the first registration of its channel. */
  predicate IsFirst(history: seq<ChannelDef>, i: nat)
    requires i < |history|
  {
    forall j :: 0 <= j < i ==> !Same(history[j], history[i])
  }

  /** The positions of first registrations, in order. */
  function Firsts(history: seq<ChannelDef>, n: nat): (f: seq<nat>)
    requires n <= |history|
    ensures forall k :: 0 <= k < |f| ==> f[k] < n && IsFirst(history, f[k])
    ensures forall k, l :: 0 <= k < l < |f| ==> f[k] < f[l]
    ensures forall i :: 0 <= i < n && IsFirst(history, i) ==> i in f
  {
    if n == 0 then []
    else if IsFirst(history, n - 1) then Firsts(history, n - 1) + [n - 1]
    else Firsts(history, n - 1)
  }

  /** The latest of the first n registrations of a channel. */
  function Latest(history: seq<ChannelDef>, n: nat, c: ChannelDef): (d: ChannelDef)
    requires n <= |history| && exists i :: 0 <= i < n && Same(history[i], c)
    ensures Same(d, c)
    ensures exists i :: 0 <= i < n && history[i] == d && forall j :: i < j < n ==> !Same(history[j], c)
  {
    if Same(history[n - 1], c) then history[n - 1] else Latest(history, n - 1, c)
  }

  lemma RegisteringKeeps(order: seq<ChannelDef>, c: ChannelDef, d: ChannelDef)
    requires NoTwoSame(order)
    ensures NoTwoSame(Registering(order, c))
    ensures Contains(Registering(order, c), d) <==> Contains(order, d) || Same(c, d)
  {
    var next := Registering(order, c);
    if k :| 0 <= k < |order| && Same(order[k], d) { assert Same(next[k], d); }
    if Same(c, d) {
      if k :| 0 <= k < |order| && Same(order[k], c) { assert Same(next[k], d); } else { assert Same(next[|order|], d); }
    }
    if k :| 0 <= k < |next| && Same(next[k], d) {
      if k < |order| { assert Same(order[k], d); }
    }
  }

  /** No two entries are the same channel, and exactly the registered channels are present. */
  lemma {:induction false} OrderIsDistinct(history: seq<ChannelDef>, n: nat, d: ChannelDef)
    requires n <= |history|
    ensures NoTwoSame(Registered(history[..n]))
    ensures Contains(Registered(history[..n]), d) <==> exists i :: 0 <= i < n && Same(history[i], d)
  {
    if n > 0 {
      assert history[..n][..n - 1] == history[..n - 1];
      OrderIsDistinct(history, n - 1, d);
      RegisteringKeeps(Registered(history[..n - 1]), history[n - 1], d);
    }
  }

  ghost predicate ListsLatest(history: seq<ChannelDef>, n: nat, order: seq<ChannelDef>)
    requires n <= |history|
  {
    var f := Firsts(history, n);
    |order| == |f| && forall k :: 0 <= k < |f| ==> order[k] == Latest(history, n, history[f[k]])
  }

  /** After any history the order lists each distinct name-and-key pair once, in the order of first
      registration, carrying its latest definition. */
  lemma {:induction false} OrderMeaning(history: seq<ChannelDef>, n: nat)
    requires n <= |history|
    ensures ListsLatest(history, n, Registered(history[..n]))
  {
    if n > 0 {
      assert history[..n][..n - 1] == history[..n - 1];
      OrderMeaning(history, n - 1);
      OrderIsDistinct(history, n - 1, history[n - 1]);
      ListsStep(history, n, Registered(history[..n - 1]));
    }
  }

  lemma ListsStep(history: seq<ChannelDef>, n: nat, order: seq<ChannelDef>)
    requires 0 < n <= |history| && ListsLatest(history, n - 1, order)
    requires Contains(order, history[n - 1]) <==> exists i :: 0 <= i < n - 1 && Same(history[i], history[n - 1])
    ensures ListsLatest(history, n, Registering(order, history[n - 1]))
  {
    var c, f, next := history[n - 1], Firsts(history, n), Registering(order, history[n - 1]);
    if Contains(order, c) {
      assert !IsFirst(history, n - 1);
    } else {
      assert IsFirst(history, n - 1);
    }
    forall k | 0 <= k < |f| ensures next[k] == Latest(history, n, history[f[k]]) {
      if k < |order| && Same(order[k], c) { assert Contains(order, c); }
    }
  }

  // ---------------------------------------------------------------- by name and key bytes

  /** A name and key are registered exactly when the history holds them, and by one entry only. */
  lemma RegisteredPairs(history: seq<ChannelDef>, name: Name, key: seq<Byte>)
    ensures var order := Registered(history);
            && ((exists i :: 0 <= i < |order| && order[i].name == name && order[i].key == key) <==>
                (exists i :: 0 <= i < |history| && history[i].name == name && history[i].key == key))
            && (forall i, j :: 0 <= i < j < |order| ==> order[i].name != order[j].name || order[i].key != order[j].key)
  {
    var order := Registered(history);
    var d := ChannelDef(name, key, 0);
    assert history[..|history|] == history;
    OrderIsDistinct(history, |history|, d);
    if i :| 0 <= i < |history| && history[i].name == name && history[i].key == key { assert Same(history[i], d); }
    if i :| 0 <= i < |order| && order[i].name == name && order[i].key == key { assert Same(order[i], d); }
  }

  /** Each entry is the last registration of its name and key. */
  lemma RegisteredLatest(history: seq<ChannelDef>, k: nat)
    requires k < |Registered(history)|
    ensures var d := Registered(history)[k];
            exists i :: 0 <= i < |history| && history[i] == d
                        && forall j :: i < j < |history| ==> history[j].name != d.name || history[j].key != d.key
  {
    var f, d := Firsts(history, |history|), Registered(history)[k];
    assert history[..|history|] == history;
    OrderMeaning(history, |history|);
    var i :| 0 <= i < |history| && history[i] == d
             && forall j :: i < j < |history| ==> !Same(history[j], history[f[k]]);
    forall j | i < j < |history| ensures history[j].name != d.name || history[j].key != d.key {
      assert !Same(history[j], history[f[k]]);
    }
  }

  /** Entries stand in the order in which their names and keys were first registered. */
  lemma RegisteredOrder(history: seq<ChannelDef>, k: nat, l: nat)
    requires k < l < |Registered(history)|
    ensures var d, e := Registered(history)[k], Registered(history)[l];
            exists i :: 0 <= i < |history| && history[i].name == d.name && history[i].key == d.key
                        && forall j :: 0 <= j < i ==> history[j].name != e.name || history[j].key != e.key
  {
    var f, d, e := Firsts(history, |history|), Registered(history)[k], Registered(history)[l];
    assert history[..|history|] == history;
    OrderMeaning(history, |history|);
    assert Same(d, history[f[k]]) && Same(e, history[f[l]]);
    forall j | 0 <= j < f[k] ensures history[j].name != e.name || history[j].key != e.key {
      assert !Same(history[j], history[f[l]]);
    }
  }

  /** Two channels that share a name and a hash, but not the key, both stay. */
  lemma CollidingChannelsStay(a: ChannelDef, b: ChannelDef)
    requires a.name == b.name && a.key != b.key
    ensures Registered([a, b]) == [a, b]
  {
    assert [a, b][..1] == [a] && [a][..0] == [];
    assert Registered([a]) == [a];
  }
}
