/** The channel registry (core/channel.go), with each Go slice modelled by its own array so that
    in-place replacement and aliasing are visible. */
module Registry {
  import opened Bytes
  import opened Channels
  import opened Wrappers
  import Keys

  type Slice = array<ChannelDef>

  datatype Resolution = Found(def: ChannelDef) | NotFound | Ambiguous

  function FirstOf(list: seq<ChannelDef>): Option<ChannelDef> {
    if list == [] then None else Some(list[0])
  }

  function Resolved(list: seq<ChannelDef>): Resolution {
    if |list| == 0 then NotFound else if |list| == 1 then Found(list[0]) else Ambiguous
  }

  /** Resolving by name reports a channel exactly when one entry alone has the name, and ambiguity
      exactly when two do. */
  lemma ResolvedMeaning(order: seq<ChannelDef>, n: Name)
    ensures var r := Resolved(WithName(order, n));
            && (r.NotFound? <==> forall i :: 0 <= i < |order| ==> order[i].name != n)
            && (r.Ambiguous? <==> exists i, j :: 0 <= i < j < |order| && order[i].name == n == order[j].name)
            && (r.Found? ==> r.def in order && r.def.name == n)
  {
    WithNameCount(order, n);
    ScanFinds(order, 0, n);
  }

  lemma {:induction false} WithNameCount(order: seq<ChannelDef>, n: Name)
    ensures |WithName(order, n)| == 0 <==> forall i :: 0 <= i < |order| ==> order[i].name != n
    ensures |WithName(order, n)| >= 2 <==> exists i, j :: 0 <= i < j < |order| && order[i].name == n == order[j].name
  {
    if order != [] {
      var front, last := order[..|order| - 1], order[|order| - 1];
      WithNameCount(front, n);
      if |WithName(order, n)| >= 2 {
        if |WithName(front, n)| >= 2 {
          var i, j :| 0 <= i < j < |front| && front[i].name == n == front[j].name;
          assert order[i].name == n == order[j].name;
        } else {
          var i :| 0 <= i < |front| && front[i].name == n;
          assert order[i].name == n == order[|order| - 1].name;
        }
      }
      if i, j :| 0 <= i < j < |order| && order[i].name == n == order[j].name {
        assert front[i].name == n;
        if j < |front| { assert front[i].name == n == front[j].name; }
      }
    }
  }

  /** Entry i has the hash and no earlier one does. */
  predicate IsFirstWith(order: seq<ChannelDef>, h: nat, i: nat)
    requires i < |order|
  {
    && Keys.ChannelHash(order[i].name, order[i].key) == h
    && forall j :: 0 <= j < i ==> Keys.ChannelHash(order[j].name, order[j].key) != h
  }

  lemma FirstOfScan(order: seq<ChannelDef>, h: nat)
    ensures var first := FirstOf(WithHash(order, h));
            && (first.Some? ==> exists i :: 0 <= i < |order| && IsFirstWith(order, h, i) && first.value == order[i])
            && (first.None? ==> forall c :: c in order ==> Keys.ChannelHash(c.name, c.key) != h)
  {
    var f := HashScan(order, h);
    ScanFinds(order, h, []);
    if f != [] {
      assert forall k :: 0 <= k < |f| ==> f[0] <= f[k];
      assert forall j :: 0 <= j < f[0] ==> j !in f;
      assert IsFirstWith(order, h, f[0]);
    }
  }

  /** Replacing the one matching entry of a duplicate-free list replaces every match. */
  lemma ReplaceOne(list: seq<ChannelDef>, i: nat, c: ChannelDef)
    requires NoTwoSame(list) && i < |list| && Same(list[i], c)
    ensures list[i := c] == Replaced(list, c)
  {
    forall j | 0 <= j < |list| && j != i ensures !Same(list[j], c) {
      if j < i { assert !Same(list[j], list[i]); } else { assert !Same(list[i], list[j]); }
    }
  }

  /** append: a new array one longer. */
  method Append(list: Slice, c: ChannelDef) returns (r: Slice)
    ensures fresh(r) && r[..] == list[..] + [c]
  {
    r := new ChannelDef[list.Length + 1](i reads list =>
      if 0 <= i < list.Length then list[i] else c);
  }

  /** append([]ChannelDef(nil), list...): a copy. */
  method Copy(list: Slice) returns (r: Slice)
    ensures fresh(r) && r[..] == list[..]
  {
    r := new ChannelDef[list.Length](i requires 0 <= i < list.Length reads list => list[i]);
  }

  method ReplaceSame(list: Slice, c: ChannelDef)
    modifies list
    ensures list[..] == Replaced(old(list[..]), c)
  {
    for i := 0 to list.Length
      invariant forall j :: 0 <= j < i ==> list[j] == if Same(old(list[j]), c) then c else old(list[j])
      invariant forall j :: i <= j < list.Length ==> list[j] == old(list[j])
    {
      if Same(list[i], c) { list[i] := c; }
    }
  }

  class ChannelRegistry {
    var order: Slice
    var byHash: map<nat, Slice>
    var byName: map<Name, Slice>
    ghost var history: seq<ChannelDef>
    ghost var slices: set<Slice>

    ghost function HashList(h: nat): seq<ChannelDef>
      reads `byHash, if h in byHash then {byHash[h]} else {}
    {
      if h in byHash then byHash[h][..] else []
    }

    ghost function NameList(n: Name): seq<ChannelDef>
      reads `byName, if n in byName then {byName[n]} else {}
    {
      if n in byName then byName[n][..] else []
    }

    /** Every slice has a backing array of its own. */
    ghost predicate Separate()
      reads this
    {
      && order in slices
      && (forall h :: h in byHash ==> byHash[h] in slices && byHash[h] != order)
      && (forall n :: n in byName ==> byName[n] in slices && byName[n] != order)
      && (forall h, n :: h in byHash && n in byName ==> byHash[h] != byName[n])
      && (forall h, h' :: h in byHash && h' in byHash && h != h' ==> byHash[h] != byHash[h'])
      && (forall n, n' :: n in byName && n' in byName && n != n' ==> byName[n] != byName[n'])
    }

    /** The order is what the history of registrations leaves, and both indexes agree with plain
        scans of it. */
    ghost predicate Valid()
      reads this, slices
    {
      && Separate()
      && order[..] == Registered(history)
      && (forall h :: HashList(h) == WithHash(order[..], h))
      && (forall n :: NameList(n) == WithName(order[..], n))
    }

    constructor ()
      ensures Valid() && history == [] && fresh(slices)
    {
      var empty := new ChannelDef[0];
      order, byHash, byName, history, slices := empty, map[], map[], [], {empty};
    }

    method Register(c: ChannelDef)
      requires Valid()
      modifies this, slices
      ensures Valid() && fresh(slices - old(slices))
      ensures history == old(history) + [c]
    {
      ghost var before := order[..];
      HistoryStep(history, c);
      for i := 0 to order.Length
        invariant forall j :: 0 <= j < i ==> !Same(order[j], c)
      {
        if Same(order[i], c) {
          ReplaceOne(before, i, c);
          ReplaceAt(i, c);
          return;
        }
      }
      AppendNew(c);
    }

    lemma HistoryStep(history: seq<ChannelDef>, c: ChannelDef)
      ensures Registered(history + [c]) == Registering(Registered(history), c)
      ensures NoTwoSame(Registered(history))
    {
      assert (history + [c])[..|history|] == history;
      assert history[..|history|] == history;
      OrderIsDistinct(history, |history|, c);
    }

    method ReplaceAt(i: nat, c: ChannelDef)
      requires Valid() && i < order.Length && Same(order[i], c)
      requires order[..][i := c] == Replaced(order[..], c)
      requires Registered(history + [c]) == Registering(order[..], c)
      modifies this, slices
      ensures Valid() && slices == old(slices) && history == old(history) + [c]
    {
      ghost var before := order[..];
      var h, n := Hash(c), c.name;
      ScanFinds(before, h, n);
      assert before[i] in HashList(h) && before[i] in NameList(n);
      assert h in byHash && n in byName;
      order[i] := c;
      ReplaceSame(byHash[h], c);
      ReplaceSame(byName[n], c);
      history := history + [c];
      assert order[..] == Replaced(before, c);
      forall h' ensures HashList(h') == WithHash(order[..], h') {
        ReplacedWithHash(before, c, h');
        assert old(HashList(h')) == WithHash(before, h');
      }
      forall n' ensures NameList(n') == WithName(order[..], n') {
        ReplacedWithName(before, c, n');
        assert old(NameList(n')) == WithName(before, n');
      }
    }

    method AppendToOrder(c: ChannelDef)
      requires Separate()
      modifies `order, `slices
      ensures Separate() && old(slices) <= slices && fresh(slices - old(slices))
      ensures order[..] == old(order[..]) + [c]
    {
      order := Append(order, c);
      slices := slices + {order};
    }

    method AppendToHash(c: ChannelDef, ghost before: seq<ChannelDef>)
      requires Separate() && forall h :: HashList(h) == WithHash(before, h)
      modifies `byHash, `slices
      ensures Separate() && old(slices) <= slices && fresh(slices - old(slices))
      ensures forall h :: HashList(h) == WithHash(before + [c], h)
    {
      var h := Hash(c);
      var list := new ChannelDef[0];
      if h in byHash { list := byHash[h]; }
      list := Append(list, c);
      assert list[..] == old(HashList(h)) + [c];
      byHash := byHash[h := list];
      slices := slices + {list};
      forall h' ensures HashList(h') == WithHash(before + [c], h') {
        WithHashAppend(before, c, h');
        assert h' != h ==> HashList(h') == old(HashList(h'));
      }
    }

    method AppendToName(c: ChannelDef, ghost before: seq<ChannelDef>)
      requires Separate() && forall n :: NameList(n) == WithName(before, n)
      modifies `byName, `slices
      ensures Separate() && old(slices) <= slices && fresh(slices - old(slices))
      ensures forall n :: NameList(n) == WithName(before + [c], n)
    {
      var n := c.name;
      var list := new ChannelDef[0];
      if n in byName { list := byName[n]; }
      list := Append(list, c);
      assert list[..] == old(NameList(n)) + [c];
      byName := byName[n := list];
      slices := slices + {list};
      forall n' ensures NameList(n') == WithName(before + [c], n') {
        WithNameAppend(before, c, n');
        assert n' != n ==> NameList(n') == old(NameList(n'));
      }
    }

    method AppendNew(c: ChannelDef)
      requires Valid() && forall j :: 0 <= j < order.Length ==> !Same(order[j], c)
      requires Registered(history + [c]) == Registering(order[..], c)
      modifies this
      ensures Valid() && fresh(slices - old(slices)) && history == old(history) + [c]
    {
      ghost var before := order[..];
      assert !Contains(before, c);
      assert Registered(history + [c]) == before + [c];
      history := history + [c];
      AppendToOrder(c);
      forall h ensures HashList(h) == WithHash(before, h) { assert old(HashList(h)) == WithHash(before, h); }
      AppendToHash(c, before);
      forall n ensures NameList(n) == WithName(before, n) { assert old(NameList(n)) == WithName(before, n); }
      label indexed:
      assert order[..] == before + [c];
      AppendToName(c, before);
      assert order[..] == before + [c];
      assert forall h :: HashList(h) == WithHash(order[..], h) by {
        forall h ensures HashList(h) == WithHash(order[..], h) {
          assert old@indexed(HashList(h)) == WithHash(before + [c], h);
        }
      }
    }

    // -------------------------------------------------------------- reading

    method Lookup(hash: nat) returns (r: Option<ChannelDef>)
      requires Valid()
      ensures r == FirstOf(WithHash(Registered(history), hash))
      ensures r.Some? ==> exists i :: 0 <= i < |Registered(history)| && IsFirstWith(Registered(history), hash, i)
                                      && r.value == Registered(history)[i]
      ensures r.None? ==> forall c :: c in Registered(history) ==> Keys.ChannelHash(c.name, c.key) != hash
    {
      FirstOfScan(Registered(history), hash);
      assert HashList(hash) == WithHash(order[..], hash);
      if hash !in byHash || byHash[hash].Length == 0 { return None; }
      return Some(byHash[hash][0]);
    }

    method LookupAll(hash: nat) returns (r: Slice)
      requires Valid()
      ensures fresh(r) && r[..] == WithHash(Registered(history), hash)
      ensures forall c :: c in r[..] <==> c in Registered(history) && Keys.ChannelHash(c.name, c.key) == hash
    {
      assert HashList(hash) == WithHash(order[..], hash);
      ScanFinds(order[..], hash, []);
      if hash in byHash { r := Copy(byHash[hash]); } else { r := new ChannelDef[0]; }
    }

    method LookupName(hash: nat) returns (name: Name)
      requires Valid()
      ensures var first := FirstOf(WithHash(Registered(history), hash));
              name == if first.Some? then first.value.name else []
      ensures (forall c :: c in Registered(history) ==> Keys.ChannelHash(c.name, c.key) != hash) ==> name == []
      ensures forall i :: 0 <= i < |Registered(history)| && IsFirstWith(Registered(history), hash, i) ==>
                name == Registered(history)[i].name
    {
      var r := Lookup(hash);
      match r {
        case Some(c) => name := c.name;
        case None => name := [];
      }
    }

    method ResolveByName(name: Name) returns (r: Resolution)
      requires Valid()
      ensures r == Resolved(WithName(Registered(history), name))
    {
      assert NameList(name) == WithName(order[..], name);
      if name !in byName || byName[name].Length == 0 { return NotFound; }
      if byName[name].Length == 1 { return Found(byName[name][0]); }
      return Ambiguous;
    }

    method LookupByName(name: Name) returns (r: Option<ChannelDef>)
      requires Valid()
      ensures var res := Resolved(WithName(Registered(history), name));
              r == if res.Found? then Some(res.def) else None
    {
      var res := ResolveByName(name);
      match res {
        case Found(c) => r := Some(c);
        case _ => r := None;
      }
    }

    /** Finds the one entry with this name and key, a short key standing for its expanded form. */
    method LookupPair(name: Name, key: seq<Byte>) returns (r: Option<ChannelDef>)
      requires Valid()
      ensures r.Some? ==> r.value in Registered(history) && r.value.name == name && r.value.key == Keys.Expanded(key)
      ensures r.None? ==> forall c :: c in Registered(history) ==> !(c.name == name && c.key == Keys.Expanded(key))
    {
      var want := Keys.ExpandShortPSK(key);
      assert NameList(name) == WithName(order[..], name);
      ScanFinds(order[..], 0, name);
      if name !in byName { return None; }
      var list := byName[name];
      for i := 0 to list.Length
        invariant forall j :: 0 <= j < i ==> list[j].key != want
      {
        if list[i].key == want {
          assert list[i] in list[..];
          return Some(list[i]);
        }
      }
      return None;
    }

    method All() returns (r: Slice)
      requires Valid()
      ensures fresh(r) && r[..] == Registered(history)
    {
      r := Copy(order);
    }
  }

  lemma OneMore<T>(front: seq<T>, more: seq<T>, i: nat)
    requires i < |more|
    ensures front + more[..i] + [more[i]] == front + more[..i + 1]
  {}

  /** Registering a whole batch touches no array but the registry's own. */
  method RegisterAll(r: ChannelRegistry, more: seq<ChannelDef>)
    requires r.Valid()
    modifies r, r.slices
    ensures r.Valid() && fresh(r.slices - old(r.slices)) && r.history == old(r.history) + more
  {
    for i := 0 to |more|
      invariant r.Valid() && fresh(r.slices - old(r.slices)) && r.history == old(r.history) + more[..i]
    {
      OneMore(old(r.history), more, i);
      r.Register(more[i]);
    }
    assert more[..|more|] == more;
  }

  /** A list handed out earlier never changes, whatever is registered afterwards, even when
      registrations replace entries in place. */
  method HandedOutNeverChanges(r: ChannelRegistry, hash: nat, more: seq<ChannelDef>) returns (all: Slice, hits: Slice)
    requires r.Valid()
    modifies r, r.slices
    ensures r.Valid() && r.history == old(r.history) + more
    ensures all[..] == Registered(old(r.history)) && hits[..] == WithHash(Registered(old(r.history)), hash)
  {
    all := r.All();
    hits := r.LookupAll(hash);
    RegisterAll(r, more);
  }
}
