/** The region and preset map (core/lora/regions.go), for an arbitrary region table. */
module Regions {

  const MAX_GROUPS: nat := 8
  const MAX_REGIONS: nat := 38
  const MAX_PRESETS: nat := 11

  type Preset = int
  type RegionCode = int

  /** Profiles are compared by identity, so two with the same presets stay apart. */
  class RegionProfile {
    const presets: seq<Preset>
    const licensedOnly: bool

    constructor (presets: seq<Preset>, licensedOnly: bool)
      ensures this.presets == presets && this.licensedOnly == licensedOnly
    {
      this.presets, this.licensedOnly := presets, licensedOnly;
    }
  }

  datatype RegionEntry = RegionEntry(code: RegionCode, profile: RegionProfile, defaultPreset: Preset)
  datatype GroupKey = GroupKey(profile: RegionProfile, defaultPreset: Preset)

  datatype PresetGroup = PresetGroup(presets: seq<Preset>, defaultPreset: Preset, licensedOnly: bool)
  datatype RegionGroup = RegionGroup(region: RegionCode, groupIndex: nat)
  datatype PresetMap = PresetMap(groups: seq<PresetGroup>, regionGroups: seq<RegionGroup>)

  function KeyOf(r: RegionEntry): GroupKey { GroupKey(r.profile, r.defaultPreset) }

  const EU_868: RegionCode := 3
  const EU_866: RegionCode := 29
  const EU_N_868: RegionCode := 32

  /** The union advertised by the three European regions whose presets swap the region. */
  const PRESETS_EU_SUPERSET: seq<Preset> := [0, 1, 3, 4, 5, 6, 7, 10, 11, 12, 13]

  predicate Swappable(code: RegionCode) { code == EU_868 || code == EU_866 || code == EU_N_868 }

  /** What a group first met at this region advertises. */
  function Advertised(r: RegionEntry): seq<Preset> {
    Take(MAX_PRESETS, if Swappable(r.code) then PRESETS_EU_SUPERSET else r.profile.presets)
  }

  function GroupOf(r: RegionEntry): PresetGroup {
    PresetGroup(Advertised(r), r.defaultPreset, r.profile.licensedOnly)
  }

  // ---------------------------------------------------------------- the reference

  /** The position of the first occurrence. */
  function IndexOf<T(==)>(s: seq<T>, x: T): (i: nat)
    requires x in s
    ensures i < |s| && s[i] == x && forall j :: 0 <= j < i ==> s[j] != x
  {
    IndexFrom(s, x, 0)
  }

  function IndexFrom<T(==)>(s: seq<T>, x: T, from: nat): (i: nat)
    requires from <= |s| && x in s[from..]
    ensures from <= i < |s| && s[i] == x && forall j :: from <= j < i ==> s[j] != x
    decreases |s| - from
  {
    if s[from] == x then from else IndexFrom(s, x, from + 1)
  }

  /** The distinct keys of the first n entries, in order of first appearance. */
  function Distinct(t: seq<RegionEntry>, n: nat): (d: seq<GroupKey>)
    requires n <= |t|
    ensures forall i :: 0 <= i < n ==> KeyOf(t[i]) in d
  {
    if n == 0 then []
    else
      var d, k := Distinct(t, n - 1), KeyOf(t[n - 1]);
      if k in d then d else d + [k]
  }

  /** The rank of an entry's key among the distinct keys of the whole table. */
  function Rank(t: seq<RegionEntry>, i: nat): nat
    requires i < |t|
  {
    IndexOf(Distinct(t, |t|), KeyOf(t[i]))
  }

  /** The entries among the first n whose key is one of the first eight distinct ones. */
  function Admitted(t: seq<RegionEntry>, n: nat): (a: seq<nat>)
    requires n <= |t|
    ensures forall j :: 0 <= j < |a| ==> a[j] < n
  {
    if n == 0 then []
    else if Rank(t, n - 1) < MAX_GROUPS then Admitted(t, n - 1) + [n - 1]
    else Admitted(t, n - 1)
  }

  function Take<T>(n: nat, s: seq<T>): seq<T> { if |s| > n then s[..n] else s }

  /** The first entry with a given key. */
  function FirstWith(t: seq<RegionEntry>, k: GroupKey): (i: nat)
    requires exists j :: 0 <= j < |t| && KeyOf(t[j]) == k
    ensures i < |t| && KeyOf(t[i]) == k && forall j :: 0 <= j < i ==> KeyOf(t[j]) != k
  {
    if KeyOf(t[0]) == k then 0
    else
      assert exists j :: 0 <= j < |t[1..]| && KeyOf(t[1..][j]) == k by {
        var j :| 0 <= j < |t| && KeyOf(t[j]) == k;
        assert t[1..][j - 1] == t[j];
      }
      1 + FirstWith(t[1..], k)
  }

  // ---------------------------------------------------------------- the loop

  /** What the loop has built: the group keys, the entry each group was made from, and the entries
      listed so far. */
  datatype Built = Built(keys: seq<GroupKey>, firsts: seq<nat>, listed: seq<nat>)

  function Extend(b: Built, t: seq<RegionEntry>, i: nat): Built
    requires i < |t|
  {
    if |b.listed| >= MAX_REGIONS then b
    else if KeyOf(t[i]) in b.keys then b.(listed := b.listed + [i])
    else if |b.keys| >= MAX_GROUPS then b
    else Built(b.keys + [KeyOf(t[i])], b.firsts + [i], b.listed + [i])
  }

  function BuiltFrom(t: seq<RegionEntry>, n: nat): Built
    requires n <= |t|
  {
    if n == 0 then Built([], [], []) else Extend(BuiltFrom(t, n - 1), t, n - 1)
  }

  ghost predicate Describes(t: seq<RegionEntry>, b: Built, m: PresetMap) {
    && |m.groups| == |b.keys| == |b.firsts| && |m.regionGroups| == |b.listed|
    && (forall g :: 0 <= g < |b.firsts| ==> b.firsts[g] < |t| && m.groups[g] == GroupOf(t[b.firsts[g]]))
    && (forall j :: 0 <= j < |b.listed| ==>
          && b.listed[j] < |t| && KeyOf(t[b.listed[j]]) in b.keys
          && m.regionGroups[j] == RegionGroup(t[b.listed[j]].code, IndexOf(b.keys, KeyOf(t[b.listed[j]]))))
  }

  lemma DescribesListed(t: seq<RegionEntry>, b: Built, m: PresetMap, i: nat)
    requires Describes(t, b, m) && i < |t| && KeyOf(t[i]) in b.keys
    ensures Describes(t, b.(listed := b.listed + [i]),
                      m.(regionGroups := m.regionGroups + [RegionGroup(t[i].code, IndexOf(b.keys, KeyOf(t[i])))]))
  {}

  lemma DescribesNew(t: seq<RegionEntry>, b: Built, m: PresetMap, i: nat)
    requires Describes(t, b, m) && i < |t| && KeyOf(t[i]) !in b.keys
    ensures Describes(t, b.(keys := b.keys + [KeyOf(t[i])], firsts := b.firsts + [i]),
                      m.(groups := m.groups + [GroupOf(t[i])]))
  {
    IndexAppend(b.keys, KeyOf(t[i]));
  }

  method Advertise(r: RegionEntry) returns (advertised: seq<Preset>)
    ensures advertised == Advertised(r)
  {
    advertised := r.profile.presets;
    if Swappable(r.code) { advertised := PRESETS_EU_SUPERSET; }
    if |advertised| > MAX_PRESETS { advertised := advertised[..MAX_PRESETS]; }
  }

  method RegionPresetMap(regions: seq<RegionEntry>) returns (m: PresetMap)
    ensures Describes(regions, BuiltFrom(regions, |regions|), m)
  {
    m := PresetMap([], []);
    var index: map<GroupKey, nat> := map[];
    ghost var b := Built([], [], []);
    for i := 0 to |regions|
      invariant b == BuiltFrom(regions, i) && Describes(regions, b, m) && Indexes(index, b.keys)
    {
      if |m.regionGroups| >= MAX_REGIONS {
        FullStaysFull(regions, i, |regions|);
        break;
      }
      var r := regions[i];
      var key := KeyOf(r);
      ghost var next := Extend(b, regions, i);
      if key !in index {
        if |m.groups| >= MAX_GROUPS { continue; }
        DescribesNew(regions, b, m, i);
        IndexesGrow(index, b.keys, key);
        b := b.(keys := b.keys + [key], firsts := b.firsts + [i]);
        var advertised := Advertise(r);
        m := m.(groups := m.groups + [PresetGroup(advertised, r.defaultPreset, r.profile.licensedOnly)]);
        index := index[key := |m.groups| - 1];
        assert Indexes(index, b.keys);
      }
      DescribesListed(regions, b, m, i);
      m := m.(regionGroups := m.regionGroups + [RegionGroup(r.code, index[key])]);
      b := next;
    }
  }

  /** The loop's map from keys to group numbers. */
  ghost predicate Indexes(index: map<GroupKey, nat>, keys: seq<GroupKey>) {
    && (forall k :: k in keys ==> k in index)
    && (forall k :: k in index ==> k in keys && index[k] == IndexOf(keys, k))
  }

  lemma IndexesGrow(index: map<GroupKey, nat>, keys: seq<GroupKey>, k: GroupKey)
    requires Indexes(index, keys) && k !in keys
    ensures Indexes(index[k := |keys|], keys + [k])
  {
    IndexAppend(keys, k);
  }

  lemma IndexAppend<T>(s: seq<T>, x: T)
    requires x !in s
    ensures IndexOf(s + [x], x) == |s|
    ensures forall y :: y in s ==> IndexOf(s + [x], y) == IndexOf(s, y)
  {
    forall y | y in s ensures IndexOf(s + [x], y) == IndexOf(s, y) { IndexPrefix(s, s + [x], y); }
  }

  lemma IndexPrefix<T>(s: seq<T>, t: seq<T>, y: T)
    requires s <= t && y in s
    ensures IndexOf(t, y) == IndexOf(s, y)
  {
    var i, j := IndexOf(s, y), IndexOf(t, y);
    assert t[i] == s[i] && (j < |s| ==> t[j] == s[j]);
  }

  lemma {:induction false} FullStaysFull(t: seq<RegionEntry>, i: nat, n: nat)
    requires i <= n <= |t| && |BuiltFrom(t, i).listed| >= MAX_REGIONS
    ensures BuiltFrom(t, n) == BuiltFrom(t, i)
  {
    if i < n { FullStaysFull(t, i, n - 1); }
  }

  // ---------------------------------------------------------------- what the loop builds

  lemma TakenElsewhere<T>(d: seq<T>, k: T)
    requires k in d
    ensures k in Take(MAX_GROUPS, d) <==> IndexOf(d, k) < MAX_GROUPS
  {
    var ks, i := Take(MAX_GROUPS, d), IndexOf(d, k);
    if i < MAX_GROUPS { assert ks[i] == k; }
  }

  /** Meeting a key is admission by rank, and keeps the first eight distinct keys. */
  lemma KeyAdmission(d: seq<GroupKey>, k: GroupKey)
    ensures var ks, d' := Take(MAX_GROUPS, d), if k in d then d else d + [k];
            && (IndexOf(d', k) < MAX_GROUPS <==> k in ks || |ks| < MAX_GROUPS)
            && Take(MAX_GROUPS, d') == if k in ks || |ks| >= MAX_GROUPS then ks else ks + [k]
  {
    var ks := Take(MAX_GROUPS, d);
    if k in ks {
      IndexPrefix(ks, d, k);
    } else if k in d {
      TakenElsewhere(d, k);
    } else {
      IndexAppend(d, k);
    }
  }

  lemma {:induction false} DistinctGrows(t: seq<RegionEntry>, i: nat, n: nat)
    requires i <= n <= |t|
    ensures Distinct(t, i) <= Distinct(t, n)
  {
    if i < n { DistinctGrows(t, i, n - 1); }
  }

  /** A key's rank is settled as soon as the key has appeared. */
  lemma RankAt(t: seq<RegionEntry>, i: nat, n: nat)
    requires i < n <= |t|
    ensures Rank(t, i) == IndexOf(Distinct(t, n), KeyOf(t[i]))
  {
    DistinctGrows(t, n, |t|);
    IndexPrefix(Distinct(t, n), Distinct(t, |t|), KeyOf(t[i]));
  }

  /** The built state b and the reference's distinct keys d and admitted entries a agree. */
  ghost predicate Agrees(b: Built, d: seq<GroupKey>, a: seq<nat>) {
    && b.listed == Take(MAX_REGIONS, a) && b.keys <= d && |b.keys| <= MAX_GROUPS
    && (|a| < MAX_REGIONS ==> b.keys == Take(MAX_GROUPS, d))
  }

  lemma StepAgrees(b: Built, d: seq<GroupKey>, a: seq<nat>, t: seq<RegionEntry>, i: nat)
    requires Agrees(b, d, a) && i < |t|
    ensures var k := KeyOf(t[i]); var d' := if k in d then d else d + [k];
            Agrees(Extend(b, t, i), d', if IndexOf(d', k) < MAX_GROUPS then a + [i] else a)
  {
    KeyAdmission(d, KeyOf(t[i]));
    TakeAppend(a, i);
  }

  lemma OneMoreEntry(t: seq<RegionEntry>, i: nat)
    requires i < |t|
    ensures var k, d := KeyOf(t[i]), Distinct(t, i); var d' := if k in d then d else d + [k];
            && BuiltFrom(t, i + 1) == Extend(BuiltFrom(t, i), t, i) && Distinct(t, i + 1) == d'
            && Admitted(t, i + 1) == if IndexOf(d', k) < MAX_GROUPS then Admitted(t, i) + [i] else Admitted(t, i)
  {
    RankAt(t, i, i + 1);
  }

  lemma OneStepAgrees(t: seq<RegionEntry>, i: nat)
    requires i < |t| && Agrees(BuiltFrom(t, i), Distinct(t, i), Admitted(t, i))
    ensures Agrees(BuiltFrom(t, i + 1), Distinct(t, i + 1), Admitted(t, i + 1))
  {
    var b, d, a := BuiltFrom(t, i), Distinct(t, i), Admitted(t, i);
    OneMoreEntry(t, i);
    StepAgrees(b, d, a, t, i);
  }

  /** The loop agrees with the reference at every point: it lists the first 38 admitted entries, and
      its groups are the first distinct keys. */
  lemma {:induction false} LoopFollowsReference(t: seq<RegionEntry>, n: nat)
    requires n <= |t|
    ensures Agrees(BuiltFrom(t, n), Distinct(t, n), Admitted(t, n))
  {
    if n > 0 {
      LoopFollowsReference(t, n - 1);
      OneStepAgrees(t, n - 1);
    }
  }

  lemma TakeAppend(a: seq<nat>, x: nat)
    ensures Take(MAX_REGIONS, a + [x]) == if |a| < MAX_REGIONS then a + [x] else Take(MAX_REGIONS, a)
  {}

  lemma {:induction false} BuiltKeys(t: seq<RegionEntry>, n: nat)
    requires n <= |t|
    ensures var b := BuiltFrom(t, n);
            && |b.firsts| == |b.keys|
            && (forall g :: 0 <= g < |b.keys| ==>
                  && b.firsts[g] < n && KeyOf(t[b.firsts[g]]) == b.keys[g] && b.firsts[g] in b.listed
                  && forall j :: 0 <= j < b.firsts[g] ==> KeyOf(t[j]) != b.keys[g])
            && (|b.listed| < MAX_REGIONS && |b.keys| < MAX_GROUPS ==> forall i :: 0 <= i < n ==> KeyOf(t[i]) in b.keys)
  {
    if n > 0 { BuiltKeys(t, n - 1); }
  }

  /** The entry behind a listed region, its group, and the first entry of that group. */
  lemma ListedEntry(t: seq<RegionEntry>, i: nat)
    requires i in BuiltFrom(t, |t|).listed && i < |t| && KeyOf(t[i]) in BuiltFrom(t, |t|).keys
    ensures var b, k := BuiltFrom(t, |t|), KeyOf(t[i]);
            && IndexOf(b.keys, k) == Rank(t, i) < |b.firsts|
            && b.firsts[Rank(t, i)] == FirstWith(t, k)
  {
    LoopFollowsReference(t, |t|);
    BuiltKeys(t, |t|);
    IndexPrefix(BuiltFrom(t, |t|).keys, Distinct(t, |t|), KeyOf(t[i]));
  }

  /** For every table the finished map lists, in table order, exactly the first 38 entries whose
      key is among the first eight distinct keys; each points at the group of its key's rank, which
      was made from the first entry with that key and so has its licensing and default preset. */
  lemma MapMeaning(t: seq<RegionEntry>, m: PresetMap, j: nat)
    requires Describes(t, BuiltFrom(t, |t|), m)
    ensures |m.regionGroups| == |Take(MAX_REGIONS, Admitted(t, |t|))| <= MAX_REGIONS && |m.groups| <= MAX_GROUPS
    ensures j < |m.regionGroups| ==>
              var i := Take(MAX_REGIONS, Admitted(t, |t|))[j];
              && m.regionGroups[j] == RegionGroup(t[i].code, Rank(t, i)) && Rank(t, i) < |m.groups|
              && m.groups[Rank(t, i)] == GroupOf(t[FirstWith(t, KeyOf(t[i]))])
              && m.groups[Rank(t, i)].defaultPreset == t[i].defaultPreset
              && m.groups[Rank(t, i)].licensedOnly == t[i].profile.licensedOnly
              && |m.groups[Rank(t, i)].presets| <= MAX_PRESETS
  {
    LoopFollowsReference(t, |t|);
    if j < |m.regionGroups| { ListedEntry(t, BuiltFrom(t, |t|).listed[j]); }
  }

  /** Two listed regions are given one group exactly when they share profile identity and default
      preset. */
  lemma GroupsByKey(t: seq<RegionEntry>, m: PresetMap, j: nat, l: nat)
    requires Describes(t, BuiltFrom(t, |t|), m) && j < |m.regionGroups| && l < |m.regionGroups|
    ensures |m.regionGroups| == |Take(MAX_REGIONS, Admitted(t, |t|))|
    ensures var a := Take(MAX_REGIONS, Admitted(t, |t|));
            m.regionGroups[j].groupIndex == m.regionGroups[l].groupIndex <==>
              t[a[j]].profile == t[a[l]].profile && t[a[j]].defaultPreset == t[a[l]].defaultPreset
  {
    MapMeaning(t, m, j);
    MapMeaning(t, m, l);
    var a := Take(MAX_REGIONS, Admitted(t, |t|));
    RankByKey(t, a[j], a[l]);
  }

  lemma RankByKey(t: seq<RegionEntry>, i: nat, j: nat)
    requires i < |t| && j < |t|
    ensures Rank(t, i) == Rank(t, j) <==> KeyOf(t[i]) == KeyOf(t[j])
  {}

  /** No group is empty: the entry it was made from is listed under it. */
  lemma EveryGroupIsUsed(t: seq<RegionEntry>, m: PresetMap, g: nat)
    requires Describes(t, BuiltFrom(t, |t|), m) && g < |m.groups|
    ensures exists j :: 0 <= j < |m.regionGroups| && m.regionGroups[j].groupIndex == g
  {
    var b := BuiltFrom(t, |t|);
    BuiltKeys(t, |t|);
    KeysAreDistinct(t, |t|);
    GroupOfFirst(t, b, m, g);
  }

  lemma GroupOfFirst(t: seq<RegionEntry>, b: Built, m: PresetMap, g: nat)
    requires Describes(t, b, m) && g < |m.groups| && AllDistinct(b.keys)
    requires b.firsts[g] in b.listed && KeyOf(t[b.firsts[g]]) == b.keys[g]
    ensures exists j :: 0 <= j < |m.regionGroups| && m.regionGroups[j].groupIndex == g
  {
    var j :| 0 <= j < |b.listed| && b.listed[j] == b.firsts[g];
    OnlyIndex(b.keys, g);
    assert m.regionGroups[j].groupIndex == g;
  }

  predicate AllDistinct<T(==)>(s: seq<T>) { forall i, j :: 0 <= i < j < |s| ==> s[i] != s[j] }
  predicate Ascends(s: seq<nat>) { forall i, j :: 0 <= i < j < |s| ==> s[i] < s[j] }

  lemma OnlyIndex<T>(s: seq<T>, g: nat)
    requires g < |s| && AllDistinct(s)
    ensures IndexOf(s, s[g]) == g
  {}

  lemma DistinctAppend<T>(s: seq<T>, x: T)
    requires AllDistinct(s) && x !in s
    ensures AllDistinct(s + [x])
  {
    assert forall i :: 0 <= i < |s| ==> s[i] in s;
  }

  lemma {:induction false} KeysAreDistinct(t: seq<RegionEntry>, n: nat)
    requires n <= |t|
    ensures AllDistinct(BuiltFrom(t, n).keys)
  {
    if n > 0 {
      KeysAreDistinct(t, n - 1);
      var before, k := BuiltFrom(t, n - 1).keys, KeyOf(t[n - 1]);
      if k !in before { DistinctAppend(before, k); }
    }
  }

  /** An entry is dropped exactly when 38 admitted ones precede it or it is not admitted itself,
      and it is not admitted exactly when eight other keys appear before its own first does. */
  lemma DroppedExactly(t: seq<RegionEntry>, i: nat)
    requires i < |t|
    ensures i in Take(MAX_REGIONS, Admitted(t, |t|)) <==> |Admitted(t, i)| < 38 && Rank(t, i) < 8
    ensures Rank(t, i) == |Distinct(t, FirstWith(t, KeyOf(t[i])))|
  {
    ListedExactly(t, i);
    RankIsKeysBefore(t, FirstWith(t, KeyOf(t[i])));
  }

  lemma ListedExactly(t: seq<RegionEntry>, i: nat)
    requires i < |t|
    ensures i in Take(MAX_REGIONS, Admitted(t, |t|)) <==> |Admitted(t, i)| < MAX_REGIONS && Rank(t, i) < MAX_GROUPS
  {
    if Rank(t, i) < MAX_GROUPS {
      AdmittedGrows(t, i + 1, |t|);
      AdmittedAscends(t, |t|);
      TakenExactly(Admitted(t, |t|), |Admitted(t, i)|, i);
    } else {
      NeverAdmitted(t, i, |t|);
    }
  }

  lemma RankIsKeysBefore(t: seq<RegionEntry>, f: nat)
    requires f < |t| && forall j :: 0 <= j < f ==> KeyOf(t[j]) != KeyOf(t[f])
    ensures Rank(t, f) == |Distinct(t, f)|
  {
    KeysComeFromEntries(t, f);
    RankAt(t, f, f + 1);
    IndexAppend(Distinct(t, f), KeyOf(t[f]));
  }

  lemma {:induction false} KeysComeFromEntries(t: seq<RegionEntry>, n: nat)
    requires n <= |t|
    ensures forall k :: k in Distinct(t, n) ==> exists j :: 0 <= j < n && KeyOf(t[j]) == k
  {
    if n > 0 { KeysComeFromEntries(t, n - 1); }
  }

  /** Admission of an entry never depends on later entries. */
  lemma {:induction false} AdmittedGrows(t: seq<RegionEntry>, i: nat, n: nat)
    requires i <= n <= |t|
    ensures Admitted(t, i) <= Admitted(t, n)
  {
    if i < n { AdmittedGrows(t, i, n - 1); }
  }

  lemma AscendAppend(s: seq<nat>, x: nat)
    requires Ascends(s) && forall i :: 0 <= i < |s| ==> s[i] < x
    ensures Ascends(s + [x])
  {}

  lemma {:induction false} AdmittedAscends(t: seq<RegionEntry>, n: nat)
    requires n <= |t|
    ensures Ascends(Admitted(t, n))
  {
    if n > 0 {
      AdmittedAscends(t, n - 1);
      AscendAppend(Admitted(t, n - 1), n - 1);
    }
  }

  lemma {:induction false} NeverAdmitted(t: seq<RegionEntry>, i: nat, n: nat)
    requires i < |t| && n <= |t| && Rank(t, i) >= MAX_GROUPS
    ensures i !in Admitted(t, n)
  {
    if n > 0 { NeverAdmitted(t, i, n - 1); }
  }

  lemma TakenExactly(a: seq<nat>, at: nat, i: nat)
    requires Ascends(a)
    requires at < |a| && a[at] == i
    ensures i in Take(MAX_REGIONS, a) <==> at < MAX_REGIONS
  {
    if at < MAX_REGIONS { assert Take(MAX_REGIONS, a)[at] == i; }
  }

  /** A table within the caps loses no entry. */
  lemma NothingDropped(t: seq<RegionEntry>, i: nat)
    requires i < |t| <= 38 && |Distinct(t, |t|)| <= 8
    ensures i in Take(MAX_REGIONS, Admitted(t, |t|))
  {
    DroppedExactly(t, i);
    AdmittedIsShort(t, i);
  }

  lemma {:induction false} AdmittedIsShort(t: seq<RegionEntry>, n: nat)
    requires n <= |t|
    ensures |Admitted(t, n)| <= n
  {
    if n > 0 { AdmittedIsShort(t, n - 1); }
  }

  /** When the first entry of a group advertises what another of its entries would. */
  predicate AgreesWithFirst(t: seq<RegionEntry>, i: nat)
    requires i < |t|
  {
    var f := FirstWith(t, KeyOf(t[i]));
    || Swappable(t[f].code) == Swappable(t[i].code)
    || Take(MAX_PRESETS, t[i].profile.presets) == PRESETS_EU_SUPERSET
  }

  lemma AdvertisedLikeFirst(t: seq<RegionEntry>, i: nat)
    requires i < |t|
    ensures Advertised(t[FirstWith(t, KeyOf(t[i]))]) == Advertised(t[i]) <==> AgreesWithFirst(t, i)
  {
    assert KeyOf(t[FirstWith(t, KeyOf(t[i]))]) == KeyOf(t[i]);
  }

  /** A listed region sees its own presets in its group exactly when the group's first entry agrees
      with it on swapping, or its profile is the European union anyway. */
  lemma PresetsAreOwn(t: seq<RegionEntry>, m: PresetMap, j: nat)
    requires Describes(t, BuiltFrom(t, |t|), m) && j < |m.regionGroups|
    ensures |m.regionGroups| == |Take(MAX_REGIONS, Admitted(t, |t|))|
    ensures m.regionGroups[j].groupIndex < |m.groups|
    ensures var i := Take(MAX_REGIONS, Admitted(t, |t|))[j];
            m.groups[m.regionGroups[j].groupIndex].presets == Advertised(t[i]) <==> AgreesWithFirst(t, i)
  {
    MapMeaning(t, m, j);
    AdvertisedLikeFirst(t, Take(MAX_REGIONS, Admitted(t, |t|))[j]);
  }

  /** A swappable region followed by an ordinary one of the same profile and default preset: the
      ordinary region is told the European union instead of its own presets. */
  lemma OrdinaryRegionToldUnion(profile: RegionProfile, preset: Preset, code: RegionCode, m: PresetMap)
    requires !Swappable(code) && Take(MAX_PRESETS, profile.presets) != PRESETS_EU_SUPERSET
    requires var t := [RegionEntry(EU_868, profile, preset), RegionEntry(code, profile, preset)];
             Describes(t, BuiltFrom(t, 2), m)
    ensures m.regionGroups == [RegionGroup(EU_868, 0), RegionGroup(code, 0)]
    ensures |m.groups| == 1 && m.groups[0].presets == PRESETS_EU_SUPERSET
    ensures m.groups[0].presets != Advertised(RegionEntry(code, profile, preset))
  {
    var t := [RegionEntry(EU_868, profile, preset), RegionEntry(code, profile, preset)];
    var k := KeyOf(t[0]);
    assert BuiltFrom(t, 1) == Built([k], [0], [0]);
    assert BuiltFrom(t, 2) == Built([k], [0], [0, 1]);
  }

  /** What each group of the finished map advertises: the first region of a group with code 3, 29 or
      32 gives it the European union, any other its own presets, cut to eleven. */
  lemma PresetsSpelled(t: seq<RegionEntry>, m: PresetMap, j: nat)
    requires Describes(t, BuiltFrom(t, |t|), m) && j < |m.regionGroups|
    ensures |m.regionGroups| == |Take(MAX_REGIONS, Admitted(t, |t|))| <= 38 && |m.groups| <= 8
    ensures m.regionGroups[j].groupIndex < |m.groups|
    ensures var presets := m.groups[m.regionGroups[j].groupIndex].presets;
            var r := t[FirstWith(t, KeyOf(t[Take(MAX_REGIONS, Admitted(t, |t|))[j]]))];
            && (r.code == 3 || r.code == 29 || r.code == 32 ==> presets == [0, 1, 3, 4, 5, 6, 7, 10, 11, 12, 13])
            && (r.code != 3 && r.code != 29 && r.code != 32 ==>
                 presets <= r.profile.presets
                 && |presets| == if |r.profile.presets| > 11 then 11 else |r.profile.presets|)
  {
    MapMeaning(t, m, j);
  }
}
