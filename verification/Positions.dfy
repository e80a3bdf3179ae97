/** Which precision a position may be sent with, and coarsening a position to it
    (core/position.go). */
module Positions {
  import opened Bytes
  import opened Precision
  import opened Wrappers
  import Keys

  // ---------------------------------------------------------------- the channel table

  const SECONDARY := 2
  const PRIMARY := 1
  const DISABLED := 0
  const MAX_POSITION_PRECISION_PUBLIC_KEY: Uint32 := 15

  /** `precision` is None when the channel has no module settings. Roles are open enum numbers. */
  datatype Settings = Settings(psk: seq<Byte>, precision: Option<Uint32>)
  datatype Channel = Channel(role: int, settings: Option<Settings>)
  type Table = seq<Option<Channel>>

  predicate IsRole(channels: Table, i: int, role: int) {
    0 <= i < |channels| && channels[i].Some? && channels[i].value.role == role
  }

  /** An enabled channel with settings. */
  predicate Usable(channels: Table, i: int) {
    && 0 <= i < |channels| && channels[i].Some? && channels[i].value.settings.Some?
    && channels[i].value.role != DISABLED
  }

  function Psk(channels: Table, i: int): seq<Byte>
    requires Usable(channels, i)
  {
    channels[i].value.settings.value.psk
  }

  /** The lowest-indexed primary channel at or after `from`. */
  function FirstPrimary(channels: Table, from: nat): (r: Option<nat>)
    requires from <= |channels|
    ensures r.None? ==> forall i :: from <= i < |channels| ==> !IsRole(channels, i, PRIMARY)
    ensures r.Some? ==> from <= r.value < |channels| && IsRole(channels, r.value, PRIMARY)
                        && forall i :: from <= i < r.value ==> !IsRole(channels, i, PRIMARY)
    decreases |channels| - from
  {
    if from == |channels| then None
    else if IsRole(channels, from, PRIMARY) then Some(from)
    else FirstPrimary(channels, from + 1)
  }

  /** Recursion only ever goes from a secondary channel to a primary one. */
  predicate ChannelUsesPublicKey(channels: Table, index: int)
    decreases if IsRole(channels, index, SECONDARY) then 1 else 0
  {
    if !Usable(channels, index) then false
    else
      var psk := Psk(channels, index);
      if |psk| == 0 then
        if channels[index].value.role != SECONDARY then true
        else
          match FirstPrimary(channels, 0)
          case None => true
          case Some(i) => i == index || ChannelUsesPublicKey(channels, i)
      else if |psk| == 1 then true
      else |psk| == |Keys.DEFAULT_KEY| && psk[..|psk| - 1] == Keys.DEFAULT_KEY[..|Keys.DEFAULT_KEY| - 1]
  }

  /** A secondary channel with no key of its own, next to a primary without settings. */
  predicate InheritsFromNowhere(channels: Table, index: int)
    requires Usable(channels, index)
  {
    && Psk(channels, index) == [] && IsRole(channels, index, SECONDARY)
    && var p := FirstPrimary(channels, 0); p.Some? && channels[p.value].value.settings.None?
  }

  /** The key bytes in force: the channel's own, else for a secondary the first primary's. */
  function ResolvedPsk(channels: Table, index: int): seq<Byte>
    requires Usable(channels, index)
  {
    if Psk(channels, index) != [] || !IsRole(channels, index, SECONDARY) then Psk(channels, index)
    else
      match FirstPrimary(channels, 0)
      case None => []
      case Some(i) => if Usable(channels, i) then Psk(channels, i) else []
  }

  /** What traffic is encrypted with; no key bytes means no encryption. */
  function EffectiveKey(channels: Table, index: int): seq<Byte>
    requires Usable(channels, index)
  {
    if ResolvedPsk(channels, index) == [] then [] else Keys.Expanded(ResolvedPsk(channels, index))
  }

  /** No encryption, or a member of the published family. */
  predicate IsPublicKey(key: seq<Byte>) {
    key == [] || (|key| == 16 && key[..15] == Keys.DEFAULT_KEY[..15])
  }

  /** The test that does not resolve inheritance, on one non-empty key. */
  lemma ExpandedPublic(psk: seq<Byte>)
    requires psk != []
    ensures IsPublicKey(Keys.Expanded(psk)) <==>
              || |psk| == 1 || psk == Keys.DEFAULT_KEY[..15]
              || (|psk| == 16 && psk[..15] == Keys.DEFAULT_KEY[..15])
  {
    var e := Keys.Expanded(psk);
    if |psk| == 1 && psk[0] != 0 {
      Keys.ExpandThenCompact(psk[0]);
    } else if 2 <= |psk| < 16 {
      assert e == psk + seq(16 - |psk|, _ => 0);
      assert e[..|psk|] == psk;
      if |psk| < 15 { assert e[14] == 0 && e[..15][14] == 0 && Keys.DEFAULT_KEY[..15][14] == 0x69; }
      if |psk| == 15 { assert e[..15] == psk; }
    }
  }

  /** The code's answer is the truth about the effective key except in two malformed cases, and in
      both it errs towards "private": a 15-byte key that zero-padding turns into a family member,
      and a keyless secondary whose primary has no settings. */
  lemma PublicKeyExactly(channels: Table, index: int)
    requires Usable(channels, index)
    ensures (ChannelUsesPublicKey(channels, index) <==> IsPublicKey(EffectiveKey(channels, index)))
       <==> ResolvedPsk(channels, index) != Keys.DEFAULT_KEY[..15] && !InheritsFromNowhere(channels, index)
    ensures ChannelUsesPublicKey(channels, index) ==> IsPublicKey(EffectiveKey(channels, index))
  {
    var psk := ResolvedPsk(channels, index);
    if psk != [] { ExpandedPublic(psk); }
    var p := FirstPrimary(channels, 0);
    if Psk(channels, index) == [] && IsRole(channels, index, SECONDARY) && p.Some? {
      assert !IsRole(channels, p.value, SECONDARY);
    }
  }

  /** Despite the stated fail-closed rule, a table whose primary has no settings makes a keyless
      secondary count as private. */
  lemma SettingslessPrimaryFailsOpen(precision: Option<Uint32>)
    ensures var channels := [Some(Channel(PRIMARY, None)), Some(Channel(SECONDARY, Some(Settings([], precision))))];
            Usable(channels, 1) && EffectiveKey(channels, 1) == [] && !ChannelUsesPublicKey(channels, 1)
  {
    var channels := [Some(Channel(PRIMARY, None)), Some(Channel(SECONDARY, Some(Settings([], precision))))];
    assert IsRole(channels, 0, PRIMARY);
    assert FirstPrimary(channels, 0) == Some(0);
  }

  /** The other malformed case: a 15-byte key is padded into the published family and called private. */
  lemma PaddedFamilyKeyFailsOpen(role: int, precision: Option<Uint32>)
    requires role != DISABLED
    ensures var channels := [Some(Channel(role, Some(Settings(Keys.DEFAULT_KEY[..15], precision))))];
            && Usable(channels, 0) && EffectiveKey(channels, 0) == Keys.Family(0)
            && IsPublicKey(EffectiveKey(channels, 0)) && !ChannelUsesPublicKey(channels, 0)
  {
    var channels := [Some(Channel(role, Some(Settings(Keys.DEFAULT_KEY[..15], precision))))];
    assert Psk(channels, 0) == Keys.DEFAULT_KEY[..15];
    assert Keys.Expanded(Keys.DEFAULT_KEY[..15]) == Keys.Family(0);
  }

  // ---------------------------------------------------------------- choosing a channel

  /** The precision a channel is configured with; 0 unless it is enabled and has module settings. */
  function Configured(channels: Table, i: int): Uint32 {
    if Usable(channels, i) && channels[i].value.settings.value.precision.Some?
    then channels[i].value.settings.value.precision.value
    else 0
  }

  function PositionPrecisionForChannel(channels: Table, index: int): Uint32 {
    if !Usable(channels, index) then 0
    else
      var precision := Configured(channels, index);
      if precision > MAX_POSITION_PRECISION_PUBLIC_KEY && ChannelUsesPublicKey(channels, index)
      then MAX_POSITION_PRECISION_PUBLIC_KEY
      else precision
  }

  /** A channel is configured with its module settings' precision exactly when it is enabled (role
      other than 0) and has them; anything else, and any index outside the table, counts as 0 and as
      not public. */
  lemma ConfiguredSpelled(channels: Table, i: int, role: int, psk: seq<Byte>, precision: Uint32)
    ensures 0 <= i < |channels| && channels[i] == Some(Channel(role, Some(Settings(psk, Some(precision))))) ==>
              Configured(channels, i) == if role == 0 then 0 else precision
    ensures !(0 <= i < |channels|)
            || channels[i] == None || channels[i] == Some(Channel(role, None))
            || channels[i] == Some(Channel(0, Some(Settings(psk, Some(precision))))) ==>
              Configured(channels, i) == 0 == PositionPrecisionForChannel(channels, i)
              && !ChannelUsesPublicKey(channels, i)
    ensures 0 <= i < |channels| && channels[i] == Some(Channel(role, Some(Settings(psk, None)))) ==>
              Configured(channels, i) == 0
  {}

  /** The precision returned for one enabled channel with a key of its own. */
  lemma PrecisionSpelled(role: int, last: Byte, key: seq<Byte>, precision: Uint32)
    requires role != 0 && |key| > 1 && (forall b: Byte :: key != Keys.DEFAULT_KEY[..15] + [b])
    ensures var psk := Keys.DEFAULT_KEY[..15] + [last];
            var t := [Some(Channel(role, Some(Settings(psk, Some(precision)))))];
            PositionPrecisionForChannel(t, 0) == if precision > 15 then 15 else precision
    ensures var t := [Some(Channel(role, Some(Settings([last], Some(precision)))))];
            PositionPrecisionForChannel(t, 0) == if precision > 15 then 15 else precision
    ensures var t := [Some(Channel(role, Some(Settings(key, Some(precision)))))];
            PositionPrecisionForChannel(t, 0) == precision
  {
    assert |key| == 16 ==> key == key[..15] + [key[15]];
  }

  /** A keyless channel behind one primary (role 1): a secondary (role 2) is as public as the
      primary's key, anything else unencrypted and so public. */
  lemma InheritanceSpelled(role: int, key: seq<Byte>, pp: Option<Uint32>, precision: Uint32)
    requires role != 0
    ensures var t := [Some(Channel(1, Some(Settings(key, pp)))),
                      Some(Channel(role, Some(Settings([], Some(precision)))))];
            && (ChannelUsesPublicKey(t, 1) <==>
                 role != 2 || |key| <= 1 || exists b: Byte :: key == Keys.DEFAULT_KEY[..15] + [b])
            && PositionPrecisionForChannel(t, 1)
               == if precision > 15 && ChannelUsesPublicKey(t, 1) then 15 else precision
  {
    var t := [Some(Channel(1, Some(Settings(key, pp)))), Some(Channel(role, Some(Settings([], Some(precision)))))];
    assert IsRole(t, 0, PRIMARY);
    assert FirstPrimary(t, 0) == Some(0);
    assert |key| == 16 ==> key == key[..15] + [key[15]];
  }

  /** The cap only ever coarsens, only on public keys, and never to nothing. */
  lemma PrecisionCap(channels: Table, index: int)
    ensures var r, c := PositionPrecisionForChannel(channels, index), Configured(channels, index);
            && r <= c && (r == 0 <==> c == 0)
            && (ChannelUsesPublicKey(channels, index) ==> r <= 15)
            && (!ChannelUsesPublicKey(channels, index) ==> r == c)
            && (r != c ==> r == 15)
  {}

  /** The table with every key erased. */
  function Keyless(channels: Table): (r: Table)
    ensures |r| == |channels|
  {
    seq(|channels|, i requires 0 <= i < |channels| => EraseKey(channels[i]))
  }

  function EraseKey(c: Option<Channel>): Option<Channel> {
    if c.Some? && c.value.settings.Some?
    then Some(c.value.(settings := Some(c.value.settings.value.(psk := []))))
    else c
  }

  lemma ConfiguredIgnoresKeys(channels: Table, i: int)
    ensures Configured(Keyless(channels), i) == Configured(channels, i)
  {}

  /** Finds the lowest enabled channel with nonzero configured precision. The result is a fact about
      the table with its keys erased, so no key can change it. */
  method FindPositionChannel(channels: Table) returns (index: nat, found: bool)
    ensures found <==> exists i :: 0 <= i < |channels| && Configured(Keyless(channels), i) != 0
    ensures found ==> index < |channels| && Configured(Keyless(channels), index) != 0
                      && forall i :: 0 <= i < index ==> Configured(Keyless(channels), i) == 0
    ensures !found ==> index == 0
    ensures found ==> PositionPrecisionForChannel(channels, index) != 0
  {
    for i := 0 to |channels|
      invariant forall j :: 0 <= j < i ==> Configured(Keyless(channels), j) == 0
    {
      PrecisionCap(channels, i);
      ConfiguredIgnoresKeys(channels, i);
      if PositionPrecisionForChannel(channels, i) != 0 { return i, true; }
    }
    return 0, false;
  }

  // ---------------------------------------------------------------- coarsening a position

  /** The fields of a position message; `others` holds every remaining set field by its number. */
  datatype Report = Report(
    latitude: Option<Int32>, longitude: Option<Int32>, time: Uint32, precisionBits: Uint32, others: map<nat, int>)

  function TruncateOptional(c: Option<Int32>, precision: Uint32): Option<Int32> {
    if c.None? then None else Some(TruncateCoordinate(c.value, precision))
  }

  function Clamped(precision: Uint32): (p: Uint32)
    ensures p <= 32
  {
    if precision > 32 then 32 else precision
  }

  function Applied(r: Report, precision: Uint32): Report {
    if precision == 0 then Report(None, None, r.time, 0, map[])
    else
      var p := Clamped(precision);
      r.(latitude := TruncateOptional(r.latitude, p), longitude := TruncateOptional(r.longitude, p), precisionBits := p)
  }

  /** A position message, changed in place. */
  class Position {
    var latitude: Option<Int32>
    var longitude: Option<Int32>
    var time: Uint32
    var precisionBits: Uint32
    var others: map<nat, int>

    function Contents(): Report
      reads this
    {
      Report(latitude, longitude, time, precisionBits, others)
    }

    constructor (r: Report)
      ensures Contents() == r
    {
      latitude, longitude, time, precisionBits, others := r.latitude, r.longitude, r.time, r.precisionBits, r.others;
    }

    /** proto.Reset. */
    method Reset()
      modifies this
      ensures Contents() == Report(None, None, 0, 0, map[])
    {
      latitude, longitude, time, precisionBits, others := None, None, 0, 0, map[];
    }
  }

  method ApplyPositionPrecision(position: Position?, precision: Uint32)
    modifies position
    ensures position != null ==> position.Contents() == Applied(old(position.Contents()), precision)
  {
    if position == null { return; }
    if precision == 0 {
      var time := position.time;
      position.Reset();
      position.time := time;
      return;
    }
    var p := precision;
    if p > 32 { p := 32; }
    position.precisionBits := p;
    if p == 32 { return; }
    if position.latitude.Some? {
      position.latitude := Some(TruncateCoordinate(position.latitude.value, p));
    }
    if position.longitude.Some? {
      position.longitude := Some(TruncateCoordinate(position.longitude.value, p));
    }
  }

  // ---------------------------------------------------------------- runs of applications

  function AppliedAll(r: Report, ps: seq<Uint32>): Report
    decreases |ps|
  {
    if ps == [] then r else AppliedAll(Applied(r, ps[0]), ps[1..])
  }

  function Coarsened(c: Int32, ps: seq<Uint32>): Int32
    decreases |ps|
  {
    if ps == [] then c else Coarsened(TruncateCoordinate(c, Clamped(ps[0])), ps[1..])
  }

  predicate AllNonzero(ps: seq<Uint32>) { forall i :: 0 <= i < |ps| ==> ps[i] != 0 }

  /** The coarsest precision of a run; 32, the identity, when there is none. */
  function Coarsest(ps: seq<Uint32>): (m: nat)
    requires AllNonzero(ps)
    ensures 1 <= m <= 32
    ensures forall i :: 0 <= i < |ps| ==> m <= ps[i]
    ensures m == 32 || exists i :: 0 <= i < |ps| && ps[i] == m
  {
    if ps == [] then 32
    else
      var m, p := Coarsest(ps[1..]), Clamped(ps[0]);
      if p < m then p else m
  }

  /** A run of nonzero precisions coarsens the coordinates that are set, invents none, keeps the
      other fields, and records the last precision. */
  lemma {:induction false} RunOfNonzero(r: Report, ps: seq<Uint32>)
    requires AllNonzero(ps)
    ensures var out := AppliedAll(r, ps);
            && out.latitude == (if r.latitude.None? then None else Some(Coarsened(r.latitude.value, ps)))
            && out.longitude == (if r.longitude.None? then None else Some(Coarsened(r.longitude.value, ps)))
            && out.time == r.time && out.others == r.others
            && out.precisionBits == if ps == [] then r.precisionBits else Clamped(ps[|ps| - 1])
    decreases |ps|
  {
    if ps != [] { RunOfNonzero(Applied(r, ps[0]), ps[1..]); }
  }

  /** However a coordinate is coarsened, it stays in its cell of the coarsest grid used. */
  lemma {:induction false} StaysInCoarsestCell(c: Int32, ps: seq<Uint32>)
    requires AllNonzero(ps)
    ensures Cell(Coarsened(c, ps), Coarsest(ps)) == Cell(c, Coarsest(ps))
    decreases |ps|
  {
    if ps != [] {
      var m, p, c' := Coarsest(ps[1..]), Clamped(ps[0]), TruncateCoordinate(c, Clamped(ps[0]));
      StaysInCoarsestCell(c', ps[1..]);
      if p < m {
        CoarserCell(Coarsened(c, ps), p, m);
        CoarserCell(c', p, m);
        KeepsCoarserCells(c, p, p);
      } else {
        KeepsCoarserCells(c, m, p);
      }
    }
  }

  /** A run reveals the cell of the coarsest grid used and nothing more: two coordinates come out
      equal exactly when they share that cell. */
  lemma {:induction false} RevealsOnlyCoarsestCell(c: Int32, d: Int32, ps: seq<Uint32>)
    requires AllNonzero(ps)
    ensures Coarsened(c, ps) == Coarsened(d, ps) <==> Cell(c, Coarsest(ps)) == Cell(d, Coarsest(ps))
    decreases |ps|
  {
    if ps == [] {
      assert Side(32) == 1;
    } else {
      var m, p := Coarsest(ps[1..]), Clamped(ps[0]);
      var c', d' := TruncateCoordinate(c, p), TruncateCoordinate(d, p);
      RevealsOnlyCoarsestCell(c', d', ps[1..]);
      if p < m {
        CoarserCell(c', p, m);
        CoarserCell(d', p, m);
        KeepsCoarserCells(c, p, p);
        KeepsCoarserCells(d, p, p);
        SameCellSameResult(c, d, p);
      } else {
        KeepsCoarserCells(c, m, p);
        KeepsCoarserCells(d, m, p);
      }
    }
  }

  /** One zero precision anywhere leaves no coordinates for the rest of the run, and only the time
      and the last recorded precision besides. */
  lemma {:induction false} ZeroClearsForGood(r: Report, ps: seq<Uint32>, z: nat)
    requires z < |ps| && ps[z] == 0
    ensures AppliedAll(r, ps) == Report(None, None, r.time, Clamped(ps[|ps| - 1]), map[])
    decreases |ps|
  {
    if z > 0 {
      ZeroClearsForGood(Applied(r, ps[0]), ps[1..], z - 1);
    } else {
      StaysCleared(Applied(r, 0), ps[1..]);
    }
  }

  lemma {:induction false} StaysCleared(r: Report, ps: seq<Uint32>)
    requires r.latitude == r.longitude == None && r.others == map[]
    ensures AppliedAll(r, ps) == r.(precisionBits := if ps == [] then r.precisionBits else Clamped(ps[|ps| - 1]))
    decreases |ps|
  {
    if ps != [] { StaysCleared(Applied(r, ps[0]), ps[1..]); }
  }
}
