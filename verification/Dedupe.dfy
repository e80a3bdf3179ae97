/** The packet deduplicator (core/dedupe/dedupe.go).

    Each call makes up to two locked sections: an optional purge and then the check. A run is
    the sequence of those sections in lock order, whatever callers they came from, so a theorem
    about every run covers every interleaving of concurrent calls and every random purge choice. */
module Dedupe {
  import opened Bits
  import opened Bytes

  type Time = int
  const MAX_DURATION := 0x7FFF_FFFF_FFFF_FFFF
  const MIN_DURATION := -0x8000_0000_0000_0000
  type Duration = d: int | MIN_DURATION <= d <= MAX_DURATION
  type Key = k: int | 0 <= k < 0x1_0000_0000_0000_0000

  /** time.Time.Sub saturates at the ends of the 64-bit duration range. */
  function Elapsed(now: Time, then_: Time): Duration {
    if now - then_ > MAX_DURATION then MAX_DURATION
    else if now - then_ < MIN_DURATION then MIN_DURATION
    else now - then_
  }

  /** Two's-complement negation of a duration: the minimum is its own negation. */
  function Negated(d: Duration): Duration {
    if d == MIN_DURATION then MIN_DURATION else -d
  }

  /** What the check calls expired. */
  predicate Expired(expiry: Duration, now: Time, d: Time) { Elapsed(now, d) > expiry }

  /** What a purge at the given time throws away. */
  predicate Stale(expiry: Duration, now: Time, d: Time) { d < now + Negated(expiry) }

  /** The purge throws away exactly what the check calls expired, at every time and for every
      record, if and only if the expiry is not one of the two extreme durations. */
  lemma PurgeAgreesWithCheck(expiry: Duration)
    ensures (forall now: Time, d: Time :: Stale(expiry, now, d) <==> Expired(expiry, now, d))
       <==> MIN_DURATION < expiry < MAX_DURATION
  {
    if expiry == MAX_DURATION {
      assert Stale(expiry, MAX_DURATION + 1, 0) && !Expired(expiry, MAX_DURATION + 1, 0);
    } else if expiry == MIN_DURATION {
      assert !Stale(expiry, 0, 0) && Expired(expiry, 0, 0);
    }
  }

  // ---------------------------------------------------------------- transition system

  type Table = map<Key, Time>

  datatype Step = Purge(now: Time) | Check(now: Time, key: Key)

  /** What one step did. `Recorded` and `Deleted` are the two ways to answer "not seen". */
  datatype Outcome = Purged | Recorded | Deleted | Duplicate {
    predicate NotSeen() { Recorded? || Deleted? }
  }

  function Survivors(expiry: Duration, m: Table, now: Time): Table {
    map k | k in m && !Stale(expiry, now, m[k]) :: m[k]
  }

  function After(expiry: Duration, m: Table, s: Step): Table {
    match s
    case Purge(now) => Survivors(expiry, m, now)
    case Check(now, k) =>
      if k !in m then m[k := now]
      else if Expired(expiry, now, m[k]) then m - {k}
      else m
  }

  function OutcomeOf(expiry: Duration, m: Table, s: Step): Outcome {
    match s
    case Purge(_) => Purged
    case Check(now, k) =>
      if k !in m then Recorded
      else if Expired(expiry, now, m[k]) then Deleted
      else Duplicate
  }

  /** The table after a whole run from an empty deduplicator. */
  function TableAfter(expiry: Duration, run: seq<Step>): Table {
    if run == [] then map[]
    else After(expiry, TableAfter(expiry, run[..|run| - 1]), run[|run| - 1])
  }

  function OutcomeAt(expiry: Duration, run: seq<Step>, i: nat): Outcome
    requires i < |run|
  {
    OutcomeOf(expiry, TableAfter(expiry, run[..i]), run[i])
  }

  lemma TableStep(expiry: Duration, run: seq<Step>, i: nat)
    requires i < |run|
    ensures TableAfter(expiry, run[..i + 1]) == After(expiry, TableAfter(expiry, run[..i]), run[i])
  {
    assert run[..i + 1][..i] == run[..i];
  }

  predicate NotSeenAt(expiry: Duration, run: seq<Step>, i: int, k: Key) {
    0 <= i < |run| && run[i].Check? && run[i].key == k && OutcomeAt(expiry, run, i).NotSeen()
  }

  predicate RecordedAt(expiry: Duration, run: seq<Step>, i: int, k: Key) {
    0 <= i < |run| && run[i].Check? && run[i].key == k && OutcomeAt(expiry, run, i).Recorded?
  }

  // ---------------------------------------------------------------- runs with a clock

  /** Steps take the lock at most `skew` later than a step stamped after them; skew 0 is a
      nondecreasing clock. */
  ghost predicate Steady(run: seq<Step>, skew: nat) {
    forall i, j :: 0 <= i < j < |run| ==> run[j].now >= run[i].now - skew
  }

  /** Until some step's time passes the recording by more than the expiry, the recording stands. */
  lemma {:induction false} RecordingStands(expiry: Duration, run: seq<Step>, k: Key, i: nat, m: nat)
    requires expiry >= 0 && i < m <= |run| && RecordedAt(expiry, run, i, k)
    ensures
      || (k in TableAfter(expiry, run[..m]) && TableAfter(expiry, run[..m])[k] == run[i].now)
      || exists q :: i < q < m && run[q].now - run[i].now > expiry
  {
    TableStep(expiry, run, m - 1);
    if m - 1 > i {
      RecordingStands(expiry, run, k, i, m - 1);
      if run[m - 1].now - run[i].now <= expiry {
        assert !Stale(expiry, run[m - 1].now, run[i].now) && !Expired(expiry, run[m - 1].now, run[i].now);
      }
    }
  }

  /** After a delete-on-expiry the key stays away until it is recorded again. */
  lemma {:induction false} AbsentUntilRecorded(expiry: Duration, run: seq<Step>, k: Key, i: nat, m: nat)
    requires i < m <= |run| && NotSeenAt(expiry, run, i, k) && OutcomeAt(expiry, run, i).Deleted?
    ensures k !in TableAfter(expiry, run[..m]) || exists r :: i < r < m && RecordedAt(expiry, run, r, k)
  {
    TableStep(expiry, run, m - 1);
    if m - 1 > i {
      AbsentUntilRecorded(expiry, run, k, i, m - 1);
      if k !in TableAfter(expiry, run[..m - 1]) && run[m - 1].Check? && run[m - 1].key == k {
        assert RecordedAt(expiry, run, m - 1, k);
      }
    }
  }

  lemma AfterRecording(expiry: Duration, run: seq<Step>, skew: nat, k: Key, i: nat, j: nat)
    requires expiry >= 0 && Steady(run, skew) && i < j
    requires RecordedAt(expiry, run, i, k) && NotSeenAt(expiry, run, j, k)
    ensures run[j].now - run[i].now > expiry - skew
  {
    RecordingStands(expiry, run, k, i, j);
  }

  /** Two "not seen" answers for one key lie within the expiry (less the skew) only if the
      earlier one took the delete-on-expiry path. */
  lemma TwoNotSeen(expiry: Duration, run: seq<Step>, skew: nat, k: Key, i: nat, j: nat)
    requires expiry >= 0 && Steady(run, skew) && i < j
    requires NotSeenAt(expiry, run, i, k) && NotSeenAt(expiry, run, j, k)
    ensures run[j].now - run[i].now <= expiry - skew ==> OutcomeAt(expiry, run, i).Deleted?
  {
    if OutcomeAt(expiry, run, i).Recorded? { AfterRecording(expiry, run, skew, k, i, j); }
  }

  /** Of any three "not seen" answers for one key, the first and the last are more than the
      expiry apart, less twice the skew (so more than the expiry under a nondecreasing clock). */
  lemma ThreeNotSeen(expiry: Duration, run: seq<Step>, skew: nat, k: Key, i: nat, j: nat, l: nat)
    requires expiry >= 0 && Steady(run, skew) && i < j < l
    requires NotSeenAt(expiry, run, i, k) && NotSeenAt(expiry, run, j, k) && NotSeenAt(expiry, run, l, k)
    ensures run[l].now - run[i].now > expiry - 2 * skew
  {
    if OutcomeAt(expiry, run, i).Recorded? {
      AfterRecording(expiry, run, skew, k, i, l);
    } else {
      AbsentUntilRecorded(expiry, run, k, i, j);
      var r :| i < r <= j && RecordedAt(expiry, run, r, k);
      AfterRecording(expiry, run, skew, k, r, l);
    }
  }

  predicate ChecksBetween(run: seq<Step>, k: Key, i: int, j: int) {
    exists q :: i < q < j && 0 <= q < |run| && run[q].Check? && run[q].key == k
  }

  /** Within the expiry (less twice the skew) of a "not seen" answer, a check of the same key is "not
      seen" again exactly when that answer deleted an expired record and this is the first check
      of the key since. */
  lemma TwoNotSeenExactly(expiry: Duration, run: seq<Step>, skew: nat, k: Key, i: nat, j: nat)
    requires expiry >= 0 && Steady(run, skew) && i < j < |run|
    requires NotSeenAt(expiry, run, i, k) && run[j].Check? && run[j].key == k
    requires run[j].now - run[i].now <= expiry - 2 * skew
    ensures NotSeenAt(expiry, run, j, k) <==> OutcomeAt(expiry, run, i).Deleted? && !ChecksBetween(run, k, i, j)
  {
    if OutcomeAt(expiry, run, i).Recorded? {
      if NotSeenAt(expiry, run, j, k) { AfterRecording(expiry, run, skew, k, i, j); }
    } else if ChecksBetween(run, k, i, j) {
      var q :| i < q < j && run[q].Check? && run[q].key == k;
      RecordedByCheck(expiry, run, k, i, q);
      var r :| i < r <= q && RecordedAt(expiry, run, r, k);
      if NotSeenAt(expiry, run, j, k) { AfterRecording(expiry, run, skew, k, r, j); }
    } else {
      AbsentUntilRecorded(expiry, run, k, i, j);
    }
  }

  /** A check after a delete-on-expiry is, or follows, a new recording. */
  lemma RecordedByCheck(expiry: Duration, run: seq<Step>, k: Key, i: nat, q: nat)
    requires i < q < |run| && NotSeenAt(expiry, run, i, k) && OutcomeAt(expiry, run, i).Deleted?
    requires run[q].Check? && run[q].key == k
    ensures exists r :: i < r <= q && RecordedAt(expiry, run, r, k)
  {
    AbsentUntilRecorded(expiry, run, k, i, q);
    if k !in TableAfter(expiry, run[..q]) { assert RecordedAt(expiry, run, q, k); }
  }

  /** After any run that ends in a "not seen" answer for k, the next answer for k within the expiry is
      "not seen" again exactly when that last one deleted an expired record. */
  lemma NextAnswer(expiry: Duration, run: seq<Step>, k: Key, t: Time)
    requires expiry >= 0 && run != [] && NotSeenAt(expiry, run, |run| - 1, k)
    requires t - run[|run| - 1].now <= expiry
    ensures OutcomeOf(expiry, TableAfter(expiry, run), Check(t, k)).NotSeen()
       <==> OutcomeAt(expiry, run, |run| - 1).Deleted?
  {
    TableStep(expiry, run, |run| - 1);
    assert run[..|run|] == run;
  }

  /** An instance: after an expired check the very next call, at the same time, is also told "not
      seen", because the first of them left nothing recorded. */
  lemma ExpiredCheckRecordsNothing(expiry: Duration, k: Key)
    requires 0 <= expiry < MAX_DURATION
    ensures var t := expiry + 1; var run := [Check(0, k), Check(t, k), Check(t, k)];
            && Steady(run, 0)
            && OutcomeAt(expiry, run, 1).Deleted? && k !in TableAfter(expiry, run[..2])
            && OutcomeAt(expiry, run, 2).Recorded?
  {
    var t := expiry + 1;
    var run := [Check(0, k), Check(t, k), Check(t, k)];
    assert run[..0] == [];
    TableStep(expiry, run, 0);
    TableStep(expiry, run, 1);
  }

  // ---------------------------------------------------------------- runs with no clock at all

  /** A step after which a record of `k` made at `d` is gone. */
  predicate Removes(expiry: Duration, s: Step, k: Key, d: Time) {
    match s
    case Purge(now) => Stale(expiry, now, d)
    case Check(now, key) => key == k && Expired(expiry, now, d)
  }

  ghost predicate HeldSince(expiry: Duration, run: seq<Step>, i: nat, m: nat, k: Key)
    requires m <= |run|
  {
    && i < m && RecordedAt(expiry, run, i, k)
    && forall q :: i < q < m ==> !Removes(expiry, run[q], k, run[i].now)
  }

  /** The table holds k at d exactly when some step recorded it at d and nothing since removed it. */
  lemma {:induction false} HeldExactly(expiry: Duration, run: seq<Step>, m: nat, k: Key, d: Time)
    requires m <= |run|
    ensures (k in TableAfter(expiry, run[..m]) && TableAfter(expiry, run[..m])[k] == d)
       <==> exists i :: 0 <= i < m && HeldSince(expiry, run, i, m, k) && run[i].now == d
  {
    if m == 0 {
      assert run[..0] == [];
    } else {
      HeldExactly(expiry, run, m - 1, k, d);
      HeldForward(expiry, run, m, k, d);
      HeldBackward(expiry, run, m, k, d);
    }
  }

  lemma HeldForward(expiry: Duration, run: seq<Step>, m: nat, k: Key, d: Time)
    requires 0 < m <= |run|
    requires k in TableAfter(expiry, run[..m - 1]) && TableAfter(expiry, run[..m - 1])[k] == d
         ==> exists i :: 0 <= i < m - 1 && HeldSince(expiry, run, i, m - 1, k) && run[i].now == d
    ensures k in TableAfter(expiry, run[..m]) && TableAfter(expiry, run[..m])[k] == d
        ==> exists i :: 0 <= i < m && HeldSince(expiry, run, i, m, k) && run[i].now == d
  {
    TableStep(expiry, run, m - 1);
    if k in TableAfter(expiry, run[..m]) && TableAfter(expiry, run[..m])[k] == d {
      if k in TableAfter(expiry, run[..m - 1]) {
        var i :| 0 <= i < m - 1 && HeldSince(expiry, run, i, m - 1, k) && run[i].now == d;
        assert HeldSince(expiry, run, i, m, k);
      } else {
        assert HeldSince(expiry, run, m - 1, m, k);
      }
    }
  }

  lemma HeldBackward(expiry: Duration, run: seq<Step>, m: nat, k: Key, d: Time)
    requires 0 < m <= |run|
    requires (exists i :: 0 <= i < m - 1 && HeldSince(expiry, run, i, m - 1, k) && run[i].now == d)
         ==> k in TableAfter(expiry, run[..m - 1]) && TableAfter(expiry, run[..m - 1])[k] == d
    ensures (exists i :: 0 <= i < m && HeldSince(expiry, run, i, m, k) && run[i].now == d)
        ==> k in TableAfter(expiry, run[..m]) && TableAfter(expiry, run[..m])[k] == d
  {
    TableStep(expiry, run, m - 1);
    if i :| 0 <= i < m && HeldSince(expiry, run, i, m, k) && run[i].now == d {
      if i < m - 1 { assert HeldSince(expiry, run, i, m - 1, k); }
    }
  }

  /** A check answers "seen" exactly when an earlier step recorded the key, no purge and no check
      of the key between the two had passed that record's expiry, and neither has this one. */
  lemma SeenExactly(expiry: Duration, run: seq<Step>, j: nat, k: Key)
    requires j < |run| && run[j].Check? && run[j].key == k
    ensures OutcomeAt(expiry, run, j).Duplicate?
       <==> exists i :: 0 <= i < j && HeldSince(expiry, run, i, j, k) && !Expired(expiry, run[j].now, run[i].now)
  {
    var m := TableAfter(expiry, run[..j]);
    if k in m { HeldExactly(expiry, run, j, k, m[k]); }
    if i :| 0 <= i < j && HeldSince(expiry, run, i, j, k) && !Expired(expiry, run[j].now, run[i].now) {
      HeldExactly(expiry, run, j, k, run[i].now);
    }
  }

  /** A "not seen" answer records the packet exactly when no earlier recording was still held. */
  lemma NotSeenRecordsExactly(expiry: Duration, run: seq<Step>, j: nat, k: Key)
    requires NotSeenAt(expiry, run, j, k)
    ensures k in TableAfter(expiry, run[..j + 1]) <==> !exists i :: 0 <= i < j && HeldSince(expiry, run, i, j, k)
  {
    TableStep(expiry, run, j);
    var m := TableAfter(expiry, run[..j]);
    if k in m { HeldExactly(expiry, run, j, k, m[k]); }
    if i :| 0 <= i < j && HeldSince(expiry, run, i, j, k) { HeldExactly(expiry, run, j, k, run[i].now); }
  }

  /** If step j answers "seen" for k, some recording of k no older than the expiry backs it. */
  ghost predicate SeenIsBacked(expiry: Duration, run: seq<Step>, j: int, k: Key) {
    0 <= j < |run| && run[j].Check? && run[j].key == k && OutcomeAt(expiry, run, j).Duplicate? ==>
      exists i :: 0 <= i < j && RecordedAt(expiry, run, i, k) && run[j].now - run[i].now <= expiry
  }

  lemma SeenIsBackedBelowLargest(expiry: Duration, run: seq<Step>, j: int, k: Key)
    requires expiry < MAX_DURATION
    ensures SeenIsBacked(expiry, run, j, k)
  {
    if 0 <= j < |run| && run[j].Check? && run[j].key == k { SeenExactly(expiry, run, j, k); }
  }

  /** At the largest expiry saturated subtraction never exceeds it, so a record never grows too old
      for the check. */
  lemma LargestExpiryOutlivesItself(k: Key)
    ensures var run := [Check(0, k), Check(MAX_DURATION + 1, k)];
            OutcomeAt(MAX_DURATION, run, 1).Duplicate? && !SeenIsBacked(MAX_DURATION, run, 1, k)
  {
    var run := [Check(0, k), Check(MAX_DURATION + 1, k)];
    assert run[..0] == [];
    TableStep(MAX_DURATION, run, 0);
  }

  /** All "seen" answers of all runs are backed by a recording no older than the expiry if and only if
      the expiry is not the largest duration. */
  lemma SeenIsBackedExactly(expiry: Duration)
    ensures (forall run: seq<Step>, j: int, k: Key :: SeenIsBacked(expiry, run, j, k)) <==> expiry < MAX_DURATION
  {
    if expiry < MAX_DURATION {
      forall run: seq<Step>, j: int, k: Key ensures SeenIsBacked(expiry, run, j, k) {
        SeenIsBackedBelowLargest(expiry, run, j, k);
      }
    } else {
      LargestExpiryOutlivesItself(0);
    }
  }

  // ---------------------------------------------------------------- one cell per key

  datatype Cell = Empty | Holds(d: Time)

  function View(m: Table, k: Key): Cell {
    if k in m then Holds(m[k]) else Empty
  }

  predicate Concerns(s: Step, k: Key) { s.Purge? || s.key == k }

  /** The automaton of a single key, which never looks at any other key's record. */
  function CellAfter(expiry: Duration, c: Cell, s: Step): Cell {
    match c
    case Empty => if s.Check? then Holds(s.now) else Empty
    case Holds(d) => if Removes(expiry, s, if s.Check? then s.key else 0, d) then Empty else c
  }

  function CellOutcome(expiry: Duration, c: Cell, s: Step): Outcome {
    if s.Purge? then Purged
    else if c.Empty? then Recorded
    else if Expired(expiry, s.now, c.d) then Deleted
    else Duplicate
  }

  function CellRun(expiry: Duration, run: seq<Step>): Cell {
    if run == [] then Empty
    else CellAfter(expiry, CellRun(expiry, run[..|run| - 1]), run[|run| - 1])
  }

  /** The steps of a run that concern one key, in order. */
  function Project(run: seq<Step>, k: Key): seq<Step> {
    if run == [] then []
    else
      var rest, last := Project(run[..|run| - 1], k), run[|run| - 1];
      if Concerns(last, k) then rest + [last] else rest
  }

  /** The outcomes a key's callers get over a run, in order. */
  function Answers(expiry: Duration, run: seq<Step>, k: Key): seq<Outcome> {
    if run == [] then []
    else
      var front, last := run[..|run| - 1], run[|run| - 1];
      Answers(expiry, front, k)
      + if last.Check? && last.key == k then [OutcomeOf(expiry, TableAfter(expiry, front), last)] else []
  }

  function CellAnswers(expiry: Duration, run: seq<Step>): seq<Outcome> {
    if run == [] then []
    else
      var front, last := run[..|run| - 1], run[|run| - 1];
      CellAnswers(expiry, front) + if last.Check? then [CellOutcome(expiry, CellRun(expiry, front), last)] else []
  }

  /** The shared table refines one independent automaton per key. */
  lemma {:induction false} RefinesCells(expiry: Duration, run: seq<Step>, k: Key)
    ensures View(TableAfter(expiry, run), k) == CellRun(expiry, Project(run, k))
    ensures Answers(expiry, run, k) == CellAnswers(expiry, Project(run, k))
  {
    if run != [] {
      var front, last := run[..|run| - 1], run[|run| - 1];
      RefinesCells(expiry, front, k);
      if Concerns(last, k) {
        var p := Project(front, k) + [last];
        assert p[..|p| - 1] == Project(front, k);
      }
    }
  }

  /** (uint64(sender) << 32) | uint64(packetID). */
  function Pack(sender: Uint32, packetID: Uint32): (k: Key)
    ensures k == sender * 0x1_0000_0000 + packetID
  {
    Pow2Words();
    OrJoins(sender, packetID, 32);
    Or(Shl(sender, 32), packetID)
  }

  /** Distinct packets never share a key. */
  lemma PackInjective(s: Uint32, p: Uint32, s': Uint32, p': Uint32)
    ensures Pack(s, p) == Pack(s', p') <==> s == s' && p == p'
  {}

  /** Locked sections as the callers see them. */
  datatype Section = Sweep(now: Time) | Ask(now: Time, sender: Uint32, packetID: Uint32)

  function StepOf(c: Section): Step {
    match c
    case Sweep(now) => Purge(now)
    case Ask(now, s, p) => Check(now, Pack(s, p))
  }

  function StepsOf(calls: seq<Section>): seq<Step> {
    seq(|calls|, i requires 0 <= i < |calls| => StepOf(calls[i]))
  }

  /** The sweeps and the calls for one packet. */
  function ForPacket(calls: seq<Section>, sender: Uint32, packetID: Uint32): seq<Section> {
    if calls == [] then []
    else
      var rest, last := ForPacket(calls[..|calls| - 1], sender, packetID), calls[|calls| - 1];
      if last.Sweep? || (last.sender == sender && last.packetID == packetID) then rest + [last] else rest
  }

  lemma {:induction false} ProjectPacket(calls: seq<Section>, sender: Uint32, packetID: Uint32)
    ensures Project(StepsOf(calls), Pack(sender, packetID)) == StepsOf(ForPacket(calls, sender, packetID))
  {
    if calls != [] {
      var front, last := calls[..|calls| - 1], calls[|calls| - 1];
      ProjectPacket(front, sender, packetID);
      assert StepsOf(calls)[..|calls| - 1] == StepsOf(front);
      if last.Ask? { PackInjective(last.sender, last.packetID, sender, packetID); }
      var mine := ForPacket(front, sender, packetID);
      assert StepsOf(mine + [last]) == StepsOf(mine) + [StepOf(last)];
    }
  }

  /** The answers for one (sender, packetID) pair are settled by the calls for that pair and the
      purge times: no other packet's traffic can change them. */
  lemma NoInterference(expiry: Duration, calls: seq<Section>, calls': seq<Section>, sender: Uint32, packetID: Uint32)
    requires ForPacket(calls, sender, packetID) == ForPacket(calls', sender, packetID)
    ensures Answers(expiry, StepsOf(calls), Pack(sender, packetID))
         == Answers(expiry, StepsOf(calls'), Pack(sender, packetID))
  {
    RefinesCells(expiry, StepsOf(calls), Pack(sender, packetID));
    RefinesCells(expiry, StepsOf(calls'), Pack(sender, packetID));
    ProjectPacket(calls, sender, packetID);
    ProjectPacket(calls', sender, packetID);
  }

  // ---------------------------------------------------------------- the object

  /** The object the callers share. `log` is the run so far, and `seen` is always what that run
      leaves, so every theorem above speaks about it. */
  class PacketDeduplicator {
    const expiresAfter: Duration
    var seen: Table
    ghost var log: seq<Step>

    ghost predicate Valid() reads this { seen == TableAfter(expiresAfter, log) }

    constructor (expiresAfter: Duration)
      ensures Valid() && log == [] && this.expiresAfter == expiresAfter
    {
      this.expiresAfter := expiresAfter;
      seen := map[];
      log := [];
    }

    /** The first locked section: drop every record made before `t`. */
    method DeleteUntil(t: Time)
      requires Valid()
      modifies this
      ensures Valid() && log == old(log) + [Purge(t - Negated(expiresAfter))]
      ensures seen == map k | k in old(seen) && old(seen)[k] >= t :: old(seen)[k]
    {
      var todo := seen.Keys;
      while todo != {}
        invariant todo <= seen.Keys <= old(seen).Keys
        invariant forall k :: k in seen ==> seen[k] == old(seen)[k]
        invariant forall k :: k in old(seen) && k !in todo ==> (k in seen <==> old(seen)[k] >= t)
        invariant log == old(log)
        decreases |todo|
      {
        var packet :| packet in todo;
        if seen[packet] < t { seen := seen - {packet}; }
        todo := todo - {packet};
      }
      log := log + [Purge(t - Negated(expiresAfter))];
      assert log[..|log| - 1] == old(log);
    }

    /** The second locked section. */
    method LookUp(now: Time, k: Key) returns (isSeen: bool)
      requires Valid()
      modifies this
      ensures Valid() && log == old(log) + [Check(now, k)]
      ensures isSeen == OutcomeAt(expiresAfter, log, |old(log)|).Duplicate?
    {
      log := log + [Check(now, k)];
      assert log[..|log| - 1] == old(log);
      if k !in seen {
        seen := seen[k := now];
        return false;
      }
      if Elapsed(now, seen[k]) > expiresAfter {
        seen := seen - {k};
        return false;
      }
      return true;
    }

    /** One whole call with no other caller in between; `roll` is rand.Intn(100). */
    method SeenAt(now: Time, sender: Uint32, packetID: Uint32, roll: nat) returns (isSeen: bool)
      requires Valid() && roll < 100
      modifies this
      ensures Valid()
      ensures log == old(log) + (if roll < 5 then [Purge(now)] else []) + [Check(now, Pack(sender, packetID))]
      ensures isSeen == OutcomeAt(expiresAfter, log, |log| - 1).Duplicate?
    {
      if roll < 5 { DeleteUntil(now + Negated(expiresAfter)); }
      isSeen := LookUp(now, Pack(sender, packetID));
    }
  }
}
