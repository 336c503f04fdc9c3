/**
 Fork-aware blob parameters: a compiled chain configuration overlaid with boundaries
 learned from the node, packed into the seven fork slots a ChainConfig can hold, and
 read back by slot priority.

 The specification of the whole pipeline is one line: at time `t` the parameters of the
 latest boundary at or before `t` apply (`IsLatest`). Everything else in this module shows
 when sorting, collapsing, truncating and slot assignment preserve it.
 */
module ForkSchedule {
  import opened Common

  datatype BlobConfig = BlobConfig(target: int, max: int, updateFraction: uint64)

  datatype ScheduleEntry = ScheduleEntry(activationTime: uint64, target: int, max: int, updateFraction: uint64) {
    function Config(): BlobConfig {
      BlobConfig(target, max, updateFraction)
    }
  }

  type Boundaries = map<uint64, BlobConfig>

  /** The blob-bearing slots: 0 is Cancun, 1 Prague, 2 to 6 are BPO1 to BPO5. */
  const MAX_BLOB_FORK_SLOTS: nat := 7

  /** The value of a chain configuration: what a Go struct copy copies. */
  datatype Config = Config(
    londonBlock: Option<int>,
    osakaTime: Option<uint64>,
    forkTimes: seq<Option<uint64>>,
    schedule: Option<seq<Option<BlobConfig>>>)
  {
    ghost predicate Valid() {
      && |forkTimes| == MAX_BLOB_FORK_SLOTS
      && (schedule.Some? ==> |schedule.value| == MAX_BLOB_FORK_SLOTS)
    }

    /** A fork is active once its time is set and reached; every fork also needs London. */
    predicate IsActive(slot: nat, time: uint64)
      requires Valid() && slot < MAX_BLOB_FORK_SLOTS
    {
      londonBlock.Some? && forkTimes[slot].Some? && forkTimes[slot].value <= time
    }

    /** The slots are consulted from BPO5 down to Cancun. */
    function GetActiveBlobConfig(time: uint64): Option<BlobConfig>
      requires Valid()
    {
      match schedule
      case None => None
      case Some(s) =>
        if IsActive(6, time) && s[6].Some? then s[6]
        else if IsActive(5, time) && s[5].Some? then s[5]
        else if IsActive(4, time) && s[4].Some? then s[4]
        else if IsActive(3, time) && s[3].Some? then s[3]
        else if IsActive(2, time) && s[2].Some? then s[2]
        else if IsActive(1, time) && s[1].Some? then s[1]
        else if IsActive(0, time) && s[0].Some? then s[0]
        else None
    }

    /** The boundary a slot carries, if both halves of it are present. */
    predicate Carries(slot: nat)
      requires Valid() && slot < MAX_BLOB_FORK_SLOTS
    {
      schedule.Some? && forkTimes[slot].Some? && schedule.value[slot].Some?
    }

    /** Boundaries defined by the first `n` slots; a later slot wins at an equal time. */
    ghost function BoundariesOf(n: nat): Boundaries
      requires Valid() && n <= MAX_BLOB_FORK_SLOTS
    {
      if n == 0 then map[]
      else if Carries(n - 1) then BoundariesOf(n - 1)[forkTimes[n - 1].value := schedule.value[n - 1].value]
      else BoundariesOf(n - 1)
    }

    /** Compiled schedules list their forks in activation order. */
    ghost predicate InForkOrder()
      requires Valid()
    {
      forall i, j :: 0 <= i < j < MAX_BLOB_FORK_SLOTS && Carries(i) && Carries(j) ==>
        forkTimes[i].value <= forkTimes[j].value
    }
  }

  // ---------- specification ----------

  /** `k` is the latest boundary of `m` at or before `t`. */
  ghost predicate IsLatest(m: Boundaries, t: uint64, k: uint64) {
    k in m && k <= t && forall k' :: k' in m && k' <= t ==> k' <= k
  }

  /** `r` is what the schedule `m` prescribes at time `t`. */
  ghost predicate Prescribes(m: Boundaries, t: uint64, r: Option<BlobConfig>) {
    match r
    case Some(c) => exists k :: IsLatest(m, t, k) && m[k] == c
    case None => forall k :: k in m ==> t < k
  }

  lemma PrescribesUnique(m: Boundaries, t: uint64, r: Option<BlobConfig>, r': Option<BlobConfig>)
    requires Prescribes(m, t, r) && Prescribes(m, t, r')
    ensures r == r'
  {
  }

  // ---------- what the rebuild computes, step by step ----------

  function Overlay(m: Boundaries, learned: seq<ScheduleEntry>): Boundaries {
    if learned == [] then m
    else
      var last := |learned| - 1;
      Overlay(m, learned[..last])[learned[last].activationTime := learned[last].Config()]
  }

  /** Learned entries override the compiled boundary at the same time. */
  ghost function Merged(base: Config, learned: seq<ScheduleEntry>): Boundaries
    requires base.Valid()
  {
    Overlay(base.BoundariesOf(MAX_BLOB_FORK_SLOTS), learned)
  }

  ghost function Minimum(s: set<uint64>): (m: uint64)
    requires s != {}
    ensures m in s && forall x :: x in s ==> m <= x
  {
    var x :| x in s;
    var rest := s - {x};
    assert s == rest + {x};
    if rest == {} then x
    else
      var m := Minimum(rest);
      if m < x then m else x
  }

  ghost function SortedTimes(s: set<uint64>): (r: seq<uint64>)
    ensures Ascending(r)
    ensures forall x :: x in r <==> x in s
  {
    if s == {} then []
    else
      var m := Minimum(s);
      var rest := SortedTimes(s - {m});
      assert forall i :: 0 <= i < |rest| ==> rest[i] in rest;
      [m] + rest
  }

  /** Drops each boundary whose parameters equal those of the boundary kept before it. */
  function Collapse(times: seq<uint64>, m: Boundaries, prev: Option<BlobConfig>): (kept: seq<uint64>)
    requires forall t :: t in times ==> t in m
    ensures forall t :: t in kept ==> t in times
  {
    if times == [] then []
    else if prev == Some(m[times[0]]) then Collapse(times[1..], m, prev)
    else [times[0]] + Collapse(times[1..], m, Some(m[times[0]]))
  }

  function Retained(kept: seq<uint64>): (r: seq<uint64>)
    ensures |r| <= MAX_BLOB_FORK_SLOTS
  {
    if |kept| > MAX_BLOB_FORK_SLOTS then kept[|kept| - MAX_BLOB_FORK_SLOTS..] else kept
  }

  ghost function KeptTimes(m: Boundaries): (kept: seq<uint64>)
    ensures forall t :: t in kept ==> t in m
  {
    Collapse(SortedTimes(m.Keys), m, None)
  }

  function SlotTimes(times: seq<uint64>): (r: seq<Option<uint64>>)
    requires |times| <= MAX_BLOB_FORK_SLOTS
    ensures |r| == MAX_BLOB_FORK_SLOTS
  {
    seq(MAX_BLOB_FORK_SLOTS, i => if 0 <= i < |times| then Some(times[i]) else None)
  }

  function SlotConfigs(times: seq<uint64>, m: Boundaries): (r: seq<Option<BlobConfig>>)
    requires |times| <= MAX_BLOB_FORK_SLOTS
    requires forall t :: t in times ==> t in m
    ensures |r| == MAX_BLOB_FORK_SLOTS
  {
    seq(MAX_BLOB_FORK_SLOTS, i => if 0 <= i < |times| then assert times[i] in times; Some(m[times[i]]) else None)
  }

  ghost function InferredOsaka(base: Config, times: seq<uint64>): Option<uint64> {
    if base.osakaTime.None? && |times| >= 3 then Some(times[2]) else base.osakaTime
  }

  /** The value of the configuration built from a non-empty learned list. */
  ghost function Rebuilt(base: Config, learned: seq<ScheduleEntry>): (out: Config)
    requires base.Valid()
    ensures out.Valid() && out.londonBlock.Some?
  {
    var m := Merged(base, learned);
    var retained := Retained(KeptTimes(m));
    Config(
      if base.londonBlock.Some? then base.londonBlock else Some(0),
      InferredOsaka(base, SortedTimes(m.Keys)),
      SlotTimes(retained),
      Some(SlotConfigs(retained, m)))
  }

  ghost function Earlier(times: set<uint64>, t: uint64): set<uint64> {
    set x | x in times && x < t
  }

  /** Osaka is inferred only for a base without one, and then as the merged boundary that exactly two others
      precede; with fewer than three boundaries it stays unset. London is the base's, or the first block. */
  lemma OsakaIsThird(base: Config, learned: seq<ScheduleEntry>)
    requires base.Valid()
    ensures var times, osaka := Merged(base, learned).Keys, Rebuilt(base, learned).osakaTime;
      && (base.osakaTime.Some? ==> osaka == base.osakaTime)
      && (base.osakaTime.None? && osaka.Some? ==> osaka.value in times && |Earlier(times, osaka.value)| == 2)
      && (base.osakaTime.None? && osaka.None? ==> |times| < 3)
    ensures base.londonBlock.Some? ==> Rebuilt(base, learned).londonBlock == base.londonBlock
    ensures base.londonBlock.None? ==> Rebuilt(base, learned).londonBlock == Some(0)
  {
    var elements := Merged(base, learned).Keys;
    SortedSize(elements);
    if |elements| >= 3 {
      ThirdHasTwoBelow(SortedTimes(elements), elements);
    }
  }

  lemma ThirdHasTwoBelow(times: seq<uint64>, elements: set<uint64>)
    requires Ascending(times) && |times| >= 3 && forall x :: x in times <==> x in elements
    ensures times[2] in elements && |Earlier(elements, times[2])| == 2
  {
    assert times[0] in times && times[1] in times && times[2] in times;
    forall t | t in elements && t < times[2] ensures t == times[0] || t == times[1] {
      assert t in times;
    }
    assert Earlier(elements, times[2]) == {times[0], times[1]};
  }

  lemma {:induction false} SortedSize(s: set<uint64>)
    ensures |SortedTimes(s)| == |s|
  {
    if s != {} {
      SortedSize(s - {Minimum(s)});
    }
  }

  // ---------- the pipeline preserves the specification ----------

  /** Left-to-right reading of an ascending list of boundaries. */
  function Resolve(times: seq<uint64>, m: Boundaries, t: uint64, fallback: Option<BlobConfig>): Option<BlobConfig>
    requires forall x :: x in times ==> x in m
  {
    if times == [] || t < times[0] then fallback
    else Resolve(times[1..], m, t, Some(m[times[0]]))
  }

  lemma {:induction false} ResolveNothing(times: seq<uint64>, m: Boundaries, t: uint64, fallback: Option<BlobConfig>)
    requires forall x :: x in times ==> x in m
    requires forall i :: 0 <= i < |times| ==> t < times[i]
    ensures Resolve(times, m, t, fallback) == fallback
  {
  }

  /** `i` is the position of the last boundary at or before `t`. */
  ghost predicate IsLastReached(times: seq<uint64>, t: uint64, i: nat) {
    i < |times| && times[i] <= t && forall j :: i < j < |times| ==> t < times[j]
  }

  lemma {:induction false} ResolveIsLatest(
    times: seq<uint64>, m: Boundaries, t: uint64, fallback: Option<BlobConfig>, i: nat)
    requires forall x :: x in times ==> x in m
    requires Ascending(times) && IsLastReached(times, t, i)
    ensures Resolve(times, m, t, fallback) == Some(m[times[i]])
  {
    if i == 0 {
      ResolveNothing(times[1..], m, t, Some(m[times[0]]));
    } else {
      assert forall j :: 0 <= j < |times[1..]| ==> times[1..][j] == times[j + 1];
      ResolveIsLatest(times[1..], m, t, Some(m[times[0]]), i - 1);
    }
  }

  /** Either every boundary lies after `t`, or one of them is the last reached. */
  lemma {:induction false} LastReached(times: seq<uint64>, t: uint64) returns (i: nat)
    requires Ascending(times)
    ensures i == |times| ==> forall j :: 0 <= j < |times| ==> t < times[j]
    ensures i != |times| ==> IsLastReached(times, t, i)
  {
    if times == [] || t < times[0] {
      i := |times|;
    } else {
      i := LastReached(times[1..], t);
      assert forall j :: 0 < j < |times| ==> times[j] == times[1..][j - 1];
      i := if i == |times[1..]| then 0 else i + 1;
    }
  }

  lemma {:induction false} CollapseIsAscending(times: seq<uint64>, m: Boundaries, prev: Option<BlobConfig>)
    requires forall x :: x in times ==> x in m
    requires Ascending(times)
    ensures Ascending(Collapse(times, m, prev))
  {
    if times != [] {
      if prev == Some(m[times[0]]) {
        CollapseIsAscending(times[1..], m, prev);
      } else {
        var rest := Collapse(times[1..], m, Some(m[times[0]]));
        CollapseIsAscending(times[1..], m, Some(m[times[0]]));
        forall i | 0 <= i < |rest| ensures times[0] < rest[i] {
          assert rest[i] in rest;
        }
      }
    }
  }

  /** Collapsing no-op boundaries changes no resolution. */
  lemma {:induction false} CollapseKeepsResolution(
    times: seq<uint64>, m: Boundaries, t: uint64, prev: Option<BlobConfig>)
    requires forall x :: x in times ==> x in m
    requires Ascending(times)
    ensures Resolve(Collapse(times, m, prev), m, t, prev) == Resolve(times, m, t, prev)
  {
    if times != [] {
      var head := Some(m[times[0]]);
      var next := if prev == head then prev else head;
      CollapseKeepsResolution(times[1..], m, t, next);
      if prev == head && t < times[0] {
        var rest := Collapse(times[1..], m, prev);
        CollapseIsAscending(times[1..], m, prev);
        forall i | 0 <= i < |rest| ensures t < rest[i] {
          assert rest[i] in rest && rest[i] in times[1..];
        }
        ResolveNothing(rest, m, t, prev);
      }
    }
  }

  lemma KeptTimesFacts(m: Boundaries)
    ensures Ascending(KeptTimes(m))
    ensures m != map[] ==> KeptTimes(m) != [] && KeptTimes(m)[0] == SortedTimes(m.Keys)[0]
    ensures KeptTimes(m) != [] ==> forall k :: k in m ==> KeptTimes(m)[0] <= k
  {
    var times := SortedTimes(m.Keys);
    CollapseIsAscending(times, m, None);
    if m != map[] {
      assert times != [] by {
        var k :| k in m;
        assert k in times;
      }
      forall k | k in m ensures times[0] <= k {
        assert k in times;
      }
    } else {
      NoElements(times);
    }
  }

  /** Before truncation, the collapsed boundaries prescribe exactly what the merged schedule does. */
  lemma KeptTimesPrescribe(m: Boundaries, t: uint64)
    ensures Prescribes(m, t, Resolve(KeptTimes(m), m, t, None))
  {
    var times := SortedTimes(m.Keys);
    CollapseKeepsResolution(times, m, t, None);
    AscendingPrescribes(times, m, t);
  }

  lemma AscendingPrescribes(times: seq<uint64>, m: Boundaries, t: uint64)
    requires Ascending(times) && forall x :: x in times <==> x in m
    ensures Prescribes(m, t, Resolve(times, m, t, None))
  {
    var i := LastReached(times, t);
    if i == |times| {
      ResolveNothing(times, m, t, None);
      forall k | k in m ensures t < k {
        assert k in times;
      }
    } else {
      ResolveIsLatest(times, m, t, None, i);
      assert times[i] in times;
      forall k | k in m && k <= t ensures k <= times[i] {
        assert k in times;
        var j :| 0 <= j < |times| && times[j] == k;
      }
      assert IsLatest(m, t, times[i]);
    }
  }

  /** Reading the slots from BPO5 down resolves like reading the retained list from the left. */
  lemma SlotsResolve(c: Config, times: seq<uint64>, m: Boundaries, t: uint64)
    requires |times| <= MAX_BLOB_FORK_SLOTS && Ascending(times)
    requires forall x :: x in times ==> x in m
    requires c.Valid() && c.londonBlock.Some?
    requires c.forkTimes == SlotTimes(times) && c.schedule == Some(SlotConfigs(times, m))
    ensures c.GetActiveBlobConfig(t) == Resolve(times, m, t, None)
  {
    assert forall i :: 0 <= i < |times| ==> times[i] in times;
    var i := LastReached(times, t);
    if i == |times| {
      ResolveNothing(times, m, t, None);
      NoSlotReached(c, times, m, t);
    } else {
      ResolveIsLatest(times, m, t, None, i);
      LastSlotReached(c, times, m, t, i);
    }
  }

  lemma NoSlotReached(c: Config, times: seq<uint64>, m: Boundaries, t: uint64)
    requires |times| <= MAX_BLOB_FORK_SLOTS && forall x :: x in times ==> x in m
    requires c.Valid() && c.forkTimes == SlotTimes(times) && c.schedule == Some(SlotConfigs(times, m))
    requires forall j :: 0 <= j < |times| ==> t < times[j]
    ensures c.GetActiveBlobConfig(t) == None
  {
    assert forall j: nat :: j < MAX_BLOB_FORK_SLOTS ==> !c.IsActive(j, t);
  }

  lemma LastSlotReached(c: Config, times: seq<uint64>, m: Boundaries, t: uint64, i: nat)
    requires |times| <= MAX_BLOB_FORK_SLOTS && forall x :: x in times ==> x in m
    requires c.Valid() && c.londonBlock.Some?
    requires c.forkTimes == SlotTimes(times) && c.schedule == Some(SlotConfigs(times, m))
    requires IsLastReached(times, t, i)
    ensures times[i] in times && c.GetActiveBlobConfig(t) == Some(m[times[i]])
  {
    assert times[i] in times;
    assert c.IsActive(i, t) && c.schedule.value[i] == Some(m[times[i]]);
    assert forall j: nat :: i < j < MAX_BLOB_FORK_SLOTS ==> !c.IsActive(j, t);
  }

  /** Whether truncation to seven slots is harmless at `t`: nothing was dropped, or `t` is past
      the earliest retained boundary, or it is before every merged boundary. */
  ghost predicate Representable(m: Boundaries, t: uint64) {
    var kept := KeptTimes(m);
    || |kept| <= MAX_BLOB_FORK_SLOTS
    || Retained(kept)[0] <= t
    || t < kept[0]
  }

  /** Dropping the first `d` boundaries is invisible from the first retained one on, and total before it. */
  lemma DropResolve(kept: seq<uint64>, d: nat, m: Boundaries, t: uint64)
    requires Ascending(kept) && d < |kept| && forall x :: x in kept ==> x in m
    ensures forall x :: x in kept[d..] ==> x in kept
    ensures Resolve(kept[d..], m, t, None) == if kept[d] <= t then Resolve(kept, m, t, None) else None
  {
    var r := kept[d..];
    assert forall i :: 0 <= i < |r| ==> r[i] == kept[d + i];
    assert forall x :: x in r ==> x in kept;
    var i := LastReached(r, t);
    if i == |r| {
      ResolveNothing(r, m, t, None);
    } else {
      ResolveIsLatest(r, m, t, None, i);
      assert forall j :: d + i < j < |kept| ==> kept[j] == r[j - d];
      ResolveIsLatest(kept, m, t, None, d + i);
    }
  }

  lemma RetainedResolve(kept: seq<uint64>, m: Boundaries, t: uint64)
    requires Ascending(kept) && forall x :: x in kept ==> x in m
    ensures Ascending(Retained(kept)) && forall x :: x in Retained(kept) ==> x in m
    ensures Resolve(Retained(kept), m, t, None) ==
      if |kept| <= MAX_BLOB_FORK_SLOTS || Retained(kept)[0] <= t then Resolve(kept, m, t, None) else None
  {
    if |kept| > MAX_BLOB_FORK_SLOTS {
      DropResolve(kept, |kept| - MAX_BLOB_FORK_SLOTS, m, t);
    }
  }

  /** MAIN RESULT. The rebuilt configuration resolves time `t` to the latest merged boundary at or
      before `t` if and only if `t` is representable in seven slots; when it is not, it resolves
      to nothing. */
  lemma RebuiltResolvesLatest(base: Config, learned: seq<ScheduleEntry>, t: uint64)
    requires base.Valid()
    ensures var m := Merged(base, learned); var active := Rebuilt(base, learned).GetActiveBlobConfig(t);
      && (Prescribes(m, t, active) <==> Representable(m, t))
      && (!Representable(m, t) ==> active == None)
  {
    var m := Merged(base, learned);
    var kept := KeptTimes(m);
    KeptTimesFacts(m);
    KeptTimesPrescribe(m, t);
    RetainedResolve(kept, m, t);
    var retained := Retained(kept);
    SlotsResolve(Rebuilt(base, learned), retained, m, t);
    if |kept| > MAX_BLOB_FORK_SLOTS && t < retained[0] {
      if t < kept[0] {
        assert forall k :: k in m ==> t < k;
      } else {
        assert kept[0] in kept;
      }
    }
  }

  /** Learned entries override the compiled boundary at their time, a later entry an earlier one. */
  lemma {:induction false} LearnedOverrides(m: Boundaries, learned: seq<ScheduleEntry>, i: nat)
    requires i < |learned|
    requires forall j :: i < j < |learned| ==> learned[j].activationTime != learned[i].activationTime
    ensures learned[i].activationTime in Overlay(m, learned)
    ensures Overlay(m, learned)[learned[i].activationTime] ==
      BlobConfig(learned[i].target, learned[i].max, learned[i].updateFraction)
  {
    var last := |learned| - 1;
    if i < last {
      LearnedOverrides(m, learned[..last], i);
    }
  }

  /** At a time no learned entry mentions, the compiled boundary (or its absence) stands. */
  lemma {:induction false} UnlearnedUnchanged(m: Boundaries, learned: seq<ScheduleEntry>, t: uint64)
    requires forall i :: 0 <= i < |learned| ==> learned[i].activationTime != t
    ensures t in Overlay(m, learned) <==> t in m
    ensures t in m ==> Overlay(m, learned)[t] == m[t]
  {
    if learned != [] {
      UnlearnedUnchanged(m, learned[..|learned| - 1], t);
    }
  }

  // ---------- a schedule that seven slots cannot hold ----------

  /** The base of an unknown chain: Cancun from time 0 on, whatever the library's default schedule holds. */
  function Synthetic(defaults: seq<Option<BlobConfig>>): (c: Config)
    requires |defaults| == MAX_BLOB_FORK_SLOTS
    ensures c.Valid()
  {
    Config(Some(0), None, [Some(0), None, None, None, None, None, None], Some(defaults))
  }

  lemma {:induction false} SyntheticBoundaries(defaults: seq<Option<BlobConfig>>, n: nat)
    requires |defaults| == MAX_BLOB_FORK_SLOTS && 0 < n <= MAX_BLOB_FORK_SLOTS
    ensures Synthetic(defaults).BoundariesOf(n) == if defaults[0].Some? then map[0 := defaults[0].value] else map[]
  {
    var c := Synthetic(defaults);
    if n == 1 {
      assert c.BoundariesOf(0) == map[];
    } else {
      SyntheticBoundaries(defaults, n - 1);
      assert !c.Carries(n - 1);
    }
  }

  /** Eight boundaries at times 0 to 7, each with parameters of its own. */
  function EightBoundaries(): (r: seq<ScheduleEntry>)
    ensures |r| == 8 && forall i :: 0 <= i < 8 ==> r[i] == ScheduleEntry(i, i + 1, i + 1, 1)
  {
    seq(8, i requires 0 <= i < 8 => ScheduleEntry(i, i + 1, i + 1, 1))
  }

  ghost predicate IsEight(m: Boundaries) {
    forall t: uint64 :: (t in m <==> t < 8) && (t < 8 ==> m[t] == BlobConfig(t + 1, t + 1, 1))
  }

  lemma EightMerged(defaults: seq<Option<BlobConfig>>)
    requires |defaults| == MAX_BLOB_FORK_SLOTS
    ensures IsEight(Merged(Synthetic(defaults), EightBoundaries()))
  {
    var learned := EightBoundaries();
    var compiled := Synthetic(defaults).BoundariesOf(MAX_BLOB_FORK_SLOTS);
    SyntheticBoundaries(defaults, MAX_BLOB_FORK_SLOTS);
    forall t: uint64
      ensures var m := Overlay(compiled, learned);
        (t in m <==> t < 8) && (t < 8 ==> m[t] == BlobConfig(t + 1, t + 1, 1))
    {
      if t < 8 {
        LearnedOverrides(compiled, learned, t);
        assert learned[t].Config() == BlobConfig(t + 1, t + 1, 1);
      } else {
        UnlearnedUnchanged(compiled, learned, t);
      }
    }
  }

  /** Boundaries that all differ are all kept. */
  lemma {:induction false} DistinctAreKept(times: seq<uint64>, m: Boundaries, prev: Option<BlobConfig>)
    requires forall t :: t in times ==> t in m
    requires forall i, j :: 0 <= i < j < |times| ==> m[times[i]] != m[times[j]]
    requires forall i :: 0 <= i < |times| ==> prev != Some(m[times[i]])
    ensures Collapse(times, m, prev) == times
  {
    if times != [] {
      DistinctAreKept(times[1..], m, Some(m[times[0]]));
    }
  }

  function EightTimes(): (r: seq<uint64>)
    ensures |r| == 8 && forall i :: 0 <= i < 8 ==> r[i] == i
  {
    seq(8, i requires 0 <= i < 8 => i)
  }

  lemma EightSorted(m: Boundaries)
    requires IsEight(m)
    ensures SortedTimes(m.Keys) == EightTimes()
  {
    forall t: uint64 ensures t in EightTimes() <==> t in SortedTimes(m.Keys) {
      assert t < 8 ==> EightTimes()[t] == t;
    }
    AscendingUnique(EightTimes(), SortedTimes(m.Keys));
  }

  lemma AllDifferentAllKept(m: Boundaries)
    requires AllDiffer(m)
    ensures KeptTimes(m) == SortedTimes(m.Keys)
  {
    var times := SortedTimes(m.Keys);
    assert forall i :: 0 <= i < |times| ==> times[i] in times;
    DistinctAreKept(times, m, None);
  }

  ghost predicate AllDiffer(m: Boundaries) {
    forall t, u :: t in m && u in m && t < u ==> m[t] != m[u]
  }

  lemma EightDiffer(m: Boundaries)
    requires IsEight(m)
    ensures AllDiffer(m)
  {
    forall t, u | t in m && u in m && t < u ensures m[t] != m[u] {
      assert m[t].target == t + 1 && m[u].target == u + 1;
    }
  }

  lemma EightKept(m: Boundaries)
    requires IsEight(m)
    ensures KeptTimes(m) == EightTimes()
  {
    EightDiffer(m);
    AllDifferentAllKept(m);
    EightSorted(m);
  }

  lemma FirstOfEightIsLost(m: Boundaries, kept: seq<uint64>)
    requires IsEight(m) && kept == KeptTimes(m) && kept == EightTimes()
    ensures !Representable(m, 0) && Prescribes(m, 0, Some(BlobConfig(1, 1, 1)))
  {
    assert |kept| == 8 && kept[0] == 0 && kept[1] == 1;
    assert Retained(kept) == kept[1..];
    assert IsLatest(m, 0, 0) && m[0] == BlobConfig(1, 1, 1);
  }

  /** Truncation loses history: on an unknown chain that has advertised eight boundaries, the first of them
      applies at time 0, and nothing is resolved there. */
  lemma TruncationLosesHistory(defaults: seq<Option<BlobConfig>>)
    requires |defaults| == MAX_BLOB_FORK_SLOTS
    ensures var base := Synthetic(defaults); var m := Merged(base, EightBoundaries());
      && !Representable(m, 0)
      && Prescribes(m, 0, Some(BlobConfig(1, 1, 1)))
      && Rebuilt(base, EightBoundaries()).GetActiveBlobConfig(0) == None
  {
    var m := Merged(Synthetic(defaults), EightBoundaries());
    EightMerged(defaults);
    EightKept(m);
    FirstOfEightIsLost(m, EightTimes());
    RebuiltResolvesLatest(Synthetic(defaults), EightBoundaries(), 0);
  }

  /** The highest of the first `n` slots that carries a boundary already reached. */
  ghost function HighestReached(c: Config, n: nat, t: uint64): Option<nat>
    requires c.Valid() && n <= MAX_BLOB_FORK_SLOTS
  {
    if n == 0 then None
    else if c.Carries(n - 1) && c.forkTimes[n - 1].value <= t then Some(n - 1)
    else HighestReached(c, n - 1, t)
  }

  lemma {:induction false} BoundariesAreCarried(c: Config, n: nat, k: uint64)
    requires c.Valid() && n <= MAX_BLOB_FORK_SLOTS && k in c.BoundariesOf(n)
    ensures exists i :: 0 <= i < n && c.Carries(i) && c.forkTimes[i].value == k
  {
    if !(c.Carries(n - 1) && c.forkTimes[n - 1].value == k) {
      BoundariesAreCarried(c, n - 1, k);
    }
  }

  lemma {:induction false} HighestReachedPrescribed(c: Config, n: nat, t: uint64)
    requires c.Valid() && c.InForkOrder() && n <= MAX_BLOB_FORK_SLOTS
    ensures match HighestReached(c, n, t)
      case None => forall k :: k in c.BoundariesOf(n) ==> t < k
      case Some(i) =>
        && i < n && c.Carries(i)
        && IsLatest(c.BoundariesOf(n), t, c.forkTimes[i].value)
        && c.BoundariesOf(n)[c.forkTimes[i].value] == c.schedule.value[i].value
  {
    if n > 0 {
      HighestReachedPrescribed(c, n - 1, t);
      if c.Carries(n - 1) && c.forkTimes[n - 1].value <= t {
        forall k | k in c.BoundariesOf(n) ensures k <= c.forkTimes[n - 1].value {
          BoundariesAreCarried(c, n, k);
        }
      }
    }
  }

  lemma ActiveIsHighestReached(c: Config, t: uint64)
    requires c.Valid() && c.londonBlock.Some?
    ensures c.GetActiveBlobConfig(t) ==
      (match HighestReached(c, MAX_BLOB_FORK_SLOTS, t)
       case None => None
       case Some(i) => if i < MAX_BLOB_FORK_SLOTS && c.Carries(i) then c.schedule.value[i] else None)
  {
    assert HighestReached(c, 0, t) == None;
    assert HighestReached(c, 1, t) == if c.Carries(0) && c.forkTimes[0].value <= t then Some(0) else None;
    var h2 := HighestReached(c, 2, t);
    var h3 := HighestReached(c, 3, t);
    var h4 := HighestReached(c, 4, t);
    var h5 := HighestReached(c, 5, t);
    var h6 := HighestReached(c, 6, t);
  }

  /** The compiled configuration on its own already meets the specification when its forks are in order. */
  lemma BaseResolvesLatest(base: Config, t: uint64)
    requires base.Valid() && base.InForkOrder() && base.londonBlock.Some?
    ensures Prescribes(base.BoundariesOf(MAX_BLOB_FORK_SLOTS), t, base.GetActiveBlobConfig(t))
  {
    HighestReachedPrescribed(base, MAX_BLOB_FORK_SLOTS, t);
    ActiveIsHighestReached(base, t);
  }

  // ---------- the imperative form ----------

  /** A chain configuration as the Go code mutates it: fork times and the blob schedule are fields. */
  class ChainConfig {
    var londonBlock: Option<int>
    var osakaTime: Option<uint64>
    var forkTimes: seq<Option<uint64>>
    var schedule: Option<seq<Option<BlobConfig>>>

    constructor ShallowCopy(base: ChainConfig)
      ensures View() == base.View()
    {
      londonBlock := base.londonBlock;
      osakaTime := base.osakaTime;
      forkTimes := base.forkTimes;
      schedule := base.schedule;
    }

    ghost function View(): Config
      reads this
    {
      Config(londonBlock, osakaTime, forkTimes, schedule)
    }

    method ClearBlobForkTimes()
      modifies this
      ensures View() == old(View()).(forkTimes := SlotTimes([]))
    {
      forkTimes := [None, None, None, None, None, None, None];
      assert forkTimes == SlotTimes([]);
    }

    method SetBlobSlot(slot: nat, time: uint64, config: BlobConfig)
      requires View().Valid() && slot < MAX_BLOB_FORK_SLOTS && schedule.Some?
      modifies this
      ensures View() == old(View()).(
        forkTimes := old(forkTimes)[slot := Some(time)],
        schedule := Some(old(schedule).value[slot := Some(config)]))
    {
      forkTimes := forkTimes[slot := Some(time)];
      schedule := Some(schedule.value[slot := Some(config)]);
    }
  }

  /** The boundaries the compiled configuration defines, as the loop over its seven pairs finds them. */
  method BaseBoundaries(cfg: ChainConfig) returns (m: Boundaries)
    requires cfg.View().Valid()
    ensures m == cfg.View().BoundariesOf(MAX_BLOB_FORK_SLOTS)
  {
    m := map[];
    if cfg.schedule.Some? {
      for i := 0 to MAX_BLOB_FORK_SLOTS
        invariant m == cfg.View().BoundariesOf(i)
      {
        if cfg.forkTimes[i].Some? && cfg.schedule.value[i].Some? {
          m := m[cfg.forkTimes[i].value := cfg.schedule.value[i].value];
        }
      }
    } else {
      NoScheduleNoBoundaries(cfg.View(), MAX_BLOB_FORK_SLOTS);
    }
  }

  lemma {:induction false} NoScheduleNoBoundaries(c: Config, n: nat)
    requires c.Valid() && n <= MAX_BLOB_FORK_SLOTS && c.schedule.None?
    ensures c.BoundariesOf(n) == map[]
  {
    if n > 0 {
      NoScheduleNoBoundaries(c, n - 1);
    }
  }

  /** Enumerates the map's keys in an arbitrary order, then sorts them. */
  method SortedKeys(m: Boundaries) returns (times: array<uint64>)
    ensures fresh(times) && times[..] == SortedTimes(m.Keys)
  {
    var keys := m.Keys;
    var sorted: seq<uint64> := [];
    while keys != {}
      invariant keys <= m.Keys
      invariant Ascending(sorted)
      invariant forall x :: x in sorted <==> x in m.Keys - keys
      decreases keys
    {
      var t :| t in keys;
      keys := keys - {t};
      assert t !in sorted;
      sorted := InsertSorted(sorted, t);
    }
    AscendingUnique(sorted, SortedTimes(m.Keys));
    times := new uint64[|sorted|](i requires 0 <= i < |sorted| => sorted[i]);
    assert times[..] == sorted;
  }

  function InsertSorted(s: seq<uint64>, t: uint64): (r: seq<uint64>)
    requires Ascending(s) && t !in s
    ensures Ascending(r)
    ensures forall x :: x in r <==> x == t || x in s
  {
    if s == [] then [t]
    else if t < s[0] then
      [t] + s
    else
      assert s == [s[0]] + s[1..];
      var rest := InsertSorted(s[1..], t);
      assert forall i :: 0 <= i < |rest| ==> rest[i] in rest;
      [s[0]] + rest
  }

  /** The in-place filter over `times[:0]`: the write index never overtakes the read index. */
  method CollapseInPlace(times: array<uint64>, m: Boundaries) returns (n: nat)
    requires forall t :: t in times[..] ==> t in m
    modifies times
    ensures n <= times.Length
    ensures times[..n] == Collapse(old(times[..]), m, None)
  {
    n := 0;
    var prev: Option<BlobConfig> := None;
    ghost var input := times[..];
    for i := 0 to times.Length
      invariant n <= i
      invariant times[i..] == input[i..]
      invariant times[..n] + Collapse(input[i..], m, prev) == Collapse(input, m, None)
    {
      var t := times[i];
      assert input[i] == times[i..][0] && input[i..][0] == input[i];
      assert input[i] in input;
      assert input[i..][1..] == input[i + 1..];
      ghost var before := times[..n];
      if prev.Some? && m[t] == prev.value {
        assert times[i + 1..] == times[i..][1..];
      } else {
        times[n] := t;
        n := n + 1;
        assert times[..n] == before + [t];
        prev := Some(m[t]);
        assert times[i + 1..] == input[i + 1..];
      }
    }
  }

  /** Empties the schedule, then gives the boundaries the slots in ascending order. */
  method AssignSlots(out: ChainConfig, kept: seq<uint64>, m: Boundaries)
    requires |kept| <= MAX_BLOB_FORK_SLOTS && forall t :: t in kept ==> t in m
    modifies out
    ensures out.View() == old(out.View()).(forkTimes := SlotTimes(kept), schedule := Some(SlotConfigs(kept, m)))
  {
    out.schedule := Some([None, None, None, None, None, None, None]);
    out.ClearBlobForkTimes();
    assert out.schedule.value == SlotConfigs([], m);
    for i := 0 to |kept|
      invariant out.View() == old(out.View()).(
        forkTimes := SlotTimes(kept[..i]), schedule := Some(SlotConfigs(kept[..i], m)))
    {
      assert kept[i] in kept;
      out.SetBlobSlot(i, kept[i], m[kept[i]]);
      assert out.forkTimes == SlotTimes(kept[..i + 1]);
      assert out.schedule.value == SlotConfigs(kept[..i + 1], m);
    }
    assert kept[..|kept|] == kept;
  }

  method MergeLearned(base: ChainConfig, learned: seq<ScheduleEntry>) returns (m: Boundaries)
    requires base.View().Valid()
    ensures m == Merged(base.View(), learned)
  {
    m := BaseBoundaries(base);
    ghost var compiled := m;
    for i := 0 to |learned|
      invariant m == Overlay(compiled, learned[..i])
    {
      assert learned[..i + 1][..i] == learned[..i];
      m := m[learned[i].activationTime := learned[i].Config()];
    }
    assert learned[..|learned|] == learned;
  }

  /** The third distinct boundary, read before the no-op collapse erases it. */
  method InferOsaka(base: ChainConfig, times: array<uint64>) returns (inferred: Option<uint64>)
    ensures base.osakaTime.None? ==> inferred == InferredOsaka(base.View(), times[..])
    ensures base.osakaTime.Some? ==> inferred == None
  {
    inferred := None;
    if base.osakaTime.None? && times.Length >= 3 {
      inferred := Some(times[2]);
    }
  }

  /** Sorts the boundaries, infers Osaka, collapses no-op boundaries in place and truncates. */
  method RetainedTimes(base: ChainConfig, merged: Boundaries) returns (kept: seq<uint64>, inferredOsaka: Option<uint64>)
    ensures kept == Retained(KeptTimes(merged))
    ensures base.osakaTime.None? ==> inferredOsaka == InferredOsaka(base.View(), SortedTimes(merged.Keys))
  {
    var times := SortedKeys(merged);
    inferredOsaka := InferOsaka(base, times);
    var n := CollapseInPlace(times, merged);
    kept := Retained(times[..n]);
  }

  /** Layers the learned entries over the compiled configuration; the compiled one is never written. */
  method BuildChainConfig(base: ChainConfig, learned: seq<ScheduleEntry>) returns (out: ChainConfig)
    requires base.View().Valid()
    ensures learned == [] ==> out == base
    ensures learned != [] ==> fresh(out) && out.View() == Rebuilt(base.View(), learned)
  {
    if learned == [] {
      return base;
    }

    var merged := MergeLearned(base, learned);
    var kept, inferredOsaka := RetainedTimes(base, merged);
    out := new ChainConfig.ShallowCopy(base);
    if out.londonBlock.None? {
      out.londonBlock := Some(0);
    }
    AssignSlots(out, kept, merged);
    if out.osakaTime.None? {
      out.osakaTime := inferredOsaka;
    }
  }
}
