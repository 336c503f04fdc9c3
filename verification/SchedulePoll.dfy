/**
 Learning the blob schedule: a poll reads the node's eth_config (EIP-7910), validates the
 advertised forks, reconciles them with the persisted table and rebuilds the chain
 configuration from what is stored.
 */
module SchedulePoll {
  import opened Common
  import opened ForkSchedule

  /** One fork object of an eth_config response; a fork before EIP-4844 carries no blob schedule. */
  datatype EthConfigFork = EthConfigFork(activationTime: uint64, blobSchedule: Option<BlobConfig>)

  datatype EthConfig = EthConfig(
    current: Option<EthConfigFork>, next: Option<EthConfigFork>, last: Option<EthConfigFork>)

  predicate ValidScheduleEntry(e: ScheduleEntry) {
    e.target > 0 && e.max >= e.target && e.updateFraction > 0
  }

  /** What the node may claim about one fork: its entry, when it has a valid one. */
  function AdvertisedEntry(f: Option<EthConfigFork>): Option<ScheduleEntry> {
    if f.None? || f.value.blobSchedule.None? then None
    else
      var b := f.value.blobSchedule.value;
      var e := ScheduleEntry(f.value.activationTime, b.target, b.max, b.updateFraction);
      if ValidScheduleEntry(e) then Some(e) else None
  }

  ghost predicate DistinctTimes(entries: seq<ScheduleEntry>) {
    forall i, j :: 0 <= i < j < |entries| ==> entries[i].activationTime != entries[j].activationTime
  }

  /** The fork is there, takes blobs, and its parameters cannot break the fork arithmetic. */
  ghost predicate Usable(f: Option<EthConfigFork>) {
    f.Some? && f.value.blobSchedule.Some? &&
    (var b := f.value.blobSchedule.value; 0 < b.target <= b.max && b.updateFraction > 0)
  }

  /** The entry repeats what the fork says. */
  ghost predicate SaidBy(e: ScheduleEntry, f: Option<EthConfigFork>) {
    && f.Some? && e.activationTime == f.value.activationTime
    && f.value.blobSchedule == Some(BlobConfig(e.target, e.max, e.updateFraction))
  }

  lemma AdvertisedIffUsable(f: Option<EthConfigFork>, e: ScheduleEntry)
    ensures AdvertisedEntry(f) == Some(e) <==> Usable(f) && SaidBy(e, f)
    ensures AdvertisedEntry(f).Some? <==> Usable(f)
  {
  }

  /** Fork `j` is the last of the first `n` usable forks for its activation time. */
  ghost predicate Wins(forks: seq<Option<EthConfigFork>>, n: int, j: int) {
    && 0 <= j < n <= |forks|
    && Usable(forks[j])
    && forall k :: j < k < n && Usable(forks[k]) ==> forks[k].value.activationTime != forks[j].value.activationTime
  }

  /** Collects the valid advertised entries by activation time: Next overrides Last overrides Current.
      The result lists them in an arbitrary order, as ranging over a Go map does. */
  method ScheduleEntriesFromEthConfig(cfg: EthConfig) returns (entries: seq<ScheduleEntry>)
    ensures DistinctTimes(entries)
    ensures forall e :: e in entries ==> 0 < e.target <= e.max && e.updateFraction > 0
    ensures var forks := [cfg.current, cfg.last, cfg.next];
      && (forall e :: e in entries ==> exists j :: Wins(forks, 3, j) && SaidBy(e, forks[j]))
      && (forall j :: Wins(forks, 3, j) ==> exists e :: e in entries && SaidBy(e, forks[j]))
  {
    var byTime: map<uint64, ScheduleEntry> := map[];
    var forks := [cfg.current, cfg.last, cfg.next];
    for i := 0 to |forks|
      invariant forall t :: t in byTime ==> byTime[t].activationTime == t && ValidScheduleEntry(byTime[t])
      invariant forall j :: Wins(forks, i, j) ==>
        forks[j].value.activationTime in byTime && SaidBy(byTime[forks[j].value.activationTime], forks[j])
      invariant forall t :: t in byTime ==> exists j :: Wins(forks, i, j) && SaidBy(byTime[t], forks[j])
    {
      var e := AdvertisedEntry(forks[i]);
      ghost var before := byTime;
      if e.Some? {
        byTime := byTime[e.value.activationTime := e.value];
        AdvertisedIffUsable(forks[i], e.value);
        assert Wins(forks, i + 1, i);
      }
      forall j | Wins(forks, i + 1, j) && j < i ensures Wins(forks, i, j) {
      }
      forall t | t in byTime ensures exists j :: Wins(forks, i + 1, j) && SaidBy(byTime[t], forks[j]) {
        if e.None? || t != e.value.activationTime {
          var j :| Wins(forks, i, j) && SaidBy(before[t], forks[j]);
          assert Wins(forks, i + 1, j);
        }
      }
    }
    entries := Values(byTime);
  }

  method Values(byTime: map<uint64, ScheduleEntry>) returns (entries: seq<ScheduleEntry>)
    requires forall t :: t in byTime ==> byTime[t].activationTime == t
    ensures DistinctTimes(entries)
    ensures forall e :: e in entries <==> e.activationTime in byTime && byTime[e.activationTime] == e
  {
    entries := [];
    var times := byTime.Keys;
    while times != {}
      invariant times <= byTime.Keys
      invariant DistinctTimes(entries)
      invariant forall e :: e in entries <==>
        e.activationTime in byTime && e.activationTime !in times && byTime[e.activationTime] == e
      decreases times
    {
      var t :| t in times;
      assert forall i :: 0 <= i < |entries| ==> entries[i] in entries;
      entries := entries + [byTime[t]];
      times := times - {t};
    }
  }

  // ---------- the persisted table ----------

  /** The columns are PostgreSQL BIGINT and INTEGER: a value outside their range cannot be stored. */
  predicate Storable(e: ScheduleEntry) {
    && e.activationTime < 0x8000_0000_0000_0000
    && e.updateFraction < 0x8000_0000_0000_0000
    && -0x8000_0000 <= e.target < 0x8000_0000
    && -0x8000_0000 <= e.max < 0x8000_0000
  }

  /** The value a two's complement column of `bits` bits would hold. */
  function Wrapped(x: int, bits: nat): int {
    var half := Power2(bits - 1);
    (x + half) % (2 * half) - half
  }

  function Power2(n: int): (r: int)
    ensures r >= 1
  {
    if n <= 0 then 1 else 2 * Power2(n - 1)
  }

  lemma ColumnRanges()
    ensures Power2(31) == 0x8000_0000 && Power2(63) == 0x8000_0000_0000_0000
  {
    assert Power2(8) == 256;
    assert Power2(16) == 65536;
    assert Power2(24) == 16777216;
    assert Power2(31) == 0x8000_0000;
    assert Power2(40) == 0x100_0000_0000;
    assert Power2(48) == 0x1_0000_0000_0000;
    assert Power2(56) == 0x100_0000_0000_0000;
  }

  /** An entry can be stored if and only if none of its values would change in a column of 64 or 32 bits. */
  lemma StorableIffUnwrapped(e: ScheduleEntry)
    ensures Storable(e) <==>
      && Wrapped(e.activationTime, 64) == e.activationTime && Wrapped(e.updateFraction, 64) == e.updateFraction
      && Wrapped(e.target, 32) == e.target && Wrapped(e.max, 32) == e.max
  {
    ColumnRanges();
  }

  /** The boundaries are distinct and every value fits its column. */
  ghost predicate Accepts(entries: seq<ScheduleEntry>) {
    DistinctTimes(entries) && forall e :: e in entries ==> Storable(e)
  }

  ghost predicate InBatch(entries: seq<ScheduleEntry>, t: uint64) {
    exists e :: e in entries && e.activationTime == t
  }

  /** Deletes the future boundaries the batch does not repeat, then upserts the batch. */
  ghost function Reconciled(rows: Boundaries, entries: seq<ScheduleEntry>, observedAt: int): Boundaries {
    Overlay(map t | t in rows && !(t > observedAt && !InBatch(entries, t)) :: rows[t], entries)
  }

  class BlobScheduleTable {
    var rows: Boundaries

    constructor ()
      ensures rows == map[]
    {
      rows := map[];
    }

    /** One transaction: on any failure the table is left as it was. `dbOk` is the database's own outcome. */
    method ReconcileFutureBlobSchedule(entries: seq<ScheduleEntry>, observedAt: int, dbOk: bool) returns (ok: bool)
      modifies this
      ensures ok == (entries == [] || (dbOk && Accepts(entries)))
      ensures rows == if ok && entries != [] then Reconciled(old(rows), entries, observedAt) else old(rows)
      ensures rows == AfterPoll(old(rows), Poll(entries, observedAt, dbOk))
    {
      if entries == [] {
        return true;
      }
      var seen: set<uint64> := {};
      for i := 0 to |entries|
        invariant seen == set j | 0 <= j < i :: entries[j].activationTime
        invariant DistinctTimes(entries[..i])
      {
        if entries[i].activationTime in seen {
          return false;
        }
        seen := seen + {entries[i].activationTime};
      }
      assert entries[..|entries|] == entries;
      if !dbOk || exists e :: e in entries && !Storable(e) {
        return false;
      }
      var next := map t | t in rows && !(t > observedAt && t !in seen) :: rows[t];
      assert forall t :: t in seen <==> InBatch(entries, t) by {
        forall t | InBatch(entries, t) ensures t in seen {
          var e :| e in entries && e.activationTime == t;
        }
        forall t | t in seen ensures InBatch(entries, t) {
          var j :| 0 <= j < |entries| && entries[j].activationTime == t;
          assert entries[j] in entries;
        }
      }
      ghost var pruned := next;
      assert pruned == map t | t in rows && !(t > observedAt && !InBatch(entries, t)) :: rows[t];
      for i := 0 to |entries|
        invariant rows == old(rows)
        invariant next == Overlay(pruned, entries[..i])
      {
        assert entries[..i + 1][..i] == entries[..i];
        next := next[entries[i].activationTime := entries[i].Config()];
      }
      assert entries[..|entries|] == entries;
      rows := next;
      return true;
    }
  }

  // ---------- one reconcile ----------

  ghost predicate AllValid(rows: Boundaries) {
    forall t :: t in rows ==> rows[t].target > 0 && rows[t].max >= rows[t].target && rows[t].updateFraction > 0
  }

  /** Exact content of the table after a reconcile: batch entries as advertised, past boundaries
      untouched, and nothing else in the future. */
  lemma ReconciledContent(rows: Boundaries, entries: seq<ScheduleEntry>, observedAt: int, t: uint64)
    requires DistinctTimes(entries)
    ensures forall e :: e in entries && e.activationTime == t ==>
      t in Reconciled(rows, entries, observedAt) &&
      Reconciled(rows, entries, observedAt)[t] == BlobConfig(e.target, e.max, e.updateFraction)
    ensures !InBatch(entries, t) ==>
      (t in Reconciled(rows, entries, observedAt) <==> t in rows && t <= observedAt)
    ensures !InBatch(entries, t) && t in rows && t <= observedAt ==>
      Reconciled(rows, entries, observedAt)[t] == rows[t]
  {
    var pruned: Boundaries := map u | u in rows && !(u > observedAt && !InBatch(entries, u)) :: rows[u];
    if InBatch(entries, t) {
      var e :| e in entries && e.activationTime == t;
      var i :| 0 <= i < |entries| && entries[i] == e;
      LearnedOverrides(pruned, entries, i);
    } else {
      assert forall i :: 0 <= i < |entries| ==> entries[i] in entries;
      UnlearnedUnchanged(pruned, entries, t);
    }
  }

  /** After a reconcile the future boundaries are exactly the batch's, and no past one is gone. */
  lemma FutureIsTheBatch(rows: Boundaries, entries: seq<ScheduleEntry>, observedAt: int)
    requires DistinctTimes(entries)
    ensures forall t: uint64 :: t > observedAt ==> (t in Reconciled(rows, entries, observedAt) <==> InBatch(entries, t))
    ensures forall t :: t in rows && t <= observedAt ==> t in Reconciled(rows, entries, observedAt)
  {
    forall t: uint64
      ensures t > observedAt ==> (t in Reconciled(rows, entries, observedAt) <==> InBatch(entries, t))
      ensures t in rows && t <= observedAt ==> t in Reconciled(rows, entries, observedAt)
    {
      ReconciledContent(rows, entries, observedAt, t);
    }
  }

  // ---------- whole runs ----------

  /** One poll as the table sees it: the validated batch, the poll's clock and the database's outcome. */
  datatype Poll = Poll(entries: seq<ScheduleEntry>, observedAt: int, dbOk: bool)

  /** What `ScheduleEntriesFromEthConfig` guarantees of a batch. */
  ghost predicate Learned(p: Poll) {
    DistinctTimes(p.entries) && forall e :: e in p.entries ==> ValidScheduleEntry(e)
  }

  ghost function AfterPoll(rows: Boundaries, p: Poll): Boundaries {
    if p.entries != [] && p.dbOk && Accepts(p.entries) then Reconciled(rows, p.entries, p.observedAt) else rows
  }

  ghost function AfterPolls(rows: Boundaries, polls: seq<Poll>): Boundaries {
    if polls == [] then rows
    else AfterPoll(AfterPolls(rows, polls[..|polls| - 1]), polls[|polls| - 1])
  }

  /** The poll's batch is stored. */
  ghost predicate Stores(p: Poll) {
    p.entries != [] && p.dbOk && Accepts(p.entries)
  }

  /** The table is what the last stored batch has left: later polls that learn nothing, are refused or fail
      change nothing. */
  lemma {:induction false} LastStoredStands(rows: Boundaries, polls: seq<Poll>, i: nat)
    requires i < |polls| && Stores(polls[i]) && forall j :: i < j < |polls| ==> !Stores(polls[j])
    ensures AfterPolls(rows, polls) ==
      Reconciled(AfterPolls(rows, polls[..i]), polls[i].entries, polls[i].observedAt)
  {
    var last := |polls| - 1;
    if i < last {
      assert polls[..last][..i] == polls[..i];
      LastStoredStands(rows, polls[..last], i);
    }
  }

  /** Every stored entry stays valid over any run of polls. */
  lemma {:induction false} RunsStoreOnlyValidEntries(rows: Boundaries, polls: seq<Poll>)
    requires AllValid(rows)
    requires forall i :: 0 <= i < |polls| ==> Learned(polls[i])
    ensures AllValid(AfterPolls(rows, polls))
  {
    if polls != [] {
      var last := |polls| - 1;
      RunsStoreOnlyValidEntries(rows, polls[..last]);
      var before := AfterPolls(rows, polls[..last]);
      forall t | t in AfterPolls(rows, polls)
        ensures AfterPolls(rows, polls)[t].target > 0
        ensures AfterPolls(rows, polls)[t].max >= AfterPolls(rows, polls)[t].target
        ensures AfterPolls(rows, polls)[t].updateFraction > 0
      {
        ReconciledContent(before, polls[last].entries, polls[last].observedAt, t);
      }
    }
  }

  /** `rows`, read as the learned list `BuildChainConfig` is given (ordered by activation time). */
  ghost function AsLearned(rows: Boundaries): seq<ScheduleEntry> {
    EntriesAt(SortedTimes(rows.Keys), rows)
  }

  ghost function EntriesAt(times: seq<uint64>, rows: Boundaries): (r: seq<ScheduleEntry>)
    requires forall t :: t in times ==> t in rows
    ensures |r| == |times|
    ensures forall i :: 0 <= i < |r| ==>
      times[i] in rows && r[i].activationTime == times[i] && r[i].Config() == rows[times[i]]
  {
    assert forall i :: 0 <= i < |times| ==> times[i] in times;
    seq(|times|, i requires 0 <= i < |times| =>
      var c := rows[times[i]];
      ScheduleEntry(times[i], c.target, c.max, c.updateFraction))
  }

  /** Merging the stored rows over the compiled boundaries is map union, rows winning. */
  lemma MergedIsUnion(base: Config, rows: Boundaries)
    requires base.Valid()
    ensures Merged(base, AsLearned(rows)) == base.BoundariesOf(MAX_BLOB_FORK_SLOTS) + rows
  {
    var compiled := base.BoundariesOf(MAX_BLOB_FORK_SLOTS);
    var learned := AsLearned(rows);
    var times := SortedTimes(rows.Keys);
    forall t: uint64
      ensures t in Overlay(compiled, learned) <==> t in compiled + rows
      ensures t in compiled + rows ==> Overlay(compiled, learned)[t] == (compiled + rows)[t]
    {
      if t in rows {
        assert t in times;
        var i :| 0 <= i < |times| && times[i] == t;
        LearnedOverrides(compiled, learned, i);
      } else {
        assert forall i :: 0 <= i < |times| ==> times[i] in times;
        UnlearnedUnchanged(compiled, learned, t);
      }
    }
  }

  /** The configuration the indexer swaps in: the compiled one until something has been learned. */
  ghost function ActiveConfig(base: Config, rows: Boundaries): (c: Config)
    requires base.Valid()
    ensures c.Valid()
  {
    if rows == map[] then base else Rebuilt(base, AsLearned(rows))
  }

  ghost function Known(base: Config, rows: Boundaries): Boundaries
    requires base.Valid()
  {
    base.BoundariesOf(MAX_BLOB_FORK_SLOTS) + rows
  }

  lemma RebuiltKnownResolves(base: Config, rows: Boundaries, t: uint64)
    requires base.Valid() && Representable(Known(base, rows), t)
    ensures Prescribes(Known(base, rows), t, Rebuilt(base, AsLearned(rows)).GetActiveBlobConfig(t))
  {
    var learned := AsLearned(rows);
    MergedIsUnion(base, rows);
    assert Merged(base, learned) == Known(base, rows);
    RebuiltResolvesLatest(base, learned, t);
  }

  /** The active configuration resolves every representable time to the latest known boundary. */
  lemma ActiveConfigResolves(base: Config, rows: Boundaries, t: uint64)
    requires base.Valid() && base.InForkOrder() && base.londonBlock.Some?
    requires Representable(Known(base, rows), t)
    ensures Prescribes(Known(base, rows), t, ActiveConfig(base, rows).GetActiveBlobConfig(t))
  {
    if rows == map[] {
      assert Known(base, rows) == base.BoundariesOf(MAX_BLOB_FORK_SLOTS);
      BaseResolvesLatest(base, t);
    } else {
      RebuiltKnownResolves(base, rows, t);
    }
  }

  /** The indexer resolves the time of a stored boundary to that boundary. */
  lemma StoredIsResolved(base: Config, rows: Boundaries, t: uint64)
    requires base.Valid() && base.InForkOrder() && base.londonBlock.Some?
    requires t in rows && Representable(Known(base, rows), t)
    ensures ActiveConfig(base, rows).GetActiveBlobConfig(t) == Some(rows[t])
  {
    var known := Known(base, rows);
    var r := ActiveConfig(base, rows).GetActiveBlobConfig(t);
    assert Prescribes(known, t, r) by {
      ActiveConfigResolves(base, rows, t);
    }
    assert IsLatest(known, t, t) && known[t] == rows[t];
    PrescribesUnique(known, t, Some(rows[t]), r);
  }

  /** From a poll to the block: once a batch is stored, the indexer resolves a block at the very time of one of
      its entries to the target, maximum and update fraction of that entry. */
  lemma AdvertisedIsResolved(base: Config, rows: Boundaries, p: Poll, e: ScheduleEntry)
    requires base.Valid() && base.InForkOrder() && base.londonBlock.Some?
    requires Learned(p) && p.dbOk && Accepts(p.entries) && e in p.entries
    requires Representable(Known(base, AfterPoll(rows, p)), e.activationTime)
    ensures ActiveConfig(base, AfterPoll(rows, p)).GetActiveBlobConfig(e.activationTime) ==
      Some(BlobConfig(e.target, e.max, e.updateFraction))
  {
    var after := AfterPoll(rows, p);
    assert e.activationTime in after && after[e.activationTime] == BlobConfig(e.target, e.max, e.updateFraction) by {
      ReconciledContent(rows, p.entries, p.observedAt, e.activationTime);
    }
    StoredIsResolved(base, after, e.activationTime);
  }

  /** MAIN RESULT. History is stable: over any run of polls made at or after `t`, the parameters
      resolved at `t` change only if some poll's batch carried an entry activating at or before `t`. */
  lemma RunsPreserveHistory(base: Config, rows: Boundaries, polls: seq<Poll>, t: uint64)
    requires base.Valid() && base.InForkOrder() && base.londonBlock.Some?
    requires forall i :: 0 <= i < |polls| ==> Learned(polls[i]) && t <= polls[i].observedAt
    requires forall i, e :: 0 <= i < |polls| && e in polls[i].entries ==> t < e.activationTime
    requires Representable(Known(base, rows), t) && Representable(Known(base, AfterPolls(rows, polls)), t)
    ensures ActiveConfig(base, AfterPolls(rows, polls)).GetActiveBlobConfig(t) ==
      ActiveConfig(base, rows).GetActiveBlobConfig(t)
  {
    RunsKeepPastRows(rows, polls, t);
    SamePastSameParameters(base, rows, AfterPolls(rows, polls), t);
  }

  /** Two tables with the same rows up to `t` make the indexer resolve `t` alike. */
  lemma SamePastSameParameters(base: Config, rows: Boundaries, after: Boundaries, t: uint64)
    requires base.Valid() && base.InForkOrder() && base.londonBlock.Some? && SamePast(rows, after, t)
    requires Representable(Known(base, rows), t) && Representable(Known(base, after), t)
    ensures ActiveConfig(base, after).GetActiveBlobConfig(t) == ActiveConfig(base, rows).GetActiveBlobConfig(t)
  {
    var r, r' := ActiveConfig(base, rows).GetActiveBlobConfig(t), ActiveConfig(base, after).GetActiveBlobConfig(t);
    assert Prescribes(Known(base, after), t, r) by {
      ActiveConfigResolves(base, rows, t);
      SamePastSamePrescription(Known(base, rows), Known(base, after), t, r);
    }
    assert Prescribes(Known(base, after), t, r') by {
      ActiveConfigResolves(base, after, t);
    }
    PrescribesUnique(Known(base, after), t, r, r');
  }

  ghost predicate SamePast(a: Boundaries, b: Boundaries, t: uint64) {
    forall k: uint64 :: k <= t ==> (k in a <==> k in b) && (k in a ==> a[k] == b[k])
  }

  lemma SamePastSamePrescription(a: Boundaries, b: Boundaries, t: uint64, r: Option<BlobConfig>)
    requires SamePast(a, b, t) && Prescribes(a, t, r)
    ensures Prescribes(b, t, r)
  {
    match r
    case None =>
    case Some(c) =>
      var k :| IsLatest(a, t, k) && a[k] == c;
      assert IsLatest(b, t, k);
  }

  lemma {:induction false} RunsKeepPastRows(rows: Boundaries, polls: seq<Poll>, t: uint64)
    requires forall i :: 0 <= i < |polls| ==> Learned(polls[i]) && t <= polls[i].observedAt
    requires forall i, e :: 0 <= i < |polls| && e in polls[i].entries ==> t < e.activationTime
    ensures SamePast(rows, AfterPolls(rows, polls), t)
  {
    if polls != [] {
      var last := |polls| - 1;
      RunsKeepPastRows(rows, polls[..last], t);
      var before := AfterPolls(rows, polls[..last]);
      forall k: uint64 | k <= t
        ensures k in before <==> k in AfterPolls(rows, polls)
        ensures k in before ==> before[k] == AfterPolls(rows, polls)[k]
      {
        ReconciledContent(before, polls[last].entries, polls[last].observedAt, k);
      }
    }
  }
}
