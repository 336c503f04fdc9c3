/**
 Synchronising a refreshed claim registry into the derived tables: confirmed rows are
 repainted only for the addresses whose claims changed, and the current-user projection is
 reconciled. The question is whether that incremental pass leaves every row with the name
 the resolver would answer.
 */
module AttributionSync {
  import opened Common
  import opened Text
  import opened Claims

  const BLOB_LIST_SOURCE := "blob-list"
  const OWNED_PREFIX := "source=" + BLOB_LIST_SOURCE + ";"

  /** One confirmed blob; a NULL attribution is the empty name. */
  datatype BlobRow = BlobRow(fromAddress: string, block: int, attribution: string) {
    function Address(): string {
      Lower(fromAddress)
    }
  }

  type BlobTable = map<nat, BlobRow>

  /** One pending blob. */
  datatype PendingRow = PendingRow(fromAddress: string, attribution: string) {
    function Address(): string {
      Lower(fromAddress)
    }
  }

  type PendingTable = map<nat, PendingRow>

  datatype BlobUser = BlobUser(name: string, description: string, category: string) {
    /** Rows this sync wrote, as opposed to users added by hand. */
    predicate Owned() {
      OWNED_PREFIX <= description
    }
  }

  datatype ArtifactEntry = ArtifactEntry(
    entityId: string, name: string, category: string, role: string, confidence: string, status: string,
    validFrom: int, validTo: Option<int>)

  ghost predicate Normalized(claims: seq<Claim>) {
    forall c :: c in claims ==> Lower(c.address) == c.address
  }

  ghost predicate FromBlobList(claims: seq<Claim>) {
    forall c :: c in claims ==> c.source == BLOB_LIST_SOURCE
  }

  // ---------- fetching ----------

  type Artifact = seq<(string, seq<ArtifactEntry>)>

  predicate Named(e: ArtifactEntry) {
    e.name != "" && e.entityId != ""
  }

  function ToClaim(chainId: int, address: string, e: ArtifactEntry): Claim {
    Claim(chainId, BLOB_LIST_SOURCE, Lower(address), e.entityId, e.name, e.category, e.role,
          e.confidence, e.status, e.validFrom, e.validTo)
  }

  /** The claims of one address, unnamed entries dropped. */
  function ClaimsOf(chainId: int, address: string, entries: seq<ArtifactEntry>): seq<Claim> {
    if entries == [] then []
    else
      var init := ClaimsOf(chainId, address, entries[..|entries| - 1]);
      var e := entries[|entries| - 1];
      if Named(e) then init + [ToClaim(chainId, address, e)] else init
  }

  function AllClaims(chainId: int, addresses: Artifact): seq<Claim> {
    if addresses == [] then []
    else
      var last := addresses[|addresses| - 1];
      AllClaims(chainId, addresses[..|addresses| - 1]) + ClaimsOf(chainId, last.0, last.1)
  }

  /** The claim is what the entry says about the address, on this chain. */
  ghost predicate Repeats(chainId: int, address: string, e: ArtifactEntry, c: Claim) {
    && c.chainId == chainId && c.source == "blob-list" && c.address == Lower(address)
    && c.entityId == e.entityId && c.entityId != "" && c.name == e.name && c.name != ""
    && c.category == e.category && c.role == e.role && c.confidence == e.confidence && c.status == e.status
    && c.validFrom == e.validFrom && c.validTo == e.validTo
  }

  /** Some named entry of the artifact stands behind the claim. */
  ghost predicate Listed(chainId: int, addresses: Artifact, c: Claim) {
    exists i, j :: 0 <= i < |addresses| && 0 <= j < |addresses[i].1| &&
      Repeats(chainId, addresses[i].0, addresses[i].1[j], c)
  }

  lemma {:induction false} ClaimsOfListed(chainId: int, address: string, entries: seq<ArtifactEntry>, c: Claim)
    ensures c in ClaimsOf(chainId, address, entries) <==>
      exists j :: 0 <= j < |entries| && Repeats(chainId, address, entries[j], c)
  {
    if entries != [] {
      ClaimsOfListed(chainId, address, entries[..|entries| - 1], c);
      var e := entries[|entries| - 1];
      assert Repeats(chainId, address, e, c) <==> Named(e) && c == ToClaim(chainId, address, e);
      assert forall j :: 0 <= j < |entries| - 1 ==> entries[..|entries| - 1][j] == entries[j];
    }
  }

  lemma {:induction false} AllClaimsListed(chainId: int, addresses: Artifact, c: Claim)
    ensures c in AllClaims(chainId, addresses) <==> Listed(chainId, addresses, c)
  {
    if addresses != [] {
      var init, last := addresses[..|addresses| - 1], addresses[|addresses| - 1];
      AllClaimsListed(chainId, init, c);
      ClaimsOfListed(chainId, last.0, last.1, c);
      if Listed(chainId, addresses, c) {
        var i, j :| 0 <= i < |addresses| && 0 <= j < |addresses[i].1| &&
          Repeats(chainId, addresses[i].0, addresses[i].1[j], c);
        assert i < |init| ==> init[i] == addresses[i];
      }
      if Listed(chainId, init, c) {
        var i, j :| 0 <= i < |init| && 0 <= j < |init[i].1| && Repeats(chainId, init[i].0, init[i].1[j], c);
        assert addresses[i] == init[i];
      }
    }
  }

  /** Turns the artifact into claims: unnamed entries dropped, addresses lowered, best claims first. */
  method FetchedClaims(chainId: int, addresses: Artifact) returns (claims: seq<Claim>)
    ensures claims == StableSort(AllClaims(chainId, addresses), ClaimSortLess) && Sorted(claims, ClaimSortLess)
    ensures forall c :: c in claims <==> Listed(chainId, addresses, c)
    ensures Normalized(claims) && FromBlobList(claims)
  {
    claims := [];
    for i := 0 to |addresses|
      invariant claims == AllClaims(chainId, addresses[..i])
    {
      var (address, entries) := addresses[i];
      for j := 0 to |entries|
        invariant claims == AllClaims(chainId, addresses[..i]) + ClaimsOf(chainId, address, entries[..j])
      {
        assert entries[..j + 1][..j] == entries[..j];
        if Named(entries[j]) {
          claims := claims + [ToClaim(chainId, address, entries[j])];
        }
      }
      assert entries[..|entries|] == entries;
      assert addresses[..i + 1][..i] == addresses[..i];
    }
    assert addresses[..|addresses|] == addresses;
    ClaimSortLessIsPreorder();
    StableSortSorted(claims, ClaimSortLess);
    SameMultisetSameElements(claims, StableSort(claims, ClaimSortLess));
    forall c ensures c in claims <==> Listed(chainId, addresses, c) {
      AllClaimsListed(chainId, addresses, c);
    }
    claims := StableSort(claims, ClaimSortLess);
    forall c | c in claims ensures Lower(c.address) == c.address && c.source == BLOB_LIST_SOURCE {
      var i, j :| 0 <= i < |addresses| && 0 <= j < |addresses[i].1| &&
        Repeats(chainId, addresses[i].0, addresses[i].1[j], c);
      LowerIdempotent(addresses[i].0);
    }
  }

  lemma SameMultisetSameElements<T>(a: seq<T>, b: seq<T>)
    requires multiset(a) == multiset(b)
    ensures forall x :: x in a <==> x in b
  {
    assert forall x :: x in a <==> x in multiset(a);
    assert forall x :: x in b <==> x in multiset(b);
  }

  // ---------- what changed ----------

  /** The address's claims, best first: what the service keeps in memory for it. */
  function Ranked(claims: seq<Claim>, address: string): seq<Claim> {
    StableSort(ForAddress(claims, address), ClaimSortLess)
  }

  predicate IsChanged(previous: seq<Claim>, current: seq<Claim>, address: string) {
    Ranked(previous, address) != Ranked(current, address)
  }

  /** The claims with their addresses normalised. */
  function Lowered(claims: seq<Claim>): (r: seq<Claim>)
    ensures |r| == |claims|
    ensures forall i :: 0 <= i < |r| ==> r[i] == claims[i].(address := Lower(claims[i].address))
  {
    seq(|claims|, i requires 0 <= i < |claims| => claims[i].(address := Lower(claims[i].address)))
  }

  lemma NormalizedIsLowered(claims: seq<Claim>)
    requires Normalized(claims)
    ensures Lowered(claims) == claims
  {
    assert forall i :: 0 <= i < |claims| ==> claims[i] in claims;
  }

  lemma OneMoreClaim(claims: seq<Claim>, i: nat, address: string)
    requires i < |claims|
    ensures ForAddress(claims[..i + 1], address) ==
      ForAddress(claims[..i], address) + if claims[i].address == address then [claims[i]] else []
  {
    assert claims[..i + 1][..i] == claims[..i];
  }

  /** The claims of each address, in list order. */
  method GroupByAddress(claims: seq<Claim>) returns (byAddress: map<string, seq<Claim>>)
    ensures forall a :: a in byAddress <==> ForAddress(Lowered(claims), a) != []
    ensures forall a :: a in byAddress ==> byAddress[a] == ForAddress(Lowered(claims), a)
  {
    ghost var lowered := Lowered(claims);
    byAddress := map[];
    for i := 0 to |claims|
      invariant forall a :: a in byAddress <==> ForAddress(lowered[..i], a) != []
      invariant forall a :: a in byAddress ==> byAddress[a] == ForAddress(lowered[..i], a)
    {
      var claim := claims[i].(address := Lower(claims[i].address));
      assert lowered[i] == claim;
      forall a {
        OneMoreClaim(lowered, i, a);
      }
      var group := if claim.address in byAddress then byAddress[claim.address] else [];
      byAddress := byAddress[claim.address := group + [claim]];
    }
    assert lowered[..|claims|] == lowered;
  }

  method ClaimsByAddress(claims: seq<Claim>) returns (byAddress: map<string, seq<Claim>>)
    ensures forall a :: a in byAddress <==> ForAddress(Lowered(claims), a) != []
    ensures forall a :: a in byAddress ==> byAddress[a] == Ranked(Lowered(claims), a)
  {
    byAddress := GroupByAddress(claims);
    byAddress := map a | a in byAddress :: StableSort(byAddress[a], ClaimSortLess);
  }

  method ChangedClaimAddresses(previous: seq<Claim>, current: seq<Claim>) returns (changed: set<string>)
    ensures forall a :: a in changed <==> IsChanged(Lowered(previous), Lowered(current), a)
  {
    var before := ClaimsByAddress(previous);
    var after := ClaimsByAddress(current);
    changed := set a | a in before.Keys + after.Keys &&
      (if a in before then before[a] else []) != (if a in after then after[a] else []);
    forall a ensures a in changed <==> IsChanged(Lowered(previous), Lowered(current), a) {
      assert a !in before ==> Ranked(Lowered(previous), a) == [];
      assert a !in after ==> Ranked(Lowered(current), a) == [];
    }
  }

  method BestClaimsAtBlock(claims: seq<Claim>, block: int) returns (best: map<string, Claim>)
    ensures best == Current(claims, block)
  {
    best := map[];
    for i := 0 to |claims|
      invariant forall a :: a in best <==> BestAt(claims[..i], a, block).Some?
      invariant forall a :: a in best ==> BestAt(claims[..i], a, block) == Some(best[a])
    {
      var claim := claims[i];
      assert claims[..i + 1][..i] == claims[..i];
      if MatchesBlock(claim, block) {
        if claim.address !in best || ClaimSortLess(claim, best[claim.address]) {
          best := best[claim.address := claim];
        }
      }
    }
    assert claims[..|claims|] == claims;
    forall a ensures a in best <==> a in Current(claims, block) {
      CurrentDomain(claims, a, block);
    }
  }

  function BestAt(claims: seq<Claim>, address: string, block: int): Option<Claim> {
    BestSoFar(claims, c => Covers(c, address, block), ClaimSortLess)
  }

  /** The claim current at `block`, per address. */
  ghost function Current(claims: seq<Claim>, block: int): map<string, Claim> {
    map a | a in (set c | c in claims :: c.address) && BestAt(claims, a, block).Some? :: BestAt(claims, a, block).value
  }

  lemma CurrentDomain(claims: seq<Claim>, address: string, block: int)
    ensures address in Current(claims, block) <==> BestAt(claims, address, block).Some?
    ensures address in Current(claims, block) ==>
      Current(claims, block)[address] in claims && Covers(Current(claims, block)[address], address, block)
  {
    ClaimSortLessIsPreorder();
    BestSoFarIsBest(claims, c => Covers(c, address, block), ClaimSortLess);
  }

  /** The in-memory projection and the sorted lookup always name the same claim. */
  lemma CurrentIsFirstRanked(claims: seq<Claim>, address: string, block: int)
    ensures FirstMatch(Ranked(claims, address), c => MatchesBlock(c, block)) ==
      if address in Current(claims, block) then Some(Current(claims, block)[address]) else None
  {
    ClaimSortLessIsPreorder();
    FirstOfSortedIsBest(ForAddress(claims, address), c => MatchesBlock(c, block), ClaimSortLess);
    BestForAddress(claims, address, block);
    CurrentDomain(claims, address, block);
  }

  // ---------- repainting, as a whole-table function ----------

  ghost function SyncedBlobs(rows: BlobTable, previous: seq<Claim>, claims: seq<Claim>): BlobTable {
    map id | id in rows ::
      if IsChanged(previous, claims, rows[id].Address())
      then rows[id].(attribution := PaintedName(claims, rows[id].Address(), rows[id].block))
      else rows[id]
  }

  /** Every confirmed row carries the resolver's name. */
  ghost predicate RowsResolved(rows: BlobTable, claims: seq<Claim>) {
    forall id :: id in rows && rows[id].block >= 0 ==>
      rows[id].attribution == ResolvedName(claims, rows[id].Address(), rows[id].block)
  }

  ghost function Recomputed(rows: BlobTable, claims: seq<Claim>): BlobTable {
    map id | id in rows ::
      rows[id].(attribution := ResolvedName(claims, rows[id].Address(), rows[id].block))
  }

  /** MAIN RESULT. Starting from resolved rows, clearing and repainting only the changed addresses leaves
      every row resolved if and only if, on each row of a changed address, the extremes of the leading
      tie carry one name. */
  lemma SyncResolvesIff(rows: BlobTable, previous: seq<Claim>, claims: seq<Claim>)
    requires RowsResolved(rows, previous) && Sorted(claims, ClaimSortLess)
    ensures RowsResolved(SyncedBlobs(rows, previous, claims), claims) <==>
      forall id :: id in rows && rows[id].block >= 0 && IsChanged(previous, claims, rows[id].Address()) ==>
        LeadersAgree(claims, rows[id].Address(), rows[id].block)
  {
    var after := SyncedBlobs(rows, previous, claims);
    forall id | id in rows && rows[id].block >= 0
      ensures after[id].Address() == rows[id].Address() && after[id].block == rows[id].block
      ensures after[id].attribution == ResolvedName(claims, rows[id].Address(), rows[id].block) <==>
        (IsChanged(previous, claims, rows[id].Address()) ==> LeadersAgree(claims, rows[id].Address(), rows[id].block))
    {
      PaintedIsResolvedIff(claims, rows[id].Address(), rows[id].block);
    }
  }

  /** Without ties on its rows, the incremental sync equals recomputing the whole table, whatever the
      order of the claims. */
  lemma SyncIsFullRecompute(rows: BlobTable, previous: seq<Claim>, claims: seq<Claim>)
    requires RowsResolved(rows, previous)
    requires forall id :: id in rows ==> rows[id].block >= 0
    requires forall id :: id in rows ==> NoTie(claims, rows[id].Address(), rows[id].block)
    ensures SyncedBlobs(rows, previous, claims) == Recomputed(rows, claims)
  {
    forall id | id in rows
      ensures SyncedBlobs(rows, previous, claims)[id] == Recomputed(rows, claims)[id]
    {
      SyncedRowIsRecomputed(rows[id], previous, claims);
    }
  }

  lemma SyncedRowIsRecomputed(row: BlobRow, previous: seq<Claim>, claims: seq<Claim>)
    requires row.block >= 0 && row.attribution == ResolvedName(previous, row.Address(), row.block)
    requires NoTie(claims, row.Address(), row.block)
    ensures row.(attribution := ResolvedName(claims, row.Address(), row.block)) ==
      if IsChanged(previous, claims, row.Address())
      then row.(attribution := PaintedName(claims, row.Address(), row.block)) else row
  {
    NoTieAgrees(claims, row.Address(), row.block);
  }

  // ---------- rows indexed while a refresh is under way ----------

  /** A row stamped with the answer of `claims` and stored under its id. */
  datatype Arrival = Arrival(id: nat, from: string, block: nat) {
    function Row(claims: seq<Claim>): BlobRow {
      BlobRow(from, block, ResolvedName(claims, Lower(from), block))
    }
  }

  ghost function Indexed(rows: BlobTable, during: seq<Arrival>, claims: seq<Claim>): BlobTable {
    if during == [] then rows
    else
      var last := during[|during| - 1];
      Indexed(rows, during[..|during| - 1], claims)[last.id := last.Row(claims)]
  }

  /** The arrival that stored row `id` last, if any did. */
  ghost function LastArrival(during: seq<Arrival>, id: nat): (r: Option<nat>)
    ensures r.Some? ==> r.value < |during| && during[r.value].id == id
  {
    if during == [] then None
    else if during[|during| - 1].id == id then Some(|during| - 1)
    else LastArrival(during[..|during| - 1], id)
  }

  lemma {:induction false} IndexedRow(rows: BlobTable, during: seq<Arrival>, claims: seq<Claim>, id: nat)
    ensures match LastArrival(during, id)
      case None =>
        && (id in Indexed(rows, during, claims) <==> id in rows)
        && (id in rows ==> Indexed(rows, during, claims)[id] == rows[id])
      case Some(i) =>
        && i < |during|
        && id in Indexed(rows, during, claims) && Indexed(rows, during, claims)[id] == during[i].Row(claims)
  {
    if during != [] {
      var init, last := during[..|during| - 1], during[|during| - 1];
      IndexedRow(rows, init, claims, id);
      var before, row := Indexed(rows, init, claims), last.Row(claims);
      assert Indexed(rows, during, claims) == before[last.id := row];
      if last.id != id {
        assert LastArrival(during, id) == LastArrival(init, id);
      }
    }
  }

  /** The claims that stamped the rows that arrived and the new ones give each of them the same name. */
  ghost predicate ArrivalsAgree(during: seq<Arrival>, memory: seq<Claim>, claims: seq<Claim>) {
    forall id :: LastArrival(during, id).Some? ==>
      var a := during[LastArrival(during, id).value];
      ResolvedName(memory, Lower(a.from), a.block) == ResolvedName(claims, Lower(a.from), a.block)
  }

  /** Row `id` is a confirmed row that no arrival has replaced. */
  ghost predicate Standing(rows: BlobTable, during: seq<Arrival>, id: nat) {
    id in rows && rows[id].block >= 0 && LastArrival(during, id).None?
  }

  /** A row of a changed address has been repainted, so its leading tie must agree; any other keeps what it had. */
  ghost predicate StandingAgrees(row: BlobRow, previous: seq<Claim>, claims: seq<Claim>) {
    if IsChanged(previous, claims, row.Address()) then LeadersAgree(claims, row.Address(), row.block)
    else row.attribution == ResolvedName(previous, row.Address(), row.block)
  }

  ghost predicate RefreshAgrees(
    rows: BlobTable, memory: seq<Claim>, previous: seq<Claim>, claims: seq<Claim>, during: seq<Arrival>)
  {
    ArrivalsAgree(during, memory, claims) &&
    forall id :: Standing(rows, during, id) ==> StandingAgrees(rows[id], previous, claims)
  }

  /** MAIN RESULT. Whatever the rows carry and whatever claims memory answers from, a refresh during which rows
      keep arriving ends with every row resolved if and only if the new claims name no arrived row differently
      from memory, the leading ties agree on the standing rows of changed addresses, and the other standing
      rows were resolved before. */
  lemma RefreshResolvesIff(
    rows: BlobTable, memory: seq<Claim>, previous: seq<Claim>, claims: seq<Claim>, during: seq<Arrival>)
    requires Sorted(claims, ClaimSortLess)
    ensures RowsResolved(Indexed(SyncedBlobs(rows, previous, claims), during, memory), claims) <==>
      RefreshAgrees(rows, memory, previous, claims, during)
  {
    var after := Indexed(SyncedBlobs(rows, previous, claims), during, memory);
    forall id {
      RefreshedRow(rows, memory, previous, claims, during, id);
    }
    if RowsResolved(after, claims) {
      forall id | LastArrival(during, id).Some? ensures RowAgrees(rows, memory, previous, claims, during, id) {
        assert id in after;
      }
      forall id | Standing(rows, during, id) ensures RowAgrees(rows, memory, previous, claims, during, id) {
        assert id in after;
      }
    }
  }

  ghost predicate RowAgrees(
    rows: BlobTable, memory: seq<Claim>, previous: seq<Claim>, claims: seq<Claim>, during: seq<Arrival>, id: nat)
  {
    match LastArrival(during, id)
    case Some(i) =>
      i < |during| && ResolvedName(memory, Lower(during[i].from), during[i].block) ==
        ResolvedName(claims, Lower(during[i].from), during[i].block)
    case None => Standing(rows, during, id) ==> StandingAgrees(rows[id], previous, claims)
  }

  /** The same for one row. */
  lemma RefreshedRow(
    rows: BlobTable, memory: seq<Claim>, previous: seq<Claim>, claims: seq<Claim>, during: seq<Arrival>, id: nat)
    requires Sorted(claims, ClaimSortLess)
    ensures var after := Indexed(SyncedBlobs(rows, previous, claims), during, memory);
      && (LastArrival(during, id).Some? || Standing(rows, during, id) <==> id in after && after[id].block >= 0)
      && (id in after && after[id].block >= 0 ==>
            (after[id].attribution == ResolvedName(claims, after[id].Address(), after[id].block) <==>
              RowAgrees(rows, memory, previous, claims, during, id)))
  {
    IndexedRow(SyncedBlobs(rows, previous, claims), during, memory, id);
    if Standing(rows, during, id) {
      PaintedIsResolvedIff(claims, rows[id].Address(), rows[id].block);
    }
  }

  /** From resolved rows only the arrivals and the ties of the changed addresses matter. */
  lemma RefreshOfResolvedRows(
    rows: BlobTable, memory: seq<Claim>, stored: seq<Claim>, previous: seq<Claim>, claims: seq<Claim>,
    during: seq<Arrival>)
    requires multiset(stored) == multiset(previous) && RowsResolved(rows, stored)
    ensures RefreshAgrees(rows, memory, previous, claims, during) <==>
      ArrivalsAgree(during, memory, claims) &&
      forall id :: Standing(rows, during, id) && IsChanged(previous, claims, rows[id].Address()) ==>
        LeadersAgree(claims, rows[id].Address(), rows[id].block)
  {
    ResolvedUnderAnyOrder(rows, stored, previous);
  }

  lemma AliceIsNamed()
    ensures Lower("0xaa") == "0xaa" && ResolvedName([ALICE], "0xaa", 5) == "alice" && ResolvedName([], "0xaa", 5) == ""
  {
    assert Lower("0xaa") == "0xaa";
    AliceAndBobTie();
    assert [ALICE][..0] == [];
    ResolvedIsBest([ALICE], "0xaa", 5);
  }

  /** A row that arrives during the first refresh keeps no name although the new claims have one for it. */
  lemma StaleArrival()
    ensures var during := [Arrival(0, "0xaa", 5)];
      RowsResolved(map[], []) && !RowsResolved(Indexed(SyncedBlobs(map[], [], [ALICE]), during, []), [ALICE])
  {
    var during := [Arrival(0, "0xaa", 5)];
    AliceIsNamed();
    RefreshResolvesIff(map[], [], [], [ALICE], during);
    assert LastArrival(during, 0) == Some(0);
  }

  /** A refresh that brings the claims already stored repaints nothing. */
  lemma SameClaimsRepaintNothing(rows: BlobTable, claims: seq<Claim>)
    ensures SyncedBlobs(rows, claims, claims) == rows
  {
  }

  /** A row indexed from empty memory is stamped with no name. */
  lemma UnnamedRow()
    ensures Indexed(map[], [Arrival(0, "0xaa", 5)], []) == map[0 := BlobRow("0xaa", 5, "")]
  {
    var during := [Arrival(0, "0xaa", 5)];
    AliceIsNamed();
    assert during[..0] == [] && Indexed(map[], [], []) == map[];
  }

  /** After a restart memory is empty. A row indexed before the first refresh succeeds is stamped with no name,
      and a refresh that brings the claims already stored does not repaint it. */
  lemma RestartLosesNames()
    ensures var rows := Indexed(map[], [Arrival(0, "0xaa", 5)], []);
      && RowsResolved(map[], [ALICE])
      && SyncedBlobs(rows, [ALICE], [ALICE]) == rows && !RowsResolved(rows, [ALICE])
  {
    var rows: BlobTable := map[0 := BlobRow("0xaa", 5, "")];
    UnnamedRow();
    SameClaimsRepaintNothing(rows, [ALICE]);
    AliceIsNamed();
    assert rows[0].Address() == "0xaa" && rows[0].attribution == "";
  }

  // ---------- pending rows ----------

  ghost function CurrentName(claims: seq<Claim>, address: string, tip: int): string {
    if address in Current(claims, tip) then Current(claims, tip)[address].name else ""
  }

  /** Pending rows of changed addresses take the name current at the tip. */
  ghost function SyncedPending(pending: PendingTable, previous: seq<Claim>, claims: seq<Claim>, tip: int)
    : PendingTable
  {
    map id | id in pending ::
      if IsChanged(previous, claims, pending[id].Address())
      then pending[id].(attribution := CurrentName(claims, pending[id].Address(), tip))
      else pending[id]
  }

  ghost predicate PendingNamed(pending: PendingTable, claims: seq<Claim>, tip: int) {
    forall id :: id in pending ==> pending[id].attribution == CurrentName(claims, pending[id].Address(), tip)
  }

  /** Pending rows end up with their current names if and only if, for each unchanged address among them, the
      name current at the new tip is the one current at the old. */
  lemma PendingNamedIff(pending: PendingTable, previous: seq<Claim>, claims: seq<Claim>, before: int, tip: int)
    requires PendingNamed(pending, previous, before)
    ensures PendingNamed(SyncedPending(pending, previous, claims, tip), claims, tip) <==>
      forall id :: id in pending && !IsChanged(previous, claims, pending[id].Address()) ==>
        CurrentName(claims, pending[id].Address(), tip) == CurrentName(previous, pending[id].Address(), before)
  {
    var after := SyncedPending(pending, previous, claims, tip);
    forall id | id in pending
      ensures after[id].Address() == pending[id].Address()
      ensures after[id].attribution == CurrentName(claims, pending[id].Address(), tip) <==>
        (IsChanged(previous, claims, pending[id].Address()) ||
          CurrentName(claims, pending[id].Address(), tip) == CurrentName(previous, pending[id].Address(), before))
    {
    }
  }

  // ---------- the current-user projection ----------

  /** The parts of a description; an empty role, confidence or status is left out. */
  function DescriptionParts(c: Claim): (parts: seq<string>)
    ensures parts != []
  {
    ["source=" + c.source, "entity_id=" + c.entityId]
      + (if c.role != "" then ["role=" + c.role] else [])
      + (if c.confidence != "" then ["confidence=" + c.confidence] else [])
      + (if c.status != "" then ["status=" + c.status] else [])
  }

  function JoinParts(parts: seq<string>): string
    requires parts != []
  {
    if |parts| == 1 then parts[0] else parts[0] + "; " + JoinParts(parts[1..])
  }

  function Description(c: Claim): string {
    JoinParts(DescriptionParts(c))
  }

  /** Reading a description back: its parts, cut at the semicolons and the blanks behind them. */
  function ReadParts(d: string): seq<string> {
    match IndexOf(d, ";")
    case None => [d]
    case Some(i) => if i + 2 <= |d| then [d[..i]] + ReadParts(d[i + 2..]) else [d[..i]]
  }

  lemma FirstSemicolon(part: string, rest: string)
    requires ';' !in part
    ensures IndexOf(part + "; " + rest, ";") == Some(|part|)
  {
    var d := part + "; " + rest;
    assert OccursAt(d, ";", |part|);
    forall k | 0 <= k < |part| ensures !OccursAt(d, ";", k) {
      assert d[k] == part[k] && part[k] in part;
      assert d[k..k + 1][0] == d[k];
    }
  }

  lemma {:induction false} ReadJoined(parts: seq<string>)
    requires parts != [] && forall p :: p in parts ==> ';' !in p
    ensures ReadParts(JoinParts(parts)) == parts
  {
    assert parts[0] in parts;
    if |parts| == 1 {
      NoSemicolon(parts[0]);
    } else {
      ReadJoined(parts[1..]);
      FirstSemicolon(parts[0], JoinParts(parts[1..]));
      var d := JoinParts(parts);
      assert d[..|parts[0]|] == parts[0] && d[|parts[0]| + 2..] == JoinParts(parts[1..]);
      assert parts == [parts[0]] + parts[1..];
    }
  }

  lemma NoSemicolon(d: string)
    requires ';' !in d
    ensures IndexOf(d, ";") == None
  {
    forall k ensures !OccursAt(d, ";", k) {
      if 0 <= k < |d| {
        assert d[k] in d && d[k..k + 1] == [d[k]];
      }
    }
  }

  ghost predicate PlainWords(c: Claim) {
    ';' !in c.source && ';' !in c.entityId && ';' !in c.role && ';' !in c.confidence && ';' !in c.status
  }

  lemma Cancel(tag: string, a: string, b: string)
    ensures tag + a == tag + b <==> a == b
    ensures (tag + a)[..|tag|] == tag
  {
    assert (tag + a)[|tag|..] == a && (tag + b)[|tag|..] == b;
  }

  /** The part that starts like one label is that one. */
  lemma PartStarts(c: Claim, p: string)
    requires p in DescriptionParts(c)
    ensures |p| >= 2
    ensures p[0] == 's' && p[1] == 'o' ==> p == "source=" + c.source
    ensures p[0] == 'e' ==> p == "entity_id=" + c.entityId
    ensures p[0] == 'r' ==> p == "role=" + c.role && c.role != ""
    ensures p[0] == 'c' ==> p == "confidence=" + c.confidence && c.confidence != ""
    ensures p[0] == 's' && p[1] == 't' ==> p == "status=" + c.status && c.status != ""
  {
  }

  lemma PartTells(c: Claim, tag: string, x: string)
    requires tag in {"source=", "entity_id=", "role=", "confidence=", "status="}
    requires tag + x in DescriptionParts(c)
    ensures tag == "source=" ==> x == c.source
    ensures tag == "entity_id=" ==> x == c.entityId
    ensures tag == "role=" ==> x == c.role != ""
    ensures tag == "confidence=" ==> x == c.confidence != ""
    ensures tag == "status=" ==> x == c.status != ""
  {
    PartStarts(c, tag + x);
    Cancel(tag, x, c.source);
    Cancel(tag, x, c.entityId);
    Cancel(tag, x, c.role);
    Cancel(tag, x, c.confidence);
    Cancel(tag, x, c.status);
  }

  lemma PartsTell(c: Claim, x: string)
    ensures var parts := DescriptionParts(c);
      && ("source=" + x in parts <==> x == c.source)
      && ("entity_id=" + x in parts <==> x == c.entityId)
      && ("role=" + x in parts <==> x == c.role != "")
      && ("confidence=" + x in parts <==> x == c.confidence != "")
      && ("status=" + x in parts <==> x == c.status != "")
  {
    var parts := DescriptionParts(c);
    if "source=" + x in parts { PartTells(c, "source=", x); }
    if "entity_id=" + x in parts { PartTells(c, "entity_id=", x); }
    if "role=" + x in parts { PartTells(c, "role=", x); }
    if "confidence=" + x in parts { PartTells(c, "confidence=", x); }
    if "status=" + x in parts { PartTells(c, "status=", x); }
  }

  lemma PartsArePlain(c: Claim)
    requires PlainWords(c)
    ensures forall p :: p in DescriptionParts(c) ==> ';' !in p
  {
    assert ';' !in "source=" && ';' !in "entity_id=" && ';' !in "role=" && ';' !in "confidence=" && ';' !in "status=";
  }

  /** From a description one reads back the claim's source and entity, and its role, confidence and status where it
      has them. */
  lemma DescriptionTells(c: Claim, x: string)
    requires PlainWords(c)
    ensures var parts := ReadParts(Description(c));
      && ("source=" + x in parts <==> x == c.source)
      && ("entity_id=" + x in parts <==> x == c.entityId)
      && ("role=" + x in parts <==> x == c.role != "")
      && ("confidence=" + x in parts <==> x == c.confidence != "")
      && ("status=" + x in parts <==> x == c.status != "")
  {
    PartsArePlain(c);
    ReadJoined(DescriptionParts(c));
    PartsTell(c, x);
  }

  /** A registry user is always recognised as such: its description starts with the marker, whatever the claim. */
  lemma RegistryUserIsOwned(c: Claim)
    requires c.source == "blob-list"
    ensures UserOf(c).Owned()
  {
    var parts := DescriptionParts(c);
    assert parts[0] == "source=blob-list";
    assert Description(c) == OWNED_PREFIX + (" " + JoinParts(parts[1..]));
  }

  /** The marker alone decides, with anything or nothing behind it. */
  lemma OwnedIffMarked(user: BlobUser, rest: string)
    ensures user.description == "source=blob-list;" + rest ==> user.Owned()
    ensures user.Owned() ==> user.description == "source=blob-list;" + user.description[|"source=blob-list;"|..]
  {
    assert OWNED_PREFIX == "source=blob-list;";
  }

  function UserOf(c: Claim): BlobUser {
    BlobUser(c.name, Description(c), c.category)
  }

  /** Stale owned rows go, current claims are upserted; without an indexed tip nothing is deleted. */
  ghost function SyncedUsers(users: map<string, BlobUser>, current: map<string, Claim>, tip: int)
    : map<string, BlobUser>
  {
    (map a | a in users && !(tip >= 0 && users[a].Owned() && a !in current) :: users[a]) +
    (map a | a in current :: UserOf(current[a]))
  }

  /** With a tip, the owned rows are exactly the addresses the resolver names at the tip, under that name;
      a hand-added row is kept exactly when no claim is current for its address. */
  lemma UsersAreTheCurrentProjection(users: map<string, BlobUser>, claims: seq<Claim>, tip: int, address: string)
    requires tip >= 0 && FromBlobList(claims)
    ensures var after := SyncedUsers(users, Current(claims, tip), tip);
      && (address in after && after[address].Owned() <==> address in Current(claims, tip))
      && (address in Current(claims, tip) ==> after[address].name == ResolvedName(claims, address, tip))
      && (address in users && !users[address].Owned() ==>
            (address in after && after[address] == users[address] <==> address !in Current(claims, tip)))
  {
    CurrentDomain(claims, address, tip);
    CurrentIsFirstRanked(claims, address, tip);
    if address in Current(claims, tip) {
      RegistryUserIsOwned(Current(claims, tip)[address]);
    }
  }

  // ---------- the service ----------

  /** UNIQUE (chain_id, source, address, entity_id, role, valid_from_block) on the claims table. */
  predicate UniqueKeys(claims: seq<Claim>) {
    forall i, j :: 0 <= i < j < |claims| ==>
      !(claims[i].chainId == claims[j].chainId && claims[i].source == claims[j].source &&
        claims[i].address == claims[j].address && claims[i].entityId == claims[j].entityId &&
        claims[i].role == claims[j].role && claims[i].validFrom == claims[j].validFrom)
  }

  type ClaimKey = (int, string, string, string, string, int)

  function KeyOf(c: Claim): ClaimKey {
    (c.chainId, c.source, c.address, c.entityId, c.role, c.validFrom)
  }

  ghost function Keys(claims: seq<Claim>): set<ClaimKey> {
    set c | c in claims :: KeyOf(c)
  }

  lemma OneMoreKey(claims: seq<Claim>, c: Claim)
    ensures Keys(claims + [c]) == Keys(claims) + {KeyOf(c)}
    ensures UniqueKeys(claims + [c]) <==> UniqueKeys(claims) && KeyOf(c) !in Keys(claims)
  {
    var all := claims + [c];
    assert all[|claims|] == c;
    if UniqueKeys(all) {
      forall i | 0 <= i < |claims| ensures KeyOf(claims[i]) != KeyOf(c) {
        assert all[i] == claims[i];
      }
      forall i, j | 0 <= i < j < |claims| ensures KeyOf(claims[i]) != KeyOf(claims[j]) {
        assert all[i] == claims[i] && all[j] == claims[j];
      }
    }
    if UniqueKeys(claims) && KeyOf(c) !in Keys(claims) {
      forall i, j | 0 <= i < j < |all| ensures KeyOf(all[i]) != KeyOf(all[j]) {
        assert all[i] == claims[i] && claims[i] in claims;
      }
    }
  }

  /** The constraint holds exactly when the claims have as many keys as there are claims. */
  lemma {:induction false} UniqueIffAsManyKeys(claims: seq<Claim>)
    ensures UniqueKeys(claims) <==> |Keys(claims)| == |claims|
    ensures |Keys(claims)| <= |claims|
  {
    if claims == [] {
      assert Keys(claims) == {};
    } else {
      var init, last := claims[..|claims| - 1], claims[|claims| - 1];
      UniqueIffAsManyKeys(init);
      OneMoreKey(init, last);
      assert claims == init + [last];
    }
  }

  /** COALESCE(MAX(block_number), -1) over the confirmed rows. */
  method LatestBlock(rows: BlobTable) returns (tip: int)
    ensures tip >= -1
    ensures forall id :: id in rows && rows[id].block >= 0 ==> rows[id].block <= tip
    ensures tip >= 0 ==> exists id :: id in rows && rows[id].block == tip
  {
    tip := -1;
    var ids := rows.Keys;
    while ids != {}
      invariant ids <= rows.Keys && tip >= -1
      invariant forall id :: id in rows.Keys - ids ==> rows[id].block <= tip
      invariant tip >= 0 ==> exists id :: id in rows && rows[id].block == tip
      decreases ids
    {
      var id :| id in ids;
      ids := ids - {id};
      if rows[id].block > tip {
        tip := rows[id].block;
      }
    }
  }

  class Service {
    // tables
    var storedClaims: seq<Claim>
    var blobs: BlobTable
    var pending: PendingTable
    var blobUsers: map<string, BlobUser>
    // memory
    var claimsByAddr: map<string, seq<Claim>>
    var knownUsers: map<string, string>

    /** A process starts with empty memory over whatever the database holds. */
    constructor (storedClaims: seq<Claim>, blobs: BlobTable, pending: PendingTable, blobUsers: map<string, BlobUser>)
      ensures this.storedClaims == storedClaims && this.blobs == blobs
      ensures this.pending == pending && this.blobUsers == blobUsers
      ensures AnswersFrom([])
    {
      this.storedClaims, this.blobs, this.pending, this.blobUsers := storedClaims, blobs, pending, blobUsers;
      claimsByAddr, knownUsers := map[], map[];
    }

    /** Memory answers from the stored claims. */
    ghost predicate Valid()
      reads this
    {
      Normalized(storedClaims) && AnswersFrom(storedClaims)
    }

    /** Memory answers from the claims of the last swap: none after a start, the ones stored before between the
        commit and the swap of a refresh. */
    ghost predicate AnswersFrom(claims: seq<Claim>)
      reads this
    {
      forall a, b :: b >= 0 ==> Answer(a, b) == ResolvedName(claims, a, b)
    }

    ghost predicate Resolved()
      reads this
    {
      RowsResolved(blobs, storedClaims)
    }

    /** GetUserAttributionForBlock for a normalized address and a non-negative block. */
    function Answer(address: string, block: int): string
      reads this
    {
      var claims := if address in claimsByAddr then claimsByAddr[address] else [];
      NameOf(FirstMatch(claims, c => MatchesBlock(c, block)))
    }

    function GetUserAttributionForBlock(address: string, block: int): string
      reads this
    {
      var a := Lower(address);
      if block < 0 then (if a in knownUsers then knownUsers[a] else "") else Answer(a, block)
    }

    /** The indexer confirms a blob and stamps it with the service's answer, also while a refresh is under way. */
    method IndexBlob(a: Arrival, ghost claims: seq<Claim>)
      requires AnswersFrom(claims)
      modifies this`blobs
      ensures AnswersFrom(claims) && blobs == old(blobs)[a.id := a.Row(claims)]
      ensures old(Valid()) && old(Resolved()) && claims == storedClaims ==> Valid() && Resolved()
    {
      blobs := blobs[a.id := BlobRow(a.from, a.block, GetUserAttributionForBlock(a.from, a.block))];
    }

    /** UPDATE blobs and UPDATE mempool_blobs SET user_attribution = '' for the changed addresses. */
    method ClearAttributions(changed: set<string>)
      modifies this`blobs, this`pending
      ensures blobs == Cleared(old(blobs), changed) && pending == ClearedPending(old(pending), changed)
    {
      blobs := map id | id in blobs ::
        if blobs[id].Address() in changed then blobs[id].(attribution := "") else blobs[id];
      pending := map id | id in pending ::
        if pending[id].Address() in changed then pending[id].(attribution := "") else pending[id];
    }

    /** Each current claim of a changed address names its pending rows, in whatever order the map is ranged. */
    method RepaintPending(current: map<string, Claim>, changed: set<string>)
      modifies this`pending
      ensures pending == RenamedPending(old(pending), current, changed)
    {
      var left := current.Keys;
      while left != {}
        invariant left <= current.Keys
        invariant pending.Keys == old(pending).Keys
        invariant forall id :: id in pending ==>
          pending[id] == Renamed(old(pending)[id], current, changed, current.Keys - left)
        decreases left
      {
        var a :| a in left;
        left := left - {a};
        if a in changed {
          pending := map id | id in pending ::
            if pending[id].Address() == a then pending[id].(attribution := current[a].name) else pending[id];
        }
      }
    }

    /** UPDATE blobs SET user_attribution = name for the rows of one claim. */
    method UpdateBlobsForClaim(claim: Claim)
      modifies this`blobs
      ensures blobs == map id | id in old(blobs) ::
        if InRange(claim, old(blobs)[id]) then old(blobs)[id].(attribution := claim.name) else old(blobs)[id]
    {
      if claim.validTo.None? {
        blobs := map id | id in blobs ::
          if blobs[id].Address() == claim.address && blobs[id].block >= claim.validFrom && blobs[id].block >= 0
          then blobs[id].(attribution := claim.name) else blobs[id];
      } else {
        blobs := map id | id in blobs ::
          if blobs[id].Address() == claim.address && blobs[id].block >= claim.validFrom &&
             blobs[id].block <= claim.validTo.value && blobs[id].block >= 0
          then blobs[id].(attribution := claim.name) else blobs[id];
      }
    }

    /** One transaction. `previous` is the stored list in whatever order the database returns it; `claims` is
        left in application order, as the in-place sort leaves the caller's slice. */
    method SyncBlobListClaims(previous: seq<Claim>, claims: seq<Claim>, dbOk: bool)
      returns (ok: bool, applied: seq<Claim>, tip: int)
      requires multiset(previous) == multiset(storedClaims)
      requires Normalized(storedClaims) && Normalized(claims)
      modifies this`storedClaims, this`blobs, this`pending, this`blobUsers
      ensures ok <==> dbOk && UniqueKeys(claims)
      ensures !ok ==> storedClaims == old(storedClaims) && blobs == old(blobs)
      ensures !ok ==> pending == old(pending) && blobUsers == old(blobUsers)
      ensures multiset(applied) == multiset(claims)
      ensures ok ==> storedClaims == claims
      ensures ok ==> blobs == SyncedBlobs(old(blobs), previous, claims)
      ensures ok ==> pending == SyncedPending(old(pending), previous, claims, tip)
      ensures ok ==> blobUsers == SyncedUsers(old(blobUsers), Current(claims, tip), tip)
    {
      applied := claims;
      tip := LatestBlock(blobs);
      ok := dbOk && UniqueKeys(claims);
      if !ok {
        return;
      }
      assert Normalized(previous) by { SameMultisetSameElements(previous, storedClaims); }
      applied := ReplaceClaims(previous, claims, tip);
    }

    /** The statements of the transaction, none of which fails. */
    method ReplaceClaims(previous: seq<Claim>, claims: seq<Claim>, tip: int) returns (applied: seq<Claim>)
      requires Normalized(previous) && Normalized(claims)
      modifies this`storedClaims, this`blobs, this`pending, this`blobUsers
      ensures multiset(applied) == multiset(claims)
      ensures storedClaims == claims
      ensures blobs == SyncedBlobs(old(blobs), previous, claims)
      ensures pending == SyncedPending(old(pending), previous, claims, tip)
      ensures blobUsers == SyncedUsers(old(blobUsers), Current(claims, tip), tip)
    {
      storedClaims := claims;
      var currentUsers := BestClaimsAtBlock(claims, tip);
      SyncUsers(currentUsers, tip);
      applied := SyncRows(previous, claims, currentUsers, tip);
    }

    method SyncUsers(currentUsers: map<string, Claim>, tip: int)
      modifies this`blobUsers
      ensures blobUsers == SyncedUsers(old(blobUsers), currentUsers, tip)
    {
      if tip >= 0 {
        blobUsers := map a | a in blobUsers && !(blobUsers[a].Owned() && a !in currentUsers) :: blobUsers[a];
      }
      blobUsers := blobUsers + map a | a in currentUsers :: UserOf(currentUsers[a]);
    }

    method SyncRows(previous: seq<Claim>, claims: seq<Claim>, currentUsers: map<string, Claim>, ghost tip: int)
      returns (applied: seq<Claim>)
      requires Normalized(previous) && Normalized(claims) && currentUsers == Current(claims, tip)
      modifies this`blobs, this`pending
      ensures applied == StableSort(claims, ApplicationLess) && multiset(applied) == multiset(claims)
      ensures blobs == SyncedBlobs(old(blobs), previous, claims)
      ensures pending == SyncedPending(old(pending), previous, claims, tip)
    {
      var changed := ChangedClaimAddresses(previous, claims);
      NormalizedIsLowered(previous);
      NormalizedIsLowered(claims);
      if changed != {} {
        ClearAttributions(changed);
      } else {
        NothingCleared(blobs, pending);
      }
      ghost var cleared := blobs;
      ghost var clearedPending := pending;
      applied := RepaintSorted(claims, changed);
      RepaintedIsSynced(old(blobs), cleared, blobs, previous, claims, changed);
      RepaintPending(currentUsers, changed);
      RepaintedIsSyncedPending(old(pending), clearedPending, pending, previous, claims, changed, tip);
    }

    method RepaintSorted(claims: seq<Claim>, changed: set<string>) returns (applied: seq<Claim>)
      modifies this`blobs
      ensures applied == StableSort(claims, ApplicationLess) && multiset(applied) == multiset(claims)
      ensures blobs.Keys == old(blobs).Keys
      ensures forall id :: id in blobs ==> blobs[id] == Painted(old(blobs)[id], applied, changed)
    {
      applied := StableSort(claims, ApplicationLess);
      ApplicationLessIsPreorder();
      StableSortSorted(claims, ApplicationLess);
      Repaint(applied, changed);
    }

    /** Each non-disputed claim of a changed address overwrites its rows, in application order. */
    method Repaint(applied: seq<Claim>, changed: set<string>)
      modifies this`blobs
      ensures blobs.Keys == old(blobs).Keys
      ensures forall id :: id in blobs ==> blobs[id] == Painted(old(blobs)[id], applied, changed)
    {
      for i := 0 to |applied|
        invariant blobs.Keys == old(blobs).Keys
        invariant forall id :: id in blobs ==> blobs[id] == Painted(old(blobs)[id], applied[..i], changed)
      {
        var claim := applied[i];
        forall id | id in blobs
          ensures Painted(old(blobs)[id], applied[..i + 1], changed) ==
            (var row := Painted(old(blobs)[id], applied[..i], changed);
             if row.Address() in changed && row.block >= 0 && Covers(claim, row.Address(), row.block)
             then row.(attribution := claim.name) else row)
        {
          var row := old(blobs)[id];
          assert applied[..i + 1] == applied[..i] + [claim];
          LastMatchAppend(applied[..i], claim, c => Covers(c, row.Address(), row.block));
        }
        if claim.address in changed && !EqualFold(claim.status, DISPUTED) {
          UpdateBlobsForClaim(claim);
        }
      }
      assert applied[..|applied|] == applied;
    }

    method SetClaims(claims: seq<Claim>, currentBlock: int)
      modifies this`claimsByAddr, this`knownUsers
      ensures AnswersFrom(Lowered(claims))
      ensures knownUsers == map a | a in Current(claims, currentBlock) :: Current(claims, currentBlock)[a].name
      ensures forall a, b :: b < 0 ==> GetUserAttributionForBlock(a, b) == CurrentName(claims, Lower(a), currentBlock)
    {
      var byAddr := ClaimsByAddress(claims);
      var current := BestClaimsAtBlock(claims, currentBlock);
      claimsByAddr := byAddr;
      knownUsers := map a | a in current :: current[a].name;
      forall a, b | b >= 0 ensures Answer(a, b) == ResolvedName(Lowered(claims), a, b) {
        assert a !in byAddr ==> Ranked(Lowered(claims), a) == [];
      }
    }

    /** Rows that arrive one after another. */
    method IndexBlobs(during: seq<Arrival>, ghost claims: seq<Claim>)
      requires AnswersFrom(claims)
      modifies this`blobs
      ensures AnswersFrom(claims) && blobs == Indexed(old(blobs), during, claims)
    {
      for i := 0 to |during|
        invariant AnswersFrom(claims) && blobs == Indexed(old(blobs), during[..i], claims)
      {
        assert during[..i + 1][..i] == during[..i];
        IndexBlob(during[i], claims);
      }
      assert during[..|during|] == during;
    }

    /** Fetch, sync, then swap the in-memory mappings; `during` are the rows the indexer stores between the
        commit and the swap, or while the refresh fails. `memory` is what the service answers from until then. */
    method RefreshBlobList(
      chainId: int, addresses: Artifact, previous: seq<Claim>, fetched: bool, dbOk: bool, during: seq<Arrival>,
      ghost memory: seq<Claim>)
      returns (ok: bool, claims: seq<Claim>)
      requires Normalized(storedClaims) && multiset(previous) == multiset(storedClaims) && AnswersFrom(memory)
      modifies this
      ensures claims == if fetched then StableSort(AllClaims(chainId, addresses), ClaimSortLess) else []
      ensures ok <==> fetched && dbOk && UniqueKeys(claims)
      ensures !ok ==> storedClaims == old(storedClaims) && pending == old(pending) && blobUsers == old(blobUsers)
      ensures !ok ==> blobs == Indexed(old(blobs), during, memory) && AnswersFrom(memory)
      ensures ok ==> storedClaims == claims && Valid()
      ensures ok ==> blobs == Indexed(SyncedBlobs(old(blobs), previous, claims), during, memory)
      ensures ok ==> (Resolved() <==> RefreshAgrees(old(blobs), memory, previous, claims, during))
    {
      claims := [];
      if !fetched {
        IndexBlobs(during, memory);
        return false, claims;
      }
      claims := FetchedClaims(chainId, addresses);
      var applied, tip;
      ok, applied, tip := SyncBlobListClaims(previous, claims, dbOk);
      IndexBlobs(during, memory);
      if !ok {
        return;
      }
      SwapClaims(applied, claims, tip);
      RefreshResolvesIff(old(blobs), memory, previous, claims, during);
    }

    /** The swap uses the slice the sync has left in application order. */
    method SwapClaims(applied: seq<Claim>, ghost claims: seq<Claim>, tip: int)
      requires multiset(applied) == multiset(claims) && Normalized(claims)
      modifies this`claimsByAddr, this`knownUsers
      ensures AnswersFrom(claims)
    {
      SameMultisetSameElements(applied, claims);
      NormalizedIsLowered(applied);
      SetClaims(applied, tip);
      forall a, b | b >= 0 ensures Answer(a, b) == ResolvedName(claims, a, b) {
        ResolvedNameOrderIndependent(applied, claims, a, b);
      }
    }
  }

  lemma ResolvedUnderAnyOrder(rows: BlobTable, a: seq<Claim>, b: seq<Claim>)
    requires multiset(a) == multiset(b) && RowsResolved(rows, a)
    ensures RowsResolved(rows, b)
  {
    forall id | id in rows && rows[id].block >= 0
      ensures rows[id].attribution == ResolvedName(b, rows[id].Address(), rows[id].block)
    {
      ResolvedNameOrderIndependent(a, b, rows[id].Address(), rows[id].block);
    }
  }

  lemma RepaintedIsSyncedPending(
    rows: PendingTable, cleared: PendingTable, after: PendingTable, previous: seq<Claim>, claims: seq<Claim>,
    changed: set<string>, tip: int)
    requires forall a :: a in changed <==> IsChanged(previous, claims, a)
    requires cleared == ClearedPending(rows, changed)
    requires after == RenamedPending(cleared, Current(claims, tip), changed)
    ensures after == SyncedPending(rows, previous, claims, tip)
  {
    forall id | id in rows ensures after[id] == SyncedPending(rows, previous, claims, tip)[id] {
      assert cleared[id].Address() == rows[id].Address();
    }
  }

  /** Clearing the changed rows and painting the sorted claims over them is the whole-table function. */
  lemma RepaintedIsSynced(
    rows: BlobTable, cleared: BlobTable, after: BlobTable, previous: seq<Claim>, claims: seq<Claim>,
    changed: set<string>)
    requires forall a :: a in changed <==> IsChanged(previous, claims, a)
    requires rows.Keys == after.Keys
    requires cleared == Cleared(rows, changed)
    requires forall id :: id in rows ==> after[id] == Painted(cleared[id], StableSort(claims, ApplicationLess), changed)
    ensures after == SyncedBlobs(rows, previous, claims)
  {
    forall id | id in rows ensures after[id] == SyncedBlobs(rows, previous, claims)[id] {
      PaintedOneRow(rows[id], previous, claims, changed);
    }
  }

  lemma PaintedOneRow(row: BlobRow, previous: seq<Claim>, claims: seq<Claim>, changed: set<string>)
    requires row.Address() in changed <==> IsChanged(previous, claims, row.Address())
    ensures var cleared := if row.Address() in changed then row.(attribution := "") else row;
      Painted(cleared, StableSort(claims, ApplicationLess), changed) ==
        if IsChanged(previous, claims, row.Address())
        then row.(attribution := PaintedName(claims, row.Address(), row.block)) else row
  {
    if row.Address() in changed {
      assert row.(attribution := "").Address() == row.Address();
    }
  }

  lemma NothingCleared(rows: BlobTable, pending: PendingTable)
    ensures Cleared(rows, {}) == rows && ClearedPending(pending, {}) == pending
  {
  }

  function Cleared(rows: BlobTable, changed: set<string>): BlobTable {
    map id | id in rows :: if rows[id].Address() in changed then rows[id].(attribution := "") else rows[id]
  }

  function ClearedPending(rows: PendingTable, changed: set<string>): PendingTable {
    map id | id in rows :: if rows[id].Address() in changed then rows[id].(attribution := "") else rows[id]
  }

  function RenamedPending(rows: PendingTable, current: map<string, Claim>, changed: set<string>): PendingTable {
    map id | id in rows :: Renamed(rows[id], current, changed, current.Keys)
  }

  /** A pending row after the current claims of the addresses in `done` have been applied. */
  function Renamed(row: PendingRow, current: map<string, Claim>, changed: set<string>, done: set<string>): PendingRow
    requires done <= current.Keys
  {
    if row.Address() in changed && row.Address() in done
    then row.(attribution := current[row.Address()].name) else row
  }

  /** The rows an UPDATE for `c` selects. */
  predicate InRange(c: Claim, row: BlobRow) {
    row.Address() == c.address && row.block >= c.validFrom && row.block >= 0 &&
    (c.validTo.Some? ==> row.block <= c.validTo.value)
  }

  /** A row after the claims of `applied` have been applied to it in order. */
  function Painted(row: BlobRow, applied: seq<Claim>, changed: set<string>): BlobRow {
    var top := LastMatch(applied, c => Covers(c, row.Address(), row.block));
    if row.Address() in changed && row.block >= 0 && top.Some? then row.(attribution := top.value.name) else row
  }
}
