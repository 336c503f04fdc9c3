/**
 Crash recovery of schema migrations. A run marks the version dirty, executes the file,
 clears the mark; it can be killed between any two of these steps, and a file with its own
 transaction control can even be torn apart in the middle. The next run finds the dirty mark
 and decides whether forcing the version back and re-running is safe.
 */
module MigrationRecovery {
  import opened Common
  import Sql = SqlSplitter

  datatype Migration<!S> = Migration(version: nat, sql: string, effect: S -> S)

  /** The bundled up migrations in ascending version order. */
  type Bundle<!S> = seq<Migration<S>>

  ghost predicate Ordered<S>(bundle: Bundle<S>) {
    forall i, j :: 0 <= i < j < |bundle| ==> bundle[i].version < bundle[j].version
  }

  function ControlOf<S>(m: Migration<S>): Option<string> {
    Sql.FirstControl(Sql.Scan(m.sql, []))
  }

  /** The database: the schema the migrations shape, and the schema_migrations row (-1 for no row). */
  datatype Database<S> = Database(schema: S, version: int, dirty: bool)

  const NIL_VERSION: int := -1

  // ---------- specification ----------

  /** The schema after the first `k` migrations. */
  ghost function SchemaAfter<S>(bundle: Bundle<S>, start: S, k: nat): S
    requires k <= |bundle|
  {
    if k == 0 then start else bundle[k - 1].effect(SchemaAfter(bundle, start, k - 1))
  }

  ghost function VersionAfter<S>(bundle: Bundle<S>, k: nat): int
    requires k <= |bundle|
  {
    if k == 0 then NIL_VERSION else bundle[k - 1].version
  }

  ghost predicate Idempotent<S(!new)>(m: Migration<S>) {
    forall s :: m.effect(m.effect(s)) == m.effect(s)
  }

  /** Every file either carries transaction control or is safe to run twice (the authoring rules). */
  ghost predicate Authored<S(!new)>(bundle: Bundle<S>) {
    Ordered(bundle) && forall i :: 0 <= i < |bundle| && ControlOf(bundle[i]).None? ==> Idempotent(bundle[i])
  }

  /** `k` migrations are in, and possibly the next one is under way. */
  ghost predicate ReachedAt<S>(db: Database<S>, bundle: Bundle<S>, start: S, k: nat) {
    && k <= |bundle|
    && if !db.dirty then
         db.version == VersionAfter(bundle, k) && db.schema == SchemaAfter(bundle, start, k)
       else
         && k < |bundle|
         && db.version == bundle[k].version
         && (ControlOf(bundle[k]).None? ==>
               db.schema == SchemaAfter(bundle, start, k) || db.schema == SchemaAfter(bundle, start, k + 1))
  }

  ghost predicate Reached<S>(db: Database<S>, bundle: Bundle<S>, start: S) {
    exists k: nat :: ReachedAt(db, bundle, start, k)
  }

  ghost function Finished<S>(bundle: Bundle<S>, start: S): Database<S> {
    Database(SchemaAfter(bundle, start, |bundle|), VersionAfter(bundle, |bundle|), false)
  }

  // ---------- one run ----------

  /** Why recovery is refused, or the version to force back to. */
  datatype Plan = Refused | ForceTo(version: int)

  ghost function ForceTarget<S>(bundle: Bundle<S>, dirtyVersion: int): (r: int)
    ensures r >= NIL_VERSION
  {
    if bundle == [] then NIL_VERSION
    else
      var rest := ForceTarget(bundle[..|bundle| - 1], dirtyVersion);
      var v := bundle[|bundle| - 1].version;
      if v < dirtyVersion && v > rest then v else rest
  }

  ghost predicate Recoverable<S>(bundle: Bundle<S>, dirtyVersion: int) {
    dirtyVersion >= 1 &&
    exists i :: 0 <= i < |bundle| && bundle[i].version == dirtyVersion && ControlOf(bundle[i]).None?
  }

  /** `readable` says whether the migrations directory and the file can be read. */
  ghost function PlanOf<S>(bundle: Bundle<S>, dirtyVersion: int, readable: bool): Plan {
    if readable && Recoverable(bundle, dirtyVersion) then ForceTo(ForceTarget(bundle, dirtyVersion)) else Refused
  }

  /** What happens to one run: how many database actions the process survives, what a torn file leaves behind,
      whether the files can be read, whether the second look at the recorded row gets an answer, and the runs of
      other migrators that fit in between finding the schema dirty and looking again. */
  datatype Fate<S> = Fate(actions: nat, torn: S, readable: bool, looks: bool, others: seq<Fate<S>>)

  /** The library's Up from a clean version behind `k` migrations: mark, execute, clear, for each file. */
  ghost function UpFrom<S>(db: Database<S>, bundle: Bundle<S>, k: nat, fate: Fate<S>): (Database<S>, bool)
    requires k <= |bundle|
    decreases |bundle| - k
  {
    if k == |bundle| then (db, true)
    else if fate.actions == 0 then (db, false)
    else
      var marked := db.(version := bundle[k].version, dirty := true);
      if fate.actions == 1 then
        (if ControlOf(bundle[k]).Some? then marked.(schema := fate.torn) else marked, false)
      else
        var executed := marked.(schema := bundle[k].effect(marked.schema));
        if fate.actions == 2 then (executed, false)
        else UpFrom(executed.(dirty := false), bundle, k + 1, fate.(actions := fate.actions - 3))
  }

  /** How many migrations the recorded version stands for, if it stands for any number of them. */
  function Position<S>(bundle: Bundle<S>, version: int): (r: Option<nat>)
    ensures r.Some? ==> r.value <= |bundle| && VersionAfter(bundle, r.value) == version
    ensures r.None? ==> forall k: nat :: k <= |bundle| ==> VersionAfter(bundle, k) != version
  {
    if version == NIL_VERSION then Some(0)
    else if bundle == [] then None
    else if bundle[|bundle| - 1].version == version then Some(|bundle|)
    else
      assert forall k: nat :: k < |bundle| ==> VersionAfter(bundle[..|bundle| - 1], k) == VersionAfter(bundle, k);
      Position(bundle[..|bundle| - 1], version)
  }

  /** Up refuses a dirty schema and a recorded version it does not know. */
  ghost function Up<S>(db: Database<S>, bundle: Bundle<S>, fate: Fate<S>): (Database<S>, bool) {
    if db.dirty then (db, false)
    else
      match Position(bundle, db.version)
      case Some(k) => UpFrom(db, bundle, k, fate)
      case None => (db, false)
  }

  /** One run: up, and when the schema turned out dirty, recovery and up once more. */
  ghost function Run<S>(db: Database<S>, bundle: Bundle<S>, fate: Fate<S>): (Database<S>, bool)
    decreases fate, 0
  {
    if !db.dirty then Up(db, bundle, fate) else Recovered(Runs(db, bundle, fate.others), db.version, bundle, fate)
  }

  /** Forced back to before the first file, the table holds no row. */
  predicate NoRow<S>(db: Database<S>) {
    !db.dirty && db.version == NIL_VERSION
  }

  /** Recovery from a schema found dirty at `observed`, on the database as the second look finds it. A look that
      fails or finds no row ends the run. */
  ghost function Recovered<S>(db: Database<S>, observed: int, bundle: Bundle<S>, fate: Fate<S>): (Database<S>, bool) {
    if !fate.looks || NoRow(db) then (db, false)
    else if !db.dirty || db.version != observed then Up(db, bundle, fate)
    else
      match PlanOf(bundle, observed, fate.readable)
      case Refused => (db, false)
      case ForceTo(v) =>
        if fate.actions == 0 then (db, false)
        else Up(db.(version := v, dirty := false), bundle, fate.(actions := fate.actions - 1))
  }

  ghost function Runs<S>(db: Database<S>, bundle: Bundle<S>, fates: seq<Fate<S>>): Database<S>
    decreases fates, |fates|
  {
    if fates == [] then db else Run(Runs(db, bundle, fates[..|fates| - 1]), bundle, fates[|fates| - 1]).0
  }

  // ---------- every run keeps the database recoverable ----------

  lemma VersionAfterInjective<S>(bundle: Bundle<S>, j: nat, k: nat)
    requires Ordered(bundle) && j <= |bundle| && k <= |bundle|
    requires VersionAfter(bundle, j) == VersionAfter(bundle, k)
    ensures j == k
  {
  }

  lemma PositionOf<S>(bundle: Bundle<S>, k: nat)
    requires Ordered(bundle) && k <= |bundle|
    ensures Position(bundle, VersionAfter(bundle, k)) == Some(k)
  {
    var p := Position(bundle, VersionAfter(bundle, k));
    VersionAfterInjective(bundle, p.value, k);
  }

  /** Forcing back from a dirty file lands exactly on the version before it. */
  lemma {:induction false} ForceTargetIsPrevious<S>(bundle: Bundle<S>, k: nat)
    requires Ordered(bundle) && k < |bundle|
    ensures ForceTarget(bundle, bundle[k].version) == VersionAfter(bundle, k)
    ensures ForceTarget(bundle, bundle[k].version) == if k == 0 then -1 else bundle[k - 1].version
  {
    var last := |bundle| - 1;
    var init := bundle[..last];
    if k < last {
      ForceTargetIsPrevious(init, k);
      assert VersionAfter(init, k) == VersionAfter(bundle, k);
    } else {
      ForceTargetOfAll(init, bundle[last].version);
    }
  }

  /** A file, whatever its text, counts as carrying transaction control exactly when one of the statements it is made
      of opens with it. */
  lemma ControlIs<S>(m: Migration<S>) returns (script: seq<Sql.Statement>)
    ensures Sql.ScriptWellFormed(script) && Sql.ScriptText(script) == m.sql
    ensures ControlOf(m).Some? <==> exists i :: 0 <= i < |script| && Sql.IsControl(script[i])
  {
    script := Sql.EveryFileIsDecided(m.sql, "");
  }

  /** What a plan comes down to: force back to just before the file when it has a version of at least one and carries
      no transaction control, refuse otherwise. Files that cannot be read are refused. */
  lemma PlanIs<S>(bundle: Bundle<S>, k: nat, readable: bool)
    requires Ordered(bundle) && k < |bundle|
    ensures PlanOf(bundle, bundle[k].version, readable) ==
      if readable && bundle[k].version >= 1 && ControlOf(bundle[k]).None?
      then ForceTo(if k == 0 then -1 else bundle[k - 1].version)
      else Refused
  {
    ForceTargetIsPrevious(bundle, k);
    forall i | 0 <= i < |bundle| && bundle[i].version == bundle[k].version ensures i == k {
    }
  }

  /** So is a version that no file has. */
  lemma UnknownIsRefused<S>(bundle: Bundle<S>, version: int, readable: bool)
    requires forall i :: 0 <= i < |bundle| ==> bundle[i].version != version
    ensures PlanOf(bundle, version, readable) == Refused
  {
  }

  lemma {:induction false} ForceTargetOfAll<S>(bundle: Bundle<S>, dirtyVersion: int)
    requires Ordered(bundle) && forall i :: 0 <= i < |bundle| ==> bundle[i].version < dirtyVersion
    ensures ForceTarget(bundle, dirtyVersion) == VersionAfter(bundle, |bundle|)
  {
    if bundle != [] {
      var init := bundle[..|bundle| - 1];
      ForceTargetOfAll(init, dirtyVersion);
      assert init != [] ==> init[|init| - 1].version < bundle[|bundle| - 1].version;
    }
  }

  /** Going up from `k` migrations, where the next file may already have been executed once. */
  lemma {:induction false} UpFromReaches<S(!new)>(db: Database<S>, bundle: Bundle<S>, start: S, k: nat, fate: Fate<S>)
    requires Authored(bundle) && k <= |bundle| && !db.dirty && db.version == VersionAfter(bundle, k)
    requires
      || db.schema == SchemaAfter(bundle, start, k)
      || (k < |bundle| && ControlOf(bundle[k]).None? && db.schema == SchemaAfter(bundle, start, k + 1))
    ensures var (db', ok) := UpFrom(db, bundle, k, fate);
      && (db' == db || Reached(db', bundle, start))
      && (ok ==> db' == Finished(bundle, start))
    decreases |bundle| - k
  {
    if k < |bundle| && fate.actions > 0 {
      var marked := db.(version := bundle[k].version, dirty := true);
      var executed := marked.(schema := bundle[k].effect(marked.schema));
      assert executed.schema == SchemaAfter(bundle, start, k + 1) by {
        if db.schema != SchemaAfter(bundle, start, k) {
          var s := SchemaAfter(bundle, start, k);
          assert bundle[k].effect(bundle[k].effect(s)) == bundle[k].effect(s);
        }
      }
      assert ReachedAt(UpFrom(db, bundle, k, fate.(actions := 1)).0, bundle, start, k);
      assert ReachedAt(executed, bundle, start, k);
      if fate.actions > 2 {
        var cleared := executed.(dirty := false);
        assert ReachedAt(cleared, bundle, start, k + 1);
        UpFromReaches(cleared, bundle, start, k + 1, fate.(actions := fate.actions - 3));
      }
    }
  }

  /** A dirty file with transaction control blocks every run, however many migrators try: nothing is forced,
      nothing changes. */
  lemma {:induction false} ControlIsNeverForced<S>(db: Database<S>, bundle: Bundle<S>, k: nat, fate: Fate<S>)
    requires Ordered(bundle) && k < |bundle| && db.dirty && db.version == bundle[k].version
    requires ControlOf(bundle[k]).Some?
    ensures Run(db, bundle, fate) == (db, false)
    decreases fate, 0
  {
    ControlBlocksAll(db, bundle, k, fate.others);
    assert forall i :: 0 <= i < |bundle| && bundle[i].version == db.version ==> i == k;
  }

  lemma {:induction false} ControlBlocksAll<S>(db: Database<S>, bundle: Bundle<S>, k: nat, fates: seq<Fate<S>>)
    requires Ordered(bundle) && k < |bundle| && db.dirty && db.version == bundle[k].version
    requires ControlOf(bundle[k]).Some?
    ensures Runs(db, bundle, fates) == db
    decreases fates, |fates|
  {
    if fates != [] {
      ControlBlocksAll(db, bundle, k, fates[..|fates| - 1]);
      ControlIsNeverForced(db, bundle, k, fates[|fates| - 1]);
    }
  }

  /** Forced back but not yet re-run: the recorded version is the previous one while the schema may be ahead. */
  ghost predicate ForcedAt<S>(db: Database<S>, bundle: Bundle<S>, start: S, k: nat) {
    && k < |bundle| && !db.dirty && db.version == VersionAfter(bundle, k)
    && ControlOf(bundle[k]).None? && db.schema == SchemaAfter(bundle, start, k + 1)
  }

  /** What holds between runs, however they ended. */
  ghost predicate Sound<S>(db: Database<S>, bundle: Bundle<S>, start: S) {
    Reached(db, bundle, start) || exists k: nat :: ForcedAt(db, bundle, start, k)
  }

  /** Recovery keeps the database sound, whatever it finds at the second look. */
  lemma RecoveryKeepsSound<S(!new)>(db: Database<S>, observed: int, bundle: Bundle<S>, start: S, fate: Fate<S>)
    requires Authored(bundle) && Sound(db, bundle, start)
    ensures var (db', ok) := Recovered(db, observed, bundle, fate);
      && Sound(db', bundle, start)
      && (ok ==> db' == Finished(bundle, start))
  {
    if !fate.looks || NoRow(db) {
    } else if !db.dirty {
      UpKeepsSound(db, bundle, start, fate);
    } else if db.version == observed {
      var k: nat :| ReachedAt(db, bundle, start, k);
      if PlanOf(bundle, observed, fate.readable).ForceTo? && fate.actions > 0 {
        var i :| 0 <= i < |bundle| && bundle[i].version == observed && ControlOf(bundle[i]).None?;
        assert i == k;
        ForceTargetIsPrevious(bundle, k);
        var forced := db.(version := VersionAfter(bundle, k), dirty := false);
        assert ReachedAt(forced, bundle, start, k) || ForcedAt(forced, bundle, start, k);
        UpKeepsSound(forced, bundle, start, fate.(actions := fate.actions - 1));
      }
    }
  }

  lemma UpKeepsSound<S(!new)>(db: Database<S>, bundle: Bundle<S>, start: S, fate: Fate<S>)
    requires Authored(bundle) && Sound(db, bundle, start) && !db.dirty
    ensures var (db', ok) := Up(db, bundle, fate);
      && Sound(db', bundle, start)
      && (ok ==> db' == Finished(bundle, start))
  {
    if Reached(db, bundle, start) {
      var k: nat :| ReachedAt(db, bundle, start, k);
      PositionOf(bundle, k);
      UpFromReaches(db, bundle, start, k, fate);
    } else {
      var k: nat :| ForcedAt(db, bundle, start, k);
      PositionOf(bundle, k);
      UpFromReaches(db, bundle, start, k, fate);
    }
  }

  /** One run, killed anywhere or not, with other migrators in between or not, keeps the database sound; if it
      succeeds, everything is in place. */
  lemma {:induction false} RunKeepsSound<S(!new)>(db: Database<S>, bundle: Bundle<S>, start: S, fate: Fate<S>)
    requires Authored(bundle) && Sound(db, bundle, start)
    ensures var (db', ok) := Run(db, bundle, fate);
      && Sound(db', bundle, start)
      && (ok ==> db' == Finished(bundle, start))
    decreases fate, 0
  {
    if !db.dirty {
      UpKeepsSound(db, bundle, start, fate);
    } else {
      RunsKeepSound(db, bundle, start, fate.others);
      RecoveryKeepsSound(Runs(db, bundle, fate.others), db.version, bundle, start, fate);
    }
  }

  lemma {:induction false} RunsKeepSound<S(!new)>(db: Database<S>, bundle: Bundle<S>, start: S, fates: seq<Fate<S>>)
    requires Authored(bundle) && Sound(db, bundle, start)
    ensures Sound(Runs(db, bundle, fates), bundle, start)
    decreases fates, |fates|
  {
    if fates != [] {
      RunsKeepSound(db, bundle, start, fates[..|fates| - 1]);
      RunKeepsSound(Runs(db, bundle, fates[..|fates| - 1]), bundle, start, fates[|fates| - 1]);
    }
  }

  /** Enough actions for every file and a force. */
  lemma {:induction false} UpFromCompletes<S>(db: Database<S>, bundle: Bundle<S>, k: nat, fate: Fate<S>)
    requires k <= |bundle| && fate.actions >= 3 * (|bundle| - k)
    ensures UpFrom(db, bundle, k, fate).1
    decreases |bundle| - k
  {
    if k < |bundle| {
      var executed := Database(bundle[k].effect(db.schema), bundle[k].version, false);
      UpFromCompletes(executed, bundle, k + 1, fate.(actions := fate.actions - 3));
    }
  }

  lemma UpCompletes<S>(db: Database<S>, bundle: Bundle<S>, k: nat, fate: Fate<S>)
    requires Ordered(bundle) && k <= |bundle| && !db.dirty && db.version == VersionAfter(bundle, k)
    requires fate.actions >= 3 * |bundle|
    ensures Up(db, bundle, fate).1
  {
    PositionOf(bundle, k);
    UpFromCompletes(db, bundle, k, fate);
  }

  /** MAIN RESULT. After any sequence of runs from a clean start, each killed anywhere, a run that succeeds
      leaves exactly the database of one uninterrupted run. */
  lemma SuccessIsUninterrupted<S(!new)>(bundle: Bundle<S>, start: S, fates: seq<Fate<S>>, fate: Fate<S>, whole: Fate<S>)
    requires Authored(bundle) && whole.actions >= 3 * |bundle|
    ensures var fresh0 := Database(start, NIL_VERSION, false);
      var (db, ok) := Run(Runs(fresh0, bundle, fates), bundle, fate);
      ok ==> db == Finished(bundle, start) && Run(fresh0, bundle, whole) == (db, true)
  {
    var fresh0 := Database(start, NIL_VERSION, false);
    assert ReachedAt(fresh0, bundle, start, 0);
    RunsKeepSound(fresh0, bundle, start, fates);
    RunKeepsSound(Runs(fresh0, bundle, fates), bundle, start, fate);
    RunKeepsSound(fresh0, bundle, start, whole);
    PositionOf(bundle, 0);
    UpFromCompletes(fresh0, bundle, 0, whole);
  }

  /** The second look fails, finds no row, or finds a dirty version that recovery does not clear. */
  ghost predicate Stuck<S>(db: Database<S>, observed: int, bundle: Bundle<S>, fate: Fate<S>) {
    || !fate.looks
    || (!db.dirty && db.version == -1)
    || (db.dirty && (db.version != observed || PlanOf(bundle, observed, fate.readable).Refused?))
  }

  /** A run that is not killed gets through exactly when it is not stuck: it fails if and only if it found the
      schema dirty and, after whatever other migrators did meanwhile, its second look fails, finds no row, or
      finds the schema dirty at another version or at one that is refused. */
  lemma UnkilledRunSucceedsIff<S(!new)>(db: Database<S>, bundle: Bundle<S>, start: S, fate: Fate<S>)
    requires Authored(bundle) && Sound(db, bundle, start) && fate.actions >= 3 * |bundle| + 1
    ensures Run(db, bundle, fate).1 <==>
      !(db.dirty && Stuck(Runs(db, bundle, fate.others), db.version, bundle, fate))
  {
    if !db.dirty {
      UpSucceeds(db, bundle, start, fate);
    } else {
      RunsKeepSound(db, bundle, start, fate.others);
      RecoverySucceedsIff(Runs(db, bundle, fate.others), db.version, bundle, start, fate);
    }
  }

  lemma RecoverySucceedsIff<S(!new)>(db: Database<S>, observed: int, bundle: Bundle<S>, start: S, fate: Fate<S>)
    requires Authored(bundle) && Sound(db, bundle, start) && fate.actions >= 3 * |bundle| + 1
    ensures Recovered(db, observed, bundle, fate).1 <==> !Stuck(db, observed, bundle, fate)
  {
    if !fate.looks || NoRow(db) {
    } else if !db.dirty {
      UpSucceeds(db, bundle, start, fate);
    } else if db.version == observed && PlanOf(bundle, observed, fate.readable).ForceTo? {
      ForcedUpSucceeds(db, bundle, start, fate.(actions := fate.actions - 1));
    }
  }

  lemma ForcedUpSucceeds<S(!new)>(db: Database<S>, bundle: Bundle<S>, start: S, fate: Fate<S>)
    requires Authored(bundle) && Sound(db, bundle, start) && db.dirty && fate.actions >= 3 * |bundle|
    ensures Up(db.(version := ForceTarget(bundle, db.version), dirty := false), bundle, fate).1
  {
    var k: nat :| ReachedAt(db, bundle, start, k);
    ForceTargetIsPrevious(bundle, k);
    UpCompletes(db.(version := VersionAfter(bundle, k), dirty := false), bundle, k, fate);
  }

  /** The first file is dirty; another migrator forces back to before it and is killed before it marks the file
      again. The second look finds no row, and a run that nothing disturbs any further fails, although the next
      one would go through. */
  lemma NoRowAtSecondLook<S(!new)>(m: Migration<S>, start: S, torn: S)
    requires m.version >= 1 && ControlOf(m).None? && Idempotent(m)
    ensures var bundle, db := [m], Database(start, m.version, true);
      var fate := Fate(10, torn, true, true, [Fate(1, torn, true, true, [])]);
      && Authored(bundle) && Sound(db, bundle, start)
      && Run(db, bundle, fate) == (Database(start, NIL_VERSION, false), false)
      && Run(Run(db, bundle, fate).0, bundle, fate).1
  {
    var bundle, db := [m], Database(start, m.version, true);
    var killed := Fate(1, torn, true, true, []);
    var fate := Fate(10, torn, true, true, [killed]);
    var forced := Database(start, NIL_VERSION, false);
    assert ReachedAt(db, bundle, start, 0) && ReachedAt(forced, bundle, start, 0);
    assert bundle[0] == m;
    ForceTargetIsPrevious(bundle, 0);
    PositionOf(bundle, 0);
    assert Runs(db, bundle, []) == db;
    assert PlanOf(bundle, m.version, true) == ForceTo(NIL_VERSION);
    assert Run(db, bundle, killed) == (forced, false);
    assert fate.others[..0] == [];
    assert Runs(db, bundle, fate.others) == forced;
    UpSucceeds(forced, bundle, start, fate);
  }

  /** A file with transaction control that is torn apart by a killed process stays exactly as it was torn, marked
      dirty, through every later run, for somebody to look at. */
  lemma TornFileStays<S(!new)>(m: Migration<S>, start: S, fate: Fate<S>, later: seq<Fate<S>>)
    requires m.version >= 1 && ControlOf(m).Some? && fate.actions == 1
    ensures var torn := Database(fate.torn, m.version, true);
      && Run(Database(start, NIL_VERSION, false), [m], fate) == (torn, false)
      && Runs(torn, [m], later) == torn
      && forall next :: Run(torn, [m], next) == (torn, false)
  {
    var bundle := [m];
    var torn := Database(fate.torn, m.version, true);
    PositionOf(bundle, 0);
    assert bundle[0] == m;
    ControlBlocksAll(torn, bundle, 0, later);
    forall next ensures Run(torn, bundle, next) == (torn, false) {
      ControlIsNeverForced(torn, bundle, 0, next);
    }
  }

  /** A recorded version that no file has makes a run fail and is left alone. */
  lemma UnknownVersionFails<S>(db: Database<S>, bundle: Bundle<S>, fate: Fate<S>)
    requires !db.dirty && db.version != -1 && forall i :: 0 <= i < |bundle| ==> bundle[i].version != db.version
    ensures Run(db, bundle, fate) == (db, false)
  {
    forall k: nat | k <= |bundle| ensures VersionAfter(bundle, k) != db.version {
    }
    assert Position(bundle, db.version).None?;
  }

  lemma UpSucceeds<S(!new)>(db: Database<S>, bundle: Bundle<S>, start: S, fate: Fate<S>)
    requires Authored(bundle) && Sound(db, bundle, start) && !db.dirty && fate.actions >= 3 * |bundle|
    ensures Up(db, bundle, fate).1
  {
    if Reached(db, bundle, start) {
      var k: nat :| ReachedAt(db, bundle, start, k);
      UpCompletes(db, bundle, k, fate);
    } else {
      var k: nat :| ForcedAt(db, bundle, start, k);
      UpCompletes(db, bundle, k, fate);
    }
  }

  // ---------- the imperative form ----------

  class Migrator<S> {
    var schema: S
    var version: int
    var dirty: bool

    constructor (start: S)
      ensures View() == Database(start, NIL_VERSION, false)
    {
      schema, version, dirty := start, NIL_VERSION, false;
    }

    ghost function View(): Database<S>
      reads this
    {
      Database(schema, version, dirty)
    }

    /** Force sets the recorded version and clears the dirty flag. */
    method Force(target: int)
      modifies this`version, this`dirty
      ensures View() == old(View()).(version := target, dirty := false)
    {
      version, dirty := target, false;
    }

    method RunUp(bundle: Bundle<S>, fate: Fate<S>) returns (ok: bool)
      modifies this
      ensures (View(), ok) == Up(old(View()), bundle, fate)
    {
      if dirty {
        return false;
      }
      var position := Position(bundle, version);
      if position.None? {
        return false;
      }
      var actions := fate.actions;
      for k := position.value to |bundle|
        invariant UpFrom(View(), bundle, k, fate.(actions := actions)) == Up(old(View()), bundle, fate)
      {
        if actions == 0 {
          return false;
        }
        version, dirty := bundle[k].version, true;
        if actions == 1 {
          if ControlOf(bundle[k]).Some? {
            schema := fate.torn;
          }
          return false;
        }
        schema := bundle[k].effect(schema);
        if actions == 2 {
          return false;
        }
        dirty := false;
        actions := actions - 3;
      }
      return true;
    }

    /** Decides whether the dirty version can be forced back, and to what. */
    method PlanDirtyRecovery(bundle: Bundle<S>, dirtyVersion: int, readable: bool) returns (plan: Plan)
      requires Ordered(bundle)
      ensures plan == PlanOf(bundle, dirtyVersion, readable)
    {
      if dirtyVersion < 1 || !readable {
        return Refused;
      }
      var found: Option<nat> := None;
      for i := 0 to |bundle|
        invariant found.None? ==> forall j :: 0 <= j < i ==> bundle[j].version != dirtyVersion
        invariant found.Some? ==> found.value < i && bundle[found.value].version == dirtyVersion
      {
        if bundle[i].version == dirtyVersion {
          found := Some(i);
        }
      }
      if found.None? {
        return Refused;
      }
      var control := Sql.FirstTransactionControlStatement(bundle[found.value].sql);
      if control.Some? {
        return Refused;
      }
      var target := NIL_VERSION;
      for i := 0 to |bundle|
        invariant target == ForceTarget(bundle[..i], dirtyVersion)
      {
        assert bundle[..i + 1][..i] == bundle[..i];
        if bundle[i].version < dirtyVersion && bundle[i].version > target {
          target := bundle[i].version;
        }
      }
      assert bundle[..|bundle|] == bundle;
      return ForceTo(target);
    }

    /** The row is read again before anything is forced: another migrator may have recovered or finished. */
    method RecoverDirtySchema(bundle: Bundle<S>, observed: int, fate: Fate<S>) returns (ok: bool)
      requires Ordered(bundle)
      modifies this
      ensures (View(), ok) == Recovered(old(View()), observed, bundle, fate)
    {
      if !fate.looks || (!dirty && version == NIL_VERSION) {
        return false;
      }
      if !dirty || version != observed {
        ok := RunUp(bundle, fate);
        return;
      }
      var plan := PlanDirtyRecovery(bundle, observed, fate.readable);
      match plan {
        case Refused => return false;
        case ForceTo(target) =>
          if fate.actions == 0 {
            return false;
          }
          Force(target);
          ok := RunUp(bundle, fate.(actions := fate.actions - 1));
      }
    }

    /** RunMigrations: go up; on a dirty schema try to recover, then go up once more. */
    method RunMigrations(bundle: Bundle<S>, fate: Fate<S>) returns (ok: bool)
      requires Ordered(bundle)
      modifies this
      ensures (View(), ok) == Run(old(View()), bundle, fate)
      decreases fate, 0
    {
      if !dirty {
        ok := RunUp(bundle, fate);
        return;
      }
      var observed := version;
      RunOthers(bundle, fate.others);
      ok := RecoverDirtySchema(bundle, observed, fate);
    }

    method RunOthers(bundle: Bundle<S>, fates: seq<Fate<S>>)
      requires Ordered(bundle)
      modifies this
      ensures View() == Runs(old(View()), bundle, fates)
      decreases fates, 0
    {
      for i := 0 to |fates|
        invariant View() == Runs(old(View()), bundle, fates[..i])
      {
        assert fates[..i + 1][..i] == fates[..i];
        var ok := RunMigrations(bundle, fates[i]);
      }
      assert fates[..|fates|] == fates;
    }
  }
}
