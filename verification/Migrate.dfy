/**
 The migration runner of the database (apps/dotcom/zero-cache/migrate.ts): one transaction that applies
 every migration of the directory that has not been applied yet.
 */
module Migrate {
  import opened Prelude

  datatype Migration = Migration(filename: string, sql: string)

  datatype SummaryLine = AlreadyApplied(filename: string) | AppliedNow(filename: string) | FailedNow(filename: string)

  /** Running a script on a database fails or gives a new database. */
  type Engine<!D> = (string, D) -> Option<D>

  datatype Database<D> = Database(data: D, applied: seq<string>)

  predicate HasTransactionBlock(sql: string) {
    Contains(sql, "BEGIN;") || Contains(sql, "COMMIT;")
  }

  /** One migration of the directory, inside the transaction; None aborts it. */
  function Step<D>(db: Database<D>, m: Migration, already: seq<string>, engine: Engine<D>): Option<Database<D>> {
    if m.filename in already then Some(db)
    else if HasTransactionBlock(m.sql) then None
    else
      match engine(m.sql, db.data)
      case None => None
      case Some(data) => if m.filename in db.applied then None else Some(Database(data, db.applied + [m.filename]))
  }

  function Steps<D>(db: Database<D>, ms: seq<Migration>, already: seq<string>, engine: Engine<D>): Option<Database<D>> {
    if ms == [] then Some(db)
    else
      match Steps(db, ms[..|ms| - 1], already, engine)
      case None => None
      case Some(db') => Step(db', ms[|ms| - 1], already, engine)
  }

  function Filenames(ms: seq<Migration>): seq<string> {
    seq(|ms|, i requires 0 <= i < |ms| => ms[i].filename)
  }

  predicate Known(ms: seq<Migration>, applied: seq<string>) {
    forall f | f in applied :: f in Filenames(ms)
  }

  /** The database a successful, wet run commits; None when the run is rolled back. */
  function Committed<D>(db: Database<D>, ms: seq<Migration>, engine: Engine<D>): Option<Database<D>> {
    if ms == [] || !Known(ms, db.applied) then None else Steps(db, ms, db.applied, engine)
  }

  /** The lines about migrations that went through. */
  function Told(ms: seq<Migration>, already: seq<string>): seq<SummaryLine> {
    seq(|ms|, i requires 0 <= i < |ms| =>
      if ms[i].filename in already then AlreadyApplied(ms[i].filename) else AppliedNow(ms[i].filename))
  }

  /** The migration at k is the first one that fails. */
  ghost predicate FailsAt<D(!new)>(db: Database<D>, ms: seq<Migration>, k: int, engine: Engine<D>) {
    && 0 <= k < |ms|
    && Steps(db, ms[..k], db.applied, engine).Some?
    && Steps(db, ms[..k + 1], db.applied, engine).None?
  }

  datatype Outcome = Success | Failure | DryRunRollback

  class Migrator<D(!new)> {
    const engine: Engine<D>
    var db: Database<D>

    constructor (engine: Engine<D>, db: Database<D>)
      ensures this.engine == engine && this.db == db
    {
      this.engine, this.db := engine, db;
    }

    method Migrate(migrations: seq<Migration>, dryRun: bool) returns (outcome: Outcome, summary: seq<SummaryLine>)
      modifies this
      ensures outcome == (if Committed(old(db), migrations, engine).None? then Failure
                          else if dryRun then DryRunRollback else Success)
      ensures db == if outcome == Success then Committed(old(db), migrations, engine).value else old(db)
      ensures outcome != Failure ==> summary == Told(migrations, old(db).applied)
      ensures outcome == Failure && (migrations == [] || !Known(migrations, old(db).applied)) ==> summary == []
      ensures outcome == Failure && migrations != [] && Known(migrations, old(db).applied) ==>
                exists k :: FailsAt(old(db), migrations, k, engine)
                            && summary == Told(migrations[..k], old(db).applied) + [FailedNow(migrations[k].filename)]
    {
      summary := [];
      var tx := db;
      var appliedMigrations := db.applied;
      if migrations == [] {
        return Failure, summary;
      }
      for i := 0 to |appliedMigrations|
        invariant forall j | 0 <= j < i :: appliedMigrations[j] in Filenames(migrations)
      {
        if appliedMigrations[i] !in Filenames(migrations) {
          return Failure, summary;
        }
      }
      for i := 0 to |migrations|
        invariant Steps(db, migrations[..i], appliedMigrations, engine) == Some(tx)
        invariant summary == Told(migrations[..i], appliedMigrations)
      {
        var migration := migrations[i];
        assert migrations[..i + 1][..i] == migrations[..i];
        if migration.filename in appliedMigrations {
          summary := summary + [AlreadyApplied(migration.filename)];
          continue;
        }
        var next := Step(tx, migration, appliedMigrations, engine);
        if next.None? {
          summary := summary + [FailedNow(migration.filename)];
          FailsInTheEnd(db, migrations, i + 1, appliedMigrations, engine);
          assert FailsAt(db, migrations, i, engine);
          return Failure, summary;
        }
        tx := next.value;
        summary := summary + [AppliedNow(migration.filename)];
      }
      assert migrations[..|migrations|] == migrations;
      if dryRun {
        return DryRunRollback, summary;
      }
      db := tx;
      outcome := Success;
    }
  }

  lemma {:induction false} FailsInTheEnd<D>(db: Database<D>, ms: seq<Migration>, i: nat, already: seq<string>,
                                            engine: Engine<D>)
    requires i <= |ms| && Steps(db, ms[..i], already, engine).None?
    ensures Steps(db, ms, already, engine).None?
  {
    if i == |ms| {
      assert ms[..i] == ms;
    } else {
      assert ms[..|ms| - 1][..i] == ms[..i];
      FailsInTheEnd(db, ms[..|ms| - 1], i, already, engine);
    }
  }

  // ---------------------------------------------------------------- histories of runs

  /** A run sees the directory as it is then; scripts and their number may change between runs. */
  datatype Run = Run(migrations: seq<Migration>, dryRun: bool)

  function After<D>(db: Database<D>, run: Run, engine: Engine<D>): Database<D> {
    var committed := Committed(db, run.migrations, engine);
    if run.dryRun || committed.None? then db else committed.value
  }

  function AfterAll<D>(db: Database<D>, runs: seq<Run>, engine: Engine<D>): Database<D> {
    if runs == [] then db else After(AfterAll(db, runs[..|runs| - 1], engine), runs[|runs| - 1], engine)
  }

  /** The data obtained by running scripts one after the other. */
  function Replay<D>(data: D, log: seq<Migration>, engine: Engine<D>): Option<D> {
    if log == [] then Some(data)
    else
      match Replay(data, log[..|log| - 1], engine)
      case None => None
      case Some(d) => engine(log[|log| - 1].sql, d)
  }

  predicate NoDuplicates(names: seq<string>) {
    forall i, j | 0 <= i < j < |names| :: names[i] != names[j]
  }

  /** The database is the replay of a log of scripts whose names, each once, are the applied ones. */
  ghost predicate IsReplay<D>(initial: D, db: Database<D>, log: seq<Migration>, engine: Engine<D>) {
    Filenames(log) == db.applied && NoDuplicates(db.applied) && Replay(initial, log, engine) == Some(db.data)
  }

  lemma FilenamesConcat(a: seq<Migration>, m: Migration)
    ensures Filenames(a + [m]) == Filenames(a) + [m.filename]
  {
  }

  lemma {:induction false} StepsExtendLog<D>(initial: D, db: Database<D>, ms: seq<Migration>, log: seq<Migration>,
                                              engine: Engine<D>)
    returns (longer: seq<Migration>)
    requires IsReplay(initial, db, log, engine) && Steps(db, ms, db.applied, engine).Some?
    ensures IsReplay(initial, Steps(db, ms, db.applied, engine).value, longer, engine)
    ensures log <= longer && forall f :: f in Filenames(longer) <==> f in Filenames(log) || f in Filenames(ms)
  {
    if ms == [] {
      longer := log;
    } else {
      var n := |ms| - 1;
      var m := ms[n];
      longer := StepsExtendLog(initial, db, ms[..n], log, engine);
      FilenamesConcat(ms[..n], m);
      assert ms == ms[..n] + [m];
      if m.filename !in db.applied {
        FilenamesConcat(longer, m);
        longer := longer + [m];
      }
    }
  }

  /**
   Over every history of runs: each migration is applied at most once, and the data is the replay of the
   log of applied scripts; a failed or dry run changes nothing; after a successful run the applied
   migrations are exactly those of the directory.
   */
  lemma {:induction false} HistoryIsReplay<D>(initial: D, runs: seq<Run>, engine: Engine<D>)
    returns (log: seq<Migration>)
    ensures IsReplay(initial, AfterAll(Database(initial, []), runs, engine), log, engine)
    ensures runs != [] ==>
              var before := AfterAll(Database(initial, []), runs[..|runs| - 1], engine);
              var after, last := AfterAll(Database(initial, []), runs, engine), runs[|runs| - 1];
              && before.applied <= after.applied
              && (last.dryRun || Committed(before, last.migrations, engine).None? ==> after == before)
              && (!last.dryRun && Committed(before, last.migrations, engine).Some? ==>
                    forall f :: f in after.applied <==> f in Filenames(last.migrations))
  {
    if runs == [] {
      log := [];
    } else {
      var n := |runs| - 1;
      log := HistoryIsReplay(initial, runs[..n], engine);
      var db, run := AfterAll(Database(initial, []), runs[..n], engine), runs[n];
      if !run.dryRun && Committed(db, run.migrations, engine).Some? {
        var short := log;
        log := StepsExtendLog(initial, db, run.migrations, log, engine);
        assert Filenames(short) <= Filenames(log);
      }
    }
  }

  // ---------------------------------------------------------------- when a run succeeds

  /** The migrations that have not been applied, in order. */
  function New(ms: seq<Migration>, applied: seq<string>): seq<Migration> {
    if ms == [] then []
    else New(ms[..|ms| - 1], applied) + if ms[|ms| - 1].filename in applied then [] else [ms[|ms| - 1]]
  }

  /** Somewhere in the script stands a statement that begins or commits a transaction. */
  predicate InterferesWithTransaction(sql: string) {
    exists p | 0 <= p < |sql| :: "BEGIN;" <= sql[p..] || "COMMIT;" <= sql[p..]
  }

  lemma TransactionBlockIs(sql: string)
    ensures HasTransactionBlock(sql) <==> InterferesWithTransaction(sql)
  {
    forall p: nat, n: string | p + |n| <= |sql| ensures OccursAt(sql, n, p) <==> n <= sql[p..] {
      assert sql[p..p + |n|] == sql[p..][..|n|];
    }
    if p: nat :| p <= |sql| && (OccursAt(sql, "BEGIN;", p) || OccursAt(sql, "COMMIT;", p)) {
      assert "BEGIN;" <= sql[p..] || "COMMIT;" <= sql[p..];
    }
    if p: nat :| p < |sql| && ("BEGIN;" <= sql[p..] || "COMMIT;" <= sql[p..]) {
      assert OccursAt(sql, "BEGIN;", p) || OccursAt(sql, "COMMIT;", p);
    }
  }

  /** Each new migration is applied on its own, runs where its predecessors left the data, and is new by its name. */
  ghost predicate CanBeApplied<D>(data: D, todo: seq<Migration>, engine: Engine<D>) {
    && (forall m | m in todo :: !InterferesWithTransaction(m.sql))
    && NoDuplicates(Filenames(todo))
    && Replay(data, todo, engine).Some?
  }

  lemma {:induction false} NewIsNew(ms: seq<Migration>, applied: seq<string>)
    ensures forall m :: m in New(ms, applied) <==> m in ms && m.filename !in applied
  {
    if ms != [] {
      NewIsNew(ms[..|ms| - 1], applied);
      assert ms == ms[..|ms| - 1] + [ms[|ms| - 1]];
    }
  }

  lemma CanBeAppliedNext<D>(data: D, todo: seq<Migration>, m: Migration, engine: Engine<D>)
    ensures CanBeApplied(data, todo + [m], engine)
            <==> CanBeApplied(data, todo, engine) && !InterferesWithTransaction(m.sql)
                 && m.filename !in Filenames(todo) && engine(m.sql, Replay(data, todo, engine).value).Some?
    ensures CanBeApplied(data, todo, engine) ==>
              Replay(data, todo + [m], engine) == engine(m.sql, Replay(data, todo, engine).value)
  {
    hide InterferesWithTransaction;
    var longer := todo + [m];
    assert longer[..|todo|] == todo;
    FilenamesConcat(todo, m);
    assert forall n :: n in longer <==> n in todo || n == m;
    var names := Filenames(todo);
    assert NoDuplicates(names + [m.filename]) <==> NoDuplicates(names) && m.filename !in names by {
      LastIsNew(names, m.filename);
    }
  }

  lemma LastIsNew(names: seq<string>, name: string)
    ensures NoDuplicates(names + [name]) <==> NoDuplicates(names) && name !in names
  {
    var longer := names + [name];
    assert forall i | 0 <= i < |names| :: longer[i] == names[i];
    if name in names {
      var i :| 0 <= i < |names| && names[i] == name;
      assert longer[i] == longer[|names|];
    }
  }

  lemma NothingToApply<D>(data: D, engine: Engine<D>)
    ensures CanBeApplied(data, [], engine) && Replay(data, [], engine) == Some(data) && Filenames([]) == []
  {
  }

  /** A new migration after the ones that could be applied. */
  lemma StepIs<D>(db: Database<D>, todo: seq<Migration>, m: Migration, engine: Engine<D>)
    requires CanBeApplied(db.data, todo, engine) && m.filename !in db.applied
    ensures var after := Database(Replay(db.data, todo, engine).value, db.applied + Filenames(todo));
            var step := Step(after, m, db.applied, engine);
            && (step.Some? <==> CanBeApplied(db.data, todo + [m], engine))
            && (step.Some? ==>
                  step.value == Database(Replay(db.data, todo + [m], engine).value,
                                         db.applied + Filenames(todo + [m])))
  {
    CanBeAppliedNext(db.data, todo, m, engine);
    hide CanBeApplied, Replay, HasTransactionBlock, InterferesWithTransaction, NoDuplicates, Filenames;
    TransactionBlockIs(m.sql);
    FilenamesConcat(todo, m);
    assert db.applied + Filenames(todo) + [m.filename] == db.applied + (Filenames(todo) + [m.filename]);
  }

  lemma {:induction false} StepsAre<D>(db: Database<D>, ms: seq<Migration>, engine: Engine<D>)
    ensures var todo := New(ms, db.applied);
            && (Steps(db, ms, db.applied, engine).Some? <==> CanBeApplied(db.data, todo, engine))
            && (CanBeApplied(db.data, todo, engine) ==>
                  Steps(db, ms, db.applied, engine)
                  == Some(Database(Replay(db.data, todo, engine).value, db.applied + Filenames(todo))))
  {
    hide CanBeApplied, Replay, HasTransactionBlock, InterferesWithTransaction, NoDuplicates, Filenames;
    if ms == [] {
      NothingToApply(db.data, engine);
      assert db.applied + [] == db.applied;
    } else {
      var n := |ms| - 1;
      var m, todo := ms[n], New(ms[..n], db.applied);
      StepsAre(db, ms[..n], engine);
      if m.filename in db.applied {
        assert New(ms, db.applied) == todo;
      } else {
        assert New(ms, db.applied) == todo + [m];
        CanBeAppliedNext(db.data, todo, m, engine);
        if CanBeApplied(db.data, todo, engine) {
          StepIs(db, todo, m, engine);
        }
      }
    }
  }

  /**
   Exactly when a run succeeds: there are migrations, none of the applied ones is missing, and the new ones have
   no transaction blocks, have different names and can all be run in turn; then the database has their effect,
   and their names after the ones it had.
   */
  lemma SucceedsIff<D>(db: Database<D>, ms: seq<Migration>, engine: Engine<D>)
    ensures var todo := New(ms, db.applied);
            && (Committed(db, ms, engine).Some?
                <==> && ms != [] && (forall f | f in db.applied :: exists m :: m in ms && m.filename == f)
                     && CanBeApplied(db.data, todo, engine))
            && (Committed(db, ms, engine).Some? ==>
                  Committed(db, ms, engine).value
                  == Database(Replay(db.data, todo, engine).value, db.applied + Filenames(todo)))
  {
    hide CanBeApplied, Replay, Steps;
    StepsAre(db, ms, engine);
    forall f ensures f in Filenames(ms) <==> exists m :: m in ms && m.filename == f {
      if m :| m in ms && m.filename == f {
        var i :| 0 <= i < |ms| && ms[i] == m;
        assert Filenames(ms)[i] == f;
      }
      if f in Filenames(ms) {
        var i :| 0 <= i < |ms| && Filenames(ms)[i] == f;
        assert ms[i] in ms;
      }
    }
  }
}
