/** The schema bootstrap of `Database::migrate` (crates/db/src/lib.rs) as a
    state machine over the database's schema: whether the `_migrations`
    tracking table exists, the rows it holds, and whether the
    `applications` table exists. */
module Migrations {
  import opened Wrappers
  import opened Models

  /** The one migration the system ships. */
  const InitialSchema := "001_initial_schema"

  /** A row of `_migrations`: which migration ran and when. */
  datatype MigrationRow = MigrationRow(name: string, appliedAt: Millis)

  datatype Schema = Schema(trackingExists: bool, migrations: seq<MigrationRow>, appsTableExists: bool)

  /** SELECT name FROM _migrations WHERE name = ? */
  function FindMigration(ms: seq<MigrationRow>, name: string): (r: Option<MigrationRow>)
    ensures r.Some? <==> exists i | 0 <= i < |ms| :: ms[i].name == name
    ensures r.Some? ==> r.value in ms && r.value.name == name
  {
    if ms == [] then None
    else if ms[0].name == name then Some(ms[0])
    else FindMigration(ms[1..], name)
  }

  /** How many tracking rows record `name`. */
  function Count(ms: seq<MigrationRow>, name: string): nat
  {
    if ms == [] then 0 else (if ms[0].name == name then 1 else 0) + Count(ms[1..], name)
  }

  /** The UNIQUE constraint on `_migrations.name`. */
  predicate UniqueMigrationNames(ms: seq<MigrationRow>)
  {
    forall i, j | 0 <= i < j < |ms| :: ms[i].name != ms[j].name
  }

  lemma {:induction false} CountUnique(ms: seq<MigrationRow>, name: string)
    requires UniqueMigrationNames(ms)
    ensures Count(ms, name) == if FindMigration(ms, name).Some? then 1 else 0
  {
    if ms != [] {
      var tail := ms[1..];
      assert UniqueMigrationNames(tail) by {
        forall i, j | 0 <= i < j < |tail| ensures tail[i].name != tail[j].name {
          assert tail[i] == ms[i + 1] && tail[j] == ms[j + 1];
        }
      }
      CountUnique(tail, name);
      if ms[0].name == name {
        forall k | 0 <= k < |tail| ensures tail[k].name != name {
          assert tail[k] == ms[k + 1];
        }
      }
    }
  }

  /** The schema states this system's own code can leave a database in: no
      tracking rows without the tracking table, each migration recorded at
      most once, and the applications table present exactly when the
      initial migration is recorded. */
  predicate WellFormed(s: Schema)
  {
    && (s.trackingExists || s.migrations == [])
    && UniqueMigrationNames(s.migrations)
    && (s.appsTableExists <==> FindMigration(s.migrations, InitialSchema).Some?)
  }

  /** One run of `migrate`: create the tracking table if missing, look the
      initial migration up, and only when it is absent run it and record it
      with the given timestamp. */
  function Migrated(s: Schema, appliedAt: Millis): (r: Schema)
    ensures r.trackingExists
    ensures FindMigration(r.migrations, InitialSchema).Some?
    ensures s.migrations <= r.migrations
  {
    var s1 := s.(trackingExists := true);
    if FindMigration(s1.migrations, InitialSchema).None? then
      var ran := s1.(appsTableExists := true);
      assert ran.migrations + [MigrationRow(InitialSchema, appliedAt)] ==
          s.migrations + [MigrationRow(InitialSchema, appliedAt)];
      assert (s.migrations + [MigrationRow(InitialSchema, appliedAt)])[|s.migrations|].name == InitialSchema;
      ran.(migrations := ran.migrations + [MigrationRow(InitialSchema, appliedAt)])
    else
      s1
  }

  /** The schema migration runs only when it is not recorded yet, and then
      appends exactly one tracking row. */
  lemma MigratedRunsOnlyWhenAbsent(s: Schema, appliedAt: Millis)
    ensures FindMigration(s.migrations, InitialSchema).Some? ==>
      Migrated(s, appliedAt) == s.(trackingExists := true)
    ensures FindMigration(s.migrations, InitialSchema).None? ==>
      Migrated(s, appliedAt).migrations == s.migrations + [MigrationRow(InitialSchema, appliedAt)]
      && Migrated(s, appliedAt).appsTableExists
  {
  }

  /** After `migrate` on a well-formed schema: still well formed, the
      applications table exists and the initial migration is recorded
      exactly once. */
  lemma MigratedEstablishesSchema(s: Schema, appliedAt: Millis)
    requires WellFormed(s)
    ensures var r := Migrated(s, appliedAt);
      WellFormed(r) && r.trackingExists && r.appsTableExists && Count(r.migrations, InitialSchema) == 1
  {
    var r := Migrated(s, appliedAt);
    if FindMigration(s.migrations, InitialSchema).None? {
      var row := MigrationRow(InitialSchema, appliedAt);
      forall i, j | 0 <= i < j < |r.migrations| ensures r.migrations[i].name != r.migrations[j].name {
        if j == |s.migrations| {
          assert r.migrations[i] == s.migrations[i];
        } else {
          assert r.migrations[i] == s.migrations[i] && r.migrations[j] == s.migrations[j];
        }
      }
    }
    CountUnique(r.migrations, InitialSchema);
  }

  /** A second `migrate` changes nothing, whatever its clock reads. */
  lemma MigratedIdempotent(s: Schema, t1: Millis, t2: Millis)
    ensures Migrated(Migrated(s, t1), t2) == Migrated(s, t1)
  {
  }

  /** `migrate` run once per timestamp in `ts`, in order. */
  function MigrateAll(s: Schema, ts: seq<Millis>): Schema
    decreases ts
  {
    if ts == [] then s else MigrateAll(Migrated(s, ts[0]), ts[1..])
  }

  /** Migrating N >= 1 times gives the state of migrating once. */
  lemma {:induction false} MigrateRepeatedly(s: Schema, ts: seq<Millis>)
    requires ts != []
    ensures MigrateAll(s, ts) == Migrated(s, ts[0])
    decreases ts
  {
    if |ts| > 1 {
      MigrateRepeatedly(Migrated(s, ts[0]), ts[1..]);
      MigratedIdempotent(s, ts[0], ts[1]);
    }
  }
}
