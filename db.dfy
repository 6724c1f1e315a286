/** The database handle with its schema bootstrap (crates/db/src/lib.rs)
    and the application repository over it
    (crates/db/src/repositories/application.rs). The SQLite file is
    represented by the fields of `Database`; a repository is a view that
    reads and writes them. */
module Db {
  import opened Wrappers
  import opened Errors
  import opened Models
  import Table
  import Migrations

  // ---------------------------------------------------------------------
  // Configuration
  // ---------------------------------------------------------------------

  newtype u32 = x: int | 0 <= x < 0x1_0000_0000

  datatype DatabaseConfig = DatabaseConfig(maxConnections: u32, enableWal: bool)

  /** The configuration `Database::new` uses: a pool of five connections,
      write-ahead logging on. */
  function DefaultConfig(): (c: DatabaseConfig)
    ensures c.maxConnections == 5 && c.enableWal
  {
    DatabaseConfig(5, true)
  }

  // ---------------------------------------------------------------------
  // The database
  // ---------------------------------------------------------------------

  class Database {
    /** Whether the `_migrations` tracking table exists. */
    var trackingExists: bool
    /** The rows of `_migrations`. */
    var migrations: seq<Migrations.MigrationRow>
    /** Whether the `applications` table exists. */
    var appsTableExists: bool
    /** The rows of `applications`, in insertion order. */
    var rows: seq<Application>

    function Schema(): Migrations.Schema
      reads this
    {
      Migrations.Schema(trackingExists, migrations, appsTableExists)
    }

    /** The consistency of the file: a well-formed schema, no application
        rows without the applications table, and the table's constraints. */
    ghost predicate Valid()
      reads this
    {
      && Migrations.WellFormed(Schema())
      && (!appsTableExists ==> rows == [])
      && Table.Invariant(rows)
    }

    /** Opens a database file in the state it was left in; a newly created
        file has no tables. */
    constructor (schema: Migrations.Schema, rows: seq<Application>)
      requires Migrations.WellFormed(schema)
      requires !schema.appsTableExists ==> rows == []
      requires Table.Invariant(rows)
      ensures Valid()
      ensures Schema() == schema && this.rows == rows
    {
      trackingExists := schema.trackingExists;
      migrations := schema.migrations;
      appsTableExists := schema.appsTableExists;
      this.rows := rows;
    }

    /** Runs the schema migration unless it is already recorded; the clock
        reading for the tracking row is a parameter. */
    method Migrate(appliedAt: Millis) returns (r: Result<()>)
      requires Valid()
      modifies this
      ensures Valid()
      ensures r == Ok(())
      ensures Schema() == Migrations.Migrated(old(Schema()), appliedAt)
      ensures trackingExists && appsTableExists
      ensures Migrations.Count(migrations, Migrations.InitialSchema) == 1
      ensures rows == old(rows)
    {
      Migrations.MigratedEstablishesSchema(Schema(), appliedAt);
      // CREATE TABLE IF NOT EXISTS _migrations (...)
      trackingExists := true;
      // SELECT name FROM _migrations WHERE name = ?
      var applied := Migrations.FindMigration(migrations, Migrations.InitialSchema);
      if applied.None? {
        // the schema migration, then the tracking row
        appsTableExists := true;
        migrations := migrations + [Migrations.MigrationRow(Migrations.InitialSchema, appliedAt)];
      }
      r := Ok(());
    }

    /** A repository over this database. */
    method Applications() returns (repo: ApplicationRepository)
      ensures fresh(repo) && repo.db == this
    {
      repo := new ApplicationRepository(this);
    }
  }

  // ---------------------------------------------------------------------
  // The application repository
  // ---------------------------------------------------------------------

  class ApplicationRepository {
    const db: Database

    constructor (db: Database)
      ensures this.db == db
    {
      this.db := db;
    }

    /** Validates the name, then inserts a row with the given id and
        timestamp (the generated uuid and the clock reading). The id must
        not be in the table yet. */
    method Create(name: string, id: string, createdAt: Millis) returns (r: Result<Application>)
      requires db.Valid()
      requires Table.FindById(db.rows, id).None?
      modifies db
      ensures db.Valid()
      ensures r == Table.CreateResult(old(db.rows), old(db.appsTableExists), name, id, createdAt)
      ensures db.rows == Table.AfterCreate(old(db.rows), r)
      ensures db.Schema() == old(db.Schema())
    {
      Table.CreateKeepsInvariant(db.rows, db.appsTableExists, name, id, createdAt);
      var valid := ValidateAppName(name);
      if valid.Err? {
        return Err(valid.error);
      }
      if !db.appsTableExists {
        return Err(Table.NoSuchTable);
      }
      // the UNIQUE constraint on `name`, checked within the insert
      if Table.FindByName(db.rows, name).Some? {
        return Err(DuplicateName(name));
      }
      var app := Application(id, name, createdAt);
      db.rows := db.rows + [app];
      r := Ok(app);
    }

    /** The row with the given id, if any. */
    function Get(id: string): (r: Result<Option<Application>>)
      reads db
      ensures r.Ok? <==> db.appsTableExists
      ensures r.Err? ==> r.error == Table.NoSuchTable
      ensures r.Ok? ==> (r.value.Some? <==> exists a | a in db.rows :: a.id == id)
      ensures r.Ok? && r.value.Some? ==> r.value.value in db.rows && r.value.value.id == id
    {
      if !db.appsTableExists then Err(Table.NoSuchTable) else Ok(Table.FindById(db.rows, id))
    }

    /** The row with the given name, if any. */
    function GetByName(name: string): (r: Result<Option<Application>>)
      reads db
      ensures r.Ok? <==> db.appsTableExists
      ensures r.Err? ==> r.error == Table.NoSuchTable
      ensures r.Ok? ==> (r.value.Some? <==> exists a | a in db.rows :: a.name == name)
      ensures r.Ok? && r.value.Some? ==> r.value.value in db.rows && r.value.value.name == name
    {
      if !db.appsTableExists then Err(Table.NoSuchTable) else Ok(Table.FindByName(db.rows, name))
    }

    /** All rows, newest first, ties by ascending name. */
    function List(): (r: Result<seq<Application>>)
      reads db
      ensures r.Ok? <==> db.appsTableExists
      ensures r.Err? ==> r.error == Table.NoSuchTable
      ensures r.Ok? ==> Table.ListOrdered(r.value) && multiset(r.value) == multiset(db.rows)
    {
      if !db.appsTableExists then Err(Table.NoSuchTable) else Ok(Table.SortForListing(db.rows))
    }

    /** Deletes the row with the given id; reports whether one was removed. */
    method Delete(id: string) returns (r: Result<bool>)
      requires db.Valid()
      modifies db
      ensures db.Valid()
      ensures old(db.appsTableExists) ==> r == Ok(Table.FindById(old(db.rows), id).Some?)
      ensures !old(db.appsTableExists) ==> r == Err(Table.NoSuchTable)
      ensures db.rows == Table.RemoveById(old(db.rows), id)
      ensures r == Ok(false) ==> db.rows == old(db.rows)
      ensures Table.FindById(db.rows, id).None?
      ensures db.Schema() == old(db.Schema())
    {
      if !db.appsTableExists {
        return Err(Table.NoSuchTable);
      }
      Table.RemoveByIdKeepsInvariant(db.rows, id);
      Table.RemoveByIdCount(db.rows, id);
      var before := |db.rows|;
      db.rows := Table.RemoveById(db.rows, id);
      // rows_affected() > 0
      r := Ok(|db.rows| < before);
    }
  }
}
