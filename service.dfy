/** The application service (crates/core/src/services/application.rs): the
    internal API boundary, which delegates every operation to the
    repository and passes its results and errors through unchanged. */
module Service {
  import opened Wrappers
  import opened Errors
  import opened Models
  import Table
  import Db

  class ApplicationService {
    const db: Db.Database
    /** The repository view `db.applications()` returns; it holds no state
        of its own, so one view serves every call. */
    const repo: Db.ApplicationRepository

    /** The view belongs to this service's database. */
    predicate Wired()
    {
      repo.db == db
    }

    ghost predicate Valid()
      reads db
    {
      Wired() && db.Valid()
    }

    constructor (db: Db.Database)
      ensures this.db == db && Wired()
    {
      this.db := db;
      var view := db.Applications();
      repo := view;
    }

    /** Creates an application; validation and the duplicate check are the
        repository's. */
    method CreateApp(name: string, id: string, createdAt: Millis) returns (r: Result<Application>)
      requires Valid()
      requires Table.FindById(db.rows, id).None?
      modifies db
      ensures Valid()
      ensures r == Table.CreateResult(old(db.rows), old(db.appsTableExists), name, id, createdAt)
      ensures db.rows == Table.AfterCreate(old(db.rows), r)
      ensures db.Schema() == old(db.Schema())
    {
      r := repo.Create(name, id, createdAt);
    }

    function GetApp(id: string): (r: Result<Option<Application>>)
      requires Wired()
      reads db
      ensures r.Ok? <==> db.appsTableExists
      ensures r.Err? ==> r.error == Table.NoSuchTable
      ensures r.Ok? ==> (r.value.Some? <==> exists a | a in db.rows :: a.id == id)
      ensures r.Ok? && r.value.Some? ==> r.value.value in db.rows && r.value.value.id == id
    {
      repo.Get(id)
    }

    function GetAppByName(name: string): (r: Result<Option<Application>>)
      requires Wired()
      reads db
      ensures r.Ok? <==> db.appsTableExists
      ensures r.Err? ==> r.error == Table.NoSuchTable
      ensures r.Ok? ==> (r.value.Some? <==> exists a | a in db.rows :: a.name == name)
      ensures r.Ok? && r.value.Some? ==> r.value.value in db.rows && r.value.value.name == name
    {
      repo.GetByName(name)
    }

    function ListApps(): (r: Result<seq<Application>>)
      requires Wired()
      reads db
      ensures r.Ok? <==> db.appsTableExists
      ensures r.Err? ==> r.error == Table.NoSuchTable
      ensures r.Ok? ==> Table.ListOrdered(r.value) && multiset(r.value) == multiset(db.rows)
    {
      repo.List()
    }

    method DeleteApp(id: string) returns (r: Result<bool>)
      requires Valid()
      modifies db
      ensures Valid()
      ensures old(db.appsTableExists) ==> r == Ok(Table.FindById(old(db.rows), id).Some?)
      ensures !old(db.appsTableExists) ==> r == Err(Table.NoSuchTable)
      ensures db.rows == Table.RemoveById(old(db.rows), id)
      ensures r == Ok(false) ==> db.rows == old(db.rows)
      ensures Table.FindById(db.rows, id).None?
      ensures db.Schema() == old(db.Schema())
    {
      r := repo.Delete(id);
    }
  }

  /** The names the service's own tests use. */
  lemma IntegrationTestValid()
    ensures IsValidAppName("integration-test")
  {
    var s := "integration-test";
    assert forall i | 0 <= i < |s| :: IsNameChar(s[i]);
    ShortNamePassesLengthRule(s);
  }

  lemma DuplicateValid()
    ensures IsValidAppName("duplicate")
  {
    var s := "duplicate";
    assert forall i | 0 <= i < |s| :: IsNameChar(s[i]);
    ShortNamePassesLengthRule(s);
  }

  lemma InvalidNameRejected()
    ensures ValidateAppName("invalid name") == Err(InvalidName(BadCharReason))
  {
    var s := "invalid name";
    ShortNamePassesLengthRule(s);
    assert IsAlnum(s[0]);
    assert !IsNameChar(s[7]);
  }

  /** The service's lifecycle on a migrated, empty database: create, find it
      by id and by name, list one row, delete it, and then find nothing. */
  method Lifecycle(service: ApplicationService, id: string, createdAt: Millis)
      returns (created: Result<Application>, deleted: Result<bool>)
    requires service.Valid()
    requires service.db.appsTableExists && service.db.rows == []
    modifies service.db
    ensures created == Ok(Application(id, "integration-test", createdAt))
    ensures deleted == Ok(true)
    ensures service.GetApp(id) == Ok(None)
    ensures service.db.rows == []
  {
    IntegrationTestValid();
    created := service.CreateApp("integration-test", id, createdAt);
    var app := created.value;
    var byId := service.GetApp(app.id);
    assert byId == Ok(Some(app)) by {
      assert service.db.rows == [app];
    }
    var byName := service.GetAppByName(app.name);
    assert byName == Ok(Some(app));
    var listed := service.ListApps();
    assert listed.Ok? && |listed.value| == 1 by {
      assert |multiset(listed.value)| == |multiset([app])| == 1;
    }
    deleted := service.DeleteApp(app.id);
  }

  /** A validation error reaches the service's caller unchanged, and the
      table is left as it was. */
  method InvalidNamePropagates(service: ApplicationService, id: string, t: Millis)
      returns (invalid: Result<Application>)
    requires service.Valid()
    requires Table.FindById(service.db.rows, id).None?
    modifies service.db
    ensures invalid == Err(InvalidName(BadCharReason))
    ensures service.db.rows == old(service.db.rows)
  {
    InvalidNameRejected();
    invalid := service.CreateApp("invalid name", id, t);
  }

  /** A second create of the same name reaches the caller as `DuplicateName`. */
  method DuplicatePropagates(service: ApplicationService, id1: string, id2: string, t: Millis)
      returns (first: Result<Application>, duplicate: Result<Application>)
    requires service.Valid()
    requires service.db.appsTableExists && service.db.rows == []
    requires id1 != id2
    modifies service.db
    ensures first == Ok(Application(id1, "duplicate", t))
    ensures duplicate == Err(DuplicateName("duplicate"))
    ensures service.db.rows == [Application(id1, "duplicate", t)]
  {
    DuplicateValid();
    first := service.CreateApp("duplicate", id1, t);
    assert service.db.rows == [Application(id1, "duplicate", t)];
    duplicate := service.CreateApp("duplicate", id2, t);
  }
}
