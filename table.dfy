/** What the SQL statements of the application repository do to the
    `applications` table (crates/db/src/repositories/application.rs),
    stated on the table's rows: lookups by id and name, removal by id,
    the outcome of an insert, and the order `list` returns. */
module Table {
  import opened Wrappers
  import opened Errors
  import opened Models

  // ---------------------------------------------------------------------
  // Table invariants
  // ---------------------------------------------------------------------

  /** The UNIQUE constraint on `name`. */
  predicate UniqueNames(rows: seq<Application>)
  {
    forall i, j | 0 <= i < j < |rows| :: rows[i].name != rows[j].name
  }

  /** The PRIMARY KEY constraint on `id`. */
  predicate UniqueIds(rows: seq<Application>)
  {
    forall i, j | 0 <= i < j < |rows| :: rows[i].id != rows[j].id
  }

  /** Every stored name passed validation when it was inserted. */
  predicate AllNamesValid(rows: seq<Application>)
  {
    forall i | 0 <= i < |rows| :: IsValidAppName(rows[i].name)
  }

  predicate Invariant(rows: seq<Application>)
  {
    UniqueNames(rows) && UniqueIds(rows) && AllNamesValid(rows)
  }

  // ---------------------------------------------------------------------
  // Lookups: SELECT * FROM applications WHERE id = ? / WHERE name = ?
  // ---------------------------------------------------------------------

  // `FindById`, `FindByName` and `Migrations.FindMigration` share one shape
  // because the three SELECTs they stand for share one shape: a first match
  // on one column of one table.

  function FindById(rows: seq<Application>, id: string): (r: Option<Application>)
    ensures r.Some? <==> exists i | 0 <= i < |rows| :: rows[i].id == id
    ensures r.Some? ==> r.value in rows && r.value.id == id
  {
    if rows == [] then None
    else if rows[0].id == id then Some(rows[0])
    else FindById(rows[1..], id)
  }

  function FindByName(rows: seq<Application>, name: string): (r: Option<Application>)
    ensures r.Some? <==> exists i | 0 <= i < |rows| :: rows[i].name == name
    ensures r.Some? ==> r.value in rows && r.value.name == name
  {
    if rows == [] then None
    else if rows[0].name == name then Some(rows[0])
    else FindByName(rows[1..], name)
  }

  /** With unique ids, the row found by id is the only row with that id. */
  lemma {:induction false} FindByIdExact(rows: seq<Application>, a: Application)
    requires UniqueIds(rows) && a in rows
    ensures FindById(rows, a.id) == Some(a)
  {
    if rows[0] != a {
      assert a in rows[1..];
      assert UniqueIds(rows[1..]) by {
        forall i, j | 0 <= i < j < |rows[1..]| ensures rows[1..][i].id != rows[1..][j].id {
          assert rows[1..][i] == rows[i + 1] && rows[1..][j] == rows[j + 1];
        }
      }
      FindByIdExact(rows[1..], a);
    }
  }

  /** With unique names, the row found by name is the only row with that name. */
  lemma {:induction false} FindByNameExact(rows: seq<Application>, a: Application)
    requires UniqueNames(rows) && a in rows
    ensures FindByName(rows, a.name) == Some(a)
  {
    if rows[0] != a {
      assert a in rows[1..];
      assert UniqueNames(rows[1..]) by {
        forall i, j | 0 <= i < j < |rows[1..]| ensures rows[1..][i].name != rows[1..][j].name {
          assert rows[1..][i] == rows[i + 1] && rows[1..][j] == rows[j + 1];
        }
      }
      FindByNameExact(rows[1..], a);
    }
  }

  // ---------------------------------------------------------------------
  // DELETE FROM applications WHERE id = ?
  // ---------------------------------------------------------------------

  /** The table with every row of the given id removed, the others kept in order. */
  function RemoveById(rows: seq<Application>, id: string): (r: seq<Application>)
    ensures forall a :: a in r <==> a in rows && a.id != id
    ensures |r| <= |rows|
  {
    if rows == [] then []
    else if rows[0].id == id then RemoveById(rows[1..], id)
    else [rows[0]] + RemoveById(rows[1..], id)
  }

  /** Under a unique primary key, a delete removes exactly one row when the
      id is present and leaves the table as it was otherwise. */
  lemma {:induction false} RemoveByIdCount(rows: seq<Application>, id: string)
    requires UniqueIds(rows)
    ensures FindById(rows, id).Some? ==> |RemoveById(rows, id)| == |rows| - 1
    ensures FindById(rows, id).None? ==> RemoveById(rows, id) == rows
  {
    if rows != [] {
      assert UniqueIds(rows[1..]) by {
        forall i, j | 0 <= i < j < |rows[1..]| ensures rows[1..][i].id != rows[1..][j].id {
          assert rows[1..][i] == rows[i + 1] && rows[1..][j] == rows[j + 1];
        }
      }
      RemoveByIdCount(rows[1..], id);
      if rows[0].id == id {
        forall k | 0 <= k < |rows[1..]| ensures rows[1..][k].id != id {
          assert rows[1..][k] == rows[k + 1];
        }
      } else {
        assert rows == [rows[0]] + rows[1..];
      }
    }
  }

  /** A delete keeps the table invariant and the removed id is gone. */
  lemma RemoveByIdKeepsInvariant(rows: seq<Application>, id: string)
    requires Invariant(rows)
    ensures Invariant(RemoveById(rows, id))
    ensures FindById(RemoveById(rows, id), id).None?
  {
    SubsequenceKeepsInvariant(rows, id);
  }

  lemma TailKeepsInvariant(rows: seq<Application>)
    requires Invariant(rows) && rows != []
    ensures Invariant(rows[1..])
    ensures forall b | b in rows[1..] :: b.name != rows[0].name && b.id != rows[0].id
  {
    var tail := rows[1..];
    forall i, j | 0 <= i < j < |tail| ensures tail[i].name != tail[j].name && tail[i].id != tail[j].id {
      assert tail[i] == rows[i + 1] && tail[j] == rows[j + 1];
    }
    forall i | 0 <= i < |tail| ensures IsValidAppName(tail[i].name) {
      assert tail[i] == rows[i + 1];
    }
    forall k | 0 <= k < |tail| ensures tail[k].name != rows[0].name && tail[k].id != rows[0].id {
      assert tail[k] == rows[k + 1];
    }
  }

  lemma ConsKeepsInvariant(a: Application, rest: seq<Application>)
    requires Invariant(rest) && IsValidAppName(a.name)
    requires forall b | b in rest :: b.name != a.name && b.id != a.id
    ensures Invariant([a] + rest)
  {
    var r := [a] + rest;
    forall i, j | 0 <= i < j < |r| ensures r[i].name != r[j].name && r[i].id != r[j].id {
      assert r[j] == rest[j - 1];
      if i > 0 { assert r[i] == rest[i - 1]; }
    }
    forall i | 0 <= i < |r| ensures IsValidAppName(r[i].name) {
      if i > 0 { assert r[i] == rest[i - 1]; }
    }
  }

  lemma {:induction false} SubsequenceKeepsInvariant(rows: seq<Application>, id: string)
    requires Invariant(rows)
    ensures Invariant(RemoveById(rows, id))
  {
    if rows != [] {
      TailKeepsInvariant(rows);
      SubsequenceKeepsInvariant(rows[1..], id);
      if rows[0].id != id {
        assert IsValidAppName(rows[0].name);
        ConsKeepsInvariant(rows[0], RemoveById(rows[1..], id));
      }
    }
  }

  // ---------------------------------------------------------------------
  // INSERT INTO applications (id, name, created_at) VALUES (?, ?, ?)
  // ---------------------------------------------------------------------

  /** The error SQLite reports for a statement on a table that does not
      exist yet (before the schema migration has run). */
  const NoSuchTable := DatabaseError("no such table: applications")

  /** What `create` returns: validation first, then the insert, which the
      UNIQUE constraint on `name` rejects when the name is taken. */
  function CreateResult(rows: seq<Application>, tableExists: bool, name: string, id: string, createdAt: Millis)
    : (r: Result<Application>)
    ensures r.Ok? <==> IsValidAppName(name) && tableExists && FindByName(rows, name).None?
    ensures r.Ok? ==> r.value == Application(id, name, createdAt)
    ensures !IsValidAppName(name) ==> r == Err(ValidateAppName(name).error) && r.error.InvalidName?
    ensures IsValidAppName(name) && !tableExists ==> r == Err(NoSuchTable)
    ensures IsValidAppName(name) && tableExists && FindByName(rows, name).Some? ==> r == Err(DuplicateName(name))
  {
    match ValidateAppName(name)
    case Err(e) => Err(e)
    case Ok(_) =>
      if !tableExists then Err(NoSuchTable)
      else if FindByName(rows, name).Some? then Err(DuplicateName(name))
      else Ok(Application(id, name, createdAt))
  }

  /** The table after `create`: the new row appended on success, unchanged on error. */
  function AfterCreate(rows: seq<Application>, r: Result<Application>): seq<Application>
  {
    if r.Ok? then rows + [r.value] else rows
  }

  /** `create` keeps the table invariant, given an id not yet in the table. */
  lemma CreateKeepsInvariant(rows: seq<Application>, tableExists: bool, name: string, id: string, createdAt: Millis)
    requires Invariant(rows) && FindById(rows, id).None?
    ensures Invariant(AfterCreate(rows, CreateResult(rows, tableExists, name, id, createdAt)))
  {
    var r := CreateResult(rows, tableExists, name, id, createdAt);
    if r.Ok? {
      var rows' := rows + [r.value];
      forall i, j | 0 <= i < j < |rows'| ensures rows'[i].name != rows'[j].name && rows'[i].id != rows'[j].id {
        if j == |rows| {
          assert rows'[i] == rows[i];
        }
      }
    }
  }

  /** After a successful `create`, both lookups find exactly the returned
      record, and every row that was there is still there. */
  lemma CreateThenLookup(rows: seq<Application>, tableExists: bool, name: string, id: string, createdAt: Millis)
    requires Invariant(rows) && FindById(rows, id).None?
    ensures var r := CreateResult(rows, tableExists, name, id, createdAt);
      var rows' := AfterCreate(rows, r);
      && (r.Ok? ==> FindById(rows', id) == Some(r.value) && FindByName(rows', name) == Some(r.value))
      && (r.Ok? ==> |rows'| == |rows| + 1)
      && (r.Err? ==> rows' == rows)
      && (forall a | a in rows :: a in rows')
  {
    var r := CreateResult(rows, tableExists, name, id, createdAt);
    if r.Ok? {
      CreateKeepsInvariant(rows, tableExists, name, id, createdAt);
      var rows' := rows + [r.value];
      assert r.value in rows' by { assert rows'[|rows|] == r.value; }
      FindByIdExact(rows', r.value);
      FindByNameExact(rows', r.value);
    }
  }

  // ---------------------------------------------------------------------
  // SELECT * FROM applications ORDER BY created_at DESC, name ASC
  // ---------------------------------------------------------------------

  /** SQLite's BINARY collation: lexicographic order of the UTF-8 bytes,
      which is the lexicographic order of code points. */
  predicate NameLe(s: string, t: string)
  {
    s == [] || (t != [] && (s[0] < t[0] || (s[0] == t[0] && NameLe(s[1..], t[1..]))))
  }

  lemma {:induction false} NameLeTotal(s: string, t: string)
    ensures NameLe(s, t) || NameLe(t, s)
  {
    if s != [] && t != [] && s[0] == t[0] {
      NameLeTotal(s[1..], t[1..]);
    }
  }

  lemma {:induction false} NameLeTransitive(s: string, t: string, u: string)
    requires NameLe(s, t) && NameLe(t, u)
    ensures NameLe(s, u)
  {
    if s != [] && s[0] == t[0] && t[0] == u[0] {
      NameLeTransitive(s[1..], t[1..], u[1..]);
    }
  }

  lemma {:induction false} NameLeAntisymmetric(s: string, t: string)
    requires NameLe(s, t) && NameLe(t, s)
    ensures s == t
  {
    if s != [] {
      NameLeAntisymmetric(s[1..], t[1..]);
      assert s == [s[0]] + s[1..] && t == [t[0]] + t[1..];
    }
  }

  /** `a` may be listed before `b`: newer first, then names ascending. */
  predicate ListedNoLater(a: Application, b: Application)
  {
    a.createdAt > b.createdAt || (a.createdAt == b.createdAt && NameLe(a.name, b.name))
  }

  lemma ListedNoLaterTotal(a: Application, b: Application)
    ensures ListedNoLater(a, b) || ListedNoLater(b, a)
  {
    NameLeTotal(a.name, b.name);
  }

  lemma ListedNoLaterTransitive(a: Application, b: Application, c: Application)
    requires ListedNoLater(a, b) && ListedNoLater(b, c)
    ensures ListedNoLater(a, c)
  {
    if a.createdAt == b.createdAt == c.createdAt {
      NameLeTransitive(a.name, b.name, c.name);
    }
  }

  predicate ListOrdered(s: seq<Application>)
  {
    forall i, j | 0 <= i < j < |s| :: ListedNoLater(s[i], s[j])
  }

  /** Places `a` into an already ordered listing. */
  function InsertOrdered(a: Application, s: seq<Application>): (r: seq<Application>)
    requires ListOrdered(s)
    ensures multiset(r) == multiset(s) + multiset{a}
    ensures ListOrdered(r)
  {
    if s == [] then [a]
    else if ListedNoLater(a, s[0]) then
      InsertAtFront(a, s);
      [a] + s
    else
      var rest := InsertOrdered(a, s[1..]);
      InsertBehind(a, s, rest);
      [s[0]] + rest
  }

  lemma InsertAtFront(a: Application, s: seq<Application>)
    requires ListOrdered(s) && s != [] && ListedNoLater(a, s[0])
    ensures ListOrdered([a] + s)
  {
    var r := [a] + s;
    forall i, j | 0 <= i < j < |r| ensures ListedNoLater(r[i], r[j]) {
      if i == 0 && j > 1 {
        ListedNoLaterTransitive(a, s[0], s[j - 1]);
      }
    }
  }

  lemma InsertBehind(a: Application, s: seq<Application>, rest: seq<Application>)
    requires ListOrdered(s) && s != [] && !ListedNoLater(a, s[0])
    requires multiset(rest) == multiset(s[1..]) + multiset{a} && ListOrdered(rest)
    ensures ListOrdered([s[0]] + rest)
    ensures multiset([s[0]] + rest) == multiset(s) + multiset{a}
  {
    ListedNoLaterTotal(a, s[0]);
    var r := [s[0]] + rest;
    forall j | 0 <= j < |rest| ensures ListedNoLater(s[0], rest[j]) {
      assert rest[j] in multiset(rest);
      if rest[j] != a {
        assert rest[j] in multiset(s[1..]);
        var k :| 0 <= k < |s[1..]| && s[1..][k] == rest[j];
        assert s[k + 1] == rest[j];
      }
    }
    forall i, j | 0 <= i < j < |r| ensures ListedNoLater(r[i], r[j]) {
      if i > 0 { assert r[i] == rest[i - 1]; }
    }
    assert s == [s[0]] + s[1..];
  }

  /** The rows in the order `list` returns them. */
  function SortForListing(rows: seq<Application>): (r: seq<Application>)
    ensures ListOrdered(r)
    ensures multiset(r) == multiset(rows)
  {
    if rows == [] then []
    else
      assert rows == [rows[0]] + rows[1..];
      InsertOrdered(rows[0], SortForListing(rows[1..]))
  }

  /** The listing holds every row exactly once, newest first, and rows with
      the same timestamp by strictly ascending name. */
  lemma ListingContents(rows: seq<Application>)
    requires UniqueNames(rows)
    ensures var r := SortForListing(rows);
      && |r| == |rows|
      && (forall a :: a in r <==> a in rows)
      && UniqueNames(r)
      && (forall i, j | 0 <= i < j < |r| ::
            r[i].createdAt > r[j].createdAt
            || (r[i].createdAt == r[j].createdAt && NameLe(r[i].name, r[j].name) && r[i].name != r[j].name))
  {
    var r := SortForListing(rows);
    assert |r| == |multiset(r)| == |multiset(rows)| == |rows|;
    forall a ensures a in r <==> a in rows {
      assert a in r <==> a in multiset(r);
      assert a in rows <==> a in multiset(rows);
    }
    UniqueNamesOfPermutation(rows, r);
  }

  /** Unique names carry over to any reordering of the rows. */
  lemma UniqueNamesOfPermutation(rows: seq<Application>, r: seq<Application>)
    requires UniqueNames(rows) && multiset(r) == multiset(rows)
    ensures UniqueNames(r)
  {
    forall i, j | 0 <= i < j < |r| ensures r[i].name != r[j].name {
      if r[i].name == r[j].name {
        assert r[i] in multiset(rows) && r[j] in multiset(rows);
        var p :| 0 <= p < |rows| && rows[p] == r[i];
        var q :| 0 <= q < |rows| && rows[q] == r[j];
        assert p == q;
        assert r[i] == r[j];
        assert multiset(r)[r[i]] >= 2 by {
          assert r == r[..i] + [r[i]] + r[i + 1..j] + [r[j]] + r[j + 1..];
        }
        MultiplicityOne(rows, p);
      }
    }
  }

  /** With unique names every row occurs once. */
  lemma {:induction false} MultiplicityOne(rows: seq<Application>, p: nat)
    requires UniqueNames(rows) && p < |rows|
    ensures multiset(rows)[rows[p]] == 1
  {
    if p == 0 {
      forall k | 0 <= k < |rows[1..]| ensures rows[1..][k] != rows[0] {
        assert rows[1..][k] == rows[k + 1];
      }
      assert rows[0] !in rows[1..];
      assert rows == [rows[0]] + rows[1..];
    } else {
      var tail := rows[1..];
      assert UniqueNames(tail) by {
        forall i, j | 0 <= i < j < |tail| ensures tail[i].name != tail[j].name {
          assert tail[i] == rows[i + 1] && tail[j] == rows[j + 1];
        }
      }
      MultiplicityOne(tail, p - 1);
      assert tail[p - 1] == rows[p];
      assert rows[0] != rows[p];
      assert rows == [rows[0]] + tail;
    }
  }

  /** The order is total on tables with unique names: any two ordered
      listings of the same rows coincide, so `list` is deterministic. */
  lemma {:induction false} ListingIsDeterministic(s: seq<Application>, t: seq<Application>)
    requires ListOrdered(s) && ListOrdered(t) && multiset(s) == multiset(t) && UniqueNames(s)
    ensures s == t
  {
    assert |t| == |s| by { assert |multiset(t)| == |multiset(s)|; }
    if s != [] {
      HeadsAgree(s, t);
      assert s == [s[0]] + s[1..] && t == [t[0]] + t[1..];
      assert multiset(s[1..]) == multiset(s) - multiset{s[0]};
      assert multiset(t[1..]) == multiset(t) - multiset{t[0]};
      OrderedTail(s);
      OrderedTail(t);
      assert UniqueNames(s[1..]) by {
        forall i, j | 0 <= i < j < |s[1..]| ensures s[1..][i].name != s[1..][j].name {
          assert s[1..][i] == s[i + 1] && s[1..][j] == s[j + 1];
        }
      }
      ListingIsDeterministic(s[1..], t[1..]);
    }
  }

  lemma OrderedTail(s: seq<Application>)
    requires ListOrdered(s) && s != []
    ensures ListOrdered(s[1..])
  {
    forall i, j | 0 <= i < j < |s[1..]| ensures ListedNoLater(s[1..][i], s[1..][j]) {
      assert s[1..][i] == s[i + 1] && s[1..][j] == s[j + 1];
    }
  }

  /** Two ordered listings of the same rows start with the same row. */
  lemma HeadsAgree(s: seq<Application>, t: seq<Application>)
    requires ListOrdered(s) && ListOrdered(t) && multiset(s) == multiset(t) && UniqueNames(s)
    requires s != [] && t != []
    ensures s[0] == t[0]
  {
    assert s[0] in multiset(t) && t[0] in multiset(s);
    var p :| 0 <= p < |t| && t[p] == s[0];
    var q :| 0 <= q < |s| && s[q] == t[0];
    if s[0] != t[0] {
      assert p != 0 && q != 0;
      assert ListedNoLater(s[0], s[q]);
      assert ListedNoLater(t[0], t[p]);
      NameLeAntisymmetric(s[0].name, t[0].name);
      assert false;
    }
  }
}
