# OtterShipper application registry, modelled in Dafny

OtterShipper is a deployment platform that AI agents drive through the Model
Context Protocol (MCP). Its core is a small registry of applications. Each
application has a unique id (a UUID), a unique name and a creation timestamp.
The registry is stored in an SQLite file and reached through four layers:

- **Name validation and errors** (`crates/db/src/error.rs`). A name must be
  non-empty, at most 255 bytes long, start with an alphanumeric character,
  and use only alphanumerics, `-` and `_`. `DbError` has five kinds, each with
  its own display text.
- **The database and its repository** (`crates/db/src/lib.rs`,
  `crates/db/src/repositories/application.rs`). `migrate` creates the schema
  once and records that it did. The repository creates, looks up, lists and
  deletes rows.
- **The service** (`crates/core/src/services/application.rs`). It delegates
  every call to the repository and passes results and errors through
  unchanged.
- **The MCP tools** (`crates/server/src/mcp.rs`). `otter_create_app` and
  `otter_list_apps` turn the service's results into JSON success payloads or
  protocol errors.

The model follows these layers module by module:

| module | file | what it models |
|---|---|---|
| `Models` | `models.dfy` | the `Application` record; `created_at` is a signed 64-bit count of milliseconds |
| `Errors` | `errors.dfy` | `DbError` and its display text, UTF-8 byte length, the alphanumeric class, `validate_app_name` |
| `Table` | `table.dfy` | the `applications` table as a sequence of rows, the result of each SQL statement as a pure function, and the listing order |
| `Migrations` | `migrations.dfy` | the schema bootstrap as a function on the schema state |
| `Db` | `db.dfy` | the `Database` handle as a class whose fields are the file's tables, and `ApplicationRepository` as a view on it |
| `Service` | `service.dfy` | `ApplicationService`, with the service's own test scenarios |
| `Mcp` | `mcp.dfy` | the JSON payloads and errors of the two tools, and `McpServer` |

The methods that change the file, such as `Migrate`, `Create` and `Delete`,
are specified by pure functions of the old state: `Migrations.Migrated`,
`Table.CreateResult`, `Table.AfterCreate` and `Table.RemoveById`. The lemmas
about those functions carry what the system promises:

- names and ids stay unique;
- lookups find exactly the created record;
- a delete removes exactly one row;
- `migrate` is idempotent;
- the listing is ordered, complete and deterministic;
- every error message reads back to the error it reports.

Facts the model fixes:

- **Name length counts bytes.** The error text says "characters", but the
  check uses Rust's `str::len`, which counts UTF-8 bytes. The model follows
  the code: `ByteLen` uses the UTF-8 widths of RFC 3629, section 3.
  `Errors.LengthRuleCountsBytes` shows a name of 128 alphanumeric characters
  that is rejected as too long, since each `é` takes two bytes.
- **List order.** The listing is by `created_at` descending, then by name
  ascending. Names compare under SQLite's default BINARY collation, which is
  byte order; for UTF-8 that equals code-point order.
- **A missing table.** Before `migrate` has run, every statement on
  `applications` fails with SQLite's "no such table: applications". The model
  returns `DatabaseError` with that text from create, get, get-by-name, list
  and delete alike.
- **One error code.** Both tools report every failure, whatever its kind,
  with the JSON-RPC "Internal error" code -32603 (section 5.1 of the JSON-RPC
  2.0 specification). Only the message text tells the kinds apart.
  `Mcp.CreateFailuresShareCodeNotMessage` states both halves of this.
- **The clock and UUIDs.** The generated UUID and the clock readings are
  parameters. A new id must not be in the table yet; the UUID generator is
  relied on for this.

## Model

| member | source | states |
|---|---|---|
| Errors.ParseDisplayInverts | crates/db/src/error.rs:4-19 | the display text of every error reads back to that same error (kind and payload) |
| Errors.DisplayInjective | crates/db/src/error.rs:4-19 | two errors with the same display text are the same error |
| Errors.DuplicateMessageEmbedsName | crates/db/src/error.rs:8-9 | the duplicate-name message is the fixed opening, the name, then the fixed closing |
| Errors.ByteLenBounds | crates/db/src/error.rs:29 | a string's UTF-8 length is at least its character count and at most four times it |
| Errors.ByteLenAscii | crates/db/src/error.rs:29 | the UTF-8 length equals the character count exactly when every character is ASCII |
| Errors.ValidateAppName | crates/db/src/error.rs:24-53 | accepts exactly the names that are non-empty, at most 255 bytes, start with an alphanumeric and contain only alphanumerics, `-` and `_`; every rejection is `InvalidName`; the reason is the first rule broken, in the order empty, length, first character, other characters |
| Errors.LengthRuleInCharacters | crates/db/src/error.rs:29-33 | an accepted name has at most 255 characters; for ASCII names the byte bound and the character bound agree |
| Errors.ShortNamePassesLengthRule | crates/db/src/error.rs:29-33 | a name of at most 63 characters never breaks the byte bound |
| Errors.LengthRuleCountsBytes | crates/db/src/error.rs:29-33 | 128 copies of `é` are all alphanumeric, yet the name is rejected with the too-long reason |
| Errors.AcceptedExamples | crates/db/src/error.rs:62-65 | `my-app`, `my_app`, `app123` and `MyApp` are accepted |
| Errors.RejectedExamples | crates/db/src/error.rs:68-72 | the empty name, `-app`, `_app`, `my app` and `my@app` are rejected, each with the reason of the first rule it breaks |
| Errors.TooLongExample | crates/db/src/error.rs:73 | 256 copies of `a` are rejected as too long |
| Table.FindById | crates/db/src/repositories/application.rs:46-52 | finds a row exactly when some row has the id; a found row is in the table and has the id |
| Table.FindByName | crates/db/src/repositories/application.rs:55-61 | finds a row exactly when some row has the name; a found row is in the table and has the name |
| Table.FindByIdExact | crates/db/src/repositories/application.rs:46-52 | with unique ids, looking up a row's id returns that row |
| Table.FindByNameExact | crates/db/src/repositories/application.rs:55-61 | with unique names, looking up a row's name returns that row |
| Table.CreateResult | crates/db/src/repositories/application.rs:17-43 | succeeds exactly when the name is valid, the table exists and the name is free, returning the record with the given id, name and timestamp; otherwise the validation error, the missing-table error or `DuplicateName(name)`, in that order |
| Table.CreateKeepsInvariant | crates/db/src/repositories/application.rs:17-43 | with an id not yet used, `create` keeps names unique, ids unique and every name valid |
| Table.CreateThenLookup | crates/db/src/repositories/application.rs:17-61 | after a successful create, lookup by id and by name return the created record and the table has one more row; a failed create leaves the table unchanged; no old row is lost |
| Table.RemoveById | crates/db/src/repositories/application.rs:74-81 | the rows kept are exactly the rows whose id differs, and there are no more of them than before |
| Table.RemoveByIdCount | crates/db/src/repositories/application.rs:74-81 | with unique ids, a delete removes exactly one row when the id is present and changes nothing otherwise |
| Table.RemoveByIdKeepsInvariant | crates/db/src/repositories/application.rs:74-81 | a delete keeps the table invariant and leaves no row with the id |
| Table.SortForListing | crates/db/src/repositories/application.rs:64-71 | the listing is newest first, ties by ascending name, and holds the same rows as the table |
| Table.ListingContents | crates/db/src/repositories/application.rs:64-71 | with unique names the listing holds every row once, and rows with the same timestamp appear in strictly ascending name order |
| Table.ListingIsDeterministic | crates/db/src/repositories/application.rs:64-71 | any two orderings of the same uniquely named rows that both follow the listing order are equal |
| Migrations.FindMigration | crates/db/src/lib.rs:88-92 | finds a tracking row exactly when one records the name; a found row is in the table and records that name |
| Migrations.Migrated | crates/db/src/lib.rs:73-114 | after `migrate` the tracking table exists, the initial migration is recorded, and the earlier tracking rows are kept in front |
| Migrations.MigratedRunsOnlyWhenAbsent | crates/db/src/lib.rs:94-110 | when the migration is recorded, only the tracking table is ensured; otherwise the applications table is created and exactly one tracking row is appended |
| Migrations.MigratedEstablishesSchema | crates/db/src/lib.rs:73-114 | from a well-formed schema `migrate` yields a well-formed schema with both tables and the initial migration recorded exactly once |
| Migrations.MigratedIdempotent | crates/db/src/lib.rs:94-110 | a second `migrate` changes nothing, whatever the clock reads |
| Migrations.MigrateRepeatedly | crates/db/src/lib.rs:94-110 | migrating any positive number of times gives the state of migrating once |
| Db.DefaultConfig | crates/db/src/lib.rs:22-29 | the default configuration has five connections and write-ahead logging on |
| Db.Database.constructor | crates/db/src/lib.rs:50-52 | opens a file in the state it was left in, keeping the file's consistency |
| Db.Database.Migrate | crates/db/src/lib.rs:73-114 | the schema becomes `Migrated` of the old schema; both tables exist; the migration is recorded once; application rows are untouched; the result is `Ok` |
| Db.Database.Applications | crates/db/src/lib.rs:116-120 | returns a repository over this database |
| Db.ApplicationRepository.constructor | crates/db/src/repositories/application.rs:11-14 | the repository belongs to the given database |
| Db.ApplicationRepository.Create | crates/db/src/repositories/application.rs:17-43 | returns `CreateResult` of the old table; the table becomes `AfterCreate` of it; the schema is unchanged and the table invariant kept |
| Db.ApplicationRepository.Get | crates/db/src/repositories/application.rs:46-52 | succeeds exactly when the table exists, else the missing-table error; finds a row exactly when one has the id |
| Db.ApplicationRepository.GetByName | crates/db/src/repositories/application.rs:55-61 | succeeds exactly when the table exists, else the missing-table error; finds a row exactly when one has the name |
| Db.ApplicationRepository.List | crates/db/src/repositories/application.rs:64-71 | succeeds exactly when the table exists, else the missing-table error; returns the table's rows in listing order |
| Db.ApplicationRepository.Delete | crates/db/src/repositories/application.rs:74-81 | reports whether a row with the id existed; the table becomes `RemoveById` of the old one, so no row with the id is left; a missing table gives the missing-table error |
| Service.ApplicationService.constructor | crates/core/src/services/application.rs:16-18 | the service holds the database and a repository over it |
| Service.ApplicationService.CreateApp | crates/core/src/services/application.rs:36-39 | the repository's create contract, unchanged |
| Service.ApplicationService.GetApp | crates/core/src/services/application.rs:42-44 | the repository's get contract, unchanged |
| Service.ApplicationService.GetAppByName | crates/core/src/services/application.rs:47-49 | the repository's get-by-name contract, unchanged |
| Service.ApplicationService.ListApps | crates/core/src/services/application.rs:52-54 | the repository's list contract, unchanged |
| Service.ApplicationService.DeleteApp | crates/core/src/services/application.rs:57-59 | the repository's delete contract, unchanged |
| Service.Lifecycle | crates/core/src/services/application.rs:78-104 | on an empty migrated database: create `integration-test`, find it by id and by name, list one row, delete it with `true`, then find nothing |
| Service.InvalidNamePropagates | crates/core/src/services/application.rs:112-114 | creating `invalid name` returns the bad-character `InvalidName` and leaves the table unchanged |
| Service.DuplicatePropagates | crates/core/src/services/application.rs:116-119 | a second create of `duplicate` returns `DuplicateName("duplicate")` and the table keeps the first row only |
| Mcp.AppJson | crates/server/src/mcp.rs:39-43 | the record's JSON object has the keys `id`, `name` and `created_at`, and reads back to the record |
| Mcp.AppsRoundTrip | crates/server/src/mcp.rs:68-74 | reading the `applications` array back gives the service's list exactly, in order |
| Mcp.CreatedMessageMentions | crates/server/src/mcp.rs:44 | the confirmation contains "Successfully created application", the name and the id |
| Mcp.CreateResponse | crates/server/src/mcp.rs:35-56 | on success, one payload whose keys are exactly `success` (true), `application` (an object with exactly `id`, `name` and `created_at`, reading back to the record) and `message` (the confirmation); on failure, a protocol error with code -32603, no data, and a message of the fixed prefix followed by text that reads back to the error |
| Mcp.CreateFailuresShareCodeNotMessage | crates/server/src/mcp.rs:51-55 | all create failures share one error code, yet different errors give different protocol errors |
| Mcp.ListResponse | crates/server/src/mcp.rs:64-87 | on success, one payload whose keys are exactly `success` (true), `applications` and `count` (the number of applications); the array has that length, each entry has exactly the keys `id`, `name` and `created_at`, and the array reads back to the list; on failure, the same error shape as create, with its own prefix |
| Mcp.EmptyListing | crates/server/tests/mcp_integration_test.rs:166-170 | an empty registry lists as success with count 0 and an empty array |
| Mcp.McpServer.constructor | crates/server/src/mcp.rs:20-25 | the server holds the given service |
| Mcp.McpServer.OtterCreateApp | crates/server/src/mcp.rs:29-57 | passes the name to the service unchanged; the result is `CreateResponse` of the create's result, and the table changes as `create` changes it |
| Mcp.McpServer.OtterListApps | crates/server/src/mcp.rs:61-88 | the result is `ListResponse` of the service's listing, and nothing is changed |
| Mcp.CreateThenList | crates/server/tests/mcp_integration_test.rs:52-84 | on an empty migrated registry, creating `test-app` through the tool confirms it by name, and the listing then counts one record |

## Left out

- Connection setup (`Database::new`, `new_with_config`, the pool, WAL mode): this is I/O. A `Database` is built from the state its file is in.
- The SQL text of the initial migration and the columns and indexes it creates: the model keeps only whether the `applications` table exists.
- Db.Database.Migrate: a failure of any of its four statements (disk, lock or pool errors) is not modelled, so `Migrate` always returns `Ok`.
- Storage failures other than a missing `applications` table (busy database, pool timeout, I/O errors) are not modelled: every statement succeeds when its table exists.
- `DatabaseError` carries SQLite's message text ("no such table: applications"); the exact wording sqlx adds when it formats an `sqlx::Error` is not modelled.
- Duplicate detection via the SQLite error code "2067" is modelled as a check for the name already being in the table, which is what the UNIQUE constraint reports.
- UUID generation and the clock are parameters. Each new id being unused is a precondition, so ids are not checked for never being reused after a delete.
- Concurrency: the connection pool, concurrent tasks and the concurrent-create test (crates/db/tests/application_test.rs:197-224). Each operation is one atomic step.
- Errors.IsAlnum: Rust's `char::is_alphanumeric` is exact here only below U+0100 (ASCII and Latin-1 letters and digits). Every character from U+0100 up is treated as not alphanumeric. So `ValidateAppName` rejects names in other scripts (Greek, Cyrillic, CJK) that the source accepts.
- `NotFound` and `Internal` are modelled as errors with display text only. No operation in the core produces them.
- JSON text: the pretty-printed serialization and its parsing back in the tests. Content is modelled as a JSON value.
- The MCP machinery: the `#[tool]` / `#[tool_router]` macros, `get_info` (crates/server/src/mcp.rs:91-104), the transports and the tracing calls.
- crates/server/src/main.rs, crates/server/src/config.rs and the crates' re-exports are not part of this model.
- The service's `applications()` view is taken once rather than per call. The view holds no state of its own, so this changes nothing.
