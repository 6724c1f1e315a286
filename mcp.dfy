/** The tool surface (crates/server/src/mcp.rs): the two tools an agent can
    call, `otter_create_app` and `otter_list_apps`, and how each shapes the
    service's result into a protocol success payload or a protocol error.
    JSON is a value here; its pretty-printed text is not modelled. */
module Mcp {
  import opened Wrappers
  import opened Errors
  import opened Models
  import Table
  import Service

  // ---------------------------------------------------------------------
  // Protocol values
  // ---------------------------------------------------------------------

  datatype Json =
    | JNull
    | JBool(b: bool)
    | JNumber(n: int)
    | JString(s: string)
    | JArray(items: seq<Json>)
    | JObject(fields: map<string, Json>)

  /** The input of `otter_create_app` (crates/server/src/schemas.rs). */
  datatype CreateAppInput = CreateAppInput(name: string)

  /** An error code of the protocol's JSON-RPC 2.0 envelope. */
  datatype ErrorCode = ErrorCode(code: int)

  /** "Internal error", code -32603 in section 5.1 of the JSON-RPC 2.0
      specification. */
  const InternalError := ErrorCode(-32603)

  datatype McpError = McpError(code: ErrorCode, message: string, data: Option<Json>)

  /** A text content item; the text is the serialization of `json`. */
  datatype Content = Text(json: Json)

  datatype CallToolResult = CallToolResult(content: seq<Content>, isError: bool)

  /** What a tool handler returns: a tool result or a protocol error. */
  datatype ToolResult = ToolOk(result: CallToolResult) | ToolErr(error: McpError)

  /** `CallToolResult::success`: the given content, not flagged as an error. */
  function Success(content: seq<Content>): CallToolResult
  {
    CallToolResult(content, false)
  }

  function Field(j: Json, key: string): Option<Json>
  {
    if j.JObject? && key in j.fields then Some(j.fields[key]) else None
  }

  /** The one JSON payload of a successful tool result. */
  function Payload(t: ToolResult): Option<Json>
  {
    if t.ToolOk? && !t.result.isError && |t.result.content| == 1 then Some(t.result.content[0].json) else None
  }

  // ---------------------------------------------------------------------
  // Application records as JSON
  // ---------------------------------------------------------------------

  /** Reads an application record back from its JSON object. */
  function AppFromJson(j: Json): Option<Application>
  {
    match j
    case JObject(m) =>
      if && "id" in m && m["id"].JString?
         && "name" in m && m["name"].JString?
         && "created_at" in m && m["created_at"].JNumber?
         && I64Min <= m["created_at"].n <= I64Max
      then Some(Application(m["id"].s, m["name"].s, m["created_at"].n))
      else None
    case _ => None
  }

  /** The `{id, name, created_at}` object of a record. */
  function AppJson(app: Application): (j: Json)
    ensures AppFromJson(j) == Some(app)
    ensures j.JObject? && j.fields.Keys == {"id", "name", "created_at"}
  {
    JObject(map["id" := JString(app.id), "name" := JString(app.name), "created_at" := JNumber(app.createdAt)])
  }

  /** The element-wise projection `apps.iter().map(...)`. */
  function AppsJson(apps: seq<Application>): (items: seq<Json>)
    ensures |items| == |apps|
    ensures forall i | 0 <= i < |apps| :: items[i] == AppJson(apps[i])
  {
    seq(|apps|, i requires 0 <= i < |apps| => AppJson(apps[i]))
  }

  function AppsFromJson(items: seq<Json>): Option<seq<Application>>
  {
    if items == [] then Some([])
    else match (AppFromJson(items[0]), AppsFromJson(items[1..]))
      case (Some(a), Some(rest)) => Some([a] + rest)
      case _ => None
  }

  /** The projection loses nothing and keeps the order: reading the array
      back gives the service's list exactly. */
  lemma {:induction false} AppsRoundTrip(apps: seq<Application>)
    ensures AppsFromJson(AppsJson(apps)) == Some(apps)
  {
    if apps != [] {
      var items := AppsJson(apps);
      assert items[1..] == AppsJson(apps[1..]);
      AppsRoundTrip(apps[1..]);
      assert AppFromJson(items[0]) == Some(apps[0]);
      assert apps == [apps[0]] + apps[1..];
    }
  }

  // ---------------------------------------------------------------------
  // otter_create_app
  // ---------------------------------------------------------------------

  const CreatedPrefix := "Successfully created application '"
  const CreatedMiddle := "' with ID "
  const CreateFailurePrefix := "Failed to create application: "

  function CreatedMessage(app: Application): string
  {
    CreatedPrefix + app.name + CreatedMiddle + app.id
  }

  predicate OccursAt(s: string, sub: string, k: int)
  {
    0 <= k <= |s| - |sub| && s[k..k + |sub|] == sub
  }

  ghost predicate Contains(s: string, sub: string)
  {
    exists k :: OccursAt(s, sub, k)
  }

  /** The confirmation names the application and its id, after the fixed
      opening words. */
  lemma CreatedMessageMentions(app: Application)
    ensures var msg := CreatedMessage(app);
      && Contains(msg, "Successfully created application")
      && Contains(msg, app.name)
      && Contains(msg, app.id)
  {
    var msg := CreatedMessage(app);
    assert OccursAt(msg, "Successfully created application", 0);
    assert OccursAt(msg, app.name, |CreatedPrefix|);
    assert OccursAt(msg, app.id, |msg| - |app.id|);
  }

  /** How `otter_create_app` shapes the service's create result. */
  function CreateResponse(r: Result<Application>): (t: ToolResult)
    ensures r.Ok? ==>
      && Payload(t).Some?
      && Payload(t).value.JObject?
      && Payload(t).value.fields.Keys == {"success", "application", "message"}
      && Field(Payload(t).value, "success") == Some(JBool(true))
      && Field(Payload(t).value, "application").Some?
      && Field(Payload(t).value, "application").value.JObject?
      && Field(Payload(t).value, "application").value.fields.Keys == {"id", "name", "created_at"}
      && AppFromJson(Field(Payload(t).value, "application").value) == Some(r.value)
      && Field(Payload(t).value, "message") == Some(JString(CreatedMessage(r.value)))
    ensures r.Err? ==> t.ToolErr? && t.error.code == InternalError && t.error.data.None?
    ensures r.Err? ==> (HasPrefix(t.error.message, CreateFailurePrefix)
      && ParseDisplay(t.error.message[|CreateFailurePrefix|..]) == Some(r.error))
  {
    match r
    case Ok(app) =>
      ToolOk(Success([Text(JObject(map[
        "success" := JBool(true),
        "application" := AppJson(app),
        "message" := JString(CreatedMessage(app))]))]))
    case Err(e) =>
      var msg := CreateFailurePrefix + Display(e);
      assert msg[..|CreateFailurePrefix|] == CreateFailurePrefix;
      assert msg[|CreateFailurePrefix|..] == Display(e);
      ParseDisplayInverts(e);
      ToolErr(McpError(InternalError, msg, None))
  }

  /** Every failure, whatever its kind, gets the same protocol code, yet the
      message still tells the failures apart. */
  lemma CreateFailuresShareCodeNotMessage(e1: DbError, e2: DbError)
    ensures CreateResponse(Err(e1)).error.code == CreateResponse(Err(e2)).error.code
    ensures CreateResponse(Err(e1)) == CreateResponse(Err(e2)) ==> e1 == e2
  {
  }

  // ---------------------------------------------------------------------
  // otter_list_apps
  // ---------------------------------------------------------------------

  const ListFailurePrefix := "Failed to list applications: "

  /** How `otter_list_apps` shapes the service's list result. */
  function ListResponse(r: Result<seq<Application>>): (t: ToolResult)
    ensures r.Ok? ==>
      && Payload(t).Some?
      && Payload(t).value.JObject?
      && Payload(t).value.fields.Keys == {"success", "applications", "count"}
      && Field(Payload(t).value, "success") == Some(JBool(true))
      && Field(Payload(t).value, "count") == Some(JNumber(|r.value|))
      && Field(Payload(t).value, "applications").Some?
      && Field(Payload(t).value, "applications").value.JArray?
      && |Field(Payload(t).value, "applications").value.items| == |r.value|
      && (forall i | 0 <= i < |r.value| ::
            var item := Field(Payload(t).value, "applications").value.items[i];
            item.JObject? && item.fields.Keys == {"id", "name", "created_at"})
      && AppsFromJson(Field(Payload(t).value, "applications").value.items) == Some(r.value)
    ensures r.Err? ==> t.ToolErr? && t.error.code == InternalError && t.error.data.None?
    ensures r.Err? ==> (HasPrefix(t.error.message, ListFailurePrefix)
      && ParseDisplay(t.error.message[|ListFailurePrefix|..]) == Some(r.error))
  {
    match r
    case Ok(apps) =>
      AppsRoundTrip(apps);
      ToolOk(Success([Text(JObject(map[
        "success" := JBool(true),
        "applications" := JArray(AppsJson(apps)),
        "count" := JNumber(|apps|)]))]))
    case Err(e) =>
      var msg := ListFailurePrefix + Display(e);
      assert msg[..|ListFailurePrefix|] == ListFailurePrefix;
      assert msg[|ListFailurePrefix|..] == Display(e);
      ParseDisplayInverts(e);
      ToolErr(McpError(InternalError, msg, None))
  }

  /** An empty store lists as success with count 0 and no entries. */
  lemma EmptyListing()
    ensures var p := Payload(ListResponse(Ok([])));
      && p.Some?
      && Field(p.value, "success") == Some(JBool(true))
      && Field(p.value, "count") == Some(JNumber(0))
      && Field(p.value, "applications") == Some(JArray([]))
  {
  }

  // ---------------------------------------------------------------------
  // The server
  // ---------------------------------------------------------------------

  class McpServer {
    const service: Service.ApplicationService

    constructor (service: Service.ApplicationService)
      ensures this.service == service
    {
      this.service := service;
    }

    /** Passes the requested name to the service unchanged and shapes what
        comes back; the id and timestamp stand for the generated uuid and
        the clock reading. */
    method OtterCreateApp(input: CreateAppInput, id: string, createdAt: Millis) returns (r: ToolResult)
      requires service.Valid()
      requires Table.FindById(service.db.rows, id).None?
      modifies service.db
      ensures service.Valid()
      ensures var created := Table.CreateResult(old(service.db.rows), old(service.db.appsTableExists), input.name, id, createdAt);
        && r == CreateResponse(created)
        && service.db.rows == Table.AfterCreate(old(service.db.rows), created)
      ensures service.db.Schema() == old(service.db.Schema())
    {
      var created := service.CreateApp(input.name, id, createdAt);
      r := CreateResponse(created);
    }

    /** Lists the applications; reads the store only. */
    method OtterListApps() returns (r: ToolResult)
      requires service.Wired()
      ensures r == ListResponse(service.ListApps())
    {
      var apps := service.ListApps();
      r := ListResponse(apps);
    }
  }

  /** Creating `test-app` through the tool on an empty migrated store
      confirms it, and the store then lists exactly that record. */
  method CreateThenList(server: McpServer, id: string, createdAt: Millis)
      returns (created: ToolResult, listed: ToolResult)
    requires server.service.Valid()
    requires server.service.db.appsTableExists && server.service.db.rows == []
    modifies server.service.db
    ensures Payload(created).Some?
    ensures Field(Payload(created).value, "message") == Some(JString(CreatedMessage(Application(id, "test-app", createdAt))))
    ensures Contains(CreatedMessage(Application(id, "test-app", createdAt)), "Successfully created application")
    ensures Contains(CreatedMessage(Application(id, "test-app", createdAt)), "test-app")
    ensures Payload(listed).Some? && Field(Payload(listed).value, "count") == Some(JNumber(1))
    ensures server.service.db.rows == [Application(id, "test-app", createdAt)]
  {
    TestAppValid();
    created := server.OtterCreateApp(CreateAppInput("test-app"), id, createdAt);
    CreatedMessageMentions(Application(id, "test-app", createdAt));
    listed := server.OtterListApps();
    assert |multiset(server.service.ListApps().value)| == |multiset(server.service.db.rows)| == 1;
  }

  lemma TestAppValid()
    ensures IsValidAppName("test-app")
  {
    var s := "test-app";
    assert forall i | 0 <= i < |s| :: IsNameChar(s[i]);
    ShortNamePassesLengthRule(s);
  }
}
