/**
 * The client operations of services/taskmanager/clientService.js over the
 * tables of TaskDb, each a method proved against a function of the table
 * state; ClientServiceProps proves what those functions promise.
 */
module ClientService {
  import opened Base
  import opened DbValue
  import opened Tables
  import opened TaskDb
  import DbWhere
  import DbMock

  const ActiveProjectsMessage: string := "Cannot archive a client with active projects"

  // ---------------------------------------------------------------------
  // WHERE clauses

  function ClientWithId(id: int): Client -> bool {
    (c: Client) => c.id == id
  }

  function OtherClient(id: int): Client -> bool {
    (c: Client) => c.id != id
  }

  /** `archived IS NULL OR archived = 0` */
  predicate ActiveClient(c: Client) {
    Active(c.archived)
  }

  /** `client_id = ? AND (archived IS NULL OR archived = 0)` on clients */
  function ArchivableClient(id: int): Client -> bool {
    (c: Client) => c.id == id && Active(c.archived)
  }

  /** `client_id = ? AND (archived IS NULL OR archived = 0)` on projects */
  function ActiveProjectOf(id: int): Project -> bool {
    (p: Project) => p.clientId == Num(id) && Active(p.archived)
  }

  /** `{client_id, client_name, contact_info}`: the values as the caller passed them. */
  datatype ClientEcho = ClientEcho(clientId: int, clientName: Value, contactInfo: Value)

  // ---------------------------------------------------------------------
  // getAllClients (lines 3-6)

  method GetAllClients(db: Db) returns (rows: seq<Client>)
    ensures rows == Select(db.clients, ActiveClient)
  {
    rows := SelectWhere(db.clients, ActiveClient);
  }

  // ---------------------------------------------------------------------
  // getClientById (lines 8-11): `rows[0]`, undefined when no row matches

  method GetClientById(db: Db, id: int) returns (r: Option<Client>)
    ensures r.None? <==> forall k :: 0 <= k < |db.clients| ==> db.clients[k].id != id
    ensures r.Some? ==> exists k :: 0 <= k < |db.clients| && db.clients[k] == r.value && r.value.id == id &&
                          forall j :: 0 <= j < k ==> db.clients[j].id != id
  {
    var k := FindFirst(db.clients, ClientWithId(id));
    r := if k.Some? then Some(db.clients[k.value]) else None;
  }

  // ---------------------------------------------------------------------
  // createClient (lines 13-17)

  function CreateClientSpec(s: State, data: Row): (State, Result<ClientEcho, string>) {
    var name, contact := Get(data, "client_name"), Get(data, "contact_info");
    if Param(name) == Null then (s, Err(NotNullError("client_name")))
    else
      var row := Client(s.nextClientId, Param(name), Param(contact), NotArchived);
      (s.(clients := s.clients + [row], nextClientId := s.nextClientId + 1), Ok(ClientEcho(s.nextClientId, name, contact)))
  }

  method CreateClient(db: Db, data: Row) returns (r: Result<ClientEcho, string>)
    modifies db
    ensures (db.Snapshot(), r) == CreateClientSpec(old(db.Snapshot()), data)
  {
    var name, contact := Get(data, "client_name"), Get(data, "contact_info");
    if Param(name) == Null {
      return Err(NotNullError("client_name"));
    }
    var id := db.nextClientId;
    db.clients := db.clients + [Client(id, Param(name), Param(contact), NotArchived)];
    db.nextClientId := id + 1;
    r := Ok(ClientEcho(id, name, contact));
  }

  // ---------------------------------------------------------------------
  // updateClient (lines 19-26)

  function UpdateClientSpec(s: State, id: int, data: Row): (State, Result<Option<ClientEcho>, string>) {
    var name, contact := Get(data, "client_name"), Get(data, "contact_info");
    match FirstIndex(s.clients, ClientWithId(id))
    case None => (s, Ok(None))
    case Some(k) =>
      if Param(name) == Null then (s, Err(NotNullError("client_name")))
      else
        var row := s.clients[k].(name := Param(name), contactInfo := Param(contact));
        (s.(clients := s.clients[k := row]), Ok(Some(ClientEcho(id, name, contact))))
  }

  /** Client ids are the table's primary key: under `Valid()` the first row with the id is the only row `WHERE client_id = ?` names. */
  method UpdateClient(db: Db, id: int, data: Row) returns (r: Result<Option<ClientEcho>, string>)
    requires db.Valid()
    modifies db
    ensures (db.Snapshot(), r) == UpdateClientSpec(old(db.Snapshot()), id, data)
  {
    var name, contact := Get(data, "client_name"), Get(data, "contact_info");
    var k := FindFirst(db.clients, ClientWithId(id));
    if k.None? {
      return Ok(None);
    }
    if Param(name) == Null {
      return Err(NotNullError("client_name"));
    }
    db.clients := db.clients[k.value := db.clients[k.value].(name := Param(name), contactInfo := Param(contact))];
    r := Ok(Some(ClientEcho(id, name, contact)));
  }

  // ---------------------------------------------------------------------
  // archiveClient (lines 28-34)

  /** The UPDATE of archiveClient, and whether it changed a row. */
  function ArchiveClientRow(s: State, id: int): (State, bool) {
    match FirstIndex(s.clients, ArchivableClient(id))
    case None => (s, false)
    case Some(k) => (s.(clients := s.clients[k := s.clients[k].(archived := Num(1))]), true)
  }

  /** The intended guard: a client with an active project is not archived, and nothing changes. */
  function ArchiveClientSpec(s: State, id: int): (State, Result<bool, string>) {
    if |Select(s.projects, ActiveProjectOf(id))| > 0 then (s, Err(ActiveProjectsMessage))
    else
      var (s2, changed) := ArchiveClientRow(s, id);
      (s2, Ok(changed))
  }

  /**
   * archiveClient as written, on the pool in use: on the driver the guard
   * reads the count where the reply does not hold it; on the test double
   * both statements go through its engine (`DBMock.MatchRows`).
   */
  method ArchiveClient(pool: Pool, db: Db, id: int) returns (r: Result<bool, string>)
    modifies db
    ensures (db.Snapshot(), r) == ArchiveClientAsWritten(pool, old(db.Snapshot()), id)
  {
    if pool == Driver {
      var count := CountWhere(db.projects, ActiveProjectOf(id));
      if Truthy(CountPropertyAsWritten(DriverCount(count))) {
        return Err(ActiveProjectsMessage);
      }
      var k := FindFirst(db.clients, ArchivableClient(id));
      if k.Some? {
        db.clients := db.clients[k.value := db.clients[k.value].(archived := Num(1))];
      }
      r := Ok(k.Some?);
    } else {
      var projects := DbMock.DBMock.MatchRows(ProjectRows(db.projects), Some(ActiveOfClientWhere), [Num(id)], 0);
      ThreadedActiveOf(ProjectRows(db.projects), [Num(id)], 0);
      if Truthy(CountPropertyAsWritten(MockReply(|DbWhere.Keep(ProjectRows(db.projects), projects.value.0)|))) {
        return Err(ActiveProjectsMessage);
      }
      var clients := DbMock.DBMock.MatchRows(ClientRows(db.clients), Some(ActiveOfClientWhere), [Num(id)], 0);
      ThreadedActiveOf(ClientRows(db.clients), [Num(id)], 0);
      r := Ok(|DbWhere.Keep(ClientRows(db.clients), clients.value.0)| > 0);
      db.clients := ArchiveFlagged(db.clients, clients.value.0);
    }
  }

  /**
   * What `pool.query` resolves to for the COUNT(*) statement. The `mysql2`
   * driver gives `[rows, fields]`, each row `{'COUNT(*)': n}`; the test
   * double (tests/utils/dbmock.js:146-147) gives `[{'COUNT(*)': n}]`.
   */
  datatype CountReply = DriverReply(rows: seq<Row>) | MockReply(count: nat)

  /** The driver's reply to a count of `n`. */
  function DriverCount(n: nat): CountReply {
    DriverReply([map["COUNT(*)" := Num(n)]])
  }

  /** `count?.[0]?.['COUNT(*)']`: on the driver's reply `count[0]` is the rows array, which has no such property. */
  function CountPropertyAsWritten(reply: CountReply): Value {
    match reply
    case DriverReply(_) => Undefined
    case MockReply(n) => Num(n)
  }

  /** Which `pool` answers: the mysql2 driver, or the test double of tests/utils/dbmock.js. */
  datatype Pool = Driver | Mock

  /** `client_id = ? AND (archived IS NULL OR archived = 0)` as the parser hands it to the test double. */
  const ActiveOfClientWhere: DbWhere.Expr :=
    DbWhere.Binary(DbWhere.And,
      DbWhere.Binary(DbWhere.Cmp(DbWhere.Eq), DbWhere.ColumnRef("client_id"), DbWhere.Placeholder),
      DbWhere.Binary(DbWhere.Or,
        DbWhere.Binary(DbWhere.Cmp(DbWhere.Is), DbWhere.ColumnRef("archived"), DbWhere.Literal(Null)),
        DbWhere.Binary(DbWhere.Cmp(DbWhere.Eq), DbWhere.ColumnRef("archived"), DbWhere.Literal(Num(0)))))

  /** A project as the test double stores it. */
  function ProjectRow(p: Project): Row {
    map["project_id" := Num(p.id), "project_name" := p.name, "description" := p.description,
        "status" := p.status, "client_id" := p.clientId, "archived" := p.archived]
  }

  /** A client as the test double stores it. */
  function ClientRow(c: Client): Row {
    map["client_id" := Num(c.id), "client_name" := c.name, "contact_info" := c.contactInfo, "archived" := c.archived]
  }

  function ProjectRows(ps: seq<Project>): seq<Row> {
    seq(|ps|, k requires 0 <= k < |ps| => ProjectRow(ps[k]))
  }

  function ClientRows(cs: seq<Client>): seq<Row> {
    seq(|cs|, k requires 0 <= k < |cs| => ClientRow(cs[k]))
  }

  /**
   * The test double's verdict on a row whose `?` reads `v`: strict equality
   * of `client_id`, and `IS NULL` taking `undefined` as well as `null`.
   */
  predicate MockMatch(row: Row, v: Value) {
    StrictEq(Get(row, "client_id"), v) && (Missing(Get(row, "archived")) || StrictEq(Get(row, "archived"), Num(0)))
  }

  /** The engine's flags for that WHERE: row `k` reads `values[i + k]`, the shared counter having passed one `?` per earlier row. */
  function MockFlags(rows: seq<Row>, values: seq<Value>, i: nat): (flags: seq<bool>)
    ensures |flags| == |rows|
  {
    seq(|rows|, k requires 0 <= k < |rows| => MockMatch(rows[k], ValueAt(values, i + k)))
  }

  /** One row: the `?` is the left operand of AND's left comparison, so it is always taken. */
  lemma ThreadedActiveOfRow(row: Row, values: seq<Value>, j: nat)
    ensures DbWhere.EvalThreaded(ActiveOfClientWhere, row, values, j) == Ok((MockMatch(row, ValueAt(values, j)), j + 1))
  {
    var isNull := DbWhere.Binary(DbWhere.Cmp(DbWhere.Is), DbWhere.ColumnRef("archived"), DbWhere.Literal(Null));
    var isZero := DbWhere.Binary(DbWhere.Cmp(DbWhere.Eq), DbWhere.ColumnRef("archived"), DbWhere.Literal(Num(0)));
    var idEq := DbWhere.Binary(DbWhere.Cmp(DbWhere.Eq), DbWhere.ColumnRef("client_id"), DbWhere.Placeholder);
    assert DbWhere.EvalThreaded(idEq, row, values, j) == Ok((StrictEq(Get(row, "client_id"), ValueAt(values, j)), j + 1));
    assert DbWhere.EvalThreaded(isNull, row, values, j + 1) == Ok((Missing(Get(row, "archived")), j + 1));
    assert DbWhere.EvalThreaded(isZero, row, values, j + 1) == Ok((StrictEq(Get(row, "archived"), Num(0)), j + 1));
  }

  /** The engine's filter over any rows for that WHERE: never an error, row `k` reads slot `i + k`. */
  lemma {:induction false} ThreadedActiveOf(rows: seq<Row>, values: seq<Value>, i: nat)
    ensures DbWhere.FlagsThreaded(rows, Some(ActiveOfClientWhere), values, i) == Ok((MockFlags(rows, values, i), i + |rows|))
    decreases |rows|
  {
    if rows != [] {
      var n := |rows| - 1;
      ThreadedActiveOf(rows[..n], values, i);
      ThreadedActiveOfRow(rows[n], values, i + n);
      assert MockFlags(rows, values, i) == MockFlags(rows[..n], values, i) + [MockMatch(rows[n], ValueAt(values, i + n))];
    }
  }

  /** `SET archived = 1` on every flagged client. */
  function ArchiveFlagged(clients: seq<Client>, flags: seq<bool>): (out: seq<Client>)
    requires |flags| == |clients|
    ensures |out| == |clients|
  {
    seq(|clients|, k requires 0 <= k < |clients| => if flags[k] then clients[k].(archived := Num(1)) else clients[k])
  }

  /** archiveClient as written on the driver: the COUNT reply is not destructured, so the guard reads `undefined`. */
  function ArchiveOnDriver(s: State, id: int): (State, Result<bool, string>) {
    var reply := DriverCount(|Select(s.projects, ActiveProjectOf(id))|);
    if Truthy(CountPropertyAsWritten(reply)) then (s, Err(ActiveProjectsMessage))
    else
      var (s2, changed) := ArchiveClientRow(s, id);
      (s2, Ok(changed))
  }

  /**
   * archiveClient as written on the test double: both filters share the
   * engine's placeholder counter, so only the first row of each table
   * reads the id; the UPDATE archives every flagged client.
   */
  function ArchiveOnMock(s: State, id: int): (State, Result<bool, string>) {
    var busy := MockFlags(ProjectRows(s.projects), [Num(id)], 0);
    if Truthy(CountPropertyAsWritten(MockReply(|DbWhere.Keep(ProjectRows(s.projects), busy)|))) then (s, Err(ActiveProjectsMessage))
    else
      var flags := MockFlags(ClientRows(s.clients), [Num(id)], 0);
      (s.(clients := ArchiveFlagged(s.clients, flags)), Ok(|DbWhere.Keep(ClientRows(s.clients), flags)| > 0))
  }

  /** archiveClient as written, on the pool in use. */
  function ArchiveClientAsWritten(pool: Pool, s: State, id: int): (State, Result<bool, string>) {
    match pool
    case Driver => ArchiveOnDriver(s, id)
    case Mock => ArchiveOnMock(s, id)
  }

  // ---------------------------------------------------------------------
  // deleteClient (lines 36-39)

  function DeleteClientSpec(s: State, id: int): (State, bool) {
    var kept := Select(s.clients, OtherClient(id));
    (s.(clients := kept), |kept| < |s.clients|)
  }

  method DeleteClient(db: Db, id: int) returns (deleted: bool)
    modifies db
    ensures (db.Snapshot(), deleted) == DeleteClientSpec(old(db.Snapshot()), id)
  {
    var kept := SelectWhere(db.clients, OtherClient(id));
    deleted := |kept| < |db.clients|;
    db.clients := kept;
  }
}
