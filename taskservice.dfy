/**
 * The task lifecycle of services/taskmanager/taskService.js over
 * the tables of TaskDb. Each operation is a method that issues the
 * service's statements in order against a `Db`, proved against a function
 * of the table state that says what the whole call does (new state and
 * result or error); TaskServiceProps proves what those functions promise.
 *
 * The `later` recurrence library is a parameter: whether an expression
 * parses, and the first occurrence after a time value.
 */
module TaskService {
  import opened Base
  import opened Decimal
  import opened DbValue
  import opened IsoTime
  import opened Tables
  import opened TaskDb

  const RequiredMessage: string := "Task name and context ID are required."

  const Completed: Value := Str("Completed")

  /** `later.parse.text(e).error === -1`, and `later.schedule(s).next(1, from)` (`None` when it finds none). */
  datatype Recurrence = Recurrence(parses: string -> bool, next: (string, int) -> Option<int>)

  // ---------------------------------------------------------------------
  // WHERE clauses
  function TaskWithId(id: int): Task -> bool {
    (t: Task) => t.id == id
  }

  /** `task_id = ? AND (archived IS NULL OR archived = 0)` */
  function ArchivableTask(id: int): Task -> bool {
    (t: Task) => t.id == id && Active(t.archived)
  }

  /** `project_name = 'Miscellaneous'` */
  predicate IsMiscellaneous(p: Project) {
    p.name == Str("Miscellaneous")
  }

  // ---------------------------------------------------------------------
  // getTaskById (lines 27-30): `rows[0]`, undefined when no row matches

  method GetTaskById(db: Db, id: int) returns (r: Option<Task>)
    ensures r.None? <==> forall k :: 0 <= k < |db.tasks| ==> db.tasks[k].id != id
    ensures r.Some? ==> exists k :: 0 <= k < |db.tasks| && db.tasks[k] == r.value && r.value.id == id &&
                          forall j :: 0 <= j < k ==> db.tasks[j].id != id
  {
    var k := FindFirst(db.tasks, TaskWithId(id));
    r := if k.Some? then Some(db.tasks[k.value]) else None;
  }

  // ---------------------------------------------------------------------
  // getOrCreateMiscellaneousProject (lines 33-49)

  function MiscProject(id: int): Project {
    Project(id, Str("Miscellaneous"), Str("Default project for unclassified tasks"), Str("Active"), Null, NotArchived)
  }

  /** The state after the lookup and the insert it may need, and the project id returned. */
  function EnsureMisc(s: State): (State, int) {
    match FirstIndex(s.projects, IsMiscellaneous)
    case Some(k) => (s, s.projects[k].id)
    case None =>
      (s.(projects := s.projects + [MiscProject(s.nextProjectId)], nextProjectId := s.nextProjectId + 1), s.nextProjectId)
  }

  method GetOrCreateMiscellaneousProject(db: Db) returns (id: int)
    modifies db
    ensures (db.Snapshot(), id) == EnsureMisc(old(db.Snapshot()))
  {
    var k := FindFirst(db.projects, IsMiscellaneous);
    if k.Some? {
      return db.projects[k.value].id;
    }
    id := db.nextProjectId;
    db.projects := db.projects + [MiscProject(id)];
    db.nextProjectId := id + 1;
  }

  // ---------------------------------------------------------------------
  // createTask (lines 52-84)

  predicate HasRequired(data: Row) {
    Truthy(Get(data, "task_name")) && Truthy(Get(data, "context_id"))
  }

  /** The row the INSERT of createTask stores: its seven columns, the rest at their defaults. */
  function NewTask(data: Row, projectId: Value, due: Option<int>, id: int): Task {
    Task(id, Param(Get(data, "task_name")), Param(Get(data, "description")), DefaultStatus, Param(projectId), Null,
         Param(Get(data, "context_id")), Param(Get(data, "priority_id")), due, None, Null, Null, Null, Null,
         Param(Get(data, "schedule_expression")), Null, NotArchived)
  }

  /** The project the task is filed under, and the state after finding or creating it. */
  function ProjectFor(s: State, data: Row): (State, Value) {
    if Truthy(Get(data, "project_id")) then (s, Get(data, "project_id"))
    else
      var (s1, id) := EnsureMisc(s);
      (s1, Num(id))
  }

  function CreateTaskSpec(s: State, data: Row): (State, Result<Task, string>) {
    if !HasRequired(data) then (s, Err(RequiredMessage))
    else
      var (s1, projectId) := ProjectFor(s, data);
      match DateParam(Get(data, "due_date"))
      case Err(e) => (s1, Err(e))
      case Ok(due) =>
        var t := NewTask(data, projectId, due, s1.nextTaskId);
        (s1.(tasks := s1.tasks + [t], nextTaskId := s1.nextTaskId + 1), Ok(t))
  }

  /** The row `SELECT * ... WHERE task_id = insertId` finds is the one just inserted. */
  lemma NewestRowFound(tasks: seq<Task>, t: Task)
    requires forall i :: 0 <= i < |tasks| ==> tasks[i].id < t.id
    ensures FirstIndex(tasks + [t], TaskWithId(t.id)) == Some(|tasks|)
  {
    var all := tasks + [t];
    var r := FirstIndex(all, TaskWithId(t.id));
    assert TaskWithId(t.id)(all[|tasks|]);
    assert forall k :: 0 <= k < |tasks| ==> !TaskWithId(t.id)(all[k]);
  }

  method CreateTask(db: Db, data: Row) returns (r: Result<Task, string>)
    requires db.Valid()
    modifies db
    ensures (db.Snapshot(), r) == CreateTaskSpec(old(db.Snapshot()), data)
  {
    if !Truthy(Get(data, "task_name")) || !Truthy(Get(data, "context_id")) {
      return Err(RequiredMessage);
    }
    var projectId := Get(data, "project_id");
    if !Truthy(projectId) {
      var misc := GetOrCreateMiscellaneousProject(db);
      projectId := Num(misc);
    }
    assert (db.Snapshot(), projectId) == ProjectFor(old(db.Snapshot()), data);
    var due := DateParam(Get(data, "due_date"));
    if due.Err? {
      return Err(due.error);
    }
    var t := NewTask(data, projectId, due.value, db.nextTaskId);
    r := InsertTask(db, t);
  }

  /** The INSERT of a row that takes the next id, then the SELECT of that id. */
  method InsertTask(db: Db, t: Task) returns (r: Result<Task, string>)
    requires t.id == db.nextTaskId
    requires forall i :: 0 <= i < |db.tasks| ==> db.tasks[i].id < db.nextTaskId
    modifies db
    ensures db.Snapshot() == old(db.Snapshot()).(tasks := old(db.tasks) + [t], nextTaskId := old(db.nextTaskId) + 1)
    ensures r == Ok(t)
  {
    NewestRowFound(db.tasks, t);
    db.tasks := db.tasks + [t];
    db.nextTaskId := t.id + 1;
    var k := FindFirst(db.tasks, TaskWithId(t.id));
    r := Ok(db.tasks[k.value]);
  }

  // ---------------------------------------------------------------------
  // updateTask (lines 87-132)

  /** The row after the UPDATE: fourteen columns from `data`, the id, expression and archive flag kept. */
  function Revised(t: Task, data: Row, due: Option<int>, start: Option<int>): Task {
    t.(name := Param(Get(data, "task_name")),
       description := Param(Get(data, "description")),
       status := Param(Get(data, "status")),
       projectId := Param(Get(data, "project_id")),
       clientId := Param(Get(data, "client_id")),
       contextId := Param(Get(data, "context_id")),
       priorityId := Param(Get(data, "priority_id")),
       dueDate := due,
       startDate := start,
       timeEstimate := Param(Get(data, "time_estimate")),
       energyLevel := Param(Get(data, "energy_level")),
       effort := Param(Get(data, "effort")),
       impact := Param(Get(data, "impact")),
       recurringInterval := Param(Get(data, "recurring_interval")))
  }

  /** `{task_id: id, ...data}` */
  function Echo(id: int, data: Row): Row {
    map["task_id" := Num(id)] + data
  }

  /**
   * With no row of that id nothing is checked and nothing changes; otherwise
   * the NOT NULL name and the two DATETIME values are checked, in column
   * order, before the row is rewritten.
   */
  function UpdateTaskSpec(s: State, id: int, data: Row): (State, Result<Option<Row>, string>) {
    match FirstIndex(s.tasks, TaskWithId(id))
    case None => (s, Ok(None))
    case Some(k) =>
      if Param(Get(data, "task_name")) == Null then (s, Err(NotNullError("task_name")))
      else match DateParam(Get(data, "due_date"))
        case Err(e) => (s, Err(e))
        case Ok(due) =>
          match DateParam(Get(data, "start_date"))
          case Err(e) => (s, Err(e))
          case Ok(start) =>
            (s.(tasks := s.tasks[k := Revised(s.tasks[k], data, due, start)]), Ok(Some(Echo(id, data))))
  }

  /** Task ids are the table's primary key: under `Valid()` the first row with the id is the only row `WHERE task_id = ?` names. */
  method UpdateTask(db: Db, id: int, data: Row) returns (r: Result<Option<Row>, string>)
    requires db.Valid()
    modifies db
    ensures (db.Snapshot(), r) == UpdateTaskSpec(old(db.Snapshot()), id, data)
  {
    var k := FindFirst(db.tasks, TaskWithId(id));
    if k.None? {
      return Ok(None);
    }
    if Param(Get(data, "task_name")) == Null {
      return Err(NotNullError("task_name"));
    }
    var due := DateParam(Get(data, "due_date"));
    if due.Err? {
      return Err(due.error);
    }
    var start := DateParam(Get(data, "start_date"));
    if start.Err? {
      return Err(start.error);
    }
    db.tasks := db.tasks[k.value := Revised(db.tasks[k.value], data, due.value, start.value)];
    r := Ok(Some(Echo(id, data)));
  }

  // ---------------------------------------------------------------------
  // archiveTask (lines 135-141)

  function ArchiveTaskSpec(s: State, id: int): (State, bool) {
    match FirstIndex(s.tasks, ArchivableTask(id))
    case None => (s, false)
    case Some(k) => (s.(tasks := s.tasks[k := s.tasks[k].(archived := Num(1))]), true)
  }

  /** Task ids are the table's primary key: under `Valid()` the first row with the id is the only row `WHERE task_id = ?` names. */
  method ArchiveTask(db: Db, id: int) returns (changed: bool)
    requires db.Valid()
    modifies db
    ensures (db.Snapshot(), changed) == ArchiveTaskSpec(old(db.Snapshot()), id)
  {
    var k := FindFirst(db.tasks, ArchivableTask(id));
    changed := k.Some?;
    if changed {
      db.tasks := db.tasks[k.value := db.tasks[k.value].(archived := Num(1))];
    }
  }

  // ---------------------------------------------------------------------
  // completeTask and calculateNextDueDate (lines 144-194)

  /**
   * `calculateNextDueDate`: the expression must parse; the anchor is the
   * stored due date, or `now` when there is none; the text is that of the
   * next occurrence. No occurrence at all leaves `next` holding 0, whose
   * `toISOString` is a TypeError.
   */
  function NextDueDate(rec: Recurrence, due: Option<int>, expr: string, now: int): Result<string, string> {
    if !rec.parses(expr) then Err("Invalid schedule expression: " + expr)
    else
      var anchor := if due.Some? then due.value else now;
      match rec.next(expr, anchor)
      case None => Err("nextOccurrence.toISOString is not a function")
      case Some(n) => DueDateText(n)
  }

  /** The successor row: the descriptive columns copied, 'Next Action', and the new date as due and start date. */
  function Successor(t: Task, due: Option<int>, id: int): Task {
    Task(id, t.name, t.description, DefaultStatus, t.projectId, t.clientId, t.contextId, t.priorityId, due, due,
         t.timeEstimate, t.energyLevel, t.effort, t.impact, t.scheduleExpression, Null, NotArchived)
  }

  /**
   * The successor insert as it is meant to be, with one VALUES item per
   * listed column: `Ok(None)` without an expression, the stored successor,
   * or the error thrown (the completion itself stays).
   */
  function SpawnSpec(rec: Recurrence, task: Task, now: int, id: int): Result<Option<Task>, string> {
    if !Truthy(task.scheduleExpression) then Ok(None)
    else match NextDueDate(rec, task.dueDate, ToText(task.scheduleExpression), now)
      case Err(e) => Err(e)
      case Ok(text) =>
        match DateParam(Str(text))
        case Err(e) => Err(e)
        case Ok(due) => Ok(Some(Successor(task, due, id)))
  }

  /** The columns the successor INSERT lists (lines 158-159). */
  const SuccessorColumns: seq<string> :=
    ["task_name", "description", "status", "project_id", "client_id", "context_id", "priority_id",
     "due_date", "start_date", "time_estimate", "energy_level", "effort", "impact", "schedule_expression"]

  /** An item of a VALUES row: a placeholder, or a quoted literal. */
  datatype RowItem = Mark | Quoted(text: string)

  /** The VALUES row of the successor INSERT as written (line 160): two `?`, "Next Action", ten `?`. */
  const SuccessorValues: seq<RowItem> :=
    [Mark, Mark, Quoted("Next Action"), Mark, Mark, Mark, Mark, Mark, Mark, Mark, Mark, Mark, Mark]

  /** What MySQL answers an INSERT whose VALUES row is not as long as its column list (error 1136). */
  const ColumnCountError := "ER_WRONG_VALUE_COUNT_ON_ROW: Column count doesn't match value count at row 1"

  /**
   * The successor step of completeTask as written: `calculateNextDueDate`
   * runs first and its errors are thrown before any query; then MySQL
   * refuses a statement whose VALUES row is shorter than its column list
   * before it reads any value. The case where the two agree is SpawnSpec.
   */
  function SpawnAsWritten(rec: Recurrence, task: Task, now: int, id: int): Result<Option<Task>, string> {
    if !Truthy(task.scheduleExpression) then Ok(None)
    else match NextDueDate(rec, task.dueDate, ToText(task.scheduleExpression), now)
      case Err(e) => Err(e)
      case Ok(_) =>
        if |SuccessorValues| != |SuccessorColumns| then Err(ColumnCountError)
        else SpawnSpec(rec, task, now, id)
  }

  /** The state once `task` is marked Completed in `s1`, after the successor step has come out as `spawned`. */
  function AfterSpawn(s1: State, task: Task, spawned: Result<Option<Task>, string>): (State, Result<Option<Task>, string>) {
    match spawned
    case Err(e) => (s1, Err(e))
    case Ok(None) => (s1, Ok(Some(task)))
    case Ok(Some(next)) => (s1.(tasks := s1.tasks + [next], nextTaskId := s1.nextTaskId + 1), Ok(Some(task)))
  }

  /** completeTask as written: the row is marked Completed, then the successor step of SpawnAsWritten. */
  function CompleteTaskSpec(s: State, rec: Recurrence, now: int, id: int): (State, Result<Option<Task>, string>) {
    match FirstIndex(s.tasks, TaskWithId(id))
    case None => (s, Ok(None))
    case Some(k) =>
      var task := s.tasks[k];
      AfterSpawn(s.(tasks := s.tasks[k := task.(status := Completed)]), task, SpawnAsWritten(rec, task, now, s.nextTaskId))
  }

  /** completeTask with the successor INSERT corrected: the successor step of SpawnSpec. */
  function CompleteTaskIntended(s: State, rec: Recurrence, now: int, id: int): (State, Result<Option<Task>, string>) {
    match FirstIndex(s.tasks, TaskWithId(id))
    case None => (s, Ok(None))
    case Some(k) =>
      var task := s.tasks[k];
      AfterSpawn(s.(tasks := s.tasks[k := task.(status := Completed)]), task, SpawnSpec(rec, task, now, s.nextTaskId))
  }

  /** Task ids are the table's primary key: under `Valid()` the first row with the id is the only row `WHERE task_id = ?` names. */
  method CompleteTask(db: Db, rec: Recurrence, now: int, id: int) returns (r: Result<Option<Task>, string>)
    requires db.Valid()
    modifies db
    ensures (db.Snapshot(), r) == CompleteTaskSpec(old(db.Snapshot()), rec, now, id)
  {
    var k := FindFirst(db.tasks, TaskWithId(id));
    if k.None? {
      return Ok(None);
    }
    var task := db.tasks[k.value];
    db.tasks := db.tasks[k.value := task.(status := Completed)];
    // calculateNextDueDate, then the successor INSERT when the task recurs
    var spawned := SpawnAsWritten(rec, task, now, db.nextTaskId);
    r := ApplySpawn(db, task, spawned);
  }

  /** The successor INSERT, or the error `calculateNextDueDate` threw; `task` is what completeTask returns. */
  method ApplySpawn(db: Db, task: Task, spawned: Result<Option<Task>, string>) returns (r: Result<Option<Task>, string>)
    modifies db
    ensures (db.Snapshot(), r) == AfterSpawn(old(db.Snapshot()), task, spawned)
  {
    match spawned {
      case Err(e) =>
        return Err(e);
      case Ok(None) =>
      case Ok(Some(next)) =>
        db.tasks := db.tasks + [next];
        db.nextTaskId := db.nextTaskId + 1;
    }
    r := Ok(Some(task));
  }

  // ---------------------------------------------------------------------
  // getAllTasks (lines 5-24)

  /** MySQL `column = ?` for a query-string value: NULL matches nothing; a digit string equals the number it denotes. */
  predicate SqlEquals(column: Value, param: Value) {
    column != Null && param != Null &&
    (column == param || (column.Num? && param.Str? && param.s != [] && AllDigits(param.s) && ParseDigits(param.s) == column.n))
  }

  /** `due_date = ?`: the parameter's text read as a DATETIME. */
  predicate DueEquals(due: Option<int>, param: Value) {
    due.Some? && param.Str? && ParseDateTime(param.s) == Some(due.value)
  }

  /** The filters the query string may carry, each applied only when truthy. */
  predicate FiltersHold(filters: Row, t: Task) {
    (Truthy(Get(filters, "status")) ==> SqlEquals(t.status, Get(filters, "status"))) &&
    (Truthy(Get(filters, "priority_id")) ==> SqlEquals(t.priorityId, Get(filters, "priority_id"))) &&
    (Truthy(Get(filters, "due_date")) ==> DueEquals(t.dueDate, Get(filters, "due_date")))
  }

  /** `(archived IS NULL OR archived = 0) AND <filters>`: the rows the query is meant to return. */
  function TaskFilter(filters: Row): Task -> bool {
    (t: Task) => Active(t.archived) && FiltersHold(filters, t)
  }

  /** `archived IS NULL OR archived = 0 AND <filters>` as MySQL reads it: AND binds tighter than OR. */
  predicate MatchesAsWritten(filters: Row, t: Task) {
    t.archived == Null || (t.archived == Num(0) && FiltersHold(filters, t))
  }

  /** The rows the query text as built selects. */
  function AsWrittenFilter(filters: Row): Task -> bool {
    (t: Task) => MatchesAsWritten(filters, t)
  }

  const QuerySelect: string := "SELECT * FROM dj.taskmanager_tasks"
  const QueryWhere: string := " WHERE archived IS NULL OR archived = 0"
  const TaskQueryBase: string := QuerySelect + QueryWhere

  /** The parameters in the order the clauses are appended: status, priority, due date. */
  function FilterParams(filters: Row): (ps: seq<Value>)
    ensures forall k :: 0 <= k < |ps| ==> Truthy(ps[k])
  {
    (if Truthy(Get(filters, "status")) then [Get(filters, "status")] else []) +
    (if Truthy(Get(filters, "priority_id")) then [Get(filters, "priority_id")] else []) +
    (if Truthy(Get(filters, "due_date")) then [Get(filters, "due_date")] else [])
  }

  /** How many times `c` occurs in `s`. */
  function CountChar(s: string, c: char): nat
    decreases |s|
  {
    if s == [] then 0 else CountChar(s[..|s| - 1], c) + (if s[|s| - 1] == c then 1 else 0)
  }

  lemma {:induction false} CountCharAppend(a: string, b: string, c: char)
    ensures CountChar(a + b, c) == CountChar(a, c) + CountChar(b, c)
    decreases |b|
  {
    if b == [] {
      assert a + b == a;
    } else {
      var n := |b| - 1;
      CountCharAppend(a, b[..n], c);
      assert (a + b)[..|a + b| - 1] == a + b[..n];
    }
  }

  lemma {:induction false} CountCharAbsent(s: string, c: char)
    requires c !in s
    ensures CountChar(s, c) == 0
    decreases |s|
  {
    if s != [] {
      assert s[..|s| - 1] <= s;
      CountCharAbsent(s[..|s| - 1], c);
    }
  }

  /** One filter clause: its text holds exactly one `?`. */
  lemma OnePlaceholder(head: string)
    requires '?' !in head
    ensures CountChar(head + "?", '?') == 1
  {
    CountCharAppend(head, "?", '?');
    CountCharAbsent(head, '?');
    CountCharAbsent([], '?');
    assert "?"[..0] == [];
  }

  lemma SelectHasNoPlaceholder()
    ensures CountChar(QuerySelect, '?') == 0
  {
    CountCharAbsent(QuerySelect, '?');
  }

  lemma WhereHasNoPlaceholder()
    ensures CountChar(QueryWhere, '?') == 0
  {
    CountCharAbsent(QueryWhere, '?');
  }

  lemma BaseHasNoPlaceholder()
    ensures CountChar(TaskQueryBase, '?') == 0
  {
    CountCharAppend(QuerySelect, QueryWhere, '?');
    SelectHasNoPlaceholder();
    WhereHasNoPlaceholder();
  }

  /** `query += head + '?'; params.push(v)` keeps one parameter per placeholder. */
  method AppendFilter(query: string, params: seq<Value>, head: string, v: Value) returns (q: string, ps: seq<Value>)
    requires '?' !in head
    requires CountChar(query, '?') == |params|
    ensures q == query + (head + "?") && ps == params + [v]
    ensures CountChar(q, '?') == |ps|
  {
    CountCharAppend(query, head + "?", '?');
    OnePlaceholder(head);
    q := query + (head + "?");
    ps := params + [v];
  }

  /** The query text and its parameters, built clause by clause. */
  method BuildTaskQuery(filters: Row) returns (query: string, params: seq<Value>)
    ensures params == FilterParams(filters)
    ensures CountChar(query, '?') == |params|
  {
    query := TaskQueryBase;
    params := [];
    BaseHasNoPlaceholder();
    if Truthy(Get(filters, "status")) {
      query, params := AppendFilter(query, params, " AND status = ", Get(filters, "status"));
    }
    if Truthy(Get(filters, "priority_id")) {
      query, params := AppendFilter(query, params, " AND priority_id = ", Get(filters, "priority_id"));
    }
    if Truthy(Get(filters, "due_date")) {
      query, params := AppendFilter(query, params, " AND due_date = ", Get(filters, "due_date"));
    }
  }

  /**
   * `getAllTasks`: the rows, in table order, that the text BuildTaskQuery
   * builds selects with its parameters; the filter clauses bind to
   * `archived = 0` alone.
   */
  method GetAllTasks(db: Db, filters: Row) returns (rows: seq<Task>)
    ensures rows == Select(db.tasks, AsWrittenFilter(filters))
  {
    rows := SelectWhere(db.tasks, AsWrittenFilter(filters));
  }
}
