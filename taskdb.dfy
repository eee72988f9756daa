/**
 * The MySQL tables the task and client services read and write
 * (`dj.taskmanager_tasks`, `dj.taskmanager_projects`,
 * `dj.taskmanager_clients`), with their AUTO_INCREMENT counters, and the
 * way the `mysql2` driver hands request values to a statement.
 *
 * Column values are JavaScript values as a JSON request body carries them.
 * DATETIME columns hold a time value (`Some(ms)`) or NULL (`None`).
 */
module TaskDb {
  import opened Base
  import opened DbValue
  import opened IsoTime

  datatype Task = Task(
    id: int,
    name: Value,
    description: Value,
    status: Value,
    projectId: Value,
    clientId: Value,
    contextId: Value,
    priorityId: Value,
    dueDate: Option<int>,
    startDate: Option<int>,
    timeEstimate: Value,
    energyLevel: Value,
    effort: Value,
    impact: Value,
    scheduleExpression: Value,
    recurringInterval: Value,
    archived: Value)

  datatype Project = Project(id: int, name: Value, description: Value, status: Value, clientId: Value, archived: Value)

  datatype Client = Client(id: int, name: Value, contactInfo: Value, archived: Value)

  /** The status a task row gets when the INSERT names none. */
  const DefaultStatus: Value := Str("Next Action")

  /** The `archived` value a row gets when the INSERT names none. */
  const NotArchived: Value := Num(0)

  /** `mysql2` sends `undefined` as NULL. */
  function Param(v: Value): (p: Value)
    ensures p != Undefined
    ensures v != Undefined ==> p == v
  {
    if v == Undefined then Null else v
  }

  /** The DATETIME a parameter stores: NULL, the time its text denotes, or MySQL's error. */
  function DateParam(v: Value): (r: Result<Option<int>, string>)
    ensures Missing(v) <==> r == Ok(None)
    ensures r.Ok? && r.value.Some? ==> v.Str? && ParseDateTime(v.s) == r.value
  {
    match v
    case Undefined => Ok(None)
    case Null => Ok(None)
    case Str(s) =>
      (match ParseDateTime(s)
       case Some(t) => Ok(Some(t))
       case None => Err("Incorrect datetime value: '" + s + "'"))
    case _ => Err("Incorrect datetime value")
  }

  /** Text is stored as the DATETIME it denotes, or refused when it denotes none. */
  lemma DateParamText(s: string)
    ensures DateParam(Str(s)).Err? <==> ParseDateTime(s).None?
    ensures ParseDateTime(s).Some? ==> DateParam(Str(s)) == Ok(ParseDateTime(s))
  {
  }

  /** `archived IS NULL OR archived = 0` */
  predicate Active(archived: Value) {
    archived == Null || archived == Num(0)
  }

  /** The error MySQL raises for NULL in a NOT NULL column. */
  function NotNullError(column: string): string {
    "Column '" + column + "' cannot be null"
  }

  /** The three tables and their AUTO_INCREMENT counters, as a value. */
  datatype State = State(
    tasks: seq<Task>,
    projects: seq<Project>,
    clients: seq<Client>,
    nextTaskId: int,
    nextProjectId: int,
    nextClientId: int)

  /**
   * The AUTO_INCREMENT counters start at 1; every id is positive, distinct
   * within its table and below its table's counter; the name columns are
   * NOT NULL.
   */
  predicate ValidState(s: State) {
    s.nextTaskId > 0 && s.nextProjectId > 0 && s.nextClientId > 0 &&
    (forall i :: 0 <= i < |s.tasks| ==> 0 < s.tasks[i].id < s.nextTaskId && s.tasks[i].name != Null) &&
    (forall i, j :: 0 <= i < j < |s.tasks| ==> s.tasks[i].id != s.tasks[j].id) &&
    (forall i :: 0 <= i < |s.projects| ==> 0 < s.projects[i].id < s.nextProjectId && s.projects[i].name != Null) &&
    (forall i, j :: 0 <= i < j < |s.projects| ==> s.projects[i].id != s.projects[j].id) &&
    (forall i :: 0 <= i < |s.clients| ==> 0 < s.clients[i].id < s.nextClientId && s.clients[i].name != Null) &&
    (forall i, j :: 0 <= i < j < |s.clients| ==> s.clients[i].id != s.clients[j].id)
  }

  /** The database the services reach through `pool.query`. */
  class Db {
    var tasks: seq<Task>
    var projects: seq<Project>
    var clients: seq<Client>
    var nextTaskId: int
    var nextProjectId: int
    var nextClientId: int

    function Snapshot(): State
      reads this
    {
      State(tasks, projects, clients, nextTaskId, nextProjectId, nextClientId)
    }

    ghost predicate Valid()
      reads this
    {
      ValidState(Snapshot())
    }

    constructor()
      ensures Valid()
      ensures Snapshot() == State([], [], [], 1, 1, 1)
    {
      tasks, projects, clients := [], [], [];
      nextTaskId, nextProjectId, nextClientId := 1, 1, 1;
    }
  }
}
