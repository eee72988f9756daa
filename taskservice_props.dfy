/**
 * What the task lifecycle promises (services/taskmanager/taskService.js),
 * proved about the functions of TaskService that specify its methods.
 */
module TaskServiceProps {
  import opened Base
  import opened DbValue
  import opened IsoTime
  import opened IsoTimeProps
  import opened Tables
  import opened TaskDb
  import opened TaskService

  function MiscCount(s: State): nat {
    |Select(s.projects, IsMiscellaneous)|
  }

  // ---------------------------------------------------------------------
  // getOrCreateMiscellaneousProject

  /**
   * The id returned is that of the first 'Miscellaneous' project of the new
   * state; one is created only when there was none, so there is never more
   * than there were, or one; no other table changes.
   */
  lemma EnsureMiscOutcome(s: State)
    ensures var (s2, id) := EnsureMisc(s);
            s2.tasks == s.tasks && s2.clients == s.clients && s2.nextTaskId == s.nextTaskId &&
            s2.nextClientId == s.nextClientId &&
            FirstIndex(s2.projects, IsMiscellaneous).Some? &&
            s2.projects[FirstIndex(s2.projects, IsMiscellaneous).value].id == id &&
            MiscCount(s2) == (if MiscCount(s) == 0 then 1 else MiscCount(s))
  {
    SelectAllOrNone(s.projects, IsMiscellaneous);
    match FirstIndex(s.projects, IsMiscellaneous)
    case Some(k) =>
    case None =>
      var p := MiscProject(s.nextProjectId);
      SelectAppend(s.projects, [p], IsMiscellaneous);
      assert Select([p], IsMiscellaneous) == [p] by {
        assert [p][..0] == [];
      }
      FirstIndexOfAppended(s.projects, p);
  }

  lemma FirstIndexOfAppended(projects: seq<Project>, p: Project)
    requires FirstIndex(projects, IsMiscellaneous).None? && IsMiscellaneous(p)
    ensures FirstIndex(projects + [p], IsMiscellaneous) == Some(|projects|)
  {
    var all := projects + [p];
    assert all[|projects|] == p;
    assert forall k :: 0 <= k < |projects| ==> all[k] == projects[k];
  }

  /** A second call finds the project the first found or made, and changes nothing. */
  lemma EnsureMiscIdempotent(s: State)
    ensures EnsureMisc(EnsureMisc(s).0) == EnsureMisc(s)
  {
    EnsureMiscOutcome(s);
  }

  lemma EnsureMiscValid(s: State)
    requires ValidState(s)
    ensures ValidState(EnsureMisc(s).0)
  {
  }

  // ---------------------------------------------------------------------
  // createTask

  /**
   * A task without a truthy name or context is refused and nothing changes.
   * A stored task is the one row added, with the next id, the given name
   * and context, status 'Next Action', and the given project or else the
   * 'Miscellaneous' one, which then exists. A refused DATETIME adds no task.
   * No call adds a second 'Miscellaneous' project.
   */
  lemma CreateTaskOutcome(s: State, data: Row)
    ensures var (s2, r) := CreateTaskSpec(s, data);
            (!HasRequired(data) ==> s2 == s && r == Err(RequiredMessage)) &&
            (r.Ok? ==>
               s2.tasks == s.tasks + [r.value] && r.value.id == s.nextTaskId &&
               r.value.name == Get(data, "task_name") && r.value.contextId == Get(data, "context_id") &&
               r.value.status == DefaultStatus && Active(r.value.archived) &&
               (Truthy(Get(data, "project_id")) ==> r.value.projectId == Get(data, "project_id")) &&
               (!Truthy(Get(data, "project_id")) ==>
                  exists k :: 0 <= k < |s2.projects| && IsMiscellaneous(s2.projects[k]) &&
                              r.value.projectId == Num(s2.projects[k].id))) &&
            (r.Err? ==> s2.tasks == s.tasks) &&
            (Truthy(Get(data, "project_id")) ==> s2.projects == s.projects) &&
            MiscCount(s2) <= (if MiscCount(s) == 0 then 1 else MiscCount(s))
  {
    EnsureMiscOutcome(s);
    if HasRequired(data) && !Truthy(Get(data, "project_id")) {
      var (s1, id) := EnsureMisc(s);
      var k := FirstIndex(s1.projects, IsMiscellaneous).value;
      assert IsMiscellaneous(s1.projects[k]) && s1.projects[k].id == id;
    }
  }

  /** Appending a named task under the next id keeps the tables valid. */
  lemma AppendTaskValid(s: State, t: Task)
    requires ValidState(s) && t.id == s.nextTaskId && t.name != Null
    ensures ValidState(s.(tasks := s.tasks + [t], nextTaskId := s.nextTaskId + 1))
  {
    var s2 := s.(tasks := s.tasks + [t], nextTaskId := s.nextTaskId + 1);
    assert forall i :: 0 <= i < |s.tasks| ==> s2.tasks[i] == s.tasks[i];
  }

  /** Rewriting one task, keeping its id and a name, keeps the tables valid. */
  lemma ReplaceTaskValid(s: State, k: nat, t: Task)
    requires ValidState(s) && k < |s.tasks| && t.id == s.tasks[k].id && t.name != Null
    ensures ValidState(s.(tasks := s.tasks[k := t]))
  {
    var s2 := s.(tasks := s.tasks[k := t]);
    assert forall i :: 0 <= i < |s.tasks| ==> s2.tasks[i].id == s.tasks[i].id;
  }

  lemma CreateTaskValid(s: State, data: Row)
    requires ValidState(s)
    ensures ValidState(CreateTaskSpec(s, data).0)
  {
    if HasRequired(data) {
      EnsureMiscValid(s);
      var (s1, projectId) := ProjectFor(s, data);
      assert ValidState(s1);
      match DateParam(Get(data, "due_date"))
      case Err(_) =>
      case Ok(due) =>
        AppendTaskValid(s1, NewTask(data, projectId, due, s1.nextTaskId));
    }
  }

  // ---------------------------------------------------------------------
  // updateTask

  /**
   * No task of that id: null and nothing changes. Otherwise the row of
   * that id takes the fourteen columns and keeps its id, expression and
   * archive flag, every other row is as it was, and the echo is `data`
   * over `task_id`. A refused value changes nothing.
   */
  lemma UpdateTaskOutcome(s: State, id: int, data: Row)
    requires ValidState(s)
    ensures var (s2, r) := UpdateTaskSpec(s, id, data);
            (r == Ok(None) <==> forall k :: 0 <= k < |s.tasks| ==> s.tasks[k].id != id) &&
            (r.Ok? ==> s2.projects == s.projects && s2.clients == s.clients && |s2.tasks| == |s.tasks|) &&
            (r.Err? ==> s2 == s) &&
            (r.Ok? && r.value.Some? ==>
               r.value.value.Keys == data.Keys + {"task_id"} &&
               r.value.value["task_id"] == (if "task_id" in data then data["task_id"] else Num(id)) &&
               (forall k :: 0 <= k < |s.tasks| ==>
                 if s.tasks[k].id == id then
                   s2.tasks[k].id == id && s2.tasks[k].name == Get(data, "task_name") &&
                   s2.tasks[k].status == Param(Get(data, "status")) &&
                   s2.tasks[k].scheduleExpression == s.tasks[k].scheduleExpression &&
                   s2.tasks[k].archived == s.tasks[k].archived
                 else s2.tasks[k] == s.tasks[k]))
  {
    var (s2, r) := UpdateTaskSpec(s, id, data);
    match FirstIndex(s.tasks, TaskWithId(id))
    case None =>
    case Some(k) =>
      assert s.tasks[k].id == id;
      if r.Ok? {
        assert forall j :: 0 <= j < |s.tasks| && j != k ==> s.tasks[j].id != id;
      }
  }

  lemma UpdateTaskValid(s: State, id: int, data: Row)
    requires ValidState(s)
    ensures ValidState(UpdateTaskSpec(s, id, data).0)
  {
    match FirstIndex(s.tasks, TaskWithId(id))
    case None =>
    case Some(k) =>
      if Param(Get(data, "task_name")) != Null {
        match DateParam(Get(data, "due_date"))
        case Err(_) =>
        case Ok(due) =>
          match DateParam(Get(data, "start_date"))
          case Err(_) =>
          case Ok(start) =>
            ReplaceTaskValid(s, k, Revised(s.tasks[k], data, due, start));
      }
  }

  // ---------------------------------------------------------------------
  // archiveTask

  /**
   * True exactly when a task of that id was not yet archived; then that row
   * alone changes, to archived = 1, and no task of that id is left active.
   */
  lemma ArchiveTaskOutcome(s: State, id: int)
    requires ValidState(s)
    ensures var (s2, changed) := ArchiveTaskSpec(s, id);
            (changed <==> exists k :: 0 <= k < |s.tasks| && s.tasks[k].id == id && Active(s.tasks[k].archived)) &&
            |s2.tasks| == |s.tasks| && s2.projects == s.projects && s2.clients == s.clients &&
            s2.nextTaskId == s.nextTaskId &&
            (forall k :: 0 <= k < |s.tasks| ==>
               if s.tasks[k].id == id && Active(s.tasks[k].archived) then s2.tasks[k] == s.tasks[k].(archived := Num(1))
               else s2.tasks[k] == s.tasks[k]) &&
            (forall k :: 0 <= k < |s2.tasks| && s2.tasks[k].id == id ==> !Active(s2.tasks[k].archived))
  {
    var (s2, changed) := ArchiveTaskSpec(s, id);
    if changed {
      var k :| k == FirstIndex(s.tasks, ArchivableTask(id)).value;
      assert ArchivableTask(id)(s.tasks[k]);
      assert forall j :: 0 <= j < |s.tasks| && j != k ==> s.tasks[j].id != id;
    } else {
      assert forall k :: 0 <= k < |s.tasks| ==> !ArchivableTask(id)(s.tasks[k]);
    }
  }

  /** Archiving is idempotent: a second call returns false and changes nothing. */
  lemma ArchiveTaskTwice(s: State, id: int)
    requires ValidState(s)
    ensures var s2 := ArchiveTaskSpec(s, id).0;
            ArchiveTaskSpec(s2, id) == (s2, false)
  {
    ArchiveTaskOutcome(s, id);
  }

  lemma ArchiveTaskValid(s: State, id: int)
    requires ValidState(s)
    ensures ValidState(ArchiveTaskSpec(s, id).0)
  {
    match FirstIndex(s.tasks, ArchivableTask(id))
    case None =>
    case Some(k) => ReplaceTaskValid(s, k, s.tasks[k].(archived := Num(1)));
  }

  // ---------------------------------------------------------------------
  // completeTask

  /**
   * As written: an unknown id gives null and changes nothing; a known one is
   * marked Completed and no row is ever added. The call resolves to the task
   * as it was before exactly when it has no schedule expression; a recurring
   * task always rejects, with the completion kept.
   */
  lemma CompleteTaskOutcome(s: State, rec: Recurrence, now: int, id: int)
    requires ValidState(s)
    ensures var (s2, r) := CompleteTaskSpec(s, rec, now, id);
            ((forall k :: 0 <= k < |s.tasks| ==> s.tasks[k].id != id) <==> (s2, r) == (s, Ok(None))) &&
            (forall k :: 0 <= k < |s.tasks| && s.tasks[k].id == id ==>
               s2 == s.(tasks := s.tasks[k := s.tasks[k].(status := Completed)]) &&
               (r.Ok? <==> !Truthy(s.tasks[k].scheduleExpression)) &&
               (r.Ok? ==> r.value == Some(s.tasks[k])))
  {
    match FirstIndex(s.tasks, TaskWithId(id))
    case None =>
    case Some(k) =>
      assert s.tasks[k].id == id;
      assert forall j :: 0 <= j < |s.tasks| && j != k ==> s.tasks[j].id != id;
      SpawnAsWrittenStoresNothing(rec, s.tasks[k], now, s.nextTaskId);
  }

  /**
   * The successor INSERT as written never stores a row: a recurring task
   * fails with the error of calculateNextDueDate, or else with the
   * column-count error, which is in particular the outcome whenever the
   * corrected INSERT would store a successor; without the column-count
   * error it is the corrected step.
   */
  lemma SpawnAsWrittenStoresNothing(rec: Recurrence, task: Task, now: int, id: int)
    ensures var r := SpawnAsWritten(rec, task, now, id);
            !(r.Ok? && r.value.Some?) &&
            (r.Ok? <==> !Truthy(task.scheduleExpression)) &&
            (Truthy(task.scheduleExpression) && NextDueDate(rec, task.dueDate, ToText(task.scheduleExpression), now).Ok? ==>
               r == Err(ColumnCountError)) &&
            (Truthy(task.scheduleExpression) && NextDueDate(rec, task.dueDate, ToText(task.scheduleExpression), now).Err? ==>
               r == Err(NextDueDate(rec, task.dueDate, ToText(task.scheduleExpression), now).error)) &&
            (SpawnSpec(rec, task, now, id).Ok? && SpawnSpec(rec, task, now, id).value.Some? ==> r == Err(ColumnCountError)) &&
            (r != Err(ColumnCountError) ==> r == SpawnSpec(rec, task, now, id))
  {
    assert |SuccessorValues| == 13 && |SuccessorColumns| == 14;
  }

  /**
   * completeTask as written against the corrected one: for a known id whose
   * task recurs with a computable next due date, it rejects with the
   * column-count error after the completion, which is in particular the
   * outcome whenever the corrected call would add a successor; without the
   * column-count error the two agree.
   */
  lemma CompleteTaskAsWrittenVsIntended(s: State, rec: Recurrence, now: int, id: int, k: int)
    requires 0 <= k < |s.tasks| && FirstIndex(s.tasks, TaskWithId(id)) == Some(k)
    ensures var (s2, r) := CompleteTaskSpec(s, rec, now, id);
            var (i2, _) := CompleteTaskIntended(s, rec, now, id);
            var task := s.tasks[k];
            (Truthy(task.scheduleExpression) && NextDueDate(rec, task.dueDate, ToText(task.scheduleExpression), now).Ok? ==>
               r == Err(ColumnCountError) && s2 == s.(tasks := s.tasks[k := task.(status := Completed)])) &&
            (|i2.tasks| > |s.tasks| ==> r == Err(ColumnCountError) && |s2.tasks| == |s.tasks|) &&
            (r != Err(ColumnCountError) ==> (s2, r) == CompleteTaskIntended(s, rec, now, id))
  {
    SpawnAsWrittenStoresNothing(rec, s.tasks[k], now, s.nextTaskId);
  }

  /** Corrected: an unknown id gives null and changes nothing; a known one is marked Completed, returned as it was before, and the successor of SpawnSpec appended. */
  lemma CompleteTaskIntendedOutcome(s: State, rec: Recurrence, now: int, id: int)
    requires ValidState(s)
    ensures var (s2, r) := CompleteTaskIntended(s, rec, now, id);
            ((forall k :: 0 <= k < |s.tasks| ==> s.tasks[k].id != id) <==> (s2, r) == (s, Ok(None))) &&
            (forall k :: 0 <= k < |s.tasks| && s.tasks[k].id == id ==>
               |s.tasks| <= |s2.tasks| <= |s.tasks| + 1 &&
               s2.tasks[k] == s.tasks[k].(status := Completed) &&
               (forall j :: 0 <= j < |s.tasks| && j != k ==> s2.tasks[j] == s.tasks[j]) &&
               (r.Ok? ==> r.value == Some(s.tasks[k])) &&
               (|s2.tasks| == |s.tasks| + 1 <==> SpawnSpec(rec, s.tasks[k], now, s.nextTaskId).Ok? &&
                                                  SpawnSpec(rec, s.tasks[k], now, s.nextTaskId).value.Some?) &&
               (|s2.tasks| == |s.tasks| + 1 ==> s2.tasks[|s.tasks|] == SpawnSpec(rec, s.tasks[k], now, s.nextTaskId).value.value))
  {
    match FirstIndex(s.tasks, TaskWithId(id))
    case None =>
    case Some(k) =>
      assert s.tasks[k].id == id;
      assert forall j :: 0 <= j < |s.tasks| && j != k ==> s.tasks[j].id != id;
  }

  /** A task without a schedule expression spawns nothing: completing it only marks it. */
  lemma NoExpressionNoSuccessor(rec: Recurrence, task: Task, now: int, id: int)
    requires !Truthy(task.scheduleExpression)
    ensures SpawnSpec(rec, task, now, id) == Ok(None)
  {
  }

  /**
   * The spawn rule: a task whose expression parses, and has a next
   * occurrence after its due date (or after `now` when it has none) in a
   * four-digit year, yields one successor with the next id. The successor
   * copies the descriptive columns and the expression, has status 'Next
   * Action', and its due and start dates are that occurrence to the whole
   * second.
   */
  lemma SuccessorSpawned(rec: Recurrence, task: Task, now: int, id: int, n: int)
    requires Truthy(task.scheduleExpression)
    requires rec.parses(ToText(task.scheduleExpression))
    requires rec.next(ToText(task.scheduleExpression), if task.dueDate.Some? then task.dueDate.value else now) == Some(n)
    requires -MaxTime <= n <= MaxTime && 0 <= Fields(n).year <= 9999
    ensures SpawnSpec(rec, task, now, id).Ok? && SpawnSpec(rec, task, now, id).value.Some?
    ensures var next := SpawnSpec(rec, task, now, id).value.value;
            next.id == id && next.status == DefaultStatus &&
            next.dueDate == Some(n - n % 1000) && next.startDate == next.dueDate &&
            next.scheduleExpression == task.scheduleExpression &&
            next.name == task.name && next.description == task.description &&
            next.projectId == task.projectId && next.clientId == task.clientId &&
            next.contextId == task.contextId && next.priorityId == task.priorityId &&
            next.timeEstimate == task.timeEstimate && next.energyLevel == task.energyLevel &&
            next.effort == task.effort && next.impact == task.impact && Active(next.archived)
  {
    var expr := ToText(task.scheduleExpression);
    assert NextDueDate(rec, task.dueDate, expr, now) == DueDateText(n);
    DueDateTextRoundTrip(n);
    var text := DueDateText(n).value;
    DateParamText(text);
    assert SpawnSpec(rec, task, now, id) == Ok(Some(Successor(task, Some(n - n % 1000), id)));
  }

  /**
   * The ways the spawn fails: an expression that does not parse, no next
   * occurrence, or an occurrence whose year MySQL cannot read back. (An
   * occurrence beyond the `Date` range cannot be written at all.)
   */
  lemma SuccessorRefused(rec: Recurrence, task: Task, now: int, id: int)
    requires Truthy(task.scheduleExpression)
    ensures var expr := ToText(task.scheduleExpression);
            var anchor := if task.dueDate.Some? then task.dueDate.value else now;
            (!rec.parses(expr) ==> SpawnSpec(rec, task, now, id) == Err("Invalid schedule expression: " + expr)) &&
            (rec.parses(expr) && rec.next(expr, anchor).None? ==> SpawnSpec(rec, task, now, id).Err?) &&
            (rec.parses(expr) && rec.next(expr, anchor).Some? ==>
               var n := rec.next(expr, anchor).value;
               (SpawnSpec(rec, task, now, id).Err? <==> n < -MaxTime || n > MaxTime || !(0 <= Fields(n).year <= 9999)))
  {
    var expr := ToText(task.scheduleExpression);
    var anchor := if task.dueDate.Some? then task.dueDate.value else now;
    if rec.parses(expr) && rec.next(expr, anchor).Some? {
      var n := rec.next(expr, anchor).value;
      assert NextDueDate(rec, task.dueDate, expr, now) == DueDateText(n);
      DueDateTextReadable(n);
      match DueDateText(n) {
        case Err(e) =>
          assert SpawnSpec(rec, task, now, id) == Err(e);
        case Ok(text) =>
          DateParamText(text);
          assert SpawnSpec(rec, task, now, id).Err? <==> DateParam(Str(text)).Err?;
      }
    }
  }

  lemma CompleteTaskValid(s: State, rec: Recurrence, now: int, id: int)
    requires ValidState(s)
    ensures ValidState(CompleteTaskSpec(s, rec, now, id).0)
  {
    match FirstIndex(s.tasks, TaskWithId(id))
    case None =>
    case Some(k) =>
      ReplaceTaskValid(s, k, s.tasks[k].(status := Completed));
      SpawnAsWrittenStoresNothing(rec, s.tasks[k], now, s.nextTaskId);
  }

  lemma CompleteTaskIntendedValid(s: State, rec: Recurrence, now: int, id: int)
    requires ValidState(s)
    ensures ValidState(CompleteTaskIntended(s, rec, now, id).0)
  {
    match FirstIndex(s.tasks, TaskWithId(id))
    case None =>
    case Some(k) =>
      var task := s.tasks[k];
      var s1 := s.(tasks := s.tasks[k := task.(status := Completed)]);
      ReplaceTaskValid(s, k, task.(status := Completed));
      match SpawnSpec(rec, task, now, s.nextTaskId)
      case Err(_) =>
      case Ok(None) =>
      case Ok(Some(next)) =>
        assert next.id == s1.nextTaskId && next.name == task.name;
        AppendTaskValid(s1, next);
  }

  // ---------------------------------------------------------------------
  // getAllTasks

  /** On a row whose archived flag is not NULL, the query as written selects as intended. */
  lemma AsWrittenAgreesUnlessNull(filters: Row, t: Task)
    requires t.archived != Null
    ensures MatchesAsWritten(filters, t) <==> TaskFilter(filters)(t)
  {
  }

  /** A row whose archived flag is NULL passes the query as written whatever the filters say. */
  lemma ArchivedNullBypassesFilters(filters: Row, t: Task)
    requires t.archived == Null
    ensures MatchesAsWritten(filters, t)
    ensures TaskFilter(filters)(t) <==> FiltersHold(filters, t)
  {
  }

  /** The discrepancy on one row: filtering on status 'Next Action' returns a NULL-flagged task whose status differs. */
  lemma StatusFilterLetsNullFlaggedRowThrough()
    ensures var filters := map["status" := Str("Next Action")];
            var t := Task(1, Str("Pay rent"), Null, Str("Completed"), Null, Null, Num(1), Null, None, None,
                          Null, Null, Null, Null, Null, Null, Null);
            MatchesAsWritten(filters, t) && !TaskFilter(filters)(t)
  {
    var filters := map["status" := Str("Next Action")];
    assert Get(filters, "status") == Str("Next Action");
  }

  /** Without filters the query returns exactly the active tasks, in table order. */
  lemma NoFiltersActiveTasks(tasks: seq<Task>, filters: Row)
    requires !Truthy(Get(filters, "status")) && !Truthy(Get(filters, "priority_id")) && !Truthy(Get(filters, "due_date"))
    ensures forall t :: t in Select(tasks, AsWrittenFilter(filters)) <==> t in tasks && Active(t.archived)
    ensures FilterParams(filters) == []
  {
    SelectMembers(tasks, AsWrittenFilter(filters));
  }

  /** The query as written returns the tasks whose flag is NULL, and the tasks whose flag is 0 that satisfy every filter. */
  lemma SelectedAsWritten(tasks: seq<Task>, filters: Row)
    ensures forall t :: t in Select(tasks, AsWrittenFilter(filters)) <==>
              t in tasks && (t.archived == Null || (t.archived == Num(0) && FiltersHold(filters, t)))
  {
    SelectMembers(tasks, AsWrittenFilter(filters));
  }

  /** Two filters that agree on every row of the table select the same rows. */
  lemma {:induction false} SelectAgreeing(tasks: seq<Task>, p: Task -> bool, q: Task -> bool)
    requires forall k :: 0 <= k < |tasks| ==> p(tasks[k]) == q(tasks[k])
    ensures Select(tasks, p) == Select(tasks, q)
    decreases |tasks|
  {
    if tasks != [] {
      var n := |tasks| - 1;
      assert forall k :: 0 <= k < n ==> tasks[..n][k] == tasks[k];
      SelectAgreeing(tasks[..n], p, q);
    }
  }

  /** On a table where no archived flag is NULL, the query as written returns what the intended one does. */
  lemma AsWrittenSelectsIntended(tasks: seq<Task>, filters: Row)
    requires forall k :: 0 <= k < |tasks| ==> tasks[k].archived != Null
    ensures Select(tasks, AsWrittenFilter(filters)) == Select(tasks, TaskFilter(filters))
  {
    SelectAgreeing(tasks, AsWrittenFilter(filters), TaskFilter(filters));
  }

  /** Every parameter is a truthy filter value, and each truthy filter contributes one, in the order status, priority, due date. */
  lemma FilterParamsOrder(filters: Row)
    ensures |FilterParams(filters)| ==
            (if Truthy(Get(filters, "status")) then 1 else 0) + (if Truthy(Get(filters, "priority_id")) then 1 else 0) +
            (if Truthy(Get(filters, "due_date")) then 1 else 0)
    ensures Truthy(Get(filters, "status")) ==> FilterParams(filters)[0] == Get(filters, "status")
    ensures Truthy(Get(filters, "due_date")) ==> FilterParams(filters)[|FilterParams(filters)| - 1] == Get(filters, "due_date")
  {
  }

  /** A selected task satisfies every filter and is active; an active task that satisfies them is selected. */
  lemma SelectedExactly(tasks: seq<Task>, filters: Row)
    ensures forall t :: t in Select(tasks, TaskFilter(filters)) <==>
              t in tasks && Active(t.archived) && FiltersHold(filters, t)
  {
    SelectMembers(tasks, TaskFilter(filters));
  }
}
