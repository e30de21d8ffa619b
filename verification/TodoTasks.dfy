/** Tasks: the aggregate and its two read models, as functions of their state. */
module TodoTasks {
  import opened Options

  type TaskId = nat
  type TaskListId = nat
  type UserId = nat

  datatype Task = Task(id: TaskId, title: string, completed: bool, taskListId: Option<TaskListId>, assignee: Option<UserId>)

  datatype Command =
    | CreateTask(title: string, taskListId: Option<TaskListId>, assignee: Option<UserId>)
    | RenameTask(title: string)
    | CompleteTask
    | ReopenTask
    | AssignTask(assignee: Option<UserId>)
    | ReassignTask(assignee: Option<UserId>)
    | UnassignTask

  datatype Event =
    | TaskCreated(id: TaskId, taskListId: TaskListId, title: string)
    | TaskRenamed(id: TaskId, taskListId: TaskListId, title: string)
    | TaskCompleted(id: TaskId, taskListId: TaskListId)
    | TaskReopened(id: TaskId, taskListId: TaskListId)
    | TaskAssigned(id: TaskId, taskListId: TaskListId, assignee: UserId)
    | TaskReassigned(id: TaskId, taskListId: TaskListId, previousAssignee: UserId, assignee: UserId)
    | TaskUnassigned(id: TaskId, taskListId: TaskListId, assignee: UserId)

  datatype Rejection = AlreadyDone | NotDone | AlreadyAssigned | NotAssigned

  /** `Threw` is the error for a missing identifier. */
  datatype Outcome = Emitted(events: seq<Event>) | Rejected(rejection: Rejection) | Threw

  function NewTask(id: TaskId): Task {
    Task(id, "", false, None, None)
  }

  function Decide(t: Task, c: Command): (r: (Task, Outcome)) {
    if c.CreateTask? then
      if c.taskListId.None? then (t, Threw)
      else
        var l := c.taskListId.value;
        var created := TaskCreated(t.id, l, c.title);
        (Task(t.id, c.title, false, c.taskListId, c.assignee),
         Emitted(if c.assignee.None? then [created] else [created, TaskAssigned(t.id, l, c.assignee.value)]))
    else if t.taskListId.None? then (t, Threw)
    else
      var l := t.taskListId.value;
      match c
      case RenameTask(title) => (t.(title := title), Emitted([TaskRenamed(t.id, l, title)]))
      case CompleteTask =>
        if t.completed then (t, Rejected(AlreadyDone)) else (t.(completed := true), Emitted([TaskCompleted(t.id, l)]))
      case ReopenTask =>
        if !t.completed then (t, Rejected(NotDone)) else (t.(completed := false), Emitted([TaskReopened(t.id, l)]))
      case AssignTask(assignee) =>
        if assignee.None? then (t, Threw)
        else if t.completed then (t, Rejected(AlreadyDone))
        else if t.assignee == assignee then (t, Rejected(AlreadyAssigned))
        else (t.(assignee := assignee),
              Emitted([if t.assignee.None? then TaskAssigned(t.id, l, assignee.value)
                       else TaskReassigned(t.id, l, t.assignee.value, assignee.value)]))
      case ReassignTask(assignee) =>
        if assignee.None? then (t, Threw)
        else if t.completed then (t, Rejected(AlreadyDone))
        else if t.assignee.None? then (t, Rejected(NotAssigned))
        else if t.assignee == assignee then (t, Rejected(AlreadyAssigned))
        else (t.(assignee := assignee), Emitted([TaskReassigned(t.id, l, t.assignee.value, assignee.value)]))
      case UnassignTask =>
        if t.completed then (t, Rejected(AlreadyDone))
        else if t.assignee.None? then (t, Rejected(NotAssigned))
        else (t.(assignee := None), Emitted([TaskUnassigned(t.id, l, t.assignee.value)]))
  }

  // ----- What each command does, field by field -----

  lemma CreateMeans(t: Task, title: string, l: Option<TaskListId>, assignee: Option<UserId>)
    ensures var (t', r) := Decide(t, CreateTask(title, l, assignee));
            && (r == Threw <==> l == None)
            && (l == None ==> t' == t)
            && (l.Some? ==>
                  && t'.id == t.id && t'.title == title && t'.taskListId == l && t'.assignee == assignee && !t'.completed
                  && r.Emitted? && |r.events| == (if assignee == None then 1 else 2)
                  && r.events[0] == TaskCreated(t.id, l.value, title)
                  && (assignee.Some? ==> r.events[1] == TaskAssigned(t.id, l.value, assignee.value)))
  {
  }

  lemma RenameMeans(t: Task, title: string)
    ensures var (t', r) := Decide(t, RenameTask(title));
            && (r == Threw <==> t.taskListId == None)
            && t'.id == t.id && t'.taskListId == t.taskListId && t'.assignee == t.assignee && t'.completed == t.completed
            && t'.title == (if t.taskListId == None then t.title else title)
            && (t.taskListId.Some? ==> r == Emitted([TaskRenamed(t.id, t.taskListId.value, title)]))
  {
  }

  lemma CompleteMeans(t: Task)
    ensures var (t', r) := Decide(t, CompleteTask);
            && (r == Threw <==> t.taskListId == None)
            && (r == Rejected(AlreadyDone) <==> t.taskListId.Some? && t.completed)
            && t'.id == t.id && t'.taskListId == t.taskListId && t'.assignee == t.assignee && t'.title == t.title
            && (t'.completed <==> t.completed || t.taskListId.Some?)
            && (t.taskListId.Some? && !t.completed ==> r == Emitted([TaskCompleted(t.id, t.taskListId.value)]))
  {
  }

  lemma ReopenMeans(t: Task)
    ensures var (t', r) := Decide(t, ReopenTask);
            && (r == Threw <==> t.taskListId == None)
            && (r == Rejected(NotDone) <==> t.taskListId.Some? && !t.completed)
            && t'.id == t.id && t'.taskListId == t.taskListId && t'.assignee == t.assignee && t'.title == t.title
            && (t'.completed <==> t.completed && t.taskListId == None)
            && (t.taskListId.Some? && t.completed ==> r == Emitted([TaskReopened(t.id, t.taskListId.value)]))
  {
  }

  /** Only the assignee may differ. */
  predicate SameButAssignee(t: Task, t': Task) {
    t'.id == t.id && t'.title == t.title && t'.completed == t.completed && t'.taskListId == t.taskListId
  }

  lemma AssignMeans(t: Task, assignee: Option<UserId>)
    ensures var (t', r) := Decide(t, AssignTask(assignee));
            && SameButAssignee(t, t')
            && (r == Threw <==> t.taskListId == None || assignee == None)
            && (r == Rejected(AlreadyDone) <==> t.taskListId.Some? && assignee.Some? && t.completed)
            && (r == Rejected(AlreadyAssigned) <==>
                t.taskListId.Some? && assignee.Some? && !t.completed && t.assignee == assignee)
            && (r.Emitted? <==> t.taskListId.Some? && assignee.Some? && !t.completed && t.assignee != assignee)
            && t'.assignee == (if r.Emitted? then assignee else t.assignee)
            && (r.Emitted? && t.assignee == None ==>
                  r.events == [TaskAssigned(t.id, t.taskListId.value, assignee.value)])
            && (r.Emitted? && t.assignee.Some? ==>
                  r.events == [TaskReassigned(t.id, t.taskListId.value, t.assignee.value, assignee.value)])
  {
  }

  lemma ReassignMeans(t: Task, assignee: Option<UserId>)
    ensures var (t', r) := Decide(t, ReassignTask(assignee));
            && SameButAssignee(t, t')
            && (r == Threw <==> t.taskListId == None || assignee == None)
            && (r == Rejected(AlreadyDone) <==> t.taskListId.Some? && assignee.Some? && t.completed)
            && (r == Rejected(NotAssigned) <==>
                t.taskListId.Some? && assignee.Some? && !t.completed && t.assignee == None)
            && (r == Rejected(AlreadyAssigned) <==>
                t.taskListId.Some? && assignee.Some? && !t.completed && t.assignee == assignee)
            && (r.Emitted? <==> t.taskListId.Some? && !t.completed && assignee.Some? && t.assignee !in {None, assignee})
            && t'.assignee == (if r.Emitted? then assignee else t.assignee)
            && (r.Emitted? ==> r.events == [TaskReassigned(t.id, t.taskListId.value, t.assignee.value, assignee.value)])
  {
  }

  lemma UnassignMeans(t: Task)
    ensures var (t', r) := Decide(t, UnassignTask);
            && SameButAssignee(t, t')
            && (r == Threw <==> t.taskListId == None)
            && (r == Rejected(AlreadyDone) <==> t.taskListId.Some? && t.completed)
            && (r == Rejected(NotAssigned) <==> t.taskListId.Some? && !t.completed && t.assignee == None)
            && (r.Emitted? <==> t.taskListId.Some? && !t.completed && t.assignee.Some?)
            && t'.assignee == (if r.Emitted? then None else t.assignee)
            && (r.Emitted? ==> r.events == [TaskUnassigned(t.id, t.taskListId.value, t.assignee.value)])
  {
  }

  // ----- The list view -----

  datatype TaskList = TaskList(tasks: seq<Task>, openTaskCount: int)

  const EMPTY_LIST := TaskList([], 0)

  /** Rewrites the rows of one task as the event says, keeping the other rows. */
  function ChangeRow(row: Task, e: Event): Task {
    if row.id != e.id then row
    else
      var r := row.(taskListId := Some(e.taskListId));
      match e
      case TaskRenamed(_, _, title) => r.(title := title)
      case TaskCompleted(_, _) => r.(completed := true)
      case TaskReopened(_, _) => r.(completed := false)
      case TaskAssigned(_, _, assignee) => r.(assignee := Some(assignee))
      case TaskReassigned(_, _, _, assignee) => r.(assignee := Some(assignee))
      case TaskUnassigned(_, _, _) => r.(assignee := None)
      case TaskCreated(_, _, _) => row
  }

  function ChangeRows(rows: seq<Task>, e: Event): (r: seq<Task>)
    ensures |r| == |rows| && forall i :: 0 <= i < |rows| ==> r[i] == ChangeRow(rows[i], e)
  {
    seq(|rows|, i requires 0 <= i < |rows| => ChangeRow(rows[i], e))
  }

  function OpenCount(rows: seq<Task>): nat {
    if rows == [] then 0
    else OpenCount(rows[..|rows| - 1]) + if rows[|rows| - 1].completed then 0 else 1
  }

  function ShowInList(v: TaskList, e: Event): TaskList {
    if e.TaskCreated? then
      TaskList(v.tasks + [Task(e.id, e.title, false, Some(e.taskListId), None)], v.openTaskCount + 1)
    else
      var rows := ChangeRows(v.tasks, e);
      TaskList(rows, if e.TaskCompleted? || e.TaskReopened? then OpenCount(rows) else v.openTaskCount)
  }

  // ----- The assignee view -----

  function Without(ids: seq<TaskId>, id: TaskId): (r: seq<TaskId>)
    ensures forall t :: t in r <==> t in ids && t != id
  {
    if ids == [] then [] else (if ids[0] == id then [] else [ids[0]]) + Without(ids[1..], id)
  }

  /** What an assignment event does to the view of user `u`; only assignment events are routed here. */
  function ShowForUser(u: UserId, ids: seq<TaskId>, e: Event): seq<TaskId> {
    match e
    case TaskAssigned(id, _, _) => ids + [id]
    case TaskReassigned(id, _, _, assignee) => if u == assignee then ids + [id] else Without(ids, id)
    case TaskUnassigned(id, _, _) => Without(ids, id)
    case TaskCreated(_, _, _) | TaskRenamed(_, _, _) | TaskCompleted(_, _) | TaskReopened(_, _) => ids
  }

  /** The assignee views an event is routed to. */
  function UserTargets(e: Event): seq<UserId> {
    match e
    case TaskAssigned(_, _, assignee) => [assignee]
    case TaskReassigned(_, _, previous, assignee) => [previous, assignee]
    case TaskUnassigned(_, _, assignee) => [assignee]
    case TaskCreated(_, _, _) | TaskRenamed(_, _, _) | TaskCompleted(_, _) | TaskReopened(_, _) => []
  }

  // ----- The entities as objects that update their own state -----

  class TaskAggregate {
    const id: TaskId
    var state: Task

    constructor (id: TaskId)
      ensures this.id == id && state == NewTask(id)
    {
      this.id := id;
      state := NewTask(id);
    }

    method CreateTask(title: string, taskListId: Option<TaskListId>, assignee: Option<UserId>) returns (r: Outcome)
      requires state.id == id
      modifies this
      ensures (state, r) == Decide(old(state), Command.CreateTask(title, taskListId, assignee))
    {
      if taskListId.None? {
        return Threw;
      }
      state := Task(id, title, false, taskListId, assignee);
      var created := TaskCreated(id, taskListId.value, title);
      return Emitted(if assignee.None? then [created] else [created, TaskAssigned(id, taskListId.value, assignee.value)]);
    }

    method RenameTask(title: string) returns (r: Outcome)
      requires state.id == id
      modifies this
      ensures (state, r) == Decide(old(state), Command.RenameTask(title))
    {
      if state.taskListId.None? {
        return Threw;
      }
      state := Task(id, title, state.completed, state.taskListId, state.assignee);
      return Emitted([TaskRenamed(id, state.taskListId.value, title)]);
    }

    method CompleteTask() returns (r: Outcome)
      requires state.id == id
      modifies this
      ensures (state, r) == Decide(old(state), Command.CompleteTask)
    {
      if state.taskListId.None? {
        return Threw;
      }
      if state.completed {
        return Rejected(AlreadyDone);
      }
      state := Task(id, state.title, true, state.taskListId, state.assignee);
      return Emitted([TaskCompleted(id, state.taskListId.value)]);
    }

    method ReopenTask() returns (r: Outcome)
      requires state.id == id
      modifies this
      ensures (state, r) == Decide(old(state), Command.ReopenTask)
    {
      if state.taskListId.None? {
        return Threw;
      }
      if !state.completed {
        return Rejected(NotDone);
      }
      state := Task(id, state.title, false, state.taskListId, state.assignee);
      return Emitted([TaskReopened(id, state.taskListId.value)]);
    }

    method AssignTask(assignee: Option<UserId>) returns (r: Outcome)
      requires state.id == id
      modifies this
      ensures (state, r) == Decide(old(state), Command.AssignTask(assignee))
    {
      if state.taskListId.None? || assignee.None? {
        return Threw;
      }
      if state.completed {
        return Rejected(AlreadyDone);
      }
      var previous := state.assignee;
      if previous == assignee {
        return Rejected(AlreadyAssigned);
      }
      state := state.(assignee := assignee);
      var l := state.taskListId.value;
      return Emitted([if previous.None? then TaskAssigned(id, l, assignee.value)
                      else TaskReassigned(id, l, previous.value, assignee.value)]);
    }

    method ReassignTask(assignee: Option<UserId>) returns (r: Outcome)
      requires state.id == id
      modifies this
      ensures (state, r) == Decide(old(state), Command.ReassignTask(assignee))
    {
      if state.taskListId.None? || assignee.None? {
        return Threw;
      }
      if state.completed {
        return Rejected(AlreadyDone);
      }
      if state.assignee.None? {
        return Rejected(NotAssigned);
      }
      var previous := state.assignee.value;
      if previous == assignee.value {
        return Rejected(AlreadyAssigned);
      }
      state := state.(assignee := assignee);
      return Emitted([TaskReassigned(id, state.taskListId.value, previous, assignee.value)]);
    }

    method UnassignTask() returns (r: Outcome)
      requires state.id == id
      modifies this
      ensures (state, r) == Decide(old(state), Command.UnassignTask)
    {
      if state.taskListId.None? {
        return Threw;
      }
      if state.completed {
        return Rejected(AlreadyDone);
      }
      if state.assignee.None? {
        return Rejected(NotAssigned);
      }
      var assignee := state.assignee.value;
      state := state.(assignee := None);
      return Emitted([TaskUnassigned(id, state.taskListId.value, assignee)]);
    }
  }

  class TaskListProjection {
    var tasks: seq<Task>
    var openTaskCount: int

    ghost function View(): TaskList
      reads this
    {
      TaskList(tasks, openTaskCount)
    }

    constructor ()
      ensures View() == EMPTY_LIST
    {
      tasks, openTaskCount := [], 0;
    }

    method OnTaskCreated(e: Event)
      requires e.TaskCreated?
      modifies this
      ensures View() == ShowInList(old(View()), e)
    {
      tasks := tasks + [Task(e.id, e.title, false, Some(e.taskListId), None)];
      openTaskCount := openTaskCount + 1;
    }

    /** Renaming, assigning and unassigning leave the counter as it is. */
    method OnTaskChanged(e: Event)
      requires !e.TaskCreated? && !e.TaskCompleted? && !e.TaskReopened?
      modifies this
      ensures View() == ShowInList(old(View()), e)
    {
      tasks := ChangeRows(tasks, e);
    }

    /** Completing and reopening count the open rows again. */
    method OnTaskCompletion(e: Event)
      requires e.TaskCompleted? || e.TaskReopened?
      modifies this
      ensures View() == ShowInList(old(View()), e)
    {
      tasks := ChangeRows(tasks, e);
      openTaskCount := OpenCount(tasks);
    }
  }

  class TaskAssigneeProjection {
    const id: UserId
    var taskIds: seq<TaskId>

    constructor (id: UserId)
      ensures this.id == id && taskIds == []
    {
      this.id := id;
      taskIds := [];
    }

    method OnTaskAssigned(e: Event)
      requires e.TaskAssigned?
      modifies this
      ensures taskIds == ShowForUser(id, old(taskIds), e)
    {
      taskIds := taskIds + [e.id];
    }

    method OnTaskUnassigned(e: Event)
      requires e.TaskUnassigned?
      modifies this
      ensures taskIds == ShowForUser(id, old(taskIds), e)
    {
      taskIds := Without(taskIds, e.id);
    }

    method OnTaskReassigned(e: Event)
      requires e.TaskReassigned?
      modifies this
      ensures taskIds == ShowForUser(id, old(taskIds), e)
    {
      var isReplacement := id == e.assignee;
      taskIds := if isReplacement then taskIds + [e.id] else Without(taskIds, e.id);
    }
  }
}
