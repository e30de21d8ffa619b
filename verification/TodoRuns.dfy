/**
  Runs of many tasks whose events reach the read models through one first-in-first-out inbox per
  target.  A command appends its events to the inboxes of their targets; any inbox may be served
  at any time.
  */
module TodoRuns {
  import opened Options
  import opened TodoTasks

  datatype System = System(
    tasks: map<TaskId, Task>,
    created: seq<TaskId>, // in order of creation
    listInbox: map<TaskListId, seq<Event>>,
    listView: map<TaskListId, TaskList>,
    userInbox: map<UserId, seq<Event>>,
    userView: map<UserId, seq<TaskId>>
  )

  const START := System(map[], [], map[], map[], map[], map[])

  datatype Step = Submit(id: TaskId, command: Command) | ServeList(list: TaskListId) | ServeUser(user: UserId)

  function At<K, V>(m: map<K, V>, k: K, default: V): V {
    if k in m then m[k] else default
  }

  function TaskAt(sys: System, id: TaskId): Task {
    At(sys.tasks, id, NewTask(id))
  }

  function PostToUsers(inbox: map<UserId, seq<Event>>, targets: seq<UserId>, e: Event): map<UserId, seq<Event>> {
    map u | u in inbox.Keys + (set t | t in targets) :: At(inbox, u, []) + if u in targets then [e] else []
  }

  /** Routes one event to its list and to the assignees it concerns. */
  function Post(sys: System, e: Event): System {
    sys.(listInbox := sys.listInbox[e.taskListId := At(sys.listInbox, e.taskListId, []) + [e]],
         userInbox := PostToUsers(sys.userInbox, UserTargets(e), e))
  }

  function PostAll(sys: System, events: seq<Event>): System {
    if events == [] then sys else Post(PostAll(sys, events[..|events| - 1]), events[|events| - 1])
  }

  function Recorded(sys: System, id: TaskId, t: Task): System {
    sys.(tasks := sys.tasks[id := t], created := if id in sys.tasks then sys.created else sys.created + [id])
  }

  function Submitted(sys: System, id: TaskId, c: Command): System {
    var (t, r) := Decide(TaskAt(sys, id), c);
    if !r.Emitted? then sys else PostAll(Recorded(sys, id, t), r.events)
  }

  function Apply(sys: System, step: Step): System {
    match step
    case Submit(id, c) => Submitted(sys, id, c)
    case ServeList(l) =>
      var inbox := At(sys.listInbox, l, []);
      if inbox == [] then sys
      else sys.(listInbox := sys.listInbox[l := inbox[1..]],
                listView := sys.listView[l := ShowInList(At(sys.listView, l, EMPTY_LIST), inbox[0])])
    case ServeUser(u) =>
      var inbox := At(sys.userInbox, u, []);
      if inbox == [] then sys
      else sys.(userInbox := sys.userInbox[u := inbox[1..]],
                userView := sys.userView[u := ShowForUser(u, At(sys.userView, u, []), inbox[0])])
  }

  /** A task identifier is created once. */
  predicate Enabled(sys: System, step: Step) {
    step.Submit? && step.command.CreateTask? ==> step.id !in sys.tasks
  }

  ghost predicate Run(trace: seq<System>, steps: seq<Step>) {
    && |trace| == |steps| + 1
    && trace[0] == START
    && forall i :: 0 <= i < |steps| ==> Enabled(trace[i], steps[i]) && trace[i + 1] == Apply(trace[i], steps[i])
  }

  // ----- Views once their inbox is drained -----

  function DrainUser(u: UserId, ids: seq<TaskId>, inbox: seq<Event>): seq<TaskId> {
    if inbox == [] then ids else ShowForUser(u, DrainUser(u, ids, inbox[..|inbox| - 1]), inbox[|inbox| - 1])
  }

  function DrainList(v: TaskList, inbox: seq<Event>): TaskList {
    if inbox == [] then v else ShowInList(DrainList(v, inbox[..|inbox| - 1]), inbox[|inbox| - 1])
  }

  function UserView(sys: System, u: UserId): seq<TaskId> {
    DrainUser(u, At(sys.userView, u, []), At(sys.userInbox, u, []))
  }

  function ListView(sys: System, l: TaskListId): TaskList {
    DrainList(At(sys.listView, l, EMPTY_LIST), At(sys.listInbox, l, []))
  }

  lemma {:induction false} DrainUserFirst(u: UserId, ids: seq<TaskId>, inbox: seq<Event>)
    requires inbox != []
    ensures DrainUser(u, ids, inbox) == DrainUser(u, ShowForUser(u, ids, inbox[0]), inbox[1..])
    decreases |inbox|
  {
    if |inbox| > 1 {
      DrainUserFirst(u, ids, inbox[..|inbox| - 1]);
      assert inbox[1..][..|inbox| - 2] == inbox[..|inbox| - 1][1..];
    } else {
      assert inbox[..0] == [] && inbox[1..] == [];
    }
  }

  lemma {:induction false} DrainListFirst(v: TaskList, inbox: seq<Event>)
    requires inbox != []
    ensures DrainList(v, inbox) == DrainList(ShowInList(v, inbox[0]), inbox[1..])
    decreases |inbox|
  {
    if |inbox| > 1 {
      DrainListFirst(v, inbox[..|inbox| - 1]);
      assert inbox[1..][..|inbox| - 2] == inbox[..|inbox| - 1][1..];
    } else {
      assert inbox[..0] == [] && inbox[1..] == [];
    }
  }

  /** Serving an inbox never changes what its view will show once drained. */
  lemma ServeKeepsViews(sys: System, step: Step, u: UserId, l: TaskListId)
    requires !step.Submit?
    ensures UserView(Apply(sys, step), u) == UserView(sys, u)
    ensures ListView(Apply(sys, step), l) == ListView(sys, l)
  {
    if step.ServeUser? && step.user == u && At(sys.userInbox, u, []) != [] {
      DrainUserFirst(u, At(sys.userView, u, []), At(sys.userInbox, u, []));
    }
    if step.ServeList? && step.list == l && At(sys.listInbox, l, []) != [] {
      DrainListFirst(At(sys.listView, l, EMPTY_LIST), At(sys.listInbox, l, []));
    }
  }

  lemma PostChangesViews(sys: System, e: Event, u: UserId, l: TaskListId)
    ensures UserView(Post(sys, e), u) == if u in UserTargets(e) then ShowForUser(u, UserView(sys, u), e) else UserView(sys, u)
    ensures ListView(Post(sys, e), l) == if l == e.taskListId then ShowInList(ListView(sys, l), e) else ListView(sys, l)
  {
    var sys' := Post(sys, e);
    var users, lists := At(sys.userInbox, u, []), At(sys.listInbox, l, []);
    if u in UserTargets(e) {
      assert At(sys'.userInbox, u, []) == users + [e];
      assert (users + [e])[..|users|] == users;
    } else {
      assert At(sys'.userInbox, u, []) == users;
    }
    if l == e.taskListId {
      assert (lists + [e])[..|lists|] == lists;
    }
  }

  // ----- The assignee index -----

  ghost predicate Distinct(ids: seq<TaskId>) {
    forall i, j :: 0 <= i < j < |ids| ==> ids[i] != ids[j]
  }

  predicate AssignedTo(sys: System, t: TaskId, u: UserId) {
    t in sys.tasks && sys.tasks[t].assignee == Some(u)
  }

  /** The drained view of `u` holds exactly what is assigned to `u`, each task once. */
  ghost predicate Indexed(sys: System, u: UserId) {
    && Distinct(UserView(sys, u))
    && forall t :: t in UserView(sys, u) <==> AssignedTo(sys, t, u)
  }

  ghost predicate Named(sys: System) {
    forall t :: t in sys.tasks ==> sys.tasks[t].id == t && sys.tasks[t].taskListId.Some?
  }

  lemma WithoutDistinct(ids: seq<TaskId>, id: TaskId)
    requires Distinct(ids)
    ensures Distinct(Without(ids, id))
  {
    if ids != [] {
      WithoutDistinct(ids[1..], id);
      assert ids[0] !in ids[1..];
      if ids[0] == id {
        assert [] + Without(ids[1..], id) == Without(ids[1..], id);
      }
    }
  }

  lemma PostAllKeeps(sys: System, events: seq<Event>)
    ensures var sys' := PostAll(sys, events);
            sys'.tasks == sys.tasks && sys'.created == sys.created && sys'.listView == sys.listView
  {
  }

  ghost function UserAfter(u: UserId, ids: seq<TaskId>, e: Event): seq<TaskId> {
    if u in UserTargets(e) then ShowForUser(u, ids, e) else ids
  }

  ghost function ListAfter(l: TaskListId, v: TaskList, e: Event): TaskList {
    if e.taskListId == l then ShowInList(v, e) else v
  }

  /** The drained views after a command that emits one event, or two. */
  lemma PostedViews(sys: System, es: seq<Event>, u: UserId, l: TaskListId)
    requires 1 <= |es| <= 2
    ensures |es| == 1 ==>
      && ListView(PostAll(sys, es), l) == ListAfter(l, ListView(sys, l), es[0])
      && UserView(PostAll(sys, es), u) == UserAfter(u, UserView(sys, u), es[0])
    ensures |es| == 2 ==>
      && ListView(PostAll(sys, es), l) == ListAfter(l, ListAfter(l, ListView(sys, l), es[0]), es[1])
      && UserView(PostAll(sys, es), u) == UserAfter(u, UserAfter(u, UserView(sys, u), es[0]), es[1])
  {
    hide ListView, UserView, Post, ShowInList, ShowForUser;
    PostChangesViews(sys, es[0], u, l);
    assert es[..1] == [es[0]] && es[..1][..0] == [];
    assert PostAll(sys, es[..1]) == Post(sys, es[0]);
    if |es| == 2 {
      PostChangesViews(Post(sys, es[0]), es[1], u, l);
    } else {
      assert es[..0] == [];
    }
  }

  lemma EmitsOneOrTwo(t: Task, c: Command)
    requires Decide(t, c).1.Emitted?
    ensures 1 <= |Decide(t, c).1.events| <= 2
  {
  }

  lemma RecordedKeepsViews(sys: System, id: TaskId, t: Task, u: UserId, l: TaskListId)
    ensures UserView(Recorded(sys, id, t), u) == UserView(sys, u) && ListView(Recorded(sys, id, t), l) == ListView(sys, l)
  {
  }

  lemma SubmittedViews(sys: System, id: TaskId, c: Command, u: UserId, l: TaskListId)
    requires Decide(TaskAt(sys, id), c).1.Emitted?
    ensures var es := Decide(TaskAt(sys, id), c).1.events;
            && 1 <= |es| <= 2
            && (|es| == 1 ==>
                  && ListView(Submitted(sys, id, c), l) == ListAfter(l, ListView(sys, l), es[0])
                  && UserView(Submitted(sys, id, c), u) == UserAfter(u, UserView(sys, u), es[0]))
            && (|es| == 2 ==>
                  && ListView(Submitted(sys, id, c), l) == ListAfter(l, ListAfter(l, ListView(sys, l), es[0]), es[1])
                  && UserView(Submitted(sys, id, c), u) == UserAfter(u, UserAfter(u, UserView(sys, u), es[0]), es[1]))
    ensures Submitted(sys, id, c).tasks == sys.tasks[id := Decide(TaskAt(sys, id), c).0]
    ensures Submitted(sys, id, c).created == (if id in sys.tasks then sys.created else sys.created + [id])
    ensures Submitted(sys, id, c).listView == sys.listView
  {
    hide Decide, ListView, UserView, PostAll, ListAfter, UserAfter, TaskAt;
    var (t, r) := Decide(TaskAt(sys, id), c);
    EmitsOneOrTwo(TaskAt(sys, id), c);
    RecordedKeepsViews(sys, id, t, u, l);
    PostAllKeeps(Recorded(sys, id, t), r.events);
    PostedViews(Recorded(sys, id, t), r.events, u, l);
  }

  /** The event tells of a change of assignee from `was` to `now`. */
  predicate Moves(e: Event, was: Option<UserId>, now: Option<UserId>) {
    match e
    case TaskAssigned(_, _, v) => was == None && now == Some(v)
    case TaskReassigned(_, _, p, v) => was == Some(p) && now == Some(v) && p != v
    case TaskUnassigned(_, _, p) => was == Some(p) && now == None
    case TaskCreated(_, _, _) | TaskRenamed(_, _, _) | TaskCompleted(_, _) | TaskReopened(_, _) => was == now
  }

  lemma DecideMoves(t: Task, c: Command)
    requires c.CreateTask? ==> t.assignee == None
    requires Decide(t, c).1.Emitted?
    ensures var (t', r) := Decide(t, c);
            && (forall e :: e in r.events ==> e.id == t.id)
            && (|r.events| == 1 ==> Moves(r.events[0], t.assignee, t'.assignee))
            && (|r.events| == 2 ==> Moves(r.events[0], t.assignee, None) && Moves(r.events[1], None, t'.assignee))
  {
  }

  lemma UserFollowsMove(u: UserId, ids: seq<TaskId>, e: Event, was: Option<UserId>, now: Option<UserId>)
    requires Distinct(ids) && (e.id in ids <==> was == Some(u)) && Moves(e, was, now)
    ensures var after := UserAfter(u, ids, e);
            Distinct(after) && (e.id in after <==> now == Some(u)) && forall t :: t != e.id ==> (t in after <==> t in ids)
  {
    WithoutDistinct(ids, e.id);
  }

  lemma SubmitKeepsIndex(sys: System, id: TaskId, c: Command, u: UserId)
    requires Named(sys) && Indexed(sys, u)
    requires c.CreateTask? ==> TaskAt(sys, id).assignee == None
    ensures Indexed(Submitted(sys, id, c), u)
  {
    hide Decide, PostAll, Post, UserAfter, ListAfter, Distinct, UserView, ListView, Moves;
    var (t, r) := Decide(TaskAt(sys, id), c);
    if r.Emitted? {
      var was := TaskAt(sys, id).assignee;
      SubmittedViews(sys, id, c, u, 0);
      DecideMoves(TaskAt(sys, id), c);
      assert id in UserView(sys, u) <==> was == Some(u);
      assert r.events[0] in r.events;
      if |r.events| == 1 {
        UserFollowsMove(u, UserView(sys, u), r.events[0], was, t.assignee);
      } else {
        assert r.events[1] in r.events;
        UserFollowsMove(u, UserView(sys, u), r.events[0], was, None);
        UserFollowsMove(u, UserAfter(u, UserView(sys, u), r.events[0]), r.events[1], None, t.assignee);
      }
    }
  }

  /**
    Creating a task keeps the index of every user correct exactly when the identifier is not
    currently assigned to anyone: re-creating an assigned task strands its old assignment.
    */
  lemma CreateKeepsIndexIff(sys: System, id: TaskId, c: Command)
    requires Named(sys) && (forall u :: Indexed(sys, u)) && c.CreateTask? && c.taskListId.Some?
    ensures (forall u :: Indexed(Submitted(sys, id, c), u)) <==> TaskAt(sys, id).assignee == None
  {
    var prior := TaskAt(sys, id).assignee;
    if prior == None {
      forall u ensures Indexed(Submitted(sys, id, c), u) {
        SubmitKeepsIndex(sys, id, c, u);
      }
    } else {
      var u := prior.value;
      assert Indexed(sys, u);
      SubmittedViews(sys, id, c, u, 0);
      var before := UserView(sys, u);
      assert AssignedTo(sys, id, u);
      var i :| 0 <= i < |before| && before[i] == id;
      if c.assignee == Some(u) {
        var after := UserView(Submitted(sys, id, c), u);
        assert after == before + [id];
        assert after[i] == id && after[|before|] == id;
        assert !Distinct(after);
      } else {
        assert id in UserView(Submitted(sys, id, c), u) && !AssignedTo(Submitted(sys, id, c), id, u);
      }
      assert !Indexed(Submitted(sys, id, c), u);
    }
  }

  // ----- The list view -----

  /** One list in creation order, as the aggregates have it. */
  function Rows(created: seq<TaskId>, tasks: map<TaskId, Task>, l: TaskListId): seq<Task> {
    if created == [] then []
    else
      var t := created[|created| - 1];
      Rows(created[..|created| - 1], tasks, l) + if t in tasks && tasks[t].taskListId == Some(l) then [tasks[t]] else []
  }

  ghost predicate Listed(sys: System, l: TaskListId) {
    ListView(sys, l) == TaskList(Rows(sys.created, sys.tasks, l), OpenCount(Rows(sys.created, sys.tasks, l)))
  }

  ghost predicate Created(sys: System) {
    Distinct(sys.created) && forall t :: t in sys.created <==> t in sys.tasks
  }

  lemma {:induction false} RowsOfOthers(created: seq<TaskId>, tasks: map<TaskId, Task>, id: TaskId, x: Task, l: TaskListId)
    requires id !in created
    ensures Rows(created, tasks[id := x], l) == Rows(created, tasks, l)
  {
    if created != [] {
      RowsOfOthers(created[..|created| - 1], tasks, id, x, l);
    }
  }

  /** Changing one task of the list changes its one row as the event says. */
  lemma {:induction false} RowsChange(created: seq<TaskId>, tasks: map<TaskId, Task>, x: Task, e: Event, l: TaskListId)
    requires Distinct(created) && (forall t :: t in created ==> t in tasks) && (forall t :: t in tasks ==> tasks[t].id == t)
    requires e.id in tasks && e.taskListId == l && tasks[e.id].taskListId == Some(l)
    requires x == ChangeRow(tasks[e.id], e) && x.taskListId == Some(l)
    ensures Rows(created, tasks[e.id := x], l) == ChangeRows(Rows(created, tasks, l), e)
  {
    if created != [] {
      var init, t := created[..|created| - 1], created[|created| - 1];
      RowsChange(init, tasks, x, e, l);
    }
  }

  lemma OpenCountAppend(rows: seq<Task>, row: Task)
    ensures OpenCount(rows + [row]) == OpenCount(rows) + if row.completed then 0 else 1
  {
    assert (rows + [row])[..|rows|] == rows;
  }

  lemma {:induction false} OpenCountChange(rows: seq<Task>, e: Event)
    requires !e.TaskCompleted? && !e.TaskReopened?
    ensures OpenCount(ChangeRows(rows, e)) == OpenCount(rows)
  {
    if rows != [] {
      OpenCountChange(rows[..|rows| - 1], e);
      assert ChangeRows(rows, e)[..|rows| - 1] == ChangeRows(rows[..|rows| - 1], e);
    }
  }

  /** The counter equals the number of open rows after any event, at every intermediate point. */
  lemma CounterKept(v: TaskList, e: Event)
    requires v.openTaskCount == OpenCount(v.tasks)
    ensures ShowInList(v, e).openTaskCount == OpenCount(ShowInList(v, e).tasks)
  {
    if e.TaskCreated? {
      OpenCountAppend(v.tasks, Task(e.id, e.title, false, Some(e.taskListId), None));
    } else if !e.TaskCompleted? && !e.TaskReopened? {
      OpenCountChange(v.tasks, e);
    }
  }

  lemma DecideChangesRow(t: Task, c: Command)
    requires !c.CreateTask? && Decide(t, c).1.Emitted?
    ensures var (t', r) := Decide(t, c);
            && |r.events| == 1 && !r.events[0].TaskCreated? && r.events[0].id == t.id
            && t.taskListId == Some(r.events[0].taskListId) && t' == ChangeRow(t, r.events[0])
  {
  }

  lemma ChangeKeepsList(sys: System, id: TaskId, c: Command, l: TaskListId)
    requires Named(sys) && Created(sys) && Listed(sys, l) && !c.CreateTask?
    ensures Listed(Submitted(sys, id, c), l)
  {
    hide Decide, PostAll, Post, UserAfter, UserView, ListView, Rows, ChangeRow, OpenCount, Submitted;
    var (t, r) := Decide(TaskAt(sys, id), c);
    if r.Emitted? {
      SubmittedViews(sys, id, c, 0, l);
      DecideChangesRow(TaskAt(sys, id), c);
      ChangedRowsShown(sys, TaskAt(sys, id), r.events[0], l);
    } else {
      NotSubmitted(sys, id, c);
    }
  }

  lemma NotSubmitted(sys: System, id: TaskId, c: Command)
    requires !Decide(TaskAt(sys, id), c).1.Emitted?
    ensures Submitted(sys, id, c) == sys
  {
  }

  lemma ChangedRowsShown(sys: System, t: Task, e: Event, l: TaskListId)
    requires Named(sys) && Created(sys) && Listed(sys, l)
    requires !e.TaskCreated? && e.id == t.id && t == TaskAt(sys, e.id) && t.taskListId == Some(e.taskListId)
    ensures e.id in sys.tasks
    ensures var rows := Rows(sys.created, sys.tasks[e.id := ChangeRow(t, e)], l);
            ListAfter(l, ListView(sys, l), e) == TaskList(rows, OpenCount(rows))
  {
    hide ListView, Rows, OpenCount;
    assert e.id in sys.tasks;
    if e.taskListId == l {
      RowsChange(sys.created, sys.tasks, ChangeRow(t, e), e, l);
      CounterKept(ListView(sys, l), e);
    } else {
      OtherListRows(sys.created, sys.tasks, e.id, ChangeRow(t, e), l);
    }
  }

  lemma {:induction false} OtherListRows(created: seq<TaskId>, tasks: map<TaskId, Task>, id: TaskId, x: Task, l: TaskListId)
    requires id in tasks && tasks[id].taskListId != Some(l) && x.taskListId != Some(l)
    ensures Rows(created, tasks[id := x], l) == Rows(created, tasks, l)
  {
    if created != [] {
      OtherListRows(created[..|created| - 1], tasks, id, x, l);
    }
  }

  /** A new row appended to a list, and its assignment when it starts assigned. */
  lemma NewRowShown(rows: seq<Task>, row: Task, e: Event)
    requires e.TaskAssigned? && e.id == row.id && Some(e.taskListId) == row.taskListId
    requires forall i :: 0 <= i < |rows| ==> rows[i].id != row.id
    ensures var t := row.(assignee := Some(e.assignee));
            ShowInList(TaskList(rows + [row], OpenCount(rows + [row])), e) == TaskList(rows + [t], OpenCount(rows + [t]))
  {
    hide OpenCount;
    var t := row.(assignee := Some(e.assignee));
    OpenCountAppend(rows, row);
    OpenCountAppend(rows, t);
    var changed := ChangeRows(rows + [row], e);
    assert |changed| == |rows + [t]|;
    forall i | 0 <= i < |changed| ensures changed[i] == (rows + [t])[i] {
      assert changed[i] == ChangeRow((rows + [row])[i], e);
    }
    assert changed == rows + [t];
  }

  lemma RowsAppend(sys: System, id: TaskId, t: Task, l: TaskListId)
    requires Created(sys) && id !in sys.tasks
    ensures Rows(sys.created + [id], sys.tasks[id := t], l)
         == Rows(sys.created, sys.tasks, l) + if t.taskListId == Some(l) then [t] else []
  {
    assert (sys.created + [id])[..|sys.created|] == sys.created;
    RowsOfOthers(sys.created, sys.tasks, id, t, l);
  }

  lemma CreateKeepsList(sys: System, id: TaskId, c: Command, l: TaskListId)
    requires Named(sys) && Created(sys) && Listed(sys, l) && c.CreateTask? && id !in sys.tasks
    ensures Listed(Submitted(sys, id, c), l)
  {
    hide PostAll, Post, UserAfter, UserView, ListView, Rows, ChangeRow, OpenCount, Submitted;
    var (t, r) := Decide(TaskAt(sys, id), c);
    if r.Emitted? {
      SubmittedViews(sys, id, c, 0, l);
      RowsAppend(sys, id, t, l);
      var rows := Rows(sys.created, sys.tasks, l);
      if c.taskListId == Some(l) {
        var row := Task(id, c.title, false, Some(l), None);
        OpenCountAppend(rows, row);
        if c.assignee.Some? {
          NoRow(sys.created, sys.tasks, id, l);
          NewRowShown(rows, row, r.events[1]);
        }
      } else {
        assert rows + [] == rows;
      }
    } else {
      NotSubmitted(sys, id, c);
    }
  }

  lemma {:induction false} NoRow(created: seq<TaskId>, tasks: map<TaskId, Task>, id: TaskId, l: TaskListId)
    requires id !in created && forall t :: t in tasks ==> tasks[t].id == t
    ensures forall row :: row in Rows(created, tasks, l) ==> row.id != id
  {
    if created != [] {
      NoRow(created[..|created| - 1], tasks, id, l);
    }
  }

  function InList(t: Task, l: TaskListId): nat {
    if t.taskListId == Some(l) then 1 else 0
  }

  lemma {:induction false} RowsLength(created: seq<TaskId>, tasks: map<TaskId, Task>, id: TaskId, x: Task, l: TaskListId)
    requires Distinct(created) && id in tasks
    ensures |Rows(created, tasks[id := x], l)| - |Rows(created, tasks, l)|
         == if id in created then InList(x, l) - InList(tasks[id], l) else 0
  {
    if created != [] {
      RowsLength(created[..|created| - 1], tasks, id, x, l);
    }
  }

  /**
    Creating a task keeps every list view correct exactly when the identifier is new: creating
    it again leaves a second or a stale row behind.
    */
  lemma CreateKeepsListsIff(sys: System, id: TaskId, c: Command)
    requires Named(sys) && Created(sys) && (forall l :: Listed(sys, l)) && c.CreateTask? && c.taskListId.Some?
    ensures (forall l :: Listed(Submitted(sys, id, c), l)) <==> id !in sys.tasks
  {
    if id !in sys.tasks {
      forall l ensures Listed(Submitted(sys, id, c), l) {
        CreateKeepsList(sys, id, c, l);
      }
    } else {
      var l := sys.tasks[id].taskListId.value;
      assert Listed(sys, l);
      RecreationLeavesRow(sys, id, c, l);
    }
  }

  lemma RecreationLeavesRow(sys: System, id: TaskId, c: Command, l: TaskListId)
    requires Named(sys) && Created(sys) && Listed(sys, l) && c.CreateTask? && c.taskListId.Some?
    requires id in sys.tasks && sys.tasks[id].taskListId == Some(l)
    ensures !Listed(Submitted(sys, id, c), l)
  {
    hide PostAll, Post, UserAfter, UserView, ListView, Rows, ChangeRow, OpenCount, Submitted;
    var (t, r) := Decide(TaskAt(sys, id), c);
    SubmittedViews(sys, id, c, 0, l);
    RowsLength(sys.created, sys.tasks, id, t, l);
    assert |ListView(Submitted(sys, id, c), l).tasks| == |Rows(sys.created, sys.tasks, l)| + InList(t, l);
  }

  // ----- Every run -----

  ghost predicate Invariant(sys: System) {
    && Named(sys) && Created(sys) && (forall u :: Indexed(sys, u)) && (forall l :: Listed(sys, l))
    && (forall l :: l in sys.listView ==> sys.listView[l].openTaskCount == OpenCount(sys.listView[l].tasks))
  }

  lemma SubmitKeepsNames(sys: System, id: TaskId, c: Command)
    requires Named(sys) && Created(sys)
    ensures Named(Submitted(sys, id, c)) && Created(Submitted(sys, id, c))
    ensures Submitted(sys, id, c).listView == sys.listView
  {
    var (t, r) := Decide(TaskAt(sys, id), c);
    if r.Emitted? {
      hide Submitted, Post, PostAll, ListView, UserView, Decide;
      SubmittedViews(sys, id, c, 0, 0);
      DecideKeepsName(TaskAt(sys, id), c);
    }
  }

  lemma DecideKeepsName(t: Task, c: Command)
    ensures Decide(t, c).0.id == t.id
    ensures Decide(t, c).1.Emitted? ==> Decide(t, c).0.taskListId.Some?
  {
  }

  lemma StepKeeps(sys: System, step: Step)
    requires Invariant(sys) && Enabled(sys, step)
    ensures Invariant(Apply(sys, step))
  {
    var sys' := Apply(sys, step);
    match step
    case Submit(id, c) =>
      SubmitKeepsNames(sys, id, c);
      forall u ensures Indexed(sys', u) {
        SubmitKeepsIndex(sys, id, c, u);
      }
      forall l ensures Listed(sys', l) {
        if c.CreateTask? { CreateKeepsList(sys, id, c, l); } else { ChangeKeepsList(sys, id, c, l); }
      }
    case ServeList(l) => ServeKeeps(sys, step);
    case ServeUser(u) => ServeKeeps(sys, step);
  }

  lemma ServeKeeps(sys: System, step: Step)
    requires Invariant(sys) && !step.Submit?
    ensures Invariant(Apply(sys, step))
  {
    var sys' := Apply(sys, step);
    forall u ensures Indexed(sys', u) {
      ServeKeepsViews(sys, step, u, 0);
      assert Indexed(sys, u);
    }
    forall l ensures Listed(sys', l) {
      ServeKeepsViews(sys, step, 0, l);
      assert Listed(sys, l);
    }
    if step.ServeList? && At(sys.listInbox, step.list, []) != [] {
      CounterKept(At(sys.listView, step.list, EMPTY_LIST), At(sys.listInbox, step.list, [])[0]);
    }
  }

  /**
    At every moment of every run: draining a user's inbox yields exactly that user's tasks, each
    once; draining a list's inbox yields its tasks in creation order, equal to the aggregates;
    and every list view, drained or not, counts its own open rows.
    */
  lemma {:induction false} ReadModelsAgree(trace: seq<System>, steps: seq<Step>, k: nat)
    requires Run(trace, steps) && k < |trace|
    ensures forall u :: Indexed(trace[k], u)
    ensures forall l :: Listed(trace[k], l)
    ensures forall l :: l in trace[k].listView ==>
              trace[k].listView[l].openTaskCount == OpenCount(trace[k].listView[l].tasks)
    ensures Invariant(trace[k])
  {
    if k > 0 {
      ReadModelsAgree(trace, steps, k - 1);
      StepKeeps(trace[k - 1], steps[k - 1]);
    } else {
      assert Invariant(START);
    }
  }

  // ----- What the drained views show, without naming how they are folded -----

  /** The positions of the open rows. */
  ghost function OpenAt(rows: seq<Task>): set<nat> {
    set i: nat | i < |rows| && !rows[i].completed
  }

  lemma {:induction false} OpenCountIsOpen(rows: seq<Task>)
    ensures OpenCount(rows) == |OpenAt(rows)|
  {
    if rows != [] {
      var init, last := rows[..|rows| - 1], |rows| - 1;
      OpenCountIsOpen(init);
      assert OpenAt(rows) == OpenAt(init) + if rows[last].completed then {} else {last};
    }
  }

  /** `pos` tells which created task each row is: the list's tasks, in creation order, and no others. */
  ghost predicate Shows(rows: seq<Task>, pos: seq<nat>, created: seq<TaskId>, tasks: map<TaskId, Task>, l: TaskListId) {
    && |pos| == |rows|
    && (forall i :: 0 <= i < |rows| ==> pos[i] < |created| && created[pos[i]] in tasks && rows[i] == tasks[created[pos[i]]])
    && (forall i, j :: 0 <= i < j < |pos| ==> pos[i] < pos[j])
    && (forall p: nat :: p in pos <==> p < |created| && created[p] in tasks && tasks[created[p]].taskListId == Some(l))
  }

  lemma {:induction false} RowsShow(created: seq<TaskId>, tasks: map<TaskId, Task>, l: TaskListId) returns (pos: seq<nat>)
    ensures Shows(Rows(created, tasks, l), pos, created, tasks, l)
  {
    pos := [];
    if created != [] {
      var init, t := created[..|created| - 1], created[|created| - 1];
      pos := RowsShow(init, tasks, l);
      if t in tasks && tasks[t].taskListId == Some(l) {
        pos := pos + [|created| - 1];
      }
    }
  }

  /**
    At every moment of every run a drained list shows its tasks, each as its aggregate has it, in
    creation order and nothing else, and counts those that are not completed.
    */
  lemma DrainedListShows(trace: seq<System>, steps: seq<Step>, k: nat, l: TaskListId) returns (pos: seq<nat>)
    requires Run(trace, steps) && k < |trace|
    ensures Distinct(trace[k].created) && forall t :: t in trace[k].created <==> t in trace[k].tasks
    ensures Shows(ListView(trace[k], l).tasks, pos, trace[k].created, trace[k].tasks, l)
    ensures ListView(trace[k], l).openTaskCount == |OpenAt(ListView(trace[k], l).tasks)|
  {
    hide Run, Rows, OpenCount, ListView, Indexed, Named, Shows, OpenAt;
    ReadModelsAgree(trace, steps, k);
    assert Listed(trace[k], l);
    var rows := Rows(trace[k].created, trace[k].tasks, l);
    OpenCountIsOpen(rows);
    pos := RowsShow(trace[k].created, trace[k].tasks, l);
  }

  /** The one row of a task in a drained list. */
  ghost predicate OnlyRow(sys: System, t: Task) {
    && t.taskListId.Some?
    && t in ListView(sys, t.taskListId.value).tasks
    && forall row :: row in ListView(sys, t.taskListId.value).tasks && row.id == t.id ==> row == t
  }

  lemma DrainedRow(sys: System, id: TaskId)
    requires Invariant(sys) && id in sys.tasks
    ensures OnlyRow(sys, sys.tasks[id])
  {
    hide ListView, OpenCount, Indexed;
    var t := sys.tasks[id];
    var l := t.taskListId.value;
    assert Listed(sys, l);
    var rows := Rows(sys.created, sys.tasks, l);
    var pos := RowsShow(sys.created, sys.tasks, l);
    var p: nat :| p < |sys.created| && sys.created[p] == id;
    assert p in pos;
    var i :| 0 <= i < |pos| && pos[i] == p;
    assert rows[i] == t;
    forall row | row in rows && row.id == id ensures row == t {
      var j :| 0 <= j < |rows| && rows[j] == row;
    }
  }

  /** Whatever a run's command stores for a task, the drained list shows as that task's only row. */
  lemma SubmittedIsShown(trace: seq<System>, steps: seq<Step>, k: nat)
    requires Run(trace, steps) && k < |steps| && steps[k].Submit?
    requires Decide(TaskAt(trace[k], steps[k].id), steps[k].command).1.Emitted?
    ensures steps[k].id in trace[k + 1].tasks && OnlyRow(trace[k + 1], trace[k + 1].tasks[steps[k].id])
    ensures trace[k + 1].tasks == trace[k].tasks[steps[k].id := Decide(TaskAt(trace[k], steps[k].id), steps[k].command).0]
  {
    hide Invariant, OnlyRow, Post, PostAll, Decide;
    ReadModelsAgree(trace, steps, k + 1);
    SubmittedViews(trace[k], steps[k].id, steps[k].command, 0, 0);
    DrainedRow(trace[k + 1], steps[k].id);
  }

  /** A task the run knows, with these fields, is the only row of its identifier in its drained list. */
  ghost predicate Shown(sys: System, id: TaskId, l: Option<TaskListId>, title: string, completed: bool, assignee: Option<UserId>) {
    OnlyRow(sys, Task(id, title, completed, l, assignee))
  }

  /** What the user asked for is what the drained list shows, for every command of every run. */
  lemma CommandsAreShown(trace: seq<System>, steps: seq<Step>, k: nat)
    requires Run(trace, steps) && k < |steps| && steps[k].Submit?
    ensures var sys, sys', id := trace[k], trace[k + 1], steps[k].id;
            match steps[k].command
            case CreateTask(title, l, assignee) => l.Some? ==> Shown(sys', id, l, title, false, assignee)
            case RenameTask(title) =>
              id in sys.tasks ==>
                var t := sys.tasks[id]; Shown(sys', id, t.taskListId, title, t.completed, t.assignee)
            case CompleteTask =>
              id in sys.tasks ==> var t := sys.tasks[id]; Shown(sys', id, t.taskListId, t.title, true, t.assignee)
            case ReopenTask =>
              id in sys.tasks ==> var t := sys.tasks[id]; Shown(sys', id, t.taskListId, t.title, false, t.assignee)
            case AssignTask(assignee) =>
              id in sys.tasks && !sys.tasks[id].completed && assignee.Some? ==>
                var t := sys.tasks[id]; Shown(sys', id, t.taskListId, t.title, false, assignee)
            case ReassignTask(assignee) =>
              id in sys.tasks && !sys.tasks[id].completed && assignee.Some? && sys.tasks[id].assignee.Some? ==>
                var t := sys.tasks[id]; Shown(sys', id, t.taskListId, t.title, false, assignee)
            case UnassignTask =>
              id in sys.tasks && !sys.tasks[id].completed ==>
                var t := sys.tasks[id]; Shown(sys', id, t.taskListId, t.title, false, None)
  {
    hide Invariant, OnlyRow, PostAll, Decide, ListView, UserView;
    var sys, id, c := trace[k], steps[k].id, steps[k].command;
    ReadModelsAgree(trace, steps, k);
    KnownTask(sys, id);
    CommandKeepsName(TaskAt(sys, id), c);
    if Decide(TaskAt(sys, id), c).1.Emitted? {
      SubmittedIsShown(trace, steps, k);
    } else if id in sys.tasks {
      NextIsSubmitted(trace, steps, k);
      NotSubmitted(sys, id, c);
      DrainedRow(sys, id);
    }
    if c.CreateTask? || id in sys.tasks {
      CommandMeans(TaskAt(sys, id), c);
    }
  }

  lemma KnownTask(sys: System, id: TaskId)
    requires Invariant(sys)
    ensures TaskAt(sys, id).id == id && (id in sys.tasks ==> TaskAt(sys, id).taskListId.Some?)
  {
    hide Listed, Indexed;
  }

  lemma NextIsSubmitted(trace: seq<System>, steps: seq<Step>, k: nat)
    requires Run(trace, steps) && k < |steps| && steps[k].Submit?
    ensures trace[k + 1] == Submitted(trace[k], steps[k].id, steps[k].command)
    ensures Enabled(trace[k], steps[k])
  {
    hide Submitted;
  }

  lemma CommandKeepsName(t: Task, c: Command)
    ensures Decide(t, c).0.id == t.id && (!Decide(t, c).1.Emitted? ==> Decide(t, c).0 == t)
  {
  }

  lemma CommandMeans(t: Task, c: Command)
    requires !c.CreateTask? ==> t.taskListId.Some?
    ensures var t' := Decide(t, c).0;
            match c
            case CreateTask(title, l, assignee) => l.Some? ==> t' == Task(t.id, title, false, l, assignee)
            case RenameTask(title) => t' == Task(t.id, title, t.completed, t.taskListId, t.assignee)
            case CompleteTask => t' == Task(t.id, t.title, true, t.taskListId, t.assignee)
            case ReopenTask => t' == Task(t.id, t.title, false, t.taskListId, t.assignee)
            case AssignTask(assignee) =>
              !t.completed && assignee.Some? ==> t' == Task(t.id, t.title, false, t.taskListId, assignee)
            case ReassignTask(assignee) =>
              !t.completed && assignee.Some? && t.assignee.Some? ==> t' == Task(t.id, t.title, false, t.taskListId, assignee)
            case UnassignTask =>
              !t.completed ==> t' == Task(t.id, t.title, false, t.taskListId, None)
  {
  }

  /** A reachable state in which creating an existing task again breaks a list view and the index. */
  lemma RecreationBreaksViews(again: Command) returns (trace: seq<System>, steps: seq<Step>, id: TaskId)
    requires again.CreateTask? && again.taskListId.Some?
    ensures Run(trace, steps)
    ensures var sys' := Submitted(trace[|trace| - 1], id, again);
            (exists l :: !Listed(sys', l)) && (exists u :: !Indexed(sys', u))
  {
    hide Listed, Indexed, Named, Created;
    id := 0;
    var first := CreateTask("a", Some(0), Some(0));
    steps := [Submit(id, first)];
    trace := [START, Apply(START, steps[0])];
    ReadModelsAgree(trace, steps, 1);
    CreatedAssigned(id, first);
    CreateKeepsListsIff(trace[1], id, again);
    CreateKeepsIndexIff(trace[1], id, again);
  }

  lemma CreatedAssigned(id: TaskId, c: Command)
    requires c.CreateTask? && c.taskListId.Some? && c.assignee.Some?
    ensures id in Submitted(START, id, c).tasks && TaskAt(Submitted(START, id, c), id).assignee.Some?
  {
    hide ListView, UserView, PostAll;
    SubmittedViews(START, id, c, 0, 0);
  }
}
