/** The operations of `TaskManager`: each is one SQL statement against `tasks_`
    (and, for a delete, the cascade it triggers on `task_comments`). Printing is
    left out; a query returns the rows it would print. */
module TaskStore {
  import opened Values
  import opened Schema

  /** The literal `mark_task_completed` writes into `status`. */
  const CompletedStatus: string := "completed"

  /** The label `view_tasks` shows for a row whose `completed` flag is set. */
  const CompletedLabel: string := "Completed"

  /** The five columns `view_tasks` and `view_assign_task` select. */
  datatype TaskRow = TaskRow(id: int, title: string, dueDate: int, priority: int, status: string)

  /** The assignments of one `UPDATE tasks_ SET ...`; `None` leaves a column alone. */
  datatype Patch = Patch(status: Option<string>, dueDate: Option<int>, assignedTo: Option<Option<string>>)

  function Apply(t: Task, p: Patch): Task {
    t.(status := if p.status.Some? then p.status.value else t.status,
       dueDate := if p.dueDate.Some? then p.dueDate.value else t.dueDate,
       assignedTo := if p.assignedTo.Some? then p.assignedTo.value else t.assignedTo)
  }

  /** `UPDATE tasks_ SET <p> WHERE id = id`: the rows with that key get the
      patch, all others stay; no row is added, dropped or moved. */
  function UpdateWhereId(ts: seq<Task>, id: int, p: Patch): (r: seq<Task>)
    ensures |r| == |ts|
    ensures forall i :: 0 <= i < |ts| ==> r[i] == (if ts[i].id == id then Apply(ts[i], p) else ts[i])
  {
    seq(|ts|, i requires 0 <= i < |ts| => if ts[i].id == id then Apply(ts[i], p) else ts[i])
  }

  /** `add_task`: an INSERT that supplies every column except `status`, which
      takes its default, and sets `completed` to false. */
  function AddTask(db: Db, title: string, description: Option<string>, dueDate: int,
                   priority: int := DefaultPriority, assignedTo: Option<string> := None): (r: Inserted)
    ensures |r.db.tasks| == |db.tasks| + 1 && r.db.tasks[..|db.tasks|] == db.tasks
    ensures r.db.tasks[|db.tasks|]
            == Task(r.id, title, description, dueDate, priority, assignedTo, PendingStatus, false)
    ensures r.db.comments == db.comments && r.db.nextCommentId == db.nextCommentId
    ensures db.nextTaskId <= r.id < r.db.nextTaskId
    ensures WellFormed(db) ==> !HasTask(db.tasks, r.id) && WellFormed(r.db)
    ensures NeverCompleted(db.tasks) ==> NeverCompleted(r.db.tasks)
  {
    var t := Task(db.nextTaskId, title, description, dueDate, priority, assignedTo, PendingStatus, false);
    var r := Inserted(db.(tasks := db.tasks + [t], nextTaskId := db.nextTaskId + 1), t.id);
    assert forall u :: u in r.db.tasks ==> u in db.tasks || u == t;
    r
  }

  /** The WHERE clause of the listing queries: with a truthy name only the rows
      assigned exactly to it (SQL `=` never matches NULL), otherwise every row. */
  predicate Selected(filter: Option<string>, t: Task) {
    !Truthy(filter) || t.assignedTo == filter
  }

  function SelectTasks(ts: seq<Task>, filter: Option<string>): (r: seq<Task>)
    ensures forall t :: t in r <==> t in ts && Selected(filter, t)
    ensures !Truthy(filter) ==> r == ts
    ensures |r| <= |ts|
  {
    if ts == [] then []
    else
      var rest := SelectTasks(ts[1..], filter);
      assert forall t :: t in ts <==> t == ts[0] || t in ts[1..];
      if Selected(filter, ts[0]) then [ts[0]] + rest else rest
  }

  /** The selection keeps every matching row as often as the table holds it,
      and no other row. */
  lemma {:induction false} SelectTasksCounts(ts: seq<Task>, filter: Option<string>)
    ensures forall t :: multiset(SelectTasks(ts, filter))[t]
                        == (if Selected(filter, t) then multiset(ts)[t] else 0)
  {
    if ts != [] {
      assert ts == [ts[0]] + ts[1..];
      SelectTasksCounts(ts[1..], filter);
    }
  }

  /** The selection keeps the table's key order, so no row is listed twice. */
  lemma {:induction false} SelectTasksKeepsOrder(ts: seq<Task>, filter: Option<string>)
    requires TaskKeysIncreasing(ts)
    ensures TaskKeysIncreasing(SelectTasks(ts, filter))
  {
    if ts != [] {
      var tail := ts[1..];
      assert forall k :: 0 <= k < |tail| ==> tail[k] == ts[k + 1];
      SelectTasksKeepsOrder(tail, filter);
      var rest := SelectTasks(tail, filter);
      forall t | t in rest ensures ts[0].id < t.id {
        var k :| 0 <= k < |tail| && tail[k] == t;
      }
    }
  }

  /** The row `view_assign_task` shows: the stored status. */
  function Summary(t: Task): TaskRow {
    TaskRow(t.id, t.title, t.dueDate, t.priority, t.status)
  }

  /** The row `view_tasks` shows: "Completed" when the flag is set, else the stored status. */
  function Listing(t: Task): TaskRow {
    TaskRow(t.id, t.title, t.dueDate, t.priority, if t.completed then CompletedLabel else t.status)
  }

  function Summaries(ts: seq<Task>): (r: seq<TaskRow>)
    ensures |r| == |ts|
    ensures forall i :: 0 <= i < |ts| ==> r[i] == Summary(ts[i])
    ensures forall t :: t in ts ==> Summary(t) in r
    ensures forall row :: row in r ==> exists t :: t in ts && row == Summary(t)
    ensures TaskKeysIncreasing(ts) ==> forall i, j :: 0 <= i < j < |r| ==> r[i].id < r[j].id
  {
    var r := seq(|ts|, i requires 0 <= i < |ts| => Summary(ts[i]));
    assert forall t :: t in ts ==> Summary(t) in r by {
      forall t | t in ts ensures Summary(t) in r {
        var i :| 0 <= i < |ts| && ts[i] == t;
        assert r[i] == Summary(t);
      }
    }
    assert forall row :: row in r ==> exists t :: t in ts && row == Summary(t) by {
      forall row | row in r ensures exists t :: t in ts && row == Summary(t) {
        var i :| 0 <= i < |r| && r[i] == row;
        assert ts[i] in ts;
      }
    }
    r
  }

  function Listings(ts: seq<Task>): (r: seq<TaskRow>)
    ensures |r| == |ts|
    ensures forall i :: 0 <= i < |ts| ==> r[i] == Listing(ts[i])
    ensures forall t :: t in ts ==> Listing(t) in r
    ensures forall row :: row in r ==> exists t :: t in ts && row == Listing(t)
    ensures TaskKeysIncreasing(ts) ==> forall i, j :: 0 <= i < j < |r| ==> r[i].id < r[j].id
  {
    var r := seq(|ts|, i requires 0 <= i < |ts| => Listing(ts[i]));
    assert forall t :: t in ts ==> Listing(t) in r by {
      forall t | t in ts ensures Listing(t) in r {
        var i :| 0 <= i < |ts| && ts[i] == t;
        assert r[i] == Listing(t);
      }
    }
    assert forall row :: row in r ==> exists t :: t in ts && row == Listing(t) by {
      forall row | row in r ensures exists t :: t in ts && row == Listing(t) {
        var i :| 0 <= i < |r| && r[i] == row;
        assert ts[i] in ts;
      }
    }
    r
  }

  /** `view_tasks`: the listing of the selected tasks. */
  function ViewTasks(db: Db, filter: Option<string>): (r: seq<TaskRow>)
    ensures forall t :: t in db.tasks && Selected(filter, t) ==> Listing(t) in r
    ensures forall row :: row in r ==> exists t :: t in db.tasks && Selected(filter, t) && row == Listing(t)
    ensures forall row :: row in r ==>
              (row.status == CompletedLabel || exists t :: t in db.tasks && !t.completed && row.status == t.status)
    ensures !Truthy(filter) ==> |r| == |db.tasks|
    ensures TaskKeysIncreasing(db.tasks) ==> forall i, j :: 0 <= i < j < |r| ==> r[i].id < r[j].id
  {
    var sel := SelectTasks(db.tasks, filter);
    assert TaskKeysIncreasing(db.tasks) ==> TaskKeysIncreasing(sel) by {
      if TaskKeysIncreasing(db.tasks) { SelectTasksKeepsOrder(db.tasks, filter); }
    }
    Listings(sel)
  }

  /** `view_assign_task`: the same selection, showing the stored status. */
  function ViewAssignTask(db: Db, filter: Option<string>): (r: seq<TaskRow>)
    ensures forall t :: t in db.tasks && Selected(filter, t) ==> Summary(t) in r
    ensures forall row :: row in r ==> exists t :: t in db.tasks && Selected(filter, t) && row == Summary(t)
    ensures !Truthy(filter) ==> |r| == |db.tasks|
    ensures TaskKeysIncreasing(db.tasks) ==> forall i, j :: 0 <= i < j < |r| ==> r[i].id < r[j].id
  {
    var sel := SelectTasks(db.tasks, filter);
    assert TaskKeysIncreasing(db.tasks) ==> TaskKeysIncreasing(sel) by {
      if TaskKeysIncreasing(db.tasks) { SelectTasksKeepsOrder(db.tasks, filter); }
    }
    Summaries(sel)
  }

  /** `update_task_details`: only the truthy arguments become SET assignments;
      with none the method returns before touching the table. */
  function UpdateTaskDetails(db: Db, id: int, status: Option<string>, dueDate: Option<int>): (r: Db)
    ensures !Truthy(status) && dueDate.None? ==> r == db
    ensures !HasTask(db.tasks, id) ==> r == db
    ensures r.comments == db.comments && r.nextTaskId == db.nextTaskId && r.nextCommentId == db.nextCommentId
    ensures |r.tasks| == |db.tasks|
    ensures forall i :: 0 <= i < |db.tasks| && db.tasks[i].id != id ==> r.tasks[i] == db.tasks[i]
    ensures forall i :: 0 <= i < |db.tasks| && db.tasks[i].id == id ==>
              && r.tasks[i] == db.tasks[i].(status := r.tasks[i].status, dueDate := r.tasks[i].dueDate)
              && r.tasks[i].status == (if Truthy(status) then status.value else db.tasks[i].status)
              && r.tasks[i].dueDate == (if dueDate.Some? then dueDate.value else db.tasks[i].dueDate)
    ensures WellFormed(db) ==> WellFormed(r)
    ensures NeverCompleted(db.tasks) ==> NeverCompleted(r.tasks)
  {
    if !Truthy(status) && dueDate.None? then db
    else
      var p := Patch(if Truthy(status) then status else None, dueDate, None);
      db.(tasks := UpdateWhereId(db.tasks, id, p))
  }

  /** `assign_task`: an unconditional update of `assigned_to` (None writes NULL). */
  function AssignTask(db: Db, id: int, assignedTo: Option<string>): (r: Db)
    ensures !HasTask(db.tasks, id) ==> r == db
    ensures r.comments == db.comments && r.nextTaskId == db.nextTaskId && r.nextCommentId == db.nextCommentId
    ensures |r.tasks| == |db.tasks|
    ensures forall i :: 0 <= i < |db.tasks| && db.tasks[i].id != id ==> r.tasks[i] == db.tasks[i]
    ensures forall i :: 0 <= i < |db.tasks| && db.tasks[i].id == id ==>
              r.tasks[i] == db.tasks[i].(assignedTo := assignedTo)
    ensures WellFormed(db) ==> WellFormed(r)
    ensures NeverCompleted(db.tasks) ==> NeverCompleted(r.tasks)
  {
    var p := Patch(None, None, Some(assignedTo));
    db.(tasks := UpdateWhereId(db.tasks, id, p))
  }

  /** `mark_task_completed`: writes the literal "completed" into `status` and
      leaves the `completed` flag as it was. */
  function MarkTaskCompleted(db: Db, id: int): (r: Db)
    ensures !HasTask(db.tasks, id) ==> r == db
    ensures r.comments == db.comments && r.nextTaskId == db.nextTaskId && r.nextCommentId == db.nextCommentId
    ensures |r.tasks| == |db.tasks|
    ensures forall i :: 0 <= i < |db.tasks| && db.tasks[i].id != id ==> r.tasks[i] == db.tasks[i]
    ensures forall i :: 0 <= i < |db.tasks| && db.tasks[i].id == id ==>
              r.tasks[i] == db.tasks[i].(status := CompletedStatus)
              && r.tasks[i].completed == db.tasks[i].completed
    ensures WellFormed(db) ==> WellFormed(r)
    ensures NeverCompleted(db.tasks) ==> NeverCompleted(r.tasks)
  {
    var p := Patch(Some(CompletedStatus), None, None);
    db.(tasks := UpdateWhereId(db.tasks, id, p))
  }

  /** `DELETE FROM tasks_ WHERE id = id`, keeping the order of the remaining rows. */
  function WithoutTask(ts: seq<Task>, id: int): (r: seq<Task>)
    ensures forall t :: t in r <==> t in ts && t.id != id
    ensures |r| <= |ts|
  {
    if ts == [] then []
    else
      var rest := WithoutTask(ts[1..], id);
      assert forall t :: t in ts <==> t == ts[0] || t in ts[1..];
      if ts[0].id == id then rest else [ts[0]] + rest
  }

  /** Deleting rows keeps the remaining task keys increasing. */
  lemma {:induction false} WithoutTaskKeepsOrder(ts: seq<Task>, id: int)
    requires TaskKeysIncreasing(ts)
    ensures TaskKeysIncreasing(WithoutTask(ts, id))
  {
    if ts != [] {
      var tail := ts[1..];
      assert forall k :: 0 <= k < |tail| ==> tail[k] == ts[k + 1];
      WithoutTaskKeepsOrder(tail, id);
      var rest := WithoutTask(tail, id);
      forall t | t in rest ensures ts[0].id < t.id {
        var k :| 0 <= k < |tail| && tail[k] == t;
      }
    }
  }

  /** The cascade of ON DELETE CASCADE: the comments of the deleted task go too. */
  function WithoutCommentsOf(cs: seq<Comment>, taskId: int): (r: seq<Comment>)
    ensures forall c :: c in r <==> c in cs && c.taskId != taskId
    ensures |r| <= |cs|
  {
    if cs == [] then []
    else
      var rest := WithoutCommentsOf(cs[1..], taskId);
      assert forall c :: c in cs <==> c == cs[0] || c in cs[1..];
      if cs[0].taskId == taskId then rest else [cs[0]] + rest
  }

  /** The cascade keeps the remaining comment keys increasing. */
  lemma {:induction false} WithoutCommentsKeepsOrder(cs: seq<Comment>, taskId: int)
    requires CommentKeysIncreasing(cs)
    ensures CommentKeysIncreasing(WithoutCommentsOf(cs, taskId))
  {
    if cs != [] {
      var tail := cs[1..];
      assert forall k :: 0 <= k < |tail| ==> tail[k] == cs[k + 1];
      WithoutCommentsKeepsOrder(tail, taskId);
      var rest := WithoutCommentsOf(tail, taskId);
      forall c | c in rest ensures cs[0].id < c.id {
        var k :| 0 <= k < |tail| && tail[k] == c;
      }
    }
  }

  /** `remove_task`: the task row goes, and with it exactly its comments. */
  function RemoveTask(db: Db, id: int): (r: Db)
    ensures forall t :: t in r.tasks <==> t in db.tasks && t.id != id
    ensures forall c :: c in r.comments <==> c in db.comments && c.taskId != id
    ensures !HasTask(r.tasks, id)
    ensures r.nextTaskId == db.nextTaskId && r.nextCommentId == db.nextCommentId
    ensures WellFormed(db) ==> WellFormed(r)
    ensures NeverCompleted(db.tasks) ==> NeverCompleted(r.tasks)
  {
    var r := db.(tasks := WithoutTask(db.tasks, id), comments := WithoutCommentsOf(db.comments, id));
    assert WellFormed(db) ==> WellFormed(r) by {
      if WellFormed(db) {
        WithoutTaskKeepsOrder(db.tasks, id);
        WithoutCommentsKeepsOrder(db.comments, id);
        forall c | c in r.comments ensures HasTask(r.tasks, c.taskId) {
          var t :| t in db.tasks && t.id == c.taskId;
          assert t in r.tasks;
        }
      }
    }
    r
  }

  function Assignees(ts: seq<Task>): (r: seq<Option<string>>)
    ensures |r| == |ts|
    ensures forall i :: 0 <= i < |ts| ==> r[i] == ts[i].assignedTo
  {
    if ts == [] then [] else [ts[0].assignedTo] + Assignees(ts[1..])
  }

  /** `members`: `SELECT assigned_to FROM tasks_`, one entry per row,
      NULLs and repeats included. */
  function Members(db: Db): (r: seq<Option<string>>)
    ensures |r| == |db.tasks|
    ensures forall i :: 0 <= i < |db.tasks| ==> r[i] == db.tasks[i].assignedTo
    ensures forall name :: name in r <==> exists t :: t in db.tasks && t.assignedTo == name
  {
    var r := Assignees(db.tasks);
    assert forall name :: name in r ==> exists t :: t in db.tasks && t.assignedTo == name by {
      forall name | name in r ensures exists t :: t in db.tasks && t.assignedTo == name {
        var i :| 0 <= i < |r| && r[i] == name;
        assert db.tasks[i] in db.tasks;
      }
    }
    assert forall t :: t in db.tasks ==> t.assignedTo in r by {
      forall t | t in db.tasks ensures t.assignedTo in r {
        var i :| 0 <= i < |db.tasks| && db.tasks[i] == t;
        assert r[i] == t.assignedTo;
      }
    }
    r
  }
}
