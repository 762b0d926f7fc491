/** Properties that relate several operations of the store: the row count and
    coverage of the LEFT JOIN report, agreement between the listing queries,
    round trips, and the invariants every sequence of operations keeps. */
module StoreProperties {
  import opened Values
  import opened Schema
  import opened TaskStore
  import opened CommentStore

  // ---------------------------------------------------------------------------
  // Row count of the LEFT JOIN report

  /** A task contributes one row per comment, and one row when it has none. */
  function AtLeastOne(n: nat): nat {
    if n == 0 then 1 else n
  }

  /** The sum over the tasks of max(1, number of its comments). */
  function ExpectedRows(ts: seq<Task>, cs: seq<Comment>): nat {
    if ts == [] then 0 else AtLeastOne(CommentCount(cs, ts[0].id)) + ExpectedRows(ts[1..], cs)
  }

  /** The report has exactly one row per (task, comment) match plus one per
      task without comments. */
  lemma {:induction false} ReportRowCount(ts: seq<Task>, cs: seq<Comment>)
    ensures |LeftJoin(ts, cs)| == ExpectedRows(ts, cs)
  {
    if ts != [] {
      ReportRowCount(ts[1..], cs);
    }
  }

  /** The report is empty exactly when there are no tasks, whatever the comments. */
  lemma ReportEmptyIffNoTasks(ts: seq<Task>, cs: seq<Comment>)
    ensures LeftJoin(ts, cs) == [] <==> ts == []
  {
  }

  // ---------------------------------------------------------------------------
  // Every comment is carried by exactly as many report rows as there are comments

  /** The number of rows whose comment columns are filled. */
  function CarriedComments(rows: seq<ReportRow>): nat {
    if rows == [] then 0
    else (if rows[0].comment.Some? then 1 else 0) + CarriedComments(rows[1..])
  }

  /** The sum over the tasks of the number of comments on each. */
  function MatchedComments(ts: seq<Task>, cs: seq<Comment>): nat {
    if ts == [] then 0 else CommentCount(cs, ts[0].id) + MatchedComments(ts[1..], cs)
  }

  /** The number of tasks with key `id`. */
  function TaskCount(ts: seq<Task>, id: int): nat {
    if ts == [] then 0 else (if ts[0].id == id then 1 else 0) + TaskCount(ts[1..], id)
  }

  lemma {:induction false} CarriedConcat(a: seq<ReportRow>, b: seq<ReportRow>)
    ensures CarriedComments(a + b) == CarriedComments(a) + CarriedComments(b)
  {
    if a == [] {
      assert a + b == b;
    } else {
      assert (a + b)[1..] == a[1..] + b;
      CarriedConcat(a[1..], b);
    }
  }

  lemma {:induction false} CarriedAll(rows: seq<ReportRow>)
    requires forall row :: row in rows ==> row.comment.Some?
    ensures CarriedComments(rows) == |rows|
  {
    if rows != [] {
      assert forall row :: row in rows[1..] ==> row in rows;
      CarriedAll(rows[1..]);
    }
  }

  /** The filled rows of the report are the task-comment matches. */
  lemma {:induction false} CarriedIsMatched(ts: seq<Task>, cs: seq<Comment>)
    ensures CarriedComments(LeftJoin(ts, cs)) == MatchedComments(ts, cs)
  {
    if ts != [] {
      var m := MatchRows(ts[0], cs);
      if |m| != 0 {
        CarriedAll(m);
      }
      CarriedConcat(JoinTask(ts[0], cs), LeftJoin(ts[1..], cs));
      CarriedIsMatched(ts[1..], cs);
    }
  }

  lemma {:induction false} MatchedCommentsCons(ts: seq<Task>, c: Comment, rest: seq<Comment>)
    ensures MatchedComments(ts, [c] + rest) == TaskCount(ts, c.taskId) + MatchedComments(ts, rest)
  {
    if ts != [] {
      assert ([c] + rest)[1..] == rest;
      MatchedCommentsCons(ts[1..], c, rest);
    }
  }

  lemma {:induction false} AbsentKeyCount(ts: seq<Task>, id: int)
    requires !HasTask(ts, id)
    ensures TaskCount(ts, id) == 0
  {
    if ts != [] {
      assert ts[0] in ts;
      assert forall t :: t in ts[1..] ==> t in ts;
      AbsentKeyCount(ts[1..], id);
    }
  }

  /** Keys are unique: a live key belongs to exactly one task. */
  lemma {:induction false} LiveKeyCount(ts: seq<Task>, id: int)
    requires TaskKeysIncreasing(ts) && HasTask(ts, id)
    ensures TaskCount(ts, id) == 1
  {
    var tail := ts[1..];
    assert forall k :: 0 <= k < |tail| ==> tail[k] == ts[k + 1];
    if ts[0].id == id {
      forall t | t in tail ensures t.id != id {
        var k :| 0 <= k < |tail| && tail[k] == t;
      }
      AbsentKeyCount(tail, id);
    } else {
      var t :| t in ts && t.id == id;
      assert t in tail;
      LiveKeyCount(tail, id);
    }
  }

  /** Under the foreign key and unique keys, each comment matches exactly one task. */
  lemma {:induction false} EveryCommentMatchedOnce(ts: seq<Task>, cs: seq<Comment>)
    requires TaskKeysIncreasing(ts) && ReferencesLiveTasks(ts, cs)
    ensures MatchedComments(ts, cs) == |cs|
  {
    if cs == [] {
      assert MatchedComments(ts, cs) == 0 by { NoCommentsNoMatches(ts, cs); }
    } else {
      assert cs == [cs[0]] + cs[1..];
      MatchedCommentsCons(ts, cs[0], cs[1..]);
      assert cs[0] in cs;
      LiveKeyCount(ts, cs[0].taskId);
      assert forall c :: c in cs[1..] ==> c in cs;
      EveryCommentMatchedOnce(ts, cs[1..]);
    }
  }

  lemma {:induction false} NoCommentsNoMatches(ts: seq<Task>, cs: seq<Comment>)
    requires cs == []
    ensures MatchedComments(ts, cs) == 0
  {
    if ts != [] {
      NoCommentsNoMatches(ts[1..], cs);
    }
  }

  /** In a well-formed store the report carries as many comments as the comment
      table holds: none is lost and none is repeated. */
  lemma ReportCarriesEveryComment(db: Db)
    requires WellFormed(db)
    ensures CarriedComments(LeftJoin(db.tasks, db.comments)) == |db.comments|
  {
    CarriedIsMatched(db.tasks, db.comments);
    EveryCommentMatchedOnce(db.tasks, db.comments);
  }

  // ---------------------------------------------------------------------------
  // Listing queries

  /** The "Completed" label of `view_tasks` is dead logic: as long as no
      completed flag is set, it shows the same rows as `view_assign_task`. */
  lemma ListingIsSummaryWhileNeverCompleted(db: Db, filter: Option<string>)
    requires NeverCompleted(db.tasks)
    ensures ViewTasks(db, filter) == ViewAssignTask(db, filter)
  {
  }

  lemma {:induction false} AssigneesCountSelection(ts: seq<Task>, name: Option<string>)
    requires Truthy(name)
    ensures multiset(Assignees(ts))[name] == |SelectTasks(ts, name)|
  {
    if ts != [] {
      assert Assignees(ts) == [ts[0].assignedTo] + Assignees(ts[1..]);
      AssigneesCountSelection(ts[1..], name);
    }
  }

  /** `members` repeats a name once per task assigned to it: its count of a
      name equals the number of rows `view_assign_task` lists for that name. */
  lemma MembersCountAssignments(db: Db, name: Option<string>)
    requires Truthy(name)
    ensures multiset(Members(db))[name] == |ViewAssignTask(db, name)|
  {
    AssigneesCountSelection(db.tasks, name);
  }

  /** Called with only the required arguments, `add_task` stores priority 1 and
      leaves the task unassigned. */
  lemma AddTaskDefaults(db: Db, title: string, description: Option<string>, dueDate: int)
    ensures var ins := AddTask(db, title, description, dueDate);
            var t := ins.db.tasks[|db.tasks|];
            t.priority == DefaultPriority && t.assignedTo == None && t.status == PendingStatus
  {
  }

  /** A new task shows up, with status "Pending", in its assignee's listing. */
  lemma AddedTaskListedAsPending(db: Db, title: string, description: Option<string>, dueDate: int,
                                 priority: int, assignedTo: Option<string>)
    ensures var ins := AddTask(db, title, description, dueDate, priority, assignedTo);
            TaskRow(ins.id, title, dueDate, priority, PendingStatus) in ViewAssignTask(ins.db, assignedTo)
  {
    var ins := AddTask(db, title, description, dueDate, priority, assignedTo);
    assert ins.db.tasks[|db.tasks|] in ins.db.tasks;
  }

  /** After `assign_task(id, m)` the task is listed under a non-empty name
      exactly when m is that name. The new assignee m may be NULL or empty. */
  lemma AssignMovesTask(db: Db, id: int, m: Option<string>, n: string)
    requires HasTask(db.tasks, id)
    requires n != ""
    ensures (exists row :: row in ViewAssignTask(AssignTask(db, id, m), Some(n)) && row.id == id)
            <==> m == Some(n)
  {
    var r := AssignTask(db, id, m);
    forall u | u in r.tasks && u.id == id ensures u.assignedTo == m {
      var j :| 0 <= j < |r.tasks| && r.tasks[j] == u;
    }
    if m == Some(n) {
      var t :| t in db.tasks && t.id == id;
      var i :| 0 <= i < |db.tasks| && db.tasks[i] == t;
      assert r.tasks[i] in r.tasks;
      assert Summary(r.tasks[i]) in ViewAssignTask(r, Some(n));
    }
  }

  // ---------------------------------------------------------------------------
  // Updates, deletes and round trips

  /** `mark_task_completed(id)` is the partial update that writes only the
      status "completed". */
  lemma MarkCompletedIsStatusUpdate(db: Db, id: int)
    ensures MarkTaskCompleted(db, id) == UpdateTaskDetails(db, id, Some(CompletedStatus), None)
  {
  }

  lemma {:induction false} WithoutFreshTail(ts: seq<Task>, t: Task)
    requires forall u :: u in ts ==> u.id != t.id
    ensures WithoutTask(ts + [t], t.id) == ts
  {
    if ts == [] {
      assert WithoutTask([t], t.id) == WithoutTask([t][1..], t.id);
    } else {
      assert (ts + [t])[1..] == ts[1..] + [t];
      assert ts[0] in ts;
      assert forall u :: u in ts[1..] ==> u in ts;
      WithoutFreshTail(ts[1..], t);
    }
  }

  lemma {:induction false} WithoutUnreferenced(cs: seq<Comment>, taskId: int)
    requires forall c :: c in cs ==> c.taskId != taskId
    ensures WithoutCommentsOf(cs, taskId) == cs
  {
    if cs != [] {
      assert cs[0] in cs;
      assert forall c :: c in cs[1..] ==> c in cs;
      WithoutUnreferenced(cs[1..], taskId);
    }
  }

  /** Removing a task right after adding it gives back both tables as they were. */
  lemma AddThenRemoveRestoresTables(db: Db, title: string, description: Option<string>, dueDate: int,
                                    priority: int, assignedTo: Option<string>)
    requires WellFormed(db)
    ensures var ins := AddTask(db, title, description, dueDate, priority, assignedTo);
            var r := RemoveTask(ins.db, ins.id);
            r.tasks == db.tasks && r.comments == db.comments
  {
    var ins := AddTask(db, title, description, dueDate, priority, assignedTo);
    var t := ins.db.tasks[|db.tasks|];
    assert ins.db.tasks == db.tasks + [t];
    WithoutFreshTail(db.tasks, t);
    forall c | c in db.comments ensures c.taskId != t.id {
      var u :| u in db.tasks && u.id == c.taskId;
    }
    WithoutUnreferenced(db.comments, t.id);
  }

  /** After `remove_task(id)` no report row mentions the task or its comments. */
  lemma RemovedTaskLeavesNoReportRows(db: Db, id: int)
    ensures var r := RemoveTask(db, id);
            forall row :: row in LeftJoin(r.tasks, r.comments) ==>
              row.taskId != id && (row.comment.Some? ==> row.comment.value.taskId != id)
  {
  }

  /** A comment added to a live task appears in the report beside its task. */
  lemma AddedCommentReported(db: Db, taskId: int, text: string)
    requires HasTask(db.tasks, taskId)
    ensures var r := AddTaskComment(db, taskId, text);
            && r.Ok?
            && exists t :: t in r.value.db.tasks && t.id == taskId
                 && ReportRowFor(t, Some(Comment(r.value.id, taskId, text)))
                    in LeftJoin(r.value.db.tasks, r.value.db.comments)
  {
  }

  // ---------------------------------------------------------------------------
  // Any sequence of operations

  /** One mutating call of the store. */
  datatype Command =
    | AddTaskCmd(title: string, description: Option<string>, dueDate: int, priority: int, assignedTo: Option<string>)
    | UpdateDetailsCmd(id: int, status: Option<string>, newDueDate: Option<int>)
    | AssignCmd(id: int, assignee: Option<string>)
    | MarkCompletedCmd(id: int)
    | RemoveCmd(id: int)
    | AddCommentCmd(taskId: int, text: string)

  /** The state after one call; a comment the foreign key rejects changes nothing. */
  function Step(db: Db, cmd: Command): (r: Db)
    ensures WellFormed(db) ==> WellFormed(r)
    ensures NeverCompleted(db.tasks) ==> NeverCompleted(r.tasks)
    ensures cmd.AddCommentCmd? && !HasTask(db.tasks, cmd.taskId) ==> r == db
  {
    match cmd
    case AddTaskCmd(title, description, dueDate, priority, assignedTo) =>
      AddTask(db, title, description, dueDate, priority, assignedTo).db
    case UpdateDetailsCmd(id, status, dueDate) => UpdateTaskDetails(db, id, status, dueDate)
    case AssignCmd(id, assignee) => AssignTask(db, id, assignee)
    case MarkCompletedCmd(id) => MarkTaskCompleted(db, id)
    case RemoveCmd(id) => RemoveTask(db, id)
    case AddCommentCmd(taskId, text) =>
      var res := AddTaskComment(db, taskId, text);
      if res.Ok? then res.value.db else db
  }

  /** The state after a sequence of calls: unique keys, the foreign key and an
      unset `completed` flag hold after every one of them. */
  function Run(db: Db, cmds: seq<Command>): (r: Db)
    ensures WellFormed(db) ==> WellFormed(r)
    ensures NeverCompleted(db.tasks) ==> NeverCompleted(r.tasks)
    decreases |cmds|
  {
    if cmds == [] then db else Run(Step(db, cmds[0]), cmds[1..])
  }

  /** From freshly created tables, no sequence of calls ever sets `completed`
      or leaves a comment without its task. */
  lemma ReachableStatesAreConsistent(cmds: seq<Command>)
    ensures var r := Run(EmptyDb(), cmds);
            WellFormed(r) && NeverCompleted(r.tasks) && ReferencesLiveTasks(r.tasks, r.comments)
  {
  }
}
