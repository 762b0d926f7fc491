/** The operations of `TaskComments`: inserting a comment under the foreign
    key, listing comments, the LEFT JOIN report of tasks and their comments,
    and the per-member report. Spreadsheet writing is left out; a report
    returns the file name and the rows it would write. */
module CommentStore {
  import opened Values
  import opened Schema
  import opened TaskStore

  /** The file `generate_reports` writes. */
  const ReportFile: string := "reports.xlsx"

  /** The extension appended to a member's name by `view_assign_task_by_member`. */
  const WorkbookExtension: string := ".xlsx"

  /** The message `view_assign_task_by_member` returns for a missing name (spelled as in the program). */
  const InvalidMemberMessage: string := "Please slecet valid memeber name"

  /** Errors the database raises for these statements. */
  datatype DbError =
    | ForeignKeyViolation(taskId: int)   // INSERT of a comment whose task does not exist
    | UnknownColumn(column: string)      // a WHERE clause naming a column the table lacks

  /** `add_task_comment`: INSERT INTO task_comments, rejected by the foreign key
      when the task is missing. */
  function AddTaskComment(db: Db, taskId: int, text: string): (r: Result<Inserted, DbError>)
    ensures r.Ok? <==> HasTask(db.tasks, taskId)
    ensures r.Err? ==> r.error == ForeignKeyViolation(taskId)
    ensures r.Ok? ==>
              && r.value.db.tasks == db.tasks && r.value.db.nextTaskId == db.nextTaskId
              && r.value.db.comments == db.comments + [Comment(r.value.id, taskId, text)]
              && db.nextCommentId <= r.value.id < r.value.db.nextCommentId
    ensures r.Ok? && WellFormed(db) ==> !HasComment(db.comments, r.value.id) && WellFormed(r.value.db)
    ensures r.Ok? ==> NeverCompleted(db.tasks) == NeverCompleted(r.value.db.tasks)
  {
    if !HasTask(db.tasks, taskId) then Err(ForeignKeyViolation(taskId))
    else
      var c := Comment(db.nextCommentId, taskId, text);
      var db' := db.(comments := db.comments + [c], nextCommentId := db.nextCommentId + 1);
      assert forall x :: x in db'.comments ==> x in db.comments || x == c;
      Ok(Inserted(db', c.id))
  }

  /** `view_commnts`: without a filter every comment; with a truthy filter the
      query names `assigned_to`, which `task_comments` does not have, so it always fails. */
  function ViewComments(db: Db, filter: Option<string>): (r: Result<seq<Comment>, DbError>)
    ensures r.Err? <==> Truthy(filter)
    ensures r.Err? ==> r.error == UnknownColumn("assigned_to")
    ensures r.Ok? ==> r.value == db.comments
  {
    if Truthy(filter) then Err(UnknownColumn("assigned_to")) else Ok(db.comments)
  }

  /** A row of the report: the seven task columns, then the comment columns
      (`task_comments.id`, `task_id`, `comment`), which a LEFT JOIN fills from one
      matching comment or leaves all NULL. */
  datatype ReportRow = ReportRow(
    taskId: int,
    title: string,
    description: Option<string>,
    dueDate: int,
    priority: int,
    assignedTo: Option<string>,
    status: string,
    comment: Option<Comment>)

  function ReportRowFor(t: Task, c: Option<Comment>): ReportRow {
    ReportRow(t.id, t.title, t.description, t.dueDate, t.priority, t.assignedTo, t.status, c)
  }

  /** The number of comments on task `taskId`. */
  function CommentCount(cs: seq<Comment>, taskId: int): (n: nat)
    ensures n <= |cs|
  {
    if cs == [] then 0
    else (if cs[0].taskId == taskId then 1 else 0) + CommentCount(cs[1..], taskId)
  }

  /** A task has no comments exactly when no comment refers to it. */
  lemma {:induction false} CommentCountZero(cs: seq<Comment>, taskId: int)
    ensures CommentCount(cs, taskId) == 0 <==> forall c :: c in cs ==> c.taskId != taskId
  {
    if cs != [] {
      assert forall c :: c in cs <==> c == cs[0] || c in cs[1..];
      CommentCountZero(cs[1..], taskId);
    }
  }

  /** The rows `ON tasks_.id = task_comments.task_id` pairs with task `t`. */
  function MatchRows(t: Task, cs: seq<Comment>): (r: seq<ReportRow>)
    ensures |r| == CommentCount(cs, t.id)
    ensures forall c :: c in cs && c.taskId == t.id ==> ReportRowFor(t, Some(c)) in r
    ensures forall row :: row in r ==>
              row.comment.Some? && row.comment.value in cs && row.comment.value.taskId == t.id
              && row == ReportRowFor(t, row.comment)
  {
    if cs == [] then []
    else
      assert forall c :: c in cs <==> c == cs[0] || c in cs[1..];
      (if cs[0].taskId == t.id then [ReportRowFor(t, Some(cs[0]))] else []) + MatchRows(t, cs[1..])
  }

  /** A task's part of the LEFT JOIN: its matches, or one row with NULL comment columns. */
  function JoinTask(t: Task, cs: seq<Comment>): seq<ReportRow> {
    var m := MatchRows(t, cs);
    if |m| == 0 then [ReportRowFor(t, None)] else m
  }

  /** `row` is a row the join may produce from task `t`: matched to one of its
      comments, or, when it has none, unmatched. */
  predicate JoinedFrom(row: ReportRow, t: Task, cs: seq<Comment>) {
    && row == ReportRowFor(t, row.comment)
    && match row.comment
       case None => CommentCount(cs, t.id) == 0
       case Some(c) => c in cs && c.taskId == t.id
  }

  /** `tasks_ LEFT JOIN task_comments ON tasks_.id = task_comments.task_id`. */
  function LeftJoin(ts: seq<Task>, cs: seq<Comment>): (r: seq<ReportRow>)
    ensures |r| >= |ts|
    ensures forall t, c :: t in ts && c in cs && c.taskId == t.id ==> ReportRowFor(t, Some(c)) in r
    ensures forall t :: t in ts && CommentCount(cs, t.id) == 0 ==> ReportRowFor(t, None) in r
    ensures forall row :: row in r ==> exists t :: t in ts && JoinedFrom(row, t, cs)
  {
    if ts == [] then []
    else
      var head := JoinTask(ts[0], cs);
      var rest := LeftJoin(ts[1..], cs);
      assert forall t :: t in ts <==> t == ts[0] || t in ts[1..];
      assert forall row :: row in head ==> JoinedFrom(row, ts[0], cs);
      head + rest
  }

  /** What `generate_reports` produces: nothing when the join is empty,
      otherwise the joined rows written to a fixed file. */
  datatype Report = NoValuesRecorded | Workbook(fileName: string, rows: seq<ReportRow>)

  /** `generate_reports`. */
  function GenerateReports(db: Db): (r: Report)
    ensures r.NoValuesRecorded? <==> db.tasks == []
    ensures r.Workbook? ==> r.fileName == ReportFile && r.rows == LeftJoin(db.tasks, db.comments)
  {
    var rows := LeftJoin(db.tasks, db.comments);
    if rows == [] then NoValuesRecorded else Workbook(ReportFile, rows)
  }

  /** What `view_assign_task_by_member` produces. */
  datatype MemberReport =
    | InvalidMember(message: string)
    | NoTasksAvailable
    | MemberWorkbook(fileName: string, rows: seq<TaskRow>)

  /** `view_assign_task_by_member`: a missing name returns guidance without
      querying; otherwise the member's tasks, written to a file named after them. */
  function ViewAssignTaskByMember(db: Db, member: Option<string>): (r: MemberReport)
    ensures r.InvalidMember? <==> !Truthy(member)
    ensures r.InvalidMember? ==> r.message == InvalidMemberMessage
    ensures r.NoTasksAvailable? <==> Truthy(member) && forall t :: t in db.tasks ==> t.assignedTo != member
    ensures r.MemberWorkbook? ==>
              && r.fileName == member.value + WorkbookExtension
              && r.rows != []
              && (forall t :: t in db.tasks && t.assignedTo == member ==> Summary(t) in r.rows)
              && (forall row :: row in r.rows ==> exists t :: t in db.tasks && t.assignedTo == member && row == Summary(t))
    ensures r.MemberWorkbook? && TaskKeysIncreasing(db.tasks) ==>
              forall i, j :: 0 <= i < j < |r.rows| ==> r.rows[i].id < r.rows[j].id
  {
    if !Truthy(member) then InvalidMember(InvalidMemberMessage)
    else
      var rows := ViewAssignTask(db, member);
      assert (forall t :: t in db.tasks ==> t.assignedTo != member) ==> rows == [] by {
        if rows != [] { assert rows[0] in rows; }
      }
      if rows == [] then
        NoTasksAvailable
      else MemberWorkbook(member.value + WorkbookExtension, rows)
  }
}
