/** The two tables of the store, `tasks_` and `task_comments`, and the integrity
    rules their schema declares: auto-increment primary keys and a foreign key
    from a comment to its task with ON DELETE CASCADE.

    A table is a sequence of rows in primary-key order. Because keys come from
    an auto-increment counter and rows are only ever appended, that is also the
    order of insertion. */
module Schema {
  import opened Values

  /** The column default of `tasks_.status`; `add_task` never supplies it. */
  const PendingStatus: string := "Pending"

  /** The default of `add_task`'s `priority` argument. `add_task` always names
      the column, so the column's own DEFAULT 1 never applies. */
  const DefaultPriority: int := 1

  /** The first value an AUTO_INCREMENT column hands out in a new table. */
  const FirstId: int := 1

  /** A row of `tasks_`. Dates are day numbers. */
  datatype Task = Task(
    id: int,
    title: string,
    description: Option<string>,
    dueDate: int,
    priority: int,
    assignedTo: Option<string>,
    status: string,
    completed: bool)

  /** A row of `task_comments`. */
  datatype Comment = Comment(id: int, taskId: int, text: string)

  /** Both tables together with their auto-increment counters. */
  datatype Db = Db(
    tasks: seq<Task>,
    comments: seq<Comment>,
    nextTaskId: int,
    nextCommentId: int)

  /** The result of an INSERT: the new state and the key the row received. */
  datatype Inserted = Inserted(db: Db, id: int)

  /** Some row of `ts` has primary key `id`. */
  predicate HasTask(ts: seq<Task>, id: int) {
    exists t :: t in ts && t.id == id
  }

  /** Some row of `cs` has primary key `id`. */
  predicate HasComment(cs: seq<Comment>, id: int) {
    exists c :: c in cs && c.id == id
  }

  /** Task keys strictly increase along the table, so they are distinct. */
  predicate TaskKeysIncreasing(ts: seq<Task>) {
    forall i, j :: 0 <= i < j < |ts| ==> ts[i].id < ts[j].id
  }

  /** Comment keys strictly increase along the table, so they are distinct. */
  predicate CommentKeysIncreasing(cs: seq<Comment>) {
    forall i, j :: 0 <= i < j < |cs| ==> cs[i].id < cs[j].id
  }

  /** The foreign key `task_comments.task_id -> tasks_.id`. */
  predicate ReferencesLiveTasks(ts: seq<Task>, cs: seq<Comment>) {
    forall c :: c in cs ==> HasTask(ts, c.taskId)
  }

  /** The integrity the schema guarantees: unique keys below their counters
      (so the next key handed out is fresh) and no comment without its task. */
  predicate WellFormed(db: Db) {
    && TaskKeysIncreasing(db.tasks)
    && (forall t :: t in db.tasks ==> t.id < db.nextTaskId)
    && CommentKeysIncreasing(db.comments)
    && (forall c :: c in db.comments ==> c.id < db.nextCommentId)
    && ReferencesLiveTasks(db.tasks, db.comments)
  }

  /** No task has its `completed` flag set. */
  predicate NeverCompleted(ts: seq<Task>) {
    forall t :: t in ts ==> !t.completed
  }

  /** Both tables freshly created: no rows, counters at their first value. */
  function EmptyDb(): (db: Db)
    ensures db.tasks == [] && db.comments == []
    ensures WellFormed(db) && NeverCompleted(db.tasks)
  {
    Db([], [], FirstId, FirstId)
  }

  /** CREATE TABLE IF NOT EXISTS for both tables: a store that already exists
      keeps every row and counter, a missing one starts empty. */
  function InitializeDatabase(existing: Option<Db>): (db: Db)
    ensures existing.Some? ==> db == existing.value
    ensures existing.None? ==> db.tasks == [] && db.comments == [] && WellFormed(db)
  {
    if existing.Some? then existing.value else EmptyDb()
  }

  /** Running the schema set-up twice is the same as running it once. */
  lemma InitializeIdempotent(existing: Option<Db>)
    ensures InitializeDatabase(Some(InitializeDatabase(existing))) == InitializeDatabase(existing)
  {
  }
}
