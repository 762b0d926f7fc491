# Task manager store — a Dafny model

This project models the persistence core of a command-line task tracker. The
tracker keeps two MySQL tables: `tasks_` and `task_comments`. A comment points
to its task through a foreign key with ON DELETE CASCADE. Each operation of the
`TaskManager` and `TaskComments` classes is one SQL statement. Taken together,
the statements define a small state machine. The model states that machine in
Dafny and proves facts about it.

- `Values` (`values.dfy`): `Option`, `Result`, and Python truthiness of an
  optional string argument.
- `Schema` (`schema.dfy`): the rows of both tables, the store `Db` (both tables
  plus their auto-increment counters), and the integrity the schema provides
  (`WellFormed`). Under `WellFormed`, keys are unique and below their counter,
  and every comment points to a live task.
- `TaskStore` (`task_store.dfy`): `add_task`, `view_tasks`,
  `update_task_details`, `assign_task`, `view_assign_task`,
  `mark_task_completed`, `remove_task` (with its cascade) and `members`.
- `CommentStore` (`comment_store.dfy`): `add_task_comment` under the foreign
  key, `view_commnts`, the LEFT JOIN behind `generate_reports`, and
  `view_assign_task_by_member`.
- `StoreProperties` (`properties.dfy`): properties that relate several
  operations. These cover the report's row count and comment coverage,
  agreement between the listing queries, round trips, and the invariants that
  any sequence of calls keeps.

Modelling choices:

- A table is a sequence of rows in primary-key order. Keys come from a counter
  and rows are only appended, so this is also insertion order. SQL gives no
  order without ORDER BY. The properties about counts and membership do not
  depend on the order chosen here.
- Dates and keys are integers. `description` and `assigned_to` are nullable, so
  they are `Option<string>`. SQL `=` never matches NULL.
- Python `if x:` on a string argument is `Truthy`: `None` and `""` are false.
  A due date arrives as a date object, and a date object is always truthy. So
  `Some(d)` counts as supplied for every `d`.
- The three comment columns of a report row are `task_comments.id`, `task_id`
  and `comment`. The model keeps them as one `Option<Comment>`: in a LEFT JOIN
  they are either all NULL or all taken from one matching comment.
- `TaskManager` creates `tasks_` (task_manager_system.py:18-32) and
  `TaskComments` creates `task_comments` (task_manager_system.py:154-164).
  `main` runs both set-ups before any other call (task_manager_system.py:248-249).
  The model merges the two CREATE statements into one set-up. It cannot
  represent the moment when `tasks_` exists and `task_comments` does not yet.
- A title and a comment text are required only to be non-NULL. The schema
  accepts an empty string for either, and so does the model.
- Printing is not modelled. A query returns the rows it would print. A report
  returns the file name and the rows it would write.
- The comment operations appear in both `task_manager_system.py` and
  `Task_manager_part2.py` with identical text. The model has one copy and cites
  `Task_manager_part2.py`. That file declares `class TaskComments(TaskManager)`
  without importing `TaskManager` (Task_manager_part2.py:4), so it cannot be
  imported on its own. The copy that `main` runs is
  task_manager_system.py:143-240.
- `view_assign_task_by_member` returns its guidance text for a missing name; it
  does not print it. The model returns it as `InvalidMember(message)`.
- `view_tasks` shows "Completed" whenever the `completed` flag is set, and
  `mark_task_completed` writes only `status`. No statement ever sets the flag.
  The model keeps both behaviours as written. `NeverCompleted` is proved to hold
  in every reachable state, and `ListingIsSummaryWhileNeverCompleted` shows
  that, as a result, the flag never selects the "Completed" label. The word can
  still be shown when a user stores it as a status through
  `update_task_details`.

## Model

| member | source | states |
|---|---|---|
| Schema.EmptyDb | task_manager_system.py:154-164 | Freshly created tables (`tasks_` and `task_comments`) hold no rows, and they are well formed: the keys and the foreign key hold, and no task is completed. |
| Schema.InitializeDatabase | task_manager_system.py:18-32 | CREATE TABLE IF NOT EXISTS keeps an existing store unchanged. A missing store starts as empty, well-formed tables. |
| Schema.InitializeIdempotent | task_manager_system.py:21 | Running the schema set-up twice gives the same store as running it once. |
| StoreProperties.AddTaskDefaults | task_manager_system.py:36 | Called with only the required arguments, `add_task` stores priority 1, no assignee and status "Pending". |
| TaskStore.AddTask | task_manager_system.py:36-40 | Appends exactly one row with the given columns, `status` "Pending" and `completed` false. Every earlier row and all comments are unchanged. The new key is at least the old counter and below the new one, so it is never reused. In a well-formed store the key is held by no existing task, and the store stays well formed. |
| TaskStore.SelectTasks | task_manager_system.py:44-49 | With a truthy name, a task is selected exactly when its `assigned_to` equals that name. With an empty or absent name, all tasks are selected, in table order. |
| TaskStore.SelectTasksCounts | task_manager_system.py:45 | The selection holds each matching row exactly as often as the table does, and holds no other row. |
| TaskStore.SelectTasksKeepsOrder | task_manager_system.py:45 | The selection keeps the table's increasing key order, so no row is listed twice. |
| TaskStore.ViewTasks | task_manager_system.py:43-61 | Lists exactly the selected tasks, and lists all of them when there is no filter. In a table with increasing keys, the rows come in increasing key order, so none is repeated. The shown status is "Completed" when the flag is set, and otherwise the stored status of an uncompleted task. |
| TaskStore.ViewAssignTask | task_manager_system.py:93-110 | Lists exactly the selected tasks with their stored status, and lists all tasks when there is no filter. In a table with increasing keys, the rows come in increasing key order, so none is repeated. |
| TaskStore.UpdateTaskDetails | task_manager_system.py:65-83 | Without a truthy status or a due date, the store is unchanged. Otherwise, only the matching task changes, and only the supplied fields are written. Every other field, task, comment and counter stays. A missing key changes nothing. Well-formedness and `NeverCompleted` are preserved. |
| TaskStore.AssignTask | task_manager_system.py:85-90 | Only `assigned_to` of the matching task changes. A missing key changes nothing. Invariants are preserved. |
| TaskStore.MarkTaskCompleted | task_manager_system.py:113-118 | Only `status` of the matching task changes, to "completed". Its `completed` flag is unchanged. Invariants are preserved. |
| TaskStore.WithoutTask | task_manager_system.py:121 | DELETE keeps exactly the rows with another key. |
| TaskStore.WithoutTaskKeepsOrder | task_manager_system.py:22 | After a DELETE, the remaining task keys still strictly increase. |
| TaskStore.WithoutCommentsOf | task_manager_system.py:161 | The cascade keeps exactly the comments of other tasks. |
| TaskStore.WithoutCommentsKeepsOrder | task_manager_system.py:158 | After the cascade, the remaining comment keys still strictly increase. |
| TaskStore.RemoveTask | task_manager_system.py:120-125 | Removes the task and exactly the comments whose `task_id` is its key. Afterwards no task has that key. The foreign key and the other invariants still hold. |
| TaskStore.Members | task_manager_system.py:127-139 | Returns one entry per task row, in table order: entry i is row i's `assigned_to`, so duplicates, NULLs and empty names keep their multiplicity. An entry occurs exactly when some task is assigned that value. |
| CommentStore.AddTaskComment | Task_manager_part2.py:27-32 | Succeeds exactly when the task exists; otherwise it fails with a foreign-key violation. On success it appends exactly one comment with a fresh key. Tasks and the task counter are unchanged, and the store stays well formed. |
| CommentStore.ViewComments | Task_manager_part2.py:35-51 | Without a truthy filter, returns every comment. With a truthy filter, always fails on the unknown `assigned_to` column. |
| CommentStore.CommentCountZero | Task_manager_part2.py:68 | The number of comments on a task is zero exactly when no comment refers to it. |
| CommentStore.MatchRows | Task_manager_part2.py:68 | A task's matched rows are one per comment that refers to it. Each row pairs the task's columns with exactly one of its comments. |
| CommentStore.LeftJoin | Task_manager_part2.py:68 | Every (task, own comment) pair appears. A task without comments appears with NULL comment columns; `ReportRowCount` fixes how many rows there are. Every row comes from one of those two cases. There are at least as many rows as tasks. |
| CommentStore.GenerateReports | Task_manager_part2.py:67-76 | Reports "No values recorded" exactly when there are no tasks. Otherwise it writes the joined rows to `reports.xlsx`. |
| CommentStore.ViewAssignTaskByMember | Task_manager_part2.py:78-101 | An empty or absent name returns the guidance message and runs no query. If no task is assigned to the name, there is no output. Otherwise it writes exactly that member's tasks, as (id, title, due date, priority, status), to `<name>.xlsx`. In a table with increasing keys, the rows come in increasing key order, so none is repeated. |
| StoreProperties.ReportRowCount | Task_manager_part2.py:68 | The join has as many rows as the sum over tasks of max(1, number of the task's comments). |
| StoreProperties.ReportEmptyIffNoTasks | Task_manager_part2.py:70-72 | The joined result is empty exactly when there are no tasks, whatever the comments. |
| StoreProperties.LiveKeyCount | task_manager_system.py:22 | In a table with increasing keys, a live key belongs to exactly one task. |
| StoreProperties.EveryCommentMatchedOnce | Task_manager_part2.py:22 | Under the foreign key and unique task keys, the task-comment matches number exactly the comments. |
| StoreProperties.ReportCarriesEveryComment | Task_manager_part2.py:17-24 | In a well-formed store, the report rows with filled comment columns number exactly the comments in the table. |
| StoreProperties.ListingIsSummaryWhileNeverCompleted | task_manager_system.py:60 | While no `completed` flag is set, `view_tasks` and `view_assign_task` return the same rows. |
| StoreProperties.MembersCountAssignments | task_manager_system.py:128 | `members` lists a name once for each task `view_assign_task` lists under that name. |
| StoreProperties.AddedTaskListedAsPending | task_manager_system.py:37-38 | A newly added task is listed under its assignee with status "Pending". |
| StoreProperties.AssignMovesTask | task_manager_system.py:86 | After `assign_task(id, m)`, for any m (NULL and the empty name included), the task is listed under a non-empty name exactly when m is that name. |
| StoreProperties.MarkCompletedIsStatusUpdate | task_manager_system.py:114 | Marking a task completed equals the partial update that supplies only the status "completed". |
| StoreProperties.AddThenRemoveRestoresTables | task_manager_system.py:121-123 | Removing a task right after adding it restores both tables exactly. |
| StoreProperties.RemovedTaskLeavesNoReportRows | Task_manager_part2.py:22 | After a task is removed, no report row mentions it or any of its comments. |
| StoreProperties.AddedCommentReported | Task_manager_part2.py:28-31 | A comment added to a live task appears in the report beside that task. |
| StoreProperties.Step | task_manager_system.py:36-125 | Every mutating call preserves well-formedness, which includes the foreign key, and `NeverCompleted`. A comment the foreign key rejects changes nothing. |
| StoreProperties.Run | Task_manager_part2.py:22 | Every sequence of mutating calls preserves well-formedness and `NeverCompleted`. |
| StoreProperties.ReachableStatesAreConsistent | task_manager_system.py:38 | From freshly created tables, no sequence of calls sets `completed` or leaves a comment without its task. |

## Left out

- Connection set-up, cursors and commits (task_manager_system.py:8-16): these are external I/O. Each statement is modelled as one atomic step.
- The model has a single connection: every query sees the latest committed state. `main` actually opens two connections, one for `TaskManager` and one for `TaskComments` (task_manager_system.py:248-249). mysql-connector does not autocommit, and the `TaskComments` queries never commit. Under InnoDB's default REPEATABLE READ isolation, that connection can go on reading the snapshot from its first SELECT. A report can then miss tasks added later, or still show removed tasks. Such stale snapshot reads are not modelled, so `RemovedTaskLeavesNoReportRows` and `AddedCommentReported` describe a report read on a fresh snapshot. Lock waits between the two connections are not modelled either. A rejected `add_task_comment` never reaches `commit()` (Task_manager_part2.py:30-31), so its transaction stays open. InnoDB keeps the shared locks of a failed foreign-key check, so later inserts into `tasks_` on the other connection can block and end in a lock-wait timeout. In the model, `AddTask` and `Step` always succeed.
- All printing, and the interactive `main` menu with its `input`, `int` and `strptime` parsing: these are user-interface glue. `Step` covers the mutating calls that the menu dispatches.
- pandas DataFrame construction, `pd.to_datetime` and Excel writing: a foreign library and file output. Only the file name and the rows that would be written are modelled.
- VARCHAR(255) and VARCHAR(20) length limits, and the DATE type: titles and statuses are unbounded strings, and dates are integers.
- TaskStore.AddTask, CommentStore.AddTaskComment: the signed 32-bit `INT` columns (`priority`, task_manager_system.py:26; `task_id`, Task_manager_part2.py:20) are unbounded integers in the model. In strict mode, MySQL rejects an out-of-range value with an error. The model instead stores such a priority, and reports such a `task_id` as a foreign-key violation. The `INT` auto-increment keys likewise never run out in the model.
- MySQL's default collation makes `=` on strings case-insensitive. Depending on the version, it is also accent-insensitive or trailing-space-insensitive. The model's `=` is exact string equality.
- TaskStore.AddTask: a NULL priority (`priority=None`) is not modelled, because `priority` is a plain integer. `add_task` always names the column, so a `None` argument would store NULL rather than the column default. The argument defaults (priority 1, no assignee) are modelled.
- NOT NULL violations for `title` and `due_date`, and for `task_id` and `comment` in `task_comments` (Task_manager_part2.py:20-21): these columns are non-optional types in the model, so such an insert cannot be written.
- The 65,535-byte limit of the `TEXT` columns `description` (task_manager_system.py:24) and `comment` (Task_manager_part2.py:21): in strict mode MySQL rejects a longer value with an error. The model stores any length.
- Character sets: a server whose default charset cannot store every character (latin1 before MySQL 8.0) rejects an unstorable character in strict mode. A Dafny `string` takes any character.
- InnoDB may use up an auto-increment value on a rejected insert, leaving a gap. A rejected comment leaves the counter unchanged in the model. This affects no key that is live.
- Resetting an auto-increment counter on a server restart (older MySQL versions) is not modelled. Counters only grow.
- The commented-out earlier `generate_reports` is not modelled.
