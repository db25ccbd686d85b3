/** The employee's board: three fixed columns, each listing the tasks whose
    status is the column's id, with a count badge, an empty placeholder, a
    four-character id chip and a red deadline for a late task not yet done. */
module KanbanBoard {
  import opened Text
  import opened Records
  import BluePage

  /** A column of the board. */
  datatype Column = Column(id: string, heading: string)

  const COLUMNS: seq<Column> := [Column(TODO, "To Do"), Column(IN_PROGRESS, "In Progress"), Column(DONE, "Done")]

  /** The tasks a column lists: those whose status is the column's id, in the order given. */
  function ColumnTasks(ts: seq<Task>, status: string): (r: seq<Task>)
    ensures forall t :: t in r <==> t in ts && t.status == status
    ensures |r| <= |ts|
  {
    if ts == [] then []
    else
      var n := |ts| - 1;
      assert forall t :: t in ts <==> t in ts[..n] || t == ts[n] by {
        assert ts == ts[..n] + [ts[n]];
      }
      ColumnTasks(ts[..n], status) + (if ts[n].status == status then [ts[n]] else [])
  }

  /** A status the board has a column for. */
  predicate OnBoard(status: string) {
    exists c :: c in COLUMNS && c.id == status
  }

  /** The number of tasks with a status the board has no column for. */
  function OffBoardCount(ts: seq<Task>): nat {
    if ts == [] then 0
    else OffBoardCount(ts[..|ts| - 1]) + (if OnBoard(ts[|ts| - 1].status) then 0 else 1)
  }

  /** The three badges together with the off-board tasks count every task exactly once. */
  lemma {:induction false} BadgesCountEveryTaskOnce(ts: seq<Task>)
    ensures |ColumnTasks(ts, TODO)| + |ColumnTasks(ts, IN_PROGRESS)| + |ColumnTasks(ts, DONE)| + OffBoardCount(ts) == |ts|
  {
    if ts != [] {
      var n := |ts| - 1;
      BadgesCountEveryTaskOnce(ts[..n]);
      assert OnBoard(ts[n].status) <==> ts[n].status in {TODO, IN_PROGRESS, DONE} by {
        assert COLUMNS[0] in COLUMNS && COLUMNS[1] in COLUMNS && COLUMNS[2] in COLUMNS;
      }
    }
  }

  /** A task whose status matches no column appears in none, and the board shows every task
      exactly when none has such a status. */
  lemma {:induction false} OffBoardTasksAreHidden(ts: seq<Task>)
    ensures forall t :: t in ts && !OnBoard(t.status) ==>
      forall c :: c in COLUMNS ==> t !in ColumnTasks(ts, c.id)
    ensures OffBoardCount(ts) == 0 <==> forall t :: t in ts ==> OnBoard(t.status)
  {
    if ts != [] {
      var n := |ts| - 1;
      OffBoardTasksAreHidden(ts[..n]);
      assert ts == ts[..n] + [ts[n]];
    }
  }

  /** A task is listed in at most one column. */
  lemma ColumnsAreDisjoint(ts: seq<Task>, t: Task)
    ensures forall c, d :: c in COLUMNS && d in COLUMNS && t in ColumnTasks(ts, c.id) && t in ColumnTasks(ts, d.id) ==>
      c == d
  {
  }

  /** The empty placeholder shows exactly when the badge reads 0, that is when no task has the status. */
  lemma EmptyPlaceholder(ts: seq<Task>, status: string)
    ensures |ColumnTasks(ts, status)| == 0 <==> forall t :: t in ts ==> t.status != status
  {
    var r := ColumnTasks(ts, status);
    if r != [] {
      assert r[0] in r;
    }
  }

  /** The id chip: the first four characters of the id, or the whole id when it is shorter. */
  function ShortId(id: Id): (r: string)
    ensures r <= id && |r| == if |id| < 4 then |id| else 4
  {
    Take(id, 4)
  }

  /** The deadline is shown red when it has passed and the task is not done. */
  predicate RedDeadline(t: Task, now: Timestamp) {
    t.deadline < now && t.status != DONE
  }

  /** Every task the deadline batch would pick up is shown red, and a red task is one the batch
      picks up unless it was already flagged. */
  lemma RedDeadlineIsOverdue(t: Task, now: Timestamp)
    ensures BluePage.Overdue(t, now) ==> RedDeadline(t, now)
    ensures RedDeadline(t, now) ==> BluePage.Overdue(t, now) || t.isBluePaged
  {
  }

  /** A task moved to `done` leaves the red state and sits in the Done column. */
  lemma DoneIsNeverRed(t: Task, now: Timestamp)
    ensures !RedDeadline(t.(status := DONE), now)
    ensures t.(status := DONE) in ColumnTasks([t.(status := DONE)], DONE)
  {
  }
}
