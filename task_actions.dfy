/** The server actions on a task: posting a comment (upload the attachments,
    check the session, insert the comment, advance the one timestamp the
    author's role selects) and overwriting a task's status. */
module TaskActions {
  import opened Wrappers
  import opened Records
  import opened Attachments
  import BluePage

  /** Comment attachments are stored under names starting with this. */
  const COMMENT_PREFIX: string := "comment_"

  /** The author's profile row has the role `admin`; a missing row or any other role does not. */
  predicate AuthorIsAdmin(ps: seq<Profile>, userId: Id) {
    var p := FindProfile(ps, userId);
    p.Some? && p.value.role == ADMIN
  }

  /** The task row after a comment: the admin timestamp for an admin author, the employee one otherwise. */
  function Stamp(t: Task, isAdmin: bool, now: Timestamp): Task {
    if isAdmin then t.(lastAdminCommentAt := Some(now)) else t.(lastEmployeeReplyAt := Some(now))
  }

  /** What the store answers to the three requests `postComment` makes after the session check:
      whether the role read errs (its error is not inspected: the author then counts as an
      employee), whether the comment insert errs (rethrown), and whether the timestamp update errs
      (its error is not inspected either). */
  datatype Faults = Faults(roleReadFails: bool, insertFails: bool, stampFails: bool)

  /** `postComment` on the store, given the URLs its upload loop collected, the `created_at` the
      store gives the new comment row and the `now` the action stamps on the task. */
  function PostCommentSpec(db: Db, user: Option<Id>, taskId: Id, content: string, urls: seq<string>,
                           faults: Faults, createdAt: Timestamp, now: Timestamp): (Db, ActionResult)
  {
    if user.None? then (db, Unauthorized)
    else if faults.insertFails then (db, StoreError)
    else
      var isAdmin := !faults.roleReadFails && AuthorIsAdmin(db.profiles, user.value);
      var db' := db.(comments := db.comments + [Comment(taskId, user.value, content, urls, createdAt)]);
      if faults.stampFails then (db', Ok)
      else (db'.(tasks := UpdateTasks(db.tasks, taskId, (t: Task) => Stamp(t, isAdmin, now))), Ok)
  }

  /** Without a session, or when the insert fails, the action throws and the tables are as they were. */
  lemma PostCommentFailureWritesNothing(db: Db, user: Option<Id>, taskId: Id, content: string, urls: seq<string>,
                                        faults: Faults, createdAt: Timestamp, now: Timestamp)
    ensures var (db', result) := PostCommentSpec(db, user, taskId, content, urls, faults, createdAt, now);
      (user.None? ==> result == Unauthorized) &&
      (user.Some? && faults.insertFails ==> result == StoreError) &&
      (user.Some? && !faults.insertFails ==> result == Ok) &&
      (result != Ok ==> db' == db)
  {
  }

  /** A posted comment is appended once, with the uploaded URLs as its attachments. When the
      timestamp update goes through, the commented task's rows advance exactly one timestamp to
      `now` (the admin one exactly when the role was read and the author's profile says `admin`);
      when it errs, the action still ends normally and the tasks table is as it was. Every other
      row and every other table is unchanged. */
  lemma PostCommentAdvancesOneTimestamp(db: Db, user: Option<Id>, taskId: Id, content: string, urls: seq<string>,
                                        faults: Faults, createdAt: Timestamp, now: Timestamp)
    requires PostCommentSpec(db, user, taskId, content, urls, faults, createdAt, now).1 == Ok
    ensures var db' := PostCommentSpec(db, user, taskId, content, urls, faults, createdAt, now).0;
      var admin := !faults.roleReadFails &&
                   FindProfile(db.profiles, user.value).Some? && FindProfile(db.profiles, user.value).value.role == ADMIN;
      db'.comments == db.comments + [Comment(taskId, user.value, content, urls, createdAt)] &&
      db'.profiles == db.profiles && db'.violations == db.violations &&
      |db'.tasks| == |db.tasks| &&
      forall i :: 0 <= i < |db.tasks| ==>
        var (t, t') := (db.tasks[i], db'.tasks[i]);
        if t.id != taskId || faults.stampFails then t' == t
        else if admin then
          t'.lastAdminCommentAt == Some(now) && t'.(lastAdminCommentAt := t.lastAdminCommentAt) == t
        else
          t'.lastEmployeeReplyAt == Some(now) && t'.(lastEmployeeReplyAt := t.lastEmployeeReplyAt) == t
  {
  }

  /** `postComment` as the code runs it: uploads first, then the session check, the role read,
      the insert and the timestamp write. */
  method PostComment(store: Store, user: Option<Id>, taskId: Id, content: string, files: seq<File>,
                     clock: nat -> int, bucket: Bucket, faults: Faults, createdAt: Timestamp, now: Timestamp)
    returns (result: ActionResult)
    modifies store
    ensures (store.State(), result) ==
            PostCommentSpec(old(store.State()), user, taskId, content, UploadedUrls(files, COMMENT_PREFIX, clock, bucket),
                            faults, createdAt, now)
  {
    var attachmentUrls := UploadAll(files, COMMENT_PREFIX, clock, bucket);
    if user.None? {
      return Unauthorized;
    }
    var profile: Option<Profile> := None;
    if !faults.roleReadFails {
      profile := FindProfile(store.profiles, user.value);
    }
    if faults.insertFails {
      return StoreError;
    }
    store.comments := store.comments + [Comment(taskId, user.value, content, attachmentUrls, createdAt)];
    if !faults.stampFails {
      if profile.Some? && profile.value.role == ADMIN {
        store.tasks := UpdateTasks(store.tasks, taskId, (t: Task) => Stamp(t, true, now));
      } else {
        store.tasks := UpdateTasks(store.tasks, taskId, (t: Task) => Stamp(t, false, now));
      }
    }
    result := Ok;
  }

  /** `updateTaskStatus` on the rows of the tasks table. */
  function SetStatus(ts: seq<Task>, taskId: Id, status: string): seq<Task> {
    UpdateTasks(ts, taskId, (t: Task) => t.(status := status))
  }

  /** Only the `status` of the given task's rows changes, to exactly the value given. */
  lemma SetStatusTouchesOnlyStatus(ts: seq<Task>, taskId: Id, status: string)
    ensures var ts' := SetStatus(ts, taskId, status);
      |ts'| == |ts| &&
      forall i :: 0 <= i < |ts| ==>
        ts'[i].(status := ts[i].status) == ts[i] &&
        ts'[i].status == (if ts[i].id == taskId then status else ts[i].status)
  {
  }

  /** Writing the same status twice is the same as writing it once. */
  lemma SetStatusIdempotent(ts: seq<Task>, taskId: Id, status: string)
    ensures SetStatus(SetStatus(ts, taskId, status), taskId, status) == SetStatus(ts, taskId, status)
  {
    var once := SetStatus(ts, taskId, status);
    assert forall i :: 0 <= i < |ts| ==> SetStatus(once, taskId, status)[i] == once[i];
  }

  /** A task moved to `done` is never selected by the deadline batch again. */
  lemma DoneTaskLeavesDeadlineBatch(ts: seq<Task>, taskId: Id, now: Timestamp)
    ensures forall t :: t in BluePage.SelectOverdue(SetStatus(ts, taskId, DONE), now) ==> t.id != taskId
  {
    var ts' := SetStatus(ts, taskId, DONE);
    forall t | t in BluePage.SelectOverdue(ts', now) ensures t.id != taskId {
      var i :| 0 <= i < |ts'| && ts'[i] == t;
    }
  }

  /** `updateTaskStatus` as the code runs it: one update by id, nothing else; an error from the
      store is not inspected, so a failed update leaves every table as it was and the action still
      ends normally. */
  method UpdateTaskStatus(store: Store, taskId: Id, status: string, updateFails: bool)
    modifies store
    ensures store.tasks == (if updateFails then old(store.tasks) else SetStatus(old(store.tasks), taskId, status))
    ensures store.profiles == old(store.profiles) && store.comments == old(store.comments)
    ensures store.violations == old(store.violations)
  {
    if !updateFails {
      store.tasks := UpdateTasks(store.tasks, taskId, (t: Task) => t.(status := status));
    }
  }
}
