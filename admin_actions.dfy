/** The administrator's server actions: approving a pending profile (status
    `active`, then a welcome mail), rejecting one (the row is deleted) and
    creating a task (upload the attachments, insert a `todo` task, mail the
    assignee). */
module AdminActions {
  import opened Wrappers
  import opened Text
  import opened Records
  import opened Attachments
  import BluePage

  /** A mail handed to the mail wrapper. */
  datatype Notice = Notice(to: string, name: string, subject: string)

  const APPROVED_SUBJECT: string := "Access Approved - IBBE Ops"
  const ASSIGNED_SUBJECT: string := "New Task Assigned"

  /** The name a mail is addressed to: the profile's full name, or `Agent` when it has none. */
  function AddresseeName(p: Profile): string {
    OrElse(p.fullName, "Agent")
  }

  /** The mail sent to a profile, when it has an address. */
  function NoticeTo(p: Profile, subject: string): (r: seq<Notice>)
    ensures |r| <= 1
    ensures r != [] <==> Truthy(p.email)
    ensures forall n :: n in r ==>
      n.to == p.email.value && n.subject == subject &&
      n.name == (if Truthy(p.fullName) then p.fullName.value else "Agent")
  {
    if Truthy(p.email) then [Notice(p.email.value, AddresseeName(p), subject)] else []
  }

  // ---------------------------------------------------------------------------
  // approveUser

  function Activate(p: Profile): Profile {
    p.(status := ACTIVE)
  }

  /** `approveUser`: without a session it throws; the update by id followed by `.single()` throws
      when the store reports an error (`updateFails`) or when no row has the id, and then nothing is
      written; otherwise the row becomes `active` and its owner is mailed. */
  function ApproveSpec(db: Db, user: Option<Id>, userId: Id, updateFails: bool): (Db, ActionResult, seq<Notice>) {
    if user.None? then (db, Unauthorized, [])
    else if updateFails then (db, StoreError, [])
    else match FindProfile(db.profiles, userId)
      case None => (db, StoreError, [])
      case Some(p) =>
        (db.(profiles := UpdateProfiles(db.profiles, userId, Activate)), Ok, NoticeTo(p, APPROVED_SUBJECT))
  }

  /** An approval sets `active` on exactly the rows with the given id and changes nothing else. */
  lemma ApproveActivatesExactlyTheProfile(db: Db, user: Option<Id>, userId: Id, updateFails: bool)
    requires ApproveSpec(db, user, userId, updateFails).1 == Ok
    ensures var ps := ApproveSpec(db, user, userId, updateFails).0.profiles;
      |ps| == |db.profiles| &&
      (exists i :: 0 <= i < |ps| && ps[i].id == userId) &&
      forall i :: 0 <= i < |ps| ==>
        if db.profiles[i].id == userId then ps[i].status == ACTIVE && ps[i].(status := db.profiles[i].status) == db.profiles[i]
        else ps[i] == db.profiles[i]
    ensures ApproveSpec(db, user, userId, updateFails).0.(profiles := db.profiles) == db
  {
    var p := FindProfile(db.profiles, userId).value;
    var i :| 0 <= i < |db.profiles| && db.profiles[i] == p;
    assert ApproveSpec(db, user, userId, updateFails).0.profiles[i].id == userId;
  }

  /** The action ends normally exactly when there is a session, the update goes through and some
      profile has the id; otherwise nothing changes and nobody is mailed. */
  lemma ApproveFailureWritesNothing(db: Db, user: Option<Id>, userId: Id, updateFails: bool)
    ensures var (db', result, notices) := ApproveSpec(db, user, userId, updateFails);
      (result == Ok <==> user.Some? && !updateFails && exists i :: 0 <= i < |db.profiles| && db.profiles[i].id == userId) &&
      (result != Ok ==> db' == db && notices == [] && result == (if user.None? then Unauthorized else StoreError))
  {
    var r := ApproveSpec(db, user, userId, updateFails);
    if user.Some? && !updateFails && exists i :: 0 <= i < |db.profiles| && db.profiles[i].id == userId {
      var i :| 0 <= i < |db.profiles| && db.profiles[i].id == userId;
      assert FindProfile(db.profiles, userId).Some?;
    }
  }

  /** Approving an approved profile again changes nothing more. */
  lemma ApproveIdempotent(db: Db, user: Option<Id>, userId: Id, updateFails: bool)
    requires ApproveSpec(db, user, userId, updateFails).1 == Ok
    ensures var db' := ApproveSpec(db, user, userId, updateFails).0;
      ApproveSpec(db', user, userId, updateFails).0 == db'
  {
    var ps := ApproveSpec(db, user, userId, updateFails).0.profiles;
    var p := FindProfile(db.profiles, userId).value;
    var i :| 0 <= i < |db.profiles| && db.profiles[i] == p;
    assert ps[i].id == userId;
    assert UpdateProfiles(ps, userId, Activate) == ps;
  }

  /** `approveUser` as the code runs it. */
  method ApproveUser(store: Store, user: Option<Id>, userId: Id, updateFails: bool)
    returns (result: ActionResult, notices: seq<Notice>)
    modifies store
    ensures (store.State(), result, notices) == ApproveSpec(old(store.State()), user, userId, updateFails)
  {
    if user.None? {
      return Unauthorized, [];
    }
    if updateFails {
      return StoreError, [];
    }
    var row := FindProfile(store.profiles, userId);
    store.profiles := UpdateProfiles(store.profiles, userId, Activate);
    if row.None? {
      // the update matched no row, so it wrote nothing, and `.single()` reports an error
      assert store.profiles == old(store.profiles);
      return StoreError, [];
    }
    var profile := Activate(row.value);
    notices := [];
    if Truthy(profile.email) {
      notices := [Notice(profile.email.value, OrElse(profile.fullName, "Agent"), APPROVED_SUBJECT)];
    }
    result := Ok;
  }

  // ---------------------------------------------------------------------------
  // rejectUser

  /** `rejectUser`: without a session it throws; a failing delete throws; otherwise every row with
      the id is deleted. */
  function RejectSpec(db: Db, user: Option<Id>, userId: Id, deleteFails: bool): (Db, ActionResult) {
    if user.None? then (db, Unauthorized)
    else if deleteFails then (db, StoreError)
    else (db.(profiles := DeleteProfiles(db.profiles, userId)), Ok)
  }

  /** A rejection removes the given profile and keeps every other row, in order, and every other table. */
  lemma {:induction false} RejectRemovesOnlyTheProfile(db: Db, user: Option<Id>, userId: Id, deleteFails: bool)
    requires RejectSpec(db, user, userId, deleteFails).1 == Ok
    ensures var ps := RejectSpec(db, user, userId, deleteFails).0.profiles;
      (forall p :: p in ps <==> p in db.profiles && p.id != userId) &&
      FindProfile(ps, userId).None? &&
      ps == KeepOthers(db.profiles, userId)
    ensures RejectSpec(db, user, userId, deleteFails).0.(profiles := db.profiles) == db
  {
    DeleteIsKeepOthers(db.profiles, userId);
  }

  /** The rows without the id, in order: an independent statement of the delete. */
  function KeepOthers(ps: seq<Profile>, userId: Id): seq<Profile> {
    if ps == [] then []
    else KeepOthers(ps[..|ps| - 1], userId) + (if ps[|ps| - 1].id != userId then [ps[|ps| - 1]] else [])
  }

  lemma {:induction false} KeepOthersPrepend(p: Profile, ps: seq<Profile>, userId: Id)
    ensures KeepOthers([p] + ps, userId) == (if p.id != userId then [p] else []) + KeepOthers(ps, userId)
    decreases |ps|
  {
    if ps != [] {
      var n := |ps| - 1;
      assert ([p] + ps)[..|ps|] == [p] + ps[..n];
      KeepOthersPrepend(p, ps[..n], userId);
    } else {
      assert KeepOthers([p], userId) == KeepOthers([], userId) + (if p.id != userId then [p] else []);
    }
  }

  lemma {:induction false} DeleteIsKeepOthers(ps: seq<Profile>, userId: Id)
    ensures DeleteProfiles(ps, userId) == KeepOthers(ps, userId)
    decreases |ps|
  {
    if ps != [] {
      DeleteIsKeepOthers(ps[1..], userId);
      assert ps == [ps[0]] + ps[1..];
      KeepOthersPrepend(ps[0], ps[1..], userId);
    }
  }

  lemma RejectFailureWritesNothing(db: Db, user: Option<Id>, userId: Id, deleteFails: bool)
    requires user.None? || deleteFails
    ensures RejectSpec(db, user, userId, deleteFails).0 == db
    ensures RejectSpec(db, user, userId, deleteFails).1 == if user.None? then Unauthorized else StoreError
  {
  }

  /** `rejectUser` as the code runs it. */
  method RejectUser(store: Store, user: Option<Id>, userId: Id, deleteFails: bool) returns (result: ActionResult)
    modifies store
    ensures (store.State(), result) == RejectSpec(old(store.State()), user, userId, deleteFails)
  {
    if user.None? {
      return Unauthorized;
    }
    if deleteFails {
      return StoreError;
    }
    store.profiles := DeleteProfiles(store.profiles, userId);
    result := Ok;
  }

  // ---------------------------------------------------------------------------
  // createTask

  /** The row `createTask` inserts: status `todo`; the timestamps and the flag keep their column
      defaults (absent, absent, false). */
  function NewTask(id: Id, title: string, description: string, assignedTo: Id, deadline: Timestamp,
                   urls: seq<string>): Task
  {
    Task(id, title, description, assignedTo, deadline, TODO, None, None, false, urls)
  }

  predicate HasTask(ts: seq<Task>, id: Id) {
    exists i :: 0 <= i < |ts| && ts[i].id == id
  }

  /** `createTask` given the URLs its upload loop collected and the id the store generates: a failing
      insert (a taken id included) throws before any mail; otherwise the row is appended and the
      assignee, when the read of its profile succeeds and finds an address, is mailed. The read's
      error is not looked at: a failed read mails nobody and the action still succeeds. */
  function CreateTaskSpec(db: Db, newId: Id, title: string, description: string, assignedTo: Id,
                          deadline: Timestamp, urls: seq<string>, insertFails: bool, readFails: bool)
    : (Db, ActionResult, seq<Notice>)
  {
    if insertFails || HasTask(db.tasks, newId) then (db, StoreError, [])
    else
      var db' := db.(tasks := db.tasks + [NewTask(newId, title, description, assignedTo, deadline, urls)]);
      if readFails then (db', Ok, [])
      else match FindProfile(db.profiles, assignedTo)
      case None => (db', Ok, [])
      case Some(p) => (db', Ok, NoticeTo(p, ASSIGNED_SUBJECT))
  }

  /** A created task starts as `todo`, unflagged, with no comment timestamps; it keeps the primary
      key; and the deadline batch picks it up exactly when its deadline has passed. */
  lemma CreatedTaskStartsTodo(db: Db, newId: Id, title: string, description: string, assignedTo: Id,
                              deadline: Timestamp, urls: seq<string>, insertFails: bool, readFails: bool,
                              now: Timestamp)
    requires UniqueTaskIds(db.tasks)
    requires CreateTaskSpec(db, newId, title, description, assignedTo, deadline, urls, insertFails, readFails).1 == Ok
    ensures var ts := CreateTaskSpec(db, newId, title, description, assignedTo, deadline, urls, insertFails, readFails).0.tasks;
      var t := NewTask(newId, title, description, assignedTo, deadline, urls);
      ts == db.tasks + [t] && t.status == TODO && !t.isBluePaged && UniqueTaskIds(ts) &&
      (t in BluePage.SelectOverdue(ts, now) <==> deadline < now)
  {
  }

  /** A failed insert writes nothing and mails nobody. */
  lemma CreateTaskFailureNotifiesNobody(db: Db, newId: Id, title: string, description: string, assignedTo: Id,
                                        deadline: Timestamp, urls: seq<string>, insertFails: bool, readFails: bool)
    requires insertFails
    ensures CreateTaskSpec(db, newId, title, description, assignedTo, deadline, urls, insertFails, readFails) == (db, StoreError, [])
  {
  }

  /** The assignee is mailed exactly when the task was created, the read of the assignee's profile
      succeeded and the profile has an address; a failed read leaves a created task unannounced. */
  lemma CreateTaskMailsTheAssignee(db: Db, newId: Id, title: string, description: string, assignedTo: Id,
                                   deadline: Timestamp, urls: seq<string>, insertFails: bool, readFails: bool)
    ensures var (db', result, notices) :=
              CreateTaskSpec(db, newId, title, description, assignedTo, deadline, urls, insertFails, readFails);
      var p := FindProfile(db.profiles, assignedTo);
      (result == Ok <==> !insertFails && !HasTask(db.tasks, newId)) &&
      (notices != [] <==> result == Ok && !readFails && p.Some? && Truthy(p.value.email)) &&
      (readFails && result == Ok ==> notices == [] && db'.tasks == db.tasks + [NewTask(newId, title, description, assignedTo, deadline, urls)]) &&
      forall n :: n in notices ==>
        n.to == p.value.email.value && n.subject == ASSIGNED_SUBJECT &&
        n.name == (if Truthy(p.value.fullName) then p.value.fullName.value else "Agent")
  {
  }

  /** `createTask` as the code runs it: uploads, insert, then the assignee lookup and the mail. */
  method CreateTask(store: Store, newId: Id, title: string, description: string, assignedTo: Id,
                    deadline: Timestamp, files: seq<File>, clock: nat -> int, bucket: Bucket, insertFails: bool,
                    readFails: bool)
    returns (result: ActionResult, notices: seq<Notice>)
    modifies store
    ensures (store.State(), result, notices) ==
            CreateTaskSpec(old(store.State()), newId, title, description, assignedTo, deadline,
                           UploadedUrls(files, "", clock, bucket), insertFails, readFails)
  {
    var attachmentUrls := UploadAll(files, "", clock, bucket);
    if insertFails || HasTask(store.tasks, newId) {
      return StoreError, [];
    }
    store.tasks := store.tasks + [Task(newId, title, description, assignedTo, deadline, TODO, None, None, false, attachmentUrls)];
    notices := [];
    var assignee: Option<Profile> := None;
    if !readFails {
      assignee := FindProfile(store.profiles, assignedTo);
    }
    if assignee.Some? && Truthy(assignee.value.email) {
      notices := [Notice(assignee.value.email.value, OrElse(assignee.value.fullName, "Agent"), ASSIGNED_SUBJECT)];
    }
    result := Ok;
  }
}
