/** The rows of the portal's four tables (tasks, profiles, comments,
    violations), the by-id reads and writes the code performs on them, the
    penalty ledger's fold, and the store object that holds the tables. */
module Records {
  import opened Wrappers

  type Id = string

  /** Milliseconds since the epoch; the clock itself is a parameter of every operation. */
  type Timestamp = int

  const TODO: string := "todo"
  const IN_PROGRESS: string := "in_progress"
  const DONE: string := "done"

  const ADMIN: string := "admin"
  const EMPLOYEE: string := "employee"

  const PENDING: string := "pending"
  const ACTIVE: string := "active"
  const ON_HOLD: string := "on_hold"

  /** A row of `tasks`. The status column holds free text: `updateTaskStatus` writes whatever it is given. */
  datatype Task = Task(
    id: Id,
    title: string,
    description: string,
    assignedTo: Id,
    deadline: Timestamp,
    status: string,
    lastAdminCommentAt: Option<Timestamp>,
    lastEmployeeReplyAt: Option<Timestamp>,
    isBluePaged: bool,
    attachmentUrls: seq<string>)

  /** A row of `profiles`; the nullable columns are options. */
  datatype Profile = Profile(
    id: Id,
    role: string,
    status: string,
    fullName: Option<string>,
    employeeId: Option<string>,
    email: Option<string>,
    totalPenalty: Option<int>,
    slug: Option<string>)

  /** A row of `comments`; `createdAt` is filled in by the store when the row is inserted. */
  datatype Comment = Comment(taskId: Id, authorId: Id, content: string, attachments: seq<string>, createdAt: Timestamp)

  /** A row of `violations`. */
  datatype Violation = Violation(userId: Id, taskId: Id, violationType: string, penaltyAmount: int, pdfUrl: string)

  /** The whole store as a value: what the store object holds at one moment. */
  datatype Db = Db(tasks: seq<Task>, profiles: seq<Profile>, comments: seq<Comment>, violations: seq<Violation>)

  /** `id` is the primary key of tasks. */
  predicate UniqueTaskIds(ts: seq<Task>) {
    forall i, j :: 0 <= i < j < |ts| ==> ts[i].id != ts[j].id
  }

  /** `id` is the primary key of profiles. */
  predicate UniqueProfileIds(ps: seq<Profile>) {
    forall i, j :: 0 <= i < j < |ps| ==> ps[i].id != ps[j].id
  }

  function TaskIds(ts: seq<Task>): (r: seq<Id>)
    ensures |r| == |ts| && forall i :: 0 <= i < |ts| ==> r[i] == ts[i].id
  {
    seq(|ts|, i requires 0 <= i < |ts| => ts[i].id)
  }

  /** `update(...).eq('id', id)` on a table whose rows have the key `key`: every row with that id is
      rewritten by `f`, every other row is kept, in place. */
  function UpdateById<T>(rows: seq<T>, key: T -> Id, id: Id, f: T -> T): (r: seq<T>)
    ensures |r| == |rows|
    ensures forall i :: 0 <= i < |rows| ==> r[i] == if key(rows[i]) == id then f(rows[i]) else rows[i]
  {
    seq(|rows|, i requires 0 <= i < |rows| => if key(rows[i]) == id then f(rows[i]) else rows[i])
  }

  /** The update on tasks. */
  function UpdateTasks(ts: seq<Task>, id: Id, f: Task -> Task): (r: seq<Task>)
    ensures |r| == |ts|
    ensures forall i :: 0 <= i < |ts| ==> r[i] == if ts[i].id == id then f(ts[i]) else ts[i]
  {
    UpdateById(ts, (t: Task) => t.id, id, f)
  }

  /** The update on profiles. */
  function UpdateProfiles(ps: seq<Profile>, id: Id, f: Profile -> Profile): (r: seq<Profile>)
    ensures |r| == |ps|
    ensures forall i :: 0 <= i < |ps| ==> r[i] == if ps[i].id == id then f(ps[i]) else ps[i]
  {
    UpdateById(ps, (p: Profile) => p.id, id, f)
  }

  /** `select(...).eq('id', id).single()` on profiles: the row with that id, if there is one. */
  function FindProfile(ps: seq<Profile>, id: Id): (r: Option<Profile>)
    ensures r.None? <==> forall i :: 0 <= i < |ps| ==> ps[i].id != id
    ensures r.Some? ==> r.value.id == id && r.value in ps
    ensures UniqueProfileIds(ps) ==> forall i :: 0 <= i < |ps| && ps[i].id == id ==> r == Some(ps[i])
  {
    if ps == [] then None
    else if ps[0].id == id then Some(ps[0])
    else FindProfile(ps[1..], id)
  }

  /** The lookup returns the first row with the id. */
  lemma {:induction false} FindProfileFirst(ps: seq<Profile>, id: Id, i: nat)
    requires i < |ps| && ps[i].id == id
    requires forall j :: 0 <= j < i ==> ps[j].id != id
    ensures FindProfile(ps, id) == Some(ps[i])
  {
    if i > 0 {
      FindProfileFirst(ps[1..], id, i - 1);
    }
  }

  /** Two profile tables that differ at most in the running totals, row by row. */
  predicate SameContacts(ps: seq<Profile>, qs: seq<Profile>) {
    |ps| == |qs| && forall i :: 0 <= i < |ps| ==> qs[i].(totalPenalty := ps[i].totalPenalty) == ps[i]
  }

  /** A lookup in two such tables finds a row in both or in neither, and the two rows differ at most
      in the total. */
  lemma {:induction false} FindProfileSameContacts(ps: seq<Profile>, qs: seq<Profile>, id: Id)
    requires SameContacts(ps, qs)
    ensures FindProfile(qs, id).Some? == FindProfile(ps, id).Some?
    ensures FindProfile(qs, id).Some? ==>
      FindProfile(qs, id).value.(totalPenalty := FindProfile(ps, id).value.totalPenalty) == FindProfile(ps, id).value
    decreases |ps|
  {
    if ps != [] {
      assert qs[0].(totalPenalty := ps[0].totalPenalty) == ps[0];
      FindProfileSameContacts(ps[1..], qs[1..], id);
    }
  }

  /** `delete().eq('id', id)` on profiles: every row with that id goes, the others keep their order. */
  function DeleteProfiles(ps: seq<Profile>, id: Id): (r: seq<Profile>)
    ensures forall p :: p in r <==> p in ps && p.id != id
    ensures |r| <= |ps|
  {
    if ps == [] then []
    else if ps[0].id == id then DeleteProfiles(ps[1..], id)
    else [ps[0]] + DeleteProfiles(ps[1..], id)
  }

  /** `update({ total_penalty: amount }).eq('id', id)` on profiles. */
  function SetPenalty(ps: seq<Profile>, id: Id, amount: int): seq<Profile> {
    UpdateProfiles(ps, id, (p: Profile) => p.(totalPenalty := Some(amount)))
  }

  /** `profile?.total_penalty || 0`: a missing total counts as zero. */
  function PenaltyOf(p: Profile): int {
    p.totalPenalty.GetOr(0)
  }

  /** The penalty ledger's aggregate: the sum of every profile's total, a missing total counting as zero. */
  function SumPenalties(ps: seq<Profile>): int {
    if ps == [] then 0 else SumPenalties(ps[..|ps| - 1]) + PenaltyOf(ps[|ps| - 1])
  }

  /** Rewriting the total of the one profile with a given id shifts the sum by exactly the difference. */
  lemma {:induction false} SumPenaltiesUpdate(ps: seq<Profile>, id: Id, amount: int, k: nat)
    requires UniqueProfileIds(ps)
    requires k < |ps| && ps[k].id == id
    ensures SumPenalties(SetPenalty(ps, id, amount)) == SumPenalties(ps) - PenaltyOf(ps[k]) + amount
    decreases |ps|
  {
    var f := (p: Profile) => p.(totalPenalty := Some(amount));
    var n := |ps| - 1;
    var qs := SetPenalty(ps, id, amount);
    assert qs[..n] == SetPenalty(ps[..n], id, amount);
    if k == n {
      SumPenaltiesUnchanged(ps[..n], id, f);
      assert qs[..n] == UpdateProfiles(ps[..n], id, f);
    } else {
      SumPenaltiesUpdate(ps[..n], id, amount, k);
      assert ps[n].id != id;
    }
  }

  /** Rewriting rows that do not exist leaves the sum alone. */
  lemma {:induction false} SumPenaltiesUnchanged(ps: seq<Profile>, id: Id, f: Profile -> Profile)
    requires forall i :: 0 <= i < |ps| ==> ps[i].id != id
    ensures SumPenalties(UpdateProfiles(ps, id, f)) == SumPenalties(ps)
    decreases |ps|
  {
    if ps != [] {
      var n := |ps| - 1;
      assert UpdateProfiles(ps, id, f) == ps;
    }
  }

  /** How a server action ends: normally, by throwing `Unauthorized`, or by rethrowing a store error. */
  datatype ActionResult = Ok | Unauthorized | StoreError

  /** The store: the four tables, each rewritten in place by the operations of the portal. */
  class Store {
    var tasks: seq<Task>
    var profiles: seq<Profile>
    var comments: seq<Comment>
    var violations: seq<Violation>

    constructor (db: Db)
      ensures State() == db
    {
      tasks := db.tasks;
      profiles := db.profiles;
      comments := db.comments;
      violations := db.violations;
    }

    /** The current contents of the four tables. */
    function State(): Db
      reads this
    {
      Db(tasks, profiles, comments, violations)
    }
  }
}
