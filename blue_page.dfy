/** The deadline batch ("blue page"): select the overdue, not yet penalised
    tasks; for each in turn insert a `deadline_missed` violation of 2000,
    add 2000 to the assignee's running total, flag the task and notify the
    assignee; report one outcome per task. */
module BluePage {
  import opened Wrappers
  import opened Text
  import opened Records

  const PENALTY: int := 2000
  const DEADLINE_MISSED: string := "deadline_missed"

  /** The batch query's filter: not done, deadline strictly in the past, not yet blue-paged. */
  predicate Overdue(t: Task, now: Timestamp) {
    t.status != DONE && t.deadline < now && !t.isBluePaged
  }

  /** The batch query: the overdue rows, in table order. */
  function SelectOverdue(ts: seq<Task>, now: Timestamp): (r: seq<Task>)
    ensures forall t :: t in r ==> t in ts && Overdue(t, now)
    ensures forall t :: t in ts && Overdue(t, now) ==> t in r
    ensures |r| <= |ts|
  {
    if ts == [] then []
    else
      var last := ts[|ts| - 1];
      SelectOverdue(ts[..|ts| - 1], now) + (if Overdue(last, now) then [last] else [])
  }

  /** What a run learns from outside the store. */
  datatype Env = Env(
    token: Option<string>,        // the mail API token
    fromEmail: Option<string>,    // the sender address
    recordThrows: Id -> bool,     // drawing the violation record for a task throws (a character of
                                  // the title or the name that the record's standard font cannot encode)
    pdfUrl: Id -> string,         // public URL of the violation record stored for a task
    insertFails: Id -> bool,      // the violation insert for a task returns an error
    readFails: Id -> bool,        // the read of the assignee's total, for a task, returns an error
    penaltyWriteFails: Id -> bool, // the update of the assignee's total, for a task, returns an error
    flagWriteFails: Id -> bool,   // the update flagging a task returns an error
    sendThrows: Id -> bool)       // the notification request for a task rejects

  datatype Outcome = Processed(taskId: Id, pdf: string) | Failed(taskId: Id)

  /** A blue-page notice handed to the mail service. */
  datatype Notice = Notice(to: string, name: Option<string>, taskTitle: string)

  datatype Response = QueryError | NoOverdueTasks | Report(results: seq<Outcome>) | Crashed

  /** The state of a run between two tasks. */
  datatype Run = Run(db: Db, results: seq<Outcome>, notices: seq<Notice>, crashed: bool)

  datatype Batch = Batch(db: Db, response: Response, notices: seq<Notice>)

  function ViolationFor(t: Task, env: Env): Violation {
    Violation(t.assignedTo, t.id, DEADLINE_MISSED, PENALTY, env.pdfUrl(t.id))
  }

  function Flag(t: Task): Task {
    t.(isBluePaged := true)
  }

  /** `(profile?.total_penalty || 0) + 2000`: the total read back, or 0 when the read errs, plus 2000. */
  function NewTotal(total: int, t: Task, env: Env): int {
    (if env.readFails(t.id) then 0 else total) + PENALTY
  }

  /** The violation insert and the update of the total both go through for the task. */
  predicate PenaltyWritten(t: Task, env: Env) {
    !env.insertFails(t.id) && !env.penaltyWriteFails(t.id)
  }

  /** The violation insert and the update of the flag both go through for the task. */
  predicate FlagWritten(t: Task, env: Env) {
    !env.insertFails(t.id) && !env.flagWriteFails(t.id)
  }

  /** One task of the loop. A missing assignee profile throws when the record text is built, and
      drawing that text can throw too, both before any write; a failed violation insert records
      `failed` and touches nothing; otherwise the violation is inserted, the new total and the flag are written unless their update errs (the
      code does not look at those two errors), the task is reported processed, and a rejected
      notification throws. */
  function Step(r: Run, t: Task, env: Env): Run {
    if r.crashed then r
    else match FindProfile(r.db.profiles, t.assignedTo)
      case None => r.(crashed := true)
      case Some(p) =>
        if env.recordThrows(t.id) then r.(crashed := true)
        else
        var url := env.pdfUrl(t.id);
        if env.insertFails(t.id) then r.(results := r.results + [Failed(t.id)])
        else
          var db := Db(if env.flagWriteFails(t.id) then r.db.tasks else UpdateTasks(r.db.tasks, t.id, Flag),
                       if env.penaltyWriteFails(t.id) then r.db.profiles
                       else SetPenalty(r.db.profiles, t.assignedTo, NewTotal(PenaltyOf(p), t, env)),
                       r.db.comments,
                       r.db.violations + [ViolationFor(t, env)]);
          var mailed := Truthy(env.token) && Truthy(env.fromEmail) && Truthy(p.email);
          var notices := if mailed then r.notices + [Notice(p.email.value, p.fullName, t.title)] else r.notices;
          if mailed && env.sendThrows(t.id) then Run(db, r.results, notices, true)
          else Run(db, r.results + [Processed(t.id, url)], notices, false)
  }

  /** The loop over the selected tasks, in order. */
  function Fold(r: Run, ts: seq<Task>, env: Env): Run {
    if ts == [] then r else Step(Fold(r, ts[..|ts| - 1], env), ts[|ts| - 1], env)
  }

  /** One whole invocation of the batch. */
  function BluePageSpec(db: Db, now: Timestamp, queryOk: bool, env: Env): Batch {
    if !queryOk then Batch(db, QueryError, [])
    else
      var selected := SelectOverdue(db.tasks, now);
      if selected == [] then Batch(db, NoOverdueTasks, [])
      else
        var r := Fold(Run(db, [], [], false), selected, env);
        Batch(r.db, if r.crashed then Crashed else Report(r.results), r.notices)
  }

  // ---------------------------------------------------------------------------
  // What a completed run does, stated task by task.

  /** The outcome the report holds for a task. */
  function OutcomeFor(t: Task, env: Env): Outcome {
    if env.insertFails(t.id) then Failed(t.id) else Processed(t.id, env.pdfUrl(t.id))
  }

  function Outcomes(ts: seq<Task>, env: Env): (r: seq<Outcome>)
    ensures |r| == |ts|
  {
    if ts == [] then [] else Outcomes(ts[..|ts| - 1], env) + [OutcomeFor(ts[|ts| - 1], env)]
  }

  /** The tasks whose violation insert succeeds, in order. */
  function Charged(ts: seq<Task>, env: Env): (r: seq<Task>)
    ensures forall t :: t in r <==> t in ts && !env.insertFails(t.id)
  {
    if ts == [] then []
    else
      var last := ts[|ts| - 1];
      Charged(ts[..|ts| - 1], env) + (if env.insertFails(last.id) then [] else [last])
  }

  /** The tasks whose total is written, in order. */
  function PenaltyWrites(ts: seq<Task>, env: Env): (r: seq<Task>)
    ensures forall t :: t in r <==> t in ts && PenaltyWritten(t, env)
  {
    if ts == [] then []
    else
      var last := ts[|ts| - 1];
      PenaltyWrites(ts[..|ts| - 1], env) + (if PenaltyWritten(last, env) then [last] else [])
  }

  /** The tasks whose flag is written, in order. */
  function Flagged(ts: seq<Task>, env: Env): (r: seq<Task>)
    ensures forall t :: t in r <==> t in ts && FlagWritten(t, env)
  {
    if ts == [] then []
    else
      var last := ts[|ts| - 1];
      Flagged(ts[..|ts| - 1], env) + (if FlagWritten(last, env) then [last] else [])
  }

  /** The tasks whose flag is not written, because the violation insert or the flag update failed,
      in order. */
  function Unflagged(ts: seq<Task>, env: Env): (r: seq<Task>)
    ensures forall t :: t in r <==> t in ts && !FlagWritten(t, env)
  {
    if ts == [] then []
    else
      var last := ts[|ts| - 1];
      Unflagged(ts[..|ts| - 1], env) + (if FlagWritten(last, env) then [] else [last])
  }

  function ViolationsFor(ts: seq<Task>, env: Env): (r: seq<Violation>)
    ensures |r| == |ts|
    ensures forall i :: 0 <= i < |ts| ==> r[i] == ViolationFor(ts[i], env)
  {
    seq(|ts|, i requires 0 <= i < |ts| => ViolationFor(ts[i], env))
  }

  /** Every row whose id is in `ids` flagged, the others as they were. */
  function FlagAll(ts: seq<Task>, ids: set<Id>): (r: seq<Task>)
    ensures |r| == |ts|
    ensures forall i :: 0 <= i < |ts| ==> r[i] == if ts[i].id in ids then Flag(ts[i]) else ts[i]
  {
    seq(|ts|, i requires 0 <= i < |ts| => if ts[i].id in ids then Flag(ts[i]) else ts[i])
  }

  function Ids(ts: seq<Task>): set<Id> {
    set t | t in ts :: t.id
  }

  /** How many of `ts` write a new total for profile `u`. */
  function PenaltyWriteCount(ts: seq<Task>, env: Env, u: Id): nat {
    if ts == [] then 0
    else
      var last := ts[|ts| - 1];
      PenaltyWriteCount(ts[..|ts| - 1], env, u) + (if PenaltyWritten(last, env) && last.assignedTo == u then 1 else 0)
  }

  /** Profile `u`'s total after the tasks `ts`, task by task from `total`: each task of `u` whose
      total is written sets it to what was read back, or 0 when the read errs, plus 2000. */
  function TotalAfter(total: int, ts: seq<Task>, env: Env, u: Id): int {
    if ts == [] then total
    else
      var last := ts[|ts| - 1];
      var before := TotalAfter(total, ts[..|ts| - 1], env, u);
      if PenaltyWritten(last, env) && last.assignedTo == u then NewTotal(before, last, env) else before
  }

  /** Every task's assignee has a profile. */
  predicate AssigneesExist(ps: seq<Profile>, ts: seq<Task>) {
    forall t :: t in ts ==> FindProfile(ps, t.assignedTo).Some?
  }

  lemma PrefixLast<T>(ts: seq<T>)
    requires ts != []
    ensures ts[..|ts| - 1] + [ts[|ts| - 1]] == ts
  {
  }

  lemma FoldNext(r: Run, ts: seq<Task>, env: Env, i: nat)
    requires i < |ts|
    ensures Fold(r, ts[..i + 1], env) == Step(Fold(r, ts[..i], env), ts[i], env)
  {
    assert ts[..i + 1][..i] == ts[..i];
  }

  lemma StepCrashed(r: Run, t: Task, env: Env)
    requires r.crashed
    ensures Step(r, t, env) == r
  {
  }

  /** One task changes at most the totals of the profiles. */
  lemma StepKeepsContacts(r: Run, t: Task, env: Env)
    ensures SameContacts(r.db.profiles, Step(r, t, env).db.profiles)
  {
  }

  /** One task whose total is written sets its assignee's total to the new total and changes nothing
      else in the profiles. */
  lemma StepProfiles(r: Run, t: Task, env: Env)
    requires UniqueProfileIds(r.db.profiles)
    requires !Step(r, t, env).crashed
    ensures |Step(r, t, env).db.profiles| == |r.db.profiles|
    ensures forall i :: 0 <= i < |r.db.profiles| ==>
      Step(r, t, env).db.profiles[i].(totalPenalty := r.db.profiles[i].totalPenalty) == r.db.profiles[i] &&
      PenaltyOf(Step(r, t, env).db.profiles[i]) ==
        if PenaltyWritten(t, env) && t.assignedTo == r.db.profiles[i].id then NewTotal(PenaltyOf(r.db.profiles[i]), t, env)
        else PenaltyOf(r.db.profiles[i])
  {
    var ps := r.db.profiles;
    if PenaltyWritten(t, env) {
      var p := FindProfile(ps, t.assignedTo).value;
      var qs := SetPenalty(ps, t.assignedTo, NewTotal(PenaltyOf(p), t, env));
      assert Step(r, t, env).db.profiles == qs;
      forall i | 0 <= i < |ps| && ps[i].id == t.assignedTo ensures ps[i] == p {
      }
    }
  }

  /** A task whose assignee has a profile and whose notification does not reject leaves the run going. */
  lemma StepCompletes(r: Run, t: Task, env: Env)
    requires !r.crashed && FindProfile(r.db.profiles, t.assignedTo).Some?
    requires !env.recordThrows(t.id) && !env.sendThrows(t.id)
    ensures !Step(r, t, env).crashed
  {
  }

  /** Once a run has thrown, the remaining tasks are not looked at. */
  lemma {:induction false} FoldCrashedStays(r: Run, ts: seq<Task>, env: Env, k: nat)
    requires k <= |ts| && Fold(r, ts[..k], env).crashed
    ensures Fold(r, ts, env) == Fold(r, ts[..k], env)
    decreases |ts| - k
  {
    if k < |ts| {
      FoldNext(r, ts, env, k);
      StepCrashed(Fold(r, ts[..k], env), ts[k], env);
      FoldCrashedStays(r, ts, env, k + 1);
    } else {
      assert ts[..k] == ts;
    }
  }

  /** A completed run reports, in selection order, one outcome per task: `failed` exactly when
      its violation insert failed. */
  lemma {:induction false} FoldResults(r: Run, ts: seq<Task>, env: Env)
    requires !Fold(r, ts, env).crashed
    ensures Fold(r, ts, env).results == r.results + Outcomes(ts, env)
  {
    if ts != [] {
      var n := |ts| - 1;
      FoldResults(r, ts[..n], env);
    }
  }

  /** A completed run appends exactly one violation per charged task, in order, and no comment. */
  lemma {:induction false} FoldViolations(r: Run, ts: seq<Task>, env: Env)
    requires !Fold(r, ts, env).crashed
    ensures Fold(r, ts, env).db.violations == r.db.violations + ViolationsFor(Charged(ts, env), env)
    ensures Fold(r, ts, env).db.comments == r.db.comments
  {
    if ts != [] {
      var n := |ts| - 1;
      FoldViolations(r, ts[..n], env);
      var c := Charged(ts[..n], env);
      if !env.insertFails(ts[n].id) {
        assert ViolationsFor(c + [ts[n]], env) == ViolationsFor(c, env) + [ViolationFor(ts[n], env)];
      }
    }
  }

  /** A completed run flags exactly the rows of the tasks whose flag is written and leaves every
      other row as it was. */
  lemma {:induction false} FoldTasks(r: Run, ts: seq<Task>, env: Env)
    requires !Fold(r, ts, env).crashed
    ensures Fold(r, ts, env).db.tasks == FlagAll(r.db.tasks, Ids(Flagged(ts, env)))
  {
    if ts == [] {
      assert FlagAll(r.db.tasks, {}) == r.db.tasks;
    } else {
      var n := |ts| - 1;
      FoldTasks(r, ts[..n], env);
      var ids := Ids(Flagged(ts[..n], env));
      if FlagWritten(ts[n], env) {
        assert Ids(Flagged(ts, env)) == ids + {ts[n].id};
        assert UpdateTasks(FlagAll(r.db.tasks, ids), ts[n].id, Flag) == FlagAll(r.db.tasks, ids + {ts[n].id});
      } else {
        assert Flagged(ts, env) == Flagged(ts[..n], env);
      }
    }
  }

  /** A completed run keeps every profile row and its id in place and changes only its total, which
      ends as `TotalAfter` its first total and the tasks (a missing total counting as 0). */
  lemma {:induction false} FoldProfiles(r: Run, ts: seq<Task>, env: Env)
    requires UniqueProfileIds(r.db.profiles)
    requires !Fold(r, ts, env).crashed
    ensures var ps := Fold(r, ts, env).db.profiles;
      |ps| == |r.db.profiles| &&
      forall i :: 0 <= i < |ps| ==>
        ps[i].(totalPenalty := r.db.profiles[i].totalPenalty) == r.db.profiles[i] &&
        PenaltyOf(ps[i]) == TotalAfter(PenaltyOf(r.db.profiles[i]), ts, env, r.db.profiles[i].id)
  {
    if ts != [] {
      var n := |ts| - 1;
      var mid := Fold(r, ts[..n], env);
      assert Fold(r, ts, env) == Step(mid, ts[n], env);
      if mid.crashed {
        StepCrashed(mid, ts[n], env);
      }
      FoldProfiles(r, ts[..n], env);
      FoldKeepsUniqueProfileIds(r, ts[..n], env);
      StepProfiles(mid, ts[n], env);
    }
  }

  /** When no read of a total errs, a total grows by exactly 2000 per written task of its profile. */
  lemma {:induction false} TotalAfterWithoutReadFailures(total: int, ts: seq<Task>, env: Env, u: Id)
    requires forall t :: t in ts ==> !env.readFails(t.id)
    ensures TotalAfter(total, ts, env, u) == total + PENALTY * PenaltyWriteCount(ts, env, u)
  {
    if ts != [] {
      var n := |ts| - 1;
      assert forall t :: t in ts[..n] ==> t in ts;
      assert ts[n] in ts;
      TotalAfterWithoutReadFailures(total, ts[..n], env, u);
    }
  }

  /** A read of the total that errs while the write goes through forgets every earlier charge: the
      total is then exactly 2000, whatever it was. */
  lemma TotalAfterReadFailure(total: int, ts: seq<Task>, t: Task, env: Env)
    requires PenaltyWritten(t, env) && env.readFails(t.id)
    ensures TotalAfter(total, ts + [t], env, t.assignedTo) == PENALTY
  {
    assert (ts + [t])[..|ts|] == ts;
  }

  /** When no read of a total errs, the sum over all profiles of the running totals grows by exactly
      2000 per task whose total is written. */
  lemma {:induction false} FoldSumPenalties(r: Run, ts: seq<Task>, env: Env)
    requires UniqueProfileIds(r.db.profiles)
    requires !Fold(r, ts, env).crashed
    ensures (forall t :: t in ts ==> !env.readFails(t.id)) ==>
      SumPenalties(Fold(r, ts, env).db.profiles) == SumPenalties(r.db.profiles) + PENALTY * |PenaltyWrites(ts, env)|
  {
    if ts != [] && forall t :: t in ts ==> !env.readFails(t.id) {
      var n := |ts| - 1;
      var mid := Fold(r, ts[..n], env);
      assert Fold(r, ts, env) == Step(mid, ts[n], env);
      assert forall t :: t in ts[..n] ==> t in ts;
      assert ts[n] in ts;
      FoldSumPenalties(r, ts[..n], env);
      FoldKeepsUniqueProfileIds(r, ts[..n], env);
      StepSumPenalties(mid, ts[n], env);
    }
  }

  /** One task shifts the sum of the totals by what its write changes in its assignee's total, and
      by nothing when the total is not written. */
  lemma StepSumPenalties(r: Run, t: Task, env: Env)
    requires UniqueProfileIds(r.db.profiles)
    requires !Step(r, t, env).crashed
    ensures FindProfile(r.db.profiles, t.assignedTo).Some?
    ensures var p := FindProfile(r.db.profiles, t.assignedTo).value;
      SumPenalties(Step(r, t, env).db.profiles) ==
      SumPenalties(r.db.profiles) + (if PenaltyWritten(t, env) then NewTotal(PenaltyOf(p), t, env) - PenaltyOf(p) else 0)
  {
    if PenaltyWritten(t, env) {
      var qs := r.db.profiles;
      var p := FindProfile(qs, t.assignedTo).value;
      assert Step(r, t, env).db.profiles == SetPenalty(qs, t.assignedTo, NewTotal(PenaltyOf(p), t, env));
      var k :| 0 <= k < |qs| && qs[k] == p;
      SumPenaltiesUpdate(qs, t.assignedTo, NewTotal(PenaltyOf(p), t, env), k);
    }
  }

  lemma FoldKeepsUniqueProfileIds(r: Run, ts: seq<Task>, env: Env)
    requires UniqueProfileIds(r.db.profiles)
    ensures UniqueProfileIds(Fold(r, ts, env).db.profiles)
  {
    FoldKeepsContacts(r, ts, env);
    var ps := r.db.profiles;
    var qs := Fold(r, ts, env).db.profiles;
    forall i, j | 0 <= i < j < |qs| ensures qs[i].id != qs[j].id {
      assert qs[i].(totalPenalty := ps[i].totalPenalty) == ps[i];
      assert qs[j].(totalPenalty := ps[j].totalPenalty) == ps[j];
    }
  }

  /** A record that cannot be drawn throws before the task writes anything: the run stops with
      the writes of the earlier tasks, and no later task is processed. */
  lemma RecordThrowAbortsTheRun(r: Run, ts: seq<Task>, env: Env, k: nat)
    requires k < |ts| && !Fold(r, ts[..k], env).crashed
    requires FindProfile(Fold(r, ts[..k], env).db.profiles, ts[k].assignedTo).Some? && env.recordThrows(ts[k].id)
    ensures Fold(r, ts, env) == Fold(r, ts[..k], env).(crashed := true)
  {
    FoldNext(r, ts, env, k);
    FoldCrashedStays(r, ts, env, k + 1);
  }

  /** A run in which every assignee has a profile, every record can be drawn and no notification
      rejects is never cut short. */
  lemma {:induction false} FoldCompletes(r: Run, ts: seq<Task>, env: Env)
    requires !r.crashed
    requires AssigneesExist(r.db.profiles, ts)
    requires forall t :: t in ts ==> !env.recordThrows(t.id) && !env.sendThrows(t.id)
    ensures !Fold(r, ts, env).crashed
    ensures AssigneesExist(Fold(r, ts, env).db.profiles, ts)
  {
    if ts != [] {
      var n := |ts| - 1;
      assert forall t :: t in ts[..n] ==> t in ts;
      FoldCompletes(r, ts[..n], env);
      var mid := Fold(r, ts[..n], env);
      assert Fold(r, ts, env) == Step(mid, ts[n], env);
      SameIdsSameLookup(r.db.profiles, mid.db.profiles, ts[..n], env, r, ts[n].assignedTo);
      StepCompletes(mid, ts[n], env);
      forall t | t in ts ensures FindProfile(Fold(r, ts, env).db.profiles, t.assignedTo).Some? {
        SameIdsSameLookup(r.db.profiles, Fold(r, ts, env).db.profiles, ts, env, r, t.assignedTo);
      }
    }
  }

  /** The run never removes a profile row nor changes its id, so a lookup that succeeded still does. */
  lemma SameIdsSameLookup(ps: seq<Profile>, qs: seq<Profile>, ts: seq<Task>, env: Env, r: Run, u: Id)
    requires r.db.profiles == ps && qs == Fold(r, ts, env).db.profiles
    requires FindProfile(ps, u).Some?
    ensures FindProfile(qs, u).Some?
  {
    FoldKeepsContacts(r, ts, env);
    FindProfileSameContacts(ps, qs, u);
  }

  /** A run changes at most the totals of the profiles: no row is added, removed or moved, and no
      other column is written. */
  lemma {:induction false} FoldKeepsContacts(r: Run, ts: seq<Task>, env: Env)
    ensures SameContacts(r.db.profiles, Fold(r, ts, env).db.profiles)
  {
    if ts != [] {
      var n := |ts| - 1;
      var mid := Fold(r, ts[..n], env);
      FoldKeepsContacts(r, ts[..n], env);
      StepKeepsContacts(mid, ts[n], env);
      var ps := r.db.profiles;
      var qs := mid.db.profiles;
      var zs := Fold(r, ts, env).db.profiles;
      forall i | 0 <= i < |ps| ensures zs[i].(totalPenalty := ps[i].totalPenalty) == ps[i] {
        assert zs[i].(totalPenalty := qs[i].totalPenalty) == qs[i];
        assert qs[i].(totalPenalty := ps[i].totalPenalty) == ps[i];
      }
    }
  }

  /** The notice for a charged task whose assignee, in the profiles `ps`, has an address. */
  function NoticeFor(ps: seq<Profile>, t: Task, env: Env): (r: seq<Notice>)
    ensures |r| <= 1
  {
    var p := FindProfile(ps, t.assignedTo);
    if !env.insertFails(t.id) && p.Some? && Truthy(p.value.email) then [Notice(p.value.email.value, p.value.fullName, t.title)]
    else []
  }

  /** The notices for the charged tasks of `ts` whose assignee, in the profiles `ps`, has an address,
      in order. */
  function NoticesFor(ps: seq<Profile>, ts: seq<Task>, env: Env): (r: seq<Notice>)
    ensures |r| <= |ts|
  {
    if ts == [] then [] else NoticesFor(ps, ts[..|ts| - 1], env) + NoticeFor(ps, ts[|ts| - 1], env)
  }

  /** One task appends at most a notice to an address; with a token and a sender and without
      throwing, exactly the task's notice; without a token or a sender, none. */
  lemma StepNotices(r: Run, t: Task, env: Env, ps: seq<Profile>)
    requires SameContacts(ps, r.db.profiles)
    ensures var ns := Step(r, t, env).notices;
      r.notices <= ns && forall i :: |r.notices| <= i < |ns| ==> ns[i].to != ""
    ensures !Step(r, t, env).crashed && Truthy(env.token) && Truthy(env.fromEmail) ==>
      Step(r, t, env).notices == r.notices + NoticeFor(ps, t, env)
    ensures !(Truthy(env.token) && Truthy(env.fromEmail)) ==> Step(r, t, env).notices == r.notices
  {
    FindProfileSameContacts(ps, r.db.profiles, t.assignedTo);
  }

  /** With a token and a sender, a completed run notifies, in order, exactly the assignees with an
      address of the charged tasks; a notice goes only to an address, and none goes out without a
      token and a sender. */
  lemma {:induction false} FoldNotices(r: Run, ts: seq<Task>, env: Env)
    ensures var ns := Fold(r, ts, env).notices;
      r.notices <= ns && forall i :: |r.notices| <= i < |ns| ==> ns[i].to != ""
    ensures !Fold(r, ts, env).crashed && Truthy(env.token) && Truthy(env.fromEmail) ==>
      Fold(r, ts, env).notices == r.notices + NoticesFor(r.db.profiles, ts, env)
    ensures !(Truthy(env.token) && Truthy(env.fromEmail)) ==> Fold(r, ts, env).notices == r.notices
  {
    if ts != [] {
      var n := |ts| - 1;
      var mid := Fold(r, ts[..n], env);
      assert Fold(r, ts, env) == Step(mid, ts[n], env);
      FoldNotices(r, ts[..n], env);
      FoldKeepsContacts(r, ts[..n], env);
      StepNotices(mid, ts[n], env, r.db.profiles);
      if mid.crashed {
        StepCrashed(mid, ts[n], env);
      }
    }
  }

  /** One task does the same writes, reports the same outcome and throws or not alike, whatever the
      mail configuration, when its request does not reject. */
  lemma StepIgnoresMailConfig(r: Run, r': Run, t: Task, env: Env, env': Env)
    requires r.db == r'.db && r.results == r'.results && r.crashed == r'.crashed
    requires env' == env.(token := env'.token, fromEmail := env'.fromEmail) && !env.sendThrows(t.id)
    ensures var (s, s') := (Step(r, t, env), Step(r', t, env'));
      s.db == s'.db && s.results == s'.results && s.crashed == s'.crashed
  {
  }

  /** Sending mail writes nothing: when no request rejects, the store after a run does not depend
      on the mail configuration. */
  lemma {:induction false} NoticesDoNotWrite(r: Run, ts: seq<Task>, env: Env, token: Option<string>, fromEmail: Option<string>)
    requires forall t :: t in ts ==> !env.sendThrows(t.id)
    ensures Fold(r, ts, env).db == Fold(r, ts, env.(token := token, fromEmail := fromEmail)).db
    ensures Fold(r, ts, env).crashed == Fold(r, ts, env.(token := token, fromEmail := fromEmail)).crashed
    ensures Fold(r, ts, env).results == Fold(r, ts, env.(token := token, fromEmail := fromEmail)).results
  {
    if ts != [] {
      var n := |ts| - 1;
      var env' := env.(token := token, fromEmail := fromEmail);
      assert forall t :: t in ts[..n] ==> t in ts;
      assert ts[n] in ts;
      NoticesDoNotWrite(r, ts[..n], env, token, fromEmail);
      StepIgnoresMailConfig(Fold(r, ts[..n], env), Fold(r, ts[..n], env'), ts[n], env, env');
    }
  }

  // ---------------------------------------------------------------------------
  // The same facts about a whole invocation.

  /** Every selected task appears exactly once in the report, in selection order. */
  lemma ReportListsEachOverdueTaskOnce(db: Db, now: Timestamp, env: Env)
    requires BluePageSpec(db, now, true, env).response.Report?
    ensures BluePageSpec(db, now, true, env).response.results == Outcomes(SelectOverdue(db.tasks, now), env)
  {
    FoldResults(Run(db, [], [], false), SelectOverdue(db.tasks, now), env);
  }

  /** One `deadline_missed` violation of 2000 per processed task, for its assignee, and nothing for a failed one. */
  lemma ReportedRunAppendsOneViolationPerProcessedTask(db: Db, now: Timestamp, env: Env)
    requires BluePageSpec(db, now, true, env).response.Report?
    ensures var sel := SelectOverdue(db.tasks, now);
      BluePageSpec(db, now, true, env).db.violations == db.violations + ViolationsFor(Charged(sel, env), env)
    ensures BluePageSpec(db, now, true, env).db.comments == db.comments
  {
    FoldViolations(Run(db, [], [], false), SelectOverdue(db.tasks, now), env);
  }

  /** The tasks whose flag is written end flagged; every other row, a failed task's included, is
      unchanged. */
  lemma ReportedRunFlagsProcessedTasks(db: Db, now: Timestamp, env: Env)
    requires BluePageSpec(db, now, true, env).response.Report?
    ensures BluePageSpec(db, now, true, env).db.tasks == FlagAll(db.tasks, Ids(Flagged(SelectOverdue(db.tasks, now), env)))
  {
    FoldTasks(Run(db, [], [], false), SelectOverdue(db.tasks, now), env);
  }

  /** Each assignee's total ends as `TotalAfter` its first total and the selected tasks; when no read
      of a total errs, that is 2000 more per written task of theirs. Nothing else in a profile changes. */
  lemma ReportedRunChargesAssignees(db: Db, now: Timestamp, env: Env)
    requires UniqueProfileIds(db.profiles)
    requires BluePageSpec(db, now, true, env).response.Report?
    ensures var ps := BluePageSpec(db, now, true, env).db.profiles;
      var sel := SelectOverdue(db.tasks, now);
      |ps| == |db.profiles| &&
      forall i :: 0 <= i < |ps| ==>
        ps[i].(totalPenalty := db.profiles[i].totalPenalty) == db.profiles[i] &&
        PenaltyOf(ps[i]) == TotalAfter(PenaltyOf(db.profiles[i]), sel, env, db.profiles[i].id) &&
        ((forall t :: t in sel ==> !env.readFails(t.id)) ==>
         PenaltyOf(ps[i]) == PenaltyOf(db.profiles[i]) + PENALTY * PenaltyWriteCount(sel, env, db.profiles[i].id))
  {
    var sel := SelectOverdue(db.tasks, now);
    FoldProfiles(Run(db, [], [], false), sel, env);
    if forall t :: t in sel ==> !env.readFails(t.id) {
      forall i | 0 <= i < |db.profiles| {
        TotalAfterWithoutReadFailures(PenaltyOf(db.profiles[i]), sel, env, db.profiles[i].id);
      }
    }
  }

  /** When no read of a total errs, the penalty ledger's total grows by exactly 2000 per task whose
      total is written. */
  lemma ReportedRunRaisesLedgerTotal(db: Db, now: Timestamp, env: Env)
    requires UniqueProfileIds(db.profiles)
    requires BluePageSpec(db, now, true, env).response.Report?
    ensures var sel := SelectOverdue(db.tasks, now);
      (forall t :: t in sel ==> !env.readFails(t.id)) ==>
      SumPenalties(BluePageSpec(db, now, true, env).db.profiles) ==
      SumPenalties(db.profiles) + PENALTY * |PenaltyWrites(sel, env)|
  {
    FoldSumPenalties(Run(db, [], [], false), SelectOverdue(db.tasks, now), env);
  }

  /** With a token and a sender, a reported run notifies exactly the assignees with an address of
      the charged tasks, in selection order. */
  lemma ReportedRunNotifiesAssignees(db: Db, now: Timestamp, env: Env)
    requires BluePageSpec(db, now, true, env).response.Report?
    requires Truthy(env.token) && Truthy(env.fromEmail)
    ensures BluePageSpec(db, now, true, env).notices == NoticesFor(db.profiles, SelectOverdue(db.tasks, now), env)
  {
    FoldNotices(Run(db, [], [], false), SelectOverdue(db.tasks, now), env);
  }

  /** With every assignee on file, every record drawable and no rejected notification, a run ends in
      a report. */
  lemma RunWithKnownAssigneesReports(db: Db, now: Timestamp, env: Env)
    requires AssigneesExist(db.profiles, SelectOverdue(db.tasks, now))
    requires forall t :: t in db.tasks ==> !env.recordThrows(t.id) && !env.sendThrows(t.id)
    requires SelectOverdue(db.tasks, now) != []
    ensures BluePageSpec(db, now, true, env).response.Report?
  {
    FoldCompletes(Run(db, [], [], false), SelectOverdue(db.tasks, now), env);
  }

  /** Selecting again on the flagged rows yields exactly the tasks whose flag was not written. */
  lemma {:induction false} SelectAfterFlagging(ts: seq<Task>, now: Timestamp, env: Env, ids: set<Id>)
    requires forall t :: t in ts ==> (t.id in ids <==> Overdue(t, now) && FlagWritten(t, env))
    ensures SelectOverdue(FlagAll(ts, ids), now) == Unflagged(SelectOverdue(ts, now), env)
  {
    if ts != [] {
      var n := |ts| - 1;
      var x := ts[n];
      var ft := FlagAll(ts, ids);
      assert ft[..n] == FlagAll(ts[..n], ids);
      assert forall t :: t in ts[..n] ==> t in ts;
      SelectAfterFlagging(ts[..n], now, env, ids);
      var sel := SelectOverdue(ts[..n], now);
      assert x in ts;
      assert SelectOverdue(ft, now) == SelectOverdue(ft[..n], now) + (if Overdue(ft[n], now) then [ft[n]] else []);
      assert SelectOverdue(ts, now) == sel + (if Overdue(x, now) then [x] else []);
      assert SelectOverdue(ft[..n], now) == Unflagged(sel, env);
      if Overdue(x, now) && FlagWritten(x, env) {
        assert ft[n] == Flag(x);
        UnflaggedSnoc(sel, x, env);
        assert SelectOverdue(ft, now) == Unflagged(sel, env);
        assert SelectOverdue(ts, now) == sel + [x];
        assert Unflagged(SelectOverdue(ts, now), env) == Unflagged(sel, env);
      } else if Overdue(x, now) {
        assert ft[n] == x;
        UnflaggedSnoc(sel, x, env);
        assert SelectOverdue(ft, now) == Unflagged(sel, env) + [x];
        assert SelectOverdue(ts, now) == sel + [x];
        assert Unflagged(SelectOverdue(ts, now), env) == Unflagged(sel, env) + [x];
      } else {
        assert ft[n] == x;
        assert SelectOverdue(ft, now) == Unflagged(sel, env);
        assert SelectOverdue(ts, now) == sel;
      }
    } else {
      assert FlagAll(ts, ids) == [];
    }
  }

  lemma UnflaggedSnoc(ts: seq<Task>, x: Task, env: Env)
    ensures Unflagged(ts + [x], env) == Unflagged(ts, env) + (if FlagWritten(x, env) then [] else [x])
  {
    assert (ts + [x])[..|ts|] == ts;
  }

  /** When every flag is written nothing is left unflagged. */
  lemma {:induction false} AllFlagged(ts: seq<Task>, env: Env)
    requires forall t :: t in ts ==> FlagWritten(t, env)
    ensures Unflagged(ts, env) == []
  {
    if ts != [] {
      assert forall t :: t in ts[..|ts| - 1] ==> t in ts;
      AllFlagged(ts[..|ts| - 1], env);
      assert ts[|ts| - 1] in ts;
    }
  }

  /** Under a primary key, a row's id is flagged exactly when that row itself is. */
  lemma FlaggedIdsOfUniqueRows(ts: seq<Task>, now: Timestamp, env: Env)
    requires UniqueTaskIds(ts)
    ensures var ids := Ids(Flagged(SelectOverdue(ts, now), env));
      forall t :: t in ts ==> (t.id in ids <==> Overdue(t, now) && FlagWritten(t, env))
  {
    var ids := Ids(Flagged(SelectOverdue(ts, now), env));
    forall t | t in ts ensures t.id in ids <==> Overdue(t, now) && FlagWritten(t, env) {
      if t.id in ids {
        var u :| u in Flagged(SelectOverdue(ts, now), env) && u.id == t.id;
        var i :| 0 <= i < |ts| && ts[i] == t;
        var j :| 0 <= j < |ts| && ts[j] == u;
        assert i == j;
      }
    }
  }

  /** Re-running at the same instant selects exactly the tasks whose violation insert or flag update
      failed: a task whose flag was written is never selected again. */
  lemma SecondRunSelectsOnlyFailures(db: Db, now: Timestamp, env: Env)
    requires UniqueTaskIds(db.tasks)
    requires BluePageSpec(db, now, true, env).response.Report?
    ensures SelectOverdue(BluePageSpec(db, now, true, env).db.tasks, now) == Unflagged(SelectOverdue(db.tasks, now), env)
  {
    ReportedRunFlagsProcessedTasks(db, now, env);
    FlaggedIdsOfUniqueRows(db.tasks, now, env);
    SelectAfterFlagging(db.tasks, now, env, Ids(Flagged(SelectOverdue(db.tasks, now), env)));
  }

  /** A task whose violation was inserted but whose flag update failed is charged and stays
      selected at the same instant, so a second run whose insert for it succeeds charges it again. */
  lemma FailedFlagWriteChargesAgain(db: Db, now: Timestamp, env: Env, env2: Env, t: Task)
    requires UniqueTaskIds(db.tasks)
    requires BluePageSpec(db, now, true, env).response.Report?
    requires t in SelectOverdue(db.tasks, now) && !env.insertFails(t.id) && env.flagWriteFails(t.id)
    ensures var sel2 := SelectOverdue(BluePageSpec(db, now, true, env).db.tasks, now);
      t in Charged(SelectOverdue(db.tasks, now), env) && t in sel2 &&
      (!env2.insertFails(t.id) ==> t in Charged(sel2, env2))
  {
    SecondRunSelectsOnlyFailures(db, now, env);
  }

  /** After a run in which every violation insert and every flag update succeeded, a second run at
      the same instant finds nothing and writes nothing. */
  lemma SecondRunIsNoOp(db: Db, now: Timestamp, env: Env, env2: Env)
    requires UniqueTaskIds(db.tasks)
    requires BluePageSpec(db, now, true, env).response.Report?
    requires forall t :: t in db.tasks ==> FlagWritten(t, env)
    ensures var db2 := BluePageSpec(db, now, true, env).db;
      BluePageSpec(db2, now, true, env2) == Batch(db2, NoOverdueTasks, [])
  {
    SecondRunSelectsOnlyFailures(db, now, env);
    AllFlagged(SelectOverdue(db.tasks, now), env);
  }

  // ---------------------------------------------------------------------------
  // The batch as the code runs it, step by step on the store.

  /** The body of the loop for one task, on the store: `crashed` when the handler throws. */
  method ProcessTask(store: Store, task: Task, env: Env, results: seq<Outcome>, notices: seq<Notice>)
    returns (results': seq<Outcome>, notices': seq<Notice>, crashed: bool)
    modifies store
    ensures Step(Run(old(store.State()), results, notices, false), task, env) == Run(store.State(), results', notices', crashed)
  {
    ghost var db0 := store.State();
    results', notices', crashed := results, notices, false;
    var assignee := FindProfile(store.profiles, task.assignedTo);
    if assignee.None? {
      // the record text dereferences the missing profile and the handler throws
      crashed := true;
      return;
    }
    if env.recordThrows(task.id) {
      // drawing the record text throws
      crashed := true;
      return;
    }
    var pdfUrl := env.pdfUrl(task.id);
    if env.insertFails(task.id) {
      results' := results + [Failed(task.id)];
      return;
    }
    store.violations := store.violations + [Violation(task.assignedTo, task.id, DEADLINE_MISSED, PENALTY, pdfUrl)];
    var current: Option<Profile> := None;
    if !env.readFails(task.id) {
      current := FindProfile(store.profiles, task.assignedTo);
      assert current == assignee;
    }
    var newPenalty := (if current.Some? then PenaltyOf(current.value) else 0) + PENALTY;
    assert newPenalty == NewTotal(PenaltyOf(assignee.value), task, env);
    if !env.penaltyWriteFails(task.id) {
      store.profiles := SetPenalty(store.profiles, task.assignedTo, newPenalty);
    }
    if !env.flagWriteFails(task.id) {
      store.tasks := UpdateTasks(store.tasks, task.id, Flag);
    }
    if Truthy(env.token) && Truthy(env.fromEmail) && Truthy(assignee.value.email) {
      notices' := notices + [Notice(assignee.value.email.value, assignee.value.fullName, task.title)];
      if env.sendThrows(task.id) {
        crashed := true;
        return;
      }
    }
    results' := results + [Processed(task.id, pdfUrl)];
  }

  /** The batch handler on the store: query, loop, respond. */
  method RunBluePage(store: Store, now: Timestamp, queryOk: bool, env: Env) returns (response: Response, notices: seq<Notice>)
    modifies store
    ensures var b := BluePageSpec(old(store.State()), now, queryOk, env);
      store.State() == b.db && response == b.response && notices == b.notices
    ensures response.NoOverdueTasks? || response.QueryError? ==> store.State() == old(store.State()) && notices == []
  {
    if !queryOk {
      return QueryError, [];
    }
    var tasks := SelectOverdue(store.tasks, now);
    if |tasks| == 0 {
      return NoOverdueTasks, [];
    }
    ghost var start := Run(store.State(), [], [], false);
    var results: seq<Outcome> := [];
    notices := [];
    var i := 0;
    while i < |tasks|
      invariant 0 <= i <= |tasks|
      invariant Fold(start, tasks[..i], env) == Run(store.State(), results, notices, false)
    {
      FoldNext(start, tasks, env, i);
      var crashed;
      results, notices, crashed := ProcessTask(store, tasks[i], env, results, notices);
      if crashed {
        FoldCrashedStays(start, tasks, env, i + 1);
        return Crashed, notices;
      }
      i := i + 1;
    }
    assert tasks[..i] == tasks;
    response := Report(results);
  }
}
