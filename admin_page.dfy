/** The administrator's overview: the directory and pending lists, the three
    headline figures (employees, pending approvals, the penalty ledger's
    total) and the labels of the task list. */
module AdminPage {
  import opened Wrappers
  import opened Text
  import opened Records
  import BluePage
  import AdminActions

  // ---------------------------------------------------------------------------
  // The penalty ledger's total.

  /** The `reduce` over the profile rows, left to right from the accumulator `acc`; a missing total
      counts as zero. */
  function ReducePenalties(ps: seq<Profile>, acc: int): int {
    if ps == [] then acc else ReducePenalties(ps[1..], acc + PenaltyOf(ps[0]))
  }

  /** The headline total: the reduce from 0, or 0 when the rows could not be read. */
  function TotalPenalties(rows: Option<seq<Profile>>): int {
    match rows
    case None => 0
    case Some(ps) => ReducePenalties(ps, 0)
  }

  lemma {:induction false} SumPenaltiesPrepend(p: Profile, ps: seq<Profile>)
    ensures SumPenalties([p] + ps) == PenaltyOf(p) + SumPenalties(ps)
    decreases |ps|
  {
    if ps != [] {
      var n := |ps| - 1;
      assert ([p] + ps)[..|ps|] == [p] + ps[..n];
      SumPenaltiesPrepend(p, ps[..n]);
    } else {
      assert ([p] + ps)[..0] == [];
    }
  }

  /** The reduce adds every row's total, a missing one as zero, to the accumulator. */
  lemma {:induction false} ReduceIsSum(ps: seq<Profile>, acc: int)
    ensures ReducePenalties(ps, acc) == acc + SumPenalties(ps)
    decreases |ps|
  {
    if ps != [] {
      ReduceIsSum(ps[1..], acc + PenaltyOf(ps[0]));
      assert ps == [ps[0]] + ps[1..];
      SumPenaltiesPrepend(ps[0], ps[1..]);
    }
  }

  /** The headline total is the ledger's sum, and 0 when the rows are absent or there are none. */
  lemma TotalPenaltiesIsLedgerSum(rows: Option<seq<Profile>>)
    ensures rows.Some? ==> TotalPenalties(rows) == SumPenalties(rows.value)
    ensures rows.None? || rows == Some([]) ==> TotalPenalties(rows) == 0
  {
    if rows.Some? {
      ReduceIsSum(rows.value, 0);
    }
  }

  /** After a completed deadline batch in which no read of a total erred, the headline total has
      grown by exactly 2000 per task whose total was written. */
  lemma TotalAfterBatch(db: Db, now: Timestamp, env: BluePage.Env)
    requires UniqueProfileIds(db.profiles)
    requires BluePage.BluePageSpec(db, now, true, env).response.Report?
    ensures var sel := BluePage.SelectOverdue(db.tasks, now);
      (forall t :: t in sel ==> !env.readFails(t.id)) ==>
      TotalPenalties(Some(BluePage.BluePageSpec(db, now, true, env).db.profiles)) ==
      TotalPenalties(Some(db.profiles)) + BluePage.PENALTY * |BluePage.PenaltyWrites(sel, env)|
  {
    var db' := BluePage.BluePageSpec(db, now, true, env).db;
    TotalPenaltiesIsLedgerSum(Some(db.profiles));
    TotalPenaltiesIsLedgerSum(Some(db'.profiles));
    BluePage.ReportedRunRaisesLedgerTotal(db, now, env);
  }

  // ---------------------------------------------------------------------------
  // The two employee lists.

  predicate InDirectory(p: Profile) {
    p.role == EMPLOYEE && (p.status == ACTIVE || p.status == ON_HOLD)
  }

  predicate IsPending(p: Profile) {
    p.role == EMPLOYEE && p.status == PENDING
  }

  /** The directory query: the employees that are active or on hold, in table order. */
  function DirectoryList(ps: seq<Profile>): (r: seq<Profile>)
    ensures forall p :: p in r <==> p in ps && InDirectory(p)
    ensures |r| <= |ps|
  {
    if ps == [] then []
    else
      var n := |ps| - 1;
      assert forall p :: p in ps <==> p in ps[..n] || p == ps[n] by {
        assert ps == ps[..n] + [ps[n]];
      }
      DirectoryList(ps[..n]) + (if InDirectory(ps[n]) then [ps[n]] else [])
  }

  /** The pending query: the employees awaiting approval, in table order. */
  function PendingList(ps: seq<Profile>): (r: seq<Profile>)
    ensures forall p :: p in r <==> p in ps && IsPending(p)
    ensures |r| <= |ps|
  {
    if ps == [] then []
    else
      var n := |ps| - 1;
      assert forall p :: p in ps <==> p in ps[..n] || p == ps[n] by {
        assert ps == ps[..n] + [ps[n]];
      }
      PendingList(ps[..n]) + (if IsPending(ps[n]) then [ps[n]] else [])
  }

  /** No profile is in both lists, and together they hold no more rows than the table. */
  lemma {:induction false} ListsAreDisjoint(ps: seq<Profile>)
    ensures forall p :: !(p in DirectoryList(ps) && p in PendingList(ps))
    ensures |DirectoryList(ps)| + |PendingList(ps)| <= |ps|
  {
    if ps != [] {
      ListsAreDisjoint(ps[..|ps| - 1]);
    }
  }

  /** Activating the one pending row with an id adds one row to the directory and takes one from the
      pending list. */
  lemma {:induction false} ActivationCounts(ps: seq<Profile>, id: Id, k: nat)
    requires UniqueProfileIds(ps)
    requires k < |ps| && ps[k].id == id && IsPending(ps[k])
    ensures var qs := UpdateProfiles(ps, id, AdminActions.Activate);
      |DirectoryList(qs)| == |DirectoryList(ps)| + 1 && |PendingList(qs)| + 1 == |PendingList(ps)|
    decreases |ps|
  {
    var n := |ps| - 1;
    var qs := UpdateProfiles(ps, id, AdminActions.Activate);
    assert qs[..n] == UpdateProfiles(ps[..n], id, AdminActions.Activate);
    if k < n {
      ActivationCounts(ps[..n], id, k);
      assert ps[n].id != id;
      assert qs[n] == ps[n];
    } else {
      assert UpdateProfiles(ps[..n], id, AdminActions.Activate) == ps[..n];
      assert qs[n] == ps[n].(status := ACTIVE);
    }
  }

  /** An approval that goes through moves the pending employee from the pending list to the
      directory: the directory then holds the row as `active`, the pending list holds no row with
      the id, every other row is in the same lists as before, and the two headline counts move by
      one each. */
  lemma ApprovalMovesToDirectory(db: Db, user: Option<Id>, userId: Id, k: nat)
    requires UniqueProfileIds(db.profiles)
    requires k < |db.profiles| && db.profiles[k].id == userId && IsPending(db.profiles[k])
    requires user.Some?
    ensures var (db', result, _) := AdminActions.ApproveSpec(db, user, userId, false);
      var (ps, qs) := (db.profiles, db'.profiles);
      result == Ok &&
      ps[k].(status := ACTIVE) in DirectoryList(qs) &&
      (forall p :: p in PendingList(qs) ==> p.id != userId) &&
      (forall p: Profile :: p.id != userId ==>
        (p in DirectoryList(qs) <==> p in DirectoryList(ps)) && (p in PendingList(qs) <==> p in PendingList(ps))) &&
      |DirectoryList(qs)| == |DirectoryList(ps)| + 1 && |PendingList(qs)| + 1 == |PendingList(ps)|
  {
    var ps := db.profiles;
    assert FindProfile(ps, userId) == Some(ps[k]);
    var qs := UpdateProfiles(ps, userId, AdminActions.Activate);
    assert qs[k] == ps[k].(status := ACTIVE);
    ActivationKeepsOthers(ps, userId);
    ActivationLeavesNothingPending(ps, userId);
    ActivationCounts(ps, userId, k);
  }

  /** Activation rewrites no row of another id, and produces none. */
  lemma ActivationKeepsOthers(ps: seq<Profile>, id: Id)
    ensures var qs := UpdateProfiles(ps, id, AdminActions.Activate);
      forall p: Profile :: p.id != id ==> (p in qs <==> p in ps)
  {
    var qs := UpdateProfiles(ps, id, AdminActions.Activate);
    forall p: Profile | p.id != id ensures p in qs <==> p in ps {
      if p in qs {
        var j :| 0 <= j < |qs| && qs[j] == p;
        assert ps[j] == p;
      }
      if p in ps {
        var j :| 0 <= j < |ps| && ps[j] == p;
        assert qs[j] == p;
      }
    }
  }

  /** After activation no employee of that id awaits approval. */
  lemma ActivationLeavesNothingPending(ps: seq<Profile>, id: Id)
    ensures forall p :: p in PendingList(UpdateProfiles(ps, id, AdminActions.Activate)) ==> p.id != id
  {
    var qs := UpdateProfiles(ps, id, AdminActions.Activate);
    forall p | p in PendingList(qs) ensures p.id != id {
      var j :| 0 <= j < |qs| && qs[j] == p;
    }
  }

  datatype Stats = Stats(totalEmployees: int, pendingApprovals: int, totalPenalties: int)

  /** The overview's state: the lists and figures `fetchStats` sets. */
  class Overview {
    var stats: Stats
    var activeEmployees: seq<Profile>
    var pendingProfiles: seq<Profile>
    var loading: bool

    constructor ()
      ensures stats == Stats(0, 0, 0) && activeEmployees == [] && pendingProfiles == [] && loading
    {
      stats := Stats(0, 0, 0);
      activeEmployees := [];
      pendingProfiles := [];
      loading := true;
    }

    /** `fetchStats`: each of the three reads may fail; a failed list read keeps the list shown and
        counts 0, a failed penalty read totals 0. */
    method FetchStats(db: Db, activeOk: bool, pendingOk: bool, penaltiesOk: bool)
      modifies this
      ensures activeEmployees == if activeOk then DirectoryList(db.profiles) else old(activeEmployees)
      ensures pendingProfiles == if pendingOk then PendingList(db.profiles) else old(pendingProfiles)
      ensures stats.totalEmployees == (if activeOk then |DirectoryList(db.profiles)| else 0)
      ensures stats.pendingApprovals == (if pendingOk then |PendingList(db.profiles)| else 0)
      ensures stats.totalPenalties == if penaltiesOk then SumPenalties(db.profiles) else 0
      ensures !loading
    {
      var activeCount := 0;
      if activeOk {
        activeEmployees := DirectoryList(db.profiles);
        activeCount := |activeEmployees|;
      }
      var pendingCount := 0;
      if pendingOk {
        pendingProfiles := PendingList(db.profiles);
        pendingCount := |pendingProfiles|;
      }
      var rows := if penaltiesOk then Some(db.profiles) else None;
      var total := TotalPenalties(rows);
      TotalPenaltiesIsLedgerSum(rows);
      stats := Stats(activeCount, pendingCount, total);
      loading := false;
    }
  }

  // ---------------------------------------------------------------------------
  // The task list's labels.

  /** The "To:" label: the first directory employee with the id's full name, or `Unknown` when there
      is none or the name is missing or empty. */
  function AssigneeLabel(es: seq<Profile>, assignedTo: Id): (r: string)
    ensures (forall i :: 0 <= i < |es| ==> es[i].id != assignedTo) ==> r == "Unknown"
    ensures forall i ::
              0 <= i < |es| && es[i].id == assignedTo &&
              (forall j :: 0 <= j < i ==> es[j].id != assignedTo)
              ==> r == if Truthy(es[i].fullName) then es[i].fullName.value else "Unknown"
  {
    var e := FindProfile(es, assignedTo);
    assert forall i :: 0 <= i < |es| && es[i].id == assignedTo && (forall j :: 0 <= j < i ==> es[j].id != assignedTo) ==>
      e == Some(es[i]) by {
      forall i | 0 <= i < |es| && es[i].id == assignedTo && (forall j :: 0 <= j < i ==> es[j].id != assignedTo) {
        FindProfileFirst(es, assignedTo, i);
      }
    }
    if e.Some? then OrElse(e.value.fullName, "Unknown") else "Unknown"
  }

  /** An assignee outside the directory (pending, suspended, deleted) is shown as `Unknown`. */
  lemma AssigneeOutsideDirectoryIsUnknown(ps: seq<Profile>, assignedTo: Id)
    requires forall p :: p in ps && p.id == assignedTo ==> !InDirectory(p)
    ensures AssigneeLabel(DirectoryList(ps), assignedTo) == "Unknown"
  {
    var es := DirectoryList(ps);
    forall i | 0 <= i < |es| ensures es[i].id != assignedTo {
      assert es[i] in es;
    }
  }

  /** The status badge: the first `_` becomes a space, any later one stays. */
  function StatusLabel(status: string): string {
    ReplaceFirst(status, '_', ' ')
  }

  /** The badge of a task in progress reads `in progress`. */
  lemma InProgressLabel()
    ensures StatusLabel(IN_PROGRESS) == "in progress"
  {
    assert IN_PROGRESS[2..][0] == '_';
    assert ReplaceFirst(IN_PROGRESS[2..], '_', ' ') == " progress";
    assert ReplaceFirst(IN_PROGRESS[1..], '_', ' ') == "n progress";
  }

  /** The badges of the other two task statuses are the statuses themselves. */
  lemma StatusLabels()
    ensures StatusLabel(TODO) == TODO && StatusLabel(DONE) == DONE
  {
    assert '_' !in TODO && '_' !in DONE;
    ReplaceFirstAbsent(TODO, '_', ' ');
    ReplaceFirstAbsent(DONE, '_', ' ');
  }
}
