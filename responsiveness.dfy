/** The responsiveness evaluator: for every task not yet done, find the last
    admin comment; once it is older than two hours, the task is flagged unless
    an employee has commented strictly later. The evaluator only reads the
    store; it reports the flagged tasks and mails a warning for each. */
module Responsiveness {
  import opened Wrappers
  import opened Text
  import opened Records

  /** The grace period: two hours in milliseconds. */
  const GRACE: int := 2 * 60 * 60 * 1000

  /** A comment as the evaluator's query sees it: its author's role and its creation time. */
  datatype Reading = Reading(role: string, createdAt: Timestamp)

  // ---------------------------------------------------------------------------
  // The per-task decision, as the code computes it: sort, filter, take the last.

  predicate SortedByTime(s: seq<Reading>) {
    forall i, j :: 0 <= i < j < |s| ==> s[i].createdAt <= s[j].createdAt
  }

  /** Puts `c` after every element of the sorted `s` that is not later than it. */
  function InsertByTime(s: seq<Reading>, c: Reading): seq<Reading> {
    if s == [] || s[|s| - 1].createdAt <= c.createdAt then s + [c]
    else InsertByTime(s[..|s| - 1], c) + [s[|s| - 1]]
  }

  /** Inserting is a permutation of `s` with `c` added. */
  lemma {:induction false} InsertPermutes(s: seq<Reading>, c: Reading)
    ensures multiset(InsertByTime(s, c)) == multiset(s) + multiset{c}
  {
    if !(s == [] || s[|s| - 1].createdAt <= c.createdAt) {
      var n := |s| - 1;
      assert s == s[..n] + [s[n]];
      InsertPermutes(s[..n], c);
    }
  }

  /** Inserting adds `c` and nothing else. */
  lemma InsertMembers(s: seq<Reading>, c: Reading)
    ensures forall x :: x in InsertByTime(s, c) ==> x in s || x == c
  {
    InsertPermutes(s, c);
    forall x | x in InsertByTime(s, c) ensures x in s || x == c {
      assert x in multiset(InsertByTime(s, c));
      assert x in multiset(s) || x == c;
    }
  }

  lemma {:induction false} InsertKeepsSorted(s: seq<Reading>, c: Reading)
    requires SortedByTime(s)
    ensures SortedByTime(InsertByTime(s, c))
  {
    if !(s == [] || s[|s| - 1].createdAt <= c.createdAt) {
      var n := |s| - 1;
      assert SortedByTime(s[..n]);
      InsertKeepsSorted(s[..n], c);
      var r' := InsertByTime(s[..n], c);
      InsertMembers(s[..n], c);
      assert InsertByTime(s, c) == r' + [s[n]];
      forall i | 0 <= i < |r'| ensures r'[i].createdAt <= s[n].createdAt {
        assert r'[i] in r';
        if r'[i] != c {
          var j :| 0 <= j < n && s[..n][j] == r'[i];
          assert s[j] == r'[i];
        }
      }
    }
  }

  /** The comments in ascending order of creation time (a stable sort, as `Array.prototype.sort` is). */
  function SortByTime(s: seq<Reading>): seq<Reading> {
    if s == [] then [] else InsertByTime(SortByTime(s[..|s| - 1]), s[|s| - 1])
  }

  /** Sorting is a permutation. */
  lemma {:induction false} SortPermutes(s: seq<Reading>)
    ensures multiset(SortByTime(s)) == multiset(s)
  {
    if s != [] {
      var n := |s| - 1;
      assert s == s[..n] + [s[n]];
      SortPermutes(s[..n]);
      InsertPermutes(SortByTime(s[..n]), s[n]);
    }
  }

  lemma {:induction false} SortByTimeSorts(s: seq<Reading>)
    ensures SortedByTime(SortByTime(s))
  {
    if s != [] {
      SortByTimeSorts(s[..|s| - 1]);
      InsertKeepsSorted(SortByTime(s[..|s| - 1]), s[|s| - 1]);
    }
  }

  /** The comments written by authors with the given role, in order. */
  function WithRole(s: seq<Reading>, role: string): (r: seq<Reading>)
    ensures forall x :: x in r <==> x in s && x.role == role
    ensures |r| <= |s|
  {
    if s == [] then []
    else
      var n := |s| - 1;
      assert forall x :: x in s[..n] ==> x in s;
      WithRole(s[..n], role) + (if s[n].role == role then [s[n]] else [])
  }

  lemma {:induction false} WithRoleKeepsSorted(s: seq<Reading>, role: string)
    requires SortedByTime(s)
    ensures SortedByTime(WithRole(s, role))
  {
    if s != [] {
      var n := |s| - 1;
      assert SortedByTime(s[..n]);
      WithRoleKeepsSorted(s[..n], role);
      var r' := WithRole(s[..n], role);
      forall i | 0 <= i < |r'| ensures r'[i].createdAt <= s[n].createdAt {
        assert r'[i] in r';
        var j :| 0 <= j < n && s[..n][j] == r'[i];
      }
    }
  }

  /** The employee comments strictly later than `t`. */
  function RepliesAfter(s: seq<Reading>, t: Timestamp): (r: seq<Reading>)
    ensures forall x :: x in r <==> x in s && x.role == EMPLOYEE && x.createdAt > t
  {
    if s == [] then []
    else
      var n := |s| - 1;
      assert forall x :: x in s[..n] ==> x in s;
      RepliesAfter(s[..n], t) + (if s[n].role == EMPLOYEE && s[n].createdAt > t then [s[n]] else [])
  }

  /** The decision as written: sort by time, then decide on the sorted comments. */
  function Evaluate(comments: seq<Reading>, now: Timestamp): bool {
    Decide(SortByTime(comments), now)
  }

  /** On comments in time order: no comment, or no admin comment, means no flag; otherwise the
      last admin comment must be strictly older than `now - GRACE` and no employee comment
      strictly later than it. */
  function Decide(sorted: seq<Reading>, now: Timestamp): bool {
    if |sorted| == 0 then false
    else
      var admins := WithRole(sorted, ADMIN);
      if |admins| == 0 then false
      else
        var lastAdminTime := admins[|admins| - 1].createdAt;
        if lastAdminTime < now - GRACE then |RepliesAfter(sorted, lastAdminTime)| == 0
        else false
  }

  // ---------------------------------------------------------------------------
  // The same decision stated without any order.

  /** `a` is an admin comment no other admin comment is later than. */
  predicate IsLatestAdmin(cs: seq<Reading>, a: Reading) {
    a in cs && a.role == ADMIN &&
    forall b :: b in cs && b.role == ADMIN ==> b.createdAt <= a.createdAt
  }

  /** No employee comment is strictly later than `t`. */
  predicate Unanswered(cs: seq<Reading>, t: Timestamp) {
    forall e :: e in cs && e.role == EMPLOYEE ==> e.createdAt <= t
  }

  /** The admin's latest query is past the grace period and no employee has answered it since. */
  predicate NonResponsive(cs: seq<Reading>, now: Timestamp) {
    exists a :: a in cs && IsLatestAdmin(cs, a) && a.createdAt < now - GRACE && Unanswered(cs, a.createdAt)
  }

  lemma LastOfSortedIsLatest(s: seq<Reading>)
    requires SortedByTime(s) && s != []
    ensures forall x :: x in s ==> x.createdAt <= s[|s| - 1].createdAt
  {
    forall x | x in s ensures x.createdAt <= s[|s| - 1].createdAt {
      var i :| 0 <= i < |s| && s[i] == x;
      if i < |s| - 1 {
        assert s[i].createdAt <= s[|s| - 1].createdAt;
      }
    }
  }

  lemma SortedHasSameMembers(cs: seq<Reading>)
    ensures forall x :: x in SortByTime(cs) <==> x in cs
  {
    var sorted := SortByTime(cs);
    SortPermutes(cs);
    forall x ensures x in sorted <==> x in cs {
      assert x in sorted <==> x in multiset(sorted);
      assert x in cs <==> x in multiset(cs);
    }
  }

  lemma EvaluateImpliesNonResponsive(cs: seq<Reading>, now: Timestamp)
    requires Evaluate(cs, now)
    ensures NonResponsive(cs, now)
  {
    var sorted := SortByTime(cs);
    assert Decide(sorted, now);
    SortedHasSameMembers(cs);
    var admins := WithRole(sorted, ADMIN);
    var a := admins[|admins| - 1];
    SortByTimeSorts(cs);
    WithRoleKeepsSorted(sorted, ADMIN);
    LastOfSortedIsLatest(admins);
    assert IsLatestAdmin(cs, a);
    assert Unanswered(cs, a.createdAt) by {
      forall e | e in cs && e.role == EMPLOYEE ensures e.createdAt <= a.createdAt {
        assert e in RepliesAfter(sorted, a.createdAt) <==> e.createdAt > a.createdAt;
      }
    }
  }

  /** In any sorted arrangement of the comments, the last admin comment is as late as a latest one. */
  lemma LastAdminOfSorted(sorted: seq<Reading>, cs: seq<Reading>, a: Reading)
    requires SortedByTime(sorted) && forall x :: x in sorted <==> x in cs
    requires IsLatestAdmin(cs, a)
    ensures |WithRole(sorted, ADMIN)| != 0
    ensures WithRole(sorted, ADMIN)[|WithRole(sorted, ADMIN)| - 1].createdAt == a.createdAt
  {
    var admins := WithRole(sorted, ADMIN);
    assert a in admins;
    WithRoleKeepsSorted(sorted, ADMIN);
    LastOfSortedIsLatest(admins);
    var l := admins[|admins| - 1];
    assert l in admins;
    assert l in cs && l.role == ADMIN;
  }

  lemma {:induction false} NoRepliesAfter(s: seq<Reading>, t: Timestamp)
    requires forall x :: x in s && x.role == EMPLOYEE ==> x.createdAt <= t
    ensures RepliesAfter(s, t) == []
  {
    if s != [] {
      var n := |s| - 1;
      assert forall x :: x in s[..n] ==> x in s;
      NoRepliesAfter(s[..n], t);
      assert s[n] in s;
    }
  }

  /** The decision in terms of its ingredients: a last admin comment past the grace period with
      no reply after it. */
  lemma DecideFromParts(sorted: seq<Reading>, now: Timestamp, t: Timestamp)
    requires |WithRole(sorted, ADMIN)| != 0
    requires WithRole(sorted, ADMIN)[|WithRole(sorted, ADMIN)| - 1].createdAt == t
    requires t < now - GRACE && RepliesAfter(sorted, t) == []
    ensures Decide(sorted, now)
  {
    assert |sorted| != 0;
  }

  /** A latest admin comment with no employee answer leads the sorted comments' admin list and
      leaves no reply after it. */
  lemma LatestAdminInSorted(cs: seq<Reading>, a: Reading, sorted: seq<Reading>)
    requires sorted == SortByTime(cs)
    requires IsLatestAdmin(cs, a) && Unanswered(cs, a.createdAt)
    ensures |WithRole(sorted, ADMIN)| != 0
    ensures WithRole(sorted, ADMIN)[|WithRole(sorted, ADMIN)| - 1].createdAt == a.createdAt
    ensures RepliesAfter(sorted, a.createdAt) == []
  {
    SortedHasSameMembers(cs);
    SortByTimeSorts(cs);
    LastAdminOfSorted(sorted, cs, a);
    forall x | x in sorted && x.role == EMPLOYEE ensures x.createdAt <= a.createdAt {
      assert x in cs;
    }
    NoRepliesAfter(sorted, a.createdAt);
  }

  lemma NonResponsiveImpliesEvaluate(cs: seq<Reading>, now: Timestamp)
    requires NonResponsive(cs, now)
    ensures Evaluate(cs, now)
  {
    var a :| a in cs && IsLatestAdmin(cs, a) && a.createdAt < now - GRACE && Unanswered(cs, a.createdAt);
    var sorted := SortByTime(cs);
    LatestAdminInSorted(cs, a, sorted);
    DecideFromParts(sorted, now, a.createdAt);
  }

  /** The sort-filter-last decision is exactly the order-independent one. */
  lemma EvaluateIsNonResponsive(cs: seq<Reading>, now: Timestamp)
    ensures Evaluate(cs, now) <==> NonResponsive(cs, now)
  {
    if Evaluate(cs, now) {
      EvaluateImpliesNonResponsive(cs, now);
    }
    if NonResponsive(cs, now) {
      NonResponsiveImpliesEvaluate(cs, now);
    }
  }

  /** A task without comments is never flagged. */
  lemma NoCommentsNeverFlagged(now: Timestamp)
    ensures !Evaluate([], now)
  {
  }

  /** A task no admin has commented on is never flagged. */
  lemma NoAdminCommentNeverFlagged(cs: seq<Reading>, now: Timestamp)
    requires forall c :: c in cs ==> c.role != ADMIN
    ensures !Evaluate(cs, now)
  {
    EvaluateIsNonResponsive(cs, now);
  }

  /** While any admin comment is at most two hours old (not strictly older than `now - GRACE`), no flag. */
  lemma WithinGraceNeverFlagged(cs: seq<Reading>, now: Timestamp, a: Reading)
    requires a in cs && a.role == ADMIN && a.createdAt >= now - GRACE
    ensures !Evaluate(cs, now)
  {
    EvaluateIsNonResponsive(cs, now);
  }

  /** An employee comment answers only when strictly later: replies stamped at exactly the same
      millisecond as the latest admin comment, and none later, leave the task flagged once that
      comment is past the grace period. */
  lemma SameInstantReplyDoesNotAnswer(cs: seq<Reading>, now: Timestamp, a: Reading, e: Reading)
    requires IsLatestAdmin(cs, a) && a.createdAt < now - GRACE
    requires e in cs && e.role == EMPLOYEE && e.createdAt == a.createdAt
    requires Unanswered(cs, a.createdAt)
    ensures Evaluate(cs, now)
  {
    NonResponsiveImpliesEvaluate(cs, now);
  }

  /** A later employee reply answers the query, however old the query is. */
  lemma LaterReplyAnswers(cs: seq<Reading>, now: Timestamp, e: Reading)
    requires e in cs && e.role == EMPLOYEE
    requires forall b :: b in cs && b.role == ADMIN ==> b.createdAt < e.createdAt
    ensures !Evaluate(cs, now)
  {
    EvaluateIsNonResponsive(cs, now);
  }

  // ---------------------------------------------------------------------------
  // The whole evaluator over the store.

  /** The task page's live banner (on the denormalised timestamps): a reply at the same instant as
      the admin comment counts as answered there. */
  predicate LiveOverdue(t: Task, now: Timestamp) {
    t.lastAdminCommentAt.Some? &&
    t.lastAdminCommentAt.value < now - GRACE &&
    (t.lastEmployeeReplyAt.None? || t.lastEmployeeReplyAt.value < t.lastAdminCommentAt.value)
  }

  /** The evaluator and the task page's banner disagree on a reply stamped at the latest admin
      comment's own instant: when the task's two timestamps record that instant, the evaluator flags
      the task once the comment is past the grace period, and the banner does not. */
  lemma EvaluatorAndBannerDisagreeOnTies(t: Task, cs: seq<Reading>, now: Timestamp, a: Reading, e: Reading)
    requires IsLatestAdmin(cs, a) && a.createdAt < now - GRACE
    requires e in cs && e.role == EMPLOYEE && e.createdAt == a.createdAt
    requires Unanswered(cs, a.createdAt)
    requires t.lastAdminCommentAt == Some(a.createdAt) && t.lastEmployeeReplyAt == Some(e.createdAt)
    ensures Evaluate(cs, now) && !LiveOverdue(t, now)
  {
    SameInstantReplyDoesNotAnswer(cs, now, a, e);
  }

  /** What the evaluator needs from outside the store. */
  datatype Env = Env(
    token: Option<string>,      // the mail API token
    fromEmail: Option<string>,  // the sender address
    sendThrows: Id -> bool)     // the warning request for a task rejects

  /** One flagged task in the response: its title and its assignee's name. */
  datatype Flag = Flag(task: string, user: Option<string>)

  /** A responsiveness warning handed to the mail service. */
  datatype Warning = Warning(to: string, name: Option<string>, taskTitle: string)

  datatype Response = QueryError | Report(flagged: seq<Flag>) | Crashed

  datatype Scan = Scan(flagged: seq<Flag>, warnings: seq<Warning>, crashed: bool)

  /** The tasks the query returns: every task whose status is not `done`, in table order. */
  function NotDone(ts: seq<Task>): (r: seq<Task>)
    ensures forall t :: t in r <==> t in ts && t.status != DONE
  {
    if ts == [] then []
    else
      var n := |ts| - 1;
      assert forall t :: t in ts[..n] ==> t in ts;
      NotDone(ts[..n]) + (if ts[n].status != DONE then [ts[n]] else [])
  }

  /** A task's comments joined with their authors' roles; `None` when an author has no profile row,
      which makes the role filter dereference a missing profile and throw. */
  function ReadingsOf(cs: seq<Comment>, ps: seq<Profile>, taskId: Id): (r: Option<seq<Reading>>)
    ensures r.Some? <==> forall c :: c in cs && c.taskId == taskId ==> FindProfile(ps, c.authorId).Some?
    ensures r.Some? ==> |r.value| <= |cs|
  {
    if cs == [] then Some([])
    else
      var n := |cs| - 1;
      var c := cs[n];
      assert forall x :: x in cs <==> x in cs[..n] || x == c by {
        assert cs == cs[..n] + [c];
      }
      var rest := ReadingsOf(cs[..n], ps, taskId);
      if c.taskId != taskId then rest
      else match FindProfile(ps, c.authorId)
        case None => None
        case Some(p) => if rest.None? then None else Some(rest.value + [Reading(p.role, c.createdAt)])
  }

  /** One task of the loop. */
  function Step(db: Db, s: Scan, t: Task, now: Timestamp, env: Env): Scan {
    if s.crashed then s
    else match ReadingsOf(db.comments, db.profiles, t.id)
      case None => s.(crashed := true)
      case Some(rs) =>
        if !Evaluate(rs, now) then s
        else match FindProfile(db.profiles, t.assignedTo)
          // the flag's assignee name dereferences the missing profile and throws
          case None => s.(crashed := true)
          case Some(p) =>
            var flagged := s.flagged + [Flag(t.title, p.fullName)];
            if Truthy(env.token) && Truthy(env.fromEmail) && Truthy(p.email) then
              Scan(flagged, s.warnings + [Warning(p.email.value, p.fullName, t.title)], env.sendThrows(t.id))
            else Scan(flagged, s.warnings, false)
  }

  function Fold(db: Db, s: Scan, ts: seq<Task>, now: Timestamp, env: Env): Scan {
    if ts == [] then s else Step(db, Fold(db, s, ts[..|ts| - 1], now, env), ts[|ts| - 1], now, env)
  }

  /** One whole invocation: the response and the warnings handed to the mail service. */
  function CheckSpec(db: Db, now: Timestamp, queryOk: bool, env: Env): (Response, seq<Warning>) {
    if !queryOk then (QueryError, [])
    else
      var s := Fold(db, Scan([], [], false), NotDone(db.tasks), now, env);
      (if s.crashed then Crashed else Report(s.flagged), s.warnings)
  }

  // ---------------------------------------------------------------------------
  // What a completed scan reports.

  /** The tasks among `ts` whose comments make them non-responsive, in order. */
  function NonResponsiveTasks(db: Db, ts: seq<Task>, now: Timestamp): (r: seq<Task>)
    ensures forall t :: t in r ==> t in ts
  {
    if ts == [] then []
    else
      var n := |ts| - 1;
      var t := ts[n];
      var rs := ReadingsOf(db.comments, db.profiles, t.id);
      assert forall x :: x in ts[..n] ==> x in ts;
      NonResponsiveTasks(db, ts[..n], now) + (if rs.Some? && NonResponsive(rs.value, now) then [t] else [])
  }

  /** The response entry for a flagged task. */
  function FlagFor(db: Db, t: Task): Flag {
    Flag(t.title, match FindProfile(db.profiles, t.assignedTo) case Some(p) => p.fullName case None => None)
  }

  function FlagsFor(db: Db, ts: seq<Task>): (r: seq<Flag>)
    ensures |r| == |ts| && forall i :: 0 <= i < |ts| ==> r[i] == FlagFor(db, ts[i])
  {
    seq(|ts|, i requires 0 <= i < |ts| => FlagFor(db, ts[i]))
  }

  /** One task that does not crash the scan adds its flag exactly when it is non-responsive. */
  lemma StepFlags(db: Db, s: Scan, t: Task, now: Timestamp, env: Env)
    requires !Step(db, s, t, now, env).crashed
    ensures ReadingsOf(db.comments, db.profiles, t.id).Some?
    ensures Step(db, s, t, now, env).flagged == s.flagged +
      (if NonResponsive(ReadingsOf(db.comments, db.profiles, t.id).value, now) then [FlagFor(db, t)] else [])
  {
    EvaluateIsNonResponsive(ReadingsOf(db.comments, db.profiles, t.id).value, now);
  }

  /** A scan that completes lists, in task order, exactly the non-responsive tasks, each with its
      title and its assignee's name. */
  lemma {:induction false} FoldFlags(db: Db, ts: seq<Task>, now: Timestamp, env: Env)
    requires !Fold(db, Scan([], [], false), ts, now, env).crashed
    ensures Fold(db, Scan([], [], false), ts, now, env).flagged == FlagsFor(db, NonResponsiveTasks(db, ts, now))
  {
    if ts != [] {
      var n := |ts| - 1;
      var t := ts[n];
      var mid := Fold(db, Scan([], [], false), ts[..n], now, env);
      assert Fold(db, Scan([], [], false), ts, now, env) == Step(db, mid, t, now, env);
      if mid.crashed {
        StepCrashed(db, mid, t, now, env);
      }
      FoldFlags(db, ts[..n], now, env);
      StepFlags(db, mid, t, now, env);
      var rest := NonResponsiveTasks(db, ts[..n], now);
      var rs := ReadingsOf(db.comments, db.profiles, t.id);
      if NonResponsive(rs.value, now) {
        assert NonResponsiveTasks(db, ts, now) == rest + [t];
        assert FlagsFor(db, rest + [t]) == FlagsFor(db, rest) + [FlagFor(db, t)];
      } else {
        assert NonResponsiveTasks(db, ts, now) == rest;
      }
    }
  }

  /** The warning for a task whose assignee is on file with an address. */
  function WarningFor(db: Db, t: Task): (r: seq<Warning>)
    ensures |r| <= 1
  {
    var p := FindProfile(db.profiles, t.assignedTo);
    if p.Some? && Truthy(p.value.email) then [Warning(p.value.email.value, p.value.fullName, t.title)] else []
  }

  /** The warnings for each of `ts` whose assignee is on file with an address, in order. */
  function WarningsFor(db: Db, ts: seq<Task>): (r: seq<Warning>)
    ensures |r| <= |ts|
  {
    if ts == [] then [] else WarningsFor(db, ts[..|ts| - 1]) + WarningFor(db, ts[|ts| - 1])
  }

  /** One task adds a warning only along with its flag and only to an address; with a token and a
      sender and without throwing, it adds exactly the task's warning when the task is non-responsive;
      without a token or a sender, none. */
  lemma StepWarnings(db: Db, s: Scan, t: Task, now: Timestamp, env: Env)
    requires |s.warnings| <= |s.flagged| && forall w :: w in s.warnings ==> w.to != ""
    ensures var s' := Step(db, s, t, now, env);
      |s'.warnings| <= |s'.flagged| && forall w :: w in s'.warnings ==> w.to != ""
    ensures var s' := Step(db, s, t, now, env);
      !s'.crashed && Truthy(env.token) && Truthy(env.fromEmail) ==>
      ReadingsOf(db.comments, db.profiles, t.id).Some? &&
      s'.warnings == s.warnings +
        (if NonResponsive(ReadingsOf(db.comments, db.profiles, t.id).value, now) then WarningFor(db, t) else [])
    ensures !(Truthy(env.token) && Truthy(env.fromEmail)) ==> Step(db, s, t, now, env).warnings == s.warnings
  {
    var s' := Step(db, s, t, now, env);
    if !s'.crashed {
      StepFlags(db, s, t, now, env);
    }
  }

  /** With a token and a sender, a scan that completes warns, in task order, exactly the assignees
      with an address of the non-responsive tasks; a warning goes only to an address, never without
      a flag, and none goes out without a token and a sender. */
  lemma {:induction false} FoldWarnings(db: Db, ts: seq<Task>, now: Timestamp, env: Env)
    ensures var s := Fold(db, Scan([], [], false), ts, now, env);
      |s.warnings| <= |s.flagged| && forall w :: w in s.warnings ==> w.to != ""
    ensures var s := Fold(db, Scan([], [], false), ts, now, env);
      !s.crashed && Truthy(env.token) && Truthy(env.fromEmail) ==>
      s.warnings == WarningsFor(db, NonResponsiveTasks(db, ts, now))
    ensures !(Truthy(env.token) && Truthy(env.fromEmail)) ==> Fold(db, Scan([], [], false), ts, now, env).warnings == []
  {
    if ts != [] {
      var n := |ts| - 1;
      var t := ts[n];
      var mid := Fold(db, Scan([], [], false), ts[..n], now, env);
      assert Fold(db, Scan([], [], false), ts, now, env) == Step(db, mid, t, now, env);
      FoldWarnings(db, ts[..n], now, env);
      StepWarnings(db, mid, t, now, env);
      if mid.crashed {
        StepCrashed(db, mid, t, now, env);
      }
      if !Step(db, mid, t, now, env).crashed && Truthy(env.token) && Truthy(env.fromEmail) {
        var rest := NonResponsiveTasks(db, ts[..n], now);
        var rs := ReadingsOf(db.comments, db.profiles, t.id);
        assert !mid.crashed && rs.Some?;
        if NonResponsive(rs.value, now) {
          assert NonResponsiveTasks(db, ts, now) == rest + [t];
          assert WarningsFor(db, rest + [t]) == WarningsFor(db, rest) + WarningFor(db, t) by {
            assert (rest + [t])[..|rest|] == rest;
          }
        } else {
          assert NonResponsiveTasks(db, ts, now) == rest;
        }
      }
    }
  }

  /** A completed evaluation reports exactly the not-done tasks that are non-responsive. */
  lemma ReportListsNonResponsiveTasks(db: Db, now: Timestamp, env: Env)
    requires CheckSpec(db, now, true, env).0.Report?
    ensures var flagged := CheckSpec(db, now, true, env).0.flagged;
      flagged == FlagsFor(db, NonResponsiveTasks(db, NotDone(db.tasks), now))
  {
    FoldFlags(db, NotDone(db.tasks), now, env);
  }

  /** With a token and a sender, a completed evaluation warns exactly the assignees with an address
      of the flagged tasks, in task order. */
  lemma ReportWarnsAssignees(db: Db, now: Timestamp, env: Env)
    requires CheckSpec(db, now, true, env).0.Report?
    requires Truthy(env.token) && Truthy(env.fromEmail)
    ensures CheckSpec(db, now, true, env).1 == WarningsFor(db, NonResponsiveTasks(db, NotDone(db.tasks), now))
  {
    FoldWarnings(db, NotDone(db.tasks), now, env);
  }

  /** A finished task is never flagged, whatever its comments. */
  lemma DoneTasksNeverFlagged(db: Db, now: Timestamp, t: Task)
    requires t.status == DONE
    ensures t !in NonResponsiveTasks(db, NotDone(db.tasks), now)
  {
  }

  lemma FoldNext(db: Db, ts: seq<Task>, now: Timestamp, env: Env, i: nat)
    requires i < |ts|
    ensures Fold(db, Scan([], [], false), ts[..i + 1], now, env) ==
            Step(db, Fold(db, Scan([], [], false), ts[..i], now, env), ts[i], now, env)
  {
    assert ts[..i + 1][..i] == ts[..i];
  }

  lemma StepCrashed(db: Db, s: Scan, t: Task, now: Timestamp, env: Env)
    requires s.crashed
    ensures Step(db, s, t, now, env) == s
  {
  }

  /** Once the scan has crashed, one more task leaves it as it is. */
  lemma FoldCrashedStep(db: Db, s: Scan, ts: seq<Task>, now: Timestamp, env: Env)
    requires ts != [] && Fold(db, s, ts[..|ts| - 1], now, env).crashed
    ensures Fold(db, s, ts, now, env) == Fold(db, s, ts[..|ts| - 1], now, env)
  {
    StepCrashed(db, Fold(db, s, ts[..|ts| - 1], now, env), ts[|ts| - 1], now, env);
  }

  lemma {:induction false} FoldCrashedStays(db: Db, s: Scan, ts: seq<Task>, now: Timestamp, env: Env, k: nat)
    requires k <= |ts| && Fold(db, s, ts[..k], now, env).crashed
    ensures Fold(db, s, ts, now, env) == Fold(db, s, ts[..k], now, env)
    decreases |ts| - k
  {
    if k < |ts| {
      var n := |ts| - 1;
      assert ts[..n][..k] == ts[..k];
      FoldCrashedStays(db, s, ts[..n], now, env, k);
      FoldCrashedStep(db, s, ts, now, env);
    } else {
      assert ts[..k] == ts;
    }
  }

  /** One pass of the loop body: the task's comments, the decision, the flag and the warning. */
  method ScanTask(store: Store, task: Task, now: Timestamp, env: Env, flagged: seq<Flag>, warnings: seq<Warning>)
    returns (s: Scan)
    ensures s == Step(store.State(), Scan(flagged, warnings, false), task, now, env)
  {
    var comments := ReadingsOf(store.comments, store.profiles, task.id);
    if comments.None? {
      return Scan(flagged, warnings, true);
    }
    if !Evaluate(comments.value, now) {
      return Scan(flagged, warnings, false);
    }
    var assignee := FindProfile(store.profiles, task.assignedTo);
    if assignee.None? {
      return Scan(flagged, warnings, true);
    }
    var p := assignee.value;
    s := Scan(flagged + [Flag(task.title, p.fullName)], warnings, false);
    if Truthy(env.token) && Truthy(env.fromEmail) && Truthy(p.email) {
      s := s.(warnings := warnings + [Warning(p.email.value, p.fullName, task.title)], crashed := env.sendThrows(task.id));
    }
  }

  /** The evaluator as the code runs it: it reads the store and writes nothing. */
  method CheckResponsiveness(store: Store, now: Timestamp, queryOk: bool, env: Env)
    returns (response: Response, warnings: seq<Warning>)
    ensures (response, warnings) == CheckSpec(store.State(), now, queryOk, env)
  {
    if !queryOk {
      return QueryError, [];
    }
    ghost var db := store.State();
    var tasks := NotDone(store.tasks);
    var flagged: seq<Flag> := [];
    warnings := [];
    var i := 0;
    while i < |tasks|
      invariant 0 <= i <= |tasks|
      invariant Fold(db, Scan([], [], false), tasks[..i], now, env) == Scan(flagged, warnings, false)
    {
      FoldNext(db, tasks, now, env, i);
      var s := ScanTask(store, tasks[i], now, env, flagged, warnings);
      if s.crashed {
        FoldCrashedStays(db, Scan([], [], false), tasks, now, env, i + 1);
        return Crashed, s.warnings;
      }
      flagged, warnings := s.flagged, s.warnings;
      i := i + 1;
    }
    assert tasks[..i] == tasks;
    response := Report(flagged);
  }
}
