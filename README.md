# IBBE Ops compliance engine, in Dafny

This project models the compliance core of the IBBE Ops portal. The portal's tasks are assigned
by administrators to employees, discussed in comments, and policed by two scheduled batches.

- **The deadline batch ("blue page")** selects every task that is not `done`, whose deadline has
  passed and that has not yet been penalised. For each one it records a `deadline_missed`
  violation of 2000, sets the assignee's running total to the total it reads plus 2000, flags
  the task and mails the assignee.
- **The responsiveness evaluator** sorts each open task's comments by time. It flags the task when
  the last administrator comment is more than two hours old and no employee has replied strictly
  later.
- **The server actions** post a comment (advancing one of the task's two comment timestamps),
  change a task's status, approve or reject a pending profile, and create a task. The two upload
  actions share a loop that skips empty files and silently drops failed uploads.
- **The pages** built on those tables: the administrator overview (directory and pending lists,
  headline penalty total, status badges, assignee labels), the employee board (three status
  columns, red deadlines), the directory search, and the dashboard's slug redirect.
- **The administrator mail path**: the composer form, which hands its message to the
  `send-admin-mail` edge function (`components/admin/email-composer.tsx:121`); the route
  `app/api/send-admin-mail/route.ts`, a separate entry point that validates a request and calls
  the mail provider; and the wrapper around the provider's HTTP API.

The store is a `class Store` holding the four tables (`tasks`, `profiles`, `comments`,
`violations`) as sequences of rows; every update "by id" rewrites every row with that id.
Each operation that changes the store is a method proved equal to a specification function on
`Db` values (`Store.State()`). Properties are then proved about that function. The clock,
session, mail provider, storage bucket and JSON built-ins are parameters. So is the outcome of
the store calls the model covers: a failed insert, read, update or delete is a boolean per call
(a field of `BluePage.Env` or `TaskActions.Faults`, or an `updateFails` / `readFails` /
`deleteFails` argument), whether or not the code looks at it. Two store calls are not modelled:
the deadline batch's upload of the record (its result is ignored, and the record itself is
under "## Left out") and the overview's read of the task list (left out as well). The batches' loops are left folds of a
one-task `Step`; an exception in the middle of a loop is a `crashed` run that keeps the writes
made before it.

Modules: `Wrappers`, `Text` and `JsValues` (the JavaScript built-ins the code relies on),
`Records` (rows and the store), `Attachments` (the shared upload loop), and one module per source
file: `BluePage`, `Responsiveness`, `TaskActions`, `AdminActions`, `AdminPage`, `KanbanBoard`,
`ActiveDirectory`, `Dashboard`, `EmailComposer`, `SendAdminMail`, `Zepto`.

What the code does when a call fails:

- The deadline batch throws when an assignee has no profile row: the record text dereferences
  it (`supabase/functions/blue-page/index.ts:43`). It also throws when a mail request rejects
  (line 80). Either way the handler answers with an error and keeps the writes already made for
  earlier tasks (`FoldCrashedStays`). Drawing the record text (line 48) can throw too, on a
  character the standard font cannot encode; that happens before the insert, so nothing is
  written for that task (`RecordThrowAbortsTheRun`).
- The deadline batch never looks at the error of three calls. A failed read of the assignee's
  total (line 71) yields no row, so the total is reset to 2000 (`TotalAfterReadFailure`). A
  failed total update (line 73) leaves the total as it was. A failed flag update (line 76)
  leaves the task unflagged, so the next run selects and charges it again
  (`FailedFlagWriteChargesAgain`).
- `postComment` ignores a failed role read (`actions/task-actions.ts:36`): the author is then
  taken for an employee. It ignores a failed timestamp update (lines 48-53), and
  `updateTaskStatus` ignores a failed status update (line 60). Both still return normally.
- `approveUser` throws on any error of its update (`actions/admin-actions.ts:15-22`), whether the
  row is missing or the update itself failed; nothing is mailed then.
- `createTask` ignores a failed read of the assignee (`actions/admin-actions.ts:99`): the task is
  created and the action succeeds, but nobody is mailed (`CreateTaskMailsTheAssignee`).
- The dashboard shows "Error loading profile." when its profile read fails
  (`app/dashboard/page.tsx:12-21`), even for a user whose row exists (`SessionAndRoleRoute`).
- The evaluator treats a reply stamped at the same instant as the administrator's comment as no
  reply, while the task page's banner treats it as an answer
  (`EvaluatorAndBannerDisagreeOnTies`).

## Model

| member | source | states |
|---|---|---|
| Text.DropSpaces | actions/task-actions.ts:18 | the result is a suffix of the input; everything dropped is white space; the result does not start with white space |
| Text.ReplaceSpaceRunsLeavesNoSpace | actions/task-actions.ts:18 | replacing white-space runs by a replacement free of white space leaves no white space |
| Text.ReplaceSpaceRunsKeepsWords | actions/admin-actions.ts:73 | a name without white space is left exactly as it is |
| Text.ReplaceSpaceRunsChars | app/dashboard/page.tsx:36 | every character of the result comes from the input or from the replacement |
| Text.ReplaceSpaceRunsIdempotent | actions/task-actions.ts:18 | replacing the runs a second time changes nothing |
| Text.ReplaceSpaceRuns | actions/task-actions.ts:18 | `replace(/\s+/g, rep)`: each maximal run of white space becomes one copy of the replacement (its properties are the lemmas around it) |
| Text.LowerChar | components/admin/active-directory.tsx:10-11 | upper-case ASCII letters move to lower case; every other character is unchanged |
| Text.Lower | components/admin/active-directory.tsx:10-11 | lower-casing keeps the length and maps each character on its own |
| Text.LowerIdempotent | app/dashboard/page.tsx:36 | lower-casing twice is lower-casing once |
| Text.Includes | components/admin/active-directory.tsx:10-11 | the search test holds exactly when the term occurs at some position of the text |
| Text.Take | components/dashboard/kanban-board.tsx:48 | `slice(0, n)` gives a prefix of length `min(n, length)` |
| Text.TakeLast | components/admin/active-directory.tsx:33 | `slice(-n)` gives the suffix of length `min(n, length)` |
| Text.ReplaceFirst | app/admin/page.tsx:307 | replacing one character keeps the length |
| Text.ReplaceFirstPointwise | app/admin/page.tsx:307 | only the first occurrence of the pattern character changes; every other position keeps its character |
| Text.ReplaceFirstAbsent | app/admin/page.tsx:307 | a text without the pattern character is unchanged |
| Text.NatToString | components/admin/email-composer.tsx:114 | the decimal rendering of a number is never empty |
| Text.NatToStringDigits | components/admin/email-composer.tsx:114 | the rendering holds decimal digits only |
| Text.NatToStringRoundTrip | components/admin/email-composer.tsx:114 | the rendering reads back as the number, and it starts with `0` only for zero |
| Text.NatToStringInjective | components/admin/email-composer.tsx:114 | different numbers get different renderings |
| Text.IntToString | components/admin/email-composer.tsx:73 | the decimal rendering of a `Date.now()` stamp, with a minus sign for a negative number |
| Text.OrElse | actions/admin-actions.ts:28 | the JavaScript `or` of optional strings gives `a` when it is a non-empty string and `b` otherwise |
| Text.Render | app/dashboard/page.tsx:36 | a template literal prints an absent value as `undefined` and a present one as itself |
| JsValues.Or | utils/zepto.ts:40-41 | the JavaScript `or` gives `a` when it is truthy and `b` otherwise |
| JsValues.Field | app/api/send-admin-mail/route.ts:8 | a field read gives the value of the last field with the key, and `undefined` when no field has that key |
| JsValues.Member | utils/zepto.ts:64 | reading a member throws exactly on `null` and `undefined`; an object gives its field, any other value `undefined` |
| JsValues.OptMember | app/api/send-admin-mail/route.ts:8 | a destructured field is the member read, or `undefined` where that read fails |
| Records.UpdateTasks | supabase/functions/blue-page/index.ts:76 | an update by id rewrites exactly the rows with that id and keeps the row count |
| Records.UpdateProfiles | supabase/functions/blue-page/index.ts:73 | an update by id rewrites exactly the profile rows with that id and keeps the row count |
| Records.UpdateById | supabase/functions/blue-page/index.ts:73-76 | `update(...).eq("id", id)` on any table: the row count is kept, rows with the id are rewritten and the others kept |
| Records.FindProfile | supabase/functions/blue-page/index.ts:71 | the lookup fails exactly when no row has the id; a found row has the id and is in the table; under a primary key it is that row |
| Records.FindProfileFirst | supabase/functions/blue-page/index.ts:71 | with several rows of one id, the first one is returned |
| Records.FindProfileSameContacts | supabase/functions/blue-page/index.ts:71-73 | two tables that differ only in totals find the same row for every id, up to its total |
| Records.DeleteProfiles | actions/admin-actions.ts:53 | a delete by id keeps exactly the rows with other ids |
| Records.SumPenaltiesUpdate | supabase/functions/blue-page/index.ts:71-73 | rewriting one profile's total shifts the sum of all totals by exactly the difference |
| Records.SumPenaltiesUnchanged | supabase/functions/blue-page/index.ts:73 | an update of an id no row has leaves the sum of the totals unchanged |
| Records.PenaltyOf | supabase/functions/blue-page/index.ts:72 | a missing total counts as 0 |
| Records.SetPenalty | supabase/functions/blue-page/index.ts:73 | the update writes the given total on the rows with the id |
| Attachments.StoredNameSanitises | actions/task-actions.ts:18 | after the prefix, stamp and `_`, a stored name holds no white space, and a name without white space is kept verbatim |
| Attachments.StoredName | actions/task-actions.ts:18 | the stored object name: prefix, stamp, `_`, then the file name with white-space runs turned into `_` |
| Attachments.UrlOf | actions/task-actions.ts:24-27 | the URL collected for a file is the bucket's public URL of its stored name |
| Attachments.Kept | actions/task-actions.ts:17-27 | a file contributes a URL when it is non-empty and the bucket accepts its stored name |
| Attachments.UploadedUrls | actions/admin-actions.ts:71-85 | the loop never collects more URLs than there are files |
| Attachments.KeptIndicesAreKept | actions/task-actions.ts:16-30 | every collected URL comes from a non-empty file whose upload succeeded |
| Attachments.KeptFilesAreIndexed | actions/task-actions.ts:16-30 | every non-empty file whose upload succeeded contributes a URL |
| Attachments.KeptIndicesIncrease | actions/task-actions.ts:16-30 | the URLs keep the order of the files |
| Attachments.UploadedUrlsAreKeptFiles | actions/task-actions.ts:16-30 | the collected list is exactly the public URLs of the kept files, in input order |
| Attachments.AllKeptWhenNothingFails | actions/admin-actions.ts:71-85 | with every file non-empty and every upload successful, there is one URL per file, in order |
| Attachments.EmptyFilesUploadNothing | actions/task-actions.ts:17 | empty files are never uploaded |
| Attachments.UploadAll | actions/task-actions.ts:16-30 | the loop collects exactly the specified URLs |
| BluePage.SelectOverdue | supabase/functions/blue-page/index.ts:16-24 | the batch selects exactly the tasks that are not done, past their deadline and not yet flagged |
| BluePage.Step | supabase/functions/blue-page/index.ts:32-103 | one task of the loop: crash on a missing profile or when drawing the record throws; record a failure on a failed insert; else the violation, the total and flag writes that succeed, and the mail |
| BluePage.OutcomeFor | supabase/functions/blue-page/index.ts:65-103 | the report entry of a task: `failed` when its insert fails, else processed with its record URL |
| BluePage.Flag | supabase/functions/blue-page/index.ts:76 | the flag update sets `is_blue_paged` and nothing else |
| BluePage.ViolationFor | supabase/functions/blue-page/index.ts:57-63 | the violation row: the assignee, the task, `deadline_missed`, 2000 and the record's public URL |
| BluePage.Overdue | supabase/functions/blue-page/index.ts:22-24 | the batch filter: status other than `done`, deadline strictly before now, not yet flagged |
| BluePage.Fold | supabase/functions/blue-page/index.ts:31-104 | the loop over the selected tasks, in order |
| BluePage.BluePageSpec | supabase/functions/blue-page/index.ts:13-107 | a failed query or no overdue task answers without writing; otherwise the loop runs and a crash answers with an error |
| BluePage.NewTotal | supabase/functions/blue-page/index.ts:71-72 | the total written is the read total, or 0 when the read failed, plus 2000 |
| BluePage.Outcomes | supabase/functions/blue-page/index.ts:66 | one report entry per selected task |
| BluePage.Charged | supabase/functions/blue-page/index.ts:65-68 | the charged tasks are exactly those whose violation insert succeeded |
| BluePage.PenaltyWrites | supabase/functions/blue-page/index.ts:65-73 | the tasks whose total update goes through are exactly those whose insert and update both succeed |
| BluePage.Flagged | supabase/functions/blue-page/index.ts:65-76 | the tasks whose flag is written are exactly those whose insert and flag update both succeed |
| BluePage.Unflagged | supabase/functions/blue-page/index.ts:65-76 | the tasks left unflagged are exactly those whose insert or flag update failed |
| BluePage.ViolationsFor | supabase/functions/blue-page/index.ts:57-63 | one violation row per task, for its assignee, of type `deadline_missed` and amount 2000 |
| BluePage.FlagAll | supabase/functions/blue-page/index.ts:76 | exactly the rows whose id is flagged get `is_blue_paged` set; the others are unchanged |
| BluePage.PenaltyWriteCount | supabase/functions/blue-page/index.ts:71-73 | the number of an assignee's tasks whose total update succeeds |
| BluePage.TotalAfter | supabase/functions/blue-page/index.ts:71-73 | an assignee's total after the loop: each written update sets it to the read total, or 0 after a failed read, plus 2000 |
| BluePage.StepProfiles | supabase/functions/blue-page/index.ts:70-73 | one step on a known assignee: when the violation insert and the total update succeed, the assignee's total becomes the read total (0 when the read failed) plus 2000; every other row and field is unchanged |
| BluePage.StepSumPenalties | supabase/functions/blue-page/index.ts:70-73 | one step shifts the sum of all totals by exactly what the written update adds to its assignee |
| BluePage.StepKeepsContacts | supabase/functions/blue-page/index.ts:73 | one step changes no profile field but the total |
| BluePage.StepCompletes | supabase/functions/blue-page/index.ts:43-48 | a task whose assignee has a profile, whose record can be drawn and whose mail does not reject never cuts the run short |
| BluePage.FoldCrashedStays | supabase/functions/blue-page/index.ts:31-104 | once the handler has thrown, the remaining tasks are not processed and earlier writes stay |
| BluePage.RecordThrowAbortsTheRun | supabase/functions/blue-page/index.ts:38-48 | when drawing a task's record throws, the run ends there with the state reached before that task: nothing is inserted or written for it or for any later task |
| BluePage.FoldResults | supabase/functions/blue-page/index.ts:65-68 | a completed loop reports one outcome per task, in order: `failed` exactly when the insert failed |
| BluePage.FoldViolations | supabase/functions/blue-page/index.ts:57-63 | a completed loop appends exactly one violation per charged task, in order, and no comment |
| BluePage.FoldTasks | supabase/functions/blue-page/index.ts:76 | a completed loop flags exactly the rows of the tasks whose insert and flag update both succeeded |
| BluePage.FoldProfiles | supabase/functions/blue-page/index.ts:70-73 | a completed loop changes only totals, and each profile's total is the one `TotalAfter` gives for its own tasks, read failures included |
| BluePage.TotalAfterWithoutReadFailures | supabase/functions/blue-page/index.ts:71-73 | with no failed read, a total grows by 2000 per written update of that assignee |
| BluePage.TotalAfterReadFailure | supabase/functions/blue-page/index.ts:71-72 | a written update after a failed read resets the assignee's total to 2000, whatever it was |
| BluePage.FoldSumPenalties | supabase/functions/blue-page/index.ts:70-73 | when no read of a total fails, the sum of all totals grows by exactly 2000 per task whose insert and total update succeeded |
| BluePage.FoldKeepsUniqueProfileIds | supabase/functions/blue-page/index.ts:73 | the loop keeps `id` a key of the profiles |
| BluePage.FoldCompletes | supabase/functions/blue-page/index.ts:43-48 | with every assignee on file, every record drawable and no rejected mail, the loop never throws |
| BluePage.FoldKeepsContacts | supabase/functions/blue-page/index.ts:31-104 | the loop changes no profile field but the total, and keeps every row in place |
| BluePage.NoticeFor | supabase/functions/blue-page/index.ts:79-81 | a charged task mails its assignee when the profile has an address |
| BluePage.NoticesFor | supabase/functions/blue-page/index.ts:79-100 | at most one notice per task, in task order |
| BluePage.StepNotices | supabase/functions/blue-page/index.ts:79-100 | one step mails only non-empty addresses; with a token and a sender, exactly its assignee's notice |
| BluePage.FoldNotices | supabase/functions/blue-page/index.ts:79-100 | the run mails only addresses that are non-empty, exactly one notice per charged task whose assignee has an address when a token and a sender are set, and nothing without them |
| BluePage.NoticesDoNotWrite | supabase/functions/blue-page/index.ts:79-100 | when no request rejects, the mail configuration changes neither the tables nor the report |
| BluePage.StepIgnoresMailConfig | supabase/functions/blue-page/index.ts:79-100 | when the request does not reject, one step's writes and outcome do not depend on the mail configuration |
| BluePage.ReportListsEachOverdueTaskOnce | supabase/functions/blue-page/index.ts:103-106 | a report lists each selected task once, in selection order |
| BluePage.ReportedRunAppendsOneViolationPerProcessedTask | supabase/functions/blue-page/index.ts:57-63 | a reported run appends one violation per processed task and none for a failed one |
| BluePage.ReportedRunFlagsProcessedTasks | supabase/functions/blue-page/index.ts:76 | a reported run flags exactly the selected tasks whose insert and flag update succeeded; every other row is unchanged |
| BluePage.ReportedRunChargesAssignees | supabase/functions/blue-page/index.ts:70-73 | each assignee's total is `TotalAfter` of its old total over the selected tasks; with no failed read, it grew by 2000 per task whose total update went through |
| BluePage.ReportedRunRaisesLedgerTotal | supabase/functions/blue-page/index.ts:70-73 | with no failed read, the ledger's total grows by exactly 2000 per selected task whose insert and total update succeeded |
| BluePage.ReportedRunNotifiesAssignees | supabase/functions/blue-page/index.ts:79-100 | with a token and a sender, a reported run mails exactly the notices of the charged tasks whose assignees have an address |
| BluePage.RunWithKnownAssigneesReports | supabase/functions/blue-page/index.ts:43 | with every assignee on file and no rejected mail, a run with overdue tasks ends in a report |
| BluePage.SelectAfterFlagging | supabase/functions/blue-page/index.ts:16-24 | selecting after the flags are written yields exactly the earlier selection's tasks whose flag was not written |
| BluePage.AllFlagged | supabase/functions/blue-page/index.ts:76 | when every flag is written, none is left unflagged |
| BluePage.FlaggedIdsOfUniqueRows | supabase/functions/blue-page/index.ts:76 | under a primary key, a row's id is flagged exactly when that row was selected and its flag written |
| BluePage.SecondRunSelectsOnlyFailures | supabase/functions/blue-page/index.ts:16-24 | a second run at the same instant selects exactly the tasks whose insert or flag update failed |
| BluePage.FailedFlagWriteChargesAgain | supabase/functions/blue-page/index.ts:65-76 | a task charged while its flag update failed is selected again and, when that insert succeeds, charged a second time |
| BluePage.SecondRunIsNoOp | supabase/functions/blue-page/index.ts:24-27 | after a run where every insert and flag update succeeded, a second run finds nothing and writes nothing |
| BluePage.ProcessTask | supabase/functions/blue-page/index.ts:32-103 | the loop body on the store performs exactly one step of the loop's specification |
| BluePage.RunBluePage | supabase/functions/blue-page/index.ts:13-107 | the handler's store, response and mail are the specified ones; a query error or no overdue task writes nothing |
| Responsiveness.InsertPermutes | supabase/functions/check-responsiveness/index.ts:44 | inserting adds the comment and loses none |
| Responsiveness.InsertKeepsSorted | supabase/functions/check-responsiveness/index.ts:44 | inserting into a time-ordered list keeps it time-ordered |
| Responsiveness.SortPermutes | supabase/functions/check-responsiveness/index.ts:44 | sorting is a permutation of the comments |
| Responsiveness.SortByTimeSorts | supabase/functions/check-responsiveness/index.ts:44 | sorting yields ascending creation times |
| Responsiveness.SortByTime | supabase/functions/check-responsiveness/index.ts:44 | the comments sorted by creation time |
| Responsiveness.InsertByTime | supabase/functions/check-responsiveness/index.ts:44 | one step of the stable sort: the comment goes after every earlier one not later than it |
| Responsiveness.WithRole | supabase/functions/check-responsiveness/index.ts:49 | the admin filter keeps exactly the comments of that role |
| Responsiveness.WithRoleKeepsSorted | supabase/functions/check-responsiveness/index.ts:49-53 | filtering a time-ordered list keeps it ordered, so its last element is the latest |
| Responsiveness.RepliesAfter | supabase/functions/check-responsiveness/index.ts:58-61 | the replies are exactly the employee comments strictly later than the admin time |
| Responsiveness.Decide | supabase/functions/check-responsiveness/index.ts:46-63 | on sorted comments: no flag without comments or admin comments; else flagged when the last admin comment is past two hours and no employee comment is strictly later |
| Responsiveness.Evaluate | supabase/functions/check-responsiveness/index.ts:44-63 | the decision on the comments sorted by time |
| Responsiveness.NonResponsive | supabase/functions/check-responsiveness/index.ts:44-63 | the order-free definition: the latest admin comment is past two hours and no employee comment is strictly later |
| Responsiveness.Unanswered | supabase/functions/check-responsiveness/index.ts:58-61 | no employee comment is strictly later than the given time |
| Responsiveness.IsLatestAdmin | supabase/functions/check-responsiveness/index.ts:49-53 | an administrator comment no other administrator comment is later than |
| Responsiveness.EvaluateImpliesNonResponsive | supabase/functions/check-responsiveness/index.ts:44-63 | a flagged task has a latest admin comment past the grace period with no employee comment strictly after it |
| Responsiveness.NonResponsiveImpliesEvaluate | supabase/functions/check-responsiveness/index.ts:44-63 | every such task is flagged |
| Responsiveness.EvaluateIsNonResponsive | supabase/functions/check-responsiveness/index.ts:44-63 | the sort, filter and last-element decision equals the order-independent definition |
| Responsiveness.NoCommentsNeverFlagged | supabase/functions/check-responsiveness/index.ts:46 | a task without comments is never flagged |
| Responsiveness.NoAdminCommentNeverFlagged | supabase/functions/check-responsiveness/index.ts:50 | a task no admin has commented on is never flagged |
| Responsiveness.WithinGraceNeverFlagged | supabase/functions/check-responsiveness/index.ts:39-56 | while any admin comment is at most two hours old, the task is not flagged |
| Responsiveness.SameInstantReplyDoesNotAnswer | supabase/functions/check-responsiveness/index.ts:58-63 | whenever the only employee reply to the latest, expired admin comment carries the same instant, the task is flagged |
| Responsiveness.LaterReplyAnswers | supabase/functions/check-responsiveness/index.ts:58-63 | an employee reply later than every admin comment prevents the flag, however old the query |
| Responsiveness.EvaluatorAndBannerDisagreeOnTies | supabase/functions/check-responsiveness/index.ts:58-61 | for every such tie the evaluator flags while the task page's banner (`LiveOverdue`, lines 41-43 of `app/task/[id]/page.tsx`) counts the reply as an answer and shows no banner |
| Responsiveness.NotDone | supabase/functions/check-responsiveness/index.ts:35 | the query returns exactly the tasks whose status is not `done` |
| Responsiveness.ReadingsOf | supabase/functions/check-responsiveness/index.ts:30-33 | the comment join succeeds exactly when every comment of the task has an author profile |
| Responsiveness.NonResponsiveTasks | supabase/functions/check-responsiveness/index.ts:42-65 | the flagged tasks are drawn from the scanned ones |
| Responsiveness.FlagsFor | supabase/functions/check-responsiveness/index.ts:65 | one entry per flagged task: its title and its assignee's name |
| Responsiveness.StepFlags | supabase/functions/check-responsiveness/index.ts:42-65 | a task that does not throw adds its entry exactly when it is non-responsive |
| Responsiveness.Step | supabase/functions/check-responsiveness/index.ts:43-90 | one task: a comment whose author has no profile throws (`c.profiles.role`, line 49); a non-responsive task is flagged and its assignee warned when mail is configured |
| Responsiveness.FlagFor | supabase/functions/check-responsiveness/index.ts:65 | the flagged entry: the task's title and the assignee's full name |
| Responsiveness.Fold | supabase/functions/check-responsiveness/index.ts:42-92 | the loop over the not-done tasks, in order |
| Responsiveness.CheckSpec | supabase/functions/check-responsiveness/index.ts:25-94 | a failed query answers with an error; otherwise the loop runs and a crash answers with an error |
| Responsiveness.FoldFlags | supabase/functions/check-responsiveness/index.ts:42-92 | a completed scan lists exactly the non-responsive tasks, in task order |
| Responsiveness.WarningFor | supabase/functions/check-responsiveness/index.ts:65-68 | a flagged task warns its assignee when the profile has an address |
| Responsiveness.WarningsFor | supabase/functions/check-responsiveness/index.ts:65-68 | at most one warning per task, in task order |
| Responsiveness.StepWarnings | supabase/functions/check-responsiveness/index.ts:63-68 | one task warns only non-empty addresses, never more than it flags; with a token and a sender, exactly its assignee's warning when flagged |
| Responsiveness.FoldWarnings | supabase/functions/check-responsiveness/index.ts:63-68 | warnings go only to non-empty addresses, never more than the flags; with a token and a sender, exactly one per non-responsive task whose assignee has an address; none without them |
| Responsiveness.ReportListsNonResponsiveTasks | supabase/functions/check-responsiveness/index.ts:94 | the response lists exactly the not-done tasks that are non-responsive |
| Responsiveness.ReportWarnsAssignees | supabase/functions/check-responsiveness/index.ts:63-94 | with a token and a sender, a reported run warns exactly the assignees with an address of the non-responsive not-done tasks |
| Responsiveness.DoneTasksNeverFlagged | supabase/functions/check-responsiveness/index.ts:35 | a task whose status is `done` is never flagged |
| Responsiveness.FoldCrashedStays | supabase/functions/check-responsiveness/index.ts:42-92 | once the loop has thrown, the later tasks are not looked at |
| Responsiveness.ScanTask | supabase/functions/check-responsiveness/index.ts:43-90 | the loop body performs exactly one step of the scan's specification |
| Responsiveness.CheckResponsiveness | supabase/functions/check-responsiveness/index.ts:25-94 | the evaluator's response and warnings are the specified ones |
| TaskActions.PostCommentFailureWritesNothing | actions/task-actions.ts:32-45 | without a session the action throws `Unauthorized`; a failed insert rethrows; otherwise it returns normally whatever the role read and the timestamp update did; a throw writes nothing |
| TaskActions.PostCommentAdvancesOneTimestamp | actions/task-actions.ts:36-53 | one comment with the uploaded URLs is appended; unless the timestamp update fails, the task advances the admin timestamp exactly when the role read succeeded and said `admin`, else the employee one; nothing else changes |
| TaskActions.PostComment | actions/task-actions.ts:6-56 | the action on the store, with every store call's outcome given, does exactly what its specification says |
| TaskActions.PostCommentSpec | actions/task-actions.ts:32-53 | no session throws; a failed insert throws; else the comment is appended and the task timestamp advanced unless that update fails |
| TaskActions.Stamp | actions/task-actions.ts:48-53 | an administrator's comment advances `last_admin_comment_at`, any other `last_employee_reply_at`; nothing else of the task changes |
| TaskActions.AuthorIsAdmin | actions/task-actions.ts:36-49 | `profile?.role === "admin"`: the author's row was read and its role is `admin` |
| TaskActions.SetStatusTouchesOnlyStatus | actions/task-actions.ts:60 | only the status of that task's rows changes, to the given value |
| TaskActions.SetStatusIdempotent | actions/task-actions.ts:60 | setting the same status twice is setting it once |
| TaskActions.DoneTaskLeavesDeadlineBatch | actions/task-actions.ts:60 | a task moved to `done` is never selected by the deadline batch |
| TaskActions.SetStatus | actions/task-actions.ts:60 | the update writes the status on the rows with the id |
| TaskActions.UpdateTaskStatus | actions/task-actions.ts:58-62 | the task rows get the new status, or stay as they were when the update fails; no other table changes |
| AdminActions.NoticeTo | actions/admin-actions.ts:25-28 | a mail is sent exactly when the profile has an address, named by the full name or `Agent` |
| AdminActions.ApproveSpec | actions/admin-actions.ts:11-28 | no session or a failed update throws; else the profile is activated and mailed |
| AdminActions.Activate | actions/admin-actions.ts:15-17 | approval sets the status to `active` and nothing else |
| AdminActions.ApproveActivatesExactlyTheProfile | actions/admin-actions.ts:15-22 | a successful approval sets `active` on exactly the rows with the id, and such a row exists; nothing else changes |
| AdminActions.ApproveFailureWritesNothing | actions/admin-actions.ts:11-22 | approval succeeds exactly when there is a session, the update does not fail and a row has the id; otherwise it throws `Unauthorized` or the store error, writes nothing and mails nobody |
| AdminActions.ApproveIdempotent | actions/admin-actions.ts:15-22 | approving again changes nothing more |
| AdminActions.ApproveUser | actions/admin-actions.ts:7-44 | the action on the store, given the update's outcome, does exactly what its specification says |
| AdminActions.RejectRemovesOnlyTheProfile | actions/admin-actions.ts:53 | rejection removes the rows with the id and keeps every other row, in order, and every other table |
| AdminActions.DeleteIsKeepOthers | actions/admin-actions.ts:53 | the delete equals an independent filter over the rows |
| AdminActions.RejectFailureWritesNothing | actions/admin-actions.ts:50-54 | without a session, or when the delete fails, nothing changes and the right error is thrown |
| AdminActions.RejectUser | actions/admin-actions.ts:46-57 | the action on the store does exactly what its specification says |
| AdminActions.RejectSpec | actions/admin-actions.ts:50-54 | no session or a failed delete throws; else the rows with the id are deleted |
| AdminActions.CreatedTaskStartsTodo | actions/admin-actions.ts:87-94 | a created task is appended as `todo`, unflagged, with no comment timestamps and the uploaded URLs |
| AdminActions.CreateTaskFailureNotifiesNobody | actions/admin-actions.ts:96 | a failed insert writes nothing and mails nobody |
| AdminActions.CreateTask | actions/admin-actions.ts:59-120 | the action on the store does exactly what its specification says, including the ignored assignee read |
| AdminActions.CreateTaskSpec | actions/admin-actions.ts:87-120 | a failed insert throws; else the task is appended, and its assignee mailed unless the assignee read fails or finds no address |
| AdminActions.HasTask | actions/admin-actions.ts:87-97 | a task row with the id exists, which makes the insert fail |
| AdminActions.AddresseeName | actions/admin-actions.ts:103 | a mail is addressed to the full name, or `Agent` when there is none |
| AdminActions.NewTask | actions/admin-actions.ts:87-94 | the inserted row: the given title, description, assignee, deadline and URLs, status `todo`, no comment timestamps, not penalised |
| AdminActions.CreateTaskMailsTheAssignee | actions/admin-actions.ts:87-107 | the action succeeds iff the insert does and the id is new; a notice goes out iff it succeeded, the assignee read did not fail and the row has an address, and it is addressed to that row with the task's title; a failed read still creates the task |
| AdminPage.ReduceIsSum | app/admin/page.tsx:56 | the reduce adds every row's total to the accumulator, a missing total as zero |
| AdminPage.TotalPenaltiesIsLedgerSum | app/admin/page.tsx:55-56 | the headline total is the ledger's sum, and 0 when the rows are absent or empty |
| AdminPage.ReducePenalties | app/admin/page.tsx:56 | the `reduce` over the rows, a missing total counting as zero |
| AdminPage.TotalPenalties | app/admin/page.tsx:56 | the headline total: the sum over the rows read, or 0 when the read returns no rows |
| AdminPage.TotalAfterBatch | app/admin/page.tsx:55-56 | when no read of a total fails, after a reported deadline batch the headline total has grown by 2000 per task whose total update succeeded |
| AdminPage.DirectoryList | app/admin/page.tsx:37-41 | the directory holds exactly the employees that are active or on hold |
| AdminPage.PendingList | app/admin/page.tsx:46-50 | the pending list holds exactly the employees awaiting approval |
| AdminPage.ListsAreDisjoint | app/admin/page.tsx:37-50 | no profile is in both lists, and the two counts add up to at most the table |
| AdminPage.ActivationCounts | app/admin/page.tsx:37-50 | activating a pending employee adds one to the directory count and removes one from the pending count |
| AdminPage.ApprovalMovesToDirectory | app/admin/page.tsx:37-50 | an approval of a pending employee succeeds, the activated row enters the directory and leaves the pending list, every other profile keeps its place in both, and the counts move by one |
| AdminPage.Overview.FetchStats | app/admin/page.tsx:31-73 | each read sets its list and figure; a failed list read keeps the list shown and shows 0 |
| AdminPage.AssigneeLabel | app/admin/page.tsx:300 | the label is the first directory match's name, or `Unknown` |
| AdminPage.AssigneeOutsideDirectoryIsUnknown | app/admin/page.tsx:300 | an assignee outside the directory is labelled `Unknown` |
| AdminPage.InProgressLabel | app/admin/page.tsx:307 | the `in_progress` badge reads `in progress` |
| AdminPage.StatusLabels | app/admin/page.tsx:307 | the `todo` and `done` badges read as the status itself |
| AdminPage.StatusLabel | app/admin/page.tsx:307 | a status badge: the status with its first `_` turned into a space |
| KanbanBoard.ColumnTasks | components/dashboard/kanban-board.tsx:16 | a column lists exactly the tasks of its status |
| KanbanBoard.BadgesCountEveryTaskOnce | components/dashboard/kanban-board.tsx:6-23 | the three badges plus the off-board tasks count every task exactly once |
| KanbanBoard.OffBoardTasksAreHidden | components/dashboard/kanban-board.tsx:16 | a task of another status appears in no column |
| KanbanBoard.ColumnsAreDisjoint | components/dashboard/kanban-board.tsx:16 | a task is listed in at most one column |
| KanbanBoard.EmptyPlaceholder | components/dashboard/kanban-board.tsx:28-33 | the placeholder shows exactly when no task has the column's status |
| KanbanBoard.ShortId | components/dashboard/kanban-board.tsx:48 | the chip is the id's prefix of length `min(4, length)` |
| KanbanBoard.RedDeadline | components/dashboard/kanban-board.tsx:61-62 | a deadline is red when it has passed and the task is not done |
| KanbanBoard.OnBoard | components/dashboard/kanban-board.tsx:6-10 | a status the board has a column for: `todo`, `in_progress` or `done` |
| KanbanBoard.RedDeadlineIsOverdue | components/dashboard/kanban-board.tsx:62 | every task the deadline batch would select is shown red; a red task is overdue or already flagged |
| KanbanBoard.DoneIsNeverRed | components/dashboard/kanban-board.tsx:62 | a `done` task is never red and sits in the Done column |
| ActiveDirectory.Filtered | components/admin/active-directory.tsx:9-12 | the cards are exactly the employees that match the term |
| ActiveDirectory.Matches | components/admin/active-directory.tsx:10-11 | the lower-cased name or id contains the lower-cased term |
| ActiveDirectory.AllMatchKeepsAll | components/admin/active-directory.tsx:9-12 | a term every employee matches keeps the whole list, in order |
| ActiveDirectory.EmptyTermListsNamedEmployees | components/admin/active-directory.tsx:9-12 | an empty box lists every employee with a name or an id |
| ActiveDirectory.UnnamedEmployeeNeverListed | components/admin/active-directory.tsx:10-11 | an employee with neither name nor id is never listed |
| ActiveDirectory.TermCaseIgnored | components/admin/active-directory.tsx:10-11 | the search ignores the case of the term |
| ActiveDirectory.LongerTermNarrows | components/admin/active-directory.tsx:9-12 | typing more only narrows the list |
| ActiveDirectory.EmptyNotice | components/admin/active-directory.tsx:70 | the no-records notice shows exactly when nobody matches |
| ActiveDirectory.Placeholder | components/admin/active-directory.tsx:33 | the placeholder is the id's last two characters, and absent without an id |
| ActiveDirectory.ShownPenalty | components/admin/active-directory.tsx:47 | the card shows the total, and 0 when the profile has none |
| Dashboard.Visit | app/dashboard/page.tsx:4-42 | the page on the store does exactly what its specification says, a failed profile read included |
| Dashboard.DashboardSpec | app/dashboard/page.tsx:4-42 | no session goes home; a failed or empty profile read shows the error; an administrator goes to the overview; an employee without a slug gets one written; then the board |
| Dashboard.SlugFor | app/dashboard/page.tsx:36 | the lower-cased full name with white space runs turned into `-`, then `-` and the employee id |
| Dashboard.OnlyAMissingSlugIsWritten | app/dashboard/page.tsx:32-40 | the page writes only the slug of an employee without one, and only that row |
| Dashboard.SessionAndRoleRoute | app/dashboard/page.tsx:7-25 | no session goes home; with a session the error is shown iff the read fails or finds no row; an administrator goes to the overview; none of these writes |
| Dashboard.SlugIsNeverEmpty | app/dashboard/page.tsx:36 | a generated slug is never empty |
| Dashboard.StoredSlugIsVisited | app/dashboard/page.tsx:39-40 | after the write, the visitor's row holds the slug redirected to |
| Dashboard.SecondVisitIsStable | app/dashboard/page.tsx:32-33 | a second visit goes to the same board and writes nothing |
| Dashboard.NameRunsHaveNoCapital | app/dashboard/page.tsx:36 | the name part of a slug holds no upper-case ASCII letter |
| Dashboard.SlugShape | app/dashboard/page.tsx:36 | a slug has no upper-case ASCII letter, and its name part no white space |
| Dashboard.MissingFieldsRenderUndefined | app/dashboard/page.tsx:36 | a missing name or id is rendered as `undefined` in the slug |
| EmailComposer.SanitizePrefix | components/admin/email-composer.tsx:228 | the prefix keeps exactly its allowed characters, and an allowed input is unchanged |
| EmailComposer.SanitizeIdempotent | components/admin/email-composer.tsx:228 | sanitising twice is sanitising once |
| EmailComposer.SenderStaysOnTheDomain | components/admin/email-composer.tsx:27-28 | the sender address has exactly one `@`, the one of the fixed domain |
| EmailComposer.RemoveAt | components/admin/email-composer.tsx:67-69 | removing an attachment drops that one and keeps the others in order; a bad index changes nothing |
| EmailComposer.RemoveAtKeepsOthers | components/admin/email-composer.tsx:67-69 | the removed attachment and the rest together are the old list |
| EmailComposer.UploadSucceedsWhenAllUpload | components/admin/email-composer.tsx:71-92 | the uploads succeed when no upload fails |
| EmailComposer.UploadFailsWhenOneFails | components/admin/email-composer.tsx:79-83 | one failed upload makes the uploads fail |
| EmailComposer.UploadSucceeds | components/admin/email-composer.tsx:71-92 | the uploads succeed exactly when every upload does |
| EmailComposer.UploadedUrlsInOrder | components/admin/email-composer.tsx:85-89 | successful uploads give one URL per attachment, in order |
| EmailComposer.UploadFailureNamesFirst | components/admin/email-composer.tsx:82 | a failure reports the first attachment whose upload failed |
| EmailComposer.UploadAttachments | components/admin/email-composer.tsx:71-92 | the loop returns exactly the specified URLs or error |
| EmailComposer.UploadSpec | components/admin/email-composer.tsx:71-92 | every attachment uploaded in order; the first failed upload aborts with its reason |
| EmailComposer.FullFromEmail | components/admin/email-composer.tsx:27-28 | the sender address is the typed prefix followed by `@postman.ibbe.in` |
| EmailComposer.SendSpec | components/admin/email-composer.tsx:121-150 | the send step invokes the edge function with the request and settles the form on its answer |
| EmailComposer.RequestOf | components/admin/email-composer.tsx:121-130 | the request body: recipient name and address, sender name, the full sender address, subject and the final HTML |
| EmailComposer.UploadStep | components/admin/email-composer.tsx:101-106 | a submit uploads only when there are attachments; with none it proceeds with no URLs |
| EmailComposer.Uploads | components/admin/email-composer.tsx:73-80 | an attachment's upload goes through when the bucket accepts its stamped object name |
| EmailComposer.ObjectName | components/admin/email-composer.tsx:73 | the bucket object name of an attachment: the stamp, `-`, then the file name as given |
| EmailComposer.UploadAbortsAt | components/admin/email-composer.tsx:82 | a failure among the first attachments is the failure of the whole loop |
| EmailComposer.LinkLabel | components/admin/email-composer.tsx:114 | the link text is the attachment's name at that index, else `Attachment <index+1>` |
| EmailComposer.ListItems | components/admin/email-composer.tsx:113-116 | one list item per URL, labelled by the attachment at the same index |
| EmailComposer.ConcatInOrder | components/admin/email-composer.tsx:113-116 | each item follows the items before it in the joined text |
| EmailComposer.FinalHtmlShape | components/admin/email-composer.tsx:110-118 | without URLs the body is sent as it is; with them the body and header lead, each item appears in order, and `</ul>` closes the text |
| EmailComposer.BuildFinalHtml | components/admin/email-composer.tsx:110-118 | the appending code builds exactly the specified HTML |
| EmailComposer.FinalHtml | components/admin/email-composer.tsx:110-118 | the body, then when there are URLs the header and one linked item per URL, closed by `</ul>` |
| EmailComposer.AppendItems | components/admin/email-composer.tsx:113-116 | the item loop appends exactly the joined items |
| EmailComposer.SubmitAfterUploads | components/admin/email-composer.tsx:102-107 | after the uploads, a submit is the send step on the form holding every URL |
| EmailComposer.SubmitSpec | components/admin/email-composer.tsx:94-167 | a failed upload shows its error; otherwise the URLs join those of earlier attempts and the mail is sent |
| EmailComposer.Settle | components/admin/email-composer.tsx:132-163 | an invocation error or an unsuccessful result shows its error; success resets the message and keeps the sender |
| EmailComposer.SendDisabled | components/admin/email-composer.tsx:302 | the button is disabled while sending or while the recipient or the subject is empty |
| EmailComposer.SendSpecIgnoresFlags | components/admin/email-composer.tsx:96-98 | the send step neither reads nor keeps the flags it starts from |
| EmailComposer.SendFailureKeepsTheForm | components/admin/email-composer.tsx:151-163 | a failed send changes only the flags and a non-empty error |
| EmailComposer.SuccessResetsMessageKeepsSender | components/admin/email-composer.tsx:140-147 | success resets recipient, subject, body and attachments and keeps the sender |
| EmailComposer.FailureKeepsTheDraft | components/admin/email-composer.tsx:151-163 | a failed submit keeps the message and shows a non-empty error; after a failed upload nothing is sent, no URL is added and the upload's error is the one shown |
| EmailComposer.Shown | components/admin/email-composer.tsx:151-163 | the text shown for a caught error: its message when non-empty, else `{}`, what `JSON.stringify` gives for an error object without message or `error` field |
| EmailComposer.RetryListsAttachmentsTwice | components/admin/email-composer.tsx:102-106 | a retry after a failed send uploads again and lists each attachment's links twice |
| EmailComposer.Composer.SetFromEmailPrefix | components/admin/email-composer.tsx:228 | the prefix field stores the sanitised input |
| EmailComposer.Composer.AddFiles | components/admin/email-composer.tsx:61-65 | chosen files are appended after the listed ones |
| EmailComposer.Composer.RemoveAttachment | components/admin/email-composer.tsx:67-69 | the attachment at the index is removed |
| EmailComposer.Composer.InsertHtml | components/admin/email-composer.tsx:170-172 | a sample element is appended to the body on a new line |
| EmailComposer.Composer.Submit | components/admin/email-composer.tsx:94-167 | the submit handler's new form and request are the specified ones |
| EmailComposer.Composer.Send | components/admin/email-composer.tsx:109-163 | the part after the uploads does exactly the send step |
| EmailComposer.Composer.BuildRequest | components/admin/email-composer.tsx:121-130 | the request carries the form's fields, the full sender address and the final HTML |
| SendAdminMail.MissingFieldsAreRefused | app/api/send-admin-mail/route.ts:10-15 | a request without recipient, subject or HTML is a 400 and sends nothing |
| SendAdminMail.RecipientNameDefaultsToAddress | app/api/send-admin-mail/route.ts:17-24 | the wrapper receives the recipient's name, else the address |
| SendAdminMail.SendErrorTextPrecedence | app/api/send-admin-mail/route.ts:28-35 | the error text is a string error, else its message, else the error as JSON, else the default |
| SendAdminMail.SendErrorText | app/api/send-admin-mail/route.ts:28-35 | the error text of a failed send: a string error, else its message, else the error as JSON, else `Failed to send email` |
| SendAdminMail.ReplyFollowsTheWrapper | app/api/send-admin-mail/route.ts:26-44 | the reply succeeds (status 200) exactly when the wrapper's request went out and was accepted |
| SendAdminMail.UnreadableRequest | app/api/send-admin-mail/route.ts:45-51 | an unreadable request is a 500 with the thrown message or `Internal Server Error` |
| SendAdminMail.ThrownReply | app/api/send-admin-mail/route.ts:45-51 | the reply to a thrown error: 500, not ok, with the error's message or `Internal Server Error` |
| SendAdminMail.FailedReplyIsExplained | app/api/send-admin-mail/route.ts:26-51 | every failing reply carries a non-empty error text |
| SendAdminMail.Post | app/api/send-admin-mail/route.ts:5-53 | the route validates the body, calls the wrapper and answers with its outcome, or 500 on an unreadable request |
| Zepto.ReadErrorText | utils/zepto.ts:56-71 | the nested handlers build exactly the specified error text |
| Zepto.HttpErrorText | utils/zepto.ts:56-71 | the error text of a refused request, from the body's `message`, `error` or JSON, or the raw text |
| Zepto.HttpErrorTextPrecedence | utils/zepto.ts:58-67 | the error text is the body's `message`, else `error`, else the body as JSON; unparsable text as it is; `HTTP <status>: <text>` without a body |
| Zepto.ConfigurationChecks | utils/zepto.ts:21-29 | a missing key is reported first, then a missing sender; a request goes out exactly when both are present |
| Zepto.SenderDefaults | utils/zepto.ts:38-52 | the sender is the given address or the default one, never empty, named by the given name or `IBBE Operations` |
| Zepto.SuccessMeansAccepted | utils/zepto.ts:56-76 | success exactly when a request went out and the provider answered OK |
| Zepto.FailureIsExplained | utils/zepto.ts:56-79 | every failure carries a truthy error |
| Zepto.SendEmail | utils/zepto.ts:2-81 | the key and sender checks, then one request whose answer decides success |

## Left out

- PDF generation and storage in the deadline batch: only the stored record's public URL is
  modelled, as a function of the task id, and whether drawing the record text throws, as a
  predicate on the task id (`Env.recordThrows`). The record's layout and the font's character
  set are not modelled. The upload's result is ignored by the code as well.
- Mail bodies, subjects and headers: a notice records its recipient, name and task. Whether a
  request goes out, and whether it rejects, is modelled; the HTTP exchange with the provider is a
  parameter.
- Date parsing and formatting: timestamps are milliseconds as integers, and `toLocaleString`
  renderings are not modelled.
- Authentication and row-level security: a session is an optional user id.
- `revalidatePath`, redirects and rendered markup: a page is the route it leads to.
- Concurrency: the batches, the actions and the pages run one at a time, never interleaved.
- Case folding covers ASCII letters only; JavaScript's full Unicode `toLowerCase` is not modelled.
- `.single()` on several rows of one id: modelled as the first matching row.
  `FindProfile` is exact when `id` is a key.
- Column defaults of the inserted rows (`created_at`, generated ids) are parameters. So are the
  clock, the storage bucket and `JSON.parse` / `JSON.stringify`.
- Zepto.FailureIsExplained: proved only when `JSON.stringify` never yields the empty string.
- SendAdminMail.FailedReplyIsExplained: proved only when `JSON.stringify` never yields the empty
  string.
- The administrator overview's task list, its `created_at` ordering, the current user's e-mail and
  the loading spinner are not modelled.
- The composer's live preview, its `localStorage` draft persistence and the photo URLs of the
  directory cards are not modelled.
- BluePage.FoldSumPenalties: the sum of the totals is stated only for runs where no read of a
  total fails; after a failed read the assignee's total is reset, as `BluePage.FoldProfiles` and
  `BluePage.TotalAfterReadFailure` state, and the sum then depends on the lost value.
- BluePage.ReportedRunRaisesLedgerTotal: stated only for runs where no read of a total fails, for
  the same reason.
- AdminPage.TotalAfterBatch: stated only for runs where no read of a total fails, for the same
  reason.
- ActiveDirectory.ShownPenalty: the figure is the number itself; the `toLocaleString` digit
  grouping and the currency sign are not modelled.
- Floating-point numbers do not occur in the modelled code.
- Mutation of the store by other clients between a batch's query and its writes is not modelled:
  the batch sees its own writes only.
