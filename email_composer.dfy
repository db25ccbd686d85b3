/** The administrator's mail composer: a form with a sanitised sender prefix
    on a fixed domain, a list of attachments, and a submit that uploads the
    attachments, appends a list of their links to the HTML body, sends the mail
    through the edge function and, on success, clears the message but keeps
    the sender. */
module EmailComposer {
  import opened Wrappers
  import Text
  import opened JsValues
  import opened Attachments

  const EMAIL_DOMAIN: string := "@postman.ibbe.in"
  const DEFAULT_FROM_NAME: string := "IBBE Operations"
  const DEFAULT_PREFIX: string := "updates"
  const DEFAULT_BODY: string := "<h1>Hello</h1><p>Write your message here...</p>"
  const ATTACHMENTS_HEADER: string := "<br/><hr/><p><strong>Attachments:</strong></p><ul>"
  const EDGE_FUNCTION_ERROR: string := "Edge function error"
  const SEND_FAILED: string := "Failed to send email"

  // ---------------------------------------------------------------------------
  // The sender address.

  /** A character the sender prefix may hold: `[a-zA-Z0-9._-]`. */
  predicate PrefixChar(c: char) {
    ('a' <= c <= 'z') || ('A' <= c <= 'Z') || ('0' <= c <= '9') || c == '.' || c == '_' || c == '-'
  }

  /** The prefix field's input with every other character removed, the rest in order. */
  function SanitizePrefix(s: string): (r: string)
    ensures forall i :: 0 <= i < |r| ==> PrefixChar(r[i])
    ensures forall c :: c in r <==> c in s && PrefixChar(c)
    ensures (forall i :: 0 <= i < |s| ==> PrefixChar(s[i])) ==> r == s
  {
    if s == [] then []
    else
      var n := |s| - 1;
      assert s == s[..n] + [s[n]];
      SanitizePrefix(s[..n]) + (if PrefixChar(s[n]) then [s[n]] else [])
  }

  /** Sanitising what was already sanitised changes nothing. */
  lemma SanitizeIdempotent(s: string)
    ensures SanitizePrefix(SanitizePrefix(s)) == SanitizePrefix(s)
  {
  }

  function FullFromEmail(prefix: string): string {
    prefix + EMAIL_DOMAIN
  }

  /** Whatever is typed, the sender address has exactly one `@`, the one that starts the fixed domain. */
  lemma SenderStaysOnTheDomain(input: string)
    ensures var prefix := SanitizePrefix(input);
      var address := FullFromEmail(prefix);
      address[|prefix|..] == EMAIL_DOMAIN &&
      forall i :: 0 <= i < |address| && address[i] == '@' ==> i == |prefix|
  {
    var prefix := SanitizePrefix(input);
    var address := FullFromEmail(prefix);
    var host := "postman.ibbe.in";
    assert EMAIL_DOMAIN == ['@'] + host;
    assert !PrefixChar('@');
    assert '@' !in prefix;
    assert '@' !in host;
    assert address == prefix + ['@'] + host;
    forall i | 0 <= i < |address| ensures address[i] == '@' ==> i == |prefix| {
      if i < |prefix| {
        assert address[i] == prefix[i];
      } else if i > |prefix| {
        assert address[i] == host[i - |prefix| - 1];
      }
    }
  }

  // ---------------------------------------------------------------------------
  // The attachment list.

  /** Removing the attachment at `index`: that element goes, the rest keep their order; an index
      outside the list removes nothing. */
  function RemoveAt<T>(s: seq<T>, index: int): (r: seq<T>)
    ensures 0 <= index < |s| ==> |r| == |s| - 1
    ensures 0 <= index < |s| ==> forall j :: 0 <= j < index ==> r[j] == s[j]
    ensures 0 <= index < |s| ==> forall j :: index <= j < |r| ==> r[j] == s[j + 1]
    ensures !(0 <= index < |s|) ==> r == s
  {
    if 0 <= index < |s| then s[..index] + s[index + 1..] else s
  }

  /** Removing one attachment keeps every other one, in the same multiset. */
  lemma RemoveAtKeepsOthers<T>(s: seq<T>, index: int)
    requires 0 <= index < |s|
    ensures multiset(RemoveAt(s, index)) + multiset{s[index]} == multiset(s)
  {
    assert s == s[..index] + [s[index]] + s[index + 1..];
  }

  // ---------------------------------------------------------------------------
  // Uploading the attachments.

  /** The object name of the `i`-th attachment: the clock reading, `-`, and the file's name as it is. */
  function ObjectName(f: File, stamp: int): string {
    Text.IntToString(stamp) + "-" + f.name
  }

  /** The upload of attachment `f` at clock reading `stamp` goes through. */
  predicate Uploads(f: File, stamp: int, bucket: Bucket) {
    !bucket.uploadFails(ObjectName(f, stamp))
  }

  /** The upload loop: every attachment, empty or not, in order; the first failed upload aborts with
      `Failed to upload <name>: <reason>`. */
  function UploadSpec(files: seq<File>, clock: nat -> int, bucket: Bucket, reason: string -> string): Result<seq<string>, string> {
    if files == [] then Success([])
    else
      var n := |files| - 1;
      match UploadSpec(files[..n], clock, bucket, reason)
      case Failure(e) => Failure(e)
      case Success(urls) =>
        if !Uploads(files[n], clock(n), bucket) then
          Failure("Failed to upload " + files[n].name + ": " + reason(ObjectName(files[n], clock(n))))
        else Success(urls + [bucket.publicUrl(ObjectName(files[n], clock(n)))])
  }

  /** The uploads succeed when no attachment's upload fails. */
  lemma {:induction false} UploadSucceedsWhenAllUpload(files: seq<File>, clock: nat -> int, bucket: Bucket,
                                                       reason: string -> string)
    requires forall i :: 0 <= i < |files| ==> Uploads(files[i], clock(i), bucket)
    ensures UploadSpec(files, clock, bucket, reason).Success?
  {
    if files != [] {
      var n := |files| - 1;
      forall i | 0 <= i < n ensures Uploads(files[..n][i], clock(i), bucket) {
        assert files[..n][i] == files[i];
      }
      UploadSucceedsWhenAllUpload(files[..n], clock, bucket, reason);
    }
  }

  /** One attachment whose upload fails makes the uploads fail. */
  lemma {:induction false} UploadFailsWhenOneFails(files: seq<File>, clock: nat -> int, bucket: Bucket,
                                                   reason: string -> string, k: nat)
    requires k < |files| && !Uploads(files[k], clock(k), bucket)
    ensures UploadSpec(files, clock, bucket, reason).Failure?
  {
    var n := |files| - 1;
    if k < n {
      assert files[..n][k] == files[k];
      UploadFailsWhenOneFails(files[..n], clock, bucket, reason, k);
    }
  }

  /** The uploads succeed exactly when no attachment's upload fails. */
  lemma UploadSucceeds(files: seq<File>, clock: nat -> int, bucket: Bucket, reason: string -> string)
    ensures UploadSpec(files, clock, bucket, reason).Success? <==>
      forall i :: 0 <= i < |files| ==> Uploads(files[i], clock(i), bucket)
  {
    if forall i :: 0 <= i < |files| ==> Uploads(files[i], clock(i), bucket) {
      UploadSucceedsWhenAllUpload(files, clock, bucket, reason);
    } else {
      var k :| 0 <= k < |files| && !Uploads(files[k], clock(k), bucket);
      UploadFailsWhenOneFails(files, clock, bucket, reason, k);
    }
  }

  /** Successful uploads give one URL per attachment, in order. */
  lemma {:induction false} UploadedUrlsInOrder(files: seq<File>, clock: nat -> int, bucket: Bucket, reason: string -> string)
    requires UploadSpec(files, clock, bucket, reason).Success?
    ensures var urls := UploadSpec(files, clock, bucket, reason).value;
      |urls| == |files| && forall i :: 0 <= i < |files| ==> urls[i] == bucket.publicUrl(ObjectName(files[i], clock(i)))
  {
    if files != [] {
      var n := |files| - 1;
      UploadedUrlsInOrder(files[..n], clock, bucket, reason);
      var before := UploadSpec(files[..n], clock, bucket, reason).value;
      var urls := UploadSpec(files, clock, bucket, reason).value;
      assert urls == before + [bucket.publicUrl(ObjectName(files[n], clock(n)))];
      forall i | 0 <= i < n ensures urls[i] == bucket.publicUrl(ObjectName(files[i], clock(i))) {
        assert urls[i] == before[i] && files[..n][i] == files[i];
      }
    }
  }

  /** A failed upload run reports the first attachment whose upload failed. */
  lemma {:induction false} UploadFailureNamesFirst(files: seq<File>, clock: nat -> int, bucket: Bucket, reason: string -> string)
    requires UploadSpec(files, clock, bucket, reason).Failure?
    ensures exists k ::
      0 <= k < |files| && !Uploads(files[k], clock(k), bucket) &&
      (forall i :: 0 <= i < k ==> Uploads(files[i], clock(i), bucket)) &&
      UploadSpec(files, clock, bucket, reason).error ==
        "Failed to upload " + files[k].name + ": " + reason(ObjectName(files[k], clock(k)))
  {
    var n := |files| - 1;
    assert forall i :: 0 <= i < n ==> files[..n][i] == files[i];
    if UploadSpec(files[..n], clock, bucket, reason).Failure? {
      UploadFailureNamesFirst(files[..n], clock, bucket, reason);
    } else {
      assert !Uploads(files[n], clock(n), bucket);
      forall i | 0 <= i < n ensures Uploads(files[i], clock(i), bucket) {
        if !Uploads(files[i], clock(i), bucket) {
          UploadFailsWhenOneFails(files[..n], clock, bucket, reason, i);
        }
      }
    }
  }

  /** The loop as the composer runs it. */
  method UploadAttachments(files: seq<File>, clock: nat -> int, bucket: Bucket, reason: string -> string)
    returns (r: Result<seq<string>, string>)
    ensures r == UploadSpec(files, clock, bucket, reason)
  {
    var urls := [];
    var i := 0;
    while i < |files|
      invariant 0 <= i <= |files|
      invariant UploadSpec(files[..i], clock, bucket, reason) == Success(urls)
    {
      assert files[..i + 1][..i] == files[..i];
      var fileName := Text.IntToString(clock(i)) + "-" + files[i].name;
      assert fileName == ObjectName(files[i], clock(i));
      if bucket.uploadFails(fileName) {
        UploadAbortsAt(files, clock, bucket, reason, i + 1);
        return Failure("Failed to upload " + files[i].name + ": " + reason(fileName));
      }
      urls := urls + [bucket.publicUrl(fileName)];
      i := i + 1;
    }
    assert files[..i] == files;
    r := Success(urls);
  }

  /** A failure in the first `k` attachments is the failure of the whole loop. */
  lemma {:induction false} UploadAbortsAt(files: seq<File>, clock: nat -> int, bucket: Bucket, reason: string -> string, k: nat)
    requires k <= |files|
    requires UploadSpec(files[..k], clock, bucket, reason).Failure?
    ensures UploadSpec(files, clock, bucket, reason) == UploadSpec(files[..k], clock, bucket, reason)
    decreases |files| - k
  {
    if k < |files| {
      assert files[..k + 1][..k] == files[..k];
      UploadAbortsAt(files, clock, bucket, reason, k + 1);
    } else {
      assert files[..k] == files;
    }
  }

  // ---------------------------------------------------------------------------
  // The final HTML.

  /** The link text of the `index`-th URL: the name of the attachment at that index, or
      `Attachment <index + 1>` when there is none there or its name is empty. */
  function LinkLabel(files: seq<File>, index: nat): (r: string)
    ensures index < |files| && files[index].name != "" ==> r == files[index].name
    ensures !(index < |files| && files[index].name != "") ==> r == "Attachment " + Text.NatToString(index + 1)
  {
    if index < |files| && files[index].name != "" then files[index].name else "Attachment " + Text.NatToString(index + 1)
  }

  /** One entry of the attachment list. */
  function Item(url: string, text: string): string {
    "<li><a href=\"" + url + "\">" + text + "</a></li>"
  }

  /** The entries of the list: one per URL, labelled by the attachment at the same index. */
  function ListItems(urls: seq<string>, files: seq<File>): (r: seq<string>)
    ensures |r| == |urls|
    ensures forall i :: 0 <= i < |urls| ==> r[i] == Item(urls[i], LinkLabel(files, i))
  {
    seq(|urls|, i requires 0 <= i < |urls| => Item(urls[i], LinkLabel(files, i)))
  }

  /** The pieces joined in order. */
  function Concat(pieces: seq<string>): string {
    if pieces == [] then "" else Concat(pieces[..|pieces| - 1]) + pieces[|pieces| - 1]
  }

  /** Each piece follows the pieces before it in the joined text. */
  lemma {:induction false} ConcatInOrder(pieces: seq<string>, i: nat)
    requires i < |pieces|
    ensures Concat(pieces[..i]) + pieces[i] <= Concat(pieces)
  {
    var n := |pieces| - 1;
    if i < n {
      ConcatInOrder(pieces[..n], i);
      assert pieces[..n][..i] == pieces[..i];
    } else {
      assert pieces[..n] == pieces[..i];
    }
  }

  lemma ConcatStep(pieces: seq<string>, i: nat)
    requires i < |pieces|
    ensures Concat(pieces[..i + 1]) == Concat(pieces[..i]) + pieces[i]
  {
    assert pieces[..i + 1][..i] == pieces[..i];
  }

  lemma AppendAssociates(a: string, b: string, c: string)
    ensures (a + b) + c == a + (b + c)
  {
  }

  /** The HTML sent: the body as it is when there are no URLs; otherwise the body, the header, one
      list item per URL and the closing tag. */
  function FinalHtml(body: string, urls: seq<string>, files: seq<File>): string {
    if urls == [] then body else body + ATTACHMENTS_HEADER + Concat(ListItems(urls, files)) + "</ul>"
  }

  /** Without URLs the body goes out unchanged; with them the body is kept in front, every URL's entry
      comes after the entries of the URLs before it, and the list is closed. */
  lemma FinalHtmlShape(body: string, urls: seq<string>, files: seq<File>)
    ensures urls == [] ==> FinalHtml(body, urls, files) == body
    ensures urls != [] ==> body + ATTACHMENTS_HEADER <= FinalHtml(body, urls, files)
    ensures urls != [] ==> var html := FinalHtml(body, urls, files); html[|html| - 5..] == "</ul>"
    ensures forall i :: 0 <= i < |urls| ==>
      body + ATTACHMENTS_HEADER + Concat(ListItems(urls, files)[..i]) + Item(urls[i], LinkLabel(files, i))
        <= FinalHtml(body, urls, files)
  {
    if urls != [] {
      var head := body + ATTACHMENTS_HEADER;
      var items := ListItems(urls, files);
      var html := FinalHtml(body, urls, files);
      assert html == head + Concat(items) + "</ul>";
      forall i | 0 <= i < |urls| ensures head + Concat(items[..i]) + items[i] <= html {
        ConcatInOrder(items, i);
        assert head + Concat(items[..i]) + items[i] == head + (Concat(items[..i]) + items[i]);
      }
    }
  }

  /** The HTML as the composer builds it: appended to piece by piece. */
  method BuildFinalHtml(body: string, urls: seq<string>, files: seq<File>) returns (finalHtml: string)
    ensures finalHtml == FinalHtml(body, urls, files)
  {
    finalHtml := body;
    if |urls| > 0 {
      finalHtml := finalHtml + ATTACHMENTS_HEADER;
      finalHtml := AppendItems(finalHtml, urls, files);
      finalHtml := finalHtml + "</ul>";
    }
  }

  /** The loop of the composer that appends one list item per URL. */
  method AppendItems(head: string, urls: seq<string>, files: seq<File>) returns (finalHtml: string)
    ensures finalHtml == head + Concat(ListItems(urls, files))
  {
    ghost var items := ListItems(urls, files);
    assert |items| == |urls|;
    finalHtml := head;
    var index := 0;
    assert finalHtml == head + Concat(items[..index]);
    while index < |urls|
      invariant 0 <= index <= |urls|
      invariant finalHtml == head + Concat(items[..index])
    {
      var fileName := LinkLabel(files, index);
      var piece := Item(urls[index], fileName);
      assert piece == items[index];
      ConcatStep(items, index);
      AppendAssociates(head, Concat(items[..index]), piece);
      finalHtml := finalHtml + piece;
      index := index + 1;
    }
    assert items[..index] == items;
  }

  // ---------------------------------------------------------------------------
  // Submitting.

  /** The form's state. */
  datatype Form = Form(
    loading: bool,
    success: bool,
    error: string,
    toName: string,
    toEmail: string,
    fromName: string,
    fromEmailPrefix: string,
    subject: string,
    htmlBody: string,
    attachments: seq<File>,
    uploadedUrls: seq<string>)

  /** The request the edge function receives. */
  datatype MailRequest = MailRequest(toName: string, toEmail: string, fromName: string, fromEmail: string,
                                     subject: string, html: string)

  /** How the edge function call ended: an invocation error, or the JSON it returned. */
  datatype Invocation = FnError(message: Js) | Returned(result: Js)

  /** The send button is disabled while sending and while the recipient or the subject is empty. */
  predicate SendDisabled(f: Form) {
    f.loading || f.toEmail == "" || f.subject == ""
  }

  /** The text shown for a caught error: its message, or `{}` for an error whose message is empty. */
  function Shown(message: string): string {
    if message != "" then message else "{}"
  }

  /** The upload step of a submit: the attachments are uploaded when there are any. */
  function UploadStep(f: Form, clock: nat -> int, bucket: Bucket, reason: string -> string): Result<seq<string>, string> {
    if |f.attachments| > 0 then UploadSpec(f.attachments, clock, bucket, reason) else Success([])
  }

  /** The request a submit sends once the URLs are known. */
  function RequestOf(f: Form): MailRequest {
    MailRequest(f.toName, f.toEmail, f.fromName, FullFromEmail(f.fromEmailPrefix), f.subject,
                FinalHtml(f.htmlBody, f.uploadedUrls, f.attachments))
  }

  /** The send step of a submit, from the form holding every uploaded URL: the request goes out; on
      success the message fields are reset and the sender kept, on failure the error is shown. */
  function SendSpec(f: Form, invoke: MailRequest -> Invocation, js: Builtins): Form {
    Settle(f, invoke(RequestOf(f)), js)
  }

  /** The form once the edge function answered: on success the message fields are reset and the
      sender kept, on failure the error is shown. */
  function Settle(f: Form, outcome: Invocation, js: Builtins): Form {
    match outcome
    case FnError(message) =>
      f.(loading := false, success := false, error := Shown(js.toText(Or(message, Str(EDGE_FUNCTION_ERROR)))))
    case Returned(result) =>
      if !Truthy(OptMember(result, "success")) then
        f.(loading := false, success := false, error := Shown(js.toText(Or(OptMember(result, "error"), Str(SEND_FAILED)))))
      else
        f.(loading := false, success := true, error := "", toName := "", toEmail := "", subject := "",
           htmlBody := DEFAULT_BODY, attachments := [], uploadedUrls := [])
  }

  /** A submit: a failed upload shows its error and sends nothing; otherwise the new URLs are added
      to those of earlier attempts and the mail is sent with the links appended. */
  function SubmitSpec(f: Form, clock: nat -> int, bucket: Bucket, reason: string -> string,
                      invoke: MailRequest -> Invocation, js: Builtins): (Form, Option<MailRequest>)
  {
    match UploadStep(f, clock, bucket, reason)
    case Failure(e) => (f.(loading := false, success := false, error := Shown(e)), None)
    case Success(newUrls) =>
      var f' := f.(uploadedUrls := f.uploadedUrls + newUrls);
      (SendSpec(f', invoke, js), Some(RequestOf(f')))
  }

  /** Once the uploads went through, a submit is the send step on the form holding every URL. */
  lemma SubmitAfterUploads(f: Form, clock: nat -> int, bucket: Bucket, reason: string -> string,
                           invoke: MailRequest -> Invocation, js: Builtins)
    requires UploadStep(f, clock, bucket, reason).Success?
    ensures var g := f.(uploadedUrls := f.uploadedUrls + UploadStep(f, clock, bucket, reason).value);
      SubmitSpec(f, clock, bucket, reason, invoke, js) == (SendSpec(g, invoke, js), Some(RequestOf(g)))
  {
  }

  /** The send step neither reads nor keeps the loading, success and error flags it starts from. */
  lemma SendSpecIgnoresFlags(f: Form, invoke: MailRequest -> Invocation, js: Builtins)
    ensures SendSpec(f.(loading := true, error := "", success := false), invoke, js) == SendSpec(f, invoke, js)
    ensures RequestOf(f.(loading := true, error := "", success := false)) == RequestOf(f)
  {
  }

  /** A failed send changes only the flags and the error, which is never empty. */
  lemma SendFailureKeepsTheForm(f: Form, invoke: MailRequest -> Invocation, js: Builtins)
    requires !SendSpec(f, invoke, js).success
    ensures var f' := SendSpec(f, invoke, js);
      f' == f.(loading := false, success := false, error := f'.error) && f'.error != ""
  {
  }

  /** After a successful send the recipient, subject, body and attachments are reset, the sender name
      and prefix are kept, and the button stays disabled until a recipient and subject are typed. */
  lemma SuccessResetsMessageKeepsSender(f: Form, clock: nat -> int, bucket: Bucket, reason: string -> string,
                                        invoke: MailRequest -> Invocation, js: Builtins)
    requires SubmitSpec(f, clock, bucket, reason, invoke, js).0.success
    ensures var f' := SubmitSpec(f, clock, bucket, reason, invoke, js).0;
      f'.toName == "" && f'.toEmail == "" && f'.subject == "" && f'.htmlBody == DEFAULT_BODY &&
      f'.attachments == [] && f'.uploadedUrls == [] && f'.error == "" && !f'.loading &&
      f'.fromName == f.fromName && f'.fromEmailPrefix == f.fromEmailPrefix && SendDisabled(f')
  {
  }

  /** A failed submit keeps the whole message and shows a non-empty error. After a failed upload
      nothing is sent, no URL is added and the upload's error is shown; when the failure came after
      the uploads, their URLs are kept for the next attempt while the attachments stay in the list. */
  lemma FailureKeepsTheDraft(f: Form, clock: nat -> int, bucket: Bucket, reason: string -> string,
                             invoke: MailRequest -> Invocation, js: Builtins)
    requires !SubmitSpec(f, clock, bucket, reason, invoke, js).0.success
    ensures var (f', sent) := SubmitSpec(f, clock, bucket, reason, invoke, js);
      f'.error != "" && !f'.loading &&
      f'.(uploadedUrls := f.uploadedUrls, error := f.error, loading := f.loading, success := f.success) == f &&
      f.uploadedUrls <= f'.uploadedUrls &&
      (sent.Some? && |f.attachments| > 0 ==>
        |f'.uploadedUrls| == |f.uploadedUrls| + |f.attachments| && f'.attachments == f.attachments)
    ensures var (f', sent) := SubmitSpec(f, clock, bucket, reason, invoke, js);
      var up := UploadStep(f, clock, bucket, reason);
      up.Failure? ==> sent.None? && f'.uploadedUrls == f.uploadedUrls && f'.error == Shown(up.error)
  {
    var up := UploadStep(f, clock, bucket, reason);
    if up.Success? {
      var f1 := f.(uploadedUrls := f.uploadedUrls + up.value);
      SendFailureKeepsTheForm(f1, invoke, js);
      if |f.attachments| > 0 {
        UploadedUrlsInOrder(f.attachments, clock, bucket, reason);
      }
    }
  }

  /** A retry after a failed send uploads every attachment again and sends links to both copies: with
      `k` attachments, the second mail lists `2k` links, and from the `k+1`-th on their labels fall back
      to `Attachment n`. */
  lemma RetryListsAttachmentsTwice(f: Form, clock: nat -> int, bucket: Bucket, reason: string -> string,
                                   invoke: MailRequest -> Invocation, js: Builtins)
    requires f.uploadedUrls == [] && |f.attachments| > 0
    requires forall i :: 0 <= i < |f.attachments| ==> Uploads(f.attachments[i], clock(i), bucket)
    requires !SubmitSpec(f, clock, bucket, reason, invoke, js).0.success
    ensures var f1 := SubmitSpec(f, clock, bucket, reason, invoke, js).0;
      var sent := SubmitSpec(f1, clock, bucket, reason, invoke, js).1;
      var k := |f.attachments|;
      |f1.uploadedUrls| == k && f1.attachments == f.attachments &&
      sent.Some? &&
      sent.value.html == FinalHtml(f.htmlBody, f1.uploadedUrls + f1.uploadedUrls, f.attachments) &&
      LinkLabel(f.attachments, k) == "Attachment " + Text.NatToString(k + 1)
  {
    UploadSucceedsWhenAllUpload(f.attachments, clock, bucket, reason);
    UploadedUrlsInOrder(f.attachments, clock, bucket, reason);
    var up := UploadStep(f, clock, bucket, reason);
    assert up.Success?;
    var urls := up.value;
    var g := f.(uploadedUrls := urls);
    assert f.uploadedUrls + urls == urls;
    assert SubmitSpec(f, clock, bucket, reason, invoke, js).0 == SendSpec(g, invoke, js);
    SendFailureKeepsTheForm(g, invoke, js);
    var f1 := SendSpec(g, invoke, js);
    assert f1.attachments == f.attachments && f1.uploadedUrls == urls && f1.htmlBody == f.htmlBody;
    assert UploadStep(f1, clock, bucket, reason) == up;
    assert SubmitSpec(f1, clock, bucket, reason, invoke, js).1 == Some(RequestOf(f1.(uploadedUrls := urls + urls)));
  }

  /** The composer as a component: its state fields and the handlers that set them. */
  class Composer {
    var loading: bool
    var success: bool
    var error: string
    var toName: string
    var toEmail: string
    var fromName: string
    var fromEmailPrefix: string
    var subject: string
    var htmlBody: string
    var attachments: seq<File>
    var uploadedUrls: seq<string>

    function State(): Form
      reads this
    {
      Form(loading, success, error, toName, toEmail, fromName, fromEmailPrefix, subject, htmlBody, attachments, uploadedUrls)
    }

    constructor ()
      ensures State() == Form(false, false, "", "", "", DEFAULT_FROM_NAME, DEFAULT_PREFIX, "", DEFAULT_BODY, [], [])
    {
      loading, success, error := false, false, "";
      toName, toEmail, fromName, fromEmailPrefix := "", "", DEFAULT_FROM_NAME, DEFAULT_PREFIX;
      subject, htmlBody, attachments, uploadedUrls := "", DEFAULT_BODY, [], [];
    }

    /** Typing into the prefix field stores the input without its disallowed characters. */
    method SetFromEmailPrefix(input: string)
      modifies this
      ensures State() == old(State()).(fromEmailPrefix := SanitizePrefix(input))
    {
      fromEmailPrefix := SanitizePrefix(input);
    }

    /** Choosing files appends them after the attachments already listed. */
    method AddFiles(files: seq<File>)
      modifies this
      ensures State() == old(State()).(attachments := old(attachments) + files)
    {
      attachments := attachments + files;
    }

    /** The remove button of the attachment at `index`. */
    method RemoveAttachment(index: int)
      modifies this
      ensures State() == old(State()).(attachments := RemoveAt(old(attachments), index))
    {
      var kept: seq<File> := [];
      var i := 0;
      while i < |attachments|
        invariant 0 <= i <= |attachments|
        invariant kept == if index < 0 || i <= index then attachments[..i]
                          else attachments[..index] + attachments[index + 1..i]
      {
        if i != index {
          kept := kept + [attachments[i]];
        } else {
          assert attachments[..i + 1] == attachments[..i] + [attachments[i]];
        }
        i := i + 1;
      }
      assert attachments[..i] == attachments;
      attachments := kept;
    }

    /** The formatting buttons: a sample element of the tag, on a new line after the body. */
    method InsertHtml(tag: string)
      modifies this
      ensures State() == old(State()).(htmlBody := old(htmlBody) + "\n<" + tag + ">New " + tag + "</" + tag + ">")
    {
      htmlBody := htmlBody + "\n<" + tag + ">New " + tag + "</" + tag + ">";
    }

    /** The submit handler; returns the request handed to the edge function, if one was. */
    method Submit(clock: nat -> int, bucket: Bucket, reason: string -> string, invoke: MailRequest -> Invocation,
                  js: Builtins) returns (sent: Option<MailRequest>)
      modifies this
      ensures (State(), sent) == SubmitSpec(old(State()), clock, bucket, reason, invoke, js)
    {
      ghost var f := State();
      ghost var up := UploadStep(f, clock, bucket, reason);
      loading, error, success := true, "", false;
      var currentUploadedUrls := uploadedUrls;
      if |attachments| > 0 {
        var uploaded := UploadAttachments(attachments, clock, bucket, reason);
        assert uploaded == up;
        if uploaded.Failure? {
          error, loading := Shown(uploaded.error), false;
          return None;
        }
        currentUploadedUrls := uploadedUrls + uploaded.value;
        uploadedUrls := currentUploadedUrls;
      } else {
        assert currentUploadedUrls == uploadedUrls + [];
      }
      ghost var g := f.(uploadedUrls := currentUploadedUrls);
      SubmitAfterUploads(f, clock, bucket, reason, invoke, js);
      assert State() == g.(loading := true, error := "", success := false);
      SendSpecIgnoresFlags(g, invoke, js);
      sent := Send(currentUploadedUrls, invoke, js);
    }

    /** The part of the submit handler after the uploads. */
    method Send(currentUploadedUrls: seq<string>, invoke: MailRequest -> Invocation, js: Builtins)
      returns (sent: Option<MailRequest>)
      requires uploadedUrls == currentUploadedUrls && !success && error == ""
      modifies this
      ensures State() == SendSpec(old(State()), invoke, js)
      ensures sent == Some(RequestOf(old(State())))
    {
      var request := BuildRequest(currentUploadedUrls);
      sent := Some(request);
      var outcome := invoke(request);
      ghost var before := State();
      if outcome.FnError? {
        error := Shown(js.toText(Or(outcome.message, Str(EDGE_FUNCTION_ERROR))));
      } else if !Truthy(OptMember(outcome.result, "success")) {
        error := Shown(js.toText(Or(OptMember(outcome.result, "error"), Str(SEND_FAILED))));
      } else {
        success := true;
        toName, toEmail, subject, htmlBody := "", "", "", DEFAULT_BODY;
        attachments, uploadedUrls := [], [];
      }
      loading := false;
      assert State() == Settle(before, outcome, js);
    }

    /** The request the submit handler passes to the edge function. */
    method BuildRequest(currentUploadedUrls: seq<string>) returns (request: MailRequest)
      requires uploadedUrls == currentUploadedUrls
      ensures request == RequestOf(State())
    {
      var finalHtml := BuildFinalHtml(htmlBody, currentUploadedUrls, attachments);
      request := MailRequest(toName, toEmail, fromName, fromEmailPrefix + EMAIL_DOMAIN, subject, finalHtml);
    }
  }
}
