/** The administrator's mail endpoint: it reads the JSON request, refuses one
    without a recipient, subject or body, hands the mail to the mail wrapper
    and answers with the wrapper's error turned into text. */
module SendAdminMail {
  import opened Wrappers
  import opened JsValues
  import opened Zepto

  const MISSING_FIELDS: string := "Missing required fields"
  const SEND_FAILED: string := "Failed to send email"
  const INTERNAL_ERROR: string := "Internal Server Error"

  /** The JSON answer and its HTTP status; `error` is `undefined` on success. */
  datatype Reply = Reply(status: int, success: bool, error: Js)

  /** The error text of a failed send: a string error as it is, else its `message`, else the
      error as JSON, else `Failed to send email`. */
  function SendErrorText(error: Js, js: Builtins): Js {
    if error.Str? then error
    else if Truthy(OptMember(error, "message")) then OptMember(error, "message")
    else if Truthy(error) then Str(js.stringify(error))
    else Str(SEND_FAILED)
  }

  /** The answer to a thrown error: its `message`, or `Internal Server Error`. */
  function ThrownReply(error: Js): Reply {
    Reply(500, false, Or(OptMember(error, "message"), Str(INTERNAL_ERROR)))
  }

  /** The endpoint. `request` is the parsed body, or what `request.json()` threw; `typeError` is the
      error the engine throws when a `null` body is destructured. Returns the reply and the request
      posted to the provider, if any. */
  function Post(request: Result<Js, Js>, env: Env, delivery: Delivery, js: Builtins, typeError: Js): (Reply, Option<Payload>) {
    match request
    case Failure(e) => (ThrownReply(e), None)
    case Success(body) =>
      if Member(body, "toEmail").None? then (ThrownReply(typeError), None)
      else
        var toName := OptMember(body, "toName");
        var toEmail := OptMember(body, "toEmail");
        var subject := OptMember(body, "subject");
        var html := OptMember(body, "html");
        if !Truthy(toEmail) || !Truthy(subject) || !Truthy(html) then (Reply(400, false, Str(MISSING_FIELDS)), None)
        else
          var mail := Mail(toEmail, subject, html, Or(toName, toEmail), OptMember(body, "fromEmail"), OptMember(body, "fromName"));
          var (result, sent) := SendEmail(env, mail, delivery, js);
          if !result.success then (Reply(500, false, SendErrorText(result.error, js)), sent)
          else (Reply(200, true, Undefined), sent)
  }

  /** A request without a recipient address, a subject or a body is answered 400 and nothing is sent. */
  lemma MissingFieldsAreRefused(body: Js, env: Env, delivery: Delivery, js: Builtins, typeError: Js)
    requires body != Null && body != Undefined
    requires !Truthy(OptMember(body, "toEmail")) || !Truthy(OptMember(body, "subject")) || !Truthy(OptMember(body, "html"))
    ensures Post(Success(body), env, delivery, js, typeError) == (Reply(400, false, Str(MISSING_FIELDS)), None)
  {
  }

  /** A complete request is handed to the wrapper with the recipient name defaulting to the address,
      and the sender fields passed on as given. */
  lemma RecipientNameDefaultsToAddress(body: Js, env: Env, delivery: Delivery, js: Builtins, typeError: Js)
    requires body != Null && body != Undefined
    requires Truthy(OptMember(body, "toEmail")) && Truthy(OptMember(body, "subject")) && Truthy(OptMember(body, "html"))
    ensures var toName := OptMember(body, "toName");
      var toEmail := OptMember(body, "toEmail");
      var mail := Mail(toEmail, OptMember(body, "subject"), OptMember(body, "html"),
                       if Truthy(toName) then toName else toEmail, OptMember(body, "fromEmail"), OptMember(body, "fromName"));
      Post(Success(body), env, delivery, js, typeError).1 == SendEmail(env, mail, delivery, js).1
  {
  }

  /** The precedence of the failure text, one case per clause. */
  lemma SendErrorTextPrecedence(error: Js, js: Builtins)
    ensures error.Str? ==> SendErrorText(error, js) == error
    ensures !error.Str? && Truthy(OptMember(error, "message")) ==> SendErrorText(error, js) == OptMember(error, "message")
    ensures !error.Str? && !Truthy(OptMember(error, "message")) && Truthy(error) ==>
      SendErrorText(error, js) == Str(js.stringify(error))
    ensures !error.Str? && !Truthy(error) ==> SendErrorText(error, js) == Str(SEND_FAILED)
  {
  }

  /** The reply is a 200 success exactly when the wrapper succeeded; every failure of the wrapper is a
      500 carrying its text; a configuration error reaches the caller word for word. */
  lemma ReplyFollowsTheWrapper(body: Js, env: Env, delivery: Delivery, js: Builtins, typeError: Js)
    requires body != Null && body != Undefined
    requires Truthy(OptMember(body, "toEmail")) && Truthy(OptMember(body, "subject")) && Truthy(OptMember(body, "html"))
    ensures var reply := Post(Success(body), env, delivery, js, typeError).0;
      (reply.success <==> reply.status == 200) &&
      (reply.success <==> Truthy(env.apiKey) && (Truthy(env.defaultFromEmail) || Truthy(OptMember(body, "fromEmail"))) &&
                          delivery.Answered? && delivery.response.ok) &&
      (!Truthy(env.apiKey) ==> reply == Reply(500, false, Str(API_KEY_MISSING)))
  {
    var toEmail := OptMember(body, "toEmail");
    var mail := Mail(toEmail, OptMember(body, "subject"), OptMember(body, "html"), Or(OptMember(body, "toName"), toEmail),
                     OptMember(body, "fromEmail"), OptMember(body, "fromName"));
    SuccessMeansAccepted(env, mail, delivery, js);
    ConfigurationChecks(env, mail, delivery, js);
  }

  /** A request that cannot be read is a 500 with the thrown message, or `Internal Server Error`. */
  lemma UnreadableRequest(e: Js, env: Env, delivery: Delivery, js: Builtins, typeError: Js)
    ensures var (reply, sent) := Post(Failure(e), env, delivery, js, typeError);
      sent.None? && reply.status == 500 && !reply.success &&
      reply.error == (if Truthy(OptMember(e, "message")) then OptMember(e, "message") else Str(INTERNAL_ERROR))
  {
  }

  /** Every failing reply carries a truthy error text, provided `JSON.stringify` never yields the empty text. */
  lemma FailedReplyIsExplained(request: Result<Js, Js>, env: Env, delivery: Delivery, js: Builtins, typeError: Js)
    requires forall v :: js.stringify(v) != ""
    ensures var reply := Post(request, env, delivery, js, typeError).0;
      !reply.success ==> Truthy(reply.error)
  {
    if request.Success? && Member(request.value, "toEmail").Some? {
      var body := request.value;
      var toEmail := OptMember(body, "toEmail");
      var mail := Mail(toEmail, OptMember(body, "subject"), OptMember(body, "html"), Or(OptMember(body, "toName"), toEmail),
                       OptMember(body, "fromEmail"), OptMember(body, "fromName"));
      var result := SendEmail(env, mail, delivery, js).0;
      if Truthy(toEmail) && Truthy(mail.subject) && Truthy(mail.html) && !result.success {
        FailureIsExplained(env, mail, delivery, js);
        ErrorTextOfTruthyError(result.error, js);
        assert Post(request, env, delivery, js, typeError).0 == Reply(500, false, SendErrorText(result.error, js));
      }
    }
  }

  /** A truthy wrapper error gives a truthy reply text when `JSON.stringify` of it is not empty. */
  lemma ErrorTextOfTruthyError(error: Js, js: Builtins)
    requires Truthy(error) && js.stringify(error) != ""
    ensures Truthy(SendErrorText(error, js))
  {
  }
}
