/** The mail wrapper every outgoing mail of the portal goes through: it checks
    the API key and a sender address, posts one request to the mail provider
    and turns a refused request into the most specific error text it can find. */
module Zepto {
  import opened Wrappers
  import Text
  import opened JsValues

  const API_KEY_MISSING: string := "Configuration Error: API Key Missing"
  const FROM_EMAIL_MISSING: string := "Configuration Error: From Email Missing"
  const DEFAULT_FROM_NAME: string := "IBBE Operations"
  const NETWORK_ERROR: string := "Network error while sending email"

  /** The two environment variables: the API key and the default sender address (`undefined` when unset). */
  datatype Env = Env(apiKey: Js, defaultFromEmail: Js)

  /** The arguments of `sendEmail`; the two sender fields are optional (`undefined` when absent). */
  datatype Mail = Mail(to: Js, subject: Js, html: Js, name: Js, fromEmail: Js, fromName: Js)

  /** The request body posted to the provider. */
  datatype Payload = Payload(fromAddress: Js, fromName: Js, toAddress: Js, toName: Js, subject: Js, htmlBody: Js)

  /** The provider's answer; `body` is `None` when reading the body throws. */
  datatype HttpResponse = HttpResponse(ok: bool, status: int, statusText: string, body: Option<string>)

  /** How the one request ended: `fetch` threw, or the provider answered. */
  datatype Delivery = Threw(error: Js) | Answered(response: HttpResponse)

  /** What `sendEmail` returns; `error` is `undefined` on success. */
  datatype SendResult = SendResult(success: bool, error: Js)

  /** The error text of a refused request: the `message` of a JSON body, else its `error`, else
      the whole body as JSON; a body that is not JSON (or parses to `null`) as it is; and
      `HTTP <status>: <statusText>` when there is no body or it cannot be read. */
  function HttpErrorText(response: HttpResponse, js: Builtins): Js {
    var statusLine := Str("HTTP " + Text.IntToString(response.status) + ": " + response.statusText);
    match response.body
    case None => statusLine
    case Some(text) =>
      if text == "" then statusLine
      else match js.parse(text)
        case None => Str(text)
        case Some(data) =>
          match Member(data, "message")
          case None => Str(text)
          case Some(message) => Or(Or(message, OptMember(data, "error")), Str(js.stringify(data)))
  }

  /** The error text as the code builds it: a default, overwritten inside nested handlers. */
  method ReadErrorText(response: HttpResponse, js: Builtins) returns (errorMessage: Js)
    ensures errorMessage == HttpErrorText(response, js)
  {
    errorMessage := Str("HTTP " + Text.IntToString(response.status) + ": " + response.statusText);
    if response.body.None? {
      // reading the body threw: the default stays
      return;
    }
    var responseText := response.body.value;
    if responseText != "" {
      var errorData := js.parse(responseText);
      if errorData.None? {
        errorMessage := Str(responseText);
      } else {
        var message := Member(errorData.value, "message");
        if message.None? {
          // a parsed `null` has no fields: the read throws and the handler keeps the raw text
          errorMessage := Str(responseText);
        } else {
          errorMessage := Or(Or(message.value, OptMember(errorData.value, "error")),
                             Str(js.stringify(errorData.value)));
        }
      }
    }
  }

  /** The precedence of the error text, one case per clause. */
  lemma HttpErrorTextPrecedence(response: HttpResponse, js: Builtins)
    ensures var statusLine := Str("HTTP " + Text.IntToString(response.status) + ": " + response.statusText);
      (response.body.None? || response.body == Some("") ==> HttpErrorText(response, js) == statusLine)
    ensures response.body.Some? && response.body.value != "" && js.parse(response.body.value).None? ==>
      HttpErrorText(response, js) == Str(response.body.value)
    ensures response.body.Some? && response.body.value != "" && js.parse(response.body.value) in {Some(Null), Some(Undefined)} ==>
      HttpErrorText(response, js) == Str(response.body.value)
    ensures response.body.Some? && response.body.value != "" && js.parse(response.body.value).Some? ==>
      var data := js.parse(response.body.value).value;
      data != Null && data != Undefined ==>
      (Truthy(OptMember(data, "message")) ==> HttpErrorText(response, js) == OptMember(data, "message")) &&
      (!Truthy(OptMember(data, "message")) && Truthy(OptMember(data, "error")) ==>
        HttpErrorText(response, js) == OptMember(data, "error")) &&
      (!Truthy(OptMember(data, "message")) && !Truthy(OptMember(data, "error")) ==>
        HttpErrorText(response, js) == Str(js.stringify(data)))
  {
  }

  /** `sendEmail`: the key is checked first, then that some sender address is known; otherwise one
      request is posted (returned as the payload) and its outcome reported. */
  function SendEmail(env: Env, mail: Mail, delivery: Delivery, js: Builtins): (SendResult, Option<Payload>) {
    if !Truthy(env.apiKey) then (SendResult(false, Str(API_KEY_MISSING)), None)
    else if !Truthy(env.defaultFromEmail) && !Truthy(mail.fromEmail) then (SendResult(false, Str(FROM_EMAIL_MISSING)), None)
    else
      var payload := Payload(Or(mail.fromEmail, env.defaultFromEmail), Or(mail.fromName, Str(DEFAULT_FROM_NAME)),
                             mail.to, mail.name, mail.subject, mail.html);
      match delivery
      case Threw(e) => (SendResult(false, Or(OptMember(e, "message"), Str(NETWORK_ERROR))), Some(payload))
      case Answered(response) =>
        if !response.ok then (SendResult(false, HttpErrorText(response, js)), Some(payload))
        else (SendResult(true, Undefined), Some(payload))
  }

  /** A missing key is reported before anything else and nothing is posted; with a key but no sender
      address at all, the sender error is reported and nothing is posted; otherwise a request goes out. */
  lemma ConfigurationChecks(env: Env, mail: Mail, delivery: Delivery, js: Builtins)
    ensures !Truthy(env.apiKey) ==> SendEmail(env, mail, delivery, js) == (SendResult(false, Str(API_KEY_MISSING)), None)
    ensures Truthy(env.apiKey) && !Truthy(env.defaultFromEmail) && !Truthy(mail.fromEmail) ==>
      SendEmail(env, mail, delivery, js) == (SendResult(false, Str(FROM_EMAIL_MISSING)), None)
    ensures SendEmail(env, mail, delivery, js).1.Some? <==>
      Truthy(env.apiKey) && (Truthy(env.defaultFromEmail) || Truthy(mail.fromEmail))
  {
  }

  /** The request's sender is the given address, else the default one, and is never empty; its name is
      the given one, else `IBBE Operations`; recipient, name, subject and body are passed through. */
  lemma SenderDefaults(env: Env, mail: Mail, delivery: Delivery, js: Builtins)
    requires SendEmail(env, mail, delivery, js).1.Some?
    ensures var p := SendEmail(env, mail, delivery, js).1.value;
      p.fromAddress == (if Truthy(mail.fromEmail) then mail.fromEmail else env.defaultFromEmail) &&
      Truthy(p.fromAddress) &&
      p.fromName == (if Truthy(mail.fromName) then mail.fromName else Str(DEFAULT_FROM_NAME)) &&
      p.toAddress == mail.to && p.toName == mail.name && p.subject == mail.subject && p.htmlBody == mail.html
  {
  }

  /** Success exactly when a request went out and the provider accepted it. */
  lemma SuccessMeansAccepted(env: Env, mail: Mail, delivery: Delivery, js: Builtins)
    ensures var (result, sent) := SendEmail(env, mail, delivery, js);
      result.success <==> sent.Some? && delivery.Answered? && delivery.response.ok
    ensures var (result, sent) := SendEmail(env, mail, delivery, js);
      result.success ==> result.error == Undefined
  {
  }

  /** Every failure carries a truthy error, provided `JSON.stringify` never yields the empty text. */
  lemma FailureIsExplained(env: Env, mail: Mail, delivery: Delivery, js: Builtins)
    requires forall v :: js.stringify(v) != ""
    ensures var result := SendEmail(env, mail, delivery, js).0;
      !result.success ==> Truthy(result.error)
  {
    if Truthy(env.apiKey) && (Truthy(env.defaultFromEmail) || Truthy(mail.fromEmail)) && delivery.Answered? {
      var response := delivery.response;
      if response.body.Some? && response.body.value != "" && js.parse(response.body.value).Some? {
        var data := js.parse(response.body.value).value;
        assert js.stringify(data) != "";
      }
    }
  }
}
