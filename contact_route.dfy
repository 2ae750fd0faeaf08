/**
 * The decisions of the contact-form endpoint (src/app/api/contact/route.ts):
 * which reply a submission gets and what notification is sent for it. The
 * request parsing, the logging and the webhook call itself are I/O; their
 * outcomes enter as values.
 */
module ContactRoute {
  import opened Wrappers
  import opened Text

  /** One field of the parsed JSON body. `Other` is any JSON value that is not
      a string, with its JavaScript truthiness and its `String(value)` text. */
  datatype Value = Absent | Str(s: string) | Other(truthy: bool, text: string)

  predicate IsTruthy(v: Value) {
    match v
    case Absent => false
    case Str(s) => s != ""
    case Other(truthy, _) => truthy
  }

  /** The text a regular expression's `test` sees: `String(value)`. */
  function AsText(v: Value): string {
    match v
    case Absent => "undefined"
    case Str(s) => s
    case Other(_, text) => text
  }

  /** The request body: JSON that did not parse or parsed to `null` (reading
      fields from `null` throws), or the four fields read from it. */
  datatype RequestBody = Unparseable | Body(name: Value, email: Value, phone: Value, message: Value)

  datatype ReplyBody = SuccessBody | ErrorBody(error: string)

  /** An HTTP status with its JSON body. */
  datatype Reply = Reply(status: int, body: ReplyBody)

  const RequiredFieldsError := "Name, email, and message are required"
  const InvalidEmailError := "Invalid email address"
  const ServerError := "Internal server error"

  /** The chat notification's fields. */
  datatype Notification = Notification(name: Value, email: Value, phone: Value, message: string)

  /** What the webhook `fetch` did: it returned, or it threw. */
  datatype WebhookResult = Delivered | Threw

  /** The reply, the notification sent (if any) and whether a webhook error was logged. */
  datatype Outcome = Outcome(reply: Reply, notification: Option<Notification>, webhookErrorLogged: bool)

  // ---------------------------------------------------------------------------
  // The e-mail pattern /^[^\s@]+@[^\s@]+\.[^\s@]+$/

  predicate IsAtomChar(c: char) {
    !IsWhitespace(c) && c != '@'
  }

  predicate AllAtomChars(s: string) {
    forall k :: 0 <= k < |s| ==> IsAtomChar(s[k])
  }

  /** The regular expression read literally: a non-empty run, '@', a non-empty
      run, '.', a non-empty run, where no run holds white space or '@'. */
  ghost predicate MatchesEmailPattern(s: string) {
    exists i, j :: && 0 < i && i + 1 < j && j + 1 < |s|
                   && s[i] == '@' && s[j] == '.'
                   && AllAtomChars(s[..i]) && AllAtomChars(s[i + 1..j]) && AllAtomChars(s[j + 1..])
  }

  /** A direct check of the pattern: no white space, exactly one '@' with text
      before it, and a '.' after it that is neither the first nor the last
      character of the domain. */
  predicate IsEmailShaped(s: string) {
    && (forall k :: 0 <= k < |s| ==> !IsWhitespace(s[k]))
    && match IndexOf(s, '@')
       case None => false
       case Some(i) => 0 < i && i + 3 < |s| && '@' !in s[i + 1..] && '.' in s[i + 2..|s| - 1]
  }

  /** A slice whose characters are all atom characters. */
  lemma AtomSlice(s: string, a: nat, b: nat)
    requires a <= b <= |s|
    requires forall k :: a <= k < b ==> IsAtomChar(s[k])
    ensures AllAtomChars(s[a..b])
  {
    forall k | 0 <= k < b - a
      ensures IsAtomChar(s[a..b][k])
    {
      assert s[a..b][k] == s[a + k];
    }
  }

  lemma EmailCheckSound(s: string)
    requires IsEmailShaped(s)
    ensures MatchesEmailPattern(s)
  {
    var i := IndexOf(s, '@').value;
    var d := s[i + 2..|s| - 1];
    var m :| 0 <= m < |d| && d[m] == '.';
    var j := i + 2 + m;
    assert s[j] == '.';
    forall k | 0 <= k < |s| && k != i
      ensures IsAtomChar(s[k])
    {
      if k < i {
        assert s[k] == s[..i][k];
      } else {
        assert s[k] == s[i + 1..][k - i - 1];
      }
    }
    AtomSlice(s, 0, i);
    AtomSlice(s, i + 1, j);
    AtomSlice(s, j + 1, |s|);
    assert s[..i] == s[0..i];
    assert s[j + 1..] == s[j + 1..|s|];
  }

  lemma EmailCheckComplete(s: string)
    requires MatchesEmailPattern(s)
    ensures IsEmailShaped(s)
  {
    var i, j :| && 0 < i && i + 1 < j && j + 1 < |s|
                && s[i] == '@' && s[j] == '.'
                && AllAtomChars(s[..i]) && AllAtomChars(s[i + 1..j]) && AllAtomChars(s[j + 1..]);
    forall k | 0 <= k < |s|
      ensures !IsWhitespace(s[k])
      ensures k != i ==> s[k] != '@'
    {
      if k < i {
        assert s[k] == s[..i][k];
      } else if i < k < j {
        assert s[k] == s[i + 1..j][k - i - 1];
      } else if j < k {
        assert s[k] == s[j + 1..][k - j - 1];
      }
    }
    assert IndexOf(s, '@') == Some(i) by {
      var f := IndexOf(s, '@');
      assert f.Some? && s[f.value] == '@';
    }
    var tail := s[i + 1..];
    forall k | 0 <= k < |tail|
      ensures tail[k] != '@'
    {
      assert tail[k] == s[i + 1 + k];
    }
    assert s[i + 2..|s| - 1][j - i - 2] == '.';
  }

  /** The check accepts exactly the strings the regular expression matches. */
  lemma EmailCheckMatchesPattern(s: string)
    ensures IsEmailShaped(s) <==> MatchesEmailPattern(s)
  {
    if IsEmailShaped(s) {
      EmailCheckSound(s);
    }
    if MatchesEmailPattern(s) {
      EmailCheckComplete(s);
    }
  }

  // ---------------------------------------------------------------------------
  // POST

  /** The notification for an accepted submission: an absent or empty phone
      reads "Not provided", and the message is cut to its first 1000 characters. */
  function NotificationFor(name: Value, email: Value, phone: Value, message: string): (n: Notification)
    ensures n.name == name && n.email == email
    ensures IsTruthy(phone) ==> n.phone == phone
    ensures !IsTruthy(phone) ==> n.phone == Str("Not provided")
    ensures |n.message| <= 1000 && n.message <= message
    ensures |message| <= 1000 ==> n.message == message
    ensures |message| > 1000 ==> |n.message| == 1000
  {
    Notification(
      name,
      email,
      if IsTruthy(phone) then phone else Str("Not provided"),
      if |message| <= 1000 then message else message[..1000])
  }

  /** The submissions the endpoint accepts: a parsed body whose name, email and
      message are truthy, whose email matches the pattern, and whose message is
      a string (a message of another type has no `substring` and the handler's
      catch turns the TypeError into a 500). */
  ghost predicate IsAcceptable(body: RequestBody) {
    && body.Body?
    && IsTruthy(body.name) && IsTruthy(body.email) && IsTruthy(body.message)
    && MatchesEmailPattern(AsText(body.email))
    && body.message.Str?
  }

  /** `POST /api/contact`, given the parsed body, whether a webhook URL is
      configured, and what the webhook call did. */
  function HandleContact(body: RequestBody, webhookConfigured: bool, webhook: WebhookResult): (o: Outcome)
    ensures body.Unparseable? ==> o.reply == Reply(500, ErrorBody(ServerError))
    ensures body.Body? && !(IsTruthy(body.name) && IsTruthy(body.email) && IsTruthy(body.message)) ==>
              o.reply == Reply(400, ErrorBody(RequiredFieldsError))
    ensures body.Body? && IsTruthy(body.name) && IsTruthy(body.email) && IsTruthy(body.message)
            && !MatchesEmailPattern(AsText(body.email)) ==>
              o.reply == Reply(400, ErrorBody(InvalidEmailError))
    ensures body.Body? && IsTruthy(body.name) && IsTruthy(body.email) && IsTruthy(body.message)
            && MatchesEmailPattern(AsText(body.email)) && !body.message.Str? ==>
              o.reply == Reply(500, ErrorBody(ServerError))
    ensures o.reply.status == 200 <==> IsAcceptable(body)
    ensures o.reply.status == 200 ==> o.reply.body == SuccessBody
    ensures o.notification.Some? <==> IsAcceptable(body) && webhookConfigured
    ensures o.notification.Some? ==>
              o.notification.value == NotificationFor(body.name, body.email, body.phone, body.message.s)
    ensures o.webhookErrorLogged <==> IsAcceptable(body) && webhookConfigured && webhook == Threw
  {
    match body
    case Unparseable =>
      Outcome(Reply(500, ErrorBody(ServerError)), None, false)
    case Body(name, email, phone, message) =>
      EmailCheckMatchesPattern(AsText(email));
      if !IsTruthy(name) || !IsTruthy(email) || !IsTruthy(message) then
        Outcome(Reply(400, ErrorBody(RequiredFieldsError)), None, false)
      else if !IsEmailShaped(AsText(email)) then
        Outcome(Reply(400, ErrorBody(InvalidEmailError)), None, false)
      else if !message.Str? then
        Outcome(Reply(500, ErrorBody(ServerError)), None, false)
      else if !webhookConfigured then
        Outcome(Reply(200, SuccessBody), None, false)
      else
        var note := NotificationFor(name, email, phone, message.s);
        match webhook
        case Delivered => Outcome(Reply(200, SuccessBody), Some(note), false)
        case Threw => Outcome(Reply(200, SuccessBody), Some(note), true)
  }

  /** A failing webhook never changes the reply. */
  lemma ReplyIgnoresWebhook(body: RequestBody, webhookConfigured: bool)
    ensures HandleContact(body, webhookConfigured, Threw).reply
         == HandleContact(body, webhookConfigured, Delivered).reply
  {
  }

  /** Missing any one of the three required fields gives the same 400, which
      names all three. */
  lemma MissingEmailIsRejected(name: Value, phone: Value, message: Value, configured: bool, webhook: WebhookResult)
    ensures HandleContact(Body(name, Absent, phone, message), configured, webhook).reply
         == Reply(400, ErrorBody(RequiredFieldsError))
  {
  }
}
