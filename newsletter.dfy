/**
 * src/routes/newsletter.rs: the `POST /newsletters` handler. It reads Basic
 * credentials from the `Authorization` header, validates them, loads the
 * confirmed subscribers and sends the issue to each valid address in turn,
 * stopping at the first delivery that fails.
 */
module Newsletter {
  import opened Wrappers
  import opened Common
  import opened Errors
  import Base64
  import Utf8
  import Http
  import opened Authentication

  /** The ways `basic_authentication` can fail, one per `context` in it. */
  datatype AuthHeaderError =
    | MissingHeader
    | NotText
    | NotBasic
    | NotBase64
    | NotUtf8
    | NoUsername
    | NoPassword

  /** The context message attached to each failure. */
  function Reason(f: AuthHeaderError): string {
    match f
    case MissingHeader => "The 'Authorization' header was missing"
    case NotText => "The 'Authorization' header was not a valid UTF8 string"
    case NotBasic => "The 'Authorization' scheme was not 'Basic'."
    case NotBase64 => "Failed to base64-decode 'Basic' credentials."
    case NotUtf8 => "Failed to decode credential string is not valid UTF8."
    case NoUsername => "No username provided in 'Basic' credentials."
    case NoPassword => "No password provided in 'Basic' credentials."
  }

  /** The display text of `http::header::ToStrError`. */
  const TO_STR_ERROR: string := "failed to convert header to a str"

  /**
   * The `anyhow::Error` a failure is reported as: its reason on top, over the
   * header crate's error for a header that is not text.
   */
  function HeaderError(f: AuthHeaderError): (r: ErrorValue)
    ensures Messages(Some(r)) == [Reason(f)] + (if f == NotText then [TO_STR_ERROR] else [])
  {
    if f == NotText then Context(Reason(f), Message(TO_STR_ERROR)) else Message(Reason(f))
  }

  const BASIC: string := "Basic "

  /** `Option::context`: a missing value becomes the given failure. */
  function OrFail<T>(o: Option<T>, f: AuthHeaderError): (r: Result<T, AuthHeaderError>)
    ensures r.Ok? <==> o.Some?
    ensures r.Ok? ==> r.value == o.value
    ensures r.Err? ==> r.error == f
  {
    match o
    case None => Err(f)
    case Some(v) => Ok(v)
  }

  /** `str::strip_prefix`: what follows `prefix`, when `s` starts with it (case-sensitive). */
  function StripPrefix(s: string, prefix: string): (r: Option<string>)
    ensures r.Some? <==> |prefix| <= |s| && s[..|prefix|] == prefix
    ensures r.Some? ==> prefix + r.value == s
  {
    if |prefix| <= |s| && s[..|prefix|] == prefix then
      assert prefix + s[|prefix|..] == s;
      Some(s[|prefix|..])
    else None
  }

  /** The position of the first ':' in `s`. */
  function FirstColon(s: string): (r: Option<nat>)
    ensures r.Some? ==> r.value < |s| && s[r.value] == ':' && ':' !in s[..r.value]
    ensures r.None? <==> ':' !in s
  {
    if s == [] then None
    else if s[0] == ':' then Some(0)
    else
      match FirstColon(s[1..])
      case None =>
        assert s == [s[0]] + s[1..];
        None
      case Some(k) =>
        assert s[..k + 1] == [s[0]] + s[1..][..k];
        Some(k + 1)
  }

  /**
   * `s.splitn(2, ':')`, collected: the text before the first ':' and all of
   * the text after it, or `s` alone when it has no ':'.
   */
  function SplitN(s: string): (pieces: seq<string>)
    ensures 1 <= |pieces| <= 2
    ensures |pieces| == 1 <==> ':' !in s
    ensures |pieces| == 1 ==> pieces[0] == s
    ensures |pieces| == 2 ==> pieces[0] + ":" + pieces[1] == s && ':' !in pieces[0]
  {
    match FirstColon(s)
    case None => [s]
    case Some(k) =>
      assert s[..k] + ":" + s[k + 1..] == s by {
        assert s == s[..k] + [s[k]] + s[k + 1..];
      }
      [s[..k], s[k + 1..]]
  }

  /** Splitting at the first ':' of "u:p" gives back `u` and `p` when `u` has no ':'. */
  lemma SplitNJoin(u: string, p: string)
    requires ':' !in u
    ensures SplitN(u + ":" + p) == [u, p]
  {
    var s := u + ":" + p;
    assert s[|u|] == ':';
    assert s[..|u|] == u;
    FirstColonIs(s, |u|);
    assert s[|u| + 1..] == p;
  }

  lemma FirstColonIs(s: string, k: nat)
    requires k < |s| && s[k] == ':' && ':' !in s[..k]
    ensures FirstColon(s) == Some(k)
  {
    var r := FirstColon(s);
    assert s[..k + 1][k] == ':';
  }

  /**
   * `basic_authentication`: the `Authorization` header, as text, must be
   * "Basic " followed by the base64 form of the UTF-8 text "username:password".
   * The username is the text before the first ':', the password everything
   * after it.
   */
  function BasicAuthentication(headers: Http.HeaderMap): (r: Result<Credentials, AuthHeaderError>)
    ensures r != Err(NoUsername)
    ensures r == Err(MissingHeader) <==> headers.Get("Authorization").None?
    ensures r.Ok? <==> Payload(headers).Some? && ':' in Payload(headers).value
    ensures r == Err(NoPassword) <==> Payload(headers).Some? && ':' !in Payload(headers).value
    ensures r.Ok? ==> r.value.username + ":" + r.value.password.exposed == Payload(headers).value
    ensures r.Ok? ==> ':' !in r.value.username
  {
    var value :- OrFail(headers.Get("Authorization"), MissingHeader);
    var text :- OrFail(Http.ToStr(value), NotText);
    var segment :- OrFail(StripPrefix(text, BASIC), NotBasic);
    var decodedBytes :- OrFail(Base64.Decode(segment), NotBase64);
    var decoded :- OrFail(Utf8.Decode(decodedBytes), NotUtf8);
    var credentials := SplitN(decoded);
    if |credentials| < 1 then Err(NoUsername)
    else
      var username := credentials[0];
      if |credentials| < 2 then Err(NoPassword)
      else
        var password := credentials[1];
        Ok(Credentials(username, Secret(password)))
  }

  /**
   * A reference definition, stated without the failure plumbing, of the text
   * an `Authorization` header carries: "Basic " followed by a canonical base64
   * token whose octets are well-formed UTF-8. `BasicAuthentication`'s
   * contract is stated against it.
   */
  function Payload(headers: Http.HeaderMap): Option<string> {
    var value := headers.Get("Authorization");
    if value.None? then None
    else
      var text := Http.ToStr(value.value);
      if text.None? || |text.value| < |BASIC| || text.value[..|BASIC|] != BASIC then None
      else
        match Base64.Decode(text.value[|BASIC|..])
        case None => None
        case Some(octets) => Utf8.Decode(octets)
  }

  /** Each failure is reported at the first step that rejects the header. */
  lemma FailureStages(headers: Http.HeaderMap)
    ensures var value := headers.Get("Authorization");
      && (BasicAuthentication(headers) == Err(NotText) <==> value.Some? && Http.ToStr(value.value).None?)
      && (BasicAuthentication(headers) == Err(NotBasic) <==>
            value.Some? && Http.ToStr(value.value).Some? && StripPrefix(Http.ToStr(value.value).value, BASIC).None?)
      && (BasicAuthentication(headers) == Err(NotBase64) <==>
            value.Some? && Http.ToStr(value.value).Some? && StripPrefix(Http.ToStr(value.value).value, BASIC).Some?
            && Base64.Decode(StripPrefix(Http.ToStr(value.value).value, BASIC).value).None?)
  {
  }

  /** The `Authorization` text a client sends for the given credentials. */
  function BasicHeader(username: string, password: string): string {
    BASIC + Base64.Encode(Utf8.Encode(username + ":" + password))
  }

  /** A client's header text is valid header text: visible ASCII only. */
  lemma BasicHeaderIsVisible(username: string, password: string)
    ensures forall i :: 0 <= i < |BasicHeader(username, password)| ==>
      var c := BasicHeader(username, password)[i]; c == '\t' || (' ' <= c <= '~')
  {
    var token := Base64.Encode(Utf8.Encode(username + ":" + password));
    var text := BASIC + token;
    forall i | 0 <= i < |text|
      ensures text[i] == '\t' || (' ' <= text[i] <= '~')
    {
      if i >= |BASIC| {
        assert text[i] == token[i - |BASIC|];
      }
    }
  }

  /** What a client sends is read back exactly. */
  lemma BasicAuthenticationRoundTrip(headers: Http.HeaderMap, username: string, password: string)
    requires ':' !in username
    requires headers.Get("Authorization").Some?
    requires Http.ToStr(headers.Get("Authorization").value) == Some(BasicHeader(username, password))
    ensures BasicAuthentication(headers) == Ok(Credentials(username, Secret(password)))
  {
    var token := Base64.Encode(Utf8.Encode(username + ":" + password));
    var text := BASIC + token;
    assert StripPrefix(text, BASIC) == Some(token) by {
      assert text[..|BASIC|] == BASIC;
      assert text[|BASIC|..] == token;
    }
    Base64.DecodeEncode(Utf8.Encode(username + ":" + password));
    Utf8.DecodeEncode(username + ":" + password);
    SplitNJoin(username, password);
  }

  /**
   * The credentials read from a header are the ones it was built from, and
   * nothing else is accepted: a header yields `c` exactly when its text is
   * the one a client sends for `c`, with a username free of ':'. The decoders
   * accept only canonical input, so the text is unique for each `c`.
   */
  lemma BasicAuthenticationExactly(headers: Http.HeaderMap, c: Credentials)
    ensures BasicAuthentication(headers) == Ok(c) <==>
      && ':' !in c.username
      && headers.Get("Authorization").Some?
      && Http.ToStr(headers.Get("Authorization").value) == Some(BasicHeader(c.username, c.password.exposed))
  {
    if BasicAuthentication(headers) == Ok(c) {
      var text := Http.ToStr(headers.Get("Authorization").value).value;
      var token := text[|BASIC|..];
      assert text == BASIC + token;
      var octets := Base64.Decode(token).value;
      Base64.EncodeDecode(token);
      Utf8.EncodeDecode(octets);
    } else if ':' !in c.username && headers.Get("Authorization").Some?
      && Http.ToStr(headers.Get("Authorization").value) == Some(BasicHeader(c.username, c.password.exposed)) {
      BasicAuthenticationRoundTrip(headers, c.username, c.password.exposed);
    }
  }

  /**
   * A request whose `Authorization` value was built with
   * `HeaderValue::from_str(BasicHeader(u, p))` authenticates as `u` with
   * password `p`, for any `u` without ':' (empty included) and any `p`
   * (':' included).
   */
  lemma ClientHeaderAccepted(headers: Http.HeaderMap, username: string, password: string)
    requires ':' !in username
    requires headers.Get("Authorization") == Http.FromStr(BasicHeader(username, password))
    ensures BasicAuthentication(headers) == Ok(Credentials(username, Secret(password)))
  {
    BasicHeaderIsVisible(username, password);
    Http.FromStrToStr(BasicHeader(username, password));
    BasicAuthenticationRoundTrip(headers, username, password);
  }

  /** An address that `SubscriberEmail::parse` accepted; it displays as the address. */
  datatype SubscriberEmail = SubscriberEmail(address: string)

  datatype ConfirmedSubscriber = ConfirmedSubscriber(email: SubscriberEmail)

  /** One stored row: a subscriber when its address parses, the parse error otherwise. */
  function SubscriberOfRow(email: string, parseEmail: string -> Result<SubscriberEmail, string>): (r: Result<ConfirmedSubscriber, ErrorValue>)
    ensures r.Ok? <==> parseEmail(email).Ok?
    ensures r.Ok? ==> r.value.email == parseEmail(email).value
    ensures r.Err? ==> r.error == Message(parseEmail(email).error)
  {
    match parseEmail(email)
    case Ok(address) => Ok(ConfirmedSubscriber(address))
    case Err(error) => Err(Message(error))
  }

  /**
   * `get_confirmed_subscribers`, given what the query returned: the emails
   * of the confirmed subscriptions in the order the database gave them, or
   * the query's error, passed on unchanged.
   */
  function GetConfirmedSubscribers(query: Result<seq<string>, ErrorValue>, parseEmail: string -> Result<SubscriberEmail, string>)
    : (r: Result<seq<Result<ConfirmedSubscriber, ErrorValue>>, ErrorValue>)
    ensures r.Err? <==> query.Err?
    ensures r.Err? ==> r.error == query.error
    ensures r.Ok? ==> |r.value| == |query.value|
    ensures r.Ok? ==> forall i :: 0 <= i < |query.value| ==>
      && (r.value[i].Ok? <==> parseEmail(query.value[i]).Ok?)
      && (r.value[i].Ok? ==> r.value[i].value.email == parseEmail(query.value[i]).value)
  {
    match query
    case Err(e) => Err(e)
    case Ok(rows) =>
      Ok(seq(|rows|, i requires 0 <= i < |rows| => SubscriberOfRow(rows[i], parseEmail)))
  }

  datatype Content = Content(text: string, html: string)

  /** The request body: the issue's title and its two renderings. */
  datatype BodyData = BodyData(title: string, content: Content)

  /** One call of `send_email(recipient, subject, html_content, text_content)`. */
  datatype Email = Email(recipient: SubscriberEmail, subject: string, htmlContent: string, textContent: string)

  function Issue(recipient: SubscriberEmail, body: BodyData): Email {
    Email(recipient, body.title, body.content.html, body.content.text)
  }

  /** The sends the loop makes when none fails: one per valid row, in order; invalid rows give none. */
  function Planned(subscribers: seq<Result<ConfirmedSubscriber, ErrorValue>>, body: BodyData): (r: seq<Email>)
    ensures |r| <= |subscribers|
    decreases |subscribers|
  {
    if subscribers == [] then []
    else
      var last := subscribers[|subscribers| - 1];
      Planned(subscribers[..|subscribers| - 1], body) + (if last.Ok? then [Issue(last.value.email, body)] else [])
  }

  lemma PlannedStep(subscribers: seq<Result<ConfirmedSubscriber, ErrorValue>>, i: nat, body: BodyData)
    requires i < |subscribers|
    ensures Planned(subscribers[..i + 1], body)
         == Planned(subscribers[..i], body) + (if subscribers[i].Ok? then [Issue(subscribers[i].value.email, body)] else [])
  {
    assert subscribers[..i + 1][..i] == subscribers[..i];
  }

  lemma {:induction false} PlannedAppend(s: seq<Result<ConfirmedSubscriber, ErrorValue>>, t: seq<Result<ConfirmedSubscriber, ErrorValue>>, body: BodyData)
    ensures Planned(s + t, body) == Planned(s, body) + Planned(t, body)
    decreases |t|
  {
    if t == [] {
      assert s + t == s;
    } else {
      var init := t[..|t| - 1];
      assert (s + t)[..|s + t| - 1] == s + init;
      PlannedAppend(s, init, body);
    }
  }

  /** An invalid row adds no send and does not disturb the others. */
  lemma InvalidRowSkipped(s: seq<Result<ConfirmedSubscriber, ErrorValue>>, e: ErrorValue, t: seq<Result<ConfirmedSubscriber, ErrorValue>>, body: BodyData)
    ensures Planned(s + [Err(e)] + t, body) == Planned(s + t, body)
  {
    var row: seq<Result<ConfirmedSubscriber, ErrorValue>> := [Err(e)];
    PlannedAppend(s + row, t, body);
    PlannedAppend(s, row, body);
    PlannedAppend(s, t, body);
    assert row[..0] == [];
  }

  /** When every row is valid, every subscriber gets exactly one send, in list order. */
  lemma {:induction false} AllValidRowsPlanned(s: seq<Result<ConfirmedSubscriber, ErrorValue>>, body: BodyData)
    requires forall i :: 0 <= i < |s| ==> s[i].Ok?
    ensures |Planned(s, body)| == |s|
    ensures forall i :: 0 <= i < |s| ==> Planned(s, body)[i] == Issue(s[i].value.email, body)
    decreases |s|
  {
    if s != [] {
      AllValidRowsPlanned(s[..|s| - 1], body);
    }
  }

  /** The first sends planned for a prefix of the rows are the first sends planned for all of them. */
  lemma PlannedPrefix(s: seq<Result<ConfirmedSubscriber, ErrorValue>>, i: nat, body: BodyData)
    requires i <= |s|
    ensures |Planned(s[..i], body)| <= |Planned(s, body)|
    ensures Planned(s[..i], body) == Planned(s, body)[..|Planned(s[..i], body)|]
  {
    PlannedAppend(s[..i], s[i..], body);
    assert s[..i] + s[i..] == s;
  }

  /**
   * The mail service. `sent` lists every request made, in order; the k-th
   * request fails, with `failure(k)`, when `fails(k)` holds.
   */
  class EmailClient {
    var sent: seq<Email>
    const fails: nat -> bool
    const failure: nat -> ErrorValue

    constructor (fails: nat -> bool, failure: nat -> ErrorValue)
      ensures sent == [] && this.fails == fails && this.failure == failure
    {
      sent := [];
      this.fails := fails;
      this.failure := failure;
    }

    /** `send_email`: makes one request, whatever its outcome. */
    method SendEmail(recipient: SubscriberEmail, subject: string, htmlContent: string, textContent: string)
      returns (r: Result<(), ErrorValue>)
      modifies this
      ensures sent == old(sent) + [Email(recipient, subject, htmlContent, textContent)]
      ensures r.Ok? <==> !fails(|old(sent)|)
      ensures r.Err? ==> r.error == failure(|old(sent)|)
    {
      r := if fails(|sent|) then Err(failure(|sent|)) else Ok(());
      sent := sent + [Email(recipient, subject, htmlContent, textContent)];
    }
  }

  const SEND_FAILED: string := "Failed to send email to subscriber "

  /** The error reported when the send to `recipient` fails with `cause`. */
  function SendFailure(recipient: SubscriberEmail, cause: ErrorValue): (r: AuthError)
    ensures r.UnexpectedError? && StatusCode(r) == Http.INTERNAL_SERVER_ERROR
    ensures Messages(Some(r.cause)) == [SEND_FAILED + recipient.address] + Messages(Some(cause))
  {
    UnexpectedError(Context(SEND_FAILED + recipient.address, cause))
  }

  /**
   * When the send for row i is the first one to fail, it is the first failure
   * among all planned sends, and the sends made so far are the planned ones up
   * to and including it.
   */
  lemma FirstFailureAt(subscribers: seq<Result<ConfirmedSubscriber, ErrorValue>>, body: BodyData, fails: nat -> bool, base: nat, i: nat)
    requires i < |subscribers| && subscribers[i].Ok?
    requires forall n :: base <= n < base + |Planned(subscribers[..i], body)| ==> !fails(n)
    requires fails(base + |Planned(subscribers[..i], body)|)
    ensures var planned := Planned(subscribers, body);
      var k := |Planned(subscribers[..i], body)|;
      && FirstWhere(fails, base, base + |planned|) == Some(base + k)
      && k < |planned|
      && planned[..k + 1] == Planned(subscribers[..i + 1], body)
      && planned[k].recipient == subscribers[i].value.email
  {
    PlannedStep(subscribers, i, body);
    PlannedPrefix(subscribers, i + 1, body);
    var k := |Planned(subscribers[..i], body)|;
    FirstWhereIs(fails, base, base + |Planned(subscribers, body)|, base + k);
  }

  /**
   * The outcome of sending `planned`, in order, to a mail service that had
   * received `before` and whose k-th request fails with `failure(k)` when
   * `fails(k)`: without a failure, all planned sends are made and nothing is
   * reported; otherwise the sends stop right after the first failing one,
   * which is reported for its recipient.
   */
  predicate Delivered(planned: seq<Email>, fails: nat -> bool, failure: nat -> ErrorValue,
                      before: seq<Email>, after: seq<Email>, reported: Option<AuthError>)
  {
    var base := |before|;
    match FirstWhere(fails, base, base + |planned|)
    case None => reported.None? && after == before + planned
    case Some(n) =>
      && after == before + planned[..n - base + 1]
      && reported == Some(SendFailure(planned[n - base].recipient, failure(n)))
  }

  /**
   * Whatever the mail service answers, the requests made are the planned
   * sends, in order, up to and including the first failing one; a failure
   * is reported exactly when one of the planned sends failed, and it is the
   * last request made.
   */
  lemma DeliveredStopsAtFirstFailure(planned: seq<Email>, fails: nat -> bool, failure: nat -> ErrorValue,
                                     before: seq<Email>, after: seq<Email>, reported: Option<AuthError>)
    requires Delivered(planned, fails, failure, before, after, reported)
    ensures |before| <= |after| <= |before| + |planned|
    ensures after == before + planned[..|after| - |before|]
    ensures reported.None? <==> forall n :: |before| <= n < |before| + |planned| ==> !fails(n)
    ensures forall n :: |before| <= n < |after| - 1 ==> !fails(n)
    ensures reported.None? ==> after == before + planned
    ensures reported.Some? ==>
      && |after| > |before| && fails(|after| - 1)
      && reported == Some(SendFailure(after[|after| - 1].recipient, failure(|after| - 1)))
  {
    var base := |before|;
    match FirstWhere(fails, base, base + |planned|)
    case None =>
      assert planned[..|planned|] == planned;
    case Some(n) =>
      assert after[|after| - 1] == planned[n - base];
  }

  /** None of the `k` requests made after the first `base` failed. */
  ghost predicate NoneFailed(fails: nat -> bool, base: nat, k: int) {
    forall n :: base <= n < base + k ==> !fails(n)
  }

  lemma NoneFailedStep(fails: nat -> bool, base: nat, k: nat)
    requires NoneFailed(fails, base, k) && !fails(base + k)
    ensures NoneFailed(fails, base, k + 1)
  {
  }

  /** Every planned send succeeded: all of them were made and nothing is reported. */
  lemma AllDelivered(planned: seq<Email>, fails: nat -> bool, failure: nat -> ErrorValue, before: seq<Email>, after: seq<Email>)
    requires NoneFailed(fails, |before|, |planned|)
    requires after == before + planned
    ensures Delivered(planned, fails, failure, before, after, None)
  {
  }

  /** The send for row i is the first to fail: the loop's exit at that point is `Delivered`. */
  lemma FailedAt(subscribers: seq<Result<ConfirmedSubscriber, ErrorValue>>, body: BodyData, fails: nat -> bool,
                 failure: nat -> ErrorValue, before: seq<Email>, after: seq<Email>, reported: AuthError, i: nat)
    requires i < |subscribers| && subscribers[i].Ok?
    requires NoneFailed(fails, |before|, |Planned(subscribers[..i], body)|)
    requires fails(|before| + |Planned(subscribers[..i], body)|)
    requires after == before + Planned(subscribers[..i + 1], body)
    requires reported == SendFailure(subscribers[i].value.email, failure(|before| + |Planned(subscribers[..i], body)|))
    ensures Delivered(Planned(subscribers, body), fails, failure, before, after, Some(reported))
  {
    FirstFailureAt(subscribers, body, fails, |before|, i);
  }

  /**
   * The `for` loop of `publish_newsletter`. Invalid rows are skipped; each
   * valid one gets one send, in order. If every send succeeds, the client
   * received exactly the planned sends; otherwise the loop stops at the first
   * failing send, which is the last request made, and reports it for that
   * subscriber.
   */
  method SendToSubscribers(subscribers: seq<Result<ConfirmedSubscriber, ErrorValue>>, body: BodyData, client: EmailClient)
    returns (r: Result<(), AuthError>)
    modifies client
    ensures Delivered(Planned(subscribers, body), client.fails, client.failure, old(client.sent), client.sent,
                      if r.Ok? then None else Some(r.error))
  {
    ghost var start := client.sent;
    ghost var base := |client.sent|;
    ghost var fails := client.fails;
    ghost var failure := client.failure;
    var i := 0;
    while i < |subscribers|
      invariant i <= |subscribers|
      invariant client.sent == start + Planned(subscribers[..i], body)
      invariant NoneFailed(fails, base, |client.sent| - base)
      decreases |subscribers| - i
    {
      ghost var done := Planned(subscribers[..i], body);
      PlannedStep(subscribers, i, body);
      match subscribers[i] {
        case Ok(subscriber) =>
          var sent := client.SendEmail(subscriber.email, body.title, body.content.html, body.content.text);
          AppendAssoc(start, done, [Issue(subscriber.email, body)]);
          if sent.Err? {
            r := Err(SendFailure(subscriber.email, sent.error));
            FailedAt(subscribers, body, fails, failure, start, client.sent, r.error, i);
            return;
          }
          NoneFailedStep(fails, base, |done|);
        case Err(_) =>
      }
      i := i + 1;
    }
    assert subscribers[..i] == subscribers;
    r := Ok(());
    AllDelivered(Planned(subscribers, body), fails, failure, start, client.sent);
  }

  /** Header parsing and credential validation together, as the handler's first two steps. */
  function Authenticate(headers: Http.HeaderMap, users: UsersTable, argon2: Argon2, joinFailure: Option<ErrorValue>): (r: Result<Uuid, AuthError>)
    ensures BasicAuthentication(headers).Err? ==> r == Err(InvalidCredentials(HeaderError(BasicAuthentication(headers).error)))
    ensures BasicAuthentication(headers).Ok? ==> r == ValidationOutcome(BasicAuthentication(headers).value, users, argon2, joinFailure)
  {
    match BasicAuthentication(headers)
    case Err(f) => Err(InvalidCredentials(HeaderError(f)))
    case Ok(credentials) => ValidationOutcome(credentials, users, argon2, joinFailure)
  }

  /** A malformed header is always answered with 401, whatever the users table says. */
  lemma BadHeaderIsUnauthorized(headers: Http.HeaderMap, users: UsersTable, argon2: Argon2, joinFailure: Option<ErrorValue>)
    requires BasicAuthentication(headers).Err?
    ensures Authenticate(headers, users, argon2, joinFailure).Err?
    ensures StatusCode(Authenticate(headers, users, argon2, joinFailure).error) == Http.UNAUTHORIZED
  {
  }

  /**
   * `publish_newsletter`. Nothing is sent unless the request authenticates;
   * a failed subscriber query is a 500; otherwise the issue goes out as
   * `SendToSubscribers` describes, and success is an empty 200.
   */
  method PublishNewsletter(
    body: BodyData, headers: Http.HeaderMap, users: UsersTable, confirmed: Result<seq<string>, ErrorValue>,
    parseEmail: string -> Result<SubscriberEmail, string>, argon2: Argon2, pool: BlockingPool, client: EmailClient)
    returns (r: Result<Http.Response, AuthError>)
    modifies pool, client
    ensures var auth := Authenticate(headers, users, argon2, pool.joinFailure(old(pool.spawned)));
      && (auth.Err? ==> r == Err(auth.error) && client.sent == old(client.sent))
      && (auth.Ok? && confirmed.Err? ==> r == Err(UnexpectedError(confirmed.error)) && client.sent == old(client.sent))
      && (auth.Ok? && confirmed.Ok? ==>
            Delivered(Planned(GetConfirmedSubscribers(confirmed, parseEmail).value, body), client.fails, client.failure,
                      old(client.sent), client.sent, if r.Ok? then None else Some(r.error)))
    ensures pool.spawned == old(pool.spawned) +
      (if BasicAuthentication(headers).Ok? && users.outage.None? && BasicAuthentication(headers).value.username in users.rows
       then 1 else 0)
    ensures r.Ok? ==> fresh(r.value) && r.value.status == Http.OK && r.value.headers == Http.EMPTY && r.value.body == []
  {
    ghost var auth := Authenticate(headers, users, argon2, pool.joinFailure(pool.spawned));
    var parsed := BasicAuthentication(headers);
    if parsed.Err? {
      return Err(InvalidCredentials(HeaderError(parsed.error)));
    }
    var credentials := parsed.value;
    var userId := ValidateCredentials(credentials, users, argon2, pool);
    assert userId == auth;
    if userId.Err? {
      return Err(userId.error);
    }
    var subscribers := GetConfirmedSubscribers(confirmed, parseEmail);
    if subscribers.Err? {
      return Err(UnexpectedError(subscribers.error));
    }
    ghost var before := client.sent;
    assert before == old(client.sent);
    var sent := SendToSubscribers(subscribers.value, body, client);
    if sent.Err? {
      return Err(sent.error);
    }
    var response := new Http.Response(Http.OK);
    r := Ok(response);
  }
}
