/**
 * src/authentication.rs: the credential check behind the publish endpoint,
 * its error type and how that error becomes an HTTP response. The users
 * table, the blocking-task runtime and Argon2 are collaborators whose
 * answers are inputs to the model.
 */
module Authentication {
  import opened Wrappers
  import opened Common
  import opened Errors
  import Utf8
  import Http
  import Routes

  /** A `uuid::Uuid`: 128 bits. */
  type Uuid = x: int | 0 <= x < 0x1_0000_0000_0000_0000_0000_0000_0000_0000

  /** A `SecretString`; `exposed` is what `expose_secret()` gives. */
  datatype Secret = Secret(exposed: string)

  datatype Credentials = Credentials(username: string, password: Secret)

  /**
   * `AuthError`. `InvalidCredentials` displays as "Invalid credentials" and
   * has the wrapped error as its source; `UnexpectedError` is transparent:
   * it displays as, and has the source of, the wrapped error.
   */
  datatype AuthError = InvalidCredentials(cause: ErrorValue) | UnexpectedError(cause: ErrorValue)

  const INVALID_CREDENTIALS: string := "Invalid credentials"
  const QUERY_FAILED: string := "Failed to perform a query to validate auth credentials."
  const SPAWN_FAILED: string := "Failed to spawn blocking task"
  const BAD_HASH: string := "Failed to parse password hash"
  const BAD_PASSWORD: string := "Invalid password"
  const UNKNOWN_USER: string := "Invalid username."
  const REALM: string := "Basic realm=\"publish\""

  /** The error as `std::error::Error` sees it: its display text and its source chain. */
  function AsError(e: AuthError): (r: ErrorValue)
    ensures Messages(Some(r)) == (if e.InvalidCredentials? then [INVALID_CREDENTIALS] else []) + Messages(Some(e.cause))
  {
    match e
    case InvalidCredentials(cause) => Context(INVALID_CREDENTIALS, cause)
    case UnexpectedError(cause) => cause
  }

  /** `ResponseError::status_code`: 401 for bad credentials, 500 for everything else. */
  function StatusCode(e: AuthError): (r: nat)
    ensures r == Http.UNAUTHORIZED <==> e.InvalidCredentials?
    ensures r == Http.INTERNAL_SERVER_ERROR <==> e.UnexpectedError?
  {
    match e
    case InvalidCredentials(_) => Http.UNAUTHORIZED
    case UnexpectedError(_) => Http.INTERNAL_SERVER_ERROR
  }

  /** The challenge header's text is accepted by `HeaderValue::from_str` and read back unchanged. */
  lemma RealmIsHeaderText()
    ensures Http.FromStr(REALM).Some? && Http.ToStr(Http.FromStr(REALM).value) == Some(REALM)
  {
    assert REALM == ['B', 'a', 's', 'i', 'c', ' ', 'r', 'e', 'a', 'l', 'm', '=', '"', 'p', 'u', 'b', 'l', 'i', 's', 'h', '"'];
    assert forall i :: 0 <= i < |REALM| ==> ' ' <= REALM[i] <= '~';
    Http.FromStrToStr(REALM);
  }

  /**
   * `ResponseError::error_response`. Bad credentials give a 401 whose only
   * header is one `WWW-Authenticate: Basic realm="publish"`; anything else
   * gives a 500 with no header. The body is empty in both cases and the
   * status always agrees with `status_code`.
   */
  method ErrorResponse(e: AuthError) returns (resp: Http.Response)
    ensures fresh(resp)
    ensures resp.status == StatusCode(e) && resp.body == []
    ensures e.InvalidCredentials? ==>
      && |resp.headers.entries| == 1
      && Http.Count(resp.headers.entries, Http.WWW_AUTHENTICATE) == 1
      && resp.headers.Get(Http.WWW_AUTHENTICATE).Some?
      && Http.ToStr(resp.headers.Get(Http.WWW_AUTHENTICATE).value) == Some(REALM)
    ensures e.UnexpectedError? ==> resp.headers == Http.EMPTY
  {
    match e
    case InvalidCredentials(_) =>
      resp := new Http.Response(Http.UNAUTHORIZED);
      RealmIsHeaderText();
      var value := Http.FromStr(REALM).value;
      assert Http.ToStr(value) == Some(REALM);
      Http.InsertIntoEmpty(Http.WWW_AUTHENTICATE, value);
      resp.InsertHeader(Http.WWW_AUTHENTICATE, value);
    case UnexpectedError(_) =>
      resp := new Http.Response(Http.INTERNAL_SERVER_ERROR);
  }

  /** The `Debug` impl: the error chain as `error_chain_fmt` writes it. */
  method DebugFmt(e: AuthError, f: Routes.Formatter) returns (r: Result<(), Routes.FmtError>)
    modifies f
    ensures Routes.Wrote(Routes.Blocks(AsError(e)), f.refuses, old(f.writes), f.writes, old(f.out), f.out, r.Ok?)
    ensures r.Ok? ==> Concat(f.out) == Concat(old(f.out)) + Routes.Rendered(AsError(e))
  {
    r := Routes.ErrorChainFmt(AsError(e), f);
  }

  /** Rejected credentials are logged as "Invalid credentials", then the reason and its causes. */
  lemma InvalidCredentialsRendering(cause: ErrorValue)
    ensures Routes.Rendered(AsError(InvalidCredentials(cause)))
         == INVALID_CREDENTIALS + "\n\n" + Routes.CauseBlock(cause.message) + Concat(Routes.CauseBlocks(Causes(cause)))
  {
    Routes.ContextAddsOneCause(INVALID_CREDENTIALS, cause);
  }

  /** A user's row: its id and its PHC-format password hash. */
  datatype UserRecord = UserRecord(userId: Uuid, passwordHash: string)

  /**
   * The `users` table as the query sees it: at most one row per username
   * (a map), or, when `outage` is set, a query that fails with that error.
   */
  datatype UsersTable = UsersTable(rows: map<string, UserRecord>, outage: Option<ErrorValue>)

  /** `get_stored_credentials`: the user's id and hash, `Ok(None)` when absent, an error when the query fails. */
  function GetStoredCredentials(username: string, users: UsersTable): (r: Result<Option<(Uuid, Secret)>, ErrorValue>)
    ensures r.Err? <==> users.outage.Some?
    ensures r.Err? ==> r.error == Context(QUERY_FAILED, users.outage.value)
    ensures r == Ok(None) <==> users.outage.None? && username !in users.rows
    ensures r.Ok? && r.value.Some? ==>
      username in users.rows && r.value.value == (users.rows[username].userId, Secret(users.rows[username].passwordHash))
  {
    match users.outage
    case Some(failure) => Err(Context(QUERY_FAILED, failure))
    case None =>
      if username in users.rows then
        var row := users.rows[username];
        Ok(Some((row.userId, Secret(row.passwordHash))))
      else Ok(None)
  }

  /** A parsed PHC string. */
  datatype PasswordHash = PasswordHash(phc: string)

  /**
   * Argon2 as the code calls it: `PasswordHash::new` on the stored text and
   * `verify_password` of the candidate's bytes against the parsed hash.
   */
  datatype Argon2 = Argon2(
    parseHash: string -> Result<PasswordHash, ErrorValue>,
    verifyPassword: (seq<Byte>, PasswordHash) -> Result<(), ErrorValue>)

  /**
   * `verify_password_hash`: the stored hash is parsed first, and only a
   * parsed hash is checked against the candidate. An unparseable hash is
   * the server's fault; a mismatch is the client's.
   */
  function VerifyPasswordHash(expected: Secret, candidate: Secret, argon2: Argon2): (r: Result<(), AuthError>)
    ensures var parsed := argon2.parseHash(expected.exposed);
      && (r.Ok? <==> parsed.Ok? && argon2.verifyPassword(Utf8.Encode(candidate.exposed), parsed.value).Ok?)
      && (parsed.Err? ==> r == Err(UnexpectedError(Context(BAD_HASH, parsed.error))))
      && (parsed.Ok? && r.Err? ==> r == Err(InvalidCredentials(Context(BAD_PASSWORD,
            argon2.verifyPassword(Utf8.Encode(candidate.exposed), parsed.value).error))))
  {
    match argon2.parseHash(expected.exposed)
    case Err(e) => Err(UnexpectedError(Context(BAD_HASH, e)))
    case Ok(hash) =>
      match argon2.verifyPassword(Utf8.Encode(candidate.exposed), hash)
      case Err(e) => Err(InvalidCredentials(Context(BAD_PASSWORD, e)))
      case Ok(_) => Ok(())
  }

  /**
   * What `validate_credentials` resolves to, given the table, the Argon2
   * answers and whether the blocking task could be joined.
   */
  function ValidationOutcome(credentials: Credentials, users: UsersTable, argon2: Argon2, joinFailure: Option<ErrorValue>): (r: Result<Uuid, AuthError>)
    ensures var known := users.outage.None? && credentials.username in users.rows;
      && (r.Ok? <==>
            (known && joinFailure.None?
             && VerifyPasswordHash(Secret(users.rows[credentials.username].passwordHash), credentials.password, argon2).Ok?))
      && (r.Ok? ==> r.value == users.rows[credentials.username].userId)
      && (users.outage.Some? ==> r == Err(UnexpectedError(Context(QUERY_FAILED, users.outage.value))))
      && (users.outage.None? && credentials.username !in users.rows ==> r == Err(InvalidCredentials(Message(UNKNOWN_USER))))
      && (known && joinFailure.Some? ==> r == Err(UnexpectedError(Context(SPAWN_FAILED, joinFailure.value))))
      && (known && joinFailure.None? && r.Err? ==>
            r == Err(VerifyPasswordHash(Secret(users.rows[credentials.username].passwordHash), credentials.password, argon2).error))
  {
    match GetStoredCredentials(credentials.username, users)
    case Err(e) => Err(UnexpectedError(e))
    case Ok(None) => Err(InvalidCredentials(Message(UNKNOWN_USER)))
    case Ok(Some((userId, hash))) =>
      match joinFailure
      case Some(e) => Err(UnexpectedError(Context(SPAWN_FAILED, e)))
      case None =>
        match VerifyPasswordHash(hash, credentials.password, argon2)
        case Err(e) => Err(e)
        case Ok(_) => Ok(userId)
  }

  /**
   * A failed lookup is never blamed on the client, and a client is only
   * turned away for an unknown name or a password Argon2 rejected.
   */
  lemma InvalidCredentialsReasons(credentials: Credentials, users: UsersTable, argon2: Argon2, joinFailure: Option<ErrorValue>)
    requires ValidationOutcome(credentials, users, argon2, joinFailure).Err?
    requires ValidationOutcome(credentials, users, argon2, joinFailure).error.InvalidCredentials?
    ensures users.outage.None?
    ensures credentials.username in users.rows ==>
      var parsed := argon2.parseHash(users.rows[credentials.username].passwordHash);
      joinFailure.None? && parsed.Ok? && argon2.verifyPassword(Utf8.Encode(credentials.password.exposed), parsed.value).Err?
  {
    var r := ValidationOutcome(credentials, users, argon2, joinFailure);
    if credentials.username in users.rows {
      var hash := Secret(users.rows[credentials.username].passwordHash);
      assert VerifyPasswordHash(hash, credentials.password, argon2).Err?;
    }
  }

  /**
   * The runtime behind `spawn_blocking_with_tracing`: `spawned` counts the
   * tasks handed to it, and joining the k-th fails with
   * `joinFailure(k)` when that is set.
   */
  class BlockingPool {
    var spawned: nat
    const joinFailure: nat -> Option<ErrorValue>

    constructor (joinFailure: nat -> Option<ErrorValue>)
      ensures spawned == 0 && this.joinFailure == joinFailure
    {
      spawned := 0;
      this.joinFailure := joinFailure;
    }

    /** Runs `verify_password_hash(expected, candidate)` on a blocking thread and joins it. */
    method SpawnVerify(expected: Secret, candidate: Secret, argon2: Argon2) returns (r: Result<Result<(), AuthError>, ErrorValue>)
      modifies this
      ensures spawned == old(spawned) + 1
      ensures joinFailure(old(spawned)).Some? ==> r == Err(joinFailure(old(spawned)).value)
      ensures joinFailure(old(spawned)).None? ==> r == Ok(VerifyPasswordHash(expected, candidate, argon2))
    {
      var failure := joinFailure(spawned);
      spawned := spawned + 1;
      if failure.Some? {
        r := Err(failure.value);
      } else {
        r := Ok(VerifyPasswordHash(expected, candidate, argon2));
      }
    }
  }

  /**
   * `validate_credentials`. The password is verified, on one blocking task,
   * only when the user exists; an unknown user is rejected without any
   * verification at all.
   */
  method ValidateCredentials(credentials: Credentials, users: UsersTable, argon2: Argon2, pool: BlockingPool)
    returns (r: Result<Uuid, AuthError>)
    modifies pool
    ensures r == ValidationOutcome(credentials, users, argon2, pool.joinFailure(old(pool.spawned)))
    ensures pool.spawned == old(pool.spawned) + (if users.outage.None? && credentials.username in users.rows then 1 else 0)
  {
    var stored := GetStoredCredentials(credentials.username, users);
    if stored.Err? {
      return Err(UnexpectedError(stored.error));
    }
    var userId: Option<Uuid> := None;
    if stored.value.Some? {
      var (storedUserId, expectedPasswordHash) := stored.value.value;
      userId := Some(storedUserId);
      var joined := pool.SpawnVerify(expectedPasswordHash, credentials.password, argon2);
      if joined.Err? {
        return Err(UnexpectedError(Context(SPAWN_FAILED, joined.error)));
      }
      if joined.value.Err? {
        return Err(joined.value.error);
      }
    }
    if userId.None? {
      return Err(InvalidCredentials(Message(UNKNOWN_USER)));
    }
    r := Ok(userId.value);
  }
}
