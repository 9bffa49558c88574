# zero2prod newsletter publishing, modelled in Dafny

This project models the authenticated publish path of the zero2prod
newsletter service and proves properties of the model. It covers five pieces:

- **Credential extraction.** `POST /newsletters` reads HTTP Basic credentials
  from the `Authorization` header (`basic_authentication`).
- **Credential check.** `validate_credentials` and `verify_password_hash`
  check the credentials against the `users` table with Argon2.
- **Error mapping.** An authentication failure becomes a 401 challenge or a
  500 (`AuthError`, `status_code`, `error_response`), and the error chain is
  written to a log formatter (`error_chain_fmt`).
- **Fan-out.** The handler loads the confirmed subscribers and sends the
  issue to each valid address in order, stopping at the first failed
  delivery (`publish_newsletter`, `get_confirmed_subscribers`).
- **Name validation.** `SubscriberName::parse` validates a subscriber's
  display name. Its condition is inverted; see "## Findings".

## Modules

- `Wrappers`: Option and Result with failure propagation (`:-`).
- `Common`: octets, concatenation of text fragments, and `FirstWhere`. That
  function gives the first call at which an external collaborator fails.
- `Errors`: an error value as `std::error::Error` exposes it (display text
  plus optional source), with anyhow's `context`.
- `Base64`: the `base64` crate's `STANDARD` engine, specified by section 4 of
  RFC 4648.
  - Padding is required.
  - Non-zero trailing bits are rejected (the canonical form of section 3.5 of RFC 4648).
  - There is an encoder and a decoder, both proved.
- `Utf8`: `str::as_bytes` and `String::from_utf8`, using the well-formed
  sequences of Table 3-7 of the Unicode Standard. Overlong forms, surrogates
  and values above U+10FFFF are rejected.
- `Http`: the actix-web header map with case-insensitive names, and
  `HeaderValue::to_str` and `from_str`. `Response` is a class whose header
  map is changed in place, as `headers_mut().insert` does.
- `Routes`: `error_chain_fmt`, written against a `Formatter` class. It
  records each accepted `writeln!` and may refuse any call.
- `Authentication`: `AuthError`, its response mapping and `Debug` impl,
  `get_stored_credentials`, `verify_password_hash` and
  `validate_credentials`.
  - The users table, Argon2 and the blocking-task runtime are inputs.
  - The table is a map, or a query failure.
  - Argon2 is a hash parser plus a verifier.
  - `BlockingPool` counts the tasks spawned; joining the k-th can fail.
- `Newsletter`: `basic_authentication`, `get_confirmed_subscribers`, the
  request body, the mail client and `publish_newsletter`.
  - The mail client is a class that records every request.
  - Its k-th request fails when an oracle says so.
- `Domain`: `SubscriberName`, `inner_ref` and `parse`, as written and as
  intended.

## Behaviour of the code worth knowing

- **No verification for unknown users.** `validate_credentials` runs no
  password verification when the username is not in the table
  (src/authentication.rs:61-72). It returns "Invalid username." straight
  away. `ValidateCredentials` states this through its count of spawned
  tasks.
- **A bad stored hash is a 500.** A stored hash that does not parse is
  wrapped in `UnexpectedError` (src/authentication.rs:83-85), so the answer
  is 500.
- **A malformed header is a 401.** Every failure of `basic_authentication`
  is wrapped in `InvalidCredentials` (src/routes/newsletter.rs:38), so it
  gets the same 401 as a wrong password.

## Model

| member | source | states |
|---|---|---|
| `Routes.Formatter.WriteLine` | src/routes/mod.rs:15 | One `writeln!`. The formatter records the text and a newline when the destination accepts the call, and nothing when it refuses; the call is counted either way. |
| `Routes.WriteCauses` | src/routes/mod.rs:16-21 | The `while let` loop makes one call per error of the source chain, nearest first, and stops at the first refused call. With no refusal (always so for an empty chain) all cause blocks are received and the result is Ok. Otherwise the result is an error, the last call was refused, and exactly the blocks before it were received. |
| `Routes.ErrorChainFmt` | src/routes/mod.rs:11-21 | `Wrote(Blocks(e), ...)`. At least one call was made and at most one per block. Every call but the last was accepted, and the result is Ok exactly when the last was accepted too. Then the formatter has received all of `Blocks(e)`, so its text grows by exactly `Rendered(e)`. Otherwise it has received exactly the blocks before the refused one, and nothing after it. |
| `Routes.RenderedStartsWithMessage` | src/routes/mod.rs:15 | The text opens with the top error's display text and a blank line, followed by the cause blocks. |
| `Routes.BlocksFollowChain` | src/routes/mod.rs:16-20 | One block per error in the source chain plus the first line. Block i+1 is "Caused by:\n\t" followed by the i-th cause and a newline, nearest cause first. |
| `Routes.NoSourceRendering` | src/routes/mod.rs:15-21 | An error without a source renders as its text and a blank line, and nothing more. |
| `Routes.ContextAddsOneCause` | src/routes/mod.rs:15-20 | Wrapping an error with `context` adds exactly one cause block, in front of the old causes. |
| `Base64.Decode` | src/routes/newsletter.rs:80-82 | `STANDARD.decode`. Accepted text has a length that is a multiple of four and holds only alphabet symbols and '='. Its meaning is fixed by `Base64.DecodeEncode` and `Base64.EncodeDecode`. |
| `Base64.DecodeEncode` | src/routes/newsletter.rs:80-82 | Decoding undoes encoding for every octet string. |
| `Base64.EncodeDecode` | src/routes/newsletter.rs:80-82 | The decoder accepts only canonical text: what it decodes is the encoding of the result. |
| `Base64.DecodeLength` | src/routes/newsletter.rs:80-82 | Accepted input has a length that is a multiple of four. The output has three octets per quantum, less at most two for padding. |
| `Utf8.Decode` | src/routes/newsletter.rs:83-84 | `String::from_utf8`. The result has at most one character per byte. Its meaning is fixed by `Utf8.DecodeEncode` and `Utf8.EncodeDecode`. |
| `Utf8.DecodeEncode` | src/routes/newsletter.rs:83-84 | The bytes of any string are well formed and decode back to it. |
| `Utf8.EncodeDecode` | src/routes/newsletter.rs:83-84 | Well-formed bytes are the encoding of what they decode to, so there is no overlong or alternative form. |
| `Http.HeaderMap.Get` | src/routes/newsletter.rs:71-73 | No value exactly when no entry has the name, compared case-insensitively. Otherwise the value is that of the first entry with the name. |
| `Http.ToStr` | src/routes/newsletter.rs:74-75 | Succeeds exactly when every byte is visible ASCII or a tab. The text then has one character per byte, with the same code. |
| `Http.FromStr` | src/authentication.rs:41 | Accepted exactly when every byte of the text's UTF-8 encoding is a tab or at least 32 and not 127. The value is then that encoding, which decodes back to the text. |
| `Http.FromStrToStr` | src/authentication.rs:41 | Visible-ASCII text is accepted by `from_str` and read back unchanged by `to_str`. |
| `Http.HeaderMap.Insert` | src/authentication.rs:42-44 | Afterwards the name has exactly one entry, holding the new value; the lookup of every other name is unchanged. |
| `Http.Response.constructor` | src/authentication.rs:40 | A new response has the given status, no headers and an empty body. |
| `Http.Response.InsertHeader` | src/authentication.rs:42-44 | The response's header map becomes the old map with the value inserted, and the body is unchanged. |
| `Authentication.AsError` | src/authentication.rs:16-22 | `InvalidCredentials` shows "Invalid credentials" above the wrapped error's chain. `UnexpectedError` shows the wrapped chain unchanged (transparent). |
| `Authentication.StatusCode` | src/authentication.rs:31-36 | 401 exactly for `InvalidCredentials`, and 500 exactly for `UnexpectedError`. |
| `Authentication.RealmIsHeaderText` | src/authentication.rs:41 | The `unwrap` cannot panic: `Basic realm="publish"` is a valid header value and reads back unchanged. |
| `Authentication.ErrorResponse` | src/authentication.rs:37-49 | The status always equals `status_code` and the body is empty. A 401 carries exactly one header, a single `WWW-Authenticate` entry whose text is `Basic realm="publish"`. A 500 carries no header. |
| `Authentication.DebugFmt` | src/authentication.rs:24-28 | `Debug` writes the error's chain as `error_chain_fmt` does: all blocks, or exactly those before a refused write. On success the text grows by the rendered chain. |
| `Authentication.InvalidCredentialsRendering` | src/authentication.rs:18-19 | Rejected credentials are logged as "Invalid credentials", then a blank line, the reason as the first cause, then the reason's own causes. |
| `Authentication.GetStoredCredentials` | src/authentication.rs:96-111 | An error exactly when the query fails, carrying the context "Failed to perform a query to validate auth credentials.". `Ok(None)` exactly when the user is absent. Otherwise the one stored (id, hash) pair. |
| `Authentication.VerifyPasswordHash` | src/authentication.rs:79-94 | Ok exactly when the stored hash parses and Argon2 accepts the candidate's UTF-8 bytes. An unparseable hash is `UnexpectedError` ("Failed to parse password hash"), whatever the candidate. A parsed hash with a rejected password is `InvalidCredentials` ("Invalid password"). |
| `Authentication.ValidationOutcome` | src/authentication.rs:52-73 | Ok exactly when: the lookup succeeds, the user exists, the task joins and verification passes. The id returned is the stored one. A query failure is `UnexpectedError`. An unknown user is `InvalidCredentials("Invalid username.")`. A join failure is `UnexpectedError("Failed to spawn blocking task")`. A verifier error passes through unchanged. |
| `Authentication.InvalidCredentialsReasons` | src/authentication.rs:57-72 | `InvalidCredentials` never comes from a failed lookup. It means an unknown user, or a joined task whose parsed hash rejected the password. |
| `Authentication.BlockingPool.SpawnVerify` | src/authentication.rs:64-69 | Spawns one task. It runs `verify_password_hash` and returns its result, unless joining that task fails. |
| `Authentication.ValidateCredentials` | src/authentication.rs:52-73 | The result is `ValidationOutcome` for the join outcome of the task this call would spawn. A task (one password verification) is spawned exactly when the lookup succeeded and the user exists, so an unknown user is rejected without verification. |
| `Newsletter.HeaderError` | src/routes/newsletter.rs:71-95 | The error reported for a header failure: its context message on top, over the header crate's `ToStrError` when the value is not text. |
| `Newsletter.StripPrefix` | src/routes/newsletter.rs:76-78 | Succeeds exactly when the text starts with the prefix, case-sensitively. The prefix followed by the result is the text. |
| `Newsletter.SplitN` | src/routes/newsletter.rs:86 | `splitn(2, ':')` gives one piece (the whole text) exactly when there is no ':'. Otherwise it gives the text before the first ':' and everything after it. |
| `Newsletter.SplitNJoin` | src/routes/newsletter.rs:86-95 | "u:p" splits back into u and p when u has no ':', whatever p holds. |
| `Newsletter.BasicAuthentication` | src/routes/newsletter.rs:70-101 | Never fails for want of a username. It reports a missing header exactly when there is no `Authorization` header. It succeeds exactly when the header carries decodable text containing ':'. It reports "No password" exactly when that text has no ':'. On success username + ":" + password is that text, and the username has no ':'. |
| `Newsletter.FailureStages` | src/routes/newsletter.rs:71-84 | Each failure is reported at the first step that rejects the header: not text, no case-sensitive "Basic " prefix, or not base64. |
| `Newsletter.BasicAuthenticationRoundTrip` | src/routes/newsletter.rs:80-100 | The header text "Basic " + base64(utf8(u + ":" + p)) yields exactly username u and password p, for any u without ':' and any p. |
| `Newsletter.BasicAuthenticationExactly` | src/routes/newsletter.rs:70-101 | A header yields credentials c exactly when its text is the one a client sends for c and c's username has no ':'. |
| `Newsletter.ClientHeaderAccepted` | src/routes/newsletter.rs:70-101 | A header value a client builds with `from_str` from that text authenticates as (u, p). This holds for the empty username and for passwords that contain ':'. |
| `Newsletter.SubscriberOfRow` | src/routes/newsletter.rs:116-119 | A row is a subscriber exactly when `SubscriberEmail::parse` accepts its address. Otherwise it is an error carrying the parse error's text. |
| `Newsletter.GetConfirmedSubscribers` | src/routes/newsletter.rs:107-123 | A query error is passed on unchanged. Otherwise there is one entry per row, in the same order, and entry i is Ok exactly when row i parses, holding the parsed address. |
| `Newsletter.PlannedAppend` | src/routes/newsletter.rs:45-65 | The sends planned for two lists of rows, one after the other, are the sends for the first followed by those for the second. |
| `Newsletter.InvalidRowSkipped` | src/routes/newsletter.rs:60-63 | An invalid row adds no send and leaves the sends for the other rows unchanged. |
| `Newsletter.AllValidRowsPlanned` | src/routes/newsletter.rs:45-59 | When every row is valid, each subscriber gets exactly one send (title, html, text of the issue), in list order. |
| `Newsletter.SendFailure` | src/routes/newsletter.rs:56-58 | A failed send is an `UnexpectedError` (500). Its chain is "Failed to send email to subscriber " + address over the service's error chain. |
| `Newsletter.EmailClient.SendEmail` | src/routes/newsletter.rs:48-55 | Every call makes one request, recorded whatever its outcome. It fails exactly when the service fails that request, with the service's error. |
| `Newsletter.FirstFailureAt` | src/routes/newsletter.rs:55-58 | The first send to fail is the first failure among all planned sends. The sends made up to it are exactly the planned ones through that send. |
| `Newsletter.DeliveredStopsAtFirstFailure` | src/routes/newsletter.rs:45-58 | The requests made are the planned sends in order, up to and including the first failure. A failure is reported exactly when some planned send failed. It is the last request made, reported for its recipient. |
| `Newsletter.SendToSubscribers` | src/routes/newsletter.rs:45-65 | The loop's outcome is `Delivered`. With no failure every planned send is made and the result is Ok. Otherwise requests stop after the first failure, which is reported as "Failed to send email to subscriber " + address over the service's error. |
| `Newsletter.Authenticate` | src/routes/newsletter.rs:37-41 | A header failure becomes `InvalidCredentials` over that failure. For a well-formed header the outcome is exactly that of `validate_credentials`, errors included: a lookup failure is a 500, an unknown user is "Invalid username.". |
| `Newsletter.BadHeaderIsUnauthorized` | src/routes/newsletter.rs:37-38 | A malformed header is always answered with 401, whatever the users table holds. |
| `Newsletter.PublishNewsletter` | src/routes/newsletter.rs:31-68 | **Authentication failure:** no email is sent, and the error is the authentication error. **Subscriber query failure:** no email is sent, and the result is `UnexpectedError` of that error. **Otherwise:** the sends and the result are `Delivered` for the planned sends. Exactly one password verification is spawned when the header is well formed, the lookup succeeds and the user exists; none otherwise (a malformed header, a failed lookup or an unknown user). **Success:** a fresh, empty 200 with no headers. |
| `Domain.TrimStart` | src/domain.rs:18 | Removes exactly the leading white space: the result is a suffix of the input and does not start with white space. |
| `Domain.TrimEnd` | src/domain.rs:18 | Removes exactly the trailing white space: the result is a prefix of the input and does not end with white space. |
| `Domain.TrimEmptyIffBlank` | src/domain.rs:18 | `trim()` is empty exactly when every character is Unicode white space, so whitespace-only input counts as empty. |
| `Domain.AnyContained` | src/domain.rs:22-24 | True exactly when some character of the name is in the forbidden list. |
| `Domain.ParseAsWritten` | src/domain.rs:17-31 | Returns, rather than panicking, exactly when the name is all white space, has more than 256 graphemes, or contains one of `/ ( ) " < > \ { }`. It then wraps the input unchanged, which `inner_ref` gives back. |
| `Domain.Parse` | src/domain.rs:17-31 | The corrected parse: it accepts exactly the names with a non-white-space character, at most 256 graphemes and no forbidden character. It wraps them unchanged. |
| `Domain.AsWrittenIsInverted` | src/domain.rs:26-30 | The code as written returns for exactly the names the intended check refuses. |
| `Domain.OrdinaryNamePanics` | src/domain.rs:26-27 | "le guin" (7 graphemes) makes the code as written panic, while the corrected parse accepts it. |
| `Domain.EmptyNameAccepted` | src/domain.rs:18-29 | The empty name is returned by the code as written and refused by the corrected parse. |
| `Domain.LengthLimitBoundary` | src/domain.rs:20 | The length test is strict: 256 graphemes pass and 257 do not. |

## Left out

- **Database access.** The `users` query and the `subscriptions` query are
  inputs: a map or a failure, and a list of e-mail texts or a failure. SQL,
  the connection pool and the shape of `sqlx::Error` are not modelled.
- **The mail transport.** The HTTP client inside `EmailClient` is an oracle
  deciding which requests fail, and with which error.
- **Argon2.** `PasswordHash::new`, `verify_password`, cost parameters and
  constant-time comparison are an abstract parser and verifier.
- **Async execution.** `spawn_blocking_with_tracing` and async/await are
  modelled as a sequential call. Joining the task may fail; this is modelled
  as an oracle.
- **Timing.** Resistance to timing attacks cannot be stated here, and the
  code has no dummy-hash branch anyway.
- **Tracing.** Spans, recorded fields and the `tracing::warn!` for skipped
  rows are not modelled.
- **Secrets.** `SecretString`'s protection against leaks is not modelled; a
  secret is a plain value.
- `Newsletter.HeaderError`: drops two library errors from the chain.
  `HeaderValue::to_str`'s fixed-text error is kept as the source. The base64
  `DecodeError` and the `FromUtf8Error` are not chained under their context
  messages, because their texts depend on library internals. Their `Debug`
  chain is therefore one "Caused by:" block shorter than the code's.
- `Routes.Formatter.WriteLine`: treats a refused `writeln!` as atomic, so
  it writes nothing. In Rust, `core::fmt::write` hands the pieces of one line
  to the destination one `write_str` at a time, so a refusal can come after
  part of the line was written. The "exactly the blocks before the refused
  one" clause of `Routes.WriteCauses`, `Routes.ErrorChainFmt` and
  `Authentication.DebugFmt` depends on this atomicity. Which piece of a line
  a destination refuses is not modelled.
- **Grapheme counting.** Unicode grapheme segmentation is a parameter
  function `graphemes`. `trim` is modelled exactly, over the Unicode
  White_Space list.
- `SubscriberEmail::parse` is not part of this model. It is a parameter, and
  a parsed address displays as its text.
- **Request body.** JSON deserialisation, and the 400 status for bodies with
  missing fields, belong to the framework. The body is given as a `BodyData`
  value.
- **Header insertion order.** `Http.HeaderMap.Insert` puts the new entry
  last rather than at the position of the replaced one. This affects only
  iteration order, not lookups.
- **Base64 input form.** The base64 decoder reads the token as characters
  rather than as the bytes of `as_bytes()`. The token comes from `to_str`,
  so it is ASCII, and the two views coincide.
- **Response type.** The response built by `error_response` and by
  `HttpResponse::Ok().finish()` is `Http.Response`. Only status, headers and
  body are modelled.

## Findings

| source | as written | input that shows it | evidently intended | confidence | as-written member | corrected member |
|---|---|---|---|---|---|---|
| src/domain.rs:26-30 | `parse` panics when the name passes all three checks, and wraps the name when any check fails | "le guin" panics; "" and a name containing '<' are accepted | return the name when all three checks pass, reject it otherwise | high; not executed | `Domain.ParseAsWritten`, shown by `Domain.OrdinaryNamePanics` | `Domain.Parse`, related by `Domain.AsWrittenIsInverted` |
