/**
 * An error value as `std::error::Error` exposes it: its display text and its
 * optional source. An `anyhow::Error` built with `.context(msg)` over another
 * error has `msg` as its text and the wrapped error as its source; one built
 * with `anyhow!(msg)` or with `Option::context(msg)` has no source.
 */
module Errors {
  import opened Wrappers

  datatype ErrorValue = ErrorValue(message: string, source: Option<ErrorValue>)

  /** The display texts of an error chain, nearest first, root last. */
  function Messages(o: Option<ErrorValue>): (r: seq<string>)
    ensures o.None? <==> r == []
    ensures o.Some? ==> r[0] == o.value.message
    decreases o
  {
    match o
    case None => []
    case Some(e) => [e.message] + Messages(e.source)
  }

  /** The causes of `e`: the texts of its sources, from the nearest to the root. */
  function Causes(e: ErrorValue): seq<string> {
    Messages(e.source)
  }

  /** `.context(msg)` applied to an error. */
  function Context(msg: string, inner: ErrorValue): (r: ErrorValue)
    ensures Messages(Some(r)) == [msg] + Messages(Some(inner))
  {
    ErrorValue(msg, Some(inner))
  }

  /** `anyhow!(msg)`, or `.context(msg)` on a `None`. */
  function Message(msg: string): (r: ErrorValue)
    ensures Messages(Some(r)) == [msg]
  {
    ErrorValue(msg, None)
  }
}
