/** `IMAPError` of src/error.rs: the error every parser-generation request
    path returns, an I/O error carrying the tag of the offending line. */
module Errors {
  import opened Bytes

  /** The `std::io::ErrorKind` values the server creates or tests for, and
      `Interrupted`, which the buffered reads retry and never report;
      `Other` stands for every remaining kind. */
  datatype ErrorKind =
    | InvalidInput
    | InvalidData
    | ConnectionAborted
    | WouldBlock
    | TimedOut
    | Interrupted
    | Other

  /** `std::io::Error`: a kind and a message. */
  datatype IoError = IoError(kind: ErrorKind, message: string)

  /** Whether `read_until` and `read_line` can return `e`: both retry a read
      that fails with `Interrupted`, so that kind never reaches the caller. */
  predicate Reported(e: IoError) { e.kind != Interrupted }

  datatype ImapError = ImapError(tag: seq<byte>, cause: IoError)

  /** `IMAPError::new` keeps tag and cause exactly as given. */
  function New(tag: seq<byte>, cause: IoError): (e: ImapError)
    ensures e.tag == tag && e.cause == cause
  {
    ImapError(tag, cause)
  }

  /** `should_panic`: only an aborted connection ends the session. */
  predicate ShouldPanic(e: ImapError) {
    e.cause.kind == ConnectionAborted
  }

  /** `can_ignore`: a read that would block or timed out may be retried. */
  predicate CanIgnore(e: ImapError) {
    e.cause.kind == WouldBlock || e.cause.kind == TimedOut
  }

  /** `should_panic` and `can_ignore` classify the cause kind exactly, and
      no error is both fatal and ignorable. */
  lemma Classification(e: ImapError)
    ensures ShouldPanic(e) <==> e.cause.kind == ConnectionAborted
    ensures CanIgnore(e) <==> e.cause.kind in {WouldBlock, TimedOut}
    ensures !(ShouldPanic(e) && CanIgnore(e))
  {
  }

  /** An error built on an `InvalidInput` cause, as every parser error is,
      is neither fatal nor ignorable. */
  lemma InvalidInputIsRecoverable(tag: seq<byte>, message: string)
    ensures !ShouldPanic(New(tag, IoError(InvalidInput, message)))
    ensures !CanIgnore(New(tag, IoError(InvalidInput, message)))
  {
  }
}
