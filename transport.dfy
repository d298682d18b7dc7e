/**
 * The interface between a coroutine and the asynchronous transport.  A
 * coroutine runs until it starts an I/O operation or calls a continuation;
 * the `Action` says which.  When the operation completes, the machine is
 * resumed with a `Completion`: the error code, the byte count and, for a
 * read, the bytes that the transport wrote into the target buffer.
 */
module Transport {
  import opened Bytes
  import opened Errors

  datatype Completion = Completion(ec: ErrorCode, bytes: nat, received: seq<byte>)

  /** `operator()()` with its default arguments: the first, unprompted step. */
  const START: Completion := Completion(NO_ERROR, 0, [])

  datatype Action =
    /** `socket.async_connect(endpoint, *this)` */
    | Connect
    /** `async_read` of exactly `count` bytes, resuming the machine */
    | Read(count: nat)
    /** `async_write` of `data` in full, resuming the machine */
    | Write(data: seq<byte>)
    /** `async_write` of `data` whose completion goes straight to the caller's callback */
    | WriteThenCall(data: seq<byte>)
    /** `resumable_(ec, bytes)` or `on_error_(ec, bytes)` */
    | Invoke(ec: ErrorCode, bytes: nat)
    /** the client's `on_error_(ec)` */
    | InvokeError(ec: ErrorCode)
    /** `on_success_()` */
    | InvokeSuccess

  /** An action after which the machine never runs again: the caller has been, or will be, called. */
  predicate Terminal(a: Action)
  {
    a.WriteThenCall? || a.Invoke? || a.InvokeError? || a.InvokeSuccess?
  }
}
