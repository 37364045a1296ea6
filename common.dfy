/** Shared result and error types of the services. */
module Common {

  datatype Option<+T> = None | Some(value: T)

  /** The error kinds the services raise. `DbError` is a storage error that
      reaches the caller without being translated (code paths that have no
      catch-all); `code` is the driver's error code. */
  datatype Error = NotFound | Unauthorized | BadRequest | Internal | DbError(code: string)

  datatype Result<+T> = Ok(value: T) | Err(error: Error)

  /** A storage failure injected into one operation: the query numbered `step`
      (counting the operation's storage calls from 0, in program order) raises
      an error with driver code `code`. */
  datatype Fault = NoFault | FailAt(step: nat, code: string) {

    predicate At(k: nat) {
      FailAt? && step == k
    }

    /** The same fault as seen by a callee whose first storage call is this
        operation's call number `k`. */
    function From(k: nat): (f: Fault)
      ensures f.FailAt? <==> FailAt? && step >= k
      ensures f.FailAt? ==> f.step == step - k && f.code == code
    {
      if FailAt? && step >= k then FailAt(step - k, code) else NoFault
    }
  }

  function Min(a: int, b: int): int { if a <= b then a else b }
  function Max(a: int, b: int): int { if a >= b then a else b }
}
