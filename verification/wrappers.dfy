/** Failure-carrying datatypes shared by every layer of the model.

    Go returns `(value, error)` pairs and `nil` pointers; here a missing row is
    `None`, an error is `Err`/`Fail`, and the database driver's own failures are
    an explicit input (`Fault`) rather than something that happens to the model.
 */
module Wrappers {

  /** A Go pointer that may be nil. */
  datatype Option<T> = None | Some(value: T)

  /** A Go `error` value, identified by its text (`err.Error()`). */
  datatype Error = Error(msg: string)

  /** A `(value, error)` pair in which exactly one side is meaningful. */
  datatype Result<T> = Ok(value: T) | Err(error: Error)

  /** The result of a Go function that returns only an `error`. */
  datatype Outcome = Pass | Fail(error: Error)

  /** The database error channel, left uninterpreted.

      Every repository operation performs a fixed sequence of external calls
      (queries, `Exec`, `RowsAffected`, transaction begin/commit, bcrypt),
      numbered from 0 in source order. `FailAt(k, text)` makes call number k
      return a driver error whose text is `text`; every other call succeeds.
   */
  datatype Fault = NoFault | FailAt(step: nat, driverMsg: string) {

    /** True when external call number k fails. */
    predicate At(k: nat) {
      FailAt? && step == k
    }

    /** Calls 0 .. n-1 all succeed. */
    predicate Clear(n: nat) {
      forall k: nat :: k < n ==> !At(k)
    }

    /** The same fault as seen by a sub-operation whose first call is call
        number k of the caller. */
    function Shift(k: nat): (f: Fault)
      ensures forall j: nat :: f.At(j) <==> At(j + k)
      ensures f.FailAt? ==> FailAt? && f.driverMsg == driverMsg
    {
      if FailAt? && step >= k then FailAt(step - k, driverMsg) else NoFault
    }
  }

  /** `fmt.Errorf("<context>: %w", err)`. */
  function Wrap(context: string, inner: string): string {
    context + ": " + inner
  }

  /** The first k + n calls succeed exactly when the first k do and the n
      after them, as a sub-operation starting at call k sees them, do too. */
  lemma ClearShift(f: Fault, k: nat, n: nat)
    ensures f.Clear(k + n) <==> f.Clear(k) && f.Shift(k).Clear(n)
  {
    if f.Clear(k) && f.Shift(k).Clear(n) {
      forall j: nat | j < k + n ensures !f.At(j) {
        if j >= k {
          assert !f.Shift(k).At(j - k);
        }
      }
    }
  }

  /** The first n + 1 calls succeed exactly when the first n do and call n
      does. */
  lemma ClearNext(f: Fault, n: nat)
    ensures f.Clear(n + 1) <==> f.Clear(n) && !f.At(n)
  {
  }
}
