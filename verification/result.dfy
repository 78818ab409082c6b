/** The outcome of one step (or of graph validation): a success flag plus an
    optional value, message and throwable, fixed at construction. */
module Results {
  import opened Types

  /** The message `failure(throwable)` uses when it is given no message of its own. */
  const SomeExceptionMessage: string := "some exception happened"

  /** An immutable outcome. Every field of the Java object is final, so the
      datatype value is the object itself; the accessors are its destructors. */
  datatype Result = Result(
    successful: bool,
    value: Option<Value>,
    msg: Option<string>,
    throwable: Option<Throwable>)
  {
    predicate IsSuccessful() { successful }

    function GetValue(): Option<Value> { value }

    function GetMessage(): Option<string> { msg }

    function GetThrowable(): Option<Throwable> { throwable }
  }

  /** `Result.of`: a result with exactly the four given fields. */
  function Of(result: bool, value: Option<Value>, msg: Option<string>, throwable: Option<Throwable>): (r: Result)
    ensures r.IsSuccessful() == result && r.GetValue() == value
    ensures r.GetMessage() == msg && r.GetThrowable() == throwable
  {
    Result(result, value, msg, throwable)
  }

  /** `Result.success(v)`: successful, carries `v`, no message, no throwable. */
  function SuccessWith(v: Option<Value>): (r: Result)
    ensures r.IsSuccessful() && r.GetValue() == v
    ensures r.GetMessage().None? && r.GetThrowable().None?
  {
    Of(true, v, None, None)
  }

  /** `Result.success()`: successful with a null value. */
  function Success(): (r: Result)
    ensures r.IsSuccessful() && r.GetValue().None?
    ensures r.GetMessage().None? && r.GetThrowable().None?
  {
    SuccessWith(None)
  }

  /** `Result.failure(msg, throwable)`: unsuccessful, null value; either
      argument may itself be null. */
  function FailureWith(msg: Option<string>, throwable: Option<Throwable>): (r: Result)
    ensures !r.IsSuccessful() && r.GetValue().None?
    ensures r.GetMessage() == msg && r.GetThrowable() == throwable
  {
    Of(false, None, msg, throwable)
  }

  /** `Result.failure(msg)`: unsuccessful, null value, no throwable. */
  function Failure(msg: Option<string>): (r: Result)
    ensures !r.IsSuccessful() && r.GetValue().None?
    ensures r.GetMessage() == msg && r.GetThrowable().None?
  {
    FailureWith(msg, None)
  }

  /** `Result.failure(throwable)`: unsuccessful with the stock message, whatever
      the throwable (null included). */
  function FailureOf(t: Option<Throwable>): (r: Result)
    ensures !r.IsSuccessful() && r.GetValue().None?
    ensures r.GetMessage() == Some(SomeExceptionMessage) && r.GetThrowable() == t
  {
    FailureWith(Some(SomeExceptionMessage), t)
  }

  /** Reading the four accessors and handing them back to `of` rebuilds the
      same result: nothing about a result is hidden from, or lost by, its accessors. */
  lemma OfAccessorsRoundTrip(r: Result)
    ensures Of(r.IsSuccessful(), r.GetValue(), r.GetMessage(), r.GetThrowable()) == r
  {
  }

  /** Two results agree on every accessor only if they are the same result. */
  lemma AccessorsDetermineResult(a: Result, b: Result)
    requires a.IsSuccessful() == b.IsSuccessful() && a.GetValue() == b.GetValue()
    requires a.GetMessage() == b.GetMessage() && a.GetThrowable() == b.GetThrowable()
    ensures a == b
  {
  }

  /** No factory can produce something both successful and a failure. The
      success factories never carry a message; a failure carries one exactly
      when it was given one, and `failure(throwable)` always does. */
  lemma FactoriesAreDistinguishable(v: Option<Value>, m: Option<string>, t: Option<Throwable>)
    ensures SuccessWith(v) != FailureWith(m, t) && Success() != FailureWith(m, t)
    ensures SuccessWith(v).GetMessage().None?
    ensures FailureWith(m, t).GetMessage().Some? <==> m.Some?
    ensures FailureOf(t).GetMessage().Some? && SuccessWith(v) != FailureOf(t)
  {
  }
}
