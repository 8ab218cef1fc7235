/**
 * The `retry(times, except_handler)` decorator of crawl.py.
 *
 * The wrapped call is modelled by the sequence of outcomes its successive
 * invocations would produce: `attempts[i]` is what the (i+1)-th call returns
 * or raises. The exception handler is modelled as a log of the exceptions it
 * is given; whether one is installed is `hasHandler` (Python's truthiness
 * test on `except_handler`).
 */
module Retry {

  /** The outcome of one invocation of the wrapped call. */
  datatype Attempt<+T, +E> = Ok(value: T) | Raise(error: E)

  /** How many invocations at most: `times - 1` guarded ones plus the final one. */
  function Budget(times: int): (n: nat)
    ensures n >= 1 && n >= times
    ensures n == 1 || n == times
  {
    if times > 1 then times else 1
  }

  /** Index of the first successful outcome, or `|attempts|` when none succeeds. */
  function FirstOk<T, E>(attempts: seq<Attempt<T, E>>): (i: nat)
    ensures i <= |attempts|
    ensures forall j :: 0 <= j < i ==> attempts[j].Raise?
    ensures i < |attempts| ==> attempts[i].Ok?
  {
    if attempts == [] then 0
    else if attempts[0].Ok? then 0
    else 1 + FirstOk(attempts[1..])
  }

  /**
   * The number of invocations the wrapper makes: it stops after the first
   * success, and never makes more than `Budget(times)`.
   */
  function Calls<T, E>(times: int, attempts: seq<Attempt<T, E>>): (n: nat)
    requires Budget(times) <= |attempts|
    ensures 1 <= n <= Budget(times)
    ensures forall j :: 0 <= j < n - 1 ==> attempts[j].Raise?
    ensures n < Budget(times) ==> attempts[n - 1].Ok?
  {
    if FirstOk(attempts) < Budget(times) then FirstOk(attempts) + 1 else Budget(times)
  }

  /** What the wrapper returns (`Ok`) or lets propagate (`Raise`). */
  function Outcome<T, E>(times: int, attempts: seq<Attempt<T, E>>): Attempt<T, E>
    requires Budget(times) <= |attempts|
  {
    attempts[Calls(times, attempts) - 1]
  }

  /** The exceptions carried by a run of failed invocations, in order. */
  function Errors<T, E>(failed: seq<Attempt<T, E>>): (es: seq<E>)
    requires forall j :: 0 <= j < |failed| ==> failed[j].Raise?
    ensures |es| == |failed|
    ensures forall j :: 0 <= j < |failed| ==> failed[j] == Raise(es[j])
  {
    seq(|failed|, j requires 0 <= j < |failed| => failed[j].error)
  }

  /**
   * The wrapped function: up to `times - 1` guarded invocations, each failure
   * handed to the handler when there is one, then one last unguarded
   * invocation whose outcome, success or exception, goes to the caller.
   */
  method Run<T, E>(times: int, hasHandler: bool, attempts: seq<Attempt<T, E>>)
    returns (r: Attempt<T, E>, calls: nat, handled: seq<E>)
    requires Budget(times) <= |attempts|
    ensures calls == Calls(times, attempts)
    ensures 1 <= calls <= Budget(times)
    ensures r == attempts[calls - 1]
    ensures forall j :: 0 <= j < calls - 1 ==> attempts[j].Raise?
    ensures r.Raise? ==> calls == Budget(times)
    ensures handled == if hasHandler then Errors(attempts[..calls - 1]) else []
  {
    calls, handled := 0, [];
    var i := 0;
    while i < times - 1
      invariant 0 <= i < Budget(times)
      invariant calls == i
      invariant forall j :: 0 <= j < i ==> attempts[j].Raise?
      invariant handled == if hasHandler then Errors(attempts[..i]) else []
    {
      calls := calls + 1;
      var a := attempts[i];
      if a.Ok? {
        r := a;
        return;
      }
      if hasHandler {
        handled := handled + [a.error];
      }
      i := i + 1;
    }
    calls := calls + 1;
    r := attempts[i];
  }

  /** Every one of the `Budget(times)` invocations fails. */
  predicate AllFail<T, E>(times: int, attempts: seq<Attempt<T, E>>)
    requires Budget(times) <= |attempts|
  {
    forall j :: 0 <= j < Budget(times) ==> attempts[j].Raise?
  }

  /**
   * A success within the budget is returned, and it is the first one:
   * no invocation follows it.
   */
  lemma FirstSuccessReturned<T, E>(times: int, attempts: seq<Attempt<T, E>>, i: nat)
    requires Budget(times) <= |attempts|
    requires i < Budget(times) && attempts[i].Ok?
    ensures Outcome(times, attempts).Ok?
    ensures Calls(times, attempts) == FirstOk(attempts) + 1 <= i + 1
    ensures Outcome(times, attempts) == attempts[FirstOk(attempts)]
  {
  }

  /**
   * An exception reaches the caller exactly when every one of the
   * `Budget(times)` invocations fails, and it is the final invocation's.
   */
  lemma FailurePropagates<T, E>(times: int, attempts: seq<Attempt<T, E>>)
    requires Budget(times) <= |attempts|
    ensures Outcome(times, attempts).Raise? <==> AllFail(times, attempts)
    ensures Outcome(times, attempts).Raise? ==>
              Outcome(times, attempts) == attempts[Budget(times) - 1]
  {
  }
}
