/** The mutable single-entry handlers that remember the last input and its result in two
    separate references. Called one at a time, `UnsafeCachingFibonacci.handle`,
    `OverlySyncedCachingFibonacci.handle` (the same body under a lock) and the copy in
    `jcip.SynchronizationBasics` all behave as modelled here. */
module UnsafeCachingFibonacci {
  import opened Wrappers
  import opened FibonacciSequence

  /** The handler's two references, `lastInput` and `cachedFibonacci`; `None` is null. */
  datatype State = State(lastInput: Option<int>, cachedFibonacci: Option<int>)

  /** A new handler: both references start out null, which satisfies `Consistent`, so every
      sequential history from a new handler does. */
  function NewHandler(): (s: State)
    ensures s.lastInput.None? && s.cachedFibonacci.None?
    ensures Consistent(s)
  {
    State(None, None)
  }

  /** What a sequential history of calls maintains: a remembered input is one `fibonacci`
      accepted, and the remembered result is that input's Fibonacci number. */
  predicate Consistent(s: State)
  {
    s.lastInput.Some? ==>
      s.lastInput.value >= 0 && s.cachedFibonacci == Some(Fib(s.lastInput.value))
  }

  /** One call of `handle` with the request parameter already parsed to `input`. The reply is
      the returned object (`None` for null), or the exception `fibonacci` raised. */
  method Handle(s: State, input: int) returns (reply: Result<Option<int>, FibError>, s': State)
    // a hit answers from the second reference and writes nothing
    ensures s.lastInput == Some(input) ==> reply == Success(s.cachedFibonacci) && s' == s
    // a miss on a refused input throws before either reference is written
    ensures s.lastInput != Some(input) && input < 0 ==> reply == Failure(IllegalArgument) && s' == s
    // a miss remembers the input together with its freshly computed result
    ensures s.lastInput != Some(input) && input >= 0 ==>
              reply == Success(Some(Fib(input))) && s' == State(Some(input), Some(Fib(input)))
    // from a consistent state every call, hit or miss, answers Fib(input) or refuses a negative input
    ensures Consistent(s) ==> Consistent(s')
    ensures Consistent(s) ==> (reply.Failure? <==> input < 0)
    ensures Consistent(s) && input >= 0 ==> reply == Success(Some(Fib(input)))
    // after any answered call, repeating the same input is a hit
    ensures reply.Success? ==> s'.lastInput == Some(input)
  {
    if s.lastInput == Some(input) {
      reply, s' := Success(s.cachedFibonacci), s;
    } else {
      var result := Fibonacci(input);
      if result.Failure? {
        reply, s' := Failure(result.error), s;
      } else {
        s' := State(Some(input), Some(result.value));
        reply := Success(Some(result.value));
      }
    }
  }

  /** A sequence of calls made one after another on the same handler: from a consistent state
      (a fresh handler is one) every reply is the input's Fibonacci number or the refusal of a
      negative input. */
  method HandleAll(s: State, inputs: seq<int>) returns (replies: seq<Result<Option<int>, FibError>>, s': State)
    ensures |replies| == |inputs|
    ensures Consistent(s) ==> Consistent(s')
    ensures Consistent(s) ==> forall i :: 0 <= i < |inputs| ==> (replies[i].Failure? <==> inputs[i] < 0)
    ensures Consistent(s) ==>
              forall i :: 0 <= i < |inputs| && inputs[i] >= 0 ==> replies[i] == Success(Some(Fib(inputs[i])))
  {
    replies, s' := [], s;
    for i := 0 to |inputs|
      invariant |replies| == i
      invariant Consistent(s) ==> Consistent(s')
      invariant Consistent(s) ==> forall j :: 0 <= j < i ==> (replies[j].Failure? <==> inputs[j] < 0)
      invariant Consistent(s) ==>
                  forall j :: 0 <= j < i && inputs[j] >= 0 ==> replies[j] == Success(Some(Fib(inputs[j])))
    {
      var reply;
      reply, s' := Handle(s', inputs[i]);
      replies := replies + [reply];
    }
  }
}
