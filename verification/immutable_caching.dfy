/** `ImmutableOneFibonacciCache`: a single remembered (input, result) pair with a version
    number, never modified in place; `update` builds a successor instead. */
module ImmutableOneFibonacciCache {
  import opened Wrappers
  import opened FibonacciSequence

  /** The three final fields; `None` is null. */
  datatype OneFibCache = OneFibCache(lastInput: Option<int>, lastFibonacci: Option<int>, version: nat)

  /** The cache invariant: whenever an input is remembered, it is one `fibonacci` accepted
      and the remembered result is its Fibonacci number. */
  predicate Consistent(c: OneFibCache)
  {
    c.lastInput.Some? ==>
      c.lastInput.value >= 0 && c.lastFibonacci == Some(Fib(c.lastInput.value))
  }

  /** `getLastFibonacci(input)`: the remembered result when `input` is the remembered input, else null. */
  function GetLastFibonacci(c: OneFibCache, input: int): (r: Option<int>)
    ensures r.Some? ==> c.lastInput == Some(input)
    ensures c.lastInput == Some(input) ==> r == c.lastFibonacci
  {
    if c.lastInput.None? || c.lastInput.value != input then None else c.lastFibonacci
  }

  /** `emptyCache()`: version 0, remembering nothing. */
  function EmptyCache(): (c: OneFibCache)
    ensures c.version == 0
    ensures Consistent(c)
    ensures forall input :: GetLastFibonacci(c, input) == None
  {
    OneFibCache(None, None, 0)
  }

  /** `update(newInput, newFibonacci)`: a new cache one version on that remembers exactly the
      new pair; the receiver, being a value, is left as it was. */
  function Update(c: OneFibCache, newInput: int, newFibonacci: int): (c': OneFibCache)
    ensures c'.version == c.version + 1
    ensures GetLastFibonacci(c', newInput) == Some(newFibonacci)
    ensures forall m :: m != newInput ==> GetLastFibonacci(c', m) == None
    ensures newInput >= 0 && newFibonacci == Fib(newInput) ==> Consistent(c')
  {
    OneFibCache(Some(newInput), Some(newFibonacci), c.version + 1)
  }
}

/** The `ImmutableCachingFibonacci` handler: it reads the current immutable cache, and on a
    miss computes the number and replaces the cache by its update. */
module ImmutableCachingFibonacci {
  import opened Wrappers
  import opened FibonacciSequence
  import opened ImmutableOneFibonacciCache

  /** One call of `handle` with the request parameter already parsed to `input`. */
  method Handle(c: OneFibCache, input: int) returns (reply: Result<int, FibError>, c': OneFibCache)
    // a hit answers the remembered number and keeps the cache, version included
    ensures GetLastFibonacci(c, input).Some? ==>
              reply == Success(GetLastFibonacci(c, input).value) && c' == c
    // a miss on a refused input throws and keeps the cache
    ensures GetLastFibonacci(c, input).None? && input < 0 ==> reply == Failure(IllegalArgument) && c' == c
    // a miss on an accepted input answers Fib(input) and installs the next version
    ensures GetLastFibonacci(c, input).None? && input >= 0 ==>
              reply == Success(Fib(input)) && c' == Update(c, input, Fib(input))
    // the version never decreases, and grows by one exactly on an answered miss
    ensures c'.version == c.version || c'.version == c.version + 1
    ensures c'.version == c.version + 1 <==> GetLastFibonacci(c, input).None? && input >= 0
    // from a consistent cache every call, hit or miss, keeps consistency and answers FibOf(input)
    ensures Consistent(c) ==> Consistent(c') && reply == FibOf(input)
  {
    var fibonacci := GetLastFibonacci(c, input);
    if fibonacci.None? {
      var computed := Fibonacci(input);
      if computed.Failure? {
        return Failure(computed.error), c;
      }
      c' := Update(c, input, computed.value);
      reply := Success(computed.value);
    } else {
      reply, c' := Success(fibonacci.value), c;
    }
  }

  /** A sequence of calls made one after another: from a consistent cache every reply is
      FibOf of its input, the version only grows, by at most one per call, and a run of one
      repeated input (what each load-generating client sends) bumps it at most once. */
  method HandleAll(c: OneFibCache, inputs: seq<int>) returns (replies: seq<Result<int, FibError>>, c': OneFibCache)
    ensures |replies| == |inputs|
    ensures c.version <= c'.version <= c.version + |inputs|
    ensures Consistent(c) ==> Consistent(c')
    ensures Consistent(c) ==> forall i :: 0 <= i < |inputs| ==> replies[i] == FibOf(inputs[i])
    ensures (forall i :: 0 <= i < |inputs| ==> inputs[i] == inputs[0]) ==> c'.version <= c.version + 1
  {
    replies, c' := [], c;
    for i := 0 to |inputs|
      invariant |replies| == i
      invariant c.version <= c'.version <= c.version + i
      invariant Consistent(c) ==> Consistent(c')
      invariant Consistent(c) ==> forall j :: 0 <= j < i ==> replies[j] == FibOf(inputs[j])
      invariant (forall j :: 0 <= j < |inputs| ==> inputs[j] == inputs[0]) ==>
                  c'.version <= c.version + 1 &&
                  (c'.version == c.version + 1 ==> GetLastFibonacci(c', inputs[0]).Some?)
    {
      var reply;
      reply, c' := Handle(c', inputs[i]);
      replies := replies + [reply];
    }
  }
}
