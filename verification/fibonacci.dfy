/** The iterative `fibonacci(int)` helper over unbounded integers, proved against the recurrence. */
module FibonacciSequence {
  import opened Wrappers

  /** The n'th Fibonacci number by its defining recurrence: Fib(0) = 0, Fib(1) = 1. */
  function Fib(n: nat): nat
  {
    if n < 2 then n else Fib(n - 2) + Fib(n - 1)
  }

  /** The exception `fibonacci` throws: Java's `IllegalArgumentException`. */
  datatype FibError = IllegalArgument

  /** What `fibonacci(num)` promises, stated without its loop: a negative input is refused,
      any other input yields its Fibonacci number. */
  function FibOf(num: int): Result<nat, FibError>
  {
    if num < 0 then Failure(IllegalArgument) else Success(Fib(num))
  }

  /** The two-accumulator loop: `a` and `b` hold consecutive Fibonacci numbers while `i`
      counts up from 1 to `num`; the loop body never runs for `num == 1`. */
  method Fibonacci(num: int) returns (r: Result<nat, FibError>)
    ensures r == FibOf(num)
    ensures r.Failure? <==> num < 0
    ensures num == 0 ==> r == Success(0)
    ensures num == 1 ==> r == Success(1)
  {
    if num < 0 {
      return Failure(IllegalArgument);
    } else if num == 0 {
      return Success(0);
    }
    var a: nat, b: nat := 0, 1;
    var i := 1;
    while i < num
      invariant 1 <= i <= num
      invariant a == Fib(i - 1) && b == Fib(i)
    {
      var next := a + b;
      a, b := b, next;
      i := i + 1;
    }
    return Success(b);
  }

  /** The expected response bodies the load-generating clients compare against:
      inputs 50, 9 and 13. */
  lemma ClientExpectedResults()
    ensures Fib(9) == 34
    ensures Fib(13) == 233
    ensures Fib(50) == 12586269025
  {
    assert Fib(10) == 55;
    assert Fib(20) == 6765;
    assert Fib(30) == 832040;
    assert Fib(40) == 102334155;
  }
}
