# Memoisation and Fibonacci caching from the concurrency workshop, in Dafny

This project models the sequential behaviour of the small caching pieces of the
`concurrency-workshop` Java repository and proves what they promise:

- `cache.BasicCache`: a memoising map from key to value, filled lazily by a producer
  function through `computeIfAbsent`, without eviction (module `BasicCache`).
- the private `fibonacci(int)` helper, an iterative two-accumulator loop over `BigInteger`,
  present identically in `jcip.synchronizationbasics.FibonacciService` and
  `jcip.SynchronizationBasics` (module `FibonacciSequence`, one model for both copies).
- the single-entry caches in front of it:
  - the handlers that keep the last input and its result in two references:
    `UnsafeCachingFibonacci` and `OverlySyncedCachingFibonacci` in `FibonacciService`, and
    `UnsafeCachingFibonacci` in `SynchronizationBasics`. Called one at a time the three bodies
    are the same, and module `UnsafeCachingFibonacci` models all of them;
  - the immutable, versioned `ImmutableOneFibonacciCache` (module of the same name) and the
    `ImmutableCachingFibonacci` handler that swaps it on a miss (module of the same name).
- the load-generating client: `CountDownSupplier.get` and the `run` loop that consumes it,
  identical in `FibonacciClient` and `SynchronizationBasicsClientRunnable` (module
  `FibonacciClient`, one model for both copies).

Everything is a value. The caches are immutable datatypes, and each call returns the reply
together with the state afterwards. Java `null` is `Option.None`. The
`IllegalArgumentException` thrown for a negative input is `Result.Failure(IllegalArgument)`.
`BigInteger` is Dafny's unbounded `int`. The producer-call count that the cache tests check
with a mock becomes an explicit result: `BasicCache.Get` reports whether it called the
producer, and `BasicCache.GetAll` returns the multiset of keys the producer was called on.
The handlers take the request parameter already parsed to an `int`.

The main invariants:
- for the single-entry caches, "a remembered input is non-negative and its remembered result
  is its Fibonacci number" (`Consistent` in both handler modules);
- for the memoising cache, "every stored value is the producer's value for its key"
  (`BasicCache.Valid`).

A new handler or cache satisfies its invariant, and every call preserves it. So every
sequential call returns the right answer whether it is a hit or a miss.

## Model

| member | source | states |
|---|---|---|
| FibonacciSequence.Fibonacci | src/main/java/jcip/synchronizationbasics/FibonacciService.java:157-173 | The loop returns the recurrence's Fib(num) for every num >= 0: 0 for 0 and 1 for 1. It throws exactly for a negative num. It agrees with the loop-free reference FibOf on every input. |
| FibonacciSequence.ClientExpectedResults | src/main/java/jcip/synchronizationbasics/FibonacciClient.java:36-38 | The response bodies the three clients expect are the Fibonacci numbers of their inputs: Fib(50) = 12586269025, Fib(9) = 34, Fib(13) = 233. |
| UnsafeCachingFibonacci.NewHandler | src/main/java/jcip/SynchronizationBasics.java:23-24 | Both references start out null, and this state satisfies the handler invariant. |
| UnsafeCachingFibonacci.Handle | src/main/java/jcip/synchronizationbasics/FibonacciService.java:36-49 | A hit returns the second reference and writes nothing. A miss on a negative input throws and writes nothing. A miss on any other input stores the input with Fib(input) and returns it. From a consistent state the invariant is kept and the reply is Fib(input) on both paths. After any answered call, the same input hits next time. |
| UnsafeCachingFibonacci.HandleAll | src/main/java/jcip/synchronizationbasics/FibonacciService.java:63-76 | Over any sequence of calls made one after another (what `synchronized` enforces), starting consistent: each reply is Fib of its input or the refusal of a negative input, and the invariant holds at the end. |
| ImmutableOneFibonacciCache.GetLastFibonacci | src/main/java/jcip/synchronizationbasics/FibonacciService.java:142-148 | A non-null answer only comes for the remembered input. For that input the answer is the remembered result. |
| ImmutableOneFibonacciCache.EmptyCache | src/main/java/jcip/synchronizationbasics/FibonacciService.java:134-136 | Version 0, consistent, and null for every input. |
| ImmutableOneFibonacciCache.Update | src/main/java/jcip/synchronizationbasics/FibonacciService.java:138-140 | The new cache has version + 1. It answers the new result for the new input and null for every other input. Recording a true Fibonacci number yields a consistent cache. |
| ImmutableCachingFibonacci.Handle | src/main/java/jcip/synchronizationbasics/FibonacciService.java:90-109 | A hit returns the remembered number and keeps the cache and its version. A miss on a negative input throws and keeps the cache. A miss on any other input returns Fib(input) and installs update(input, Fib(input)). The version grows by one exactly on an answered miss and never decreases. From a consistent cache the reply is FibOf(input) and consistency is kept. |
| ImmutableCachingFibonacci.HandleAll | src/main/java/jcip/synchronizationbasics/FibonacciService.java:79-81 | Over any sequence of calls the version grows monotonically, by at most one per call. A run of one repeated input bumps it at most once. From a consistent cache every reply is FibOf of its input. |
| BasicCache.New | src/main/java/cache/BasicCache.java:23-26 | A new cache keeps the given producer, holds no entries, and is valid. |
| BasicCache.Get | src/main/java/cache/BasicCache.java:28-31 | The producer is called exactly when the key is absent, and on that key; its value is stored and returned. A present key returns its stored value and leaves the cache unchanged. No other entry is removed or changed. Validity is kept, so the reply is always the producer's value for the key. |
| BasicCache.GetAll | src/main/java/cache/BasicCache.java:11-31 | Over any sequence of gets the map only grows: its keys become the old keys plus the requested ones, and no earlier entry changes (no eviction). |
| BasicCache.RepeatedGetsAgree | src/test/java/cache/BasicCacheTest.java:63-81 | Repeated gets of one key all return what the first returned. The producer runs for them once if the key was absent, and never if it was cached. |
| BasicCache.GetAllProducesAtMostOnce | src/test/java/cache/BasicCacheTest.java:119-130 | Across any sequence of gets the producer is called at most once per key. It is called exactly once on each requested key that was not already cached, and never on any other key. |
| BasicCache.GetAllReturnsProducerValues | src/test/java/cache/BasicCacheTest.java:83-96 | Interleaved gets of any keys, starting valid, each return their own key's producer value, and the cache stays valid. |
| FibonacciClient.Get | src/main/java/jcip/synchronizationbasics/FibonacciClient.java:103-109 | Every call lowers the count by exactly one, whatever it returns. It returns the input while the count is positive, and null once the count is zero or below. |
| FibonacciClient.OutputsShape | src/main/java/jcip/synchronizationbasics/FibonacciClient.java:94-110 | Any n consecutive calls return the input for the first `count` calls and null for every call after. The count is then the old count minus n. |
| FibonacciClient.ExactlyCountInputs | src/main/java/jcip/SynchronizationBasicsClientRunnable.java:95-106 | Exactly as many inputs as the count (none if it is not positive) come before the first null; from count c >= 0 that is c inputs. |
| FibonacciClient.NullIsFinal | src/main/java/jcip/synchronizationbasics/FibonacciClient.java:104-108 | After `get` has returned null, every later call returns null too. |
| FibonacciClient.Run | src/main/java/jcip/synchronizationbasics/FibonacciClient.java:69-92 | The loop runs once per input the supplier hands out before its first null (count times for a positive count, otherwise never), and every request it sends carries the supplier's input. The supplier is asked exactly one more time than there were iterations, so the loop stops at that first null. |

## Left out

- Thread safety as a whole is left out, because a sequential model cannot state it. This covers `synchronized`, `volatile` visibility, `AtomicReference`, the lost-update races the client comments describe, and the multi-thread test harness. `OverlySyncedCachingFibonacci.handle` differs from the unsafe handler only by its lock, so it is modelled by the same members.
- The single-flight machinery that a concurrent memoiser would have is left out: futures, waiting on in-flight work, failure caching, and cancellation. The Java `BasicCache` has none of it. It uses a plain `HashMap`.
- `Cache.getUnchecked` is declared by the `Cache` interface but never implemented, so it is left out. The interface itself carries no logic.
- A producer that throws is left out: the model's producer is a total function. In Java the exception passes out of `computeIfAbsent` and out of `get`, no entry is stored, and the next `get` of that key runs the producer again. So the Java cache does not cache failures either.
- A producer that returns null is left out. `HashMap.computeIfAbsent` would store nothing for it, but the producer here is a total Dafny function.
- Request parsing is left out. This covers Spark routing, the `Integer.parseInt` of the path parameter, and the `NumberFormatException` it can raise. The handlers take an already-parsed `int`.
- The `"\n"` appended to replies by `SynchronizationBasics` is left out as response formatting. With that removed, its handler is the one modelled by `UnsafeCachingFibonacci`.
- The client's HTTP request, response body handling, `IOException` path, result comparison and logging are left out. `FibonacciClient.Run` only records the inputs it would have sent.
- `ExecutorService` setup, the `main` entry points, slf4j logging, the JMH benchmark and the wall-clock `Benchmark` utility are left out: they are not logic.
- Java `int` overflow is left out. The cache version counter and the supplier's `count--` are unbounded integers here. The Java counters would wrap after 2^31 increments or decrements. Two proved facts fail after a wrap. Once `count--` wraps past `Integer.MIN_VALUE`, the supplier hands out inputs again, which breaks `FibonacciClient.NullIsFinal`. Once `version + 1` wraps, the version turns negative, which breaks the monotonic version in `ImmutableCachingFibonacci.Handle`. The loop index in `fibonacci` cannot overflow, because it stays below `num`.
