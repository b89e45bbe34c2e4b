/** The load-generating client: a `CountDownSupplier` of inputs and the `run` loop that
    consumes it, with the HTTP request for each input left out. The same supplier and loop
    appear in `FibonacciClient` and `SynchronizationBasicsClientRunnable`. */
module FibonacciClient {
  import opened Wrappers

  /** The supplier's two fields: how many more inputs to hand out, and the input itself. */
  datatype CountDownSupplier = CountDownSupplier(count: int, input: int)

  /** The outcome of one `get()`: the returned input (`None` for null) and the supplier afterwards. */
  datatype Supplied = Supplied(value: Option<int>, next: CountDownSupplier)

  /** `get()`: `count-- > 0` decides between the input and null. */
  function Get(s: CountDownSupplier): (r: Supplied)
    // every call counts down by exactly one, whatever it returns
    ensures r.next.count == s.count - 1 && r.next.input == s.input
    // while the count is positive the input comes back; from zero or below, null
    ensures r.value.Some? <==> s.count > 0
    ensures r.value.Some? ==> r.value.value == s.input
  {
    if s.count > 0 then Supplied(Some(s.input), s.(count := s.count - 1))
    else Supplied(None, s.(count := s.count - 1))
  }

  /** What `n` consecutive `get()` calls return, in order. */
  function Outputs(s: CountDownSupplier, n: nat): (out: seq<Option<int>>)
    ensures |out| == n
    decreases n
  {
    if n == 0 then [] else [Get(s).value] + Outputs(Get(s).next, n - 1)
  }

  /** The supplier after `n` consecutive `get()` calls. */
  function After(s: CountDownSupplier, n: nat): CountDownSupplier
    decreases n
  {
    if n == 0 then s else After(Get(s).next, n - 1)
  }

  /** Any run of calls returns the input for the first `count` calls and null for every call
      after that; the count has then gone down by one per call. */
  lemma {:induction false} OutputsShape(s: CountDownSupplier, n: nat)
    ensures forall i :: 0 <= i < n ==> Outputs(s, n)[i] == if i < s.count then Some(s.input) else None
    ensures After(s, n) == CountDownSupplier(s.count - n, s.input)
    decreases n
  {
    if n > 0 {
      var t := Get(s).next;
      OutputsShape(t, n - 1);
      forall i | 0 <= i < n
        ensures Outputs(s, n)[i] == if i < s.count then Some(s.input) else None
      {
        if i > 0 {
          assert Outputs(s, n)[i] == Outputs(t, n - 1)[i - 1];
        }
      }
    }
  }

  /** How many inputs the supplier still hands out: its count, or none once that is not positive. */
  function Remaining(s: CountDownSupplier): nat
  {
    if s.count > 0 then s.count else 0
  }

  /** Exactly `Remaining(s)` inputs are handed out before the first null: from `count = c >= 0`, `c` of them. */
  lemma ExactlyCountInputs(s: CountDownSupplier)
    ensures Outputs(s, Remaining(s) + 1) == seq(Remaining(s), _ => Some(s.input)) + [None]
  {
    OutputsShape(s, Remaining(s) + 1);
  }

  /** Once `get()` has returned null, every later call returns null too. */
  lemma NullIsFinal(s: CountDownSupplier, n: nat)
    requires Get(s).value.None?
    ensures Outputs(Get(s).next, n) == seq(n, _ => None)
  {
    OutputsShape(Get(s).next, n);
  }

  /** `run()`: ask the supplier for an input, and while it is not null send one request for it
      (left out here, only recorded in `sent`) and ask again. */
  method Run(supplier: CountDownSupplier) returns (sent: seq<int>, s': CountDownSupplier)
    // one iteration per input handed out (see ExactlyCountInputs), stopping at the first null
    ensures |sent| == Remaining(supplier)
    ensures forall i :: 0 <= i < |sent| ==> sent[i] == supplier.input
    // the supplier has been asked exactly once more than there were iterations
    ensures s' == CountDownSupplier(supplier.count - |sent| - 1, supplier.input)
  {
    var s := supplier;
    var r := Get(s);
    var input := r.value;
    s := r.next;
    sent := [];
    while input.Some?
      invariant s == CountDownSupplier(supplier.count - |sent| - 1, supplier.input)
      invariant input.Some? <==> supplier.count > |sent|
      invariant |sent| <= Remaining(supplier)
      invariant input.Some? ==> input.value == supplier.input
      invariant forall i :: 0 <= i < |sent| ==> sent[i] == supplier.input
      decreases s.count
    {
      sent := sent + [input.value];
      r := Get(s);
      input := r.value;
      s := r.next;
    }
    s' := s;
  }
}
