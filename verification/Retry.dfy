/** The bounded attempt loop around an asynchronous call. */
module Retrying {

  datatype RetryResult = Returned(call: nat) | Interrupted | Exhausted

  /**
   The bounded attempt loop: `succeeds[k]` is what the k-th call does, `mayRetry[k]` the check before it.
   */
  method Retry(attempts: nat, succeeds: seq<bool>, mayRetry: seq<bool>) returns (r: RetryResult, calls: nat)
    requires |succeeds| >= attempts && |mayRetry| >= attempts
    ensures calls <= attempts
    ensures forall k :: 0 <= k < calls ==> mayRetry[k] && (succeeds[k] <==> r == Returned(k))
    ensures r.Returned? ==> r.call + 1 == calls
    ensures r.Interrupted? ==> calls < attempts && !mayRetry[calls]
    ensures r.Exhausted? ==> calls == attempts
  {
    var retries := attempts;
    calls := 0;
    while retries > 0
      invariant calls + retries == attempts
      invariant forall k :: 0 <= k < calls ==> mayRetry[k] && !succeeds[k]
    {
      if !mayRetry[calls] {
        return Interrupted, calls;
      }
      calls := calls + 1;
      if succeeds[calls - 1] {
        return Returned(calls - 1), calls;
      }
      retries := retries - 1;
    }
    r := Exhausted;
  }
}
