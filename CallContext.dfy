// The part of a server call context that the service loops consult: the
// call's cancellation token. The token is modelled as an oracle sampled once
// per loop iteration; `token[i]` is what `IsCancellationRequested` reads at
// iteration i, and iterations past the end of `token` read "not requested".
module CallContext {

  /** What the loop's cancellation check reads at `iteration`. */
  predicate CancellationRequested(token: seq<bool>, iteration: nat) {
    iteration < |token| && token[iteration]
  }

  /** The token is never set during the call. */
  predicate NeverRequested(token: seq<bool>) {
    forall i :: 0 <= i < |token| ==> !token[i]
  }

  /**
   * How many of `n` inbound messages a loop that checks the token before
   * handling each message gets to handle: the first iteration at which the
   * token reads set, or `n` when it never does.
   */
  function Consumed(token: seq<bool>, n: nat): (k: nat)
    ensures k <= n
    ensures forall i :: 0 <= i < k ==> !CancellationRequested(token, i)
    ensures k < n ==> CancellationRequested(token, k)
  {
    ConsumedFrom(token, 0, n)
  }

  function ConsumedFrom(token: seq<bool>, start: nat, n: nat): (k: nat)
    requires start <= n
    ensures start <= k <= n
    ensures forall i :: start <= i < k ==> !CancellationRequested(token, i)
    ensures k < n ==> CancellationRequested(token, k)
    decreases n - start
  {
    if start == n then n
    else if CancellationRequested(token, start) then start
    else ConsumedFrom(token, start + 1, n)
  }

  /** The characterisation in `Consumed`'s contract pins the count down. */
  lemma ConsumedIsFirstRequest(token: seq<bool>, n: nat, k: nat)
    requires k <= n
    requires forall i :: 0 <= i < k ==> !CancellationRequested(token, i)
    requires k < n ==> CancellationRequested(token, k)
    ensures Consumed(token, n) == k
  {
  }

  /** A call that is never cancelled handles every inbound message. */
  lemma NeverRequestedConsumesAll(token: seq<bool>, n: nat)
    requires NeverRequested(token)
    ensures Consumed(token, n) == n
  {
  }
}
