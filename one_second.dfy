/**
 * test/worker-scripts/one-second.js: a worker script that grows the prime
 * list at top level for one second and posts it to its parent.
 */
module OneSecondWorker {
  import opened Wrappers
  import opened Messages
  import opened PrimeList
  import opened Scope

  /**
   * The script body (one-second.js:6-37), with the one-second clock bound
   * replaced by the number of rounds that ran. It posts exactly one
   * message, the final list, with no transfer list.
   */
  method Run<L(==), I, X>(scope: WorkerScope<L, I, seq<int>, Option<X>>, rounds: nat) returns (seive: seq<int>)
    modifies scope`outbox
    ensures |seive| == rounds + 1
    ensures ExactPrimes(seive)
    ensures scope.outbox == old(scope.outbox) + [Posted(Envelope(seive), None)]
  {
    seive := Grow(rounds);
    scope.PostMessage(seive, None);
  }
}
