/**
 * test/worker-scripts/seive.js: a worker whose `onmessage` handler reads a
 * run length from `message.data`, grows the prime list for that long, and
 * posts the list back.
 */
module SeiveWorker {
  import opened Wrappers
  import opened Messages
  import opened PrimeList
  import opened Scope

  /**
   * The handler assigned to `onmessage` (seive.js:7-42). How many rounds of
   * the prime search fit into `message.data` milliseconds is the host
   * clock's business, so `roundsWithin` maps the requested duration to the
   * number of rounds that ran. The handler posts exactly one message, the
   * final list, with no transfer list.
   */
  method OnMessage<L(==), X>(scope: WorkerScope<L, Envelope<int>, seq<int>, Option<X>>, message: Envelope<int>, roundsWithin: int -> nat)
    returns (seive: seq<int>)
    modifies scope`outbox
    ensures |seive| == roundsWithin(message.data) + 1
    ensures ExactPrimes(seive)
    ensures scope.outbox == old(scope.outbox) + [Posted(Envelope(seive), None)]
  {
    var duration := message.data;
    seive := Grow(roundsWithin(duration));
    scope.PostMessage(seive, None);
  }
}
