/**
 pollDepGraphAttributes of src/lib/ecosystems/resolve-test-facts.ts: polling with a
 capped linear back-off, against an arbitrary stream of responses.
 */
module Polling {

  datatype Response<A> = InProgress | Ready(attributes: A) | Failed(error: string)

  datatype Outcome<A> = Attributes(attributes: A) | RequestFailed(error: string) | MaxRetriesReached

  const MIN_INTERVAL_MS: nat := 2000
  const MAX_INTERVAL_MS: nat := 20000
  const MAX_ELAPSED_TIME: nat := 1800000
  /** The most requests a call can make. */
  const MAX_REQUESTS: nat := 95

  function PollInterval(attempts: nat): nat {
    if MIN_INTERVAL_MS * attempts < MAX_INTERVAL_MS then MIN_INTERVAL_MS * attempts else MAX_INTERVAL_MS
  }

  /** The time slept after `n` sleeps. */
  function Slept(n: nat): nat {
    if n == 0 then 0 else Slept(n - 1) + PollInterval(n)
  }

  lemma {:induction false} SleptClosedForm(n: nat)
    ensures Slept(n) == if n <= 10 then 1000 * (n * (n + 1)) else 110000 + 20000 * (n - 10)
  {
    if n > 0 {
      SleptClosedForm(n - 1);
      assert n * (n + 1) == (n - 1) * n + 2 * n;
    }
  }

  /** The loop guard holds exactly before each of the first 95 requests. */
  lemma TimeLeft(n: nat)
    ensures Slept(n) <= MAX_ELAPSED_TIME <==> n < MAX_REQUESTS
    ensures n <= MAX_REQUESTS ==> Slept(n) <= 1810000
  {
    SleptClosedForm(n);
    if n <= 10 {
      assert n * (n + 1) <= 10 * 11 by {
        assert n * (n + 1) <= 10 * (n + 1);
      }
    }
  }

  /** The first `n` responses are all in progress. */
  ghost predicate AllInProgress<A(!new)>(responses: nat -> Response<A>, n: nat) {
    forall k: nat :: k < n ==> responses(k) == InProgress
  }

  /**
   The call returns the first response that is not in progress, if it is among the first
   95, and gives up otherwise; it never makes more requests than that.
   */
  method PollDepGraphAttributes<A(!new)>(responses: nat -> Response<A>)
    returns (r: Outcome<A>, ghost requests: nat, ghost slept: nat)
    ensures requests <= MAX_REQUESTS && slept <= 1810000
    ensures r == MaxRetriesReached <==> AllInProgress(responses, MAX_REQUESTS)
    ensures r == MaxRetriesReached ==> requests == MAX_REQUESTS && slept == 1810000
    ensures r != MaxRetriesReached ==>
              && requests > 0
              && AllInProgress(responses, requests - 1)
              && (match responses(requests - 1)
                  case InProgress => false
                  case Ready(attributes) => r == Attributes(attributes)
                  case Failed(error) => r == RequestFailed(error))
              && slept == Slept(requests - 1)
  {
    var totalElapsedTime, attempts := 0, 1;
    requests, slept := 0, 0;
    while totalElapsedTime <= MAX_ELAPSED_TIME
      invariant attempts == requests + 1 && requests <= MAX_REQUESTS
      invariant totalElapsedTime == slept == Slept(requests)
      invariant AllInProgress(responses, requests)
      decreases MAX_REQUESTS - requests
    {
      TimeLeft(requests);
      TimeLeft(requests + 1);
      var graph := responses(attempts - 1);
      requests := requests + 1;
      match graph {
        case InProgress =>
          var pollInterval := PollInterval(attempts);
          slept := slept + pollInterval;
          totalElapsedTime := totalElapsedTime + pollInterval;
          attempts := attempts + 1;
        case Ready(attributes) =>
          return Attributes(attributes), requests, slept;
        case Failed(error) =>
          return RequestFailed(error), requests, slept;
      }
    }
    TimeLeft(requests);
    SleptClosedForm(MAX_REQUESTS);
    r := MaxRetriesReached;
  }
}
