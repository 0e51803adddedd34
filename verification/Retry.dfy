/** The retry loop and its back-off (client/src/retry.rs). */
module Retry {
  import opened Arith
  import opened Text

  const BASE_DELAY_MS: nat := 500

  datatype Policy = Policy(maxRetries: nat, retryTransportErrors: bool)

  /** How one request ended: the transport failed, or a response came back.
      `quota` says its body carries `insufficient_quota`; `retryAfter` is in ms. */
  datatype Outcome =
    | Transport(connect: bool)
    | Response(status: nat, quota: bool, retryAfter: Option<nat>)

  /** What the caller gets. */
  datatype Verdict = Delivered(status: nat) | RequestError(connect: bool) | ApiError(status: nat)

  predicate IsSuccess(status: nat) {
    200 <= status < 300
  }

  /** `is_retryable`. */
  predicate IsRetryable(status: nat) {
    status == 408 || status == 429 || 500 <= status <= 599
  }

  /** The outcome calls for another request, whatever the number of attempts left:
      the server never saw this one, or asked for patience. */
  predicate Transient(p: Policy, o: Outcome) {
    match o
    case Transport(connect) => p.retryTransportErrors && connect
    case Response(status, quota, _) => IsRetryable(status) && !(status == 429 && quota)
  }

  /** `backoff_delay`: u64 multiplication wraps around in a release build. */
  function BackoffDelay(attempt: nat, retryAfter: Option<nat>): nat {
    match retryAfter
    case Some(ra) => ra
    case None =>
      var base := (BASE_DELAY_MS * Pow2(if attempt < 62 then attempt else 62)) % U64;
      base + base / 4
  }

  function WaitAfter(attempt: nat, o: Outcome): nat {
    BackoffDelay(attempt, match o case Transport(_) => None case Response(_, _, ra) => ra)
  }

  /** `backoff_delay` after a given outcome, in numbers: the wait the server asked for as it
      is; else 500 ms doubled `attempt` times, 62 at most, on 64 bits, and a quarter more. */
  ghost predicate IsWait(attempt: nat, o: Outcome, ms: nat) {
    if o.Response? && o.retryAfter.Some? then ms == o.retryAfter.value
    else exists base: nat ::
      && base == 500 * Pow2(if attempt <= 62 then attempt else 62) % 0x1_0000_0000_0000_0000
      && ms == base + base / 4
  }

  /** Another request follows this outcome: it was not received and the policy says to
      try again, or the status is 408, 429 or 5xx and it is no exhausted quota. */
  ghost predicate IsTransient(p: Policy, o: Outcome) {
    || (o.Transport? && o.connect && p.retryTransportErrors)
    || (o.Response? && o.status in {408, 429} && (o.quota ==> o.status != 429))
    || (o.Response? && o.status / 100 == 5)
  }

  lemma TransientExactly(p: Policy, o: Outcome)
    ensures Transient(p, o) <==> IsTransient(p, o)
  {
  }

  lemma WaitIs(attempt: nat, o: Outcome)
    ensures IsWait(attempt, o, WaitAfter(attempt, o))
  {
    hide Pow2;
  }

  /** `sent` requests: all but the last ended in a transient outcome, and the last
      either did not or used up the retries. */
  ghost predicate StopsAfter(p: Policy, script: nat -> Outcome, sent: nat) {
    && 1 <= sent <= p.maxRetries + 1
    && (forall k: nat :: k < sent - 1 ==> IsTransient(p, script(k)))
    && (sent <= p.maxRetries ==> !IsTransient(p, script(sent - 1)))
  }

  /** `send_with_retry_policy` against any script of outcomes: it always returns from
      inside the loop, with the outcome of the last request it sent. */
  method SendWithRetryPolicy(p: Policy, script: nat -> Outcome) returns (v: Verdict, sent: nat, waits: seq<nat>)
    ensures StopsAfter(p, script, sent)
    ensures match script(sent - 1)
            case Transport(connect) => v == RequestError(connect)
            case Response(status, _, _) => v == if status / 100 == 2 then Delivered(status) else ApiError(status)
    ensures |waits| == sent - 1
    ensures forall k :: 0 <= k < |waits| ==> waits[k] == WaitAfter(k, script(k)) && IsWait(k, script(k), waits[k])
  {
    hide IsWait, IsTransient;
    forall o {
      TransientExactly(p, o);
    }
    sent, waits := 0, [];
    while sent <= p.maxRetries
      invariant sent <= p.maxRetries && |waits| == sent
      invariant forall k: nat :: k < sent ==> Transient(p, script(k))
      invariant forall k :: 0 <= k < |waits| ==> waits[k] == WaitAfter(k, script(k)) && IsWait(k, script(k), waits[k])
    {
      var attempt := sent;
      var o := script(attempt);
      WaitIs(attempt, o);
      sent := sent + 1;
      match o {
        case Transport(connect) =>
          if p.retryTransportErrors && attempt < p.maxRetries && connect {
            waits := waits + [BackoffDelay(attempt, None)];
          } else {
            return RequestError(connect), sent, waits;
          }
        case Response(status, quota, retryAfter) =>
          if IsSuccess(status) {
            return Delivered(status), sent, waits;
          }
          if attempt < p.maxRetries && IsRetryable(status) {
            if status == 429 && quota {
              return ApiError(status), sent, waits;
            }
            waits := waits + [BackoffDelay(attempt, retryAfter)];
          } else {
            return ApiError(status), sent, waits;
          }
      }
    }
    assert false;
  }

  // ---- how long it waits ----------------------------------------------------

  lemma Pow2Of56()
    ensures Pow2(56) == 72057594037927936 && Pow2(55) == 36028797018963968
  {
    assert Pow2(7) == 128;
    Pow2Add(7, 7);
    Pow2Add(14, 14);
    Pow2Add(28, 28);
    assert Pow2(56) == 2 * Pow2(55);
  }

  lemma QuarterOf(m: nat)
    ensures 500 * m + 500 * m / 4 == 625 * m
  {
  }

  lemma NoWrap(n: nat)
    requires n < U64
    ensures n % U64 == n
  {
  }

  lemma DelayExactUpTo55(attempt: nat)
    requires attempt <= 55
    ensures BackoffDelay(attempt, None) == 625 * Pow2(attempt)
  {
    Pow2Monotone(attempt, 55);
    Pow2Of56();
    hide Pow2;
    var m := Pow2(attempt);
    NoWrap(500 * m);
    QuarterOf(m);
  }

  lemma DelayShortFrom56(attempt: nat)
    requires attempt >= 56
    ensures BackoffDelay(attempt, None) < 625 * Pow2(attempt)
  {
    Pow2Monotone(56, attempt);
    Pow2Of56();
    hide Pow2;
  }

  /** The delay is 625 ms doubled `attempt` times exactly up to attempt 55. The cap on
      the exponent is meant to prevent overflow but comes too late: from attempt 56
      the product wraps and the delay is too short. */
  lemma DelayExactly(attempt: nat)
    ensures BackoffDelay(attempt, None) == 625 * Pow2(attempt) <==> attempt <= 55
  {
    if attempt <= 55 {
      DelayExactUpTo55(attempt);
    } else {
      DelayShortFrom56(attempt);
    }
  }

  lemma WrappedBase(a: nat)
    requires 56 <= a <= 62
    ensures (500 * Pow2(a)) % U64 == 0 <==> a == 62
  {
    Pow2Of56();
    assert Pow2(57) == 2 * Pow2(56) && Pow2(58) == 4 * Pow2(56) && Pow2(59) == 8 * Pow2(56);
    assert Pow2(60) == 16 * Pow2(56) && Pow2(61) == 32 * Pow2(56) && Pow2(62) == 64 * Pow2(56);
  }

  /** At the cap the product is a multiple of 2^64: from attempt 62 on there is no
      delay at all, and only there. */
  lemma DelayVanishesExactly(attempt: nat)
    ensures BackoffDelay(attempt, None) == 0 <==> attempt >= 62
  {
    if attempt <= 55 {
      DelayExactUpTo55(attempt);
    } else {
      WrappedBase(if attempt < 62 then attempt else 62);
    }
  }

  function Sum(waits: seq<nat>): nat {
    if |waits| == 0 then 0 else Sum(waits[..|waits| - 1]) + waits[|waits| - 1]
  }

  ghost predicate PlainBackoffs(waits: seq<nat>) {
    forall k :: 0 <= k < |waits| ==> waits[k] == BackoffDelay(k, None)
  }

  lemma {:induction false} TotalAtMost(waits: seq<nat>)
    requires PlainBackoffs(waits)
    ensures Sum(waits) <= 625 * (Pow2(|waits|) - 1)
    ensures |waits| > 56 ==> Sum(waits) < 625 * (Pow2(|waits|) - 1)
    ensures |waits| <= 56 ==> Sum(waits) == 625 * (Pow2(|waits|) - 1)
  {
    hide BackoffDelay;
    if |waits| > 0 {
      var k := |waits| - 1;
      TotalAtMost(waits[..k]);
      if k <= 55 {
        DelayExactUpTo55(k);
      } else {
        DelayShortFrom56(k);
      }
    }
  }

  /** In a run where no response carries a retry-after, the waits before the last
      request add up to 625 (2^k - 1) ms for its k retries exactly when there are at
      most 56 of them. */
  lemma TotalWaitExactly(script: nat -> Outcome, waits: seq<nat>)
    requires forall k :: 0 <= k < |waits| ==> waits[k] == WaitAfter(k, script(k))
    requires forall k: nat :: k < |waits| && script(k).Response? ==> script(k).retryAfter == None
    ensures Sum(waits) == 625 * (Pow2(|waits|) - 1) <==> |waits| <= 56
  {
    hide BackoffDelay;
    TotalAtMost(waits);
  }
}
