/**
 The rate-limit guard consulted after every billing-seat page request
 (team.py:58-66). Instead of sleeping, the model returns how long the
 guard would sleep: `None` when it does not wait, `Some(d)` when it sleeps
 for `d` seconds. The clock is an integer count of seconds since the epoch.
 */
module RateLimit {
  import opened Values

  /** The two headers the guard reads, already parsed as integers; `None` when absent. */
  datatype RateHeaders = RateHeaders(remaining: Option<int>, reset: Option<int>)

  /** The value the guard reads from a header: the header's integer, or 0 when it is absent. */
  function HeaderOrZero(h: Option<int>): int {
    match h
    case Some(v) => v
    case None => 0
  }

  function Max(a: int, b: int): int {
    if a >= b then a else b
  }

  function RateLimitWait(h: RateHeaders, now: nat): (w: Option<nat>)
    // the guard waits exactly when the remaining quota reads as zero
    ensures w.Some? <==> HeaderOrZero(h.remaining) == 0
    // every wait lasts at least one second and ends strictly after the reset second
    ensures w.Some? ==> w.value >= 1 && now + w.value > HeaderOrZero(h.reset)
    // and it is the shortest such wait: one second, or the wait that ends one second after the reset
    ensures w.Some? ==> w.value == 1 || now + w.value == HeaderOrZero(h.reset) + 1
  {
    var remaining := HeaderOrZero(h.remaining);
    var reset := HeaderOrZero(h.reset);
    if remaining == 0 then Some(Max(reset - now, 0) + 1) else None
  }

  /** Without either header the guard always waits, and for exactly one second. */
  lemma MissingHeadersWaitOneSecond(now: nat)
    ensures RateLimitWait(RateHeaders(None, None), now) == Some(1)
  {
  }

  /** With the quota exhausted and the reset `k` seconds ahead, the next request waits `k + 1` seconds. */
  lemma ExhaustedQuotaWaitsPastReset(now: nat, k: nat)
    ensures RateLimitWait(RateHeaders(Some(0), Some(now + k)), now) == Some(k + 1)
  {
  }

  /** A reset already in the past still costs the one-second buffer. */
  lemma StaleResetWaitsOneSecond(now: nat, reset: int)
    requires reset <= now
    ensures RateLimitWait(RateHeaders(Some(0), Some(reset)), now) == Some(1)
  {
  }
}
