/** The per-CPU token bucket that limits drop logging. */
module Bucket {
  import opened Common

  /** Tokens left, and the time of the last refill. */
  datatype Tokens = Tokens(tokens: nat, lastRefill: nat)

  /** Tokens a refill at `now` would grant before the cap; the count is truncated to 32 bits. */
  function Grant(b: Tokens, now: nat): nat {
    var elapsed := SaturatingSub(now, b.lastRefill);
    if elapsed >= LOG_BUCKET_REFILL_NS then elapsed / LOG_BUCKET_REFILL_NS % U32_RANGE else 0
  }

  predicate Refills(b: Tokens, now: nat) {
    SaturatingSub(now, b.lastRefill) >= LOG_BUCKET_REFILL_NS
  }

  function Refill(b: Tokens, now: nat): Tokens {
    if Refills(b, now) then Tokens(Min(Min(b.tokens + Grant(b, now), U32_RANGE - 1), LOG_BUCKET_MAX), now) else b
  }

  /** One attempt: refill, then take a token if there is one. */
  function Take(b: Tokens, now: nat): (Tokens, bool) {
    var r := Refill(b, now);
    if r.tokens > 0 then (r.(tokens := r.tokens - 1), true) else (r, false)
  }

  class LogBucket {
    var tokens: nat
    var lastRefill: nat

    constructor ()
      ensures View() == Tokens(0, 0)
    {
      tokens, lastRefill := 0, 0;
    }

    function View(): Tokens
      reads this
    {
      Tokens(tokens, lastRefill)
    }

    method TryTake(now: nat) returns (taken: bool)
      modifies this
      ensures (View(), taken) == Take(old(View()), now)
      ensures old(tokens) <= LOG_BUCKET_MAX ==> tokens <= LOG_BUCKET_MAX
    {
      var elapsed := SaturatingSub(now, lastRefill);
      if elapsed >= LOG_BUCKET_REFILL_NS {
        var granted := elapsed / LOG_BUCKET_REFILL_NS % U32_RANGE;
        var total := Min(tokens + granted, U32_RANGE - 1);
        tokens := if total > LOG_BUCKET_MAX then LOG_BUCKET_MAX else total;
        lastRefill := now;
      }
      if tokens > 0 {
        tokens := tokens - 1;
        return true;
      }
      return false;
    }
  }

  // ---------------------------------------------------------------------
  // Runs of attempts
  // ---------------------------------------------------------------------

  /** Times of attempts, in order, between a and b. */
  ghost predicate Within(times: seq<nat>, a: nat, b: nat) {
    && (forall i | 0 <= i < |times| :: a <= times[i] <= b)
    && (forall i, j | 0 <= i < j < |times| :: times[i] <= times[j])
  }

  /** How many of the attempts get a token. */
  function Taken(b: Tokens, times: seq<nat>): nat
    decreases |times|
  {
    if times == [] then 0
    else
      var (b', ok) := Take(b, times[0]);
      (if ok then 1 else 0) + Taken(b', times[1..])
  }

  function Final(b: Tokens, times: seq<nat>): Tokens
    decreases |times|
  {
    if times == [] then b else Final(Take(b, times[0]).0, times[1..])
  }

  lemma IntervalsAdd(x: nat, y: nat)
    ensures x / LOG_BUCKET_REFILL_NS + y / LOG_BUCKET_REFILL_NS <= (x + y) / LOG_BUCKET_REFILL_NS
  {}

  lemma WithinTail(times: seq<nat>, a: nat, b: nat)
    requires Within(times, a, b) && times != []
    ensures Within(times[1..], times[0], b) && a <= times[0] <= b
  {}

  /** From any bucket, what is taken up to time b is paid for by its tokens and the time since its refill. */
  lemma {:induction false} TakenIsPaid(t: Tokens, times: seq<nat>, a: nat, b: nat)
    requires Within(times, a, b) && t.lastRefill <= a <= b
    ensures Taken(t, times) <= t.tokens + (b - t.lastRefill) / LOG_BUCKET_REFILL_NS
    decreases |times|
  {
    if times != [] {
      var now := times[0];
      WithinTail(times, a, b);
      TakenIsPaid(Take(t, now).0, times[1..], now, b);
      IntervalsAdd(now - t.lastRefill, b - now);
    }
  }

  /** The refill cap holds from the first refill on. */
  lemma {:induction false} TokensCapped(t: Tokens, times: seq<nat>)
    requires t.tokens <= LOG_BUCKET_MAX
    ensures Final(t, times).tokens <= LOG_BUCKET_MAX
    decreases |times|
  {
    if times != [] {
      TokensCapped(Take(t, times[0]).0, times[1..]);
    }
  }

  function CeilDiv(x: nat, d: nat): nat
    requires d > 0
  {
    (x + d - 1) / d
  }

  /** Between times a and b at most 100 + ceil((b - a) / REFILL) events are logged on one CPU. */
  lemma RateLimited(t: Tokens, times: seq<nat>, a: nat, b: nat)
    requires Within(times, a, b) && t.lastRefill <= a <= b && t.tokens <= LOG_BUCKET_MAX
    ensures Taken(t, times) <= LOG_BUCKET_MAX + CeilDiv(b - a, LOG_BUCKET_REFILL_NS)
  {
    if times != [] {
      var now := times[0];
      if Refills(t, now) {
        WithinTail(times, a, b);
        TakenIsPaid(Take(t, now).0, times[1..], now, b);
      } else {
        TakenIsPaid(t, times, a, b);
      }
    }
  }

  lemma {:induction false} RefillNotAhead(t: Tokens, times: seq<nat>, a: nat, b: nat)
    requires Within(times, a, b) && t.lastRefill <= a <= b
    ensures Final(t, times).lastRefill <= b
    decreases |times|
  {
    if times != [] {
      WithinTail(times, a, b);
      RefillNotAhead(Take(t, times[0]).0, times[1..], times[0], b);
    }
  }

  /** The bound holds in every stretch of every run of a bucket that starts zeroed. */
  lemma AlwaysRateLimited(before: seq<nat>, times: seq<nat>, a: nat, b: nat)
    requires Within(before, 0, a) && Within(times, a, b) && a <= b
    ensures Taken(Final(Tokens(0, 0), before), times) <= LOG_BUCKET_MAX + CeilDiv(b - a, LOG_BUCKET_REFILL_NS)
  {
    TokensCapped(Tokens(0, 0), before);
    RefillNotAhead(Tokens(0, 0), before, 0, a);
    RateLimited(Final(Tokens(0, 0), before), times, a, b);
  }

  // ---------------------------------------------------------------------
  // What refills grant
  // ---------------------------------------------------------------------

  /** Tokens granted over a run, before the cap. */
  function Granted(b: Tokens, times: seq<nat>): nat
    decreases |times|
  {
    if times == [] then 0 else Grant(b, times[0]) + Granted(Take(b, times[0]).0, times[1..])
  }

  /** No single refill spans more than a 32-bit count of intervals. */
  ghost predicate Untruncated(b: Tokens, times: seq<nat>)
    decreases |times|
  {
    times == [] ||
    (&& SaturatingSub(times[0], b.lastRefill) / LOG_BUCKET_REFILL_NS < U32_RANGE
     && Untruncated(Take(b, times[0]).0, times[1..]))
  }

  lemma GrantBounds(b: Tokens, now: nat)
    requires b.lastRefill <= now && (now - b.lastRefill) / LOG_BUCKET_REFILL_NS < U32_RANGE && Refills(b, now)
    ensures Grant(b, now) * LOG_BUCKET_REFILL_NS <= now - b.lastRefill < 2 * Grant(b, now) * LOG_BUCKET_REFILL_NS
  {}

  /**
   * Refills that span a total time D grant at most D / REFILL and, rounding losses included, more than
   * D / (2 * REFILL) tokens.
   */
  lemma {:induction false} RefillAccuracy(t: Tokens, times: seq<nat>, a: nat, b: nat)
    requires Within(times, a, b) && t.lastRefill <= a && Untruncated(t, times)
    ensures var span := Final(t, times).lastRefill - t.lastRefill;
      && span >= 0
      && Granted(t, times) * LOG_BUCKET_REFILL_NS <= span
      && (span > 0 ==> span < 2 * Granted(t, times) * LOG_BUCKET_REFILL_NS)
    decreases |times|
  {
    if times != [] {
      var now := times[0];
      WithinTail(times, a, b);
      RefillAccuracy(Take(t, now).0, times[1..], now, b);
      if Refills(t, now) {
        GrantBounds(t, now);
      }
    }
  }

  lemma {:induction false} SameInstant(t: Tokens, now: nat, n: nat)
    requires !Refills(t, now)
    ensures Taken(t, seq(n, _ => now)) == Min(n, t.tokens)
    decreases n
  {
    if n != 0 {
      var times := seq(n, _ => now);
      assert times[1..] == seq((n - 1) as nat, _ => now);
      SameInstant(Take(t, now).0, now, n - 1);
    }
  }

  /** A burst takes exactly what the refill leaves in the bucket. */
  lemma Burst(t: Tokens, now: nat, n: nat)
    ensures Taken(t, seq(n, _ => now)) == Min(n, Refill(t, now).tokens)
  {
    if n != 0 && Refills(t, now) {
      var times := seq(n, _ => now);
      assert times[1..] == seq((n - 1) as nat, _ => now);
      SameInstant(Take(t, now).0, now, n - 1);
    } else if n != 0 {
      SameInstant(t, now, n);
    }
  }

  /**
   * What a burst takes of any capped bucket at a time that refills it: the tokens left plus one for every 10 ms
   * since the last refill, that count truncated to 32 bits, and 100 at most.
   */
  lemma BurstExactly(t: Tokens, now: nat, n: nat)
    requires t.tokens <= LOG_BUCKET_MAX && t.lastRefill + 10_000_000 <= now
    ensures Taken(t, seq(n, _ => now)) ==
            Min(n, Min(100, t.tokens + (now - t.lastRefill) / 10_000_000 % 0x1_0000_0000))
  {
    hide Taken;
    Burst(t, now, n);
  }

  /**
   * Such a burst logs exactly its first 100 events if and only if the tokens left and the truncated interval
   * count make up 100.
   */
  lemma BurstAfterIdle(t: Tokens, now: nat, n: nat)
    requires t.tokens <= LOG_BUCKET_MAX && Refills(t, now) && n >= LOG_BUCKET_MAX
    ensures Taken(t, seq(n, _ => now)) == LOG_BUCKET_MAX <==>
            t.tokens + (now - t.lastRefill) / LOG_BUCKET_REFILL_NS % U32_RANGE >= LOG_BUCKET_MAX
  {
    hide Taken;
    Burst(t, now, n);
  }

  // ---------------------------------------------------------------------
  // No token is lost but to the cap
  // ---------------------------------------------------------------------

  /** Granted tokens that found the bucket full, over a run. */
  function Spilled(t: Tokens, times: seq<nat>): nat
    decreases |times|
  {
    if times == [] then 0
    else SaturatingSub(t.tokens + Grant(t, times[0]), LOG_BUCKET_MAX) + Spilled(Take(t, times[0]).0, times[1..])
  }

  /** Over every run, what was in the bucket and what was granted was taken, is still there, or spilled over the cap. */
  lemma {:induction false} TokensConserved(t: Tokens, times: seq<nat>)
    requires t.tokens <= LOG_BUCKET_MAX
    ensures t.tokens + Granted(t, times) == Taken(t, times) + Final(t, times).tokens + Spilled(t, times)
    decreases |times|
  {
    if times != [] {
      TokensConserved(Take(t, times[0]).0, times[1..]);
    }
  }

  /** An attempt is refused only by an empty bucket: as many attempts succeed as tokens are there to begin with. */
  lemma {:induction false} StockIsUsable(t: Tokens, times: seq<nat>)
    requires t.tokens <= LOG_BUCKET_MAX
    ensures Taken(t, times) >= Min(|times|, t.tokens)
    decreases |times|
  {
    if times != [] {
      StockIsUsable(Take(t, times[0]).0, times[1..]);
    }
  }

  /** Every attempt comes at least one interval after the one before it, and not 2^32 intervals after. */
  ghost predicate Spaced(last: nat, times: seq<nat>)
    decreases |times|
  {
    times == [] ||
    (&& last + LOG_BUCKET_REFILL_NS <= times[0] < last + U32_RANGE * LOG_BUCKET_REFILL_NS
     && Spaced(times[0], times[1..]))
  }

  /** Events at most one per interval are all logged. */
  lemma {:induction false} SpacedAllTaken(t: Tokens, times: seq<nat>)
    requires t.tokens <= LOG_BUCKET_MAX && Spaced(t.lastRefill, times)
    ensures Taken(t, times) == |times|
    decreases |times|
  {
    if times != [] {
      GrantBounds(t, times[0]);
      SpacedAllTaken(Take(t, times[0]).0, times[1..]);
    }
  }
}
