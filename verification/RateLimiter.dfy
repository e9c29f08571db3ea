/**
 The token bucket of crates/adrive/src/domain/rate_limiter.rs.

 Instants are nanoseconds on a monotonic clock; `acquire` holds the bucket's mutex for its whole
 body, so each call is one atomic step and any interleaving of clients is a sequence of calls.
 All unsigned 64-bit operations saturate or truncate as they do in the source.
 */
module RateLimiting {
  import opened Prelude

  const NANOS_PER_MILLI: nat := 1_000_000
  const TWO_TO_64: nat := 0x1_0000_0000_0000_0000

  function SaturatingAdd(a: nat, b: nat): nat {
    Min(a + b, U64_MAX)
  }

  function SaturatingMul(a: nat, b: nat): nat {
    Min(a * b, U64_MAX)
  }

  /** `now.duration_since(then).as_millis() as u64`: floored, zero when `now` is earlier, truncated to 64 bits. */
  function ElapsedMillis(since: nat, now: nat): nat {
    if now < since then 0 else (now - since) / NANOS_PER_MILLI % TWO_TO_64
  }

  /** Whole milliseconds, modulo 2^64 of them; a clock that stands before the checkpoint counts as none. */
  lemma {:induction false} ElapsedIs(since: nat, wraps: nat, millis: nat, nanos: nat)
    requires millis <= 18_446_744_073_709_551_615 && nanos < 1_000_000
    ensures ElapsedMillis(since, since + (wraps * 18_446_744_073_709_551_616 + millis) * 1_000_000 + nanos) == millis
    ensures forall now: nat :: now < since ==> ElapsedMillis(since, now) == 0
  {
    var total := wraps * 18_446_744_073_709_551_616 + millis;
    assert (total * 1_000_000 + nanos) / NANOS_PER_MILLI == total;
    assert total % TWO_TO_64 == millis;
  }

  /** Tokens granted by a call at `now` when the last one was at `since`: the floored refill and one more. */
  function GrantAfter(rate: nat, since: nat, now: nat): nat {
    SaturatingMul(ElapsedMillis(since, now), rate) / 1000 + 1
  }

  datatype Bucket = Bucket(capacity: nat, rate: nat, tokens: nat, checkpoint: nat) {
    /** What `RateLimiter::new` establishes from its two i64 arguments and every call keeps. */
    predicate Valid() {
      rate <= capacity <= I64_MAX && tokens <= capacity
    }

    predicate Unlimited() {
      capacity == 0 || rate == 0
    }

    function Grant(now: nat): nat {
      GrantAfter(rate, checkpoint, now)
    }

    function Refilled(now: nat): nat {
      Min(SaturatingAdd(tokens, Grant(now)), capacity)
    }
  }

  datatype Reply = Allowed | Refused(waitMillis: nat)

  /** The wait, in milliseconds, reported for `missing` tokens. */
  function WaitMillis(missing: nat, rate: nat): nat
    requires rate > 0
  {
    Max(SaturatingAdd(SaturatingMul(missing, 1000), rate - 1) / rate, 10)
  }

  predicate IsLimited(b: Bucket, want: nat) {
    !b.Unlimited() && want != 0
  }

  /** One call of `acquire` as a state transition; the imperative form is RateLimiter.Acquire. */
  function Step(b: Bucket, want: nat, now: nat): (Bucket, Reply) {
    if !IsLimited(b, want) then (b, Allowed)
    else
      var charge := Min(want, b.capacity);
      var tokens := b.Refilled(now);
      if tokens >= charge then
        (b.(tokens := tokens - charge, checkpoint := now), Allowed)
      else
        (b.(tokens := tokens, checkpoint := now), Refused(WaitMillis(charge - tokens, b.rate)))
  }

  class RateLimiter {
    const capacity: nat
    const rate: nat
    var tokens: nat
    var checkpoint: nat

    ghost function Snapshot(): Bucket
      reads this
    {
      Bucket(capacity, rate, tokens, checkpoint)
    }

    constructor (capacity: int, rate: int, now: nat)
      requires -1 - I64_MAX <= capacity <= I64_MAX && -1 - I64_MAX <= rate <= I64_MAX
      ensures Snapshot().Valid()
      ensures this.rate == Max(rate, 0) && this.capacity == Max(Max(capacity, 0), Max(rate, 0))
      ensures tokens == 0 && checkpoint == now
      ensures Snapshot().Unlimited() <==> rate <= 0
      ensures this.capacity <= 9_223_372_036_854_775_807
    {
      var r := Max(rate, 0);
      var c := Max(capacity, 0);
      if c < r {
        c := r;
      }
      this.capacity := c;
      this.rate := r;
      this.tokens := 0;
      this.checkpoint := now;
    }

    method Acquire(want: nat, now: nat) returns (allowed: bool, wait: Option<nat>)
      requires Snapshot().Valid() && want <= U64_MAX
      modifies this`tokens, this`checkpoint
      ensures Snapshot().Valid()
      ensures Snapshot() == Step(old(Snapshot()), want, now).0
      ensures allowed <==> Step(old(Snapshot()), want, now).1.Allowed?
      ensures allowed <==> wait.None?
      ensures !allowed ==> Refused(wait.value) == Step(old(Snapshot()), want, now).1
    {
      if capacity == 0 || rate == 0 || want == 0 {
        return true, None;
      }
      var charge := Min(want, capacity);
      var elapsed := ElapsedMillis(checkpoint, now);
      var delta := SaturatingMul(elapsed, rate) / 1000 + 1;
      var available := Min(SaturatingAdd(tokens, delta), capacity);
      if available >= charge {
        tokens := available - charge;
        checkpoint := now;
        return true, None;
      }
      tokens := available;
      checkpoint := now;
      var missing := charge - available;
      var waitMillis := Max(SaturatingAdd(SaturatingMul(missing, 1000), rate - 1) / rate, 10);
      return false, Some(waitMillis);
    }
  }

  // ----- Runs: any interleaving of clients is a sequence of calls -----

  datatype Call = Call(want: nat, now: nat)

  function Run(b: Bucket, calls: seq<Call>): Bucket
    decreases |calls|
  {
    if calls == [] then b else Run(Step(b, calls[0].want, calls[0].now).0, calls[1..])
  }

  /** Tokens taken out of the bucket by one call. */
  function Charge(b: Bucket, call: Call): nat {
    if IsLimited(b, call.want) && Step(b, call.want, call.now).1.Allowed? then Min(call.want, b.capacity) else 0
  }

  function Charged(b: Bucket, calls: seq<Call>): nat
    decreases |calls|
  {
    if calls == [] then 0
    else Charge(b, calls[0]) + Charged(Step(b, calls[0].want, calls[0].now).0, calls[1..])
  }

  /** Tokens granted to the bucket, before the capacity cap. */
  function Granted(b: Bucket, calls: seq<Call>): nat
    decreases |calls|
  {
    if calls == [] then 0
    else (if IsLimited(b, calls[0].want) then b.Grant(calls[0].now) else 0)
         + Granted(Step(b, calls[0].want, calls[0].now).0, calls[1..])
  }

  /** Tokens lost to the capacity cap. */
  function Spilled(b: Bucket, calls: seq<Call>): nat
    decreases |calls|
  {
    if calls == [] then 0
    else (if IsLimited(b, calls[0].want) then Max(b.tokens + b.Grant(calls[0].now) - b.capacity, 0) else 0)
         + Spilled(Step(b, calls[0].want, calls[0].now).0, calls[1..])
  }

  function LimitedCalls(b: Bucket, calls: seq<Call>): nat {
    if calls == [] then 0 else (if IsLimited(b, calls[0].want) then 1 else 0) + LimitedCalls(b, calls[1..])
  }

  /** The clock never runs backwards, as `Instant` guarantees. */
  ghost predicate Monotone(start: nat, calls: seq<Call>) {
    (forall i :: 0 <= i < |calls| ==> start <= calls[i].now)
    && forall i, j :: 0 <= i < j < |calls| ==> calls[i].now <= calls[j].now
  }

  /** Every call keeps the bucket's bounds and its two parameters. */
  lemma {:induction false} AcquireKeepsBounds(b: Bucket, want: nat, now: nat)
    requires b.Valid()
    ensures var b' := Step(b, want, now).0;
            b'.Valid() && b'.capacity == b.capacity && b'.rate == b.rate
  {
  }

  /** Stored tokens stay in [0, capacity], with capacity at least the rate, after any run. */
  lemma {:induction false} RunKeepsBounds(b: Bucket, calls: seq<Call>)
    requires b.Valid()
    ensures Run(b, calls).Valid()
    ensures Run(b, calls).capacity == b.capacity && Run(b, calls).rate == b.rate
    decreases |calls|
  {
    if calls != [] {
      AcquireKeepsBounds(b, calls[0].want, calls[0].now);
      RunKeepsBounds(Step(b, calls[0].want, calls[0].now).0, calls[1..]);
    }
  }

  /** Conservation: what was there and what was granted is what was charged, what spilled and what is left. */
  lemma {:induction false} Conservation(b: Bucket, calls: seq<Call>)
    requires b.Valid()
    ensures b.tokens + Granted(b, calls) == Charged(b, calls) + Spilled(b, calls) + Run(b, calls).tokens
    decreases |calls|
  {
    if calls != [] {
      AcquireKeepsBounds(b, calls[0].want, calls[0].now);
      GrantFits(b, calls[0].now);
      Conservation(Step(b, calls[0].want, calls[0].now).0, calls[1..]);
    }
  }

  lemma {:induction false} GrantFits(b: Bucket, now: nat)
    requires b.Valid()
    ensures SaturatingAdd(b.tokens, b.Grant(now)) == b.tokens + b.Grant(now)
  {
  }

  /** Whole milliseconds between the checkpoints before and after a run. */
  function Span(b: Bucket, calls: seq<Call>): int {
    (Run(b, calls).checkpoint - b.checkpoint) / NANOS_PER_MILLI
  }

  lemma {:induction false} MulMonotone(a: nat, b: nat, c: nat)
    requires a <= b
    ensures a * c <= b * c
  {
  }

  /** Flooring each summand loses no less than flooring the sum. */
  lemma {:induction false} FloorSum(x: nat, y: nat, total: nat, rate: nat)
    requires x + y <= total
    ensures x * rate / 1000 + y * rate / 1000 <= total * rate / 1000
  {
    MulMonotone(x + y, total, rate);
    assert (x + y) * rate == x * rate + y * rate;
  }

  lemma {:induction false} CheckpointAdvances(b: Bucket, calls: seq<Call>)
    requires Monotone(b.checkpoint, calls)
    ensures Run(b, calls).checkpoint >= b.checkpoint
    decreases |calls|
  {
    if calls != [] {
      var b' := Step(b, calls[0].want, calls[0].now).0;
      CheckpointAdvances(b', calls[1..]);
    }
  }

  lemma {:induction false} GrantBound(b: Bucket, now: nat)
    requires b.checkpoint <= now
    ensures b.Grant(now) <= (now - b.checkpoint) / NANOS_PER_MILLI * b.rate / 1000 + 1
  {
    var millis := (now - b.checkpoint) / NANOS_PER_MILLI;
    MulMonotone(ElapsedMillis(b.checkpoint, now), millis, b.rate);
  }

  lemma {:induction false} GrantedBound(b: Bucket, calls: seq<Call>)
    requires b.Valid() && Monotone(b.checkpoint, calls)
    ensures Span(b, calls) >= 0
    ensures Granted(b, calls) <= Span(b, calls) * b.rate / 1000 + LimitedCalls(b, calls)
    decreases |calls|
  {
    CheckpointAdvances(b, calls);
    if calls != [] {
      var b' := Step(b, calls[0].want, calls[0].now).0;
      GrantedBound(b', calls[1..]);
      SameLimits(b, b', calls[1..]);
      if IsLimited(b, calls[0].want) {
        GrantBound(b, calls[0].now);
        FloorSum((calls[0].now - b.checkpoint) / NANOS_PER_MILLI, Span(b', calls[1..]), Span(b, calls), b.rate);
      }
    }
  }

  lemma {:induction false} SameLimits(b: Bucket, b': Bucket, calls: seq<Call>)
    requires b.capacity == b'.capacity && b.rate == b'.rate
    ensures LimitedCalls(b, calls) == LimitedCalls(b', calls)
  {
    if calls != [] {
      SameLimits(b, b', calls[1..]);
    }
  }

  /**
   Throughput over every run: tokens charged plus tokens left are at most the tokens at the start,
   the floored refill for the elapsed milliseconds, and one per limited call.
   */
  lemma {:induction false} ThroughputBound(b: Bucket, calls: seq<Call>)
    requires b.Valid() && Monotone(b.checkpoint, calls)
    ensures Charged(b, calls) + Run(b, calls).tokens
            <= b.tokens + Span(b, calls) * b.rate / 1000 + LimitedCalls(b, calls)
  {
    Conservation(b, calls);
    GrantedBound(b, calls);
  }

  /** The extra token per call is real: any number of one-token calls pass while the clock stands still. */
  lemma {:induction false} StandingClockStillGrants(b: Bucket, n: nat)
    requires b.Valid() && !b.Unlimited()
    ensures var calls := seq(n, _ => Call(1, b.checkpoint));
            Charged(b, calls) == n && Run(b, calls).checkpoint == b.checkpoint
    decreases n
  {
    var calls := seq(n, _ => Call(1, b.checkpoint));
    if n > 0 {
      var b' := Step(b, 1, b.checkpoint).0;
      assert calls[1..] == seq(n - 1, _ => Call(1, b'.checkpoint));
      StandingClockStillGrants(b', n - 1);
    }
  }

  // ----- Refusals -----

  ghost predicate AllRefused(b: Bucket, calls: seq<Call>)
    decreases |calls|
  {
    calls == []
    || (Step(b, calls[0].want, calls[0].now).1.Refused?
        && AllRefused(Step(b, calls[0].want, calls[0].now).0, calls[1..]))
  }

  /** A refused call still raises the stored tokens, even when no time has passed. */
  lemma {:induction false} RefusalRaisesTokens(b: Bucket, want: nat, now: nat)
    requires b.Valid() && Step(b, want, now).1.Refused?
    ensures b.tokens + 1 <= Step(b, want, now).0.tokens < Min(want, b.capacity)
  {
    GrantFits(b, now);
  }

  /**
   However clients interleave, refusals in a row are fewer than the largest request allows:
   fewer than `capacity`, and for one client retrying the same request fewer than the tokens it lacks.
   */
  lemma {:induction false} RefusalsAreBounded(b: Bucket, calls: seq<Call>, most: nat)
    requires b.Valid() && AllRefused(b, calls) && calls != []
    requires forall i :: 0 <= i < |calls| ==> calls[i].want <= most
    ensures |calls| < Min(most, b.capacity) - b.tokens
    decreases |calls|
  {
    var b' := Step(b, calls[0].want, calls[0].now).0;
    RefusalRaisesTokens(b, calls[0].want, calls[0].now);
    AcquireKeepsBounds(b, calls[0].want, calls[0].now);
    if calls[1..] != [] {
      RefusalsAreBounded(b', calls[1..], most);
    }
  }

  // ----- The promised wait -----

  /** Tokens a request lacks at `now`, after the refill of that instant. */
  function Missing(b: Bucket, want: nat, now: nat): int {
    Min(want, b.capacity) - b.Refilled(now)
  }

  /** The largest rate-times-milliseconds product that a saturated wait still covers. */
  function Reach(rate: nat): nat
    requires rate > 0
  {
    if U64_MAX / rate < 10 then U64_MAX else U64_MAX - U64_MAX % rate
  }

  /** Retrying the refused request, with no call in between, succeeds at every instant from the promised one on. */
  ghost predicate PromiseKept(b: Bucket, want: nat, now: nat)
    requires Step(b, want, now).1.Refused?
  {
    var (b', reply) := Step(b, want, now);
    forall later: nat ::
      now + reply.waitMillis * NANOS_PER_MILLI <= later && (later - now) / NANOS_PER_MILLI <= U64_MAX
      ==> Step(b', want, later).1.Allowed?
  }

  lemma {:induction false} QuotientBounds(n: nat, rate: nat)
    requires rate > 0
    ensures n / rate * rate == n - n % rate
    ensures n / rate * rate <= n < n / rate * rate + rate
    ensures n / rate <= n
  {
    if n / rate > n {
      MulMonotone(1, rate, n / rate);
    }
  }

  /** Unsaturated, the wait refills every missing token. */
  lemma {:induction false} PlainWaitCovers(missing: nat, rate: nat)
    requires rate > 0 && missing * 1000 + rate - 1 <= U64_MAX
    ensures WaitMillis(missing, rate) <= U64_MAX
    ensures missing * 1000 <= SaturatingMul(WaitMillis(missing, rate), rate)
    ensures missing * 1000 <= Reach(rate)
  {
    var numerator := missing * 1000 + rate - 1;
    QuotientBounds(numerator, rate);
    assert WaitMillis(missing, rate) == Max(numerator / rate, 10);
    MulMonotone(numerator / rate, WaitMillis(missing, rate), rate);
    assert U64_MAX % rate <= rate - 1;
  }

  /** Saturated, the wait refills exactly up to the reach. */
  lemma {:induction false} SaturatedWaitReaches(missing: nat, rate: nat)
    requires rate > 0 && missing * 1000 + rate - 1 > U64_MAX
    ensures WaitMillis(missing, rate) <= U64_MAX
    ensures SaturatingMul(WaitMillis(missing, rate), rate) == Reach(rate)
  {
    assert SaturatingAdd(SaturatingMul(missing, 1000), rate - 1) == U64_MAX;
    assert WaitMillis(missing, rate) == Max(U64_MAX / rate, 10);
    QuotientBounds(U64_MAX, rate);
    if U64_MAX / rate < 10 {
      MulMonotone(U64_MAX / rate + 1, 10, rate);
      assert (U64_MAX / rate + 1) * rate == U64_MAX / rate * rate + rate;
    }
  }

  /** What the saturating wait formula refills, compared with what is missing. */
  lemma {:induction false} WaitCovers(missing: nat, rate: nat)
    requires rate > 0 && missing > 0
    ensures WaitMillis(missing, rate) <= U64_MAX
    ensures (missing - 1) * 1000 <= SaturatingMul(WaitMillis(missing, rate), rate)
            <==> (missing - 1) * 1000 <= Reach(rate)
  {
    if missing * 1000 + rate - 1 <= U64_MAX {
      PlainWaitCovers(missing, rate);
    } else {
      SaturatedWaitReaches(missing, rate);
    }
  }

  /** A retry succeeds exactly when the refill since the refusal covers all but one of the missing tokens. */
  lemma {:induction false} RetryCondition(b: Bucket, want: nat, now: nat, later: nat)
    requires b.Valid() && Step(b, want, now).1.Refused?
    requires now <= later && (later - now) / NANOS_PER_MILLI <= U64_MAX
    ensures Step(Step(b, want, now).0, want, later).1.Allowed?
            <==> (Missing(b, want, now) - 1) * 1000
                 <= SaturatingMul((later - now) / NANOS_PER_MILLI, b.rate)
  {
    var b' := Step(b, want, now).0;
    AcquireKeepsBounds(b, want, now);
    GrantFits(b', later);
    assert ElapsedMillis(b'.checkpoint, later) == (later - now) / NANOS_PER_MILLI;
  }

  /**
   The promised wait suffices exactly when the missing tokens, less one, stay within the reach of
   64-bit arithmetic; in particular whenever the wait formula does not saturate.
   */
  lemma {:induction false} PromisedWait(b: Bucket, want: nat, now: nat)
    requires b.Valid() && Step(b, want, now).1.Refused?
    ensures Missing(b, want, now) > 0
    ensures PromiseKept(b, want, now) <==> (Missing(b, want, now) - 1) * 1000 <= Reach(b.rate)
    ensures Missing(b, want, now) * 1000 + b.rate - 1 <= U64_MAX ==> PromiseKept(b, want, now)
  {
    var (b', reply) := Step(b, want, now);
    var missing := Missing(b, want, now);
    WaitCovers(missing, b.rate);
    if missing * 1000 + b.rate - 1 <= U64_MAX {
      PlainWaitCovers(missing, b.rate);
    }
    var first := now + reply.waitMillis * NANOS_PER_MILLI;
    RetryCondition(b, want, now, first);
    if (missing - 1) * 1000 <= Reach(b.rate) {
      forall later: nat | first <= later && (later - now) / NANOS_PER_MILLI <= U64_MAX
        ensures Step(b', want, later).1.Allowed?
      {
        RetryCondition(b, want, now, later);
        MulMonotone(reply.waitMillis, (later - now) / NANOS_PER_MILLI, b.rate);
      }
    } else {
      assert !Step(b', want, first).1.Allowed?;
    }
  }

  /** No promise of a limiter with these parameters is ever broken, whatever its tokens and the request. */
  ghost predicate PromisesHold(capacity: nat, rate: nat)
    requires rate > 0
  {
    forall b: Bucket, want: nat, now: nat ::
      b.Valid() && b.capacity == capacity && b.rate == rate && Step(b, want, now).1.Refused?
      ==> PromiseKept(b, want, now)
  }

  /** A new limiter, asked at once for its whole capacity, lacks all but the one token of the call. */
  lemma {:induction false} NewLimiterLacksMost(capacity: nat, rate: nat)
    requires 0 < rate <= capacity <= I64_MAX && capacity > 1
    ensures Step(Bucket(capacity, rate, 0, 0), capacity, 0).1.Refused?
    ensures Missing(Bucket(capacity, rate, 0, 0), capacity, 0) == capacity - 1
  {
    var b := Bucket(capacity, rate, 0, 0);
    assert ElapsedMillis(0, 0) == 0 && b.Grant(0) == 1;
    assert b.Refilled(0) == 1;
  }

  /** What the two arguments of the constructor must satisfy for every promised wait to suffice. */
  lemma {:induction false} PromisesHoldIff(capacity: nat, rate: nat)
    requires 0 < rate <= capacity <= I64_MAX
    ensures PromisesHold(capacity, rate) <==> (capacity - 2) * 1000 <= Reach(rate)
  {
    if (capacity - 2) * 1000 <= Reach(rate) {
      forall b: Bucket, want: nat, now: nat |
        b.Valid() && b.capacity == capacity && b.rate == rate && Step(b, want, now).1.Refused?
        ensures PromiseKept(b, want, now)
      {
        PromisedWait(b, want, now);
        GrantFits(b, now);
        assert Missing(b, want, now) <= capacity - 1;
      }
    } else {
      var b := Bucket(capacity, rate, 0, 0);
      NewLimiterLacksMost(capacity, rate);
      PromisedWait(b, capacity, 0);
      assert b.Valid() && !PromiseKept(b, capacity, 0);
    }
  }

  /** The promise does break, even for a limiter whose capacity is its rate, as the transfer commands make it. */
  lemma {:induction false} PromiseCanBreak()
    ensures exists limit: nat :: 0 < limit <= I64_MAX && !PromisesHold(limit, limit)
  {
    assert Reach(I64_MAX) == U64_MAX;
    PromisesHoldIff(I64_MAX, I64_MAX);
  }

  /** Without saturation the wait is the least whole millisecond count that refills the missing tokens, or 10. */
  lemma {:induction false} WaitIsLeast(missing: nat, rate: nat)
    requires rate > 0 && missing * 1000 + rate - 1 <= U64_MAX
    ensures var wait := WaitMillis(missing, rate);
            wait >= 10
            && missing * 1000 <= wait * rate
            && forall shorter: nat :: 10 <= shorter < wait ==> shorter * rate < missing * 1000
  {
    var wait := WaitMillis(missing, rate);
    var quotient := (missing * 1000 + rate - 1) / rate;
    assert missing * 1000 <= quotient * rate < missing * 1000 + rate;
    MulMonotone(quotient, wait, rate);
    forall shorter: nat | 10 <= shorter < wait
      ensures shorter * rate < missing * 1000
    {
      MulMonotone(shorter + 1, quotient, rate);
      assert (shorter + 1) * rate == shorter * rate + rate;
    }
  }

  // ----- Throttled transfers: a refused request sleeps once and then sends its bytes -----

  /** Bytes sent by throttled clients: every call's bytes, whether it was allowed or only slept. */
  function Sent(calls: seq<Call>): nat {
    if calls == [] then 0 else calls[0].want + Sent(calls[1..])
  }

  ghost predicate AllPaid(b: Bucket, calls: seq<Call>)
    decreases |calls|
  {
    calls == []
    || (Step(b, calls[0].want, calls[0].now).1.Allowed?
        && calls[0].want <= b.capacity
        && AllPaid(Step(b, calls[0].want, calls[0].now).0, calls[1..]))
  }

  /**
   The wants fit a counter that starts at `level`, gives each want up and gains the refill between one
   call and the next; nothing here depends on what the limiter answers.
   */
  predicate Fits(rate: nat, level: int, calls: seq<Call>)
    decreases |calls|
  {
    calls == []
    || (calls[0].want <= level
        && (|calls| > 1 ==>
              Fits(rate, level - calls[0].want + GrantAfter(rate, calls[0].now, calls[1].now), calls[1..])))
  }

  /** The calls that ask for something. */
  function Positive(calls: seq<Call>): (asking: seq<Call>)
    ensures forall i :: 0 <= i < |asking| ==> asking[i].want > 0
  {
    if calls == [] then []
    else if calls[0].want == 0 then Positive(calls[1..])
    else [calls[0]] + Positive(calls[1..])
  }

  /** Limited calls are the ones that ask a limited bucket for something. */
  lemma {:induction false} LimitedCallsAre(b: Bucket, calls: seq<Call>)
    ensures LimitedCalls(b, calls) == if b.Unlimited() then 0 else |Positive(calls)|
  {
    if calls != [] {
      LimitedCallsAre(b, calls[1..]);
    }
  }

  /**
   What clients must keep to: from the first call on, the wants fit the tokens at hand and their
   refill, and from every call on they fit a full bucket and its refill.
   */
  ghost predicate Conforms(b: Bucket, calls: seq<Call>) {
    var asking := Positive(calls);
    asking == []
    || (Fits(b.rate, b.tokens + b.Grant(asking[0].now), asking)
        && forall i :: 0 <= i < |asking| ==> Fits(b.rate, b.capacity, asking[i..]))
  }

  /** Fitting the smaller of two levels is fitting both. */
  lemma {:induction false} FitsSmaller(rate: nat, x: int, y: int, calls: seq<Call>)
    ensures Fits(rate, Min(x, y), calls) <==> Fits(rate, x, calls) && Fits(rate, y, calls)
    decreases |calls|
  {
    if |calls| > 1 {
      var gain := GrantAfter(rate, calls[0].now, calls[1].now) - calls[0].want;
      FitsSmaller(rate, x + gain, y + gain, calls[1..]);
      assert Min(x + gain, y + gain) == Min(x, y) + gain;
    }
  }

  lemma {:induction false} FirstCallPaid(b: Bucket, call: Call)
    requires b.Valid() && !b.Unlimited() && call.want > 0
    ensures var (b', reply) := Step(b, call.want, call.now);
            reply.Allowed? && call.want <= b.capacity <==> call.want <= Min(b.tokens + b.Grant(call.now), b.capacity)
    ensures call.want <= Min(b.tokens + b.Grant(call.now), b.capacity) ==>
              Step(b, call.want, call.now).0
              == Bucket(b.capacity, b.rate, Min(b.tokens + b.Grant(call.now), b.capacity) - call.want, call.now)
  {
    GrantFits(b, call.now);
  }

  lemma {:induction false} EverySuffixFits(rate: nat, level: int, calls: seq<Call>)
    requires calls != []
    ensures (forall i :: 0 <= i < |calls| ==> Fits(rate, level, calls[i..]))
            <==> Fits(rate, level, calls) && forall i :: 0 <= i < |calls| - 1 ==> Fits(rate, level, calls[1..][i..])
  {
    assert calls[0..] == calls;
    assert forall i :: 0 <= i < |calls| - 1 ==> calls[1..][i..] == calls[i + 1..];
    if forall i :: 0 <= i < |calls| - 1 ==> Fits(rate, level, calls[1..][i..]) {
      forall i | 0 < i < |calls|
        ensures Fits(rate, level, calls[i..])
      {
        assert Fits(rate, level, calls[1..][i - 1..]);
      }
    }
  }

  lemma {:induction false} AskingPaidIff(b: Bucket, calls: seq<Call>)
    requires b.Valid() && !b.Unlimited() && calls != [] && forall i :: 0 <= i < |calls| ==> calls[i].want > 0
    ensures AllPaid(b, calls)
            <==> Fits(b.rate, b.tokens + b.Grant(calls[0].now), calls)
                 && forall i :: 0 <= i < |calls| ==> Fits(b.rate, b.capacity, calls[i..])
    decreases |calls|
  {
    hide GrantAfter;
    var level := Min(b.tokens + b.Grant(calls[0].now), b.capacity);
    FitsSmaller(b.rate, b.tokens + b.Grant(calls[0].now), b.capacity, calls);
    EverySuffixFits(b.rate, b.capacity, calls);
    FirstCallPaid(b, calls[0]);
    hide Step;
    assert Fits(b.rate, level, calls) ==> calls[0].want <= level;
    if calls[0].want <= level {
      var b' := Step(b, calls[0].want, calls[0].now).0;
      if |calls| > 1 {
        AskingPaidIff(b', calls[1..]);
      } else {
        assert calls[1..] == [];
      }
    }
  }

  /** A call for nothing changes nothing. */
  lemma {:induction false} OnlyAskingMatters(b: Bucket, calls: seq<Call>)
    ensures AllPaid(b, calls) <==> AllPaid(b, Positive(calls))
    decreases |calls|
  {
    if calls != [] {
      OnlyAskingMatters(Step(b, calls[0].want, calls[0].now).0, calls[1..]);
      assert calls[0].want > 0 ==> Positive(calls)[1..] == Positive(calls[1..]);
    }
  }

  lemma {:induction false} SentIsChargedIfPaid(b: Bucket, calls: seq<Call>)
    requires b.Valid() && !b.Unlimited()
    ensures Charged(b, calls) <= Sent(calls)
    ensures Sent(calls) == Charged(b, calls) <==> AllPaid(b, calls)
    decreases |calls|
  {
    if calls != [] {
      AcquireKeepsBounds(b, calls[0].want, calls[0].now);
      SentIsChargedIfPaid(Step(b, calls[0].want, calls[0].now).0, calls[1..]);
    }
  }

  /** Every byte sent is charged exactly when the wants conform, which a client can tell beforehand. */
  lemma {:induction false} SentIsChargedIff(b: Bucket, calls: seq<Call>)
    requires b.Valid() && !b.Unlimited()
    ensures Charged(b, calls) <= Sent(calls)
    ensures Sent(calls) == Charged(b, calls) <==> Conforms(b, calls)
  {
    SentIsChargedIfPaid(b, calls);
    OnlyAskingMatters(b, calls);
    if Positive(calls) != [] {
      AskingPaidIff(b, Positive(calls));
    }
  }

  /** The bytes sent are no more than the limiter lets through in the run's time and calls. */
  ghost predicate StaysInAllowance(b: Bucket, calls: seq<Call>) {
    Sent(calls) <= b.tokens + Span(b, calls) * b.rate / 1000 + LimitedCalls(b, calls)
  }

  /** Conforming clients stay within the allowance. */
  lemma {:induction false} ConformingStayInAllowance(b: Bucket, calls: seq<Call>)
    requires b.Valid() && !b.Unlimited() && Monotone(b.checkpoint, calls) && Conforms(b, calls)
    ensures StaysInAllowance(b, calls)
  {
    SentIsChargedIff(b, calls);
    ThroughputBound(b, calls);
  }

  /** One token is always at hand: the call itself grants it. */
  lemma {:induction false} SmallWantsArePaid(b: Bucket, calls: seq<Call>)
    requires b.Valid() && !b.Unlimited() && forall i :: 0 <= i < |calls| ==> calls[i].want <= 1
    ensures AllPaid(b, calls)
    decreases |calls|
  {
    if calls != [] {
      AcquireKeepsBounds(b, calls[0].want, calls[0].now);
      GrantFits(b, calls[0].now);
      SmallWantsArePaid(Step(b, calls[0].want, calls[0].now).0, calls[1..]);
    }
  }

  /** Two bytes a call while the clock stands still. */
  lemma {:induction false} PairsWhileClockStands(b: Bucket, n: nat)
    requires !b.Unlimited()
    ensures var calls := seq(n, _ => Call(2, b.checkpoint));
            Sent(calls) == 2 * n && LimitedCalls(b, calls) == n && Run(b, calls).checkpoint == b.checkpoint
    decreases n
  {
    var calls := seq(n, _ => Call(2, b.checkpoint));
    if n > 0 {
      var b' := Step(b, 2, b.checkpoint).0;
      assert calls[1..] == seq(n - 1, _ => Call(2, b'.checkpoint));
      PairsWhileClockStands(b', n - 1);
      SameLimits(b, b', calls[1..]);
    }
  }

  /** Whatever the bucket, requests up to `most` are safe to throttle exactly when `most` is at most one byte. */
  lemma {:induction false} AllowanceKeptIff(b: Bucket, most: nat)
    requires b.Valid() && !b.Unlimited()
    ensures (forall calls: seq<Call> ::
               Monotone(b.checkpoint, calls) && (forall i :: 0 <= i < |calls| ==> calls[i].want <= most)
               ==> StaysInAllowance(b, calls))
            <==> most <= 1
  {
    if most <= 1 {
      forall calls: seq<Call> | Monotone(b.checkpoint, calls) && forall i :: 0 <= i < |calls| ==> calls[i].want <= most
        ensures StaysInAllowance(b, calls)
      {
        SmallWantsArePaid(b, calls);
        SentIsChargedIfPaid(b, calls);
        ThroughputBound(b, calls);
      }
    } else {
      var calls := seq(b.tokens + 1, _ => Call(2, b.checkpoint));
      PairsWhileClockStands(b, b.tokens + 1);
      assert Monotone(b.checkpoint, calls) && !StaysInAllowance(b, calls);
    }
  }

  lemma {:induction false} TwoCalls(b: Bucket, first: Call, second: Call)
    ensures var calls := [first, second];
            Run(b, calls) == Step(Step(b, first.want, first.now).0, second.want, second.now).0
            && Sent(calls) == first.want + second.want
            && LimitedCalls(b, calls) <= 2
  {
    var rest := [first, second][1..];
    assert rest == [second] && rest[1..] == [];
    var b' := Step(b, first.want, first.now).0;
    assert Run(b', rest) == Run(Step(b', second.want, second.now).0, []);
    assert Sent(rest) == second.want + Sent([]);
    assert LimitedCalls(b, rest) <= 1 + LimitedCalls(b, []);
  }

  lemma {:induction false} GrantsOfExample()
    ensures GrantAfter(1000, 0, 0) == 1 && GrantAfter(1000, 0, 999_000_000) == 1000
  {
    assert ElapsedMillis(0, 0) == 0 && ElapsedMillis(0, 999_000_000) == 999;
  }

  /** The first send is refused with a wait, the second is allowed. */
  lemma {:induction false} RefusedThenAllowed()
    ensures Step(Bucket(1000, 1000, 0, 0), 1000, 0) == (Bucket(1000, 1000, 1, 0), Refused(999))
    ensures Step(Bucket(1000, 1000, 1, 0), 1000, 999_000_000) == (Bucket(1000, 1000, 0, 999_000_000), Allowed)
  {
    GrantsOfExample();
    hide GrantAfter;
  }

  /**
   So throttled bytes can exceed the limiter's allowance, because the bytes of a refused call are never
   charged: 2000 bytes within 999 milliseconds of a limiter of 1000 bytes a second.
   */
  lemma {:induction false} ThrottledBytesCanExceedAllowance()
    ensures var b := Bucket(1000, 1000, 0, 0);
            var calls := [Call(1000, 0), Call(1000, 999_000_000)];
            && b.Valid() && !b.Unlimited() && Monotone(b.checkpoint, calls)
            && Sent(calls) == 2000 && Span(b, calls) == 999 && !StaysInAllowance(b, calls)
  {
    hide Step;
    var b := Bucket(1000, 1000, 0, 0);
    RefusedThenAllowed();
    TwoCalls(b, Call(1000, 0), Call(1000, 999_000_000));
  }
}
