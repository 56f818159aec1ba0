/** The token bucket of src/core/serve/HandshakeLimiter.cpp. */
module HandshakeLimiter {
  import opened Bytes

  const WORDS := U64_MAX + 1

  datatype Limiter = Limiter(
    maximumPending: nat, burst: nat, interval: int, lastRefill: int, tokens: nat, pending: nat)
  {
    predicate Valid() {
      0 < maximumPending && 0 < burst < WORDS && 0 < interval && tokens <= burst && pending <= maximumPending
    }
  }

  datatype LimiterError = NotPositive | NothingPending

  datatype Call = TryBegin(now: int) | Finish

  /** The number of whole intervals that a call at this time adds; none when the clock has gone back. */
  function Intervals(l: Limiter, now: int): nat
    requires l.Valid()
  {
    if now <= l.lastRefill then 0 else (now - l.lastRefill) / l.interval
  }

  function Refilled(l: Limiter, now: int): Limiter
    requires l.Valid()
  {
    var n := Intervals(l, now);
    if n == 0 then l
    else l.(tokens := Min(l.burst, (l.tokens + n) % WORDS), lastRefill := l.lastRefill + l.interval * n)
  }

  predicate Admits(l: Limiter, c: Call)
    requires l.Valid()
  {
    c.TryBegin? && l.pending < l.maximumPending && Refilled(l, c.now).tokens > 0
  }

  predicate Finishes(l: Limiter, c: Call) {
    c.Finish? && l.pending > 0
  }

  function Step(l: Limiter, c: Call): (r: Limiter)
    requires l.Valid()
    ensures r.Valid() && r.burst == l.burst && r.interval == l.interval && r.maximumPending == l.maximumPending
  {
    match c
    case TryBegin(now) =>
      var t := Refilled(l, now);
      if Admits(l, c) then t.(tokens := t.tokens - 1, pending := t.pending + 1) else t
    case Finish => if l.pending == 0 then l else l.(pending := l.pending - 1)
  }

  function After(l: Limiter, run: seq<Call>): (r: Limiter)
    requires l.Valid()
    ensures r.Valid() && r.burst == l.burst && r.interval == l.interval && r.maximumPending == l.maximumPending
    decreases |run|
  {
    if run == [] then l else After(Step(l, run[0]), run[1..])
  }

  function Admissions(l: Limiter, run: seq<Call>): nat
    requires l.Valid()
    decreases |run|
  {
    if run == [] then 0 else (if Admits(l, run[0]) then 1 else 0) + Admissions(Step(l, run[0]), run[1..])
  }

  function Completions(l: Limiter, run: seq<Call>): nat
    requires l.Valid()
    decreases |run|
  {
    if run == [] then 0 else (if Finishes(l, run[0]) then 1 else 0) + Completions(Step(l, run[0]), run[1..])
  }

  /** The latest time seen, starting from `t`. */
  function Latest(t: int, run: seq<Call>): (r: int)
    ensures t <= r
    decreases |run|
  {
    if run == [] then t
    else Latest(if run[0].TryBegin? && run[0].now > t then run[0].now else t, run[1..])
  }

  // ---- Pending -------------------------------------------------------------------------------

  /** Pending handshakes are those begun and not finished, and never more than allowed. */
  lemma {:induction false} PendingIsBalance(l: Limiter, run: seq<Call>)
    requires l.Valid()
    ensures After(l, run).pending == l.pending + Admissions(l, run) - Completions(l, run) <= l.maximumPending
    decreases |run|
  {
    if run != [] {
      PendingIsBalance(Step(l, run[0]), run[1..]);
    }
  }

  // ---- Admissions ----------------------------------------------------------------------------

  lemma DivisionFacts(e: nat, d: int)
    requires d > 0
    ensures d * (e / d) <= e < d * (e / d) + d
  {
  }

  lemma AtMostQuotient(d: int, k: int, e: nat)
    requires d > 0 && d * k <= e
    ensures k <= e / d
  {
    DivisionFacts(e, d);
    var q := e / d;
    Distributes(d, q, 1);
    if k > q {
      Grows(d, q + 1, k);
    }
  }

  lemma Grows(d: int, a: int, b: int)
    requires d > 0 && a <= b
    ensures d * a <= d * b
  {
  }

  lemma AtMostCeiling(d: int, k: int, e: nat)
    requires d > 0 && d * k < e + d
    ensures k <= (e + d - 1) / d
  {
    AtMostQuotient(d, k, e + d - 1);
  }

  lemma Distributes(d: int, a: int, b: int)
    ensures d * (a + b) == d * a + d * b
  {
  }

  /** A refill never runs ahead of the clock, and leaves less than an interval over when the clock has not gone back. */
  lemma RefillFacts(l: Limiter, now: int)
    requires l.Valid()
    ensures var t := Refilled(l, now);
      && t.tokens <= l.tokens + Intervals(l, now) && t.lastRefill == l.lastRefill + l.interval * Intervals(l, now)
      && (t.lastRefill == l.lastRefill || t.lastRefill <= now)
      && (l.lastRefill <= now ==> t.lastRefill <= now < t.lastRefill + l.interval)
  {
    if now > l.lastRefill {
      DivisionFacts(now - l.lastRefill, l.interval);
    }
  }

  /** The intervals added over a run. */
  function Refills(l: Limiter, run: seq<Call>): nat
    requires l.Valid()
    decreases |run|
  {
    if run == [] then 0
    else (if run[0].TryBegin? then Intervals(l, run[0].now) else 0) + Refills(Step(l, run[0]), run[1..])
  }

  /** Tokens are conserved: every admission was paid for by a token held at the start or added since. */
  lemma {:induction false} EveryAdmissionIsPaid(l: Limiter, run: seq<Call>)
    requires l.Valid()
    ensures Admissions(l, run) + After(l, run).tokens <= l.tokens + Refills(l, run)
    ensures After(l, run).lastRefill == l.lastRefill + l.interval * Refills(l, run)
    ensures forall t :: l.lastRefill <= t ==> After(l, run).lastRefill <= Latest(t, run)
    decreases |run|
  {
    if run != [] {
      var next := Step(l, run[0]);
      EveryAdmissionIsPaid(next, run[1..]);
      var n := if run[0].TryBegin? then Intervals(l, run[0].now) else 0;
      if run[0].TryBegin? {
        RefillFacts(l, run[0].now);
      }
      Distributes(l.interval, n, Refills(next, run[1..]));
    }
  }

  /** For every run and any clock, forward or back: at most the burst and one for each whole interval elapsed. */
  lemma AdmissionsAreBounded(l: Limiter, run: seq<Call>)
    requires l.Valid()
    ensures Admissions(l, run) <= l.burst + (Latest(l.lastRefill, run) - l.lastRefill) / l.interval
  {
    EveryAdmissionIsPaid(l, run);
    AtMostQuotient(l.interval, Refills(l, run), Latest(l.lastRefill, run) - l.lastRefill);
  }

  // ---- Windows -------------------------------------------------------------------------------

  /** Times do not decrease, from `t` on. */
  predicate Forward(t: int, run: seq<Call>)
    decreases |run|
  {
    run == [] || (if run[0].TryBegin? then t <= run[0].now && Forward(run[0].now, run[1..]) else Forward(t, run[1..]))
  }

  predicate Within(run: seq<Call>, end: int) {
    forall i :: 0 <= i < |run| && run[i].TryBegin? ==> run[i].now <= end
  }

  lemma {:induction false} LatestWithin(t: int, run: seq<Call>, end: int)
    requires t <= end && Within(run, end)
    ensures Latest(t, run) <= end
    decreases |run|
  {
    if run != [] {
      assert Within(run[1..], end);
      LatestWithin(if run[0].TryBegin? && run[0].now > t then run[0].now else t, run[1..], end);
    }
  }

  /** From any state that is not ahead of the clock, the calls of a window of length `length` admit a bounded number. */
  lemma {:induction false} WindowFromState(l: Limiter, run: seq<Call>, t: int, length: nat)
    requires l.Valid() && l.lastRefill <= t && Forward(t, run) && Within(run, t + length)
    ensures Admissions(l, run) <= l.burst + (length + l.interval - 1) / l.interval
    decreases |run|
  {
    if run == [] {
      AtMostCeiling(l.interval, 0, length);
    } else if run[0].Finish? {
      assert Within(run[1..], t + length);
      WindowFromState(Step(l, run[0]), run[1..], t, length);
    } else {
      var now, next := run[0].now, Step(l, run[0]);
      RefillFacts(l, now);
      EveryAdmissionIsPaid(next, run[1..]);
      assert Within(run[1..], t + length);
      LatestWithin(now, run[1..], t + length);
      AtMostCeiling(l.interval, Refills(next, run[1..]), length);
    }
  }

  /** With a clock that does not go back, every window admits at most burst + ceil(length / interval). */
  lemma {:induction false} WindowIsBounded(l: Limiter, before: seq<Call>, start: int, window: seq<Call>, length: nat)
    requires l.Valid() && Forward(l.lastRefill, before) && Latest(l.lastRefill, before) <= start
    requires Forward(start, window) && Within(window, start + length)
    ensures Admissions(After(l, before), window) <= l.burst + (length + l.interval - 1) / l.interval
  {
    EveryAdmissionIsPaid(l, before);
    WindowFromState(After(l, before), window, start, length);
  }

  // ---- Service -------------------------------------------------------------------------------

  /** The 64-bit sum of tokens held and added does not wrap. */
  predicate Fits(l: Limiter, now: int)
    requires l.Valid()
  {
    l.tokens + Intervals(l, now) < WORDS
  }

  /** A clock of 63 bits and a burst of at most 2^63 are enough for that. */
  lemma UsualSumsFit(l: Limiter, now: int)
    requires l.Valid() && l.burst <= WORDS / 2 && now - l.lastRefill < WORDS / 2
    ensures Fits(l, now)
  {
    if now > l.lastRefill {
      var n := Intervals(l, now);
      DivisionFacts(now - l.lastRefill, l.interval);
      AtMostProduct(l.interval, n);
    }
  }

  lemma AtMostProduct(d: int, n: nat)
    requires d > 0
    ensures n <= d * n
  {
  }

  /** Every interval that has passed since the last refill is worth a token, up to the burst. */
  lemma RefillPays(l: Limiter, now: int, k: nat)
    requires l.Valid() && Fits(l, now) && l.lastRefill + l.interval * k <= now
    ensures Refilled(l, now).tokens >= Min(l.burst, l.tokens + k)
  {
    if k > 0 {
      AtMostProduct(l.interval, k);
      AtMostQuotient(l.interval, k, now - l.lastRefill);
    }
  }

  /** A call with a free slot is admitted exactly when a token is held or an interval has passed. */
  lemma AdmittedExactly(l: Limiter, now: int)
    requires l.Valid() && Fits(l, now)
    ensures Admits(l, TryBegin(now)) <==>
      l.pending < l.maximumPending && (l.tokens > 0 || l.lastRefill + l.interval <= now)
  {
    if l.lastRefill + l.interval <= now {
      RefillPays(l, now, 1);
    } else if now > l.lastRefill {
      ShortOfOne(now - l.lastRefill, l.interval);
    }
  }

  lemma ShortOfOne(e: nat, d: int)
    requires e < d
    ensures e / d == 0
  {
  }

  /** Whatever the sum: a call that is due and has a free slot is admitted unless the sum wraps to nothing. */
  lemma DueCallAdmittedExactly(l: Limiter, now: int)
    requires l.Valid() && l.pending < l.maximumPending && l.lastRefill + l.interval <= now
    ensures Admits(l, TryBegin(now)) <==> (l.tokens + Intervals(l, now)) % WORDS != 0
  {
    AtMostQuotient(l.interval, 1, now - l.lastRefill);
  }

  /** It can: a full bucket of 2^64 - 1 tokens is empty one interval later. */
  lemma WrappedSumRefuses()
    ensures var l := Limiter(1, U64_MAX, 1, 0, U64_MAX, 0); l.Valid() && !Fits(l, 1) && !Admits(l, TryBegin(1))
  {
  }

  function Tries(run: seq<Call>): nat {
    if run == [] then 0 else (if run[0].TryBegin? then 1 else 0) + Tries(run[1..])
  }

  /** From `last` on, calls are at least an interval apart, and each finds a free slot and a sum that fits. */
  predicate Spaced(l: Limiter, last: int, run: seq<Call>)
    requires l.Valid()
    decreases |run|
  {
    run == [] ||
    match run[0]
    case Finish => Spaced(Step(l, Finish), last, run[1..])
    case TryBegin(now) =>
      && last + l.interval <= now && l.pending < l.maximumPending && Fits(l, now)
      && Spaced(Step(l, TryBegin(now)), now, run[1..])
  }

  /** Calls that are an interval apart and find a free slot are all admitted, however many there were before. */
  lemma {:induction false} SpacedCallsAreAdmitted(l: Limiter, last: int, run: seq<Call>)
    requires l.Valid() && l.lastRefill <= last && Spaced(l, last, run)
    ensures Admissions(l, run) == Tries(run)
    decreases |run|
  {
    if run != [] {
      match run[0] {
        case Finish => SpacedCallsAreAdmitted(Step(l, Finish), last, run[1..]);
        case TryBegin(now) =>
          AdmittedExactly(l, now);
          RefillFacts(l, now);
          SpacedCallsAreAdmitted(Step(l, TryBegin(now)), now, run[1..]);
      }
    }
  }

  /** Calls at one moment. */
  function Calls(now: int, n: nat): (run: seq<Call>)
    ensures |run| == n
  {
    if n == 0 then [] else [TryBegin(now)] + Calls(now, n - 1)
  }

  /** Of calls at one moment as many are admitted as there are tokens after the refill, slots permitting. */
  lemma {:induction false} TokensServe(l: Limiter, now: int, n: nat)
    requires l.Valid() && l.pending + n <= l.maximumPending
    ensures Admissions(l, Calls(now, n)) == Min(n, Refilled(l, now).tokens)
    decreases n
  {
    if n > 0 {
      var run := Calls(now, n);
      assert run[0] == TryBegin(now) && run[1..] == Calls(now, n - 1);
      RefilledOnce(l, now);
      TokensServe(Step(l, TryBegin(now)), now, n - 1);
    }
  }

  /** A second call at the same time refills nothing. */
  lemma RefilledOnce(l: Limiter, now: int)
    requires l.Valid()
    ensures var t := Step(l, TryBegin(now)); Refilled(t, now) == t
  {
    RefillFacts(l, now);
    var t := Step(l, TryBegin(now));
    if now > t.lastRefill {
      ShortOfOne(now - t.lastRefill, t.interval);
    }
  }

  /** A limiter that has been idle for the burst's worth of intervals admits exactly the burst at once. */
  lemma IdleLimiterServesBurst(l: Limiter, now: int, n: nat)
    requires l.Valid() && Fits(l, now) && l.lastRefill + l.interval * l.burst <= now
    requires l.pending + n <= l.maximumPending
    ensures Admissions(l, Calls(now, n)) == Min(n, l.burst)
  {
    RefillPays(l, now, l.burst);
    assert Refilled(l, now).Valid();
    TokensServe(l, now, n);
  }

  // ---- The object ----------------------------------------------------------------------------

  /** A limiter, unless a value is not positive. */
  method Create(maximumPending: nat, burst: nat, refillInterval: int, now: int)
    returns (r: Result<HandshakeLimiter, LimiterError>)
    requires burst < WORDS
    ensures r.Ok? <==> maximumPending > 0 && burst > 0 && refillInterval > 0
    ensures r.Ok? ==> fresh(r.value) && r.value.Value() == Limiter(maximumPending, burst, refillInterval, now, burst, 0)
  {
    if maximumPending == 0 || burst == 0 || refillInterval <= 0 {
      return Err(NotPositive);
    }
    var limiter := new HandshakeLimiter(maximumPending, burst, refillInterval, now);
    return Ok(limiter);
  }

  class HandshakeLimiter {
    const maximumPending: nat
    const burst: nat
    const refillInterval: int
    var lastRefill: int
    var tokens: nat
    var pending: nat

    ghost function Value(): Limiter
      reads this
    {
      Limiter(maximumPending, burst, refillInterval, lastRefill, tokens, pending)
    }

    constructor (maximumPending: nat, burst: nat, refillInterval: int, now: int)
      requires 0 < maximumPending && 0 < burst < WORDS && 0 < refillInterval
      ensures Value().Valid() && Value() == Limiter(maximumPending, burst, refillInterval, now, burst, 0)
    {
      this.maximumPending, this.burst, this.refillInterval := maximumPending, burst, refillInterval;
      lastRefill, tokens, pending := now, burst, 0;
    }

    method Refill(now: int)
      requires Value().Valid()
      modifies this`tokens, this`lastRefill
      ensures Value() == Refilled(old(Value()), now)
      ensures lastRefill == old(lastRefill) + refillInterval * Intervals(old(Value()), now)
      ensures old(lastRefill) <= now ==> lastRefill <= now < lastRefill + refillInterval
      ensures Fits(old(Value()), now) ==> tokens == Min(burst, old(tokens) + Intervals(old(Value()), now))
    {
      RefillFacts(Value(), now);
      if now <= lastRefill {
        return;
      }
      var elapsed := now - lastRefill;
      var intervals := elapsed / refillInterval;
      if intervals <= 0 {
        return;
      }
      tokens := Min(burst, (tokens + intervals) % WORDS);
      lastRefill := lastRefill + refillInterval * intervals;
    }

    method TryBegin(now: int) returns (admitted: bool)
      requires Value().Valid()
      modifies this`tokens, this`lastRefill, this`pending
      ensures Value() == Step(old(Value()), Call.TryBegin(now)) && Value().Valid()
      ensures admitted == Admits(old(Value()), Call.TryBegin(now))
      ensures Fits(old(Value()), now) ==>
        admitted == (old(pending) < maximumPending && (old(tokens) > 0 || old(lastRefill) + refillInterval <= now))
    {
      if Fits(Value(), now) {
        AdmittedExactly(Value(), now);
      }
      Refill(now);
      if pending >= maximumPending || tokens == 0 {
        return false;
      }
      tokens := tokens - 1;
      pending := pending + 1;
      return true;
    }

    method Finish() returns (failed: Option<LimiterError>)
      requires Value().Valid()
      modifies this`pending
      ensures Value() == Step(old(Value()), Call.Finish) && Value().Valid()
      ensures failed.None? <==> Finishes(old(Value()), Call.Finish)
    {
      if pending == 0 {
        return Some(NothingPending);
      }
      pending := pending - 1;
      return None;
    }
  }
}
