/** Bandwidth throttling with shared token buckets (src/ldfd/download/throttle.go).
    Times are integers in nanoseconds; products of seconds and rates are taken exactly and floored. */
module Throttle {
  import opened Arithmetic

  const SECOND: int := 1_000_000_000
  const MIN_BURST: int := 65536
  const MAX_READ: int := 32768

  /** What a limiter remembers. */
  datatype Bucket = Bucket(rate: int, tokens: int, maxTokens: int, lastRefill: int)

  predicate Sound(b: Bucket) {
    && b.rate > 0
    && b.rate <= b.maxTokens && MIN_BURST <= b.maxTokens
    && 0 <= b.tokens <= b.maxTokens
  }

  // ---------- one locked section of Wait ----------

  function Earned(rate: int, elapsed: int): int {
    elapsed * rate / SECOND
  }

  function Refill(b: Bucket, now: int): Bucket {
    var newTokens := Earned(b.rate, now - b.lastRefill);
    if newTokens > 0 then
      b.(tokens := if b.tokens + newTokens > b.maxTokens then b.maxTokens else b.tokens + newTokens,
         lastRefill := now)
    else b
  }

  datatype Outcome = Granted | MustWait(duration: int)

  function Verdict(b: Bucket, now: int, n: int): Outcome {
    var r := Refill(b, now);
    if b.rate <= 0 || r.tokens >= n then Granted
    else MustWait((n - r.tokens) * SECOND / b.rate)
  }

  function After(b: Bucket, now: int, n: int): Bucket {
    if b.rate <= 0 then b
    else
      var r := Refill(b, now);
      if r.tokens >= n then r.(tokens := r.tokens - n) else r
  }

  // ---------- any number of callers ----------

  /** A locked section entered at time `now` by a caller that wants `n` bytes.
      A caller that has to wait comes back with another attempt. */
  datatype Attempt = Attempt(now: int, n: nat)

  /** The lock orders the attempts, and each reads the clock while holding it. */
  ghost predicate Clocked(start: int, run: seq<Attempt>) {
    && (forall i | 0 <= i < |run| :: start <= run[i].now)
    && (forall i, j | 0 <= i < j < |run| :: run[i].now <= run[j].now)
  }

  ghost function Run(b: Bucket, run: seq<Attempt>): Bucket
    decreases |run|
  {
    if run == [] then b else Run(After(b, run[0].now, run[0].n), run[1..])
  }

  ghost function BytesGranted(b: Bucket, run: seq<Attempt>): nat
    decreases |run|
  {
    if run == [] then 0
    else
      (if Verdict(b, run[0].now, run[0].n) == Granted then run[0].n else 0)
      + BytesGranted(After(b, run[0].now, run[0].n), run[1..])
  }

  lemma EarnedBounds(rate: int, elapsed: int)
    requires rate > 0 && elapsed >= 0
    ensures 0 <= Earned(rate, elapsed)
    ensures Earned(rate, elapsed) * SECOND <= elapsed * rate < (Earned(rate, elapsed) + 1) * SECOND
  {
    assert elapsed * rate >= 0;
  }

  lemma RefillSound(b: Bucket, now: int)
    requires Sound(b) && b.lastRefill <= now
    ensures var r := Refill(b, now);
            && Sound(r) && b.lastRefill <= r.lastRefill <= now
            && r.rate == b.rate && r.maxTokens == b.maxTokens && b.tokens <= r.tokens
            && r.tokens * SECOND <= b.tokens * SECOND + (r.lastRefill - b.lastRefill) * b.rate
            && (now - r.lastRefill) * b.rate < SECOND
  {
    EarnedBounds(b.rate, now - b.lastRefill);
  }

  /** One attempt: what it was granted and what it leaves are covered. */
  lemma AttemptConserves(b: Bucket, now: int, n: nat)
    requires Sound(b) && b.lastRefill <= now
    ensures var a := After(b, now, n);
            var granted := if Verdict(b, now, n) == Granted then n else 0;
            && Sound(a) && a.rate == b.rate && a.maxTokens == b.maxTokens && b.lastRefill <= a.lastRefill <= now
            && (granted + a.tokens) * SECOND <= b.tokens * SECOND + (a.lastRefill - b.lastRefill) * b.rate
  {
    RefillSound(b, now);
  }

  lemma LaterClocked(start: int, run: seq<Attempt>, later: int)
    requires Clocked(start, run) && run != [] && later <= run[0].now
    ensures Clocked(later, run[1..])
  {
  }

  /** Tokens never leave [0, maxTokens], and what was granted plus what is left
      is covered by what was there plus what the elapsed time earned. */
  lemma {:induction false} Conservation(b: Bucket, run: seq<Attempt>)
    requires Sound(b) && Clocked(b.lastRefill, run)
    ensures var e := Run(b, run);
            && Sound(e) && e.rate == b.rate && e.maxTokens == b.maxTokens
            && b.lastRefill <= e.lastRefill
            && (run == [] ==> e == b)
            && (run != [] ==> e.lastRefill <= run[|run| - 1].now)
            && (BytesGranted(b, run) + e.tokens) * SECOND <= b.tokens * SECOND + (e.lastRefill - b.lastRefill) * b.rate
    decreases |run|
  {
    if run == [] {
    } else {
      AttemptConserves(b, run[0].now, run[0].n);
      var a := After(b, run[0].now, run[0].n);
      LaterClocked(b.lastRefill, run, a.lastRefill);
      Conservation(a, run[1..]);
      var e := Run(a, run[1..]);
      Distribute(e.lastRefill - a.lastRefill, a.lastRefill - b.lastRefill, b.rate);
      assert run[1..] != [] ==> run[1..][|run[1..]| - 1] == run[|run| - 1];
    }
  }

  function NewBucket(rate: int, now: int): (b: Bucket)
    ensures rate > 0 ==> Sound(b) && b.tokens == b.maxTokens
  {
    var maxTokens := if rate < MIN_BURST then MIN_BURST else rate;
    Bucket(rate, maxTokens, maxTokens, now)
  }

  /** From the creation of a limiter, however its callers interleave, the bytes granted by time t
      are at most the burst plus what the rate allows. */
  lemma GrantedSinceCreation(rate: int, created: int, run: seq<Attempt>, t: int)
    requires rate > 0 && Clocked(created, run) && created <= t
    requires run != [] ==> run[|run| - 1].now <= t
    ensures var b := NewBucket(rate, created);
            BytesGranted(b, run) * SECOND <= b.maxTokens * SECOND + (t - created) * rate
  {
    var b := NewBucket(rate, created);
    Conservation(b, run);
    ScaleUp(Run(b, run).lastRefill - created, t - created, rate);
  }

  ghost function Demand(run: seq<Attempt>): nat {
    if run == [] then 0 else run[0].n + Demand(run[1..])
  }

  /** Nobody is charged for more than was granted: what the tokens at hand cover is granted in full,
      to every caller at the first attempt. */
  lemma {:induction false} TokensSuffice(b: Bucket, run: seq<Attempt>)
    requires Sound(b) && Clocked(b.lastRefill, run) && Demand(run) <= b.tokens
    ensures BytesGranted(b, run) == Demand(run)
    decreases |run|
  {
    if run == [] {
    } else {
      AttemptConserves(b, run[0].now, run[0].n);
      RefillSound(b, run[0].now);
      var a := After(b, run[0].now, run[0].n);
      LaterClocked(b.lastRefill, run, a.lastRefill);
      TokensSuffice(a, run[1..]);
    }
  }

  /** A new limiter has tokens for one second, and for 65536 bytes at least: so much is granted at once, and no more. */
  lemma FirstBurst(rate: int, now: int, n: int)
    requires rate > 0
    ensures Verdict(NewBucket(rate, now), now, n) == Granted <==> n <= rate || n <= 65536
  {
    assert Earned(rate, 0) == 0;
  }

  lemma RefillTwice(b: Bucket, now: int, n: int)
    requires Sound(b) && b.lastRefill <= now
    ensures var r := Refill(b, now);
            Verdict(r, now, n) == Verdict(b, now, n) && After(r, now, n) == After(b, now, n)
  {
    RefillSound(b, now);
    var r := Refill(b, now);
    EarnedBounds(b.rate, now - r.lastRefill);
    assert Earned(b.rate, now - r.lastRefill) == 0;
    assert Refill(r, now) == r;
  }

  lemma Refilled(r: Bucket, window: seq<Attempt>, from: int, to: int)
    requires Sound(r) && window != [] && Clocked(r.lastRefill, window)
    requires from == window[0].now && to == window[|window| - 1].now && (from - r.lastRefill) * r.rate < SECOND
    ensures BytesGranted(r, window) * SECOND < (r.maxTokens + 1) * SECOND + (to - from) * r.rate
  {
    Conservation(r, window);
    ScaleUp(Run(r, window).lastRefill - r.lastRefill, to - r.lastRefill, r.rate);
    Distribute(to - from, from - r.lastRefill, r.rate);
  }

  /** In a window that opens with an attempt on any sound bucket, at most one token more:
      lastRefill only moves when a whole token was added. */
  lemma GrantedFrom(m: Bucket, window: seq<Attempt>)
    requires Sound(m) && window != [] && Clocked(m.lastRefill, window)
    ensures BytesGranted(m, window) * SECOND
            < (m.maxTokens + 1) * SECOND + (window[|window| - 1].now - window[0].now) * m.rate
  {
    var from, to := window[0].now, window[|window| - 1].now;
    RefillSound(m, from);
    RefillTwice(m, from, window[0].n);
    var r := Refill(m, from);
    assert BytesGranted(m, window) == BytesGranted(r, window);
    Refilled(r, window, from, to);
  }

  /** The same for a window anywhere in a run. */
  lemma GrantedInWindow(b: Bucket, before: seq<Attempt>, window: seq<Attempt>)
    requires Sound(b) && Clocked(b.lastRefill, before + window) && window != []
    ensures BytesGranted(Run(b, before), window) * SECOND
            < (b.maxTokens + 1) * SECOND + (window[|window| - 1].now - window[0].now) * b.rate
  {
    var run := before + window;
    forall i | 0 <= i < |window|
      ensures window[i] == run[|before| + i]
    {
    }
    forall i | 0 <= i < |before|
      ensures before[i] == run[i]
    {
    }
    assert Clocked(b.lastRefill, before);
    Conservation(b, before);
    var m := Run(b, before);
    forall i | 0 <= i < |window|
      ensures m.lastRefill <= window[i].now
    {
      if before != [] {
        assert run[|before| - 1].now <= run[|before| + i].now;
      }
    }
    forall i, j | 0 <= i < j < |window|
      ensures window[i].now <= window[j].now
    {
      assert run[|before| + i].now <= run[|before| + j].now;
    }
    GrantedFrom(m, window);
  }

  // ---------- one caller ----------

  /** What ends a sleep: the caller's context, or the timer at some moment. */
  datatype Wake = Cancelled | Woke(now: int)

  datatype WaitResult = Passed | Interrupted | Sleeping

  /** A Wait nobody disturbs, given how its sleeps end; Sleeping when it is still in one. */
  function WaitOutcome(b: Bucket, n: int, now: int, wakes: seq<Wake>): WaitResult
    decreases |wakes|
  {
    if Verdict(b, now, n) == Granted then Passed
    else if wakes == [] then Sleeping
    else if wakes[0] == Cancelled then Interrupted
    else WaitOutcome(After(b, now, n), n, wakes[0].now, wakes[1..])
  }

  function WaitBucket(b: Bucket, n: int, now: int, wakes: seq<Wake>): Bucket
    decreases |wakes|
  {
    var a := After(b, now, n);
    if Verdict(b, now, n) == Granted || wakes == [] || wakes[0] == Cancelled then a
    else WaitBucket(a, n, wakes[0].now, wakes[1..])
  }

  /** Every sleep ends by its timer, and not early. */
  predicate Undisturbed(b: Bucket, n: int, now: int, wakes: seq<Wake>)
    decreases |wakes|
  {
    var v := Verdict(b, now, n);
    v == Granted || wakes == [] ||
    (wakes[0].Woke? && wakes[0].now >= now + v.duration
     && Undisturbed(After(b, now, n), n, wakes[0].now, wakes[1..]))
  }

  lemma FlooredSleep(rate: int, d: int)
    requires 1 <= rate <= SECOND && d >= 1
    ensures var w := d * SECOND / rate;
            w >= 1 && d * SECOND - rate < w * rate <= d * SECOND
  {
    var w := d * SECOND / rate;
    assert d * SECOND == rate * w + d * SECOND % rate;
    if w < 1 {
      ScaleUp(w, 0, rate);
    }
  }

  lemma SleepGrows(rate: int, d: int)
    requires 1 <= rate <= SECOND && d >= 1
    ensures SECOND / rate <= d * SECOND / rate
  {
    FlooredSleep(rate, 1);
    FlooredSleep(rate, d);
    if SECOND / rate > d * SECOND / rate {
      ScaleUp(d * SECOND / rate + 1, SECOND / rate, rate);
      Distribute(d * SECOND / rate, 1, rate);
    }
  }

  /** One full sleep leaves at most one token missing. */
  lemma AfterOneSleep(b: Bucket, n: int, now: int, t: int)
    requires Sound(b) && b.rate <= SECOND && 0 <= n <= b.maxTokens && b.lastRefill <= now
    requires Verdict(b, now, n).MustWait? && t >= now + Verdict(b, now, n).duration
    ensures var a := After(b, now, n);
            && Sound(a) && a.rate == b.rate && a.maxTokens == b.maxTokens && a.lastRefill <= now <= t
            && a == Refill(b, now) && a.tokens < n
            && t - a.lastRefill >= SECOND / b.rate
    ensures Refill(After(b, now, n), t).tokens >= n - 1
  {
    RefillSound(b, now);
    var a := After(b, now, n);
    var d := n - a.tokens;
    FlooredSleep(b.rate, d);
    var w := d * SECOND / b.rate;
    SleepGrows(b.rate, d);
    var elapsed := t - a.lastRefill;
    EarnedBounds(b.rate, elapsed);
    ScaleUp(w, elapsed, b.rate);
  }

  /** The sleep for the last token, twice, is more than enough to earn one. */
  lemma LastToken(rate: int, elapsed: int)
    requires 1 <= rate <= SECOND && elapsed >= 2 * (SECOND / rate)
    ensures Earned(rate, elapsed) >= 1
  {
    var w := SECOND / rate;
    FlooredSleep(rate, 1);
    ScaleUp(1, w, rate);
    ScaleUp(2 * w, elapsed, rate);
    Distribute(w, w, rate);
    EarnedBounds(rate, elapsed);
  }

  /** With one token missing at `now`: if it is not earned one sleep later, nothing was added,
      and it is earned after another. */
  lemma LastSleeps(b: Bucket, n: int, now: int, t: int, u: int)
    requires Sound(b) && b.rate <= SECOND && 0 <= n <= b.maxTokens && b.lastRefill <= now
    requires Refill(b, now).tokens == n - 1
    requires t >= now + Verdict(b, now, n).duration
    requires Verdict(After(b, now, n), t, n).MustWait?
    requires u >= t + Verdict(After(b, now, n), t, n).duration
    ensures Verdict(After(After(b, now, n), t, n), u, n) == Granted
  {
    AfterOneSleep(b, n, now, t);
    var a := After(b, now, n);
    RefillSound(a, t);
    assert Refill(a, t) == a;
    AfterOneSleep(a, n, t, u);
    LastToken(b.rate, u - a.lastRefill);
  }

  /** The first sleep of a wait that is not granted at once. */
  lemma FirstSleep(b: Bucket, n: int, now: int, wakes: seq<Wake>) returns (a: Bucket, t: int, rest: seq<Wake>)
    requires Undisturbed(b, n, now, wakes) && wakes != [] && Verdict(b, now, n).MustWait?
    ensures a == After(b, now, n) && t >= now + Verdict(b, now, n).duration && |rest| == |wakes| - 1
    ensures Undisturbed(a, n, t, rest) && WaitOutcome(b, n, now, wakes) == WaitOutcome(a, n, t, rest)
  {
    a, t, rest := After(b, now, n), wakes[0].now, wakes[1..];
  }

  lemma OneSleepLeft(b: Bucket, n: int, now: int, wakes: seq<Wake>)
    requires Undisturbed(b, n, now, wakes) && |wakes| == 1
    requires forall u | Verdict(b, now, n).MustWait? && u >= now + Verdict(b, now, n).duration ::
               Verdict(After(b, now, n), u, n) == Granted
    ensures WaitOutcome(b, n, now, wakes) == Passed
  {
    if Verdict(b, now, n).MustWait? {
      var a, t, rest := FirstSleep(b, n, now, wakes);
    }
  }

  /** With at most one token missing, two sleeps suffice. */
  lemma TwoSleepsLeft(b: Bucket, n: int, now: int, wakes: seq<Wake>)
    requires Sound(b) && b.rate <= SECOND && 0 <= n <= b.maxTokens && b.lastRefill <= now
    requires Refill(b, now).tokens >= n - 1
    requires Undisturbed(b, n, now, wakes) && |wakes| == 2
    ensures WaitOutcome(b, n, now, wakes) == Passed
  {
    if Verdict(b, now, n).MustWait? {
      var a, t, rest := FirstSleep(b, n, now, wakes);
      forall u | Verdict(a, t, n).MustWait? && u >= t + Verdict(a, t, n).duration
        ensures Verdict(After(a, t, n), u, n) == Granted
      {
        LastSleeps(b, n, now, t, u);
      }
      OneSleepLeft(a, n, t, rest);
    }
  }

  /** A request that fits the bucket passes after at most three sleeps. */
  lemma WaitEnds(b: Bucket, n: int, now: int, wakes: seq<Wake>)
    requires Sound(b) && b.rate <= SECOND && 0 <= n <= b.maxTokens && b.lastRefill <= now
    requires Undisturbed(b, n, now, wakes) && |wakes| == 3
    ensures WaitOutcome(b, n, now, wakes) == Passed
  {
    if Verdict(b, now, n).MustWait? {
      var a, t, rest := FirstSleep(b, n, now, wakes);
      AfterOneSleep(b, n, now, t);
      TwoSleepsLeft(a, n, t, rest);
    }
  }

  /** A refused caller sleeps for as long as its missing tokens take to be earned, to the nanosecond below. */
  lemma SleepMatchesDeficit(b: Bucket, now: int, n: int)
    requires Sound(b) && b.lastRefill <= now && Verdict(b, now, n).MustWait?
    ensures var w, missing := Verdict(b, now, n).duration, n - Refill(b, now).tokens;
            w >= 0 && missing >= 1 && w * b.rate <= missing * SECOND < (w + 1) * b.rate
  {
    RefillSound(b, now);
    var owed := (n - Refill(b, now).tokens) * SECOND;
    assert owed == b.rate * (owed / b.rate) + owed % b.rate;
    Distribute(owed / b.rate, 1, b.rate);
  }

  /** Every sleep ends by its timer, the moment it is due. */
  predicate OnTime(b: Bucket, n: int, now: int, wakes: seq<Wake>)
    decreases |wakes|
  {
    var v := Verdict(b, now, n);
    v == Granted || wakes == []
    || (wakes[0] == Woke(now + v.duration) && OnTime(After(b, now, n), n, now + v.duration, wakes[1..]))
  }

  /** When the last attempt of a wait is made. */
  function LastTried(b: Bucket, n: int, now: int, wakes: seq<Wake>): int
    decreases |wakes|
  {
    if Verdict(b, now, n) == Granted || wakes == [] || wakes[0] == Cancelled then now
    else LastTried(After(b, now, n), n, wakes[0].now, wakes[1..])
  }

  lemma {:induction false} OnTimeIsUndisturbed(b: Bucket, n: int, now: int, wakes: seq<Wake>)
    requires OnTime(b, n, now, wakes)
    ensures Undisturbed(b, n, now, wakes)
    decreases |wakes|
  {
    if Verdict(b, now, n) == Granted || wakes == [] {
    } else {
      OnTimeIsUndisturbed(After(b, now, n), n, wakes[0].now, wakes[1..]);
    }
  }

  /** With at most one token missing, each sleep is at most the time for one token. */
  lemma {:induction false} ShortSleeps(b: Bucket, n: int, now: int, wakes: seq<Wake>)
    requires Sound(b) && b.lastRefill <= now && Refill(b, now).tokens >= n - 1
    requires OnTime(b, n, now, wakes)
    ensures (LastTried(b, n, now, wakes) - now) * b.rate <= |wakes| * SECOND
    decreases |wakes|
  {
    if Verdict(b, now, n) == Granted || wakes == [] {
    } else {
      var a, t := After(b, now, n), wakes[0].now;
      RefillSound(b, now);
      SleepMatchesDeficit(b, now, n);
      RefillSound(a, t);
      ShortSleeps(a, n, t, wakes[1..]);
      Distribute(LastTried(a, n, t, wakes[1..]) - t, t - now, b.rate);
    }
  }

  /** On time, a request that fits the bucket passes by the time that earns n + 2 tokens. */
  lemma WaitIsShort(b: Bucket, n: int, now: int, wakes: seq<Wake>)
    requires Sound(b) && b.rate <= SECOND && 0 <= n <= b.maxTokens && b.lastRefill <= now
    requires OnTime(b, n, now, wakes) && |wakes| == 3
    ensures WaitOutcome(b, n, now, wakes) == Passed
    ensures (LastTried(b, n, now, wakes) - now) * b.rate <= (n + 2) * SECOND
  {
    OnTimeIsUndisturbed(b, n, now, wakes);
    WaitEnds(b, n, now, wakes);
    if Verdict(b, now, n).MustWait? {
      var a, t := After(b, now, n), wakes[0].now;
      RefillSound(b, now);
      SleepMatchesDeficit(b, now, n);
      AfterOneSleep(b, n, now, t);
      ShortSleeps(a, n, t, wakes[1..]);
      Distribute(LastTried(a, n, t, wakes[1..]) - t, t - now, b.rate);
    }
  }

  ghost predicate EndsInThree(rate: int) {
    forall b: Bucket, n: int, now: int, wakes: seq<Wake>
      | Sound(b) && b.rate == rate && 0 <= n <= b.maxTokens && b.lastRefill <= now
        && |wakes| == 3 && Undisturbed(b, n, now, wakes)
      :: WaitOutcome(b, n, now, wakes) == Passed
  }

  /** Above a byte per nanosecond the sleep for the last token is rounded down to nothing,
      and a wait can go round without the clock moving. */
  lemma {:induction false} FastLimiterSpins(b: Bucket, n: int, now: int, wakes: seq<Wake>)
    requires b.rate > SECOND && b.tokens == n - 1 && b.lastRefill == now
    requires forall i | 0 <= i < |wakes| :: wakes[i] == Woke(now)
    ensures Undisturbed(b, n, now, wakes) && WaitOutcome(b, n, now, wakes) == Sleeping
    decreases |wakes|
  {
    assert Earned(b.rate, 0) == 0;
    assert SECOND / b.rate == 0;
    if wakes == [] {
    } else {
      FastLimiterSpins(b, n, now, wakes[1..]);
    }
  }

  /** Three sleeps are enough for every request that fits the bucket exactly when the rate
      is at most one byte per nanosecond. */
  lemma ThreeSleepsSuffice(rate: int)
    requires rate >= 1
    ensures EndsInThree(rate) <==> rate <= SECOND
  {
    if rate <= SECOND {
      forall b: Bucket, n: int, now: int, wakes: seq<Wake>
        | Sound(b) && b.rate == rate && 0 <= n <= b.maxTokens && b.lastRefill <= now
          && |wakes| == 3 && Undisturbed(b, n, now, wakes)
        ensures WaitOutcome(b, n, now, wakes) == Passed
      {
        WaitEnds(b, n, now, wakes);
      }
    } else {
      var b := Bucket(rate, 0, rate, 0);
      var wakes := [Woke(0), Woke(0), Woke(0)];
      FastLimiterSpins(b, 1, 0, wakes);
      assert Sound(b);
    }
  }

  /** A request larger than the bucket never passes, however long it sleeps. */
  lemma {:induction false} WaitNeverEnds(b: Bucket, n: int, now: int, wakes: seq<Wake>)
    requires Sound(b) && n > b.maxTokens && b.lastRefill <= now
    requires Undisturbed(b, n, now, wakes)
    ensures WaitOutcome(b, n, now, wakes) == Sleeping
    decreases |wakes|
  {
    RefillSound(b, now);
    if wakes == [] {
    } else {
      var r := Refill(b, now);
      assert (n - r.tokens) * SECOND / b.rate >= 0;
      WaitNeverEnds(After(b, now, n), n, wakes[0].now, wakes[1..]);
    }
  }

  /** Up to wake-up `k` every sleep ends by its timer, and the clock does not go back. */
  ghost predicate Ticking(now: int, wakes: seq<Wake>, k: nat)
    decreases k
  {
    && k < |wakes| && wakes[0].Woke? && now <= wakes[0].now && wakes[k].Woke?
    && (k > 0 ==> Ticking(wakes[0].now, wakes[1..], k - 1))
  }

  /** Enough time for `n` tokens since the last refill is enough for `n` bytes, at any rate. */
  lemma EarnedAtOnce(b: Bucket, n: int, t: int)
    requires Sound(b) && 0 <= n <= b.maxTokens && b.lastRefill <= t
    requires (t - b.lastRefill) * b.rate >= n * SECOND
    ensures Verdict(b, t, n) == Granted
  {
    EarnedBounds(b.rate, t - b.lastRefill);
  }

  /** Among other callers: whatever they were granted before, an attempt finds its `n` tokens once that
      much time went by since the limiter was last refilled. */
  lemma GrantedAfterOthers(b: Bucket, others: seq<Attempt>, n: int, t: int)
    requires Sound(b) && Clocked(b.lastRefill, others) && 0 <= n <= b.maxTokens
    requires Run(b, others).lastRefill <= t && (t - Run(b, others).lastRefill) * b.rate >= n * SECOND
    ensures Verdict(Run(b, others), t, n) == Granted
  {
    Conservation(b, others);
    EarnedAtOnce(Run(b, others), n, t);
  }

  /** In particular after a pause of all callers. */
  lemma GrantedAfterPause(b: Bucket, others: seq<Attempt>, n: int, t: int)
    requires Sound(b) && Clocked(b.lastRefill, others) && 0 <= n <= b.maxTokens && others != []
    requires others[|others| - 1].now <= t && (t - others[|others| - 1].now) * b.rate >= n * SECOND
    ensures Verdict(Run(b, others), t, n) == Granted
  {
    Conservation(b, others);
    ScaleUp(t - others[|others| - 1].now, t - Run(b, others).lastRefill, b.rate);
    GrantedAfterOthers(b, others, n, t);
  }

  /** A refill loses less than one token to rounding and adds at least one, so tokens counted twice,
      with the time since the last refill, never lose value while the request stays unmet. */
  lemma RefusalKeepsProgress(b: Bucket, n: int, now: int, t: int)
    requires Sound(b) && n <= b.maxTokens && b.lastRefill <= now <= t && Verdict(b, now, n).MustWait?
    ensures var a := After(b, now, n);
            && Sound(a) && a.rate == b.rate && a.maxTokens == b.maxTokens && a.lastRefill <= now
            && 2 * a.tokens * SECOND + (t - a.lastRefill) * b.rate
               >= 2 * b.tokens * SECOND + (t - b.lastRefill) * b.rate
            && 2 * a.tokens * SECOND + (now - a.lastRefill) * b.rate < (2 * n - 1) * SECOND
  {
    RefillSound(b, now);
    EarnedBounds(b.rate, now - b.lastRefill);
    Distribute(t - now, now - b.lastRefill, b.rate);
  }

  lemma {:induction false} TickingForward(now: int, wakes: seq<Wake>, k: nat)
    requires Ticking(now, wakes, k)
    ensures now <= wakes[k].now
    decreases k
  {
    if k == 0 {
    } else {
      TickingForward(wakes[0].now, wakes[1..], k - 1);
    }
  }

  /** At any rate, however often and early its sleeps end: a wait passes by the time that could have
      earned 2n - 1 tokens. */
  lemma {:induction false} WaitPassesInTime(b: Bucket, n: int, now: int, wakes: seq<Wake>, k: nat)
    requires Sound(b) && 0 <= n <= b.maxTokens && b.lastRefill <= now && Ticking(now, wakes, k)
    requires 2 * b.tokens * SECOND + (wakes[k].now - b.lastRefill) * b.rate >= (2 * n - 1) * SECOND
    ensures WaitOutcome(b, n, now, wakes) == Passed
    decreases k
  {
    if Verdict(b, now, n).MustWait? {
      var a, t := After(b, now, n), wakes[0].now;
      TickingForward(now, wakes, k);
      RefusalKeepsProgress(b, n, now, wakes[k].now);
      if k > 0 {
        WaitPassesInTime(a, n, t, wakes[1..], k - 1);
      } else if Verdict(a, t, n).MustWait? {
        RefusalKeepsProgress(a, n, t, t);
        assert false;
      }
    }
  }

  // ---------- the limiter object ----------

  class RateLimiter {
    var bytesPerSec: int
    var tokens: int
    var maxTokens: int
    var lastRefill: int
    ghost var charged: int  // bytes granted since creation

    function View(): Bucket
      reads this
    {
      Bucket(bytesPerSec, tokens, maxTokens, lastRefill)
    }

    constructor (rate: int, now: int)
      ensures View() == NewBucket(rate, now) && charged == 0
    {
      bytesPerSec := rate;
      var burst := rate;
      if burst < 65536 {
        burst := 65536;
      }
      tokens, maxTokens, lastRefill := burst, burst, now;
      charged := 0;
    }

    /** The locked section of Wait. */
    method Attempt(now: int, n: int) returns (outcome: Outcome)
      requires bytesPerSec > 0
      modifies this
      ensures outcome == Verdict(old(View()), now, n)
      ensures View() == After(old(View()), now, n)
      ensures charged == old(charged) + if outcome == Granted then n else 0
    {
      var elapsed := now - lastRefill;
      var newTokens := elapsed * bytesPerSec / SECOND;
      if newTokens > 0 {
        tokens := tokens + newTokens;
        if tokens > maxTokens {
          tokens := maxTokens;
        }
        lastRefill := now;
      }
      if tokens >= n {
        tokens := tokens - n;
        charged := charged + n;
        return Granted;
      }
      var deficit := n - tokens;
      return MustWait(deficit * SECOND / bytesPerSec);
    }

    /** Wait, with the clock reading of its first attempt and the ends of its sleeps given. */
    method Wait(n: int, start: int, wakes: seq<Wake>) returns (result: WaitResult)
      modifies this
      ensures bytesPerSec == old(bytesPerSec)
      ensures old(bytesPerSec) <= 0 ==> result == Passed && View() == old(View()) && charged == old(charged)
      ensures old(bytesPerSec) > 0 ==>
                && result == WaitOutcome(old(View()), n, start, wakes)
                && View() == WaitBucket(old(View()), n, start, wakes)
                && charged == old(charged) + if result == Passed then n else 0
    {
      if bytesPerSec <= 0 {
        return Passed;
      }
      var now, k := start, 0;
      while true
        invariant 0 <= k <= |wakes| && bytesPerSec == old(bytesPerSec)
        invariant charged == old(charged)
        invariant WaitOutcome(View(), n, now, wakes[k..]) == WaitOutcome(old(View()), n, start, wakes)
        invariant WaitBucket(View(), n, now, wakes[k..]) == WaitBucket(old(View()), n, start, wakes)
        decreases |wakes| - k
      {
        assert k < |wakes| ==> wakes[k..][1..] == wakes[k + 1..];
        var outcome := Attempt(now, n);
        if outcome == Granted {
          return Passed;
        }
        if k == |wakes| {
          return Sleeping;
        }
        if wakes[k] == Cancelled {
          return Interrupted;
        }
        now := wakes[k].now;
        k := k + 1;
      }
    }
  }

  // ---------- the throttled reader ----------

  datatype Chunk = Chunk(n: nat, failed: bool)

  /** An io.Reader: asked for at most `size` bytes it delivers at most that many. */
  type Source = f: nat -> Chunk | forall size: nat :: f(size).n <= size witness size => Chunk(0, true)

  /** How a Read went: it returned `n` with an error or without, or one of its waits is not over. */
  datatype ReadResult = Read(n: nat) | ReadError(n: nat) | Blocked

  /** When each limiter is asked, and how the sleeps there end. */
  datatype Schedule = Schedule(start: int, wakes: seq<Wake>)

  /** No limiter is given twice. */
  ghost predicate GivenOnce(given: seq<RateLimiter?>) {
    forall i, j | 0 <= i < j < |given| && given[i] == given[j] :: given[i] == null
  }

  ghost predicate AllDifferent(limiters: seq<RateLimiter>) {
    forall i, j | 0 <= i < j < |limiters| :: limiters[i] != limiters[j]
  }

  /** The limiter, if it limits at all, granted `n` bytes since it had granted `before`. */
  ghost predicate Charged(l: RateLimiter, before: int, n: nat)
    reads l
  {
    l.charged == before + if l.bytesPerSec > 0 then n else 0
  }

  /** What the underlying reader delivers to a throttled Read of `size` bytes. */
  function Delivery(source: Source, size: nat): (c: Chunk)
    ensures c.n <= MAX_READ && c.n <= size
  {
    source(if size > MAX_READ then MAX_READ else size)
  }

  /** How much a Read of `size` bytes asks a limiter for. */
  function Delivered(source: Source, size: nat): (n: nat)
    ensures n <= MAX_READ
  {
    Delivery(source, size).n
  }

  /** How the wait for `n` bytes goes at a limiter that nobody else uses meanwhile. */
  function WaitAt(l: RateLimiter, n: nat, plan: Schedule): WaitResult
    reads l
  {
    if l.bytesPerSec <= 0 then Passed else WaitOutcome(l.View(), n, plan.start, plan.wakes)
  }

  function Waits(limiters: seq<RateLimiter>, n: nat, schedule: nat -> Schedule): (waits: seq<WaitResult>)
    reads limiters
    ensures |waits| == |limiters|
    ensures forall i | 0 <= i < |limiters| :: waits[i] == WaitAt(limiters[i], n, schedule(i))
  {
    seq(|limiters|, i requires 0 <= i < |limiters| reads limiters => WaitAt(limiters[i], n, schedule(i)))
  }

  /** Every wait passes. */
  ghost predicate AllPass(waits: seq<WaitResult>) {
    forall i | 0 <= i < |waits| :: waits[i] == Passed
  }

  /** The first wait that does not pass goes like this. */
  ghost predicate StoppedBy(waits: seq<WaitResult>, result: WaitResult) {
    exists i | 0 <= i < |waits| :: waits[i] == result != Passed && forall j | 0 <= j < i :: waits[j] == Passed
  }

  lemma StopsOneWay(waits: seq<WaitResult>)
    ensures AllPass(waits) ==> forall result :: !StoppedBy(waits, result)
    ensures forall a, b | StoppedBy(waits, a) && StoppedBy(waits, b) :: a == b
  {
    forall a, b | StoppedBy(waits, a) && StoppedBy(waits, b)
      ensures a == b
    {
      var i :| 0 <= i < |waits| && waits[i] == a != Passed && forall j | 0 <= j < i :: waits[j] == Passed;
      var k :| 0 <= k < |waits| && waits[k] == b != Passed && forall j | 0 <= j < k :: waits[j] == Passed;
      assert i == k;
    }
  }

  class ThrottledReader {
    const source: Source
    const limiters: seq<RateLimiter>

    /** Limiters that are not configured are dropped. */
    constructor (source: Source, given: seq<RateLimiter?>)
      ensures this.source == source
      ensures forall l: RateLimiter :: l in limiters <==> l in given
      ensures |limiters| <= |given|
      ensures GivenOnce(given) ==> AllDifferent(limiters)
    {
      var active: seq<RateLimiter> := [];
      var i := 0;
      while i < |given|
        invariant 0 <= i <= |given| && |active| <= i
        invariant forall l: RateLimiter :: l in active <==> l in given[..i]
        invariant GivenOnce(given) ==> AllDifferent(active)
      {
        if given[i] != null {
          assert GivenOnce(given) ==> given[i] !in given[..i];
          active := active + [given[i]];
        }
        i := i + 1;
      }
      assert given[..i] == given;
      this.source := source;
      limiters := active;
    }

    /** Waiting for `n` bytes at each limiter in turn; `done` limiters passed. */
    method WaitForAll(n: nat, schedule: nat -> Schedule) returns (result: WaitResult)
      modifies limiters
      ensures result == Passed && AllDifferent(limiters) ==>
                forall i | 0 <= i < |limiters| :: Charged(limiters[i], old(limiters[i].charged), n)
      ensures AllDifferent(limiters) ==>
                && (result == Passed <==> AllPass(old(Waits(limiters, n, schedule))))
                && (result != Passed ==> StoppedBy(old(Waits(limiters, n, schedule)), result))
    {
      ghost var waits := Waits(limiters, n, schedule);
      var i := 0;
      while i < |limiters|
        invariant 0 <= i <= |limiters|
        invariant AllDifferent(limiters) ==>
                    && (forall j | 0 <= j < i :: Charged(limiters[j], old(limiters[j].charged), n))
                    && (forall j | i <= j < |limiters| ::
                          && limiters[j].charged == old(limiters[j].charged)
                          && limiters[j].View() == old(limiters[j].View()))
                    && (forall j | 0 <= j < i :: waits[j] == Passed)
      {
        var plan := schedule(i);
        result := limiters[i].Wait(n, plan.start, plan.wakes);
        if result != Passed {
          return;
        }
        i := i + 1;
      }
      result := Passed;
    }

    /** Read delivers a chunk of at most 32768 bytes, and without an error only after
        every limiter that limits was charged for all of it. */
    method Read(size: nat, schedule: nat -> Schedule) returns (r: ReadResult)
      modifies limiters
      ensures limiters == [] ==>
                r == if source(size).failed then ReadError(source(size).n) else ReadResult.Read(source(size).n)
      ensures limiters != [] && !r.Blocked? ==>
                r.n == Delivered(source, size)
      ensures limiters != [] && AllDifferent(limiters) ==>
                var c := Delivery(source, size);
                var waits := old(Waits(limiters, c.n, schedule));
                && (r.Read? <==> !c.failed && (c.n == 0 || AllPass(waits)))
                && (r == Blocked <==> c.n > 0 && StoppedBy(waits, Sleeping))
                && (c.n > 0 && StoppedBy(waits, Interrupted) ==> r == ReadError(c.n))
      ensures r.Read? && AllDifferent(limiters) ==>
                forall i | 0 <= i < |limiters| :: Charged(limiters[i], old(limiters[i].charged), r.n)
    {
      if |limiters| == 0 {
        var chunk := source(size);
        return if chunk.failed then ReadError(chunk.n) else ReadResult.Read(chunk.n);
      }
      var maxRead := size;
      if maxRead > 32768 {
        maxRead := 32768;
      }
      var chunk := source(maxRead);
      if chunk.n > 0 {
        StopsOneWay(Waits(limiters, chunk.n, schedule));
        var waited := WaitForAll(chunk.n, schedule);
        if waited == Interrupted {
          return ReadError(chunk.n);
        }
        if waited == Sleeping {
          return Blocked;
        }
      }
      return if chunk.failed then ReadError(chunk.n) else ReadResult.Read(chunk.n);
    }
  }

  /** The read cap lies below the floor of every bucket, so no wait that Read starts is too large for its
      limiter: at any rate it passes by the time that could have earned 2n - 1 tokens. */
  lemma ReadsAlwaysPass(b: Bucket, size: nat, source: Source, now: int, wakes: seq<Wake>, k: nat)
    requires Sound(b) && b.lastRefill <= now && Ticking(now, wakes, k)
    requires (wakes[k].now - now) * b.rate >= (2 * Delivered(source, size) - 1) * SECOND
    ensures WaitOutcome(b, Delivered(source, size), now, wakes) == Passed
  {
    TickingForward(now, wakes, k);
    ScaleUp(wakes[k].now - now, wakes[k].now - b.lastRefill, b.rate);
    WaitPassesInTime(b, Delivered(source, size), now, wakes, k);
  }

  /** Up to 10^9 bytes per second three undisturbed sleeps are enough. */
  lemma ReadsPassInThree(b: Bucket, size: nat, source: Source, now: int, wakes: seq<Wake>)
    requires Sound(b) && b.rate <= SECOND && b.lastRefill <= now
    requires Undisturbed(b, Delivered(source, size), now, wakes) && |wakes| == 3
    ensures WaitOutcome(b, Delivered(source, size), now, wakes) == Passed
  {
    WaitEnds(b, Delivered(source, size), now, wakes);
  }
}
