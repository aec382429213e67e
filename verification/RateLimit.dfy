/** The per-key API rate limiter (src/ldfd/api/ratelimit.go). Times are nanoseconds. */
module RateLimit {

  const MINUTE: int := 60_000_000_000

  datatype Window = Window(count: int, expiresAt: int)

  type Windows = map<string, Window>

  /** What reaches the limiter, in the order of its lock. */
  datatype Event = Request(key: string, limit: int, now: int) | Cleanup(now: int)

  // ---------- one event ----------

  predicate Opens(t: Windows, key: string, now: int) {
    key !in t || now > t[key].expiresAt
  }

  function Answer(t: Windows, key: string, limit: int, now: int): bool {
    limit <= 0 || Opens(t, key, now) || t[key].count < limit
  }

  function Next(t: Windows, e: Event): Windows {
    match e
    case Request(key, limit, now) =>
      if limit <= 0 then t
      else if Opens(t, key, now) then t[key := Window(1, now + MINUTE)]
      else if t[key].count >= limit then t
      else t[key := t[key].(count := t[key].count + 1)]
    case Cleanup(now) =>
      map k | k in t && !(now > t[k].expiresAt) :: t[k]
  }

  class RateLimiter {
    const enabled: bool
    var windows: Windows

    constructor (enabled: bool)
      ensures this.enabled == enabled && windows == map[]
    {
      this.enabled := enabled;
      windows := map[];
    }

    method Allow(key: string, limit: int, now: int) returns (allowed: bool)
      modifies this
      ensures !enabled ==> allowed && windows == old(windows)
      ensures enabled ==> allowed == Answer(old(windows), key, limit, now)
      ensures enabled ==> windows == Next(old(windows), Request(key, limit, now))
      ensures enabled && limit > 0 && key !in old(windows) ==> windows[key] == Window(1, now + 60_000_000_000)
    {
      if !enabled || limit <= 0 {
        return true;
      }
      if key !in windows || now > windows[key].expiresAt {
        windows := windows[key := Window(1, now + MINUTE)];
        return true;
      }
      var w := windows[key];
      if w.count >= limit {
        return false;
      }
      windows := windows[key := w.(count := w.count + 1)];
      return true;
    }

    method CleanupTick(now: int)
      modifies this
      ensures windows == Next(old(windows), Cleanup(now))
    {
      var keys := windows.Keys;
      while keys != {}
        invariant keys <= old(windows).Keys
        invariant windows ==
                  map k | k in old(windows) && (k in keys || !(now > old(windows)[k].expiresAt)) :: old(windows)[k]
        decreases |keys|
      {
        var key :| key in keys;
        keys := keys - {key};
        if now > windows[key].expiresAt {
          windows := windows - {key};
        }
      }
    }
  }

  // ---------- runs ----------

  ghost predicate Clocked(start: int, run: seq<Event>)
    decreases |run|
  {
    run != [] ==> start <= run[0].now && Clocked(run[0].now, run[1..])
  }

  /** The answers to the requests of a run. */
  ghost function Answers(t: Windows, run: seq<Event>): seq<bool>
    decreases |run|
  {
    if run == [] then []
    else
      (if run[0].Request? then [Answer(t, run[0].key, run[0].limit, run[0].now)] else [])
      + Answers(Next(t, run[0]), run[1..])
  }

  ghost function WithoutCleanups(run: seq<Event>): seq<Event> {
    if run == [] then []
    else if run[0].Request? then [run[0]] + WithoutCleanups(run[1..])
    else WithoutCleanups(run[1..])
  }

  /** The tables differ at most in windows that have expired. */
  ghost predicate AgreeOnLive(t: Windows, u: Windows, now: int) {
    forall k: string :: Opens(t, k, now) == Opens(u, k, now) && (!Opens(t, k, now) ==> t[k] == u[k])
  }

  lemma AgreeLater(t: Windows, u: Windows, now: int, later: int)
    requires AgreeOnLive(t, u, now) && now <= later
    ensures AgreeOnLive(t, u, later)
  {
    forall k: string
      ensures Opens(t, k, later) == Opens(u, k, later) && (!Opens(t, k, later) ==> t[k] == u[k])
    {
      assert Opens(t, k, now) == Opens(u, k, now);
    }
  }

  lemma AgreeNext(t: Windows, u: Windows, e: Event)
    requires AgreeOnLive(t, u, e.now)
    ensures e.Request? ==> Answer(t, e.key, e.limit, e.now) == Answer(u, e.key, e.limit, e.now)
    ensures e.Request? ==> AgreeOnLive(Next(t, e), Next(u, e), e.now)
    ensures e.Cleanup? ==> AgreeOnLive(Next(t, e), u, e.now)
  {
    if e.Request? {
      assert Opens(t, e.key, e.now) == Opens(u, e.key, e.now);
    }
    forall k: string
      ensures e.Cleanup? ==> Opens(Next(t, e), k, e.now) == Opens(t, k, e.now)
    {
    }
  }

  /** Cleanup ticks, wherever they fall, never change an answer: not even when the two limiters
      start from tables that only agree on live windows. */
  lemma {:induction false} CleanupInvisible(t: Windows, u: Windows, start: int, run: seq<Event>)
    requires Clocked(start, run) && AgreeOnLive(t, u, start)
    ensures Answers(t, run) == Answers(u, WithoutCleanups(run))
    decreases |run|
  {
    if run == [] {
    } else {
      var e := run[0];
      AgreeLater(t, u, start, e.now);
      AgreeNext(t, u, e);
      if e.Request? {
        var rest := WithoutCleanups(run);
        assert rest[0] == e && rest[1..] == WithoutCleanups(run[1..]);
        CleanupInvisible(Next(t, e), Next(u, e), e.now, run[1..]);
      } else {
        CleanupInvisible(Next(t, e), u, e.now, run[1..]);
      }
    }
  }

  // ---------- how many requests get through ----------

  /** The event is a request for `key` under `limit` in the closed minute from `from`, let through. */
  ghost predicate Counts(t: Windows, e: Event, key: string, limit: int, from: int) {
    && e.Request? && e.key == key && e.limit == limit && from <= e.now <= from + MINUTE
    && Answer(t, key, limit, e.now)
  }

  ghost function Admitted(t: Windows, run: seq<Event>, key: string, limit: int, from: int): nat
    decreases |run|
  {
    if run == [] then 0
    else
      (if Counts(t, run[0], key, limit, from) then 1 else 0)
      + Admitted(Next(t, run[0]), run[1..], key, limit, from)
  }

  lemma {:induction false} AdmittedWithoutCleanups(
    t: Windows, u: Windows, start: int, run: seq<Event>, key: string, limit: int, from: int)
    requires Clocked(start, run) && AgreeOnLive(t, u, start)
    ensures Admitted(t, run, key, limit, from) == Admitted(u, WithoutCleanups(run), key, limit, from)
    decreases |run|
  {
    if run == [] {
    } else {
      var e := run[0];
      AgreeLater(t, u, start, e.now);
      AgreeNext(t, u, e);
      if e.Request? {
        var rest := WithoutCleanups(run);
        assert rest[0] == e && rest[1..] == WithoutCleanups(run[1..]);
        AdmittedWithoutCleanups(Next(t, e), Next(u, e), e.now, run[1..], key, limit, from);
      } else {
        AdmittedWithoutCleanups(Next(t, e), u, e.now, run[1..], key, limit, from);
      }
    }
  }

  /** Windows count at least their opener, and opened in the past. */
  ghost predicate Sane(t: Windows, now: int) {
    forall k | k in t :: t[k].count >= 1 && t[k].expiresAt <= now + MINUTE
  }

  lemma SaneNext(t: Windows, e: Event, start: int)
    requires Sane(t, start) && start <= e.now
    ensures Sane(Next(t, e), e.now)
  {
  }

  function Left(w: Window, limit: int): nat {
    if w.count < limit then limit - w.count else 0
  }

  /** How many more requests under `limit` can still get through in the minute from `from`. */
  ghost function Room(t: Windows, key: string, limit: nat, from: int): nat
    requires limit >= 1
  {
    if key !in t || t[key].expiresAt < from then 2 * limit - 1  // nothing open that reaches the minute
    else if t[key].expiresAt - MINUTE < from then Left(t[key], limit) + limit  // open before it, closes in it
    else if t[key].expiresAt - MINUTE <= from + MINUTE then Left(t[key], limit)  // opened in it
    else 0  // opened after it
  }

  /** Every request spends the room it takes. */
  lemma RoomSpent(t: Windows, e: Event, key: string, limit: nat, from: int, start: int)
    requires limit >= 1 && e.Request? && Sane(t, start) && start <= e.now
    ensures (if Counts(t, e, key, limit, from) then 1 else 0) + Room(Next(t, e), key, limit, from)
            <= Room(t, key, limit, from)
  {
    if e.key == key && e.limit > 0 {
      if Opens(t, key, e.now) {
        assert Next(t, e)[key] == Window(1, e.now + MINUTE);
      } else if t[key].count < e.limit {
        assert Next(t, e)[key] == Window(t[key].count + 1, t[key].expiresAt);
      }
    } else if e.limit > 0 {
      assert (key in Next(t, e) <==> key in t) && (key in t ==> Next(t, e)[key] == t[key]);
    }
  }

  lemma {:induction false} RoomBoundsRequests(
    t: Windows, run: seq<Event>, key: string, limit: nat, from: int, start: int)
    requires limit >= 1 && Sane(t, start) && Clocked(start, run)
    requires forall i | 0 <= i < |run| :: run[i].Request?
    ensures Admitted(t, run, key, limit, from) <= Room(t, key, limit, from)
    decreases |run|
  {
    if run == [] {
    } else {
      RoomSpent(t, run[0], key, limit, from, start);
      SaneNext(t, run[0], start);
      RoomBoundsRequests(Next(t, run[0]), run[1..], key, limit, from, run[0].now);
    }
  }

  lemma ClockedEarlier(start: int, earlier: int, run: seq<Event>)
    requires Clocked(start, run) && earlier <= start
    ensures Clocked(earlier, run)
  {
  }

  lemma {:induction false} OnlyRequests(run: seq<Event>, start: int)
    requires Clocked(start, run)
    ensures forall i | 0 <= i < |WithoutCleanups(run)| :: WithoutCleanups(run)[i].Request?
    ensures Clocked(start, WithoutCleanups(run))
  {
    if run == [] {
    } else {
      OnlyRequests(run[1..], run[0].now);
      if run[0].Request? {
        assert WithoutCleanups(run)[1..] == WithoutCleanups(run[1..]);
      } else {
        ClockedEarlier(run[0].now, start, WithoutCleanups(run[1..]));
      }
    }
  }

  /** In any closed minute of any run, whatever other limits and cleanups do to the key's window,
      at most 2L - 1 requests made under limit L get through. */
  lemma AnyMinute(start: int, run: seq<Event>, key: string, limit: nat, from: int)
    requires limit >= 1 && Clocked(start, run)
    ensures Admitted(map[], run, key, limit, from) <= 2 * limit - 1
  {
    AdmittedWithoutCleanups(map[], map[], start, run, key, limit, from);
    OnlyRequests(run, start);
    RoomBoundsRequests(map[], WithoutCleanups(run), key, limit, from, start);
  }

  lemma AgreeRefl(t: Windows, now: int)
    ensures AgreeOnLive(t, t, now)
  {
  }

  /** One window lets at most L requests made under limit L through, its opener included. */
  lemma OneWindow(t: Windows, run: seq<Event>, key: string, limit: nat, start: int)
    requires limit >= 1 && Sane(t, start) && Clocked(start, run)
    requires run != [] && run[0].Request? && run[0].key == key && run[0].limit > 0 && Opens(t, key, run[0].now)
    ensures Admitted(t, run, key, limit, run[0].now) <= limit
  {
    var e := run[0];
    AgreeRefl(t, start);
    AdmittedWithoutCleanups(t, t, start, run, key, limit, e.now);
    OnlyRequests(run, start);
    var rest := WithoutCleanups(run);
    assert rest[0] == e;
    SaneNext(t, e, start);
    RoomBoundsRequests(Next(t, e), rest[1..], key, limit, e.now, e.now);
    assert Next(t, e)[key] == Window(1, e.now + MINUTE);
  }

  // ---------- when a request is refused ----------

  ghost function After(t: Windows, run: seq<Event>): Windows
    decreases |run|
  {
    if run == [] then t else After(Next(t, run[0]), run[1..])
  }

  /** The event is a limited request for the key in the closed minute from `from`, let through. */
  ghost predicate Passes(t: Windows, e: Event, key: string, from: int) {
    && e.Request? && e.key == key && e.limit > 0 && from <= e.now <= from + MINUTE
    && Answer(t, key, e.limit, e.now)
  }

  ghost function LetThrough(t: Windows, run: seq<Event>, key: string, from: int): nat
    decreases |run|
  {
    if run == [] then 0
    else
      (if Passes(t, run[0], key, from) then 1 else 0)
      + LetThrough(Next(t, run[0]), run[1..], key, from)
  }

  /** What the window that expires at `end` has counted. */
  ghost function CountUntil(t: Windows, key: string, end: int): int {
    if key in t && t[key].expiresAt == end then t[key].count else 0
  }

  lemma CountGrows(t: Windows, e: Event, key: string, from: int, end: int, start: int)
    requires Sane(t, start) && start <= e.now && end - MINUTE >= from && e.now <= from + MINUTE
    ensures CountUntil(Next(t, e), key, end)
            <= CountUntil(t, key, end) + if Passes(t, e, key, from) then 1 else 0
  {
    if e.Request? && e.limit > 0 && e.key != key {
      assert (key in Next(t, e) <==> key in t) && (key in t ==> Next(t, e)[key] == t[key]);
    }
  }

  /** A window counts nothing but requests that were let through since it opened. */
  lemma {:induction false} CountIsEarned(t: Windows, run: seq<Event>, key: string, from: int, end: int, start: int)
    requires Sane(t, start) && Clocked(start, run) && end - MINUTE >= from
    requires forall i | 0 <= i < |run| :: run[i].now <= from + MINUTE
    ensures CountUntil(After(t, run), key, end) <= CountUntil(t, key, end) + LetThrough(t, run, key, from)
    decreases |run|
  {
    if run == [] {
    } else {
      CountGrows(t, run[0], key, from, end, start);
      SaneNext(t, run[0], start);
      CountIsEarned(Next(t, run[0]), run[1..], key, from, end, run[0].now);
    }
  }

  lemma {:induction false} ClockedUntil(start: int, run: seq<Event>, e: Event)
    requires Clocked(start, run + [e])
    ensures Clocked(start, run) && start <= e.now
    ensures forall i | 0 <= i < |run| :: run[i].now <= e.now
    decreases |run|
  {
    if run == [] {
      assert run + [e] == [e];
    } else {
      assert (run + [e])[1..] == run[1..] + [e];
      ClockedUntil(run[0].now, run[1..], e);
    }
  }

  /** In every run, a request is refused only under a positive limit, and only if that many limited requests of
      its key got through in the minute that ends with it. So a refusal costs the client nothing. */
  lemma RefusedOnlyIfFull(start: int, run: seq<Event>, key: string, limit: int, now: int)
    requires Clocked(start, run + [Request(key, limit, now)])
    requires !Answer(After(map[], run), key, limit, now)
    ensures 1 <= limit <= LetThrough(map[], run, key, now - MINUTE)
  {
    var t := After(map[], run);
    ClockedUntil(start, run, Request(key, limit, now));
    CountIsEarned(map[], run, key, now - MINUTE, t[key].expiresAt, start);
  }

  /** In particular a key of which nothing got through for a minute is free again. */
  lemma FreeAfterAMinute(start: int, run: seq<Event>, key: string, limit: int, now: int)
    requires Clocked(start, run + [Request(key, limit, now)])
    requires LetThrough(map[], run, key, now - MINUTE) == 0
    ensures Answer(After(map[], run), key, limit, now)
  {
    if !Answer(After(map[], run), key, limit, now) {
      RefusedOnlyIfFull(start, run, key, limit, now);
    }
  }

  // ---------- 2L - 1 is reached ----------

  ghost function Burst(key: string, limit: int, now: int, n: nat): seq<Event> {
    if n == 0 then [] else [Request(key, limit, now)] + Burst(key, limit, now, n - 1)
  }

  /** The window of the key, `n` requests later. */
  function Counted(t: Windows, key: string, n: nat): Windows
    requires key in t
  {
    t[key := t[key].(count := t[key].count + n)]
  }

  /** Requests that find room in an open window all get through. */
  lemma {:induction false} BurstPasses(
    t: Windows, key: string, limit: int, now: int, n: nat, rest: seq<Event>, from: int)
    requires key in t && now <= t[key].expiresAt && 1 <= t[key].count && t[key].count + n <= limit
    requires from <= now <= from + MINUTE
    ensures Admitted(t, Burst(key, limit, now, n) + rest, key, limit, from)
            == n + Admitted(Counted(t, key, n), rest, key, limit, from)
  {
    var run := Burst(key, limit, now, n) + rest;
    if n == 0 {
      assert run == rest && Counted(t, key, 0) == t;
    } else {
      var u := Counted(t, key, 1);
      assert run[0] == Request(key, limit, now) && Next(t, run[0]) == u && Counts(t, run[0], key, limit, from);
      assert run[1..] == Burst(key, limit, now, n - 1) + rest;
      BurstPasses(u, key, limit, now, n - 1, rest, from);
      assert Counted(u, key, n - 1) == Counted(t, key, n);
    }
  }

  ghost function WorstRun(key: string, limit: nat): seq<Event>
    requires limit >= 1
  {
    [Request(key, limit, 0)]
    + (Burst(key, limit, MINUTE, limit - 1)
       + ([Request(key, limit, MINUTE + 1)] + Burst(key, limit, MINUTE + 1, limit - 1)))
  }

  lemma {:induction false} BurstClocked(key: string, limit: int, now: int, n: nat, rest: seq<Event>)
    requires Clocked(now, rest)
    ensures Clocked(now, Burst(key, limit, now, n) + rest)
  {
    if n == 0 {
      assert Burst(key, limit, now, n) + rest == rest;
    } else {
      BurstClocked(key, limit, now, n - 1, rest);
      assert (Burst(key, limit, now, n) + rest)[1..] == Burst(key, limit, now, n - 1) + rest;
    }
  }

  lemma Prepended(e: Event, start: int, rest: seq<Event>)
    requires start <= e.now && Clocked(e.now, rest)
    ensures Clocked(start, [e] + rest)
  {
    assert ([e] + rest)[1..] == rest;
  }

  /** The worst run is in the order of the clock. */
  lemma WorstRunClocked(key: string, limit: nat)
    requires limit >= 1
    ensures Clocked(0, WorstRun(key, limit))
  {
    var last := Burst(key, limit, MINUTE + 1, limit - 1);
    var second := [Request(key, limit, MINUTE + 1)] + last;
    BurstClocked(key, limit, MINUTE + 1, limit - 1, []);
    assert last + [] == last;
    Prepended(Request(key, limit, MINUTE + 1), MINUTE, last);
    BurstClocked(key, limit, MINUTE, limit - 1, second);
    var first := Burst(key, limit, MINUTE, limit - 1) + second;
    ClockedEarlier(MINUTE, 0, first);
    Prepended(Request(key, limit, 0), 0, first);
  }

  /** The bound is exact: at the end of one window and the start of the next. */
  lemma WorstCase(key: string, limit: nat)
    requires limit >= 1
    ensures Clocked(0, WorstRun(key, limit))
    ensures Admitted(map[], WorstRun(key, limit), key, limit, MINUTE) == 2 * limit - 1
  {
    WorstRunClocked(key, limit);
    var run := WorstRun(key, limit);
    var last := Burst(key, limit, MINUTE + 1, limit - 1);
    var second := [Request(key, limit, MINUTE + 1)] + last;
    assert run[1..] == Burst(key, limit, MINUTE, limit - 1) + second;
    var t: Windows := map[key := Window(1, MINUTE)];
    assert Next(map[], run[0]) == t;
    BurstPasses(t, key, limit, MINUTE, limit - 1, second, MINUTE);
    var u := Counted(t, key, limit - 1);
    assert second[1..] == last == last + [];
    var v := Next(u, second[0]);
    assert v[key] == Window(1, 2 * MINUTE + 1);
    BurstPasses(v, key, limit, MINUTE + 1, limit - 1, [], MINUTE);
  }

  // ---------- a window that slides ----------

  /** What a sliding window would promise: no minute of any run sees more than `limit`. */
  ghost predicate Slides(key: string, limit: nat) {
    forall start: int, run: seq<Event>, from: int | Clocked(start, run) ::
      Admitted(map[], run, key, limit, from) <= limit
  }

  /** The limiter keeps that promise for a limit of one request, and for no other. */
  lemma SlidesOnlyForOne(key: string, limit: nat)
    requires limit >= 1
    ensures Slides(key, limit) <==> limit == 1
  {
    if limit == 1 {
      forall start: int, run: seq<Event>, from: int | Clocked(start, run)
        ensures Admitted(map[], run, key, limit, from) <= limit
      {
        AnyMinute(start, run, key, limit, from);
      }
    } else {
      WorstCase(key, limit);
    }
  }
}
