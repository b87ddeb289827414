/** The sliding-window rate limiter: module-level buckets shared by every decorated route. */
module RateLimit {

  /** The arguments of one `rate_limit(max_requests, window)` decorator. */
  datatype Config = Config(limit: int, window: int)

  // ---------- the wrapper ----------

  function Pruned(bucket: seq<real>, now: real, window: int): seq<real> {
    if bucket == [] then []
    else
      var rest := Pruned(bucket[..|bucket| - 1], now, window);
      if now - bucket[|bucket| - 1] < window as real then rest + [bucket[|bucket| - 1]] else rest
  }

  /** What one request leaves in its bucket, and whether it is let through. */
  function Request(bucket: seq<real>, now: real, c: Config): (seq<real>, bool) {
    var kept := Pruned(bucket, now, c.window);
    if |kept| >= c.limit then (kept, false) else (kept + [now], true)
  }

  class Limiter {
    var buckets: map<string, seq<real>>

    function Bucket(key: string): seq<real>
      reads this
    {
      if key in buckets then buckets[key] else []
    }

    constructor ()
      ensures buckets == map[]
    {
      buckets := map[];
    }

    method Handle(key: string, now: real, c: Config) returns (accepted: bool)
      modifies this
      ensures (Bucket(key), accepted) == Request(old(Bucket(key)), now, c)
      ensures forall other :: other != key ==> Bucket(other) == old(Bucket(other))
    {
      var bucket := Bucket(key);
      var kept: seq<real> := [];
      for i := 0 to |bucket|
        invariant kept == Pruned(bucket[..i], now, c.window)
      {
        assert bucket[..i + 1][..i] == bucket[..i];
        if now - bucket[i] < c.window as real {
          kept := kept + [bucket[i]];
        }
      }
      assert bucket[..|bucket|] == bucket;
      buckets := buckets[key := kept];
      if |kept| >= c.limit {
        return false;
      }
      buckets := buckets[key := kept + [now]];
      return true;
    }
  }

  // ---------- the requests of one key ----------

  datatype Event = Event(at: real, config: Config)

  /** A clock that does not run backwards. */
  ghost predicate Ordered(run: seq<Event>) {
    forall i, j :: 0 <= i < j < |run| ==> run[i].at <= run[j].at
  }

  function BucketAfter(run: seq<Event>): seq<real> {
    if run == [] then [] else Request(BucketAfter(run[..|run| - 1]), run[|run| - 1].at, run[|run| - 1].config).0
  }

  predicate AcceptedAt(run: seq<Event>, i: nat)
    requires i < |run|
  {
    Request(BucketAfter(run[..i]), run[i].at, run[i].config).1
  }

  /** The full history: the times of all accepted requests, never pruned. */
  function Accepted(run: seq<Event>): seq<real> {
    if run == [] then []
    else
      var before := run[..|run| - 1];
      if AcceptedAt(run, |before|) then Accepted(before) + [run[|before|].at] else Accepted(before)
  }

  /** How many of the times lie in (now - window, now]. */
  function InWindow(times: seq<real>, now: real, window: int): nat {
    if times == [] then 0
    else
      var t := times[|times| - 1];
      InWindow(times[..|times| - 1], now, window) + if now - (window as real) < t && t <= now then 1 else 0
  }

  // ---------- counting ----------

  lemma {:induction false} PrunedCounts(bucket: seq<real>, now: real, window: int)
    requires UpTo(bucket, now)
    ensures |Pruned(bucket, now, window)| == InWindow(bucket, now, window)
  {
    if bucket != [] {
      PrunedCounts(bucket[..|bucket| - 1], now, window);
    }
  }

  ghost predicate Sorted(times: seq<real>) {
    forall i, j :: 0 <= i < j < |times| ==> times[i] <= times[j]
  }

  ghost predicate UpTo(times: seq<real>, now: real) {
    forall i :: 0 <= i < |times| ==> times[i] <= now
  }

  lemma SortedAppend(times: seq<real>, t: real)
    requires Sorted(times) && UpTo(times, t)
    ensures Sorted(times + [t])
  {
  }

  lemma {:induction false} PrunedKeepsOrder(bucket: seq<real>, now: real, window: int, bound: real)
    requires Sorted(bucket) && UpTo(bucket, bound)
    ensures Sorted(Pruned(bucket, now, window)) && UpTo(Pruned(bucket, now, window), bound)
    ensures bucket == [] ==> Pruned(bucket, now, window) == []
  {
    if bucket != [] {
      var front, last := bucket[..|bucket| - 1], bucket[|bucket| - 1];
      PrunedKeepsOrder(front, now, window, last);
      SortedAppend(Pruned(front, now, window), last);
    }
  }

  lemma {:induction false} CountPrunedAgain(bucket: seq<real>, now: real, window: int, later: real, narrower: int)
    requires now <= later && narrower <= window
    ensures InWindow(Pruned(bucket, now, window), later, narrower) == InWindow(bucket, later, narrower)
  {
    if bucket != [] {
      CountPrunedAgain(bucket[..|bucket| - 1], now, window, later, narrower);
      var rest := Pruned(bucket[..|bucket| - 1], now, window);
      assert (rest + [bucket[|bucket| - 1]])[..|rest|] == rest;
    }
  }

  lemma AppendCount(times: seq<real>, t: real, now: real, window: int)
    ensures InWindow(times + [t], now, window)
         == InWindow(times, now, window) + if now - (window as real) < t && t <= now then 1 else 0
  {
    assert (times + [t])[..|times|] == times;
  }

  lemma {:induction false} SmallerWindow(times: seq<real>, now: real, narrower: int, window: int)
    requires narrower <= window
    ensures InWindow(times, now, narrower) <= InWindow(times, now, window)
  {
    if times != [] {
      SmallerWindow(times[..|times| - 1], now, narrower, window);
    }
  }

  /** Moving the instant back to the last recorded time at or before it loses nothing. */
  lemma {:induction false} EarlierInstant(times: seq<real>, instant: real, last: real, window: int)
    requires last <= instant && forall i :: 0 <= i < |times| && times[i] <= instant ==> times[i] <= last
    ensures InWindow(times, instant, window) <= InWindow(times, last, window)
  {
    if times != [] {
      EarlierInstant(times[..|times| - 1], instant, last, window);
    }
  }

  // ---------- the bucket against the full history ----------

  ghost predicate Before(run: seq<Event>, now: real) {
    forall i :: 0 <= i < |run| ==> run[i].at <= now
  }

  /** The bucket is a sorted part of the history, and neither looks into the future. */
  ghost predicate Fits(bucket: seq<real>, all: seq<real>, now: real) {
    && Sorted(bucket) && Sorted(all) && UpTo(bucket, now) && UpTo(all, now)
    && (if all == [] then bucket == [] else UpTo(bucket, all[|all| - 1]))
  }

  lemma StepFits(bucket: seq<real>, all: seq<real>, e: Event)
    requires Fits(bucket, all, e.at)
    ensures var r := Request(bucket, e.at, e.config); Fits(r.0, if r.1 then all + [e.at] else all, e.at)
  {
    var last := if all == [] then e.at else all[|all| - 1];
    var kept := Pruned(bucket, e.at, e.config.window);
    PrunedKeepsOrder(bucket, e.at, e.config.window, last);
    SortedAppend(kept, e.at);
    SortedAppend(all, e.at);
  }

  lemma {:induction false} BucketIsHistory(run: seq<Event>, now: real)
    requires Ordered(run) && Before(run, now)
    ensures Fits(BucketAfter(run), Accepted(run), now)
  {
    if run != [] {
      var before, e := run[..|run| - 1], run[|run| - 1];
      BucketIsHistory(before, e.at);
      StepFits(BucketAfter(before), Accepted(before), e);
      FitsLater(BucketAfter(run), Accepted(run), e.at, now);
    }
  }

  lemma FitsLater(bucket: seq<real>, all: seq<real>, now: real, later: real)
    requires Fits(bucket, all, now) && now <= later
    ensures Fits(bucket, all, later)
  {
  }

  /** A window no wider than any in use is seen by the buckets as by the full history. */
  lemma {:induction false} BucketAgrees(run: seq<Event>, window: int, now: real)
    requires Ordered(run) && Before(run, now)
    requires forall i :: 0 <= i < |run| ==> window <= run[i].config.window
    ensures InWindow(BucketAfter(run), now, window) == InWindow(Accepted(run), now, window)
  {
    if run != [] {
      var before, e := run[..|run| - 1], run[|run| - 1];
      BucketAgrees(before, window, now);
      CountPrunedAgain(BucketAfter(before), e.at, e.config.window, now, window);
      AppendCount(Pruned(BucketAfter(before), e.at, e.config.window), e.at, now, window);
      AppendCount(Accepted(before), e.at, now, window);
    }
  }

  /** A request is let through iff fewer than its limit of the bucket's times are in its window. */
  lemma AcceptedIffRoom(run: seq<Event>, i: nat)
    requires Ordered(run) && i < |run|
    ensures AcceptedAt(run, i)
            <==> InWindow(BucketAfter(run[..i]), run[i].at, run[i].config.window) < run[i].config.limit
  {
    BucketIsHistory(run[..i], run[i].at);
    PrunedCounts(BucketAfter(run[..i]), run[i].at, run[i].config.window);
  }

  /** Window bound: whatever decorators share a bucket, no window of the smallest length ever
      holds more accepted requests than the largest limit. */
  lemma {:induction false} WindowBound(run: seq<Event>, window: int, limit: nat, instant: real)
    requires Ordered(run)
    requires forall i :: 0 <= i < |run| ==> window <= run[i].config.window && run[i].config.limit <= limit
    ensures InWindow(Accepted(run), instant, window) <= limit
  {
    if run != [] {
      var n := |run| - 1;
      var before, e := run[..n], run[n];
      WindowBound(before, window, limit, instant);
      if AcceptedAt(run, n) {
        AppendCount(Accepted(before), e.at, instant, window);
        if e.at <= instant {
          AcceptedIffRoom(run, n);
          BucketIsHistory(run, e.at);
          EarlierInstant(Accepted(run), instant, e.at, window);
          AppendCount(Accepted(before), e.at, e.at, window);
          BucketAgrees(before, window, e.at);
          SmallerWindow(BucketAfter(before), e.at, window, e.config.window);
        }
      }
    }
  }

  // ---------- refusals ----------

  lemma {:induction false} PruningDropsCounts(bucket: seq<real>, at: real, pruned: int, now: real, window: int)
    ensures InWindow(Pruned(bucket, at, pruned), now, window) <= InWindow(bucket, now, window)
  {
    if bucket != [] {
      var n := |bucket| - 1;
      PruningDropsCounts(bucket[..n], at, pruned, now, window);
      AppendCount(Pruned(bucket[..n], at, pruned), bucket[n], now, window);
    }
  }

  lemma {:induction false} BucketNeverCountsMore(run: seq<Event>, now: real, window: int)
    ensures InWindow(BucketAfter(run), now, window) <= InWindow(Accepted(run), now, window)
  {
    if run != [] {
      var before, e := run[..|run| - 1], run[|run| - 1];
      BucketNeverCountsMore(before, now, window);
      PruningDropsCounts(BucketAfter(before), e.at, e.config.window, now, window);
      AppendCount(Pruned(BucketAfter(before), e.at, e.config.window), e.at, now, window);
      AppendCount(Accepted(before), e.at, now, window);
    }
  }

  /** Whatever shares the bucket, a request is refused only when its limit of accepted requests lies in its window. */
  lemma RefusedOnlyWhenFull(run: seq<Event>, i: nat)
    requires Ordered(run) && i < |run| && !AcceptedAt(run, i)
    ensures InWindow(Accepted(run[..i]), run[i].at, run[i].config.window) >= run[i].config.limit
  {
    AcceptedIffRoom(run, i);
    BucketNeverCountsMore(run[..i], run[i].at, run[i].config.window);
  }

  // ---------- exactness ----------

  ghost predicate Shares(run: seq<Event>, configs: set<Config>) {
    Ordered(run) && forall i :: 0 <= i < |run| ==> run[i].config in configs
  }

  /** The last request of the run is decided as by a limiter that keeps the full history. */
  ghost predicate DecidedExactly(run: seq<Event>)
    requires run != []
  {
    var n := |run| - 1;
    AcceptedAt(run, n) <==> InWindow(Accepted(run[..n]), run[n].at, run[n].config.window) < run[n].config.limit
  }

  ghost predicate Exact(c: Config, configs: set<Config>) {
    forall run: seq<Event> :: Shares(run, configs) && run != [] && run[|run| - 1].config == c ==> DecidedExactly(run)
  }

  /** Sharing a bucket with d cannot make c miscount. */
  predicate Harmless(c: Config, d: Config) {
    c.limit <= 0 || c.window <= 0 || c.window <= d.window || (c.limit == 1 && d.limit >= 1)
  }

  lemma {:induction false} EmptyWindow(times: seq<real>, now: real, window: int)
    requires window <= 0
    ensures InWindow(times, now, window) == 0
  {
    if times != [] {
      EmptyWindow(times[..|times| - 1], now, window);
    }
  }

  /** With the times sorted up to now, the window is empty iff the last of them has left it. */
  lemma {:induction false} EmptyIffLastLeft(times: seq<real>, now: real, window: int)
    requires Sorted(times) && UpTo(times, now)
    ensures InWindow(times, now, window) == 0 <==> times == [] || now - times[|times| - 1] >= window as real
  {
    if times != [] {
      EmptyIffLastLeft(times[..|times| - 1], now, window);
    }
  }

  /** The latest accepted time is the last in the bucket, or has already left the window. */
  ghost predicate LatestHeld(run: seq<Event>, window: int) {
    var held, all := BucketAfter(run), Accepted(run);
    all != [] ==> || (held != [] && held[|held| - 1] == all[|all| - 1])
                  || (run != [] && run[|run| - 1].at - all[|all| - 1] >= window as real)
  }

  lemma {:induction false} LatestIsHeld(run: seq<Event>, window: int)
    requires Ordered(run)
    requires forall i :: 0 <= i < |run| ==> window <= run[i].config.window || run[i].config.limit >= 1
    ensures LatestHeld(run, window)
  {
    if run != [] {
      var n := |run| - 1;
      var before, e := run[..n], run[n];
      LatestIsHeld(before, window);
      if AcceptedAt(run, n) {
        AcceptedIsHeld(run, window);
      } else {
        RefusedIsHeld(run, window);
      }
    }
  }

  lemma AcceptedIsHeld(run: seq<Event>, window: int)
    requires run != [] && AcceptedAt(run, |run| - 1)
    ensures LatestHeld(run, window)
  {
  }

  lemma RefusedIsHeld(run: seq<Event>, window: int)
    requires Ordered(run) && run != [] && !AcceptedAt(run, |run| - 1) && LatestHeld(run[..|run| - 1], window)
    requires window <= run[|run| - 1].config.window || run[|run| - 1].config.limit >= 1
    ensures LatestHeld(run, window)
  {
    var before, e := run[..|run| - 1], run[|run| - 1];
    BucketIsHistory(before, e.at);
    assert before != [] ==> before[|before| - 1].at <= e.at;
    if BucketAfter(before) != [] {
      LastSurvivesRefusal(BucketAfter(before), e);
    }
  }

  /** A refused request leaves the last time of the bucket where it is, unless that time has left the window. */
  lemma LastSurvivesRefusal(bucket: seq<real>, e: Event)
    requires bucket != [] && Sorted(bucket) && UpTo(bucket, e.at)
    ensures var kept, last := Request(bucket, e.at, e.config), bucket[|bucket| - 1];
            !kept.1 ==> (kept.0 != [] && kept.0[|kept.0| - 1] == last)
                        || (e.at - last >= e.config.window as real && kept.0 == [])
  {
    var last := bucket[|bucket| - 1];
    if e.at - last >= e.config.window as real {
      PrunedCounts(bucket, e.at, e.config.window);
      EmptyIffLastLeft(bucket, e.at, e.config.window);
    }
  }

  lemma HarmlessIsExact(c: Config, configs: set<Config>, run: seq<Event>)
    requires forall d :: d in configs ==> Harmless(c, d)
    requires Shares(run, configs) && run != [] && run[|run| - 1].config == c
    ensures DecidedExactly(run)
  {
    var n := |run| - 1;
    var before, now := run[..n], run[n].at;
    AcceptedIffRoom(run, n);
    if c.window <= 0 {
      EmptyWindow(BucketAfter(before), now, c.window);
      EmptyWindow(Accepted(before), now, c.window);
    } else if c.limit >= 2 {
      BucketAgrees(before, c.window, now);
    } else if c.limit == 1 {
      SingleIsExact(before, c.window, now);
    }
  }

  /** With a limit of one it is enough to know whether the latest accepted time is still in the window. */
  lemma SingleIsExact(before: seq<Event>, window: int, now: real)
    requires Ordered(before) && Before(before, now) && window > 0
    requires forall i :: 0 <= i < |before| ==> window <= before[i].config.window || before[i].config.limit >= 1
    ensures InWindow(BucketAfter(before), now, window) == 0 <==> InWindow(Accepted(before), now, window) == 0
  {
    BucketIsHistory(before, now);
    LatestIsHeld(before, window);
    EmptyIffLastLeft(BucketAfter(before), now, window);
    EmptyIffLastLeft(Accepted(before), now, window);
  }

  /** c admitted up to its limit at time 0. */
  function Filled(c: Config, m: nat): seq<Event> {
    if m == 0 then [] else Filled(c, m - 1) + [Event(0.0, c)]
  }

  function Zeros(m: nat): seq<real> {
    if m == 0 then [] else Zeros(m - 1) + [0.0]
  }

  lemma {:induction false} ZerosPruned(m: nat, now: real, window: int)
    requires now >= 0.0
    ensures |Zeros(m)| == m
    ensures Pruned(Zeros(m), now, window) == if now < window as real then Zeros(m) else []
    ensures InWindow(Zeros(m), now, window) == if now < window as real then m else 0
  {
    if m > 0 {
      ZerosPruned(m - 1, now, window);
      assert Zeros(m)[..m - 1] == Zeros(m - 1);
    }
  }

  lemma Extend(run: seq<Event>, e: Event)
    ensures var r := Request(BucketAfter(run), e.at, e.config);
            && BucketAfter(run + [e]) == r.0
            && AcceptedAt(run + [e], |run|) == r.1
            && Accepted(run + [e]) == if r.1 then Accepted(run) + [e.at] else Accepted(run)
  {
    assert (run + [e])[..|run|] == run;
  }

  lemma {:induction false} FilledBucket(c: Config, m: nat)
    requires m <= c.limit && c.window > 0
    ensures BucketAfter(Filled(c, m)) == Zeros(m) && Accepted(Filled(c, m)) == Zeros(m)
  {
    if m > 0 {
      FilledBucket(c, m - 1);
      ZerosPruned(m - 1, 0.0, c.window);
      Extend(Filled(c, m - 1), Event(0.0, c));
    }
  }

  lemma {:induction false} FilledEvents(c: Config, m: nat)
    ensures |Filled(c, m)| == m && forall i :: 0 <= i < m ==> Filled(c, m)[i] == Event(0.0, c)
  {
    if m > 0 {
      FilledEvents(c, m - 1);
    }
  }

  /** c fills its limit at time 0; then a request of d comes when c's window still holds and d's has passed. */
  function Spoiled(c: Config, d: Config): seq<Event>
    requires c.limit >= 0
  {
    Filled(c, c.limit) + [Event(Instant(d), d)]
  }

  function Instant(d: Config): real {
    if d.window > 0 then d.window as real else 0.0
  }

  lemma SpoiledBucket(c: Config, d: Config)
    requires !Harmless(c, d)
    ensures BucketAfter(Spoiled(c, d)) == if d.limit >= 1 then [Instant(d)] else []
    ensures InWindow(Accepted(Spoiled(c, d)), Instant(d), c.window) >= c.limit
  {
    var m, t := c.limit, Instant(d);
    FilledBucket(c, m);
    ZerosPruned(m, t, d.window);
    ZerosPruned(m, t, c.window);
    Extend(Filled(c, m), Event(t, d));
    AppendCount(Zeros(m), t, t, c.window);
  }

  lemma SpoiledShares(c: Config, d: Config, configs: set<Config>)
    requires c in configs && d in configs && !Harmless(c, d)
    ensures Shares(Spoiled(c, d) + [Event(Instant(d), c)], configs)
  {
    var run := Spoiled(c, d) + [Event(Instant(d), c)];
    var m := c.limit;
    FilledEvents(c, m);
    forall i | 0 <= i < |run|
      ensures run[i] == if i < m then Event(0.0, c) else Event(Instant(d), if i == m then d else c)
    {
    }
  }

  /** The last request passes although its window is full by the full history. */
  ghost predicate LetInWrongly(run: seq<Event>) {
    run != []
    && var n := |run| - 1;
       AcceptedAt(run, n) && InWindow(Accepted(run[..n]), run[n].at, run[n].config.window) >= run[n].config.limit
  }

  /** A harmful d makes c let a request in once too often. */
  lemma HarmfulIsInexact(c: Config, d: Config, configs: set<Config>) returns (run: seq<Event>)
    requires c in configs && d in configs && !Harmless(c, d)
    ensures Shares(run, configs) && LetInWrongly(run) && run[|run| - 1].config == c
    ensures !Exact(c, configs)
  {
    var t, spoiled := Instant(d), Spoiled(c, d);
    run := spoiled + [Event(t, c)];
    SpoiledShares(c, d, configs);
    SpoiledBucket(c, d);
    Extend(spoiled, Event(t, c));
    PrunedLength(BucketAfter(spoiled), t, c.window);
    assert run[..|run| - 1] == spoiled;
    assert !DecidedExactly(run);
  }

  lemma {:induction false} PrunedLength(bucket: seq<real>, now: real, window: int)
    ensures |Pruned(bucket, now, window)| <= |bucket|
  {
    if bucket != [] {
      PrunedLength(bucket[..|bucket| - 1], now, window);
    }
  }

  /** A decorator counts exactly, in every run, iff every decorator sharing the buckets is harmless to it. */
  lemma ExactIffHarmless(c: Config, configs: set<Config>)
    requires c in configs
    ensures Exact(c, configs) <==> forall d :: d in configs ==> Harmless(c, d)
  {
    if d :| d in configs && !Harmless(c, d) {
      var run := HarmfulIsInexact(c, d, configs);
    } else {
      forall run: seq<Event> | Shares(run, configs) && run != [] && run[|run| - 1].config == c
        ensures DecidedExactly(run)
      {
        HarmlessIsExact(c, configs, run);
      }
    }
  }

  // ---------- the count behind every statement ----------

  /** The number of recorded times after `now - window` and up to `now`. */
  lemma {:induction false} InWindowCounts(times: seq<real>, now: real, window: int)
    ensures InWindow(times, now, window) == |set i: nat | i < |times| && now - (window as real) < times[i] <= now|
  {
    if times != [] {
      var n := |times| - 1;
      InWindowCounts(times[..n], now, window);
      var front := set i: nat | i < n && now - (window as real) < times[i] <= now;
      assert front == set i: nat | i < |times[..n]| && now - (window as real) < times[..n][i] <= now;
      assert (set i: nat | i < |times| && now - (window as real) < times[i] <= now)
          == front + if now - (window as real) < times[n] <= now then {n as nat} else {};
    }
  }
}
