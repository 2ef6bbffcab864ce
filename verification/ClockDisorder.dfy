/** The limiter of server/ac_server.py when requests reach its lock out of the order of their clock readings, as
    they can: allow() reads the clock before it takes the lock. */
module ClockDisorder {
  import opened Common
  import opened RateLimiter

  // ---- readings no earlier than the last prune ----

  /** By then no reading lies a whole window after the last prune, so none lies a window before another. */
  lemma {:induction false} ReadingsAreNear(run: seq<Request>, window: real, start: real, key: Key)
    requires AfterPrunes(run, window, start) && window > 0.0 && key in Unpruned(run, window)
    ensures Unpruned(run, window)[key].count >= 1
    ensures Unpruned(run, window)[key].start < After(run, window, start).lastPrune + window
  {
    var n := |run| - 1;
    if key in Unpruned(run[..n], window) {
      ReadingsAreNear(run[..n], window, start, key);
    }
  }

  /** How many requests of [lo, lo + window) can have been let through, by where the key's current bucket began. */
  function MostSoFar(b: Bucket, limit: int, window: real, lo: real): int {
    if b.start <= lo - window then 0
    else if b.start < lo then Min(b.count, limit) - 1
    else if b.start < lo + window then limit - 1 + Min(b.count, limit)
    else if b.start < lo + 2.0 * window then 2 * limit - 2 + Min(b.count, limit)
    else 3 * limit - 2
  }

  lemma MostAfterCounting(u: map<Key, Bucket>, limit: int, window: real, lo: real, lastPrune: real, r: Request)
    requires window > 0.0 && limit >= 1 && lastPrune <= r.now
    requires r.key in u ==> u[r.key].count >= 1 && u[r.key].start < lastPrune + window
    ensures var before := if r.key in u then MostSoFar(u[r.key], limit, window, lo) else 0;
            var b := Counted(u, window, r);
            before + (if b.count <= limit && lo <= r.now < lo + window then 1 else 0) <= MostSoFar(b, limit, window, lo)
  {
  }

  lemma {:induction false} DisorderedTail(run: seq<Request>, limit: int, window: real, start: real, key: Key, lo: real)
    requires AfterPrunes(run, window, start) && window > 0.0 && limit >= 1
    ensures var u := Unpruned(run, window);
            Admitted(run, limit, window, start, key, lo, lo + window) <= if key in u then
                MostSoFar(u[key], limit, window, lo) else 0
  {
    hide MostSoFar, Counted;
    if run != [] {
      var n := |run| - 1;
      var before, r := run[..n], run[n];
      DisorderedTail(before, limit, window, start, key, lo);
      PruningIsInvisible(before, window, start, r);
      if r.key == key {
        if key in Unpruned(before, window) {
          ReadingsAreNear(before, window, start, key);
        }
        MostAfterCounting(Unpruned(before, window), limit, window, lo, After(before, window, start).lastPrune, r);
      }
    }
  }

  /** While no reading lies before the last prune, any interval as long as the window lets through at most
      3 * limit - 2 requests of a key, in whatever order they came. */
  lemma DisorderedBound(run: seq<Request>, limit: int, window: real, start: real, key: Key, lo: real)
    requires AfterPrunes(run, window, start) && window > 0.0 && limit >= 1
    ensures Admitted(run, limit, window, start, key, lo, lo + window) <= 3 * limit - 2
  {
    DisorderedTail(run, limit, window, start, key, lo);
  }

  // ---- that bound is reached ----

  /** Three buckets meet in one interval: the first is nearly full of requests from its end, the second is full, and
      the third opens before the last requests of the interval reach the lock. Another key sets the prunes. */
  ghost function LateRequest(key: Key, other: Key, limit: nat, w: real, i: nat): Request {
    if i == 0 then Request(key, 0.95 * w)
    else if i == 1 then Request(other, w)
    else if i <= limit then Request(key, 1.5 * w)
    else if i <= 2 * limit then Request(key, 1.95 * w)
    else if i == 2 * limit + 1 then Request(other, 2.0 * w)
    else if i == 2 * limit + 2 then Request(key, 2.95 * w)
    else Request(key, 2.0 * w)
  }

  ghost function LateRun(key: Key, other: Key, limit: nat, w: real, n: nat): seq<Request> {
    seq(n, (i: nat) => LateRequest(key, other, limit, w, i))
  }

  ghost function LatePrune(limit: nat, w: real, n: nat): real {
    if n < 2 then 0.0 else if n <= 2 * limit + 1 then w else 2.0 * w
  }

  ghost function LateBucket(limit: nat, w: real, n: nat): Bucket
    requires n >= 1
  {
    if n == 1 then Bucket(0.95 * w, 1)
    else if n <= limit + 1 then Bucket(0.95 * w, n - 1)
    else if n <= 2 * limit + 1 then Bucket(1.95 * w, n - limit - 1)
    else if n == 2 * limit + 2 then Bucket(1.95 * w, limit)
    else Bucket(2.95 * w, n - 2 * limit - 2)
  }

  ghost function LateAdmitted(limit: nat, n: nat): int {
    if n <= 2 then 0
    else if n <= 2 * limit + 1 then n - 2
    else if n <= 2 * limit + 3 then 2 * limit - 1
    else n - 4
  }

  lemma {:induction false} LatePrunes(key: Key, other: Key, limit: nat, w: real, n: nat)
    requires w > 0.0 && limit >= 1
    ensures var run := LateRun(key, other, limit, w, n);
            AfterPrunes(run, w, 0.0) && After(run, w, 0.0).lastPrune == LatePrune(limit, w, n)
  {
    if n > 0 {
      assert LateRun(key, other, limit, w, n)[..n - 1] == LateRun(key, other, limit, w, n - 1);
      LatePrunes(key, other, limit, w, n - 1);
    }
  }

  lemma LateBucketStep(u: map<Key, Bucket>, key: Key, other: Key, limit: nat, w: real, n: nat)
    requires w > 0.0 && limit >= 1 && key != other && n >= 2
    requires key in u && u[key] == LateBucket(limit, w, n - 1)
    ensures var r := LateRequest(key, other, limit, w, n - 1);
            LateBucket(limit, w, n) == if r.key == key then Counted(u, w, r) else u[key]
  {
  }

  lemma {:induction false} LateBuckets(key: Key, other: Key, limit: nat, w: real, n: nat)
    requires w > 0.0 && limit >= 1 && key != other && n >= 1
    ensures var u := Unpruned(LateRun(key, other, limit, w, n), w);
            key in u && u[key] == LateBucket(limit, w, n)
  {
    assert LateRun(key, other, limit, w, n)[..n - 1] == LateRun(key, other, limit, w, n - 1);
    if n > 1 {
      hide Counted, LateRequest, LateBucket;
      LateBuckets(key, other, limit, w, n - 1);
      LateBucketStep(Unpruned(LateRun(key, other, limit, w, n - 1), w), key, other, limit, w, n);
    }
  }

  lemma LateArithmetic(key: Key, other: Key, limit: nat, w: real, n: nat)
    requires w > 0.0 && limit >= 1 && key != other && 1 <= n <= 3 * limit + 2
    ensures var r := LateRequest(key, other, limit, w, n - 1);
            LateAdmitted(limit, n) == LateAdmitted(limit, n - 1)
              + if r.key == key && LateBucket(limit, w, n).count <= limit
                && 1.05 * w <= r.now < 1.05 * w + w then 1 else 0
  {
  }

  lemma {:induction false} LateCount(key: Key, other: Key, limit: nat, w: real, n: nat)
    requires w > 0.0 && limit >= 1 && key != other && n <= 3 * limit + 2
    ensures Admitted(LateRun(key, other, limit, w, n), limit, w, 0.0, key, 1.05 * w, 1.05 * w + w)
         == LateAdmitted(limit, n)
  {
    hide Counted, Next, LateRequest, LateBucket, LatePrune;
    if n > 0 {
      hide LateAdmitted;
      var run, before := LateRun(key, other, limit, w, n), LateRun(key, other, limit, w, n - 1);
      assert run[..n - 1] == before;
      LateCount(key, other, limit, w, n - 1);
      LatePrunes(key, other, limit, w, n);
      PruningIsInvisible(before, w, 0.0, run[n - 1]);
      LateBuckets(key, other, limit, w, n);
      LateArithmetic(key, other, limit, w, n);
    }
  }

  /** For every limit and window a run reaches that bound. */
  lemma DisorderedBoundIsTight(key: Key, other: Key, limit: nat, w: real)
    requires w > 0.0 && limit >= 1 && key != other
    ensures var run := LateRun(key, other, limit, w, 3 * limit + 2);
            && AfterPrunes(run, w, 0.0)
            && Admitted(run, limit, w, 0.0, key, 1.05 * w, 1.05 * w + w) == 3 * limit - 2
  {
    hide AfterPrunes, Admitted, LateRun, LatePrune;
    LatePrunes(key, other, limit, w, 3 * limit + 2);
    LateCount(key, other, limit, w, 3 * limit + 2);
  }

  // ---- readings before the last prune ----

  /** Requests that all read the same time, each reaching the lock after another key has caused a prune. */
  ghost function StaleRun(key: Key, other: Key, w: real, n: nat): seq<Request> {
    if n == 0 then [] else StaleRun(key, other, w, n - 1) + [Request(key, 0.0), Request(other, StaleTime(w, n))]
  }

  ghost function StaleTime(w: real, n: nat): (t: real)
    ensures w > 0.0 ==> t >= 0.0
  {
    if n == 0 then 0.0 else StaleTime(w, n - 1) + 2.0 * w
  }

  /** One round: the request opens a bucket of its own, and the prune after it removes that bucket again. */
  lemma StaleRound(s: State, key: Key, other: Key, w: real)
    requires w > 0.0 && key != other && key !in s.buckets && s.lastPrune >= 0.0
    ensures var s1 := Next(s, w, Request(key, 0.0));
            var s2 := Next(s1, w, Request(other, s.lastPrune + 2.0 * w));
            && Counted(s.buckets, w, Request(key, 0.0)).count == 1
            && key !in s2.buckets && s2.lastPrune == s.lastPrune + 2.0 * w
  {
    var s1 := Next(s, w, Request(key, 0.0));
    assert s1.buckets[key] == Bucket(0.0, 1) && s1.lastPrune == s.lastPrune;
  }

  lemma {:induction false} StaleState(key: Key, other: Key, limit: int, w: real, n: nat)
    requires w > 0.0 && limit >= 1 && key != other
    ensures var run := StaleRun(key, other, w, n);
            && key !in After(run, w, 0.0).buckets && After(run, w, 0.0).lastPrune == StaleTime(w, n)
            && Admitted(run, limit, w, 0.0, key, 0.0, 0.0 + w) == n
  {
    hide Next, Counted;
    if n > 0 {
      var before := StaleRun(key, other, w, n - 1);
      var once, run := before + [Request(key, 0.0)], StaleRun(key, other, w, n);
      StaleState(key, other, limit, w, n - 1);
      assert once[..|before|] == before && run[..|once|] == once;
      StaleRound(After(before, w, 0.0), key, other, w);
    }
  }

  /** Without that condition there is no bound: any number of requests of one window can get through. */
  lemma StaleReadingsAreUnbounded(key: Key, other: Key, limit: int, w: real, n: nat)
    requires w > 0.0 && limit >= 1 && key != other
    ensures Admitted(StaleRun(key, other, w, n), limit, w, 0.0, key, 0.0, 0.0 + w) == n
  {
    StaleState(key, other, limit, w, n);
  }
}
