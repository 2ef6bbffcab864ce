/** The fixed-window limiter of server/ac_server.py, its pruning, and what they guarantee over a run. */
module RateLimiter {
  import opened Common
  import opened Sets

  type Key = string

  datatype Bucket = Bucket(start: real, count: nat)

  datatype State = State(buckets: map<Key, Bucket>, lastPrune: real)

  datatype Request = Request(key: Key, now: real)

  // ---- one call ----

  /** The key's bucket after counting one more request at time now. */
  function Counted(buckets: map<Key, Bucket>, window: real, r: Request): Bucket {
    if r.key in buckets && r.now - buckets[r.key].start < window then
      Bucket(buckets[r.key].start, buckets[r.key].count + 1)
    else
      Bucket(r.now, 1)
  }

  function Pruned(buckets: map<Key, Bucket>, window: real, now: real): map<Key, Bucket> {
    map k | k in buckets && now - buckets[k].start < window :: buckets[k]
  }

  /** The state after one call. */
  function Next(s: State, window: real, r: Request): State {
    var buckets := s.buckets[r.key := Counted(s.buckets, window, r)];
    if r.now - s.lastPrune >= window then State(Pruned(buckets, window, r.now), r.now)
    else State(buckets, s.lastPrune)
  }

  predicate Admits(s: State, limit: int, window: real, r: Request) {
    Counted(s.buckets, window, r).count <= limit
  }

  class Limiter {
    const limit: int
    const window: real
    var buckets: map<Key, Bucket>
    var lastPrune: real

    function Abstract(): State
      reads this
    {
      State(buckets, lastPrune)
    }

    constructor (limit: int, window: real, now: real)
      ensures this.limit == limit && this.window == window
      ensures Abstract() == State(map[], now)
    {
      this.limit := limit;
      this.window := window;
      buckets := map[];
      lastPrune := now;
    }

    method Allow(key: Key, now: real) returns (ok: bool)
      modifies this
      ensures Abstract() == Next(old(Abstract()), window, Request(key, now))
      ensures ok == Admits(old(Abstract()), limit, window, Request(key, now))
    {
      var windowStart, count := now, 0;
      if key in buckets {
        windowStart, count := buckets[key].start, buckets[key].count;
      }
      if now - windowStart >= window {
        windowStart, count := now, 0;
      }
      count := count + 1;
      buckets := buckets[key := Bucket(windowStart, count)];
      if now - lastPrune >= window {
        Prune(now);
      }
      ok := count <= limit;
    }

    /** Collects the stale keys, then deletes them one by one. */
    method Prune(now: real)
      modifies this
      ensures buckets == Pruned(old(buckets), window, now) && lastPrune == now
    {
      var stale := set k | k in buckets && now - buckets[k].start >= window;
      ghost var all := stale;
      while stale != {}
        invariant stale <= all
        invariant buckets == map k | k in old(buckets) && k !in all - stale :: old(buckets)[k]
        decreases stale
      {
        var k :| k in stale;
        buckets := buckets - {k};
        stale := stale - {k};
      }
      lastPrune := now;
    }
  }

  // ---- runs ----

  ghost function Last(run: seq<Request>, start: real): real {
    if run == [] then start else run[|run| - 1].now
  }

  /** The clock never runs backwards, starting from the time the limiter was made. */
  ghost predicate Ordered(run: seq<Request>, start: real) {
    run == [] || (Ordered(run[..|run| - 1], start) && Last(run[..|run| - 1], start) <= run[|run| - 1].now)
  }

  ghost function After(run: seq<Request>, window: real, start: real): State {
    if run == [] then State(map[], start)
    else Next(After(run[..|run| - 1], window, start), window, run[|run| - 1])
  }

  /** The answer the limiter gives to r after the run. */
  ghost predicate Allowed(run: seq<Request>, limit: int, window: real, start: real, r: Request) {
    Admits(After(run, window, start), limit, window, r)
  }

  // ---- a limiter that never prunes ----

  ghost function Unpruned(run: seq<Request>, window: real): map<Key, Bucket> {
    if run == [] then map[]
    else
      var before := Unpruned(run[..|run| - 1], window);
      var r := run[|run| - 1];
      before[r.key := Counted(before, window, r)]
  }

  /** Both limiters count r alike: pruning kept the key's bucket, or there was none, or r would renew it anyway. */
  ghost predicate Unaffected(s: State, u: map<Key, Bucket>, window: real, r: Request) {
    r.key in s.buckets || r.key !in u || r.now - u[r.key].start >= window
  }

  ghost predicate Agree(s: State, u: map<Key, Bucket>) {
    && (forall k :: k in s.buckets ==> k in u && u[k] == s.buckets[k])
    && (forall k :: k in u ==> u[k].count >= 1)
  }

  /** The answers to r are those of the limiter that never prunes, under every limit. */
  ghost predicate SameAnswers(s: State, u: map<Key, Bucket>, window: real, r: Request) {
    forall limit: int :: Admits(s, limit, window, r) <==> Counted(u, window, r).count <= limit
  }

  lemma AnswersShowCounts(s: State, u: map<Key, Bucket>, window: real, r: Request)
    requires Agree(s, u)
    ensures SameAnswers(s, u, window, r) <==> Unaffected(s, u, window, r)
    ensures Unaffected(s, u, window, r) <==> Counted(s.buckets, window, r) == Counted(u, window, r)
  {
    if !Unaffected(s, u, window, r) {
      assert Admits(s, 1, window, r);
    }
  }

  /** Every request of the run was answered as if nothing had ever been pruned. */
  ghost predicate Invisible(run: seq<Request>, window: real, start: real) {
    forall i :: 0 <= i < |run| ==>
      SameAnswers(After(run[..i], window, start), Unpruned(run[..i], window), window, run[i])
  }

  /** No request of the run found its unexpired bucket pruned. */
  ghost predicate NeverMissed(run: seq<Request>, window: real, start: real) {
    forall i :: 0 <= i < |run| ==>
      Unaffected(After(run[..i], window, start), Unpruned(run[..i], window), window, run[i])
  }

  lemma AgreeStep(s: State, u: map<Key, Bucket>, window: real, r: Request)
    requires Agree(s, u) && Unaffected(s, u, window, r)
    ensures Agree(Next(s, window, r), u[r.key := Counted(u, window, r)])
  {
  }

  lemma {:induction false} StatesAgree(run: seq<Request>, window: real, start: real)
    requires NeverMissed(run, window, start)
    ensures Agree(After(run, window, start), Unpruned(run, window))
  {
    hide Unaffected, Next, Counted;
    if run != [] {
      var n := |run| - 1;
      assert forall i :: 0 <= i < n ==> run[..n][..i] == run[..i];
      StatesAgree(run[..n], window, start);
      AgreeStep(After(run[..n], window, start), Unpruned(run[..n], window), window, run[n]);
    }
  }

  /** When pruning is invisible, for every run whatever its clock does: exactly when no request came for an
      unexpired bucket that had been pruned. */
  lemma {:induction false} PruningInvisibleExactly(run: seq<Request>, window: real, start: real)
    ensures Invisible(run, window, start) <==> NeverMissed(run, window, start)
  {
    hide SameAnswers, Unaffected, Agree, Unpruned, After;
    if run != [] {
      var n := |run| - 1;
      assert forall i :: 0 <= i < n ==> run[..n][..i] == run[..i] && run[..n][i] == run[i];
      PruningInvisibleExactly(run[..n], window, start);
      if NeverMissed(run[..n], window, start) {
        StatesAgree(run[..n], window, start);
        AnswersShowCounts(After(run[..n], window, start), Unpruned(run[..n], window), window, run[n]);
      }
    }
  }

  /** No reading lies before the last prune that came earlier; readings may otherwise decrease. */
  ghost predicate AfterPrunes(run: seq<Request>, window: real, start: real) {
    run == []
    || (AfterPrunes(run[..|run| - 1], window, start)
        && After(run[..|run| - 1], window, start).lastPrune <= run[|run| - 1].now)
  }

  /** What pruning removed had already expired at the last prune. */
  lemma {:induction false} PrunedHadExpired(run: seq<Request>, window: real, start: real)
    requires AfterPrunes(run, window, start)
    ensures var s, u := After(run, window, start), Unpruned(run, window);
            Agree(s, u) && forall k :: k in u && k !in s.buckets ==> s.lastPrune - u[k].start >= window
  {
    if run != [] {
      PrunedHadExpired(run[..|run| - 1], window, start);
    }
  }

  /** After such a run, the next request r is answered as if nothing had been pruned if and only if it does not
      miss a pruned bucket; and a reading no earlier than the last prune never does. */
  lemma PruningIsInvisible(run: seq<Request>, window: real, start: real, r: Request)
    requires AfterPrunes(run, window, start)
    ensures var s, u := After(run, window, start), Unpruned(run, window);
            && (SameAnswers(s, u, window, r) <==> Unaffected(s, u, window, r))
            && (Counted(s.buckets, window, r) == Counted(u, window, r) <==> Unaffected(s, u, window, r))
            && (s.lastPrune <= r.now ==> Unaffected(s, u, window, r))
  {
    PrunedHadExpired(run, window, start);
    AnswersShowCounts(After(run, window, start), Unpruned(run, window), window, r);
  }

  lemma {:induction false} AfterPrunesIsInvisible(run: seq<Request>, window: real, start: real)
    requires AfterPrunes(run, window, start)
    ensures Invisible(run, window, start)
  {
    hide SameAnswers, Unaffected, Unpruned, After;
    if run != [] {
      var n := |run| - 1;
      assert forall i :: 0 <= i < n ==> run[..n][..i] == run[..i] && run[..n][i] == run[i];
      AfterPrunesIsInvisible(run[..n], window, start);
      PruningIsInvisible(run[..n], window, start, run[n]);
    }
  }

  lemma {:induction false} OrderedIsAfterPrunes(run: seq<Request>, window: real, start: real)
    requires Ordered(run, start)
    ensures AfterPrunes(run, window, start) && After(run, window, start).lastPrune <= Last(run, start)
  {
    if run != [] {
      OrderedIsAfterPrunes(run[..|run| - 1], window, start);
    }
  }

  /** In particular pruning is invisible while the clock does not run backwards. */
  lemma PruningIsInvisibleInOrder(run: seq<Request>, limit: int, window: real, start: real, r: Request)
    requires Ordered(run + [r], start)
    ensures Counted(After(run, window, start).buckets, window, r) == Counted(Unpruned(run, window), window, r)
    ensures Allowed(run, limit, window, start, r) <==> Counted(Unpruned(run, window), window, r).count <= limit
  {
    assert (run + [r])[..|run|] == run;
    OrderedIsAfterPrunes(run, window, start);
    PruningIsInvisible(run, window, start, r);
  }

  /** A reading before the last prune can show it: here the pruned limiter lets through a second request of
      the same window that the other refuses. */
  lemma BackwardClockShowsPruning(a: Key, b: Key)
    requires a != b
    ensures var run := [Request(a, 0.0), Request(b, 2.0)];
            Allowed(run, 1, 2.0, 0.0, Request(a, 1.0)) && Counted(Unpruned(run, 2.0), 2.0, Request(a, 1.0)).count > 1
  {
    var r1, r2 := Request(a, 0.0), Request(b, 2.0);
    assert [r1, r2][..1] == [r1] && [r1][..0] == [];
    assert After([r1], 2.0, 0.0) == State(map[a := Bucket(0.0, 1)], 0.0);
    assert Unpruned([r1], 2.0) == map[a := Bucket(0.0, 1)];
  }

  // ---- memory ----

  ghost function RecentKeys(run: seq<Request>, since: real): set<Key> {
    set i | 0 <= i < |run| && run[i].now > since :: run[i].key
  }

  ghost predicate Fresh(s: State, window: real, now: real) {
    && s.lastPrune <= now < s.lastPrune + window
    && forall k :: k in s.buckets ==> s.lastPrune - s.buckets[k].start < window
  }

  lemma {:induction false} StaysFresh(run: seq<Request>, window: real, start: real)
    requires AfterPrunes(run, window, start) && window > 0.0
    ensures Fresh(After(run, window, start), window, Last(run, start))
  {
    if run != [] {
      StaysFresh(run[..|run| - 1], window, start);
    }
  }

  lemma {:induction false} StartsAreRequests(run: seq<Request>, window: real, start: real, k: Key)
    requires k in After(run, window, start).buckets
    ensures exists i :: 0 <= i < |run| && run[i] == Request(k, After(run, window, start).buckets[k].start)
  {
    var n := |run| - 1;
    var before := After(run[..n], window, start);
    if k in before.buckets && before.buckets[k].start == After(run, window, start).buckets[k].start {
      StartsAreRequests(run[..n], window, start, k);
      var i :| 0 <= i < n && run[..n][i] == Request(k, before.buckets[k].start);
      assert run[i] == Request(k, before.buckets[k].start);
    } else {
      assert run[n] == Request(k, After(run, window, start).buckets[k].start);
    }
  }

  /** Every retained bucket started less than two windows ago, so the map is no larger than the
      number of distinct keys seen in that span. */
  lemma MemoryIsBounded(run: seq<Request>, window: real, start: real)
    requires AfterPrunes(run, window, start) && window > 0.0
    ensures var s := After(run, window, start);
            && (forall k :: k in s.buckets ==> Last(run, start) - s.buckets[k].start < 2.0 * window)
            && s.buckets.Keys <= RecentKeys(run, Last(run, start) - 2.0 * window)
            && |s.buckets| <= |RecentKeys(run, Last(run, start) - 2.0 * window)|
  {
    var s := After(run, window, start);
    var recent := RecentKeys(run, Last(run, start) - 2.0 * window);
    StaysFresh(run, window, start);
    forall k | k in s.buckets ensures k in recent {
      StartsAreRequests(run, window, start, k);
    }
    SubsetSize(s.buckets.Keys, recent);
  }

  // ---- how many requests get through ----

  ghost predicate AdmittedAt(run: seq<Request>, limit: int, window: real, start: real, key: Key)
    requires run != []
  {
    var n := |run| - 1;
    run[n].key == key && Allowed(run[..n], limit, window, start, run[n])
  }

  /** Requests of key let through at times in [lo, hi). */
  ghost function Admitted(run: seq<Request>, limit: int, window: real, start: real, key: Key, lo: real, hi: real): nat {
    if run == [] then 0 else
      Admitted(run[..|run| - 1], limit, window, start, key, lo, hi)
      + if AdmittedAt(run, limit, window, start, key) && lo <= run[|run| - 1].now < hi then 1 else 0
  }

  /** Requests of key let through at time lo or later. */
  ghost function AdmittedSince(run: seq<Request>, limit: int, window: real, start: real, key: Key, lo: real): nat {
    if run == [] then 0 else
      AdmittedSince(run[..|run| - 1], limit, window, start, key, lo)
      + if AdmittedAt(run, limit, window, start, key) && lo <= run[|run| - 1].now then 1 else 0
  }

  /** Requests of key let through that were counted in the bucket that began at time s. */
  ghost function AdmittedInBucket(run: seq<Request>, limit: int, window: real, start: real, key: Key, s: real): nat {
    if run == [] then 0 else
      var n := |run| - 1;
      AdmittedInBucket(run[..n], limit, window, start, key, s)
      + if AdmittedAt(run, limit, window, start, key) && Counted(Unpruned(run[..n], window), window, run[n]).start == s
        then 1 else 0
  }

  /** Only the current bucket and the end of the one before it can hold recent admissions, and the
      first request of a bucket is the one that starts it. */
  ghost predicate TailBounded(run: seq<Request>, limit: int, window: real, start: real, key: Key, a: real) {
    var u := Unpruned(run, window);
    var since := AdmittedSince(run, limit, window, start, key, a);
    && (a > Last(run, start) || key !in u ==> since == 0)
    && (key in u ==>
          && u[key].count >= 1 && u[key].start <= Last(run, start)
          && (a > u[key].start ==> since <= Min(u[key].count, limit) - 1)
          && (a > u[key].start - window ==> since <= limit - 1 + Min(u[key].count, limit)))
  }

  lemma {:induction false} TailBound(run: seq<Request>, limit: int, window: real, start: real, key: Key, a: real)
    requires Ordered(run, start) && window > 0.0 && limit >= 1
    ensures TailBounded(run, limit, window, start, key, a)
  {
    if run != [] {
      var n := |run| - 1;
      TailBound(run[..n], limit, window, start, key, a);
      assert run == run[..n] + [run[n]];
      PruningIsInvisibleInOrder(run[..n], limit, window, start, run[n]);
    }
  }

  lemma {:induction false} WindowWithinTail(run: seq<Request>, limit: int, window: real, start: real,
                                            key: Key, lo: real, hi: real)
    ensures Admitted(run, limit, window, start, key, lo, hi) <= AdmittedSince(run, limit, window, start, key, lo)
  {
    if run != [] {
      WindowWithinTail(run[..|run| - 1], limit, window, start, key, lo, hi);
    }
  }

  /** Any half-open interval as long as the window lets through fewer than 2 * limit requests of a key. */
  lemma {:induction false} SlidingWindowBound(run: seq<Request>, limit: int, window: real, start: real,
                                              key: Key, lo: real)
    requires Ordered(run, start) && window > 0.0 && limit >= 1
    ensures Admitted(run, limit, window, start, key, lo, lo + window) <= 2 * limit - 1
  {
    if run != [] {
      var n := |run| - 1;
      SlidingWindowBound(run[..n], limit, window, start, key, lo);
      if AdmittedAt(run, limit, window, start, key) && lo <= run[n].now < lo + window {
        TailBound(run, limit, window, start, key, lo);
        WindowWithinTail(run, limit, window, start, key, lo, lo + window);
      }
    }
  }

  ghost predicate BucketsBounded(run: seq<Request>, limit: int, window: real, start: real, key: Key) {
    var u := Unpruned(run, window);
    forall s: real :: AdmittedInBucket(run, limit, window, start, key, s)
      <= if key !in u || u[key].start < s then 0 else if u[key].start == s then Min(u[key].count, limit) else limit
  }

  lemma {:induction false} BucketBound(run: seq<Request>, limit: int, window: real, start: real, key: Key)
    requires AfterPrunes(run, window, start) && window > 0.0 && limit >= 1
    ensures BucketsBounded(run, limit, window, start, key)
  {
    if run != [] {
      var n := |run| - 1;
      BucketBound(run[..n], limit, window, start, key);
      PruningIsInvisible(run[..n], window, start, run[n]);
    }
  }

  /** One fixed window lets through at most limit requests of a key. */
  lemma FixedWindowBound(run: seq<Request>, limit: int, window: real, start: real, key: Key, s: real)
    requires AfterPrunes(run, window, start) && window > 0.0 && limit >= 1
    ensures AdmittedInBucket(run, limit, window, start, key, s) <= limit
  {
    BucketBound(run, limit, window, start, key);
    assert BucketsBounded(run, limit, window, start, key);
  }

  // ---- the sliding bound is reached ----

  /** The burst at the boundary: one request opens a bucket, limit - 1 more come half a window later,
      and limit more when the next bucket opens. */
  ghost function Burst(key: Key, limit: nat, window: real, n: nat): seq<Request> {
    seq(n, i => Request(key, if i == 0 then 0.0 else if i < limit then window / 2.0 else window))
  }

  ghost function BurstBucket(limit: nat, window: real, n: nat): Bucket {
    if n <= limit then Bucket(0.0, n) else Bucket(window, n - limit)
  }

  lemma {:induction false} BurstIsOrdered(key: Key, limit: nat, window: real, n: nat)
    requires window > 0.0 && 1 <= limit
    ensures Ordered(Burst(key, limit, window, n), 0.0)
  {
    if n > 0 {
      assert Burst(key, limit, window, n)[..n - 1] == Burst(key, limit, window, n - 1);
      BurstIsOrdered(key, limit, window, n - 1);
    }
  }

  lemma {:induction false} BurstState(key: Key, limit: nat, window: real, n: nat)
    requires window > 0.0 && 1 <= limit && 1 <= n <= 2 * limit
    ensures Unpruned(Burst(key, limit, window, n), window) == map[key := BurstBucket(limit, window, n)]
  {
    assert Burst(key, limit, window, n)[..n - 1] == Burst(key, limit, window, n - 1);
    if n > 1 {
      BurstState(key, limit, window, n - 1);
    }
  }

  lemma {:induction false} BurstAdmitted(key: Key, limit: nat, window: real, n: nat)
    requires window > 0.0 && 1 <= limit && 1 <= n <= 2 * limit
    ensures Admitted(Burst(key, limit, window, n), limit, window, 0.0, key, window / 2.0, window / 2.0 + window)
         == n - 1
  {
    var run := Burst(key, limit, window, n);
    assert run[..n - 1] == Burst(key, limit, window, n - 1);
    if n > 1 {
      BurstAdmitted(key, limit, window, n - 1);
      BurstState(key, limit, window, n - 1);
      BurstIsOrdered(key, limit, window, n);
      assert run == run[..n - 1] + [run[n - 1]];
      PruningIsInvisibleInOrder(run[..n - 1], limit, window, 0.0, run[n - 1]);
    }
  }

  /** So 2 * limit - 1 is the exact bound, for every limit and every window. */
  lemma SlidingWindowBoundIsTight(key: Key, limit: nat, window: real)
    requires window > 0.0 && 1 <= limit
    ensures var run := Burst(key, limit, window, 2 * limit);
            && Ordered(run, 0.0)
            && Admitted(run, limit, window, 0.0, key, window / 2.0, window / 2.0 + window) == 2 * limit - 1
  {
    BurstIsOrdered(key, limit, window, 2 * limit);
    BurstAdmitted(key, limit, window, 2 * limit);
  }
}
