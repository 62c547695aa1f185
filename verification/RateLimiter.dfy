/**
 * The advisor's per-user rate limiter: fixed windows in a map of buckets, with
 * expired buckets pruned once the map is large.
 */
module RateLimiter {

  datatype Bucket = Bucket(windowStart: int, count: int)
  type Buckets = map<string, Bucket>

  datatype Call = Call(userId: string, now: int)

  const PRUNE_THRESHOLD: nat := 5_000

  predicate Expired(b: Bucket, windowMs: int, now: int) { now - b.windowStart >= windowMs }

  /** The bucket a call is counted in: the user's own, or a new one when it is missing or expired. */
  function BucketFor(buckets: Buckets, windowMs: int, call: Call): Bucket {
    if call.userId !in buckets || Expired(buckets[call.userId], windowMs, call.now) then Bucket(call.now, 0)
    else buckets[call.userId]
  }

  predicate Accepts(buckets: Buckets, windowMs: int, max: nat, call: Call) {
    BucketFor(buckets, windowMs, call).count < max
  }

  /** The buckets after a call, before any pruning. */
  function Counted(buckets: Buckets, windowMs: int, max: nat, call: Call): Buckets {
    var b := BucketFor(buckets, windowMs, call);
    buckets[call.userId := if b.count < max then b.(count := b.count + 1) else b]
  }

  function Pruned(buckets: Buckets, windowMs: int, now: int): Buckets {
    map u | u in buckets && !Expired(buckets[u], windowMs, now) :: buckets[u]
  }

  function AfterCheck(buckets: Buckets, windowMs: int, max: nat, call: Call): Buckets {
    var counted := Counted(buckets, windowMs, max, call);
    if Accepts(buckets, windowMs, max, call) && |counted| >= PRUNE_THRESHOLD
    then Pruned(counted, windowMs, call.now) else counted
  }

  class InMemoryRateLimiter {
    var buckets: Buckets
    const windowMs: int
    const max: nat

    constructor (windowMs: int, max: nat)
      ensures this.windowMs == windowMs && this.max == max && buckets == map[]
    {
      this.windowMs, this.max, buckets := windowMs, max, map[];
    }

    /** Counts a call; `accepted` is false where the original raises AI_RATE_LIMITED. */
    method Check(call: Call) returns (accepted: bool)
      modifies this`buckets
      ensures accepted == Accepts(old(buckets), windowMs, max, call)
      ensures buckets == AfterCheck(old(buckets), windowMs, max, call)
    {
      var bucket: Bucket;
      if call.userId !in buckets || call.now - buckets[call.userId].windowStart >= windowMs {
        bucket := Bucket(call.now, 0);
        buckets := buckets[call.userId := bucket];
      } else {
        bucket := buckets[call.userId];
      }
      if bucket.count >= max {
        assert buckets == Counted(old(buckets), windowMs, max, call);
        return false;
      }
      buckets := buckets[call.userId := bucket.(count := bucket.count + 1)];
      assert buckets == Counted(old(buckets), windowMs, max, call);
      if |buckets| >= PRUNE_THRESHOLD { Prune(call.now); }
      accepted := true;
    }

    method Prune(now: int)
      modifies this`buckets
      ensures buckets == Pruned(old(buckets), windowMs, now)
    {
      var pending := buckets.Keys;
      while pending != {}
        invariant pending <= buckets.Keys <= old(buckets).Keys
        invariant forall u :: u in buckets ==> buckets[u] == old(buckets)[u]
        invariant forall u :: u in old(buckets) && u !in pending ==>
          (u in buckets <==> !Expired(old(buckets)[u], windowMs, now))
        decreases pending
      {
        var u :| u in pending;
        pending := pending - {u};
        if now - buckets[u].windowStart >= windowMs { buckets := buckets - {u}; }
      }
    }
  }

  // ---------- runs ----------

  ghost predicate ClockNeverGoesBack(calls: seq<Call>) {
    forall i, j :: 0 <= i < j < |calls| ==> calls[i].now <= calls[j].now
  }

  /** The limiter's buckets after a run. */
  function State(windowMs: int, max: nat, calls: seq<Call>): Buckets {
    if calls == [] then map[]
    else AfterCheck(State(windowMs, max, calls[..|calls| - 1]), windowMs, max, calls[|calls| - 1])
  }

  /** The buckets of a limiter that never prunes. */
  function Unpruned(windowMs: int, max: nat, calls: seq<Call>): Buckets {
    if calls == [] then map[]
    else Counted(Unpruned(windowMs, max, calls[..|calls| - 1]), windowMs, max, calls[|calls| - 1])
  }

  /** Whether the limiter accepts one more call after a run. */
  predicate Decision(windowMs: int, max: nat, calls: seq<Call>, call: Call) {
    Accepts(State(windowMs, max, calls), windowMs, max, call)
  }

  /** The same buckets, except for expired ones that pruning may have dropped. */
  ghost predicate SameUnexpired(pruned: Buckets, full: Buckets, windowMs: int, now: int) {
    && (forall u :: u in pruned ==> u in full && full[u] == pruned[u])
    && (forall u :: u in full && u !in pruned ==> Expired(full[u], windowMs, now))
  }

  lemma {:induction false} PruningDropsOnlyExpired(windowMs: int, max: nat, calls: seq<Call>, now: int)
    requires ClockNeverGoesBack(calls)
    requires calls != [] ==> calls[|calls| - 1].now <= now
    ensures SameUnexpired(State(windowMs, max, calls), Unpruned(windowMs, max, calls), windowMs, now)
  {
    if calls != [] {
      var before, call := calls[..|calls| - 1], calls[|calls| - 1];
      PruningDropsOnlyExpired(windowMs, max, before, call.now);
    }
  }

  /** Pruning is unobservable: every decision is the one a limiter that never prunes would make. */
  lemma PruningIsUnobservable(windowMs: int, max: nat, calls: seq<Call>, call: Call)
    requires ClockNeverGoesBack(calls + [call])
    ensures Decision(windowMs, max, calls, call)
       <==> Accepts(Unpruned(windowMs, max, calls), windowMs, max, call)
  {
    var all := calls + [call];
    assert forall i :: 0 <= i < |calls| ==> all[i] == calls[i];
    assert all[|calls|] == call;
    PruningDropsOnlyExpired(windowMs, max, calls, call.now);
  }

  /** How many of a user's calls in a time interval were accepted. */
  function Accepted(windowMs: int, max: nat, calls: seq<Call>, userId: string, from: int, to: int): nat {
    if calls == [] then 0
    else
      var before, call := calls[..|calls| - 1], calls[|calls| - 1];
      Accepted(windowMs, max, before, userId, from, to)
      + (if call.userId == userId && from <= call.now <= to && Decision(windowMs, max, before, call) then 1 else 0)
  }

  lemma {:induction false} AcceptedSplits(
    windowMs: int, max: nat, calls: seq<Call>, userId: string, from: int, middle: int, to: int)
    requires from <= middle + 1 && middle <= to
    ensures Accepted(windowMs, max, calls, userId, from, to)
         == Accepted(windowMs, max, calls, userId, from, middle) + Accepted(windowMs, max, calls, userId, middle + 1, to)
  {
    if calls != [] {
      hide Decision;
      AcceptedSplits(windowMs, max, calls[..|calls| - 1], userId, from, middle, to);
    }
  }

  lemma {:induction false} AcceptedMonotone(
    windowMs: int, max: nat, calls: seq<Call>, userId: string, from: int, to: int, from': int, to': int)
    requires from' <= from && to <= to'
    ensures Accepted(windowMs, max, calls, userId, from, to) <= Accepted(windowMs, max, calls, userId, from', to')
  {
    if calls != [] {
      hide Decision;
      AcceptedMonotone(windowMs, max, calls[..|calls| - 1], userId, from, to, from', to');
    }
  }

  /** No accepted call is later than the last call. */
  lemma {:induction false} NoneAccepted(windowMs: int, max: nat, calls: seq<Call>, userId: string, from: int, to: int)
    requires forall i :: 0 <= i < |calls| ==> calls[i].now < from
    ensures Accepted(windowMs, max, calls, userId, from, to) == 0
  {
    if calls != [] {
      hide Decision;
      NoneAccepted(windowMs, max, calls[..|calls| - 1], userId, from, to);
    }
  }

  /**
   * The never-pruned bucket of a user: it counts exactly the accepted calls since its window
   * opened, all of them inside the window, and one window's length before it holds at most
   * `max` more.
   */
  ghost predicate BucketCounts(windowMs: int, max: nat, calls: seq<Call>, userId: string, now: int) {
    var full := Unpruned(windowMs, max, calls);
    if userId !in full then forall from, to :: Accepted(windowMs, max, calls, userId, from, to) == 0
    else
      var b := full[userId];
      && b.windowStart <= now
      && b.count == Accepted(windowMs, max, calls, userId, b.windowStart, now) <= max
      && (forall from, to :: b.windowStart + windowMs <= from ==> Accepted(windowMs, max, calls, userId, from, to) == 0)
      && Accepted(windowMs, max, calls, userId, b.windowStart - windowMs, b.windowStart - 1) <= max
  }

  /** One more call, unfolded: the buckets and counts before and after it. */
  lemma OneMoreCall(windowMs: int, max: nat, before: seq<Call>, call: Call, userId: string)
    requires ClockNeverGoesBack(before + [call])
    ensures var full := Unpruned(windowMs, max, before);
      && Unpruned(windowMs, max, before + [call]) == Counted(full, windowMs, max, call)
      && forall from, to ::
           Accepted(windowMs, max, before + [call], userId, from, to)
           == Accepted(windowMs, max, before, userId, from, to)
              + (if call.userId == userId && from <= call.now <= to && Accepts(full, windowMs, max, call) then 1 else 0)
  {
    assert (before + [call])[..|before|] == before;
    PruningIsUnobservable(windowMs, max, before, call);
    hide Accepts, Decision;
  }

  lemma SameBucket(windowMs: int, max: nat, before: seq<Call>, call: Call, userId: string, now: int)
    requires windowMs > 0 && ClockNeverGoesBack(before + [call]) && call.now <= now
    requires BucketCounts(windowMs, max, before, userId, call.now)
    requires call.userId == userId ==>
      userId in Unpruned(windowMs, max, before) && !Expired(Unpruned(windowMs, max, before)[userId], windowMs, call.now)
    ensures BucketCounts(windowMs, max, before + [call], userId, now)
  {
    hide Accepted, Unpruned;
    OneMoreCall(windowMs, max, before, call, userId);
    var full := Unpruned(windowMs, max, before);
    if userId in full {
      var ws := full[userId].windowStart;
      AcceptedSplits(windowMs, max, before, userId, ws, call.now, now);
      EarlierCalls(before, call);
      NoneAccepted(windowMs, max, before, userId, call.now + 1, now);
    }
  }

  lemma NewBucket(windowMs: int, max: nat, before: seq<Call>, call: Call, now: int)
    requires windowMs > 0 && ClockNeverGoesBack(before + [call]) && call.now <= now
    requires BucketCounts(windowMs, max, before, call.userId, call.now)
    requires var full := Unpruned(windowMs, max, before);
      call.userId in full ==> Expired(full[call.userId], windowMs, call.now)
    ensures BucketCounts(windowMs, max, before + [call], call.userId, now)
  {
    hide Accepted, Unpruned;
    var userId, full := call.userId, Unpruned(windowMs, max, before);
    OneMoreCall(windowMs, max, before, call, userId);
    EarlierCalls(before, call);
    if userId in full {
      var ws := full[userId].windowStart;
      AcceptedMonotone(windowMs, max, before, userId, call.now - windowMs, call.now - 1, ws, call.now);
    }
    AcceptedSplits(windowMs, max, before, userId, call.now, call.now, now);
    NoneAccepted(windowMs, max, before, userId, call.now + 1, now);
    forall from, to | call.now + windowMs <= from
      ensures Accepted(windowMs, max, before + [call], userId, from, to) == 0
    {
      NoneAccepted(windowMs, max, before, userId, from, to);
    }
  }

  lemma EarlierCalls(before: seq<Call>, call: Call)
    requires ClockNeverGoesBack(before + [call])
    ensures ClockNeverGoesBack(before)
    ensures forall i :: 0 <= i < |before| ==> before[i].now <= call.now
    ensures before != [] ==> before[|before| - 1].now <= call.now
  {
    var all := before + [call];
    assert all[|before|] == call && forall i :: 0 <= i < |before| ==> all[i] == before[i];
  }

  lemma EmptyRun(windowMs: int, max: nat, userId: string, now: int)
    ensures BucketCounts(windowMs, max, [], userId, now)
  {
  }

  lemma {:induction false} BucketsCount(windowMs: int, max: nat, calls: seq<Call>, userId: string, now: int)
    requires windowMs > 0 && ClockNeverGoesBack(calls)
    requires calls != [] ==> calls[|calls| - 1].now <= now
    ensures BucketCounts(windowMs, max, calls, userId, now)
  {
    hide BucketCounts, Accepted, Unpruned, ClockNeverGoesBack;
    if calls == [] {
      EmptyRun(windowMs, max, userId, now);
    } else {
      var before, call := calls[..|calls| - 1], calls[|calls| - 1];
      assert calls == before + [call];
      EarlierCalls(before, call);
      BucketsCount(windowMs, max, before, userId, call.now);
      var full := Unpruned(windowMs, max, before);
      if call.userId != userId || (userId in full && !Expired(full[userId], windowMs, call.now)) {
        SameBucket(windowMs, max, before, call, userId, now);
      } else {
        NewBucket(windowMs, max, before, call, now);
      }
    }
  }

  /** Any interval one window long holds at most twice `max` accepted calls of a user. */
  lemma {:induction false} AtMostTwiceMax(windowMs: int, max: nat, calls: seq<Call>, userId: string, from: int)
    requires windowMs > 0 && ClockNeverGoesBack(calls)
    ensures Accepted(windowMs, max, calls, userId, from, from + windowMs) <= 2 * max
  {
    var to := from + windowMs;
    if calls != [] && calls[|calls| - 1].now > to {
      AtMostTwiceMax(windowMs, max, calls[..|calls| - 1], userId, from);
    } else {
      BucketsCount(windowMs, max, calls, userId, to);
      if userId in Unpruned(windowMs, max, calls) {
        var ws := Unpruned(windowMs, max, calls)[userId].windowStart;
        hide Accepted, Unpruned;
        if ws <= from {
          AcceptedMonotone(windowMs, max, calls, userId, from, to, ws, to);
        } else {
          AcceptedSplits(windowMs, max, calls, userId, from, ws - 1, to);
          AcceptedMonotone(windowMs, max, calls, userId, from, ws - 1, ws - windowMs, ws - 1);
        }
      }
    }
  }

  /** Within the window a decision falls in, at most `max` of the user's calls have been accepted. */
  lemma AtMostMaxPerWindow(windowMs: int, max: nat, calls: seq<Call>, userId: string, now: int)
    requires windowMs > 0 && ClockNeverGoesBack(calls)
    requires calls != [] ==> calls[|calls| - 1].now <= now
    ensures userId in Unpruned(windowMs, max, calls) ==>
      Accepted(windowMs, max, calls, userId, Unpruned(windowMs, max, calls)[userId].windowStart, now) <= max
  {
    hide Accepted, Unpruned;
    BucketsCount(windowMs, max, calls, userId, now);
  }

  /**
   * A call is rejected exactly when its user's window is open and `max` calls have been accepted
   * in it, or when `max` is zero.
   */
  lemma RejectedIff(windowMs: int, max: nat, calls: seq<Call>, call: Call)
    requires windowMs > 0 && ClockNeverGoesBack(calls + [call])
    ensures var full, user := Unpruned(windowMs, max, calls), call.userId;
      !Decision(windowMs, max, calls, call) <==>
        || max == 0
        || (user in full && call.now < full[user].windowStart + windowMs
            && Accepted(windowMs, max, calls, user, full[user].windowStart, call.now) == max)
  {
    PruningIsUnobservable(windowMs, max, calls, call);
    EarlierCalls(calls, call);
    BucketsCount(windowMs, max, calls, call.userId, call.now);
    hide Accepted, Unpruned, Decision;
  }

  /** So a call is accepted whenever fewer than `max` of its user's were in the window's length up to it. */
  lemma AcceptedUnlessBusy(windowMs: int, max: nat, calls: seq<Call>, call: Call)
    requires windowMs > 0 && ClockNeverGoesBack(calls + [call])
    requires Accepted(windowMs, max, calls, call.userId, call.now - windowMs + 1, call.now) < max
    ensures Decision(windowMs, max, calls, call)
  {
    RejectedIff(windowMs, max, calls, call);
    var full, user := Unpruned(windowMs, max, calls), call.userId;
    if user in full && call.now < full[user].windowStart + windowMs {
      AcceptedMonotone(
        windowMs, max, calls, user, full[user].windowStart, call.now, call.now - windowMs + 1, call.now);
    }
    hide Accepted, Unpruned, Decision;
  }

  /** A window of no length opens anew on every call, so a positive limit never rejects anything. */
  lemma EmptyWindowNeverRejects(windowMs: int, max: nat, calls: seq<Call>, call: Call)
    requires windowMs <= 0 && 0 < max && ClockNeverGoesBack(calls + [call])
    ensures Decision(windowMs, max, calls, call)
  {
    EarlierCalls(calls, call);
    WindowsStartInThePast(windowMs, max, calls, call.now);
    hide State;
  }

  lemma {:induction false} WindowsStartInThePast(windowMs: int, max: nat, calls: seq<Call>, now: int)
    requires forall i :: 0 <= i < |calls| ==> calls[i].now <= now
    ensures forall u :: u in State(windowMs, max, calls) ==> State(windowMs, max, calls)[u].windowStart <= now
  {
    if calls != [] {
      WindowsStartInThePast(windowMs, max, calls[..|calls| - 1], now);
    }
  }

  /** Memory is bounded: after an accepted call there are fewer than 5000 buckets or only open ones. */
  lemma BucketsAreBounded(windowMs: int, max: nat, buckets: Buckets, call: Call)
    requires Accepts(buckets, windowMs, max, call)
    ensures var after := AfterCheck(buckets, windowMs, max, call);
      |after| < 5000 || forall u :: u in after ==> call.now < after[u].windowStart + windowMs
  {
  }
}
