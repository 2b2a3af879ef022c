/** The in-process fixed-window rate limiter, and what it lets through over whole runs. The clock is a
    parameter of each call. */
module RateLimiter {
  import opened Numbers

  datatype Bucket = Bucket(start: real, count: int)

  datatype Limits = Limits(max: int, window: real)

  datatype Call = Call(at: real, key: string)

  type Buckets = map<string, Bucket>

  function BucketOf(buckets: Buckets, key: string): Bucket {
    if key in buckets then buckets[key] else Bucket(0.0, 0)
  }

  function Allows(limits: Limits, bucket: Bucket, now: real): bool {
    now - bucket.start >= limits.window || bucket.count < limits.max
  }

  function Charged(limits: Limits, bucket: Bucket, now: real): Bucket {
    if now - bucket.start >= limits.window then Bucket(now, 1)
    else if bucket.count >= limits.max then bucket
    else Bucket(bucket.start, bucket.count + 1)
  }

  class FixedWindowRateLimiter {
    const limits: Limits
    var buckets: Buckets

    constructor (maxRequests: int, windowSeconds: int)
      ensures limits == Limits(maxRequests, windowSeconds as real) && buckets == map[]
    {
      limits := Limits(maxRequests, windowSeconds as real);
      buckets := map[];
    }

    /** Reading a missing key stores its default bucket, as the source's default dictionary does. */
    method Allow(now: real, key: string) returns (allowed: bool)
      modifies this
      ensures allowed == Allows(limits, old(BucketOf(buckets, key)), now)
      ensures buckets == old(buckets)[key := Charged(limits, old(BucketOf(buckets, key)), now)]
    {
      if key !in buckets {
        buckets := buckets[key := Bucket(0.0, 0)];
      }
      var bucket := buckets[key];
      if now - bucket.start >= limits.window {
        buckets := buckets[key := Bucket(now, 1)];
        return true;
      }
      if bucket.count >= limits.max {
        return false;
      }
      buckets := buckets[key := Bucket(bucket.start, bucket.count + 1)];
      return true;
    }

    /** A run of calls against a new limiter decides as the functions below say. */
    method Replay(calls: seq<Call>) returns (decisions: seq<bool>)
      requires buckets == map[]
      modifies this
      ensures buckets == After(limits, calls)
      ensures |decisions| == |calls| && forall i :: 0 <= i < |calls| ==> decisions[i] == Accepted(limits, calls, i)
    {
      decisions := [];
      for i := 0 to |calls|
        invariant buckets == After(limits, calls[..i])
        invariant |decisions| == i && forall j :: 0 <= j < i ==> decisions[j] == Accepted(limits, calls, j)
      {
        assert calls[..i + 1][..i] == calls[..i];
        var allowed := Allow(calls[i].at, calls[i].key);
        decisions := decisions + [allowed];
      }
      assert calls[..|calls|] == calls;
    }
  }

  // --- Runs -------------------------------------------------------------------------------------

  /** The buckets after a run that starts with none. */
  function After(limits: Limits, calls: seq<Call>): Buckets {
    if calls == [] then map[] else
    var earlier, last := calls[..|calls| - 1], calls[|calls| - 1];
    var buckets := After(limits, earlier);
    buckets[last.key := Charged(limits, BucketOf(buckets, last.key), last.at)]
  }

  function Accepted(limits: Limits, calls: seq<Call>, i: nat): bool
    requires i < |calls|
  {
    Allows(limits, BucketOf(After(limits, calls[..i]), calls[i].key), calls[i].at)
  }

  predicate Nondecreasing(calls: seq<Call>) {
    forall i, j :: 0 <= i < j < |calls| ==> calls[i].at <= calls[j].at
  }

  /** How many calls of a key were accepted in the half-open interval of one window from `from`. */
  function AcceptedIn(limits: Limits, calls: seq<Call>, key: string, from: real): nat {
    if calls == [] then 0 else
    var n := |calls| - 1;
    AcceptedIn(limits, calls[..n], key, from)
    + if calls[n].key == key && from <= calls[n].at < from + limits.window && Accepted(limits, calls, n) then 1 else 0
  }

  lemma LastDecision(limits: Limits, calls: seq<Call>)
    requires calls != []
    ensures var (earlier, last) := (calls[..|calls| - 1], calls[|calls| - 1]);
      Accepted(limits, calls, |calls| - 1) == Allows(limits, BucketOf(After(limits, earlier), last.key), last.at)
  {
  }

  lemma OneMoreCall(limits: Limits, calls: seq<Call>, key: string, from: real)
    requires calls != [] && calls[|calls| - 1].key == key
    ensures var (earlier, now) := (calls[..|calls| - 1], calls[|calls| - 1].at);
      var bucket := BucketOf(After(limits, earlier), key);
      && BucketOf(After(limits, calls), key) == Charged(limits, bucket, now)
      && AcceptedIn(limits, calls, key, from) == AcceptedIn(limits, earlier, key, from)
         + if from <= now < from + limits.window && Allows(limits, bucket, now) then 1 else 0
  {
  }

  lemma OtherCall(limits: Limits, calls: seq<Call>, key: string, from: real)
    requires calls != [] && calls[|calls| - 1].key != key
    ensures var earlier := calls[..|calls| - 1];
      && BucketOf(After(limits, calls), key) == BucketOf(After(limits, earlier), key)
      && AcceptedIn(limits, calls, key, from) == AcceptedIn(limits, earlier, key, from)
  {
  }

  predicate LateStart(limits: Limits, calls: seq<Call>, key: string) {
    forall i :: 0 <= i < |calls| && calls[i].key == key ==> limits.window <= calls[i].at
  }

  /** A window accepts its limit; a limit below one still lets the call through that opens the window. */
  function Ceiling(limits: Limits): int { Max(1, limits.max) }

  /** What one bucket knows about the calls accepted in an interval, by where the bucket started. The
      saving is one call: a bucket that a call opened before the interval spent that call outside it. */
  ghost predicate IntervalInvariant(limits: Limits, bucket: Bucket, last: real, n: nat, from: real, saving: int) {
    && 0 <= bucket.count <= Ceiling(limits)
    && (saving == 1 ==> bucket.start <= last && (bucket.count == 0 ==> bucket.start == 0.0))
    && (last < from ==> n == 0)
    && (bucket.start < from ==> n <= Max(0, bucket.count - saving))
    && (from <= bucket.start < from + limits.window ==> n <= Ceiling(limits) + bucket.count - saving)
    && (from + limits.window <= bucket.start ==>
      n <= 2 * Ceiling(limits) - saving && (bucket.start <= last || n <= bucket.count - saving))
  }

  lemma IntervalStep(limits: Limits, bucket: Bucket, last: real, n: nat, from: real, saving: int, now: real)
    requires limits.window > 0.0 && 0 <= saving <= 1
    requires IntervalInvariant(limits, bucket, last, n, from, saving) && last <= now
    requires saving == 1 ==> limits.window <= now
    ensures IntervalInvariant(limits, Charged(limits, bucket, now), now,
      n + if from <= now < from + limits.window && Allows(limits, bucket, now) then 1 else 0, from, saving)
  {
  }

  lemma {:induction false} IntervalInvariantHolds(limits: Limits, calls: seq<Call>, key: string, from: real,
      saving: int, low: real)
    returns (last: real)
    requires limits.window > 0.0 && 0 <= saving <= 1 && Nondecreasing(calls)
    requires forall i :: 0 <= i < |calls| && calls[i].key == key ==> low <= calls[i].at
    requires saving == 1 ==> LateStart(limits, calls, key) && 0.0 <= low
    ensures IntervalInvariant(limits, BucketOf(After(limits, calls), key), last, AcceptedIn(limits, calls, key, from),
      from, saving)
    ensures last == low || exists i :: 0 <= i < |calls| && calls[i].key == key && last == calls[i].at
  {
    if calls == [] {
      return low;
    }
    hide After, AcceptedIn, Accepted, IntervalInvariant;
    var n := |calls| - 1;
    var earlier, call := calls[..n], calls[n];
    assert forall i :: 0 <= i < n ==> earlier[i] == calls[i];
    last := IntervalInvariantHolds(limits, earlier, key, from, saving, low);
    if call.key == key {
      IntervalStep(limits, BucketOf(After(limits, earlier), key), last, AcceptedIn(limits, earlier, key, from), from,
        saving, call.at);
      OneMoreCall(limits, calls, key, from);
      last := call.at;
    } else {
      OtherCall(limits, calls, key, from);
    }
  }

  /** In any run on a nondecreasing clock, no interval of one window's length, wherever it starts, holds
      more than twice the limit of accepted calls of a key. */
  lemma AtMostTwiceMax(limits: Limits, calls: seq<Call>, key: string, from: real)
    requires limits.window > 0.0 && Nondecreasing(calls)
    ensures AcceptedIn(limits, calls, key, from) <= 2 * Ceiling(limits)
    ensures limits.max >= 1 ==> AcceptedIn(limits, calls, key, from) <= 2 * limits.max
    ensures limits.max < 1 ==> AcceptedIn(limits, calls, key, from) <= 2
  {
    if calls != [] {
      var last := IntervalInvariantHolds(limits, calls, key, from, 0, calls[0].at);
    }
  }

  /** One fewer, unless the key is first called within a window of the clock's zero. */
  lemma AtMostTwiceMaxLessOne(limits: Limits, calls: seq<Call>, key: string, from: real)
    requires limits.window > 0.0 && Nondecreasing(calls) && LateStart(limits, calls, key)
    ensures AcceptedIn(limits, calls, key, from) <= 2 * Ceiling(limits) - 1
  {
    var last := IntervalInvariantHolds(limits, calls, key, from, 1, 0.0);
  }

  // --- Both bounds are met ----------------------------------------------------------------------

  /** `first` calls at one instant and then `second` at a later one. */
  function Burst(key: string, first: nat, early: real, second: nat, late: real): seq<Call> {
    seq(first + second, i => if i < first then Call(early, key) else Call(late, key))
  }

  lemma NothingYet(limits: Limits, key: string, from: real)
    ensures BucketOf(After(limits, []), key) == Bucket(0.0, 0) && AcceptedIn(limits, [], key, from) == 0
  {
  }

  lemma {:induction false} BurstAccepted(limits: Limits, key: string, n: nat)
    requires limits.max >= 1 && limits.window > 0.0 && n <= 2 * limits.max
    ensures var calls := Burst(key, limits.max, limits.window / 2.0, limits.max, limits.window)[..n];
      && BucketOf(After(limits, calls), key)
         == (if n <= limits.max then Bucket(0.0, n) else Bucket(limits.window, n - limits.max))
      && AcceptedIn(limits, calls, key, limits.window / 2.0) == n
  {
    hide After, AcceptedIn, Accepted;
    var calls := Burst(key, limits.max, limits.window / 2.0, limits.max, limits.window)[..n];
    if n == 0 {
      NothingYet(limits, key, limits.window / 2.0);
    } else {
      BurstAccepted(limits, key, n - 1);
      assert calls[..n - 1] == Burst(key, limits.max, limits.window / 2.0, limits.max, limits.window)[..n - 1];
      OneMoreCall(limits, calls, key, limits.window / 2.0);
    }
  }

  /** Twice the limit is reached: a full default bucket just before the first window ends, and a full
      new one right after. */
  lemma TwiceMaxIsReached(limits: Limits, key: string)
    requires limits.max >= 1 && limits.window > 0.0
    ensures exists calls, from :: Nondecreasing(calls) && AcceptedIn(limits, calls, key, from) == 2 * limits.max
  {
    var calls := Burst(key, limits.max, limits.window / 2.0, limits.max, limits.window);
    BurstAccepted(limits, key, 2 * limits.max);
    assert calls[..2 * limits.max] == calls;
    assert Nondecreasing(calls);
  }

  /** One call a window after the clock's zero, `middle` calls half a window later, and `last` another half later. */
  function LateBurst(limits: Limits, key: string, middle: nat, last: nat): seq<Call> {
    seq(1 + middle + last, i =>
      var at := if i == 0 then 1.0 else if i <= middle then 1.5 else 2.0;
      Call(limits.window * at, key))
  }

  lemma {:induction false} LateBurstAccepted(limits: Limits, key: string, n: nat)
    requires limits.max >= 1 && limits.window > 0.0 && 1 <= n <= 2 * limits.max
    ensures var calls := LateBurst(limits, key, limits.max - 1, limits.max)[..n];
      && BucketOf(After(limits, calls), key)
         == (if n <= limits.max then Bucket(limits.window, n) else Bucket(limits.window * 2.0, n - limits.max))
      && AcceptedIn(limits, calls, key, limits.window * 1.5) == n - 1
  {
    hide After, AcceptedIn, Accepted;
    var from := limits.window * 1.5;
    var run := LateBurst(limits, key, limits.max - 1, limits.max);
    var calls := run[..n];
    assert calls[..n - 1] == run[..n - 1];
    if n == 1 {
      NothingYet(limits, key, from);
      assert calls[..0] == [];
    } else {
      LateBurstAccepted(limits, key, n - 1);
    }
    OneMoreCall(limits, calls, key, from);
  }

  /** So is one fewer, by a key first called a full window after the clock's zero. */
  lemma TwiceMaxLessOneIsReached(limits: Limits, key: string)
    requires limits.max >= 1 && limits.window > 0.0
    ensures exists calls, from ::
              Nondecreasing(calls) && LateStart(limits, calls, key)
                && AcceptedIn(limits, calls, key, from) == 2 * limits.max - 1
  {
    var calls := LateBurst(limits, key, limits.max - 1, limits.max);
    LateBurstAccepted(limits, key, 2 * limits.max);
    assert calls[..2 * limits.max] == calls;
    assert Nondecreasing(calls) && LateStart(limits, calls, key);
  }

  // --- When a call is refused -------------------------------------------------------------------

  predicate ClockFromZero(calls: seq<Call>) { forall i :: 0 <= i < |calls| ==> 0.0 <= calls[i].at }

  /** A bucket's count is the number of calls accepted since it started. */
  lemma {:induction false} CountIsAcceptedSinceStart(limits: Limits, calls: seq<Call>, key: string)
    requires limits.max >= 1 && limits.window > 0.0 && Nondecreasing(calls) && ClockFromZero(calls)
    ensures var bucket := BucketOf(After(limits, calls), key);
      && bucket.count == AcceptedIn(limits, calls, key, bucket.start) <= limits.max
      && (forall i :: 0 <= i < |calls| && calls[i].key == key ==> calls[i].at < bucket.start + limits.window)
      && (bucket.start == 0.0 || exists i :: 0 <= i < |calls| && calls[i].at == bucket.start)
  {
    if calls != [] {
      var n := |calls| - 1;
      var earlier, call := calls[..n], calls[n];
      assert forall i :: 0 <= i < n ==> earlier[i] == calls[i];
      CountIsAcceptedSinceStart(limits, earlier, key);
      LastDecision(limits, calls);
      var before, after := BucketOf(After(limits, earlier), key), BucketOf(After(limits, calls), key);
      if call.key == key && after.start != before.start {
        assert after == Bucket(call.at, 1);
        NoneAcceptedYet(limits, earlier, key, call.at);
      }
      if before.start != 0.0 && after == before {
        var i :| 0 <= i < n && earlier[i].at == before.start;
        assert calls[i].at == after.start;
      }
    }
  }

  lemma {:induction false} NoneAcceptedYet(limits: Limits, calls: seq<Call>, key: string, from: real)
    requires forall i :: 0 <= i < |calls| && calls[i].key == key ==> calls[i].at < from
    ensures AcceptedIn(limits, calls, key, from) == 0
  {
    if calls != [] {
      var earlier := calls[..|calls| - 1];
      assert forall i :: 0 <= i < |earlier| ==> earlier[i] == calls[i];
      NoneAcceptedYet(limits, earlier, key, from);
    }
  }

  /** A call is refused only if the live window, which it falls in, has already accepted the limit. */
  lemma RefusedOnlyWhenWindowFull(limits: Limits, calls: seq<Call>, i: nat)
    requires limits.max >= 1 && limits.window > 0.0 && Nondecreasing(calls) && ClockFromZero(calls)
    requires i < |calls| && !Accepted(limits, calls, i)
    ensures exists from ::
              from <= calls[i].at < from + limits.window &&
              AcceptedIn(limits, calls[..i], calls[i].key, from) == limits.max
  {
    var earlier, key := calls[..i], calls[i].key;
    assert forall j :: 0 <= j < i ==> earlier[j] == calls[j];
    CountIsAcceptedSinceStart(limits, earlier, key);
    var start := BucketOf(After(limits, earlier), key).start;
    assert start <= calls[i].at;
  }

  // --- Keys are independent ---------------------------------------------------------------------

  function Only(calls: seq<Call>, key: string): (only: seq<Call>)
    ensures forall call :: call in only <==> call in calls && call.key == key
  {
    if calls == [] then [] else
    var earlier, last := Only(calls[..|calls| - 1], key), calls[|calls| - 1];
    if last.key == key then earlier + [last] else earlier
  }

  /** A key's bucket, and so every decision about it, depends on the calls of that key alone. */
  lemma {:induction false} KeysAreIndependent(limits: Limits, calls: seq<Call>, key: string, from: real)
    ensures BucketOf(After(limits, calls), key) == BucketOf(After(limits, Only(calls, key)), key)
    ensures AcceptedIn(limits, calls, key, from) == AcceptedIn(limits, Only(calls, key), key, from)
  {
    if calls != [] {
      var earlier, last := calls[..|calls| - 1], calls[|calls| - 1];
      KeysAreIndependent(limits, earlier, key, from);
      if last.key == key {
        OnlyGrows(calls, key);
        OneMoreCall(limits, calls, key, from);
        OneMoreCall(limits, Only(calls, key), key, from);
      }
    }
  }

  lemma OnlyGrows(calls: seq<Call>, key: string)
    requires calls != [] && calls[|calls| - 1].key == key
    ensures var own := Only(calls, key);
      own != [] && own[|own| - 1] == calls[|calls| - 1] && own[..|own| - 1] == Only(calls[..|calls| - 1], key)
  {
  }
}
