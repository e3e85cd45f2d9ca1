/** How many checks the limiter lets through in any window, over every run of checks. */
module RateLimitLaws {
  import opened RateLimit

  datatype Check = Check(key: string, now: real)

  /** The limiter's settings: at least one event, any window. */
  datatype Limits = Limits(max: int, window: real)

  predicate Sound(l: Limits) {
    l.max >= 1
  }

  function TableOf(run: seq<Check>, l: Limits): Table {
    if run == [] then map[]
    else
      var last := run[|run| - 1];
      TableAfter(TableOf(run[..|run| - 1], l), last.key, last.now, l.max, l.window)
  }

  function BucketBefore(run: seq<Check>, check: Check, l: Limits): seq<real> {
    Pruned(Bucket(TableOf(run, l), check.key), check.now, l.window)
  }

  predicate Accepts(run: seq<Check>, check: Check, l: Limits) {
    |BucketBefore(run, check, l)| < l.max
  }

  /** The times at which checks for this key were let through, in order. */
  function Accepted(run: seq<Check>, key: string, l: Limits): seq<real> {
    if run == [] then []
    else
      var before, last := run[..|run| - 1], run[|run| - 1];
      Accepted(before, key, l) + (if last.key == key && Accepts(before, last, l) then [last.now] else [])
  }

  /** The clock never goes back. */
  predicate Ordered(run: seq<Check>) {
    forall i, j :: 0 <= i < j < |run| ==> run[i].now <= run[j].now
  }

  // --- pruning and sweeping ------------------------------------------------------------

  lemma SweptKeeps(table: Table, key: string)
    ensures Bucket(Swept(table), key) == Bucket(table, key)
  {
  }

  lemma BucketAfter(run: seq<Check>, check: Check, key: string, l: Limits)
    ensures Bucket(TableOf(run + [check], l), key) ==
      if key != check.key then Bucket(TableOf(run, l), key)
      else if Accepts(run, check, l) then BucketBefore(run, check, l) + [check.now]
      else BucketBefore(run, check, l)
  {
    assert (run + [check])[..|run|] == run;
    var bucket := BucketBefore(run, check, l);
    SweptKeeps(TableOf(run, l)[check.key := bucket + [check.now]], key);
  }

  lemma {:induction false} PrunedIsSuffix(bucket: seq<real>, now: real, window: real)
    ensures |Pruned(bucket, now, window)| <= |bucket|
    ensures var n := |bucket| - |Pruned(bucket, now, window)|;
      Pruned(bucket, now, window) == bucket[n..] &&
      (forall i :: 0 <= i < n ==> now - bucket[i] > window) &&
      (n < |bucket| ==> now - bucket[n] <= window)
  {
    if bucket != [] && now - bucket[0] > window {
      PrunedIsSuffix(bucket[1..], now, window);
      var n := |bucket| - |Pruned(bucket, now, window)|;
      assert bucket[1..][n - 1..] == bucket[n..];
      forall i | 0 <= i < n ensures now - bucket[i] > window {
        assert i > 0 ==> bucket[i] == bucket[1..][i - 1];
      }
    }
  }

  // --- the bucket is the recent part of the history ----------------------------------------

  predicate Sorted(acc: seq<real>, now: real) {
    (forall i, j :: 0 <= i < j < |acc| ==> acc[i] <= acc[j]) && forall i :: 0 <= i < |acc| ==> acc[i] <= now
  }

  /** Any two accepted checks that are `max` apart in the history are more than a window apart in time. */
  predicate Spaced(acc: seq<real>, l: Limits)
    requires Sound(l)
  {
    forall i, j :: 0 <= i && i + l.max <= j < |acc| ==> acc[j] - acc[i] > l.window
  }

  /** The bucket holds the last accepted times, and only times outside the window are missing. */
  predicate Recent(acc: seq<real>, bucket: seq<real>, now: real, l: Limits) {
    |bucket| <= |acc| && |bucket| <= l.max &&
    bucket == acc[|acc| - |bucket|..] &&
    forall i :: 0 <= i < |acc| - |bucket| ==> now - acc[i] > l.window
  }

  predicate Fits(acc: seq<real>, bucket: seq<real>, now: real, l: Limits)
    requires Sound(l)
  {
    Sorted(acc, now) && Spaced(acc, l) && Recent(acc, bucket, now, l)
  }

  lemma RecentPruned(acc: seq<real>, bucket: seq<real>, now: real, l: Limits)
    requires Recent(acc, bucket, now, l)
    ensures Recent(acc, Pruned(bucket, now, l.window), now, l)
  {
    PrunedIsSuffix(bucket, now, l.window);
    var kept := Pruned(bucket, now, l.window);
    var n, m := |acc| - |bucket|, |bucket| - |kept|;
    assert acc[n..][m..] == acc[n + m..];
    forall i | 0 <= i < |acc| - |kept| ensures now - acc[i] > l.window {
      assert i >= n ==> acc[i] == bucket[i - n];
    }
  }

  lemma FitsAccepted(acc: seq<real>, bucket: seq<real>, now: real, l: Limits)
    requires Sound(l) && Fits(acc, bucket, now, l) && |bucket| < l.max
    ensures Fits(acc + [now], bucket + [now], now, l)
  {
    var more := acc + [now];
    assert more[|more| - |bucket| - 1..] == bucket + [now];
    forall i, j | 0 <= i && i + l.max <= j < |more| ensures more[j] - more[i] > l.window {
      if j == |acc| {
        assert i < |acc| - |bucket|;
      }
    }
  }

  predicate Until(run: seq<Check>, now: real) {
    Ordered(run) && forall i :: 0 <= i < |run| ==> run[i].now <= now
  }

  lemma {:induction false} HistoryFits(run: seq<Check>, key: string, now: real, l: Limits)
    requires Sound(l) && Until(run, now)
    ensures Fits(Accepted(run, key, l), Bucket(TableOf(run, l), key), now, l)
  {
    if run != [] {
      var before, last := run[..|run| - 1], run[|run| - 1];
      assert run == before + [last];
      HistoryFits(before, key, last.now, l);
      BucketAfter(before, last, key, l);
      StepFits(before, last, key, l);
      FitsLater(Accepted(run, key, l), Bucket(TableOf(run, l), key), last.now, now, l);
    }
  }

  lemma StepFits(before: seq<Check>, last: Check, key: string, l: Limits)
    requires Sound(l) && Fits(Accepted(before, key, l), Bucket(TableOf(before, l), key), last.now, l)
    ensures Fits(Accepted(before + [last], key, l), Bucket(TableOf(before + [last], l), key), last.now, l)
  {
    BucketAfter(before, last, key, l);
    AcceptedStep(before, last, key, l);
    if last.key == key {
      var acc := Accepted(before, key, l);
      RecentPruned(acc, Bucket(TableOf(before, l), key), last.now, l);
      if Accepts(before, last, l) {
        FitsAccepted(acc, BucketBefore(before, last, l), last.now, l);
      }
    }
  }

  lemma AcceptedStep(before: seq<Check>, last: Check, key: string, l: Limits)
    ensures Accepted(before + [last], key, l) ==
      if last.key == key && Accepts(before, last, l) then Accepted(before, key, l) + [last.now]
      else Accepted(before, key, l)
  {
    assert (before + [last])[..|before|] == before;
  }

  lemma FitsLater(acc: seq<real>, bucket: seq<real>, now: real, later: real, l: Limits)
    requires Sound(l) && Fits(acc, bucket, now, l) && now <= later
    ensures Fits(acc, bucket, later, l)
  {
  }

  // --- the bound ------------------------------------------------------------------------------

  /** How many of the first `n` times lie in the closed interval. */
  function CountIn(acc: seq<real>, lo: real, hi: real, n: nat): nat
    requires n <= |acc|
  {
    if n == 0 then 0 else CountIn(acc, lo, hi, n - 1) + (if lo <= acc[n - 1] <= hi then 1 else 0)
  }

  lemma {:induction false} CountGrowth(acc: seq<real>, lo: real, hi: real, m: nat, n: nat)
    requires m <= n <= |acc|
    ensures CountIn(acc, lo, hi, m) <= CountIn(acc, lo, hi, n) <= CountIn(acc, lo, hi, m) + (n - m)
    decreases n
  {
    if m < n { CountGrowth(acc, lo, hi, m, n - 1); }
  }

  lemma {:induction false} CountNone(acc: seq<real>, lo: real, hi: real, n: nat)
    requires n <= |acc| && forall i :: 0 <= i < n ==> acc[i] < lo
    ensures CountIn(acc, lo, hi, n) == 0
  {
    if n > 0 { CountNone(acc, lo, hi, n - 1); }
  }

  lemma {:induction false} SpacedCount(acc: seq<real>, lo: real, l: Limits, n: nat)
    requires Sound(l) && Spaced(acc, l) && n <= |acc|
    requires forall i, j :: 0 <= i < j < |acc| ==> acc[i] <= acc[j]
    ensures CountIn(acc, lo, lo + l.window, n) <= l.max
  {
    if n > 0 {
      SpacedCount(acc, lo, l, n - 1);
      if lo <= acc[n - 1] <= lo + l.window {
        var m := if n > l.max then n - l.max else 0;
        forall i | 0 <= i < m ensures acc[i] < lo {
          assert acc[n - 1] - acc[i] > l.window;
        }
        CountNone(acc, lo, lo + l.window, m);
        CountGrowth(acc, lo, lo + l.window, m, n);
      }
    }
  }

  /** The limit holds over every run: no closed interval as long as the window contains more
      than `max` accepted checks for one key. */
  lemma AtMostMaxPerWindow(run: seq<Check>, key: string, lo: real, l: Limits)
    requires Sound(l) && Ordered(run)
    ensures var acc := Accepted(run, key, l); CountIn(acc, lo, lo + l.window, |acc|) <= l.max
  {
    if run != [] {
      HistoryFits(run, key, run[|run| - 1].now, l);
      SpacedCount(Accepted(run, key, l), lo, l, |Accepted(run, key, l)|);
    }
  }

  // --- refusals ---------------------------------------------------------------------------------

  lemma {:induction false} CountAll(acc: seq<real>, lo: real, hi: real, m: nat, n: nat)
    requires m <= n <= |acc| && forall i :: m <= i < n ==> lo <= acc[i] <= hi
    ensures CountIn(acc, lo, hi, n) == CountIn(acc, lo, hi, m) + (n - m)
    decreases n
  {
    if m < n { CountAll(acc, lo, hi, m, n - 1); }
  }

  /** A check is refused exactly when the window ending at it is full. */
  lemma RefusedIffFull(run: seq<Check>, check: Check, l: Limits)
    requires Sound(l) && Until(run, check.now)
    ensures var acc := Accepted(run, check.key, l);
      !Accepts(run, check, l) <==> CountIn(acc, check.now - l.window, check.now, |acc|) >= l.max
  {
    var acc, bucket := Accepted(run, check.key, l), BucketBefore(run, check, l);
    HistoryFits(run, check.key, check.now, l);
    RecentPruned(acc, Bucket(TableOf(run, l), check.key), check.now, l);
    PrunedIsSuffix(Bucket(TableOf(run, l), check.key), check.now, l.window);
    InWindowIsBucket(acc, bucket, check.now, l);
  }

  lemma InWindowIsBucket(acc: seq<real>, bucket: seq<real>, now: real, l: Limits)
    requires Sorted(acc, now) && Recent(acc, bucket, now, l)
    requires bucket != [] ==> now - bucket[0] <= l.window
    ensures CountIn(acc, now - l.window, now, |acc|) == |bucket|
  {
    var n := |acc| - |bucket|;
    CountNone(acc, now - l.window, now, n);
    forall i | n <= i < |acc| ensures now - l.window <= acc[i] <= now {
      assert acc[n] == bucket[0];
    }
    CountAll(acc, now - l.window, now, n, |acc|);
  }

  function RetryAfter(run: seq<Check>, check: Check, l: Limits): int
    requires Sound(l) && !Accepts(run, check, l)
  {
    OutcomeOf(BucketBefore(run, check, l), check.now, l.max, l.window).retryAfter
  }

  /** No check for this key is let through during `mids`. */
  predicate NoneAccepted(run: seq<Check>, mids: seq<Check>, key: string, l: Limits) {
    forall i :: 0 <= i < |mids| && mids[i].key == key ==> !Accepts(run + mids[..i], mids[i], l)
  }

  lemma NoneAcceptedBefore(run: seq<Check>, mids: seq<Check>, n: nat, key: string, l: Limits)
    requires n <= |mids| && NoneAccepted(run, mids, key, l)
    ensures NoneAccepted(run, mids[..n], key, l)
  {
    var front := mids[..n];
    forall i | 0 <= i < n && front[i].key == key ensures !Accepts(run + front[..i], front[i], l) {
      assert front[..i] == mids[..i];
    }
  }

  /** Refusals leave a full bucket as it is. */
  lemma {:induction false} BucketWaits(run: seq<Check>, mids: seq<Check>, key: string, bucket: seq<real>, l: Limits)
    requires Sound(l) && |bucket| == l.max && Bucket(TableOf(run, l), key) == bucket
    requires NoneAccepted(run, mids, key, l)
    ensures Bucket(TableOf(run + mids, l), key) == bucket
  {
    if mids == [] {
      assert run + mids == run;
    } else {
      var front, last := mids[..|mids| - 1], mids[|mids| - 1];
      NoneAcceptedBefore(run, mids, |mids| - 1, key, l);
      BucketWaits(run, front, key, bucket, l);
      assert run + mids == (run + front) + [last];
      BucketAfter(run + front, last, key, l);
      if last.key == key {
        assert mids[..|mids| - 1] == front;
        PrunedIsSuffix(bucket, last.now, l.window);
      }
    }
  }

  /** Waiting the reported time is enough: when nothing was let through meanwhile, the next
      check for the key succeeds. */
  lemma RetryAfterWorks(run: seq<Check>, refused: Check, mids: seq<Check>, again: Check, l: Limits)
    requires Sound(l) && Until(run, refused.now) && !Accepts(run, refused, l)
    requires NoneAccepted(run + [refused], mids, refused.key, l)
    requires again.key == refused.key && again.now >= refused.now + RetryAfter(run, refused, l) as real
    ensures Accepts(run + [refused] + mids, again, l)
  {
    var bucket := BucketBefore(run, refused, l);
    HistoryFits(run, refused.key, refused.now, l);
    PrunedIsSuffix(Bucket(TableOf(run, l), refused.key), refused.now, l.window);
    BucketAfter(run, refused, refused.key, l);
    BucketWaits(run + [refused], mids, refused.key, bucket, l);
    assert again.now - bucket[0] > l.window;
    PrunedIsSuffix(bucket, again.now, l.window);
  }

  /** The reported time is exact to the second: a check after any other whole number of seconds,
      with nothing let through meanwhile, succeeds if and only if it is not shorter. */
  lemma RetryAfterExact(run: seq<Check>, refused: Check, mids: seq<Check>, again: Check, wait: int, l: Limits)
    requires Sound(l) && Until(run, refused.now) && !Accepts(run, refused, l)
    requires NoneAccepted(run + [refused], mids, refused.key, l)
    requires again.key == refused.key && again.now == refused.now + wait as real
    ensures Accepts(run + [refused] + mids, again, l) <==> wait >= RetryAfter(run, refused, l)
  {
    var bucket := BucketBefore(run, refused, l);
    HistoryFits(run, refused.key, refused.now, l);
    PrunedIsSuffix(Bucket(TableOf(run, l), refused.key), refused.now, l.window);
    BucketAfter(run, refused, refused.key, l);
    BucketWaits(run + [refused], mids, refused.key, bucket, l);
    PrunedIsSuffix(bucket, again.now, l.window);
  }
}
