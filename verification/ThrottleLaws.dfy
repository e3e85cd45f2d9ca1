/** What the sign-in throttle guarantees over every run of checks, failures and successes. */
module ThrottleLaws {
  import opened Outcomes
  import opened Text
  import opened Throttle

  datatype Event =
    | Check(username: string, ip: Option<string>, now: real)
    | Failure(username: string, ip: Option<string>, now: real)
    | Success(username: string, ip: Option<string>, now: real)

  function KeysOf(e: Event): seq<string> {
    Keys(e.username, e.ip)
  }

  function Next(table: Table, e: Event, l: Limits): Table {
    match e
    case Check(_, _, now) => AfterCheck(table, KeysOf(e), now, l).0
    case Failure(_, _, now) => AfterFailure(table, KeysOf(e), now, l)
    case Success(_, _, _) => table - KeySet(KeysOf(e))
  }

  function TableOf(run: seq<Event>, l: Limits): Table {
    if run == [] then map[] else Next(TableOf(run[..|run| - 1], l), run[|run| - 1], l)
  }

  /** The times of the failures under `key` since its last success. */
  function Since(run: seq<Event>, key: string): seq<real> {
    if run == [] then []
    else
      var before, e := Since(run[..|run| - 1], key), run[|run| - 1];
      if key !in KeysOf(e) then before
      else match e
        case Check(_, _, _) => before
        case Failure(_, _, now) => before + [now]
        case Success(_, _, _) => []
  }

  predicate Ordered(run: seq<Event>) {
    forall i, j :: 0 <= i < j < |run| ==> run[i].now <= run[j].now
  }

  /** The failure at `i` directly follows a check that passed, for the same account and address. */
  predicate Preceded(run: seq<Event>, i: nat, l: Limits)
    requires i < |run|
  {
    i > 0 && run[i - 1].Check? && run[i - 1].username == run[i].username && run[i - 1].ip == run[i].ip &&
    AfterCheck(TableOf(run[..i - 1], l), KeysOf(run[i - 1]), run[i - 1].now, l).1.Passed?
  }

  predicate Disciplined(run: seq<Event>, l: Limits) {
    forall i :: 0 <= i < |run| && run[i].Failure? ==> Preceded(run, i, l)
  }

  // --- single steps, key by key ------------------------------------------------------------

  /** A check changes an entry only by removing it when stale; one that passes leaves only
      entries that are neither stale nor full. */
  lemma {:induction false} CheckKey(table: Table, keys: seq<string>, i: nat, now: real, l: Limits, k: string)
    requires i <= |keys| && forall a, b :: 0 <= a < b < |keys| ==> keys[a] != keys[b]
    ensures var (t, answer) := CheckFrom(table, keys, i, now, l);
      && (k in t ==> k in table && t[k] == table[k])
      && (k in table && k !in t ==> Stale(table[k], now, l))
      && (answer.Passed? && k in keys[i..] && k in t ==> !Stale(t[k], now, l) && t[k].count < l.maxAttempts)
    decreases |keys| - i
  {
    if i < |keys| {
      var rest := if keys[i] in table && Stale(table[keys[i]], now, l) then table - {keys[i]} else table;
      CheckKey(rest, keys, i + 1, now, l, k);
      assert keys[i..] == [keys[i]] + keys[i + 1..];
    }
  }

  lemma {:induction false} FailKey(table: Table, keys: seq<string>, i: nat, now: real, l: Limits, k: string)
    requires i <= |keys| && forall a, b :: 0 <= a < b < |keys| ==> keys[a] != keys[b]
    ensures var t := FailFrom(table, keys, i, now, l);
      if k in keys[i..] then k in t && t[k] == Bumped(table, k, now, l)
      else (k in t <==> k in table) && (k in t ==> t[k] == table[k])
    decreases |keys| - i
  {
    if i < |keys| {
      var next := table[keys[i] := Bumped(table, keys[i], now, l)];
      FailKey(next, keys, i + 1, now, l, k);
      assert keys[i..] == [keys[i]] + keys[i + 1..];
    }
  }

  // --- the invariant for one key --------------------------------------------------------------

  /** A break longer than the lockout between the failures at `j - 1` and `j`. */
  predicate GapAt(hist: seq<real>, j: nat, l: Limits)
    requires 0 < j < |hist|
  {
    hist[j] - hist[j - 1] > l.lockout
  }

  /** Among any `maxAttempts + 1` consecutive failures there is a break. */
  predicate Gapped(hist: seq<real>, l: Limits) {
    forall i :: 0 <= i < |hist| - l.maxAttempts ==> GapWithin(hist, i, l)
  }

  predicate GapWithin(hist: seq<real>, i: nat, l: Limits)
    requires i < |hist| - l.maxAttempts
  {
    exists j :: i < j <= i + l.maxAttempts && GapAt(hist, j, l)
  }

  /** The entry counts the failures since the last break, and is missing only when there
      were none or the last is longer ago than the lockout. */
  predicate EntryFits(table: Table, k: string, hist: seq<real>, now: real, l: Limits) {
    (forall i :: 0 <= i < |hist| ==> hist[i] <= now) &&
    if k in table then
      var n, c := |hist|, table[k].count;
      n > 0 && table[k].last == hist[n - 1] && 1 <= c <= l.maxAttempts && c <= n &&
      (c < n ==> GapAt(hist, n - c, l))
    else
      hist == [] || now - hist[|hist| - 1] > l.lockout
  }

  predicate KeyFits(table: Table, k: string, hist: seq<real>, now: real, l: Limits) {
    EntryFits(table, k, hist, now, l) && Gapped(hist, l)
  }

  lemma AddFailure(table: Table, k: string, hist: seq<real>, checked: real, now: real, l: Limits)
    requires Enabled(l) && KeyFits(table, k, hist, checked, l) && checked <= now
    requires k in table && !Stale(table[k], now, l) ==> table[k].count < l.maxAttempts
    ensures KeyFits(table[k := Bumped(table, k, now, l)], k, hist + [now], now, l)
  {
    var more, c := hist + [now], Bumped(table, k, now, l).count;
    var n := |more|;
    forall j | 0 < j < |hist| && GapAt(hist, j, l) ensures GapAt(more, j, l) {
      assert more[j] == hist[j] && more[j - 1] == hist[j - 1];
    }
    LastBreak(table, k, hist, checked, now, l);
    forall i | 0 <= i < n - l.maxAttempts ensures GapWithin(more, i, l) {
      if i < |hist| - l.maxAttempts {
        assert GapWithin(hist, i, l);
        var j :| i < j <= i + l.maxAttempts && GapAt(hist, j, l);
        assert GapAt(more, j, l);
      } else {
        assert GapAt(more, n - c, l);
      }
    }
  }

  /** After one more failure the count still reaches back to the last break. */
  lemma LastBreak(table: Table, k: string, hist: seq<real>, checked: real, now: real, l: Limits)
    requires Enabled(l) && EntryFits(table, k, hist, checked, l) && checked <= now
    requires k in table && !Stale(table[k], now, l) ==> table[k].count < l.maxAttempts
    ensures EntryFits(table[k := Bumped(table, k, now, l)], k, hist + [now], now, l)
  {
    var more, c := hist + [now], Bumped(table, k, now, l).count;
    if k in table && !Stale(table[k], now, l) && c < |more| {
      assert GapAt(hist, |hist| - table[k].count, l);
      assert more[|more| - c] == hist[|hist| - table[k].count];
      assert more[|more| - c - 1] == hist[|hist| - table[k].count - 1];
    }
  }

  // --- every run -------------------------------------------------------------------------------

  lemma FitsLater(table: Table, k: string, hist: seq<real>, now: real, later: real, l: Limits)
    requires KeyFits(table, k, hist, now, l) && now <= later
    ensures KeyFits(table, k, hist, later, l)
  {
  }

  lemma CheckStep(table: Table, keys: seq<string>, k: string, hist: seq<real>, now: real, l: Limits)
    requires Enabled(l) && KeyFits(table, k, hist, now, l)
    requires forall a, b :: 0 <= a < b < |keys| ==> keys[a] != keys[b]
    ensures KeyFits(AfterCheck(table, keys, now, l).0, k, hist, now, l)
  {
    CheckKey(table, keys, 0, now, l, k);
  }

  lemma FailureStep(table: Table, keys: seq<string>, k: string, hist: seq<real>, checked: real, now: real, l: Limits)
    requires Enabled(l) && KeyFits(table, k, hist, checked, l) && checked <= now
    requires k in keys && k in table && !Stale(table[k], now, l) ==> table[k].count < l.maxAttempts
    requires forall a, b :: 0 <= a < b < |keys| ==> keys[a] != keys[b]
    ensures KeyFits(AfterFailure(table, keys, now, l), k, if k in keys then hist + [now] else hist, now, l)
  {
    FailKey(table, keys, 0, now, l, k);
    assert keys[0..] == keys;
    if k in keys {
      AddFailure(table, k, hist, checked, now, l);
    } else {
      FitsLater(table, k, hist, checked, now, l);
    }
  }

  /** At this point of the run a check for the same account and address would pass. */
  predicate WouldPass(run: seq<Event>, i: nat, l: Limits)
    requires i < |run|
  {
    AfterCheck(TableOf(run[..i], l), KeysOf(run[i]), run[i].now, l).1.Passed?
  }

  predicate FailuresPass(run: seq<Event>, l: Limits) {
    forall i :: 0 <= i < |run| && run[i].Failure? ==> WouldPass(run, i, l)
  }

  lemma PassedNotFull(table: Table, keys: seq<string>, k: string, now: real, l: Limits)
    requires Enabled(l) && AfterCheck(table, keys, now, l).1.Passed?
    requires forall a, b :: 0 <= a < b < |keys| ==> keys[a] != keys[b]
    ensures k in keys && k in table && !Stale(table[k], now, l) ==> table[k].count < l.maxAttempts
  {
    CheckKey(table, keys, 0, now, l, k);
    assert keys[0..] == keys;
  }

  lemma PrefixPasses(run: seq<Event>, l: Limits)
    requires run != []
    ensures FailuresPass(run, l) <==>
      FailuresPass(run[..|run| - 1], l) && (run[|run| - 1].Failure? ==> WouldPass(run, |run| - 1, l))
  {
    var before := run[..|run| - 1];
    forall i | 0 <= i < |before| ensures before[i] == run[i] && (WouldPass(before, i, l) <==> WouldPass(run, i, l)) {
      assert before[..i] == run[..i];
    }
  }

  function LastTime(run: seq<Event>): real {
    if run == [] then 0.0 else run[|run| - 1].now
  }

  lemma {:induction false} RunFits(run: seq<Event>, k: string, l: Limits)
    requires Enabled(l) && Ordered(run) && FailuresPass(run, l)
    ensures KeyFits(TableOf(run, l), k, Since(run, k), LastTime(run), l)
  {
    if run != [] {
      var n := |run| - 1;
      var before, e := run[..n], run[n];
      PrefixPasses(run, l);
      assert Ordered(before) by { assert forall i :: 0 <= i < n ==> before[i] == run[i]; }
      RunFits(before, k, l);
      var table, hist := TableOf(before, l), Since(before, k);
      if before != [] { FitsLater(table, k, hist, LastTime(before), e.now, l); }
      match e
      case Check(_, _, now) => CheckStep(table, KeysOf(e), k, hist, now, l);
      case Success(_, _, _) =>
      case Failure(_, _, now) =>
        assert WouldPass(run, n, l);
        PassedNotFull(table, KeysOf(e), k, now, l);
        FailureStep(table, KeysOf(e), k, hist, now, now, l);
    }
  }

  /** When every failure is recorded at a moment when a check would still pass, any
      `maxAttempts + 1` consecutive failures under one key, with no success between them,
      contain a break longer than the lockout. */
  lemma FailuresAreSpread(run: seq<Event>, k: string, i: nat, l: Limits)
    requires Enabled(l) && Ordered(run) && FailuresPass(run, l)
    requires i + l.maxAttempts < |Since(run, k)|
    ensures var hist := Since(run, k);
      exists j :: i < j <= i + l.maxAttempts && hist[j] - hist[j - 1] > l.lockout
  {
    RunFits(run, k, l);
    var hist := Since(run, k);
    assert GapWithin(hist, i, l);
    var j :| i < j <= i + l.maxAttempts && GapAt(hist, j, l);
    assert hist[j] - hist[j - 1] > l.lockout;
  }

  /** Directly after a check that passed another one would pass, so it is enough that each
      failure follows one for the same account and address. */
  lemma DisciplinedPasses(run: seq<Event>, l: Limits)
    requires Enabled(l) && Ordered(run) && Disciplined(run, l)
    ensures FailuresPass(run, l)
  {
    forall i | 0 <= i < |run| && run[i].Failure? ensures WouldPass(run, i, l) {
      assert Preceded(run, i, l);
      var table, keys := TableOf(run[..i - 1], l), KeysOf(run[i]);
      assert run[..i][..i - 1] == run[..i - 1] && run[..i][i - 1] == run[i - 1];
      PassesAgain(table, keys, run[i - 1].now, run[i].now, l);
    }
  }

  lemma PassesAgain(table: Table, keys: seq<string>, now: real, later: real, l: Limits)
    requires Enabled(l) && forall a, b :: 0 <= a < b < |keys| ==> keys[a] != keys[b]
    requires AfterCheck(table, keys, now, l).1.Passed?
    ensures AfterCheck(AfterCheck(table, keys, now, l).0, keys, later, l).1.Passed?
  {
    var checked := AfterCheck(table, keys, now, l).0;
    if AfterCheck(checked, keys, later, l).1.Throttled? {
      RefusedByFull(checked, keys, 0, later, l);
      var j :| 0 <= j < |keys| && Full(checked, keys[j], later, l);
      CheckKey(table, keys, 0, now, l, keys[j]);
    }
  }

  /** The throttle holds over every run in which each failure follows a passing check: every
      counter is at least one and at most the limit. */
  lemma CountersBounded(run: seq<Event>, k: string, l: Limits)
    requires Enabled(l) && Ordered(run) && Disciplined(run, l)
    ensures var t := TableOf(run, l); k in t ==> 1 <= t[k].count <= l.maxAttempts
  {
    DisciplinedPasses(run, l);
    RunFits(run, k, l);
  }

  // --- exactly when the bound holds ------------------------------------------------------------

  predicate Bounded(table: Table, l: Limits) {
    forall k :: k in table ==> table[k].count <= l.maxAttempts
  }

  predicate Full(table: Table, k: string, now: real, l: Limits) {
    k in table && !Stale(table[k], now, l) && table[k].count >= l.maxAttempts
  }

  lemma {:induction false} RefusedByFull(table: Table, keys: seq<string>, i: nat, now: real, l: Limits)
    requires i <= |keys| && forall a, b :: 0 <= a < b < |keys| ==> keys[a] != keys[b]
    requires CheckFrom(table, keys, i, now, l).1.Throttled?
    ensures exists j :: i <= j < |keys| && Full(table, keys[j], now, l)
    decreases |keys| - i
  {
    if keys[i] in table && !Stale(table[keys[i]], now, l) && table[keys[i]].count >= l.maxAttempts {
      assert Full(table, keys[i], now, l);
    } else {
      var rest := if keys[i] in table && Stale(table[keys[i]], now, l) then table - {keys[i]} else table;
      RefusedByFull(rest, keys, i + 1, now, l);
      var j :| i + 1 <= j < |keys| && Full(rest, keys[j], now, l);
      assert Full(table, keys[j], now, l);
    }
  }

  /** A failure recorded now keeps every counter within the limit if and only if a check made
      now would pass. */
  lemma FailureBoundedIff(table: Table, keys: seq<string>, now: real, l: Limits)
    requires Enabled(l) && Bounded(table, l) && forall a, b :: 0 <= a < b < |keys| ==> keys[a] != keys[b]
    ensures Bounded(AfterFailure(table, keys, now, l), l) <==> AfterCheck(table, keys, now, l).1.Passed?
  {
    assert keys[0..] == keys;
    if AfterCheck(table, keys, now, l).1.Passed? {
      forall k | k in AfterFailure(table, keys, now, l)
        ensures AfterFailure(table, keys, now, l)[k].count <= l.maxAttempts {
        FailKey(table, keys, 0, now, l, k);
        CheckKey(table, keys, 0, now, l, k);
      }
    } else {
      RefusedByFull(table, keys, 0, now, l);
      var j :| 0 <= j < |keys| && Full(table, keys[j], now, l);
      FailKey(table, keys, 0, now, l, keys[j]);
    }
  }

  predicate AlwaysBounded(run: seq<Event>, l: Limits) {
    forall n :: 0 <= n <= |run| ==> Bounded(TableOf(run[..n], l), l)
  }

  lemma PrefixBounded(run: seq<Event>, l: Limits)
    requires run != []
    ensures AlwaysBounded(run, l) <==> AlwaysBounded(run[..|run| - 1], l) && Bounded(TableOf(run, l), l)
  {
    var before := run[..|run| - 1];
    assert run[..|run|] == run;
    forall n | 0 <= n <= |before| ensures before[..n] == run[..n] {}
    if AlwaysBounded(run, l) {
      forall n | 0 <= n <= |before| ensures Bounded(TableOf(before[..n], l), l) {
        assert before[..n] == run[..n];
      }
    }
    if AlwaysBounded(before, l) && Bounded(TableOf(run, l), l) {
      forall n | 0 <= n <= |run| ensures Bounded(TableOf(run[..n], l), l) {
        assert n <= |before| ==> before[..n] == run[..n];
      }
    }
  }

  lemma StepBounded(table: Table, e: Event, l: Limits)
    requires Enabled(l) && Bounded(table, l) && !e.Failure?
    ensures Bounded(Next(table, e, l), l)
  {
    if e.Check? {
      forall k | k in Next(table, e, l) ensures Next(table, e, l)[k].count <= l.maxAttempts {
        CheckKey(table, KeysOf(e), 0, e.now, l, k);
      }
    }
  }

  /** Over whole runs, in any order of checks and outcomes: no counter ever exceeds the limit
      if and only if every failure is recorded at a moment when a check would still pass. */
  lemma {:induction false} BoundedIff(run: seq<Event>, l: Limits)
    requires Enabled(l)
    ensures AlwaysBounded(run, l) <==> FailuresPass(run, l)
  {
    if run != [] {
      var n := |run| - 1;
      BoundedIff(run[..n], l);
      PrefixPasses(run, l);
      PrefixBounded(run, l);
      if AlwaysBounded(run[..n], l) {
        assert run[..n][..n] == run[..n];
        var table := TableOf(run[..n], l);
        assert TableOf(run, l) == Next(table, run[n], l);
        if run[n].Failure? {
          FailureBoundedIff(table, KeysOf(run[n]), run[n].now, l);
        } else {
          StepBounded(table, run[n], l);
        }
      }
    }
  }

  // --- checks whose outcome is still to come -----------------------------------------------------

  /** Checks that passed under `k` and have had no outcome yet: each failure or success is the
      outcome of one of them. */
  function Outstanding(run: seq<Event>, k: string, l: Limits): int {
    if run == [] then 0
    else
      var n := |run| - 1;
      var before, e := Outstanding(run[..n], k, l), run[n];
      if k !in KeysOf(e) then before
      else if e.Check? then (if WouldPass(run, n, l) then before + 1 else before)
      else before - 1
  }

  /** Every outcome has a passed check before it, and at most `p` are ever waited for. */
  predicate AtMostOutstanding(run: seq<Event>, k: string, p: nat, l: Limits) {
    forall n :: 0 <= n <= |run| ==> 0 <= Outstanding(run[..n], k, l) <= p
  }

  predicate Room(table: Table, k: string, waiting: int, p: nat, l: Limits) {
    k in table ==> table[k].count < l.maxAttempts || table[k].count + waiting <= l.maxAttempts + p - 1
  }

  lemma RoomKept(table: Table, e: Event, k: string, waiting: int, p: nat, l: Limits)
    requires Enabled(l) && Room(table, k, waiting, p, l) && 0 <= waiting <= p
    requires k in KeysOf(e) && !e.Check? ==> waiting >= 1
    ensures var passed := AfterCheck(table, KeysOf(e), e.now, l).1.Passed?;
      var next := if k !in KeysOf(e) || (e.Check? && !passed) then waiting
                  else if e.Check? then waiting + 1 else waiting - 1;
      Room(Next(table, e, l), k, next, p, l)
  {
    var keys := KeysOf(e);
    assert keys[0..] == keys;
    match e
    case Check(_, _, now) => CheckKey(table, keys, 0, now, l, k);
    case Failure(_, _, now) => FailKey(table, keys, 0, now, l, k);
    case Success(_, _, _) =>
  }

  lemma {:induction false} RunHasRoom(run: seq<Event>, k: string, p: nat, l: Limits)
    requires Enabled(l) && AtMostOutstanding(run, k, p, l)
    ensures Room(TableOf(run, l), k, Outstanding(run, k, l), p, l)
  {
    if run != [] {
      var n := |run| - 1;
      var before := run[..n];
      forall m | 0 <= m <= n ensures 0 <= Outstanding(before[..m], k, l) <= p {
        assert before[..m] == run[..m];
      }
      RunHasRoom(before, k, p, l);
      assert run[..|run|] == run && before[..n] == before;
      RoomKept(TableOf(before, l), run[n], k, Outstanding(before, k, l), p, l);
    }
  }

  /** However checks and outcomes interleave, with at most `p` passed checks waiting for their
      outcome under a key at any time, its counter never exceeds the limit by more than `p - 1`. */
  lemma OutstandingBounds(run: seq<Event>, k: string, p: nat, l: Limits)
    requires Enabled(l) && p >= 1 && AtMostOutstanding(run, k, p, l)
    ensures var t := TableOf(run, l); k in t ==> t[k].count <= l.maxAttempts + p - 1
  {
    RunHasRoom(run, k, p, l);
    assert run[..|run|] == run;
  }

  /** The discipline matters: two checks that both pass before either failure is recorded
      can take a counter past the limit. */
  lemma TwoChecksAtOnce(username: string)
    ensures var l, keys := Limits(1, 60.0), Keys(username, None);
      && AfterCheck(map[], keys, 0.0, l) == (map[], Passed)
      && var twice := AfterFailure(AfterFailure(map[], keys, 1.0, l), keys, 2.0, l);
         keys[0] in twice && twice[keys[0]].count > l.maxAttempts
  {
    var l, keys := Limits(1, 60.0), Keys(username, None);
    assert |keys| == 1 && Enabled(l);
    assert CheckFrom(map[], keys, 1, 0.0, l) == (map[], Passed);
    var once := FailFrom(map[], keys, 0, 1.0, l);
    FailKey(map[], keys, 0, 1.0, l, keys[0]);
    FailKey(once, keys, 0, 2.0, l, keys[0]);
    assert keys[0] in keys[0..];
    assert once[keys[0]] == Entry(1, 1.0);
  }

  // --- what is counted together, and what a caller is told ---------------------------------------

  /** Two sign-ins are counted together exactly when their accounts differ in case only, or they
      come from the same address, if any is known. */
  lemma KeysShared(username: string, ip: Option<string>, other: string, otherIp: Option<string>)
    ensures (exists k :: k in Keys(username, ip) && k in Keys(other, otherIp)) <==>
      Lower(username) == Lower(other) || (ip == otherIp && ip != None && ip != Some(""))
  {
    var user, otherUser := "user:" + Lower(username), "user:" + Lower(other);
    assert user in Keys(username, ip) && otherUser in Keys(other, otherIp);
    if exists k :: k in Keys(username, ip) && k in Keys(other, otherIp) {
      var k :| k in Keys(username, ip) && k in Keys(other, otherIp);
      if k == user {
        assert k[0] == 'u';
        SameRest("user:", Lower(username), Lower(other));
      } else {
        assert k == "ip:" + ip.value && k[0] == 'i';
        SameRest("ip:", ip.value, otherIp.value);
      }
    } else if ip == otherIp && ip != None && ip != Some("") {
      assert "ip:" + ip.value in Keys(username, ip) && "ip:" + ip.value in Keys(other, otherIp);
    }
  }

  /** Every failure counts for the account and, if it is known, the address. */
  lemma KeysAre(username: string, ip: Option<string>, key: string)
    ensures key in Keys(username, ip) <==>
      key == "user:" + Lower(username) || (ip != None && ip != Some("") && key == "ip:" + ip.value)
  {
  }

  /** Either setting at zero or below turns everything off. */
  lemma OffIsOff(table: Table, keys: seq<string>, now: real, l: Limits)
    requires l.maxAttempts <= 0 || l.lockout <= 0.0
    ensures AfterCheck(table, keys, now, l) == (table, Passed) && AfterFailure(table, keys, now, l) == table
  {
  }

  /** A key stops a sign-in: it has as many failures as allowed, the last one no longer ago than
      the lockout lasts. */
  predicate Stops(table: Table, k: string, now: real, l: Limits) {
    k in table && table[k].count >= l.maxAttempts && now - table[k].last <= l.lockout
  }

  /** A check is refused exactly when a key of the sign-in stops it, ... */
  lemma RefusedIffStopped(table: Table, username: string, ip: Option<string>, now: real, l: Limits)
    requires l.maxAttempts > 0 && l.lockout > 0.0
    ensures AfterCheck(table, Keys(username, ip), now, l).1.Throttled? <==>
      exists k :: k in Keys(username, ip) && Stops(table, k, now, l)
  {
    var keys := Keys(username, ip);
    assert keys[0..] == keys;
    if AfterCheck(table, keys, now, l).1.Throttled? {
      RefusedByFull(table, keys, 0, now, l);
      var j :| 0 <= j < |keys| && Full(table, keys[j], now, l);
      assert Stops(table, keys[j], now, l);
    } else {
      forall k | k in keys ensures !Stops(table, k, now, l) { CheckKey(table, keys, 0, now, l, k); }
    }
  }

  /** The seconds reported for a key: at least one, and beyond that the last whole second at
      which it still stops a sign-in. */
  predicate IsWait(table: Table, k: string, now: real, seconds: int, l: Limits) {
    k in table && seconds >= 1 &&
    !Stops(table, k, now + (seconds + 1) as real, l) &&
    (seconds > 1 ==> Stops(table, k, now + seconds as real, l))
  }

  /** The key at `j` is the first from `i` on to stop the sign-in, and these are its seconds. */
  predicate ToldAt(table: Table, keys: seq<string>, i: nat, j: nat, now: real, seconds: int, l: Limits) {
    && i <= j < |keys|
    && Stops(table, keys[j], now, l)
    && IsWait(table, keys[j], now, seconds, l)
    && forall k :: i <= k < j ==> !Stops(table, keys[k], now, l)
  }

  /** ... and the seconds it is told are those of the first key that does. */
  lemma {:induction false} WaitIsTold(table: Table, keys: seq<string>, i: nat, now: real, l: Limits)
    requires i <= |keys| && forall a, b :: 0 <= a < b < |keys| ==> keys[a] != keys[b]
    requires CheckFrom(table, keys, i, now, l).1.Throttled?
    ensures exists j: nat :: ToldAt(table, keys, i, j, now, CheckFrom(table, keys, i, now, l).1.retryAfter, l)
    decreases |keys| - i
  {
    if Stops(table, keys[i], now, l) {
      assert ToldAt(table, keys, i, i, now, CheckFrom(table, keys, i, now, l).1.retryAfter, l);
    } else {
      var rest := if keys[i] in table && Stale(table[keys[i]], now, l) then table - {keys[i]} else table;
      WaitIsTold(rest, keys, i + 1, now, l);
      var j: nat :| ToldAt(rest, keys, i + 1, j, now, CheckFrom(rest, keys, i + 1, now, l).1.retryAfter, l);
      forall k | i <= k < j ensures !Stops(table, keys[k], now, l) {
        assert k > i ==> keys[k] != keys[i] && !Stops(rest, keys[k], now, l);
      }
      assert keys[j] != keys[i];
      assert ToldAt(table, keys, i, j, now, CheckFrom(table, keys, i, now, l).1.retryAfter, l);
    }
  }
}
