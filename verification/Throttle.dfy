/** Counting failed sign-ins per account and per address. */
module Throttle {
  import opened Outcomes
  import opened Text

  datatype Entry = Entry(count: int, last: real)

  type Table = map<string, Entry>

  datatype Limits = Limits(maxAttempts: int, lockout: real)

  datatype Answer = Passed | Throttled(retryAfter: int)

  /** Zero for either setting turns throttling off. */
  predicate Enabled(l: Limits) {
    l.maxAttempts > 0 && l.lockout > 0.0
  }

  function Keys(username: string, ip: Option<string>): (keys: seq<string>)
    ensures |keys| > 0 && forall i, j :: 0 <= i < j < |keys| ==> keys[i] != keys[j]
  {
    var user := "user:" + Lower(username);
    if ip.Some? && ip.value != "" then
      assert user[0] != ("ip:" + ip.value)[0];
      [user, "ip:" + ip.value]
    else [user]
  }

  predicate Stale(entry: Entry, now: real, l: Limits) {
    now - entry.last > l.lockout
  }

  function Max(a: int, b: int): int {
    if a < b then b else a
  }

  /** Looking at the keys from `i` on: stale entries go, the first full one refuses. */
  function CheckFrom(table: Table, keys: seq<string>, i: nat, now: real, l: Limits): (Table, Answer)
    requires i <= |keys|
    decreases |keys| - i
  {
    if i == |keys| then (table, Passed)
    else if keys[i] !in table then CheckFrom(table, keys, i + 1, now, l)
    else
      var entry := table[keys[i]];
      if Stale(entry, now, l) then CheckFrom(table - {keys[i]}, keys, i + 1, now, l)
      else if entry.count >= l.maxAttempts then
        (table, Throttled(Max((l.lockout - (now - entry.last)).Floor, 1)))
      else CheckFrom(table, keys, i + 1, now, l)
  }

  /** One more failure; after a stale one the count starts over. */
  function Bumped(table: Table, key: string, now: real, l: Limits): Entry {
    var entry := if key in table then table[key] else Entry(0, now);
    Entry(if Stale(entry, now, l) then 1 else entry.count + 1, now)
  }

  function FailFrom(table: Table, keys: seq<string>, i: nat, now: real, l: Limits): Table
    requires i <= |keys|
    decreases |keys| - i
  {
    if i == |keys| then table
    else FailFrom(table[keys[i] := Bumped(table, keys[i], now, l)], keys, i + 1, now, l)
  }

  function KeySet(keys: seq<string>): set<string> {
    set k | k in keys
  }

  function AfterCheck(table: Table, keys: seq<string>, now: real, l: Limits): (Table, Answer) {
    if Enabled(l) then CheckFrom(table, keys, 0, now, l) else (table, Passed)
  }

  function AfterFailure(table: Table, keys: seq<string>, now: real, l: Limits): Table {
    if Enabled(l) then FailFrom(table, keys, 0, now, l) else table
  }

  class LoginThrottle {
    const limits: Limits
    var failures: Table

    constructor (limits: Limits)
      ensures this.limits == limits && failures == map[]
    {
      this.limits, failures := limits, map[];
    }

    method Check(username: string, ip: Option<string>, now: real) returns (answer: Answer)
      modifies this`failures
      ensures (failures, answer) == AfterCheck(old(failures), Keys(username, ip), now, limits)
    {
      if !Enabled(limits) { return Passed; }
      var keys, i := Keys(username, ip), 0;
      while i < |keys|
        invariant 0 <= i <= |keys|
        invariant CheckFrom(failures, keys, i, now, limits) == CheckFrom(old(failures), keys, 0, now, limits)
      {
        var key := keys[i];
        if key in failures {
          var entry := failures[key];
          if Stale(entry, now, limits) {
            failures := failures - {key};
          } else if entry.count >= limits.maxAttempts {
            return Throttled(Max((limits.lockout - (now - entry.last)).Floor, 1));
          }
        }
        i := i + 1;
      }
      answer := Passed;
    }

    method RecordFailure(username: string, ip: Option<string>, now: real)
      modifies this`failures
      ensures failures == AfterFailure(old(failures), Keys(username, ip), now, limits)
    {
      if !Enabled(limits) { return; }
      var keys, i := Keys(username, ip), 0;
      while i < |keys|
        invariant 0 <= i <= |keys|
        invariant FailFrom(failures, keys, i, now, limits) == FailFrom(old(failures), keys, 0, now, limits)
      {
        failures := failures[keys[i] := Bumped(failures, keys[i], now, limits)];
        i := i + 1;
      }
    }

    method RecordSuccess(username: string, ip: Option<string>)
      modifies this`failures
      ensures failures == old(failures) - KeySet(Keys(username, ip))
    {
      var keys, i := Keys(username, ip), 0;
      while i < |keys|
        invariant 0 <= i <= |keys|
        invariant failures == old(failures) - KeySet(keys[..i])
      {
        failures := failures - {keys[i]};
        assert keys[..i + 1] == keys[..i] + [keys[i]];
        i := i + 1;
      }
      assert keys[..i] == keys;
    }
  }
}
