/** The sliding-window rate limiter: a queue of accepted times for each key. */
module RateLimit {
  datatype Outcome = Allowed | Limited(retryAfter: int)

  type Table = map<string, seq<real>>

  function Bucket(table: Table, key: string): seq<real> {
    if key in table then table[key] else []
  }

  /** The times still inside the window, seen from `now`. */
  function Pruned(bucket: seq<real>, now: real, window: real): seq<real> {
    if bucket != [] && now - bucket[0] > window then Pruned(bucket[1..], now, window) else bucket
  }

  /** Above 1024 keys, the keys with nothing left are forgotten. */
  function Swept(table: Table): Table {
    if |table| > 1024 then map key | key in table && table[key] != [] :: table[key] else table
  }

  function OutcomeOf(bucket: seq<real>, now: real, max: int, window: real): Outcome
    requires max >= 1
  {
    if |bucket| >= max then Limited((window - (now - bucket[0])).Floor + 1) else Allowed
  }

  function TableAfter(table: Table, key: string, now: real, max: int, window: real): Table {
    var bucket := Pruned(Bucket(table, key), now, window);
    if |bucket| >= max then table[key := bucket] else Swept(table[key := bucket + [now]])
  }

  class RateLimiter {
    const maxEvents: int
    const window: real
    var events: Table

    constructor (maxEvents: int, window: real)
      requires maxEvents >= 1
      ensures this.maxEvents == maxEvents && this.window == window && events == map[]
    {
      this.maxEvents, this.window, events := maxEvents, window, map[];
    }

    /** Records an attempt, or refuses it with the seconds to wait. */
    method Check(key: string, now: real) returns (outcome: Outcome)
      requires maxEvents >= 1
      modifies this`events
      ensures events == TableAfter(old(events), key, now, maxEvents, window)
      ensures outcome == OutcomeOf(Pruned(Bucket(old(events), key), now, window), now, maxEvents, window)
    {
      var bucket := Bucket(events, key);
      while bucket != [] && now - bucket[0] > window
        invariant Pruned(bucket, now, window) == Pruned(Bucket(events, key), now, window)
        decreases |bucket|
      {
        bucket := bucket[1..];
      }
      if |bucket| >= maxEvents {
        events := events[key := bucket];
        return Limited((window - (now - bucket[0])).Floor + 1);
      }
      events := events[key := bucket + [now]];
      if |events| > 1024 {
        Sweep();
      }
      outcome := Allowed;
    }

    method Sweep()
      modifies this`events
      ensures events == map key | key in old(events) && old(events)[key] != [] :: old(events)[key]
    {
      var stale := set key | key in events && events[key] == [];
      while stale != {}
        invariant stale <= events.Keys
        invariant forall key :: key in stale <==> key in events && events[key] == []
        invariant events.Keys <= old(events).Keys
        invariant forall key :: key in old(events) && old(events)[key] != [] ==> key in events
        invariant forall key :: key in events ==> events[key] == old(events)[key]
        decreases stale
      {
        var key :| key in stale;
        events := events - {key};
        stale := stale - {key};
      }
    }

    method Reset(key: string)
      modifies this`events
      ensures events == old(events) - {key}
    {
      events := events - {key};
    }
  }
}
