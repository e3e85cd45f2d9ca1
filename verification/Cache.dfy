/** The bounded cache with expiry, beside the unbounded map it stands in for. */
module Cache {
  import opened Outcomes

  datatype Entry<T> = Entry(expiresAt: real, value: T)

  /** What a map that never evicts would answer. */
  function Live<T>(table: map<string, Entry<T>>, key: string, now: real): Option<T> {
    if key in table && table[key].expiresAt >= now then Some(table[key].value) else None
  }

  predicate EarliestIn<T>(table: map<string, Entry<T>>, key: string) {
    key in table && forall other :: other in table ==> table[key].expiresAt <= table[other].expiresAt
  }

  class TTLCache<T> {
    const ttl: real
    const maxEntries: int
    var data: map<string, Entry<T>>
    // The same calls applied to a map that never evicts, the keys evicted since they were
    // last set, and the latest time seen.
    ghost var unbounded: map<string, Entry<T>>
    ghost var evicted: set<string>
    ghost var clock: real

    /** Everything held is what the unbounded map holds, and what it holds and this does not
        has expired or was evicted. */
    ghost predicate Valid()
      reads this
    {
      maxEntries >= 1 && |data| <= maxEntries &&
      (forall key :: key in data ==> key in unbounded && data[key] == unbounded[key]) &&
      (forall key :: key in unbounded ==> key in data || key in evicted || unbounded[key].expiresAt < clock) &&
      (forall key :: key in evicted ==> key in unbounded && key !in data)
    }

    constructor (ttl: real, maxEntries: int)
      requires maxEntries >= 1
      ensures Valid() && this.ttl == ttl && this.maxEntries == maxEntries
      ensures data == map[] && unbounded == map[] && evicted == {}
    {
      this.ttl, this.maxEntries := ttl, maxEntries;
      data, unbounded, evicted, clock := map[], map[], {}, 0.0;
    }

    /** Whatever is answered is what the unbounded map would answer now; a live entry is
        missed only when it was evicted. */
    method Get(key: string, now: real) returns (r: Option<T>)
      requires Valid() && now >= clock
      modifies this
      ensures Valid() && unbounded == old(unbounded) && evicted == old(evicted) && clock == now
      ensures r.Some? ==> r == Live(unbounded, key, now)
      ensures r.None? ==> Live(unbounded, key, now).None? || key in evicted
      ensures data == if key in old(data) && old(data)[key].expiresAt < now then old(data) - {key} else old(data)
    {
      clock := now;
      if key !in data { return None; }
      var entry := data[key];
      if entry.expiresAt < now {
        Shrinks(data, key);
        data := data - {key};
        return None;
      }
      r := Some(entry.value);
    }

    /** Storing under a key; a full cache first gives up an entry that expires soonest. */
    method Set(key: string, value: T, lifetime: Option<real>, now: real)
      requires Valid() && now >= clock
      modifies this
      ensures Valid() && clock == now && key in data
      ensures unbounded == old(unbounded)[key := Entry(now + (if lifetime.Some? then lifetime.value else ttl), value)]
      ensures |old(data)| < maxEntries ==> data == old(data)[key := unbounded[key]]
      ensures |old(data)| >= maxEntries ==>
        exists victim :: EarliestIn(old(data), victim) && data == (old(data) - {victim})[key := unbounded[key]]
    {
      clock := now;
      if |data| >= maxEntries {
        Evict();
      }
      var entry := Entry(now + (if lifetime.Some? then lifetime.value else ttl), value);
      Grows(data, key, entry);
      data := data[key := entry];
      unbounded := unbounded[key := entry];
      evicted := evicted - {key};
    }

    method Evict()
      requires Valid() && data != map[]
      modifies this`data, this`evicted
      ensures Valid() && |data| == |old(data)| - 1
      ensures exists victim :: EarliestIn(old(data), victim) && data == old(data) - {victim}
    {
      var victim := Oldest();
      Shrinks(data, victim);
      data := data - {victim};
      evicted := evicted + {victim};
    }

    method Oldest() returns (victim: string)
      requires data != map[]
      ensures EarliestIn(data, victim)
    {
      var rest := data.Keys;
      assert rest == {} ==> data == map[];
      victim :| victim in rest;
      rest := rest - {victim};
      while rest != {}
        invariant rest <= data.Keys && victim in data
        invariant forall key :: key in data && key !in rest ==> data[victim].expiresAt <= data[key].expiresAt
        decreases rest
      {
        var key :| key in rest;
        if data[key].expiresAt < data[victim].expiresAt { victim := key; }
        rest := rest - {key};
      }
    }

    method Invalidate(key: string)
      requires Valid()
      modifies this
      ensures Valid() && clock == old(clock)
      ensures data == old(data) - {key} && unbounded == old(unbounded) - {key}
    {
      if key in data { Shrinks(data, key); }
      data := data - {key};
      unbounded := unbounded - {key};
      evicted := evicted - {key};
    }

    method InvalidatePrefix(prefix: string)
      requires Valid()
      modifies this
      ensures Valid() && clock == old(clock)
      ensures data == map key | key in old(data) && !(prefix <= key) :: old(data)[key]
      ensures unbounded == map key | key in old(unbounded) && !(prefix <= key) :: old(unbounded)[key]
    {
      var doomed := set key | key in data && prefix <= key;
      DropKeys(doomed);
      unbounded := map key | key in unbounded && !(prefix <= key) :: unbounded[key];
      evicted := set key | key in evicted && !(prefix <= key);
    }

    method DropKeys(keys: set<string>)
      requires keys <= data.Keys
      modifies this`data
      ensures data == old(data) - keys && |data| <= |old(data)|
    {
      var rest, gone := keys, {};
      while rest != {}
        invariant gone + rest == keys && data == old(data) - gone
        decreases rest
      {
        var key :| key in rest;
        data := data - {key};
        rest, gone := rest - {key}, gone + {key};
      }
      FewerKeys(data, old(data));
    }

    method Clear()
      requires Valid()
      modifies this
      ensures Valid() && data == map[] && unbounded == map[]
    {
      data, unbounded, evicted := map[], map[], {};
    }
  }

  lemma Shrinks<T>(table: map<string, Entry<T>>, key: string)
    requires key in table
    ensures |table - {key}| == |table| - 1
  {
    assert (table - {key}).Keys == table.Keys - {key};
  }

  lemma FewerKeys<T>(small: map<string, Entry<T>>, large: map<string, Entry<T>>)
    requires small.Keys <= large.Keys
    ensures |small| <= |large|
  {
    assert large.Keys == small.Keys + (large.Keys - small.Keys);
  }

  lemma Grows<T>(table: map<string, Entry<T>>, key: string, entry: Entry<T>)
    ensures |table[key := entry]| == if key in table then |table| else |table| + 1
  {
    assert table[key := entry].Keys == table.Keys + {key};
  }
}
