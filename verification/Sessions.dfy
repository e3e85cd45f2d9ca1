/** Signed-in sessions: how long they last, and the credentials that go when they do. */
module Sessions {
  import opened Outcomes

  datatype Refusal = NotAuthenticated | Unknown | Expired | SecretCleared

  /** A password, overwritten in place before it is let go. */
  class SessionSecret {
    var buffer: array?<bv8>

    constructor (password: seq<bv8>)
      ensures buffer != null && fresh(buffer) && buffer[..] == password
    {
      var b := new bv8[|password|](i requires 0 <= i < |password| => password[i]);
      buffer := b;
    }

    method Reveal() returns (r: Result<seq<bv8>, Refusal>)
      ensures r == if buffer == null then Err(SecretCleared) else Ok(buffer[..])
    {
      if buffer == null { return Err(SecretCleared); }
      r := Ok(buffer[..]);
    }

    method Clear()
      modifies this, buffer
      ensures buffer == null
      ensures old(buffer) != null ==> forall i :: 0 <= i < old(buffer).Length ==> old(buffer)[i] == 0
    {
      var b := buffer;
      buffer := null;
      if b == null { return; }
      var i := 0;
      while i < b.Length
        invariant 0 <= i <= b.Length && buffer == null
        invariant forall k :: 0 <= k < i ==> b[k] == 0
        modifies b
      {
        b[i] := 0;
        i := i + 1;
      }
    }
  }

  datatype Session = Session(hardLimit: real, idle: real, lastSeen: real,
                             ccache: Option<string>, secret: SessionSecret?)

  function Min(a: real, b: real): real {
    if a < b then a else b
  }

  function ExpiresAt(s: Session): real {
    Min(s.hardLimit, s.lastSeen + s.idle)
  }

  predicate IsExpired(s: Session, now: real) {
    ExpiresAt(s) <= now
  }

  /** What a lookup answers, and what the store holds afterwards. */
  function Lookup(sessions: map<string, Session>, id: string, now: real): Result<Session, Refusal> {
    if id == "" then Err(NotAuthenticated)
    else if id !in sessions then Err(Unknown)
    else if IsExpired(sessions[id], now) then Err(Expired)
    else Ok(sessions[id])
  }

  /** The records after a lookup: the one found is marked as just used, an expired one goes. */
  function AfterLookup(sessions: map<string, Session>, id: string, now: real, touched: real): map<string, Session> {
    match Lookup(sessions, id, now)
    case Ok(s) => sessions[id := s.(lastSeen := touched)]
    case Err(Expired) => sessions - {id}
    case Err(_) => sessions
  }

  function AfterSweep(sessions: map<string, Session>, now: real): map<string, Session> {
    map id | id in sessions && !IsExpired(sessions[id], now) :: sessions[id]
  }

  ghost predicate Zeroed(b: array<bv8>)
    reads b
  {
    forall i :: 0 <= i < b.Length ==> b[i] == 0
  }

  predicate OneEach<T(==)>(table: map<string, T>) {
    forall a, b :: a in table && b in table && a != b ==> table[a] != table[b]
  }

  lemma OneMore<T>(table: map<string, T>, id: string, value: T)
    requires OneEach(table) && id !in table && value !in table.Values
    ensures OneEach(table[id := value])
  {
  }

  lemma OthersApart<T>(table: map<string, T>, id: string)
    requires OneEach(table) && id in table
    ensures forall other :: other in table && other != id ==> table[other] != table[id]
  {
  }

  class SessionStore {
    const idle: real
    var sessions: map<string, Session>
    // The ticket files present.
    var tickets: set<string>
    // Every id ever used, with the secret, the bytes behind it and the ticket it was given.
    ghost var used: set<string>
    ghost var issued: map<string, SessionSecret>
    ghost var bytesOf: map<string, array<bv8>>
    ghost var ticketOf: map<string, string>

    /** The secret of this session can be revealed no more, and its bytes are overwritten. */
    ghost predicate Wiped(id: string)
      reads this, issued.Values, bytesOf.Values
      requires id in issued && id in bytesOf
    {
      issued[id].buffer == null && Zeroed(bytesOf[id])
    }

    /** A secret can be revealed, and a ticket is there, exactly while the session it was given
        to is in the store; afterwards the secret's bytes are overwritten. */
    ghost predicate CredentialsMatch()
      reads this, issued.Values, bytesOf.Values
      requires issued.Keys == bytesOf.Keys
    {
      (forall id :: id in issued ==> if id in sessions then issued[id].buffer == bytesOf[id] else Wiped(id)) &&
      (forall id :: id in ticketOf ==> (ticketOf[id] in tickets <==> id in sessions))
    }

    /** A stored session has the secret and the ticket it was given, if any. */
    ghost predicate RecordFits(id: string)
      reads this
      requires id in sessions
    {
      var s := sessions[id];
      (s.secret != null <==> id in issued) && (id in issued ==> s.secret == issued[id]) &&
      (s.ccache.Some? <==> id in ticketOf) && (id in ticketOf ==> s.ccache == Some(ticketOf[id]))
    }

    /** No two sessions share a secret, its bytes or a ticket. */
    ghost predicate Apart()
      reads this
      requires issued.Keys == bytesOf.Keys
    {
      OneEach(issued) && OneEach(bytesOf) && OneEach(ticketOf)
    }

    ghost predicate Valid()
      reads this, issued.Values, bytesOf.Values
    {
      sessions.Keys <= used && issued.Keys == bytesOf.Keys <= used && ticketOf.Keys <= used && "" !in used &&
      (forall id :: id in sessions ==> RecordFits(id)) && Apart() && CredentialsMatch()
    }

    /** What dropping these sessions overwrites: their secrets and the bytes behind them. */
    ghost function Secrets(ids: set<string>): set<object>
      reads this
    {
      (set id | id in ids && id in issued :: issued[id] as object) +
      (set id | id in ids && id in bytesOf :: bytesOf[id] as object)
    }

    constructor (idle: real)
      ensures Valid() && this.idle == idle && sessions == map[] && used == {} && issued == map[]
    {
      this.idle := idle;
      sessions, tickets, used, issued, bytesOf, ticketOf := map[], {}, {}, map[], map[], map[];
    }

    /** The credentials given to a session about to be stored. */
    ghost predicate Fresh(id: string, ccache: Option<string>, secret: SessionSecret?)
      reads this, secret
    {
      id != "" && id !in used &&
      (secret != null ==> secret !in issued.Values && secret.buffer != null && secret.buffer !in bytesOf.Values) &&
      (ccache.Some? ==> ccache.value in tickets && ccache.value !in ticketOf.Values)
    }

    method Create(id: string, hardLimit: real, ccache: Option<string>, secret: SessionSecret?, now: real)
      requires Valid() && Fresh(id, ccache, secret)
      modifies this`sessions, this`used, this`issued, this`bytesOf, this`ticketOf
      ensures Valid() && used == old(used) + {id}
      ensures sessions == old(sessions)[id := Session(hardLimit, idle, now, ccache, secret)]
      ensures secret != null ==> issued == old(issued)[id := secret] && bytesOf == old(bytesOf)[id := secret.buffer]
      ensures secret == null ==> issued == old(issued) && bytesOf == old(bytesOf)
    {
      Issue(id, ccache, secret);
      sessions := sessions[id := Session(hardLimit, idle, now, ccache, secret)];
    }

    /** Notes what the session is given; its record follows. */
    ghost method Issue(id: string, ccache: Option<string>, secret: SessionSecret?)
      requires Valid() && Fresh(id, ccache, secret)
      modifies this`used, this`issued, this`bytesOf, this`ticketOf
      ensures used == old(used) + {id} && issued.Keys == bytesOf.Keys && Apart()
      ensures if secret != null then issued == old(issued)[id := secret] && bytesOf == old(bytesOf)[id := secret.buffer]
              else issued == old(issued) && bytesOf == old(bytesOf)
      ensures ticketOf == if ccache.Some? then old(ticketOf)[id := ccache.value] else old(ticketOf)
    {
      used := used + {id};
      if secret != null {
        OneMore(issued, id, secret);
        OneMore(bytesOf, id, secret.buffer);
        issued, bytesOf := issued[id := secret], bytesOf[id := secret.buffer];
      }
      if ccache.Some? {
        OneMore(ticketOf, id, ccache.value);
        ticketOf := ticketOf[id := ccache.value];
      }
    }

    /** Every way out of the store: the record goes, its ticket is destroyed, and its secret
        is overwritten and cleared. Nothing else changes. */
    method Drop(id: string)
      requires Valid()
      modifies this`sessions, this`tickets, Secrets({id})
      ensures Valid() && sessions == old(sessions) - {id}
      ensures tickets == if id in old(sessions) && id in ticketOf then old(tickets) - {ticketOf[id]} else old(tickets)
      ensures id in issued ==> Wiped(id)
    {
      if id !in sessions { return; }
      assert RecordFits(id);
      var session := sessions[id];
      sessions := sessions - {id};
      if session.ccache.Some? {
        tickets := tickets - {session.ccache.value};
      }
      if session.secret != null {
        Wipe(session.secret, id);
      }
    }

    /** Overwrites and clears one secret, and no other. */
    method Wipe(secret: SessionSecret, ghost id: string)
      requires issued.Keys == bytesOf.Keys && Apart() && id in issued
      requires issued[id] == secret && secret.buffer == bytesOf[id]
      modifies secret, secret.buffer
      ensures Wiped(id)
      ensures forall other :: other in issued && other != id ==>
        issued[other].buffer == old(issued[other].buffer) && (old(Wiped(other)) ==> Wiped(other))
    {
      OthersApart(issued, id);
      OthersApart(bytesOf, id);
      secret.Clear();
    }

    /** A request's session: refused when unknown or expired, otherwise marked as just used.
        An expired one is dropped on the way, its secret overwritten. */
    method Get(id: string, now: real, touched: real) returns (r: Result<Session, Refusal>)
      requires Valid() && now <= touched
      modifies this`sessions, this`tickets, Secrets({id})
      ensures Valid()
      ensures r.Ok? <==> Lookup(old(sessions), id, now).Ok?
      ensures r.Err? ==> Lookup(old(sessions), id, now) == Err(r.error)
      ensures r.Ok? ==> r.value == old(sessions)[id].(lastSeen := touched)
      ensures sessions == AfterLookup(old(sessions), id, now, touched)
      ensures r.Err? && id in issued ==> Wiped(id)
    {
      if id == "" { return Err(NotAuthenticated); }
      if id !in sessions { return Err(Unknown); }
      if IsExpired(sessions[id], now) {
        Drop(id);
        return Err(Expired);
      }
      sessions := sessions[id := sessions[id].(lastSeen := touched)];
      r := Ok(sessions[id]);
    }

    /** Drops what has expired, overwriting its secrets, and nothing that has not. */
    method Sweep(now: real) returns (count: nat)
      requires Valid()
      modifies this`sessions, this`tickets, Secrets(set id | id in sessions && IsExpired(sessions[id], now))
      ensures Valid() && sessions == AfterSweep(old(sessions), now)
      ensures count == |set id | id in old(sessions) && IsExpired(old(sessions)[id], now)|
      ensures forall id :: id in issued && id in old(sessions) && IsExpired(old(sessions)[id], now) ==> Wiped(id)
    {
      var stale := set id | id in sessions && IsExpired(sessions[id], now);
      count := |stale|;
      DropAll(stale);
    }

    method CloseAll()
      requires Valid()
      modifies this`sessions, this`tickets, Secrets(sessions.Keys)
      ensures Valid() && sessions == map[]
      ensures forall id :: id in issued ==> Wiped(id)
      ensures forall id :: id in ticketOf ==> ticketOf[id] !in tickets
    {
      DropAll(sessions.Keys);
    }

    method DropAll(ids: set<string>)
      requires Valid()
      modifies this`sessions, this`tickets, Secrets(ids)
      ensures Valid() && sessions == old(sessions) - ids
    {
      var rest := ids;
      while rest != {}
        invariant Valid() && rest <= ids && sessions == old(sessions) - (ids - rest)
        decreases rest
      {
        var id :| id in rest;
        Drop(id);
        rest := rest - {id};
      }
    }
  }
}
