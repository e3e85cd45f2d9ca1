/** The lifetime of a session over whole runs of the store. */
module SessionLaws {
  import opened Outcomes
  import opened Sessions

  datatype Event =
    | Create(id: string, hardLimit: real, ccache: Option<string>, secret: SessionSecret?, now: real)
    | Get(id: string, now: real, touched: real)
    | Drop(id: string)
    | Sweep(now: real)

  type Store = map<string, Session>

  /** The store's records after one call, as the store's methods leave them. */
  function Next(store: Store, e: Event, idle: real): Store {
    match e
    case Create(id, hardLimit, ccache, secret, now) => store[id := Session(hardLimit, idle, now, ccache, secret)]
    case Get(id, now, touched) => AfterLookup(store, id, now, touched)
    case Drop(id) => store - {id}
    case Sweep(now) => AfterSweep(store, now)
  }

  function After(run: seq<Event>, idle: real): Store {
    if run == [] then map[] else Next(After(run[..|run| - 1], idle), run[|run| - 1], idle)
  }

  /** Ids are random and never used twice. */
  predicate IdsOnce(run: seq<Event>) {
    forall i, j :: 0 <= i < j < |run| && run[i].Create? && run[j].Create? ==> run[i].id != run[j].id
  }

  predicate Created(run: seq<Event>, id: string, hardLimit: real) {
    exists i :: 0 <= i < |run| && run[i].Create? && run[i].id == id && run[i].hardLimit == hardLimit
  }

  /** When the session was last used: its creation, or the last lookup that found it. */
  function LastUse(run: seq<Event>, id: string, idle: real): real {
    if run == [] then 0.0
    else
      var before, e := run[..|run| - 1], run[|run| - 1];
      match e
      case Create(other, _, _, _, now) => if other == id then now else LastUse(before, id, idle)
      case Get(other, now, touched) =>
        if other == id && Lookup(After(before, idle), id, now).Ok? then touched else LastUse(before, id, idle)
      case _ => LastUse(before, id, idle)
  }

  lemma {:induction false} RecordIsHistory(run: seq<Event>, id: string, idle: real)
    requires id in After(run, idle)
    ensures var s := After(run, idle)[id];
      s.lastSeen == LastUse(run, id, idle) && s.idle == idle && Created(run, id, s.hardLimit)
  {
    var before, e := run[..|run| - 1], run[|run| - 1];
    if e.Create? && e.id == id {
      assert run[|run| - 1].hardLimit == After(run, idle)[id].hardLimit;
    } else {
      assert id in After(before, idle);
      RecordIsHistory(before, id, idle);
      var hard := After(before, idle)[id].hardLimit;
      var i :| 0 <= i < |before| && before[i].Create? && before[i].id == id && before[i].hardLimit == hard;
      assert run[i] == before[i];
    }
  }

  /** A lookup succeeds exactly while the session is in the store and the moment lies before
      both its hard limit, fixed at creation, and its last use plus the idle time. */
  lemma FoundIffAlive(run: seq<Event>, id: string, hardLimit: real, now: real, idle: real)
    requires IdsOnce(run) && Created(run, id, hardLimit) && id != ""
    ensures Lookup(After(run, idle), id, now).Ok? <==>
      id in After(run, idle) && now < hardLimit && now < LastUse(run, id, idle) + idle
  {
    if id in After(run, idle) {
      RecordIsHistory(run, id, idle);
      var s := After(run, idle)[id];
      var i :| 0 <= i < |run| && run[i].Create? && run[i].id == id && run[i].hardLimit == hardLimit;
      var j :| 0 <= j < |run| && run[j].Create? && run[j].id == id && run[j].hardLimit == s.hardLimit;
      assert i == j;
    }
  }

  /** A session that has left the store is never found again, whatever is called. */
  lemma {:induction false} GoneStaysGone(run: seq<Event>, more: seq<Event>, id: string, hardLimit: real, idle: real)
    requires IdsOnce(run + more) && Created(run, id, hardLimit) && id !in After(run, idle)
    ensures id !in After(run + more, idle)
  {
    if more == [] {
      assert run + more == run;
    } else {
      var front, e := more[..|more| - 1], more[|more| - 1];
      var all := run + more;
      assert all[..|all| - 1] == run + front && all[|all| - 1] == e;
      assert forall k :: 0 <= k < |run + front| ==> (run + front)[k] == all[k];
      GoneStaysGone(run, front, id, hardLimit, idle);
      var i :| 0 <= i < |run| && run[i].Create? && run[i].id == id && run[i].hardLimit == hardLimit;
      assert all[i] == run[i];
    }
  }
}
