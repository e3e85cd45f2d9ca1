/** The session worker and its connection, as the objects the backend keeps. Each method
    is tied to the run of the transition system it performs, so that what holds of every
    run holds of every worker. */
module Worker {
  import opened Outcomes
  import opened Protocol
  import opened ProtocolLaws

  datatype Refusal = SessionClosed

  class SessionWorker {
    var closed: bool
    var queue: seq<Task>
    var state: map<string, nat>
    var nextId: nat
    // The outside world: how many connections were opened, and which had `close` called.
    var opens: nat
    var hungUp: set<nat>
    ghost var trail: seq<Action>

    ghost function Model(): State
      reads this
      requires After(trail).Some?
    {
      After(trail).value
    }

    ghost predicate Valid()
      reads this
    {
      After(trail).Some? &&
      var m := Model();
      m.closed == closed && m.queue == queue && m.state == state && |m.submitted| == nextId &&
      m.opens == opens && m.released == hungUp
    }

    constructor ()
      ensures Valid() && trail == [] && !closed && queue == [] && state == map[]
    {
      closed, queue, state, nextId, opens, hungUp, trail := false, [], map[], 0, 0, {}, [];
    }

    /** Records an action the code has just performed. */
    ghost method Record(a: Action)
      requires After(trail).Some? && Enabled(Model(), a)
      modifies this`trail
      ensures trail == old(trail) + [a] && After(trail) == Some(Apply(old(Model()), a))
    {
      assert (trail + [a])[..|trail|] == trail;
      trail := trail + [a];
    }

    // --- the event loop's side ----------------------------------------------------------

    /** Submitting a call. A closed session refuses; otherwise the call waits its turn. */
    method Run(kind: TaskKind) returns (r: Result<nat, Refusal>)
      requires Valid() && !kind.Cleanup?
      modifies this
      ensures Valid()
      ensures r.Err? <==> old(closed)
      ensures trail == if old(closed) then old(trail) else old(trail) + [Submit(kind)]
      ensures r.Ok? ==> queue == old(queue) + [Task(r.value, kind)] && r.value == old(nextId)
    {
      if closed { return Err(SessionClosed); }
      r := Ok(nextId);
      queue := queue + [Task(nextId, kind)];
      nextId := nextId + 1;
      Record(Submit(kind));
    }

    /** The caller stops waiting; the call itself is left alone. */
    method GiveUp(id: nat)
      requires Valid() && id in Model().waiting
      modifies this`trail
      ensures Valid() && trail == old(trail) + [Timeout(id)]
    {
      Record(Timeout(id));
    }

    method Shut()
      requires Valid()
      modifies this
      ensures Valid() && closed
      ensures trail == old(trail) + [Close]
      ensures queue == if old(closed) then old(queue) else old(queue) + [Task(old(nextId), Cleanup)]
    {
      if !closed {
        closed := true;
        queue := queue + [Task(nextId, Cleanup)];
        nextId := nextId + 1;
      }
      Record(Close);
    }

    // --- the worker thread's side ---------------------------------------------------------

    method TakeNext() returns (task: Task)
      requires Valid() && Model().running.None? && queue != []
      modifies this`queue, this`trail
      ensures Valid() && trail == old(trail) + [Take]
      ensures task == old(queue)[0] && queue == old(queue)[1..]
    {
      task := queue[0];
      queue := queue[1..];
      Record(Take);
    }

    /** The stored connection, or a new one when there is none and the server answers. */
    method Connection(up: bool) returns (conn: Option<nat>)
      requires Valid() && Enabled(Model(), Fetch(up))
      modifies this`state, this`opens, this`trail
      ensures Valid() && trail == old(trail) + [Fetch(up)]
      ensures conn.None? <==> SERVER !in old(state) && !up
      ensures conn.Some? ==> Model().running == Some(Job(old(Model().running.value.task), Ready(1, conn.value)))
      ensures conn.None? ==> Model().running.None?
    {
      if SERVER in state {
        conn := Some(state[SERVER]);
      } else if up {
        conn := Some(opens);
        state := state[SERVER := opens];
        opens := opens + 1;
      } else {
        conn := None;
      }
      Record(Fetch(up));
    }

    /** Taking the stale connection out and closing it. It is always there: only a body that
        ran on it can have reported it lost. */
    method HangUpStale()
      requires Valid() && Enabled(Model(), Drop)
      modifies this`state, this`hungUp, this`trail
      ensures Valid() && trail == old(trail) + [Drop, HangUp]
      ensures old(SERVER in state) && hungUp == old(hungUp) + {old(state[SERVER])} && state == old(state) - {SERVER}
      ensures Model().running == Some(Job(old(Model().running.value.task), Reopening))
    {
      RunKeeps(trail);
      var stale := state[SERVER];
      state := state - {SERVER};
      Record(Drop);
      hungUp := hungUp + {stale};
      Record(HangUp);
      assert old(trail) + [Drop] + [HangUp] == old(trail) + [Drop, HangUp];
    }

    method OpenAgain(up: bool) returns (conn: Option<nat>)
      requires Valid() && Enabled(Model(), Reopen(up))
      modifies this`state, this`opens, this`trail
      ensures Valid() && trail == old(trail) + [Reopen(up)]
      ensures conn.Some? <==> up
      ensures conn.Some? ==> Model().running == Some(Job(old(Model().running.value.task), Ready(2, conn.value)))
      ensures conn.None? ==> Model().running.None?
    {
      conn := None;
      if up {
        conn := Some(opens);
        state := state[SERVER := opens];
        opens := opens + 1;
      }
      Record(Reopen(up));
    }

    /** Closing the stale connection before opening another. */
    method Reconnect(up: bool) returns (conn: Option<nat>)
      requires Valid() && Enabled(Model(), Drop)
      modifies this`state, this`opens, this`hungUp, this`trail
      ensures Valid() && trail == old(trail) + [Drop, HangUp, Reopen(up)]
      ensures conn.Some? <==> up
      ensures conn.Some? ==> Model().running == Some(Job(old(Model().running.value.task), Ready(2, conn.value)))
      ensures conn.None? ==> Model().running.None?
    {
      HangUpStale();
      conn := OpenAgain(up);
    }

    /** Calling a body on the connection in hand; `ending` is how it came out. */
    method CallBody(ending: Ending)
      requires Valid() && Enabled(Model(), Call)
      modifies this`trail
      ensures Valid() && trail == old(trail) + [Call, End(ending)]
      ensures var job := old(Model().running.value);
        Model().running == if ending.ConnectionLost? && job.task.kind.Read? && job.phase.attempt == 1
                           then Some(Job(job.task, Dropping)) else None
    {
      Record(Call);
      Record(End(ending));
      assert old(trail) + [Call] + [End(ending)] == old(trail) + [Call, End(ending)];
    }

    /** What the outside answers while one read runs. */
    method RunRead(up: bool, ending: Ending, upAgain: bool, endingAgain: Ending)
      requires Valid() && Enabled(Model(), Fetch(up)) && Model().running.value.task.kind.Read?
      modifies this`state, this`opens, this`hungUp, this`trail
      ensures Valid() && Model().running.None?
      ensures trail == old(trail) +
        if SERVER !in old(state) && !up then [Fetch(up)]
        else if !ending.ConnectionLost? then [Fetch(up), Call, End(ending)]
        else if !upAgain then [Fetch(up), Call, End(ending), Drop, HangUp, Reopen(upAgain)]
        else [Fetch(up), Call, End(ending), Drop, HangUp, Reopen(upAgain), Call, End(endingAgain)]
    {
      var conn := Connection(up);
      if conn.None? { return; }
      CallBody(ending);
      assert trail == old(trail) + [Fetch(up), Call, End(ending)];
      if ending.ConnectionLost? {
        conn := Reconnect(upAgain);
        assert trail == old(trail) + [Fetch(up), Call, End(ending), Drop, HangUp, Reopen(upAgain)];
        if conn.Some? { CallBody(endingAgain); }
      }
    }

    /** A write is called once, whatever comes of it. */
    method RunWrite(up: bool, ending: Ending)
      requires Valid() && Enabled(Model(), Fetch(up)) && Model().running.value.task.kind.Write?
      modifies this`state, this`opens, this`trail
      ensures Valid() && Model().running.None?
      ensures trail == old(trail) +
        if SERVER !in old(state) && !up then [Fetch(up)] else [Fetch(up), Call, End(ending)]
    {
      var conn := Connection(up);
      if conn.Some? { CallBody(ending); }
    }

    /** The queued teardown: every stored handle is closed, then all are forgotten. */
    method CleanUp()
      requires Valid() && Enabled(Model(), Release)
      modifies this`state, this`hungUp, this`trail
      ensures Valid() && trail == old(trail) + [Release] && state == map[]
      ensures hungUp == old(hungUp) + old(state).Values
    {
      var keys := state.Keys;
      while keys != {}
        invariant keys <= state.Keys
        invariant state == old(state) && trail == old(trail)
        invariant hungUp == old(hungUp) + set k | k in state.Keys - keys :: state[k]
        decreases keys
      {
        var key :| key in keys;
        hungUp := hungUp + {state[key]};
        keys := keys - {key};
      }
      assert (set k | k in state.Keys :: state[k]) == state.Values;
      state := map[];
      Record(Release);
    }
  }
}
