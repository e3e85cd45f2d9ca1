/** What holds in every interleaving of submissions, time-outs, closing and the worker's
    own steps. */
module ProtocolLaws {
  import opened Outcomes
  import opened Protocol

  // --- the invariant ----------------------------------------------------------------

  function Current(s: State): seq<Task> {
    if s.running.Some? then [s.running.value.task] else []
  }

  /** Nothing is lost, duplicated or overtaken: what was submitted is what has finished,
      then what is running, then what is queued. */
  predicate InOrder(s: State) {
    s.submitted == s.finished + Current(s) + s.queue &&
    forall i :: 0 <= i < |s.submitted| ==> s.submitted[i].id == i
  }

  /** The cleanup is submitted when the session closes, and nothing after it. */
  predicate CleanupLast(s: State) {
    (s.closed ==> |s.submitted| > 0 && s.submitted[|s.submitted| - 1].kind.Cleanup?) &&
    forall i :: 0 <= i < |s.submitted| && s.submitted[i].kind.Cleanup? ==> s.closed && i == |s.submitted| - 1
  }

  /** The connection in the running task's hands is the stored one. */
  predicate Holds(s: State, conn: nat) {
    SERVER in s.state && s.state[SERVER] == conn
  }

  predicate PhaseFits(s: State) {
    s.running.Some? ==>
    var job := s.running.value;
    (job.phase.Releasing? <==> job.task.kind.Cleanup?) &&
    match job.phase
    case Fetching => true
    case Ready(k, c) => Holds(s, c) && (k == 1 || (k == 2 && job.task.kind.Read?))
    case Calling(k, c) => Holds(s, c) && (k == 1 || (k == 2 && job.task.kind.Read?))
    case Dropping => job.task.kind.Read? && SERVER in s.state
    case Hanging(_) => job.task.kind.Read? && SERVER !in s.state
    case Reopening => job.task.kind.Read? && SERVER !in s.state
    case Releasing => true
  }

  predicate InHand(s: State, c: nat) {
    s.running.Some? && s.running.value.phase == Hanging(c)
  }

  /** Every connection opened is closed, stored, or just being closed; never two of these. */
  predicate Accounted(s: State) {
    s.state.Keys <= {SERVER} &&
    (forall c :: c in s.released ==> c < s.opens) &&
    (SERVER in s.state ==> s.state[SERVER] < s.opens && s.state[SERVER] !in s.released) &&
    (s.running.Some? && s.running.value.phase.Hanging? ==>
      s.running.value.phase.stale < s.opens && s.running.value.phase.stale !in s.released) &&
    forall c :: 0 <= c < s.opens ==> c in s.released || Holds(s, c) || InHand(s, c)
  }

  /** How often the body of the running task has been started. */
  function Started(phase: Phase): nat {
    match phase
    case Fetching => 0
    case Ready(k, _) => if k == 1 then 0 else 1
    case Calling(k, _) => if k == 1 then 1 else 2
    case Dropping => 1
    case Hanging(_) => 1
    case Reopening => 1
    case Releasing => 0
  }

  function Allowed(kind: TaskKind): nat {
    match kind case Read => 2 case Write => 1 case Cleanup => 0
  }

  ghost predicate BodiesBounded(s: State) {
    (forall i :: 0 <= i < |s.submitted| ==> s.bodies[i] <= Allowed(s.submitted[i].kind)) &&
    (s.running.Some? ==> s.bodies[s.running.value.task.id] == Started(s.running.value.phase)) &&
    (forall i :: |s.finished| + |Current(s)| <= i ==> s.bodies[i] == 0)
  }

  /** After the cleanup has run nothing is stored, running or queued. */
  predicate NothingLeft(s: State) {
    s.finished != [] && s.finished[|s.finished| - 1].kind.Cleanup? ==>
      s.state == map[] && s.running.None? && s.queue == [] && s.closed
  }

  predicate CallersKnown(s: State) {
    (forall id :: id in s.timedOut ==> id < |s.submitted|) &&
    (forall id :: id in s.waiting ==> |s.finished| <= id < |s.submitted|)
  }

  ghost predicate Inv(s: State) {
    InOrder(s) && CleanupLast(s) && PhaseFits(s) && Accounted(s) && BodiesBounded(s) &&
    NothingLeft(s) && CallersKnown(s)
  }

  lemma Lengths(s: State)
    requires InOrder(s)
    ensures |s.submitted| == |s.finished| + |Current(s)| + |s.queue|
    ensures s.finished <= s.submitted
    ensures s.running.Some? ==>
      s.submitted[|s.finished|] == s.running.value.task && s.running.value.task.id == |s.finished|
    ensures s.queue != [] ==> s.submitted[|s.finished| + |Current(s)|] == s.queue[0]
  {
  }

  // How the three ways a task moves keep the order.

  lemma EnqueueOrder(s: State, kind: TaskKind)
    requires InOrder(s)
    ensures InOrder(Enqueued(s, kind))
  {
    var task := Task(|s.submitted|, kind);
    assert s.finished + Current(s) + (s.queue + [task]) == (s.finished + Current(s) + s.queue) + [task];
  }

  lemma TakeOrder(s: State)
    requires InOrder(s) && Enabled(s, Take)
    ensures InOrder(Apply(s, Take))
  {
    assert s.queue == [s.queue[0]] + s.queue[1..];
  }

  lemma DoneOrder(s: State)
    requires InOrder(s) && s.running.Some?
    ensures InOrder(Done(s))
  {
  }

  lemma OrderKept(s: State, a: Action)
    requires InOrder(s) && Enabled(s, a)
    ensures InOrder(Apply(s, a))
  {
    match a
    case Submit(kind) => EnqueueOrder(s, kind);
    case Timeout(_) =>
    case Close => EnqueueOrder(s, Cleanup);
    case Take => TakeOrder(s);
    case Fetch(_) => DoneOrder(s);
    case Call =>
    case End(_) => DoneOrder(s);
    case Drop =>
    case HangUp =>
    case Reopen(_) => DoneOrder(s);
    case Release => DoneOrder(s.(released := s.released + s.state.Values, state := map[]));
  }

  lemma CleanupKept(s: State, a: Action)
    requires CleanupLast(s) && Enabled(s, a)
    ensures CleanupLast(Apply(s, a))
  {
    match a
    case Submit(_) =>
    case Close =>
    case _ => assert Apply(s, a).submitted == s.submitted && Apply(s, a).closed == s.closed;
  }

  lemma PhaseKept(s: State, a: Action)
    requires PhaseFits(s) && Enabled(s, a)
    ensures PhaseFits(Apply(s, a))
  {
  }

  lemma AccountKept(s: State, a: Action)
    requires PhaseFits(s) && Accounted(s) && Enabled(s, a)
    ensures Accounted(Apply(s, a))
  {
  }

  // How often bodies have been started.

  lemma EnqueueBodies(s: State, kind: TaskKind)
    requires InOrder(s) && BodiesBounded(s)
    ensures BodiesBounded(Enqueued(s, kind))
  {
    Lengths(s);
  }

  lemma TakeBodies(s: State)
    requires InOrder(s) && BodiesBounded(s) && Enabled(s, Take)
    ensures BodiesBounded(Apply(s, Take))
  {
    Lengths(s);
  }

  lemma DoneBodies(s: State)
    requires InOrder(s) && BodiesBounded(s) && s.running.Some?
    ensures BodiesBounded(Done(s))
  {
  }

  lemma CallBodies(s: State)
    requires InOrder(s) && PhaseFits(s) && BodiesBounded(s) && Enabled(s, Call)
    ensures BodiesBounded(Apply(s, Call))
  {
    Lengths(s);
    var id := s.running.value.task.id;
    assert s.submitted[id] == s.running.value.task;
  }

  /** Changing only the phase, to one with as many starts behind it, changes no count. */
  lemma MoveBodies(s: State, t: State)
    requires BodiesBounded(s) && s.running.Some? && t.running.Some?
    requires t.running.value.task == s.running.value.task
    requires Started(t.running.value.phase) == Started(s.running.value.phase)
    requires t.bodies == s.bodies && t.submitted == s.submitted && t.finished == s.finished
    ensures BodiesBounded(t)
  {
  }

  lemma BodiesKept(s: State, a: Action)
    requires InOrder(s) && PhaseFits(s) && BodiesBounded(s) && Enabled(s, a)
    ensures BodiesBounded(Apply(s, a))
  {
    var t := Apply(s, a);
    match a
    case Submit(kind) => EnqueueBodies(s, kind);
    case Timeout(_) =>
    case Close => EnqueueBodies(s, Cleanup);
    case Take => TakeBodies(s);
    case Call => CallBodies(s);
    case _ =>
      if t.running.Some? { MoveBodies(s, t); } else { DoneBodies(s); }
  }

  // The end of a session, and its callers.

  lemma EndKept(s: State, a: Action)
    requires InOrder(s) && CleanupLast(s) && PhaseFits(s) && NothingLeft(s) && Enabled(s, a)
    ensures NothingLeft(Apply(s, a))
  {
    Lengths(s);
  }

  lemma CallersKept(s: State, a: Action)
    requires InOrder(s) && CallersKnown(s) && Enabled(s, a)
    ensures CallersKnown(Apply(s, a))
  {
    Lengths(s);
  }

  /** Every step keeps the invariant. */
  lemma StepKeeps(s: State, a: Action)
    requires Inv(s) && Enabled(s, a)
    ensures Inv(Apply(s, a))
  {
    OrderKept(s, a);
    CleanupKept(s, a);
    PhaseKept(s, a);
    AccountKept(s, a);
    BodiesKept(s, a);
    EndKept(s, a);
    CallersKept(s, a);
  }

  lemma {:induction false} RunKeeps(run: seq<Action>)
    requires After(run).Some?
    ensures Inv(After(run).value)
  {
    if run != [] {
      RunKeeps(run[..|run| - 1]);
      StepKeeps(After(run[..|run| - 1]).value, run[|run| - 1]);
    }
  }

  // --- safety over whole runs -----------------------------------------------------------

  /** What a run asked for: its submissions in order, and a cleanup at its first close. */
  function Asked(run: seq<Action>): seq<TaskKind> {
    if run == [] then []
    else
      var before := Asked(run[..|run| - 1]);
      match run[|run| - 1]
      case Submit(kind) => before + [kind]
      case Close => if Close in run[..|run| - 1] then before else before + [Cleanup]
      case _ => before
  }

  function Kinds(tasks: seq<Task>): seq<TaskKind> {
    seq(|tasks|, i requires 0 <= i < |tasks| => tasks[i].kind)
  }

  lemma {:induction false} AskedIsSubmitted(run: seq<Action>)
    requires After(run).Some?
    ensures Kinds(After(run).value.submitted) == Asked(run)
    ensures After(run).value.closed <==> Close in run
  {
    if run != [] {
      var before, a := run[..|run| - 1], run[|run| - 1];
      AskedIsSubmitted(before);
      assert run == before + [a];
      var s := After(before).value;
      match a
      case Submit(kind) => assert Kinds(s.submitted + [Task(|s.submitted|, kind)]) == Kinds(s.submitted) + [kind];
      case Close => assert Kinds(s.submitted + [Task(|s.submitted|, Cleanup)]) == Kinds(s.submitted) + [Cleanup];
      case _ => assert Apply(s, a).submitted == s.submitted;
    }
  }

  /** In every interleaving the tasks run one at a time, in the order they were asked for:
      the finished ones, the one running and the queued ones are together exactly that. */
  lemma OneAtATimeInOrder(run: seq<Action>)
    requires After(run).Some?
    ensures var s := After(run).value; Kinds(s.finished + Current(s) + s.queue) == Asked(run)
  {
    RunKeeps(run);
    AskedIsSubmitted(run);
  }

  /** A write's body is started at most once and a read's at most twice, and a body only
      ever runs on the stored connection, which has not been closed. */
  lemma NeverReplayed(run: seq<Action>, i: nat)
    requires After(run).Some? && i < |After(run).value.submitted|
    ensures var s := After(run).value;
      && (s.submitted[i].kind.Write? ==> s.bodies[i] <= 1)
      && (s.submitted[i].kind.Read? ==> s.bodies[i] <= 2)
      && (s.running.Some? && s.running.value.phase.Calling? ==>
           Holds(s, s.running.value.phase.conn) && s.running.value.phase.conn !in s.released)
  {
    RunKeeps(run);
  }

  /** No connection leaks: each one opened has been closed, except the one stored and the
      one a reconnect has just taken out to close. */
  lemma NoConnectionLeaks(run: seq<Action>, c: nat)
    requires After(run).Some? && c < After(run).value.opens
    ensures var s := After(run).value;
      (c in s.released) != (Holds(s, c) || InHand(s, c))
  {
    RunKeeps(run);
  }

  /** Once the cleanup has finished everything asked for has, no connection is open, and
      nothing is queued or running. */
  lemma CleanupEnds(run: seq<Action>)
    requires After(run).Some?
    requires var f := After(run).value.finished; f != [] && f[|f| - 1].kind.Cleanup?
    ensures var s := After(run).value;
      && Kinds(s.finished) == Asked(run)
      && s.state == map[] && s.running.None? && s.queue == []
      && forall c :: 0 <= c < s.opens <==> c in s.released
  {
    RunKeeps(run);
    AskedIsSubmitted(run);
    var s := After(run).value;
    assert s.finished + Current(s) + s.queue == s.finished;
  }

  // --- every task finishes ------------------------------------------------------------------

  function PhaseSteps(phase: Phase): nat {
    match phase
    case Fetching => 9
    case Ready(k, _) => if k == 1 then 8 else 3
    case Calling(k, _) => if k == 1 then 7 else 2
    case Dropping => 6
    case Hanging(_) => 5
    case Reopening => 4
    case Releasing => 1
  }

  /** A bound on the worker's remaining steps. */
  function StepsLeft(s: State): nat {
    10 * |s.queue| + if s.running.Some? then PhaseSteps(s.running.value.phase) else 0
  }

  lemma WorkerShrinks(s: State, a: Action)
    requires PhaseFits(s) && Enabled(s, a) && OnWorker(a)
    ensures StepsLeft(Apply(s, a)) < StepsLeft(s) && Apply(s, a).submitted == s.submitted
  {
  }

  /** While there is work, the worker has a step to take, whatever the outside answers. */
  lemma NeverStuck(s: State, up: bool, ending: Ending)
    requires s.running.Some? || s.queue != []
    ensures exists a :: OnWorker(a) && Enabled(s, a) &&
                        (a.Fetch? || a.Reopen? ==> a.up == up) && (a.End? ==> a.ending == ending)
  {
    if s.running.None? {
      assert Enabled(s, Take);
    } else {
      match s.running.value.phase
      case Fetching => assert Enabled(s, Fetch(up));
      case Ready(_, _) => assert Enabled(s, Call);
      case Calling(_, _) => assert Enabled(s, End(ending));
      case Dropping => assert Enabled(s, Drop);
      case Hanging(_) => assert Enabled(s, HangUp);
      case Reopening => assert Enabled(s, Reopen(up));
      case Releasing => assert Enabled(s, Release);
    }
  }

  /** The state after some more of the worker's own steps. */
  function Onward(s: State, steps: seq<Action>): Option<State>
    decreases |steps|
  {
    if steps == [] then Some(s)
    else if OnWorker(steps[0]) && Enabled(s, steps[0]) then Onward(Apply(s, steps[0]), steps[1..])
    else None
  }

  lemma {:induction false} OnwardBounded(s: State, steps: seq<Action>)
    requires Inv(s) && Onward(s, steps).Some?
    ensures |steps| <= StepsLeft(s)
    ensures Inv(Onward(s, steps).value) && Onward(s, steps).value.submitted == s.submitted
    decreases |steps|
  {
    if steps != [] {
      StepKeeps(s, steps[0]);
      WorkerShrinks(s, steps[0]);
      OnwardBounded(Apply(s, steps[0]), steps[1..]);
    }
  }

  // --- whatever the callers go on to do -----------------------------------------------------

  /** The state after some more actions of any kind. */
  function Later(s: State, more: seq<Action>): Option<State>
    decreases |more|
  {
    if more == [] then Some(s)
    else if Enabled(s, more[0]) then Later(Apply(s, more[0]), more[1..])
    else None
  }

  function WorkerSteps(more: seq<Action>): nat {
    if more == [] then 0 else (if OnWorker(more[0]) then 1 else 0) + WorkerSteps(more[1..])
  }

  /** What the running task may still take. */
  function RunningSteps(s: State): nat {
    if s.running.Some? then PhaseSteps(s.running.value.phase) else 0
  }

  /** A bound on the worker's steps until the task at this position has finished. */
  function StepsUntil(s: State, id: nat): nat {
    if id < |s.finished| then 0
    else 10 * (id + 1 - |s.finished| - if s.running.Some? then 1 else 0) + RunningSteps(s)
  }

  /** What an action does to the task that runs: nothing, unless it is one of the worker's,
      which starts a task, brings the running one nearer, or finishes it. */
  lemma StepEffect(s: State, a: Action)
    requires PhaseFits(s) && Enabled(s, a)
    ensures var t := Apply(s, a);
      if !OnWorker(a) then t.running == s.running && t.finished == s.finished
      else if s.running.None? then t.running.Some? && t.finished == s.finished && RunningSteps(t) <= 9
      else (t.running.Some? && t.finished == s.finished && RunningSteps(t) < RunningSteps(s)) ||
           (t.running.None? && |t.finished| == |s.finished| + 1)
  {
  }

  /** A step of the worker brings every unfinished task nearer; no caller pushes it back. */
  lemma StepNearer(s: State, a: Action, id: nat)
    requires Inv(s) && Enabled(s, a) && id < |s.submitted|
    ensures id < |Apply(s, a).submitted| && |s.finished| <= |Apply(s, a).finished|
    ensures StepsUntil(Apply(s, a), id) <= StepsUntil(s, id)
    ensures OnWorker(a) && id >= |s.finished| ==> StepsUntil(Apply(s, a), id) < StepsUntil(s, id)
  {
    StepEffect(s, a);
    SubmittedGrows(s, a);
  }

  lemma {:induction false} LaterNearer(s: State, more: seq<Action>, id: nat)
    requires Inv(s) && id < |s.submitted| && Later(s, more).Some?
    ensures var end := Later(s, more).value;
      && Inv(end) && id < |end.submitted|
      && (id >= |end.finished| ==> WorkerSteps(more) + StepsUntil(end, id) <= StepsUntil(s, id))
    decreases |more|
  {
    if more != [] {
      StepNearer(s, more[0], id);
      StepKeeps(s, more[0]);
      LaterNearer(Apply(s, more[0]), more[1..], id);
      FinishedStays(Apply(s, more[0]), more[1..]);
    }
  }

  lemma {:induction false} FinishedStays(s: State, more: seq<Action>)
    requires Inv(s) && Later(s, more).Some?
    ensures |s.finished| <= |Later(s, more).value.finished|
    decreases |more|
  {
    if more != [] {
      StepKeeps(s, more[0]);
      FinishedStays(Apply(s, more[0]), more[1..]);
    }
  }

  /** Every submitted task finishes, and one its caller gave up on no later than any other: in
      every continuation, whatever is submitted, given up on or closed meanwhile, ten steps of
      the worker for each task not ahead of it are enough. */
  lemma TimedOutStillFinishes(run: seq<Action>, more: seq<Action>, id: nat)
    requires After(run).Some? && id < |After(run).value.submitted|
    requires Later(After(run).value, more).Some?
    requires WorkerSteps(more) >= 10 * (id + 1 - |After(run).value.finished|)
    ensures var end := Later(After(run).value, more).value;
      id < |end.finished| && end.finished[id] == After(run).value.submitted[id]
  {
    RunKeeps(run);
    var s := After(run).value;
    LaterNearer(s, more, id);
    SubmittedStays(s, more);
    var end := Later(s, more).value;
    Lengths(s);
    Lengths(end);
  }

  lemma {:induction false} SubmittedStays(s: State, more: seq<Action>)
    requires Later(s, more).Some?
    ensures s.submitted <= Later(s, more).value.submitted
    decreases |more|
  {
    if more != [] {
      SubmittedGrows(s, more[0]);
      SubmittedStays(Apply(s, more[0]), more[1..]);
    }
  }

  lemma SubmittedGrows(s: State, a: Action)
    requires Enabled(s, a)
    ensures s.submitted <= Apply(s, a).submitted
  {
  }

  /** Only submitted tasks can be given up on. */
  lemma TimedOutIsSubmitted(run: seq<Action>, id: nat)
    requires After(run).Some? && id in After(run).value.timedOut
    ensures id < |After(run).value.submitted|
  {
    RunKeeps(run);
  }
}
