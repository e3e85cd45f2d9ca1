/** One session's worker as a transition system: callers submit, give up and close on the
    event loop, while one thread takes tasks from a queue and owns the connection. */
module Protocol {
  import opened Outcomes

  datatype TaskKind = Read | Write | Cleanup

  datatype Task = Task(id: nat, kind: TaskKind)

  /** Where the running task stands. A connection is known by the number it was opened under. */
  datatype Phase =
    | Fetching
    | Ready(attempt: nat, conn: nat)
    | Calling(attempt: nat, conn: nat)
    | Dropping
    | Hanging(stale: nat)
    | Reopening
    | Releasing

  datatype Job = Job(task: Task, phase: Phase)

  const SERVER := "server"

  datatype State = State(
    closed: bool,
    queue: seq<Task>,
    running: Option<Job>,
    state: map<string, nat>,
    // What has happened so far.
    submitted: seq<Task>,
    finished: seq<Task>,
    opens: nat,
    released: set<nat>,
    bodies: multiset<nat>,
    waiting: set<nat>,
    timedOut: set<nat>)

  const Fresh := State(false, [], None, map[], [], [], 0, {}, multiset{}, {}, {})

  datatype Ending = Returned | ConnectionLost | OtherError

  datatype Action =
    // on the event loop
    | Submit(kind: TaskKind) | Timeout(id: nat) | Close
    // on the worker thread, with what the outside answered
    | Take | Fetch(up: bool) | Call | End(ending: Ending) | Drop | HangUp | Reopen(up: bool) | Release

  predicate OnWorker(a: Action) {
    !a.Submit? && !a.Timeout? && !a.Close?
  }

  predicate In(s: State, p: Phase -> bool) {
    s.running.Some? && p(s.running.value.phase)
  }

  predicate Enabled(s: State, a: Action) {
    match a
    case Submit(kind) => !s.closed && !kind.Cleanup?
    case Timeout(id) => id in s.waiting
    case Close => true
    case Take => s.running.None? && s.queue != []
    case Fetch(_) => In(s, (p: Phase) => p.Fetching?)
    case Call => In(s, (p: Phase) => p.Ready?)
    case End(_) => In(s, (p: Phase) => p.Calling?)
    case Drop => In(s, (p: Phase) => p.Dropping?)
    case HangUp => In(s, (p: Phase) => p.Hanging?)
    case Reopen(_) => In(s, (p: Phase) => p.Reopening?)
    case Release => In(s, (p: Phase) => p.Releasing?)
  }

  function Enqueued(s: State, kind: TaskKind): State {
    var task := Task(|s.submitted|, kind);
    s.(queue := s.queue + [task], submitted := s.submitted + [task])
  }

  function At(s: State, phase: Phase): State
    requires s.running.Some?
  {
    s.(running := Some(s.running.value.(phase := phase)))
  }

  function Done(s: State): State
    requires s.running.Some?
  {
    var task := s.running.value.task;
    s.(running := None, finished := s.finished + [task], waiting := s.waiting - {task.id})
  }

  /** A connection opened, stored, and in the task's hands. */
  function Opened(s: State, attempt: nat): State
    requires s.running.Some?
  {
    At(s.(opens := s.opens + 1, state := s.state[SERVER := s.opens]), Ready(attempt, s.opens))
  }

  function Apply(s: State, a: Action): State
    requires Enabled(s, a)
  {
    match a
    case Submit(kind) => Enqueued(s, kind).(waiting := s.waiting + {|s.submitted|})
    case Timeout(id) => s.(waiting := s.waiting - {id}, timedOut := s.timedOut + {id})
    case Close => if s.closed then s else Enqueued(s, Cleanup).(closed := true)
    case Take =>
      var task := s.queue[0];
      s.(queue := s.queue[1..], running := Some(Job(task, if task.kind.Cleanup? then Releasing else Fetching)))
    case Fetch(up) =>
      if SERVER in s.state then At(s, Ready(1, s.state[SERVER]))
      else if up then Opened(s, 1)
      else Done(s)
    case Call =>
      var job := s.running.value;
      At(s.(bodies := s.bodies + multiset{job.task.id}), Calling(job.phase.attempt, job.phase.conn))
    case End(ending) =>
      var job := s.running.value;
      if ending.ConnectionLost? && job.task.kind.Read? && job.phase.attempt == 1 then At(s, Dropping) else Done(s)
    case Drop =>
      if SERVER in s.state then At(s.(state := s.state - {SERVER}), Hanging(s.state[SERVER])) else At(s, Reopening)
    case HangUp => At(s.(released := s.released + {s.running.value.phase.stale}), Reopening)
    case Reopen(up) => if up then Opened(s, 2) else Done(s)
    case Release => Done(s.(released := s.released + s.state.Values, state := map[]))
  }

  /** The state after a run from the beginning, when every action in it could be taken. */
  function After(run: seq<Action>): Option<State> {
    if run == [] then Some(Fresh)
    else
      match After(run[..|run| - 1])
      case None => None
      case Some(s) => if Enabled(s, run[|run| - 1]) then Some(Apply(s, run[|run| - 1])) else None
  }
}
