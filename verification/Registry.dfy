/** The configuration store: one map of options per section, written by comparing what was
    asked for with what is there. */
module Registry {
  import opened Outcomes
  import opened ShareConf

  type Section = map<string, string>

  datatype Change = Change(was: Option<string>, now: Option<string>)

  /** Why a write stopped: the server refused a call, or a value to delete was not there. */
  datatype Failure = ServerRefused | ValueMissing

  function Stored(section: Section, name: string): Option<string> {
    if name in section then Some(section[name]) else None
  }

  /** A write in progress: the section as it stands, the audit record, the calls the server
      will still accept (`None` when it never refuses), and what stopped it. */
  datatype Progress = Progress(section: Section, applied: map<string, Change>, calls: Option<nat>,
                               failure: Option<Failure>)

  function Spend(calls: Option<nat>): Option<nat> {
    match calls
    case None => None
    case Some(n) => if n == 0 then Some(0) else Some(n - 1)
  }

  /** One option: nothing to do when it already has the value, as read before the first write. */
  function WriteOne(current: Section, p: Progress, option: string, value: Option<string>): Progress {
    if p.failure.Some? || Stored(current, option) == value then p
    else if p.calls == Some(0) then p.(failure := Some(ServerRefused))
    else if value.None? && option !in p.section then p.(failure := Some(ValueMissing))
    else
      Progress(if value.None? then p.section - {option} else p.section[option := value.value],
               p.applied[option := Change(Stored(current, option), value)], Spend(p.calls), None)
  }

  /** The first `n` options, compared with what was seen of the section and written to it. */
  function WriteSeen(seen: Section, held: Section, asked: Dict, calls: Option<nat>, n: nat): Progress
    requires n <= |asked|
  {
    if n == 0 then Progress(held, map[], calls, None)
    else WriteOne(seen, WriteSeen(seen, held, asked, calls, n - 1), asked[n - 1].0, asked[n - 1].1)
  }

  /** The same, when the whole section was seen. */
  function WriteFirst(current: Section, asked: Dict, calls: Option<nat>, n: nat): Progress
    requires n <= |asked|
  {
    WriteSeen(current, current, asked, calls, n)
  }

  /** A request with its option names in their normal form. */
  function Named(options: Dict): (asked: Dict)
    ensures |asked| == |options|
    ensures forall i :: 0 <= i < |options| ==> asked[i] == (Normalise(options[i].0), options[i].1)
  {
    seq(|options|, i requires 0 <= i < |options| => (Normalise(options[i].0), options[i].1))
  }

  function Written(current: Section, asked: Dict, calls: Option<nat>): Progress {
    WriteFirst(current, asked, calls, |asked|)
  }

  function SectionOf(sections: map<string, Section>, name: string): Section {
    if name in sections then sections[name] else map[]
  }

  /** Whether the server lets a write get to the key, and the calls it will then accept. */
  datatype Reach = Closed | Writable(calls: Option<nat>)

  /** What an attempted write leaves, and what it answers. The key is created on opening. A walk
      over the values that breaks off keeps what it has, so some may be missed. */
  function AttemptedSeeing(sections: map<string, Section>, name: string, options: Dict, reach: Reach,
                           missed: set<string>): (map<string, Section>, Result<map<string, Change>, Failure>)
  {
    match reach
    case Closed => (sections, Err(ServerRefused))
    case Writable(calls) =>
      var was := SectionOf(sections, name);
      var p := WriteSeen(was - missed, was, Named(options), calls, |options|);
      (sections[name := p.section], if p.failure.Some? then Err(p.failure.value) else Ok(p.applied))
  }

  /** The same when no value is missed. */
  function Attempted(sections: map<string, Section>, name: string, options: Dict, reach: Reach):
    (map<string, Section>, Result<map<string, Change>, Failure>)
  {
    match reach
    case Closed => (sections, Err(ServerRefused))
    case Writable(calls) =>
      var p := Written(SectionOf(sections, name), Named(options), calls);
      (sections[name := p.section], if p.failure.Some? then Err(p.failure.value) else Ok(p.applied))
  }

  lemma NothingMissed(sections: map<string, Section>, name: string, options: Dict, reach: Reach)
    ensures AttemptedSeeing(sections, name, options, reach, {}) == Attempted(sections, name, options, reach)
  {
    var was := SectionOf(sections, name);
    assert was - {} == was;
  }

  lemma {:induction false} FailureStays(seen: Section, held: Section, asked: Dict, calls: Option<nat>, n: nat, m: nat)
    requires n <= m <= |asked| && WriteSeen(seen, held, asked, calls, n).failure.Some?
    ensures WriteSeen(seen, held, asked, calls, m) == WriteSeen(seen, held, asked, calls, n)
  {
    if n < m { FailureStays(seen, held, asked, calls, n, m - 1); }
  }

  class Store {
    var sections: map<string, Section>

    /** Opens the section, creating it when there is none, and writes what differs from what
        was seen of it. */
    method WriteOptions(name: string, options: Dict, reach: Reach, missed: set<string>)
      returns (r: Result<map<string, Change>, Failure>)
      modifies this
      ensures (sections, r) == AttemptedSeeing(old(sections), name, options, reach, missed)
    {
      if reach.Closed? { return Err(ServerRefused); }
      var was := SectionOf(sections, name);
      var p := WriteAll(was - missed, was, Named(options), reach.calls);
      sections := sections[name := p.section];
      r := if p.failure.Some? then Err(p.failure.value) else Ok(p.applied);
    }

    static method WriteAll(seen: Section, held: Section, asked: Dict, calls: Option<nat>) returns (p: Progress)
      ensures p == WriteSeen(seen, held, asked, calls, |asked|)
    {
      var i := 0;
      p := Progress(held, map[], calls, None);
      while i < |asked| && p.failure.None?
        invariant 0 <= i <= |asked|
        invariant p == WriteSeen(seen, held, asked, calls, i)
      {
        p := Advance(seen, p, asked[i].0, asked[i].1);
        i := i + 1;
      }
      if p.failure.Some? { FailureStays(seen, held, asked, calls, i, |asked|); }
    }

    /** One pass of the loop: a deletion, a write, or nothing. */
    static method Advance(current: Section, p: Progress, option: string, value: Option<string>) returns (q: Progress)
      requires p.failure.None?
      ensures q == WriteOne(current, p, option, value)
    {
      var was := Stored(current, option);
      q := p;
      if value.None? {
        if was.None? { return; }
        if p.calls == Some(0) { return p.(failure := Some(ServerRefused)); }
        if option !in p.section { return p.(failure := Some(ValueMissing)); }
        return Progress(p.section - {option}, p.applied[option := Change(was, None)], Spend(p.calls), None);
      }
      if was == value { return; }
      if p.calls == Some(0) { return p.(failure := Some(ServerRefused)); }
      q := Progress(p.section[option := value.value], p.applied[option := Change(was, value)], Spend(p.calls), None);
    }

    /** A section that is not there is as good as deleted; a refusal leaves everything. */
    method DeleteSection(name: string, accepted: bool) returns (r: Result<(), Failure>)
      modifies this
      ensures sections == if accepted then old(sections) - {name} else old(sections)
      ensures r == if accepted then Ok(()) else Err(ServerRefused)
    {
      if !accepted { return Err(ServerRefused); }
      sections := sections - {name};
      r := Ok(());
    }

    method ReadOptions(name: string) returns (section: Section)
      ensures section == SectionOf(sections, name)
    {
      section := SectionOf(sections, name);
    }
  }
}
