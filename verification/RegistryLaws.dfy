/** What writing a set of options does to a section, what it records, and how it is undone. */
module RegistryLaws {
  import opened Outcomes
  import opened ShareConf
  import opened ShareConfLaws
  import opened Registry

  /** The submissions among the first `n` that reach this option. */
  function Submitted(asked: Dict, name: string, n: nat): seq<Option<string>>
    requires n <= |asked|
  {
    if n == 0 then []
    else
      var before := Submitted(asked, name, n - 1);
      if asked[n - 1].0 == name then before + [asked[n - 1].1] else before
  }

  /** The value such submissions leave: the last that differs from the stored one. */
  function LastOther(was: Option<string>, values: seq<Option<string>>): Option<string> {
    if values == [] then was
    else if values[|values| - 1] != was then values[|values| - 1]
    else LastOther(was, values[..|values| - 1])
  }

  /** The request laid over the stored value: the last submission wins. */
  function Overlaid(was: Option<string>, values: seq<Option<string>>): Option<string> {
    if values == [] then was else values[|values| - 1]
  }

  predicate AnyOther(was: Option<string>, values: seq<Option<string>>) {
    exists i :: 0 <= i < |values| && values[i] != was
  }

  lemma WriteOneExact(current: Section, p: Progress, option: string, value: Option<string>, name: string)
    requires WriteOne(current, p, option, value).failure.None?
    ensures var q, was := WriteOne(current, p, option, value), Stored(current, option);
      && p.failure.None?
      && (if option == name && value != was then
            Stored(q.section, name) == value && name in q.applied && q.applied[name] == Change(was, value)
          else
            Stored(q.section, name) == Stored(p.section, name) && (name in q.applied <==> name in p.applied) &&
            (name in q.applied ==> q.applied[name] == p.applied[name]))
  {
  }

  lemma LastOtherStep(was: Option<string>, before: seq<Option<string>>, value: Option<string>)
    ensures LastOther(was, before + [value]) == if value != was then value else LastOther(was, before)
    ensures AnyOther(was, before + [value]) <==> value != was || AnyOther(was, before)
  {
    var after := before + [value];
    assert after[..|after| - 1] == before && after[|before|] == value;
    OtherStep(was, before, value, after);
  }

  lemma OtherStep(was: Option<string>, before: seq<Option<string>>, value: Option<string>, after: seq<Option<string>>)
    requires |after| == |before| + 1 && after[|before|] == value
    requires forall i :: 0 <= i < |before| ==> after[i] == before[i]
    ensures AnyOther(was, after) <==> value != was || AnyOther(was, before)
  {
    if AnyOther(was, before) {
      var i :| 0 <= i < |before| && before[i] != was;
      assert after[i] != was;
    }
  }

  /** Option by option: the value left behind, and the record made of it. */
  lemma {:induction false} WriteExact(current: Section, asked: Dict, name: string, calls: Option<nat>, n: nat)
    requires n <= |asked| && WriteFirst(current, asked, calls, n).failure.None?
    ensures var p := WriteFirst(current, asked, calls, n);
      var was, values := Stored(current, name), Submitted(asked, name, n);
      && Stored(p.section, name) == LastOther(was, values)
      && (name in p.applied <==> AnyOther(was, values))
      && (name in p.applied ==> p.applied[name] == Change(was, LastOther(was, values)))
  {
    if n > 0 {
      var option, value := asked[n - 1].0, asked[n - 1].1;
      WriteOneExact(current, WriteFirst(current, asked, calls, n - 1), option, value, name);
      WriteExact(current, asked, name, calls, n - 1);
      if option == name {
        LastOtherStep(Stored(current, name), Submitted(asked, name, n - 1), value);
      }
    }
  }

  lemma {:induction false} LastOtherIsOverlay(was: Option<string>, values: seq<Option<string>>)
    ensures LastOther(was, values) == Overlaid(was, values) <==>
      (Overlaid(was, values) == was ==> !AnyOther(was, values))
    ensures AnyOther(was, values) ==> LastOther(was, values) != was
    ensures !AnyOther(was, values) ==> LastOther(was, values) == was
  {
    if values != [] {
      var before, last := values[..|values| - 1], values[|values| - 1];
      LastOtherIsOverlay(was, before);
      if last != was {
        assert values[|values| - 1] != was;
      } else if AnyOther(was, values) {
        var i :| 0 <= i < |values| && values[i] != was;
        assert before[i] != was;
      } else {
        forall i | 0 <= i < |before| ensures before[i] == was { assert values[i] == was; }
      }
    }
  }

  /** Exactly when the section ends up as the request says: for each option, unless the last
      value asked for is the stored one while another was asked for before it. */
  lemma OverlayIff(current: Section, asked: Dict, name: string, calls: Option<nat>)
    requires Written(current, asked, calls).failure.None?
    ensures var was, values := Stored(current, name), Submitted(asked, name, |asked|);
      Stored(Written(current, asked, calls).section, name) == Overlaid(was, values) <==>
      (Overlaid(was, values) == was ==> !AnyOther(was, values))
  {
    WriteExact(current, asked, name, calls, |asked|);
    LastOtherIsOverlay(Stored(current, name), Submitted(asked, name, |asked|));
  }

  // --- requests that name each option once ---------------------------------------------------

  lemma {:induction false} SubmittedOnce(asked: Dict, name: string, n: nat)
    requires Distinct(asked) && n <= |asked|
    ensures |Submitted(asked, name, n)| <= 1
    ensures forall i :: 0 <= i < n && asked[i].0 == name ==> Submitted(asked, name, n) == [asked[i].1]
    ensures Submitted(asked, name, n) != [] ==> exists i :: 0 <= i < n && asked[i].0 == name
  {
    if n > 0 {
      SubmittedOnce(asked, name, n - 1);
      if asked[n - 1].0 == name {
        assert forall i :: 0 <= i < n - 1 ==> asked[i].0 != name;
      }
    }
  }

  /** With every option named once and a server that refuses nothing, no write fails. */
  lemma {:induction false} NeverFails(current: Section, asked: Dict, n: nat)
    requires Distinct(asked) && n <= |asked|
    ensures WriteFirst(current, asked, None, n).failure.None? && WriteFirst(current, asked, None, n).calls.None?
  {
    if n > 0 {
      NeverFails(current, asked, n - 1);
      var name := asked[n - 1].0;
      WriteExact(current, asked, name, None, n - 1);
      SubmittedOnce(asked, name, n);
      SubmittedOnce(asked, name, n - 1);
      assert Submitted(asked, name, n) == Submitted(asked, name, n - 1) + [asked[n - 1].1];
    }
  }

  /** The requested value of an option, when it is among those named. */
  function Asked(asked: Dict, name: string, was: Option<string>): Option<string> {
    Overlaid(was, Submitted(asked, name, |asked|))
  }

  /** Diff and apply is correct: the section becomes the old one overlaid by the request, and
      the record holds exactly the options whose value changed, with both values. */
  lemma DiffApplyCorrect(current: Section, asked: Dict, name: string)
    requires Distinct(asked)
    ensures var p, was := Written(current, asked, None), Stored(current, name);
      && p.failure.None?
      && Stored(p.section, name) == Asked(asked, name, was)
      && (name in p.applied <==> Stored(p.section, name) != was)
      && (name in p.applied ==> p.applied[name] == Change(was, Stored(p.section, name)))
  {
    var was, values := Stored(current, name), Submitted(asked, name, |asked|);
    NeverFails(current, asked, |asked|);
    WriteExact(current, asked, name, None, |asked|);
    SubmittedOnce(asked, name, |asked|);
    LastOtherIsOverlay(was, values);
    if |values| == 1 && values[0] != was { assert AnyOther(was, values); }
  }

  /** Two sections that store the same value for every name are the same section. */
  lemma SameSection(a: Section, b: Section)
    requires forall name :: Stored(a, name) == Stored(b, name)
    ensures a == b
  {
    forall name ensures name in a <==> name in b { assert Stored(a, name) == Stored(b, name); }
    forall name | name in a ensures a[name] == b[name] { assert Stored(a, name) == Stored(b, name); }
  }

  /** Sending the same request again changes nothing and records nothing. */
  lemma ResendRecordsNothing(current: Section, asked: Dict)
    requires Distinct(asked)
    ensures var once := Written(current, asked, None).section;
      Written(once, asked, None).section == once && Written(once, asked, None).applied == map[]
  {
    var once := Written(current, asked, None).section;
    var twice := Written(once, asked, None);
    forall name: string ensures Stored(twice.section, name) == Stored(once, name) && name !in twice.applied {
      DiffApplyCorrect(current, asked, name);
      DiffApplyCorrect(once, asked, name);
    }
    SameSection(twice.section, once);
    assert twice.applied.Keys == {};
  }

  /** A request that puts the recorded old values back, each recorded name once. */
  predicate Undoes(undo: Dict, applied: map<string, Change>) {
    Distinct(undo) &&
    (forall i :: 0 <= i < |undo| ==> undo[i].0 in applied && undo[i].1 == applied[undo[i].0].was) &&
    (forall name :: name in applied ==> HasKey(undo, name))
  }

  lemma UndoneValue(undo: Dict, applied: map<string, Change>, name: string)
    requires Undoes(undo, applied)
    ensures Submitted(undo, name, |undo|) == if name in applied then [applied[name].was] else []
  {
    SubmittedOnce(undo, name, |undo|);
    if name in applied {
      assert HasKey(undo, name);
      var i :| 0 <= i < |undo| && undo[i].0 == name;
    }
  }

  /** A name that no submission reaches is left alone, however far the write gets. */
  lemma {:induction false} Unreached(current: Section, asked: Dict, calls: Option<nat>, name: string, n: nat)
    requires n <= |asked| && forall i :: 0 <= i < n ==> asked[i].0 != name
    ensures Stored(WriteFirst(current, asked, calls, n).section, name) == Stored(current, name)
  {
    if n > 0 { Unreached(current, asked, calls, name, n - 1); }
  }

  /** Every recorded name is a normalised one. */
  lemma RecordedIsNormal(current: Section, options: Dict, name: string) returns (raw: string)
    requires Distinct(Named(options)) && name in Written(current, Named(options), None).applied
    ensures Normalise(raw) == name
  {
    var asked := Named(options);
    NeverFails(current, asked, |asked|);
    WriteExact(current, asked, name, None, |asked|);
    SubmittedOnce(asked, name, |asked|);
    var i :| 0 <= i < |asked| && asked[i].0 == name;
    raw := options[i].0;
  }

  predicate AllSettled(names: set<string>) {
    forall name :: name in names ==> Normalise(name) == name
  }

  lemma UndoSettled(current: Section, options: Dict, undo: Dict)
    requires Distinct(Named(options)) && Undoes(undo, Written(current, Named(options), None).applied)
    requires AllSettled(Written(current, Named(options), None).applied.Keys)
    ensures Written(Written(current, Named(options), None).section, Named(undo), None).section == current
  {
    var p := Written(current, Named(options), None);
    assert Named(undo) == undo;
    forall name: string ensures Stored(Written(p.section, undo, None).section, name) == Stored(current, name) {
      DiffApplyCorrect(current, Named(options), name);
      DiffApplyCorrect(p.section, undo, name);
      UndoneValue(undo, p.applied, name);
    }
    SameSection(Written(p.section, undo, None).section, current);
  }

  /** Writing a recorded name back goes to the name it settles to, so an unsettled one stays. */
  lemma UnsettledStays(current: Section, options: Dict, undo: Dict, name: string)
    requires Distinct(Named(options)) && Undoes(undo, Written(current, Named(options), None).applied)
    requires name in Written(current, Named(options), None).applied && Normalise(name) != name
    ensures var saved := Written(current, Named(options), None).section;
      Stored(Written(saved, Named(undo), None).section, name) != Stored(current, name)
  {
    var p := Written(current, Named(options), None);
    DiffApplyCorrect(current, Named(options), name);
    forall i | 0 <= i < |undo| ensures Named(undo)[i].0 != name {
      var raw := RecordedIsNormal(current, options, undo[i].0);
      TwiceSettles(raw);
    }
    Unreached(p.section, Named(undo), None, name, |undo|);
  }

  /** Writing the recorded old values back restores the section exactly when every recorded
      name is settled, so that reading it as an option name gives the same name. */
  lemma UndoRestoresIff(current: Section, options: Dict, undo: Dict)
    requires Distinct(Named(options)) && Undoes(undo, Written(current, Named(options), None).applied)
    ensures Written(Written(current, Named(options), None).section, Named(undo), None).section == current <==>
      AllSettled(Written(current, Named(options), None).applied.Keys)
  {
    if AllSettled(Written(current, Named(options), None).applied.Keys) {
      UndoSettled(current, options, undo);
    } else {
      var name :| name in Written(current, Named(options), None).applied && Normalise(name) != name;
      UnsettledStays(current, options, undo, name);
    }
  }

  // --- a section that was not seen whole ---------------------------------------------------------

  /** The values that were missed in reading, and only they, can keep an option from ending as
      asked: those that were there and were to be deleted. */
  predicate Overlooked(held: Section, missed: set<string>, asked: Dict, name: string) {
    name in missed && name in held && Submitted(asked, name, |asked|) == [None]
  }

  lemma {:induction false} SeenExact(held: Section, missed: set<string>, asked: Dict, calls: Option<nat>,
                                     name: string, n: nat)
    requires n <= |asked| && WriteSeen(held - missed, held, asked, calls, n).failure.None?
    ensures var p := WriteSeen(held - missed, held, asked, calls, n);
      var was, values := Stored(held - missed, name), Submitted(asked, name, n);
      Stored(p.section, name) == if AnyOther(was, values) then LastOther(was, values) else Stored(held, name)
  {
    if n > 0 {
      var seen, option, value := held - missed, asked[n - 1].0, asked[n - 1].1;
      WriteOneExact(seen, WriteSeen(seen, held, asked, calls, n - 1), option, value, name);
      SeenExact(held, missed, asked, calls, name, n - 1);
      if option == name { LastOtherStep(Stored(seen, name), Submitted(asked, name, n - 1), value); }
    }
  }

  /** Exactly which options still end as asked when some values were missed: all but those
      overlooked, which stay as they were. */
  lemma PartlySeenIff(held: Section, missed: set<string>, asked: Dict, calls: Option<nat>, name: string)
    requires Distinct(asked) && WriteSeen(held - missed, held, asked, calls, |asked|).failure.None?
    ensures var left := Stored(WriteSeen(held - missed, held, asked, calls, |asked|).section, name);
      && (left == Asked(asked, name, Stored(held, name)) <==> !Overlooked(held, missed, asked, name))
      && (Overlooked(held, missed, asked, name) ==> left == Stored(held, name))
  {
    var was, values := Stored(held - missed, name), Submitted(asked, name, |asked|);
    SeenExact(held, missed, asked, calls, name, |asked|);
    SubmittedOnce(asked, name, |asked|);
    LastOtherIsOverlay(was, values);
    if |values| == 1 && values[0] != was { assert AnyOther(was, values); }
    if |values| == 1 && values[0] == was { assert !AnyOther(was, values); }
  }

  /** Naming one option twice can lose the later value: asking for a new value and then for
      the stored one, under another spelling, leaves the new value in place. */
  lemma SecondNameLost()
    ensures var current: Section := map["a b" := "1"];
      var options: Dict := [("a b", Some("2")), ("a_b", Some("1"))];
      Written(current, Named(options), None).section == map["a b" := "2"]
  {
    var current: Section := map["a b" := "1"];
    var options: Dict := [("a b", Some("2")), ("a_b", Some("1"))];
    NamesMeet();
    var asked := Named(options);
    assert asked == [("a b", Some("2")), ("a b", Some("1"))];
    TwiceNamed(current, asked, "a b", "2");
  }

  lemma TwiceNamed(current: Section, asked: Dict, name: string, value: string)
    requires name in current && current[name] != value
    requires asked == [(name, Some(value)), (name, Some(current[name]))]
    ensures Written(current, asked, None).section == current[name := value]
  {
    var start := Progress(current, map[], None, None);
    assert WriteFirst(current, asked, None, 0) == start;
    var first := WriteOne(current, start, name, Some(value));
    assert WriteFirst(current, asked, None, 1) == first;
    assert WriteFirst(current, asked, None, 2) == WriteOne(current, first, name, Some(current[name]));
  }

  lemma NamesMeet()
    ensures Normalise("a b") == "a b" && Normalise("a_b") == "a b"
  {
    SettledName("a b");
    NormaliseChars("a_b");
  }

  // --- which sections a write can touch -----------------------------------------------------------

  /** A write touches no section but its own, leaves that one there, if only empty, once it is
      open, and leaves everything as it was when it cannot be opened. */
  lemma WriteStays(sections: map<string, Section>, name: string, options: Dict, reach: Reach, missed: set<string>)
    ensures var (after, r) := AttemptedSeeing(sections, name, options, reach, missed);
      && after - {name} == sections - {name}
      && (reach == Closed ==> after == sections && r == Err(ServerRefused))
      && (reach != Closed ==> name in after)
      && (reach == Writable(None) ==> r != Err(ServerRefused))
  {
    var was := SectionOf(sections, name);
    NeverRefused(was - missed, was, Named(options), |options|);
  }

  lemma {:induction false} NeverRefused(seen: Section, held: Section, asked: Dict, n: nat)
    requires n <= |asked|
    ensures var p := WriteSeen(seen, held, asked, None, n); p.calls == None && p.failure != Some(ServerRefused)
  {
    if n > 0 { NeverRefused(seen, held, asked, n - 1); }
  }
}
