/** The life of a share: what each operation touches, what a creation stores, and what is
    left when one fails. */
module ShareLaws {
  import opened Outcomes
  import opened Text
  import opened ShareConf
  import opened ShareConfLaws
  import opened Registry
  import opened RegistryLaws
  import opened Shares

  /** One operation with the answers it meets. */
  datatype Op =
    | Create(name: string, path: string, comment: Option<string>, options: Dict, served: Served, reach: Reach,
             cleanUpWorks: bool, servedAfter: Served)
    | Update(name: string, newPath: Option<string>, comment: Option<string>, options: Dict, served: Served,
             info: Info, reach: Reach)
    | Delete(name: string, served: Served, accepted: bool)

  function CreateBy(sections: Sections, catalogue: Catalogue, op: Op): (Sections, Result<Changes, ShareError>)
    requires op.Create?
  {
    Created(sections, catalogue, op.name, op.path, op.comment, op.options,
            op.served, op.reach, op.cleanUpWorks, op.servedAfter)
  }

  function UpdateBy(sections: Sections, catalogue: Catalogue, op: Op, info: Info, reach: Reach):
    (Sections, Result<Changes, ShareError>)
    requires op.Update?
  {
    Updated(sections, catalogue, op.name, op.newPath, op.comment, op.options, op.served, info, reach)
  }

  function Step(sections: Sections, catalogue: Catalogue, op: Op): Sections {
    if op.Create? then CreateBy(sections, catalogue, op).0
    else if op.Update? then UpdateBy(sections, catalogue, op, op.info, op.reach).0
    else Deleted(sections, op.name, op.served, op.accepted).0
  }

  function Run(sections: Sections, catalogue: Catalogue, ops: seq<Op>): Sections {
    if ops == [] then sections else Step(Run(sections, catalogue, ops[..|ops| - 1]), catalogue, ops[|ops| - 1])
  }

  /** Whatever an operation answers, only the section it names can change. */
  lemma OnlyTheNamedSection(sections: Sections, catalogue: Catalogue, op: Op)
    ensures Step(sections, catalogue, op) - {op.name} == sections - {op.name}
  {
  }

  lemma {:induction false} OthersUntouched(sections: Sections, catalogue: Catalogue, ops: seq<Op>, name: string)
    requires forall i :: 0 <= i < |ops| ==> ops[i].name != name
    ensures name in Run(sections, catalogue, ops) <==> name in sections
    ensures name in sections ==> Run(sections, catalogue, ops)[name] == sections[name]
  {
    if ops != [] {
      var before, op := ops[..|ops| - 1], ops[|ops| - 1];
      OthersUntouched(sections, catalogue, before, name);
      var s := Run(sections, catalogue, before);
      OnlyTheNamedSection(s, catalogue, op);
      assert name in Step(s, catalogue, op) - {op.name} <==> name in s - {op.name};
      if name in s { assert (Step(s, catalogue, op) - {op.name})[name] == (s - {op.name})[name]; }
    }
  }

  // --- the values a creation writes ----------------------------------------------------------

  predicate NoKeyIn(d: Dict, names: Dict) {
    forall i :: 0 <= i < |d| ==> !HasKey(names, d[i].0)
  }

  lemma {:induction false} PutAllAppends(base: Dict, more: Dict, n: nat)
    requires n <= |more| && Distinct(more) && NoKeyIn(more, base)
    ensures PutAll(base, more, n) == base + more[..n]
  {
    if n > 0 {
      PutAllAppends(base, more, n - 1);
      var d, name := base + more[..n - 1], more[n - 1].0;
      forall k | 0 <= k < |d| ensures d[k].0 != name {
        assert k < |base| ==> d[k] == base[k] && HasKey(base, d[k].0);
        assert k >= |base| ==> d[k] == more[k - |base|];
      }
      assert d + [more[n - 1]] == base + more[..n];
    } else {
      assert base + more[..0] == base;
    }
  }

  lemma CheckedSettle(catalogue: Catalogue, options: Dict)
    requires PlainNames(options) && Validated(catalogue, options).Ok?
    ensures var d := Validated(catalogue, options).value;
      && Distinct(d) && Named(d) == d
      && forall k :: 0 <= k < |d| ==> d[k].0 != PATH && d[k].0 != COMMENT
  {
    ValidatedShape(catalogue, options, |options|);
    var d := Validated(catalogue, options).value;
    forall k | 0 <= k < |d| ensures Normalise(d[k].0) == d[k].0 && d[k].0 != PATH && d[k].0 != COMMENT {
      assert CheckedName(d[k].0, options);
      var i :| 0 <= i < |options| && Normalise(options[i].0) == d[k].0;
      NormaliseSettlesIff(options[i].0);
    }
  }

  /** A form once saved can be sent again exactly when no name in it has an underscore at either
      end: it then passes the check unchanged, writes nothing and records nothing. */
  lemma SavedFormResent(catalogue: Catalogue, options: Dict, current: Section)
    requires TrimmedCatalogue(catalogue) && Validated(catalogue, options).Ok?
    ensures var form := Validated(catalogue, options).value;
      var saved := Written(current, Named(form), None).section;
      && (Validated(catalogue, form) == Ok(form) <==> PlainNames(options))
      && (PlainNames(options) ==>
            Written(saved, Named(form), None).section == saved && Written(saved, Named(form), None).applied == map[])
  {
    FormsSettleIff(catalogue, options);
    if PlainNames(options) {
      CheckedSettle(catalogue, options);
      ResendRecordsNothing(current, Validated(catalogue, options).value);
    }
  }

  /** The path and, when given, the comment: the first values of every creation. */
  function BaseValues(path: string, comment: Option<string>): Dict {
    [(PATH, Some(path))] + (if comment == None || comment == Some("") then [] else [(COMMENT, comment)])
  }

  lemma OwnNamesSettle()
    ensures Normalise(PATH) == PATH && Normalise(COMMENT) == COMMENT
  {
    SettledName(PATH);
    SettledName(COMMENT);
  }

  lemma CreateValuesAre(catalogue: Catalogue, path: string, comment: Option<string>, options: Dict)
    requires PlainNames(options) && Validated(catalogue, options).Ok?
    ensures var values := BaseValues(path, comment) + Validated(catalogue, options).value;
      CreateValues(path, comment, Validated(catalogue, options).value) == values &&
      Named(values) == values && Distinct(values)
  {
    var d, base := Validated(catalogue, options).value, BaseValues(path, comment);
    CheckedSettle(catalogue, options);
    CheckedAfterBase(catalogue, path, comment, options);
    DistinctSum(base, d);
  }

  lemma DistinctSum(base: Dict, d: Dict)
    requires Distinct(base) && Distinct(d) && NoKeyIn(d, base)
    ensures Distinct(base + d)
  {
    var all := base + d;
    forall i, j | 0 <= i < j < |all| ensures all[i].0 != all[j].0 {
      if i < |base| <= j { assert base[i].0 == all[i].0 && d[j - |base|].0 == all[j].0; }
    }
  }

  /** The section a creation is meant to store. */
  ghost predicate StoresExactly(section: Section, path: string, comment: Option<string>, checked: Dict) {
    forall name :: Stored(section, name) == Asked(BaseValues(path, comment) + checked, name, None)
  }

  lemma OverlayWrite(current: Section, asked: Dict, calls: Option<nat>, name: string)
    requires Distinct(asked) && Written(current, asked, calls).failure.None?
    ensures Stored(Written(current, asked, calls).section, name) == Asked(asked, name, Stored(current, name))
  {
    var was, values := Stored(current, name), Submitted(asked, name, |asked|);
    WriteExact(current, asked, name, calls, |asked|);
    SubmittedOnce(asked, name, |asked|);
    LastOtherIsOverlay(was, values);
    if |values| == 1 && values[0] != was { assert AnyOther(was, values); }
  }

  /** What a successful creation leaves: the section that stood there, if any, overlaid by the
      path, the comment and the options given. */
  lemma CreateOverlays(sections: Sections, catalogue: Catalogue, op: Op, name: string)
    requires op.Create? && PlainNames(op.options) && CreateBy(sections, catalogue, op).1.Ok?
    ensures var after := Step(sections, catalogue, op);
      op.name in after && Stored(after[op.name], name) ==
        Asked(BaseValues(op.path, op.comment) + Validated(catalogue, op.options).value, name,
              Stored(SectionOf(sections, op.name), name))
  {
    CreateValuesAre(catalogue, op.path, op.comment, op.options);
    var values := BaseValues(op.path, op.comment) + Validated(catalogue, op.options).value;
    OverlayWrite(SectionOf(sections, op.name), values, op.reach.calls, name);
  }

  lemma AskedIffNamed(asked: Dict, name: string)
    requires Distinct(asked)
    ensures HasKey(asked, name) ==> forall was, other :: Asked(asked, name, was) == Asked(asked, name, other)
    ensures !HasKey(asked, name) ==> forall was :: Asked(asked, name, was) == was
  {
    SubmittedOnce(asked, name, |asked|);
  }

  /** A successful creation stores exactly the path, the comment and the options given if and
      only if nothing else was stored under the name before. */
  lemma CreateStoresExactly(sections: Sections, catalogue: Catalogue, op: Op)
    requires op.Create? && PlainNames(op.options) && CreateBy(sections, catalogue, op).1.Ok?
    ensures var after, checked := Step(sections, catalogue, op), Validated(catalogue, op.options).value;
      && op.name in after
      && (StoresExactly(after[op.name], op.path, op.comment, checked) <==>
          forall name :: name in SectionOf(sections, op.name) ==>
            HasKey(BaseValues(op.path, op.comment) + checked, name))
  {
    CreateValuesAre(catalogue, op.path, op.comment, op.options);
    var values := BaseValues(op.path, op.comment) + Validated(catalogue, op.options).value;
    var was, after := SectionOf(sections, op.name), Step(sections, catalogue, op);
    forall name ensures op.name in after &&
      (Stored(after[op.name], name) == Asked(values, name, None) <==> (name in was ==> HasKey(values, name))) {
      CreateOverlays(sections, catalogue, op, name);
      AskedIffNamed(values, name);
    }
  }

  /** Nothing is inherited: after a share is deleted, and whatever is done to others since, a
      creation under its name stores exactly what it was given. */
  lemma NothingInherited(sections: Sections, catalogue: Catalogue, others: seq<Op>, op: Op)
    requires op.Create? && PlainNames(op.options)
    requires Deleted(sections, op.name, There, true).1.Ok?
    requires forall i :: 0 <= i < |others| ==> others[i].name != op.name
    requires var between := Run(Deleted(sections, op.name, There, true).0, catalogue, others);
      CreateBy(between, catalogue, op).1.Ok?
    ensures var after := Step(Run(Deleted(sections, op.name, There, true).0, catalogue, others), catalogue, op);
      op.name in after && StoresExactly(after[op.name], op.path, op.comment, Validated(catalogue, op.options).value)
  {
    OthersUntouched(Deleted(sections, op.name, There, true).0, catalogue, others, op.name);
    CreateStoresExactly(Run(Deleted(sections, op.name, There, true).0, catalogue, others), catalogue, op);
  }

  // --- a creation that fails ---------------------------------------------------------------------

  lemma {:induction false} SubmittedHas(asked: Dict, i: nat, n: nat)
    requires i < n <= |asked|
    ensures asked[i].1 in Submitted(asked, asked[i].0, n)
  {
    if i < n - 1 { SubmittedHas(asked, i, n - 1); }
  }

  /** A write that succeeds leaves the section as it was exactly when all it asks is there. */
  lemma UnchangedIff(current: Section, asked: Dict, calls: Option<nat>)
    requires Written(current, asked, calls).failure.None?
    ensures Written(current, asked, calls).section == current <==> AllStored(current, asked)
  {
    if AllStored(current, asked) {
      NothingToWrite(current, asked, calls, |asked|);
    } else {
      var i :| 0 <= i < |asked| && Stored(current, asked[i].0) != asked[i].1;
      var name := asked[i].0;
      WriteExact(current, asked, name, calls, |asked|);
      SubmittedHas(asked, i, |asked|);
      LastOtherIsOverlay(Stored(current, name), Submitted(asked, name, |asked|));
    }
  }

  /** What a creation asks the store to hold. */
  function CreateAsks(catalogue: Catalogue, op: Op): Dict
    requires op.Create? && Validated(catalogue, op.options).Ok?
  {
    Named(CreateValues(op.path, op.comment, Validated(catalogue, op.options).value))
  }

  /** A failed creation whose clean-up works leaves the registry as it was exactly when the
      write was never begun; or it failed, and there was no section to take back with it; or
      it succeeded, only the question after it failing, and all it asks for was there before. */
  lemma FailedCreateRestoresIff(sections: Sections, catalogue: Catalogue, op: Op)
    requires op.Create? && op.cleanUpWorks && CreateBy(sections, catalogue, op).1.Err?
    ensures Step(sections, catalogue, op) == sections <==>
      match CreateBy(sections, catalogue, op).1.error
      case StoreFailed(_) => op.name !in sections
      case Unconfirmed =>
        op.name in sections && Validated(catalogue, op.options).Ok? &&
        AllStored(sections[op.name], CreateAsks(catalogue, op))
      case _ => true
  {
    var error := CreateBy(sections, catalogue, op).1.error;
    if error.Unconfirmed? {
      var was, asked := SectionOf(sections, op.name), CreateAsks(catalogue, op);
      UnchangedIff(was, asked, op.reach.calls);
      PutBack(sections, op.name, Written(was, asked, op.reach.calls).section);
    }
  }

  lemma PutBack(sections: Sections, name: string, section: Section)
    ensures sections[name := section] == sections <==> name in sections && sections[name] == section
  {
    if name in sections && sections[name] == section {
      assert sections[name := section] == sections;
    } else {
      assert sections[name := section][name] == section;
    }
  }

  /** So a new share stays behind whenever the server answers before the write and not after. */
  lemma UnconfirmedStays(sections: Sections, catalogue: Catalogue, op: Op)
    requires op.Create? && op.cleanUpWorks && op.name !in sections && !IsAdministrative(op.name)
    requires Validated(catalogue, op.options).Ok? && PlainNames(op.options)
    requires op.served.Missing? && op.reach == Writable(None) && op.servedAfter.Refuses?
    ensures CreateBy(sections, catalogue, op).1 == Err(Unconfirmed) && op.name in Step(sections, catalogue, op)
  {
    CreateValuesAre(catalogue, op.path, op.comment, op.options);
    var values := BaseValues(op.path, op.comment) + Validated(catalogue, op.options).value;
    NeverFails(SectionOf(sections, op.name), values, |values|);
  }

  /** And a section not yet served is deleted whenever a second creation cannot be written. */
  lemma LeftoverDeleted(sections: Sections, catalogue: Catalogue, op: Op)
    requires op.Create? && op.cleanUpWorks && op.name in sections && !IsAdministrative(op.name)
    requires Validated(catalogue, op.options).Ok? && op.served.Missing? && op.reach.Closed?
    ensures CreateBy(sections, catalogue, op).1 == Err(StoreFailed(ServerRefused))
    ensures op.name !in Step(sections, catalogue, op)
  {
  }

  // --- the path given is the path stored ---------------------------------------------------------

  lemma {:induction false} SubmittedAppend(a: Dict, b: Dict, name: string, n: nat)
    requires n <= |b|
    ensures Submitted(a + b, name, |a| + n) == Submitted(a, name, |a|) + Submitted(b, name, n)
  {
    if n == 0 {
      SubmittedPrefix(a, b, name, |a|);
    } else {
      SubmittedAppend(a, b, name, n - 1);
    }
  }

  lemma {:induction false} SubmittedPrefix(a: Dict, b: Dict, name: string, n: nat)
    requires n <= |a|
    ensures Submitted(a + b, name, n) == Submitted(a, name, n)
  {
    if n > 0 { SubmittedPrefix(a, b, name, n - 1); }
  }

  lemma {:induction false} LastOtherAfter(first: Option<string>, values: seq<Option<string>>)
    requires first.Some?
    ensures LastOther(None, [first] + values) ==
      if LastOther(None, values) == None then first else LastOther(None, values)
  {
    var all := [first] + values;
    if values == [] {
      assert all[..|all| - 1] == [];
      assert LastOther(None, all) == first;
    } else {
      assert all[..|all| - 1] == [first] + values[..|values| - 1];
      LastOtherAfter(first, values[..|values| - 1]);
    }
  }

  /** The value the options themselves would leave under the share's path. */
  function SmuggledPath(checked: Dict): Option<string> {
    LastOther(None, Submitted(Named(checked), PATH, |checked|))
  }

  lemma NamedAppend(a: Dict, b: Dict)
    ensures Named(a + b) == Named(a) + Named(b)
  {
  }

  lemma BaseSettles(path: string, comment: Option<string>)
    ensures Named(BaseValues(path, comment)) == BaseValues(path, comment)
  {
    OwnNamesSettle();
  }

  lemma BasePath(path: string, comment: Option<string>)
    ensures var base := BaseValues(path, comment); Submitted(base, PATH, |base|) == [Some(path)]
  {
    var base := BaseValues(path, comment);
    assert Submitted(base, PATH, 0) == [];
    assert Submitted(base, PATH, 1) == [Some(path)];
  }

  /** A new share stores the path it was given exactly when no option, read a second time,
      names another one. */
  lemma PathKeptIff(sections: Sections, catalogue: Catalogue, op: Op)
    requires op.Create? && op.name !in sections
    requires CreateBy(sections, catalogue, op).1.Ok?
    ensures var smuggled := SmuggledPath(Validated(catalogue, op.options).value);
      Stored(Step(sections, catalogue, op)[op.name], PATH) == Some(op.path) <==>
      smuggled.None? || smuggled == Some(op.path)
  {
    var d := Validated(catalogue, op.options).value;
    CheckedAfterBase(catalogue, op.path, op.comment, op.options);
    PathWritten(op.path, op.comment, Named(d), op.reach.calls);
  }

  /** Checked options never replace the path and comment of a creation before they are written. */
  lemma CheckedAfterBase(catalogue: Catalogue, path: string, comment: Option<string>, options: Dict)
    requires Validated(catalogue, options).Ok?
    ensures var d, base := Validated(catalogue, options).value, BaseValues(path, comment);
      CreateValues(path, comment, d) == base + d && Named(base + d) == base + Named(d) &&
      NoKeyIn(d, base) && Distinct(d)
  {
    var d, base := Validated(catalogue, options).value, BaseValues(path, comment);
    ValidatedShape(catalogue, options, |options|);
    forall i | 0 <= i < |d| ensures !HasKey(base, d[i].0) {
      assert CheckedName(d[i].0, options);
    }
    PutAllAppends(base, d, |d|);
    assert d[..|d|] == d;
    NamedAppend(base, d);
    BaseSettles(path, comment);
  }

  lemma {:induction false} PathWritten(path: string, comment: Option<string>, more: Dict, calls: Option<nat>)
    requires Written(map[], BaseValues(path, comment) + more, calls).failure.None?
    ensures var left := LastOther(None, Submitted(more, PATH, |more|));
      Stored(Written(map[], BaseValues(path, comment) + more, calls).section, PATH) ==
      if left.None? then Some(path) else left
  {
    BasePath(path, comment);
    FirstThenMore(BaseValues(path, comment), more, calls, Some(path));
  }

  lemma {:induction false} FirstThenMore(base: Dict, more: Dict, calls: Option<nat>, first: Option<string>)
    requires first.Some? && Submitted(base, PATH, |base|) == [first]
    requires Written(map[], base + more, calls).failure.None?
    ensures var left := LastOther(None, Submitted(more, PATH, |more|));
      Stored(Written(map[], base + more, calls).section, PATH) == if left.None? then first else left
  {
    WriteExact(map[], base + more, PATH, calls, |base + more|);
    SubmittedAppend(base, more, PATH, |more|);
    LastOtherAfter(first, Submitted(more, PATH, |more|));
  }

  lemma UnderscoreNames()
    ensures Normalise("_path") == " path" && Normalise(" path") == PATH
  {
    NormaliseChars("_path");
    assert Strip(" path") == "path";
    NormaliseChars(" path");
  }

  lemma UnderscoreChecked(other: string)
    requires Trimmed(other)
    ensures Validated(map[], [("_path", Some(other))]) == Ok([(" path", Some(other))])
  {
    var options: Dict := [("_path", Some(other))];
    UnderscoreNames();
    StripTrimmed(other);
    assert ValidateFirst(map[], options, 0) == Ok([]);
    assert Put([], " path", Some(other)) == [(" path", Some(other))];
    assert WithOption(map[], [], "_path", Some(other)) == Ok([(" path", Some(other))]);
  }

  /** Such an option exists: its name passes the check as " path" and is written as "path". */
  lemma UnderscorePath(path: string, other: string)
    requires path != other && Trimmed(other)
    ensures var options: Dict := [("_path", Some(other))];
      var (after, r) := Created(map[], map[], "s", path, None, options, Missing, Writable(None), true, There);
      r.Ok? && "s" in after && Stored(after["s"], PATH) == Some(other)
  {
    var d: Dict := [(" path", Some(other))];
    UnderscoreChecked(other);
    UnderscoreNames();
    var base := BaseValues(path, None);
    assert PutAll(base, d, 0) == base;
    assert CreateValues(path, None, d) == base + d;
    NamedAppend(base, d);
    BaseSettles(path, None);
    assert Named(d) == [(PATH, Some(other))];
    TwoPaths(path, other);
    assert Lower("s") == "s";
  }

  lemma TwoPaths(path: string, other: string)
    requires path != other
    ensures var p := Written(map[], BaseValues(path, None) + [(PATH, Some(other))], None);
      p.failure.None? && Stored(p.section, PATH) == Some(other)
  {
    var asked := BaseValues(path, None) + [(PATH, Some(other))];
    assert asked == [(PATH, Some(path)), (PATH, Some(other))];
    var start := Progress(map[], map[], None, None);
    assert WriteFirst(map[], asked, None, 0) == start;
    var first := WriteOne(map[], start, PATH, Some(path));
    assert WriteFirst(map[], asked, None, 1) == first;
    assert WriteFirst(map[], asked, None, 2) == WriteOne(map[], first, PATH, Some(other));
  }

  // --- changing a share twice --------------------------------------------------------------------

  /** Every value asked for is already stored. */
  predicate AllStored(section: Section, asked: Dict) {
    forall i :: 0 <= i < |asked| ==> Stored(section, asked[i].0) == asked[i].1
  }

  lemma {:induction false} NothingToWrite(current: Section, asked: Dict, calls: Option<nat>, n: nat)
    requires AllStored(current, asked) && n <= |asked|
    ensures WriteFirst(current, asked, calls, n) == Progress(current, map[], calls, None)
  {
    if n > 0 { NothingToWrite(current, asked, calls, n - 1); }
  }

  lemma OnceWritten(current: Section, asked: Dict, calls: Option<nat>, i: nat)
    requires Distinct(asked) && i < |asked| && Written(current, asked, calls).failure.None?
    ensures Stored(Written(current, asked, calls).section, asked[i].0) == asked[i].1
  {
    var name := asked[i].0;
    var values := Submitted(asked, name, |asked|);
    WriteExact(current, asked, name, calls, |asked|);
    SubmittedOnce(asked, name, |asked|);
    assert values == [asked[i].1];
  }

  lemma NotWritten(current: Section, asked: Dict, calls: Option<nat>, name: string)
    requires Distinct(asked) && !HasKey(asked, name) && Written(current, asked, calls).failure.None?
    ensures Stored(Written(current, asked, calls).section, name) == Stored(current, name)
  {
    WriteExact(current, asked, name, calls, |asked|);
    SubmittedOnce(asked, name, |asked|);
    assert Submitted(asked, name, |asked|) == [];
  }

  function PathPart(stored: Section, info: Info, path: Option<string>): Dict {
    if path.Some? && path != CurrentField(stored, PATH, info.path) then [(PATH, path)] else []
  }

  function OrEmpty(field: Option<string>): string {
    if field.Some? then field.value else ""
  }

  function CommentPart(stored: Section, info: Info, comment: Option<string>): Dict {
    if comment.Some? && comment.value != OrEmpty(CurrentField(stored, COMMENT, info.comment)) then [(COMMENT, comment)]
    else []
  }

  lemma UpdateValuesAre(checked: Dict, stored: Section, info: Info, path: Option<string>, comment: Option<string>)
    requires Distinct(checked) && Named(checked) == checked && !HasKey(checked, PATH) && !HasKey(checked, COMMENT)
    ensures var values := checked + PathPart(stored, info, path) + CommentPart(stored, info, comment);
      UpdateValues(checked, stored, info, path, comment) == values && Distinct(values) && Named(values) == values
  {
    var p, c := PathPart(stored, info, path), CommentPart(stored, info, comment);
    if HasKey(checked + p, COMMENT) { KeyOfSum(checked, p, COMMENT); }
    forall i | 0 <= i < |checked| ensures checked[i].0 != PATH && checked[i].0 != COMMENT {
      assert HasKey(checked, checked[i].0);
    }
    OwnNamesSettle();
    NamedAppend(checked + p, c);
    NamedAppend(checked, p);
    assert Named(p) == p && Named(c) == c;
    assert checked + [] == checked;
    assert (checked + p) + [] == checked + p;
  }

  /** The comment asked for is stored, or what the server reports will do. */
  predicate CommentSettled(after: Section, again: Info, comment: Option<string>) {
    comment.None? || Stored(after, COMMENT) == comment || OrEmpty(again.comment) == comment.value
  }

  /** After an update, everything the same update would write is already stored, exactly when
      the comment is settled. */
  lemma UpdateSettles(checked: Dict, stored: Section, info: Info, again: Info, path: Option<string>,
                      comment: Option<string>, calls: Option<nat>)
    requires Distinct(checked) && Named(checked) == checked && !HasKey(checked, PATH) && !HasKey(checked, COMMENT)
    requires IsText(Stored(stored, PATH))
    requires Written(stored, UpdateValues(checked, stored, info, path, comment), calls).failure.None?
    ensures var after := Written(stored, UpdateValues(checked, stored, info, path, comment), calls).section;
      && PATH in after
      && (AllStored(after, UpdateValues(checked, after, again, path, comment)) <==>
          CommentSettled(after, again, comment))
  {
    var values := UpdateValues(checked, stored, info, path, comment);
    var after := Written(stored, values, calls).section;
    UpdateValuesAre(checked, stored, info, path, comment);
    UpdateValuesAre(checked, after, again, path, comment);
    PathSettles(checked, stored, info, path, comment, calls);
    CommentSettles(checked, stored, info, again, path, comment, calls);
    forall i | 0 <= i < |checked| ensures Stored(after, checked[i].0) == checked[i].1 {
      assert values[i] == checked[i];
      OnceWritten(stored, values, calls, i);
    }
    AllOf(after, checked + PathPart(after, again, path), CommentPart(after, again, comment));
    AllOf(after, checked, PathPart(after, again, path));
  }

  lemma AllOf(section: Section, a: Dict, b: Dict)
    ensures AllStored(section, a + b) <==> AllStored(section, a) && AllStored(section, b)
  {
    assert forall i :: 0 <= i < |a| ==> (a + b)[i] == a[i];
    assert forall i :: 0 <= i < |b| ==> (a + b)[|a| + i] == b[i];
  }

  lemma PathSettles(checked: Dict, stored: Section, info: Info, path: Option<string>, comment: Option<string>,
                    calls: Option<nat>)
    requires Distinct(checked) && Named(checked) == checked && !HasKey(checked, PATH) && !HasKey(checked, COMMENT)
    requires IsText(Stored(stored, PATH))
    requires Written(stored, UpdateValues(checked, stored, info, path, comment), calls).failure.None?
    ensures var after := Written(stored, UpdateValues(checked, stored, info, path, comment), calls).section;
      PATH in after && (path.Some? ==> Stored(after, PATH) == path)
  {
    var values := UpdateValues(checked, stored, info, path, comment);
    UpdateValuesAre(checked, stored, info, path, comment);
    if PathPart(stored, info, path) != [] {
      assert values[|checked|] == (PATH, path);
      OnceWritten(stored, values, calls, |checked|);
    } else {
      KeysOfSum(checked, [], CommentPart(stored, info, comment), PATH);
      NotWritten(stored, values, calls, PATH);
    }
  }

  lemma CommentSettles(checked: Dict, stored: Section, info: Info, again: Info, path: Option<string>,
                       comment: Option<string>, calls: Option<nat>)
    requires Distinct(checked) && Named(checked) == checked && !HasKey(checked, PATH) && !HasKey(checked, COMMENT)
    requires Written(stored, UpdateValues(checked, stored, info, path, comment), calls).failure.None?
    ensures var after := Written(stored, UpdateValues(checked, stored, info, path, comment), calls).section;
      AllStored(after, CommentPart(after, again, comment)) <==> CommentSettled(after, again, comment)
  {
    var values := UpdateValues(checked, stored, info, path, comment);
    var p, c := PathPart(stored, info, path), CommentPart(stored, info, comment);
    UpdateValuesAre(checked, stored, info, path, comment);
    if c != [] {
      assert values[|checked + p|] == (COMMENT, comment);
      OnceWritten(stored, values, calls, |checked + p|);
    } else {
      KeysOfSum(checked, p, [], COMMENT);
      NotWritten(stored, values, calls, COMMENT);
    }
    var after := Written(stored, values, calls).section;
    var part := CommentPart(after, again, comment);
    if part != [] { assert part[0] == (COMMENT, comment); }
    assert AllStored(after, part) <==> part == [] || Stored(after, COMMENT) == comment;
  }

  lemma KeyOfSum(a: Dict, b: Dict, name: string)
    requires HasKey(a + b, name)
    ensures HasKey(a, name) || HasKey(b, name)
  {
    var k :| 0 <= k < |a + b| && (a + b)[k].0 == name;
    if k < |a| {
      assert a[k].0 == name;
    } else {
      assert b[k - |a|].0 == name;
    }
  }

  lemma KeysOfSum(a: Dict, b: Dict, c: Dict, name: string)
    requires !HasKey(a, name) && !HasKey(b, name) && !HasKey(c, name)
    ensures !HasKey(a + b + c, name)
  {
    if HasKey(a + b + c, name) {
      KeyOfSum(a + b, c, name);
      KeyOfSum(a, b, name);
    }
  }

  /** An update whose section can be written changes and reports nothing exactly when all it
      asks for is stored. */
  lemma QuietUpdate(sections: Sections, catalogue: Catalogue, op: Op, info: Info, calls: Option<nat>)
    requires op.Update? && !IsAdministrative(op.name) && Validated(catalogue, op.options).Ok? && op.served.There?
    requires info.readable && ReadName(info, op.name) == op.name && op.name in sections && sections[op.name] != map[]
    requires var checked := Validated(catalogue, op.options).value;
      var values := UpdateValues(checked, sections[op.name], info, op.newPath, op.comment);
      Named(values) == values
    ensures UpdateBy(sections, catalogue, op, info, Writable(calls)) == (sections, Ok(map[])) <==>
      AllStored(sections[op.name],
                UpdateValues(Validated(catalogue, op.options).value, sections[op.name], info, op.newPath, op.comment))
  {
    var values := UpdateValues(Validated(catalogue, op.options).value, sections[op.name], info, op.newPath, op.comment);
    var p := Written(sections[op.name], values, calls);
    PutBack(sections, op.name, p.section);
    if AllStored(sections[op.name], values) {
      NothingToWrite(sections[op.name], values, calls, |values|);
    } else if p.failure.None? {
      UnchangedIff(sections[op.name], values, calls);
    }
  }

  function CallsOf(reach: Reach): Option<nat> {
    if reach.Writable? then reach.calls else None
  }

  lemma FirstUpdate(sections: Sections, catalogue: Catalogue, op: Op)
    requires op.Update? && PlainNames(op.options) && ReadName(op.info, op.name) == op.name
    requires UpdateBy(sections, catalogue, op, op.info, op.reach).1.Ok?
    ensures !IsAdministrative(op.name) && Validated(catalogue, op.options).Ok? && op.served.There?
    ensures var stored, checked := SectionOf(sections, op.name), Validated(catalogue, op.options).value;
      var p := Written(stored, UpdateValues(checked, stored, op.info, op.newPath, op.comment), CallsOf(op.reach));
      && p.failure.None?
      && op.name in Step(sections, catalogue, op)
      && Step(sections, catalogue, op)[op.name] == p.section
  {
    var stored, checked := SectionOf(sections, op.name), Validated(catalogue, op.options).value;
    CheckedSettle(catalogue, op.options);
    UpdateValuesAre(checked, stored, op.info, op.newPath, op.comment);
  }

  /** Repeating an update on a share that holds a path changes nothing and reports nothing,
      even if the server would accept no further call, exactly when its comment is settled. */
  lemma UpdateTwice(sections: Sections, catalogue: Catalogue, op: Op, again: Info, calls: Option<nat>)
    requires op.Update? && PlainNames(op.options)
    requires again.readable && ReadName(op.info, op.name) == op.name && ReadName(again, op.name) == op.name
    requires IsText(Stored(SectionOf(sections, op.name), PATH))
    requires UpdateBy(sections, catalogue, op, op.info, op.reach).1.Ok?
    ensures var after := Step(sections, catalogue, op);
      UpdateBy(after, catalogue, op, again, Writable(calls)) == (after, Ok(map[])) <==>
      CommentSettled(SectionOf(after, op.name), again, op.comment)
  {
    var stored, checked := SectionOf(sections, op.name), Validated(catalogue, op.options).value;
    CheckedSettle(catalogue, op.options);
    FirstUpdate(sections, catalogue, op);
    UpdateSettles(checked, stored, op.info, again, op.newPath, op.comment, CallsOf(op.reach));
    UpdateValuesAre(checked, Step(sections, catalogue, op)[op.name], again, op.newPath, op.comment);
    QuietUpdate(Step(sections, catalogue, op), catalogue, op, again, calls);
  }
}
