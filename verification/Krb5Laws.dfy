/** Merging KDCs behaves as a join over every run of calls, and the file is the one written
    last. */
module Krb5Laws {
  import opened Outcomes
  import opened Krb5
  import opened Krb5Rendering

  datatype Call = Ensure(realm: string, kdcs: seq<string>, ok: bool) | SetDefault(realm: string, ok: bool)

  function Next(render: Rendering, s: State, call: Call): State {
    match call
    case Ensure(realm, kdcs, ok) => AfterEnsure(render, s, realm, kdcs, ok)
    case SetDefault(realm, ok) => AfterSetDefault(render, s, realm, ok)
  }

  function After(render: Rendering, run: seq<Call>): State {
    if run == [] then State(map[], None, None)
    else Next(render, After(render, run[..|run| - 1]), run[|run| - 1])
  }

  // --- lists ---------------------------------------------------------------------------------

  predicate NoRepeats(list: seq<string>) {
    forall i, j :: 0 <= i < j < |list| ==> list[i] != list[j]
  }

  lemma {:induction false} UniqueIs(names: seq<string>)
    ensures NoRepeats(Unique(names))
    ensures forall k :: k in Unique(names) <==> k in names && k != ""
  {
    if names != [] {
      UniqueIs(names[..|names| - 1]);
      assert names == names[..|names| - 1] + [names[|names| - 1]];
    }
  }

  predicate IsList(list: seq<string>) {
    NoRepeats(list) && "" !in list
  }

  /** Merging keeps what was known as it stands, in front. */
  lemma {:induction false} MergedExtends(existing: seq<string>, added: seq<string>)
    requires IsList(existing)
    ensures existing <= Merged(existing, added)
  {
    var all := existing + added;
    if added == [] {
      assert all == existing;
      UniqueKeeps(existing);
    } else {
      assert all[..|all| - 1] == existing + added[..|added| - 1];
      MergedExtends(existing, added[..|added| - 1]);
    }
  }

  lemma {:induction false} UniqueKeeps(list: seq<string>)
    requires IsList(list)
    ensures Unique(list) == list
  {
    if list != [] {
      var before := list[..|list| - 1];
      assert IsList(before);
      UniqueKeeps(before);
      assert list == before + [list[|list| - 1]];
    }
  }

  // --- the join ---------------------------------------------------------------------------------

  /** Every KDC ever given for the realm. */
  function Given(run: seq<Call>, realm: string): set<string> {
    if run == [] then {}
    else
      var before, call := Given(run[..|run| - 1], realm), run[|run| - 1];
      if call.Ensure? && NormalRealm(call.realm) == realm && realm != "" then before + set k | k in call.kdcs && k != ""
      else before
  }

  ghost predicate ListOf(list: seq<string>, members: set<string>) {
    IsList(list) && forall k :: k in list <==> k in members
  }

  ghost predicate RealmJoins(s: State, realm: string, members: set<string>) {
    if realm in s.realms then ListOf(s.realms[realm], members) else members == {}
  }

  lemma EnsureJoins(render: Rendering, s: State, name: string, kdcs: seq<string>, ok: bool,
                    realm: string, members: set<string>)
    requires RealmJoins(s, realm, members) && realm != ""
    ensures RealmJoins(AfterEnsure(render, s, name, kdcs, ok), realm,
                       if NormalRealm(name) == realm then members + (set k | k in kdcs && k != "") else members)
  {
    if NormalRealm(name) == realm {
      UniqueIs(kdcs);
      if realm in s.realms {
        UniqueIs(s.realms[realm] + Unique(kdcs));
      }
    }
  }

  /** A realm's list never repeats a KDC and holds exactly the non-empty ones ever given for
      it, in every run, whether or not the writes succeed. */
  lemma {:induction false} KdcsAreJoined(render: Rendering, run: seq<Call>, realm: string)
    requires realm != ""
    ensures RealmJoins(After(render, run), realm, Given(run, realm))
  {
    if run != [] {
      var before, call := run[..|run| - 1], run[|run| - 1];
      KdcsAreJoined(render, before, realm);
      if call.Ensure? {
        EnsureJoins(render, After(render, before), call.realm, call.kdcs, call.ok, realm, Given(before, realm));
      }
    }
  }

  // --- the default realm -----------------------------------------------------------------------

  /** The realm last made the default, or else the first one ever registered. */
  function DefaultOf(run: seq<Call>): Option<string> {
    if run == [] then None
    else
      var before, call := DefaultOf(run[..|run| - 1]), run[|run| - 1];
      var realm := NormalRealm(call.realm);
      if realm == "" then before else if call.SetDefault? || before.None? then Some(realm) else before
  }

  /** Whatever is registered later, and whether or not the writes succeed. */
  lemma {:induction false} DefaultIs(render: Rendering, run: seq<Call>)
    ensures After(render, run).defaultRealm == DefaultOf(run)
    ensures After(render, run).realms != map[] ==> DefaultOf(run).Some?
  {
    if run != [] { DefaultIs(render, run[..|run| - 1]); }
  }

  /** The realm is still known, and its list starts with the earlier one. */
  predicate Grew(before: State, after: State, realm: string) {
    realm in before.realms ==> realm in after.realms && before.realms[realm] <= after.realms[realm]
  }

  lemma StepGrows(render: Rendering, s: State, call: Call, realm: string)
    requires realm in s.realms ==> IsList(s.realms[realm])
    ensures Grew(s, Next(render, s, call), realm)
  {
    if call.Ensure? && realm in s.realms {
      MergedExtends(s.realms[realm], Unique(call.kdcs));
    }
  }

  lemma AfterAppend(render: Rendering, run: seq<Call>, call: Call)
    ensures After(render, run + [call]) == Next(render, After(render, run), call)
  {
    assert (run + [call])[..|run|] == run;
  }

  /** A later list has every earlier one in front, so the password server, its first KDC,
      never changes once there is one. */
  lemma {:induction false} ListsOnlyGrow(render: Rendering, run: seq<Call>, more: seq<Call>, realm: string)
    requires realm != ""
    ensures Grew(After(render, run), After(render, run + more), realm)
  {
    if more == [] {
      assert run + more == run;
    } else {
      var front, call := more[..|more| - 1], more[|more| - 1];
      ListsOnlyGrow(render, run, front, realm);
      GrowsOn(render, After(render, run), run + front, call, realm);
      assert run + more == run + front + [call];
    }
  }

  lemma GrowsOn(render: Rendering, s: State, run: seq<Call>, call: Call, realm: string)
    requires realm != "" && Grew(s, After(render, run), realm)
    ensures Grew(s, After(render, run + [call]), realm)
  {
    KdcsAreJoined(render, run, realm);
    StepGrows(render, After(render, run), call, realm);
    AfterAppend(render, run, call);
  }

  // --- the file -----------------------------------------------------------------------------------

  /** Whether the call has something to record, and so writes the file. */
  predicate Records(s: State, call: Call) {
    match call
    case Ensure(realm, kdcs, _) => HasNews(s, realm, kdcs)
    case SetDefault(realm, _) => NewDefault(s, realm)
  }

  /** The state as it was last written out: after the last call that had something to record
      and whose write succeeded. */
  function LastWritten(render: Rendering, run: seq<Call>): Option<State> {
    if run == [] then None
    else
      var before, call := run[..|run| - 1], run[|run| - 1];
      if call.ok && Records(After(render, before), call) then Some(After(render, run)) else LastWritten(render, before)
  }

  /** In every run, whichever writes fail, the file is the rendering of the state last written. */
  lemma {:induction false} FileIsLastWritten(render: Rendering, run: seq<Call>)
    ensures After(render, run).file ==
      match LastWritten(render, run) case None => None case Some(w) => Some(render(w.realms, w.defaultRealm))
  {
    if run != [] {
      FileIsLastWritten(render, run[..|run| - 1]);
    }
  }

  /** The file says what the state is, or neither says anything. */
  predicate FileFits(render: Rendering, s: State) {
    if s.realms == map[] && s.defaultRealm.None? then s.file.None?
    else s.file == Some(render(s.realms, s.defaultRealm))
  }

  predicate SameContent(s: State, t: State) {
    s.realms == t.realms && s.defaultRealm == t.defaultRealm
  }

  /** No call names a realm with a line break in it. */
  predicate CleanRun(run: seq<Call>) {
    forall i :: 0 <= i < |run| ==> OnOneLine(NormalRealm(run[i].realm))
  }

  predicate CleanState(s: State) {
    CleanRealms(s.realms) && CleanDefault(s.defaultRealm)
  }

  /** What was written last has clean names and only grown since. */
  lemma {:induction false} RunIsClean(render: Rendering, run: seq<Call>)
    requires CleanRun(run)
    ensures CleanState(After(render, run))
    ensures LastWritten(render, run).Some? ==>
      CleanState(LastWritten(render, run).value) &&
      Grown(LastWritten(render, run).value.realms, After(render, run).realms)
  {
    if run != [] {
      var before := run[..|run| - 1];
      assert forall i :: 0 <= i < |before| ==> before[i] == run[i];
      RunIsClean(render, before);
      if LastWritten(render, before).Some? {
        GrownStep(render, before, LastWritten(render, before).value.realms, run[|run| - 1]);
      }
    }
  }

  lemma GrownStep(render: Rendering, before: seq<Call>, r: Realms, call: Call)
    requires Grown(r, After(render, before).realms)
    ensures Grown(r, Next(render, After(render, before), call).realms)
  {
    var s := After(render, before);
    forall realm | realm in r
      ensures realm in Next(render, s, call).realms && r[realm] <= Next(render, s, call).realms[realm] {
      if realm != "" { KdcsAreJoined(render, before, realm); } else { NeverEmptyName(render, before); }
      StepGrows(render, s, call, realm);
    }
  }

  lemma {:induction false} NeverEmptyName(render: Rendering, run: seq<Call>)
    ensures "" !in After(render, run).realms
  {
    if run != [] { NeverEmptyName(render, run[..|run| - 1]); }
  }

  /** Exactly when the file is current: when the state has since come back to what was last
      written, or was never written because there was never anything to write. */
  lemma FileCurrentIff(settings: Settings, run: seq<Call>)
    requires ListsAll(settings.sorted) && CleanRun(run)
    ensures var render := RenderingOf(settings);
      FileFits(render, After(render, run)) <==>
      SameContent(After(render, run),
                  match LastWritten(render, run) case Some(w) => w case None => State(map[], None, None))
  {
    var render := RenderingOf(settings);
    FileIsLastWritten(render, run);
    WrittenIsSomething(render, run);
    RunIsClean(render, run);
    if LastWritten(render, run).Some? {
      var s, w := After(render, run), LastWritten(render, run).value;
      RenderTells(settings, w.realms, w.defaultRealm, s.realms, s.defaultRealm);
    }
  }

  lemma {:induction false} WrittenIsSomething(render: Rendering, run: seq<Call>)
    ensures LastWritten(render, run).Some? ==> LastWritten(render, run).value.realms != map[]
    ensures After(render, run).realms == map[] ==> After(render, run).defaultRealm.None?
  {
    if run != [] {
      var before, call := run[..|run| - 1], run[|run| - 1];
      WrittenIsSomething(render, before);
      if Records(After(render, before), call) {
        NonEmptyAfter(render, After(render, before), call);
      }
    }
  }

  lemma NonEmptyAfter(render: Rendering, s: State, call: Call)
    requires Records(s, call)
    ensures Next(render, s, call).realms != map[]
  {
    assert NormalRealm(call.realm) in Next(render, s, call).realms;
  }

  predicate AllWritten(run: seq<Call>) {
    forall i :: 0 <= i < |run| ==> run[i].ok
  }

  /** In particular, when every write succeeds, the file is current at all times; and one
      recorded call whose write succeeds makes it current after any failures. */
  lemma {:induction false} FileIsCurrent(render: Rendering, run: seq<Call>)
    ensures AllWritten(run) ==> FileFits(render, After(render, run))
    ensures run != [] && run[|run| - 1].ok && Records(After(render, run[..|run| - 1]), run[|run| - 1]) ==>
      FileFits(render, After(render, run))
  {
    FileIsLastWritten(render, run);
    WrittenIsSomething(render, run);
    if run != [] && AllWritten(run) {
      var before := run[..|run| - 1];
      forall i | 0 <= i < |before| ensures before[i].ok { assert before[i] == run[i]; }
      FileIsCurrent(render, before);
    }
  }

  /** A failed write is not made good by asking again: the same call finds nothing new to
      record and leaves the old file in place. */
  lemma FailedWriteNotRetried(render: Rendering, s: State, realm: string, kdcs: seq<string>)
    requires NormalRealm(realm) in s.realms ==> IsList(s.realms[NormalRealm(realm)])
    ensures var failed := AfterEnsure(render, s, realm, kdcs, false);
      && failed.file == s.file
      && (HasNews(s, realm, kdcs) <==> failed.realms != s.realms)
      && AfterEnsure(render, failed, realm, kdcs, true) == failed
  {
    var r := NormalRealm(realm);
    UniqueIs(kdcs);
    if r in s.realms { UniqueIs(s.realms[r] + Unique(kdcs)); }
    if HasNews(s, realm, kdcs) && r in s.realms {
      var k :| k in Unique(kdcs) && k !in s.realms[r];
      assert k in (s.realms[r] + Unique(kdcs));
      assert k in Merged(s.realms[r], Unique(kdcs));
    }
  }

  function Repeated(call: Call, times: nat): seq<Call> {
    if times == 0 then [] else Repeated(call, times - 1) + [call]
  }

  /** A call that changes nothing changes nothing however often it is repeated. */
  lemma {:induction false} RepeatIdle(render: Rendering, run: seq<Call>, call: Call, times: nat)
    requires Next(render, After(render, run), call) == After(render, run)
    ensures After(render, run + Repeated(call, times)) == After(render, run)
  {
    if times == 0 {
      assert run + Repeated(call, 0) == run;
    } else {
      var before := run + Repeated(call, times - 1);
      RepeatIdle(render, run, call, times - 1);
      IdleOnceMore(render, run, before, call);
      assert run + Repeated(call, times) == before + [call];
    }
  }

  lemma IdleOnceMore(render: Rendering, run: seq<Call>, before: seq<Call>, call: Call)
    requires Next(render, After(render, run), call) == After(render, run) == After(render, before)
    ensures After(render, before + [call]) == After(render, run)
  {
    AfterAppend(render, before, call);
  }

  /** So a first registration that cannot be written stays out of the file, however often it
      is repeated with a disk that works. */
  lemma StaleFile(render: Rendering, realm: string, kdcs: seq<string>, times: nat)
    requires NormalRealm(realm) != ""
    ensures var s := After(render, [Ensure(realm, kdcs, false)] + Repeated(Ensure(realm, kdcs, true), times));
      NormalRealm(realm) in s.realms && s.file.None? && !FileFits(render, s)
  {
    var first := [Ensure(realm, kdcs, false)];
    AfterAppend(render, [], Ensure(realm, kdcs, false));
    assert [] + first == first;
    FailedWriteNotRetried(render, State(map[], None, None), realm, kdcs);
    RepeatIdle(render, first, Ensure(realm, kdcs, true), times);
  }
}
