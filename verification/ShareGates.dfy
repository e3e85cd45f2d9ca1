/** What lets an operation on a share through, what it is answered otherwise, and what a
    successful update leaves. */
module ShareGates {
  import opened Outcomes
  import opened Text
  import opened ShareConf
  import opened ShareConfLaws
  import opened Registry
  import opened RegistryLaws
  import opened Shares
  import opened ShareLaws

  /** The names of the server's own shares, in any mixture of cases. */
  predicate ServersOwn(name: string) {
    Lower(name) in ["ipc$", "admin$", "print$"]
  }

  predicate FormAccepted(catalogue: Catalogue, options: Dict) {
    NoneRefused(catalogue, options, |options|)
  }

  lemma Gates(catalogue: Catalogue, name: string, options: Dict)
    ensures IsAdministrative(name) <==> ServersOwn(name)
    ensures Validated(catalogue, options).Ok? <==> FormAccepted(catalogue, options)
  {
    FormRefusedIff(catalogue, options, |options|);
  }

  // --- creation -----------------------------------------------------------------------------

  /** A creation may write: the name is not the server's own, every option passes, and the
      server has said that it serves no such share. */
  predicate MayCreate(catalogue: Catalogue, op: Op)
    requires op.Create?
  {
    !ServersOwn(op.name) && FormAccepted(catalogue, op.options) && op.served == Missing
  }

  /** Nothing but such a creation answers Ok or changes anything. */
  lemma CreationGuarded(sections: Sections, catalogue: Catalogue, op: Op)
    requires op.Create? && (CreateBy(sections, catalogue, op).1.Ok? || Step(sections, catalogue, op) != sections)
    ensures MayCreate(catalogue, op)
  {
    Gates(catalogue, op.name, op.options);
  }

  /** A share the server serves is never touched by a creation, which says that it exists. */
  lemma ServedUntouched(sections: Sections, catalogue: Catalogue, op: Op)
    requires op.Create? && op.served == There
    ensures Step(sections, catalogue, op) == sections && CreateBy(sections, catalogue, op).1.Err?
    ensures !ServersOwn(op.name) && FormAccepted(catalogue, op.options) ==>
      CreateBy(sections, catalogue, op).1 == Err(AlreadyExists)
  {
    Gates(catalogue, op.name, op.options);
  }

  /** Each refusal has its one reason, checked in this order. */
  lemma CreationRefusals(sections: Sections, catalogue: Catalogue, op: Op)
    requires op.Create?
    ensures var r := CreateBy(sections, catalogue, op).1;
      && (r == Err(Administrative) <==> ServersOwn(op.name))
      && (r.Err? && r.error.BadOption? <==> !ServersOwn(op.name) && !FormAccepted(catalogue, op.options))
      && (r == Err(AlreadyExists) <==>
            !ServersOwn(op.name) && FormAccepted(catalogue, op.options) && op.served == There)
      && (r == Err(ServerError) <==>
            !ServersOwn(op.name) && FormAccepted(catalogue, op.options) && op.served == Refuses)
  {
    Gates(catalogue, op.name, op.options);
  }

  /** A creation that may write succeeds on a server that refuses nothing. */
  lemma CreationSucceeds(sections: Sections, catalogue: Catalogue, op: Op)
    requires op.Create? && MayCreate(catalogue, op) && PlainNames(op.options)
    requires op.reach == Writable(None) && op.servedAfter != Refuses
    ensures CreateBy(sections, catalogue, op).1.Ok?
  {
    Gates(catalogue, op.name, op.options);
    CreateValuesAre(catalogue, op.path, op.comment, op.options);
    var values := BaseValues(op.path, op.comment) + Validated(catalogue, op.options).value;
    NeverFails(SectionOf(sections, op.name), values, |values|);
  }

  // --- deletion -----------------------------------------------------------------------------

  predicate MayDelete(op: Op)
    requires op.Delete?
  {
    !ServersOwn(op.name) && op.served == There && op.accepted
  }

  /** A deletion takes the named section away, and answers Ok, exactly when the server serves
      the share, it is not the server's own, and the registry accepts; each refusal has its
      one reason. */
  lemma DeletionExact(sections: Sections, op: Op)
    requires op.Delete?
    ensures var (after, r) := Deleted(sections, op.name, op.served, op.accepted);
      && after == (if MayDelete(op) then sections - {op.name} else sections)
      && (r.Ok? <==> MayDelete(op))
      && (r == Err(Administrative) <==> ServersOwn(op.name))
      && (r == Err(NotFound) <==> !ServersOwn(op.name) && op.served == Missing)
      && (r == Err(ServerError) <==> !ServersOwn(op.name) && op.served == Refuses)
  {
  }

  // --- update ---------------------------------------------------------------------------------

  /** The section read for an update is the one the server names, if it names any. */
  function ReadSection(sections: Sections, op: Op): Section
    requires op.Update?
  {
    SectionOf(sections, if op.info.name == "" then op.name else op.info.name)
  }

  predicate MayUpdate(sections: Sections, catalogue: Catalogue, op: Op)
    requires op.Update?
  {
    && !ServersOwn(op.name) && FormAccepted(catalogue, op.options)
    && op.served == There && op.info.readable && ReadSection(sections, op) != map[]
  }

  lemma UpdateGuarded(sections: Sections, catalogue: Catalogue, op: Op)
    requires op.Update?
    requires UpdateBy(sections, catalogue, op, op.info, op.reach).1.Ok? || Step(sections, catalogue, op) != sections
    ensures MayUpdate(sections, catalogue, op)
  {
    Gates(catalogue, op.name, op.options);
  }

  lemma UpdateRefusals(sections: Sections, catalogue: Catalogue, op: Op)
    requires op.Update?
    ensures var r := UpdateBy(sections, catalogue, op, op.info, op.reach).1;
      var passed := !ServersOwn(op.name) && FormAccepted(catalogue, op.options);
      && (r == Err(Administrative) <==> ServersOwn(op.name))
      && (r.Err? && r.error.BadOption? <==> !ServersOwn(op.name) && !FormAccepted(catalogue, op.options))
      && (r == Err(NotFound) <==> passed && op.served == Missing)
      && (r == Err(ServerError) <==> passed && (op.served == Refuses || (op.served == There && !op.info.readable)))
      && (r == Err(NotInRegistry) <==>
            passed && op.served == There && op.info.readable && ReadSection(sections, op) == map[])
  {
    Gates(catalogue, op.name, op.options);
  }

  predicate NoText(field: Option<string>) {
    field == None || field == Some("")
  }

  /** What a successful update stores: each checked option, and the path and the comment where
      they were sent and are not already what the console shows. */
  function Updates(stored: Section, checked: Dict, op: Op, name: string): Option<string>
    requires op.Update?
  {
    var was := Stored(stored, name);
    if name == "path" then
      (if op.newPath == None || (NoText(was) && op.newPath == op.info.path) then was else op.newPath)
    else if name == "comment" then
      (if op.comment == None || (NoText(was) && (op.comment == op.info.comment ||
                                                 (op.comment == Some("") && op.info.comment == None)))
       then was else op.comment)
    else Asked(checked, name, was)
  }

  lemma UpdateOverlays(sections: Sections, catalogue: Catalogue, op: Op, name: string)
    requires op.Update? && PlainNames(op.options) && ReadName(op.info, op.name) == op.name
    requires UpdateBy(sections, catalogue, op, op.info, op.reach).1.Ok?
    ensures Validated(catalogue, op.options).Ok?
    ensures Stored(SectionOf(Step(sections, catalogue, op), op.name), name) ==
      Updates(SectionOf(sections, op.name), Validated(catalogue, op.options).value, op, name)
  {
    var stored, checked := SectionOf(sections, op.name), Validated(catalogue, op.options).value;
    FirstUpdate(sections, catalogue, op);
    CheckedSettle(catalogue, op.options);
    UpdateValuesAre(checked, stored, op.info, op.newPath, op.comment);
    OverlayWrite(stored, UpdateValues(checked, stored, op.info, op.newPath, op.comment), CallsOf(op.reach), name);
    AskedParts(checked, PathPart(stored, op.info, op.newPath), CommentPart(stored, op.info, op.comment), name,
               Stored(stored, name));
  }

  /** A request in three parts asks what the part that names the option asks. */
  lemma AskedParts(a: Dict, p: Dict, c: Dict, name: string, was: Option<string>)
    requires Distinct(a + p + c) && !HasKey(a, PATH) && !HasKey(a, COMMENT)
    requires |p| <= 1 && |c| <= 1 && (p != [] ==> p[0].0 == PATH) && (c != [] ==> c[0].0 == COMMENT)
    ensures Asked(a + p + c, name, was) ==
      if name == PATH then (if p == [] then was else p[0].1)
      else if name == COMMENT then (if c == [] then was else c[0].1)
      else Asked(a, name, was)
  {
    SubmittedAppend(a + p, c, name, |c|);
    SubmittedAppend(a, p, name, |p|);
    SubmittedFew(p, name);
    SubmittedFew(c, name);
    if name == PATH || name == COMMENT { SubmittedNone(a, name, |a|); }
  }

  lemma SubmittedFew(d: Dict, name: string)
    requires |d| <= 1
    ensures Submitted(d, name, |d|) == if d != [] && d[0].0 == name then [d[0].1] else []
  {
    assert Submitted(d, name, 0) == [];
  }

  lemma {:induction false} SubmittedNone(d: Dict, name: string, n: nat)
    requires n <= |d| && !HasKey(d, name)
    ensures Submitted(d, name, n) == []
  {
    if n > 0 { SubmittedNone(d, name, n - 1); }
  }
}
