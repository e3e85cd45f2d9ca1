/** Creating, changing and deleting shares in the configuration store. */
module Shares {
  import opened Outcomes
  import opened Text
  import opened ShareConf
  import opened Registry

  datatype ShareError =
    | Administrative | BadOption(refusal: Refusal) | AlreadyExists | NotFound | NotInRegistry
    | StoreFailed(failure: Failure) | Unconfirmed | ServerError

  /** What the server answers when asked whether it serves a share. */
  datatype Served = There | Missing | Refuses

  /** What the server reports of a share: its name, path and comment, and whether its stored
      options can be read. */
  datatype Info = Info(name: string, path: Option<string>, comment: Option<string>, readable: bool)

  predicate IsAdministrative(name: string) {
    Lower(name) == "ipc$" || Lower(name) == "admin$" || Lower(name) == "print$"
  }

  type Sections = map<string, Section>

  type Changes = map<string, Change>

  /** `dict.update`: the entries of `more` put over `base`, in order. */
  function PutAll(base: Dict, more: Dict, n: nat): Dict
    requires n <= |more|
  {
    if n == 0 then base else Put(PutAll(base, more, n - 1), more[n - 1].0, more[n - 1].1)
  }

  function IsText(field: Option<string>): bool {
    field.Some? && field.value != ""
  }

  function CreateValues(path: string, comment: Option<string>, checked: Dict): Dict {
    var base: Dict := [(PATH, Some(path))] + (if IsText(comment) then [(COMMENT, comment)] else []);
    PutAll(base, checked, |checked|)
  }

  /** The share as the console shows it: the stored path and comment win over the server's. */
  function CurrentField(stored: Section, name: string, reported: Option<string>): Option<string> {
    if IsText(Stored(stored, name)) then Stored(stored, name) else reported
  }

  function UpdateValues(checked: Dict, stored: Section, info: Info, path: Option<string>, comment: Option<string>):
    Dict
  {
    var currentPath := CurrentField(stored, PATH, info.path);
    var currentComment := CurrentField(stored, COMMENT, info.comment);
    var v := if path.Some? && path != currentPath then Put(checked, PATH, path) else checked;
    if comment.Some? && comment.value != (if currentComment.Some? then currentComment.value else "")
    then Put(v, COMMENT, comment) else v
  }

  /** The name the server gives the share, or the one asked for when it gives none. */
  function ReadName(info: Info, name: string): string {
    if info.name == "" then name else info.name
  }

  /** Creating a share: written in one go, taken back when the write fails, and asked after
      once it stands. `served` and `servedAfter` are the server's two answers. */
  method CreateShare(store: Store, catalogue: Catalogue, name: string, path: string, comment: Option<string>,
                     options: Dict, served: Served, reach: Reach, cleanUpWorks: bool, servedAfter: Served)
    returns (r: Result<Changes, ShareError>)
    modifies store
    ensures (store.sections, r) ==
      Created(old(store.sections), catalogue, name, path, comment, options, served, reach, cleanUpWorks, servedAfter)
  {
    if IsAdministrative(name) { return Err(Administrative); }
    var checked := Validate(catalogue, options);
    if checked.Err? { return Err(BadOption(checked.error)); }
    if served.Refuses? { return Err(ServerError); }
    if served.There? { return Err(AlreadyExists); }
    var written := store.WriteOptions(name, CreateValues(path, comment, checked.value), reach, {});
    NothingMissed(old(store.sections), name, CreateValues(path, comment, checked.value), reach);
    if written.Err? {
      var _ := store.DeleteSection(name, cleanUpWorks);
      return Err(StoreFailed(written.error));
    }
    if servedAfter.Refuses? { return Err(Unconfirmed); }
    r := Ok(written.value);
  }

  /** What a creation leaves in the store, and what it answers. */
  function Created(sections: Sections, catalogue: Catalogue, name: string, path: string, comment: Option<string>,
                   options: Dict, served: Served, reach: Reach, cleanUpWorks: bool, servedAfter: Served):
    (Sections, Result<Changes, ShareError>)
  {
    var checked := Validated(catalogue, options);
    if IsAdministrative(name) then (sections, Err(Administrative))
    else if checked.Err? then (sections, Err(BadOption(checked.error)))
    else if served.Refuses? then (sections, Err(ServerError))
    else if served.There? then (sections, Err(AlreadyExists))
    else
      var (after, r) := Attempted(sections, name, CreateValues(path, comment, checked.value), reach);
      match r
      case Err(failure) => (if cleanUpWorks then after - {name} else after, Err(StoreFailed(failure)))
      case Ok(applied) => (after, if servedAfter.Refuses? then Err(Unconfirmed) else Ok(applied))
  }

  method UpdateShare(store: Store, catalogue: Catalogue, name: string, path: Option<string>, comment: Option<string>,
                     options: Dict, served: Served, info: Info, reach: Reach)
    returns (r: Result<Changes, ShareError>)
    modifies store
    ensures (store.sections, r) ==
      Updated(old(store.sections), catalogue, name, path, comment, options, served, info, reach)
  {
    if IsAdministrative(name) { return Err(Administrative); }
    var checked := Validate(catalogue, options);
    if checked.Err? { return Err(BadOption(checked.error)); }
    if served.Missing? { return Err(NotFound); }
    if served.Refuses? || !info.readable { return Err(ServerError); }
    var stored := store.ReadOptions(ReadName(info, name));
    if stored == map[] { return Err(NotInRegistry); }
    var values := UpdateValues(checked.value, stored, info, path, comment);
    if values == [] { return Ok(map[]); }
    var written := store.WriteOptions(name, values, reach, {});
    NothingMissed(old(store.sections), name, values, reach);
    r := if written.Err? then Err(StoreFailed(written.error)) else Ok(written.value);
  }

  function Updated(sections: Sections, catalogue: Catalogue, name: string, path: Option<string>,
                   comment: Option<string>, options: Dict, served: Served, info: Info, reach: Reach):
    (Sections, Result<Changes, ShareError>)
  {
    var checked := Validated(catalogue, options);
    if IsAdministrative(name) then (sections, Err(Administrative))
    else if checked.Err? then (sections, Err(BadOption(checked.error)))
    else if served.Missing? then (sections, Err(NotFound))
    else if served.Refuses? || !info.readable then (sections, Err(ServerError))
    else
      var stored := SectionOf(sections, ReadName(info, name));
      if stored == map[] then (sections, Err(NotInRegistry))
      else
        var values := UpdateValues(checked.value, stored, info, path, comment);
        if values == [] then (sections, Ok(map[]))
        else
          var (after, r) := Attempted(sections, name, values, reach);
          (after, match r case Err(failure) => Err(StoreFailed(failure)) case Ok(applied) => Ok(applied))
  }

  method DeleteShare(store: Store, name: string, served: Served, accepted: bool) returns (r: Result<(), ShareError>)
    modifies store
    ensures (store.sections, r) == Deleted(old(store.sections), name, served, accepted)
  {
    if IsAdministrative(name) { return Err(Administrative); }
    if served.Missing? { return Err(NotFound); }
    if served.Refuses? { return Err(ServerError); }
    var deleted := store.DeleteSection(name, accepted);
    r := if deleted.Err? then Err(StoreFailed(deleted.error)) else Ok(());
  }

  function Deleted(sections: Sections, name: string, served: Served, accepted: bool):
    (Sections, Result<(), ShareError>)
  {
    if IsAdministrative(name) then (sections, Err(Administrative))
    else if served.Missing? then (sections, Err(NotFound))
    else if served.Refuses? then (sections, Err(ServerError))
    else if !accepted then (sections, Err(StoreFailed(ServerRefused)))
    else (sections - {name}, Ok(()))
  }
}
