/** Security descriptors as SDDL text: the parser, the printer, and what survives the
    trip through both (section 2.5.1.1 of [MS-DTYP]). */
module Sddl {
  import opened Outcomes
  import opened Text
  import opened Rights

  datatype Kind = Allow | Deny

  datatype Ace = Ace(trustee: string, kind: Kind, mask: nat, flags: bv8, rawRights: string, understood: bool)

  datatype Descriptor = Descriptor(sddl: string, owner: Option<string>, group: Option<string>,
                                   aces: seq<Ace>, protected: bool)

  datatype Refusal = NoDacl

  // --- the section scanner ----------------------------------------------------

  /** The letter `c` followed by a colon, which opens a section. */
  predicate MarkerAt(s: string, c: char, i: nat) {
    i + 1 < |s| && s[i] == c && s[i + 1] == ':'
  }

  /** Where the first marker for `c` at or after `i` stands, or the length. */
  function FindFrom(s: string, c: char, i: nat): (r: nat)
    requires i <= |s|
    ensures i <= r <= |s|
    ensures r < |s| ==> MarkerAt(s, c, r)
    decreases |s| - i
  {
    if i == |s| || MarkerAt(s, c, i) then i else FindFrom(s, c, i + 1)
  }

  datatype Section = Owner | Group

  function Letter(sec: Section): char {
    if sec.Owner? then 'O' else 'G'
  }

  /** The lookahead that ends a field: the next section's marker, or the end of the text
      (before a final newline, as `$` matches). */
  predicate EndsAt(sec: Section, s: string, e: nat)
    requires e <= |s|
  {
    e == |s| || (e + 1 == |s| && s[e] == '\n') ||
    (sec.Owner? && MarkerAt(s, 'G', e)) || MarkerAt(s, 'D', e) || MarkerAt(s, 'S', e)
  }

  /** The lazy repetition: the nearest admissible end, over characters other than newline. */
  function FieldEnd(sec: Section, s: string, e: nat): (r: Option<nat>)
    requires e <= |s|
    ensures r.Some? ==> e <= r.value <= |s| && forall k :: e <= k < r.value ==> s[k] != '\n'
    decreases |s| - e
  {
    if EndsAt(sec, s, e) then Some(e)
    else if s[e] != '\n' then FieldEnd(sec, s, e + 1)
    else None
  }

  function MatchAt(sec: Section, s: string, i: nat): (r: Option<string>)
    ensures r.Some? ==> r.value != "" && forall k :: 0 <= k < |r.value| ==> r.value[k] != '\n'
  {
    if MarkerAt(s, Letter(sec), i) && i + 2 < |s| && s[i + 2] != '\n' then
      match FieldEnd(sec, s, i + 3)
      case Some(e) => Some(s[i + 2..e])
      case None => None
    else None
  }

  /** The leftmost match at or after `i`. */
  function SearchFrom(sec: Section, s: string, i: nat): (r: Option<string>)
    requires i <= |s|
    ensures r.Some? ==> r.value != "" && forall k :: 0 <= k < |r.value| ==> r.value[k] != '\n'
    decreases |s| - i
  {
    if i == |s| then None
    else if MatchAt(sec, s, i).Some? then MatchAt(sec, s, i)
    else SearchFrom(sec, s, i + 1)
  }

  // --- entries ------------------------------------------------------------------

  function ParenIndex(s: string): (i: nat)
    ensures i <= |s| && (forall k :: 0 <= k < i ==> s[k] != '(' && s[k] != ')')
    ensures i < |s| ==> s[i] == '(' || s[i] == ')'
  {
    if s == "" || s[0] == '(' || s[0] == ')' then 0 else 1 + ParenIndex(s[1..])
  }

  /** Every innermost parenthesised text, left to right. */
  function Groups(s: string): seq<string>
    decreases |s|
  {
    if s == "" then []
    else if s[0] != '(' then Groups(s[1..])
    else
      var e := 1 + ParenIndex(s[1..]);
      if e < |s| && s[e] == ')' then [s[1..e]] + Groups(s[e + 1..]) else Groups(s[1..])
  }

  function KindOf(aceType: string): Kind {
    var t := Upper(Strip(aceType));
    if t != "" && t[0] == 'D' then Deny else Allow
  }

  function AceOf(parts: seq<string>): Ace
    requires |parts| >= 6
  {
    var reading := ReadRights(parts[2]);
    Ace(Strip(parts[5]), KindOf(parts[0]), reading.mask, ReadFlags(parts[1]), Strip(parts[2]), reading.understood)
  }

  /** The entries with at least six fields; a shorter one is skipped. */
  function Entries(lists: seq<seq<string>>): seq<Ace> {
    if lists == [] then []
    else (if |lists[0]| >= 6 then [AceOf(lists[0])] else []) + Entries(lists[1..])
  }

  function SplitAll(texts: seq<string>): seq<seq<string>> {
    if texts == [] then [] else [Split(texts[0], ';')] + SplitAll(texts[1..])
  }

  // --- the parser -----------------------------------------------------------------

  function SkipControl(s: string, i: nat): (r: nat)
    requires i <= |s|
    ensures i <= r <= |s|
    decreases |s| - i
  {
    if i == |s| || s[i] == '(' || s[i] == 'S' then i else SkipControl(s, i + 1)
  }

  predicate Contains(s: string, a: char, b: char, c: char) {
    exists i :: 0 <= i < |s| - 2 && s[i] == a && s[i + 1] == b && s[i + 2] == c
  }

  predicate IsProtected(prefix: string) {
    Contains(prefix, 'D', ':', 'P') || (StripRight(prefix) != "" && StripRight(prefix)[|StripRight(prefix)| - 1] == 'P')
  }

  /** The text before the entries, and the text holding them. */
  function SplitDacl(s: string): Result<(string, string), Refusal> {
    var marker := FindFrom(s, 'D', 0);
    if marker == |s| then Err(NoDacl)
    else
      var cursor := SkipControl(s, marker + 2);
      var rest := s[cursor..];
      Ok((s[..cursor], rest[..FindFrom(rest, 'S', 0)]))
  }

  function Parse(s: string): Result<Descriptor, Refusal> {
    match SplitDacl(s)
    case Err(e) => Err(e)
    case Ok((prefix, body)) =>
      Ok(Descriptor(s, SearchFrom(Owner, s, 0), SearchFrom(Group, s, 0),
                    Entries(SplitAll(Groups(body))), IsProtected(prefix)))
  }

  /** `_split_dacl`: the cursor runs from the DACL's marker to its first entry, or to the
      SACL when there is none. */
  method SplitSections(s: string) returns (r: Result<(string, string), Refusal>)
    ensures r == SplitDacl(s)
  {
    var marker := FindFrom(s, 'D', 0);
    if marker == |s| { return Err(NoDacl); }
    var cursor := marker + 2;
    while cursor < |s| && s[cursor] != '(' && s[cursor] != 'S'
      invariant marker + 2 <= cursor <= |s|
      invariant SkipControl(s, cursor) == SkipControl(s, marker + 2)
    {
      cursor := cursor + 1;
    }
    var rest := s[cursor..];
    r := Ok((s[..cursor], rest[..FindFrom(rest, 'S', 0)]));
  }

  method ParseAce(text: string) returns (ace: Option<Ace>)
    ensures ace == if |Split(text, ';')| >= 6 then Some(AceOf(Split(text, ';'))) else None
  {
    var parts := Split(text, ';');
    if |parts| < 6 { return None; }
    var reading := ParseRights(parts[2]);
    var flags := ParseFlags(parts[1]);
    ace := Some(Ace(Strip(parts[5]), KindOf(parts[0]), reading.mask, flags, Strip(parts[2]), reading.understood));
  }

  method ParseDescriptor(s: string) returns (r: Result<Descriptor, Refusal>)
    ensures r == Parse(s)
  {
    var sections := SplitSections(s);
    match sections
    case Err(e) => return Err(e);
    case Ok((prefix, body)) =>
      var aces := ParseEntries(Groups(body));
      r := Ok(Descriptor(s, SearchFrom(Owner, s, 0), SearchFrom(Group, s, 0), aces, IsProtected(prefix)));
  }

  method ParseEntries(texts: seq<string>) returns (aces: seq<Ace>)
    ensures aces == Entries(SplitAll(texts))
  {
    aces := [];
    var i := 0;
    while i < |texts|
      invariant 0 <= i <= |texts|
      invariant aces + Entries(SplitAll(texts[i..])) == Entries(SplitAll(texts))
    {
      var ace := ParseAce(texts[i]);
      EntriesStep(texts, i);
      ghost var rest := Entries(SplitAll(texts[i + 1..]));
      if ace.Some? {
        assert aces + ([ace.value] + rest) == (aces + [ace.value]) + rest;
        aces := aces + [ace.value];
      }
      i := i + 1;
    }
  }

  lemma EntriesStep(texts: seq<string>, i: nat)
    requires i < |texts|
    ensures Entries(SplitAll(texts[i..])) ==
      (if |Split(texts[i], ';')| >= 6 then [AceOf(Split(texts[i], ';'))] else []) + Entries(SplitAll(texts[i + 1..]))
  {
    assert texts[i..][1..] == texts[i + 1..];
    var lists := SplitAll(texts[i..]);
    assert lists[0] == Split(texts[i], ';') && lists[1..] == SplitAll(texts[i + 1..]);
  }

  // --- descriptors as their parts ------------------------------------------------------

  /** The fields of one entry; a text between parentheses always has at least one. */
  type Fields = f: seq<string> | |f| >= 1 witness [""]

  /** An entry of a list: fields only, or fields followed by a condition or an attribute in
      parentheses of its own. */
  datatype Entry = Flat(fields: Fields) | Conditional(lead: Fields, condition: string)

  /** The parts an SDDL text is put together from. */
  datatype Source = Source(owner: Option<string>, group: Option<string>, control: string,
                           entries: seq<Entry>, sacl: Option<string>)

  function Part(c: char, field: Option<string>): string {
    match field
    case None => ""
    case Some(text) => [c, ':'] + text
  }

  function SpellEntry(entry: Entry): string {
    match entry
    case Flat(fields) => "(" + Join(fields, ';') + ")"
    case Conditional(lead, condition) => "(" + Join(lead, ';') + ";(" + condition + "))"
  }

  function SpellEntries(entries: seq<Entry>): string {
    if entries == [] then "" else SpellEntry(entries[0]) + SpellEntries(entries[1..])
  }

  function Head(src: Source): string {
    Part('O', src.owner) + Part('G', src.group)
  }

  function Tail(src: Source): string {
    SpellEntries(src.entries) + Part('S', src.sacl)
  }

  function Spell(src: Source): string {
    Head(src) + ("D:" + src.control) + Tail(src)
  }

  // --- the printer ------------------------------------------------------------------

  predicate Inherited(ace: Ace) {
    Has(ace.flags, INHERITED_ACE)
  }

  function RightsText(ace: Ace): string {
    if ace.understood then RenderRights(ace.mask) else ace.rawRights
  }

  /** The six fields an entry is written with. */
  function FieldsOf(ace: Ace): Fields {
    [if ace.kind.Deny? then "D" else "A", FlagsText(ace.flags), RightsText(ace), "", "", ace.trustee]
  }

  function Explicit(aces: seq<Ace>): seq<Ace> {
    if aces == [] then []
    else (if Inherited(aces[0]) then [] else [aces[0]]) + Explicit(aces[1..])
  }

  function AllFlat(aces: seq<Ace>): seq<Entry> {
    if aces == [] then [] else [Flat(FieldsOf(aces[0]))] + AllFlat(aces[1..])
  }

  function NonEmpty(field: Option<string>): Option<string> {
    if field == Some("") then None else field
  }

  function SourceOf(d: Descriptor): Source {
    Source(NonEmpty(d.owner), NonEmpty(d.group), if d.protected then "P" else "", AllFlat(Explicit(d.aces)), None)
  }

  function Build(d: Descriptor): string {
    Spell(SourceOf(d))
  }

  method BuildSddl(d: Descriptor) returns (text: string)
    ensures text == Build(d)
  {
    var parts := "";
    if d.owner.Some? && d.owner.value != "" {
      parts := parts + ("O:" + d.owner.value);
    }
    if d.group.Some? && d.group.value != "" {
      parts := parts + ("G:" + d.group.value);
    }
    assert parts == Head(SourceOf(d));
    var dacl := if d.protected then "D:P" else "D:";
    assert dacl == "D:" + SourceOf(d).control;
    var entries := BuildEntries(d.aces);
    assert entries + Part('S', None) == entries;
    text := parts + dacl + entries;
  }

  method BuildEntries(aces: seq<Ace>) returns (text: string)
    ensures text == SpellEntries(AllFlat(Explicit(aces)))
  {
    text := "";
    var i := 0;
    while i < |aces|
      invariant 0 <= i <= |aces|
      invariant text + RemainingText(aces, i) == RemainingText(aces, 0)
    {
      ExplicitStep(aces, i);
      if !Inherited(aces[i]) {
        var flags := RenderFlags(aces[i].flags);
        var entry := "(" + (if aces[i].kind.Deny? then "D" else "A") + ";" + flags + ";" +
          RightsText(aces[i]) + ";;;" + aces[i].trustee + ")";
        EntryText(aces[i], entry);
        ConcatAssociates(text, entry, RemainingText(aces, i + 1));
        text := text + entry;
      }
      i := i + 1;
    }
    assert aces[0..] == aces;
  }

  /** What is still to be written from entry `i` on. */
  function RemainingText(aces: seq<Ace>, i: nat): string
    requires i <= |aces|
  {
    SpellEntries(AllFlat(Explicit(aces[i..])))
  }

  lemma ExplicitStep(aces: seq<Ace>, i: nat)
    requires i < |aces|
    ensures RemainingText(aces, i) ==
      (if Inherited(aces[i]) then "" else SpellEntry(Flat(FieldsOf(aces[i])))) + RemainingText(aces, i + 1)
  {
    assert aces[i..][1..] == aces[i + 1..];
    var more := Explicit(aces[i + 1..]);
    if Inherited(aces[i]) {
      assert Explicit(aces[i..]) == more;
    } else {
      assert Explicit(aces[i..]) == [aces[i]] + more;
      assert ([aces[i]] + more)[1..] == more;
      var fields := AllFlat([aces[i]] + more);
      assert fields[0] == Flat(FieldsOf(aces[i])) && fields[1..] == AllFlat(more);
    }
  }

  lemma EntryText(ace: Ace, entry: string)
    requires entry == "(" + (if ace.kind.Deny? then "D" else "A") + ";" + FlagsText(ace.flags) + ";" +
      RightsText(ace) + ";;;" + ace.trustee + ")"
    ensures entry == SpellEntry(Flat(FieldsOf(ace)))
  {
    JoinSix(FieldsOf(ace));
  }

  lemma JoinSix(f: Fields)
    requires |f| == 6 && f[3] == "" && f[4] == ""
    ensures SpellEntry(Flat(f)) == "(" + f[0] + ";" + f[1] + ";" + f[2] + ";;;" + f[5] + ")"
  {
    assert Join(f[5..], ';') == f[5];
    assert f[4..][1..] == f[5..];
    assert Join(f[4..], ';') == ";" + f[5];
    assert f[3..][1..] == f[4..];
    assert Join(f[3..], ';') == ";;" + f[5];
    assert f[2..][1..] == f[3..];
    assert Join(f[2..], ';') == f[2] + ";;;" + f[5];
    assert f[1..][1..] == f[2..];
    assert Join(f[1..], ';') == f[1] + ";" + f[2] + ";;;" + f[5];
    assert Join(f, ';') == f[0] + ";" + (f[1] + ";" + f[2] + ";;;" + f[5]);
  }
}
