/** Printer and parser undo each other, and exactly when saving a descriptor a second time
    changes nothing. */
module SddlRoundTrip {
  import opened Outcomes
  import opened Text
  import opened Rights
  import opened Sddl
  import opened SddlLaws

  // --- from a descriptor to text and back -------------------------------------------

  /** A field that can be written: trimmed, and free of the marks around it. */
  predicate Clean(s: string) {
    Trimmed(s) && Plain(s)
  }

  /** No text of the entry holds a mark for the section `c`. */
  predicate MarkFree(ace: Ace, c: char) {
    NoMarker(ace.trustee, c) && (!ace.understood ==> NoMarker(ace.rawRights, c))
  }

  /** An entry that can be written: clean fields without a SACL mark, and rights that were
      not understood are text that indeed cannot be. */
  predicate PrintableAce(ace: Ace) {
    Clean(ace.trustee) && MarkFree(ace, 'S') &&
    (!ace.understood ==> Clean(ace.rawRights) && ReadRights(ace.rawRights) == Reading(ace.mask, false))
  }

  predicate PrintableAces(aces: seq<Ace>) {
    forall i :: 0 <= i < |aces| ==> PrintableAce(aces[i])
  }

  /** The descriptor's own DACL mark is the first in its text. */
  predicate OwnDaclFirst(d: Descriptor) {
    !Begins(d.owner, 'D') && !Begins(d.group, 'D')
  }

  /** The marks of owner and group do not collide in what is written. */
  ghost predicate MarksFit(d: Descriptor) {
    Clear(SourceOf(d))
  }

  predicate SectionsWhole(d: Descriptor) {
    (NonEmpty(d.owner).Some? ==> SectionBody(Owner, d.owner.value) && NoBreak(d.owner.value)) &&
    (NonEmpty(d.group).Some? ==> SectionBody(Group, d.group.value) && NoBreak(d.group.value))
  }

  ghost predicate Printable(d: Descriptor) {
    SectionsWhole(d) && PrintableAces(Explicit(d.aces)) && OwnDaclFirst(d) && MarksFit(d)
  }

  /** The same entry, as it stands after being written: the inherited mark is gone and the
      rights are spelled the way they were written. */
  function Settled(ace: Ace): Ace {
    ace.(flags := ace.flags & 0x0F, rawRights := RightsText(ace))
  }

  function SettledAll(aces: seq<Ace>): seq<Ace> {
    seq(|aces|, i requires 0 <= i < |aces| => Settled(aces[i]))
  }

  lemma AceBack(ace: Ace)
    requires PrintableAce(ace)
    ensures AceOf(FieldsOf(ace)) == Settled(ace)
  {
    FlagsRoundTrip(ace.flags);
    RightsBack(ace);
    StripTrimmed(ace.trustee);
    KindBack(ace);
    AceRead(FieldsOf(ace), Settled(ace));
  }

  lemma AceRead(f: Fields, ace: Ace)
    requires |f| == 6 && KindOf(f[0]) == ace.kind && ReadFlags(f[1]) == ace.flags
    requires ReadRights(f[2]) == Reading(ace.mask, ace.understood)
    requires Strip(f[2]) == ace.rawRights && Strip(f[5]) == ace.trustee
    ensures AceOf(f) == ace
  {
  }

  lemma FieldsPlain(ace: Ace)
    requires PrintableAce(ace)
    ensures PlainFields(FieldsOf(ace))
  {
    FlagsRoundTrip(ace.flags);
    RightsBack(ace);
  }

  lemma RightsBack(ace: Ace)
    requires PrintableAce(ace)
    ensures ReadRights(RightsText(ace)) == Reading(ace.mask, ace.understood)
    ensures Strip(RightsText(ace)) == RightsText(ace) && Plain(RightsText(ace))
  {
    if ace.understood { RightsRoundTrip(ace.mask); }
    StripTrimmed(RightsText(ace));
  }

  lemma KindBack(ace: Ace)
    ensures KindOf(FieldsOf(ace)[0]) == ace.kind
  {
    CapitalsText("D");
    CapitalsText("A");
  }

  lemma FirstFound(entry: Entry, more: seq<Entry>)
    ensures FoundAll([entry] + more) == Found(entry) + FoundAll(more)
  {
    assert ([entry] + more)[1..] == more;
  }

  lemma OneFound(fields: Fields)
    requires |fields| >= 6
    ensures Found(Flat(fields)) == [AceOf(fields)]
  {
    var lists: seq<seq<string>> := [fields];
    assert lists[1..] == [];
    assert Entries(lists) == [AceOf(fields)] + Entries(lists[1..]);
  }

  lemma FlatFound(ace: Ace)
    requires PrintableAce(ace)
    ensures Found(Flat(FieldsOf(ace))) == [Settled(ace)] && PlainEntry(Flat(FieldsOf(ace)))
  {
    AceBack(ace);
    FieldsPlain(ace);
    OneFound(FieldsOf(ace));
  }

  lemma SettledFirst(aces: seq<Ace>)
    requires aces != []
    ensures SettledAll(aces) == [Settled(aces[0])] + SettledAll(aces[1..])
  {
  }

  lemma {:induction false} FieldsBack(aces: seq<Ace>)
    requires PrintableAces(aces)
    ensures PlainEntries(AllFlat(aces)) && FoundAll(AllFlat(aces)) == SettledAll(aces)
  {
    if aces != [] {
      var entry, more := Flat(FieldsOf(aces[0])), AllFlat(aces[1..]);
      FlatFound(aces[0]);
      FieldsBack(aces[1..]);
      FirstFound(entry, more);
      SettledFirst(aces);
      assert AllFlat(aces) == [entry] + more;
    }
  }

  // --- marks among the entries written ---------------------------------------------------

  lemma {:induction false} JoinMarkers(fields: Fields, c: char)
    requires c != ';' && forall i :: 0 <= i < |fields| ==> NoMarker(fields[i], c)
    ensures NoMarker(Join(fields, ';'), c)
  {
    if |fields| > 1 {
      JoinMarkers(fields[1..], c);
      NoMarkerConcat(fields[0], ";", c);
      NoMarkerConcat(fields[0] + ";", Join(fields[1..], ';'), c);
    }
  }

  lemma NoColonNoMarker(s: string, c: char)
    requires NoColon(s)
    ensures NoMarker(s, c)
  {
  }

  lemma EntryMarkers(ace: Ace, c: char)
    requires MarkFree(ace, c) && c != ';' && c != '('
    ensures NoMarker(SpellEntry(Flat(FieldsOf(ace))), c)
  {
    var fields := FieldsOf(ace);
    FlagsRoundTrip(ace.flags);
    if ace.understood { RightsRoundTrip(ace.mask); }
    forall i | 0 <= i < |fields| ensures NoMarker(fields[i], c) {
      if i < 5 && (i != 2 || ace.understood) { NoColonNoMarker(fields[i], c); }
    }
    JoinMarkers(fields, c);
    NoMarkerConcat("(", Join(fields, ';'), c);
    NoMarkerConcat("(" + Join(fields, ';'), ")", c);
  }

  lemma {:induction false} EntriesMarkers(aces: seq<Ace>, c: char)
    requires c != ';' && c != '(' && forall i :: 0 <= i < |aces| ==> MarkFree(aces[i], c)
    ensures NoMarker(SpellEntries(AllFlat(aces)), c)
    ensures SpellEntries(AllFlat(aces)) == "" || SpellEntries(AllFlat(aces))[0] == '('
  {
    if aces != [] {
      EntryMarkers(aces[0], c);
      EntriesMarkers(aces[1..], c);
      assert AllFlat(aces)[1..] == AllFlat(aces[1..]);
      NoMarkerConcat(SpellEntry(Flat(FieldsOf(aces[0]))), SpellEntries(AllFlat(aces[1..])), c);
    }
  }

  lemma PrintableIsWellFormed(d: Descriptor)
    requires Printable(d)
    ensures WellFormed(SourceOf(d)) && FoundIn(SourceOf(d).entries) == SettledAll(Explicit(d.aces))
  {
    WrittenFound(Explicit(d.aces));
  }

  /** Entries written are all found again. */
  lemma WrittenFound(aces: seq<Ace>)
    requires PrintableAces(aces)
    ensures PlainEntries(AllFlat(aces)) && FoundIn(AllFlat(aces)) == SettledAll(aces)
  {
    FieldsBack(aces);
    EntriesMarkers(aces, 'S');
    ReadableIff(AllFlat(aces));
  }

  /** What is written is read back: owner, group and protection as they were, and exactly
      the entries of the descriptor's own, in order, none of them inherited. */
  lemma RoundTrip(d: Descriptor)
    requires Printable(d)
    ensures Parse(Build(d)) ==
      Ok(Descriptor(Build(d), NonEmpty(d.owner), NonEmpty(d.group), SettledAll(Explicit(d.aces)), d.protected))
  {
    PrintableIsWellFormed(d);
    ParseSpell(SourceOf(d));
  }

  /** An explicit entry with only the five known flags keeps all of its content. */
  lemma SettledKeeps(ace: Ace)
    requires ace.flags & 0xE0 == 0 && !Inherited(ace)
    ensures Settled(ace) == ace.(rawRights := RightsText(ace))
  {
  }

  // --- descriptors without colons ------------------------------------------------------------

  predicate NoColonIn(field: Option<string>) {
    field.Some? ==> NoColon(field.value)
  }

  predicate ColonFree(d: Descriptor) {
    NoColonIn(d.owner) && NoColonIn(d.group) &&
    forall i :: 0 <= i < |d.aces| ==> NoColon(d.aces[i].trustee) && NoColon(d.aces[i].rawRights)
  }

  lemma {:induction false} ExplicitOf(aces: seq<Ace>)
    ensures forall i :: 0 <= i < |Explicit(aces)| ==> Explicit(aces)[i] in aces && !Inherited(Explicit(aces)[i])
  {
    if aces != [] { ExplicitOf(aces[1..]); }
  }

  /** Neither owner nor group nor the entries hold a mark of the section `c`. */
  predicate NoMarks(src: Source, c: char) {
    (src.owner.Some? ==> NoMarker(src.owner.value, c)) && (src.group.Some? ==> NoMarker(src.group.value, c)) &&
    NoMarker(SpellEntries(src.entries), c)
  }

  predicate LeavesOut(src: Source, sec: Section) {
    if sec.Owner? then src.owner.None? else src.group.None?
  }

  /** A section that is left out is silent when no other text holds its mark. */
  lemma NoMarksIsSilent(src: Source, sec: Section)
    requires LeavesOut(src, sec) && src.sacl.None? && NoColon(src.control) && NoMarks(src, Letter(sec))
    ensures Silent(sec, Spell(src))
  {
    var c := Letter(sec);
    SpellShape(src);
    if src.owner.Some? { PartMarkers('O', src.owner, c); }
    if src.group.Some? { PartMarkers('G', src.group, c); }
    NoColonNoMarker(src.control, c);
    PartMarkers('D', Some(src.control), c);
    assert "D:" + src.control == Part('D', Some(src.control));
    assert Tail(src) == SpellEntries(src.entries);
    TailOpens(src);
    NoMarkerConcat("D:" + src.control, Tail(src), c);
    NoMarkerConcat(Part('G', src.group), FromDacl(src), c);
    NoMarkerConcat(Part('O', src.owner), Part('G', src.group) + FromDacl(src), c);
    NoMarkerIsSilent(sec, Spell(src));
  }

  lemma LeftOutIsSilent(d: Descriptor, sec: Section)
    requires LeavesOut(SourceOf(d), sec)
    requires NonEmpty(d.owner).Some? ==> NoMarker(d.owner.value, Letter(sec))
    requires NonEmpty(d.group).Some? ==> NoMarker(d.group.value, Letter(sec))
    requires forall i :: 0 <= i < |Explicit(d.aces)| ==> MarkFree(Explicit(d.aces)[i], Letter(sec))
    ensures Silent(sec, Build(d))
  {
    EntriesMarkers(Explicit(d.aces), Letter(sec));
    NoMarksIsSilent(SourceOf(d), sec);
  }

  /** Without colons there are no marks to go wrong. */
  lemma ColonFreeFits(d: Descriptor)
    requires ColonFree(d)
    ensures OwnDaclFirst(d) && MarksFit(d)
  {
    ExplicitOf(d.aces);
    forall i, c | 0 <= i < |Explicit(d.aces)| ensures MarkFree(Explicit(d.aces)[i], c) {
      var ace := Explicit(d.aces)[i];
      var k :| 0 <= k < |d.aces| && d.aces[k] == ace;
    }
    if NonEmpty(d.owner).None? { LeftOutIsSilent(d, Owner); }
    if NonEmpty(d.group).None? { LeftOutIsSilent(d, Group); }
  }

  // --- what parsing any text at all gives ------------------------------------------------------

  lemma NoMarkerWithin(s: string, a: nat, b: nat, c: char)
    requires NoMarker(s, c) && a <= b <= |s|
    ensures NoMarker(s[a..b], c)
  {
    forall i | 0 <= i < b - a ensures !MarkerAt(s[a..b], c, i) {
      assert !MarkerAt(s, c, a + i);
    }
  }

  lemma NoMarkerAfter(s: string, a: nat, c: char)
    requires NoMarker(s, c) && a <= |s|
    ensures NoMarker(s[a..], c)
  {
    NoMarkerWithin(s, a, |s|, c);
    assert s[a..|s|] == s[a..];
  }

  lemma NoMarkerBefore(s: string, b: nat, c: char)
    requires NoMarker(s, c) && b <= |s|
    ensures NoMarker(s[..b], c)
  {
    NoMarkerWithin(s, 0, b, c);
    assert s[0..b] == s[..b];
  }

  lemma {:induction false} GroupsAre(s: string, c: char)
    requires NoMarker(s, c)
    ensures forall i :: 0 <= i < |Groups(s)| ==> FreeOfParens(Groups(s)[i]) && NoMarker(Groups(s)[i], c)
    decreases |s|
  {
    if s != "" {
      NoMarkerAfter(s, 1, c);
      GroupsAre(s[1..], c);
      var e := 1 + ParenIndex(s[1..]);
      if s[0] == '(' && e < |s| && s[e] == ')' {
        NoMarkerAfter(s, e + 1, c);
        NoMarkerWithin(s, 1, e, c);
        GroupsAre(s[e + 1..], c);
        forall i | 0 <= i < |s[1..e]| ensures s[1..e][i] != '(' && s[1..e][i] != ')' {
          assert s[1..e][i] == s[1..][i];
        }
      }
    }
  }

  lemma {:induction false} PartsHaveNo(s: string, part: string, c: char)
    requires NoMarker(s, c) && part in Split(s, ';')
    ensures NoMarker(part, c)
  {
    var i := IndexOf(s, ';');
    NoMarkerBefore(s, i, c);
    if i < |s| && part != s[..i] {
      NoMarkerAfter(s, i + 1, c);
      PartsHaveNo(s[i + 1..], part, c);
    }
  }

  lemma {:induction false} StripHasNo(s: string, c: char)
    requires NoMarker(s, c)
    ensures NoMarker(Strip(s), c)
  {
    if s != "" && IsSpace(s[0]) {
      NoMarkerAfter(s, 1, c);
      StripHasNo(s[1..], c);
    } else if s != "" && IsSpace(s[|s| - 1]) {
      NoMarkerBefore(s, |s| - 1, c);
      StripHasNo(s[..|s| - 1], c);
    }
  }

  lemma CleanPart(text: string, part: string)
    requires FreeOfParens(text) && part in Split(text, ';')
    ensures Clean(Strip(part))
  {
    var s := Strip(part);
    forall i | 0 <= i < |s| ensures s[i] != '(' && s[i] != ')' && s[i] != ';' {
      StripChars(part, s[i]);
      SplitChars(text, ';', part, s[i]);
    }
  }

  lemma PartIs(text: string, part: string, c: char)
    requires FreeOfParens(text) && NoMarker(text, c) && part in Split(text, ';')
    ensures Clean(Strip(part)) && NoMarker(Strip(part), c)
  {
    CleanPart(text, part);
    PartsHaveNo(text, part, c);
    StripHasNo(part, c);
  }

  predicate AcesWithout(aces: seq<Ace>, c: char) {
    forall i :: 0 <= i < |aces| ==> NoMarker(aces[i].trustee, c) && NoMarker(aces[i].rawRights, c)
  }

  predicate AllParsed(aces: seq<Ace>) {
    forall i :: 0 <= i < |aces| ==>
      Clean(aces[i].trustee) && Clean(aces[i].rawRights) &&
      ReadRights(aces[i].rawRights) == Reading(aces[i].mask, aces[i].understood)
  }

  lemma {:induction false} AcesAre(texts: seq<string>, c: char)
    requires forall i :: 0 <= i < |texts| ==> FreeOfParens(texts[i]) && NoMarker(texts[i], c)
    ensures AllParsed(AcesIn(texts)) && AcesWithout(AcesIn(texts), c)
  {
    if texts != [] {
      AcesAre(texts[1..], c);
      EntriesStep(texts, 0);
      assert texts[0..] == texts;
      var parts := Split(texts[0], ';');
      if |parts| >= 6 {
        PartIs(texts[0], parts[5], c);
        PartIs(texts[0], parts[2], c);
        StripTrimmed(Strip(parts[2]));
      }
    }
  }

  /** The entries of any text are clean, and no SACL mark is among them. */
  lemma ParsedAces(s: string)
    requires Parse(s).Ok?
    ensures AllParsed(Parse(s).value.aces) && AcesWithout(Parse(s).value.aces, 'S')
  {
    var body := SplitDacl(s).value.1;
    var rest := s[SkipControl(s, FindFrom(s, 'D', 0) + 2)..];
    var n := FindFrom(rest, 'S', 0);
    FindFirst(rest, 'S', 0);
    assert body == rest[..n];
    forall i | 0 <= i < |body| ensures !MarkerAt(body, 'S', i) {
      assert !MarkerAt(rest, 'S', i);
    }
    GroupsAre(body, 'S');
    AcesAre(Groups(body), 'S');
  }

  /** A section found in any text is whole: no break, and no mark that would end it early. */
  lemma {:induction false} FoundSection(sec: Section, s: string, n: nat)
    requires n <= |s| && SearchFrom(sec, s, n).Some?
    ensures var v := SearchFrom(sec, s, n).value; SectionBody(sec, v) && NoBreak(v)
    decreases |s| - n
  {
    if MatchAt(sec, s, n).Some? {
      MatchIsBody(sec, s, n);
    } else if n < |s| {
      FoundSection(sec, s, n + 1);
    }
  }

  lemma MatchIsBody(sec: Section, s: string, n: nat)
    requires MatchAt(sec, s, n).Some?
    ensures SectionBody(sec, MatchAt(sec, s, n).value)
  {
    FieldEndFirst(sec, s, n + 3);
    var e := FieldEnd(sec, s, n + 3).value;
    var v := s[n + 2..e];
    forall i | 1 <= i < |v| ensures !Closes(sec, v, i) {
      assert !EndsAt(sec, s, n + 2 + i);
    }
  }

  lemma ParsedIsPrintable(s: string)
    requires Parse(s).Ok?
    ensures var d := Parse(s).value; SectionsWhole(d) && PrintableAces(Explicit(d.aces))
  {
    var d := Parse(s).value;
    if d.owner.Some? { FoundSection(Owner, s, 0); }
    if d.group.Some? { FoundSection(Group, s, 0); }
    ParsedAces(s);
    ExplicitOf(d.aces);
    forall i | 0 <= i < |Explicit(d.aces)| ensures PrintableAce(Explicit(d.aces)[i]) {
      var k :| 0 <= k < |d.aces| && d.aces[k] == Explicit(d.aces)[i];
    }
  }

  // --- saving twice ------------------------------------------------------------------------

  lemma {:induction false} SameFlagsText(table: Table<bv8>, f: bv8, g: bv8, n: nat)
    requires n <= |table| && forall i :: 0 <= i < n ==> Written(table, f, i) == Written(table, g, i)
    ensures RenderFirst(table, f, n) == RenderFirst(table, g, n)
  {
    if n > 0 { SameFlagsText(table, f, g, n - 1); }
  }

  lemma SettledFields(ace: Ace)
    ensures FieldsOf(Settled(ace)) == FieldsOf(ace) && !Inherited(Settled(ace))
  {
    var f, g := ace.flags, ace.flags & 0x0F;
    forall i | 0 <= i < |FLAG_LETTERS| ensures Written(FLAG_LETTERS, f, i) == Written(FLAG_LETTERS, g, i) {
    }
    SameFlagsText(FLAG_LETTERS, f, g, |FLAG_LETTERS|);
  }

  lemma {:induction false} SettledSpelling(aces: seq<Ace>)
    ensures Explicit(SettledAll(aces)) == SettledAll(aces)
    ensures AllFlat(SettledAll(aces)) == AllFlat(aces)
  {
    if aces != [] {
      SettledFields(aces[0]);
      SettledSpelling(aces[1..]);
      assert SettledAll(aces)[1..] == SettledAll(aces[1..]);
    }
  }

  lemma SettledBuild(d: Descriptor, text: string)
    ensures Build(Descriptor(text, NonEmpty(d.owner), NonEmpty(d.group), SettledAll(Explicit(d.aces)), d.protected))
      == Build(d)
  {
    SettledSpelling(Explicit(d.aces));
  }

  /** The text that saving this descriptor gives is saved again unchanged. */
  predicate Stable(d: Descriptor) {
    Parse(Build(d)).Ok? && Build(Parse(Build(d)).value) == Build(d)
  }

  /** Saving is a fixed point for every text whose marks fit, and every explicit entry keeps
      its mask, or its rights text where that was not understood. */
  lemma SavingIsStable(s: string)
    requires Parse(s).Ok? && OwnDaclFirst(Parse(s).value) && MarksFit(Parse(s).value)
    ensures var d := Parse(s).value;
      Stable(d) && Parse(Build(d)).value.aces == SettledAll(Explicit(d.aces))
  {
    ParsedIsPrintable(s);
    var d := Parse(s).value;
    RoundTrip(d);
    SettledBuild(d, Build(d));
  }

  // --- exactly when -----------------------------------------------------------------------------

  lemma MarkCloses(sec: Section, s: string, k: nat)
    requires k + 1 < |s| && (s[k] == 'D' || s[k] == 'S') && s[k + 1] == ':'
    ensures Closes(sec, s, k)
  {
  }

  /** A group is over before the first DACL mark after its first character. */
  lemma MarkPast(s: string, g: string, k: nat)
    requires SectionBody(Group, g) && g <= s && |g| < |s| && s[|g|] == 'D'
    requires 1 <= k && k + 1 < |s| && s[k] == 'D' && s[k + 1] == ':'
    ensures |g| <= k
  {
    if k + 1 < |g| { MarkCloses(Group, g, k); }
  }

  lemma SameGroup(g: string, h: string, a: string, b: string)
    requires SectionBody(Group, g) && SectionBody(Group, h)
    requires g + ("D:" + a) == h + ("D:" + b)
    ensures g == h
  {
    var s := g + ("D:" + a);
    assert s[|g|] == 'D' && s[|g| + 1] == ':' && s[|h|] == 'D' && s[|h| + 1] == ':';
    assert s[..|g|] == g && s[..|h|] == h;
    MarkPast(s, g, |h|);
    MarkPast(s, h, |g|);
  }

  /** Where the field that starts at 4 ends, when an owner like "G:..." stands before a group. */
  lemma MisreadEnd(t: string, o: string, g: string, e: nat)
    requires SectionBody(Owner, o) && MarkerAt(o, 'G', 0) && SectionBody(Group, g)
    requires |t| >= |o| + |g| + 6
    requires forall k :: 0 <= k < |o| ==> t[2 + k] == o[k]
    requires t[2 + |o|] == 'G' && t[3 + |o|] == ':'
    requires forall k :: 0 <= k < |g| ==> t[4 + |o| + k] == g[k]
    requires t[4 + |o| + |g|] == 'D'
    requires e == 4 + |g| && e >= 5 && EndsAt(Group, t, e)
    ensures exists k :: 0 <= k < |g| && t[4 + k] != g[k]
  {
    if e + 1 < 2 + |o| {
      assert t[e] == o[e - 2] && t[e + 1] == o[e - 1];
      MarkCloses(Owner, o, e - 2);
    } else {
      assert e + 1 != 2 + |o| && e != 2 + |o| && e != 3 + |o|;
      var k := e - (4 + |o|);
      assert t[e] == g[k];
      if 0 < k && k + 1 < |g| {
        MarkCloses(Group, g, k);
      } else {
        assert k == 0 && |g| == |o|;
        if |o| >= 4 && t[4] == g[0] && t[5] == g[1] { MarkCloses(Owner, o, 2); }
        assert t[4 + 0] != g[0] || t[4 + 1] != g[1];
      }
    }
  }

  /** An owner that begins like a group is taken for the group. */
  lemma GroupMisread(o: string, g: string, after: string)
    requires SectionBody(Owner, o) && NoBreak(o) && MarkerAt(o, 'G', 0) && SectionBody(Group, g) && NoBreak(g)
    requires MarkerAt(after, 'D', 0)
    ensures var found := SearchFrom(Group, "O:" + o + ("G:" + g + after), 0); found.Some? && found.value != g
  {
    var t, m := "O:" + o + ("G:" + g + after), 4 + |o| + |g|;
    assert t[m..] == after;
    assert t[m] == t[m..][0] && t[m + 1] == t[m..][1];
    assert forall k :: 0 <= k < |o| ==> t[2 + k] == o[k];
    assert forall k :: 0 <= k < |g| ==> t[4 + |o| + k] == g[k];
    SearchSkips(Group, t, 0, 2);
    FieldEndNear(Group, t, 5, m);
    FieldEndFirst(Group, t, 5);
    var e := FieldEnd(Group, t, 5).value;
    assert MatchAt(Group, t, 2) == Some(t[4..e]);
    if |g| == e - 4 {
      MisreadEnd(t, o, g, e);
      var k :| 0 <= k < |g| && t[4 + k] != g[k];
      assert t[4..e][k] != g[k];
    }
  }

  lemma OwnerShows(src: Source)
    ensures Spell(src) != "" && (Spell(src)[0] == 'O' <==> src.owner.Some?)
  {
    SpellShape(src);
    if src.owner.None? { assert Spell(src) == Part('G', src.group) + FromDacl(src); }
  }

  /** A group, or its absence, can be told from the text up to the DACL. */
  lemma GroupShows(p: Option<string>, q: Option<string>, x: string, y: string)
    requires Part('G', p) + ("D:" + x) == Part('G', q) + ("D:" + y)
    requires (p.Some? ==> SectionBody(Group, p.value)) && (q.Some? ==> SectionBody(Group, q.value))
    ensures p == q
  {
    var s := Part('G', p) + ("D:" + x);
    assert s[0] == 'G' <==> p.Some?;
    assert s[0] == 'G' <==> q.Some?;
    if p.Some? { GroupAgain(p.value, q.value, x, y); }
  }

  /** Sources that spell the same text behind the same owner have the same group. */
  lemma SameSections(p: Source, q: Source)
    requires Spell(p) == Spell(q) && p.owner == q.owner
    requires p.group.Some? ==> SectionBody(Group, p.group.value)
    requires q.group.Some? ==> SectionBody(Group, q.group.value)
    ensures p.group == q.group
  {
    SpellShape(p);
    SpellShape(q);
    SameRest(Part('O', p.owner), Part('G', p.group) + FromDacl(p), Part('G', q.group) + FromDacl(q));
    ConcatAssociates("D:", p.control, Tail(p));
    ConcatAssociates("D:", q.control, Tail(q));
    GroupShows(p.group, q.group, p.control + Tail(p), q.control + Tail(q));
  }

  lemma GroupAgain(g: string, h: string, x: string, y: string)
    requires SectionBody(Group, g) && SectionBody(Group, h)
    requires "G:" + g + ("D:" + x) == "G:" + h + ("D:" + y)
    ensures g == h
  {
    ConcatAssociates("G:", g, "D:" + x);
    ConcatAssociates("G:", h, "D:" + y);
    SameRest("G:", g + ("D:" + x), h + ("D:" + y));
    SameGroup(g, h, x, y);
  }

  /** The source of what any text is parsed to. */
  lemma ParsedSource(s: string)
    requires Parse(s).Ok?
    ensures var d := Parse(s).value; var src := SourceOf(d);
      && src.owner == d.owner == SearchFrom(Owner, s, 0) && src.group == d.group == SearchFrom(Group, s, 0)
      && (d.owner.Some? ==> SectionBody(Owner, d.owner.value) && NoBreak(d.owner.value))
      && (d.group.Some? ==> SectionBody(Group, d.group.value) && NoBreak(d.group.value))
  {
    var d := Parse(s).value;
    if d.owner.Some? { FoundSection(Owner, s, 0); }
    if d.group.Some? { FoundSection(Group, s, 0); }
  }

  lemma StableSections(s: string)
    requires Parse(s).Ok? && Stable(Parse(s).value)
    ensures var d := Parse(s).value;
      SearchFrom(Owner, Build(d), 0) == d.owner && SearchFrom(Group, Build(d), 0) == d.group
  {
    var d := Parse(s).value;
    ParsedSource(s);
    ParsedSource(Build(d));
    var p, q := SourceOf(d), SourceOf(Parse(Build(d)).value);
    OwnerShows(p);
    OwnerShows(q);
    if p.owner.Some? { OwnerHit(p); }
    SameSections(p, q);
  }

  lemma StableFits(s: string)
    requires Parse(s).Ok? && Stable(Parse(s).value)
    ensures MarksFit(Parse(s).value)
  {
    StableSections(s);
    ParsedSource(s);
    KeptIsClear(SourceOf(Parse(s).value));
  }

  /** Where owner and group are found as they were written, their marks do not collide. */
  lemma KeptIsClear(src: Source)
    requires SearchFrom(Owner, Spell(src), 0) == src.owner && SearchFrom(Group, Spell(src), 0) == src.group
    ensures Bodies(src) && SectionsUnbroken(src) && Clear(src)
  {
    var s := Spell(src);
    if src.owner.Some? { FoundSection(Owner, s, 0); } else { SilentIff(Owner, s, 0); }
    if src.group.Some? { FoundSection(Group, s, 0); } else { SilentIff(Group, s, 0); }
    NotTaken(src);
  }

  lemma NotTaken(src: Source)
    requires Bodies(src) && SectionsUnbroken(src) && SearchFrom(Group, Spell(src), 0) == src.group
    ensures src.group.Some? ==> !Begins(src.owner, 'G')
  {
    if src.group.Some? && Begins(src.owner, 'G') { GroupTakenFor(src); }
  }

  lemma GroupTakenFor(src: Source)
    requires Bodies(src) && SectionsUnbroken(src) && src.group.Some? && Begins(src.owner, 'G')
    ensures SearchFrom(Group, Spell(src), 0) != src.group
  {
    var o, g, after := src.owner.value, src.group.value, FromDacl(src);
    SpellShape(src);
    assert "O:" + o + ("G:" + g + after) == Spell(src);
    GroupMisread(o, g, after);
  }

  /** The text of the entries a descriptor is written with. */
  function EntriesText(aces: seq<Ace>): string {
    SpellEntries(AllFlat(Explicit(aces)))
  }

  /** From the first DACL mark on, the text written reads with the same protection and the same
      entries to write. */
  predicate DaclAgain(d: Descriptor) {
    match SplitDacl(Build(d))
    case Err(_) => false
    case Ok((prefix, body)) =>
      IsProtected(prefix) == d.protected && EntriesText(AcesIn(Groups(body))) == EntriesText(d.aces)
  }

  lemma SameDacl(p: string, q: string, x: string, y: string)
    requires (p == "" || p == "P") && (q == "" || q == "P")
    requires (x == "" || x[0] != 'P') && (y == "" || y[0] != 'P')
    requires p + x == q + y
    ensures p == q && x == y
  {
    assert p == "P" <==> p + x != "" && (p + x)[0] == 'P';
    assert q == "P" <==> q + y != "" && (q + y)[0] == 'P';
    assert (p + x)[|p|..] == x && (q + y)[|q|..] == y;
  }

  /** Texts written with the same owner and group are the same exactly when the rest is. */
  lemma SameTextIff(d: Descriptor, e: Descriptor)
    requires NonEmpty(d.owner) == NonEmpty(e.owner) && NonEmpty(d.group) == NonEmpty(e.group)
    ensures Build(d) == Build(e) <==> d.protected == e.protected && EntriesText(d.aces) == EntriesText(e.aces)
  {
    var p, q := SourceOf(d), SourceOf(e);
    assert Tail(p) == EntriesText(d.aces) && Tail(q) == EntriesText(e.aces);
    SpellShape(p);
    SpellShape(q);
    ConcatAssociates("D:", p.control, Tail(p));
    ConcatAssociates("D:", q.control, Tail(q));
    if Build(d) == Build(e) {
      SameRest(Head(p), FromDacl(p), FromDacl(q));
      SameRest("D:", p.control + Tail(p), q.control + Tail(q));
      TailOpens(p);
      TailOpens(q);
      SameDacl(p.control, q.control, Tail(p), Tail(q));
    }
  }

  /** The marks of owner and group do not collide in what is saved, and its DACL reads the
      same again. */
  lemma StableAgain(s: string)
    requires Parse(s).Ok?
    ensures Stable(Parse(s).value) <==> MarksFit(Parse(s).value) && DaclAgain(Parse(s).value)
  {
    var d := Parse(s).value;
    ParsedSource(s);
    if Stable(d) { StableFits(s); }
    if MarksFit(d) && SplitDacl(Build(d)).Ok? {
      OwnerFound(SourceOf(d));
      GroupFound(SourceOf(d));
      SameTextIff(d, Parse(Build(d)).value);
    }
  }

  // --- owners and groups that begin like a DACL ------------------------------------------------

  /** What owner and group must hold for the DACL to be read the same again. When a DACL mark
      stands among them: with nothing after it that looks like an entry or a SACL, no P that
      the descriptor does not have; otherwise the right protection up to that point and no
      explicit entry of their own, or, behind a SACL mark, exactly the descriptor's. */
  predicate DaclFits(d: Descriptor) {
    var h := Head(SourceOf(d));
    var m := FindFrom(h, 'D', 0);
    m < |h| ==>
      var k := SkipControl(h, m + 2);
      if k == |h| then d.protected || !Contains(h, 'D', ':', 'P')
      else
        IsProtected(h[..k]) == d.protected &&
        var own := AcesIn(Groups(UpToSacl(h[k..])));
        if NoMarker(h[k..], 'S') then Explicit(own) == [] else EntriesText(own) == EntriesText(d.aces)
  }

  lemma {:induction false} SkipFirst(s: string, i: nat)
    requires i <= |s|
    ensures var r := SkipControl(s, i);
      (forall j :: i <= j < r ==> s[j] != '(' && s[j] != 'S') && (r < |s| ==> s[r] == '(' || s[r] == 'S')
    decreases |s| - i
  {
    if i < |s| && s[i] != '(' && s[i] != 'S' { SkipFirst(s, i + 1); }
  }

  /** The first DACL mark of the head is the first of the whole text. */
  lemma MarkInHead(h: string, rest: string)
    requires FindFrom(h, 'D', 0) < |h|
    ensures FindFrom(h + rest, 'D', 0) == FindFrom(h, 'D', 0)
  {
    var m := FindFrom(h, 'D', 0);
    FindFirst(h, 'D', 0);
    forall j | 0 <= j < m ensures !MarkerAt(h + rest, 'D', j) {
      assert !MarkerAt(h, 'D', j);
    }
    FindSkips(h + rest, 'D', 0, m);
  }

  lemma {:induction false} SkipOn(h: string, rest: string, i: nat)
    requires i <= |h| && SkipControl(h, i) == |h|
    ensures SkipControl(h + rest, i) == SkipControl(h + rest, |h|)
    decreases |h| - i
  {
    if i < |h| { SkipOn(h, rest, i + 1); }
  }

  lemma {:induction false} SkipWithin(h: string, rest: string, i: nat)
    requires i <= |h| && SkipControl(h, i) < |h|
    ensures SkipControl(h + rest, i) == SkipControl(h, i)
    decreases |h| - i
  {
    if i < SkipControl(h, i) { SkipWithin(h, rest, i + 1); }
  }

  lemma TwoOn(h: string, rest: string)
    requires MarkerAt(rest, 'D', 0)
    ensures SkipControl(h + rest, |h|) == SkipControl(h + rest, |h| + 2)
  {
    assert SkipControl(h + rest, |h|) == SkipControl(h + rest, |h| + 1);
  }

  lemma CursorThrough(h: string, control: string, entries: string, i: nat)
    requires i <= |h| && SkipControl(h, i) == |h|
    requires ControlText(control) && (entries == "" || entries[0] == '(')
    ensures SkipControl(h + ("D:" + control) + entries, i) == |h + ("D:" + control)|
  {
    var rest := "D:" + control + entries;
    ConcatAssociates(h, "D:" + control, entries);
    SkipOn(h, rest, i);
    TwoOn(h, rest);
    CursorStops(h, control, entries);
  }

  /** Where the head goes on to its end without a stop, the prefix takes in the DACL's own mark. */
  lemma SplitThrough(h: string, m: nat, control: string, p: string, entries: string)
    requires m == FindFrom(h, 'D', 0) < |h| && SkipControl(h, m + 2) == |h| && p == h + ("D:" + control)
    requires ControlText(control) && NoMarker(entries, 'S') && (entries == "" || entries[0] == '(')
    ensures SplitDacl(p + entries) == Ok((p, entries))
  {
    MarkThrough(h, "D:" + control, entries);
    CursorThrough(h, control, entries, m + 2);
    SplitsWhole(p, entries, m);
  }

  lemma SplitsWhole(prefix: string, tail: string, marker: nat)
    requires marker < |prefix + tail| && FindFrom(prefix + tail, 'D', 0) == marker
    requires SkipControl(prefix + tail, marker + 2) == |prefix| && NoMarker(tail, 'S')
    ensures SplitDacl(prefix + tail) == Ok((prefix, tail))
  {
    SplitsAt(prefix, tail, marker);
    Uncut(tail);
  }

  lemma MarkThrough(h: string, mid: string, entries: string)
    requires FindFrom(h, 'D', 0) < |h|
    ensures FindFrom(h + mid + entries, 'D', 0) == FindFrom(h, 'D', 0)
  {
    ConcatAssociates(h, mid, entries);
    MarkInHead(h, mid + entries);
  }

  /** Where it stops in the head, the rest of the head is read as entries. */
  lemma SplitWithin(h: string, m: nat, before: string, after: string, rest: string)
    requires m == FindFrom(h, 'D', 0) < |h| && SkipControl(h, m + 2) == |before| < |h| && h == before + after
    ensures SplitDacl(h + rest) == Ok((before, UpToSacl(after + rest)))
  {
    MarkInHead(h, rest);
    SkipWithin(h, rest, m + 2);
    ConcatAssociates(before, after, rest);
    SplitsAt(before, after + rest, m);
  }

  lemma {:induction false} TextsConcat(a: seq<Ace>, b: seq<Ace>)
    ensures EntriesText(a + b) == EntriesText(a) + EntriesText(b)
  {
    if a == [] {
      assert a + b == b;
    } else {
      var x, y := a[0], a[1..];
      TextsConcat(y, b);
      TextsStep(x, y, b, EntriesText(y), EntriesText(b));
      assert a == [x] + y;
    }
  }

  lemma TextsStep(x: Ace, y: seq<Ace>, b: seq<Ace>, yText: string, bText: string)
    requires EntriesText(y + b) == yText + bText && EntriesText(y) == yText
    ensures EntriesText(([x] + y) + b) == EntriesText([x] + y) + bText
  {
    var xy, all := [x] + y, ([x] + y) + b;
    assert all == [x] + (y + b);
    FirstText(xy, x, y);
    FirstText(all, x, y + b);
    Prepended(EntriesText(all), EntriesText(xy), TextOf(x), yText, bText);
  }

  lemma Prepended(all: string, xy: string, x: string, y: string, b: string)
    requires all == x + (y + b) && xy == x + y
    ensures all == xy + b
  {
  }

  function TextOf(ace: Ace): string {
    if Inherited(ace) then "" else SpellEntry(Flat(FieldsOf(ace)))
  }

  lemma FirstText(aces: seq<Ace>, ace: Ace, more: seq<Ace>)
    requires aces == [ace] + more
    ensures EntriesText(aces) == TextOf(ace) + EntriesText(more)
  {
    ExplicitStep(aces, 0);
    assert aces[0..] == aces && aces[1..] == more;
  }

  lemma NoTextIff(aces: seq<Ace>)
    ensures EntriesText(aces) == "" <==> Explicit(aces) == []
  {
    if Explicit(aces) != [] {
      assert AllFlat(Explicit(aces)) != [];
      assert SpellEntry(AllFlat(Explicit(aces))[0]) != "";
    }
  }

  /** What is written of a parsed descriptor's entries is read as entries written alike. */
  lemma EntriesAgain(d: Descriptor)
    requires PrintableAces(Explicit(d.aces))
    ensures ReadsAgain(EntriesText(d.aces))
  {
    FieldsBack(Explicit(d.aces));
    EntriesMarkers(Explicit(d.aces), 'S');
    EntriesBack(AllFlat(Explicit(d.aces)));
    SettledSpelling(Explicit(d.aces));
  }

  /** Protection as read from a prefix that runs on to the DACL's own flags. */
  lemma ProtectedThrough(h: string, control: string)
    requires control == "" || control == "P"
    ensures IsProtected(h + ("D:" + control)) <==> control == "P" || Contains(h, 'D', ':', 'P')
  {
    var p := h + ("D:" + control);
    ProtectedEnd(h, control);
    StripRightKeeps("P", "");
    if control == "P" { assert p[|h|] == 'D' && p[|h| + 1] == ':' && p[|h| + 2] == 'P'; }
    if Contains(h, 'D', ':', 'P') {
      var i :| 0 <= i < |h| - 2 && h[i] == 'D' && h[i + 1] == ':' && h[i + 2] == 'P';
      assert p[i] == 'D' && p[i + 1] == ':' && p[i + 2] == 'P';
    }
    if control == "" && Contains(p, 'D', ':', 'P') {
      var i :| 0 <= i < |p| - 2 && p[i] == 'D' && p[i + 1] == ':' && p[i + 2] == 'P';
      assert i < |h| - 2 && h[i] == p[i] && h[i + 1] == p[i + 1] && h[i + 2] == p[i + 2];
    }
  }

  lemma NoGroups(s: string)
    requires FreeOfParens(s)
    ensures Groups(s) == []
  {
    GroupsSkip(s, "");
    assert s + "" == s;
  }

  /** What is read behind a stop in the head: the head's own entries, and then, unless a SACL
      mark stands between, the descriptor's. */
  lemma BodyWithin(rest: string, control: string, entries: string)
    requires (control == "" || control == "P") && NoMarker(entries, 'S') && (entries == "" || entries[0] == '(')
    ensures var body := UpToSacl(rest + ("D:" + control + entries));
      AcesIn(Groups(body)) == AcesIn(Groups(UpToSacl(rest))) +
        if NoMarker(rest, 'S') then AcesIn(Groups(entries)) else []
  {
    var mid := "D:" + control;
    if NoMarker(rest, 'S') {
      NoColonNoMarker(control, 'S');
      PartMarkers('D', Some(control), 'S');
      assert mid == Part('D', Some(control));
      NoMarkerConcat(mid, entries, 'S');
      NoMarkerConcat(rest, mid + entries, 'S');
      Uncut(rest + (mid + entries));
      Uncut(rest);
      GroupsThrough(rest, mid, entries);
      AcesConcat(Groups(rest), Groups(entries));
    } else {
      CutInside(rest, mid + entries);
    }
  }

  lemma Uncut(s: string)
    requires NoMarker(s, 'S')
    ensures UpToSacl(s) == s
  {
    FindSkips(s, 'S', 0, |s|);
  }

  lemma GroupsThrough(rest: string, mid: string, entries: string)
    requires FreeOfParens(mid) && (entries == "" || entries[0] == '(')
    ensures Groups(rest + (mid + entries)) == Groups(rest) + Groups(entries)
  {
    ConcatAssociates(rest, mid, entries);
    GroupsConcat(rest + mid, entries);
    GroupsConcat(rest, mid);
    NoGroups(mid);
  }

  lemma BodyTextIff(rest: string, control: string, entries: string)
    requires (control == "" || control == "P") && ReadsAgain(entries)
    ensures var body, own := UpToSacl(rest + ("D:" + control + entries)), AcesIn(Groups(UpToSacl(rest)));
      EntriesText(AcesIn(Groups(body))) == entries <==>
      if NoMarker(rest, 'S') then Explicit(own) == [] else EntriesText(own) == entries
  {
    var own, more := AcesIn(Groups(UpToSacl(rest))), AcesIn(Groups(entries));
    BodyWithin(rest, control, entries);
    TextsConcat(own, more);
    NoTextIff(own);
    assert own + [] == own;
    assert EntriesText(own) + entries == entries <==> EntriesText(own) == "";
  }

  lemma DaclAgainIff(d: Descriptor)
    requires PrintableAces(Explicit(d.aces))
    ensures DaclAgain(d) <==> DaclFits(d)
  {
    var h := Head(SourceOf(d));
    var m := FindFrom(h, 'D', 0);
    EntriesAgain(d);
    if m == |h| {
      OwnDaclAgain(d);
    } else if SkipControl(h, m + 2) == |h| {
      ThroughIff(d);
    } else {
      WithinIff(d);
    }
  }

  /** The entries' text is one that reads the same again. */
  predicate ReadsAgain(text: string) {
    NoMarker(text, 'S') && (text == "" || text[0] == '(') && EntriesText(AcesIn(Groups(text))) == text
  }

  lemma ThroughIff(d: Descriptor)
    requires ReadsAgain(EntriesText(d.aces))
    requires var h := Head(SourceOf(d)); FindFrom(h, 'D', 0) < |h| && SkipControl(h, FindFrom(h, 'D', 0) + 2) == |h|
    ensures DaclAgain(d) <==> DaclFits(d)
  {
    WholeText(d);
    var h, control := Head(SourceOf(d)), SourceOf(d).control;
    SplitThrough(h, FindFrom(h, 'D', 0), control, h + ("D:" + control), EntriesText(d.aces));
    ProtectedThrough(h, control);
  }

  lemma WithinSplit(d: Descriptor, h: string, m: nat, before: string, after: string)
    requires h == Head(SourceOf(d)) && h == before + after
    requires m == FindFrom(h, 'D', 0) < |h| && SkipControl(h, m + 2) == |before| < |h|
    ensures SplitDacl(Build(d)) ==
      Ok((before, UpToSacl(after + ("D:" + SourceOf(d).control + EntriesText(d.aces)))))
  {
    WholeText(d);
    SplitWithin(h, m, before, after, "D:" + SourceOf(d).control + EntriesText(d.aces));
  }

  lemma WithinIff(d: Descriptor)
    requires ReadsAgain(EntriesText(d.aces))
    requires var h := Head(SourceOf(d)); FindFrom(h, 'D', 0) < |h| && SkipControl(h, FindFrom(h, 'D', 0) + 2) < |h|
    ensures DaclAgain(d) <==> DaclFits(d)
  {
    var h := Head(SourceOf(d));
    var m := FindFrom(h, 'D', 0);
    var k := SkipControl(h, m + 2);
    assert h == h[..k] + h[k..];
    WithinSplit(d, h, m, h[..k], h[k..]);
    BodyTextIff(h[k..], SourceOf(d).control, EntriesText(d.aces));
  }

  lemma WholeText(d: Descriptor)
    ensures var h, control, entries := Head(SourceOf(d)), SourceOf(d).control, EntriesText(d.aces);
      Build(d) == h + ("D:" + control) + entries && Build(d) == h + ("D:" + control + entries)
  {
    assert Tail(SourceOf(d)) == EntriesText(d.aces);
    SpellShape(SourceOf(d));
  }

  lemma OwnDaclAgain(d: Descriptor)
    requires PrintableAces(Explicit(d.aces)) && FindFrom(Head(SourceOf(d)), 'D', 0) == |Head(SourceOf(d))|
    ensures DaclAgain(d)
  {
    var src := SourceOf(d);
    FindFirst(Head(src), 'D', 0);
    WrittenFound(Explicit(d.aces));
    DaclRead(src);
    SettledSpelling(Explicit(d.aces));
  }

  /** Exactly when saving settles at once, for every text: if and only if the marks of owner
      and group do not collide in what is saved, and owner and group leave its DACL alone. */
  lemma StableIff(s: string)
    requires Parse(s).Ok?
    ensures Stable(Parse(s).value) <==> MarksFit(Parse(s).value) && DaclFits(Parse(s).value)
  {
    ParsedIsPrintable(s);
    StableAgain(s);
    DaclAgainIff(Parse(s).value);
  }

  // --- texts of the grammar ---------------------------------------------------------------------

  lemma MarkIsHeard(sec: Section, s: string, i: nat)
    requires NoBreak(s) && i + 2 < |s| && MarkerAt(s, Letter(sec), i)
    ensures Heard(sec, s, i)
  {
    assert EndsAt(sec, s, |s|);
  }

  /** On one line, a part of a text in which a section is silent holds none of its marks,
      unless one stands at the very end. */
  lemma SilentPart(sec: Section, before: string, part: string, after: string)
    requires NoBreak(before + part + after) && Silent(sec, before + part + after)
    requires after != "" || part == "" || part[|part| - 1] != ':'
    ensures NoMarker(part, Letter(sec))
  {
    var s := before + part + after;
    forall i | 0 <= i < |part| ensures !MarkerAt(part, Letter(sec), i) {
      if MarkerAt(part, Letter(sec), i) {
        assert s[|before| + i] == part[i] && s[|before| + i + 1] == part[i + 1];
        MarkIsHeard(sec, s, |before| + i);
      }
    }
  }

  /** The parts of a one-line text in which a section is silent. */
  lemma SilentParts(src: Source, sec: Section)
    requires NoBreak(Spell(src)) && Silent(sec, Spell(src))
    ensures NoMarker(SpellEntries(src.entries), Letter(sec))
    ensures src.owner.Some? ==> NoMarker(src.owner.value, Letter(sec))
    ensures src.group.Some? ==> NoMarker(src.group.value, Letter(sec))
  {
    SpellShape(src);
    EntriesEnd(src.entries);
    EntriesPart(src, sec);
    if src.group.Some? {
      assert Spell(src) == (Part('O', src.owner) + "G:") + src.group.value + FromDacl(src);
      SilentPart(sec, Part('O', src.owner) + "G:", src.group.value, FromDacl(src));
    }
    if src.owner.Some? {
      assert Spell(src) == "O:" + src.owner.value + (Part('G', src.group) + FromDacl(src));
      SilentPart(sec, "O:", src.owner.value, Part('G', src.group) + FromDacl(src));
    }
  }

  lemma EntriesPart(src: Source, sec: Section)
    requires NoBreak(Spell(src)) && Silent(sec, Spell(src))
    ensures NoMarker(SpellEntries(src.entries), Letter(sec))
  {
    var before, entries, sacl := Head(src) + ("D:" + src.control), SpellEntries(src.entries), Part('S', src.sacl);
    EntriesEnd(src.entries);
    ConcatAssociates(before, entries, sacl);
    SilentPart(sec, before, entries, sacl);
  }

  // --- on one line ------------------------------------------------------------------------------

  /** An owner beside a group does not begin like one, and no text holds a mark of a section
      that is left out. */
  predicate OwnMarksFit(d: Descriptor) {
    var src := SourceOf(d);
    (src.group.Some? ==> !Begins(src.owner, 'G')) &&
    (src.owner.None? ==> NoMarks(src, 'O')) && (src.group.None? ==> NoMarks(src, 'G'))
  }

  lemma SilentIffNoMarks(d: Descriptor, sec: Section)
    requires NoBreak(Build(d)) && LeavesOut(SourceOf(d), sec)
    ensures Silent(sec, Build(d)) <==> NoMarks(SourceOf(d), Letter(sec))
  {
    if Silent(sec, Build(d)) { SilentParts(SourceOf(d), sec); }
    if NoMarks(SourceOf(d), Letter(sec)) { NoMarksIsSilent(SourceOf(d), sec); }
  }

  /** For what is saved on one line the condition is on the texts of the descriptor alone: on
      the marks inside owner, group and entries. */
  lemma StableOnOneLine(s: string)
    requires Parse(s).Ok? && NoBreak(Build(Parse(s).value))
    ensures Stable(Parse(s).value) <==> OwnMarksFit(Parse(s).value) && DaclFits(Parse(s).value)
  {
    var d := Parse(s).value;
    StableIff(s);
    if NonEmpty(d.owner).None? { SilentIffNoMarks(d, Owner); }
    if NonEmpty(d.group).None? { SilentIffNoMarks(d, Group); }
  }

  lemma LeftOut(src: Source, d: Descriptor, sec: Section)
    requires WellFormed(src) && NoBreak(Spell(src)) && Silent(sec, Spell(src))
    requires d.owner == src.owner && d.group == src.group && d.aces == FoundIn(src.entries)
    requires LeavesOut(src, sec)
    ensures Silent(sec, Build(d))
  {
    SilentParts(src, sec);
    AcesMarkFree(src, Letter(sec));
    LeftOutIsSilent(d, sec);
  }

  lemma AcesMarkFree(src: Source, c: char)
    requires WellFormed(src) && NoMarker(SpellEntries(src.entries), c)
    ensures var aces := Explicit(FoundIn(src.entries)); forall i :: 0 <= i < |aces| ==> MarkFree(aces[i], c)
  {
    var aces, text := FoundIn(src.entries), SpellEntries(src.entries);
    var body := SpellEntries(Readable(src.entries)) + Cut(src.entries);
    ListCut(src.entries, None);
    assert text + Part('S', None) == text;
    NoMarkerBefore(text, FindFrom(text, 'S', 0), c);
    ListBack(src.entries);
    GroupsAre(body, c);
    AcesAre(Groups(body), c);
    ExplicitOf(aces);
    forall i | 0 <= i < |Explicit(aces)| ensures MarkFree(Explicit(aces)[i], c) {
      var k :| 0 <= k < |aces| && aces[k] == Explicit(aces)[i];
    }
  }

  lemma GrammarFits(src: Source)
    requires WellFormed(src) && NoBreak(Spell(src))
    ensures OwnDaclFirst(Meaning(src)) && MarksFit(Meaning(src))
  {
    if src.owner.None? { LeftOut(src, Meaning(src), Owner); }
    if src.group.None? { LeftOut(src, Meaning(src), Group); }
  }

  /** In particular every text of the format on one line settles after one save, conditions,
      attributes and colons included. */
  lemma GrammarSettles(src: Source)
    requires WellFormed(src) && NoBreak(Spell(src))
    ensures Parse(Spell(src)) == Ok(Meaning(src)) && Stable(Meaning(src))
    ensures Parse(Build(Meaning(src))).value.aces == SettledAll(Explicit(FoundIn(src.entries)))
  {
    ParseSpell(src);
    GrammarFits(src);
    SavingIsStable(Spell(src));
  }
}
