/** Where the SDDL editor keeps less than its documentation says, and exactly when. */
module SddlLimits {
  import opened Outcomes
  import opened Text
  import opened Rights
  import opened Sddl
  import opened SddlLaws
  import opened SddlRoundTrip

  // --- the protected flag ------------------------------------------------------------

  /** The DACL flags of the grammar. */
  datatype ControlFlag = P | AR | AI

  function SpellFlag(f: ControlFlag): string {
    match f case P => "P" case AR => "AR" case AI => "AI"
  }

  function SpellFlags(flags: seq<ControlFlag>): string {
    if flags == [] then "" else SpellFlag(flags[0]) + SpellFlags(flags[1..])
  }

  lemma {:induction false} FlagsEnd(flags: seq<ControlFlag>)
    requires flags != []
    ensures var s := SpellFlags(flags);
      s != "" && !IsSpace(s[|s| - 1]) && (s[|s| - 1] == 'P' <==> flags[|flags| - 1].P?)
  {
    if |flags| > 1 {
      FlagsEnd(flags[1..]);
    } else {
      assert SpellFlags(flags) == SpellFlag(flags[0]);
    }
  }

  lemma {:induction false} FlagsAreControl(flags: seq<ControlFlag>)
    ensures ControlText(SpellFlags(flags))
  {
    if flags != [] { FlagsAreControl(flags[1..]); }
  }

  /** Protection is recognised, and so survives a save, only when its flag comes first or
      last: between other flags it is lost. */
  lemma ProtectedWhenFirstOrLast(flags: seq<ControlFlag>)
    ensures ReadsProtected(SpellFlags(flags)) <==> flags != [] && (flags[0].P? || flags[|flags| - 1].P?)
  {
    if flags != [] {
      FlagsEnd(flags);
    }
  }

  /** A protected descriptor whose saved form is not protected. */
  lemma ProtectionLost()
    ensures var src := Source(None, None, SpellFlags([AI, P, AR]), [], None);
      WellFormed(src) && Parse(Spell(src)).Ok? && !Parse(Spell(src)).value.protected
  {
    var flags := [AI, P, AR];
    FlagsAreControl(flags);
    ParseSpell(Source(None, None, SpellFlags(flags), [], None));
    ProtectedWhenFirstOrLast(flags);
  }

  // --- entries that are lost --------------------------------------------------------------

  /** An entry of its own: six fields or more, and no parentheses inside. */
  predicate Survives(entry: Entry) {
    entry.Flat? && |entry.fields| >= 6
  }

  function Kept(entries: seq<Entry>): (kept: seq<Fields>)
    ensures forall i :: 0 <= i < |kept| ==> |kept[i]| >= 6
  {
    if entries == [] then []
    else (if Survives(entries[0]) then [entries[0].fields] else []) + Kept(entries[1..])
  }

  function AsAces(kept: seq<Fields>): (aces: seq<Ace>)
    requires forall i :: 0 <= i < |kept| ==> |kept[i]| >= 6
    ensures |aces| == |kept|
  {
    if kept == [] then [] else [AceOf(kept[0])] + AsAces(kept[1..])
  }

  lemma {:induction false} AsAcesAt(kept: seq<Fields>, k: nat)
    requires k < |kept| && forall i :: 0 <= i < |kept| ==> |kept[i]| >= 6
    ensures AsAces(kept)[k] == AceOf(kept[k])
  {
    if k > 0 { AsAcesAt(kept[1..], k - 1); }
  }

  predicate AllShort(texts: seq<string>) {
    forall i :: 0 <= i < |texts| ==> |Split(texts[i], ';')| < 6
  }

  /** Nothing inside the entry's condition reads like an entry itself. */
  predicate Quiet(entry: Entry) {
    entry.Conditional? ==> AllShort(Groups("(" + entry.condition + ")"))
  }

  predicate AllQuiet(entries: seq<Entry>) {
    forall i :: 0 <= i < |entries| ==> Quiet(entries[i])
  }

  lemma {:induction false} NoAcesIff(texts: seq<string>)
    ensures AcesIn(texts) == [] <==> AllShort(texts)
  {
    if texts != [] {
      NoAcesIff(texts[1..]);
      assert AcesIn(texts) == [] <==> |Split(texts[0], ';')| < 6 && AcesIn(texts[1..]) == [];
      assert forall i :: 1 <= i < |texts| ==> texts[i] == texts[1..][i - 1];
      assert AllShort(texts) <==> |Split(texts[0], ';')| < 6 && AllShort(texts[1..]);
    }
  }

  lemma FoundIs(entry: Entry)
    ensures Survives(entry) ==> Found(entry) == [AceOf(entry.fields)]
    ensures !Survives(entry) ==> (Found(entry) == [] <==> Quiet(entry))
  {
    match entry
    case Flat(fields) => if |fields| >= 6 { OneFound(fields); } else { ShortFound(fields); }
    case Conditional(_, condition) => NoAcesIff(Groups("(" + condition + ")"));
  }

  lemma ShortFound(fields: Fields)
    requires |fields| < 6
    ensures Found(Flat(fields)) == []
  {
    var lists: seq<seq<string>> := [fields];
    assert lists[1..] == [] && Entries(lists) == Entries(lists[1..]);
  }

  /** What is read is the entries that survive, or strictly more. */
  lemma {:induction false} FoundAreKept(entries: seq<Entry>)
    ensures |FoundAll(entries)| >= |Kept(entries)|
    ensures AllQuiet(entries) ==> FoundAll(entries) == AsAces(Kept(entries))
    ensures !AllQuiet(entries) ==> |FoundAll(entries)| > |Kept(entries)|
  {
    if entries != [] {
      FoundIs(entries[0]);
      FoundAreKept(entries[1..]);
      QuietStep(entries);
      if Survives(entries[0]) {
        assert Kept(entries)[1..] == Kept(entries[1..]);
      } else {
        assert Kept(entries) == Kept(entries[1..]);
      }
    }
  }

  lemma QuietStep(entries: seq<Entry>)
    requires entries != []
    ensures AllQuiet(entries) <==> Quiet(entries[0]) && AllQuiet(entries[1..])
  {
    assert forall i :: 1 <= i < |entries| ==> entries[i] == entries[1..][i - 1];
  }

  /** Neither a condition before the first SACL mark nor what is cut off by it holds text that
      reads like an entry. */
  predicate NothingElse(entries: seq<Entry>) {
    AllQuiet(Readable(entries)) && AllShort(Groups(Cut(entries)))
  }

  /** Exactly which entries survive parsing: of those wholly before the first SACL mark among
      them, the ones with six fields or more and no parentheses inside; and nothing else, if and
      only if no condition holds text that reads like an entry. */
  lemma SurvivorsIff(src: Source)
    requires WellFormed(src)
    ensures Parse(Spell(src)).Ok? && Parse(Spell(src)).value.sddl == Spell(src)
    ensures Parse(Spell(src)).value.aces == AsAces(Kept(Readable(src.entries))) <==> NothingElse(src.entries)
  {
    ParseSpell(src);
    FoundAreKept(Readable(src.entries));
    NoAcesIff(Groups(Cut(src.entries)));
  }

  lemma {:induction false} AllKeptIff(entries: seq<Entry>)
    ensures |Kept(entries)| <= |entries|
    ensures |Kept(entries)| == |entries| <==> forall i :: 0 <= i < |entries| ==> Survives(entries[i])
  {
    if entries != [] {
      AllKeptIff(entries[1..]);
      assert forall i :: 1 <= i < |entries| ==> entries[i] == entries[1..][i - 1];
      assert forall i :: 0 <= i < |entries[1..]| ==> entries[1..][i] == entries[i + 1];
    }
  }

  /** No entry of a text is lost exactly when every one has six fields and none a condition,
      and no SACL mark stands among them. */
  lemma NothingLostIff(src: Source)
    requires WellFormed(src) && NothingElse(src.entries)
    ensures Parse(Spell(src)).Ok?
    ensures |Parse(Spell(src)).value.aces| == |src.entries| <==>
      NoMarker(SpellEntries(src.entries), 'S') && forall i :: 0 <= i < |src.entries| ==> Survives(src.entries[i])
  {
    SurvivorsIff(src);
    AllKeptIff(Readable(src.entries));
    AllKeptIff(src.entries);
    ReadableIff(src.entries);
  }

  /** A cut flat entry holds nothing that is read. */
  lemma CutIsQuiet(fields: Fields)
    requires PlainFields(fields) && Cuts(Flat(fields))
    ensures Groups(UpToSacl(SpellEntry(Flat(fields)))) == []
  {
    var text := SpellEntry(Flat(fields));
    var n := FindFrom(text, 'S', 0);
    var i :| 0 <= i < |text| && MarkerAt(text, 'S', i);
    FindFirst(text, 'S', 0);
    PlainJoin(fields);
    NeverClosed(text[..n]);
  }

  lemma {:induction false} NeverClosed(s: string)
    requires forall i :: 0 <= i < |s| ==> s[i] != ')'
    ensures Groups(s) == []
  {
    if s != "" { NeverClosed(s[1..]); }
  }

  /** Behind a flat entry with a SACL mark in it nothing is left, whatever follows. */
  lemma LostBehindMark(src: Source, fields: Fields, more: seq<Entry>)
    requires WellFormed(src) && src.entries == [Flat(fields)] + more && Cuts(Flat(fields))
    ensures Parse(Spell(src)).Ok? && Parse(Spell(src)).value.aces == []
  {
    assert PlainEntry(src.entries[0]);
    ParseSpell(src);
    CutIsQuiet(fields);
    assert Readable(src.entries) == [];
  }

  /** The fields of an entry without flags and GUIDs. */
  function Fields3(aceType: string, rights: string, trustee: string): Fields {
    [aceType, "", rights, "", "", trustee]
  }

  /** Such as a denial of any rights, for anyone: behind a grant to "S:" nothing of it survives
      a save. */
  lemma DenialLostBehindMark(granted: nat, denied: nat, trustee: string)
    requires Clean(trustee) && NoColon(trustee)
    ensures var s := "D:" + (SpellEntry(Flat(Fields3("A", RenderRights(granted), "S:"))) +
                             SpellEntry(Flat(Fields3("D", RenderRights(denied), trustee))));
      Parse(s).Ok? && Build(Parse(s).value) == "D:"
  {
    var first, second := Fields3("A", RenderRights(granted), "S:"), Fields3("D", RenderRights(denied), trustee);
    RightsRoundTrip(granted);
    RightsRoundTrip(denied);
    Markless("A", RenderRights(granted), "S:");
    Markless("D", RenderRights(denied), trustee);
    assert first[5] == "S:";
    CutByField(first, 5, 0);
    MarkedPair(first, second);
  }

  predicate Unowned(s: string) {
    NoMarker(s, 'O') && NoMarker(s, 'G')
  }

  lemma Markless(aceType: string, rights: string, trustee: string)
    requires (aceType == "A" || aceType == "D") && FieldSafe(rights) && Plain(trustee) && Unowned(trustee)
    ensures var f := Fields3(aceType, rights, trustee); PlainFields(f) && Unowned(SpellEntry(Flat(f)))
  {
    var f := Fields3(aceType, rights, trustee);
    forall i | 0 <= i < |f| ensures Unowned(f[i]) && Plain(f[i]) {
      if i < 5 {
        NoColonNoMarker(f[i], 'O');
        NoColonNoMarker(f[i], 'G');
      }
    }
    FlatMarkers(f, 'O');
    FlatMarkers(f, 'G');
  }

  lemma FlatMarkers(fields: Fields, c: char)
    requires c != ';' && c != '(' && forall i :: 0 <= i < |fields| ==> NoMarker(fields[i], c)
    ensures NoMarker(SpellEntry(Flat(fields)), c)
  {
    JoinMarkers(fields, c);
    NoMarkerConcat("(", Join(fields, ';'), c);
    NoMarkerConcat("(" + Join(fields, ';'), ")", c);
  }

  /** A mark in a field is one in the entry. */
  lemma CutByField(fields: Fields, k: nat, i: nat)
    requires k < |fields| && MarkerAt(fields[k], 'S', i)
    ensures Cuts(Flat(fields))
  {
    var n := FieldMark(fields, k, i);
    var text := SpellEntry(Flat(fields));
    assert text[1 + n] == Join(fields, ';')[n] && text[2 + n] == Join(fields, ';')[n + 1];
    assert MarkerAt(text, 'S', 1 + n);
  }

  lemma {:induction false} FieldMark(fields: Fields, k: nat, i: nat) returns (n: nat)
    requires k < |fields| && MarkerAt(fields[k], 'S', i)
    ensures MarkerAt(Join(fields, ';'), 'S', n)
  {
    if k == 0 {
      n := i;
    } else {
      var m := FieldMark(fields[1..], k - 1, i);
      var start := fields[0] + ";";
      n := |start| + m;
      assert Join(fields, ';') == start + Join(fields[1..], ';');
    }
  }

  lemma MarkedPair(first: Fields, second: Fields)
    requires PlainFields(first) && PlainFields(second) && Cuts(Flat(first))
    requires Unowned(SpellEntry(Flat(first))) && Unowned(SpellEntry(Flat(second)))
    ensures var s := "D:" + (SpellEntry(Flat(first)) + SpellEntry(Flat(second)));
      Parse(s).Ok? && Build(Parse(s).value) == "D:"
  {
    var one, two := SpellEntry(Flat(first)), SpellEntry(Flat(second));
    var s := "D:" + (one + two);
    var src := PairSource(first, second);
    PairText(first, second);
    forall c | c == 'O' || c == 'G' ensures NoMarker(s, c) {
      NoMarkerConcat(one, two, c);
      NoMarkerConcat("D:", one + two, c);
    }
    NoMarkerIsSilent(Owner, s);
    NoMarkerIsSilent(Group, s);
    LostBehindMark(src, first, [Flat(second)]);
    BareSections(s);
    BuildNothing(Parse(s).value);
  }

  function PairSource(first: Fields, second: Fields): Source {
    Source(None, None, "", [Flat(first), Flat(second)], None)
  }

  lemma PairText(first: Fields, second: Fields)
    ensures Spell(PairSource(first, second)) == "D:" + (SpellEntry(Flat(first)) + SpellEntry(Flat(second)))
  {
    var two := [Flat(second)];
    assert two[1..] == [] && SpellEntries(two) == SpellEntry(Flat(second));
    assert [Flat(first), Flat(second)][1..] == two;
  }

  /** A text that starts with its list and holds no owner or group mark. */
  lemma BareSections(s: string)
    requires Parse(s).Ok? && |s| > 2 && s[..2] == "D:" && s[2] == '(' && NoMarker(s, 'O') && NoMarker(s, 'G')
    ensures var d := Parse(s).value; d.owner.None? && d.group.None? && !d.protected
  {
    NoMarkerIsSilent(Owner, s);
    NoMarkerIsSilent(Group, s);
    SilentIff(Owner, s, 0);
    SilentIff(Group, s, 0);
    FindSkips(s, 'D', 0, 0);
    SkipIs(s, 2, 2);
    StripRightKeeps("D:", "");
    assert IsProtected("D:") == false;
  }

  lemma {:induction false} GroupChars(s: string, i: nat, c: char)
    requires i < |Groups(s)| && c in Groups(s)[i]
    ensures c in s
    decreases |s|
  {
    var e := 1 + ParenIndex(s[1..]);
    if s[0] == '(' && e < |s| && s[e] == ')' {
      if i > 0 { GroupChars(s[e + 1..], i - 1, c); }
    } else {
      GroupChars(s[1..], i, c);
    }
  }

  /** A condition without semicolons holds nothing that reads like an entry. */
  lemma NoSemicolonIsQuiet(lead: Fields, condition: string)
    requires ';' !in condition
    ensures Quiet(Conditional(lead, condition))
  {
    var texts := Groups("(" + condition + ")");
    forall i | 0 <= i < |texts| ensures |Split(texts[i], ';')| < 6 {
      if ';' in texts[i] { GroupChars("(" + condition + ")", i, ';'); }
      WholeSplit(texts[i]);
    }
  }

  lemma WholeSplit(s: string)
    ensures ';' !in s ==> Split(s, ';') == [s]
  {
    if ';' !in s { IndexOfIs(s, ';', |s|); }
  }

  /** The other way round, six fields inside a condition are read as an entry. */
  lemma ConditionRead(lead: Fields, fields: Fields)
    requires PlainFields(fields) && |fields| >= 6
    ensures var entry := Conditional(lead, Join(fields, ';')); !Quiet(entry) && Found(entry) == [AceOf(fields)]
  {
    FoundIs(Conditional(lead, Join(fields, ';')));
    SddlLaws.FoundIs(Flat(fields));
    OneFound(fields);
  }

  /** An entry with a condition is lost: after a save nothing is left of a list of one. */
  lemma ConditionLost(lead: Fields, condition: string)
    requires PlainFields(lead) && ';' !in condition && NoColon(SpellEntry(Conditional(lead, condition)))
    ensures var s := "D:" + SpellEntry(Conditional(lead, condition));
      Parse(s).Ok? && Parse(s).value.aces == [] && Build(Parse(s).value) == "D:"
  {
    var entry := Conditional(lead, condition);
    OneEntry(entry);
    NoSemicolonIsQuiet(lead, condition);
    FoundIs(entry);
    BuildNothing(Parse("D:" + SpellEntry(entry)).value);
  }

  /** So every callback denial is lost, whatever it denies. */
  lemma CallbackDenialLost(rights: string, trustee: string, condition: string)
    requires Plain(rights) && Plain(trustee) && ';' !in condition
    requires NoColon(rights) && NoColon(trustee) && NoColon(condition)
    ensures var s := "D:(XD;;" + rights + ";;;" + trustee + ";(" + condition + "))";
      Parse(s).Ok? && Build(Parse(s).value) == "D:"
  {
    var lead: Fields, text := ["XD", "", rights, "", "", trustee], "XD;;" + rights + ";;;" + trustee;
    SixFields(lead, text);
    assert "D:(XD;;" + rights + ";;;" + trustee + ";(" + condition + "))" ==
      "D:" + ("(" + text + ";(" + condition + "))");
    ConditionLostAs(lead, condition, text);
  }

  lemma ConditionLostAs(lead: Fields, condition: string, text: string)
    requires PlainFields(lead) && ';' !in condition && Join(lead, ';') == text
    requires NoColon(text) && NoColon(condition)
    ensures var s := "D:" + ("(" + text + ";(" + condition + "))"); Parse(s).Ok? && Build(Parse(s).value) == "D:"
  {
    ConditionLost(lead, condition);
  }

  lemma SixFields(f: Fields, text: string)
    requires |f| == 6 && f[3] == "" && f[4] == "" && text == f[0] + ";" + f[1] + ";" + f[2] + ";;;" + f[5]
    ensures Join(f, ';') == text
  {
    JoinSix(f);
    assert "(" + f[0] + ";" + f[1] + ";" + f[2] + ";;;" + f[5] + ")" == "(" + text + ")";
    Unwrapped(Join(f, ';'), text);
  }

  lemma Unwrapped(a: string, b: string)
    requires "(" + a + ")" == "(" + b + ")"
    ensures a == b
  {
    assert ("(" + a + ")")[1..|a| + 1] == a && ("(" + b + ")")[1..|b| + 1] == b;
  }

  lemma BuildNothing(d: Descriptor)
    requires d.owner.None? && d.group.None? && !d.protected && d.aces == []
    ensures Build(d) == "D:"
  {
    assert SpellEntries(AllFlat(Explicit(d.aces))) == "";
  }

  /** A list of one entry, and nothing else. */
  function BareSource(entry: Entry): Source {
    Source(None, None, "", [entry], None)
  }

  lemma OneEntry(entry: Entry)
    requires PlainEntry(entry) && NoColon(SpellEntry(entry))
    ensures Parse("D:" + SpellEntry(entry)).Ok?
    ensures var d := Parse("D:" + SpellEntry(entry)).value;
      d.owner.None? && d.group.None? && !d.protected && d.aces == Found(entry)
  {
    var src, s := BareSource(entry), "D:" + SpellEntry(entry);
    BareText(entry);
    forall c | c == 'O' || c == 'G' ensures NoMarker(s, c) {
      NoColonNoMarker(SpellEntry(entry), c);
      NoMarkerConcat("D:", SpellEntry(entry), c);
    }
    NoMarkerIsSilent(Owner, s);
    NoMarkerIsSilent(Group, s);
    ParseSpell(src);
    OneFoundIn(entry);
  }

  lemma BareText(entry: Entry)
    ensures Spell(BareSource(entry)) == "D:" + SpellEntry(entry)
  {
    assert [entry][1..] == [] && SpellEntries([entry]) == SpellEntry(entry);
  }

  lemma OneFoundIn(entry: Entry)
    requires NoColon(SpellEntry(entry))
    ensures FoundIn([entry]) == Found(entry)
  {
    assert [entry][1..] == [] && SpellEntries([entry]) == SpellEntry(entry);
    NoColonNoMarker(SpellEntry(entry), 'S');
    ReadableIff([entry]);
    assert FoundAll([entry]) == Found(entry) + FoundAll([entry][1..]);
  }

  // --- denials ------------------------------------------------------------------------------

  predicate StartsWithD(aceType: string) {
    var t := Upper(Strip(aceType));
    t != "" && t[0] == 'D'
  }

  /** A type that denies: plain, object or callback. */
  predicate IsDenial(aceType: string) {
    Upper(Strip(aceType)) in {"D", "OD", "XD"}
  }

  lemma KindsExact(kept: seq<Fields>, k: nat)
    requires k < |kept| && forall i :: 0 <= i < |kept| ==> |kept[i]| >= 6
    ensures AsAces(kept)[k].kind.Deny? <==> StartsWithD(kept[k][0])
    ensures IsDenial(kept[k][0]) ==> (AsAces(kept)[k].kind.Deny? <==> Upper(Strip(kept[k][0])) == "D")
  {
    AsAcesAt(kept, k);
  }

  /** The entries whose type starts with D are denials, and of the format's denials only
      those of the plain kind. */
  predicate DenialsBy(kept: seq<Fields>, aces: seq<Ace>) {
    |aces| == |kept| &&
    (forall k :: 0 <= k < |kept| ==> |kept[k]| >= 6 && (aces[k].kind.Deny? <==> StartsWithD(kept[k][0]))) &&
    (forall k :: 0 <= k < |kept| && IsDenial(kept[k][0]) ==>
      (aces[k].kind.Deny? <==> Upper(Strip(kept[k][0])) == "D"))
  }

  /** Whatever the surviving entries' types are, the ones read and saved as denials are exactly
      those whose type starts with D; so object and callback denials never stay denials. */
  lemma DenialsExact(src: Source)
    requires WellFormed(src) && NothingElse(src.entries) && NoBreak(Spell(src))
    ensures Parse(Spell(src)).Ok? && DenialsBy(Kept(Readable(src.entries)), Parse(Spell(src)).value.aces)
    ensures var d := Parse(Spell(src)).value;
      Parse(Build(d)).Ok? && SameKinds(Parse(Build(d)).value.aces, Explicit(d.aces))
  {
    SurvivorsIff(src);
    GrammarSettles(src);
    DenialsRead(Kept(Readable(src.entries)));
    KindsSettle(Explicit(Parse(Spell(src)).value.aces));
  }

  lemma DenialsRead(kept: seq<Fields>)
    requires forall i :: 0 <= i < |kept| ==> |kept[i]| >= 6
    ensures DenialsBy(kept, AsAces(kept))
  {
    forall k | 0 <= k < |kept| ensures AsAces(kept)[k].kind.Deny? <==> StartsWithD(kept[k][0]) {
      KindsExact(kept, k);
    }
    forall k | 0 <= k < |kept| && IsDenial(kept[k][0])
      ensures AsAces(kept)[k].kind.Deny? <==> Upper(Strip(kept[k][0])) == "D" {
      KindsExact(kept, k);
    }
  }

  lemma KindsSettle(aces: seq<Ace>)
    ensures SameKinds(SettledAll(aces), aces)
  {
  }

  predicate SameKinds(a: seq<Ace>, b: seq<Ace>) {
    |a| == |b| && forall k :: 0 <= k < |a| ==> a[k].kind == b[k].kind
  }

  /** A list of one entry, without flags. */
  function OneAce(aceType: string, rights: string, guid: string, inherited: string, trustee: string): string {
    "D:" + SpellEntry(Flat([aceType, "", rights, guid, inherited, trustee]))
  }

  /** Of an entry's fields only these are read: the two GUIDs are not. */
  lemma GuidsIgnored(f: Fields, g: Fields)
    requires |f| == |g| >= 6 && f[0] == g[0] && f[1] == g[1] && f[2] == g[2] && f[5] == g[5]
    ensures Found(Flat(f)) == Found(Flat(g))
  {
    OneFound(f);
    OneFound(g);
  }

  /** Every object entry, whether it grants or denies, and to whatever objects its GUIDs limit
      it, comes back from a save as a grant of the same rights without any limit. */
  lemma ObjectAceWidens(aceType: string, mask: nat, guid: string, inherited: string, trustee: string)
    requires aceType == "OA" || aceType == "OD"
    requires Clean(trustee) && Plain(guid) && Plain(inherited)
    requires NoColon(trustee) && NoColon(guid) && NoColon(inherited)
    ensures var s := OneAce(aceType, RenderRights(mask), guid, inherited, trustee);
      Parse(s).Ok? && Build(Parse(s).value) == OneAce("A", RenderRights(mask), "", "", trustee)
  {
    var f: Fields := [aceType, "", RenderRights(mask), guid, inherited, trustee];
    RightsRoundTrip(mask);
    assert NoColon(aceType) && Plain(aceType);
    SpelledWithoutColon(f);
    ObjectSaved(aceType, mask, trustee, f);
  }

  lemma SpelledWithoutColon(f: Fields)
    requires forall i :: 0 <= i < |f| ==> NoColon(f[i])
    ensures NoColon(SpellEntry(Flat(f)))
  {
    var j := Join(f, ';');
    forall i | 0 <= i < |j| ensures j[i] != ':' {
      JoinChars(f, ';', j[i]);
    }
  }

  lemma ObjectSaved(aceType: string, mask: nat, trustee: string, f: Fields)
    requires Clean(trustee) && (aceType == "OA" || aceType == "OD") && |f| == 6
    requires f[0] == aceType && f[1] == "" && f[2] == RenderRights(mask) && f[5] == trustee
    requires PlainFields(f) && NoColon(SpellEntry(Flat(f)))
    ensures var s := "D:" + SpellEntry(Flat(f));
      Parse(s).Ok? && Build(Parse(s).value) == OneAce("A", RenderRights(mask), "", "", trustee)
  {
    OneEntry(Flat(f));
    OneFound(f);
    ObjectAce(aceType, mask, trustee, f);
    SavedAlone(Parse("D:" + SpellEntry(Flat(f))).value, mask, trustee);
  }

  lemma ObjectAce(aceType: string, mask: nat, trustee: string, f: Fields)
    requires Clean(trustee) && (aceType == "OA" || aceType == "OD") && |f| == 6
    requires f[0] == aceType && f[1] == "" && f[2] == RenderRights(mask) && f[5] == trustee
    ensures AceOf(f) == Ace(trustee, Allow, mask, 0, RenderRights(mask), true)
  {
    RightsRoundTrip(mask);
    StripTrimmed(trustee);
    StripTrimmed(RenderRights(mask));
    CapitalsText(aceType);
    assert Strip("") == "" && Upper("") == "";
    AceRead(f, Ace(trustee, Allow, mask, 0, RenderRights(mask), true));
  }

  lemma SavedAlone(d: Descriptor, mask: nat, trustee: string)
    requires d.owner.None? && d.group.None? && !d.protected
    requires d.aces == [Ace(trustee, Allow, mask, 0, RenderRights(mask), true)]
    ensures Build(d) == OneAce("A", RenderRights(mask), "", "", trustee)
  {
    var ace := d.aces[0];
    assert [ace][1..] == [] && Explicit([ace]) == [ace];
    assert AllFlat([ace]) == [Flat(FieldsOf(ace))];
    NoFlags();
    assert FieldsOf(ace) == ["A", "", RenderRights(mask), "", "", trustee];
    BareText(Flat(FieldsOf(ace)));
    assert SourceOf(d) == BareSource(Flat(FieldsOf(ace)));
  }

  lemma NoFlags()
    ensures FlagsText(0) == ""
  {
    assert RenderFirst(FLAG_LETTERS, 0, 1) == "";
    assert RenderFirst(FLAG_LETTERS, 0, 2) == "";
    assert RenderFirst(FLAG_LETTERS, 0, 3) == "";
    assert RenderFirst(FLAG_LETTERS, 0, 4) == "";
  }

  // --- when owner and group are kept ------------------------------------------------------------

  lemma HasDacl(src: Source)
    ensures Parse(Spell(src)).Ok?
  {
    var s := Spell(src);
    SpellShape(src);
    assert s[|Head(src)|] == 'D' && s[|Head(src)| + 1] == ':';
    FindFirst(s, 'D', 0);
    assert MarkerAt(s, 'D', |Head(src)|);
  }

  /** Exactly when owner and group are both read back as they were written, or as left out, for
      every owner, group and text around them: if and only if neither holds a line break or a
      mark that ends it early, the owner does not begin like the group beside it, and no mark
      of one that is left out can be read anywhere. */
  lemma SectionsKeptIff(src: Source)
    ensures Parse(Spell(src)).Ok?
    ensures var d := Parse(Spell(src)).value;
      d.owner == src.owner && d.group == src.group <==> Bodies(src) && SectionsUnbroken(src) && Clear(src)
  {
    HasDacl(src);
    var s := Spell(src);
    if SearchFrom(Owner, s, 0) == src.owner && SearchFrom(Group, s, 0) == src.group { KeptIsClear(src); }
    if Bodies(src) && SectionsUnbroken(src) && Clear(src) {
      OwnerFound(src);
      GroupFound(src);
    }
  }

  // --- section marks inside a section -----------------------------------------------------------

  /** How "O:G:xD:" reads. */
  lemma NestedOwner(s: string)
    requires s == "O:G:xD:"
    ensures Parse(s).Ok? && Parse(s).value.owner == Some("G:x") && Parse(s).value.group == Some("x")
  {
    FieldEndIs(Owner, s, 3, 5);
    SearchSkips(Group, s, 0, 2);
    FieldEndIs(Group, s, 5, 5);
    assert s[2..5] == "G:x" && s[4..5] == "x";
    assert MatchAt(Owner, s, 0) == Some("G:x") && MatchAt(Group, s, 2) == Some("x");
    FindSkips(s, 'D', 0, 5);
    assert SplitDacl(s).Ok?;
  }

  /** A text whose second save differs from the first: its owner starts like a group. */
  lemma NestedMarkDrifts(s: string)
    requires s == "O:G:xD:"
    ensures Parse(s).Ok? && !Stable(Parse(s).value)
  {
    NestedOwner(s);
    assert MarkerAt("G:x", 'G', 0);
    StableIff(s);
  }

  /** A letter that means nothing to the scanners. */
  predicate Neutral(c: char) {
    c != '(' && c != ')' && c != 'S' && c != 'G' && c != ':' && !IsSpace(c)
  }

  /** How "D:()O:D:c" reads: an empty list, then an owner that begins like a DACL. */
  lemma DaclOwner(s: string, c: char)
    requires s == "D:()O:D:" + [c] && Neutral(c)
    ensures Parse(s) == Ok(Descriptor(s, Some("D:" + [c]), None, [], false))
  {
    FieldEndIs(Owner, s, 7, 9);
    SearchSkips(Owner, s, 0, 4);
    SearchSkips(Group, s, 0, 9);
    assert s[6..9] == "D:" + [c];
    SkipIs(s, 2, 2);
    DaclOwnerEntries(s[2..], "O:D:" + [c]);
    assert s[..2] == "D:";
    StripRightKeeps("D:", "");
    assert IsProtected("D:") == false;
  }

  lemma DaclOwnerEntries(rest: string, owner: string)
    requires rest == "()" + owner && FreeOfParens(owner) && (forall i :: 0 <= i < |owner| ==> owner[i] != 'S')
    ensures AcesIn(Groups(rest[..FindFrom(rest, 'S', 0)])) == []
  {
    FindSkips(rest, 'S', 0, |rest|);
    assert rest[..|rest|] == rest;
    GroupsConcat("()", owner);
    GroupsFlat("");
    assert "(" + "" + ")" == "()";
    GroupsSkip(owner, "");
    assert owner + "" == owner;
    WholeSplit("");
    assert Groups(rest) == [""];
    NoAcesIff([""]);
  }

  /** Where the owner begins like a DACL, whether saving settles depends on what follows: a P
      there protects the descriptor on the second save. */
  lemma OwnDaclNeeded(s: string, c: char)
    requires s == "D:()O:D:" + [c] && Neutral(c)
    ensures Parse(s).Ok? && MarksFit(Parse(s).value)
    ensures Stable(Parse(s).value) <==> c != 'P'
  {
    DaclOwner(s, c);
    StableIff(s);
    DaclOwnerFits(Parse(s).value, c);
  }

  lemma DaclOwnerFits(d: Descriptor, c: char)
    requires d.owner == Some("D:" + [c]) && d.group.None? && d.aces == [] && !d.protected && Neutral(c)
    ensures MarksFit(d) && (DaclFits(d) <==> c != 'P')
  {
    var h := Head(SourceOf(d));
    assert h == "O:D:" + [c];
    FindSkips(h, 'D', 0, 2);
    SkipIs(h, 4, 5);
    assert Contains(h, 'D', ':', 'P') <==> h[4] == 'P';
    assert Build(d) == h + "D:" by { assert Tail(SourceOf(d)) == ""; }
    NoMarkerIsSilent(Group, Build(d));
  }
}
