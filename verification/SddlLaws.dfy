/** What the SDDL parser makes of every text put together from an owner, a group, a DACL
    and a SACL, whatever its entries are. */
module SddlLaws {
  import opened Outcomes
  import opened Text
  import opened Rights
  import opened Sddl

  // --- section marks ------------------------------------------------------------------

  predicate NoMarker(s: string, c: char) {
    forall i :: 0 <= i < |s| ==> !MarkerAt(s, c, i)
  }

  /** A mark that ends the field of this section. */
  predicate Closes(sec: Section, s: string, i: nat) {
    (sec.Owner? && MarkerAt(s, 'G', i)) || MarkerAt(s, 'D', i) || MarkerAt(s, 'S', i)
  }

  /** An owner or group, apart from line breaks: not empty, and with no mark that would end
      it after its first character. */
  predicate SectionBody(sec: Section, s: string) {
    s != "" && forall i :: 1 <= i < |s| ==> !Closes(sec, s, i)
  }

  predicate NoBreak(s: string) {
    forall i :: 0 <= i < |s| ==> s[i] != '\n'
  }

  /** A mark of this section that can be read: a field of at least one character follows it,
      up to the next mark or the end, with no line break on the way. */
  predicate Heard(sec: Section, s: string, i: nat) {
    MarkerAt(s, Letter(sec), i) &&
    exists e :: i + 2 < e <= |s| && EndsAt(sec, s, e) && forall k :: i + 2 <= k < e ==> s[k] != '\n'
  }

  /** No such mark stands anywhere in the text. */
  ghost predicate Silent(sec: Section, s: string) {
    forall i :: 0 <= i < |s| ==> !Heard(sec, s, i)
  }

  lemma {:induction false} FieldEndNear(sec: Section, s: string, i: nat, e: nat)
    requires i <= e <= |s| && EndsAt(sec, s, e) && forall k :: i <= k < e ==> s[k] != '\n'
    ensures FieldEnd(sec, s, i).Some? && FieldEnd(sec, s, i).value <= e
    decreases e - i
  {
    if i < e && !EndsAt(sec, s, i) { FieldEndNear(sec, s, i + 1, e); }
  }

  lemma {:induction false} FieldEndFirst(sec: Section, s: string, i: nat)
    requires i <= |s| && FieldEnd(sec, s, i).Some?
    ensures var e := FieldEnd(sec, s, i).value;
      EndsAt(sec, s, e) && forall k :: i <= k < e ==> !EndsAt(sec, s, k)
    decreases |s| - i
  {
    if !EndsAt(sec, s, i) { FieldEndFirst(sec, s, i + 1); }
  }

  lemma MatchIffHeard(sec: Section, s: string, i: nat)
    ensures MatchAt(sec, s, i).Some? <==> Heard(sec, s, i)
  {
    if Heard(sec, s, i) {
      var e :| i + 2 < e <= |s| && EndsAt(sec, s, e) && forall k :: i + 2 <= k < e ==> s[k] != '\n';
      FieldEndNear(sec, s, i + 3, e);
    }
    if MatchAt(sec, s, i).Some? {
      FieldEndFirst(sec, s, i + 3);
    }
  }

  /** The search finds nothing exactly when there is nothing to be heard. */
  lemma {:induction false} SilentIff(sec: Section, s: string, n: nat)
    requires n <= |s|
    ensures SearchFrom(sec, s, n).None? <==> forall i :: n <= i < |s| ==> !Heard(sec, s, i)
    decreases |s| - n
  {
    if n < |s| {
      MatchIffHeard(sec, s, n);
      SilentIff(sec, s, n + 1);
    }
  }

  lemma NoMarkerIsSilent(sec: Section, s: string)
    requires NoMarker(s, Letter(sec))
    ensures Silent(sec, s)
  {
  }

  // --- well-formed texts ---------------------------------------------------------------

  predicate NoColon(s: string) {
    forall i :: 0 <= i < |s| ==> s[i] != ':'
  }

  /** DACL flags: nothing that would end them early. */
  predicate ControlText(s: string) {
    forall i :: 0 <= i < |s| ==> s[i] != ':' && s[i] != '(' && s[i] != 'S'
  }

  /** Free of the marks that delimit fields and entries. */
  predicate Plain(s: string) {
    forall i :: 0 <= i < |s| ==> s[i] != ';' && s[i] != '(' && s[i] != ')'
  }

  predicate PlainFields(fields: Fields) {
    forall i :: 0 <= i < |fields| ==> Plain(fields[i])
  }

  predicate PlainEntry(entry: Entry) {
    match entry case Flat(fields) => PlainFields(fields) case Conditional(lead, _) => PlainFields(lead)
  }

  predicate Begins(field: Option<string>, c: char) {
    field.Some? && MarkerAt(field.value, c, 0)
  }

  predicate Bodies(src: Source) {
    (src.owner.Some? ==> SectionBody(Owner, src.owner.value)) &&
    (src.group.Some? ==> SectionBody(Group, src.group.value))
  }

  /** The first DACL mark of the text is the DACL's own. */
  predicate OwnDacl(src: Source) {
    !Begins(src.owner, 'D') && !Begins(src.group, 'D')
  }

  /** An owner beside a group does not begin like one, and no mark of a section that is left
      out can be read anywhere in the text. */
  ghost predicate Clear(src: Source) {
    (src.group.Some? ==> !Begins(src.owner, 'G')) &&
    (src.owner.None? ==> Silent(Owner, Spell(src))) &&
    (src.group.None? ==> Silent(Group, Spell(src)))
  }

  /** Flags and entries that can be told apart. */
  predicate PlainDacl(src: Source) {
    ControlText(src.control) && PlainEntries(src.entries)
  }

  predicate PlainEntries(entries: seq<Entry>) {
    forall i :: 0 <= i < |entries| ==> PlainEntry(entries[i])
  }

  predicate SectionsUnbroken(src: Source) {
    (src.owner.Some? ==> NoBreak(src.owner.value)) && (src.group.Some? ==> NoBreak(src.group.value))
  }

  /** A text of the format, line breaks aside: any entries, with any conditions, and marks
      that do not collide. */
  ghost predicate WellMarked(src: Source) {
    Bodies(src) && OwnDacl(src) && Clear(src) && PlainDacl(src)
  }

  ghost predicate WellFormed(src: Source) {
    WellMarked(src) && SectionsUnbroken(src)
  }

  /** Whether the parser takes these DACL flags to mean "protected". */
  predicate ReadsProtected(control: string) {
    var c := StripRight(control);
    (control != "" && control[0] == 'P') || (c != "" && c[|c| - 1] == 'P')
  }

  /** What the parser makes of parenthesised texts. */
  function AcesIn(texts: seq<string>): seq<Ace> {
    Entries(SplitAll(texts))
  }

  /** The entries read out of one: itself when it is flat, else whatever its condition holds. */
  function Found(entry: Entry): seq<Ace> {
    match entry
    case Flat(fields) => Entries([fields])
    case Conditional(_, condition) => AcesIn(Groups("(" + condition + ")"))
  }

  function FoundAll(entries: seq<Entry>): seq<Ace> {
    if entries == [] then [] else Found(entries[0]) + FoundAll(entries[1..])
  }

  // A SACL mark anywhere among the entries is taken for the SACL's own.

  predicate Cuts(entry: Entry) {
    !NoMarker(SpellEntry(entry), 'S')
  }

  /** The entries wholly before the first SACL mark among them. */
  function Readable(entries: seq<Entry>): seq<Entry> {
    if entries == [] || Cuts(entries[0]) then [] else [entries[0]] + Readable(entries[1..])
  }

  /** What stands before the mark in the entry that holds it. */
  function Cut(entries: seq<Entry>): string {
    if entries == [] then ""
    else if Cuts(entries[0]) then UpToSacl(SpellEntry(entries[0]))
    else Cut(entries[1..])
  }

  function UpToSacl(s: string): string {
    s[..FindFrom(s, 'S', 0)]
  }

  /** The entries read out of a list. */
  function FoundIn(entries: seq<Entry>): seq<Ace> {
    FoundAll(Readable(entries)) + AcesIn(Groups(Cut(entries)))
  }

  function Meaning(src: Source): Descriptor {
    Descriptor(Spell(src), src.owner, src.group, FoundIn(src.entries), ReadsProtected(src.control))
  }

  // --- finding the sections ----------------------------------------------------------------

  lemma NoMarkerConcat(a: string, b: string, c: char)
    requires NoMarker(a, c) && NoMarker(b, c)
    requires b == "" || b[0] != ':' || a == "" || a[|a| - 1] != c
    ensures NoMarker(a + b, c)
  {
    forall i | 0 <= i < |a + b| ensures !MarkerAt(a + b, c, i) {
      if i < |a| {
        assert !MarkerAt(a, c, i);
      } else {
        assert !MarkerAt(b, c, i - |a|);
      }
    }
  }

  /** A section's part has the marks of its text and its own. */
  lemma PartMarkers(c: char, field: Option<string>, x: char)
    requires c != x && c != ':' && x != ':' && (field.Some? ==> NoMarker(field.value, x))
    ensures NoMarker(Part(c, field), x)
    ensures Part(c, field) == "" || Part(c, field)[0] != ':'
  {
    if field.Some? {
      var p := Part(c, field);
      forall i | 0 <= i < |p| ensures !MarkerAt(p, x, i) {
        if i >= 2 { assert !MarkerAt(field.value, x, i - 2); }
      }
    }
  }

  lemma {:induction false} FindSkips(s: string, c: char, i: nat, k: nat)
    requires i <= k <= |s| && (forall j :: i <= j < k ==> !MarkerAt(s, c, j)) && (k < |s| ==> MarkerAt(s, c, k))
    ensures FindFrom(s, c, i) == k
    decreases k - i
  {
    if i < k { FindSkips(s, c, i + 1, k); }
  }

  lemma FoundAfter(a: string, b: string, c: char)
    requires NoMarker(a, c) && MarkerAt(b, c, 0) && c != ':'
    ensures FindFrom(a + b, c, 0) == |a|
  {
    var s := a + b;
    forall j | 0 <= j < |a| ensures !MarkerAt(s, c, j) {
      assert !MarkerAt(a, c, j);
    }
    FindSkips(s, c, 0, |a|);
  }

  lemma {:induction false} SearchSkips(sec: Section, s: string, i: nat, k: nat)
    requires i <= k <= |s| && forall j :: i <= j < k ==> !MarkerAt(s, Letter(sec), j)
    ensures SearchFrom(sec, s, i) == SearchFrom(sec, s, k)
    decreases k - i
  {
    if i < k { SearchSkips(sec, s, i + 1, k); }
  }

  lemma {:induction false} FieldEndIs(sec: Section, s: string, i: nat, e: nat)
    requires i <= e <= |s| && EndsAt(sec, s, e)
    requires forall k :: i <= k < e ==> !EndsAt(sec, s, k) && s[k] != '\n'
    ensures FieldEnd(sec, s, i) == Some(e)
    decreases e - i
  {
    if i < e { FieldEndIs(sec, s, i + 1, e); }
  }

  /** A field between its own mark and the next section's is found whole. */
  lemma SearchHit(sec: Section, before: string, field: string, after: string)
    requires NoMarker(before, Letter(sec)) && SectionBody(sec, field) && NoBreak(field)
    requires MarkerAt(after, 'D', 0) || (sec.Owner? && MarkerAt(after, 'G', 0))
    ensures SearchFrom(sec, before + ([Letter(sec), ':'] + field + after), 0) == Some(field)
  {
    var s := before + ([Letter(sec), ':'] + field + after);
    var b := |before|;
    forall j | 0 <= j < b ensures !MarkerAt(s, Letter(sec), j) {
      assert !MarkerAt(before, Letter(sec), j);
    }
    SearchSkips(sec, s, 0, b);
    MatchHere(sec, before + [Letter(sec), ':'], field, after);
    assert s == before + [Letter(sec), ':'] + field + after;
  }

  lemma MatchHere(sec: Section, start: string, field: string, after: string)
    requires |start| >= 2 && MarkerAt(start, Letter(sec), |start| - 2) && SectionBody(sec, field) && NoBreak(field)
    requires MarkerAt(after, 'D', 0) || (sec.Owner? && MarkerAt(after, 'G', 0))
    ensures MatchAt(sec, start + field + after, |start| - 2) == Some(field)
  {
    var s, b := start + field + after, |start|;
    var e := b + |field|;
    assert s[e..] == after && s[b..e] == field && s[..b] == start;
    assert s[e] == s[e..][0] && s[e + 1] == s[e..][1];
    forall k | b + 1 <= k < e ensures !EndsAt(sec, s, k) && s[k] != '\n' {
      assert !Closes(sec, field, k - b);
    }
    FieldEndIs(sec, s, b + 1, e);
  }

  /** The DACL and everything after it. */
  function FromDacl(src: Source): string {
    "D:" + src.control + Tail(src)
  }

  lemma SpellShape(src: Source)
    ensures Spell(src) == Head(src) + FromDacl(src)
    ensures Spell(src) == Part('O', src.owner) + (Part('G', src.group) + FromDacl(src))
    ensures MarkerAt(FromDacl(src), 'D', 0)
  {
    ConcatAssociates(Head(src), "D:" + src.control, Tail(src));
    ConcatAssociates(Part('O', src.owner), Part('G', src.group), FromDacl(src));
  }

  /** An owner is found whole, whatever follows it. */
  lemma OwnerHit(src: Source)
    requires src.owner.Some? && SectionBody(Owner, src.owner.value) && NoBreak(src.owner.value)
    ensures SearchFrom(Owner, Spell(src), 0) == src.owner
  {
    var rest := Part('G', src.group) + FromDacl(src);
    SpellShape(src);
    if src.group.Some? {
      assert rest[0] == 'G' && rest[1] == ':';
    } else {
      assert rest == FromDacl(src);
    }
    SearchHit(Owner, "", src.owner.value, rest);
    assert "" + (Part('O', src.owner) + rest) == Spell(src);
  }

  lemma OwnerFound(src: Source)
    requires Bodies(src) && SectionsUnbroken(src) && Clear(src)
    ensures SearchFrom(Owner, Spell(src), 0) == src.owner
  {
    if src.owner.Some? { OwnerHit(src); } else { SilentIff(Owner, Spell(src), 0); }
  }

  lemma OwnerHasNo(owner: Option<string>, c: char)
    requires owner.Some? ==> SectionBody(Owner, owner.value)
    requires !Begins(owner, c) && (c == 'D' || c == 'G')
    ensures NoMarker(Part('O', owner), c)
  {
    if owner.Some? {
      forall i | 0 <= i < |owner.value| ensures !MarkerAt(owner.value, c, i) {
        if i >= 1 { assert !Closes(Owner, owner.value, i); }
      }
    }
    PartMarkers('O', owner, c);
  }

  lemma GroupFound(src: Source)
    requires Bodies(src) && SectionsUnbroken(src) && Clear(src)
    ensures SearchFrom(Group, Spell(src), 0) == src.group
  {
    SpellShape(src);
    if src.group.Some? {
      OwnerHasNo(src.owner, 'G');
      SearchHit(Group, Part('O', src.owner), src.group.value, FromDacl(src));
    } else {
      SilentIff(Group, Spell(src), 0);
    }
  }

  lemma HeadMarkers(src: Source)
    requires Bodies(src) && OwnDacl(src)
    ensures NoMarker(Head(src), 'D')
  {
    OwnerHasNo(src.owner, 'D');
    if src.group.Some? {
      forall i | 0 <= i < |src.group.value| ensures !MarkerAt(src.group.value, 'D', i) {
        if i >= 1 { assert !Closes(Group, src.group.value, i); }
      }
    }
    PartMarkers('G', src.group, 'D');
    NoMarkerConcat(Part('O', src.owner), Part('G', src.group), 'D');
  }

  // --- splitting off the entries ---------------------------------------------------------------

  lemma {:induction false} SkipIs(s: string, i: nat, k: nat)
    requires i <= k <= |s| && (forall j :: i <= j < k ==> s[j] != '(' && s[j] != 'S')
    requires k < |s| ==> s[k] == '(' || s[k] == 'S'
    ensures SkipControl(s, i) == k
    decreases k - i
  {
    if i < k { SkipIs(s, i + 1, k); }
  }

  lemma DaclMarked(src: Source)
    requires NoMarker(Head(src), 'D')
    ensures FindFrom(Spell(src), 'D', 0) == |Head(src)|
  {
    SpellShape(src);
    FoundAfter(Head(src), FromDacl(src), 'D');
  }

  lemma TailOpens(src: Source)
    ensures Tail(src) == "" || Tail(src)[0] == '(' || Tail(src)[0] == 'S'
  {
    if src.entries != [] { assert SpellEntry(src.entries[0])[0] == '('; }
  }

  lemma DaclSplit(src: Source)
    requires NoMarker(Head(src), 'D') && PlainDacl(src)
    ensures SplitDacl(Spell(src)) ==
      Ok((Head(src) + ("D:" + src.control), SpellEntries(Readable(src.entries)) + Cut(src.entries)))
  {
    DaclMarked(src);
    TailOpens(src);
    CursorStops(Head(src), src.control, Tail(src));
    ListCut(src.entries, src.sacl);
    SplitsAt(Head(src) + ("D:" + src.control), Tail(src), |Head(src)|);
  }

  lemma CursorStops(head: string, control: string, tail: string)
    requires ControlText(control) && (tail == "" || tail[0] == '(' || tail[0] == 'S')
    ensures SkipControl(head + ("D:" + control) + tail, |head| + 2) == |head| + 2 + |control|
  {
    var s, cursor := head + ("D:" + control) + tail, |head| + 2 + |control|;
    forall j | |head| + 2 <= j < cursor ensures s[j] != '(' && s[j] != 'S' {
      assert s[j] == control[j - (|head| + 2)];
    }
    SkipIs(s, |head| + 2, cursor);
  }

  lemma SplitsAt(prefix: string, tail: string, marker: nat)
    requires marker < |prefix + tail| && FindFrom(prefix + tail, 'D', 0) == marker
    requires SkipControl(prefix + tail, marker + 2) == |prefix|
    ensures SplitDacl(prefix + tail) == Ok((prefix, UpToSacl(tail)))
  {
    assert (prefix + tail)[..|prefix|] == prefix && (prefix + tail)[|prefix|..] == tail;
  }

  lemma {:induction false} FindFirst(s: string, c: char, i: nat)
    requires i <= |s|
    ensures forall j :: i <= j < FindFrom(s, c, i) ==> !MarkerAt(s, c, j)
    decreases |s| - i
  {
    if i < |s| && !MarkerAt(s, c, i) { FindFirst(s, c, i + 1); }
  }

  /** A text without the mark is passed over, ... */
  lemma CutAfter(a: string, b: string)
    requires NoMarker(a, 'S') && EndsClosed(a)
    ensures UpToSacl(a + b) == a + UpToSacl(b)
  {
    var n := FindFrom(b, 'S', 0);
    FindFirst(b, 'S', 0);
    forall j | 0 <= j < |a| + n ensures !MarkerAt(a + b, 'S', j) {
      if j < |a| {
        assert !MarkerAt(a, 'S', j);
      } else {
        assert !MarkerAt(b, 'S', j - |a|);
      }
    }
    if n < |b| { assert MarkerAt(b, 'S', n); }
    FindSkips(a + b, 'S', 0, |a| + n);
    assert (a + b)[..|a| + n] == a + b[..n];
  }

  /** ... and one with it is cut there. */
  lemma CutInside(a: string, b: string)
    requires !NoMarker(a, 'S')
    ensures UpToSacl(a + b) == UpToSacl(a)
  {
    var n := FindFrom(a, 'S', 0);
    FindFirst(a, 'S', 0);
    var i :| 0 <= i < |a| && MarkerAt(a, 'S', i);
    assert n < |a|;
    forall j | 0 <= j < n ensures !MarkerAt(a + b, 'S', j) {
      assert !MarkerAt(a, 'S', j);
    }
    FindSkips(a + b, 'S', 0, n);
    assert (a + b)[..n] == a[..n];
  }

  lemma ReadableStep(entries: seq<Entry>)
    requires entries != [] && !Cuts(entries[0])
    ensures SpellEntries(Readable(entries)) == SpellEntry(entries[0]) + SpellEntries(Readable(entries[1..]))
    ensures Cut(entries) == Cut(entries[1..])
  {
    assert Readable(entries)[1..] == Readable(entries[1..]);
  }

  lemma {:induction false} ListCut(entries: seq<Entry>, sacl: Option<string>)
    ensures UpToSacl(SpellEntries(entries) + Part('S', sacl)) == SpellEntries(Readable(entries)) + Cut(entries)
  {
    if entries == [] {
      assert SpellEntries(entries) + Part('S', sacl) == Part('S', sacl);
    } else {
      var text, more := SpellEntry(entries[0]), SpellEntries(entries[1..]) + Part('S', sacl);
      ConcatAssociates(text, SpellEntries(entries[1..]), Part('S', sacl));
      if Cuts(entries[0]) {
        CutInside(text, more);
      } else {
        CutAfter(text, more);
        ListCut(entries[1..], sacl);
        ReadableStep(entries);
        ConcatAssociates(text, SpellEntries(Readable(entries[1..])), Cut(entries[1..]));
      }
    }
  }

  lemma {:induction false} ReadableIs(entries: seq<Entry>)
    ensures Readable(entries) <= entries
  {
    if entries != [] && !Cuts(entries[0]) {
      ReadableIs(entries[1..]);
    }
  }

  /** Without a SACL mark among them every entry is readable, and otherwise not. */
  lemma {:induction false} ReadableIff(entries: seq<Entry>)
    ensures NoMarker(SpellEntries(entries), 'S') <==> Readable(entries) == entries
    ensures Readable(entries) == entries ==> Cut(entries) == ""
    ensures Readable(entries) != entries ==> |Readable(entries)| < |entries|
  {
    if entries != [] {
      var text, more := SpellEntry(entries[0]), SpellEntries(entries[1..]);
      ReadableIff(entries[1..]);
      if Cuts(entries[0]) {
        var i :| 0 <= i < |text| && MarkerAt(text, 'S', i);
        assert MarkerAt(text + more, 'S', i);
      } else {
        assert NoMarker(text + more, 'S') <==> NoMarker(more, 'S') by { MarkersOfSum(text, more); }
        assert Readable(entries)[1..] == Readable(entries[1..]);
      }
    }
  }

  lemma MarkersOfSum(a: string, b: string)
    requires NoMarker(a, 'S') && EndsClosed(a)
    ensures NoMarker(a + b, 'S') <==> NoMarker(b, 'S')
  {
    if NoMarker(b, 'S') {
      NoMarkerConcat(a, b, 'S');
    } else {
      var i :| 0 <= i < |b| && MarkerAt(b, 'S', i);
      assert MarkerAt(a + b, 'S', |a| + i);
    }
  }

  // --- the entries ---------------------------------------------------------------------------

  lemma ParenIndexIs(s: string, i: nat)
    requires i < |s| && (s[i] == '(' || s[i] == ')') && forall k :: 0 <= k < i ==> s[k] != '(' && s[k] != ')'
    ensures ParenIndex(s) == i
  {
  }

  predicate FreeOfParens(s: string) {
    forall i :: 0 <= i < |s| ==> s[i] != '(' && s[i] != ')'
  }

  lemma GroupsFlat(text: string)
    requires FreeOfParens(text)
    ensures Groups("(" + text + ")") == [text]
  {
    var s := "(" + text + ")";
    assert s[1..] == text + ")";
    ParenIndexIs(s[1..], |text|);
    assert s[1..1 + |text|] == text && s[|text| + 2..] == "";
  }

  lemma {:induction false} GroupsSkip(pre: string, s: string)
    requires FreeOfParens(pre)
    ensures Groups(pre + s) == Groups(s)
  {
    if pre == "" {
      assert pre + s == s;
    } else {
      assert (pre + s)[1..] == pre[1..] + s;
      GroupsSkip(pre[1..], s);
    }
  }

  predicate EndsClosed(a: string) {
    a == "" || a[|a| - 1] == ')'
  }

  /** No closing parenthesis comes before an opening one. */
  predicate OpensFirst(b: string) {
    ParenIndex(b) == |b| || b[ParenIndex(b)] == '('
  }

  /** The next parenthesis after the first character, when it stands inside. */
  lemma SameParen(a: string, b: string)
    requires a != "" && ParenIndex(a[1..]) < |a| - 1
    ensures var e := 1 + ParenIndex(a[1..]);
      && ParenIndex((a + b)[1..]) == e - 1 && (a + b)[e] == a[e]
      && (a + b)[1..e] == a[1..e] && (a + b)[e + 1..] == a[e + 1..] + b
  {
    assert (a + b)[1..] == a[1..] + b;
    ParenIndexIs(a[1..] + b, ParenIndex(a[1..]));
  }

  lemma GroupTaken(s: string, e: nat, text: string, rest: string)
    requires s != "" && s[0] == '(' && e == 1 + ParenIndex(s[1..]) && e < |s| && s[e] == ')'
    requires s[1..e] == text && s[e + 1..] == rest
    ensures Groups(s) == [text] + Groups(rest)
  {
  }

  lemma GroupPassed(s: string)
    requires s != ""
    requires s[0] == '(' ==> OpensFirst(s[1..])
    ensures Groups(s) == Groups(s[1..])
  {
  }

  lemma StillOpen(a: string, b: string)
    requires FreeOfParens(a) && OpensFirst(b)
    ensures OpensFirst(a + b)
  {
    if ParenIndex(b) < |b| {
      ParenIndexIs(a + b, |a| + ParenIndex(b));
    }
  }

  lemma ConcatTaken(a: string, b: string)
    requires a != "" && a[0] == '(' && ParenIndex(a[1..]) < |a| - 1 && a[1 + ParenIndex(a[1..])] == ')'
    requires var e := 1 + ParenIndex(a[1..]); Groups(a[e + 1..] + b) == Groups(a[e + 1..]) + Groups(b)
    ensures Groups(a + b) == Groups(a) + Groups(b)
  {
    var e := 1 + ParenIndex(a[1..]);
    SameParen(a, b);
    GroupTaken(a, e, a[1..e], a[e + 1..]);
    GroupTaken(a + b, e, a[1..e], a[e + 1..] + b);
    TextsAssociate([a[1..e]], Groups(a[e + 1..]), Groups(b));
  }

  lemma TextsAssociate(a: seq<string>, b: seq<string>, c: seq<string>)
    ensures a + (b + c) == (a + b) + c
  {
  }

  lemma ConcatPassed(a: string, b: string)
    requires a != "" && (a[0] == '(' ==> OpensFirst(a[1..]) && OpensFirst(a[1..] + b))
    requires Groups(a[1..] + b) == Groups(a[1..]) + Groups(b)
    ensures Groups(a + b) == Groups(a) + Groups(b)
  {
    assert (a + b)[1..] == a[1..] + b;
    GroupPassed(a);
    GroupPassed(a + b);
  }

  lemma OpensBoth(a: string, b: string)
    requires OpensFirst(a) && (ParenIndex(a) < |a| || OpensFirst(b))
    ensures OpensFirst(a + b)
  {
    if ParenIndex(a) < |a| { ParenIndexIs(a + b, ParenIndex(a)); } else { StillOpen(a, b); }
  }

  /** The groups of two texts together are those of each, unless a parenthesis opened in the
      first is closed in the second. */
  lemma {:induction false} GroupsConcat(a: string, b: string)
    requires EndsClosed(a) || OpensFirst(b)
    ensures Groups(a + b) == Groups(a) + Groups(b)
    decreases |a|
  {
    if a == "" {
      assert a + b == b;
    } else {
      var e := 1 + ParenIndex(a[1..]);
      if a[0] == '(' && e < |a| && a[e] == ')' {
        GroupsConcat(a[e + 1..], b);
        ConcatTaken(a, b);
      } else {
        GroupsConcat(a[1..], b);
        if a[0] == '(' {
          assert EndsClosed(a) && |a| > 1 ==> a[1..][|a| - 2] == ')';
          OpensBoth(a[1..], b);
        }
        ConcatPassed(a, b);
      }
    }
  }

  /** Of nested parentheses only the inner ones are read. */
  lemma GroupsNested(lead: string, condition: string)
    requires FreeOfParens(lead)
    ensures Groups("(" + lead + "(" + condition + "))") == Groups("(" + condition + ")")
  {
    var inner := "(" + condition + ")";
    var s := "(" + lead + "(" + condition + "))";
    assert s[1..] == lead + (inner + ")");
    ParenIndexIs(s[1..], |lead|);
    GroupsSkip(lead, inner + ")");
    GroupsConcat(inner, ")");
    assert Groups(")") == [];
  }

  lemma PlainJoin(fields: Fields)
    requires PlainFields(fields)
    ensures FreeOfParens(Join(fields, ';'))
  {
    var j := Join(fields, ';');
    forall i | 0 <= i < |j| ensures j[i] != '(' && j[i] != ')' {
      JoinChars(fields, ';', j[i]);
      if j[i] != ';' {
        var p :| p in fields && j[i] in p;
        var k :| 0 <= k < |fields| && fields[k] == p;
        assert Plain(fields[k]);
      }
    }
  }

  lemma {:induction false} AcesConcat(a: seq<string>, b: seq<string>)
    ensures AcesIn(a + b) == AcesIn(a) + AcesIn(b)
  {
    if a == [] {
      assert a + b == b;
    } else {
      assert (a + b)[1..] == a[1..] + b;
      AcesConcat(a[1..], b);
    }
  }

  lemma FoundIs(entry: Entry)
    requires PlainEntry(entry)
    ensures AcesIn(Groups(SpellEntry(entry))) == Found(entry)
  {
    match entry
    case Flat(fields) =>
      PlainJoin(fields);
      GroupsFlat(Join(fields, ';'));
      SplitPlain(fields);
      assert SplitAll([Join(fields, ';')]) == [fields];
    case Conditional(lead, condition) =>
      PlainJoin(lead);
      var start := Join(lead, ';');
      GroupsNested(start + ";", condition);
      assert "(" + start + ";(" + condition + "))" == "(" + (start + ";") + "(" + condition + "))";
  }

  /** The entries of a list are read one by one, in order, whatever their conditions hold. */
  lemma {:induction false} EntriesBack(entries: seq<Entry>)
    requires PlainEntries(entries)
    ensures AcesIn(Groups(SpellEntries(entries))) == FoundAll(entries)
  {
    if entries != [] {
      FoundIs(entries[0]);
      EntriesBack(entries[1..]);
      GroupsConcat(SpellEntry(entries[0]), SpellEntries(entries[1..]));
      AcesConcat(Groups(SpellEntry(entries[0])), Groups(SpellEntries(entries[1..])));
    }
  }

  lemma {:induction false} EntriesEnd(entries: seq<Entry>)
    ensures EndsClosed(SpellEntries(entries))
  {
    if entries != [] { EntriesEnd(entries[1..]); }
  }

  /** Of a list with a SACL mark inside, the entries before the mark are read, and what the
      cut entry holds. */
  lemma ListBack(entries: seq<Entry>)
    requires PlainEntries(entries)
    ensures AcesIn(Groups(SpellEntries(Readable(entries)) + Cut(entries))) == FoundIn(entries)
  {
    var before := Readable(entries);
    ReadableIs(entries);
    EntriesBack(before);
    EntriesEnd(before);
    GroupsConcat(SpellEntries(before), Cut(entries));
    AcesConcat(Groups(SpellEntries(before)), Groups(Cut(entries)));
  }

  lemma SplitPlain(fields: Fields)
    requires PlainFields(fields)
    ensures Split(Join(fields, ';'), ';') == fields
  {
    forall p | p in fields ensures ';' !in p {
      var k :| 0 <= k < |fields| && fields[k] == p;
      assert Plain(fields[k]);
    }
    SplitJoin(fields, ';');
  }

  // --- the protected flag ----------------------------------------------------------------------

  lemma {:induction false} StripRightKeeps(a: string, b: string)
    requires a != "" && !IsSpace(a[|a| - 1])
    ensures StripRight(a + b) == a + StripRight(b)
  {
    if b == "" {
      assert a + b == a;
    } else if IsSpace(b[|b| - 1]) {
      assert (a + b)[..|a + b| - 1] == a + b[..|b| - 1];
      StripRightKeeps(a, b[..|b| - 1]);
    }
  }

  lemma ProtectedMark(head: string, control: string)
    requires NoMarker(head, 'D') && ControlText(control)
    ensures Contains(head + ("D:" + control), 'D', ':', 'P') <==> control != "" && control[0] == 'P'
  {
    var prefix := head + ("D:" + control);
    if control != "" && control[0] == 'P' {
      assert prefix[|head|] == 'D' && prefix[|head| + 1] == ':' && prefix[|head| + 2] == 'P';
    }
    forall j | 0 <= j < |head| ensures !MarkerAt(prefix, 'D', j) {
      assert !MarkerAt(head, 'D', j);
    }
    assert forall j :: 0 <= j < |control| ==> prefix[|head| + 2 + j] == control[j];
    forall i | 0 <= i < |prefix| - 2 && prefix[i] == 'D' && prefix[i + 1] == ':'
      ensures i == |head| {
      assert MarkerAt(prefix, 'D', i);
    }
  }

  predicate EndsInP(s: string) {
    s != "" && s[|s| - 1] == 'P'
  }

  lemma ProtectedEnd(head: string, control: string)
    ensures EndsInP(StripRight(head + ("D:" + control))) <==> EndsInP(StripRight(control))
  {
    assert head + ("D:" + control) == (head + "D:") + control;
    StripRightKeeps(head + "D:", control);
  }

  lemma ProtectedRead(head: string, control: string)
    requires NoMarker(head, 'D') && ControlText(control)
    ensures IsProtected(head + ("D:" + control)) <==> ReadsProtected(control)
  {
    ProtectedMark(head, control);
    ProtectedEnd(head, control);
  }

  // --- main result ------------------------------------------------------------------------------

  /** The parser is right about every well-formed text: owner, group and protection are those
      written, and so are the flat entries of six fields or more, in order; of an entry with a
      condition only what stands inside the condition is read. */
  lemma ParseSpell(src: Source)
    requires WellFormed(src)
    ensures Parse(Spell(src)) == Ok(Meaning(src))
  {
    OwnerFound(src);
    GroupFound(src);
    HeadMarkers(src);
    DaclRead(src);
  }

  /** The DACL is read whatever becomes of owner and group. */
  lemma DaclRead(src: Source)
    requires NoMarker(Head(src), 'D') && PlainDacl(src)
    ensures Parse(Spell(src)).Ok?
    ensures var d := Parse(Spell(src)).value;
      d.aces == FoundIn(src.entries) && d.protected == ReadsProtected(src.control)
  {
    DaclSplit(src);
    ListBack(src.entries);
    ProtectedRead(Head(src), src.control);
  }
}
