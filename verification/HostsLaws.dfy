/** The verdict on a hosts list is exact three-valued logic, the gate never lets a change
    through that could shut the console out, and the two spellings of an octet prefix agree. */
module HostsLaws {
  import opened Outcomes
  import opened Text
  import opened Addresses
  import opened Hosts
  import opened HostsMeaning
  import opened HostsReading
  import Numerals
  import ShareConf
  import Registry
  import RegistryLaws

  // --- lists as they are read ---------------------------------------------------------------

  predicate EntryMatches(lib: Ipv6, entry: HostEntry, address: string, rho: Resolution) {
    match Covers(lib, entry, address)
    case Some(b) => b
    case None => rho.entry(entry.text)
  }

  predicate ListMatches(lib: Ipv6, entries: seq<HostEntry>, address: string, rho: Resolution) {
    if HasExcept(entries) then rho.clause(Texts(entries))
    else exists i :: 0 <= i < |entries| && EntryMatches(lib, entries[i], address, rho)
  }

  lemma EntriesAre(lib: Ipv6, list: string)
    ensures var items, entries := Items(list), ListOf(lib, list);
      && |entries| == |items| && Texts(entries) == items
      && (HasExcept(entries) <==> ExceptIn(items))
      && forall i :: 0 <= i < |items| ==> entries[i] == ParseEntry(lib, items[i]) && Strip(items[i]) == items[i]
  {
    ItemsOfStripped(list);
    ItemsAre(lib, Items(list));
  }

  lemma ItemsAre(lib: Ipv6, items: seq<string>)
    requires forall x :: x in items ==> IsItem(x)
    ensures Texts(EntriesOf(lib, items)) == items
    ensures HasExcept(EntriesOf(lib, items)) <==> ExceptIn(items)
    ensures forall i :: 0 <= i < |items| ==> Strip(items[i]) == items[i]
  {
    forall i | 0 <= i < |items| ensures Strip(items[i]) == items[i] && ExceptOnly(lib, items[i]) {
      assert IsItem(items[i]);
      OneItem(items[i]);
      ExceptIsWord(lib, items[i]);
    }
    var entries := EntriesOf(lib, items);
    assert forall i :: 0 <= i < |items| ==> ExceptOnly(lib, items[i]) && entries[i] == ParseEntry(lib, items[i]);
  }

  /** An entry is an EXCEPT exactly when it says so. */
  predicate ExceptOnly(lib: Ipv6, item: string) {
    ParseEntry(lib, item).kind.Except? <==> Upper(item) == "EXCEPT"
  }

  lemma ExceptIsWord(lib: Ipv6, item: string)
    requires Strip(item) == item
    ensures ExceptOnly(lib, item)
  {
  }

  /** A list as it is read matches exactly when the list as it is written does. */
  lemma ListIs(lib: Ipv6, list: string, address: string, rho: Resolution)
    ensures ListMatches(lib, ListOf(lib, list), address, rho) <==> ListMeans(lib, list, address, rho)
  {
    var items, entries := Items(list), ListOf(lib, list);
    EntriesAre(lib, list);
    forall i | 0 <= i < |items|
      ensures EntryMatches(lib, entries[i], address, rho) <==> ItemMatches(lib, items[i], address, rho) {
      CoversMeans(lib, items[i], address);
    }
  }

  // --- the verdict ----------------------------------------------------------------------

  lemma {:induction false} UndecidedIff(lib: Ipv6, entries: seq<HostEntry>, address: string, n: nat)
    requires n <= |entries|
    ensures Undecided(lib, entries, address, n) != [] <==>
      exists i :: 0 <= i < n && Covers(lib, entries[i], address).None?
  {
    if n > 0 { UndecidedIff(lib, entries, address, n - 1); }
  }

  function AlwaysSo(b: bool): Resolution {
    Resolution(_ => b, _ => b)
  }

  /** The list matches, or does not, however its open entries are settled. */
  ghost predicate Certain(lib: Ipv6, list: string, address: string, b: bool) {
    forall rho: Resolution :: ListMeans(lib, list, address, rho) == b
  }

  ghost predicate Possible(lib: Ipv6, list: string, address: string, b: bool) {
    exists rho: Resolution :: ListMeans(lib, list, address, rho) == b
  }

  lemma OpenEitherWay(lib: Ipv6, entries: seq<HostEntry>, address: string)
    requires !HasExcept(entries) && !AnyCovers(lib, entries, address)
    ensures !ListMatches(lib, entries, address, AlwaysSo(false))
    ensures Undecided(lib, entries, address, |entries|) != [] ==> ListMatches(lib, entries, address, AlwaysSo(true))
    ensures Undecided(lib, entries, address, |entries|) == [] ==>
      forall rho: Resolution :: !ListMatches(lib, entries, address, rho)
  {
    UndecidedIff(lib, entries, address, |entries|);
    if Undecided(lib, entries, address, |entries|) != [] {
      var i :| 0 <= i < |entries| && Covers(lib, entries[i], address).None?;
      assert EntryMatches(lib, entries[i], address, AlwaysSo(true));
    } else {
      forall rho: Resolution, i | 0 <= i < |entries| ensures !EntryMatches(lib, entries[i], address, rho) {
        assert Covers(lib, entries[i], address) != Some(true);
      }
    }
  }

  lemma CoveredMatches(lib: Ipv6, entries: seq<HostEntry>, address: string, rho: Resolution)
    requires !HasExcept(entries) && AnyCovers(lib, entries, address)
    ensures ListMatches(lib, entries, address, rho)
  {
    var i :| 0 <= i < |entries| && Covers(lib, entries[i], address) == Some(true);
    assert EntryMatches(lib, entries[i], address, rho);
  }

  /** The verdict in terms of the list as it is read. */
  lemma VerdictOfRead(lib: Ipv6, entries: seq<HostEntry>, address: string)
    requires entries != []
    ensures var v := VerdictOf(lib, entries, Some(address));
      && (v.Covered? ==> forall rho: Resolution :: ListMatches(lib, entries, address, rho))
      && (v.Excluded? ==> forall rho: Resolution :: !ListMatches(lib, entries, address, rho))
      && (v.Undecidable? ==> ListMatches(lib, entries, address, AlwaysSo(true)) &&
                             !ListMatches(lib, entries, address, AlwaysSo(false)))
  {
    if !HasExcept(entries) && AnyCovers(lib, entries, address) {
      forall rho: Resolution ensures ListMatches(lib, entries, address, rho) {
        CoveredMatches(lib, entries, address, rho);
      }
    } else if !HasExcept(entries) {
      OpenEitherWay(lib, entries, address);
    }
  }

  /** For a known address and a list with entries: `covered` when the list matches however
      the open entries turn out, `excluded` when it matches under no outcome, and
      `undecidable` exactly when both can happen. What the list matches is read off its text. */
  lemma VerdictExact(lib: Ipv6, list: string, address: string)
    requires Items(list) != []
    ensures var v := VerdictOf(lib, ListOf(lib, list), Some(address));
      && (v.Covered? <==> Certain(lib, list, address, true))
      && (v.Excluded? <==> Certain(lib, list, address, false))
      && (v.Undecidable? <==> Possible(lib, list, address, true) && Possible(lib, list, address, false))
  {
    var entries := ListOf(lib, list);
    EntriesAre(lib, list);
    VerdictOfRead(lib, entries, address);
    forall rho: Resolution ensures ListMatches(lib, entries, address, rho) <==> ListMeans(lib, list, address, rho) {
      ListIs(lib, list, address, rho);
    }
    assert ListMeans(lib, list, address, AlwaysSo(true)) || !ListMeans(lib, list, address, AlwaysSo(true));
    assert ListMeans(lib, list, address, AlwaysSo(false)) || !ListMeans(lib, list, address, AlwaysSo(false));
  }

  // --- the section after the change -------------------------------------------------------------

  /** The stored options with the request put over them; an option set to nothing goes. */
  function Applied(stored: map<string, string>, checked: map<string, Option<string>>): map<string, string> {
    (map name | name in stored && name !in checked :: stored[name]) +
    (map name | name in checked && checked[name].Some? :: checked[name].value)
  }

  function TextOf(section: map<string, string>, name: string): string {
    if name in section then section[name] else ""
  }

  /** A request as the names it sets, when it names each once. */
  function AsMap(asked: ShareConf.Dict): map<string, Option<string>> {
    map name | name in (set i | 0 <= i < |asked| :: asked[i].0) && ShareConf.HasKey(asked, name) ::
      asked[ShareConf.IndexOfKey(asked, name)].1
  }

  /** That is the section a write of the request leaves. */
  lemma AppliedIsWritten(stored: map<string, string>, asked: ShareConf.Dict)
    requires ShareConf.Distinct(asked)
    ensures Registry.Written(stored, asked, None).section == Applied(stored, AsMap(asked))
  {
    var written, after := Registry.Written(stored, asked, None).section, Applied(stored, AsMap(asked));
    forall name: string ensures Registry.Stored(written, name) == Registry.Stored(after, name) {
      RegistryLaws.DiffApplyCorrect(stored, asked, name);
      RegistryLaws.SubmittedOnce(asked, name, |asked|);
      if ShareConf.HasKey(asked, name) {
        var i := ShareConf.IndexOfKey(asked, name);
        assert asked[i].0 == name;
        assert name in AsMap(asked) && AsMap(asked)[name] == asked[i].1;
      } else {
        assert name !in AsMap(asked);
      }
    }
    RegistryLaws.SameSection(written, after);
  }

  /** What the gate judges is what stands after the change. */
  lemma StandingIs(checked: map<string, Option<string>>, stored: map<string, string>, name: string)
    ensures Standing(checked, stored, name) == Strip(TextOf(Applied(stored, checked), name))
  {
    assert Strip("") == "";
  }

  /** What is stored under an option that is sent makes no difference. */
  lemma StoredIsIrrelevant(lib: Ipv6, checked: map<string, Option<string>>, stored: map<string, string>,
                           other: map<string, string>, known: Option<string>, confirm: set<string>)
    requires forall name :: name !in checked ==> TextOf(stored, name) == TextOf(other, name)
    ensures CheckHosts(lib, checked, stored, known, confirm) == CheckHosts(lib, checked, other, known, confirm)
  {
    forall name: string ensures Standing(checked, stored, name) == Standing(checked, other, name) {
      StandingIs(checked, stored, name);
      StandingIs(checked, other, name);
      if name !in checked { assert TextOf(stored, name) == TextOf(other, name); }
    }
  }

  // --- the gate -------------------------------------------------------------------------------

  predicate NothingConfirmed(confirm: set<string>) {
    ALLOW_UNDECIDABLE !in confirm && DENY_UNDECIDABLE !in confirm && ADDRESS_UNKNOWN !in confirm
  }

  predicate Blank(list: string) {
    Strip(list) == ""
  }

  /** A list text that is not blank and yet names nothing. */
  predicate SeparatorsOnly(list: string) {
    !Blank(list) && Items(list) == []
  }

  /** Admitted under every resolution of what could not be decided. */
  ghost predicate AlwaysAdmits(lib: Ipv6, section: map<string, string>, address: string) {
    forall rho: Resolution :: Admits(lib, TextOf(section, ALLOW), TextOf(section, DENY), address, rho)
  }

  /** Admitted under none. */
  ghost predicate NeverAdmits(lib: Ipv6, section: map<string, string>, address: string) {
    forall rho: Resolution :: !Admits(lib, TextOf(section, ALLOW), TextOf(section, DENY), address, rho)
  }

  /** The outcome of the gate in terms of the two lists after the change. */
  lemma GateIs(lib: Ipv6, checked: map<string, Option<string>>, stored: map<string, string>,
               known: Option<string>, confirm: set<string>)
    requires ALLOW in checked || DENY in checked
    ensures var after := Applied(stored, checked);
      var allow, deny := TextOf(after, ALLOW), TextOf(after, DENY);
      CheckHosts(lib, checked, stored, known, confirm) ==
      if !Blank(allow) then
        (match VerdictOf(lib, ListOf(lib, allow), known)
         case Covered => Accepted
         case Excluded => Refused(AllowExcludesConsole)
         case Undecidable(r, e) => AskFor(Undecidable(r, e), AllowUndecidable, ALLOW_UNDECIDABLE, confirm))
      else if Blank(deny) then Accepted
      else
        (match VerdictOf(lib, ListOf(lib, deny), known)
         case Covered => Refused(DenyIncludesConsole)
         case Excluded => Accepted
         case Undecidable(r, e) => AskFor(Undecidable(r, e), DenyUndecidable, DENY_UNDECIDABLE, confirm))
  {
    var after := Applied(stored, checked);
    StandingIs(checked, stored, ALLOW);
    StandingIs(checked, stored, DENY);
    StripTrimmed(Strip(TextOf(after, ALLOW)));
    StripTrimmed(Strip(TextOf(after, DENY)));
  }

  lemma BlankHasNoItems(list: string)
    requires Blank(list)
    ensures Items(list) == []
  {
    ItemsOfStripped(list);
  }

  /** The verdict on a list of the section, in its own terms. */
  lemma ListVerdict(lib: Ipv6, list: string, known: Option<string>)
    ensures var v := VerdictOf(lib, ListOf(lib, list), known);
      && (Items(list) == [] ==> v.Covered?)
      && (Items(list) != [] ==>
            && (v.Covered? <==> known.Some? && Certain(lib, list, known.value, true))
            && (v.Excluded? <==> known.Some? && Certain(lib, list, known.value, false)))
  {
    EntriesAre(lib, list);
    if Items(list) != [] && known.Some? { VerdictExact(lib, list, known.value); }
  }

  /** No lock-out: when the gate accepts a change to either list without one of the three
      confirmations, every address the console may have (the known one, or any at all when
      it is unknown) is admitted by the lists as they stand after the change, however what
      could not be decided is settled. */
  lemma NoLockOut(lib: Ipv6, checked: map<string, Option<string>>, stored: map<string, string>,
                  known: Option<string>, confirm: set<string>, address: string)
    requires ALLOW in checked || DENY in checked
    requires NothingConfirmed(confirm)
    requires CheckHosts(lib, checked, stored, known, confirm).Accepted?
    requires known.Some? ==> known.value == address
    requires !SeparatorsOnly(TextOf(Applied(stored, checked), ALLOW))
    ensures AlwaysAdmits(lib, Applied(stored, checked), address)
  {
    var after := Applied(stored, checked);
    var allow, deny := TextOf(after, ALLOW), TextOf(after, DENY);
    GateIs(lib, checked, stored, known, confirm);
    ListVerdict(lib, allow, known);
    ListVerdict(lib, deny, known);
    if Blank(allow) { BlankHasNoItems(allow); }
    if Blank(deny) { BlankHasNoItems(deny); }
  }

  /** With an allow list made only of separators the gate accepts whatever the deny list
      says; the console is then safe exactly when the deny list cannot match it. */
  lemma SeparatorsOnlyExact(lib: Ipv6, checked: map<string, Option<string>>, stored: map<string, string>,
                            known: Option<string>, confirm: set<string>, address: string)
    requires SeparatorsOnly(TextOf(Applied(stored, checked), ALLOW))
    ensures CheckHosts(lib, checked, stored, known, confirm).Accepted?
    ensures var deny := TextOf(Applied(stored, checked), DENY);
      AlwaysAdmits(lib, Applied(stored, checked), address) <==> Items(deny) == [] || Certain(lib, deny, address, false)
  {
    var after := Applied(stored, checked);
    if ALLOW in checked || DENY in checked { GateIs(lib, checked, stored, known, confirm); }
    ListVerdict(lib, TextOf(after, ALLOW), known);
    var deny := TextOf(after, DENY);
    if Items(deny) != [] && !Certain(lib, deny, address, false) {
      var rho: Resolution :| ListMeans(lib, deny, address, rho) != false;
      assert !Admits(lib, TextOf(after, ALLOW), deny, address, rho);
    }
  }

  /** The concrete lock-out: a lone comma as the allow list beside a deny list of ALL. */
  lemma CommaLocksOut(lib: Ipv6, address: string)
    ensures var checked: map<string, Option<string>> := map[ALLOW := Some(","), DENY := Some("ALL")];
      && CheckHosts(lib, checked, map[], Some(address), {}).Accepted?
      && !AlwaysAdmits(lib, Applied(map[], checked), address)
  {
    var checked: map<string, Option<string>> := map[ALLOW := Some(","), DENY := Some("ALL")];
    var after := Applied(map[], checked);
    assert TextOf(after, ALLOW) == "," && TextOf(after, DENY) == "ALL";
    ItemsApart("", ',', "");
    assert "" + [','] + "" == "," && Strip(",") == ",";
    OneItem("ALL");
    assert Upper("ALL") == "ALL";
    assert ListMeans(lib, "ALL", address, AlwaysSo(false)) by {
      assert ItemMatches(lib, Items("ALL")[0], address, AlwaysSo(false));
      assert Upper(Items("ALL")[0]) != "EXCEPT";
    }
    SeparatorsOnlyExact(lib, checked, map[], Some(address), {}, address);
  }

  /** A decided lock-out: the allow list matches under no resolution, or there is no allow
      list and the deny list matches under all of them (or names nothing at all). */
  ghost predicate DecidedLockOut(lib: Ipv6, section: map<string, string>, known: Option<string>) {
    var allow, deny := TextOf(section, ALLOW), TextOf(section, DENY);
    if !Blank(allow) then
      Items(allow) != [] && known.Some? && Certain(lib, allow, known.value, false)
    else
      !Blank(deny) && (Items(deny) == [] || (known.Some? && Certain(lib, deny, known.value, true)))
  }

  /** A decided lock-out by the lists as they stand after the change, and nothing else, is
      refused outright, and no set of confirmations lifts it. */
  lemma RefusedExactly(lib: Ipv6, checked: map<string, Option<string>>, stored: map<string, string>,
                       known: Option<string>, confirm: set<string>)
    requires ALLOW in checked || DENY in checked
    ensures CheckHosts(lib, checked, stored, known, confirm).Refused? <==>
      DecidedLockOut(lib, Applied(stored, checked), known)
  {
    var after := Applied(stored, checked);
    GateIs(lib, checked, stored, known, confirm);
    ListVerdict(lib, TextOf(after, ALLOW), known);
    ListVerdict(lib, TextOf(after, DENY), known);
  }

  /** A refusal is right about the console exactly when the deny list matches it for certain
      or there is nothing to deny beside an allow list: Samba also admits what an allow list
      misses when a deny list misses it too, which the gate does not look at. */
  lemma RefusalExact(lib: Ipv6, checked: map<string, Option<string>>, stored: map<string, string>,
                     confirm: set<string>, address: string)
    ensures var after := Applied(stored, checked);
      var allow, deny := TextOf(after, ALLOW), TextOf(after, DENY);
      CheckHosts(lib, checked, stored, Some(address), confirm).Refused? ==>
      (NeverAdmits(lib, after, address) <==>
       if Items(deny) == [] then !Blank(allow) else Certain(lib, deny, address, true))
  {
    if CheckHosts(lib, checked, stored, Some(address), confirm).Refused? {
      RefusedExactly(lib, checked, stored, Some(address), confirm);
      LockOutMeans(lib, Applied(stored, checked), address);
    }
  }

  lemma LockOutMeans(lib: Ipv6, section: map<string, string>, address: string)
    requires DecidedLockOut(lib, section, Some(address))
    ensures var allow, deny := TextOf(section, ALLOW), TextOf(section, DENY);
      NeverAdmits(lib, section, address) <==>
      if Items(deny) == [] then !Blank(allow) else Certain(lib, deny, address, true)
  {
    var allow, deny := TextOf(section, ALLOW), TextOf(section, DENY);
    if Blank(allow) { BlankHasNoItems(allow); }
    if Items(deny) == [] {
      if Blank(allow) { assert Admits(lib, allow, deny, address, AlwaysSo(true)); }
    } else if !Certain(lib, deny, address, true) {
      var rho: Resolution :| ListMeans(lib, deny, address, rho) != true;
      assert Admits(lib, allow, deny, address, rho);
    }
  }

  /** What is not refused waits for one token and goes through exactly when it is given. */
  lemma ConfirmationExact(lib: Ipv6, checked: map<string, Option<string>>, stored: map<string, string>,
                          known: Option<string>, confirm: set<string>)
    requires CheckHosts(lib, checked, stored, known, {}).NeedsConfirmation?
    ensures var token := CheckHosts(lib, checked, stored, known, {}).token;
      && (CheckHosts(lib, checked, stored, known, confirm).Accepted? <==> token in confirm)
      && (token == ADDRESS_UNKNOWN <==> known.None?)
  {
  }

  // --- two spellings of one prefix ---------------------------------------------------------------

  predicate AreOctets(parts: seq<string>) {
    forall i :: 0 <= i < |parts| ==> IsOctet(parts[i])
  }

  /** The octets filled up with zeros to a whole address. */
  function Filled(octets: seq<string>): (full: seq<string>)
    requires |octets| <= 4
    ensures |full| == 4
    ensures forall i :: 0 <= i < 4 ==> full[i] == if i < |octets| then octets[i] else "0"
  {
    seq(4, i requires 0 <= i < 4 => if i < |octets| then octets[i] else "0")
  }

  function LengthText(k: nat): string {
    if k == 1 then "8" else if k == 2 then "16" else "24"
  }

  /** The octets zero-filled, with eight bits of length for each. */
  function NetworkText(octets: seq<string>): string
    requires |octets| <= 4
  {
    Join(Filled(octets), '.') + "/" + LengthText(|octets|)
  }

  lemma OctetChars(s: string)
    requires IsOctet(s)
    ensures s != "" && forall i :: 0 <= i < |s| ==> IsDigit(s[i])
    ensures '.' !in s && '/' !in s
  {
  }

  lemma ZeroIsOctet()
    ensures IsOctet("0")
  {
    assert "0"[..0] == "";
  }

  /** A text that starts with a digit and ends in no space is none of the keywords. */
  lemma DigitFirst(s: string)
    requires s != "" && IsDigit(s[0]) && !IsSpace(s[|s| - 1])
    ensures Strip(s) == s && Upper(s)[0] != 'A' && Upper(s)[0] != 'L' && Upper(s)[0] != 'E' && s[0] != '@'
  {
    StripTrimmed(s);
  }

  lemma OctetsHaveNo(octets: seq<string>, c: char)
    requires AreOctets(octets) && (c == '.' || c == '/')
    ensures forall p :: p in octets ==> c !in p
  {
    forall p | p in octets ensures c !in p {
      var i :| 0 <= i < |octets| && octets[i] == p;
      OctetChars(octets[i]);
    }
  }

  predicate DigitToDot(s: string) {
    s != "" && IsDigit(s[0]) && s[|s| - 1] == '.'
  }

  lemma KindIsPrefix(lib: Ipv6, s: string)
    requires DigitToDot(s) && IsPrefix(s)
    ensures ParseEntry(lib, s) == HostEntry(s, Prefix)
  {
    DigitFirst(s);
  }

  lemma PrefixParts(s: string, octets: seq<string>)
    requires 1 <= |octets| <= 3 && AreOctets(octets) && Split(s, '.') == octets + [""]
    ensures IsPrefix(s)
  {
    var parts := Split(s, '.');
    forall i | 0 <= i < |parts| - 1 ensures IsShortNumber(parts[i]) {
      assert parts[i] == octets[i];
      OctetChars(octets[i]);
    }
  }

  lemma PrefixReads(octets: seq<string>)
    requires 1 <= |octets| <= 3 && AreOctets(octets)
    ensures IsPrefix(Dotted(octets))
  {
    DottedIsJoin(octets);
    OctetsHaveNo(octets, '.');
    SplitJoin(octets + [""], '.');
    PrefixParts(Dotted(octets), octets);
  }

  lemma PrefixEnds(octets: seq<string>)
    requires 1 <= |octets| <= 3 && AreOctets(octets)
    ensures DigitToDot(Dotted(octets))
  {
    DottedIsJoin(octets);
    OctetChars(octets[0]);
    LastOfJoin(octets + [""]);
  }

  lemma PrefixKind(lib: Ipv6, octets: seq<string>)
    requires 1 <= |octets| <= 3 && AreOctets(octets)
    ensures ParseEntry(lib, Dotted(octets)) == HostEntry(Dotted(octets), Prefix)
  {
    PrefixReads(octets);
    PrefixEnds(octets);
    KindIsPrefix(lib, Dotted(octets));
  }

  lemma {:induction false} LastOfJoin(parts: seq<string>)
    requires |parts| >= 2 && parts[0] != "" && parts[|parts| - 1] == ""
    ensures var s := Join(parts, '.'); s != "" && s[0] == parts[0][0] && s[|s| - 1] == '.'
  {
    var rest := Join(parts[1..], '.');
    if |parts| == 2 {
      assert rest == "";
    } else {
      LastCharOfJoin(parts[1..]);
    }
  }

  lemma {:induction false} LastCharOfJoin(parts: seq<string>)
    requires |parts| >= 2 && parts[|parts| - 1] == ""
    ensures var s := Join(parts, '.'); s != "" && s[|s| - 1] == '.'
  {
    if |parts| > 2 { LastCharOfJoin(parts[1..]); }
  }

  lemma FilledAreOctets(octets: seq<string>)
    requires |octets| <= 3 && AreOctets(octets)
    ensures AreOctets(Filled(octets))
  {
    ZeroIsOctet();
  }

  function Values(octets: seq<string>): (v: seq<nat>)
    requires |octets| == 4
    ensures |v| == 4 && forall i :: 0 <= i < 4 ==> v[i] == Octet(octets[i])
  {
    [Octet(octets[0]), Octet(octets[1]), Octet(octets[2]), Octet(octets[3])]
  }

  lemma PartsRead(text: string, octets: seq<string>)
    requires |octets| == 4 && AreOctets(octets) && Split(text, '.') == octets
    ensures ReadV4(text) == Some(Quad(Values(octets)))
  {
  }

  lemma QuadRead(octets: seq<string>)
    requires |octets| == 4 && AreOctets(octets)
    ensures ReadV4(Join(octets, '.')) == Some(Quad(Values(octets)))
    ensures '/' !in Join(octets, '.')
  {
    OctetsHaveNo(octets, '.');
    SplitJoin(octets, '.');
    PartsRead(Join(octets, '.'), octets);
    NoSlash(octets);
  }

  lemma NoSlash(octets: seq<string>)
    requires octets != [] && AreOctets(octets)
    ensures '/' !in Join(octets, '.')
  {
    OctetsHaveNo(octets, '/');
    if '/' in Join(octets, '.') {
      JoinChars(octets, '.', '/');
    }
  }

  lemma OneDigit(c: char)
    ensures Numerals.ValueOf([c], 10) == Numerals.DigitOf(c)
  {
    assert [c][..0] == "";
  }

  lemma LengthRead(k: nat)
    requires 1 <= k <= 3
    ensures ReadLength(LengthText(k)) == Some(8 * k) && '/' !in LengthText(k) && '.' !in LengthText(k)
  {
    OneDigit('8');
    OneDigit('1');
    OneDigit('2');
    assert "16"[..1] == ['1'] && "24"[..1] == ['2'];
    assert Numerals.ValueOf("16", 10) == 16 && Numerals.ValueOf("24", 10) == 24;
  }

  lemma NetworkRead(octets: seq<string>)
    requires 1 <= |octets| <= 3 && AreOctets(octets)
    ensures ReadV4Network(NetworkText(octets)) == Some(Net4(Quad(Values(Filled(octets))), 8 * |octets|))
  {
    FilledAreOctets(octets);
    QuadRead(Filled(octets));
    LengthRead(|octets|);
    var halves := [Join(Filled(octets), '.'), LengthText(|octets|)];
    assert halves[1..] == [LengthText(|octets|)];
    assert Join(halves, '/') == NetworkText(octets);
    SplitJoin(halves, '/');
  }

  /** The dot-separated parts of a network text: the last one carries the length. */
  lemma NetworkParts(octets: seq<string>)
    requires 1 <= |octets| <= 3 && AreOctets(octets)
    ensures var f := Filled(octets);
      Split(NetworkText(octets), '.') == [f[0], f[1], f[2], f[3] + "/" + LengthText(|octets|)]
  {
    var f := Filled(octets);
    var last := f[3] + "/" + LengthText(|octets|);
    var parts := [f[0], f[1], f[2], last];
    FilledAreOctets(octets);
    OctetChars(f[0]);
    OctetChars(f[1]);
    OctetChars(f[2]);
    OctetChars(f[3]);
    LengthRead(|octets|);
    JoinOfFour(f[0], f[1], f[2], f[3]);
    JoinOfFour(f[0], f[1], f[2], last);
    assert f == [f[0], f[1], f[2], f[3]];
    assert Join(parts, '.') == NetworkText(octets);
    SplitJoin(parts, '.');
  }

  lemma JoinOfFour(a: string, b: string, c: string, d: string)
    ensures Join([a, b, c, d], '.') == a + "." + b + "." + c + "." + d
  {
    assert [a, b, c, d][1..] == [b, c, d] && [b, c, d][1..] == [c, d] && [c, d][1..] == [d];
    assert Join([c, d], '.') == c + "." + d;
    assert Join([b, c, d], '.') == b + "." + (c + "." + d);
  }

  lemma KindIsNetwork(lib: Ipv6, s: string)
    requires s != "" && IsDigit(s[0]) && !IsSpace(s[|s| - 1]) && !IsPrefix(s)
    requires ReadAddress(lib, s).None? && ReadNetwork(lib, s).Some?
    ensures ParseEntry(lib, s) == HostEntry(s, Network)
  {
    DigitFirst(s);
  }

  /** A last part with a slash in it makes a text neither a prefix nor an address. */
  lemma SlashedPart(s: string, parts: seq<string>)
    requires |parts| == 4 && Split(s, '.') == parts && '/' in parts[3]
    ensures !IsPrefix(s) && ReadV4(s).None?
  {
    if IsOctet(parts[3]) { OctetChars(parts[3]); }
  }

  lemma NetworkEnds(octets: seq<string>)
    requires 1 <= |octets| <= 3 && AreOctets(octets)
    ensures var s := NetworkText(octets); s != "" && IsDigit(s[0]) && !IsSpace(s[|s| - 1])
  {
    var s, f := NetworkText(octets), Filled(octets);
    OctetChars(octets[0]);
    JoinOfFour(f[0], f[1], f[2], f[3]);
    assert f == [f[0], f[1], f[2], f[3]];
    assert s[0] == f[0][0];
    assert s[|s| - 1] == LengthText(|octets|)[|LengthText(|octets|)| - 1];
  }

  lemma NoColonInNetwork(octets: seq<string>)
    requires 1 <= |octets| <= 3 && AreOctets(octets)
    ensures ':' !in NetworkText(octets)
  {
    var f := Filled(octets);
    FilledAreOctets(octets);
    forall p | p in f ensures ':' !in p {
      var i :| 0 <= i < |f| && f[i] == p;
      OctetChars(f[i]);
    }
    if ':' in Join(f, '.') { JoinChars(f, '.', ':'); }
  }

  lemma NetworkKind(lib: Ipv6, octets: seq<string>)
    requires 1 <= |octets| <= 3 && AreOctets(octets)
    ensures ParseEntry(lib, NetworkText(octets)) == HostEntry(NetworkText(octets), Network)
  {
    NoColonInNetwork(octets);
    NetworkParts(octets);
    NetworkRead(octets);
    NetworkEnds(octets);
    var parts := Split(NetworkText(octets), '.');
    assert parts[3][|Filled(octets)[3]|] == '/';
    SlashedPart(NetworkText(octets), parts);
    KindIsNetwork(lib, NetworkText(octets));
  }

  lemma CoversByPrefix(lib: Ipv6, text: string, address: string)
    requires ReadV4(address).Some?
    ensures Covers(lib, HostEntry(text, Prefix), address) == Some(text <= address)
  {
  }

  lemma CoversByNetwork(lib: Ipv6, text: string, address: string, base: nat, length: nat)
    requires ReadV4(address).Some? && ReadV4Network(text) == Some(Net4(base, length)) && length <= 32
    ensures Covers(lib, HostEntry(text, Network), address) == Some(Agree(ReadV4(address).value, base, length))
  {
    assert ReadNetwork(lib, text) == Some(Net4(base, length));
  }

  /** Prefix and network forms agree: for every dotted-quad address and every trailing-dot
      prefix of one to three octets, the string test and the bit test answer alike. */
  lemma PrefixIsNetwork(lib: Ipv6, octets: seq<string>, address: string)
    requires 1 <= |octets| <= 3 && AreOctets(octets)
    requires ReadV4(address).Some?
    ensures var prefix, network := ParseEntry(lib, Dotted(octets)), ParseEntry(lib, NetworkText(octets));
      && prefix.kind == Prefix && network.kind == Network
      && Covers(lib, prefix, address) == Covers(lib, network, address)
      && Covers(lib, prefix, address).Some?
  {
    PrefixKind(lib, octets);
    NetworkKind(lib, octets);
    SameAnswer(lib, octets, address);
  }

  lemma SameAnswer(lib: Ipv6, octets: seq<string>, address: string)
    requires 1 <= |octets| <= 3 && AreOctets(octets) && ReadV4(address).Some?
    ensures var prefix, network := HostEntry(Dotted(octets), Prefix), HostEntry(NetworkText(octets), Network);
      Covers(lib, prefix, address).Some? && Covers(lib, prefix, address) == Covers(lib, network, address)
  {
    NetworkRead(octets);
    PrefixDecides(octets, address);
    CoversByPrefix(lib, Dotted(octets), address);
    CoversByNetwork(lib, NetworkText(octets), address, Quad(Values(Filled(octets))), 8 * |octets|);
  }

  lemma PrefixDecides(octets: seq<string>, address: string)
    requires 1 <= |octets| <= 3 && AreOctets(octets) && ReadV4(address).Some?
    ensures Dotted(octets) <= address <==> Agree(ReadV4(address).value, Quad(Values(Filled(octets))), 8 * |octets|)
  {
    var parts := Split(address, '.');
    AddressParts(address);
    JoinSplit(address, '.');
    NoDotsIn(octets);
    NoDotsIn(parts);
    PrefixIsFirstParts(octets, parts);
    FilledAreOctets(octets);
    PartsRead(address, parts);
    SameLeading(octets, parts);
  }

  lemma AddressParts(address: string)
    requires ReadV4(address).Some?
    ensures |Split(address, '.')| == 4 && AreOctets(Split(address, '.'))
  {
  }

  lemma NoDotsIn(octets: seq<string>)
    requires AreOctets(octets)
    ensures NoDots(octets)
  {
    forall i | 0 <= i < |octets| ensures '.' !in octets[i] { OctetChars(octets[i]); }
  }

  lemma ValuesBounded(octets: seq<string>)
    requires |octets| == 4 && AreOctets(octets)
    ensures forall i :: 0 <= i < 4 ==> Values(octets)[i] <= 255
  {
    assert IsOctet(octets[0]) && IsOctet(octets[1]) && IsOctet(octets[2]) && IsOctet(octets[3]);
  }

  lemma SameValues(octets: seq<string>, parts: seq<string>)
    requires |octets| <= 3 && AreOctets(octets) && |parts| == 4 && AreOctets(parts) && AreOctets(Filled(octets))
    ensures Values(parts)[..|octets|] == Values(Filled(octets))[..|octets|] <==> octets == parts[..|octets|]
  {
    forall i | 0 <= i < |octets| ensures Values(parts)[i] == Values(Filled(octets))[i] <==> parts[i] == octets[i] {
      OctetsInjective(parts[i], octets[i]);
    }
    SamePrefix(parts, octets, Values(parts), Values(Filled(octets)), |octets|);
  }

  lemma SameLeading(octets: seq<string>, parts: seq<string>)
    requires 1 <= |octets| <= 3 && AreOctets(octets) && |parts| == 4 && AreOctets(parts) && AreOctets(Filled(octets))
    ensures octets == parts[..|octets|] <==> Agree(Quad(Values(parts)), Quad(Values(Filled(octets))), 8 * |octets|)
  {
    ValuesBounded(parts);
    ValuesBounded(Filled(octets));
    LeadingOctets(Values(parts), Values(Filled(octets)), |octets|);
    SameValues(octets, parts);
  }

  lemma SamePrefix(parts: seq<string>, octets: seq<string>, a: seq<nat>, b: seq<nat>, k: nat)
    requires k == |octets| <= |parts| && k <= |a| && k <= |b|
    requires forall i :: 0 <= i < k ==> (a[i] == b[i] <==> parts[i] == octets[i])
    ensures a[..k] == b[..k] <==> octets == parts[..k]
  {
    if a[..k] == b[..k] {
      forall i | 0 <= i < k ensures octets[i] == parts[..k][i] { assert a[..k][i] == b[..k][i]; }
    }
    if octets == parts[..k] {
      forall i | 0 <= i < k ensures a[..k][i] == b[..k][i] { assert octets[i] == parts[..k][i]; }
    }
  }
}
