/** The `hosts allow` and `hosts deny` lists, as far as they can be decided from here, and
    the gate that refuses a change which would shut this console out. */
module Hosts {
  import opened Outcomes
  import opened Text
  import opened Addresses

  datatype EntryKind =
    | Everyone | Local | Except | Netgroup | Prefix | Address | Network | Name | Unparsable

  datatype HostEntry = HostEntry(text: string, kind: EntryKind)

  predicate IsAlphanumeric(c: char) {
    'A' <= c <= 'Z' || 'a' <= c <= 'z' || IsDigit(c)
  }

  predicate IsLabel(s: string) {
    s != "" && IsAlphanumeric(s[0]) && IsAlphanumeric(s[|s| - 1]) &&
    forall i :: 0 <= i < |s| ==> IsAlphanumeric(s[i]) || s[i] == '-'
  }

  /** Dot-separated labels, with one more dot allowed at either end. */
  predicate IsName(s: string) {
    var t := if s != "" && s[0] == '.' then s[1..] else s;
    var body := if t != "" && t[|t| - 1] == '.' then t[..|t| - 1] else t;
    var labels := Split(body, '.');
    forall i :: 0 <= i < |labels| ==> IsLabel(labels[i])
  }

  predicate IsShortNumber(s: string) {
    1 <= |s| <= 3 && AllDigits(s)
  }

  /** One to three numbers, each followed by a dot. */
  predicate IsPrefix(s: string) {
    var parts := Split(s, '.');
    2 <= |parts| <= 4 && parts[|parts| - 1] == "" &&
    forall i :: 0 <= i < |parts| - 1 ==> IsShortNumber(parts[i])
  }

  function KindOf(lib: Ipv6, item: string): EntryKind {
    var upper := Upper(item);
    if upper == "ALL" then Everyone
    else if upper == "LOCAL" then Local
    else if upper == "EXCEPT" then Except
    else if item != "" && item[0] == '@' then Netgroup
    else if IsPrefix(item) then Prefix
    else if ReadAddress(lib, item).Some? then Address
    else if ReadNetwork(lib, item).Some? then Network
    else if IsName(item) then Name
    else Unparsable
  }

  function ParseEntry(lib: Ipv6, text: string): HostEntry {
    HostEntry(Strip(text), KindOf(lib, Strip(text)))
  }

  /** Whether this entry matches the address; `None` where that cannot be decided. */
  function Covers(lib: Ipv6, entry: HostEntry, address: string): Option<bool> {
    if entry.kind.Everyone? then Some(true)
    else if entry.kind in {Local, Name, Netgroup, Except, Unparsable} then None
    else
      match ReadAddress(lib, address)
      case None => None
      case Some(target) =>
        match entry.kind
        case Address => Some(ReadAddress(lib, entry.text) == Some(target))
        case Network =>
          (match ReadNetwork(lib, entry.text)
           case Some(net) => Some(Within(lib, target, net))
           case None => None)
        case Prefix => Some(entry.text <= address)
        case _ => None
  }

  // --- the verdict on one list ---------------------------------------------------------

  datatype Reason = AddressUnknown | ExceptClause | NotDecidable

  datatype Verdict = Covered | Excluded | Undecidable(reason: Reason, entries: seq<string>)

  function EntriesOf(lib: Ipv6, items: seq<string>): seq<HostEntry> {
    seq(|items|, i requires 0 <= i < |items| => ParseEntry(lib, items[i]))
  }

  function ListOf(lib: Ipv6, value: string): seq<HostEntry> {
    EntriesOf(lib, Items(Strip(value)))
  }

  function Texts(entries: seq<HostEntry>): seq<string> {
    seq(|entries|, i requires 0 <= i < |entries| => entries[i].text)
  }

  predicate HasExcept(entries: seq<HostEntry>) {
    exists i :: 0 <= i < |entries| && entries[i].kind.Except?
  }

  predicate AnyCovers(lib: Ipv6, entries: seq<HostEntry>, address: string) {
    exists i :: 0 <= i < |entries| && Covers(lib, entries[i], address) == Some(true)
  }

  /** The texts of the first `n` entries that could not be decided. */
  function Undecided(lib: Ipv6, entries: seq<HostEntry>, address: string, n: nat): seq<string>
    requires n <= |entries|
  {
    if n == 0 then []
    else
      var before := Undecided(lib, entries, address, n - 1);
      if Covers(lib, entries[n - 1], address).None? then before + [entries[n - 1].text] else before
  }

  /** The verdict entry by entry, for an address that is known. */
  function Scan(lib: Ipv6, entries: seq<HostEntry>, address: string): Verdict {
    if AnyCovers(lib, entries, address) then Covered
    else
      var open := Undecided(lib, entries, address, |entries|);
      if open != [] then Undecidable(NotDecidable, open) else Excluded
  }

  function VerdictOf(lib: Ipv6, entries: seq<HostEntry>, address: Option<string>): Verdict {
    if entries == [] then Covered
    else if address.None? then Undecidable(AddressUnknown, Texts(entries))
    else if HasExcept(entries) then Undecidable(ExceptClause, Texts(entries))
    else Scan(lib, entries, address.value)
  }

  /** The evaluation of a list: an EXCEPT anywhere first, then entry by entry, leaving at
      the first match. */
  method HostsVerdict(lib: Ipv6, value: string, address: Option<string>) returns (v: Verdict)
    ensures v == VerdictOf(lib, ListOf(lib, value), address)
  {
    var entries := ListOf(lib, value);
    if entries == [] { return Covered; }
    if address.None? { return Undecidable(AddressUnknown, Texts(entries)); }
    if HasExcept(entries) { return Undecidable(ExceptClause, Texts(entries)); }

    v := ScanEntries(lib, entries, address.value);
  }

  method ScanEntries(lib: Ipv6, entries: seq<HostEntry>, address: string) returns (v: Verdict)
    ensures v == Scan(lib, entries, address)
  {
    var undecidable, i := [], 0;
    while i < |entries|
      invariant 0 <= i <= |entries|
      invariant forall k :: 0 <= k < i ==> Covers(lib, entries[k], address) != Some(true)
      invariant undecidable == Undecided(lib, entries, address, i)
    {
      var decided := Covers(lib, entries[i], address);
      if decided == Some(true) {
        assert AnyCovers(lib, entries, address);
        return Covered;
      }
      if decided.None? {
        undecidable := undecidable + [entries[i].text];
      }
      i := i + 1;
    }
    assert !AnyCovers(lib, entries, address);
    v := if undecidable != [] then Undecidable(NotDecidable, undecidable) else Excluded;
  }

  // --- the gate -------------------------------------------------------------------------------

  const ALLOW := "hosts allow"
  const DENY := "hosts deny"
  const ALLOW_UNDECIDABLE := "hosts allow:undecidable"
  const DENY_UNDECIDABLE := "hosts deny:undecidable"
  const ADDRESS_UNKNOWN := "own address:unknown"

  datatype Code =
    | AllowExcludesConsole | DenyIncludesConsole | AllowUndecidable | DenyUndecidable | OwnAddressUnknown

  datatype Outcome = Accepted | Refused(code: Code) | NeedsConfirmation(code: Code, token: string)

  /** The value as the pair will stand after the change. */
  function Standing(checked: map<string, Option<string>>, stored: map<string, string>, name: string): string {
    if name in checked then
      (match checked[name] case Some(value) => Strip(value) case None => "")
    else if name in stored then Strip(stored[name])
    else ""
  }

  function AskFor(v: Verdict, code: Code, token: string, confirm: set<string>): Outcome
    requires v.Undecidable?
  {
    var c, t := if v.reason.AddressUnknown? then OwnAddressUnknown else code,
                if v.reason.AddressUnknown? then ADDRESS_UNKNOWN else token;
    if t in confirm then Accepted else NeedsConfirmation(c, t)
  }

  function CheckHosts(lib: Ipv6, checked: map<string, Option<string>>, stored: map<string, string>,
                      address: Option<string>, confirm: set<string>): Outcome {
    var allow, deny := Standing(checked, stored, ALLOW), Standing(checked, stored, DENY);
    if ALLOW !in checked && DENY !in checked then Accepted
    else if allow != "" then
      var v := VerdictOf(lib, ListOf(lib, allow), address);
      match v
      case Covered => Accepted
      case Excluded => Refused(AllowExcludesConsole)
      case Undecidable(_, _) => AskFor(v, AllowUndecidable, ALLOW_UNDECIDABLE, confirm)
    else if deny == "" then Accepted
    else
      var v := VerdictOf(lib, ListOf(lib, deny), address);
      match v
      case Covered => Refused(DenyIncludesConsole)
      case Excluded => Accepted
      case Undecidable(_, _) => AskFor(v, DenyUndecidable, DENY_UNDECIDABLE, confirm)
  }
}
