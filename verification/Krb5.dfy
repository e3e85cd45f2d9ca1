/** The Kerberos configuration shared by every session: realms gather the KDCs they were
    ever reached through, and the file follows. */
module Krb5 {
  import opened Outcomes
  import opened Text

  type Realms = map<string, seq<string>>

  /** What the file says besides the realms, and the order `sorted` lists the names in. */
  datatype Settings = Settings(ticketLifetime: string, renewLifetime: string,
                               ccacheDir: Option<string>, sorted: set<string> -> seq<string>)

  datatype State = State(realms: Realms, defaultRealm: Option<string>, file: Option<string>)

  function NormalRealm(realm: string): string {
    Upper(Strip(realm))
  }

  // --- lists without repetition -----------------------------------------------------------

  /** `dict.fromkeys` over the non-empty names: the first occurrence of each, in order. */
  function Unique(names: seq<string>): seq<string> {
    if names == [] then []
    else
      var before, last := Unique(names[..|names| - 1]), names[|names| - 1];
      if last == "" || last in before then before else before + [last]
  }

  predicate AllKnown(names: seq<string>, known: seq<string>) {
    forall k :: k in names ==> k in known
  }

  /** What was known, then what is new. */
  function Merged(existing: seq<string>, added: seq<string>): seq<string> {
    Unique(existing + added)
  }

  // --- the file ------------------------------------------------------------------------------

  const KDC := "        kdc = "

  function KdcLine(kdc: string): string {
    KDC + (kdc + "\n")
  }

  function KdcLines(kdcs: seq<string>): string {
    if kdcs == [] then "" else KdcLines(kdcs[..|kdcs| - 1]) + KdcLine(kdcs[|kdcs| - 1])
  }

  /** The first KDC is also the password server. */
  function AdminLine(kdcs: seq<string>): string {
    if kdcs == [] then "" else "        admin_server = " + kdcs[0] + "\n"
  }

  function RealmBlock(realm: string, kdcs: seq<string>): string {
    "    " + (realm + " = {" + "\n" + (KdcLines(kdcs) + (AdminLine(kdcs) + "    }\n")))
  }

  function KdcsOf(realms: Realms, realm: string): seq<string> {
    if realm in realms then realms[realm] else []
  }

  function Blocks(realms: Realms, names: seq<string>): string {
    if names == [] then ""
    else
      var realm := names[|names| - 1];
      Blocks(realms, names[..|names| - 1]) + RealmBlock(realm, KdcsOf(realms, realm))
  }

  function DomainLines(names: seq<string>): string {
    if names == [] then ""
    else
      var realm := names[|names| - 1];
      DomainLines(names[..|names| - 1]) +
      "    ." + Lower(realm) + " = " + realm + "\n" + "    " + Lower(realm) + " = " + realm + "\n"
  }

  const HEADER := "# Generated by SAMFSCON. Edits are overwritten.\n[libdefaults]\n"

  function DefaultPart(defaultRealm: Option<string>): string {
    if defaultRealm.Some? then "    default_realm = " + (defaultRealm.value + "\n") else ""
  }

  /** The lines that depend on nothing but the settings. */
  function FixedPart(settings: Settings): string {
    "    dns_lookup_realm = false\n" +
    ("    dns_lookup_kdc = true\n" + "    rdns = false\n" + "    forwardable = true\n" + "    renewable = true\n" +
     "    ticket_lifetime = " + settings.ticketLifetime + "\n    renew_lifetime = " + settings.renewLifetime + "\n" +
     (if settings.ccacheDir.Some?
      then "    default_ccache_name = FILE:" + settings.ccacheDir.value + "/default\n" else ""))
  }

  function RealmPart(settings: Settings, realms: Realms): string {
    if realms == map[] then ""
    else
      var names := settings.sorted(realms.Keys);
      "\n[realms]\n" + (Blocks(realms, names) + ("\n[domain_realm]\n" + DomainLines(names)))
  }

  function Render(settings: Settings, realms: Realms, defaultRealm: Option<string>): string {
    HEADER + (DefaultPart(defaultRealm) + (FixedPart(settings) + RealmPart(settings, realms)))
  }

  // --- the two calls ----------------------------------------------------------------------------

  /** How a state is put into words; what the two calls do holds for any such rendering. */
  type Rendering = (Realms, Option<string>) -> string

  function RenderingOf(settings: Settings): Rendering {
    (realms, defaultRealm) => Render(settings, realms, defaultRealm)
  }

  /** Writing the file: it follows the state when the disk lets it. */
  function Stored(render: Rendering, s: State, ok: bool): State {
    if ok then s.(file := Some(render(s.realms, s.defaultRealm))) else s
  }

  /** Whether the call has something to record. */
  predicate HasNews(s: State, realm: string, kdcs: seq<string>) {
    var r := NormalRealm(realm);
    r != "" && !(r in s.realms && AllKnown(Unique(kdcs), s.realms[r]))
  }

  function Registered(s: State, realm: string, kdcs: seq<string>): State {
    var r := NormalRealm(realm);
    var entry := if r in s.realms then Merged(s.realms[r], Unique(kdcs)) else Unique(kdcs);
    s.(realms := s.realms[r := entry], defaultRealm := if s.defaultRealm.None? then Some(r) else s.defaultRealm)
  }

  function AfterEnsure(render: Rendering, s: State, realm: string, kdcs: seq<string>, ok: bool): State {
    if HasNews(s, realm, kdcs) then Stored(render, Registered(s, realm, kdcs), ok) else s
  }

  predicate NewDefault(s: State, realm: string) {
    NormalRealm(realm) != "" && s.defaultRealm != Some(NormalRealm(realm))
  }

  function Defaulted(s: State, realm: string): State {
    var r := NormalRealm(realm);
    s.(defaultRealm := Some(r), realms := if r in s.realms then s.realms else s.realms[r := []])
  }

  function AfterSetDefault(render: Rendering, s: State, realm: string, ok: bool): State {
    if NewDefault(s, realm) then Stored(render, Defaulted(s, realm), ok) else s
  }

  class Krb5Configuration {
    const settings: Settings
    var realms: Realms
    var defaultRealm: Option<string>
    var file: Option<string>

    function View(): State
      reads this
    {
      State(realms, defaultRealm, file)
    }

    constructor (settings: Settings)
      ensures this.settings == settings && View() == State(map[], None, None)
    {
      this.settings := settings;
      realms, defaultRealm, file := map[], None, None;
    }

    method EnsureRealm(realm: string, kdcs: seq<string>, ok: bool)
      modifies this
      ensures View() == AfterEnsure(RenderingOf(settings), old(View()), realm, kdcs, ok)
    {
      var r := NormalRealm(realm);
      if r == "" { return; }
      var entry := FromKeys(kdcs);
      if r in realms {
        if AllKnown(entry, realms[r]) { return; }
        entry := FromKeys(realms[r] + entry);
      }
      realms := realms[r := entry];
      if defaultRealm.None? { defaultRealm := Some(r); }
      Write(ok);
    }

    method SetDefaultRealm(realm: string, ok: bool)
      modifies this
      ensures View() == AfterSetDefault(RenderingOf(settings), old(View()), realm, ok)
    {
      var r := NormalRealm(realm);
      if r == "" || defaultRealm == Some(r) { return; }
      defaultRealm := Some(r);
      if r !in realms { realms := realms[r := []]; }
      Write(ok);
    }

    method Write(ok: bool)
      modifies this`file
      ensures View() == Stored(RenderingOf(settings), old(View()), ok)
    {
      if ok { file := Some(Render(settings, realms, defaultRealm)); }
    }

    static method FromKeys(names: seq<string>) returns (unique: seq<string>)
      ensures unique == Unique(names)
    {
      unique := [];
      var i := 0;
      while i < |names|
        invariant 0 <= i <= |names| && unique == Unique(names[..i])
      {
        assert names[..i + 1][..i] == names[..i];
        if names[i] != "" && names[i] !in unique {
          unique := unique + [names[i]];
        }
        i := i + 1;
      }
      assert names[..i] == names;
    }
  }
}
