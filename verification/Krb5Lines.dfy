/** The file line by line: what each setting, realm and KDC is put down as. */
module Krb5Lines {
  import opened Outcomes
  import opened Text
  import opened Krb5

  function Unlines(lines: seq<string>): string {
    if lines == [] then "" else Unlines(lines[..|lines| - 1]) + (lines[|lines| - 1] + "\n")
  }

  lemma {:induction false} UnlinesConcat(a: seq<string>, b: seq<string>)
    ensures Unlines(a + b) == Unlines(a) + Unlines(b)
  {
    if b == [] {
      assert a + b == a;
    } else {
      var n := |b| - 1;
      UnlinesConcat(a, b[..n]);
      assert (a + b)[..|a + b| - 1] == a + b[..n];
      ConcatAssociates(Unlines(a), Unlines(b[..n]), b[n] + "\n");
    }
  }

  lemma OneLine(line: string)
    ensures Unlines([line]) == line + "\n"
  {
    assert Unlines([line][..0]) == "";
  }

  lemma FirstLines(line: string, more: seq<string>)
    ensures Unlines([line] + more) == line + "\n" + Unlines(more)
  {
    UnlinesConcat([line], more);
    OneLine(line);
  }

  // --- a realm --------------------------------------------------------------------------------

  function KdcList(kdcs: seq<string>): (lines: seq<string>)
    ensures |lines| == |kdcs| && forall i :: 0 <= i < |kdcs| ==> lines[i] == "        kdc = " + kdcs[i]
  {
    seq(|kdcs|, i requires 0 <= i < |kdcs| => "        kdc = " + kdcs[i])
  }

  /** One line for each KDC, in order, and the first of them once more as the place where
      passwords are changed. */
  function RealmLines(realm: string, kdcs: seq<string>): seq<string> {
    ["    " + realm + " = {"] + KdcList(kdcs) +
    (if |kdcs| > 0 then ["        admin_server = " + kdcs[0]] else []) +
    ["    }"]
  }

  lemma {:induction false} KdcsAsLines(kdcs: seq<string>)
    ensures KdcLines(kdcs) == Unlines(KdcList(kdcs))
  {
    if kdcs != [] {
      var n := |kdcs| - 1;
      KdcsAsLines(kdcs[..n]);
      assert KdcList(kdcs)[..n] == KdcList(kdcs[..n]);
      LineOf("        kdc = ", kdcs[n]);
    }
  }

  lemma LineOf(head: string, value: string)
    ensures head + (value + "\n") == (head + value) + "\n"
  {
  }

  lemma RealmAsLines(realm: string, kdcs: seq<string>)
    ensures RealmBlock(realm, kdcs) == Unlines(RealmLines(realm, kdcs))
  {
    var admin := if |kdcs| > 0 then ["        admin_server = " + kdcs[0]] else [];
    KdcsAsLines(kdcs);
    assert RealmLines(realm, kdcs) == (["    " + realm + " = {"] + KdcList(kdcs)) + (admin + ["    }"]);
    UnlinesConcat(["    " + realm + " = {"] + KdcList(kdcs), admin + ["    }"]);
    FirstLines("    " + realm + " = {", KdcList(kdcs));
    UnlinesConcat(admin, ["    }"]);
    OneLine("    }");
    if |kdcs| > 0 { OneLine(admin[0]); }
    assert AdminLine(kdcs) == Unlines(admin);
    Together("    ", realm, " = {", Unlines(KdcList(kdcs)), Unlines(admin), "    }\n");
  }

  lemma Together(indent: string, realm: string, opening: string, list: string, admin: string, end: string)
    ensures indent + (realm + opening + "\n" + (list + (admin + end))) ==
      ((indent + realm + opening) + "\n" + list) + (admin + end)
  {
  }

  // --- the whole file ---------------------------------------------------------------------------

  function BlockLines(realms: Realms, names: seq<string>): seq<string> {
    if names == [] then []
    else
      var realm := names[|names| - 1];
      BlockLines(realms, names[..|names| - 1]) + RealmLines(realm, KdcsOf(realms, realm))
  }

  function NameLines(names: seq<string>): seq<string> {
    if names == [] then []
    else
      var realm := names[|names| - 1];
      NameLines(names[..|names| - 1]) + ["    ." + Lower(realm) + " = " + realm, "    " + Lower(realm) + " = " + realm]
  }

  lemma {:induction false} BlocksAsLines(realms: Realms, names: seq<string>)
    ensures Blocks(realms, names) == Unlines(BlockLines(realms, names))
  {
    if names != [] {
      var n := |names| - 1;
      BlocksAsLines(realms, names[..n]);
      RealmAsLines(names[n], KdcsOf(realms, names[n]));
      UnlinesConcat(BlockLines(realms, names[..n]), RealmLines(names[n], KdcsOf(realms, names[n])));
    }
  }

  lemma TwoLines(a: string, b: string)
    ensures Unlines([a, b]) == a + "\n" + b + "\n"
  {
    assert [a, b] == [a] + [b];
    FirstLines(a, [b]);
    OneLine(b);
  }

  lemma {:induction false} NamesAsLines(names: seq<string>)
    ensures DomainLines(names) == Unlines(NameLines(names))
  {
    if names != [] {
      var n := |names| - 1;
      var a, b := "    ." + Lower(names[n]) + " = " + names[n], "    " + Lower(names[n]) + " = " + names[n];
      NamesAsLines(names[..n]);
      UnlinesConcat(NameLines(names[..n]), [a, b]);
      TwoLines(a, b);
      NameText(DomainLines(names[..n]), "    .", "    ", Lower(names[n]), names[n]);
    }
  }

  lemma NameText(before: string, dot: string, plain: string, small: string, realm: string)
    ensures before + dot + small + " = " + realm + "\n" + plain + small + " = " + realm + "\n" ==
      before + ((dot + small + " = " + realm) + "\n" + (plain + small + " = " + realm) + "\n")
  {
  }

  function DefaultLines(defaultRealm: Option<string>): seq<string> {
    if defaultRealm.Some? then ["    default_realm = " + defaultRealm.value] else []
  }

  function SettingLines(settings: Settings): seq<string> {
    ["    dns_lookup_realm = false", "    dns_lookup_kdc = true", "    rdns = false", "    forwardable = true",
     "    renewable = true", "    ticket_lifetime = " + settings.ticketLifetime,
     "    renew_lifetime = " + settings.renewLifetime] +
    CacheLines(settings.ccacheDir)
  }

  function RealmsLines(realms: Realms, names: seq<string>): seq<string> {
    ["", "[realms]"] + BlockLines(realms, names) + ["", "[domain_realm]"] + NameLines(names)
  }

  /** The lines of the file. */
  function FileLines(settings: Settings, realms: Realms, defaultRealm: Option<string>): seq<string> {
    ["# Generated by SAMFSCON. Edits are overwritten.", "[libdefaults]"] +
    DefaultLines(defaultRealm) + SettingLines(settings) +
    (if realms == map[] then [] else RealmsLines(realms, settings.sorted(realms.Keys)))
  }

  lemma DefaultAsLines(defaultRealm: Option<string>)
    ensures DefaultPart(defaultRealm) == Unlines(DefaultLines(defaultRealm))
  {
    if defaultRealm.Some? {
      OneLine("    default_realm = " + defaultRealm.value);
      LineOf("    default_realm = ", defaultRealm.value);
    }
  }

  lemma SwitchLines()
    ensures "    dns_lookup_kdc = true\n" + "    rdns = false\n" + "    forwardable = true\n" +
            "    renewable = true\n" ==
      "    dns_lookup_kdc = true" + "\n" + "    rdns = false" + "\n" + "    forwardable = true" + "\n" +
      "    renewable = true" + "\n"
  {
    assert "    dns_lookup_kdc = true\n" == "    dns_lookup_kdc = true" + "\n";
    assert "    rdns = false\n" == "    rdns = false" + "\n";
    assert "    forwardable = true\n" == "    forwardable = true" + "\n";
    assert "    renewable = true\n" == "    renewable = true" + "\n";
  }

  lemma FourLines(a: string, b: string, c: string, d: string)
    ensures Unlines([a, b, c, d]) == a + "\n" + b + "\n" + c + "\n" + d + "\n"
  {
    assert [a, b, c, d] == [a, b] + [c, d];
    UnlinesConcat([a, b], [c, d]);
    TwoLines(a, b);
    TwoLines(c, d);
  }

  lemma SevenLines(lookup: string, a: string, b: string, c: string, d: string, switches: string,
                   ticket: string, renew: string, cache: seq<string>)
    requires switches == a + "\n" + b + "\n" + c + "\n" + d + "\n"
    ensures Unlines([lookup, a, b, c, d, ticket, renew] + cache) ==
      lookup + "\n" + (switches + (ticket + "\n" + renew + "\n") + Unlines(cache))
  {
    var more := [a, b, c, d] + ([ticket, renew] + cache);
    assert [lookup, a, b, c, d, ticket, renew] + cache == [lookup] + more;
    FirstLines(lookup, more);
    UnlinesConcat([a, b, c, d], [ticket, renew] + cache);
    FourLines(a, b, c, d);
    UnlinesConcat([ticket, renew], cache);
    TwoLines(ticket, renew);
  }

  function CacheLines(ccacheDir: Option<string>): seq<string> {
    if ccacheDir.Some? then ["    default_ccache_name = FILE:" + ccacheDir.value + "/default"] else []
  }

  lemma CacheAsLines(ccacheDir: Option<string>)
    ensures Unlines(CacheLines(ccacheDir)) ==
      if ccacheDir.Some? then "    default_ccache_name = FILE:" + ccacheDir.value + "/default\n" else ""
  {
    if ccacheDir.Some? {
      OneLine(CacheLines(ccacheDir)[0]);
      assert "/default\n" == "/default" + "\n";
      LineOf("    default_ccache_name = FILE:" + ccacheDir.value, "/default");
    }
  }

  lemma SettingsText(lookup: string, switches: string, t: string, ticket: string, r: string, renew: string, c: string)
    ensures lookup + "\n" + (switches + ((t + ticket) + "\n" + (r + renew) + "\n") + c) ==
      (lookup + "\n") + (switches + t + ticket + ("\n" + r) + renew + "\n" + c)
  {
  }

  lemma LineBreaks()
    ensures "    dns_lookup_realm = false\n" == "    dns_lookup_realm = false" + "\n"
    ensures "\n    renew_lifetime = " == "\n" + "    renew_lifetime = "
  {
  }

  lemma SettingsAsLines(settings: Settings)
    ensures FixedPart(settings) == Unlines(SettingLines(settings))
  {
    var switches := "    dns_lookup_kdc = true\n" + "    rdns = false\n" + "    forwardable = true\n" +
                    "    renewable = true\n";
    CacheAsLines(settings.ccacheDir);
    SwitchLines();
    LineBreaks();
    SevenLines("    dns_lookup_realm = false", "    dns_lookup_kdc = true", "    rdns = false",
               "    forwardable = true", "    renewable = true", switches,
               "    ticket_lifetime = " + settings.ticketLifetime, "    renew_lifetime = " + settings.renewLifetime,
               CacheLines(settings.ccacheDir));
    SettingsText("    dns_lookup_realm = false", switches, "    ticket_lifetime = ", settings.ticketLifetime,
                 "    renew_lifetime = ", settings.renewLifetime, Unlines(CacheLines(settings.ccacheDir)));
  }

  lemma FourParts(a: seq<string>, b: seq<string>, c: seq<string>, d: seq<string>)
    ensures Unlines(a + b + c + d) == Unlines(a) + (Unlines(b) + (Unlines(c) + Unlines(d)))
  {
    UnlinesConcat(a + b + c, d);
    UnlinesConcat(a + b, c);
    UnlinesConcat(a, b);
    Nested(Unlines(a), Unlines(b), Unlines(c), Unlines(d));
  }

  lemma Nested(a: string, b: string, c: string, d: string)
    ensures a + b + c + d == a + (b + (c + d))
  {
    ConcatAssociates(a, b, c + d);
    ConcatAssociates(a + b, c, d);
  }

  lemma Headings()
    ensures Unlines(["", "[realms]"]) == "\n[realms]\n"
    ensures Unlines(["", "[domain_realm]"]) == "\n[domain_realm]\n"
  {
    TwoLines("", "[realms]");
    TwoLines("", "[domain_realm]");
    assert "\n[realms]\n" == "" + "\n" + "[realms]" + "\n";
    assert "\n[domain_realm]\n" == "" + "\n" + "[domain_realm]" + "\n";
  }

  lemma RealmsAsLines(realms: Realms, names: seq<string>)
    ensures "\n[realms]\n" + (Blocks(realms, names) + ("\n[domain_realm]\n" + DomainLines(names))) ==
      Unlines(RealmsLines(realms, names))
  {
    FourParts(["", "[realms]"], BlockLines(realms, names), ["", "[domain_realm]"], NameLines(names));
    Headings();
    BlocksAsLines(realms, names);
    NamesAsLines(names);
  }

  lemma HeaderLines()
    ensures HEADER == Unlines(["# Generated by SAMFSCON. Edits are overwritten.", "[libdefaults]"])
  {
    TwoLines("# Generated by SAMFSCON. Edits are overwritten.", "[libdefaults]");
  }

  /** What is rendered is exactly these lines. */
  lemma RenderIsLines(settings: Settings, realms: Realms, defaultRealm: Option<string>)
    ensures Render(settings, realms, defaultRealm) == Unlines(FileLines(settings, realms, defaultRealm))
  {
    HeaderLines();
    DefaultAsLines(defaultRealm);
    SettingsAsLines(settings);
    if realms != map[] { RealmsAsLines(realms, settings.sorted(realms.Keys)); }
    FourParts(["# Generated by SAMFSCON. Edits are overwritten.", "[libdefaults]"], DefaultLines(defaultRealm),
              SettingLines(settings),
              if realms == map[] then [] else RealmsLines(realms, settings.sorted(realms.Keys)));
  }

  /** A realm goes by its name in capitals, without the spaces around it, however it is written. */
  lemma RealmName(realm: string)
    ensures exists a, b :: Wraps(Upper(realm), a, NormalRealm(realm), b)
    ensures Trimmed(NormalRealm(realm))
    ensures forall i :: 0 <= i < |NormalRealm(realm)| ==> !('a' <= NormalRealm(realm)[i] <= 'z')
  {
    StripExact(realm);
    var a, b :| Wraps(realm, a, Strip(realm), b);
    assert NormalRealm(realm) == Upper(Strip(realm));
    UpperWithin(realm, a, Strip(realm), b);
    UpperTrimmed(Strip(realm));
  }

  lemma UpperWithin(s: string, a: string, t: string, b: string)
    requires Wraps(s, a, t, b)
    ensures Wraps(Upper(s), a, Upper(t), b)
  {
    var u := a + Upper(t) + b;
    forall i | 0 <= i < |s| ensures UpperChar(s[i]) == u[i] {
      if i < |a| {
        assert s[i] == a[i] && u[i] == a[i] && IsSpace(a[i]);
      } else if i < |a| + |t| {
        assert s[i] == t[i - |a|] && u[i] == Upper(t)[i - |a|];
      } else {
        assert s[i] == b[i - |a| - |t|] && u[i] == b[i - |a| - |t|] && IsSpace(s[i]);
      }
    }
  }

  lemma UpperTrimmed(t: string)
    requires Trimmed(t)
    ensures Trimmed(Upper(t)) && forall i :: 0 <= i < |t| ==> !('a' <= Upper(t)[i] <= 'z')
  {
    if t != "" {
      assert !IsSpace(UpperChar(t[0])) && !IsSpace(UpperChar(t[|t| - 1]));
    }
  }
}
