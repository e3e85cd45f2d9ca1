/** The file tells states apart: of two states, the later of which has only grown, and whose
    realm names hold no line break, the renderings are alike only when they are the same. */
module Krb5Rendering {
  import opened Outcomes
  import opened Text
  import opened Krb5

  predicate OnOneLine(s: string) {
    forall i :: 0 <= i < |s| ==> s[i] != '\n'
  }

  /** No realm's name holds a line break. */
  predicate CleanRealms(realms: Realms) {
    forall realm :: realm in realms ==> OnOneLine(realm)
  }

  predicate CleanDefault(defaultRealm: Option<string>) {
    defaultRealm.Some? ==> OnOneLine(defaultRealm.value)
  }

  /** Every realm is still there, its list with the earlier one in front. */
  predicate Grown(r: Realms, s: Realms) {
    forall realm :: realm in r ==> realm in s && r[realm] <= s[realm]
  }

  /** The order lists exactly the names it is given. */
  ghost predicate ListsAll(sorted: set<string> -> seq<string>) {
    forall names: set<string>, name: string :: name in sorted(names) <==> name in names
  }

  lemma FirstLine(a: string, b: string, x: string, y: string)
    requires OnOneLine(a) && OnOneLine(b) && a + "\n" + x == b + "\n" + y
    ensures a == b && x == y
  {
    var s := a + "\n" + x;
    assert s[|a|] == '\n' && s[|b|] == '\n';
    assert a == s[..|a|] && b == s[..|b|];
    UpToBreak(a, s, |b|);
    UpToBreak(b, s, |a|);
    SameRest(a + "\n", x, y);
  }

  lemma UpToBreak(a: string, s: string, k: nat)
    requires OnOneLine(a) && a <= s && k < |s| && s[k] == '\n'
    ensures |a| <= k
  {
  }

  // --- a realm's block ---------------------------------------------------------------------

  lemma {:induction false} KdcFront(kdcs: seq<string>)
    requires kdcs != []
    ensures KdcLines(kdcs) == KdcLine(kdcs[0]) + KdcLines(kdcs[1..])
  {
    var n := |kdcs| - 1;
    if n == 0 {
      assert kdcs[..n] == [] && kdcs[1..] == [];
    } else {
      KdcFront(kdcs[..n]);
      assert kdcs[..n][1..] == kdcs[1..][..n - 1] && kdcs[1..][n - 1] == kdcs[n];
      ConcatAssociates(KdcLine(kdcs[0]), KdcLines(kdcs[1..][..n - 1]), KdcLine(kdcs[n]));
    }
  }

  /** The text goes on with something other than a KDC. */
  predicate NoMoreKdcs(x: string) {
    !(KDC <= x)
  }

  lemma {:induction false} KdcsConcat(a: seq<string>, b: seq<string>)
    ensures KdcLines(a + b) == KdcLines(a) + KdcLines(b)
  {
    if b == [] {
      assert a + b == a;
    } else {
      var n := |b| - 1;
      KdcsConcat(a, b[..n]);
      assert (a + b)[..|a + b| - 1] == a + b[..n];
      ConcatAssociates(KdcLines(a), KdcLines(b[..n]), KdcLine(b[n]));
    }
  }

  lemma KdcsShow(a: seq<string>, b: seq<string>, x: string, y: string)
    requires a <= b && NoMoreKdcs(x)
    requires KdcLines(a) + x == KdcLines(b) + y
    ensures a == b && x == y
  {
    var more := b[|a|..];
    assert b == a + more;
    KdcsConcat(a, more);
    ConcatAssociates(KdcLines(a), KdcLines(more), y);
    SameRest(KdcLines(a), x, KdcLines(more) + y);
    if more != [] { KdcLeads(more, y); }
  }

  lemma KdcLeads(kdcs: seq<string>, x: string)
    requires kdcs != []
    ensures KDC <= KdcLines(kdcs) + x
  {
    KdcFront(kdcs);
  }

  /** What follows the KDCs of a block is not another one. */
  lemma AfterKdcs(kdcs: seq<string>, x: string)
    ensures NoMoreKdcs(AdminLine(kdcs) + ("    }\n" + x))
  {
    var s := AdminLine(kdcs) + ("    }\n" + x);
    if kdcs == [] {
      assert s[4] == '}' && KDC[4] == ' ';
    } else {
      assert s[8] == 'a' && KDC[8] == 'k';
    }
  }

  lemma BlockIs(realm: string, kdcs: seq<string>, x: string)
    ensures RealmBlock(realm, kdcs) + x ==
      "    " + (realm + " = {" + "\n" + (KdcLines(kdcs) + (AdminLine(kdcs) + ("    }\n" + x))))
  {
    var a, b := KdcLines(kdcs), AdminLine(kdcs);
    assert (a + (b + "    }\n")) + x == a + (b + ("    }\n" + x));
  }

  lemma BlockShows(r: string, k: seq<string>, x: string, s: string, l: seq<string>, y: string)
    requires OnOneLine(r) && OnOneLine(s) && (r == s ==> k <= l)
    requires RealmBlock(r, k) + x == RealmBlock(s, l) + y
    ensures r == s && k == l && x == y
  {
    var p, q := AdminLine(k) + ("    }\n" + x), AdminLine(l) + ("    }\n" + y);
    BlockIs(r, k, x);
    BlockIs(s, l, y);
    SameRest("    ", r + " = {" + "\n" + (KdcLines(k) + p), s + " = {" + "\n" + (KdcLines(l) + q));
    FirstLine(r + " = {", s + " = {", KdcLines(k) + p, KdcLines(l) + q);
    assert (r + " = {")[..|r|] == r && (s + " = {")[..|s|] == s;
    AfterKdcs(k, x);
    KdcsShow(k, l, p, q);
    SameRest(AdminLine(k), "    }\n" + x, "    }\n" + y);
    SameRest("    }\n", x, y);
  }

  // --- all blocks -------------------------------------------------------------------------------

  lemma {:induction false} BlocksFront(realms: Realms, names: seq<string>)
    requires names != []
    ensures Blocks(realms, names) == RealmBlock(names[0], KdcsOf(realms, names[0])) + Blocks(realms, names[1..])
  {
    var n := |names| - 1;
    if n == 0 {
      assert names[..n] == [] && names[1..] == [];
    } else {
      BlocksFront(realms, names[..n]);
      assert names[..n][1..] == names[1..][..n - 1] && names[1..][n - 1] == names[n];
      ConcatAssociates(RealmBlock(names[0], KdcsOf(realms, names[0])), Blocks(realms, names[1..][..n - 1]),
                       RealmBlock(names[n], KdcsOf(realms, names[n])));
    }
  }

  /** The text goes on with an empty line. */
  predicate Ends(x: string) {
    x != "" && x[0] == '\n'
  }

  predicate CleanNames(names: seq<string>) {
    forall i :: 0 <= i < |names| ==> OnOneLine(names[i])
  }

  /** What one list of names says of a realm is the beginning of what the other says. */
  predicate Before(r: Realms, s: Realms, names: seq<string>) {
    forall i :: 0 <= i < |names| ==> KdcsOf(r, names[i]) <= KdcsOf(s, names[i])
  }

  predicate SameLists(r: Realms, s: Realms, names: seq<string>) {
    forall i :: 0 <= i < |names| ==> KdcsOf(r, names[i]) == KdcsOf(s, names[i])
  }

  lemma BlocksLead(realms: Realms, names: seq<string>, x: string)
    requires names != []
    ensures (Blocks(realms, names) + x) != "" && (Blocks(realms, names) + x)[0] == ' '
  {
    BlocksFront(realms, names);
  }

  lemma FirstBlockShows(r: Realms, a: seq<string>, x: string, s: Realms, b: seq<string>, y: string)
    requires a != [] && b != [] && CleanNames(a) && CleanNames(b) && Before(r, s, a)
    requires Blocks(r, a) + x == Blocks(s, b) + y
    ensures a[0] == b[0] && KdcsOf(r, a[0]) == KdcsOf(s, b[0])
    ensures Blocks(r, a[1..]) + x == Blocks(s, b[1..]) + y
  {
    BlocksFront(r, a);
    BlocksFront(s, b);
    ConcatAssociates(RealmBlock(a[0], KdcsOf(r, a[0])), Blocks(r, a[1..]), x);
    ConcatAssociates(RealmBlock(b[0], KdcsOf(s, b[0])), Blocks(s, b[1..]), y);
    BlockShows(a[0], KdcsOf(r, a[0]), Blocks(r, a[1..]) + x, b[0], KdcsOf(s, b[0]), Blocks(s, b[1..]) + y);
  }

  lemma BothOrNeither(r: Realms, a: seq<string>, x: string, s: Realms, b: seq<string>, y: string)
    requires Ends(x) && Ends(y) && Blocks(r, a) + x == Blocks(s, b) + y
    ensures a == [] <==> b == []
  {
    if a != [] { BlocksLead(r, a, x); } else { assert Blocks(r, a) + x == x; }
    if b != [] { BlocksLead(s, b, y); } else { assert Blocks(s, b) + y == y; }
  }

  lemma FirstAndRest(r: Realms, s: Realms, a: seq<string>, b: seq<string>)
    requires a != [] && b != [] && a[0] == b[0] && a[1..] == b[1..]
    requires KdcsOf(r, a[0]) == KdcsOf(s, a[0]) && SameLists(r, s, a[1..])
    ensures a == b && SameLists(r, s, a)
  {
    assert a == [a[0]] + a[1..] && b == [b[0]] + b[1..];
  }

  lemma {:induction false} BlocksShow(r: Realms, a: seq<string>, x: string, s: Realms, b: seq<string>, y: string)
    requires CleanNames(a) && CleanNames(b) && Before(r, s, a) && Ends(x) && Ends(y)
    requires Blocks(r, a) + x == Blocks(s, b) + y
    ensures a == b && SameLists(r, s, a)
  {
    BothOrNeither(r, a, x, s, b, y);
    if a != [] {
      FirstBlockShows(r, a, x, s, b, y);
      BlocksShow(r, a[1..], x, s, b[1..], y);
      FirstAndRest(r, s, a, b);
    }
  }

  // --- the whole file ------------------------------------------------------------------------------

  /** The default realm can be told from what stands before a text like the fixed part. */
  lemma DefaultShows(d: Option<string>, e: Option<string>, p: string, q: string)
    requires CleanDefault(d) && CleanDefault(e) && |p| > 5 && p[5] == 'n' && |q| > 5 && q[5] == 'n'
    requires DefaultPart(d) + p == DefaultPart(e) + q
    ensures d == e && p == q
  {
    DefaultLeads(d, p);
    DefaultLeads(e, q);
    if d.Some? {
      var key := "    default_realm = ";
      ConcatAssociates(key, d.value + "\n", p);
      ConcatAssociates(key, e.value + "\n", q);
      SameRest(key, d.value + "\n" + p, e.value + "\n" + q);
      FirstLine(d.value, e.value, p, q);
    } else {
      SameRest("", p, q);
    }
  }

  lemma DefaultLeads(d: Option<string>, p: string)
    requires |p| > 5 && p[5] == 'n'
    ensures |DefaultPart(d) + p| > 5 && ((DefaultPart(d) + p)[5] == 'e' <==> d.Some?)
  {
  }

  lemma RealmsShow(settings: Settings, r: Realms, s: Realms)
    requires ListsAll(settings.sorted) && CleanRealms(r) && CleanRealms(s) && Grown(r, s)
    requires RealmPart(settings, r) == RealmPart(settings, s)
    ensures r == s
  {
    if r != map[] && s != map[] {
      var a, b := settings.sorted(r.Keys), settings.sorted(s.Keys);
      var x, y := "\n[domain_realm]\n" + DomainLines(a), "\n[domain_realm]\n" + DomainLines(b);
      SameRest("\n[realms]\n", Blocks(r, a) + x, Blocks(s, b) + y);
      NamesClean(settings, r, s);
      BlocksShow(r, a, x, s, b, y);
      assert r.Keys == s.Keys;
      forall realm | realm in r ensures r[realm] == s[realm] {
        var i :| 0 <= i < |a| && a[i] == realm;
        assert KdcsOf(r, a[i]) == KdcsOf(s, a[i]);
      }
    }
  }

  lemma NamesClean(settings: Settings, r: Realms, s: Realms)
    requires ListsAll(settings.sorted) && CleanRealms(r) && CleanRealms(s) && Grown(r, s)
    ensures CleanNames(settings.sorted(r.Keys)) && CleanNames(settings.sorted(s.Keys))
    ensures Before(r, s, settings.sorted(r.Keys))
  {
    var a, b := settings.sorted(r.Keys), settings.sorted(s.Keys);
    assert forall i :: 0 <= i < |a| ==> a[i] in a;
    assert forall i :: 0 <= i < |b| ==> b[i] in b;
  }

  /** Realms and default realm can be told from the file. */
  lemma RenderTells(settings: Settings, r: Realms, d: Option<string>, s: Realms, e: Option<string>)
    requires ListsAll(settings.sorted) && CleanRealms(r) && CleanRealms(s) && CleanDefault(d) && CleanDefault(e)
    requires Grown(r, s)
    ensures Render(settings, r, d) == Render(settings, s, e) <==> r == s && d == e
  {
    if Render(settings, r, d) == Render(settings, s, e) {
      var x, y := FixedPart(settings) + RealmPart(settings, r), FixedPart(settings) + RealmPart(settings, s);
      SameRest(HEADER, DefaultPart(d) + x, DefaultPart(e) + y);
      FixedLeads(settings, RealmPart(settings, r));
      FixedLeads(settings, RealmPart(settings, s));
      DefaultShows(d, e, x, y);
      SameRest(FixedPart(settings), RealmPart(settings, r), RealmPart(settings, s));
      RealmsShow(settings, r, s);
    }
  }

  lemma FixedLeads(settings: Settings, x: string)
    ensures |FixedPart(settings) + x| > 5 && (FixedPart(settings) + x)[5] == 'n'
  {
  }
}
