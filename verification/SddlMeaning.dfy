/** What the text of one entry says, field by field, and which entries a descriptor is
    written with. */
module SddlMeaning {
  import opened Outcomes
  import opened Text
  import opened Rights
  import opened RightsMeaning
  import opened Sddl
  import Bits

  /** The first character that is no space is a D. */
  predicate SaysDeny(aceType: string) {
    exists i :: 0 <= i < |aceType| && (aceType[i] == 'D' || aceType[i] == 'd') &&
      forall k :: 0 <= k < i ==> IsSpace(aceType[k])
  }

  lemma {:induction false} StripFirst(s: string, d: char)
    requires !IsSpace(d)
    ensures (Strip(s) != "" && Strip(s)[0] == d) <==>
      exists i :: 0 <= i < |s| && s[i] == d && forall k :: 0 <= k < i ==> IsSpace(s[k])
  {
    if s != "" && IsSpace(s[0]) {
      var t := s[1..];
      StripFirst(t, d);
      if i :| 0 <= i < |t| && t[i] == d && forall k :: 0 <= k < i ==> IsSpace(t[k]) {
        assert s[i + 1] == d;
        forall k | 0 <= k < i + 1 ensures IsSpace(s[k]) { assert k > 0 ==> s[k] == t[k - 1]; }
      }
      if i :| 0 <= i < |s| && s[i] == d && forall k :: 0 <= k < i ==> IsSpace(s[k]) {
        assert t[i - 1] == d;
        forall k | 0 <= k < i - 1 ensures IsSpace(t[k]) { assert t[k] == s[k + 1]; }
      }
    } else if s != "" && IsSpace(s[|s| - 1]) {
      StripFirst(s[..|s| - 1], d);
    }
  }

  lemma KindMeans(aceType: string)
    ensures KindOf(aceType).Deny? <==> SaysDeny(aceType)
  {
    StripFirst(aceType, 'D');
    StripFirst(aceType, 'd');
    var s := Strip(aceType);
    if s != "" { assert Upper(s)[0] == UpperChar(s[0]); }
  }

  /** Every field of an entry: the type says whether it denies, a flag is set exactly when its
      code stands in the second field, a right is granted exactly when one of the codes of
      the third field stands for it, and the sixth names the account. */
  lemma EntryMeans(f: Fields, bit: bv8, b: nat)
    requires |f| >= 6 && IsFlag(bit)
    ensures var ace, flags, rights := AceOf(f), Upper(Strip(f[1])), Upper(Strip(f[2]));
      && (ace.kind.Deny? <==> SaysDeny(f[0]))
      && (Has(ace.flags, bit) <==> exists j :: 0 <= j < |flags| / 2 && Flags(PairAt(flags, j), bit))
      && (IsPairs(rights) ==> (Bits.Bit(ace.mask, b) <==> SomeGrants(rights, b)))
      && ace.trustee == Strip(f[5])
  {
    var flags := Upper(Strip(f[1]));
    KindMeans(f[0]);
    FlagsRead(flags, bit, |flags| / 2);
    if IsPairs(Upper(Strip(f[2]))) { RunMeans(f[2], b); }
  }

  /** The text an entry is written with. */
  lemma EntryWritten(ace: Ace)
    ensures SpellEntry(Flat(FieldsOf(ace))) ==
      "(" + (if ace.kind.Deny? then "D" else "A") + ";" +
      (IfSet(ace.flags, 1, "OI") + IfSet(ace.flags, 2, "CI") + IfSet(ace.flags, 4, "NP") + IfSet(ace.flags, 8, "IO")) +
      ";" + (if ace.understood then RenderRights(ace.mask) else ace.rawRights) + ";;;" + ace.trustee + ")"
  {
    FlagsWritten(ace.flags);
    JoinSix(FieldsOf(ace));
  }

  /** The entries written are those without the inherited mark, each as often as it occurs, ... */
  lemma {:induction false} ExplicitCount(aces: seq<Ace>, ace: Ace)
    ensures multiset(Explicit(aces))[ace] == if ace.flags & 16 == 0 then multiset(aces)[ace] else 0
  {
    if aces != [] {
      ExplicitCount(aces[1..], ace);
      assert aces == [aces[0]] + aces[1..];
    }
  }

  /** ... in their own order. */
  lemma {:induction false} ExplicitSum(a: seq<Ace>, b: seq<Ace>)
    ensures Explicit(a + b) == Explicit(a) + Explicit(b)
  {
    if a != [] {
      ExplicitSum(a[1..], b);
      assert (a + b)[1..] == a[1..] + b;
    } else {
      assert a + b == b;
    }
  }
}
