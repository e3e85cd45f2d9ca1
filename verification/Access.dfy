/** What an account may do: entries folded with denials winning, generic rights expanded,
    and the share's descriptor bounding the file's. */
module Access {
  import opened Rights
  import opened Bits
  import Sddl

  function GenericBits(): nat {
    Or(Or(Or(GENERIC_ALL, GENERIC_READ), GENERIC_WRITE), GENERIC_EXECUTE)
  }

  function WithIf(base: nat, given: bool, more: nat): nat {
    if given then Or(base, more) else base
  }

  function ExpandGeneric(mask: nat): nat {
    var e0 := AndNot(mask, GenericBits());
    var e1 := WithIf(e0, And(mask, GENERIC_ALL) != 0, Or(Or(Or(FILE_ALL_ACCESS, DELETE), WRITE_DAC), WRITE_OWNER));
    var e2 := WithIf(e1, And(mask, GENERIC_READ) != 0, FILE_GENERIC_READ);
    var e3 := WithIf(e2, And(mask, GENERIC_WRITE) != 0, FILE_GENERIC_WRITE);
    WithIf(e3, And(mask, GENERIC_EXECUTE) != 0, FILE_GENERIC_EXECUTE)
  }

  // --- the bits of an expanded mask ---------------------------------------------------

  lemma GenericPowers()
    ensures Pow2(28) == GENERIC_ALL && Pow2(29) == GENERIC_EXECUTE
    ensures Pow2(30) == GENERIC_WRITE && Pow2(31) == GENERIC_READ
  {
    assert Pow2(8) == 0x100;
    assert Pow2(16) == 0x10000;
    assert Pow2(24) == 0x1000000;
  }

  lemma WithIfBit(base: nat, given: bool, more: nat, b: nat)
    ensures Bit(WithIf(base, given, more), b) <==> Bit(base, b) || (given && Bit(more, b))
  {
    OrBit(base, more, b);
  }

  predicate IsGeneric(b: nat) {
    28 <= b <= 31
  }

  lemma GenericBitsAre(b: nat)
    ensures Bit(GenericBits(), b) <==> IsGeneric(b)
  {
    GenericPowers();
    PowerHasOneBit(28, b);
    PowerHasOneBit(29, b);
    PowerHasOneBit(30, b);
    PowerHasOneBit(31, b);
    OrBit(GENERIC_ALL, GENERIC_READ, b);
    OrBit(Or(GENERIC_ALL, GENERIC_READ), GENERIC_WRITE, b);
    OrBit(Or(Or(GENERIC_ALL, GENERIC_READ), GENERIC_WRITE), GENERIC_EXECUTE, b);
  }

  /** The bits full control stands for. */
  predicate InFull(b: nat) {
    Bit(FILE_ALL_ACCESS, b) || Bit(DELETE, b) || Bit(WRITE_DAC, b) || Bit(WRITE_OWNER, b)
  }

  /** A right an entry's mask carries: named outright, or through one of the generic bits. */
  predicate Carries(mask: nat, b: nat) {
    (Bit(mask, b) && !IsGeneric(b)) ||
    (Bit(mask, 28) && InFull(b)) ||
    (Bit(mask, 31) && Bit(FILE_GENERIC_READ, b)) ||
    (Bit(mask, 30) && Bit(FILE_GENERIC_WRITE, b)) ||
    (Bit(mask, 29) && Bit(FILE_GENERIC_EXECUTE, b))
  }

  lemma FullBits(b: nat)
    ensures Bit(Or(Or(Or(FILE_ALL_ACCESS, DELETE), WRITE_DAC), WRITE_OWNER), b) <==> InFull(b)
  {
    OrBit(FILE_ALL_ACCESS, DELETE, b);
    OrBit(Or(FILE_ALL_ACCESS, DELETE), WRITE_DAC, b);
    OrBit(Or(Or(FILE_ALL_ACCESS, DELETE), WRITE_DAC), WRITE_OWNER, b);
  }

  /** Expansion keeps every specific right, replaces every generic one by what it stands
      for, and adds nothing. */
  lemma ExpandBit(mask: nat, b: nat)
    ensures Bit(ExpandGeneric(mask), b) <==> Carries(mask, b)
  {
    GenericPowers();
    AndPower(mask, 28);
    AndPower(mask, 29);
    AndPower(mask, 30);
    AndPower(mask, 31);
    GenericBitsAre(b);
    FullBits(b);
    var e0 := AndNot(mask, GenericBits());
    AndNotBit(mask, GenericBits(), b);
    var full := Or(Or(Or(FILE_ALL_ACCESS, DELETE), WRITE_DAC), WRITE_OWNER);
    var e1 := WithIf(e0, Bit(mask, 28), full);
    WithIfBit(e0, Bit(mask, 28), full, b);
    var e2 := WithIf(e1, Bit(mask, 31), FILE_GENERIC_READ);
    WithIfBit(e1, Bit(mask, 31), FILE_GENERIC_READ, b);
    var e3 := WithIf(e2, Bit(mask, 30), FILE_GENERIC_WRITE);
    WithIfBit(e2, Bit(mask, 30), FILE_GENERIC_WRITE, b);
    WithIfBit(e3, Bit(mask, 29), FILE_GENERIC_EXECUTE, b);
  }

  lemma NoGenericLeft(mask: nat, b: nat)
    requires IsGeneric(b)
    ensures !Carries(mask, b)
  {
    assert Pow2(8) == 0x100;
    assert Pow2(16) == 0x10000;
    assert Pow2(21) == 0x200000;
    BelowPower(FILE_ALL_ACCESS, 21, b);
    BelowPower(DELETE, 21, b);
    BelowPower(WRITE_DAC, 21, b);
    BelowPower(WRITE_OWNER, 21, b);
    BelowPower(FILE_GENERIC_READ, 21, b);
    BelowPower(FILE_GENERIC_WRITE, 21, b);
    BelowPower(FILE_GENERIC_EXECUTE, 21, b);
  }

  /** Each generic right alone stands for these file rights, in numbers. */
  lemma GenericMeans()
    ensures ExpandGeneric(0x80000000) == 0x120089 && ExpandGeneric(0x40000000) == 0x120116
    ensures ExpandGeneric(0x20000000) == 0x1200A0 && ExpandGeneric(0x10000000) == 0x1F01FF
  {
    GenericPowers();
    forall b: nat
      ensures Bit(ExpandGeneric(0x80000000), b) <==> Bit(0x120089, b)
      ensures Bit(ExpandGeneric(0x40000000), b) <==> Bit(0x120116, b)
      ensures Bit(ExpandGeneric(0x20000000), b) <==> Bit(0x1200A0, b)
      ensures Bit(ExpandGeneric(0x10000000), b) <==> Bit(0x1F01FF, b) {
      OneGeneric(31, b);
      OneGeneric(30, b);
      OneGeneric(29, b);
      OneGeneric(28, b);
      FullIsAll(b);
    }
    SameBits(ExpandGeneric(0x80000000), 0x120089);
    SameBits(ExpandGeneric(0x40000000), 0x120116);
    SameBits(ExpandGeneric(0x20000000), 0x1200A0);
    SameBits(ExpandGeneric(0x10000000), 0x1F01FF);
  }

  lemma OneGeneric(k: nat, b: nat)
    requires IsGeneric(k)
    ensures Bit(ExpandGeneric(Pow2(k)), b) <==>
      if k == 28 then InFull(b) else if k == 31 then Bit(FILE_GENERIC_READ, b)
      else if k == 30 then Bit(FILE_GENERIC_WRITE, b) else Bit(FILE_GENERIC_EXECUTE, b)
  {
    ExpandBit(Pow2(k), b);
    PowerHasOneBit(k, b);
    PowerHasOneBit(k, 28);
    PowerHasOneBit(k, 29);
    PowerHasOneBit(k, 30);
    PowerHasOneBit(k, 31);
  }

  /** The rights listed beside full access are among it already. */
  lemma FullIsAll(b: nat)
    ensures InFull(b) <==> Bit(0x1F01FF, b)
  {
    assert Pow2(8) == 0x100 && Pow2(16) == 0x10000 && Pow2(18) == 0x40000 && Pow2(19) == 0x80000;
    PowerHasOneBit(16, b);
    PowerHasOneBit(18, b);
    PowerHasOneBit(19, b);
    HighBit(0x1F01FF, 0);
    HighBit(0x1F01FF, 2);
    HighBit(0x1F01FF, 3);
    assert Bit(0x1F, 0) && Bit(0x1F, 2) && Bit(0x1F, 3);
  }

  lemma HighBit(n: nat, k: nat)
    ensures Bit(n, k + 16) <==> Bit(n / 0x10000, k)
  {
    FourBitsOn(n, k + 12);
    FourBitsOn(n / 16, k + 8);
    FourBitsOn(n / 16 / 16, k + 4);
    FourBitsOn(n / 16 / 16 / 16, k);
  }

  lemma FourBitsOn(n: nat, k: nat)
    ensures Bit(n, k + 4) <==> Bit(n / 16, k)
  {
    assert Bit(n, k + 4) <==> Bit(n / 2, k + 3);
    assert Bit(n / 2, k + 3) <==> Bit(n / 2 / 2, k + 2);
    assert Bit(n / 2 / 2, k + 2) <==> Bit(n / 2 / 2 / 2, k + 1);
    assert n / 2 / 2 / 2 / 2 == n / 16;
  }

  // --- the fold over a descriptor's entries --------------------------------------------

  /** What the first `n` entries of one kind naming `sid` add up to. */
  function Sum(aces: seq<Sddl.Ace>, sid: string, kind: Sddl.Kind, n: nat): nat
    requires n <= |aces|
  {
    if n == 0 then 0
    else if aces[n - 1].trustee == sid && aces[n - 1].kind == kind then
      Or(Sum(aces, sid, kind, n - 1), ExpandGeneric(aces[n - 1].mask))
    else Sum(aces, sid, kind, n - 1)
  }

  function MaskOf(aces: seq<Sddl.Ace>, sid: string): nat {
    AndNot(Sum(aces, sid, Sddl.Allow, |aces|), Sum(aces, sid, Sddl.Deny, |aces|))
  }

  method MaskFor(d: Sddl.Descriptor, sid: string) returns (mask: nat)
    ensures mask == MaskOf(d.aces, sid)
  {
    var allowed, denied, i := 0, 0, 0;
    while i < |d.aces|
      invariant 0 <= i <= |d.aces|
      invariant allowed == Sum(d.aces, sid, Sddl.Allow, i)
      invariant denied == Sum(d.aces, sid, Sddl.Deny, i)
    {
      if d.aces[i].trustee == sid {
        if d.aces[i].kind.Deny? {
          denied := Or(denied, ExpandGeneric(d.aces[i].mask));
        } else {
          allowed := Or(allowed, ExpandGeneric(d.aces[i].mask));
        }
      }
      i := i + 1;
    }
    mask := AndNot(allowed, denied);
  }

  /** Some entry of this kind, naming this account, carries the right. */
  predicate Named(aces: seq<Sddl.Ace>, sid: string, kind: Sddl.Kind, b: nat) {
    exists ace :: ace in aces && ace.trustee == sid && ace.kind == kind && Carries(ace.mask, b)
  }

  /** Allowed by some entry and denied by none, whatever the order. */
  predicate Grants(aces: seq<Sddl.Ace>, sid: string, b: nat) {
    Named(aces, sid, Sddl.Allow, b) && !Named(aces, sid, Sddl.Deny, b)
  }

  lemma {:induction false} SumBit(aces: seq<Sddl.Ace>, sid: string, kind: Sddl.Kind, n: nat, b: nat)
    requires n <= |aces|
    ensures Bit(Sum(aces, sid, kind, n), b) <==> Named(aces[..n], sid, kind, b)
  {
    if n == 0 {
      NoBits(b);
    } else {
      SumBit(aces, sid, kind, n - 1, b);
      var ace := aces[n - 1];
      assert aces[..n] == aces[..n - 1] + [ace];
      OrBit(Sum(aces, sid, kind, n - 1), ExpandGeneric(ace.mask), b);
      ExpandBit(ace.mask, b);
    }
  }

  lemma MaskBit(aces: seq<Sddl.Ace>, sid: string, b: nat)
    ensures Bit(MaskOf(aces, sid), b) <==> Grants(aces, sid, b)
  {
    assert aces[..|aces|] == aces;
    SumBit(aces, sid, Sddl.Allow, |aces|, b);
    SumBit(aces, sid, Sddl.Deny, |aces|, b);
    AndNotBit(Sum(aces, sid, Sddl.Allow, |aces|), Sum(aces, sid, Sddl.Deny, |aces|), b);
  }

  /** The order of the entries, and any repetition among them, makes no difference. */
  lemma OrderIsIrrelevant(xs: seq<Sddl.Ace>, ys: seq<Sddl.Ace>, sid: string)
    requires forall ace :: ace in xs <==> ace in ys
    ensures MaskOf(xs, sid) == MaskOf(ys, sid)
  {
    forall b: nat ensures Bit(MaskOf(xs, sid), b) <==> Bit(MaskOf(ys, sid), b) {
      MaskBit(xs, sid, b);
      MaskBit(ys, sid, b);
    }
    SameBits(MaskOf(xs, sid), MaskOf(ys, sid));
  }

  // --- both levels together ---------------------------------------------------------------

  datatype Effective = Effective(effectiveMask: nat, limitedByShare: bool)

  function EffectiveAccess(shareMask: nat, fileMask: nat): Effective {
    var share, file := ExpandGeneric(shareMask), ExpandGeneric(fileMask);
    Effective(And(share, file), AndNot(file, share) != 0)
  }

  /** A mask the fold produced is already expanded. */
  lemma FoldedIsExpanded(aces: seq<Sddl.Ace>, sid: string)
    ensures ExpandGeneric(MaskOf(aces, sid)) == MaskOf(aces, sid)
  {
    var m := MaskOf(aces, sid);
    forall b: nat ensures IsGeneric(b) ==> !Bit(m, b) {
      MaskBit(aces, sid, b);
      if IsGeneric(b) {
        forall ace | ace in aces ensures !Carries(ace.mask, b) { NoGenericLeft(ace.mask, b); }
      }
    }
    assert !Bit(m, 28) && !Bit(m, 29) && !Bit(m, 30) && !Bit(m, 31);
    forall b: nat ensures Bit(ExpandGeneric(m), b) <==> Bit(m, b) {
      ExpandBit(m, b);
    }
    SameBits(ExpandGeneric(m), m);
  }

  /** The effective mask means what it says: a right is in it exactly when, at both levels,
      some allow entry naming the account carries it and no deny entry does. */
  lemma EffectiveMeans(share: seq<Sddl.Ace>, file: seq<Sddl.Ace>, sid: string, b: nat)
    ensures Bit(EffectiveAccess(MaskOf(share, sid), MaskOf(file, sid)).effectiveMask, b) <==>
      Grants(share, sid, b) && Grants(file, sid, b)
  {
    FoldedIsExpanded(share, sid);
    FoldedIsExpanded(file, sid);
    MaskBit(share, sid, b);
    MaskBit(file, sid, b);
    AndBit(MaskOf(share, sid), MaskOf(file, sid), b);
  }

  /** "Limited by the share" is reported exactly when the answer is smaller than what the
      file's descriptor alone would give. */
  lemma LimitedMeans(share: seq<Sddl.Ace>, file: seq<Sddl.Ace>, sid: string)
    ensures var e := EffectiveAccess(MaskOf(share, sid), MaskOf(file, sid));
      && e.effectiveMask <= MaskOf(file, sid)
      && (e.limitedByShare <==> e.effectiveMask < MaskOf(file, sid))
  {
    FoldedIsExpanded(share, sid);
    FoldedIsExpanded(file, sid);
    var s, f := MaskOf(share, sid), MaskOf(file, sid);
    AndSmaller(f, s);
    forall b: nat ensures Bit(And(s, f), b) <==> Bit(And(f, s), b) {
      AndBit(s, f, b);
      AndBit(f, s, b);
    }
    SameBits(And(s, f), And(f, s));
  }
}
