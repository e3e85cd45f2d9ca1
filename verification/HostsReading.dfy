/** The reading of an entry is what its text says: for every text and every address. */
module HostsReading {
  import opened Outcomes
  import opened Text
  import opened Bits
  import opened Addresses
  import opened Hosts
  import opened HostsMeaning
  import Numerals

  // --- dotted quads ------------------------------------------------------------------------

  lemma ByteText(n: nat)
    requires n <= 255
    ensures IsOctet(Numerals.Numeral(n, 10)) && Octet(Numerals.Numeral(n, 10)) == n
  {
    Numerals.NumeralCanonical(n);
    Numerals.NumeralLength(n);
    Numerals.ValueOfNumeral(n, 10);
  }

  lemma OctetText(s: string)
    requires IsOctet(s)
    ensures Octet(s) <= 255 && Numerals.Numeral(Octet(s), 10) == s
    ensures s != "" && '.' !in s && '/' !in s && ':' !in s && forall i :: 0 <= i < |s| ==> IsDigit(s[i])
  {
    Numerals.CanonicalNumeral(s);
  }

  lemma FourJoined(a: string, b: string, c: string, d: string)
    ensures Join([a, b, c, d], '.') == a + "." + b + "." + c + "." + d
  {
    assert [a, b, c, d][1..] == [b, c, d] && [b, c, d][1..] == [c, d] && [c, d][1..] == [d];
    assert Join([c, d], '.') == c + "." + d;
    assert Join([b, c, d], '.') == b + "." + (c + "." + d);
  }

  function Texts4(o: seq<nat>): seq<string>
    requires |o| == 4
  {
    [Numerals.Numeral(o[0], 10), Numerals.Numeral(o[1], 10), Numerals.Numeral(o[2], 10), Numerals.Numeral(o[3], 10)]
  }

  lemma QuadSplits(o: seq<nat>)
    requires AreBytes(o)
    ensures Split(SpellQuad(o), '.') == Texts4(o)
  {
    var texts := Texts4(o);
    ByteText(o[0]);
    ByteText(o[1]);
    ByteText(o[2]);
    ByteText(o[3]);
    FourJoined(texts[0], texts[1], texts[2], texts[3]);
    forall p | p in texts ensures '.' !in p { OctetText(p); }
    SplitJoin(texts, '.');
  }

  /** Every spelled quad is read, as the number it spells. */
  lemma QuadRead(t: string, o: seq<nat>)
    requires Quads(t, o)
    ensures ReadV4(t) == Some(QuadBits(o)) && '/' !in t && ':' !in t
  {
    QuadSplits(o);
    ByteText(o[0]);
    ByteText(o[1]);
    ByteText(o[2]);
    ByteText(o[3]);
    QuadChars(o);
  }

  lemma QuadChars(o: seq<nat>)
    requires AreBytes(o)
    ensures '/' !in SpellQuad(o) && ':' !in SpellQuad(o)
    ensures SpellQuad(o) != "" && IsDigit(SpellQuad(o)[0]) && IsDigit(SpellQuad(o)[|SpellQuad(o)| - 1])
  {
    ByteText(o[0]);
    ByteText(o[1]);
    ByteText(o[2]);
    ByteText(o[3]);
    OctetText(Numerals.Numeral(o[0], 10));
    OctetText(Numerals.Numeral(o[1], 10));
    OctetText(Numerals.Numeral(o[2], 10));
    OctetText(Numerals.Numeral(o[3], 10));
  }

  /** Only spelled quads are read as quads. */
  lemma ReadIsQuad(t: string)
    requires ReadV4(t).Some?
    ensures exists o :: Quads(t, o)
  {
    var parts := Split(t, '.');
    JoinSplit(t, '.');
    OctetText(parts[0]);
    OctetText(parts[1]);
    OctetText(parts[2]);
    OctetText(parts[3]);
    FourJoined(parts[0], parts[1], parts[2], parts[3]);
    assert parts == [parts[0], parts[1], parts[2], parts[3]];
    var o := [Octet(parts[0]), Octet(parts[1]), Octet(parts[2]), Octet(parts[3])];
    assert Quads(t, o);
  }

  lemma QuadIff(t: string)
    ensures ReadV4(t).Some? <==> IsQuadText(t)
  {
    if ReadV4(t).Some? { ReadIsQuad(t); }
    if IsQuadText(t) {
      var o :| Quads(t, o);
      QuadRead(t, o);
    }
  }

  lemma BytesFromBits(o: seq<nat>)
    requires AreBytes(o)
    ensures QuadBits(o) / 0x1000000 == o[0] && QuadBits(o) / 0x10000 % 0x100 == o[1]
    ensures QuadBits(o) / 0x100 % 0x100 == o[2] && QuadBits(o) % 0x100 == o[3]
    ensures QuadBits(o) < 0x1_0000_0000
  {
    var h := o[0] * 256 + o[1];
    assert QuadBits(o) / 0x100 == h * 256 + o[2];
    assert QuadBits(o) / 0x10000 == h;
  }

  lemma SameBytes(o: seq<nat>, p: seq<nat>)
    requires AreBytes(o) && AreBytes(p) && QuadBits(o) == QuadBits(p)
    ensures o == p
  {
    BytesFromBits(o);
    BytesFromBits(p);
    assert o == [o[0], o[1], o[2], o[3]] && p == [p[0], p[1], p[2], p[3]];
  }

  /** Different quads are different numbers. */
  lemma SameQuads(a: string, b: string)
    requires IsQuadText(a) && IsQuadText(b)
    ensures ReadV4(a) == ReadV4(b) <==> a == b
  {
    var o :| Quads(a, o);
    var p :| Quads(b, p);
    QuadRead(a, o);
    QuadRead(b, p);
    if QuadBits(o) == QuadBits(p) { SameBytes(o, p); }
  }

  // --- networks ------------------------------------------------------------------------------

  lemma TopPower()
    ensures Pow2(32) == 0x1_0000_0000
  {
    Powers();
    assert Pow2(28) == 0x1000_0000;
  }

  lemma {:induction false} LengthOfMaskIff(mask: nat, n: nat, k: nat)
    requires n <= 32
    ensures LengthOfMask(mask, n) == Some(k) <==> k <= n && mask == Pow2(32) - Pow2(32 - k)
  {
    if k < n { PowerGrows(32 - n, 32 - k); }
    if n < k <= 32 { PowerGrows(32 - k, 32 - n); }
    if n > 0 { LengthOfMaskIff(mask, n - 1, k); }
  }

  lemma {:induction false} PowerGrows(a: nat, b: nat)
    requires a < b
    ensures Pow2(a) < Pow2(b) && Pow2(a) >= 1
  {
    if a > 0 { PowerGrows(a - 1, b - 1); } else if b > 1 { PowerGrows(0, b - 1); }
  }

  lemma {:induction false} PowerIsEven(k: nat)
    requires k >= 1
    ensures Pow2(k) % 2 == 0
  {
  }

  /** A mask of leading ones is never one of trailing ones, but for all or none. */
  lemma OneKindOfMask(n: nat, k: nat)
    requires 0 < n < 32 && k <= 32
    ensures Pow2(32 - n) - 1 != Pow2(32) - Pow2(32 - k)
  {
    PowerIsEven(32 - n);
    PowerIsEven(32);
    if k < 32 {
      PowerIsEven(32 - k);
    } else {
      PowerGrows(32 - n, 32);
    }
  }

  /** The length a mask gives: as one of leading ones, else as the inverse of one. */
  function MaskLength(mask: nat): Option<nat>
    requires mask < Pow2(32)
  {
    match LengthOfMask(mask, 32) case Some(k) => Some(k) case None => LengthOfMask(Pow2(32) - 1 - mask, 32)
  }

  lemma MaskRead(mask: nat, n: nat)
    requires mask < Pow2(32)
    ensures MaskLength(mask) == Some(n) <==> n <= 32 && MaskMeans(mask, n)
  {
    TopPower();
    LengthOfMaskIff(mask, 32, n);
    LengthOfMaskIff(Pow2(32) - 1 - mask, 32, n);
    if LengthOfMask(mask, 32).Some? {
      var k := LengthOfMask(mask, 32).value;
      LengthOfMaskIff(mask, 32, k);
      if 0 < n < 32 { OneKindOfMask(n, k); }
    } else if n == 0 {
      LengthOfMaskIff(mask, 32, 32);
    } else if n == 32 {
      LengthOfMaskIff(mask, 32, 0);
    }
  }

  lemma QuadHasDot(t: string)
    requires IsQuadText(t)
    ensures '.' in t
  {
    var o :| Quads(t, o);
    assert t[|Numerals.Numeral(o[0], 10)|] == '.';
  }

  lemma MaskIsRead(l: string, mask: nat)
    requires '.' in l && ReadV4(l) == Some(mask) && mask < Pow2(32)
    ensures ReadLength(l) == MaskLength(mask)
  {
  }

  lemma ReadAsMask(l: string, m: seq<nat>)
    requires Quads(l, m)
    ensures QuadBits(m) < Pow2(32) && ReadLength(l) == MaskLength(QuadBits(m))
  {
    assert IsQuadText(l);
    QuadHasDot(l);
    QuadRead(l, m);
    BytesFromBits(m);
    TopPower();
    MaskIsRead(l, QuadBits(m));
  }

  lemma MaskTextIff(l: string, m: seq<nat>, n: nat)
    requires Quads(l, m)
    ensures ReadLength(l) == Some(n) <==> n <= 32 && MaskMeans(QuadBits(m), n)
  {
    ReadAsMask(l, m);
    MaskRead(QuadBits(m), n);
  }

  lemma MaskMeaning(l: string, m: seq<nat>, n: nat)
    requires Quads(l, m)
    ensures LengthMeans(l, n) <==> n <= 32 && MaskMeans(QuadBits(m), n)
  {
    assert IsQuadText(l);
    QuadHasDot(l);
    forall k | Quads(l, k) ensures QuadBits(k) == QuadBits(m) {
      QuadRead(l, k);
      QuadRead(l, m);
    }
  }

  /** Lengths are read as they are meant: in digits, or as either kind of mask. */
  lemma LengthIff(l: string, n: nat)
    ensures ReadLength(l) == Some(n) <==> LengthMeans(l, n)
  {
    QuadIff(l);
    if IsQuadText(l) {
      var m :| Quads(l, m);
      MaskTextIff(l, m, n);
      MaskMeaning(l, m, n);
    } else {
      assert forall m :: !Quads(l, m);
    }
  }

  lemma LengthHasNoSlash(l: string, n: nat)
    requires LengthMeans(l, n)
    ensures '/' !in l && ':' !in l && l != "" && IsDigit(l[|l| - 1])
  {
    if m :| Quads(l, m) {
      QuadRead(l, m);
      QuadChars(m);
    }
  }

  lemma SlashSplits(a: string, l: string)
    requires '/' !in a && '/' !in l
    ensures Split(a + "/" + l, '/') == [a, l]
  {
    var halves := [a, l];
    assert halves[1..] == [l];
    assert Join(halves, '/') == a + "/" + l;
    SplitJoin(halves, '/');
  }

  lemma NetRead(t: string, o: seq<nat>, n: nat)
    requires NetworkOf(t, o, n)
    ensures ReadV4Network(t) == Some(Net4(QuadBits(o), n)) && '/' in t && ':' !in t
  {
    var l :| LengthMeans(l, n) && t == SpellQuad(o) + "/" + l;
    assert Quads(SpellQuad(o), o);
    QuadRead(SpellQuad(o), o);
    LengthHasNoSlash(l, n);
    SlashSplits(SpellQuad(o), l);
    LengthIff(l, n);
    assert t[|SpellQuad(o)|] == '/';
  }

  lemma ReadIsNet(t: string)
    requires ReadV4Network(t).Some? && '/' in t
    ensures exists o, n :: NetworkOf(t, o, n)
  {
    var parts := Split(t, '/');
    JoinSplit(t, '/');
    assert IndexOf(t, '/') < |t|;
    assert |parts| == 2;
    ReadIsQuad(parts[0]);
    var o :| Quads(parts[0], o);
    var n := ReadLength(parts[1]).value;
    LengthIff(parts[1], n);
    assert parts == [parts[0], parts[1]] && parts[1..] == [parts[1]];
    assert NetworkOf(t, o, n);
  }

  lemma UnslashedIsNoNet(t: string)
    requires '/' !in t
    ensures ReadV4Network(t).Some? <==> ReadV4(t).Some?
  {
    WholeSplit(t, '/');
  }

  lemma WholeSplit(s: string, c: char)
    requires c !in s
    ensures Split(s, c) == [s]
  {
    IndexOfIs(s, c, |s|);
  }

  /** Behind a slash, exactly the spelled networks are read as networks. */
  lemma NetIff(t: string)
    requires ReadV4(t).None?
    ensures ReadV4Network(t).Some? <==> IsNetText(t)
  {
    if '/' !in t { UnslashedIsNoNet(t); }
    if ReadV4Network(t).Some? { ReadIsNet(t); }
    if IsNetText(t) {
      var o, n :| NetworkOf(t, o, n);
      NetRead(t, o, n);
    }
  }

  // --- leading bits --------------------------------------------------------------------------------

  /** The number without its lowest `m` bits. */
  function High(a: nat, m: nat): nat {
    NotNegative(a, Pow2(m));
    a / Pow2(m)
  }

  lemma {:induction false} DivBit(a: nat, m: nat, j: nat)
    ensures Bit(High(a, m), j) <==> Bit(a, m + j)
  {
    if m > 0 {
      DivTwice(a, Pow2(m - 1));
      DivBit(a / 2, m - 1, j);
    }
  }

  lemma DivTwice(a: nat, p: nat)
    requires p > 0
    ensures a / (2 * p) == a / 2 / p
  {
    NotNegative(a / 2, p);
    var q, r := a / 2 / p, a / 2 % p;
    assert a / 2 == q * p + r;
    var s := 2 * r + a % 2;
    assert a == q * (2 * p) + s && 0 <= s < 2 * p;
    QuotientIs(a, 2 * p, q, s);
  }

  lemma {:induction false} TimesGrows(x: nat, y: nat, d: nat)
    requires x <= y
    ensures x * d <= y * d
  {
    if x < y {
      TimesGrows(x, y - 1, d);
      assert y * d == (y - 1) * d + d;
    }
  }

  lemma NotNegative(a: nat, d: nat)
    requires d > 0
    ensures a / d >= 0
  {
    NotBelow(a / d, a % d, d);
  }

  lemma NotBelow(q: int, r: nat, d: nat)
    requires r < d && q * d + r >= 0
    ensures q >= 0
  {
    if q < 0 {
      assert q * d == -(-q * d);
      TimesGrows(1, -q, d);
    }
  }

  lemma NotMore(q: nat, r: nat, k: nat, t: nat, d: nat)
    requires q * d + r == k * d + t && t < d
    ensures q <= k
  {
    assert (k + 1) * d == k * d + d;
    if q > k { TimesGrows(k + 1, q, d); }
  }

  lemma QuotientIs(a: nat, d: nat, q: nat, r: nat)
    requires d > 0 && a == q * d + r && r < d
    ensures a / d == q
  {
    NotNegative(a, d);
    var k := a / d;
    assert a == k * d + a % d;
    NotMore(q, r, k, a % d, d);
    NotMore(k, a % d, q, r, d);
  }

  lemma SameQuotientBit(a: nat, b: nat, m: nat, j: nat)
    requires m <= 32 && a < Pow2(32) && b < Pow2(32)
    requires forall k :: m <= k < 32 ==> (Bit(a, k) <==> Bit(b, k))
    ensures Bit(High(a, m), j) <==> Bit(High(b, m), j)
  {
    DivBit(a, m, j);
    DivBit(b, m, j);
    if m + j >= 32 {
      BelowPower(a, 32, m + j);
      BelowPower(b, 32, m + j);
    }
  }

  lemma AgreeingQuotients(a: nat, b: nat, m: nat, x: nat, y: nat)
    requires m <= 32 && a < Pow2(32) && b < Pow2(32) && x == High(a, m) && y == High(b, m)
    requires forall k :: m <= k < 32 ==> (Bit(a, k) <==> Bit(b, k))
    ensures x == y
  {
    forall j: nat ensures Bit(x, j) <==> Bit(y, j) { SameQuotientBit(a, b, m, j); }
    SameBits(x, y);
  }

  lemma QuotientsAgreeing(a: nat, b: nat, m: nat, k: nat)
    requires m <= k && High(a, m) == High(b, m)
    ensures Bit(a, k) <==> Bit(b, k)
  {
    DivBit(a, m, k - m);
    DivBit(b, m, k - m);
  }

  /** Leading bits agree, as quotients, exactly when they agree one by one. */
  lemma AgreeIff(a: nat, b: nat, n: nat)
    requires n <= 32 && a < 0x1_0000_0000 && b < 0x1_0000_0000
    ensures Agree(a, b, n) <==> LeadingBitsAgree(a, b, n)
  {
    TopPower();
    if Agree(a, b, n) {
      forall k | 0 <= k < 32 && 32 - n <= k ensures Bit(a, k) <==> Bit(b, k) {
        QuotientsAgreeing(a, b, 32 - n, k);
      }
    }
    if LeadingBitsAgree(a, b, n) { AgreeingQuotients(a, b, 32 - n, High(a, 32 - n), High(b, 32 - n)); }
  }

  lemma HoldsIff(t: string, address: string, p: seq<nat>, n: nat, o: seq<nat>)
    requires NetworkOf(t, p, n) && Quads(address, o)
    ensures NetHolds(t, address) <==> Agree(QuadBits(o), QuadBits(p), n)
  {
    NetRead(t, p, n);
    QuadRead(address, o);
    BytesFromBits(p);
    BytesFromBits(o);
    AgreeIff(QuadBits(p), QuadBits(o), n);
    if NetHolds(t, address) {
      var q, k, u :| NetworkOf(t, q, k) && Quads(address, u) && LeadingBitsAgree(QuadBits(q), QuadBits(u), k);
      NetRead(t, q, k);
      QuadRead(address, u);
    }
  }

  // --- prefixes --------------------------------------------------------------------------------------

  lemma {:induction false} DottedIsJoin(octets: seq<string>)
    requires octets != []
    ensures Dotted(octets) == Join(octets + [""], '.')
  {
    assert (octets + [""])[1..] == octets[1..] + [""];
    if |octets| == 1 {
      assert Dotted(octets[1..]) == "";
      assert octets[1..] + [""] == [""];
    } else {
      DottedIsJoin(octets[1..]);
    }
  }

  lemma PrefixIff(t: string)
    ensures IsPrefix(t) <==> IsPrefixText(t)
  {
    var all := Split(t, '.');
    JoinSplit(t, '.');
    if IsPrefix(t) {
      var parts := all[..|all| - 1];
      assert all == parts + [""];
      DottedIsJoin(parts);
      assert PrefixOf(t, parts);
    }
    if IsPrefixText(t) {
      var parts :| PrefixOf(t, parts);
      DottedIsJoin(parts);
      forall p | p in parts + [""] ensures '.' !in p {
        if p != "" {
          var i :| 0 <= i < |parts| && parts[i] == p;
          assert IsShort(parts[i]);
        }
      }
      SplitJoin(parts + [""], '.');
    }
  }

  // --- entries ------------------------------------------------------------------------------------------

  lemma ReadableIff(lib: Ipv6, t: string)
    ensures ReadAddress(lib, t).Some? <==> IsQuadText(t) || IsV6(lib, t)
    ensures IsQuadText(t) ==> ':' !in t && ReadAddress(lib, t) == Some(V4(ReadV4(t).value))
    ensures !IsQuadText(t) && IsV6(lib, t) ==> ReadAddress(lib, t) == Some(V6(lib.address(t).value))
  {
    QuadIff(t);
    if IsQuadText(t) {
      var o :| Quads(t, o);
      QuadRead(t, o);
    }
  }

  /** Entries of the kinds that compare addresses. */
  lemma AddressMeans(lib: Ipv6, t: string, address: string)
    requires ReadAddress(lib, t).Some? && ReadAddress(lib, address).Some?
    ensures ReadAddress(lib, t) == ReadAddress(lib, address) <==>
      if IsQuadText(t) then t == address else IsV6(lib, address) && lib.address(t) == lib.address(address)
  {
    ReadableIff(lib, t);
    ReadableIff(lib, address);
    QuadIff(t);
    QuadIff(address);
    if IsQuadText(t) && IsQuadText(address) { SameQuads(t, address); }
  }

  lemma NetworkMeans(lib: Ipv6, t: string, address: string)
    requires ReadAddress(lib, t).None? && ReadNetwork(lib, t).Some? && ReadAddress(lib, address).Some?
    ensures Within(lib, ReadAddress(lib, address).value, ReadNetwork(lib, t).value) <==>
      if IsNetText(t) then NetHolds(t, address)
      else IsV6(lib, address) && lib.network(t).Some? && lib.within(lib.address(address).value, lib.network(t).value)
    ensures IsNetText(t) || (':' in t && lib.network(t).Some?)
  {
    ReadableIff(lib, t);
    ReadableIff(lib, address);
    QuadIff(t);
    QuadIff(address);
    NetIff(t);
    if IsNetText(t) {
      var p, n :| NetworkOf(t, p, n);
      NetRead(t, p, n);
      if IsQuadText(address) {
        var o :| Quads(address, o);
        QuadRead(address, o);
        HoldsIff(t, address, p, n, o);
      }
    }
  }

  lemma KindsRead(lib: Ipv6, t: string)
    ensures ReadAddress(lib, t).Some? <==> IsQuadText(t) || IsV6(lib, t)
    ensures ReadAddress(lib, t).None? ==>
      (ReadNetwork(lib, t).Some? <==> IsNetText(t) || (':' in t && lib.network(t).Some?))
  {
    ReadableIff(lib, t);
    QuadIff(t);
    if ReadV4(t).None? { NetIff(t); }
  }

  predicate IsKeyword(t: string) {
    Upper(t) == "ALL" || IsOpenWord(t)
  }

  lemma PrefixCase(lib: Ipv6, t: string, address: string)
    requires !IsKeyword(t) && ReadAddress(lib, address).Some? && IsPrefix(t)
    ensures Covers(lib, HostEntry(t, KindOf(lib, t)), address) == Some(t <= address)
  {
  }

  lemma AddressCase(lib: Ipv6, t: string, address: string)
    requires !IsKeyword(t) && ReadAddress(lib, address).Some? && !IsPrefix(t) && ReadAddress(lib, t).Some?
    ensures Covers(lib, HostEntry(t, KindOf(lib, t)), address) ==
      Some(if IsQuadText(t) then t == address else IsV6(lib, address) && lib.address(t) == lib.address(address))
  {
    AddressMeans(lib, t, address);
  }

  lemma NetworkCase(lib: Ipv6, t: string, address: string)
    requires !IsKeyword(t) && ReadAddress(lib, address).Some? && !IsPrefix(t)
    requires ReadAddress(lib, t).None? && ReadNetwork(lib, t).Some?
    ensures Covers(lib, HostEntry(t, KindOf(lib, t)), address) ==
      Some(Within(lib, ReadAddress(lib, address).value, ReadNetwork(lib, t).value))
  {
  }

  lemma OpenCase(lib: Ipv6, t: string, address: string)
    requires !IsKeyword(t) && !IsPrefix(t) && ReadAddress(lib, t).None? && ReadNetwork(lib, t).None?
    ensures Covers(lib, HostEntry(t, KindOf(lib, t)), address) == None
  {
  }

  lemma TextMeans(lib: Ipv6, t: string, address: string)
    requires !IsKeyword(t) && ReadAddress(lib, address).Some?
    ensures Covers(lib, HostEntry(t, KindOf(lib, t)), address) == Says(lib, t, address)
  {
    PrefixIff(t);
    KindsRead(lib, t);
    KindsRead(lib, address);
    if IsPrefix(t) {
      PrefixCase(lib, t, address);
    } else if ReadAddress(lib, t).Some? {
      AddressCase(lib, t, address);
    } else if ReadNetwork(lib, t).Some? {
      NetworkMeans(lib, t, address);
      NetworkCase(lib, t, address);
    } else {
      OpenCase(lib, t, address);
    }
  }

  /** The reading of an entry is what its text says, for every text and every address. */
  lemma CoversMeans(lib: Ipv6, text: string, address: string)
    ensures Covers(lib, ParseEntry(lib, text), address) == Says(lib, Strip(text), address)
  {
    KindsRead(lib, address);
    if ReadAddress(lib, address).Some? && !IsKeyword(Strip(text)) { TextMeans(lib, Strip(text), address); }
  }

  // --- what this gives for texts as they are written ----------------------------------------------

  lemma DigitStarts(t: string)
    requires t != "" && IsDigit(t[0]) && IsDigit(t[|t| - 1])
    ensures Strip(t) == t && !IsKeyword(t) && !IsPrefixText(t)
  {
    StripTrimmed(t);
    assert Upper(t)[0] == t[0];
    forall parts | PrefixOf(t, parts) ensures false { DottedEnds(parts); }
  }

  lemma {:induction false} DottedEnds(parts: seq<string>)
    requires parts != []
    ensures Dotted(parts) != "" && Dotted(parts)[|Dotted(parts)| - 1] == '.'
  {
    if |parts| > 1 { DottedEnds(parts[1..]); }
  }

  /** A dotted quad takes in a dotted quad exactly when they are the same. */
  lemma QuadDecides(lib: Ipv6, a: string, b: string)
    requires IsQuadText(a) && IsQuadText(b)
    ensures Covers(lib, ParseEntry(lib, a), b) == Some(a == b)
  {
    var o :| Quads(a, o);
    QuadChars(o);
    DigitStarts(a);
    CoversMeans(lib, a, b);
  }

  /** A network of any length takes in a dotted quad exactly when that many leading bits agree,
      one by one; the length may be spelled in digits or as either kind of mask. */
  lemma NetworkDecides(lib: Ipv6, t: string, p: seq<nat>, n: nat, b: string, o: seq<nat>)
    requires NetworkOf(t, p, n) && Quads(b, o)
    ensures Covers(lib, ParseEntry(lib, t), b) == Some(LeadingBitsAgree(QuadBits(p), QuadBits(o), n))
  {
    var l :| LengthMeans(l, n) && t == SpellQuad(p) + "/" + l;
    QuadChars(p);
    LengthHasNoSlash(l, n);
    DigitStarts(t);
    CoversMeans(lib, t, b);
    NetRead(t, p, n);
    NotQuad(t);
    NetHoldsIff(t, p, n, b, o);
  }

  lemma NotQuad(t: string)
    requires '/' in t
    ensures !IsQuadText(t)
  {
    forall o | Quads(t, o) ensures false { QuadRead(t, o); }
  }

  lemma NetHoldsIff(t: string, p: seq<nat>, n: nat, b: string, o: seq<nat>)
    requires NetworkOf(t, p, n) && Quads(b, o)
    ensures NetHolds(t, b) <==> LeadingBitsAgree(QuadBits(p), QuadBits(o), n)
  {
    HoldsIff(t, b, p, n, o);
    BytesFromBits(p);
    BytesFromBits(o);
    AgreeIff(QuadBits(p), QuadBits(o), n);
  }

  /** Which texts decide about a dotted quad: ALL, prefixes, addresses and networks; every other
      text, and so every name, LOCAL and every netgroup, is open. */
  lemma DecidesIff(lib: Ipv6, text: string, b: string)
    requires IsQuadText(b)
    ensures var t := Strip(text);
      Covers(lib, ParseEntry(lib, text), b).Some? <==>
      Upper(t) == "ALL" ||
      (!IsOpenWord(t) && (IsPrefixText(t) || IsQuadText(t) || IsNetText(t) ||
                          (':' in t && (lib.address(t).Some? || lib.network(t).Some?))))
  {
    CoversMeans(lib, text, b);
  }
}
