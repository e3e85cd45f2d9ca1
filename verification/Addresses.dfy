/** Dotted-quad addresses and networks (section 3.1 of RFC 4632), with the reading rules
    of Python's `ipaddress`. Colon-separated addresses are left to the caller's library. */
module Addresses {
  import opened Outcomes
  import opened Text
  import opened Bits
  import Numerals

  /** What the address library says about texts with colons in them. */
  datatype Ipv6 = Ipv6(address: string -> Option<nat>, network: string -> Option<nat>, within: (nat, nat) -> bool)

  datatype Ip = V4(bits: nat) | V6(id: nat)

  datatype Net = Net4(base: nat, length: nat) | Net6(net: nat)

  predicate AllDigits(s: string) {
    forall i :: 0 <= i < |s| ==> IsDigit(s[i])
  }

  /** One octet: one to three digits, no zero in front, at most 255. */
  predicate IsOctet(s: string) {
    Numerals.Canonical(s) && |s| <= 3 && Numerals.ValueOf(s, 10) <= 255
  }

  function Octet(s: string): nat {
    Numerals.ValueOf(s, 10)
  }

  function ReadV4(text: string): Option<nat> {
    var parts := Split(text, '.');
    if |parts| == 4 && forall i :: 0 <= i < 4 ==> IsOctet(parts[i]) then
      Some(((Octet(parts[0]) * 256 + Octet(parts[1])) * 256 + Octet(parts[2])) * 256 + Octet(parts[3]))
    else None
  }

  function ReadAddress(lib: Ipv6, text: string): Option<Ip> {
    match ReadV4(text)
    case Some(bits) => Some(V4(bits))
    case None =>
      if ':' !in text then None
      else match lib.address(text) case Some(id) => Some(V6(id)) case None => None
  }

  /** The length `k` up to `n` whose leading-ones mask is `mask`, if any. */
  function LengthOfMask(mask: nat, n: nat): Option<nat>
    requires n <= 32
  {
    if mask == Pow2(32) - Pow2(32 - n) then Some(n)
    else if n == 0 then None
    else LengthOfMask(mask, n - 1)
  }

  /** A prefix length in digits, a mask of leading ones, or the inverse of one. */
  function ReadLength(text: string): Option<nat> {
    if text != "" && AllDigits(text) && Numerals.ValueOf(text, 10) <= 32 then Some(Numerals.ValueOf(text, 10))
    else
      match ReadV4(text)
      case None => None
      case Some(mask) =>
        match LengthOfMask(mask, 32)
        case Some(n) => Some(n)
        case None => if mask < Pow2(32) then LengthOfMask(Pow2(32) - 1 - mask, 32) else None
  }

  function ReadV4Network(text: string): Option<Net> {
    var parts := Split(text, '/');
    if |parts| > 2 || ReadV4(parts[0]).None? then None
    else
      var length := if |parts| == 2 then ReadLength(parts[1]) else Some(32);
      if length.Some? then Some(Net4(ReadV4(parts[0]).value, length.value)) else None
  }

  function ReadNetwork(lib: Ipv6, text: string): Option<Net> {
    match ReadV4Network(text)
    case Some(net) => Some(net)
    case None =>
      if ':' !in text then None
      else match lib.network(text) case Some(net) => Some(Net6(net)) case None => None
  }

  /** The leading `length` of 32 bits are the same. */
  predicate Agree(a: nat, b: nat, length: nat)
    requires length <= 32
  {
    a / Pow2(32 - length) == b / Pow2(32 - length)
  }

  /** Membership compares the leading `length` bits; the host bits of the base are ignored. */
  predicate Within(lib: Ipv6, ip: Ip, net: Net) {
    match (ip, net)
    case (V4(bits), Net4(base, length)) =>
      length <= 32 && Agree(bits, base, length)
    case (V6(id), Net6(n)) => lib.within(id, n)
    case _ => false
  }

  // --- octet prefixes -------------------------------------------------------------------

  lemma OctetsInjective(a: string, b: string)
    requires IsOctet(a) && IsOctet(b)
    ensures Octet(a) == Octet(b) <==> a == b
  {
    Numerals.CanonicalNumeral(a);
    Numerals.CanonicalNumeral(b);
  }

  predicate NoDots(parts: seq<string>) {
    forall i :: 0 <= i < |parts| ==> '.' !in parts[i]
  }

  /** A text of dot-joined parts starts with `head.` exactly when its first part is `head`. */
  lemma StartsWithPart(head: string, more: string, first: string, rest: string)
    requires '.' !in head && '.' !in first
    ensures head + "." + more <= first + "." + rest <==> head == first && more <= rest
  {
    var a, b := head + "." + more, first + "." + rest;
    FirstDot(head, more);
    FirstDot(first, rest);
    if a <= b {
      assert forall k :: 0 <= k < |a| ==> a[k] == b[k];
      IndexOfIs(b, '.', |head|);
      assert a[..|head|] == head && b[..|head|] == first;
      assert a[|head| + 1..] == more && b[|head| + 1..] == rest;
    }
    if head == first && more <= rest {
      assert rest == more + rest[|more|..];
      assert b == a + rest[|more|..];
    }
  }

  lemma FirstDot(head: string, more: string)
    requires '.' !in head
    ensures var a := head + "." + more; IndexOf(a, '.') == |head| && forall k :: 0 <= k < |head| ==> a[k] != '.'
  {
    var a := head + "." + more;
    forall k | 0 <= k < |head| ensures a[k] != '.' {
      assert head[k] in head;
    }
    IndexOfIs(a, '.', |head|);
  }

  /** The prefix text of a list of octets: each followed by a dot. */
  function Dotted(octets: seq<string>): string {
    if octets == [] then "" else octets[0] + "." + Dotted(octets[1..])
  }

  lemma {:induction false} PrefixIsFirstParts(octets: seq<string>, parts: seq<string>)
    requires NoDots(octets) && NoDots(parts) && |octets| < |parts|
    ensures Dotted(octets) <= Join(parts, '.') <==> octets == parts[..|octets|]
  {
    if octets != [] {
      var tail := parts[1..];
      assert NoDots(octets[1..]) && NoDots(tail);
      assert '.' !in octets[0] && '.' !in parts[0];
      StartsWithPart(octets[0], Dotted(octets[1..]), parts[0], Join(tail, '.'));
      PrefixIsFirstParts(octets[1..], tail);
      assert parts[..|octets|] == [parts[0]] + tail[..|octets| - 1];
      assert octets == [octets[0]] + octets[1..];
    }
  }

  /** Leading bits of two quads agree, at a whole number of octets, exactly when those octets do. */
  lemma LeadingOctets(a: seq<nat>, b: seq<nat>, k: nat)
    requires |a| == 4 && |b| == 4 && 1 <= k <= 3
    requires forall i :: 0 <= i < 4 ==> a[i] <= 255 && b[i] <= 255
    ensures Agree(Quad(a), Quad(b), 8 * k) <==> a[..k] == b[..k]
  {
    Powers();
    assert a[..1] == [a[0]] && b[..1] == [b[0]];
    assert a[..2] == [a[0], a[1]] && b[..2] == [b[0], b[1]];
    assert a[..3] == [a[0], a[1], a[2]] && b[..3] == [b[0], b[1], b[2]];
    HighOctets(a);
    HighOctets(b);
  }

  lemma HighOctets(o: seq<nat>)
    requires |o| == 4 && forall i :: 0 <= i < 4 ==> o[i] <= 255
    ensures Quad(o) / 0x1000000 == o[0]
    ensures Quad(o) / 0x10000 == o[0] * 256 + o[1]
    ensures Quad(o) / 0x100 == (o[0] * 256 + o[1]) * 256 + o[2]
  {
  }

  function Quad(o: seq<nat>): nat
    requires |o| == 4
  {
    ((o[0] * 256 + o[1]) * 256 + o[2]) * 256 + o[3]
  }

  lemma Powers()
    ensures Pow2(8) == 0x100 && Pow2(16) == 0x10000 && Pow2(24) == 0x1000000
  {
    assert Pow2(4) == 16;
    assert Pow2(12) == 4096;
    assert Pow2(20) == 1048576;
  }
}
