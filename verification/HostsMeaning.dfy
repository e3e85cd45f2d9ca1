/** What a hosts list means, from its text alone: which entries decide about an address and how,
    which are open, and when Samba admits an address. */
module HostsMeaning {
  import opened Outcomes
  import opened Text
  import opened Bits
  import opened Addresses
  import Numerals

  // --- addresses and networks as they are spelled -----------------------------------------

  predicate AreBytes(o: seq<nat>) {
    |o| == 4 && forall i :: 0 <= i < 4 ==> o[i] <= 255
  }

  /** Four numbers with dots between them. */
  function SpellQuad(o: seq<nat>): string
    requires |o| == 4
  {
    Numerals.Numeral(o[0], 10) + "." + Numerals.Numeral(o[1], 10) + "." +
    Numerals.Numeral(o[2], 10) + "." + Numerals.Numeral(o[3], 10)
  }

  /** The 32 bits of an address, the first byte highest. */
  function QuadBits(o: seq<nat>): nat
    requires |o| == 4
  {
    o[0] * 0x1000000 + o[1] * 0x10000 + o[2] * 0x100 + o[3]
  }

  ghost predicate Quads(t: string, o: seq<nat>) {
    AreBytes(o) && t == SpellQuad(o)
  }

  ghost predicate IsQuadText(t: string) {
    exists o :: Quads(t, o)
  }

  /** What stands behind the slash: a length in decimal digits, the mask of that many leading
      ones, or the mask of the other bits. */
  ghost predicate LengthMeans(l: string, n: nat) {
    n <= 32 &&
    ((l != "" && (forall i :: 0 <= i < |l| ==> '0' <= l[i] <= '9') && Numerals.ValueOf(l, 10) == n) ||
     (exists m :: Quads(l, m) && MaskMeans(QuadBits(m), n)))
  }

  predicate MaskMeans(mask: nat, n: nat)
    requires n <= 32
  {
    mask == 0x1_0000_0000 - Pow2(32 - n) || (0 < n < 32 && mask == Pow2(32 - n) - 1)
  }

  ghost predicate NetworkOf(t: string, o: seq<nat>, n: nat) {
    AreBytes(o) && exists l :: LengthMeans(l, n) && t == SpellQuad(o) + "/" + l
  }

  ghost predicate IsNetText(t: string) {
    exists o, n :: NetworkOf(t, o, n)
  }

  /** The leading `n` of 32 bits are the same, one by one. */
  predicate LeadingBitsAgree(p: nat, q: nat, n: nat) {
    forall k :: 0 <= k < 32 && 32 - n <= k ==> (Bit(p, k) <==> Bit(q, k))
  }

  ghost predicate NetHolds(t: string, address: string) {
    exists p, n, o :: NetworkOf(t, p, n) && Quads(address, o) && LeadingBitsAgree(QuadBits(p), QuadBits(o), n)
  }

  /** One to three numbers of one to three digits, each followed by a dot. */
  ghost predicate IsPrefixText(t: string) {
    exists parts :: PrefixOf(t, parts)
  }

  predicate PrefixOf(t: string, parts: seq<string>) {
    1 <= |parts| <= 3 && t == Dotted(parts) && forall i :: 0 <= i < |parts| ==> IsShort(parts[i])
  }

  predicate IsShort(s: string) {
    1 <= |s| <= 3 && forall i :: 0 <= i < |s| ==> '0' <= s[i] <= '9'
  }

  predicate IsV6(lib: Ipv6, t: string) {
    ':' in t && lib.address(t).Some?
  }

  // --- entries ---------------------------------------------------------------------------------

  /** The words that stand for something this console cannot look up. */
  predicate IsOpenWord(t: string) {
    Upper(t) == "LOCAL" || Upper(t) == "EXCEPT" || (t != "" && t[0] == '@')
  }

  /** Whether an entry, by its text, takes in an address; `None` where its text does not say. */
  ghost function Says(lib: Ipv6, t: string, address: string): Option<bool> {
    if Upper(t) == "ALL" then Some(true)
    else if IsOpenWord(t) || !(IsQuadText(address) || IsV6(lib, address)) then None
    else if IsPrefixText(t) then Some(t <= address)
    else if IsQuadText(t) then Some(t == address)
    else if IsV6(lib, t) then Some(IsV6(lib, address) && lib.address(t) == lib.address(address))
    else if IsNetText(t) then Some(NetHolds(t, address))
    else if ':' in t && lib.network(t).Some? then
      Some(IsV6(lib, address) && lib.within(lib.address(address).value, lib.network(t).value))
    else None
  }

  // --- lists -------------------------------------------------------------------------------------

  /** One way of settling what cannot be decided from here: each open entry, and what an
      EXCEPT clause makes of a whole list. */
  datatype Resolution = Resolution(entry: string -> bool, clause: seq<string> -> bool)

  predicate ExceptIn(items: seq<string>) {
    exists i :: 0 <= i < |items| && Upper(items[i]) == "EXCEPT"
  }

  ghost predicate ItemMatches(lib: Ipv6, item: string, address: string, rho: Resolution) {
    match Says(lib, item, address)
    case Some(b) => b
    case None => rho.entry(item)
  }

  /** A list matches when one of its entries does. */
  ghost predicate ListMeans(lib: Ipv6, list: string, address: string, rho: Resolution) {
    var items := Items(list);
    if ExceptIn(items) then rho.clause(items)
    else exists i :: 0 <= i < |items| && ItemMatches(lib, items[i], address, rho)
  }

  /** The server's rule: a list without entries restricts nothing, an allow list admits what
      it matches whatever the deny list says, and with only an allow list the rest is refused. */
  ghost predicate Admits(lib: Ipv6, allow: string, deny: string, address: string, rho: Resolution) {
    if Items(allow) != [] && ListMeans(lib, allow, address, rho) then true
    else if Items(deny) != [] then !ListMeans(lib, deny, address, rho)
    else Items(allow) == []
  }
}
