/** The rights and flags fields of an access control entry, as text and as bits. */
module Rights {
  import opened Outcomes
  import opened Text
  import Bits
  import Numerals

  const FILE_READ_DATA: nat := 0x1
  const FILE_WRITE_DATA: nat := 0x2
  const FILE_APPEND_DATA: nat := 0x4
  const FILE_READ_EA: nat := 0x8
  const FILE_WRITE_EA: nat := 0x10
  const FILE_EXECUTE: nat := 0x20
  const FILE_READ_ATTRIBUTES: nat := 0x80
  const FILE_WRITE_ATTRIBUTES: nat := 0x100
  const DELETE: nat := 0x10000
  const READ_CONTROL: nat := 0x20000
  const WRITE_DAC: nat := 0x40000
  const WRITE_OWNER: nat := 0x80000
  const SYNCHRONIZE: nat := 0x100000
  const GENERIC_ALL: nat := 0x10000000
  const GENERIC_EXECUTE: nat := 0x20000000
  const GENERIC_WRITE: nat := 0x40000000
  const GENERIC_READ: nat := 0x80000000

  // The composite masks: disjoint bits, so the sum is the bitwise or.
  const FILE_GENERIC_READ: nat :=
    READ_CONTROL + FILE_READ_DATA + FILE_READ_ATTRIBUTES + FILE_READ_EA + SYNCHRONIZE
  const FILE_GENERIC_WRITE: nat :=
    READ_CONTROL + FILE_WRITE_DATA + FILE_WRITE_ATTRIBUTES + FILE_WRITE_EA + FILE_APPEND_DATA + SYNCHRONIZE
  const FILE_GENERIC_EXECUTE: nat := READ_CONTROL + FILE_READ_ATTRIBUTES + FILE_EXECUTE + SYNCHRONIZE
  const FILE_ALL_ACCESS: nat := 0x1F01FF

  // --- tables of two-letter codes ----------------------------------------------

  /** Two-letter codes, each with the value it stands for. */
  type Table<T> = seq<(string, T)>

  predicate IsTable<T>(table: Table<T>) {
    (forall i :: 0 <= i < |table| ==> IsCode(table[i].0)) &&
    (forall i, j :: 0 <= i < j < |table| ==> table[i].0 != table[j].0)
  }

  predicate IsCode(s: string) {
    |s| == 2 && AllCapitals(s)
  }

  predicate AllCapitals(s: string) {
    forall i :: 0 <= i < |s| ==> 'A' <= s[i] <= 'Z'
  }

  /** The value of the first code, from `i` on, spelled `pair`. */
  function ValueFrom<T>(table: Table<T>, pair: string, i: nat): Option<T>
    requires i <= |table|
    decreases |table| - i
  {
    if i == |table| then None
    else if table[i].0 == pair then Some(table[i].1)
    else ValueFrom(table, pair, i + 1)
  }

  method LookUp<T>(table: Table<T>, pair: string) returns (value: Option<T>)
    ensures value == ValueFrom(table, pair, 0)
  {
    var entry := 0;
    while entry < |table| && table[entry].0 != pair
      invariant 0 <= entry <= |table|
      invariant ValueFrom(table, pair, entry) == ValueFrom(table, pair, 0)
    {
      entry := entry + 1;
    }
    value := if entry < |table| then Some(table[entry].1) else None;
  }

  lemma {:induction false} CodesDistinct<T>(table: Table<T>, i: nat, k: nat)
    requires IsTable(table) && i <= k < |table|
    ensures ValueFrom(table, table[k].0, i) == Some(table[k].1)
    decreases k - i
  {
    if i < k { CodesDistinct(table, i + 1, k); }
  }

  // --- rights ---------------------------------------------------------------

  const RIGHT_LETTERS: Table<nat> :=
    [("GA", GENERIC_ALL), ("GR", GENERIC_READ), ("GW", GENERIC_WRITE), ("GX", GENERIC_EXECUTE),
     ("SD", DELETE), ("RC", READ_CONTROL), ("WD", WRITE_DAC), ("WO", WRITE_OWNER),
     ("FA", FILE_ALL_ACCESS), ("FR", FILE_GENERIC_READ), ("FW", FILE_GENERIC_WRITE),
     ("FX", FILE_GENERIC_EXECUTE)]

  lemma RightLettersAreCodes()
    ensures IsTable(RIGHT_LETTERS)
  {
  }

  /** The first code, from `i` on, that stands for exactly this mask. */
  function LetterFrom(table: Table<nat>, mask: nat, i: nat): (r: Option<string>)
    requires i <= |table|
    ensures r.Some? ==> exists k :: i <= k < |table| && table[k] == (r.value, mask)
    decreases |table| - i
  {
    if i == |table| then None
    else if table[i].1 == mask then
      assert table[i] == (table[i].0, mask);
      Some(table[i].0)
    else LetterFrom(table, mask, i + 1)
  }

  function RenderRights(mask: nat): string {
    match LetterFrom(RIGHT_LETTERS, mask, 0)
    case Some(letters) => letters
    case None => "0x" + Numerals.Padded(Numerals.Numeral(mask, 16), 8)
  }

  /** What a rights field reads as: the mask, and whether all of it was understood. */
  datatype Reading = Reading(mask: nat, understood: bool)

  /** `int(raw, 16)` on a text starting with "0X": an underscore may follow the prefix. */
  function ReadHex(raw: string): Option<nat>
    requires |raw| >= 2
  {
    var body := raw[2..];
    Numerals.ReadGrouped(if body != "" && body[0] == '_' then body[1..] else body, 16)
  }

  predicate IsDecimal(s: string) {
    s != "" && forall i :: 0 <= i < |s| ==> IsDigit(s[i])
  }

  function WithPair(before: Reading, value: Option<nat>): Reading {
    match value
    case Some(v) => Reading(Bits.Or(before.mask, v), before.understood)
    case None => Reading(before.mask, false)
  }

  function PairAt(raw: string, j: nat): string
    requires 2 * j + 2 <= |raw|
  {
    raw[2 * j..2 * j + 2]
  }

  /** The first `n` two-letter codes: the union of the known ones, understood when all
      of them are. */
  function ReadLetters(table: Table<nat>, raw: string, n: nat): Reading
    requires 2 * n <= |raw|
  {
    if n == 0 then Reading(0, true)
    else WithPair(ReadLetters(table, raw, n - 1), ValueFrom(table, PairAt(raw, n - 1), 0))
  }

  /** How a trimmed, upper-case rights field reads. */
  function ReadRaw(raw: string): Reading {
    if raw == "" then Reading(0, true)
    else if |raw| >= 2 && raw[0] == '0' && raw[1] == 'X' then
      (match ReadHex(raw) case Some(v) => Reading(v, true) case None => Reading(0, false))
    else if IsDecimal(raw) then Reading(Numerals.ValueOf(raw, 10), true)
    else if |raw| % 2 == 1 then Reading(0, false)
    else ReadLetters(RIGHT_LETTERS, raw, |raw| / 2)
  }

  function ReadRights(text: string): Reading {
    ReadRaw(Upper(Strip(text)))
  }

  /** The parser of a rights field. */
  method ParseRights(text: string) returns (r: Reading)
    ensures r == ReadRights(text)
  {
    var raw := Upper(Strip(text));
    if raw == "" { return Reading(0, true); }
    if |raw| >= 2 && raw[0] == '0' && raw[1] == 'X' {
      var value := ReadHex(raw);
      return if value.Some? then Reading(value.value, true) else Reading(0, false);
    }
    if IsDecimal(raw) { return Reading(Numerals.ValueOf(raw, 10), true); }
    if |raw| % 2 == 1 { return Reading(0, false); }
    r := ParseLetters(RIGHT_LETTERS, raw);
  }

  method ParseLetters(known: Table<nat>, raw: string) returns (r: Reading)
    requires |raw| % 2 == 0
    ensures r == ReadLetters(known, raw, |raw| / 2)
  {
    var mask, understood, index := 0, true, 0;
    while index < |raw|
      invariant 0 <= index <= |raw| && index % 2 == 0
      invariant Reading(mask, understood) == ReadLetters(known, raw, index / 2)
    {
      assert PairAt(raw, index / 2) == raw[index..index + 2];
      var value := LookUp(known, raw[index..index + 2]);
      if value.None? {
        understood := false;
      } else {
        mask := Bits.Or(mask, value.value);
      }
      index := index + 2;
    }
    r := Reading(mask, understood);
  }

  lemma CapitalsText(s: string)
    requires AllCapitals(s)
    ensures Upper(Strip(s)) == s && FieldSafe(s)
  {
    StripTrimmed(s);
  }

  lemma CodeReads(s: string)
    requires IsCode(s)
    ensures ReadRaw(s) == WithPair(Reading(0, true), ValueFrom(RIGHT_LETTERS, s, 0))
  {
    assert !IsDecimal(s) by { assert !IsDigit(s[0]); }
    OneLetter(RIGHT_LETTERS, s);
  }

  lemma OneLetter(table: Table<nat>, s: string)
    requires |s| == 2
    ensures ReadLetters(table, s, 1) == WithPair(Reading(0, true), ValueFrom(table, s, 0))
  {
    assert PairAt(s, 0) == s;
  }

  lemma HexRoundTrip(mask: nat)
    ensures var s := "0x" + Numerals.Padded(Numerals.Numeral(mask, 16), 8);
      ReadRights(s) == Reading(mask, true) && FieldSafe(s)
  {
    var digits := Numerals.Numeral(mask, 16);
    var body := Numerals.Padded(digits, 8);
    Numerals.PaddedIsPlain(digits, 16, 8);
    Numerals.ReadNumeral(mask, 16, 8);
    HexText(body);
    HexReads(Upper(body), mask);
  }

  lemma HexText(body: string)
    requires body != "" && forall i :: 0 <= i < |body| ==> Numerals.IsPlainDigit(body[i], 16)
    ensures var s := "0x" + body; FieldSafe(s) && Upper(Strip(s)) == "0X" + Upper(body)
    ensures Upper(body)[0] != '_'
  {
    var s := "0x" + body;
    assert Numerals.IsPlainDigit(body[0], 16) && Numerals.IsPlainDigit(body[|body| - 1], 16);
    assert Trimmed(s) by { assert s[|s| - 1] == body[|body| - 1]; }
    StripTrimmed(s);
    assert Upper(s) == "0X" + Upper(body);
    forall i | 0 <= i < |s| ensures !IsMark(s[i]) {
      assert i >= 2 ==> s[i] == body[i - 2];
    }
  }

  lemma HexReads(body: string, mask: nat)
    requires body != "" && body[0] != '_' && Numerals.ReadGrouped(body, 16) == Some(mask)
    ensures ReadRaw("0X" + body) == Reading(mask, true)
  {
    assert ("0X" + body)[2..] == body;
  }

  /** The rights text is exact: every mask, however large, is read back as itself. */
  lemma RightsRoundTrip(mask: nat)
    ensures ReadRights(RenderRights(mask)) == Reading(mask, true)
    ensures FieldSafe(RenderRights(mask))
  {
    var letters := LetterFrom(RIGHT_LETTERS, mask, 0);
    if letters.Some? {
      LetterReads(letters.value, mask);
    } else {
      HexRoundTrip(mask);
    }
  }

  lemma LetterReads(s: string, mask: nat)
    requires exists k :: 0 <= k < |RIGHT_LETTERS| && RIGHT_LETTERS[k] == (s, mask)
    ensures ReadRights(s) == Reading(mask, true) && FieldSafe(s)
  {
    LetterIn(RIGHT_LETTERS, s, mask) by { RightLettersAreCodes(); }
    CapitalsText(s);
    CodeReads(s);
  }

  lemma LetterIn(table: Table<nat>, s: string, mask: nat)
    requires IsTable(table) && exists k :: 0 <= k < |table| && table[k] == (s, mask)
    ensures IsCode(s) && ValueFrom(table, s, 0) == Some(mask)
  {
    var k :| 0 <= k < |table| && table[k] == (s, mask);
    CodesDistinct(table, 0, k);
  }

  /** Distinct masks never share a spelling. */
  lemma RenderInjective(a: nat, b: nat)
    requires RenderRights(a) == RenderRights(b)
    ensures a == b
  {
    RightsRoundTrip(a);
    RightsRoundTrip(b);
  }

  predicate Known(table: Table<nat>, raw: string, j: nat)
    requires 2 * j + 2 <= |raw|
  {
    ValueFrom(table, PairAt(raw, j), 0).Some?
  }

  predicate Gives(table: Table<nat>, raw: string, j: nat, b: nat)
    requires 2 * j + 2 <= |raw|
  {
    Known(table, raw, j) && Bits.Bit(ValueFrom(table, PairAt(raw, j), 0).value, b)
  }

  /** A run of letters is understood exactly when every pair is known, ... */
  lemma {:induction false} LettersUnderstood(table: Table<nat>, raw: string, n: nat)
    requires 2 * n <= |raw|
    ensures !ReadLetters(table, raw, n).understood <==> exists j :: 0 <= j < n && !Known(table, raw, j)
  {
    if n > 0 {
      LettersUnderstood(table, raw, n - 1);
      assert ReadLetters(table, raw, n).understood <==>
        ReadLetters(table, raw, n - 1).understood && Known(table, raw, n - 1);
    }
  }

  /** ... and carries exactly the bits of the pairs that are. */
  lemma {:induction false} LettersBits(table: Table<nat>, raw: string, n: nat, b: nat)
    requires 2 * n <= |raw|
    ensures Bits.Bit(ReadLetters(table, raw, n).mask, b) <==> exists j :: 0 <= j < n && Gives(table, raw, j, b)
  {
    if n == 0 {
      Bits.NoBits(b);
    } else {
      LettersBits(table, raw, n - 1, b);
      LastPair(table, raw, n, b);
    }
  }

  lemma LastPair(table: Table<nat>, raw: string, n: nat, b: nat)
    requires 0 < 2 * n <= |raw|
    ensures Bits.Bit(ReadLetters(table, raw, n).mask, b) <==>
      Bits.Bit(ReadLetters(table, raw, n - 1).mask, b) || Gives(table, raw, n - 1, b)
  {
    if Known(table, raw, n - 1) {
      Bits.OrBit(ReadLetters(table, raw, n - 1).mask, ValueFrom(table, PairAt(raw, n - 1), 0).value, b);
    }
  }

  // --- which texts are understood ----------------------------------------------------------

  /** A decimal number is read as that number. */
  lemma DecimalRoundTrip(mask: nat)
    ensures ReadRights(Numerals.Numeral(mask, 10)) == Reading(mask, true)
  {
    var s := Numerals.Numeral(mask, 10);
    Numerals.ValueOfNumeral(mask, 10);
    assert Numerals.IsPlainDigit(s[0], 10) && Numerals.IsPlainDigit(s[|s| - 1], 10);
    StripTrimmed(s);
    assert Upper(s) == s by {
      forall i | 0 <= i < |s| ensures UpperChar(s[i]) == s[i] { assert Numerals.IsPlainDigit(s[i], 10); }
    }
    assert IsDecimal(s) by {
      forall i | 0 <= i < |s| ensures IsDigit(s[i]) { assert Numerals.IsPlainDigit(s[i], 10); }
    }
  }

  /** "0X", perhaps an underscore, and hexadecimal digits with single underscores between them. */
  predicate IsHexNumber(raw: string) {
    "0X" <= raw && (Numerals.Grouped(raw[2..], 16) || ("0X_" <= raw && Numerals.Grouped(raw[3..], 16)))
  }

  predicate IsKnownCode(pair: string) {
    exists k :: 0 <= k < |RIGHT_LETTERS| && RIGHT_LETTERS[k].0 == pair
  }

  predicate IsRunOfCodes(raw: string) {
    |raw| % 2 == 0 && forall j :: 0 <= j < |raw| / 2 ==> IsKnownCode(PairAt(raw, j))
  }

  lemma {:induction false} ValueFromIff(table: Table<nat>, pair: string, i: nat)
    requires i <= |table|
    ensures ValueFrom(table, pair, i).Some? <==> exists k :: i <= k < |table| && table[k].0 == pair
    decreases |table| - i
  {
    if i < |table| { ValueFromIff(table, pair, i + 1); }
  }

  lemma CodesStartWithCapitals(pair: string)
    requires IsKnownCode(pair)
    ensures IsCode(pair)
  {
    RightLettersAreCodes();
  }

  /** A rights field is reported as understood exactly when it is empty, a hexadecimal or a
      decimal number, or a run of known two-letter codes: one of the three legal forms, whole. */
  lemma UnderstoodIff(text: string)
    ensures var raw := Upper(Strip(text));
      ReadRights(text).understood <==> raw == "" || IsHexNumber(raw) || IsDecimal(raw) || IsRunOfCodes(raw)
  {
    var raw := Upper(Strip(text));
    if "0X" <= raw {
      assert PairAt(raw, 0) == "0X";
      if IsKnownCode("0X") { CodesStartWithCapitals("0X"); }
      HexUnderstood(raw);
    } else if raw != "" && !IsDecimal(raw) && |raw| % 2 == 0 {
      LettersUnderstood(RIGHT_LETTERS, raw, |raw| / 2);
      forall j | 0 <= j < |raw| / 2 ensures Known(RIGHT_LETTERS, raw, j) <==> IsKnownCode(PairAt(raw, j)) {
        ValueFromIff(RIGHT_LETTERS, PairAt(raw, j), 0);
      }
    }
  }

  lemma HexUnderstood(raw: string)
    requires "0X" <= raw
    ensures ReadRaw(raw).understood <==> IsHexNumber(raw)
  {
    var body := raw[2..];
    if body != "" && body[0] == '_' { assert raw[3..] == body[1..]; }
  }

  /** A text that can stand as one field of an entry: trimmed, and free of the marks
      that delimit fields, entries and sections. */
  predicate FieldSafe(s: string) {
    Trimmed(s) && Unmarked(s)
  }

  predicate Unmarked(s: string) {
    forall i :: 0 <= i < |s| ==> !IsMark(s[i])
  }

  predicate IsMark(c: char) {
    c == ';' || c == '(' || c == ')' || c == ':'
  }

  // --- inheritance flags ------------------------------------------------------

  const OBJECT_INHERIT: bv8 := 0x01
  const CONTAINER_INHERIT: bv8 := 0x02
  const NO_PROPAGATE_INHERIT: bv8 := 0x04
  const INHERIT_ONLY: bv8 := 0x08
  const INHERITED_ACE: bv8 := 0x10

  const FLAG_LETTERS: Table<bv8> :=
    [("OI", OBJECT_INHERIT), ("CI", CONTAINER_INHERIT), ("NP", NO_PROPAGATE_INHERIT),
     ("IO", INHERIT_ONLY), ("ID", INHERITED_ACE)]

  lemma FlagLettersAreCodes()
    ensures IsTable(FLAG_LETTERS)
  {
  }

  function OrNothing(value: Option<bv8>): bv8 {
    if value.Some? then value.value else 0
  }

  /** The union of the flags named by the first `n` pairs; an unknown pair is ignored. */
  function ReadPairs(table: Table<bv8>, raw: string, n: nat): bv8
    requires 2 * n <= |raw|
  {
    if n == 0 then 0 else ReadPairs(table, raw, n - 1) | OrNothing(ValueFrom(table, PairAt(raw, n - 1), 0))
  }

  function ReadFlags(text: string): bv8 {
    var raw := Upper(Strip(text));
    ReadPairs(FLAG_LETTERS, raw, |raw| / 2)
  }

  method ParseFlags(text: string) returns (flags: bv8)
    ensures flags == ReadFlags(text)
  {
    flags := ParsePairs(FLAG_LETTERS, Upper(Strip(text)));
  }

  method ParsePairs(table: Table<bv8>, raw: string) returns (flags: bv8)
    ensures flags == ReadPairs(table, raw, |raw| / 2)
  {
    flags := 0;
    var index := 0;
    while index < |raw| - 1
      invariant 0 <= index <= |raw| && index % 2 == 0
      invariant flags == ReadPairs(table, raw, index / 2)
    {
      assert PairAt(raw, index / 2) == raw[index..index + 2];
      var value := LookUp(table, raw[index..index + 2]);
      if value.Some? {
        flags := flags | value.value;
      }
      index := index + 2;
    }
  }

  predicate Has(flags: bv8, bit: bv8) {
    flags & bit != 0
  }

  predicate Written(table: Table<bv8>, flags: bv8, i: nat)
    requires i < |table|
  {
    table[i].1 != INHERITED_ACE && Has(flags, table[i].1)
  }

  /** The letters of the set flags among the first `n` entries; "inherited" is never written. */
  function RenderFirst(table: Table<bv8>, flags: bv8, n: nat): string
    requires n <= |table|
  {
    if n == 0 then ""
    else RenderFirst(table, flags, n - 1) + (if Written(table, flags, n - 1) then table[n - 1].0 else "")
  }

  function FlagsText(flags: bv8): string {
    RenderFirst(FLAG_LETTERS, flags, |FLAG_LETTERS|)
  }

  method RenderFlags(flags: bv8) returns (out: string)
    ensures out == FlagsText(flags)
  {
    out := RenderTable(FLAG_LETTERS, flags);
  }

  method RenderTable(table: Table<bv8>, flags: bv8) returns (out: string)
    ensures out == RenderFirst(table, flags, |table|)
  {
    out := "";
    var entry := 0;
    while entry < |table|
      invariant 0 <= entry <= |table|
      invariant out == RenderFirst(table, flags, entry)
    {
      if Written(table, flags, entry) {
        out := out + table[entry].0;
      }
      entry := entry + 1;
    }
  }

  /** The first `n` flags of the table that are set and are not "inherited". */
  function SetFirst(table: Table<bv8>, flags: bv8, n: nat): bv8
    requires n <= |table|
  {
    if n == 0 then 0
    else SetFirst(table, flags, n - 1) | (if Written(table, flags, n - 1) then table[n - 1].1 else 0)
  }

  lemma {:induction false} ReadPairsPrefix(table: Table<bv8>, raw: string, more: string, n: nat)
    requires 2 * n <= |raw|
    ensures ReadPairs(table, raw + more, n) == ReadPairs(table, raw, n)
  {
    if n > 0 {
      ReadPairsPrefix(table, raw, more, n - 1);
      assert PairAt(raw + more, n - 1) == PairAt(raw, n - 1);
    }
  }

  lemma ReadAppended(table: Table<bv8>, raw: string, code: string)
    requires |raw| % 2 == 0 && |code| == 2
    ensures ReadPairs(table, raw + code, |raw + code| / 2) ==
      ReadPairs(table, raw, |raw| / 2) | OrNothing(ValueFrom(table, code, 0))
  {
    ReadPairsPrefix(table, raw, code, |raw| / 2);
    assert PairAt(raw + code, |raw| / 2) == code;
  }

  lemma {:induction false} RenderedShape(table: Table<bv8>, flags: bv8, n: nat)
    requires IsTable(table) && n <= |table|
    ensures AllCapitals(RenderFirst(table, flags, n)) && |RenderFirst(table, flags, n)| % 2 == 0
  {
    if n > 0 {
      RenderedShape(table, flags, n - 1);
      assert IsCode(table[n - 1].0);
    }
  }

  lemma {:induction false} ReadRendered(table: Table<bv8>, flags: bv8, n: nat)
    requires IsTable(table) && n <= |table|
    ensures var text := RenderFirst(table, flags, n); ReadPairs(table, text, |text| / 2) == SetFirst(table, flags, n)
  {
    if n > 0 {
      ReadRendered(table, flags, n - 1);
      var before, code := RenderFirst(table, flags, n - 1), table[n - 1].0;
      if Written(table, flags, n - 1) {
        RenderedShape(table, flags, n - 1);
        assert IsCode(code);
        CodesDistinct(table, 0, n - 1);
        ReadAppended(table, before, code);
      } else {
        assert RenderFirst(table, flags, n) == before;
      }
    }
  }

  lemma SetFirstIsMask(flags: bv8)
    ensures SetFirst(FLAG_LETTERS, flags, 5) == flags & 0x0F
  {
    assert SetFirst(FLAG_LETTERS, flags, 1) == flags & 0x01 by { assert SetFirst(FLAG_LETTERS, flags, 0) == 0; }
    assert SetFirst(FLAG_LETTERS, flags, 2) == flags & 0x03;
    assert SetFirst(FLAG_LETTERS, flags, 3) == flags & 0x07;
    assert SetFirst(FLAG_LETTERS, flags, 4) == flags & 0x0F;
  }

  /** Writing flags and reading them back keeps the four inheritance flags and nothing else. */
  lemma FlagsRoundTrip(flags: bv8)
    ensures ReadFlags(FlagsText(flags)) == flags & 0x0F
    ensures FieldSafe(FlagsText(flags))
  {
    FlagLettersAreCodes();
    RenderedShape(FLAG_LETTERS, flags, 5);
    ReadRendered(FLAG_LETTERS, flags, 5);
    CapitalsText(FlagsText(flags));
    SetFirstIsMask(flags);
  }
}
