/** What the two-letter codes of an entry mean, in numbers, and that reading and writing a
    field follow that meaning. */
module RightsMeaning {
  import opened Outcomes
  import opened Text
  import opened Rights
  import Bits
  import Numerals

  // --- rights ---------------------------------------------------------------------------

  /** The mask each code of the format stands for. */
  predicate Names(code: string, mask: nat) {
    || (code == "GA" && mask == 0x10000000)
    || (code == "GR" && mask == 0x80000000)
    || (code == "GW" && mask == 0x40000000)
    || (code == "GX" && mask == 0x20000000)
    || (code == "SD" && mask == 0x10000)
    || (code == "RC" && mask == 0x20000)
    || (code == "WD" && mask == 0x40000)
    || (code == "WO" && mask == 0x80000)
    || (code == "FA" && mask == 0x1F01FF)
    || (code == "FR" && mask == 0x120089)
    || (code == "FW" && mask == 0x120116)
    || (code == "FX" && mask == 0x1200A0)
  }

  ghost predicate InTable<T>(table: Table<T>, code: string, value: T) {
    exists k :: 0 <= k < |table| && table[k] == (code, value)
  }

  lemma RightsTable(code: string, mask: nat)
    ensures InTable(RIGHT_LETTERS, code, mask) <==> Names(code, mask)
  {
    var t := RIGHT_LETTERS;
    assert |t| == 12;
    assert t[0] == ("GA", 0x10000000) && t[1] == ("GR", 0x80000000) && t[2] == ("GW", 0x40000000);
    assert t[3] == ("GX", 0x20000000) && t[4] == ("SD", 0x10000) && t[5] == ("RC", 0x20000);
    assert t[6] == ("WD", 0x40000) && t[7] == ("WO", 0x80000) && t[8] == ("FA", 0x1F01FF);
    assert t[9] == ("FR", 0x120089) && t[10] == ("FW", 0x120116) && t[11] == ("FX", 0x1200A0);
  }

  lemma ReadIff<T>(table: Table<T>, code: string, value: T)
    requires IsTable(table)
    ensures ValueFrom(table, code, 0) == Some(value) <==> InTable(table, code, value)
  {
    if InTable(table, code, value) {
      var k :| 0 <= k < |table| && table[k] == (code, value);
      CodesDistinct(table, 0, k);
    } else if ValueFrom(table, code, 0).Some? {
      FoundInTable(table, code, 0);
    }
  }

  lemma {:induction false} FoundInTable<T>(table: Table<T>, code: string, i: nat)
    requires i <= |table| && ValueFrom(table, code, i).Some?
    ensures InTable(table, code, ValueFrom(table, code, i).value)
    decreases |table| - i
  {
    if table[i].0 == code {
      assert table[i] == (code, table[i].1);
    } else {
      FoundInTable(table, code, i + 1);
    }
  }

  lemma {:induction false} MaskIsFound(table: Table<nat>, mask: nat, i: nat, k: nat)
    requires i <= k < |table| && table[k].1 == mask
    ensures LetterFrom(table, mask, i).Some?
    decreases k - i
  {
    if i < k { MaskIsFound(table, mask, i + 1, k); }
  }

  /** Every code is read as its number and every such number is written as its code, ... */
  lemma CodeMeans(code: string, mask: nat)
    requires Names(code, mask)
    ensures ReadRights(code) == Reading(mask, true)
    ensures RenderRights(mask) == code
  {
    RightsTable(code, mask);
    LetterReads(code, mask);
    var k :| 0 <= k < |RIGHT_LETTERS| && RIGHT_LETTERS[k] == (code, mask);
    MaskIsFound(RIGHT_LETTERS, mask, 0, k);
    var letters := LetterFrom(RIGHT_LETTERS, mask, 0).value;
    RightsTable(letters, mask);
    assert Names(letters, mask);
  }

  /** ... and every other number as at least eight hexadecimal digits. */
  lemma OthersAreHex(mask: nat)
    requires forall code :: !Names(code, mask)
    ensures RenderRights(mask) == "0x" + Numerals.Padded(Numerals.Numeral(mask, 16), 8)
  {
    var found := LetterFrom(RIGHT_LETTERS, mask, 0);
    if found.Some? { RightsTable(found.value, mask); }
  }

  /** The trimmed text is not a number in either base, and its letters pair up. */
  predicate IsPairs(raw: string) {
    |raw| % 2 == 0 && !("0X" <= raw) && !IsDecimal(raw)
  }

  ghost predicate Grants(code: string, b: nat) {
    exists mask :: Names(code, mask) && Bits.Bit(mask, b)
  }

  ghost predicate IsNamed(code: string) {
    exists mask :: Names(code, mask)
  }

  ghost predicate SomeGrants(raw: string, b: nat) {
    exists j :: 0 <= j < |raw| / 2 && Grants(PairAt(raw, j), b)
  }

  ghost predicate AllNamed(raw: string) {
    forall j :: 0 <= j < |raw| / 2 ==> IsNamed(PairAt(raw, j))
  }

  /** A run of codes grants a right exactly when one of its codes does, and is understood
      exactly when each of them stands for something. */
  lemma RunMeans(text: string, b: nat)
    requires IsPairs(Upper(Strip(text)))
    ensures var raw := Upper(Strip(text));
      && (Bits.Bit(ReadRights(text).mask, b) <==> SomeGrants(raw, b))
      && (ReadRights(text).understood <==> AllNamed(raw))
  {
    var raw := Upper(Strip(text));
    assert ReadRights(text) == ReadRaw(raw);
    RawRun(raw);
    RunOfPairs(RIGHT_LETTERS, raw, b);
  }

  lemma RawRun(raw: string)
    requires IsPairs(raw)
    ensures ReadRaw(raw) == ReadLetters(RIGHT_LETTERS, raw, |raw| / 2)
  {
  }

  lemma RunOfPairs(table: Table<nat>, raw: string, b: nat)
    requires table == RIGHT_LETTERS && |raw| % 2 == 0
    ensures var r := ReadLetters(table, raw, |raw| / 2);
      && (Bits.Bit(r.mask, b) <==> SomeGrants(raw, b))
      && (r.understood <==> AllNamed(raw))
  {
    LettersBits(table, raw, |raw| / 2, b);
    LettersUnderstood(table, raw, |raw| / 2);
    forall j | 0 <= j < |raw| / 2
      ensures Known(table, raw, j) <==> IsNamed(PairAt(raw, j))
      ensures Gives(table, raw, j, b) <==> Grants(PairAt(raw, j), b) {
      PairMeans(PairAt(raw, j), b);
    }
  }

  lemma PairMeans(code: string, b: nat)
    ensures var value := ValueFrom(RIGHT_LETTERS, code, 0);
      && (value.Some? <==> IsNamed(code))
      && (value.Some? && Bits.Bit(value.value, b) <==> Grants(code, b))
  {
    RightLettersAreCodes();
    forall mask: nat ensures ValueFrom(RIGHT_LETTERS, code, 0) == Some(mask) <==> Names(code, mask) {
      ReadIff(RIGHT_LETTERS, code, mask);
      RightsTable(code, mask);
    }
  }

  // --- inheritance flags ------------------------------------------------------------------

  /** The bit each flag code stands for. */
  predicate Flags(code: string, bit: bv8) {
    || (code == "OI" && bit == 1)
    || (code == "CI" && bit == 2)
    || (code == "NP" && bit == 4)
    || (code == "IO" && bit == 8)
    || (code == "ID" && bit == 16)
  }

  lemma FlagsTable(code: string, bit: bv8)
    ensures InTable(FLAG_LETTERS, code, bit) <==> Flags(code, bit)
  {
    var t := FLAG_LETTERS;
    assert |t| == 5;
    assert t[0] == ("OI", 1) && t[1] == ("CI", 2) && t[2] == ("NP", 4) && t[3] == ("IO", 8) && t[4] == ("ID", 16);
  }

  predicate IsFlag(bit: bv8) {
    bit == 1 || bit == 2 || bit == 4 || bit == 8 || bit == 16
  }

  lemma FlagMeans(code: string, bit: bv8)
    requires IsFlag(bit)
    ensures Has(OrNothing(ValueFrom(FLAG_LETTERS, code, 0)), bit) <==> Flags(code, bit)
  {
    FlagLettersAreCodes();
    ReadIff(FLAG_LETTERS, code, bit);
    FlagsTable(code, bit);
    var value := ValueFrom(FLAG_LETTERS, code, 0);
    if value.Some? {
      ReadIff(FLAG_LETTERS, code, value.value);
      FlagsTable(code, value.value);
    }
  }

  lemma HasEither(a: bv8, b: bv8, bit: bv8)
    ensures Has(a | b, bit) <==> Has(a, bit) || Has(b, bit)
  {
  }

  /** A flag is read exactly when its code stands in the text, at an even place. */
  lemma {:induction false} FlagsRead(raw: string, bit: bv8, n: nat)
    requires IsFlag(bit) && 2 * n <= |raw|
    ensures Has(ReadPairs(FLAG_LETTERS, raw, n), bit) <==> exists j :: 0 <= j < n && Flags(PairAt(raw, j), bit)
  {
    if n > 0 {
      FlagsRead(raw, bit, n - 1);
      FlagMeans(PairAt(raw, n - 1), bit);
      HasEither(ReadPairs(FLAG_LETTERS, raw, n - 1), OrNothing(ValueFrom(FLAG_LETTERS, PairAt(raw, n - 1), 0)), bit);
    }
  }

  function IfSet(flags: bv8, bit: bv8, code: string): string {
    if flags & bit != 0 then code else ""
  }

  /** The flags are written as the codes of the set ones, in this order, without "ID". */
  lemma FlagsWritten(flags: bv8)
    ensures FlagsText(flags) ==
      IfSet(flags, 1, "OI") + IfSet(flags, 2, "CI") + IfSet(flags, 4, "NP") + IfSet(flags, 8, "IO")
  {
    WrittenFirst(FLAG_LETTERS, flags);
  }

  lemma WrittenFirst(t: Table<bv8>, flags: bv8)
    requires |t| == 5 && t[4].1 == 16
    requires t[0].1 == 1 && t[1].1 == 2 && t[2].1 == 4 && t[3].1 == 8
    ensures RenderFirst(t, flags, 5) ==
      IfSet(flags, 1, t[0].0) + IfSet(flags, 2, t[1].0) + IfSet(flags, 4, t[2].0) + IfSet(flags, 8, t[3].0)
  {
    assert RenderFirst(t, flags, 0) == "";
    assert RenderFirst(t, flags, 1) == IfSet(flags, 1, t[0].0);
    assert RenderFirst(t, flags, 2) == RenderFirst(t, flags, 1) + IfSet(flags, 2, t[1].0);
    assert RenderFirst(t, flags, 3) == RenderFirst(t, flags, 2) + IfSet(flags, 4, t[2].0);
    assert RenderFirst(t, flags, 4) == RenderFirst(t, flags, 3) + IfSet(flags, 8, t[3].0);
    assert RenderFirst(t, flags, 5) == RenderFirst(t, flags, 4);
  }
}
