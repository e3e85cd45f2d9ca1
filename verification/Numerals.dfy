/** Numbers written in a base from 2 to 16, with Python's reading rules: digits of
    either case, and single underscores between digits. */
module Numerals {
  import opened Outcomes
  import opened Text

  function DigitOf(c: char): (d: nat)
  {
    if '0' <= c <= '9' then c as int - 48
    else if 'a' <= c <= 'f' then c as int - 87
    else if 'A' <= c <= 'F' then c as int - 55
    else 16
  }

  function CharOf(d: nat): (c: char)
    requires d < 16
    ensures DigitOf(c) == d && DigitOf(UpperChar(c)) == d
    ensures forall base :: d < base ==> IsPlainDigit(c, base)
  {
    if d < 10 then (48 + d) as char else (87 + d) as char
  }

  predicate AllDigits(s: string, base: nat) {
    forall i :: 0 <= i < |s| ==> DigitOf(s[i]) < base
  }

  function ValueOf(s: string, base: nat): nat {
    if s == "" then 0 else ValueOf(s[..|s| - 1], base) * base + DigitOf(s[|s| - 1])
  }

  predicate IsPlainDigit(c: char, base: nat) {
    c != '_' && !IsSpace(c) && DigitOf(c) < base && (base <= 10 ==> IsDigit(c))
  }

  lemma FactorShrinks(q: nat, base: nat, r: nat)
    requires 2 <= base && 0 < q * base + r
    ensures q < q * base + r
  {
    assert q * base == 2 * q + q * (base - 2);
  }

  lemma DivideShrinks(n: nat, base: nat)
    requires 2 <= base <= n
    ensures 0 <= n / base < n && 0 <= n % base < base && n == (n / base) * base + n % base
  {
    FactorShrinks(n / base, base, n % base);
  }

  function Numeral(n: nat, base: nat): (s: string)
    requires 2 <= base <= 16
    ensures s != "" && forall i :: 0 <= i < |s| ==> IsPlainDigit(s[i], base)
    decreases n
  {
    if n < base then [CharOf(n)]
    else
      DivideShrinks(n, base);
      Numeral(n / base, base) + [CharOf(n % base)]
  }

  function Zeros(k: nat): (s: string)
    ensures |s| == k && forall i :: 0 <= i < k ==> s[i] == '0'
  {
    seq(k, _ => '0')
  }

  /** Zero-filled on the left to at least `width` characters. */
  function Padded(s: string, width: nat): string {
    Zeros(if |s| < width then width - |s| else 0) + s
  }

  lemma {:induction false} ValueOfNumeral(n: nat, base: nat)
    requires 2 <= base <= 16
    ensures ValueOf(Numeral(n, base), base) == n
    decreases n
  {
    var s := Numeral(n, base);
    if n < base {
      assert s[..|s| - 1] == "";
    } else {
      DivideShrinks(n, base);
      assert s[..|s| - 1] == Numeral(n / base, base);
      ValueOfNumeral(n / base, base);
    }
  }

  lemma {:induction false} ValueOfZeros(k: nat, s: string, base: nat)
    ensures ValueOf(Zeros(k) + s, base) == ValueOf(s, base)
    decreases k + |s|
  {
    var t := Zeros(k) + s;
    if s != "" {
      assert t[..|t| - 1] == Zeros(k) + s[..|s| - 1];
      ValueOfZeros(k, s[..|s| - 1], base);
    } else if k > 0 {
      assert t[..|t| - 1] == Zeros(k - 1) + s;
      ValueOfZeros(k - 1, s, base);
    }
  }

  lemma {:induction false} ValueOfUpper(s: string, base: nat)
    requires AllDigits(s, base) && base <= 16
    ensures ValueOf(Upper(s), base) == ValueOf(s, base)
  {
    if s != "" {
      assert Upper(s)[..|s| - 1] == Upper(s[..|s| - 1]);
      ValueOfUpper(s[..|s| - 1], base);
    }
  }

  function DropUnderscores(s: string): string {
    if s == "" then ""
    else if s[0] == '_' then DropUnderscores(s[1..])
    else [s[0]] + DropUnderscores(s[1..])
  }

  lemma {:induction false} NoUnderscores(s: string)
    requires forall i :: 0 <= i < |s| ==> s[i] != '_'
    ensures DropUnderscores(s) == s
  {
    if s != "" { NoUnderscores(s[1..]); }
  }

  predicate DoubledAt(s: string, i: nat)
    requires i < |s| - 1
  {
    s[i] == '_' && s[i + 1] == '_'
  }

  /** Digits in which every underscore stands between two digits. */
  predicate Grouped(s: string, base: nat) {
    s != "" && s[0] != '_' && s[|s| - 1] != '_' &&
    (forall i :: 0 <= i < |s| ==> s[i] == '_' || DigitOf(s[i]) < base) &&
    (forall i :: 0 <= i < |s| - 1 ==> !DoubledAt(s, i))
  }

  function ReadGrouped(s: string, base: nat): Option<nat> {
    if Grouped(s, base) then Some(ValueOf(DropUnderscores(s), base)) else None
  }

  lemma ReadPlain(s: string, base: nat)
    requires s != "" && forall i :: 0 <= i < |s| ==> s[i] != '_' && DigitOf(s[i]) < base
    ensures ReadGrouped(s, base) == Some(ValueOf(s, base))
  {
    NoUnderscores(s);
  }

  lemma PaddedIsPlain(t: string, base: nat, width: nat)
    requires 2 <= base <= 16 && t != "" && forall i :: 0 <= i < |t| ==> IsPlainDigit(t[i], base)
    ensures var s := Padded(t, width);
      && s != "" && |s| >= width
      && (forall i :: 0 <= i < |s| ==> IsPlainDigit(s[i], base))
      && (forall i :: 0 <= i < |s| ==> Upper(s)[i] != '_' && DigitOf(Upper(s)[i]) < base)
  {
    var s := Padded(t, width);
    forall i | 0 <= i < |s|
      ensures IsPlainDigit(s[i], base) && UpperChar(s[i]) != '_' && DigitOf(UpperChar(s[i])) < base {
      assert |s| - |t| <= i ==> s[i] == t[i - (|s| - |t|)];
    }
  }

  lemma ReadPadded(t: string, base: nat, width: nat)
    requires 2 <= base <= 16 && t != "" && forall i :: 0 <= i < |t| ==> IsPlainDigit(t[i], base)
    ensures ReadGrouped(Padded(t, width), base) == Some(ValueOf(t, base))
    ensures ReadGrouped(Upper(Padded(t, width)), base) == Some(ValueOf(t, base))
  {
    var s := Padded(t, width);
    PaddedIsPlain(t, base, width);
    ReadPlain(s, base);
    ReadPlain(Upper(s), base);
    ValueOfUpper(s, base);
    ValueOfZeros(if |t| < width then width - |t| else 0, t, base);
  }

  /** Reading a zero-filled numeral, in either case, gives back the number. */
  lemma ReadNumeral(n: nat, base: nat, width: nat)
    requires 2 <= base <= 16
    ensures ReadGrouped(Padded(Numeral(n, base), width), base) == Some(n)
    ensures ReadGrouped(Upper(Padded(Numeral(n, base), width)), base) == Some(n)
  {
    ReadPadded(Numeral(n, base), base, width);
    ValueOfNumeral(n, base);
  }

  /** Decimal digits with no zero in front, unless the text is "0" itself. */
  predicate Canonical(s: string) {
    s != "" && (forall i :: 0 <= i < |s| ==> IsDigit(s[i])) && (s == "0" || s[0] != '0')
  }

  lemma {:induction false} PositiveValue(s: string)
    requires Canonical(s) && s != "0"
    ensures ValueOf(s, 10) > 0
  {
    if |s| == 1 {
      assert s[..0] == "";
      assert s == [s[0]];
    } else {
      assert s[..|s| - 1] != "0";
      PositiveValue(s[..|s| - 1]);
    }
  }

  lemma CharBack(c: char)
    requires IsDigit(c)
    ensures DigitOf(c) < 10 && CharOf(DigitOf(c)) == c
  {
  }

  lemma NumeralStep(v: nat, d: nat)
    requires v > 0 && d < 10
    ensures Numeral(v * 10 + d, 10) == Numeral(v, 10) + [CharOf(d)]
  {
    assert (v * 10 + d) / 10 == v && (v * 10 + d) % 10 == d;
  }

  /** A canonical text is the numeral of its value, so equal values mean equal texts. */
  lemma {:induction false} CanonicalNumeral(s: string)
    requires Canonical(s)
    ensures Numeral(ValueOf(s, 10), 10) == s
  {
    var last := s[|s| - 1];
    CharBack(last);
    if |s| == 1 {
      assert s[..0] == "";
      assert s == [last];
    } else {
      var front := s[..|s| - 1];
      assert Canonical(front) && front != "0";
      PositiveValue(front);
      CanonicalNumeral(front);
      NumeralStep(ValueOf(front, 10), DigitOf(last));
      assert s == front + [last];
    }
  }

  lemma {:induction false} NumeralCanonical(n: nat)
    ensures Canonical(Numeral(n, 10))
    decreases n
  {
    if n >= 10 {
      NumeralCanonical(n / 10);
      ValueOfNumeral(n / 10, 10);
    }
  }

  lemma NumeralLength(n: nat)
    requires n <= 999
    ensures |Numeral(n, 10)| <= 3
  {
    assert n >= 10 ==> Numeral(n, 10) == Numeral(n / 10, 10) + [CharOf(n % 10)];
    assert n >= 100 ==> Numeral(n / 10, 10) == Numeral(n / 100, 10) + [CharOf(n / 10 % 10)];
  }

  /** The digits are the usual ones, in either case; every other character is none. */
  lemma DigitsAre(c: char, d: nat)
    requires d < 16
    ensures DigitOf(c) == d <==> c == "0123456789abcdef"[d] || c == "0123456789ABCDEF"[d]
    ensures CharOf(d) == "0123456789abcdef"[d]
  {
    DigitIs("0123456789abcdef", "0123456789ABCDEF", c, d);
  }

  lemma DigitIs(small: string, large: string, c: char, d: nat)
    requires |small| == 16 && |large| == 16 && d < 16
    requires forall k :: 0 <= k < 10 ==> small[k] as int == 48 + k && large[k] as int == 48 + k
    requires forall k :: 10 <= k < 16 ==> small[k] as int == 87 + k && large[k] as int == 55 + k
    ensures DigitOf(c) == d <==> c == small[d] || c == large[d]
    ensures CharOf(d) == small[d]
  {
  }

  /** Digits alone, at least one. */
  predicate IsRun(s: string, base: nat) {
    s != "" && AllDigits(s, base)
  }

  predicate AreRuns(parts: seq<string>, base: nat) {
    forall k :: 0 <= k < |parts| ==> IsRun(parts[k], base)
  }

  function Concat(parts: seq<string>): string {
    if parts == [] then "" else parts[0] + Concat(parts[1..])
  }

  /** The characters and pairs of a text with an underscore between two others. */
  lemma AroundUnderscore(a: string, rest: string, s: string)
    requires s == a + "_" + rest
    ensures |s| == |a| + 1 + |rest| && s[|a|] == '_'
    ensures forall i :: 0 <= i < |a| ==> s[i] == a[i]
    ensures forall i :: |a| < i < |s| ==> s[i] == rest[i - |a| - 1]
  {
  }

  lemma GroupedParts(a: string, rest: string, base: nat)
    requires '_' !in a && base <= 16 && Grouped(a + "_" + rest, base)
    ensures IsRun(a, base) && Grouped(rest, base)
  {
    var s := a + "_" + rest;
    AroundUnderscore(a, rest, s);
    assert a != "" by { assert s[0] != '_'; }
    assert rest != "" by { assert s[|s| - 1] != '_'; }
    assert !DoubledAt(s, |a|);
    forall i | 0 <= i < |a| ensures DigitOf(a[i]) < base { assert s[i] == a[i] && a[i] in a; }
    forall i | 0 <= i < |rest| - 1 ensures !DoubledAt(rest, i) { assert !DoubledAt(s, |a| + 1 + i); }
    forall i | 0 <= i < |rest| ensures rest[i] == '_' || DigitOf(rest[i]) < base {
      assert s[|a| + 1 + i] == '_' || DigitOf(s[|a| + 1 + i]) < base;
    }
  }

  lemma GroupedWhole(a: string, rest: string, base: nat)
    requires '_' !in a && base <= 16 && IsRun(a, base) && Grouped(rest, base)
    ensures Grouped(a + "_" + rest, base)
  {
    var s := a + "_" + rest;
    AroundUnderscore(a, rest, s);
    assert a[0] in a && s[0] == a[0];
    assert s[|s| - 1] == rest[|rest| - 1];
    forall i | 0 <= i < |s| - 1 ensures !DoubledAt(s, i) {
      if i < |a| {
        assert a[i] in a;
      } else if i > |a| {
        assert !DoubledAt(rest, i - |a| - 1);
      }
    }
    forall i | 0 <= i < |s| ensures s[i] == '_' || DigitOf(s[i]) < base {
      if i > |a| { assert rest[i - |a| - 1] == '_' || DigitOf(rest[i - |a| - 1]) < base; }
    }
  }

  lemma {:induction false} DropFirst(a: string, rest: string)
    requires '_' !in a
    ensures DropUnderscores(a + "_" + rest) == a + DropUnderscores(rest)
  {
    var s := a + "_" + rest;
    if a == "" {
      assert s[1..] == rest;
    } else {
      DropFirst(a[1..], rest);
      assert s[1..] == a[1..] + "_" + rest;
    }
  }

  lemma OneRun(s: string, base: nat)
    requires forall i :: 0 <= i < |s| ==> s[i] != '_'
    ensures Grouped(s, base) <==> IsRun(s, base)
    ensures DropUnderscores(s) == s
  {
    NoUnderscores(s);
    if Grouped(s, base) {
      forall i | 0 <= i < |s| ensures DigitOf(s[i]) < base { assert s[i] == '_' || DigitOf(s[i]) < base; }
    }
  }

  /** What is read is runs of digits with one underscore between two of them, and the value
      is that of the digits. */
  lemma {:induction false} GroupedIff(s: string, base: nat)
    requires base <= 16
    ensures Grouped(s, base) <==> AreRuns(Split(s, '_'), base)
    ensures DropUnderscores(s) == Concat(Split(s, '_'))
    decreases |s|
  {
    var i := IndexOf(s, '_');
    if i == |s| {
      OneRun(s, base);
      assert Split(s, '_') == [s];
      assert [s][0] == s && Concat([s]) == s + Concat([s][1..]);
    } else {
      var a, rest := s[..i], s[i + 1..];
      assert s == a + "_" + rest;
      if Grouped(s, base) { GroupedParts(a, rest, base); }
      if IsRun(a, base) && Grouped(rest, base) { GroupedWhole(a, rest, base); }
      DropFirst(a, rest);
      GroupedIff(rest, base);
      RunsFirst(a, Split(rest, '_'), base);
      assert Split(s, '_') == [a] + Split(rest, '_');
    }
  }

  lemma RunsFirst(a: string, parts: seq<string>, base: nat)
    ensures AreRuns([a] + parts, base) <==> IsRun(a, base) && AreRuns(parts, base)
    ensures Concat([a] + parts) == a + Concat(parts)
  {
    var all := [a] + parts;
    assert all[1..] == parts;
    if AreRuns(all, base) {
      assert IsRun(all[0], base);
      forall k | 0 <= k < |parts| ensures IsRun(parts[k], base) { assert IsRun(all[k + 1], base); }
    }
  }
}
