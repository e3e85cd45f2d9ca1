/** The string operations the backend leans on, over sequences of characters.
    Case mapping and digits are those of ASCII; whitespace is the full set that
    Python's `strip` and the regular-expression class `\s` share. */
module Text {
  predicate IsSpace(c: char) {
    var n := c as int;
    9 <= n <= 13 || 28 <= n <= 32 || n == 0x85 || n == 0xA0 || n == 0x1680 ||
    0x2000 <= n <= 0x200A || n == 0x2028 || n == 0x2029 || n == 0x202F || n == 0x205F || n == 0x3000
  }

  predicate IsDigit(c: char) {
    '0' <= c <= '9'
  }

  function UpperChar(c: char): char {
    if 'a' <= c <= 'z' then (c as int - 32) as char else c
  }

  function LowerChar(c: char): char {
    if 'A' <= c <= 'Z' then (c as int + 32) as char else c
  }

  function Upper(s: string): (r: string)
    ensures |r| == |s| && forall i :: 0 <= i < |s| ==> r[i] == UpperChar(s[i])
  {
    seq(|s|, i requires 0 <= i < |s| => UpperChar(s[i]))
  }

  function Lower(s: string): (r: string)
    ensures |r| == |s| && forall i :: 0 <= i < |s| ==> r[i] == LowerChar(s[i])
  {
    seq(|s|, i requires 0 <= i < |s| => LowerChar(s[i]))
  }

  lemma SameRest(a: string, x: string, y: string)
    requires a + x == a + y
    ensures x == y
  {
    assert (a + x)[|a|..] == x && (a + y)[|a|..] == y;
  }

  lemma ConcatAssociates(a: string, b: string, c: string)
    ensures a + (b + c) == (a + b) + c
  {
  }

  // --- strip ---------------------------------------------------------------

  predicate Trimmed(s: string) {
    s == "" || (!IsSpace(s[0]) && !IsSpace(s[|s| - 1]))
  }

  function Strip(s: string): (r: string)
    ensures Trimmed(r)
  {
    if s != "" && IsSpace(s[0]) then Strip(s[1..])
    else if s != "" && IsSpace(s[|s| - 1]) then Strip(s[..|s| - 1])
    else s
  }

  lemma {:induction false} StripChars(s: string, c: char)
    requires c in Strip(s)
    ensures c in s
  {
    if s != "" && IsSpace(s[0]) {
      StripChars(s[1..], c);
    } else if s != "" && IsSpace(s[|s| - 1]) {
      StripChars(s[..|s| - 1], c);
    }
  }

  function StripRight(s: string): string {
    if s != "" && IsSpace(s[|s| - 1]) then StripRight(s[..|s| - 1]) else s
  }

  lemma StripTrimmed(s: string)
    requires Trimmed(s)
    ensures Strip(s) == s
  {
  }

  predicate AllSpaces(s: string) {
    forall i :: 0 <= i < |s| ==> IsSpace(s[i])
  }

  /** The whole is the text with nothing but spaces before and after it. */
  predicate Wraps(whole: string, a: string, t: string, b: string) {
    AllSpaces(a) && AllSpaces(b) && whole == a + t + b
  }

  lemma SpaceBefore(s: string, a: string, t: string, b: string)
    requires s != "" && IsSpace(s[0]) && Wraps(s[1..], a, t, b)
    ensures Wraps(s, [s[0]] + a, t, b)
  {
    assert s == [s[0]] + s[1..];
  }

  lemma SpaceAfter(s: string, a: string, t: string, b: string)
    requires s != "" && IsSpace(s[|s| - 1]) && Wraps(s[..|s| - 1], a, t, b)
    ensures Wraps(s, a, t, b + [s[|s| - 1]])
  {
    assert s == s[..|s| - 1] + [s[|s| - 1]];
  }

  /** Stripping takes away the spaces at both ends, and nothing else. */
  lemma {:induction false} StripExact(s: string)
    ensures exists a, b :: Wraps(s, a, Strip(s), b)
  {
    if s != "" && IsSpace(s[0]) {
      StripExact(s[1..]);
      var a, b :| Wraps(s[1..], a, Strip(s), b);
      SpaceBefore(s, a, Strip(s), b);
    } else if s != "" && IsSpace(s[|s| - 1]) {
      StripExact(s[..|s| - 1]);
      var a, b :| Wraps(s[..|s| - 1], a, Strip(s), b);
      SpaceAfter(s, a, Strip(s), b);
    } else {
      assert Wraps(s, "", Strip(s), "");
    }
  }

  /** The letters come in pairs; every other character is its own upper and lower case. */
  lemma LettersPair(c: char, k: nat)
    requires k < 26
    ensures UpperChar("abcdefghijklmnopqrstuvwxyz"[k]) == "ABCDEFGHIJKLMNOPQRSTUVWXYZ"[k]
    ensures LowerChar("ABCDEFGHIJKLMNOPQRSTUVWXYZ"[k]) == "abcdefghijklmnopqrstuvwxyz"[k]
    ensures c !in "abcdefghijklmnopqrstuvwxyz" ==> UpperChar(c) == c
    ensures c !in "ABCDEFGHIJKLMNOPQRSTUVWXYZ" ==> LowerChar(c) == c
  {
    Alphabets("abcdefghijklmnopqrstuvwxyz", "ABCDEFGHIJKLMNOPQRSTUVWXYZ", c, k);
  }

  lemma Alphabets(small: string, large: string, c: char, k: nat)
    requires |small| == 26 && |large| == 26 && k < 26
    requires forall i :: 0 <= i < 26 ==> small[i] as int == 97 + i && large[i] as int == 65 + i
    ensures UpperChar(small[k]) == large[k] && LowerChar(large[k]) == small[k]
    ensures c !in small ==> UpperChar(c) == c
    ensures c !in large ==> LowerChar(c) == c
  {
    if 'a' <= c <= 'z' { assert small[c as int - 97] == c; }
    if 'A' <= c <= 'Z' { assert large[c as int - 65] == c; }
  }

  // --- split and join on one character -------------------------------------

  function IndexOf(s: string, c: char): (i: nat)
    ensures i <= |s| && (forall k :: 0 <= k < i ==> s[k] != c)
    ensures i < |s| ==> s[i] == c
  {
    if s == "" || s[0] == c then 0 else 1 + IndexOf(s[1..], c)
  }

  function Split(s: string, sep: char): (parts: seq<string>)
    ensures |parts| >= 1
  {
    var i := IndexOf(s, sep);
    if i == |s| then [s] else [s[..i]] + Split(s[i + 1..], sep)
  }

  lemma {:induction false} SplitChars(s: string, sep: char, p: string, c: char)
    requires p in Split(s, sep) && c in p
    ensures c != sep && c in s
  {
    var i := IndexOf(s, sep);
    if i < |s| && p != s[..i] {
      SplitChars(s[i + 1..], sep, p, c);
    }
  }

  function Join(parts: seq<string>, sep: char): string
    requires |parts| >= 1
  {
    if |parts| == 1 then parts[0] else parts[0] + [sep] + Join(parts[1..], sep)
  }

  lemma IndexOfIs(s: string, c: char, i: nat)
    requires i <= |s| && (forall k :: 0 <= k < i ==> s[k] != c) && (i < |s| ==> s[i] == c)
    ensures IndexOf(s, c) == i
  {
  }

  lemma {:induction false} SplitJoin(parts: seq<string>, sep: char)
    requires |parts| >= 1 && forall p :: p in parts ==> sep !in p
    ensures Split(Join(parts, sep), sep) == parts
  {
    var s := Join(parts, sep);
    assert sep !in parts[0];
    if |parts| == 1 {
      IndexOfIs(s, sep, |s|);
    } else {
      assert s[..|parts[0]|] == parts[0];
      IndexOfIs(s, sep, |parts[0]|);
      assert s[|parts[0]| + 1..] == Join(parts[1..], sep);
      SplitJoin(parts[1..], sep);
    }
  }

  lemma JoinFirst(parts: seq<string>, first: string, rest: seq<string>, sep: char)
    requires rest != [] && parts == [first] + rest
    ensures Join(parts, sep) == first + [sep] + Join(rest, sep)
  {
    assert parts[1..] == rest;
  }

  lemma {:induction false} JoinSplit(s: string, sep: char)
    ensures Join(Split(s, sep), sep) == s
  {
    var i := IndexOf(s, sep);
    if i < |s| {
      JoinSplit(s[i + 1..], sep);
      JoinFirst(Split(s, sep), s[..i], Split(s[i + 1..], sep), sep);
      assert s == s[..i] + [sep] + s[i + 1..];
    }
  }

  lemma {:induction false} JoinChars(parts: seq<string>, sep: char, c: char)
    requires |parts| >= 1 && c in Join(parts, sep)
    ensures c == sep || exists p :: p in parts && c in p
  {
    if |parts| > 1 && c != sep && c !in parts[0] {
      JoinChars(parts[1..], sep, c);
      var p :| p in parts[1..] && c in p;
      assert p in parts;
    }
  }

  // --- lists separated by commas and whitespace -----------------------------

  predicate IsListSeparator(c: char) {
    c == ',' || IsSpace(c)
  }

  /** Where the first list separator stands, or the length when there is none. */
  function SeparatorIndex(s: string): (i: nat)
    ensures i <= |s| && (forall k :: 0 <= k < i ==> !IsListSeparator(s[k]))
    ensures i < |s| ==> IsListSeparator(s[i])
  {
    if s == "" || IsListSeparator(s[0]) then 0 else 1 + SeparatorIndex(s[1..])
  }

  predicate IsItem(s: string) {
    s != "" && forall k :: 0 <= k < |s| ==> !IsListSeparator(s[k])
  }

  /** The non-empty pieces between runs of commas and whitespace, in order. */
  function Items(s: string): (items: seq<string>)
    ensures forall x :: x in items ==> IsItem(x)
    decreases |s|
  {
    if s == "" then []
    else
      var i := SeparatorIndex(s);
      if i == 0 then Items(s[1..])
      else [s[..i]] + Items(s[i..])
  }

  function JoinSpaces(items: seq<string>): string {
    if items == [] then "" else Join(items, ' ')
  }

  lemma SeparatorIndexIs(s: string, i: nat)
    requires i <= |s| && (forall k :: 0 <= k < i ==> !IsListSeparator(s[k]))
    requires i < |s| ==> IsListSeparator(s[i])
    ensures SeparatorIndex(s) == i
  {
  }

  lemma {:induction false} ItemsOfJoined(items: seq<string>)
    requires forall x :: x in items ==> IsItem(x)
    ensures Items(JoinSpaces(items)) == items
  {
    if items != [] {
      var s := JoinSpaces(items);
      assert IsItem(items[0]);
      var rest := items[1..];
      SeparatorIndexIs(s, |items[0]|);
      if rest == [] {
        assert s[..|items[0]|] == items[0] && s[|items[0]|..] == "";
      } else {
        assert s[..|items[0]|] == items[0];
        assert s[|items[0]|..] == " " + JoinSpaces(rest);
        assert (" " + JoinSpaces(rest))[1..] == JoinSpaces(rest);
        ItemsOfJoined(rest);
      }
    }
  }

  lemma ItemsSkip(s: string)
    requires s != "" && IsListSeparator(s[0])
    ensures Items(s) == Items(s[1..])
  {
    SeparatorIndexIs(s, 0);
  }

  lemma ItemsTake(s: string, i: nat)
    requires 0 < i <= |s| && SeparatorIndex(s) == i
    ensures Items(s) == [s[..i]] + Items(s[i..])
  {
  }

  lemma CutBefore(a: string, c: char, b: string, s: string, i: nat)
    requires s == a + [c] + b && i <= |a|
    ensures |s| == |a| + 1 + |b| && s[..i] == a[..i] && s[i..] == a[i..] + [c] + b
  {
  }

  lemma ListAssociates(x: seq<string>, y: seq<string>, z: seq<string>)
    ensures x + (y + z) == (x + y) + z
  {
  }

  /** A comma or a space anywhere separates, ... */
  lemma {:induction false} ItemsApart(a: string, c: char, b: string)
    requires c == ',' || IsSpace(c)
    ensures Items(a + [c] + b) == Items(a) + Items(b)
    decreases |a|
  {
    var s := a + [c] + b;
    var i := SeparatorIndex(a);
    if a == "" {
      assert s[0] == c && s[1..] == b;
      ItemsSkip(s);
    } else if i == 0 {
      CutBefore(a, c, b, s, 1);
      ItemsSkip(a);
      ItemsSkip(s);
      ItemsApart(a[1..], c, b);
    } else {
      CutBefore(a, c, b, s, i);
      FirstSeparator(a, c, b, s);
      ItemsTake(a, i);
      ItemsTake(s, i);
      ItemsApart(a[i..], c, b);
      ListAssociates([a[..i]], Items(a[i..]), Items(b));
    }
  }

  lemma FirstSeparator(a: string, c: char, b: string, s: string)
    requires s == a + [c] + b && IsListSeparator(c)
    ensures SeparatorIndex(s) == SeparatorIndex(a)
  {
    var i := SeparatorIndex(a);
    assert forall k :: 0 <= k < |a| ==> s[k] == a[k];
    assert s[|a|] == c;
    SeparatorIndexIs(s, i);
  }

  /** ... and nothing else does. */
  lemma OneItem(s: string)
    requires s != "" && forall i :: 0 <= i < |s| ==> s[i] != ',' && !IsSpace(s[i])
    ensures Items(s) == [s] && Strip(s) == s
  {
    SeparatorIndexIs(s, |s|);
    assert s[..|s|] == s && s[|s|..] == "";
    StripTrimmed(s);
  }

  /** Space at the ends makes no difference to the items. */
  lemma {:induction false} ItemsOfStripped(s: string)
    ensures Items(Strip(s)) == Items(s)
  {
    if s != "" && IsSpace(s[0]) {
      ItemsOfStripped(s[1..]);
      ItemsApart("", s[0], s[1..]);
      assert "" + [s[0]] + s[1..] == s;
    } else if s != "" && IsSpace(s[|s| - 1]) {
      ItemsOfStripped(s[..|s| - 1]);
      ItemsApart(s[..|s| - 1], s[|s| - 1], "");
      assert s[..|s| - 1] + [s[|s| - 1]] + "" == s;
    }
  }

  /** Of the ASCII characters these are the spaces. */
  lemma AsciiSpaces(c: char)
    requires c as int < 128
    ensures IsSpace(c) <==> c in {' ', '\t', '\n', '\r'} || c as int in {11, 12, 28, 29, 30, 31}
  {
  }
}
