/** A value is accepted exactly when it means something, and its normal form is stable and
    means the same; a form is refused exactly for an option that has no meaning, and keeps
    each option as last submitted; option names settle exactly when no underscore stands at
    either end. */
module ShareConfLaws {
  import opened Outcomes
  import opened Text
  import opened ShareConf
  import Numerals

  // --- values ---------------------------------------------------------------------------

  /** What a value says, whatever its spelling. */
  datatype Meaning =
    | Truth(b: bool) | Permissions(bits: nat) | Number(n: nat) | Pick(folded: string)
    | Words(items: seq<string>) | Exactly(text: string)

  predicate IsOctal(s: string) {
    forall i :: 0 <= i < |s| ==> s[i] in "01234567"
  }

  /** Decimal digits, perhaps in several runs with one underscore between two of them. */
  function WholeNumber(s: string): Option<nat> {
    var parts := Split(s, '_');
    if Numerals.AreRuns(parts, 10) then Some(Numerals.ValueOf(Numerals.Concat(parts), 10)) else None
  }

  /** What a trimmed text means as an option of this type, if anything. */
  function MeaningOf(t: OptionType, text: string): Option<Meaning> {
    match t
    case Bool =>
      if Lower(text) in ["yes", "true", "1", "on"] then Some(Truth(true))
      else if Lower(text) in ["no", "false", "0", "off"] then Some(Truth(false))
      else None
    case Mode =>
      if IsOctal(text) && (|text| == 3 || |text| == 4 || (|text| == 5 && text[0] == '0')) then
        Some(Permissions(Numerals.ValueOf(text, 8)))
      else None
    case Int =>
      if "-" <= text then (if WholeNumber(text[1..]) == Some(0) then Some(Number(0)) else None)
      else
        (match WholeNumber(if "+" <= text then text[1..] else text)
         case Some(n) => Some(Number(n))
         case None => None)
    case Choice(choices) =>
      if exists i :: 0 <= i < |choices| && Lower(choices[i]) == Lower(text) then Some(Pick(Lower(text))) else None
    case List => Some(Words(Items(text)))
    case Plain => Some(Exactly(text))
  }

  /** The one spelling with that meaning which is stored for a text of this length. */
  ghost predicate IsSpelling(t: OptionType, m: Meaning, length: nat, s: string) {
    match t
    case Bool => m.Truth? && s == if m.b then "yes" else "no"
    case Mode => IsOctal(s) && |s| == if length < 4 then 4 else length
    case Int => m.Number? && s == Numerals.Numeral(m.n, 10)
    case Choice(choices) => m.Pick? && exists i: nat :: IsFirst(choices, m.folded, i) && choices[i] == s
    case List => m.Words? && s == JoinSpaces(m.items)
    case Plain => m.Exactly? && s == m.text
  }

  predicate IsFirst(choices: seq<string>, folded: string, i: nat) {
    i < |choices| && Lower(choices[i]) == folded && forall j :: 0 <= j < i ==> Lower(choices[j]) != folded
  }

  /** A value is accepted exactly when it means something; the answer is the spelling of that
      meaning, means the same, and is its own answer. */
  ghost predicate Settles(t: OptionType, value: string) {
    var r, m := ValidateValue(t, value), MeaningOf(t, Strip(value));
    && (r.Some? <==> m.Some?)
    && (r.Some? ==>
          && IsSpelling(t, m.value, |Strip(value)|, r.value)
          && MeaningOf(t, Strip(r.value)) == m
          && ValidateValue(t, r.value) == r)
  }

  lemma BoolSettles(value: string)
    ensures Settles(Bool, value)
  {
    assert Strip("yes") == "yes" && Lower("yes") == "yes";
    assert Strip("no") == "no" && Lower("no") == "no";
  }

  lemma OctalIff(s: string)
    ensures IsOctal(s) <==> OctalDigits(s)
  {
    forall i | 0 <= i < |s| ensures s[i] in "01234567" <==> '0' <= s[i] <= '7' {
      OctalChar(s[i], "01234567");
    }
  }

  lemma OctalChar(c: char, digits: string)
    requires |digits| == 8 && forall k :: 0 <= k < 8 ==> digits[k] as int == 48 + k
    ensures c in digits <==> '0' <= c <= '7'
  {
    if '0' <= c <= '7' { assert digits[c as int - 48] == c; }
  }

  lemma OctalText(s: string)
    requires s != "" && OctalDigits(s)
    ensures Strip(s) == s
  {
    StripTrimmed(s);
  }

  lemma ModeSettles(value: string)
    ensures Settles(Mode, value)
  {
    var text := Strip(value);
    ModeMeans(text);
    if IsMode(text) {
      var r := Numerals.Padded(text, 4);
      PaddedMode(text, r);
      ModeMeans(r);
    }
  }

  lemma ModeMeans(text: string)
    ensures MeaningOf(Mode, text) == if IsMode(text) then Some(Permissions(Numerals.ValueOf(text, 8))) else None
  {
    OctalIff(text);
  }

  lemma PaddedMode(text: string, r: string)
    requires IsMode(text) && r == Numerals.Padded(text, 4)
    ensures IsMode(r) && IsOctal(r) && |r| == (if |text| < 4 then 4 else |text|)
    ensures Strip(r) == r && Numerals.Padded(r, 4) == r && Numerals.ValueOf(r, 8) == Numerals.ValueOf(text, 8)
  {
    var k := if |text| < 4 then 4 - |text| else 0;
    ZeroedOctal(k, text, r);
    Numerals.ValueOfZeros(k, text, 8);
    NoPadding(r);
  }

  lemma ZeroedOctal(k: nat, text: string, r: string)
    requires OctalDigits(text) && text != "" && r == Numerals.Zeros(k) + text
    ensures |r| == k + |text| && OctalDigits(r) && IsOctal(r) && Strip(r) == r
    ensures k == 0 ==> r == text
  {
    forall i | 0 <= i < |r| ensures '0' <= r[i] <= '7' {
      assert i >= k ==> r[i] == text[i - k];
    }
    OctalText(r);
    OctalIff(r);
  }

  lemma NoPadding(r: string)
    requires |r| >= 4
    ensures Numerals.Padded(r, 4) == r
  {
  }

  lemma WholeIsRead(s: string)
    ensures WholeNumber(s) == Numerals.ReadGrouped(s, 10)
  {
    Numerals.GroupedIff(s, 10);
  }

  /** A text is read as a number that is not negative exactly when it means one. */
  lemma IntMeans(text: string)
    ensures var n, m := ReadInt(text), MeaningOf(Int, text);
      (m.Some? <==> n.Some? && n.value >= 0) && (m.Some? ==> m == Some(Number(n.value)))
  {
    if text != "" {
      SignIs(text, '+', "+");
      SignIs(text, '-', "-");
      WholeIsRead(text[1..]);
    }
    WholeIsRead(text);
  }

  lemma SignIs(text: string, c: char, sign: string)
    requires text != "" && sign == [c]
    ensures sign <= text <==> text[0] == c
  {
  }

  lemma PlainInt(s: string, n: nat)
    requires s != "" && Numerals.IsPlainDigit(s[0], 10) && Numerals.IsPlainDigit(s[|s| - 1], 10)
    requires Numerals.ReadGrouped(s, 10) == Some(n)
    ensures Strip(s) == s && ReadInt(s) == Some(n)
  {
    StripTrimmed(s);
  }

  lemma NumeralText(n: nat)
    ensures var s := Numerals.Numeral(n, 10); Strip(s) == s && ReadInt(s) == Some(n)
  {
    var s := Numerals.Numeral(n, 10);
    Numerals.ReadNumeral(n, 10, 0);
    assert Numerals.Padded(s, 0) == s;
    PlainInt(s, n);
  }

  lemma IntSettles(value: string)
    ensures Settles(Int, value)
  {
    var n := ReadInt(Strip(value));
    IntMeans(Strip(value));
    if n.Some? && n.value >= 0 {
      NumeralText(n.value);
      IntMeans(Numerals.Numeral(n.value, 10));
    }
  }

  /** The choice found is the first one spelled like the text, case aside. */
  lemma {:induction false} FindMeans(choices: seq<string>, text: string)
    ensures var r := FindChoice(choices, text);
      && (r.Some? <==> exists i :: 0 <= i < |choices| && Lower(choices[i]) == Lower(text))
      && (r.Some? ==> exists i: nat :: IsFirst(choices, Lower(text), i) && choices[i] == r.value)
  {
    if choices != [] {
      var rest := choices[1..];
      FindMeans(rest, text);
      if Lower(choices[0]) == Lower(text) {
        assert IsFirst(choices, Lower(text), 0);
      } else {
        if i :| 0 <= i < |choices| && Lower(choices[i]) == Lower(text) { assert rest[i - 1] == choices[i]; }
        if FindChoice(choices, text).Some? {
          var i: nat :| IsFirst(rest, Lower(text), i) && rest[i] == FindChoice(choices, text).value;
          LaterIsFirst(choices, Lower(text), i);
        }
      }
    }
  }

  lemma LaterIsFirst(choices: seq<string>, folded: string, i: nat)
    requires choices != [] && Lower(choices[0]) != folded && IsFirst(choices[1..], folded, i)
    ensures IsFirst(choices, folded, i + 1) && choices[i + 1] == choices[1..][i]
  {
    forall j | 0 <= j < i + 1 ensures Lower(choices[j]) != folded {
      if j > 0 { assert choices[j] == choices[1..][j - 1]; }
    }
  }

  lemma {:induction false} FindAgain(choices: seq<string>, text: string)
    requires FindChoice(choices, text).Some?
    ensures FindChoice(choices, FindChoice(choices, text).value) == FindChoice(choices, text)
  {
    if Lower(choices[0]) != Lower(text) { FindAgain(choices[1..], text); }
  }

  /** The catalogue's spellings carry no space at either end. */
  predicate ChoicesTrimmed(t: OptionType) {
    t.Choice? ==> forall i :: 0 <= i < |t.choices| ==> Trimmed(t.choices[i])
  }

  lemma {:induction false} FoundTrimmed(choices: seq<string>, text: string)
    requires FindChoice(choices, text).Some? && forall i :: 0 <= i < |choices| ==> Trimmed(choices[i])
    ensures Trimmed(FindChoice(choices, text).value)
  {
    if Lower(choices[0]) != Lower(text) { FoundTrimmed(choices[1..], text); }
  }

  lemma ChoiceSettles(t: OptionType, value: string)
    requires t.Choice? && ChoicesTrimmed(t)
    ensures Settles(t, value)
  {
    var text := Strip(value);
    FindMeans(t.choices, text);
    if FindChoice(t.choices, text).Some? {
      FindMeans(t.choices, FindChoice(t.choices, text).value);
      FindAgain(t.choices, text);
      FoundTrimmed(t.choices, text);
      StripTrimmed(FindChoice(t.choices, text).value);
    }
  }

  lemma {:induction false} JoinedTrimmed(items: seq<string>)
    requires forall x :: x in items ==> IsItem(x)
    ensures Trimmed(JoinSpaces(items))
    ensures items != [] ==> JoinSpaces(items) != "" && !IsSpace(JoinSpaces(items)[|JoinSpaces(items)| - 1])
  {
    if items != [] {
      assert IsItem(items[0]);
      if |items| > 1 { JoinedTrimmed(items[1..]); }
    }
  }

  lemma ListSettles(value: string)
    ensures Settles(List, value)
  {
    var items := Items(Strip(value));
    ItemsOfJoined(items);
    JoinedTrimmed(items);
    StripTrimmed(JoinSpaces(items));
  }

  /** For every type and every text, whatever is submitted. */
  lemma ValuesSettle(t: OptionType, value: string)
    requires ChoicesTrimmed(t)
    ensures Settles(t, value)
  {
    match t
    case Bool => BoolSettles(value);
    case Mode => ModeSettles(value);
    case Int => IntSettles(value);
    case Choice(_) => ChoiceSettles(t, value);
    case List => ListSettles(value);
    case Plain => StripTrimmed(Strip(value));
  }

  /** Whatever the choices are, a value is accepted exactly when it means something. */
  lemma AcceptedIff(t: OptionType, value: string)
    ensures ValidateValue(t, value).Some? <==> MeaningOf(t, Strip(value)).Some?
  {
    match t
    case Choice(choices) => FindMeans(choices, Strip(value));
    case _ => ValuesSettle(t, value);
  }

  // --- names ------------------------------------------------------------------------------

  /** An underscore at either end of the trimmed name. */
  predicate OuterUnderscore(name: string) {
    var s := Strip(name);
    s != "" && (s[0] == '_' || s[|s| - 1] == '_')
  }

  lemma NormaliseChars(name: string)
    ensures var n, s := Normalise(name), Strip(name);
      |n| == |s| && forall i :: 0 <= i < |s| ==>
        n[i] == (if s[i] == '_' then ' ' else LowerChar(s[i])) && (IsSpace(n[i]) <==> IsSpace(s[i]) || s[i] == '_')
  {
  }

  lemma SettledName(n: string)
    requires forall i :: 0 <= i < |n| ==> n[i] != '_' && LowerChar(n[i]) == n[i]
    requires Trimmed(n)
    ensures Normalise(n) == n
  {
    StripTrimmed(n);
  }

  lemma {:induction false} StripShortens(s: string)
    ensures |Strip(s)| <= |s|
    ensures !Trimmed(s) ==> |Strip(s)| < |s|
  {
    if s != "" && IsSpace(s[0]) {
      StripShortens(s[1..]);
    } else if s != "" && IsSpace(s[|s| - 1]) {
      StripShortens(s[..|s| - 1]);
    }
  }

  /** Normalising twice is normalising once exactly when the trimmed name neither begins nor
      ends with an underscore. */
  lemma NormaliseSettlesIff(name: string)
    ensures Normalise(Normalise(name)) == Normalise(name) <==> !OuterUnderscore(name)
  {
    var n, s := Normalise(name), Strip(name);
    NormaliseChars(name);
    if OuterUnderscore(name) {
      StripShortens(n);
    } else {
      SettledName(n);
    }
  }

  /** Twice is always enough. */
  lemma TwiceSettles(name: string)
    ensures Normalise(Normalise(Normalise(name))) == Normalise(Normalise(name))
  {
    var n := Normalise(name);
    NormaliseChars(name);
    NormaliseSettlesIff(n);
    if '_' in Strip(n) { StripChars(n, '_'); }
  }

  // --- forms ----------------------------------------------------------------------------------

  /** What a checked form holds: distinct names, already in normal form as written, none of
      them empty or the share's own path or comment. */
  predicate CheckedName(name: string, options: Dict) {
    name != "" && name != PATH && name != COMMENT &&
    exists i :: 0 <= i < |options| && Normalise(options[i].0) == name
  }

  lemma {:induction false} ValidatedShape(catalogue: Catalogue, options: Dict, n: nat)
    requires n <= |options| && ValidateFirst(catalogue, options, n).Ok?
    ensures var d := ValidateFirst(catalogue, options, n).value;
      Distinct(d) && forall k :: 0 <= k < |d| ==> CheckedName(d[k].0, options)
  {
    if n > 0 {
      ValidatedShape(catalogue, options, n - 1);
      var before, d := ValidateFirst(catalogue, options, n - 1).value, ValidateFirst(catalogue, options, n).value;
      var name := Normalise(options[n - 1].0);
      if d != before {
        var value :| d == Put(before, name, value);
        PutDistinct(before, name, value);
        forall k | 0 <= k < |d| ensures CheckedName(d[k].0, options) {
          assert HasKey(d, d[k].0);
          if d[k].0 != name {
            var j :| 0 <= j < |before| && before[j].0 == d[k].0;
            assert CheckedName(before[j].0, options);
          }
        }
      }
    }
  }

  /** An option no form may hold: the share's own path or comment, or a value that means
      nothing to the option it is for. */
  predicate Refused(catalogue: Catalogue, rawName: string, value: Option<string>) {
    var name := Normalise(rawName);
    name == "path" || name == "comment" ||
    (name != "" && name in catalogue && value.Some? && MeaningOf(catalogue[name], Strip(value.value)).None?)
  }

  function RefusalOf(rawName: string): Refusal {
    var name := Normalise(rawName);
    if name == "path" || name == "comment" then NotEditable(name) else InvalidValue(name)
  }

  lemma OptionRefused(catalogue: Catalogue, checked: Dict, rawName: string, value: Option<string>)
    ensures var r := WithOption(catalogue, checked, rawName, value);
      (r.Err? <==> Refused(catalogue, rawName, value)) && (r.Err? ==> r.error == RefusalOf(rawName))
  {
    var name := Normalise(rawName);
    if value.Some? && name in catalogue { AcceptedIff(catalogue[name], value.value); }
  }

  predicate NoneRefused(catalogue: Catalogue, options: Dict, n: nat)
    requires n <= |options|
  {
    forall i :: 0 <= i < n ==> !Refused(catalogue, options[i].0, options[i].1)
  }

  predicate IsFirstRefused(catalogue: Catalogue, options: Dict, i: nat)
    requires i < |options|
  {
    NoneRefused(catalogue, options, i) && Refused(catalogue, options[i].0, options[i].1)
  }

  /** The refusal of the first refused option among the first `n`. */
  predicate NamesFirst(catalogue: Catalogue, options: Dict, n: nat, e: Refusal)
    requires n <= |options|
  {
    exists i :: 0 <= i < n && IsFirstRefused(catalogue, options, i) && e == RefusalOf(options[i].0)
  }

  /** This answer is right for the first `n` options. */
  predicate AnswersForm(catalogue: Catalogue, options: Dict, n: nat, r: Result<Dict, Refusal>)
    requires n <= |options|
  {
    (r.Ok? <==> NoneRefused(catalogue, options, n)) && (r.Err? ==> NamesFirst(catalogue, options, n, r.error))
  }

  /** A form is refused exactly when one of its options is, and the refusal names the first. */
  lemma {:induction false} FormRefusedIff(catalogue: Catalogue, options: Dict, n: nat)
    requires n <= |options|
    ensures AnswersForm(catalogue, options, n, ValidateFirst(catalogue, options, n))
  {
    if n > 0 {
      FormRefusedIff(catalogue, options, n - 1);
      OneMoreOption(catalogue, options, n);
    }
  }

  lemma OneMoreOption(catalogue: Catalogue, options: Dict, n: nat)
    requires 0 < n <= |options|
    requires AnswersForm(catalogue, options, n - 1, ValidateFirst(catalogue, options, n - 1))
    ensures AnswersForm(catalogue, options, n, ValidateFirst(catalogue, options, n))
  {
    var before := ValidateFirst(catalogue, options, n - 1);
    if before.Ok? {
      LastRefused(catalogue, options, n, before.value);
    } else {
      RefusalStays(catalogue, options, n - 1, n);
      StillFirst(catalogue, options, n, before.error);
    }
  }

  lemma StillFirst(catalogue: Catalogue, options: Dict, n: nat, e: Refusal)
    requires 0 < n <= |options| && NamesFirst(catalogue, options, n - 1, e)
    ensures NamesFirst(catalogue, options, n, e) && !NoneRefused(catalogue, options, n)
  {
    var i :| 0 <= i < n - 1 && IsFirstRefused(catalogue, options, i) && e == RefusalOf(options[i].0);
  }

  lemma LastRefused(catalogue: Catalogue, options: Dict, n: nat, before: Dict)
    requires 0 < n <= |options| && NoneRefused(catalogue, options, n - 1)
    requires ValidateFirst(catalogue, options, n - 1) == Ok(before)
    ensures AnswersForm(catalogue, options, n, ValidateFirst(catalogue, options, n))
  {
    ValidateStep(catalogue, options, n - 1, before);
    OptionRefused(catalogue, before, options[n - 1].0, options[n - 1].1);
    OneMore(catalogue, options, n);
  }

  lemma OneMore(catalogue: Catalogue, options: Dict, n: nat)
    requires 0 < n <= |options| && NoneRefused(catalogue, options, n - 1)
    ensures NoneRefused(catalogue, options, n) <==> !Refused(catalogue, options[n - 1].0, options[n - 1].1)
    ensures !NoneRefused(catalogue, options, n) ==> IsFirstRefused(catalogue, options, n - 1)
  {
  }

  /** What a form keeps of a submitted value. */
  function Keeps(catalogue: Catalogue, name: string, value: Option<string>): Option<string> {
    if value.None? then None
    else if name in catalogue then ValidateValue(catalogue[name], value.value)
    else Some(Strip(value.value))
  }

  /** The last of the first `n` options that goes by this name. */
  predicate IsLast(options: Dict, n: nat, i: nat, name: string)
    requires n <= |options|
  {
    i < n && Normalise(options[i].0) == name && forall j :: i < j < n ==> Normalise(options[j].0) != name
  }

  lemma {:induction false} PutAt(d: Dict, name: string, value: Option<string>, k: nat)
    requires Distinct(d) && k < |Put(d, name, value)|
    ensures var p := Put(d, name, value);
      if p[k].0 == name then p[k].1 == value else k < |d| && p[k] == d[k]
  {
    PutDistinct(d, name, value);
    var p := Put(d, name, value);
    var at := if HasKey(d, name) then IndexOfKey(d, name) else |d|;
    assert p[at] == (name, value);
  }

  lemma OptionKept(catalogue: Catalogue, before: Dict, rawName: string, value: Option<string>)
    requires WithOption(catalogue, before, rawName, value).Ok?
    ensures var name := Normalise(rawName);
      WithOption(catalogue, before, rawName, value).value ==
      if name == "" then before else Put(before, name, Keeps(catalogue, name, value))
  {
  }

  /** Each name of a checked form carries the value last submitted for it, in normal form. */
  lemma {:induction false} LastSubmission(catalogue: Catalogue, options: Dict, n: nat, i: nat, k: nat)
    requires n <= |options| && ValidateFirst(catalogue, options, n).Ok?
    requires k < |ValidateFirst(catalogue, options, n).value|
    requires IsLast(options, n, i, ValidateFirst(catalogue, options, n).value[k].0)
    ensures var (name, kept) := ValidateFirst(catalogue, options, n).value[k];
      kept == Keeps(catalogue, name, options[i].1)
  {
    if ValidateFirst(catalogue, options, n - 1).Err? { RefusalStays(catalogue, options, n - 1, n); }
    var before := ValidateFirst(catalogue, options, n - 1).value;
    var d := ValidateFirst(catalogue, options, n).value;
    var (rawName, value) := options[n - 1];
    ValidatedShape(catalogue, options, n);
    ValidatedShape(catalogue, options, n - 1);
    ValidateStep(catalogue, options, n - 1, before);
    OptionKept(catalogue, before, rawName, value);
    assert CheckedName(d[k].0, options);
    var name := Normalise(rawName);
    if name != "" { PutAt(before, name, Keeps(catalogue, name, value), k); }
    if name == d[k].0 {
      assert i == n - 1;
    } else {
      LastSubmission(catalogue, options, n - 1, i, k);
    }
  }

  /** No submitted option name has an underscore at either end. */
  predicate PlainNames(options: Dict) {
    forall i :: 0 <= i < |options| ==> !OuterUnderscore(options[i].0)
  }

  predicate TrimmedCatalogue(catalogue: Catalogue) {
    forall name :: name in catalogue ==> ChoicesTrimmed(catalogue[name])
  }

  /** An entry of a checked form: an option's name, and a value in normal form. */
  predicate CheckedEntry(catalogue: Catalogue, entry: (string, Option<string>)) {
    var (name, value) := entry;
    name != "" && name != PATH && name != COMMENT &&
    (value.Some? ==> CheckedValue(catalogue, name, value.value) == Ok(value.value))
  }

  /** An entry that checking again would leave as it is. */
  predicate SettledEntry(catalogue: Catalogue, entry: (string, Option<string>)) {
    Normalise(entry.0) == entry.0 && CheckedEntry(catalogue, entry)
  }

  predicate SettledNames(options: Dict) {
    forall i :: 0 <= i < |options| ==> Normalise(options[i].0) == options[i].0
  }

  lemma CheckedAgain(catalogue: Catalogue, name: string, text: string)
    requires TrimmedCatalogue(catalogue) && CheckedValue(catalogue, name, text).Ok?
    ensures var v := CheckedValue(catalogue, name, text).value; CheckedValue(catalogue, name, v) == Ok(v)
  {
    if name in catalogue {
      ValuesSettle(catalogue[name], text);
    } else {
      StripTrimmed(Strip(text));
    }
  }

  lemma OptionChecked(catalogue: Catalogue, checked: Dict, rawName: string, value: Option<string>, k: nat)
    requires TrimmedCatalogue(catalogue)
    requires forall i :: 0 <= i < |checked| ==> CheckedEntry(catalogue, checked[i])
    requires WithOption(catalogue, checked, rawName, value).Ok?
    requires k < |WithOption(catalogue, checked, rawName, value).value|
    ensures CheckedEntry(catalogue, WithOption(catalogue, checked, rawName, value).value[k])
  {
    if value.Some? && Normalise(rawName) != "" { CheckedAgain(catalogue, Normalise(rawName), value.value); }
  }

  lemma {:induction false} ValidatedIsChecked(catalogue: Catalogue, options: Dict, n: nat)
    requires TrimmedCatalogue(catalogue) && n <= |options| && ValidateFirst(catalogue, options, n).Ok?
    ensures var d := ValidateFirst(catalogue, options, n).value;
      forall k :: 0 <= k < |d| ==> CheckedEntry(catalogue, d[k])
  {
    if n > 0 {
      ValidatedIsChecked(catalogue, options, n - 1);
      var before := ValidateFirst(catalogue, options, n - 1).value;
      forall k | 0 <= k < |ValidateFirst(catalogue, options, n).value|
        ensures CheckedEntry(catalogue, ValidateFirst(catalogue, options, n).value[k]) {
        OptionChecked(catalogue, before, options[n - 1].0, options[n - 1].1, k);
      }
    }
  }

  lemma SettledIsAdded(catalogue: Catalogue, before: Dict, entry: (string, Option<string>))
    requires SettledEntry(catalogue, entry) && !HasKey(before, entry.0)
    ensures WithOption(catalogue, before, entry.0, entry.1) == Ok(before + [entry])
  {
  }

  lemma LastIsNew(d: Dict, n: nat)
    requires Distinct(d) && 0 < n <= |d|
    ensures !HasKey(d[..n - 1], d[n - 1].0)
  {
  }

  lemma LastAdded(catalogue: Catalogue, d: Dict, n: nat)
    requires Distinct(d) && 0 < n <= |d| && SettledEntry(catalogue, d[n - 1])
    ensures WithOption(catalogue, d[..n - 1], d[n - 1].0, d[n - 1].1) == Ok(d[..n - 1] + [d[n - 1]])
  {
    LastIsNew(d, n);
    SettledIsAdded(catalogue, d[..n - 1], d[n - 1]);
  }

  lemma SettledStep(catalogue: Catalogue, d: Dict, n: nat)
    requires Distinct(d) && 0 < n <= |d| && SettledEntry(catalogue, d[n - 1])
    requires ValidateFirst(catalogue, d, n - 1) == Ok(d[..n - 1])
    ensures ValidateFirst(catalogue, d, n) == Ok(d[..n])
  {
    assert d[..n] == d[..n - 1] + [d[n - 1]];
    LastAdded(catalogue, d, n);
    ValidateStep(catalogue, d, n - 1, d[..n - 1]);
  }

  lemma {:induction false} SettledValidates(catalogue: Catalogue, d: Dict, n: nat)
    requires Distinct(d) && n <= |d| && forall k :: 0 <= k < |d| ==> SettledEntry(catalogue, d[k])
    ensures ValidateFirst(catalogue, d, n) == Ok(d[..n])
  {
    if n > 0 {
      SettledValidates(catalogue, d, n - 1);
      SettledStep(catalogue, d, n);
    }
  }

  /** A name in a form checked twice is settled. */
  lemma TwiceChecked(catalogue: Catalogue, options: Dict, k: nat)
    requires Validated(catalogue, options).Ok? && k < |Validated(catalogue, options).value|
    requires Validated(catalogue, Validated(catalogue, options).value) == Validated(catalogue, options)
    ensures var name := Validated(catalogue, options).value[k].0; Normalise(name) == name
  {
    var d := Validated(catalogue, options).value;
    ValidatedShape(catalogue, options, |options|);
    ValidatedShape(catalogue, d, |d|);
    assert CheckedName(d[k].0, d);
    var j :| 0 <= j < |d| && Normalise(d[j].0) == d[k].0;
    assert CheckedName(d[j].0, options);
    var i :| 0 <= i < |options| && Normalise(options[i].0) == d[j].0;
    TwiceSettles(options[i].0);
  }

  /** Every submitted option is in the checked form, under its normal name, unless it has none. */
  lemma {:induction false} AllReached(catalogue: Catalogue, options: Dict, n: nat, i: nat)
    requires i < n <= |options| && ValidateFirst(catalogue, options, n).Ok? && Normalise(options[i].0) != ""
    ensures HasKey(ValidateFirst(catalogue, options, n).value, Normalise(options[i].0))
  {
    var before := ValidateFirst(catalogue, options, n - 1).value;
    ValidatedShape(catalogue, options, n - 1);
    if i < n - 1 { AllReached(catalogue, options, n - 1, i); }
    ReachedStep(catalogue, before, options[n - 1].0, options[n - 1].1, Normalise(options[i].0));
  }

  lemma ReachedStep(catalogue: Catalogue, before: Dict, rawName: string, value: Option<string>, name: string)
    requires Distinct(before) && WithOption(catalogue, before, rawName, value).Ok? && name != ""
    requires HasKey(before, name) || name == Normalise(rawName)
    ensures HasKey(WithOption(catalogue, before, rawName, value).value, name)
  {
    var after := WithOption(catalogue, before, rawName, value).value;
    if after != before {
      var v :| after == Put(before, Normalise(rawName), v);
      PutDistinct(before, Normalise(rawName), v);
    } else if name == Normalise(rawName) {
      PutStays(before, name, value);
    }
  }

  lemma PutStays(before: Dict, name: string, value: Option<string>)
    requires Distinct(before)
    ensures forall v :: Put(before, name, v) == before ==> HasKey(before, name)
  {
    forall v | Put(before, name, v) == before ensures HasKey(before, name) {
      PutDistinct(before, name, v);
    }
  }

  /** The names of a checked form are settled exactly when those submitted are plain. */
  lemma SettledIffPlain(catalogue: Catalogue, options: Dict)
    requires Validated(catalogue, options).Ok?
    ensures SettledNames(Validated(catalogue, options).value) <==> PlainNames(options)
  {
    var d := Validated(catalogue, options).value;
    ValidatedShape(catalogue, options, |options|);
    forall k | 0 <= k < |d| ensures PlainNames(options) ==> Normalise(d[k].0) == d[k].0 {
      assert CheckedName(d[k].0, options);
      var i :| 0 <= i < |options| && Normalise(options[i].0) == d[k].0;
      NormaliseSettlesIff(options[i].0);
    }
    forall i | 0 <= i < |options| ensures SettledNames(d) ==> !OuterUnderscore(options[i].0) {
      NormaliseChars(options[i].0);
      NormaliseSettlesIff(options[i].0);
      if Normalise(options[i].0) != "" { AllReached(catalogue, options, |options|, i); }
    }
  }

  /** Checking a checked form again gives the same form exactly when no submitted name has an
      underscore at either end. */
  lemma FormsSettleIff(catalogue: Catalogue, options: Dict)
    requires TrimmedCatalogue(catalogue) && Validated(catalogue, options).Ok?
    ensures var d := Validated(catalogue, options).value; Validated(catalogue, d) == Ok(d) <==> PlainNames(options)
  {
    var d := Validated(catalogue, options).value;
    SettledIffPlain(catalogue, options);
    if SettledNames(d) {
      ValidatedShape(catalogue, options, |options|);
      ValidatedIsChecked(catalogue, options, |options|);
      SettledValidates(catalogue, d, |d|);
      assert d[..|d|] == d;
    } else if Validated(catalogue, d) == Ok(d) {
      forall k | 0 <= k < |d| ensures Normalise(d[k].0) == d[k].0 { TwiceChecked(catalogue, options, k); }
    }
  }
}
