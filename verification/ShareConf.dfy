/** Normal forms for option values, and the check of a submitted form. */
module ShareConf {
  import opened Outcomes
  import opened Text
  import Numerals

  datatype OptionType = Bool | Plain | List | Mode | Int | Choice(choices: seq<string>)

  datatype Refusal = InvalidValue(option: string) | NotEditable(option: string)

  predicate IsYes(s: string) {
    s == "yes" || s == "true" || s == "1" || s == "on"
  }

  predicate IsNo(s: string) {
    s == "no" || s == "false" || s == "0" || s == "off"
  }

  predicate OctalDigits(s: string) {
    forall i :: 0 <= i < |s| ==> '0' <= s[i] <= '7'
  }

  /** Three or four octal digits, with one more zero allowed in front. */
  predicate IsMode(s: string) {
    OctalDigits(s) && (3 <= |s| <= 4 || (|s| == 5 && s[0] == '0'))
  }

  /** `int(text)`: an optional sign, then digits. */
  function ReadInt(text: string): Option<int> {
    var signed := text != "" && (text[0] == '+' || text[0] == '-');
    match Numerals.ReadGrouped(if signed then text[1..] else text, 10)
    case None => None
    case Some(n) => Some(if signed && text[0] == '-' then -(n as int) else n as int)
  }

  /** The first choice spelled like the text, case aside. */
  function FindChoice(choices: seq<string>, text: string): (r: Option<string>)
    ensures r.Some? ==> Lower(r.value) == Lower(text)
  {
    if choices == [] then None
    else if Lower(choices[0]) == Lower(text) then Some(choices[0])
    else FindChoice(choices[1..], text)
  }

  /** One value in its normal form, or nothing when it cannot mean anything. */
  function ValidateValue(t: OptionType, value: string): Option<string> {
    var text := Strip(value);
    match t
    case Bool =>
      var lowered := Lower(text);
      if IsYes(lowered) then Some("yes") else if IsNo(lowered) then Some("no") else None
    case Mode => if IsMode(text) then Some(Numerals.Padded(text, 4)) else None
    case Int =>
      (match ReadInt(text)
       case None => None
       case Some(n) => if n < 0 then None else Some(Numerals.Numeral(n, 10)))
    case Choice(choices) => FindChoice(choices, text)
    case List => Some(JoinSpaces(Items(text)))
    case Plain => Some(text)
  }

  // --- forms -----------------------------------------------------------------------------

  /** A Python dictionary of option values: names in the order they were first put. */
  type Dict = seq<(string, Option<string>)>

  predicate Distinct(d: Dict) {
    forall i, j :: 0 <= i < j < |d| ==> d[i].0 != d[j].0
  }

  predicate HasKey(d: Dict, name: string) {
    exists i :: 0 <= i < |d| && d[i].0 == name
  }

  function IndexOfKey(d: Dict, name: string): (i: nat)
    requires HasKey(d, name)
    ensures i < |d| && d[i].0 == name
  {
    if d[0].0 == name then 0
    else
      assert HasKey(d[1..], name) by {
        var k :| 0 <= k < |d| && d[k].0 == name;
        assert d[1..][k - 1].0 == name;
      }
      1 + IndexOfKey(d[1..], name)
  }

  /** Setting a key: in place when it is there, at the end otherwise. */
  function Put(d: Dict, name: string, value: Option<string>): Dict {
    if HasKey(d, name) then d[IndexOfKey(d, name) := (name, value)] else d + [(name, value)]
  }

  lemma PutDistinct(d: Dict, name: string, value: Option<string>)
    requires Distinct(d)
    ensures Distinct(Put(d, name, value))
    ensures forall n :: HasKey(Put(d, name, value), n) <==> HasKey(d, n) || n == name
  {
    var p := Put(d, name, value);
    assert p[if HasKey(d, name) then IndexOfKey(d, name) else |d|].0 == name;
    forall n | HasKey(d, n) ensures HasKey(p, n) {
      var k :| 0 <= k < |d| && d[k].0 == n;
      assert p[k].0 == n;
    }
    forall n | HasKey(p, n) ensures HasKey(d, n) || n == name {
      var k :| 0 <= k < |p| && p[k].0 == n;
      assert k < |d| ==> d[k].0 == p[k].0;
    }
  }

  function Spaced(s: string): (r: string)
    ensures |r| == |s| && forall i :: 0 <= i < |s| ==> r[i] == if s[i] == '_' then ' ' else s[i]
  {
    seq(|s|, i requires 0 <= i < |s| => if s[i] == '_' then ' ' else s[i])
  }

  /** Option names as Samba writes them: trimmed, lower case, underscores as spaces. */
  function Normalise(name: string): string {
    Spaced(Lower(Strip(name)))
  }

  const PATH := "path"
  const COMMENT := "comment"

  type Catalogue = map<string, OptionType>

  function CheckedValue(catalogue: Catalogue, name: string, value: string): Result<string, Refusal> {
    if name !in catalogue then Ok(Strip(value))
    else
      match ValidateValue(catalogue[name], value)
      case Some(v) => Ok(v)
      case None => Err(InvalidValue(name))
  }

  /** One submitted option, added to those already checked. */
  function WithOption(catalogue: Catalogue, checked: Dict, rawName: string, value: Option<string>):
    Result<Dict, Refusal>
  {
    var name := Normalise(rawName);
    if name == "" then Ok(checked)
    else if name == PATH || name == COMMENT then Err(NotEditable(name))
    else
      match value
      case None => Ok(Put(checked, name, None))
      case Some(text) =>
        match CheckedValue(catalogue, name, text)
        case Err(e) => Err(e)
        case Ok(v) => Ok(Put(checked, name, Some(v)))
  }

  /** The first `n` submitted options, checked; the first refusal stands. */
  function ValidateFirst(catalogue: Catalogue, options: Dict, n: nat): Result<Dict, Refusal>
    requires n <= |options|
  {
    if n == 0 then Ok([])
    else
      match ValidateFirst(catalogue, options, n - 1)
      case Err(e) => Err(e)
      case Ok(checked) => WithOption(catalogue, checked, options[n - 1].0, options[n - 1].1)
  }

  function Validated(catalogue: Catalogue, options: Dict): Result<Dict, Refusal> {
    ValidateFirst(catalogue, options, |options|)
  }

  lemma ValidateStep(catalogue: Catalogue, options: Dict, n: nat, checked: Dict)
    requires n < |options| && ValidateFirst(catalogue, options, n) == Ok(checked)
    ensures ValidateFirst(catalogue, options, n + 1) == WithOption(catalogue, checked, options[n].0, options[n].1)
  {
  }

  lemma {:induction false} RefusalStays(catalogue: Catalogue, options: Dict, n: nat, m: nat)
    requires n <= m <= |options| && ValidateFirst(catalogue, options, n).Err?
    ensures ValidateFirst(catalogue, options, m) == ValidateFirst(catalogue, options, n)
  {
    if n < m { RefusalStays(catalogue, options, n, m - 1); }
  }

  method Validate(catalogue: Catalogue, options: Dict) returns (r: Result<Dict, Refusal>)
    ensures r == Validated(catalogue, options)
  {
    var checked: Dict, i := [], 0;
    while i < |options|
      invariant 0 <= i <= |options|
      invariant ValidateFirst(catalogue, options, i) == Ok(checked)
    {
      var next := WithOption(catalogue, checked, options[i].0, options[i].1);
      ValidateStep(catalogue, options, i, checked);
      if next.Err? {
        RefusalStays(catalogue, options, i + 1, |options|);
        return Err(next.error);
      }
      checked := next.value;
      i := i + 1;
    }
    r := Ok(checked);
  }
}
