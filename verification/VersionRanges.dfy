/**
 Version order and version ranges (`dependency_equivalence.py`).  The parsing is that of the source,
 on strings; versions that are not dotted decimals have no place in the order.
 */
module VersionRanges {
  import opened Common
  import opened Text

  // ----- Dotted decimals -----

  type Parts = seq<nat>

  /** The parts of `digits(.digits)*`; `soFar` is the number under way, if a digit was seen. */
  function ParseParts(text: string, soFar: Option<nat>): Option<Parts> {
    if text == [] then if soFar.Some? then Some([soFar.value]) else None
    else if IsDigit(text[0]) then
      var before := if soFar.Some? then soFar.value else 0;
      ParseParts(text[1..], Some(before * 10 + (text[0] as int - '0' as int)))
    else if text[0] == '.' && soFar.Some? then
      var rest := ParseParts(text[1..], None);
      if rest.Some? then Some([soFar.value] + rest.value) else None
    else None
  }

  /** `_version_parts`. */
  function VersionParts(text: string): Option<Parts> { ParseParts(Strip(text), None) }

  function Zeros(n: nat): Parts { seq(n, _ => 0) }

  function Padded(a: Parts, width: nat): Parts
    requires |a| <= width
  {
    a + Zeros(width - |a|)
  }

  /** Tuple comparison in Python, for tuples of the same length. */
  function CompareTuples(a: Parts, b: Parts): int
    requires |a| == |b|
  {
    if a == [] then 0
    else if a[0] != b[0] then if a[0] < b[0] then -1 else 1
    else CompareTuples(a[1..], b[1..])
  }

  function Max(a: nat, b: nat): nat { if a >= b then a else b }

  function CompareParts(a: Parts, b: Parts): int {
    var width := Max(|a|, |b|);
    CompareTuples(Padded(a, width), Padded(b, width))
  }

  /** `_compare_versions`. */
  function CompareVersions(left: string, right: string): Option<int> {
    var a, b := VersionParts(left), VersionParts(right);
    if a.None? || b.None? then None else Some(CompareParts(a.value, b.value))
  }

  // ----- Requirements -----

  predicate ContainsDoubleBar(text: string) {
    exists i :: 0 <= i < |text| - 1 && text[i] == '|' && text[i + 1] == '|'
  }

  /** The text before and after the first comma. */
  function SplitComma(text: string): (string, string)
    requires ',' in text
  {
    if text[0] == ',' then ("", text[1..])
    else
      var (before, after) := SplitComma(text[1..]);
      ([text[0]] + before, after)
  }

  /** `split()` after commas have become blanks. */
  function Words(text: string, word: string): seq<string> {
    if text == [] then if word == "" then [] else [word]
    else if IsSpace(text[0]) || text[0] == ',' then (if word == "" then [] else [word]) + Words(text[1..], "")
    else Words(text[1..], word + [text[0]])
  }

  datatype Operator = Equal | Greater | GreaterEqual | Smaller | SmallerEqual

  /** The operator of a predicate, if anything follows it, and the version it is about. */
  function SplitOperator(clause: string): (Operator, string) {
    if |clause| > 2 && clause[..2] == ">=" then (GreaterEqual, clause[2..])
    else if |clause| > 2 && clause[..2] == "<=" then (SmallerEqual, clause[2..])
    else if |clause| > 1 && clause[0] == '>' then (Greater, clause[1..])
    else if |clause| > 1 && clause[0] == '<' then (Smaller, clause[1..])
    else if |clause| > 1 && clause[0] == '=' then (Equal, clause[1..])
    else (Equal, clause)
  }

  predicate Holds(operator: Operator, compared: int) {
    match operator
    case Equal => compared == 0
    case Greater => compared > 0
    case GreaterEqual => compared >= 0
    case Smaller => compared < 0
    case SmallerEqual => compared <= 0
  }

  function SatisfiesPredicates(version: string, predicates: seq<string>): Option<bool> {
    if predicates == [] then Some(true)
    else
      var (operator, bound) := SplitOperator(predicates[0]);
      var compared := CompareVersions(version, bound);
      if compared.None? then None
      else if !Holds(operator, compared.value) then Some(false)
      else SatisfiesPredicates(version, predicates[1..])
  }

  /** The two bounds of a bracket range; an empty bound does not restrict. */
  function SatisfiesBounds(
    version: string, lower: string, upper: string, openLower: bool, openUpper: bool): Option<bool> {
    var low := if lower == "" then Some(1) else CompareVersions(version, lower);
    if low.None? then None
    else if low.value < 0 || (low.value == 0 && openLower) then Some(false)
    else
      var high := if upper == "" then Some(-1) else CompareVersions(version, upper);
      if high.None? then None
      else Some(!(high.value > 0 || (high.value == 0 && openUpper)))
  }

  function SatisfiesBracket(version: string, expression: string): Option<bool>
    requires |expression| >= 2
  {
    var first, last := expression[0], expression[|expression| - 1];
    var inner := expression[1..|expression| - 1];
    if ',' !in inner then
      if first != '[' || last != ']' then None
      else
        var compared := CompareVersions(version, inner);
        if compared.None? then None else Some(compared.value == 0)
    else
      var (lower, upper) := SplitComma(inner);
      SatisfiesBounds(version, Strip(lower), Strip(upper), first == '(', last == ')')
  }

  /** `version_satisfies_requirement`. */
  function Satisfies(version: string, requirement: string): Option<bool> {
    Judge(version, Strip(requirement))
  }

  function Judge(version: string, expression: string): Option<bool> {
    if expression == "*" then Some(true)
    else if expression == "" || ContainsDoubleBar(expression) || '^' in expression || '~' in expression then None
    else if expression[0] in {'[', '('} &&
        expression[|expression| - 1] in {')', ']'} then SatisfiesBracket(version, expression)
    else
      var predicates := Words(expression, "");
      if predicates == [] then None else SatisfiesPredicates(version, predicates)
  }
}
