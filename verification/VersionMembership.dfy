/** Which versions the text of a requirement admits. */
module VersionMembership {
  import opened Common
  import opened Text
  import opened VersionRanges
  import opened VersionRangeProofs

  // ----- Versions -----

  /** Numerals with dots between them. */
  function Dotted(numerals: seq<string>): string
    requires numerals != []
  {
    if |numerals| == 1 then numerals[0] else numerals[0] + "." + Dotted(numerals[1..])
  }

  ghost predicate AllDecimal(numerals: seq<string>) {
    forall i :: 0 <= i < |numerals| ==> IsDecimal(numerals[i])
  }

  function Values(numerals: seq<string>): Parts
    requires AllDecimal(numerals)
  {
    seq(|numerals|, i requires 0 <= i < |numerals| => ToNat(numerals[i]))
  }

  /** The number of the digits read so far, if there are any. */
  function Read(digits: string): Option<nat>
    requires forall i :: 0 <= i < |digits| ==> IsDigit(digits[i])
  {
    if digits == "" then None else Some(ToNat(digits))
  }

  lemma {:induction false} ReadsDigits(before: string, digits: string, rest: string)
    requires forall i :: 0 <= i < |before| ==> IsDigit(before[i])
    requires forall i :: 0 <= i < |digits| ==> IsDigit(digits[i])
    ensures ParseParts(digits + rest, Read(before)) == ParseParts(rest, Read(before + digits))
    decreases |digits|
  {
    if digits == "" {
      assert digits + rest == rest && before + digits == before;
    } else {
      var more := before + [digits[0]];
      assert more[..|more| - 1] == before && Read(more) == Some(ToNat(more));
      assert (digits + rest)[0] == digits[0] && (digits + rest)[1..] == digits[1..] + rest;
      ReadsDigits(more, digits[1..], rest);
      assert more + digits[1..] == before + digits;
    }
  }

  lemma {:induction false} ParsesDotted(numerals: seq<string>)
    requires numerals != [] && AllDecimal(numerals)
    ensures ParseParts(Dotted(numerals), None) == Some(Values(numerals))
    decreases |numerals|
  {
    var first := numerals[0];
    assert "" + first == first && first + "" == first;
    if |numerals| == 1 {
      ReadsDigits("", first, "");
      assert Values(numerals) == [ToNat(first)];
    } else {
      var rest := Dotted(numerals[1..]);
      ReadsDigits("", first, "." + rest);
      assert ("." + rest)[0] == '.' && ("." + rest)[1..] == rest;
      assert Dotted(numerals) == first + ("." + rest);
      ParsesDotted(numerals[1..]);
      assert Values(numerals) == [ToNat(first)] + Values(numerals[1..]);
    }
  }

  /** What parses is what was read so far, with the digits up to the next dot, and numerals after it. */
  lemma {:induction false} ParsedIsDotted(text: string, before: string) returns (numerals: seq<string>)
    requires forall i :: 0 <= i < |before| ==> IsDigit(before[i])
    requires ParseParts(text, Read(before)).Some?
    ensures numerals != [] && AllDecimal(numerals) && before + text == Dotted(numerals)
    decreases |text|
  {
    if text == "" {
      assert before + text == before;
      numerals := [before];
    } else if IsDigit(text[0]) {
      var more := before + [text[0]];
      assert more[..|more| - 1] == before && Read(more) == Some(ToNat(more));
      numerals := ParsedIsDotted(text[1..], more);
      assert before + text == more + text[1..];
    } else {
      var rest := ParsedIsDotted(text[1..], "");
      assert "" + text[1..] == text[1..];
      numerals := [before] + rest;
      assert numerals[1..] == rest && before + text == before + "." + text[1..];
    }
  }

  ghost predicate IsDotted(text: string, numerals: seq<string>) {
    numerals != [] && AllDecimal(numerals) && Strip(text) == Dotted(numerals)
  }

  /** A version has parts exactly if it is numerals with dots between them, and then their values are its parts. */
  lemma PartsExactlyWhen(text: string)
    ensures VersionParts(text).Some? <==> exists numerals :: IsDotted(text, numerals)
    ensures forall numerals :: IsDotted(text, numerals) ==> VersionParts(text) == Some(Values(numerals))
  {
    forall numerals | IsDotted(text, numerals) ensures VersionParts(text) == Some(Values(numerals)) {
      ParsesDotted(numerals);
    }
    if VersionParts(text).Some? {
      var numerals := ParsedIsDotted(Strip(text), "");
      assert "" + Strip(text) == Strip(text);
      assert IsDotted(text, numerals);
    }
  }

  /** Writing the parts with dots between them and reading them again gives them back. */
  lemma PartsRoundTrip(parts: Parts)
    requires parts != []
    ensures VersionParts(Dotted(Numerals(parts))) == Some(parts)
  {
    var numerals := Numerals(parts);
    forall i | 0 <= i < |parts| ensures IsDecimal(numerals[i]) && ToNat(numerals[i]) == parts[i] {
      NatOfNumeral(parts[i]);
    }
    ParsesDotted(numerals);
    DottedEnds(numerals);
    assert Values(numerals) == parts;
  }

  function Numerals(parts: Parts): seq<string> {
    seq(|parts|, i requires 0 <= i < |parts| => Numeral(parts[i]))
  }

  lemma {:induction false} DottedEnds(numerals: seq<string>)
    requires numerals != [] && AllDecimal(numerals)
    ensures
      var text := Dotted(numerals);
      text != [] && IsDigit(text[0]) && IsDigit(text[|text| - 1]) && Strip(text) == text
    decreases |numerals|
  {
    if |numerals| > 1 { DottedEnds(numerals[1..]); }
    NothingToStrip(Dotted(numerals));
  }

  // ----- Bracket ranges -----

  /** Neither a marker that is refused, nor a comma. */
  ghost predicate Clean(text: string) {
    forall c :: c in text ==> c !in {'|', '^', '~', ','}
  }

  ghost predicate Restricts(bound: string) { Strip(bound) != "" }

  /** The comparison with a bound that restricts cannot be made. */
  ghost predicate Unclear(version: string, bound: string) {
    Restricts(bound) && (VersionParts(version).None? || VersionParts(bound).None?)
  }

  ghost predicate Comparable(version: string, bound: string) {
    VersionParts(version).Some? && VersionParts(bound).Some?
  }

  ghost predicate Before(a: string, b: string)
    requires Comparable(a, b)
  {
    Precedes(VersionParts(a).value, VersionParts(b).value)
  }

  ghost predicate SameVersion(a: string, b: string)
    requires Comparable(a, b)
  {
    Alike(VersionParts(a).value, VersionParts(b).value)
  }

  /** The version is below a lower bound that restricts; an open bound excludes itself. */
  ghost predicate Below(version: string, lower: string, open: bool) {
    && Restricts(lower) && Comparable(version, lower)
    && (Before(version, lower) || (open && SameVersion(version, lower)))
  }

  ghost predicate Above(version: string, upper: string, open: bool) {
    && Restricts(upper) && Comparable(version, upper)
    && (Before(upper, version) || (open && SameVersion(version, upper)))
  }

  lemma ComparisonIs(a: string, b: string)
    ensures CompareVersions(a, b).Some? <==> Comparable(a, b)
    ensures Comparable(a, b) ==>
              var compared := CompareVersions(a, b).value;
              && (compared < 0 <==> Before(a, b)) && (compared == 0 <==> SameVersion(a, b))
              && (compared > 0 <==> Before(b, a))
  {
    if Comparable(a, b) {
      var x, y := VersionParts(a).value, VersionParts(b).value;
      CompareIsFirstDifference(x, y);
      ComparePartsMeans(x, y);
      if Precedes(x, y) { PrecedesExcludes(x, y); }
      if Precedes(y, x) { PrecedesExcludes(y, x); }
      assert Alike(x, y) <==> Alike(y, x);
    }
  }

  lemma StrippedCompares(a: string, b: string)
    ensures CompareVersions(a, Strip(b)) == CompareVersions(a, b)
  {
    StripTwice(b);
  }

  lemma BoundsAre(version: string, lower: string, upper: string, openLower: bool, openUpper: bool)
    ensures
      var r := SatisfiesBounds(version, Strip(lower), Strip(upper), openLower, openUpper);
      && (r.None? <==> Unclear(version, lower) || (!Below(version, lower, openLower) && Unclear(version, upper)))
      && (r.Some? ==> (r.value <==> !Below(version, lower, openLower) && !Above(version, upper, openUpper)))
  {
    StrippedCompares(version, lower);
    StrippedCompares(version, upper);
    ComparisonIs(version, lower);
    ComparisonIs(version, upper);
  }

  function Bracketed(first: char, inner: string, last: char): string { [first] + inner + [last] }

  lemma {:induction false} SplitsAtComma(lower: string, upper: string)
    requires ',' !in lower
    ensures SplitComma(lower + "," + upper) == (lower, upper)
  {
    var text := lower + "," + upper;
    if lower == "" {
      assert text[0] == ',' && text[1..] == upper;
    } else {
      assert text[0] == lower[0] && text[1..] == lower[1..] + "," + upper;
      SplitsAtComma(lower[1..], upper);
      assert [lower[0]] + lower[1..] == lower;
    }
  }

  lemma BracketIsJudged(version: string, first: char, inner: string, last: char)
    requires first in {'[', '('} && last in {']', ')'} && forall c :: c in inner ==> c !in {'|', '^', '~'}
    ensures
      var expression := Bracketed(first, inner, last);
      && Satisfies(version, expression) == SatisfiesBracket(version, expression)
      && expression[0] == first && expression[|expression| - 1] == last
      && expression[1..|expression| - 1] == inner
  {
    var expression := Bracketed(first, inner, last);
    NothingToStrip(expression);
    assert forall c :: c in expression ==> c == first || c in inner || c == last;
    assert expression != "*" && !ContainsDoubleBar(expression) by {
      assert forall i :: 0 <= i < |expression| ==> expression[i] in expression;
    }
  }

  /**
   A range with two bounds: it is undecided exactly if a bound that is looked at cannot be compared with, and otherwise
   holds exactly if the version is neither below the lower nor above the upper bound.  A square bracket admits the bound
   itself, a round one does not, and an empty bound does not restrict.
   */
  lemma RangeIs(version: string, first: char, lower: string, upper: string, last: char)
    requires first in {'[', '('} && last in {']', ')'} && Clean(lower)
    requires forall c :: c in upper ==> c !in {'|', '^', '~'}
    ensures
      var r := Satisfies(version, Bracketed(first, lower + "," + upper, last));
      && (r.None? <==> Unclear(version, lower) || (!Below(version, lower, first == '(') && Unclear(version, upper)))
      && (r.Some? ==> (r.value <==> !Below(version, lower, first == '(') && !Above(version, upper, last == ')')))
  {
    var inner := lower + "," + upper;
    assert forall c :: c in inner ==> c in lower || c == ',' || c in upper;
    BracketIsJudged(version, first, inner, last);
    assert inner[|lower|] == ',';
    SplitsAtComma(lower, upper);
    BoundsAre(version, lower, upper, first == '(', last == ')');
  }

  /** One version in square brackets admits the versions alike to it; with a round bracket it is not understood. */
  lemma SingleVersionIs(version: string, first: char, bound: string, last: char)
    requires first in {'[', '('} && last in {']', ')'} && Clean(bound)
    ensures
      var r := Satisfies(version, Bracketed(first, bound, last));
      && (r.Some? <==> first == '[' && last == ']' && Comparable(version, bound))
      && (r.Some? ==> (r.value <==> SameVersion(version, bound)))
  {
    BracketIsJudged(version, first, bound, last);
    ComparisonIs(version, bound);
  }

  // ----- Lists of predicates -----

  /** An operator, the version it is about, and whether `=` is written. */
  datatype Clause = Clause(operator: Operator, written: bool, bound: string)

  function Spelled(operator: Operator, written: bool): string {
    match operator
    case Equal => if written then "=" else ""
    case Greater => ">"
    case GreaterEqual => ">="
    case Smaller => "<"
    case SmallerEqual => "<="
  }

  function ClauseText(clause: Clause): string { Spelled(clause.operator, clause.written) + clause.bound }

  /** A bound that reads as one word and not as part of an operator, a range or a marker. */
  ghost predicate Plain(bound: string) {
    && bound != "" && bound[0] !in {'=', '>', '<', '*'}
    && forall c :: c in bound ==> !IsSpace(c) && c !in {',', '|', '^', '~', '[', '('}
  }

  ghost predicate Admits(clause: Clause, version: string)
    requires Comparable(version, clause.bound)
  {
    match clause.operator
    case Equal => SameVersion(version, clause.bound)
    case Greater => Before(clause.bound, version)
    case GreaterEqual => !Before(version, clause.bound)
    case Smaller => Before(version, clause.bound)
    case SmallerEqual => !Before(clause.bound, version)
  }

  lemma OperatorIsSplit(clause: Clause)
    requires Plain(clause.bound)
    ensures SplitOperator(ClauseText(clause)) == (clause.operator, clause.bound)
  {
    var text, operator := ClauseText(clause), Spelled(clause.operator, clause.written);
    assert text[|operator|..] == clause.bound && text[..|operator|] == operator;
    if |operator| == 0 { assert text == clause.bound; }
    if |text| > 2 { assert text[..2] == [text[0], text[1]]; }
  }

  ghost predicate Grants(clause: Clause, version: string) {
    Comparable(version, clause.bound) && Admits(clause, version)
  }

  ghost predicate AllPlain(clauses: seq<Clause>) {
    forall i :: 0 <= i < |clauses| ==> Plain(clauses[i].bound)
  }

  function Texts(clauses: seq<Clause>): seq<string> {
    seq(|clauses|, i requires 0 <= i < |clauses| => ClauseText(clauses[i]))
  }

  /** The first clause that does not grant the version decides: it refuses, or cannot tell. */
  ghost predicate DecidedAt(clauses: seq<Clause>, version: string, i: nat) {
    && i < |clauses| && !Grants(clauses[i], version)
    && forall j :: 0 <= j < i ==> Grants(clauses[j], version)
  }

  ghost predicate GrantedByAll(clauses: seq<Clause>, version: string) {
    forall i :: 0 <= i < |clauses| ==> Grants(clauses[i], version)
  }

  lemma DecidedLater(clauses: seq<Clause>, version: string, i: nat)
    requires clauses != [] && Grants(clauses[0], version)
    ensures DecidedAt(clauses, version, i + 1) <==> DecidedAt(clauses[1..], version, i)
  {
    var rest := clauses[1..];
    if DecidedAt(rest, version, i) {
      forall j | 0 <= j < i + 1 ensures Grants(clauses[j], version) {
        if j > 0 { assert rest[j - 1] == clauses[j]; }
      }
    }
    if DecidedAt(clauses, version, i + 1) {
      forall j | 0 <= j < i ensures Grants(rest[j], version) { assert rest[j] == clauses[j + 1]; }
    }
  }

  ghost predicate RefusedAt(clauses: seq<Clause>, version: string, i: nat) {
    DecidedAt(clauses, version, i) && Comparable(version, clauses[i].bound)
  }

  lemma {:induction false} ClausesAre(version: string, clauses: seq<Clause>)
    requires AllPlain(clauses)
    ensures
      var r := SatisfiesPredicates(version, Texts(clauses));
      && (r == Some(true) <==> GrantedByAll(clauses, version))
      && (r == Some(false) <==> exists i: nat :: RefusedAt(clauses, version, i))
    decreases |clauses|
  {
    if clauses != [] {
      var first, rest := clauses[0], clauses[1..];
      assert Texts(clauses)[1..] == Texts(rest);
      OperatorIsSplit(first);
      ComparisonIs(version, first.bound);
      if Grants(first, version) {
        ClausesAre(version, rest);
        ClausesStep(clauses, version);
      } else {
        assert DecidedAt(clauses, version, 0);
        assert forall i: nat :: DecidedAt(clauses, version, i) ==> i == 0;
        assert RefusedAt(clauses, version, 0) <==> Comparable(version, first.bound);
      }
    }
  }

  lemma ClausesStep(clauses: seq<Clause>, version: string)
    requires clauses != [] && Grants(clauses[0], version)
    ensures GrantedByAll(clauses, version) <==> GrantedByAll(clauses[1..], version)
    ensures (exists i: nat :: RefusedAt(clauses, version, i)) <==> exists i: nat :: RefusedAt(clauses[1..], version, i)
  {
    var rest := clauses[1..];
    assert forall i :: 0 < i < |clauses| ==> clauses[i] == rest[i - 1];
    if i: nat :| RefusedAt(clauses, version, i) {
      DecidedLater(clauses, version, i - 1);
      assert RefusedAt(rest, version, i - 1);
    }
    if i: nat :| RefusedAt(rest, version, i) {
      DecidedLater(clauses, version, i);
      assert RefusedAt(clauses, version, i + 1);
    }
  }

  /** A clause and what separates it from the next one. */
  datatype Item = Item(clause: Clause, gap: string)

  /** Blanks and commas. */
  ghost predicate IsGap(gap: string) {
    gap != "" && forall i :: 0 <= i < |gap| ==> IsSpace(gap[i]) || gap[i] == ','
  }

  function Listed(items: seq<Item>): string
    requires items != []
  {
    if |items| == 1 then ClauseText(items[0].clause)
    else ClauseText(items[0].clause) + items[0].gap + Listed(items[1..])
  }

  ghost predicate WellSeparated(items: seq<Item>) {
    forall i :: 0 <= i < |items| ==> Plain(items[i].clause.bound) && (i < |items| - 1 ==> IsGap(items[i].gap))
  }

  function Clauses(items: seq<Item>): seq<Clause> {
    seq(|items|, i requires 0 <= i < |items| => items[i].clause)
  }

  lemma {:induction false} WordIsRead(word: string, rest: string, before: string)
    requires forall i :: 0 <= i < |word| ==> !IsSpace(word[i]) && word[i] != ','
    ensures Words(word + rest, before) == Words(rest, before + word)
    decreases |word|
  {
    if word == "" {
      assert word + rest == rest && before + word == before;
    } else {
      assert (word + rest)[0] == word[0] && (word + rest)[1..] == word[1..] + rest;
      WordIsRead(word[1..], rest, before + [word[0]]);
      assert before + [word[0]] + word[1..] == before + word;
    }
  }

  lemma {:induction false} GapEndsWord(gap: string, rest: string, word: string)
    requires forall i :: 0 <= i < |gap| ==> IsSpace(gap[i]) || gap[i] == ','
    ensures gap != "" && word != "" ==> Words(gap + rest, word) == [word] + Words(rest, "")
    ensures word == "" ==> Words(gap + rest, word) == Words(rest, "")
    decreases |gap|
  {
    if gap == "" {
      assert gap + rest == rest;
    } else {
      assert (gap + rest)[0] == gap[0] && (gap + rest)[1..] == gap[1..] + rest;
      GapEndsWord(gap[1..], rest, "");
    }
  }

  lemma ClauseIsWord(clause: Clause)
    requires Plain(clause.bound)
    ensures
      var text := ClauseText(clause);
      && text != "" && text[0] !in {'[', '(', '*'} && !IsSpace(text[|text| - 1]) && !IsSpace(text[0])
      && (forall i :: 0 <= i < |text| ==> !IsSpace(text[i]) && text[i] !in {',', '|', '^', '~'})
  {
    var text, operator := ClauseText(clause), Spelled(clause.operator, clause.written);
    forall i | 0 <= i < |text| ensures !IsSpace(text[i]) && text[i] !in {',', '|', '^', '~', '[', '('} {
      if i >= |operator| { assert text[i] == clause.bound[i - |operator|] && text[i] in clause.bound; }
    }
    if |operator| == 0 { assert text == clause.bound; } else { assert text[0] == operator[0]; }
  }

  lemma TextsStep(items: seq<Item>)
    requires items != []
    ensures Texts(Clauses(items)) == [ClauseText(items[0].clause)] + Texts(Clauses(items[1..]))
  {
  }

  lemma {:induction false} WordsOfList(items: seq<Item>)
    requires items != [] && WellSeparated(items)
    ensures Words(Listed(items), "") == Texts(Clauses(items))
    decreases |items|
  {
    var text := ClauseText(items[0].clause);
    ClauseIsWord(items[0].clause);
    assert "" + text == text && text + "" == text;
    if |items| == 1 {
      WordIsRead(text, "", "");
      assert Texts(Clauses(items)) == [text];
    } else {
      var rest := items[1..];
      assert forall i :: 0 <= i < |rest| ==> rest[i] == items[i + 1];
      assert Listed(items) == text + (items[0].gap + Listed(rest));
      WordIsRead(text, items[0].gap + Listed(rest), "");
      GapEndsWord(items[0].gap, Listed(rest), text);
      WordsOfList(rest);
      TextsStep(items);
    }
  }

  lemma {:induction false} ListIsPlain(items: seq<Item>)
    requires items != [] && WellSeparated(items)
    ensures
      var text := Listed(items);
      && text != "" && !IsSpace(text[0]) && !IsSpace(text[|text| - 1]) && text[0] !in {'[', '(', '*'}
      && (forall i :: 0 <= i < |text| ==> text[i] !in {'|', '^', '~'})
    decreases |items|
  {
    ClauseIsWord(items[0].clause);
    if |items| > 1 {
      var rest := items[1..];
      assert forall i :: 0 <= i < |rest| ==> rest[i] == items[i + 1];
      ListIsPlain(rest);
      assert forall i :: 0 <= i < |items[0].gap| ==> items[0].gap[i] !in {'|', '^', '~'};
    }
  }

  /**
   A list of clauses holds exactly if each of them does; otherwise the first one that does not decides, and the list
   fails exactly if that one can be compared with.
   */
  lemma ListIs(version: string, items: seq<Item>)
    requires items != [] && WellSeparated(items)
    ensures
      var r := Satisfies(version, Listed(items));
      var clauses := Clauses(items);
      && (r == Some(true) <==> GrantedByAll(clauses, version))
      && (r == Some(false) <==> exists i: nat :: RefusedAt(clauses, version, i))
  {
    var text := Listed(items);
    ListIsPlain(items);
    NothingToStrip(text);
    WordsOfList(items);
    assert Texts(Clauses(items)) != [];
    assert !ContainsDoubleBar(text) && '^' !in text && '~' !in text && text != "*";
    ClausesAre(version, Clauses(items));
  }

  lemma {:induction false} RstripKeepsBars(text: string)
    requires ContainsDoubleBar(text)
    ensures ContainsDoubleBar(Rstrip(text))
    decreases |text|
  {
    if IsSpace(text[|text| - 1]) {
      var i :| 0 <= i < |text| - 1 && text[i] == '|' && text[i + 1] == '|';
      var shorter := text[..|text| - 1];
      assert shorter[i] == '|' && shorter[i + 1] == '|';
      RstripKeepsBars(shorter);
    }
  }

  lemma {:induction false} StripKeepsBars(text: string)
    requires ContainsDoubleBar(text)
    ensures ContainsDoubleBar(Strip(text))
  {
    if IsSpace(text[0]) {
      var i :| 0 <= i < |text| - 1 && text[i] == '|' && text[i + 1] == '|';
      assert text[1..][i - 1] == '|' && text[1..][i] == '|';
      StripKeepsBars(text[1..]);
    } else {
      RstripKeepsBars(text);
    }
  }

  /** What is not understood: alternatives, carets and tildes, and a requirement that says nothing. */
  lemma NotUnderstood(version: string, requirement: string)
    ensures Strip(requirement) == "*" ==> Satisfies(version, requirement) == Some(true)
    ensures Strip(requirement) == "" || ContainsDoubleBar(requirement) || '^' in requirement || '~' in requirement ==>
              Satisfies(version, requirement).None?
    ensures Satisfies(version, Strip(requirement)) == Satisfies(version, requirement)
  {
    StripTwice(requirement);
    if ContainsDoubleBar(requirement) { StripKeepsBars(requirement); }
    if '^' in requirement { StripRemovesSpace(requirement, '^'); }
    if '~' in requirement { StripRemovesSpace(requirement, '~'); }
  }
}
