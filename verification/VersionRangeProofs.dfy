/** Dotted decimals are totally ordered, and the ranges are intervals of that order. */
module VersionRangeProofs {
  import opened Common
  import opened Text
  import opened VersionRanges

  // ----- The order -----

  /** A part, or the zero that stands for a missing one. */
  function Component(a: Parts, i: nat): nat {
    if i < |a| then a[i] else 0
  }

  ghost predicate Alike(a: Parts, b: Parts) {
    forall i: nat :: Component(a, i) == Component(b, i)
  }

  /** The first difference is in favour of `b`. */
  ghost predicate Precedes(a: Parts, b: Parts) {
    exists i: nat :: FirstDifference(a, b, i) && Component(a, i) < Component(b, i)
  }

  ghost predicate FirstDifference(a: Parts, b: Parts, i: nat) {
    Component(a, i) != Component(b, i) && forall j: nat :: j < i ==> Component(a, j) == Component(b, j)
  }

  lemma {:induction false} TuplesCompare(a: Parts, b: Parts)
    requires |a| == |b|
    ensures CompareTuples(a, b) == 0 <==> a == b
    ensures CompareTuples(a, b) != 0 ==>
              exists i: nat :: i < |a| && a[..i] == b[..i] &&
                  if CompareTuples(a, b) == -1 then a[i] < b[i] else a[i] > b[i]
    ensures CompareTuples(a, b) in {-1, 0, 1}
  {
    if a != [] {
      if a[0] != b[0] {
        assert a[..0] == b[..0];
      } else {
        TuplesCompare(a[1..], b[1..]);
        assert a == [a[0]] + a[1..] && b == [b[0]] + b[1..];
        if CompareTuples(a, b) != 0 {
          var i: nat :| i < |a[1..]| && a[1..][..i] == b[1..][..i]
                        && if CompareTuples(a, b) == -1 then a[1..][i] < b[1..][i] else a[1..][i] > b[1..][i];
          assert a[..i + 1] == [a[0]] + a[1..][..i] && b[..i + 1] == [b[0]] + b[1..][..i];
        }
      }
    }
  }

  lemma PaddedComponents(a: Parts, width: nat, i: nat)
    requires |a| <= width
    ensures Component(Padded(a, width), i) == Component(a, i)
  {
  }

  lemma ComparePartsMeans(a: Parts, b: Parts)
    ensures CompareParts(a, b) in {-1, 0, 1}
    ensures CompareParts(a, b) == 0 ==> Alike(a, b)
    ensures CompareParts(a, b) == -1 ==> Precedes(a, b)
    ensures CompareParts(a, b) == 1 ==> Precedes(b, a)
  {
    var width := Max(|a|, |b|);
    var x, y := Padded(a, width), Padded(b, width);
    TuplesCompare(x, y);
    forall i: nat ensures Component(x, i) == Component(a, i) && Component(y, i) == Component(b, i) {
      PaddedComponents(a, width, i);
      PaddedComponents(b, width, i);
    }
    if CompareTuples(x, y) != 0 {
      var i: nat :| i < |x| && x[..i] == y[..i] && if CompareTuples(x, y) == -1 then x[i] < y[i] else x[i] > y[i];
      assert forall j: nat :: j < i ==> Component(x, j) == x[..i][j] && Component(y, j) == y[..i][j];
      assert FirstDifference(a, b, i) && FirstDifference(b, a, i);
    }
  }

  lemma PrecedesExcludes(a: Parts, b: Parts)
    requires Precedes(a, b)
    ensures !Precedes(b, a) && !Alike(a, b)
  {
    var i: nat :| FirstDifference(a, b, i) && Component(a, i) < Component(b, i);
    forall j: nat | FirstDifference(b, a, j) ensures j == i {
      assert Component(b, j) != Component(a, j);
    }
  }

  /** The comparison is the order of the first differing part, missing parts counting as zero. */
  lemma CompareIsFirstDifference(a: Parts, b: Parts)
    ensures CompareParts(a, b) == if Alike(a, b) then 0 else if Precedes(a, b) then -1 else 1
    ensures Alike(a, b) || Precedes(a, b) || Precedes(b, a)
    ensures CompareParts(a, b) == 1 <==> Precedes(b, a)
  {
    ComparePartsMeans(a, b);
    if Precedes(a, b) { PrecedesExcludes(a, b); }
    if Precedes(b, a) { PrecedesExcludes(b, a); }
  }

  lemma PrecedesTransitive(a: Parts, b: Parts, c: Parts)
    requires Precedes(a, b) || Alike(a, b)
    requires Precedes(b, c) || Alike(b, c)
    ensures Precedes(a, c) || Alike(a, c)
    ensures Precedes(a, b) || Precedes(b, c) ==> Precedes(a, c)
  {
    if Alike(a, b) {
      if Precedes(b, c) {
        var i: nat :| FirstDifference(b, c, i) && Component(b, i) < Component(c, i);
        assert FirstDifference(a, c, i);
      }
    } else {
      var i: nat :| FirstDifference(a, b, i) && Component(a, i) < Component(b, i);
      if Alike(b, c) {
        assert FirstDifference(a, c, i);
      } else {
        var j: nat :| FirstDifference(b, c, j) && Component(b, j) < Component(c, j);
        assert FirstDifference(a, c, if i < j then i else j);
      }
    }
  }

  /** A total preorder: every two compare, consistently both ways, and it is transitive. */
  lemma CompareIsTotalPreorder(a: Parts, b: Parts, c: Parts)
    ensures CompareParts(a, a) == 0
    ensures CompareParts(b, a) == -CompareParts(a, b)
    ensures CompareParts(a, b) <= 0 && CompareParts(b, c) <= 0 ==> CompareParts(a, c) <= 0
    ensures CompareParts(a, b) <= 0 && CompareParts(b, c) <= 0 && CompareParts(a, c) == 0 ==>
              CompareParts(a, b) == 0 && CompareParts(b, c) == 0
  {
    CompareIsFirstDifference(a, a);
    CompareIsFirstDifference(a, b);
    CompareIsFirstDifference(b, a);
    CompareIsFirstDifference(b, c);
    CompareIsFirstDifference(a, c);
    assert Alike(a, b) <==> Alike(b, a);
    if CompareParts(a, b) <= 0 && CompareParts(b, c) <= 0 { PrecedesTransitive(a, b, c); }
  }

  /** Trailing zeros do not matter. */
  lemma ZerosDoNotMatter(a: Parts, b: Parts, n: nat)
    ensures CompareParts(a + Zeros(n), b) == CompareParts(a, b)
  {
    var padded := a + Zeros(n);
    CompareIsFirstDifference(padded, b);
    CompareIsFirstDifference(a, b);
    assert forall i: nat :: Component(padded, i) == Component(a, i);
    assert Precedes(padded, b) <==> Precedes(a, b) by {
      assert forall i: nat :: FirstDifference(padded, b, i) <==> FirstDifference(a, b, i);
    }
  }

  lemma {:induction false} AppendZeroPart(text: string, soFar: Option<nat>)
    requires ParseParts(text, soFar).Some?
    ensures ParseParts(text + ".0", soFar) == Some(ParseParts(text, soFar).value + [0])
  {
    if text == [] {
      assert text + ".0" == ".0" && (".0")[1..] == "0" && ("0")[1..] == [];
      assert ParseParts("0", None) == Some([0]);
      assert ParseParts(".0", soFar) == Some([soFar.value] + [0]);
    } else {
      assert (text + ".0")[0] == text[0] && (text + ".0")[1..] == text[1..] + ".0";
      if IsDigit(text[0]) {
        var before := if soFar.Some? then soFar.value else 0;
        AppendZeroPart(text[1..], Some(before * 10 + (text[0] as int - '0' as int)));
      } else {
        AppendZeroPart(text[1..], None);
        var rest := ParseParts(text[1..], None).value;
        assert [soFar.value] + (rest + [0]) == [soFar.value] + rest + [0];
      }
    }
  }

  /** A version and the same version with one more zero compare alike with everything. */
  lemma AppendedZeroComparesAlike(version: string, other: string)
    requires VersionParts(version).Some?
    ensures CompareVersions(Strip(version) + ".0", other) == CompareVersions(version, other)
  {
    var text := Strip(version) + ".0";
    AppendZeroPart(Strip(version), None);
    assert IsDigit(text[0]) && Lstrip(text) == text && Rstrip(text) == text;
    if VersionParts(other).Some? {
      assert Zeros(1) == [0];
      ZerosDoNotMatter(VersionParts(version).value, VersionParts(other).value, 1);
    }
  }

  // ----- Ranges -----

  ghost predicate NotAfter(a: string, b: string) {
    CompareVersions(a, b).Some? && CompareVersions(a, b).value <= 0
  }

  /** Against any bound, an earlier version compares no higher. */
  lemma CompareIsMonotone(a: string, b: string, bound: string)
    requires NotAfter(a, b)
    ensures CompareVersions(a, bound).Some? <==> CompareVersions(b, bound).Some?
    ensures CompareVersions(a, bound).Some? ==>
            -1 <= CompareVersions(a, bound).value <= CompareVersions(b, bound).value <= 1
    ensures CompareVersions(a, b) == Some(0) ==> CompareVersions(a, bound) == CompareVersions(b, bound)
  {
    if VersionParts(bound).Some? {
      var x, y, z := VersionParts(a).value, VersionParts(b).value, VersionParts(bound).value;
      CompareIsTotalPreorder(x, y, z);
      CompareIsTotalPreorder(z, x, y);
      CompareIsTotalPreorder(y, z, x);
      CompareIsTotalPreorder(y, x, z);
      CompareIsTotalPreorder(x, z, y);
      ComparePartsMeans(x, z);
      ComparePartsMeans(y, z);
    }
  }

  lemma {:induction false} PredicatesOfEqualVersions(a: string, b: string, predicates: seq<string>)
    requires CompareVersions(a, b) == Some(0)
    ensures SatisfiesPredicates(a, predicates) == SatisfiesPredicates(b, predicates)
  {
    if predicates != [] {
      CompareIsMonotone(a, b, SplitOperator(predicates[0]).1);
      PredicatesOfEqualVersions(a, b, predicates[1..]);
    }
  }

  lemma BracketOfEqualVersions(a: string, b: string, expression: string)
    requires CompareVersions(a, b) == Some(0) && |expression| >= 2
    ensures SatisfiesBracket(a, expression) == SatisfiesBracket(b, expression)
  {
    var inner := expression[1..|expression| - 1];
    if ',' in inner {
      var (lower, upper) := SplitComma(inner);
      CompareIsMonotone(a, b, Strip(lower));
      CompareIsMonotone(a, b, Strip(upper));
    } else {
      CompareIsMonotone(a, b, inner);
    }
  }

  /** Versions that compare equal satisfy the same requirements. */
  lemma EqualVersionsSatisfyAlike(a: string, b: string, requirement: string)
    requires CompareVersions(a, b) == Some(0)
    ensures Satisfies(a, requirement) == Satisfies(b, requirement)
  {
    var expression := Strip(requirement);
    if expression != "" {
      if expression[0] in {'[', '('} && expression[|expression| - 1] in {')', ']'} {
        BracketOfEqualVersions(a, b, expression);
      } else {
        PredicatesOfEqualVersions(a, b, Words(expression, ""));
      }
    }
  }

  lemma {:induction false} PredicatesAreConvex(a: string, b: string, c: string, predicates: seq<string>)
    requires NotAfter(a, b) && NotAfter(b, c)
    requires SatisfiesPredicates(a, predicates) == Some(true) && SatisfiesPredicates(c, predicates) == Some(true)
    ensures SatisfiesPredicates(b, predicates) == Some(true)
  {
    if predicates != [] {
      CompareIsMonotone(a, b, SplitOperator(predicates[0]).1);
      CompareIsMonotone(b, c, SplitOperator(predicates[0]).1);
      PredicatesAreConvex(a, b, c, predicates[1..]);
    }
  }

  lemma BracketIsConvex(a: string, b: string, c: string, expression: string)
    requires NotAfter(a, b) && NotAfter(b, c) && |expression| >= 2
    requires SatisfiesBracket(a, expression) == Some(true) && SatisfiesBracket(c, expression) == Some(true)
    ensures SatisfiesBracket(b, expression) == Some(true)
  {
    var inner := expression[1..|expression| - 1];
    if ',' in inner {
      var (lower, upper) := SplitComma(inner);
      CompareIsMonotone(a, b, Strip(lower));
      CompareIsMonotone(b, c, Strip(lower));
      CompareIsMonotone(a, b, Strip(upper));
      CompareIsMonotone(b, c, Strip(upper));
    } else {
      CompareIsMonotone(a, b, inner);
      CompareIsMonotone(b, c, inner);
    }
  }

  /** What satisfies a requirement is an interval: bracket ranges and lists of predicates alike. */
  lemma RequirementsAreConvex(a: string, b: string, c: string, requirement: string)
    requires NotAfter(a, b) && NotAfter(b, c)
    requires Satisfies(a, requirement) == Some(true) && Satisfies(c, requirement) == Some(true)
    ensures Satisfies(b, requirement) == Some(true)
  {
    ExpressionIsConvex(a, b, c, Strip(requirement));
  }

  lemma ExpressionIsConvex(a: string, b: string, c: string, expression: string)
    requires NotAfter(a, b) && NotAfter(b, c)
    requires Judge(a, expression) == Some(true) && Judge(c, expression) == Some(true)
    ensures Judge(b, expression) == Some(true)
  {
    if expression != "*" {
      if expression[0] in {'[', '('} && expression[|expression| - 1] in {')', ']'} {
        BracketIsConvex(a, b, c, expression);
      } else {
        PredicatesAreConvex(a, b, c, Words(expression, ""));
      }
    }
  }
}
