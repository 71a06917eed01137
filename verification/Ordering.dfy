/** Strings in code-point order, and sorting by a key, as Python's `sorted` does it. */
module Ordering {

  /** `a < b` on Python strings. */
  predicate Less(a: string, b: string) {
    b != [] && (a == [] || a[0] < b[0] || (a[0] == b[0] && Less(a[1..], b[1..])))
  }

  lemma {:induction false} LessIsTotal(a: string, b: string)
    ensures a == b || Less(a, b) || Less(b, a)
  {
    if a != [] && b != [] && a[0] == b[0] {
      LessIsTotal(a[1..], b[1..]);
      assert a == [a[0]] + a[1..] && b == [b[0]] + b[1..];
    }
  }

  lemma {:induction false} LessIsAsymmetric(a: string, b: string)
    requires Less(a, b)
    ensures !Less(b, a) && a != b
  {
    if a != [] && a[0] == b[0] { LessIsAsymmetric(a[1..], b[1..]); }
  }

  lemma {:induction false} LessIsTransitive(a: string, b: string, c: string)
    requires Less(a, b) && Less(b, c)
    ensures Less(a, c)
  {
    if a != [] && a[0] == b[0] == c[0] { LessIsTransitive(a[1..], b[1..], c[1..]); }
  }

  ghost predicate StrictlySorted(xs: seq<string>) {
    forall i, j :: 0 <= i < j < |xs| ==> Less(xs[i], xs[j])
  }

  lemma NotLessIsTransitive(a: string, b: string, c: string)
    requires !Less(b, a) && !Less(c, b)
    ensures !Less(c, a)
  {
    if Less(c, a) {
      LessIsTotal(a, b);
      if a != b {
        LessIsTransitive(c, a, b);
      }
    }
  }

  // ----- Sorting -----

  /** A comparison that `sorted` can work with: a strict weak order. */
  ghost predicate Comparison<T(!new)>(lt: (T, T) -> bool) {
    && (forall a, b :: lt(a, b) ==> !lt(b, a))
    && (forall a, b, c :: !lt(b, a) && !lt(c, b) ==> !lt(c, a))
  }

  function InsertBy<T>(x: T, xs: seq<T>, lt: (T, T) -> bool): (r: seq<T>)
    ensures multiset(r) == multiset{x} + multiset(xs)
  {
    if xs == [] || !lt(xs[0], x) then [x] + xs
    else
      assert xs == [xs[0]] + xs[1..];
      [xs[0]] + InsertBy(x, xs[1..], lt)
  }

  /** `sorted`: a stable insertion sort. */
  function SortBy<T>(xs: seq<T>, lt: (T, T) -> bool): (r: seq<T>)
    ensures multiset(r) == multiset(xs)
  {
    if xs == [] then []
    else
      assert xs == [xs[0]] + xs[1..];
      InsertBy(xs[0], SortBy(xs[1..], lt), lt)
  }

  ghost predicate SortedBy<T>(xs: seq<T>, lt: (T, T) -> bool) {
    forall i, j :: 0 <= i < j < |xs| ==> !lt(xs[j], xs[i])
  }

  lemma {:induction false} InsertKeepsSorted<T(!new)>(x: T, xs: seq<T>, lt: (T, T) -> bool)
    requires Comparison(lt) && SortedBy(xs, lt)
    ensures SortedBy(InsertBy(x, xs, lt), lt)
  {
    if xs != [] && lt(xs[0], x) {
      InsertKeepsSorted(x, xs[1..], lt);
      var rest := InsertBy(x, xs[1..], lt);
      forall j | 0 <= j < |rest| ensures !lt(rest[j], xs[0]) {
        assert rest[j] in multiset(rest);
        if rest[j] != x {
          assert rest[j] in multiset(xs[1..]);
          var i :| 0 <= i < |xs[1..]| && xs[1..][i] == rest[j];
          assert xs[i + 1] == rest[j];
        }
      }
    }
  }

  lemma {:induction false} SortSorts<T(!new)>(xs: seq<T>, lt: (T, T) -> bool)
    requires Comparison(lt)
    ensures SortedBy(SortBy(xs, lt), lt)
  {
    if xs != [] {
      SortSorts(xs[1..], lt);
      InsertKeepsSorted(xs[0], SortBy(xs[1..], lt), lt);
    }
  }

  lemma SortMembers<T>(xs: seq<T>, lt: (T, T) -> bool, x: T)
    ensures x in SortBy(xs, lt) <==> x in xs
  {
    assert x in SortBy(xs, lt) <==> x in multiset(SortBy(xs, lt));
  }

  // ----- Sequences without repetition -----

  ghost predicate Distinct<T>(xs: seq<T>) {
    forall i, j :: 0 <= i < j < |xs| ==> xs[i] != xs[j]
  }

  lemma SortKeepsDistinct<T>(xs: seq<T>, lt: (T, T) -> bool)
    requires Distinct(xs)
    ensures Distinct(SortBy(xs, lt))
  {
    DistinctCounts(xs);
    forall x | x in SortBy(xs, lt) ensures multiset(SortBy(xs, lt))[x] == 1 { SortMembers(xs, lt, x); }
    CountsDistinct(SortBy(xs, lt));
  }

  lemma {:induction false} DistinctCounts<T>(xs: seq<T>)
    requires Distinct(xs)
    ensures forall x :: x in xs ==> multiset(xs)[x] == 1
  {
    if xs != [] {
      assert xs == [xs[0]] + xs[1..];
      DistinctCounts(xs[1..]);
      assert xs[0] !in multiset(xs[1..]);
    }
  }

  lemma CountsDistinct<T>(xs: seq<T>)
    requires forall x :: x in xs ==> multiset(xs)[x] == 1
    ensures Distinct(xs)
  {
    forall i, j | 0 <= i < j < |xs| ensures xs[i] != xs[j] {
      assert xs == xs[..i] + [xs[i]] + xs[i + 1..j] + [xs[j]] + xs[j + 1..];
      assert multiset(xs)[xs[i]] == 1;
    }
  }
}
