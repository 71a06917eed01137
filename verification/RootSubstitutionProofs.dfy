/** When a resolution request is accepted, and which effective roots it then yields. */
module RootSubstitutionProofs {
  import opened Common
  import opened Text
  import opened Ordering
  import opened Providers
  import opened RootSubstitution

  // ----- Substituting in sequence -----

  ghost predicate Replaces(ids: seq<string>, choices: map<string, Choice>, i: int) {
    0 <= i < |ids| && ids[i] in choices && choices[ids[i]].action != "remove"
    && choices[ids[i]].provider.Some? && choices[ids[i]].projectId.Some?
  }

  ghost function NewAt(ids: seq<string>, choices: map<string, Choice>, i: int): string
    requires Replaces(ids, choices, i)
  {
    ReplacementIdentity(choices[ids[i]])
  }

  /** No substitution from `from` up to `to` is for `x`. */
  ghost predicate Untouched(ids: seq<string>, from: int, to: int, x: string) {
    forall k :: from <= k < to && 0 <= k < |ids| ==> ids[k] != x
  }

  /** The substitution at `i` put `x` in, and none before `n` took it out. */
  ghost predicate Puts(ids: seq<string>, choices: map<string, Choice>, i: int, n: nat, x: string) {
    Replaces(ids, choices, i) && i < n && NewAt(ids, choices, i) == x && Untouched(ids, i + 1, n, x)
  }

  /** After `n` substitutions `x` is a root. */
  ghost predicate Has(ids: seq<string>, choices: map<string, Choice>, roots: set<string>, n: nat, x: string) {
    || (x in roots && Untouched(ids, 0, n, x))
    || exists i :: Puts(ids, choices, i, n, x)
  }

  /** Every replacement names an identity that is not a root when its turn comes. */
  ghost predicate Fits(ids: seq<string>, choices: map<string, Choice>, roots: set<string>) {
    forall i :: Replaces(ids, choices, i) ==> !Has(ids, choices, roots, i, NewAt(ids, choices, i))
  }

  ghost predicate AllAdmissible(ids: seq<string>, unresolved: map<string, Unresolved>, choices: map<string, Choice>) {
    forall i :: 0 <= i < |ids| ==> Admissible(ids[i], unresolved, choices)
  }

  /** A replacement that was let through has another identity than the root it replaces, spelled from its own fields. */
  lemma AdmissibleReplacement(identity: string, unresolved: map<string, Unresolved>, choices: map<string, Choice>)
    requires Admissible(identity, unresolved, choices) && choices[identity].action != "remove"
    ensures var choice := choices[identity];
            && choice.provider.Some? && choice.projectId.Some?
            && CanonicalIdentity(choice.provider.value, choice.projectId.value) == Ok(ReplacementIdentity(choice))
            && ReplacementIdentity(choice) != identity
  {
    CanonicalNames(choices[identity].provider.value);
  }

  /** One substitution, and then the rest: what `Has` says of both. */
  lemma HasAfterFirst(
    ids: seq<string>, choices: map<string, Choice>, roots: set<string>, next: set<string>, n: nat, x: string)
    requires ids != [] && n < |ids|
    requires next == roots - {ids[0]} + (if Replaces(ids, choices, 0) then {NewAt(ids, choices, 0)} else {})
    ensures Has(ids, choices, roots, n + 1, x) <==> Has(ids[1..], choices, next, n, x)
  {
    var tail := ids[1..];
    assert forall k :: 0 <= k < |tail| ==> tail[k] == ids[k + 1];
    assert forall k :: 0 <= k < |tail| ==> (Replaces(tail, choices, k) <==> Replaces(ids, choices, k + 1));
    assert Untouched(tail, 0, n, x) <==> Untouched(ids, 1, n + 1, x) by {
      assert forall k :: 1 <= k < n + 1 && k < |ids| ==> ids[k] == tail[k - 1];
    }
    if Has(ids, choices, roots, n + 1, x) && !(x in roots && Untouched(ids, 0, n + 1, x)) {
      var i :| Puts(ids, choices, i, n + 1, x);
      if i > 0 {
        assert Puts(tail, choices, i - 1, n, x) by {
          assert forall k :: i <= k < n && 0 <= k < |tail| ==> tail[k] == ids[k + 1];
        }
      }
    }
    if Has(tail, choices, next, n, x) {
      if x in next && Untouched(tail, 0, n, x) {
        if x !in roots || x == ids[0] { assert Puts(ids, choices, 0, n + 1, x); }
      } else {
        var i :| Puts(tail, choices, i, n, x);
        assert Puts(ids, choices, i + 1, n + 1, x) by {
          assert forall k :: i + 2 <= k < n + 1 && 0 <= k < |ids| ==> ids[k] == tail[k - 1];
        }
      }
    }
  }

  lemma FitsAfterFirst(ids: seq<string>, choices: map<string, Choice>, roots: set<string>, next: set<string>)
    requires ids != []
    requires next == roots - {ids[0]} + (if Replaces(ids, choices, 0) then {NewAt(ids, choices, 0)} else {})
    ensures Fits(ids, choices, roots) <==>
              (Replaces(ids, choices, 0) ==> NewAt(ids, choices, 0) !in roots) && Fits(ids[1..], choices, next)
  {
    var tail := ids[1..];
    assert forall k :: Replaces(tail, choices, k) ==>
        Replaces(ids, choices, k + 1) && NewAt(ids, choices, k + 1) == NewAt(tail, choices, k);
    forall i | Replaces(tail, choices, i)
      ensures Has(ids, choices, roots, i + 1, NewAt(tail, choices, i)) <==>
              Has(tail, choices, next, i, NewAt(tail, choices, i))
    {
      HasAfterFirst(ids, choices, roots, next, i, NewAt(tail, choices, i));
    }
    if Replaces(ids, choices, 0) {
      assert Has(ids, choices, roots, 0, NewAt(ids, choices, 0)) <==> NewAt(ids, choices, 0) in roots;
    }
    if Fits(tail, choices, next) && (Replaces(ids, choices, 0) ==> NewAt(ids, choices, 0) !in roots) {
      forall i | Replaces(ids, choices, i) ensures !Has(ids, choices, roots, i, NewAt(ids, choices, i)) {
        if i > 0 { assert Replaces(tail, choices, i - 1) && NewAt(tail, choices, i - 1) == NewAt(ids, choices, i); }
      }
    }
    if Fits(ids, choices, roots) {
      forall i | Replaces(tail, choices, i) ensures !Has(tail, choices, next, i, NewAt(tail, choices, i)) {
        assert Replaces(ids, choices, i + 1);
      }
    }
  }

  lemma RestAdmissible(ids: seq<string>, unresolved: map<string, Unresolved>, choices: map<string, Choice>)
    requires AllAdmissible(ids, unresolved, choices) && ids != []
    ensures Admissible(ids[0], unresolved, choices) && AllAdmissible(ids[1..], unresolved, choices)
  {
    assert forall i :: 0 <= i < |ids[1..]| ==> ids[1..][i] == ids[i + 1];
  }

  /** Substitution succeeds exactly when every replacement fits, and which identities it then leaves. */
  lemma {:induction false} SubstitutionKeys(
      ids: seq<string>, unresolved: map<string, Unresolved>, choices: map<string, Choice>, s: Substitution)
    requires AllAdmissible(ids, unresolved, choices)
    ensures SubstituteAll(ids, unresolved, choices, s).Ok? <==> Fits(ids, choices, s.roots.Keys)
    ensures SubstituteAll(ids, unresolved, choices, s).Ok? ==>
              forall x :: x in SubstituteAll(ids, unresolved, choices, s).value.roots <==>
                  Has(ids, choices, s.roots.Keys, |ids|, x)
  {
    if ids != [] {
      RestAdmissible(ids, unresolved, choices);
      if choices[ids[0]].action != "remove" { AdmissibleReplacement(ids[0], unresolved, choices); }
      var step := SubstituteOne(ids[0], unresolved[ids[0]], choices[ids[0]], s);
      var next := s.roots.Keys - {ids[0]} + (if Replaces(ids, choices, 0) then {NewAt(ids, choices, 0)} else {});
      FitsAfterFirst(ids, choices, s.roots.Keys, next);
      if step.Ok? {
        assert step.value.roots.Keys == next;
        SubstitutionKeys(ids[1..], unresolved, choices, step.value);
        forall x ensures Has(ids, choices, s.roots.Keys, |ids|, x) <==> Has(ids[1..], choices, next, |ids| - 1, x) {
          HasAfterFirst(ids, choices, s.roots.Keys, next, |ids| - 1, x);
        }
      }
    }
  }

  // ----- What is recorded -----

  /** The records that the choices ask for, in order. */
  ghost function RemovedFor(
    ids: seq<string>, unresolved: map<string, Unresolved>, choices: map<string, Choice>): seq<Removed>
    requires AllAdmissible(ids, unresolved, choices)
  {
    if ids == [] then []
    else
      RestAdmissible(ids, unresolved, choices);
      (if choices[ids[0]].action == "remove"
          then [Removed(unresolved[ids[0]].source.root, unresolved[ids[0]].reason)] else [])
      + RemovedFor(ids[1..], unresolved, choices)
  }

  ghost function ReplacedFor(
    ids: seq<string>, unresolved: map<string, Unresolved>, choices: map<string, Choice>): seq<Replaced>
    requires AllAdmissible(ids, unresolved, choices)
  {
    if ids == [] then []
    else
      RestAdmissible(ids, unresolved, choices);
      var source, choice := unresolved[ids[0]].source.root, choices[ids[0]];
      (if choice.action == "remove" then []
       else
         var replacement := ReplacementRoot(source, choice);
         [Replaced(source, replacement, ids[0], replacement.identity, source.provider != replacement.provider)])
      + ReplacedFor(ids[1..], unresolved, choices)
  }

  lemma {:induction false} FirstRecords(
    ids: seq<string>, unresolved: map<string, Unresolved>, choices: map<string, Choice>, s: Substitution,
    next: Substitution)
    requires AllAdmissible(ids, unresolved, choices) && ids != [] && AllAdmissible(ids[1..], unresolved, choices)
    requires Admissible(ids[0], unresolved, choices)
    requires SubstituteOne(ids[0], unresolved[ids[0]], choices[ids[0]], s) == Ok(next)
    ensures next.removed[..] == s.removed + next.removed[|s.removed|..] &&
            next.replaced[..] == s.replaced + next.replaced[|s.replaced|..]
    ensures RemovedFor(ids, unresolved, choices) ==
            next.removed[|s.removed|..] + RemovedFor(ids[1..], unresolved, choices)
    ensures ReplacedFor(ids, unresolved, choices) ==
            next.replaced[|s.replaced|..] + ReplacedFor(ids[1..], unresolved, choices)
    ensures |next.removed| + |next.replaced| == |s.removed| + |s.replaced| + 1
  {
  }

  lemma Appended<T>(before: seq<T>, next: seq<T>, rest: seq<T>, all: seq<T>)
    requires |before| <= |next| && next == before + next[|before|..] && all == next[|before|..] + rest
    ensures next + rest == before + all
  {
    assert next + rest == before + (next[|before|..] + rest);
  }

  lemma {:induction false} SubstitutionRecords(
      ids: seq<string>, unresolved: map<string, Unresolved>, choices: map<string, Choice>, s: Substitution)
    requires AllAdmissible(ids, unresolved, choices)
    requires SubstituteAll(ids, unresolved, choices, s).Ok?
    ensures var end := SubstituteAll(ids, unresolved, choices, s).value;
            && end.removed == s.removed + RemovedFor(ids, unresolved, choices)
            && end.replaced == s.replaced + ReplacedFor(ids, unresolved, choices)
    ensures |RemovedFor(ids, unresolved, choices)| + |ReplacedFor(ids, unresolved, choices)| == |ids|
  {
    if ids != [] {
      RestAdmissible(ids, unresolved, choices);
      var next := SubstituteOne(ids[0], unresolved[ids[0]], choices[ids[0]], s).value;
      SubstitutionRecords(ids[1..], unresolved, choices, next);
      FirstRecords(ids, unresolved, choices, s, next);
      Appended(s.removed, next.removed, RemovedFor(ids[1..], unresolved, choices),
          RemovedFor(ids, unresolved, choices));
      Appended(s.replaced, next.replaced, ReplacedFor(ids[1..], unresolved, choices),
          ReplacedFor(ids, unresolved, choices));
    }
  }

  ghost predicate KeyedByIdentity(roots: map<string, Root>) {
    forall x :: x in roots ==> roots[x].identity == x
  }

  lemma {:induction false} SubstitutionIsKeyed(
      ids: seq<string>, unresolved: map<string, Unresolved>, choices: map<string, Choice>, s: Substitution)
    requires AllAdmissible(ids, unresolved, choices) && KeyedByIdentity(s.roots)
    requires SubstituteAll(ids, unresolved, choices, s).Ok?
    ensures KeyedByIdentity(SubstituteAll(ids, unresolved, choices, s).value.roots)
  {
    if ids != [] {
      RestAdmissible(ids, unresolved, choices);
      SubstitutionIsKeyed(ids[1..], unresolved, choices,
          SubstituteOne(ids[0], unresolved[ids[0]], choices[ids[0]], s).value);
    }
  }

  /** A root that no choice is about is still there, unchanged: a replacement cannot overwrite it. */
  lemma {:induction false} OtherRootsStay(
      ids: seq<string>, unresolved: map<string, Unresolved>, choices: map<string, Choice>, s: Substitution, x: string)
    requires AllAdmissible(ids, unresolved, choices)
    requires SubstituteAll(ids, unresolved, choices, s).Ok?
    requires x in s.roots && Untouched(ids, 0, |ids|, x)
    ensures var end := SubstituteAll(ids, unresolved, choices, s).value;
            x in end.roots && end.roots[x] == s.roots[x]
  {
    if ids != [] {
      RestAdmissible(ids, unresolved, choices);
      assert forall k :: 0 <= k < |ids[1..]| ==> ids[1..][k] == ids[k + 1];
      OtherRootsStay(ids[1..], unresolved, choices,
          SubstituteOne(ids[0], unresolved[ids[0]], choices[ids[0]], s).value, x);
    }
  }

  ghost function RecordAt(
    ids: seq<string>, unresolved: map<string, Unresolved>, choices: map<string, Choice>, i: int): Replaced
    requires AllAdmissible(ids, unresolved, choices) && Replaces(ids, choices, i)
  {
    assert Admissible(ids[i], unresolved, choices);
    var source := unresolved[ids[i]].source.root;
    var replacement := ReplacementRoot(source, choices[ids[i]]);
    Replaced(source, replacement, ids[i], replacement.identity, source.provider != replacement.provider)
  }

  /**
   A replacement that no later choice takes out is there at the end, with the side, path and filename of the root it
   replaces.
   */
  lemma {:induction false} ReplacementStays(
      ids: seq<string>, unresolved: map<string, Unresolved>, choices: map<string, Choice>, s: Substitution, i: int)
    requires AllAdmissible(ids, unresolved, choices) && Replaces(ids, choices, i)
    requires SubstituteAll(ids, unresolved, choices, s).Ok?
    requires Untouched(ids, i + 1, |ids|, NewAt(ids, choices, i))
    ensures var end, x := SubstituteAll(ids, unresolved, choices, s).value, NewAt(ids, choices, i);
            x in end.roots && end.roots[x] == RecordAt(ids, unresolved, choices, i).replacement
  {
    StaysAs(ids, unresolved, choices, s, i, NewAt(ids, choices, i), RecordAt(ids, unresolved, choices, i).replacement);
  }

  lemma {:induction false} StaysAs(
      ids: seq<string>, unresolved: map<string, Unresolved>, choices: map<string, Choice>, s: Substitution, i: int,
      x: string, root: Root)
    requires AllAdmissible(ids, unresolved, choices) && Replaces(ids, choices, i)
    requires NewAt(ids, choices, i) == x && RecordAt(ids, unresolved, choices, i).replacement == root
    requires SubstituteAll(ids, unresolved, choices, s).Ok? && Untouched(ids, i + 1, |ids|, x)
    ensures var end := SubstituteAll(ids, unresolved, choices, s).value;
            x in end.roots && end.roots[x] == root
  {
    RestAdmissible(ids, unresolved, choices);
    SubstituteFirst(ids, unresolved, choices, s);
    UntouchedTail(ids, i, x);
    var tail, next := ids[1..], SubstituteOne(ids[0], unresolved[ids[0]], choices[ids[0]], s).value;
    if i == 0 {
      FirstIsPut(ids, unresolved, choices, s);
      OtherRootsStay(tail, unresolved, choices, next, x);
    } else {
      RecordsOfRest(ids, unresolved, choices, i);
      StaysAs(tail, unresolved, choices, next, i - 1, x, root);
    }
  }

  lemma UntouchedTail(ids: seq<string>, i: int, x: string)
    requires 0 <= i < |ids| && Untouched(ids, i + 1, |ids|, x)
    ensures Untouched(ids[1..], i, |ids[1..]|, x)
  {
    assert forall k :: 0 <= k < |ids[1..]| ==> ids[1..][k] == ids[k + 1];
  }

  lemma {:induction false} SubstituteFirst(
      ids: seq<string>, unresolved: map<string, Unresolved>, choices: map<string, Choice>, s: Substitution)
    requires AllAdmissible(ids, unresolved, choices) && ids != [] && AllAdmissible(ids[1..], unresolved, choices)
    requires Admissible(ids[0], unresolved, choices) && SubstituteAll(ids, unresolved, choices, s).Ok?
    ensures var next := SubstituteOne(ids[0], unresolved[ids[0]], choices[ids[0]], s);
            next.Ok? && SubstituteAll(ids, unresolved, choices, s) ==
                SubstituteAll(ids[1..], unresolved, choices, next.value)
  {
  }

  lemma FirstIsPut(
      ids: seq<string>, unresolved: map<string, Unresolved>, choices: map<string, Choice>, s: Substitution)
    requires AllAdmissible(ids, unresolved, choices) && ids != [] && Replaces(ids, choices, 0)
    requires Admissible(ids[0], unresolved, choices)
    requires SubstituteOne(ids[0], unresolved[ids[0]], choices[ids[0]], s).Ok?
    ensures var next, x := SubstituteOne(ids[0], unresolved[ids[0]], choices[ids[0]], s).value, NewAt(ids, choices, 0);
            x in next.roots && next.roots[x] == RecordAt(ids, unresolved, choices, 0).replacement
  {
  }

  /** The records after the first are those of the rest. */
  lemma RecordsOfRest(ids: seq<string>, unresolved: map<string, Unresolved>, choices: map<string, Choice>, i: int)
    requires AllAdmissible(ids, unresolved, choices) && ids != [] && i > 0
    ensures AllAdmissible(ids[1..], unresolved, choices)
    ensures Replaces(ids, choices, i) <==> Replaces(ids[1..], choices, i - 1)
    ensures Replaces(ids, choices, i) ==>
            RecordAt(ids, unresolved, choices, i) == RecordAt(ids[1..], unresolved, choices, i - 1)
  {
    RestAdmissible(ids, unresolved, choices);
    if 0 < i < |ids| { assert ids[1..][i - 1] == ids[i]; }
  }

  lemma {:induction false} FirstReplacement(
    ids: seq<string>, unresolved: map<string, Unresolved>, choices: map<string, Choice>)
    requires AllAdmissible(ids, unresolved, choices) && ids != []
    ensures AllAdmissible(ids[1..], unresolved, choices)
    ensures ReplacedFor(ids, unresolved, choices) ==
              (if Replaces(ids, choices, 0) then [RecordAt(ids, unresolved, choices, 0)] else [])
              + ReplacedFor(ids[1..], unresolved, choices)
  {
    RestAdmissible(ids, unresolved, choices);
    if choices[ids[0]].action != "remove" { AdmissibleReplacement(ids[0], unresolved, choices); }
  }

  lemma InSecond<T>(first: seq<T>, second: seq<T>, x: T)
    ensures x in first + second <==> x in first || x in second
  {
  }

  /** The replacements recorded are those of the choices to replace. */
  lemma {:induction false} RecordIsListed(
    ids: seq<string>, unresolved: map<string, Unresolved>, choices: map<string, Choice>, i: int)
    requires AllAdmissible(ids, unresolved, choices) && Replaces(ids, choices, i)
    ensures RecordAt(ids, unresolved, choices, i) in ReplacedFor(ids, unresolved, choices)
  {
    IsListedAs(ids, unresolved, choices, i, RecordAt(ids, unresolved, choices, i));
  }

  lemma {:induction false} IsListedAs(
      ids: seq<string>, unresolved: map<string, Unresolved>, choices: map<string, Choice>, i: int, record: Replaced)
    requires AllAdmissible(ids, unresolved, choices) && Replaces(ids, choices, i)
    requires RecordAt(ids, unresolved, choices, i) == record
    ensures record in ReplacedFor(ids, unresolved, choices)
  {
    FirstReplacement(ids, unresolved, choices);
    if i > 0 {
      RecordsOfRest(ids, unresolved, choices, i);
      IsListedAs(ids[1..], unresolved, choices, i - 1, record);
    }
    InSecond(if Replaces(ids, choices, 0) then [RecordAt(ids, unresolved, choices, 0)] else [],
             ReplacedFor(ids[1..], unresolved, choices), record);
  }

  lemma {:induction false} ListedIsRecord(
    ids: seq<string>, unresolved: map<string, Unresolved>, choices: map<string, Choice>, r: Replaced)
    returns (i: int)
    requires AllAdmissible(ids, unresolved, choices) && r in ReplacedFor(ids, unresolved, choices)
    ensures Replaces(ids, choices, i) && RecordAt(ids, unresolved, choices, i) == r
  {
    if Replaces(ids, choices, 0) && RecordAt(ids, unresolved, choices, 0) == r {
      i := 0;
    } else {
      ListedInRest(ids, unresolved, choices, r);
      var j := ListedIsRecord(ids[1..], unresolved, choices, r);
      RecordMovesUp(ids, unresolved, choices, j, r);
      i := j + 1;
    }
  }

  lemma RecordMovesUp(
    ids: seq<string>, unresolved: map<string, Unresolved>, choices: map<string, Choice>, j: int, r: Replaced)
    requires ids != [] && AllAdmissible(ids, unresolved, choices) && AllAdmissible(ids[1..], unresolved, choices)
    requires Replaces(ids[1..], choices, j) && RecordAt(ids[1..], unresolved, choices, j) == r
    ensures Replaces(ids, choices, j + 1) && RecordAt(ids, unresolved, choices, j + 1) == r
  {
    assert ids[1..][j] == ids[j + 1];
    RecordsOfRest(ids, unresolved, choices, j + 1);
  }

  lemma {:induction false} ListedInRest(
    ids: seq<string>, unresolved: map<string, Unresolved>, choices: map<string, Choice>, r: Replaced)
    requires AllAdmissible(ids, unresolved, choices) && r in ReplacedFor(ids, unresolved, choices)
    requires Replaces(ids, choices, 0) ==> RecordAt(ids, unresolved, choices, 0) != r
    ensures ids != [] && AllAdmissible(ids[1..], unresolved, choices) && r in ReplacedFor(ids[1..], unresolved, choices)
  {
    FirstReplacement(ids, unresolved, choices);
    InSecond(if Replaces(ids, choices, 0) then [RecordAt(ids, unresolved, choices, 0)]
        else [], ReplacedFor(ids[1..], unresolved, choices), r);
  }

  /** Counting: each substitution takes one root out, and a replacement puts one in. */
  lemma {:induction false} SubstitutionSize(
      ids: seq<string>, unresolved: map<string, Unresolved>, choices: map<string, Choice>, s: Substitution)
    requires AllAdmissible(ids, unresolved, choices) && Distinct(ids)
    requires forall i :: 0 <= i < |ids| ==> ids[i] in s.roots
    requires SubstituteAll(ids, unresolved, choices, s).Ok?
    ensures var end := SubstituteAll(ids, unresolved, choices, s).value;
            |end.roots| == |s.roots| - |RemovedFor(ids, unresolved, choices)|
  {
    if ids != [] {
      RestAdmissible(ids, unresolved, choices);
      var next := SubstituteOne(ids[0], unresolved[ids[0]], choices[ids[0]], s).value;
      var kept := s.roots - {ids[0]};
      assert kept.Keys == s.roots.Keys - {ids[0]};
      assert |kept| == |kept.Keys| && |s.roots| == |s.roots.Keys| && |kept.Keys| == |s.roots.Keys| - 1;
      if choices[ids[0]].action != "remove" {
        var new_ := ReplacementRoot(unresolved[ids[0]].source.root, choices[ids[0]]);
        assert next.roots.Keys == kept.Keys + {new_.identity};
        assert |next.roots| == |next.roots.Keys| == |kept.Keys| + 1;
      }
      assert forall i :: 0 <= i < |ids[1..]| ==> ids[1..][i] == ids[i + 1];
      SubstitutionSize(ids[1..], unresolved, choices, next);
    }
  }

  // ----- When every unresolved root is a current one -----

  /** A replacement is new, or names a root that an earlier substitution took out; and no two are the same. */
  ghost predicate Clean(ids: seq<string>, choices: map<string, Choice>, roots: set<string>) {
    forall i :: Replaces(ids, choices, i) ==>
      && (NewAt(ids, choices, i) in roots ==> !Untouched(ids, 0, i, NewAt(ids, choices, i)))
      && forall j :: Replaces(ids, choices, j) && j < i ==> NewAt(ids, choices, j) != NewAt(ids, choices, i)
  }

  /** A name used twice is free the second time only if it was taken out in between, so it was a root the first time. */
  lemma ReusedNameIsSeen(ids: seq<string>, choices: map<string, Choice>, roots: set<string>, j: int, i: int)
    requires Distinct(ids) && forall k :: 0 <= k < |ids| ==> ids[k] in roots
    requires Replaces(ids, choices, i) && Replaces(ids, choices, j) && j < i &&
             NewAt(ids, choices, j) == NewAt(ids, choices, i)
    requires !Has(ids, choices, roots, i, NewAt(ids, choices, i))
    ensures Has(ids, choices, roots, j, NewAt(ids, choices, j))
  {
    var x := NewAt(ids, choices, i);
    assert !Puts(ids, choices, j, i, x);
    var k :| j + 1 <= k < i && 0 <= k < |ids| && ids[k] == x;
    assert x in roots && Untouched(ids, 0, j, x);
  }

  lemma FitsIffClean(ids: seq<string>, choices: map<string, Choice>, roots: set<string>)
    requires Distinct(ids) && forall i :: 0 <= i < |ids| ==> ids[i] in roots
    ensures Fits(ids, choices, roots) <==> Clean(ids, choices, roots)
  {
    if Fits(ids, choices, roots) {
      forall i | Replaces(ids, choices, i)
        ensures NewAt(ids, choices, i) in roots ==> !Untouched(ids, 0, i, NewAt(ids, choices, i))
        ensures forall j :: Replaces(ids, choices, j) && j < i ==> NewAt(ids, choices, j) != NewAt(ids, choices, i)
      {
        var x := NewAt(ids, choices, i);
        assert !Has(ids, choices, roots, i, x);
        forall j | Replaces(ids, choices, j) && j < i ensures NewAt(ids, choices, j) != x {
          assert !Has(ids, choices, roots, j, NewAt(ids, choices, j));
          if NewAt(ids, choices, j) == x { ReusedNameIsSeen(ids, choices, roots, j, i); }
        }
      }
    }
    if Clean(ids, choices, roots) {
      forall i | Replaces(ids, choices, i) ensures !Has(ids, choices, roots, i, NewAt(ids, choices, i)) {
        var x := NewAt(ids, choices, i);
        forall j ensures !Puts(ids, choices, j, i, x) {
          if Replaces(ids, choices, j) && j < i { assert NewAt(ids, choices, j) != x; }
        }
      }
    }
  }

  /** A later substitution takes the replacement of an earlier one out. */
  ghost predicate Drops(ids: seq<string>, choices: map<string, Choice>, i: int) {
    Replaces(ids, choices, i) && !Untouched(ids, i + 1, |ids|, NewAt(ids, choices, i))
  }

  lemma NothingDropped(ids: seq<string>, choices: map<string, Choice>, roots: set<string>, i: int)
    requires Distinct(ids) && Fits(ids, choices, roots) && Drops(ids, choices, i)
    ensures NewAt(ids, choices, i) in ids && NewAt(ids, choices, i) !in roots
  {
    var x := NewAt(ids, choices, i);
    var k :| i + 1 <= k < |ids| && ids[k] == x;
    assert !Has(ids, choices, roots, i, x);
    assert Untouched(ids, 0, i, x);
  }

  // ----- Which requests are accepted -----

  function IdentityOf(item: Unresolved): string {
    if item.source.Selected? then item.source.root.identity else ""
  }

  ghost function UnresolvedIds(items: seq<Unresolved>): seq<string> {
    seq(|items|, i requires 0 <= i < |items| => IdentityOf(items[i]))
  }

  ghost function ChoiceIds(items: seq<Choice>): seq<string> {
    seq(|items|, i requires 0 <= i < |items| => items[i].identity)
  }

  ghost function Ids(roots: seq<Root>): seq<string> {
    seq(|roots|, i requires 0 <= i < |roots| => roots[i].identity)
  }

  ghost function Members(ids: seq<string>): set<string> { set x | x in ids }

  ghost predicate Canonical(item: Unresolved) {
    item.source.Selected? && CanonicalIdentity(item.source.root.provider, item.source.root.projectId) ==
        Ok(item.source.root.identity)
  }

  lemma MembersOfTail(all: seq<string>)
    requires all != []
    ensures Members(all) == {all[0]} + Members(all[1..])
    ensures Distinct(all) <==> all[0] !in all[1..] && Distinct(all[1..])
  {
    assert all == [all[0]] + all[1..];
    if all[0] !in all[1..] && Distinct(all[1..]) {
      forall i, j | 0 <= i < j < |all| ensures all[i] != all[j] {
        assert all[j] == all[1..][j - 1] && (i > 0 ==> all[i] == all[1..][i - 1]);
      }
    }
    if Distinct(all) {
      forall i, j | 0 <= i < j < |all[1..]| ensures all[1..][i] != all[1..][j] { assert all[i + 1] != all[j + 1]; }
      forall j | 0 <= j < |all[1..]| ensures all[1..][j] != all[0] { assert all[0] != all[j + 1]; }
    }
  }

  /** No two the same, and none of them already there. */
  ghost predicate Fresh(all: seq<string>, there: set<string>) { Distinct(all) && Members(all) !! there }

  lemma FreshStep(all: seq<string>, there: set<string>, rest: seq<string>, next: set<string>)
    requires all != [] && rest == all[1..] && next == there + {all[0]}
    ensures Fresh(all, there) <==> all[0] !in there && Fresh(rest, next)
    ensures there + Members(all) == next + Members(rest)
    ensures all[0] in Members(all)
  {
    MembersOfTail(all);
  }

  ghost predicate AllCanonical(items: seq<Unresolved>) { forall i :: 0 <= i < |items| ==> Canonical(items[i]) }

  lemma AllCanonicalStep(items: seq<Unresolved>)
    requires items != []
    ensures AllCanonical(items) <==> Canonical(items[0]) && AllCanonical(items[1..])
    ensures UnresolvedIds(items)[1..] == UnresolvedIds(items[1..])
  {
    assert items == [items[0]] + items[1..];
    assert forall i :: 0 < i < |items| ==> items[i] == items[1..][i - 1];
  }

  lemma KeyChecked(item: Unresolved)
    ensures UnresolvedKey(item).Ok? <==> Canonical(item)
    ensures UnresolvedKey(item).Ok? ==> UnresolvedKey(item).value == IdentityOf(item)
  {
  }

  lemma {:induction false} UnresolvedCollectedIff(items: seq<Unresolved>, soFar: map<string, Unresolved>)
    ensures CollectUnresolved(items, soFar).Ok? <==> AllCanonical(items) && Fresh(UnresolvedIds(items), soFar.Keys)
    ensures CollectUnresolved(items, soFar).Ok? ==>
              CollectUnresolved(items, soFar).value.Keys == soFar.Keys + Members(UnresolvedIds(items))
  {
    if items != [] {
      var next := soFar[IdentityOf(items[0]) := items[0]];
      AllCanonicalStep(items);
      KeyChecked(items[0]);
      FreshStep(UnresolvedIds(items), soFar.Keys, UnresolvedIds(items[1..]), next.Keys);
      UnresolvedCollectedIff(items[1..], next);
    }
  }

  lemma {:induction false} UnresolvedKept(items: seq<Unresolved>, soFar: map<string, Unresolved>, x: string)
    requires CollectUnresolved(items, soFar).Ok? && x in soFar
    ensures var all := CollectUnresolved(items, soFar).value;
            x in all && all[x] == soFar[x]
  {
    if items != [] { UnresolvedKept(items[1..], soFar[UnresolvedKey(items[0]).value := items[0]], x); }
  }

  lemma {:induction false} UnresolvedFound(items: seq<Unresolved>, soFar: map<string, Unresolved>, i: nat)
    requires CollectUnresolved(items, soFar).Ok? && i < |items|
    ensures var all := CollectUnresolved(items, soFar).value;
            IdentityOf(items[i]) in all && all[IdentityOf(items[i])] == items[i]
  {
    var next := soFar[UnresolvedKey(items[0]).value := items[0]];
    KeyChecked(items[0]);
    if i == 0 { UnresolvedKept(items[1..], next, IdentityOf(items[0])); }
    else { UnresolvedFound(items[1..], next, i - 1); }
  }

  ghost predicate AllChecked(items: seq<Choice>, unresolved: map<string, Unresolved>) {
    forall i :: 0 <= i < |items| ==> StrictText(items[i].identity) && CheckAction(items[i], unresolved).None?
  }

  lemma AllCheckedStep(items: seq<Choice>, unresolved: map<string, Unresolved>)
    requires items != []
    ensures AllChecked(items, unresolved) <==>
              StrictText(items[0].identity) && CheckAction(items[0], unresolved).None? &&
                  AllChecked(items[1..], unresolved)
    ensures ChoiceIds(items)[1..] == ChoiceIds(items[1..])
  {
    assert items == [items[0]] + items[1..];
    assert forall i :: 0 < i < |items| ==> items[i] == items[1..][i - 1];
  }

  lemma {:induction false} ChoicesCollectedIff(
    items: seq<Choice>, unresolved: map<string, Unresolved>, soFar: map<string, Choice>)
    ensures CollectChoices(items, unresolved, soFar).Ok? <==>
            AllChecked(items, unresolved) && Fresh(ChoiceIds(items), soFar.Keys)
    ensures CollectChoices(items, unresolved, soFar).Ok? ==>
              CollectChoices(items, unresolved, soFar).value == ChoicesByIdentity(items, soFar)
  {
    if items != [] {
      var next := soFar[items[0].identity := items[0]];
      AllCheckedStep(items, unresolved);
      FreshStep(ChoiceIds(items), soFar.Keys, ChoiceIds(items[1..]), next.Keys);
      ChoicesCollectedIff(items[1..], unresolved, next);
    }
  }

  ghost function ChoicesByIdentity(items: seq<Choice>, soFar: map<string, Choice>): map<string, Choice> {
    if items == [] then soFar else ChoicesByIdentity(items[1..], soFar[items[0].identity := items[0]])
  }

  lemma {:induction false} ChoiceKeys(items: seq<Choice>, soFar: map<string, Choice>)
    ensures ChoicesByIdentity(items, soFar).Keys == soFar.Keys + Members(ChoiceIds(items))
  {
    if items != [] {
      assert ChoiceIds(items[1..]) == ChoiceIds(items)[1..];
      MembersOfTail(ChoiceIds(items));
      ChoiceKeys(items[1..], soFar[items[0].identity := items[0]]);
    }
  }

  lemma IdsOfRest(roots: seq<Root>)
    requires roots != []
    ensures Ids(roots)[0] == roots[0].identity && Ids(roots)[1..] == Ids(roots[1..])
  {
  }

  /** The index has as many roots as the list exactly when no identity repeats. */
  lemma {:induction false} RootsIndexed(roots: seq<Root>, soFar: map<string, Root>)
    ensures var all := RootsByIdentity(roots, soFar);
            && all.Keys == soFar.Keys + Members(Ids(roots))
            && |all| <= |soFar| + |roots|
            && (|all| == |soFar| + |roots| <==> Fresh(Ids(roots), soFar.Keys))
  {
    if roots != [] {
      var next := soFar[roots[0].identity := roots[0]];
      IdsOfRest(roots);
      FreshStep(Ids(roots), soFar.Keys, Ids(roots[1..]), next.Keys);
      GrownSize(soFar, roots[0]);
      RootsIndexed(roots[1..], next);
      assert RootsByIdentity(roots, soFar) == RootsByIdentity(roots[1..], next);
    } else {
      assert Ids(roots) == [] && Members([]) == {};
    }
  }

  lemma {:induction false} RootsAreKeyed(roots: seq<Root>, soFar: map<string, Root>)
    requires KeyedByIdentity(soFar)
    ensures KeyedByIdentity(RootsByIdentity(roots, soFar))
  {
    if roots != [] { RootsAreKeyed(roots[1..], soFar[roots[0].identity := roots[0]]); }
  }

  lemma GrownSize(roots: map<string, Root>, root: Root)
    ensures |roots[root.identity := root]| == if root.identity in roots then |roots| else |roots| + 1
  {
    var next := roots[root.identity := root];
    assert next.Keys == roots.Keys + {root.identity};
    assert |next| == |next.Keys| && |roots| == |roots.Keys|;
    if root.identity in roots { assert next.Keys == roots.Keys; }
  }

  lemma {:induction false} RootsFound(roots: seq<Root>, soFar: map<string, Root>, x: string)
    requires x in soFar || x in Ids(roots)
    ensures x in RootsByIdentity(roots, soFar)
    ensures var found := RootsByIdentity(roots, soFar)[x];
            found in roots || (x in soFar && found == soFar[x])
  {
    if roots != [] {
      assert Ids(roots[1..]) == Ids(roots)[1..];
      assert Ids(roots) == [roots[0].identity] + Ids(roots[1..]);
      RootsFound(roots[1..], soFar[roots[0].identity := roots[0]], x);
      assert forall r :: r in roots[1..] ==> r in roots;
    }
  }

  /** What a choice may do with an unresolved root. */
  ghost predicate ActionAllowed(choice: Choice, item: Unresolved) {
    || (choice.action == "remove" && choice.provider.None? && choice.projectId.None?)
    || (choice.action == "replace" && item.supported && choice.provider.Some? && choice.projectId.Some?
        && ReplacementAllowed(choice.identity, choice.provider.value, choice.projectId.value))
  }

  ghost predicate ReplacementAllowed(identity: string, provider: string, projectId: string) {
    && provider in {"modrinth", "curseforge"}
    && StrictText(projectId) && !HasControl(projectId)
    && (provider == "curseforge" ==> IsDecimal(projectId) && projectId[0] != '0')
    && provider + ":" + projectId != identity
  }

  lemma ReplacementChecked(identity: string, choice: Choice)
    ensures CheckReplacement(identity, choice).None? <==>
              choice.provider.Some? && choice.projectId.Some? &&
                  ReplacementAllowed(identity, choice.provider.value, choice.projectId.value)
  {
    if choice.provider.Some? && choice.projectId.Some? {
      CanonicalNames(choice.provider.value);
      assert StrictText("modrinth") && StrictText("curseforge") by {
        assert Strip("modrinth") == "modrinth" && Strip("curseforge") == "curseforge";
      }
      if IsDecimal(choice.projectId.value) { PositiveCanonical(choice.projectId.value); }
    }
  }

  lemma ActionChecked(choice: Choice, unresolved: map<string, Unresolved>)
    ensures CheckAction(choice, unresolved).None? <==>
              choice.identity in unresolved && ActionAllowed(choice, unresolved[choice.identity])
  {
    ReplacementChecked(choice.identity, choice);
  }

  /** The identities to work through, and the choices by identity. */
  ghost function Order(
    resolution: Resolution): seq<string> { SortedKeys(Members(UnresolvedIds(resolution.unresolved))) }

  ghost function Chosen(request: Request): map<string, Choice> { ChoicesByIdentity(request.choices, map[]) }

  /** Every choice is about an unresolved root, one for each, and does what may be done with it. */
  ghost predicate ChoicesSettle(choices: seq<Choice>, items: seq<Unresolved>) {
    && Distinct(ChoiceIds(choices)) && Members(ChoiceIds(choices)) == Members(UnresolvedIds(items))
    && (forall i :: 0 <= i < |choices| ==> StrictText(choices[i].identity))
    && forall i, j :: 0 <= i < |choices| && 0 <= j < |items| && choices[i].identity == IdentityOf(items[j]) ==>
                        ActionAllowed(choices[i], items[j])
  }

  ghost predicate Settled(resolution: Resolution, request: Request) {
    && AllCanonical(resolution.unresolved)
    && Distinct(UnresolvedIds(resolution.unresolved))
    && ChoicesSettle(request.choices, resolution.unresolved)
  }

  lemma ChoicesSettleIff(items: seq<Unresolved>, choices: seq<Choice>)
    requires CollectUnresolved(items, map[]).Ok?
    ensures var unresolved := CollectUnresolved(items, map[]).value;
            var chosen := CollectChoices(choices, unresolved, map[]);
            ChoicesSettle(choices, items) <==> chosen.Ok? && chosen.value.Keys == unresolved.Keys
  {
    UnresolvedCollectedIff(items, map[]);
    var unresolved := CollectUnresolved(items, map[]).value;
    ChoicesCollectedIff(choices, unresolved, map[]);
    ChoiceKeys(choices, map[]);
    forall i | 0 <= i < |choices|
      ensures choices[i].identity in ChoiceIds(choices)
      ensures CheckAction(choices[i], unresolved).None? <==>
                choices[i].identity in unresolved && ActionAllowed(choices[i], unresolved[choices[i].identity])
    {
      assert ChoiceIds(choices)[i] == choices[i].identity;
      ActionChecked(choices[i], unresolved);
    }
    forall j | 0 <= j < |items|
      ensures IdentityOf(items[j]) in unresolved && unresolved[IdentityOf(items[j])] == items[j]
    {
      UnresolvedFound(items, map[], j);
    }
    forall i | 0 <= i < |choices| && choices[i].identity in unresolved
      ensures exists j :: 0 <= j < |items| && choices[i].identity == IdentityOf(items[j])
    {
      var ids := UnresolvedIds(items);
      var j :| 0 <= j < |ids| && ids[j] == choices[i].identity;
      assert choices[i].identity == IdentityOf(items[j]);
    }
  }

  /** The parts of an accepted or colliding request. */
  lemma SettledParts(plan: Plan, request: Request)
    requires plan.resolution.Some? && Settled(plan.resolution.value, request)
    ensures var resolution := plan.resolution.value;
            && CollectUnresolved(resolution.unresolved, map[]).Ok?
            && var unresolved := CollectUnresolved(resolution.unresolved, map[]).value;
            && unresolved.Keys == Members(UnresolvedIds(resolution.unresolved))
            && CollectChoices(request.choices, unresolved, map[]) == Ok(Chosen(request))
            && Chosen(request).Keys == unresolved.Keys
            && AllAdmissible(Order(resolution), unresolved, Chosen(request))
  {
    var items := plan.resolution.value.unresolved;
    UnresolvedCollectedIff(items, map[]);
    ChoicesSettleIff(items, request.choices);
    ChoicesCollectedIff(request.choices, CollectUnresolved(items, map[]).value, map[]);
    CollectedAreAdmissible(items, request.choices, Order(plan.resolution.value));
  }

  ghost function Unresolveds(resolution: Resolution): map<string, Unresolved>
    requires CollectUnresolved(resolution.unresolved, map[]).Ok?
  {
    CollectUnresolved(resolution.unresolved, map[]).value
  }

  ghost function Outcome(plan: Plan, request: Request): Result<Substitution, ResolutionError>
    requires plan.resolution.Some? && Settled(plan.resolution.value, request)
  {
    SettledParts(plan, request);
    var resolution := plan.resolution.value;
    SubstituteAll(Order(resolution), Unresolveds(resolution), Chosen(request),
        Substitution(RootsByIdentity(resolution.roots, map[]), [], []))
  }

  /** `Validate`, once the request is settled. */
  lemma ValidateSettled(plan: Plan, request: Request)
    ensures Validate(plan, request).Ok? <==>
              && CheckBinding(plan, request).None? && Settled(plan.resolution.value, request)
              && Distinct(Ids(plan.resolution.value.roots)) && Outcome(plan, request).Ok?
    ensures Validate(plan, request).Ok? ==>
              var s := Outcome(plan, request).value;
              Validate(plan, request).value ==
                  Validated(Selection(SortedKeys(s.roots.Keys), s.roots), s.removed, s.replaced)
  {
    if CheckBinding(plan, request).None? {
      var resolution := plan.resolution.value;
      SettledIff(resolution, request);
      RootsIndexed(resolution.roots, map[]);
      if Settled(resolution, request) {
        SettledParts(plan, request);
        ValidateParts(plan, request, Unresolveds(resolution), Chosen(request));
      }
    }
  }

  lemma SettledIff(resolution: Resolution, request: Request)
    ensures Settled(resolution, request) <==>
              var unresolved := CollectUnresolved(resolution.unresolved, map[]);
              && unresolved.Ok?
              && var choices := CollectChoices(request.choices, unresolved.value, map[]);
              choices.Ok? && choices.value.Keys == unresolved.value.Keys
  {
    UnresolvedCollectedIff(resolution.unresolved, map[]);
    if CollectUnresolved(resolution.unresolved, map[]).Ok? { ChoicesSettleIff(resolution.unresolved, request.choices); }
  }

  /** `Validate`, as far as the substitution. */
  lemma {:induction false} ValidateParts(
    plan: Plan, request: Request, unresolved: map<string, Unresolved>, choices: map<string, Choice>)
    requires CheckBinding(plan, request).None?
    requires CollectUnresolved(plan.resolution.value.unresolved, map[]) == Ok(unresolved)
    requires CollectChoices(request.choices, unresolved, map[]) == Ok(choices) && choices.Keys == unresolved.Keys
    requires AllAdmissible(SortedKeys(unresolved.Keys), unresolved, choices)
    ensures var roots := RootsByIdentity(plan.resolution.value.roots, map[]);
            var r := SubstituteAll(SortedKeys(unresolved.Keys), unresolved, choices, Substitution(roots, [], []));
            Validate(plan, request) ==
              if |roots| != |plan.resolution.value.roots| then Err(AmbiguousRoots)
              else if r.Err? then Err(r.error)
              else Ok(Validated(Selection(SortedKeys(r.value.roots.Keys), r.value.roots), r.value.removed,
                  r.value.replaced))
  {
  }

  /** The plan waits for a resolution, with its locks, and the request was made for it as it is now. */
  ghost predicate Bound(plan: Plan, request: Request) {
    && plan.state == "resolution-required" && plan.resolution.Some?
    && plan.ownedKeys == {plan.sourceKey, "pack:" + plan.target.id}
    && request.planIdentity == plan.identity && request.snapshotDigest == plan.snapshotDigest
    && request.resolutionDigest == ResolutionDigest(plan.resolution.value, plan.attempt)
    && !NeedsProvenance(plan.resolution.value) && !NeedsVersionIntent(plan.resolution.value)
  }

  ghost predicate NeedsProvenance(resolution: Resolution) {
    || resolution.provenanceRequired || resolution.candidates != []
    || exists item :: item in resolution.unresolved && item.reason == "root-provenance-required"
  }

  ghost predicate NeedsVersionIntent(resolution: Resolution) {
    exists issue :: issue in resolution.versionIssues && issue.owner != Some(issue.identity)
  }

  /** What is objected to first. */
  lemma BoundExactlyWhen(plan: Plan, request: Request)
    ensures CheckBinding(plan, request).None? <==> Bound(plan, request)
    ensures CheckBinding(plan, request).Some? ==>
              CheckBinding(plan, request).value ==
              if plan.state != "resolution-required" || plan.resolution.None? then NotAwaiting
              else if plan.ownedKeys != {plan.sourceKey, "pack:" + plan.target.id} then LocksNotOwned
              else if request.planIdentity != plan.identity then OtherPlan
              else if request.snapshotDigest != plan.snapshotDigest then StaleSource
              else if request.resolutionDigest != ResolutionDigest(plan.resolution.value, plan.attempt)
              then StaleResolution
              else if NeedsProvenance(plan.resolution.value) then ProvenanceNeeded else VersionIntentNeeded
  {
    if plan.resolution.Some? {
      var items := plan.resolution.value.unresolved;
      assert forall i :: 0 <= i < |items| ==> items[i] in items;
    }
  }

  /** What is objected to in an unresolved root, and in what a choice wants to do. */
  lemma ObjectionsAre(item: Unresolved, choice: Choice, unresolved: map<string, Unresolved>)
    ensures UnresolvedKey(item).Err? ==>
              UnresolvedKey(item).error == if item.source.Candidate? then NoExplicitProvenance else MalformedIdentity
    ensures CheckAction(choice, unresolved) == Some(UnknownRoot(choice.identity)) <==> choice.identity !in unresolved
    ensures choice.identity in unresolved ==>
              && (CheckAction(choice, unresolved) == Some(RemoveWithReplacement) <==>
                    choice.action == "remove" && (choice.provider.Some? || choice.projectId.Some?))
              && (CheckAction(choice, unresolved) == Some(UnsupportedAction(choice.action)) <==>
                    choice.action != "remove" && choice.action != "replace")
              && (CheckAction(choice, unresolved) == Some(ReplacementNotSupported(choice.identity)) <==>
                    choice.action == "replace" && !unresolved[choice.identity].supported)
  {
  }

  /** With choices that are all allowed: what is objected to in the request as a whole. */
  lemma WholeRequestIs(plan: Plan, request: Request, unresolved: map<string, Unresolved>, choices: map<string, Choice>)
    requires Bound(plan, request) && CollectUnresolved(plan.resolution.value.unresolved, map[]) == Ok(unresolved)
    requires CollectChoices(request.choices, unresolved, map[]) == Ok(choices)
    ensures Validate(plan, request) == Err(NotOneChoiceEach) <==>
            exists k :: k in unresolved && k !in choices
    ensures Validate(plan, request) == Err(AmbiguousRoots) <==>
              choices.Keys == unresolved.Keys && !Distinct(Ids(plan.resolution.value.roots))
  {
    BoundExactlyWhen(plan, request);
    RootsIndexed(plan.resolution.value.roots, map[]);
    CollectedAreChecked(request.choices, unresolved, map[]);
    assert choices.Keys <= unresolved.Keys;
    if choices.Keys == unresolved.Keys {
      CollectedAreAdmissible(plan.resolution.value.unresolved, request.choices, SortedKeys(unresolved.Keys));
      ValidateParts(plan, request, unresolved, choices);
      CollisionsOnly(SortedKeys(unresolved.Keys), unresolved, choices,
          Substitution(RootsByIdentity(plan.resolution.value.roots, map[]), [], []));
    }
  }

  /** The substitution itself objects to nothing but a replacement by a root that is there. */
  lemma {:induction false} CollisionsOnly(
    ids: seq<string>, unresolved: map<string, Unresolved>, choices: map<string, Choice>, s: Substitution)
    requires AllAdmissible(ids, unresolved, choices)
    ensures SubstituteAll(ids, unresolved, choices, s).Err? ==>
            SubstituteAll(ids, unresolved, choices, s).error.Collision?
  {
    if ids != [] {
      RestAdmissible(ids, unresolved, choices);
      if choices[ids[0]].action != "remove" { AdmissibleReplacement(ids[0], unresolved, choices); }
      var next := SubstituteOne(ids[0], unresolved[ids[0]], choices[ids[0]], s);
      if next.Ok? { CollisionsOnly(ids[1..], unresolved, choices, next.value); }
    }
  }

  /** A request is accepted exactly when it is bound to the plan, settles every root, and every replacement fits. */
  lemma AcceptedExactlyWhen(plan: Plan, request: Request)
    ensures Validate(plan, request).Ok? <==>
              && Bound(plan, request) && Settled(plan.resolution.value, request)
              && Distinct(Ids(plan.resolution.value.roots))
              && Fits(Order(plan.resolution.value), Chosen(request), Members(Ids(plan.resolution.value.roots)))
  {
    BoundExactlyWhen(plan, request);
    ValidateSettled(plan, request);
    if CheckBinding(plan, request).None? && Settled(plan.resolution.value, request) {
      var resolution := plan.resolution.value;
      SettledParts(plan, request);
      RootsIndexed(resolution.roots, map[]);
      SubstitutionKeys(Order(resolution), Unresolveds(resolution), Chosen(request),
                       Substitution(RootsByIdentity(resolution.roots, map[]), [], []));
    }
  }

  // ----- The effective roots -----

  /** `x` is kept from the current roots, or some replacement put it in and no later choice took it out. */
  ghost predicate Effective(plan: Plan, request: Request, x: string)
    requires plan.resolution.Some?
  {
    Has(Order(plan.resolution.value), Chosen(request), Members(Ids(plan.resolution.value.roots)),
        |Order(plan.resolution.value)|, x)
  }

  lemma SelectedIds(keys: seq<string>, roots: map<string, Root>)
    requires KeyedByIdentity(roots) && forall k :: k in keys ==> k in roots
    ensures Ids(Selection(keys, roots)) == keys
  {
  }

  /** The effective roots come strictly sorted, and are exactly what `Effective` says. */
  lemma EffectiveRootsAre(plan: Plan, request: Request)
    requires Validate(plan, request).Ok?
    ensures plan.resolution.Some?
    ensures var effective := Validate(plan, request).value.effective;
            StrictlySorted(Ids(effective)) && forall x :: x in Ids(effective) <==> Effective(plan, request, x)
    ensures |Validate(plan, request).value.removed| + |Validate(plan, request).value.replaced| ==
            |plan.resolution.value.unresolved|
  {
    ValidateSettled(plan, request);
    SettledParts(plan, request);
    var resolution := plan.resolution.value;
    var start := Substitution(RootsByIdentity(resolution.roots, map[]), [], []);
    RootsIndexed(resolution.roots, map[]);
    RootsAreKeyed(resolution.roots, map[]);
    var ids, unresolved, choices := Order(resolution), Unresolveds(resolution), Chosen(request);
    SubstitutionKeys(ids, unresolved, choices, start);
    SubstitutionIsKeyed(ids, unresolved, choices, start);
    SubstitutionRecords(ids, unresolved, choices, start);
    var s := Outcome(plan, request).value;
    SelectedIds(SortedKeys(s.roots.Keys), s.roots);
    OrderLength(resolution);
  }

  lemma StrictIsDistinct(keys: seq<string>)
    requires StrictlySorted(keys)
    ensures Distinct(keys)
  {
    forall i, j | 0 <= i < j < |keys| ensures keys[i] != keys[j] { LessIsAsymmetric(keys[i], keys[j]); }
  }

  lemma {:induction false} DistinctSize(xs: seq<string>)
    requires Distinct(xs)
    ensures |Members(xs)| == |xs|
  {
    if xs != [] {
      MembersOfTail(xs);
      DistinctSize(xs[1..]);
    } else {
      assert Members(xs) == {};
    }
  }

  lemma OrderLength(resolution: Resolution)
    requires Distinct(UnresolvedIds(resolution.unresolved))
    ensures |Order(resolution)| == |resolution.unresolved| && Distinct(Order(resolution))
    ensures Members(Order(resolution)) == Members(UnresolvedIds(resolution.unresolved))
  {
    StrictIsDistinct(Order(resolution));
    DistinctSize(Order(resolution));
    DistinctSize(UnresolvedIds(resolution.unresolved));
    assert Members(Order(resolution)) == Members(UnresolvedIds(resolution.unresolved));
  }

  /** What every proof about an accepted request starts from. */
  lemma AcceptedParts(plan: Plan, request: Request)
    requires Validate(plan, request).Ok?
    ensures plan.resolution.Some? && Settled(plan.resolution.value, request)
    ensures var resolution := plan.resolution.value;
            && CollectUnresolved(resolution.unresolved, map[]).Ok?
            && AllAdmissible(Order(resolution), Unresolveds(resolution), Chosen(request))
            && Distinct(Order(resolution)) &&
                Members(Order(resolution)) == Members(UnresolvedIds(resolution.unresolved))
            && Distinct(Ids(resolution.roots))
            && Fits(Order(resolution), Chosen(request), Members(Ids(resolution.roots)))
            && Validate(plan, request).value.replaced ==
                ReplacedFor(Order(resolution), Unresolveds(resolution), Chosen(request))
            && Validate(plan, request).value.removed ==
                RemovedFor(Order(resolution), Unresolveds(resolution), Chosen(request))
  {
    ValidateSettled(plan, request);
    AcceptedExactlyWhen(plan, request);
    SettledParts(plan, request);
    var resolution := plan.resolution.value;
    OrderLength(resolution);
    SubstitutionRecords(Order(resolution), Unresolveds(resolution), Chosen(request),
                        Substitution(RootsByIdentity(resolution.roots, map[]), [], []));
  }

  /** Two roots with the same identity are the same, where identities are distinct. */
  lemma SameIdentitySameRoot(roots: seq<Root>, a: Root, b: Root)
    requires Distinct(Ids(roots)) && a in roots && b in roots && a.identity == b.identity
    ensures a == b
  {
    var i :| 0 <= i < |roots| && roots[i] == a;
    var j :| 0 <= j < |roots| && roots[j] == b;
    assert Ids(roots)[i] == Ids(roots)[j];
  }

  lemma RootIndexed(roots: seq<Root>, root: Root)
    requires Distinct(Ids(roots)) && root in roots
    ensures var all := RootsByIdentity(roots, map[]);
            root.identity in all && all[root.identity] == root
  {
    var i :| 0 <= i < |roots| && roots[i] == root;
    assert Ids(roots)[i] == root.identity;
    RootsFound(roots, map[], root.identity);
    RootsAreKeyed(roots, map[]);
    SameIdentitySameRoot(roots, RootsByIdentity(roots, map[])[root.identity], root);
  }

  ghost function Start(
    resolution: Resolution): Substitution { Substitution(RootsByIdentity(resolution.roots, map[]), [], []) }

  /** An accepted request, as the substitution it comes from. */
  lemma AcceptedOutcome(plan: Plan, request: Request) returns (s: Substitution)
    requires Validate(plan, request).Ok?
    ensures plan.resolution.Some? && CollectUnresolved(plan.resolution.value.unresolved, map[]).Ok?
    ensures AllAdmissible(Order(plan.resolution.value), Unresolveds(plan.resolution.value), Chosen(request))
    ensures SubstituteAll(Order(plan.resolution.value), Unresolveds(plan.resolution.value), Chosen(request),
            Start(plan.resolution.value)) == Ok(s)
    ensures Validate(plan, request).value.effective == Selection(SortedKeys(s.roots.Keys), s.roots)
  {
    ValidateSettled(plan, request);
    SettledParts(plan, request);
    s := Outcome(plan, request).value;
  }

  /** Every root that no choice is about is among the effective roots as it was. */
  lemma OtherRootsAreUnchanged(plan: Plan, request: Request, root: Root)
    requires Validate(plan, request).Ok?
    requires root in plan.resolution.value.roots && root.identity !in UnresolvedIds(plan.resolution.value.unresolved)
    ensures root in Validate(plan, request).value.effective
  {
    AcceptedParts(plan, request);
    var s := AcceptedOutcome(plan, request);
    var resolution := plan.resolution.value;
    RootIndexed(resolution.roots, root);
    assert root.identity !in Members(Order(resolution));
    OtherRootsStay(Order(resolution), Unresolveds(resolution), Chosen(request), Start(resolution), root.identity);
    IsSelected(s.roots, root.identity);
  }

  lemma IsSelected(roots: map<string, Root>, x: string)
    requires x in roots
    ensures roots[x] in Selection(SortedKeys(roots.Keys), roots)
  {
    var keys := SortedKeys(roots.Keys);
    var k :| 0 <= k < |keys| && keys[k] == x;
    assert Selection(keys, roots)[k] == roots[x];
  }

  lemma EffectiveIsLastReplacement(
      ids: seq<string>, unresolved: map<string, Unresolved>, choices: map<string, Choice>, s: Substitution,
          end: Substitution, i: int)
      returns (j: int)
    requires AllAdmissible(ids, unresolved, choices) && SubstituteAll(ids, unresolved, choices, s) == Ok(end)
    requires Replaces(ids, choices, i) && NewAt(ids, choices, i) in end.roots
    ensures Replaces(ids, choices, j) && !Drops(ids, choices, j)
    ensures end.roots[NewAt(ids, choices, i)] == RecordAt(ids, unresolved, choices, j).replacement
  {
    var x := NewAt(ids, choices, i);
    SubstitutionKeys(ids, unresolved, choices, s);
    assert !Has(ids, choices, s.roots.Keys, i, x);
    assert Has(ids, choices, s.roots.Keys, |ids|, x);
    j :| Puts(ids, choices, j, |ids|, x);
    ReplacementStays(ids, unresolved, choices, s, j);
  }

  /**
   A recorded replacement is effective exactly if it, or another replacement by the very same root, is not taken out
   by a later choice.
   */
  lemma ReplacementIsKeptIff(plan: Plan, request: Request, i: int)
    requires Validate(plan, request).Ok?
    requires Replaces(Order(plan.resolution.value), Chosen(request), i)
    ensures AllAdmissible(Order(plan.resolution.value), Unresolveds(plan.resolution.value), Chosen(request))
    ensures
      var ids, unresolved, choices := Order(plan.resolution.value), Unresolveds(plan.resolution.value), Chosen(request);
      var replacement := RecordAt(ids, unresolved, choices, i).replacement;
      replacement in Validate(plan, request).value.effective <==>
      exists j :: Replaces(ids, choices, j) && !Drops(ids, choices, j) &&
          RecordAt(ids, unresolved, choices, j).replacement == replacement
  {
    AcceptedParts(plan, request);
    var s := AcceptedOutcome(plan, request);
    var resolution := plan.resolution.value;
    var ids, unresolved, choices := Order(resolution), Unresolveds(resolution), Chosen(request);
    var replacement := RecordAt(ids, unresolved, choices, i).replacement;
    OutcomeIsKeyed(resolution, request, s);
    if replacement in Validate(plan, request).value.effective {
      SelectedIsRoot(s.roots, replacement);
      var j := EffectiveIsLastReplacement(ids, unresolved, choices, Start(resolution), s, i);
    }
    if j :|
      && Replaces(ids, choices, j) && !Drops(ids, choices, j)
      && RecordAt(ids, unresolved, choices, j).replacement == replacement
    {
      ReplacementStays(ids, unresolved, choices, Start(resolution), j);
      IsSelected(s.roots, NewAt(ids, choices, j));
    }
  }

  lemma OutcomeIsKeyed(resolution: Resolution, request: Request, s: Substitution)
    requires CollectUnresolved(resolution.unresolved, map[]).Ok?
    requires AllAdmissible(Order(resolution), Unresolveds(resolution), Chosen(request))
    requires SubstituteAll(Order(resolution), Unresolveds(resolution), Chosen(request), Start(resolution)) == Ok(s)
    ensures KeyedByIdentity(s.roots)
  {
    RootsAreKeyed(resolution.roots, map[]);
    SubstitutionIsKeyed(Order(resolution), Unresolveds(resolution), Chosen(request), Start(resolution));
  }

  lemma SelectedIsRoot(roots: map<string, Root>, root: Root)
    requires KeyedByIdentity(roots) && root in Selection(SortedKeys(roots.Keys), roots)
    ensures root.identity in roots && roots[root.identity] == root
  {
    var keys := SortedKeys(roots.Keys);
    var selected := Selection(keys, roots);
    var k :| 0 <= k < |selected| && selected[k] == root;
    assert selected[k] == roots[keys[k]];
  }

  ghost predicate AllCurrent(resolution: Resolution) {
    Members(UnresolvedIds(resolution.unresolved)) <= Members(Ids(resolution.roots))
  }

  ghost function NewIdentities(replaced: seq<Replaced>): set<string> { set r | r in replaced :: r.newIdentity }

  lemma {:induction false} NewIdentityOf(
    ids: seq<string>, unresolved: map<string, Unresolved>, choices: map<string, Choice>, x: string)
    requires AllAdmissible(ids, unresolved, choices)
    ensures x in NewIdentities(ReplacedFor(ids, unresolved, choices)) <==>
              exists i :: Replaces(ids, choices, i) && NewAt(ids, choices, i) == x
  {
    var replaced := ReplacedFor(ids, unresolved, choices);
    if x in NewIdentities(replaced) {
      var r :| r in replaced && r.newIdentity == x;
      var i := ListedIsRecord(ids, unresolved, choices, r);
      assert NewAt(ids, choices, i) == x;
    }
    if i :| Replaces(ids, choices, i) && NewAt(ids, choices, i) == x {
      RecordIsListed(ids, unresolved, choices, i);
      assert RecordAt(ids, unresolved, choices, i).newIdentity == x;
    }
  }

  /**
   When every unresolved identity is among the current roots, a settled request is accepted exactly when its
   replacements differ from each other and each is new or takes the place of a root already taken out.
   */
  lemma CurrentAcceptedExactlyWhen(plan: Plan, request: Request)
    requires plan.resolution.Some? && AllCurrent(plan.resolution.value)
    ensures Validate(plan, request).Ok? <==>
              && Bound(plan, request) && Settled(plan.resolution.value, request)
              && Distinct(Ids(plan.resolution.value.roots))
              && Clean(Order(plan.resolution.value), Chosen(request), Members(Ids(plan.resolution.value.roots)))
  {
    var resolution := plan.resolution.value;
    AcceptedExactlyWhen(plan, request);
    if Settled(resolution, request) {
      OrderLength(resolution);
      assert forall i :: 0 <= i < |Order(resolution)| ==> Order(resolution)[i] in Members(Order(resolution));
      FitsIffClean(Order(resolution), Chosen(request), Members(Ids(resolution.roots)));
    }
  }

  /** ... and then no choice takes a replacement out. */
  lemma CurrentDropsNothing(plan: Plan, request: Request)
    requires Validate(plan, request).Ok? && AllCurrent(plan.resolution.value)
    ensures forall i :: !Drops(Order(plan.resolution.value), Chosen(request), i)
  {
    AcceptedParts(plan, request);
    var ids, choices, roots := Order(plan.resolution.value), Chosen(request), Members(Ids(plan.resolution.value.roots));
    forall i ensures !Drops(ids, choices, i) {
      if Drops(ids, choices, i) { DroppedIsNotCurrent(ids, choices, roots, i); }
    }
  }

  lemma {:induction false} KeptAndReplaced(
      ids: seq<string>, unresolved: map<string, Unresolved>, choices: map<string, Choice>, roots: set<string>,
          effective: seq<string>)
    requires AllAdmissible(ids, unresolved, choices) && forall i :: !Drops(ids, choices, i)
    requires forall x :: x in effective <==> Has(ids, choices, roots, |ids|, x)
    ensures Members(effective) == roots - Members(ids) + NewIdentities(ReplacedFor(ids, unresolved, choices))
  {
    var added := NewIdentities(ReplacedFor(ids, unresolved, choices));
    forall x ensures x in effective <==> (x in roots && x !in Members(ids)) || x in added {
      NewIdentityOf(ids, unresolved, choices, x);
      EffectiveWhenNothingDropped(ids, choices, roots, x);
    }
  }

  lemma CurrentIdentities(plan: Plan, request: Request)
    requires Validate(plan, request).Ok? && AllCurrent(plan.resolution.value)
    ensures var resolution, v := plan.resolution.value, Validate(plan, request).value;
            Members(Ids(v.effective)) ==
            Members(Ids(resolution.roots)) - Members(UnresolvedIds(resolution.unresolved)) + NewIdentities(v.replaced)
  {
    CurrentDropsNothing(plan, request);
    AcceptedParts(plan, request);
    EffectiveRootsAre(plan, request);
    var resolution, effective := plan.resolution.value, Validate(plan, request).value.effective;
    forall x ensures x in Ids(effective) <==>
        Has(Order(resolution), Chosen(request), Members(Ids(resolution.roots)), |Order(resolution)|, x) {
      assert Effective(plan, request, x) <==> x in Ids(effective);
    }
    KeptAndReplaced(Order(resolution), Unresolveds(resolution), Chosen(request), Members(Ids(resolution.roots)),
        Ids(effective));
  }

  lemma CurrentSize(plan: Plan, request: Request)
    requires Validate(plan, request).Ok? && AllCurrent(plan.resolution.value)
    ensures |Validate(plan, request).value.effective| ==
            |plan.resolution.value.roots| - |Validate(plan, request).value.removed|
  {
    AcceptedParts(plan, request);
    var s := AcceptedOutcome(plan, request);
    var resolution := plan.resolution.value;
    var ids := Order(resolution);
    RootsIndexed(resolution.roots, map[]);
    assert forall i :: 0 <= i < |ids| ==> ids[i] in Members(ids);
    SubstitutionSize(ids, Unresolveds(resolution), Chosen(request), Start(resolution));
    SelectionSize(s.roots);
  }

  lemma CurrentReplacementsStay(plan: Plan, request: Request, r: Replaced)
    requires Validate(plan, request).Ok? && AllCurrent(plan.resolution.value)
    requires r in Validate(plan, request).value.replaced
    ensures r.replacement in Validate(plan, request).value.effective
  {
    AcceptedParts(plan, request);
    CurrentDropsNothing(plan, request);
    var s := AcceptedOutcome(plan, request);
    var resolution := plan.resolution.value;
    var ids, unresolved, choices := Order(resolution), Unresolveds(resolution), Chosen(request);
    var i := ListedIsRecord(ids, unresolved, choices, r);
    assert !Drops(ids, choices, i);
    ReplacementStays(ids, unresolved, choices, Start(resolution), i);
    IsSelected(s.roots, NewAt(ids, choices, i));
  }

  /** The effective roots are then the current ones without the unresolved ones, and all the replacements. */
  lemma CurrentRootsAreReplaced(plan: Plan, request: Request)
    requires Validate(plan, request).Ok? && AllCurrent(plan.resolution.value)
    ensures var resolution, v := plan.resolution.value, Validate(plan, request).value;
            && StrictlySorted(Ids(v.effective))
            && Members(Ids(v.effective)) ==
               Members(Ids(resolution.roots)) - Members(UnresolvedIds(resolution.unresolved)) +
                   NewIdentities(v.replaced)
            && |v.effective| == |resolution.roots| - |v.removed|
            && forall r :: r in v.replaced ==> r.replacement in v.effective
  {
    EffectiveRootsAre(plan, request);
    CurrentIdentities(plan, request);
    CurrentSize(plan, request);
    forall r | r in Validate(plan, request).value.replaced
        ensures r.replacement in Validate(plan, request).value.effective {
      CurrentReplacementsStay(plan, request, r);
    }
  }

  lemma SelectionSize(roots: map<string, Root>)
    ensures |Selection(SortedKeys(roots.Keys), roots)| == |roots|
  {
    var keys := SortedKeys(roots.Keys);
    StrictIsDistinct(keys);
    DistinctSize(keys);
    assert Members(keys) == roots.Keys;
  }

  lemma DroppedIsNotCurrent(ids: seq<string>, choices: map<string, Choice>, roots: set<string>, i: int)
    requires Distinct(ids) && Fits(ids, choices, roots) && Drops(ids, choices, i)
    ensures !(Members(ids) <= roots)
  {
    NothingDropped(ids, choices, roots, i);
    assert NewAt(ids, choices, i) in Members(ids);
  }

  lemma EffectiveWhenNothingDropped(ids: seq<string>, choices: map<string, Choice>, roots: set<string>, x: string)
    requires forall i :: !Drops(ids, choices, i)
    ensures Has(ids, choices, roots, |ids|, x) <==>
              (x in roots && x !in Members(ids)) || exists i :: Replaces(ids, choices, i) && NewAt(ids, choices, i) == x
  {
    assert x in Members(ids) <==> !Untouched(ids, 0, |ids|, x);
    if i :| Replaces(ids, choices, i) && NewAt(ids, choices, i) == x {
      assert !Drops(ids, choices, i);
      assert Puts(ids, choices, i, |ids|, x);
    }
  }

  // ----- What is recorded of an accepted request -----

  /** The choice for an unresolved root, by its place in the request. */
  ghost predicate IsFor(choice: Choice, item: Unresolved, request: Request, resolution: Resolution) {
    choice in request.choices && item in resolution.unresolved && choice.identity == IdentityOf(item)
  }

  lemma {:induction false} RemovedMembers(
    ids: seq<string>, unresolved: map<string, Unresolved>, choices: map<string, Choice>, r: Removed)
    requires AllAdmissible(ids, unresolved, choices)
    ensures r in RemovedFor(ids, unresolved, choices) <==>
            exists i :: 0 <= i < |ids| && RemovesAs(ids[i], unresolved, choices, r)
  {
    if ids != [] {
      RestAdmissible(ids, unresolved, choices);
      RemovedMembers(ids[1..], unresolved, choices, r);
      assert forall i :: 0 < i < |ids| ==> ids[i] == ids[1..][i - 1];
      if i :| 0 <= i < |ids[1..]| && RemovesAs(ids[1..][i], unresolved, choices, r) {
        assert RemovesAs(ids[i + 1], unresolved, choices, r);
      }
    }
  }

  ghost predicate RemovesAs(x: string, unresolved: map<string, Unresolved>, choices: map<string, Choice>, r: Removed) {
    && Admissible(x, unresolved, choices) && choices[x].action == "remove"
    && r.source == unresolved[x].source.root && r.reason == unresolved[x].reason
  }

  /** What is known of an identity in order: its unresolved root and its choice. */
  lemma OrderedIdentity(plan: Plan, request: Request, i: nat) returns (item: Unresolved, choice: Choice)
    requires Validate(plan, request).Ok? && i < |Order(plan.resolution.value)|
    ensures AllAdmissible(Order(plan.resolution.value), Unresolveds(plan.resolution.value), Chosen(request))
    ensures
      var x := Order(plan.resolution.value)[i];
      && IsFor(choice, item, request, plan.resolution.value) && choice.identity == x
      && x in Unresolveds(plan.resolution.value) && Unresolveds(plan.resolution.value)[x] == item
      && x in Chosen(request) && Chosen(request)[x] == choice
  {
    AcceptedParts(plan, request);
    var resolution := plan.resolution.value;
    var x, ids := Order(resolution)[i], UnresolvedIds(resolution.unresolved);
    assert x in Members(Order(resolution)) && x in ids;
    var j :| 0 <= j < |ids| && ids[j] == x;
    item := resolution.unresolved[j];
    UnresolvedFound(resolution.unresolved, map[], j);
    assert Admissible(x, Unresolveds(resolution), Chosen(request));
    choice := Chosen(request)[x];
    ChoiceFound(request.choices, map[], x);
  }

  lemma {:induction false} ChoiceFound(items: seq<Choice>, soFar: map<string, Choice>, x: string)
    requires x in ChoicesByIdentity(items, soFar)
    requires forall k :: k in soFar ==> soFar[k].identity == k
    ensures
      var found := ChoicesByIdentity(items, soFar)[x];
      found.identity == x && (found in items || (x in soFar && found == soFar[x]))
  {
    if items != [] {
      ChoiceFound(items[1..], soFar[items[0].identity := items[0]], x);
      assert forall c :: c in items[1..] ==> c in items;
    }
  }

  lemma PlaceOf(plan: Plan, request: Request, choice: Choice, item: Unresolved) returns (i: nat)
    requires Validate(plan, request).Ok? && IsFor(choice, item, request, plan.resolution.value)
    ensures AllAdmissible(Order(plan.resolution.value), Unresolveds(plan.resolution.value), Chosen(request))
    ensures
      var ids, x := Order(plan.resolution.value), choice.identity;
      && i < |ids| && ids[i] == x
      && x in Unresolveds(plan.resolution.value) && Unresolveds(plan.resolution.value)[x] == item
      && x in Chosen(request) && Chosen(request)[x] == choice
  {
    AcceptedParts(plan, request);
    var resolution, x := plan.resolution.value, choice.identity;
    var j :| 0 <= j < |resolution.unresolved| && resolution.unresolved[j] == item;
    assert UnresolvedIds(resolution.unresolved)[j] == x;
    UnresolvedFound(resolution.unresolved, map[], j);
    assert x in Members(UnresolvedIds(resolution.unresolved)) && x in Order(resolution);
    i :| 0 <= i < |Order(resolution)| && Order(resolution)[i] == x;
    assert Admissible(x, Unresolveds(resolution), Chosen(request));
    ChoiceFound(request.choices, map[], x);
    SoleChoice(request.choices, choice, Chosen(request)[x]);
  }

  lemma SoleChoice(choices: seq<Choice>, a: Choice, b: Choice)
    requires Distinct(ChoiceIds(choices)) && a in choices && b in choices && a.identity == b.identity
    ensures a == b
  {
    var i :| 0 <= i < |choices| && choices[i] == a;
    var j :| 0 <= j < |choices| && choices[j] == b;
    assert ChoiceIds(choices)[i] == ChoiceIds(choices)[j];
  }

  /** The removed roots are exactly those that a choice removes, each with the reason why it was unresolved. */
  lemma RemovedExactlyWhen(plan: Plan, request: Request, r: Removed)
    requires Validate(plan, request).Ok?
    ensures r in Validate(plan, request).value.removed <==>
            exists choice, item :: IsFor(choice, item, request, plan.resolution.value) && choice.action == "remove"
                                   && item.source == Selected(r.source) && r.reason == item.reason
  {
    AcceptedParts(plan, request);
    var resolution := plan.resolution.value;
    var ids, unresolved, choices := Order(resolution), Unresolveds(resolution), Chosen(request);
    RemovedMembers(ids, unresolved, choices, r);
    if i :| 0 <= i < |ids| && RemovesAs(ids[i], unresolved, choices, r) {
      var item, choice := OrderedIdentity(plan, request, i);
    }
    if choice, item :|
      && IsFor(choice, item, request, resolution) && choice.action == "remove"
      && item.source == Selected(r.source) && r.reason == item.reason
    {
      var i := PlaceOf(plan, request, choice, item);
      assert Admissible(ids[i], unresolved, choices);
      assert RemovesAs(ids[i], unresolved, choices, r);
    }
  }

  /**
   A record of a replacement: the root that was unresolved, and a new explicit root that has the provider and project of
   the choice, the side, path and filename of the old root, and nothing else.
   */
  ghost predicate RecordsReplacement(r: Replaced, choice: Choice, item: Unresolved) {
    && choice.action == "replace" && choice.provider.Some? && choice.projectId.Some?
    && item.source == Selected(r.source)
    && r.oldIdentity == choice.identity && r.newIdentity == choice.provider.value + ":" + choice.projectId.value
    && r.replacement.identity == r.newIdentity && r.replacement.provider == choice.provider.value
    && r.replacement.projectId == choice.projectId.value
    && r.replacement.side == r.source.side && r.replacement.metadataPath == r.source.metadataPath
    && r.replacement.filename == r.source.filename && r.replacement.explicit
    && r.replacement.fileId.None? && r.replacement.version.None? && r.replacement.downloadUrl.None?
    && (r.providerChanged <==> r.source.provider != r.replacement.provider)
  }

  /** The replacements recorded are exactly those that the choices make. */
  lemma ReplacedExactlyWhen(plan: Plan, request: Request, r: Replaced)
    requires Validate(plan, request).Ok?
    ensures r in Validate(plan, request).value.replaced <==>
            exists choice, item :: IsFor(choice, item, request, plan.resolution.value)
                                   && RecordsReplacement(r, choice, item)
  {
    AcceptedParts(plan, request);
    var resolution := plan.resolution.value;
    var ids, unresolved, choices := Order(resolution), Unresolveds(resolution), Chosen(request);
    if r in Validate(plan, request).value.replaced {
      var i := ListedIsRecord(ids, unresolved, choices, r);
      var item, choice := OrderedIdentity(plan, request, i);
      AllowedAction(plan, request, choice, item);
      assert RecordsReplacement(r, choice, item);
    }
    if choice, item :| IsFor(choice, item, request, resolution) && RecordsReplacement(r, choice, item) {
      var i := PlaceOf(plan, request, choice, item);
      RecordIsListed(ids, unresolved, choices, i);
      assert RecordAt(ids, unresolved, choices, i) == r;
    }
  }

  lemma AllowedAction(plan: Plan, request: Request, choice: Choice, item: Unresolved)
    requires Validate(plan, request).Ok? && IsFor(choice, item, request, plan.resolution.value)
    ensures ActionAllowed(choice, item)
  {
    AcceptedParts(plan, request);
    var i :| 0 <= i < |request.choices| && request.choices[i] == choice;
    var j :| 0 <= j < |plan.resolution.value.unresolved| && plan.resolution.value.unresolved[j] == item;
  }

  // ----- A replacement that is lost -----

  function SampleRoot(id: string): Root {
    Root("modrinth:" + id, "modrinth", id, None, None, "both", "mods/" + id, id, true, None)
  }

  function SampleResolution(a: string, b: string): Resolution {
    Resolution(Target("t", "1.21", "fabric", "0.16"), [], [],
               [Unresolved(Selected(SampleRoot(a)), "no-version", true),
                   Unresolved(Selected(SampleRoot(b)), "no-version", true)],
               false, [])
  }

  function SamplePlan(a: string, b: string): Plan {
    Plan(1, "resolution-required", Some(SampleResolution(a, b)), {"s", "pack:" + "t"}, "s",
        SampleResolution(a, b).target, "digest", 1)
  }

  /** `a` becomes `b`, and `b` goes. */
  function SampleRequest(a: string, b: string): Request {
    Request(1, "digest", ResolutionDigest(SampleResolution(a, b), 1),
            [Choice("modrinth:" + a, "replace", Some("modrinth"), Some(b)),
                Choice("modrinth:" + b, "remove", None, None)])
  }

  lemma {:induction false} StripLength(text: string)
    ensures |Lstrip(text)| <= |text| && |Rstrip(text)| <= |text|
    decreases |text|
  {
    if text != [] {
      StripLength(text[1..]);
      StripLength(text[..|text| - 1]);
    }
  }

  lemma StrictTextIs(text: string)
    ensures StrictText(text) <==> text != "" && !IsSpace(text[0]) && !IsSpace(text[|text| - 1])
  {
    if text != [] {
      StripLength(text[1..]);
      StripLength(Lstrip(text));
      StripLength(text[..|text| - 1]);
    }
  }

  ghost predicate ProjectId(id: string) { StrictText(id) && !HasControl(id) }

  lemma SampleIdentity(id: string)
    requires ProjectId(id)
    ensures CanonicalIdentity("modrinth", id) == Ok("modrinth:" + id) && StrictText("modrinth:" + id)
  {
    CanonicalNames("modrinth");
    assert "modrinth" + ":" == "modrinth:";
    StrictTextIs(id);
    StrictTextIs("modrinth:" + id);
  }

  lemma {:induction false} LessByPrefix(prefix: string, a: string, b: string)
    requires Less(a, b)
    ensures Less(prefix + a, prefix + b)
  {
    if prefix == [] {
      assert prefix + a == a && prefix + b == b;
    } else {
      assert (prefix + a)[1..] == prefix[1..] + a && (prefix + b)[1..] == prefix[1..] + b;
      LessByPrefix(prefix[1..], a, b);
    }
  }

  lemma TwoSortedKeys(a: string, b: string)
    requires Less(a, b)
    ensures SortedKeys(Members([a, b])) == [a, b]
  {
    SortedKeysAreUnique(SortedKeys(Members([a, b])), [a, b], Members([a, b]));
  }

  lemma SampleOrder(a: string, b: string)
    requires Less(a, b)
    ensures UnresolvedIds(SampleResolution(a, b).unresolved) == ["modrinth:" + a, "modrinth:" + b]
    ensures Order(SampleResolution(a, b)) == ["modrinth:" + a, "modrinth:" + b]
    ensures "modrinth:" + a != "modrinth:" + b
  {
    var keys := ["modrinth:" + a, "modrinth:" + b];
    assert UnresolvedIds(SampleResolution(a, b).unresolved) == keys;
    LessByPrefix("modrinth:", a, b);
    LessIsAsymmetric("modrinth:" + a, "modrinth:" + b);
    TwoSortedKeys(keys[0], keys[1]);
  }

  lemma ChosenOfTwo(x: Choice, y: Choice)
    ensures ChoicesByIdentity([x, y], map[]) == map[x.identity := x][y.identity := y]
  {
    assert [x, y][1..] == [y] && [y][1..] == [];
    assert ChoicesByIdentity([y], map[x.identity := x]) == ChoicesByIdentity([], map[x.identity := x][y.identity := y]);
  }

  lemma TwoChoicesSettle(resolution: Resolution, request: Request, x: Unresolved, y: Unresolved, c: Choice, d: Choice)
    requires resolution.unresolved == [x, y] && request.choices == [c, d]
    requires Canonical(x) && Canonical(y)
    requires c.identity == IdentityOf(x) != IdentityOf(y) == d.identity
    requires StrictText(c.identity) && StrictText(d.identity)
    requires ActionAllowed(c, x) && ActionAllowed(d, y)
    ensures Settled(resolution, request)
  {
    assert UnresolvedIds([x, y]) == [c.identity, d.identity] == ChoiceIds([c, d]);
    TwoChoicesAllowed(x, y, c, d);
  }

  lemma TwoChoicesAllowed(x: Unresolved, y: Unresolved, c: Choice, d: Choice)
    requires Canonical(x) && Canonical(y)
    requires c.identity == IdentityOf(x) != IdentityOf(y) == d.identity
    requires StrictText(c.identity) && StrictText(d.identity)
    requires ActionAllowed(c, x) && ActionAllowed(d, y)
    ensures ChoicesSettle([c, d], [x, y])
  {
    assert UnresolvedIds([x, y]) == [c.identity, d.identity] == ChoiceIds([c, d]);
    forall i, j | 0 <= i < 2 && 0 <= j < 2 && [c, d][i].identity == IdentityOf([x, y][j])
      ensures ActionAllowed([c, d][i], [x, y][j])
    {
      assert i == j;
    }
  }

  lemma SampleSettled(a: string, b: string)
    requires ProjectId(a) && ProjectId(b) && Less(a, b)
    ensures Settled(SampleResolution(a, b), SampleRequest(a, b))
  {
    SampleIdentity(a);
    SampleIdentity(b);
    SampleOrder(a, b);
    var choices, items := SampleRequest(a, b).choices, SampleResolution(a, b).unresolved;
    SampleReplacement(a, b);
    TwoChoicesSettle(SampleResolution(a, b), SampleRequest(a, b), items[0], items[1], choices[0], choices[1]);
  }

  lemma SampleReplacement(a: string, b: string)
    requires ProjectId(b) && Less(a, b)
    ensures ReplacementAllowed("modrinth:" + a, "modrinth", b)
  {
    assert "modrinth" + ":" == "modrinth:";
    LessByPrefix("modrinth:", a, b);
    LessIsAsymmetric("modrinth:" + a, "modrinth:" + b);
  }

  lemma SampleFits(a: string, b: string)
    requires Less(a, b)
    ensures var ids, choices := Order(SampleResolution(a, b)), Chosen(SampleRequest(a, b));
            Fits(ids, choices, {}) && Replaces(ids, choices, 0) && forall x :: !Has(ids, choices, {}, 2, x)
  {
    SampleOrder(a, b);
    var chosen := SampleRequest(a, b).choices;
    ChosenOfTwo(chosen[0], chosen[1]);
    var ids, choices := Order(SampleResolution(a, b)), Chosen(SampleRequest(a, b));
    assert "modrinth" + ":" == "modrinth:";
    assert NewAt(ids, choices, 0) == ids[1];
    assert !Replaces(ids, choices, 1);
    TakesOutWhatItPut(ids, choices);
  }

  /** Two substitutions of which the second takes out what the first put in leave nothing. */
  lemma TakesOutWhatItPut(ids: seq<string>, choices: map<string, Choice>)
    requires |ids| == 2 && Replaces(ids, choices, 0) && !Replaces(ids, choices, 1) && NewAt(ids, choices, 0) == ids[1]
    ensures Fits(ids, choices, {}) && forall x :: !Has(ids, choices, {}, 2, x)
  {
  }

  lemma SampleBound(a: string, b: string)
    ensures CheckBinding(SamplePlan(a, b), SampleRequest(a, b)).None?
  {
  }

  /**
   When the unresolved identities are not among the current roots, the choice for one can take out the
   replacement for another: `a` is to become `b`, `b` is to go, and the accepted request leaves nothing.
   */
  lemma AReplacementCanBeLost(a: string, b: string)
    requires ProjectId(a) && ProjectId(b) && Less(a, b)
    ensures var v := Validate(SamplePlan(a, b), SampleRequest(a, b));
            v.Ok? && v.value.effective == [] && v.value.replaced != []
  {
    SampleSettled(a, b);
    SampleFits(a, b);
    SampleBound(a, b);
    SampleOrder(a, b);
    NothingIsLeft(SamplePlan(a, b), SampleRequest(a, b), SampleResolution(a, b));
  }

  lemma NothingIsLeft(plan: Plan, request: Request, resolution: Resolution)
    requires plan.resolution == Some(resolution) && resolution.roots == []
    requires CheckBinding(plan, request).None? && Settled(resolution, request)
    requires Fits(Order(resolution), Chosen(request), {}) && Replaces(Order(resolution), Chosen(request), 0)
    requires forall x :: !Has(Order(resolution), Chosen(request), {}, |Order(resolution)|, x)
    ensures var v := Validate(plan, request);
            v.Ok? && v.value.effective == [] && v.value.replaced != []
  {
    assert Members(Ids(resolution.roots)) == {} && Distinct(Ids(resolution.roots));
    AcceptedExactlyWhen(plan, request);
    EffectiveRootsAre(plan, request);
    forall x ensures x !in Ids(Validate(plan, request).value.effective) { assert !Effective(plan, request, x); }
    NoIdentities(Validate(plan, request).value.effective);
    SomeRecorded(plan, request);
  }

  lemma NoIdentities(effective: seq<Root>)
    requires forall x :: x !in Ids(effective)
    ensures effective == []
  {
    assert effective != [] ==> effective[0].identity in Ids(effective) by {
      if effective != [] { assert Ids(effective)[0] == effective[0].identity; }
    }
  }

  lemma SomeRecorded(plan: Plan, request: Request)
    requires Validate(plan, request).Ok? && Replaces(Order(plan.resolution.value), Chosen(request), 0)
    ensures Validate(plan, request).value.replaced != []
  {
    AcceptedParts(plan, request);
    var ids, unresolved, choices := Order(plan.resolution.value), Unresolveds(plan.resolution.value), Chosen(request);
    RecordIsListed(ids, unresolved, choices, 0);
  }

  // ----- What a request is bound to -----

  /** `create_pack_migration_resolution_request`. */
  ghost function CreateRequest(plan: Plan, choices: seq<Choice>): Result<Request, ResolutionError> {
    if plan.state != "resolution-required" || plan.resolution.None? then Err(NotAwaiting)
    else
      var request := Request(plan.identity, plan.snapshotDigest, ResolutionDigest(plan.resolution.value, plan.attempt),
          choices);
      var validated :- Validate(plan, request);
      Ok(request)
  }

  /**
   A created request is accepted by its plan.  Later it is still accepted only if the plan, its source
   and the set of unresolved roots are the same, and, if there are any, so are the target and the attempt.
   */
  lemma RequestBindsItsPlan(plan: Plan, choices: seq<Choice>, later: Plan)
    requires CreateRequest(plan, choices).Ok?
    ensures var request := CreateRequest(plan, choices).value;
            && Validate(plan, request).Ok?
            && (Validate(later, request).Ok? ==>
                  && later.resolution.Some?
                  && later.identity == plan.identity && later.snapshotDigest == plan.snapshotDigest
                  && multiset(Records(later.resolution.value.unresolved, later.resolution.value.target,
                      later.attempt)) ==
                     multiset(Records(plan.resolution.value.unresolved, plan.resolution.value.target, plan.attempt))
                  && (plan.resolution.value.unresolved != [] ==>
                        && later.attempt == plan.attempt
                        && SameTarget(later.resolution.value.target, plan.resolution.value.target))
                  && (forall u :: u in plan.resolution.value.unresolved ==>
                        exists v :: v in later.resolution.value.unresolved && SameUnresolved(u, v)))
  {
    if Validate(later, CreateRequest(plan, choices).value).Ok? {
      BoundTo(later, CreateRequest(plan, choices).value);
      SameRecords(plan.resolution.value, plan.attempt, later.resolution.value, later.attempt);
    }
  }

  lemma BoundTo(plan: Plan, request: Request)
    requires Validate(plan, request).Ok?
    ensures plan.resolution.Some? && plan.identity == request.planIdentity &&
            plan.snapshotDigest == request.snapshotDigest
    ensures request.resolutionDigest == ResolutionDigest(plan.resolution.value, plan.attempt)
  {
    BoundExactlyWhen(plan, request);
  }

  lemma SameRecords(a: Resolution, m: nat, b: Resolution, n: nat)
    requires ResolutionDigest(a, m) == ResolutionDigest(b, n)
    ensures multiset(Records(a.unresolved, a.target, m)) == multiset(Records(b.unresolved, b.target, n))
    ensures a.unresolved != [] ==> m == n && SameTarget(a.target, b.target)
    ensures forall u :: u in a.unresolved ==> exists v :: v in b.unresolved && SameUnresolved(u, v)
  {
    var x, y := Records(a.unresolved, a.target, m), Records(b.unresolved, b.target, n);
    assert multiset(x) == multiset(ResolutionDigest(a, m)) == multiset(y);
    forall i | 0 <= i < |x| ensures x[i] in y { assert x[i] in multiset(x); }
    forall u | u in a.unresolved ensures exists v :: v in b.unresolved && SameUnresolved(u, v) {
      var i :| 0 <= i < |a.unresolved| && a.unresolved[i] == u;
      var j :| 0 <= j < |y| && y[j] == x[i];
      assert SameUnresolved(u, b.unresolved[j]);
    }
    if a.unresolved != [] { assert x[0] in y; }
  }

  ghost predicate SameTarget(a: Target, b: Target) {
    a.minecraft == b.minecraft && a.loader == b.loader && a.loaderVersion == b.loaderVersion
  }

  /** The identity, or the path of the metadata if there is none, the reason and what may be done are the same. */
  ghost predicate SameUnresolved(a: Unresolved, b: Unresolved) {
    UnresolvedIdentity(a) == UnresolvedIdentity(b) && a.reason == b.reason && a.supported == b.supported
  }

  lemma UnresolvedIdentityIs(item: Unresolved)
    ensures item.source.Selected? && item.source.root.identity != "" ==>
              UnresolvedIdentity(item) == item.source.root.identity
    ensures item.source.Candidate? && item.source.identity.Some? && item.source.identity.value != "" ==>
              UnresolvedIdentity(item) == item.source.identity.value
    ensures item.source.Selected? && item.source.root.identity == "" ==>
              UnresolvedIdentity(item) == "candidate:" + item.source.root.metadataPath
    ensures item.source.Candidate? && item.source.identity in {None, Some("")} ==>
              UnresolvedIdentity(item) == "candidate:" + item.source.metadataPath
  {
  }

  /**
   Without unresolved roots, a request binds neither the target nor the attempt: it is accepted after both have
   changed.
   */
  lemma EmptyRequestBindsLess(plan: Plan, target: Target, attempt: nat)
    requires CreateRequest(plan, []).Ok? && plan.resolution.value.unresolved == []
    ensures Validate(plan.(attempt := attempt, resolution := Some(plan.resolution.value.(target := target))),
            CreateRequest(plan, []).value).Ok?
  {
    var request := CreateRequest(plan, []).value;
    var later := plan.(attempt := attempt, resolution := Some(plan.resolution.value.(target := target)));
    NoRecords(plan.resolution.value, plan.attempt);
    NoRecords(later.resolution.value, attempt);
    AcceptedExactlyWhen(plan, request);
    AcceptedExactlyWhen(later, request);
  }

  lemma NoRecords(resolution: Resolution, attempt: nat)
    requires resolution.unresolved == []
    ensures ResolutionDigest(resolution, attempt) == []
  {
  }
}
