/**
 Resolving the conflicts of a Pack migration (`pack_migration_conflicts.py`): a request chooses, for every
 root that has no target version, to remove it or to replace it, and the effective roots follow from that.
 */
module RootSubstitution {
  import opened Common
  import opened Text
  import opened Ordering
  import opened Providers

  datatype Root = Root(
    identity: string,
    provider: string,
    projectId: string,
    fileId: Option<string>,
    version: Option<string>,
    side: string,
    metadataPath: string,
    filename: string,
    explicit: bool,
    downloadUrl: Option<string>)

  /** A root whose provenance is known, or one that is still only a candidate. */
  datatype Source = Selected(root: Root) | Candidate(identity: Option<string>, metadataPath: string)

  datatype Unresolved = Unresolved(source: Source, reason: string, supported: bool)

  datatype Choice = Choice(identity: string, action: string, provider: Option<string>, projectId: Option<string>)

  datatype VersionIssue = VersionIssue(identity: string, owner: Option<string>)

  datatype Target = Target(id: string, minecraft: string, loader: string, loaderVersion: string)

  datatype Resolution = Resolution(
    target: Target,
    roots: seq<Root>,
    candidates: seq<Source>,
    unresolved: seq<Unresolved>,
    provenanceRequired: bool,
    versionIssues: seq<VersionIssue>)

  datatype Plan = Plan(
    identity: nat,
    state: string,
    resolution: Option<Resolution>,
    ownedKeys: set<string>,
    sourceKey: string,
    target: Target,
    snapshotDigest: string,
    attempt: nat)

  datatype Request = Request(planIdentity: nat, snapshotDigest: string, resolutionDigest: seq<Record>,
      choices: seq<Choice>)

  /** What the digest of an unresolved root covers; digests stand for what they digest. */
  datatype Record = Record(identity: string, reason: string, supported: bool, target: (string, string, string),
      attempt: nat)

  datatype Removed = Removed(source: Root, reason: string)

  datatype Replaced = Replaced(source: Root, replacement: Root, oldIdentity: string, newIdentity: string,
      providerChanged: bool)

  datatype Validated = Validated(effective: seq<Root>, removed: seq<Removed>, replaced: seq<Replaced>)

  datatype ResolutionError =
    | NotAwaiting | LocksNotOwned | OtherPlan | StaleSource | StaleResolution | ProvenanceNeeded | VersionIntentNeeded
    | NoExplicitProvenance | MalformedIdentity | DuplicateUnresolved(identity: string)
    | NotCanonicalText(field: string) | DuplicateChoice(identity: string) | UnknownRoot(identity: string)
    | RemoveWithReplacement | ReplacementNotSupported(identity: string) | MalformedReplacement(error: ProviderError)
    | UnsupportedReplacementProvider | ProjectIdNotCanonical | SameIdentity | UnsupportedAction(action: string)
    | NotOneChoiceEach | AmbiguousRoots | Collision(identity: string)

  // ----- The digest that binds a request to what it was made for -----

  /** `_unresolved_identity`. */
  function UnresolvedIdentity(item: Unresolved): string {
    match item.source
    case Selected(root) => if root.identity != "" then root.identity else "candidate:" + root.metadataPath
    case Candidate(identity, path) => if identity.Some? &&
        identity.value != "" then identity.value else "candidate:" + path
  }

  function RecordOf(item: Unresolved, target: Target, attempt: nat): Record {
    Record(UnresolvedIdentity(item), item.reason, item.supported,
        (target.minecraft, target.loader, target.loaderVersion), attempt)
  }

  function Records(items: seq<Unresolved>, target: Target, attempt: nat): seq<Record> {
    seq(|items|, i requires 0 <= i < |items| => RecordOf(items[i], target, attempt))
  }

  predicate RecordBefore(a: Record, b: Record) { Less(a.identity, b.identity) }

  /** `resolution_snapshot_digest`. */
  function ResolutionDigest(resolution: Resolution, attempt: nat): seq<Record> {
    SortBy(Records(resolution.unresolved, resolution.target, attempt), RecordBefore)
  }

  // ----- Validation -----

  /** The checks on the plan and on what the request was made for. */
  function CheckBinding(plan: Plan, request: Request): Option<ResolutionError> {
    if plan.state != "resolution-required" || plan.resolution.None? then Some(NotAwaiting)
    else
      var resolution := plan.resolution.value;
      if plan.ownedKeys != {plan.sourceKey, "pack:" + plan.target.id} then Some(LocksNotOwned)
      else if request.planIdentity != plan.identity then Some(OtherPlan)
      else if request.snapshotDigest != plan.snapshotDigest then Some(StaleSource)
      else if request.resolutionDigest != ResolutionDigest(resolution, plan.attempt) then Some(StaleResolution)
      else if
        || resolution.provenanceRequired || resolution.candidates != []
        || exists i :: 0 <= i < |resolution.unresolved| && resolution.unresolved[i].reason == "root-provenance-required"
      then Some(ProvenanceNeeded)
      else if exists issue :: issue in resolution.versionIssues && issue.owner != Some(issue.identity)
      then Some(VersionIntentNeeded)
      else None
  }

  /** `_canonical_source_identity`. */
  function SourceIdentity(root: Root): Result<string, ResolutionError> {
    var identity := CanonicalIdentity(root.provider, root.projectId);
    if identity != Ok(root.identity) then Err(MalformedIdentity) else Ok(root.identity)
  }

  function UnresolvedKey(item: Unresolved): Result<string, ResolutionError> {
    if item.source.Candidate? then Err(NoExplicitProvenance) else SourceIdentity(item.source.root)
  }

  function CollectUnresolved(
    items: seq<Unresolved>, soFar: map<string, Unresolved>): Result<map<string, Unresolved>, ResolutionError> {
    if items == [] then Ok(soFar)
    else
      var identity :- UnresolvedKey(items[0]);
      if identity in soFar then Err(DuplicateUnresolved(identity))
      else CollectUnresolved(items[1..], soFar[identity := items[0]])
  }

  /** `_strict_text`. */
  predicate StrictText(text: string) { text != "" && text == Strip(text) }

  /** The checks on a replacement for `identity`. */
  function CheckReplacement(identity: string, choice: Choice): Option<ResolutionError> {
    if choice.provider.None? || !StrictText(choice.provider.value) then Some(NotCanonicalText("Replacement provider"))
    else if choice.projectId.None? ||
        !StrictText(choice.projectId.value) then Some(NotCanonicalText("Replacement project ID"))
    else
      var name, projectId := choice.provider.value, choice.projectId.value;
      var provider := CanonicalProvider(name);
      if provider.Err? then Some(MalformedReplacement(provider.error))
      else
        var replacement := CanonicalIdentity(provider.value, projectId);
        if replacement.Err? then Some(MalformedReplacement(replacement.error))
        else if name != provider.value || name !in {"modrinth", "curseforge"} then Some(UnsupportedReplacementProvider)
        else if name == "curseforge" &&
            (!IsDecimal(projectId) || ToNat(projectId) <= 0 || Numeral(ToNat(projectId)) != projectId)
        then Some(ProjectIdNotCanonical)
        else if replacement.value == identity then Some(SameIdentity)
        else None
  }

  /** The checks on one choice, except that it is the only one for its root. */
  function CheckAction(choice: Choice, unresolved: map<string, Unresolved>): Option<ResolutionError> {
    if choice.identity !in unresolved then Some(UnknownRoot(choice.identity))
    else if choice.action == "remove" then
      if choice.provider.Some? || choice.projectId.Some? then Some(RemoveWithReplacement) else None
    else if choice.action == "replace" then
      if !unresolved[choice.identity].supported then Some(ReplacementNotSupported(choice.identity))
      else CheckReplacement(choice.identity, choice)
    else Some(UnsupportedAction(choice.action))
  }

  function CollectChoices(items: seq<Choice>, unresolved: map<string, Unresolved>, soFar: map<string, Choice>):
    Result<map<string, Choice>, ResolutionError>
  {
    if items == [] then Ok(soFar)
    else if !StrictText(items[0].identity) then Err(NotCanonicalText("Source identity"))
    else if items[0].identity in soFar then Err(DuplicateChoice(items[0].identity))
    else
      var error := CheckAction(items[0], unresolved);
      if error.Some? then Err(error.value)
      else CollectChoices(items[1..], unresolved, soFar[items[0].identity := items[0]])
  }

  // ----- Substitution -----

  /** `{root.canonical_identity: root for root in roots}`. */
  function RootsByIdentity(roots: seq<Root>, soFar: map<string, Root>): map<string, Root> {
    if roots == [] then soFar else RootsByIdentity(roots[1..], soFar[roots[0].identity := roots[0]])
  }

  datatype Substitution = Substitution(roots: map<string, Root>, removed: seq<Removed>, replaced: seq<Replaced>)

  /** What every choice that was accepted for `identity` is like. */
  ghost predicate Admissible(identity: string, unresolved: map<string, Unresolved>, choices: map<string, Choice>) {
    && identity in unresolved && unresolved[identity].source.Selected?
    && identity in choices
    && (choices[identity].action != "remove" ==> CheckReplacement(identity, choices[identity]).None?)
  }

  function ReplacementIdentity(choice: Choice): string
    requires choice.provider.Some? && choice.projectId.Some?
  {
    choice.provider.value + ":" + choice.projectId.value
  }

  function ReplacementRoot(source: Root, choice: Choice): Root
    requires choice.provider.Some? && choice.projectId.Some?
  {
    Root(ReplacementIdentity(choice), choice.provider.value, choice.projectId.value, None, None,
         source.side, source.metadataPath, source.filename, true, None)
  }

  function SubstituteOne(
    identity: string, item: Unresolved, choice: Choice, s: Substitution): Result<Substitution, ResolutionError>
    requires item.source.Selected?
    requires choice.action != "remove" ==> choice.provider.Some? && choice.projectId.Some?
  {
    var source := item.source.root;
    var kept := s.roots - {identity};
    if choice.action == "remove" then
      Ok(Substitution(kept, s.removed + [Removed(source, item.reason)], s.replaced))
    else
      var replacement := ReplacementRoot(source, choice);
      if replacement.identity in kept then Err(Collision(replacement.identity))
      else
        Ok(Substitution(
          kept[replacement.identity := replacement],
          s.removed,
          s.replaced + [Replaced(source, replacement, identity, replacement.identity,
              source.provider != replacement.provider)]))
  }

  ghost function SubstituteAll(
    ids: seq<string>, unresolved: map<string, Unresolved>, choices: map<string, Choice>, s: Substitution):
    Result<Substitution, ResolutionError>
    requires forall i :: 0 <= i < |ids| ==> Admissible(ids[i], unresolved, choices)
  {
    if ids == [] then Ok(s)
    else
      assert Admissible(ids[0], unresolved, choices);
      var next :- SubstituteOne(ids[0], unresolved[ids[0]], choices[ids[0]], s);
      SubstituteAll(ids[1..], unresolved, choices, next)
  }

  // ----- Sorted keys -----

  lemma LessCompares()
    ensures Comparison(Less)
  {
    forall a: string, b: string | Less(a, b) ensures !Less(b, a) { LessIsAsymmetric(a, b); }
    forall a: string, b: string, c: string | !Less(b, a) &&
        !Less(c, b) ensures !Less(c, a) { NotLessIsTransitive(a, b, c); }
  }

  ghost predicate IsSortedKeys(keys: seq<string>, of: set<string>) {
    StrictlySorted(keys) && (forall k :: k in keys <==> k in of)
  }

  lemma SortedKeysOfDistinct(keys: seq<string>, of: set<string>)
    requires Distinct(keys) && forall k :: k in keys <==> k in of
    ensures IsSortedKeys(SortBy(keys, Less), of)
  {
    LessCompares();
    SortSorts(keys, Less);
    SortKeepsDistinct(keys, Less);
    var sorted := SortBy(keys, Less);
    forall i, j | 0 <= i < j < |sorted| ensures Less(sorted[i], sorted[j]) { LessIsTotal(sorted[i], sorted[j]); }
    forall k ensures k in sorted <==> k in of { SortMembers(keys, Less, k); }
  }

  /** There is only one way to sort the keys. */
  lemma {:induction false} SortedKeysAreUnique(a: seq<string>, b: seq<string>, of: set<string>)
    requires IsSortedKeys(a, of) && IsSortedKeys(b, of)
    ensures a == b
  {
    assert b != [] ==> b[0] in b && b[0] in a;
    if a != [] {
      assert a[0] in of && a[0] in b;
      assert b[0] in of && b[0] in a;
      var i :| 0 <= i < |b| && b[i] == a[0];
      var j :| 0 <= j < |a| && a[j] == b[0];
      if i > 0 && j > 0 { LessIsAsymmetric(a[0], b[0]); }
      assert a[0] == b[0];
      SortedTail(a, of);
      SortedTail(b, of);
      SortedKeysAreUnique(a[1..], b[1..], of - {a[0]});
      assert a == [a[0]] + a[1..] && b == [b[0]] + b[1..];
    }
  }

  lemma SortedTail(keys: seq<string>, of: set<string>)
    requires IsSortedKeys(keys, of) && keys != []
    ensures IsSortedKeys(keys[1..], of - {keys[0]})
  {
    forall k ensures k in keys[1..] <==> k in of - {keys[0]} {
      if k in keys[1..] {
        var i :| 0 <= i < |keys[1..]| && keys[1..][i] == k;
        assert keys[i + 1] == k;
        LessIsAsymmetric(keys[0], k);
      }
      if k in of && k != keys[0] {
        var i :| 0 <= i < |keys| && keys[i] == k;
        assert keys[1..][i - 1] == k;
      }
    }
  }

  /** Some enumeration of a set. */
  ghost function Enumerated(of: set<string>): (r: seq<string>)
    ensures Distinct(r) && forall k :: k in r <==> k in of
  {
    if of == {} then []
    else
      var k :| k in of;
      [k] + Enumerated(of - {k})
  }

  /** `sorted(keys)`. */
  ghost function SortedKeys(of: set<string>): (r: seq<string>)
    ensures IsSortedKeys(r, of)
  {
    SortedKeysOfDistinct(Enumerated(of), of);
    SortBy(Enumerated(of), Less)
  }

  method SortKeys(of: set<string>) returns (r: seq<string>)
    ensures IsSortedKeys(r, of)
    ensures r == SortedKeys(of)
  {
    var keys, left := [], of;
    while left != {}
      invariant left <= of && Distinct(keys)
      invariant forall k :: k in keys <==> k in of && k !in left
      decreases |left|
    {
      var k :| k in left;
      keys, left := keys + [k], left - {k};
    }
    SortedKeysOfDistinct(keys, of);
    r := SortBy(keys, Less);
    SortedKeysAreUnique(r, SortedKeys(of), of);
  }

  // ----- The whole request -----

  lemma {:induction false} CollectedAreSelected(items: seq<Unresolved>, soFar: map<string, Unresolved>)
    requires forall k :: k in soFar ==> soFar[k].source.Selected?
    requires CollectUnresolved(items, soFar).Ok?
    ensures forall k :: k in CollectUnresolved(items, soFar).value ==>
            CollectUnresolved(items, soFar).value[k].source.Selected?
  {
    if items != [] {
      CollectedAreSelected(items[1..], soFar[UnresolvedKey(items[0]).value := items[0]]);
    }
  }

  lemma {:induction false} CollectedAreChecked(
    items: seq<Choice>, unresolved: map<string, Unresolved>, soFar: map<string, Choice>)
    requires forall k :: k in soFar ==> soFar[k].identity == k && CheckAction(soFar[k], unresolved).None?
    requires CollectChoices(items, unresolved, soFar).Ok?
    ensures var choices := CollectChoices(items, unresolved, soFar).value;
            forall k :: k in choices ==> choices[k].identity == k && CheckAction(choices[k], unresolved).None?
  {
    if items != [] {
      CollectedAreChecked(items[1..], unresolved, soFar[items[0].identity := items[0]]);
    }
  }

  lemma CollectedAreAdmissible(items: seq<Unresolved>, chosen: seq<Choice>, ids: seq<string>)
    requires CollectUnresolved(items, map[]).Ok?
    requires CollectChoices(chosen, CollectUnresolved(items, map[]).value, map[]).Ok?
    requires CollectChoices(chosen, CollectUnresolved(items, map[]).value, map[]).value.Keys ==
             CollectUnresolved(items, map[]).value.Keys
    requires IsSortedKeys(ids, CollectUnresolved(items, map[]).value.Keys)
    ensures var unresolved := CollectUnresolved(items, map[]).value;
            var choices := CollectChoices(chosen, unresolved, map[]).value;
            forall i :: 0 <= i < |ids| ==> Admissible(ids[i], unresolved, choices)
  {
    CollectedAreSelected(items, map[]);
    CollectedAreChecked(chosen, CollectUnresolved(items, map[]).value, map[]);
    assert forall i :: 0 <= i < |ids| ==> ids[i] in ids;
  }

  function Selection(keys: seq<string>, roots: map<string, Root>): seq<Root>
    requires forall k :: k in keys ==> k in roots
  {
    seq(|keys|, i requires 0 <= i < |keys| => roots[keys[i]])
  }

  /** `validate_resolution_request`. */
  ghost function Validate(plan: Plan, request: Request): Result<Validated, ResolutionError> {
    var error := CheckBinding(plan, request);
    if error.Some? then Err(error.value)
    else
      var resolution := plan.resolution.value;
      var unresolved :- CollectUnresolved(resolution.unresolved, map[]);
      var choices :- CollectChoices(request.choices, unresolved, map[]);
      if choices.Keys != unresolved.Keys then Err(NotOneChoiceEach)
      else
        var roots := RootsByIdentity(resolution.roots, map[]);
        if |roots| != |resolution.roots| then Err(AmbiguousRoots)
        else
          var ids := SortedKeys(unresolved.Keys);
          CollectedAreAdmissible(resolution.unresolved, request.choices, ids);
          var s :- SubstituteAll(ids, unresolved, choices, Substitution(roots, [], []));
          Ok(Validated(Selection(SortedKeys(s.roots.Keys), s.roots), s.removed, s.replaced))
  }

  method GatherUnresolved(items: seq<Unresolved>) returns (r: Result<map<string, Unresolved>, ResolutionError>)
    ensures r == CollectUnresolved(items, map[])
  {
    var unresolved: map<string, Unresolved> := map[];
    for i := 0 to |items|
      invariant CollectUnresolved(items[i..], unresolved) == CollectUnresolved(items, map[])
    {
      var key := UnresolvedKey(items[i]);
      if key.Err? { return Err(key.error); }
      if key.value in unresolved { return Err(DuplicateUnresolved(key.value)); }
      unresolved := unresolved[key.value := items[i]];
      assert items[i..][1..] == items[i + 1..];
    }
    return Ok(unresolved);
  }

  method GatherChoices(
    items: seq<Choice>, unresolved: map<string, Unresolved>) returns (r: Result<map<string, Choice>, ResolutionError>)
    ensures r == CollectChoices(items, unresolved, map[])
  {
    var choices: map<string, Choice> := map[];
    for i := 0 to |items|
      invariant CollectChoices(items[i..], unresolved, choices) == CollectChoices(items, unresolved, map[])
    {
      var choice := items[i];
      if !StrictText(choice.identity) { return Err(NotCanonicalText("Source identity")); }
      if choice.identity in choices { return Err(DuplicateChoice(choice.identity)); }
      var error := CheckAction(choice, unresolved);
      if error.Some? { return Err(error.value); }
      choices := choices[choice.identity := choice];
      assert items[i..][1..] == items[i + 1..];
    }
    return Ok(choices);
  }

  method IndexRoots(roots: seq<Root>) returns (r: map<string, Root>)
    ensures r == RootsByIdentity(roots, map[])
  {
    r := map[];
    for i := 0 to |roots|
      invariant RootsByIdentity(roots[i..], r) == RootsByIdentity(roots, map[])
    {
      r := r[roots[i].identity := roots[i]];
      assert roots[i..][1..] == roots[i + 1..];
    }
  }

  method Substitute(
    ids: seq<string>, unresolved: map<string, Unresolved>, choices: map<string, Choice>, start: map<string, Root>)
    returns (r: Result<Substitution, ResolutionError>)
    requires forall i :: 0 <= i < |ids| ==> Admissible(ids[i], unresolved, choices)
    ensures r == SubstituteAll(ids, unresolved, choices, Substitution(start, [], []))
  {
    var roots, removed, replaced := start, [], [];
    for i := 0 to |ids|
      invariant SubstituteAll(ids[i..], unresolved, choices, Substitution(roots, removed, replaced)) ==
                SubstituteAll(ids, unresolved, choices, Substitution(start, [], []))
    {
      var identity := ids[i];
      assert Admissible(identity, unresolved, choices);
      assert ids[i..][1..] == ids[i + 1..];
      var source, choice := unresolved[identity].source.root, choices[identity];
      roots := roots - {identity};
      if choice.action == "remove" {
        removed := removed + [Removed(source, unresolved[identity].reason)];
      } else {
        var replacement := ReplacementRoot(source, choice);
        if replacement.identity in roots { return Err(Collision(replacement.identity)); }
        roots := roots[replacement.identity := replacement];
        replaced := replaced + [Replaced(source, replacement, identity, replacement.identity,
            source.provider != replacement.provider)];
      }
    }
    return Ok(Substitution(roots, removed, replaced));
  }

  method ValidateResolutionRequest(plan: Plan, request: Request) returns (r: Result<Validated, ResolutionError>)
    ensures r == Validate(plan, request)
  {
    var error := CheckBinding(plan, request);
    if error.Some? { return Err(error.value); }
    var resolution := plan.resolution.value;
    var unresolved := GatherUnresolved(resolution.unresolved);
    if unresolved.Err? { return Err(unresolved.error); }
    var choices := GatherChoices(request.choices, unresolved.value);
    if choices.Err? { return Err(choices.error); }
    if choices.value.Keys != unresolved.value.Keys { return Err(NotOneChoiceEach); }
    var roots := IndexRoots(resolution.roots);
    if |roots| != |resolution.roots| { return Err(AmbiguousRoots); }
    var ids := SortKeys(unresolved.value.Keys);
    CollectedAreAdmissible(resolution.unresolved, request.choices, ids);
    var s := Substitute(ids, unresolved.value, choices.value, roots);
    if s.Err? { return Err(s.error); }
    var keys := SortKeys(s.value.roots.Keys);
    return Ok(Validated(Selection(keys, s.value.roots), s.value.removed, s.value.replaced));
  }
}
