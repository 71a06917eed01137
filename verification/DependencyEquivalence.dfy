/**
 Evidence that a Modrinth and a CurseForge dependency are the same thing (`dependency_equivalence.py`).
 Digests stand for what they digest; reading a declared hash and materialising an artifact are parameters.
 */
module DependencyEquivalence {
  import opened Common
  import opened Text
  import opened Ordering
  import opened Providers

  datatype Provenance = Explicit | Dependency | Unknown

  datatype Candidate = Candidate(
    providerIdentity: string,
    metadataPath: string,
    filename: string,
    contents: string,
    side: string,
    provenance: Provenance,
    existing: bool)

  datatype Context = Context(minecraft: string, loader: string, loaderVersion: string, snapshot: string, policy: string)

  datatype Semantic = Semantic(members: seq<(string, string)>, targetLoader: string)

  /** The reasons for an `EquivalenceError`, and any other exception, by its text. */
  datatype EquivalenceError =
    | NotProviderAndProject | NotQualified | ProjectNotNumeric
    | TwoExplicitRoots | UnknownIsNew | ProvenanceUnresolved
    | BadMetadata(reason: string) | OtherException(text: string)

  /** How a call of the materialiser ends. */
  datatype Materialized =
    | Artifact(sha256: string, semantic: Option<Semantic>)
    | SomethingElse
    | Refused
    | Failed(error: EquivalenceError)

  type Materialize = (Candidate, Context) -> Materialized

  /** The declared hash of some metadata, if any, or the error that parsing it raises. */
  type Declared = string -> Result<Option<string>, EquivalenceError>

  datatype Kind = DeclaredSha256 | ExactSha256 | JarModIdentity

  /** What the binding digest covers. */
  datatype Binding = Binding(
    leftContents: string,
    rightContents: string,
    context: Context,
    kind: Kind,
    selected: string,
    artifact: Option<string>,
    leftRole: (bool, Provenance),
    rightRole: (bool, Provenance),
    semantic: Option<Semantic>)

  datatype Evidence = Evidence(
    leftIdentity: string,
    rightIdentity: string,
    kind: Kind,
    selected: string,
    artifact: Option<string>,
    semantic: Option<Semantic>,
    leftContents: string,
    rightContents: string,
    context: Context,
    binding: Binding)

  datatype Verdict = Proved(evidence: Evidence) | Rejected | Raised(error: EquivalenceError)

  // ----- Identities -----

  datatype Provider = Modrinth | CurseForge

  function Name(provider: Provider): string {
    match provider
    case Modrinth => "modrinth"
    case CurseForge => "curseforge"
  }

  /** A candidate with the parts of its identity. */
  datatype Known = Known(candidate: Candidate, provider: Provider, project: string)
  {
    /** `_canonical_identity`. */
    function Id(): string { Name(provider) + ":" + project }
  }

  /** The text before and after the first colon. */
  function SplitColon(text: string): (string, string)
    requires ':' in text
  {
    if text[0] == ':' then ("", text[1..])
    else
      var (before, after) := SplitColon(text[1..]);
      ([text[0]] + before, after)
  }

  /** `_identity`. */
  function Identify(c: Candidate): Result<Known, EquivalenceError> {
    var text := Lower(Strip(c.providerIdentity));
    if ':' !in text then Err(NotProviderAndProject)
    else
      var (provider, project) := SplitColon(text);
      if provider !in {"modrinth", "curseforge"} || Strip(project) == "" then Err(NotQualified)
      else if provider == "curseforge" && !IsDecimal(project) then Err(ProjectNotNumeric)
      else Ok(Known(c, if provider == "modrinth" then Modrinth else CurseForge, project))
  }

  lemma {:induction false} SplitIsFirstColon(before: string, after: string)
    requires ':' !in before
    ensures SplitColon(before + ":" + after) == (before, after)
  {
    var text := before + ":" + after;
    if before == "" {
      assert text[0] == ':' && text[1..] == after;
    } else {
      assert text[0] == before[0] && text[1..] == before[1..] + ":" + after;
      SplitIsFirstColon(before[1..], after);
      assert [before[0]] + before[1..] == before;
    }
  }

  lemma {:induction false} SplitJoins(text: string)
    requires ':' in text
    ensures SplitColon(text).0 + ":" + SplitColon(text).1 == text && ':' !in SplitColon(text).0
  {
    if text[0] != ':' {
      SplitJoins(text[1..]);
      assert text == [text[0]] + text[1..];
    } else {
      assert text == ":" + text[1..];
    }
  }

  /**
   A candidate is known exactly if its identity, without whitespace around it and in small letters, is a provider, a
   colon and a project that is not blank; a CurseForge project is a number.
   */
  lemma IdentifiedExactlyWhen(c: Candidate, provider: Provider, project: string)
    ensures Identify(c) == Ok(Known(c, provider, project)) <==>
              && Lower(Strip(c.providerIdentity)) == Name(provider) + ":" + project
              && Strip(project) != "" && (provider == CurseForge ==> IsDecimal(project))
    ensures Identify(c).Err? ==>
              (Identify(c).error == NotProviderAndProject <==> ':' !in Lower(Strip(c.providerIdentity)))
  {
    var text := Lower(Strip(c.providerIdentity));
    assert ':' !in Name(provider) && Name(Modrinth)[0] != Name(CurseForge)[0];
    SplitIsFirstColon(Name(provider), project);
    if ':' in text { SplitJoins(text); }
    assert (Name(provider) + ":" + project)[|Name(provider)|] == ':';
  }

  // ----- The winner -----

  /** The key by which `min` chooses among dependencies. */
  predicate RankBefore(a: Known, b: Known) {
    if a.candidate.existing != b.candidate.existing then a.candidate.existing
    else if a.provider != b.provider then a.provider == Modrinth
    else Less(a.Id(), b.Id())
  }

  /** The roles of the two candidates are `p` and `q`, in whichever order. */
  predicate AreRoles(left: Known, right: Known, p: Provenance, q: Provenance) {
    || (left.candidate.provenance == p && right.candidate.provenance == q)
    || (left.candidate.provenance == q && right.candidate.provenance == p)
  }

  /** `_winner`. */
  function Winner(left: Known, right: Known): Result<Known, EquivalenceError> {
    if AreRoles(left, right, Explicit, Explicit) then Err(TwoExplicitRoots)
    else if AreRoles(left, right, Explicit, Dependency)
        then Ok(if left.candidate.provenance == Explicit then left else right)
    else if AreRoles(left, right, Unknown, Dependency) then
      var unknown := if left.candidate.provenance == Unknown then left else right;
      if !unknown.candidate.existing then Err(UnknownIsNew) else Ok(unknown)
    else if left.candidate.provenance == Unknown || right.candidate.provenance == Unknown then Err(ProvenanceUnresolved)
    else Ok(if RankBefore(right, left) then right else left)
  }

  /** `select_winner`. */
  function SelectWinner(left: Candidate, right: Candidate): Result<Candidate, EquivalenceError> {
    var l :- Identify(left);
    var r :- Identify(right);
    var winner :- Winner(l, r);
    Ok(winner.candidate)
  }

  // ----- Evidence -----

  predicate IdBefore(a: Known, b: Known) { Less(a.Id(), b.Id()) }

  function TargetLoader(context: Context): string { Lower(Strip(context.loader)) }

  /** What two artifacts prove: the kind, the shared hash, and the shared identity of their MODs. */
  function CompareArtifacts(
    l: Materialized, r: Materialized, context: Context): Option<(Kind, Option<string>, Option<Semantic>)>
    requires l.Artifact? && r.Artifact?
  {
    if l.sha256 == r.sha256 then Some((ExactSha256, Some(l.sha256), None))
    else if l.semantic.Some? && l.semantic == r.semantic && l.semantic.value.targetLoader == TargetLoader(context)
    then Some((JarModIdentity, None, l.semantic))
    else None
  }

  /** The part of `verify_equivalence` after its candidates are in canonical order. */
  function VerifyOrdered(
      left: Known, right: Known, winner: Known, context: Context, declared: Declared,
          materialize: Option<Materialize>): Verdict
  {
    var leftDeclared := declared(left.candidate.contents);
    if leftDeclared.Err? then Rejected
    else
      var rightDeclared := declared(right.candidate.contents);
      if rightDeclared.Err? then Rejected
      else if leftDeclared.value.Some? && leftDeclared.value == rightDeclared.value then
        Proved(MakeEvidence(left, right, winner, context, DeclaredSha256, leftDeclared.value, None))
      else if materialize.None? then Rejected
      else
        var l := materialize.value(left.candidate, context);
        if l.Refused? then Rejected
        else if l.Failed? then Raised(l.error)
        else
          var r := materialize.value(right.candidate, context);
          if r.Failed? then Raised(r.error)
          else if !l.Artifact? || !r.Artifact? then Rejected
          else
            var found := CompareArtifacts(l, r, context);
            if found.None? then Rejected
            else Proved(MakeEvidence(left, right, winner, context, found.value.0, found.value.1, found.value.2))
  }

  function MakeEvidence(
      left: Known, right: Known, winner: Known, context: Context,
      kind: Kind, artifact: Option<string>, semantic: Option<Semantic>): Evidence
  {
    var l, r := left.candidate, right.candidate;
    Evidence(
      left.Id(), right.Id(), kind, winner.Id(), artifact, semantic, l.contents, r.contents, context,
      Binding(l.contents, r.contents, context, kind, winner.Id(), artifact,
              (l.existing, l.provenance), (r.existing, r.provenance), semantic))
  }

  /** `verify_equivalence`, for candidates with an identity. */
  function VerifyKnown(
      left: Known, right: Known, context: Context, declared: Declared, materialize: Option<Materialize>): Verdict
  {
    if left.provider == right.provider then Rejected
    else
      var winner := Winner(left, right);
      if winner.Err? then Raised(winner.error)
      else
        SortedPair(left, right);
        var ordered := SortBy([left, right], IdBefore);
        VerifyOrdered(ordered[0], ordered[1], winner.value, context, declared, materialize)
  }

  /** `verify_equivalence`. */
  function Verify(
      left: Candidate, right: Candidate, context: Context, declared: Declared,
          materialize: Option<Materialize>): Verdict
  {
    var l := Identify(left);
    if l.Err? then Rejected
    else
      var r := Identify(right);
      if r.Err? then Rejected
      else VerifyKnown(l.value, r.value, context, declared, materialize)
  }

  // ----- The order of a pair -----

  lemma SortedPair(left: Known, right: Known)
    ensures SortBy([left, right], IdBefore) == if IdBefore(right, left) then [right, left] else [left, right]
  {
    assert [left, right][1..] == [right] && [right][1..] == [];
    assert SortBy([right], IdBefore) == InsertBy(right, SortBy([], IdBefore), IdBefore) == [right];
    assert SortBy([left, right], IdBefore) == InsertBy(left, [right], IdBefore);
    assert IdBefore(right, left) ==> InsertBy(left, [right], IdBefore) == [right] + InsertBy(left, [], IdBefore);
  }

  /** The canonical order of two providers: the CurseForge candidate comes first. */
  lemma CurseForgeFirst(a: Known, b: Known)
    requires a.provider == CurseForge && b.provider == Modrinth
    ensures IdBefore(a, b) && !IdBefore(b, a)
  {
    assert a.Id()[0] == 'c' && b.Id()[0] == 'm';
  }

  // ----- The winner policy -----

  ghost predicate MayLose(k: Known) { k.candidate.provenance == Dependency }

  ghost predicate MayWin(k: Known) { k.candidate.provenance == Unknown ==> k.candidate.existing }

  /** Of two dependencies: one that is there already, then the one from Modrinth, then the smaller identity. */
  ghost predicate Preferred(w: Known, l: Known) {
    || (w.candidate.existing && !l.candidate.existing)
    || (w.candidate.existing == l.candidate.existing
        && if w.provider == l.provider then !Less(l.Id(), w.Id()) else w.provider == Modrinth)
  }

  lemma RankIsTotal(a: Known, b: Known)
    ensures !(RankBefore(a, b) && RankBefore(b, a))
    ensures if RankBefore(b, a) then Preferred(b, a) else Preferred(a, b)
    ensures !RankBefore(a, b) && !RankBefore(b, a) ==> a.Id() == b.Id()
  {
    LessIsTotal(a.Id(), b.Id());
    if Less(a.Id(), b.Id()) { LessIsAsymmetric(a.Id(), b.Id()); }
    if Less(b.Id(), a.Id()) { LessIsAsymmetric(b.Id(), a.Id()); }
  }

  /**
   There is a winner exactly when one candidate is a dependency and the other may win over it; the loser is always
   a dependency, and among two dependencies the preferred one wins.
   */
  lemma WinnerPolicy(left: Known, right: Known)
    ensures Winner(left, right).Ok? <==> (MayLose(left) && MayWin(right)) || (MayLose(right) && MayWin(left))
    ensures Winner(left, right).Ok? ==>
              var w := Winner(left, right).value;
              var l := if w == left then right else left;
              w in {left, right} && MayWin(w) && MayLose(l) && (MayLose(w) ==> Preferred(w, l))
  {
    if MayLose(left) && MayLose(right) { RankIsTotal(left, right); }
  }

  /** Why there is no winner: two explicit roots, a new entry of unknown provenance, or nothing that may lose. */
  lemma NoWinnerBecause(left: Known, right: Known)
    requires Winner(left, right).Err?
    ensures
      var error, l, r := Winner(left, right).error, left.candidate, right.candidate;
      && (error == TwoExplicitRoots <==> l.provenance == Explicit && r.provenance == Explicit)
      && (error == UnknownIsNew <==>
            || (l.provenance == Unknown && !l.existing && r.provenance == Dependency)
            || (r.provenance == Unknown && !r.existing && l.provenance == Dependency))
      && error in {TwoExplicitRoots, UnknownIsNew, ProvenanceUnresolved}
  {
  }

  /**
   The order of the arguments changes neither the error nor the identity that wins, nor the winner if the identities
   differ.
   */
  lemma WinnerIsSymmetric(left: Known, right: Known)
    ensures Winner(left, right).Err? ==> Winner(right, left) == Winner(left, right)
    ensures Winner(left, right).Ok? ==>
            Winner(right, left).Ok? && Winner(left, right).value.Id() == Winner(right, left).value.Id()
    ensures left.Id() != right.Id() ==> Winner(left, right) == Winner(right, left)
  {
    if MayLose(left) && MayLose(right) { RankIsTotal(left, right); }
  }

  /** `select_winner` in either order: both calls raise, or the same identity wins. */
  lemma SelectionIsSymmetric(left: Candidate, right: Candidate)
    ensures SelectWinner(left, right).Ok? <==> SelectWinner(right, left).Ok?
    ensures SelectWinner(left, right).Ok? ==>
              var a, b := SelectWinner(left, right).value, SelectWinner(right, left).value;
              Identify(a).Ok? && Identify(b).Ok? && Identify(a).value.Id() == Identify(b).value.Id()
  {
    if Identify(left).Ok? && Identify(right).Ok? {
      IdentifiedIsSelf(left);
      IdentifiedIsSelf(right);
      WinnerIsSymmetric(Identify(left).value, Identify(right).value);
      WinnerPolicy(Identify(left).value, Identify(right).value);
      WinnerPolicy(Identify(right).value, Identify(left).value);
    }
  }

  lemma IdentifiedIsSelf(c: Candidate)
    requires Identify(c).Ok?
    ensures Identify(c).value.candidate == c
  {
  }

  // ----- Symmetry -----

  /** With the CurseForge candidate first, as the canonical order has it. */
  lemma VerifyInOrder(left: Known, right: Known, context: Context, declared: Declared, materialize: Option<Materialize>)
    requires left.provider == CurseForge && right.provider == Modrinth
    ensures Winner(right, left) == Winner(left, right)
    ensures VerifyKnown(left, right, context, declared, materialize) ==
              if Winner(left, right).Err? then Raised(Winner(left, right).error)
              else VerifyOrdered(left, right, Winner(left, right).value, context, declared, materialize)
    ensures VerifyKnown(right, left, context, declared, materialize) ==
            VerifyKnown(left, right, context, declared, materialize)
  {
    CurseForgeFirst(left, right);
    LessIsAsymmetric(left.Id(), right.Id());
    WinnerIsSymmetric(left, right);
    SortedPair(left, right);
    SortedPair(right, left);
  }

  lemma KnownIsSymmetric(
    left: Known, right: Known, context: Context, declared: Declared, materialize: Option<Materialize>)
    ensures VerifyKnown(left, right, context, declared, materialize) ==
            VerifyKnown(right, left, context, declared, materialize)
  {
    if left.provider == CurseForge && right.provider == Modrinth {
      VerifyInOrder(left, right, context, declared, materialize);
    } else if left.provider == Modrinth && right.provider == CurseForge {
      VerifyInOrder(right, left, context, declared, materialize);
    }
  }

  /**
   Which candidate comes first makes no difference: the same evidence, a rejection both times, or the same exception.
   */
  lemma VerificationIsSymmetric(
      left: Candidate, right: Candidate, context: Context, declared: Declared, materialize: Option<Materialize>)
    ensures Verify(left, right, context, declared, materialize) == Verify(right, left, context, declared, materialize)
  {
    if Identify(left).Ok? && Identify(right).Ok? {
      KnownIsSymmetric(Identify(left).value, Identify(right).value, context, declared, materialize);
    }
  }

  // ----- What evidence means -----

  /** Some artifact is shared, or some identity of MODs, read from both candidates. */
  ghost predicate Same(
    left: Candidate, right: Candidate, context: Context, declared: Declared, materialize: Option<Materialize>) {
    || SameDeclared(left, right, declared)
    || (materialize.Some? && var l, r := materialize.value(left, context), materialize.value(right, context);
          l.Artifact? && r.Artifact? && (l.sha256 == r.sha256 || SameMods(l, r, context)))
  }

  ghost predicate SameDeclared(left: Candidate, right: Candidate, declared: Declared) {
    declared(left.contents).Ok? && declared(left.contents).value.Some? &&
        declared(left.contents) == declared(right.contents)
  }

  ghost predicate SameMods(l: Materialized, r: Materialized, context: Context) {
    l.Artifact? && r.Artifact? && l.semantic.Some? && l.semantic == r.semantic &&
        l.semantic.value.targetLoader == TargetLoader(context)
  }

  ghost predicate HasSha(m: Materialized, sha: string) { m.Artifact? && m.sha256 == sha }

  /** What the candidates share is of the kind that the evidence names, and the evidence holds just that. */
  ghost predicate Sound(
      e: Evidence, left: Candidate, right: Candidate, context: Context, declared: Declared,
          materialize: Option<Materialize>)
  {
    match e.kind
    case DeclaredSha256 =>
      SameDeclared(left, right, declared) && Ok(e.artifact) == declared(left.contents) && e.semantic == None
    case ExactSha256 =>
      && !SameDeclared(left, right, declared) && e.semantic == None && e.artifact.Some?
      && materialize.Some? && HasSha(materialize.value(left, context), e.artifact.value)
      && HasSha(materialize.value(right, context), e.artifact.value)
    case JarModIdentity =>
      && !SameDeclared(left, right, declared) && e.artifact == None && e.semantic.Some?
      && materialize.Some? && SameMods(materialize.value(left, context), materialize.value(right, context), context)
      && materialize.value(left, context).semantic == e.semantic
      && materialize.value(left, context).sha256 != materialize.value(right, context).sha256
  }

  /**
   The evidence names both candidates in order, their metadata and roles, and the winner; its binding covers all of
   it.
   */
  ghost predicate Names(e: Evidence, left: Known, right: Known, winner: Known, context: Context) {
    && e.leftIdentity == left.Id() && e.rightIdentity == right.Id() && Less(e.leftIdentity, e.rightIdentity)
    && e.leftContents == left.candidate.contents && e.rightContents == right.candidate.contents && e.context == context
    && e.selected == winner.Id() && e.selected in {e.leftIdentity, e.rightIdentity}
    && e.binding.leftRole == (left.candidate.existing, left.candidate.provenance)
    && e.binding.rightRole == (right.candidate.existing, right.candidate.provenance)
    && e.binding == Binding(e.leftContents, e.rightContents, e.context, e.kind, e.selected, e.artifact,
                            e.binding.leftRole, e.binding.rightRole, e.semantic)
  }

  lemma OrderedIsSound(
      left: Known, right: Known, winner: Known, context: Context, declared: Declared, materialize: Option<Materialize>)
    ensures VerifyOrdered(left, right, winner, context, declared, materialize).Proved? <==>
              && declared(left.candidate.contents).Ok? && declared(right.candidate.contents).Ok?
              && Same(left.candidate, right.candidate, context, declared, materialize)
    ensures VerifyOrdered(left, right, winner, context, declared, materialize).Proved? ==>
              var e := VerifyOrdered(left, right, winner, context, declared, materialize).evidence;
              Sound(e, left.candidate, right.candidate, context, declared, materialize)
  {
  }

  lemma SameIsSymmetric(
    left: Candidate, right: Candidate, context: Context, declared: Declared, materialize: Option<Materialize>)
    ensures Same(left, right, context, declared, materialize) <==> Same(right, left, context, declared, materialize)
  {
  }

  /** Evidence is given exactly for two providers with a winner and readable metadata that share something. */
  lemma ProvedExactlyWhen(
      left: Candidate, right: Candidate, context: Context, declared: Declared, materialize: Option<Materialize>)
    ensures Verify(left, right, context, declared, materialize).Proved? <==>
              && Identify(left).Ok? && Identify(right).Ok? &&
                  Identify(left).value.provider != Identify(right).value.provider
              && Winner(Identify(left).value, Identify(right).value).Ok?
              && declared(left.contents).Ok? && declared(right.contents).Ok?
              && Same(left, right, context, declared, materialize)
  {
    if Identify(left).Ok? && Identify(right).Ok? {
      var l, r := Identify(left).value, Identify(right).value;
      IdentifiedIsSelf(left);
      IdentifiedIsSelf(right);
      VerifyIdentified(left, right, l, r, context, declared, materialize);
      KnownProvedExactlyWhen(l, r, context, declared, materialize);
    }
  }

  lemma KnownProvedExactlyWhen(
    left: Known, right: Known, context: Context, declared: Declared, materialize: Option<Materialize>)
    ensures VerifyKnown(left, right, context, declared, materialize).Proved? <==>
              && left.provider != right.provider && Winner(left, right).Ok?
              && declared(left.candidate.contents).Ok? && declared(right.candidate.contents).Ok?
              && Same(left.candidate, right.candidate, context, declared, materialize)
  {
    if left.provider != right.provider {
      var (first, second) := if left.provider == CurseForge then (left, right) else (right, left);
      VerifyInOrder(first, second, context, declared, materialize);
      if Winner(first, second).Ok? { OrderedIsSound(first, second, Winner(first, second).value, context, declared,
          materialize); }
      SameIsSymmetric(left.candidate, right.candidate, context, declared, materialize);
    }
  }

  lemma KnownEvidenceIsSound(
    left: Known, right: Known, context: Context, declared: Declared, materialize: Option<Materialize>)
    requires VerifyKnown(left, right, context, declared, materialize).Proved? && left.provider == CurseForge
    ensures Winner(left, right).Ok?
    ensures var e := VerifyKnown(left, right, context, declared, materialize).evidence;
            && Names(e, left, right, Winner(left, right).value, context)
            && Sound(e, left.candidate, right.candidate, context, declared, materialize)
  {
    KnownProvedExactlyWhen(left, right, context, declared, materialize);
    VerifyInOrder(left, right, context, declared, materialize);
    CurseForgeFirst(left, right);
    var winner := Winner(left, right).value;
    WinnerPolicy(left, right);
    OrderedIsSound(left, right, winner, context, declared, materialize);
    OrderedNames(left, right, winner, context, declared, materialize);
  }

  lemma OrderedNames(
      left: Known, right: Known, winner: Known, context: Context, declared: Declared, materialize: Option<Materialize>)
    requires VerifyOrdered(left, right, winner, context, declared, materialize).Proved?
    requires Less(left.Id(), right.Id()) && winner in {left, right}
    ensures Names(VerifyOrdered(left, right, winner, context, declared, materialize).evidence, left, right, winner,
            context)
  {
  }

  lemma VerifyIdentified(
      left: Candidate, right: Candidate, l: Known, r: Known, context: Context, declared: Declared,
          materialize: Option<Materialize>)
    requires Identify(left) == Ok(l) && Identify(right) == Ok(r)
    ensures Verify(left, right, context, declared, materialize) == VerifyKnown(l, r, context, declared, materialize)
  {
  }

  /** Evidence names the pair and the winner, and holds what the two share. */
  lemma EvidenceIsSound(
      left: Candidate, right: Candidate, l: Known, r: Known, context: Context, declared: Declared,
          materialize: Option<Materialize>)
    requires Identify(left) == Ok(l) && Identify(right) == Ok(r) && l.provider == CurseForge
    requires Verify(left, right, context, declared, materialize).Proved?
    ensures Winner(l, r).Ok?
    ensures var e := Verify(left, right, context, declared, materialize).evidence;
            Names(e, l, r, Winner(l, r).value, context) && Sound(e, left, right, context, declared, materialize)
  {
    VerifyIdentified(left, right, l, r, context, declared, materialize);
    IdentifiedIsSelf(left);
    IdentifiedIsSelf(right);
    KnownEvidenceIsSound(l, r, context, declared, materialize);
  }

  /** The artifacts are needed, and getting the first fails, or getting the second after the first was not refused. */
  ghost predicate MaterializingFails(
      left: Candidate, right: Candidate, context: Context, declared: Declared, materialize: Option<Materialize>,
      error: EquivalenceError)
  {
    && declared(left.contents).Ok? && declared(right.contents).Ok? && !SameDeclared(left, right, declared)
    && materialize.Some?
    && var first, second := materialize.value(left, context), materialize.value(right, context);
       first == Failed(error) || (!first.Refused? && !first.Failed? && second == Failed(error))
  }

  lemma OrderedRaises(
      left: Known, right: Known, winner: Known, context: Context, declared: Declared,
      materialize: Option<Materialize>, error: EquivalenceError)
    ensures VerifyOrdered(left, right, winner, context, declared, materialize) == Raised(error) <==>
            MaterializingFails(left.candidate, right.candidate, context, declared, materialize, error)
  {
  }

  /**
   An exception comes out exactly if there is no winner, or the declared hashes are readable and not shared and the
   materialiser fails: on the first candidate, or on the second if it did not refuse the first.
   */
  lemma RaisedExactlyWhen(
      left: Candidate, right: Candidate, l: Known, r: Known, context: Context, declared: Declared,
      materialize: Option<Materialize>, error: EquivalenceError)
    requires Identify(left) == Ok(l) && Identify(right) == Ok(r) && l.provider == CurseForge
    ensures Verify(left, right, context, declared, materialize) == Raised(error) <==>
              && r.provider == Modrinth
              && (|| Winner(l, r) == Err(error)
                  || (Winner(l, r).Ok? && MaterializingFails(left, right, context, declared, materialize, error)))
  {
    VerifyIdentified(left, right, l, r, context, declared, materialize);
    IdentifiedIsSelf(left);
    IdentifiedIsSelf(right);
    if r.provider == Modrinth {
      VerifyInOrder(l, r, context, declared, materialize);
      if Winner(l, r).Ok? { OrderedRaises(l, r, Winner(l, r).value, context, declared, materialize, error); }
    }
  }

  /** The loader that MODs must be for is that of the context, in small letters and without whitespace around it. */
  lemma TargetLoaderIsPlain(context: Context)
    ensures TargetLoader(context) == TargetLoader(context.(loader := Lower(Strip(context.loader))))
  {
    PlainFormIsPlain(context.loader);
  }
}
