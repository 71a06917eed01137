/** What the publication of a copied Pack keeps, over every run of its calls. */
module PackMigrationProofs {
  import opened Common
  import opened PackMigration
  import opened Permissions

  // ----- Runs -----

  datatype Call =
    | PrepareCall(handoff: nat, env: Env)
    | ApplyCall(handoff: nat, env: Env)
    | RetryCall(handoff: nat, env: Env)
    | DiscardCall(env: Env)

  function Perform(s: Migration, call: Call): Step<Migration> {
    match call
    case PrepareCall(handoff, env) => Prepare(s, handoff, env)
    case ApplyCall(handoff, env) => Apply(s, handoff, env)
    case RetryCall(handoff, env) => Retry(s, handoff, env)
    case DiscardCall(env) => Discard(s, env)
  }

  function Run(s: Migration, calls: seq<Call>): Migration
    decreases |calls|
  {
    if calls == [] then s else Run(Perform(s, calls[0]).plan, calls[1..])
  }

  /** A resolved plan whose staged Pack waits in an ordinary transaction directory. */
  ghost predicate Fresh(s: Migration) {
    && s.state == Resolved && s.publication == NotPublished && !s.committed && !s.cleanupFailed && s.token.None?
    && s.sourceLock && s.targetLock && s.target.None? && s.renames == 0
    && s.transaction.Some? && Tidy(s.transaction.value) && !s.recovery && s.abandoned == []
  }

  /** What appears at the target from outside is not the staged directory. */
  ghost predicate Foreign(env: Env, identity: nat) {
    forall p: Point :: env.at(p).Appear? ==> IdentityOf(env.at(p).node) != Some(identity)
  }

  ghost predicate AllForeign(calls: seq<Call>, identity: nat) {
    forall i :: 0 <= i < |calls| ==> Foreign(calls[i].env, identity)
  }

  // ----- Directories -----

  /** What a transaction directory looks like as long as nobody else writes into it. */
  ghost predicate Tidy(children: seq<Entry>) {
    && Ordinary(children)
    && forall i :: 0 <= i < |children| && children[i].name == DIAGNOSTIC ==> children[i].node.File?
  }

  lemma {:induction false} TidyDiagnostic(children: seq<Entry>)
    requires Tidy(children)
    ensures Lookup(children, DIAGNOSTIC) in {None, Some(File)}
  {
    if children != [] && children[0].name != DIAGNOSTIC {
      assert Tidy(children[1..]);
      TidyDiagnostic(children[1..]);
    }
  }

  lemma {:induction false} WithoutRemoves(children: seq<Entry>, name: string)
    ensures Lookup(Without(children, name), name).None?
    ensures Tidy(children) ==> Tidy(Without(children, name))
  {
    if children != [] {
      WithoutRemoves(children[1..], name);
      assert Tidy(children) ==> Tidy(children[1..]);
    }
  }

  lemma {:induction false} WithInserts(children: seq<Entry>, entry: Entry, name: string)
    requires Lookup(children, entry.name).None?
    ensures Lookup(With(children, entry), name) == if name == entry.name then Some(entry.node)
            else Lookup(children, name)
    ensures Tidy(children) && entry.node.File? ==> Tidy(With(children, entry))
  {
    if children != [] {
      WithInserts(children[1..], entry, name);
      assert Tidy(children) ==> Tidy(children[1..]);
    }
  }

  /** Removal never touches what it preserves and never makes anything that was not ordinary. */
  lemma {:induction false} RemoveKeeps(
    children: seq<Entry>, mode: Mode, preserve: set<string>, deletions: Option<nat>, name: string)
    requires Ordinary(children)
    ensures
      var r := Remove(children, mode, preserve, deletions);
      && Ordinary(r.children) && (Tidy(children) ==> Tidy(r.children))
      && (name in preserve ==> Lookup(r.children, name) == Lookup(children, name))
      && (Lookup(children, name).None? ==> Lookup(r.children, name).None?)
      && (children == [] ==> r.children == [])
    decreases children
  {
    if children != [] {
      var entry, rest := children[0], children[1..];
      assert OrdinaryNode(entry.node) && Ordinary(rest) && (Tidy(children) ==> Tidy(rest));
      RemoveKeeps(rest, mode, preserve, deletions, name);
      if entry.name !in preserve && deletions != Some(0) && !entry.node.Special? {
        if entry.node.File? {
          RemoveKeeps(rest, mode, preserve, Spend(deletions), name);
        } else {
          RemoveKeeps(entry.node.children, entry.node.mode, {}, deletions, name);
          var inner := Remove(entry.node.children, entry.node.mode, {}, deletions);
          if inner.finished && inner.deletions != Some(0) {
            RemoveKeeps(rest, mode, preserve, Spend(inner.deletions), name);
          }
        }
      }
    }
  }

  /** The entries of a directory can all be deleted, apart from those that are preserved. */
  predicate Removable(children: seq<Entry>, mode: Mode, preserve: set<string>) {
    forall i :: 0 <= i < |children| && children[i].name !in preserve ==>
      OwnerChanges(mode) && RemovableNode(children[i].node)
  }

  predicate RemovableNode(node: Node) {
    node.Directory? ==> Removable(node.children, node.mode, {})
  }

  lemma RemovableStep(children: seq<Entry>, mode: Mode, preserve: set<string>)
    requires children != []
    ensures Removable(children, mode, preserve) <==>
              && (children[0].name !in preserve ==> OwnerChanges(mode) && RemovableNode(children[0].node))
              && Removable(children[1..], mode, preserve)
  {
    assert children == [children[0]] + children[1..];
    assert forall i :: 0 < i < |children| ==> children[i] == children[1..][i - 1];
  }

  /**
   Without a fault, removal finishes exactly if every directory with something in it can be written and searched by
   its owner, and then only what is preserved is left.
   */
  lemma {:induction false} RemoveAll(children: seq<Entry>, mode: Mode, preserve: set<string>)
    requires Ordinary(children)
    ensures
      var r := Remove(children, mode, preserve, None);
      && (r.finished <==> Removable(children, mode, preserve))
      && r.deletions == None
      && (r.finished ==> forall i :: 0 <= i < |r.children| ==> r.children[i].name in preserve)
      && (r.finished && preserve == {} ==> r.children == [])
    decreases children
  {
    if children != [] {
      var entry, rest := children[0], children[1..];
      assert OrdinaryNode(entry.node) && Ordinary(rest);
      RemovableStep(children, mode, preserve);
      RemoveAll(rest, mode, preserve);
      if entry.name !in preserve && entry.node.Directory? {
        RemoveAll(entry.node.children, entry.node.mode, {});
      }
    }
  }

  /** What cannot be removed cannot be removed after an attempt either, wherever that was interrupted. */
  lemma {:induction false} RemoveLeavesUnremovable(
    children: seq<Entry>, mode: Mode, preserve: set<string>, deletions: Option<nat>)
    requires Ordinary(children) && !Removable(children, mode, preserve)
    ensures
      var r := Remove(children, mode, preserve, deletions);
      !r.finished && !Removable(r.children, mode, preserve)
    decreases children
  {
    var entry, rest := children[0], children[1..];
    var r := Remove(children, mode, preserve, deletions);
    assert OrdinaryNode(entry.node) && Ordinary(rest);
    RemovableStep(children, mode, preserve);
    if entry.name in preserve {
      RemoveLeavesUnremovable(rest, mode, preserve, deletions);
      RemovableStep(r.children, mode, preserve);
      assert r.children[1..] == Remove(rest, mode, preserve, deletions).children;
    } else if deletions != Some(0) && OwnerSearches(mode) {
      if entry.node.File? {
        if OwnerWrites(mode) { RemoveLeavesUnremovable(rest, mode, preserve, Spend(deletions)); }
      } else {
        var inner := Remove(entry.node.children, entry.node.mode, {}, deletions);
        if !RemovableNode(entry.node) {
          RemoveLeavesUnremovable(entry.node.children, entry.node.mode, {}, deletions);
          RemovableStep(r.children, mode, preserve);
        } else if OwnerWrites(mode) {
          if inner.finished && inner.deletions != Some(0) {
            RemoveLeavesUnremovable(rest, mode, preserve, Spend(inner.deletions));
          } else {
            RemovableStep(r.children, mode, preserve);
            assert r.children[1..] == rest;
          }
        } else {
          RemovableStep(r.children, mode, preserve);
        }
      }
    }
  }

  lemma {:induction false} WithoutOnly(children: seq<Entry>, name: string)
    requires forall i :: 0 <= i < |children| ==> children[i].name == name
    ensures Without(children, name) == []
  {
    if children != [] { WithoutOnly(children[1..], name); }
  }

  // ----- The publication invariant -----

  ghost predicate Inv(s: Migration) {
    && (s.Holds() ==> s.publication != NotPublished && s.MatchesValidated())
    && (s.committed ==> s.Holds() && s.publication != NotPublished && s.token.Some? && s.state in {Failed, Applied})
    && (s.state in {Resolved, Ready} ==> !s.committed && s.publication == NotPublished && s.renames == 0)
    && s.renames <= 1
    && (s.state == Applied ==> s.committed)
    && (s.transaction.Some? ==> Tidy(s.transaction.value))
  }

  /** The parts of the state that cleanup, diagnostics and lock release do not touch. */
  ghost predicate SamePublication(s: Migration, t: Migration) {
    && t.publication == s.publication && t.committed == s.committed && t.token == s.token
    && t.stagingIdentity == s.stagingIdentity && t.validatedMode == s.validatedMode && t.validated == s.validated
    && t.renames == s.renames
    && (s.target.Some? ==> t.target == s.target)
    && (t.target.Some? && s.target.None? ==> !t.Holds())
    && (t.transaction.Some? && (s.transaction.Some? ==> Tidy(s.transaction.value)) ==> Tidy(t.transaction.value))
  }

  lemma RecordKeeps(s: Migration, e: Event)
    ensures SamePublication(s, Record(s, e)) && Record(s, e).target == s.target && Record(s, e).state == s.state
    ensures Record(s, e) == s.(transaction := Record(s, e).transaction)
  {
    if s.transaction.Some? && Lookup(s.transaction.value, DIAGNOSTIC).None? {
      WithInserts(s.transaction.value, Entry(DIAGNOSTIC, File), DIAGNOSTIC);
    }
  }

  lemma CleanupKeeps(s: Migration, env: Env, preserve: set<string>)
    requires Foreign(env, s.stagingIdentity)
    ensures SamePublication(s, Cleanup(s, env, preserve).plan)
    ensures Cleanup(s, env, preserve).plan.state == s.state
  {
    if s.transaction.Some? {
      var begun := Reach(s, env.at(BeginCleanup));
      ReachKeeps(s, BeginCleanup, env);
      if begun.Go? && Ordinary(s.transaction.value) {
        RemoveKeeps(s.transaction.value, OWNER, preserve, env.deletions, DIAGNOSTIC);
        var left := Remove(s.transaction.value, OWNER, preserve, env.deletions).children;
        ContentsKeep(s, begun.plan, left);
      }
    }
  }

  /** What is left in the directory does not touch the publication. */
  lemma ContentsKeep(s: Migration, t: Migration, left: seq<Entry>)
    requires SamePublication(s, t) && (s.transaction.Some? && Tidy(s.transaction.value) ==> Tidy(left))
    requires s.transaction.Some?
    ensures SamePublication(s, t.(transaction := Some(left)))
  {
  }

  lemma ReachKeeps(s: Migration, p: Point, env: Env)
    requires Foreign(env, s.stagingIdentity)
    ensures SamePublication(s, Reach(s, env.at(p)).plan)
  {
  }

  lemma RemoveRootKeeps(s: Migration, env: Env)
    requires Foreign(env, s.stagingIdentity) && (s.transaction.Some? ==> Tidy(s.transaction.value))
    ensures SamePublication(s, RemoveDiagnosticAndRoot(s, env).plan)
    ensures RemoveDiagnosticAndRoot(s, env).plan.state == s.state
  {
    if s.transaction.Some? {
      ReachKeeps(s, UnlinkDiagnostic, env);
      var unlinking := Reach(s, env.at(UnlinkDiagnostic)).plan;
      var unlinked := unlinking.(transaction := Some(Without(s.transaction.value, DIAGNOSTIC)));
      WithoutRemoves(s.transaction.value, DIAGNOSTIC);
      RootAndParentKeep(unlinked, env);
      SamePublicationChains(s, unlinking, unlinked);
      var r := RemoveEmptyRoot(unlinked, env);
      SamePublicationChains(s, unlinked, r.plan);
      SamePublicationChains(s, r.plan, Reach(r.plan, env.at(SyncParent)).plan);
    }
  }

  lemma RootAndParentKeep(s: Migration, env: Env)
    requires Foreign(env, s.stagingIdentity) && (s.transaction.Some? ==> Tidy(s.transaction.value))
    ensures
      var r := RemoveEmptyRoot(s, env);
      && SamePublication(s, r.plan) && r.plan.state == s.state
      && SamePublication(r.plan, Reach(r.plan, env.at(SyncParent)).plan)
  {
    ReachKeeps(s, RemoveRoot, env);
    ReachKeeps(RemoveEmptyRoot(s, env).plan, SyncParent, env);
  }

  lemma SamePublicationChains(s: Migration, t: Migration, u: Migration)
    requires SamePublication(s, t) && SamePublication(t, u)
    requires s.transaction.None? ==> t.transaction.None? || Tidy(t.transaction.value)
    ensures SamePublication(s, u)
  {
  }

  lemma RemoveTransactionKeeps(s: Migration, env: Env)
    requires Foreign(env, s.stagingIdentity) && (s.transaction.Some? ==> Tidy(s.transaction.value))
    ensures SamePublication(s, RemoveTransaction(s, env).plan)
  {
    CleanupKeeps(s, env, {DIAGNOSTIC});
    var cleaned := Cleanup(s, env, {DIAGNOSTIC});
    RemoveRootKeeps(cleaned.plan, env);
    SamePublicationChains(s, cleaned.plan, RemoveDiagnosticAndRoot(cleaned.plan, env).plan);
  }

  /** The directory and then the locks. */
  function RemoveAndRelease(s: Migration, env: Env): Step<Migration> {
    var removed := RemoveTransaction(s, env);
    if removed.Go? then ReleaseLocks(removed.plan, env) else removed
  }

  lemma RemoveAndReleaseKeeps(s: Migration, env: Env)
    requires Foreign(env, s.stagingIdentity) && (s.transaction.Some? ==> Tidy(s.transaction.value))
    ensures SamePublication(s, RemoveAndRelease(s, env).plan)
  {
    RemoveTransactionKeeps(s, env);
    var removed := RemoveTransaction(s, env).plan;
    ReleaseKeeps(removed, env);
    SamePublicationChains(s, removed, ReleaseLocks(removed, env).plan);
  }

  lemma FinishKeeps(s: Migration, env: Env)
    requires Foreign(env, s.stagingIdentity) && (s.transaction.Some? ==> Tidy(s.transaction.value))
    ensures SamePublication(s, Finish(s, env).plan)
    ensures Finish(s, env).plan.state in {Applied, Failed}
  {
    RemoveAndReleaseKeeps(s, env);
    var r := RemoveAndRelease(s, env);
    var failed := r.plan.(state := Failed, cleanupFailed := true);
    RetainKeeps(failed, env);
    SamePublicationChains(s, failed, RetainDiagnostic(failed, env));
  }

  lemma RetainKeeps(s: Migration, env: Env)
    ensures SamePublication(s, RetainDiagnostic(s, env)) && RetainDiagnostic(s, env).state == s.state
    ensures
      var t := RetainDiagnostic(s, env);
      t == s.(transaction := t.transaction, recovery := t.recovery, abandoned := t.abandoned)
  {
    RecordKeeps(s, env.at(RecordRetained));
    RecordKeeps(s.(transaction := Some([]), recovery := true, abandoned := s.abandoned + Trees(s.transaction)),
        env.at(RecordRetained));
  }

  lemma VerifyKeeps(s: Migration, env: Env)
    requires Foreign(env, s.stagingIdentity) && (s.transaction.Some? ==> Tidy(s.transaction.value))
    ensures SamePublication(s, VerifyAndFinish(s, env).plan)
    ensures VerifyAndFinish(s, env).plan.state in {s.state, Applied, Failed}
  {
    FinishKeeps(s, env);
    if s.target.None? {
      assert !Reach(s, env.at(VerifySnapshot)).plan.Holds();
    }
  }

  lemma RetryRawKeepsInv(s: Migration, env: Env)
    requires Inv(s) && s.committed && Foreign(env, s.stagingIdentity)
    ensures Inv(RetryRaw(s, env).plan) && SamePublication(s, RetryRaw(s, env).plan)
  {
    VerifyKeeps(s, env);
    var begun := Reach(s, env.at(RetryCheckpoint));
    var r := if begun.Go? then VerifyAndFinish(begun.plan, env) else begun;
    RecordKeeps(r.plan.(state := Failed, cleanupFailed := true), env.at(RecordRetry));
  }

  /** Between the attempt to rename and its outcome, in terms of where the staged directory is. */
  ghost predicate Attempted(s: Migration) {
    && s.state == Applying && s.publication == Uncertain && !s.committed && s.renames == 1 && s.token.Some?
    && (s.Holds() ==> s.MatchesValidated() && s.Staging().None?)
    && (s.transaction.Some? ==> Tidy(s.transaction.value))
  }

  lemma AttemptMoves(s: Migration, env: Env)
    requires s.state == Applying && s.publication == NotPublished && !s.committed && s.renames == 0 && s.token.Some?
    requires !s.Holds() && StagingIsValid(s) && s.transaction.Some? && Tidy(s.transaction.value)
    requires Foreign(env, s.stagingIdentity)
    ensures
      var r := AttemptRename(s, env);
      && r.plan.stagingIdentity == s.stagingIdentity && r.plan.token == s.token && !r.Dead?
      && if r.Exc? && env.at(LastCheckpoint).Raise? then r.plan == s else Attempted(r.plan)
  {
    WithoutRemoves(s.transaction.value, STAGING);
  }

  /**
   Looking at both names finds out whether the rename took effect: it did exactly if the target holds the staged
   directory, it is taken for undone only with the staged directory in its place and nothing at the target.
   */
  lemma ReconcileDecides(s: Migration, env: Env)
    requires Attempted(s) && Foreign(env, s.stagingIdentity)
    ensures
      var r := Reconcile(s, env);
      var looked := !env.at(StatTarget).Raise? && !env.at(StatStaging).Raise?;
      && (r.Go? <==> looked && s.Holds())
      && (r.Go? <==> r.plan.publication == Published)
      && (r.plan.publication == NotPublished <==>
            looked && Reach(s, env.at(StatTarget)).plan.target.None?
            && s.Staging().Some? && IdentityOf(s.Staging().value) == Some(s.stagingIdentity))
      && (r.plan.Holds() ==> r.plan.publication != NotPublished && r.plan.MatchesValidated())
      && r.plan == s.(publication := r.plan.publication, target := r.plan.target)
  {
  }

  lemma ReconcileUnattempted(s: Migration, env: Env)
    requires s.publication == NotPublished && !s.Holds() && s.Staging().Some? && Foreign(env, s.stagingIdentity)
    ensures
      var r := Reconcile(s, env);
      r.Exc? && !r.plan.Holds() && r.plan == s.(target := r.plan.target)
  {
  }

  lemma CommitKeeps(s: Migration, env: Env)
    requires Foreign(env, s.stagingIdentity) && !s.committed
    requires s.Holds() ==> s.publication != NotPublished && s.MatchesValidated()
    ensures
      var r := Commit(s, env);
      && r.plan == s.(target := r.plan.target, committed := r.plan.committed, publication := r.plan.publication)
      && (r.plan.Holds() ==> r.plan.publication != NotPublished && r.plan.MatchesValidated())
      && (r.Go? ==> r.plan.committed && r.plan.publication == Published) && (r.plan.committed ==> r.plan.Holds())
  {
  }

  lemma PublishKeepsInv(s: Migration, env: Env)
    requires s.state == Applying && s.publication == NotPublished && !s.committed && s.renames == 0 && s.token.Some?
    requires !s.Holds() && StagingIsValid(s) && s.transaction.Some? && Tidy(s.transaction.value)
    requires Foreign(env, s.stagingIdentity)
    ensures
      var r := PublishTarget(s, env);
      && (r.plan.Holds() ==> r.plan.publication != NotPublished && r.plan.MatchesValidated())
      && r.plan.renames <= 1 && r.plan.state == Applying && r.plan.token == s.token
      && (r.plan.transaction.Some? ==> Tidy(r.plan.transaction.value))
      && (r.Go? ==> r.plan.committed && r.plan.publication == Published) && r.plan.stagingIdentity == s.stagingIdentity
      && (r.plan.committed ==> r.plan.Holds())
  {
    AttemptMoves(s, env);
    var attempt := AttemptRename(s, env);
    if attempt.Exc? {
      if env.at(LastCheckpoint).Raise? { ReconcileUnattempted(s, env); } else { ReconcileDecides(attempt.plan, env); }
    }
    CommitKeeps((if attempt.Exc? then Reconcile(attempt.plan, env) else attempt).plan, env);
  }

  /**
   A plan stays uncertain with its publication committed exactly if the rename returned and an exception came
   between the two assignments that follow it.
   */
  lemma CommittedIsUncertainExactlyWhen(s: Migration, env: Env)
    requires s.state == Applying && s.publication == NotPublished && !s.committed && s.renames == 0 && s.token.Some?
    requires !s.Holds() && StagingIsValid(s) && s.transaction.Some? && Tidy(s.transaction.value)
    requires Foreign(env, s.stagingIdentity) && PublishTarget(s, env).plan.committed
    ensures PublishTarget(s, env).plan.publication == Uncertain <==>
            AttemptRename(s, env).Go? && env.at(SetPublished).Raise?
  {
    AttemptMoves(s, env);
    var attempt := AttemptRename(s, env);
    if attempt.Exc? {
      if env.at(LastCheckpoint).Raise? { ReconcileUnattempted(s, env); } else { ReconcileDecides(attempt.plan, env); }
    }
  }

  ghost predicate ReadyToRename(s: Migration) {
    && s.state == Applying && s.publication == NotPublished && !s.committed && s.renames == 0 && s.token.Some?
    && !s.Holds() && StagingIsValid(s) && s.transaction.Some? && Tidy(s.transaction.value)
  }

  lemma PublishAndFinishKeepsInv(s: Migration, env: Env)
    requires ReadyToRename(s) && Foreign(env, s.stagingIdentity)
    ensures Inv(PublishAndFinish(s, env).plan) && PublishAndFinish(s, env).plan.stagingIdentity == s.stagingIdentity
  {
    PublishKeepsInv(s, env);
    var published := PublishTarget(s, env);
    RecordKeeps(published.plan.(state := Failed), env.at(RecordPublication));
    if published.Go? {
      VerifyKeeps(published.plan, env);
      var r := VerifyAndFinish(published.plan, env);
      RecordKeeps(r.plan.(state := Failed, cleanupFailed := true), env.at(RecordOutcome));
    }
  }

  lemma ApplyRawKeepsInv(s: Migration, env: Env)
    requires Inv(s) && Foreign(env, s.stagingIdentity)
    ensures
      var r := ApplyRaw(s, env);
      && r.plan.stagingIdentity == s.stagingIdentity
      && Inv(if r.Go? || r.plan.committed then r.plan else r.plan.(state := Failed))
      && (s.committed ==> SamePublication(s, r.plan))
  {
    if s.committed {
      RetryRawKeepsInv(s, env);
    } else if s.state == Ready && s.token.Some? && s.sourceLock && s.targetLock {
      EntersRename(s, env);
      var checked := Reach(s, env.at(CheckSources)).plan;
      var found := Reach(checked, env.at(CheckTarget)).plan;
      var entered := Reach(found.(state := Applying), env.at(OpenForPublication));
      if StagingIsValid(checked) && entered.Go? && found.target.None? { PublishAndFinishKeepsInv(entered.plan, env); }
    }
  }

  /** The checks before the rename change nothing but what may appear at the target. */
  lemma EntersRename(s: Migration, env: Env)
    requires Inv(s) && Foreign(env, s.stagingIdentity) && !s.committed && s.state == Ready && s.token.Some?
    ensures
      var checked := Reach(s, env.at(CheckSources)).plan;
      var found := Reach(checked, env.at(CheckTarget)).plan;
      var entered := Reach(found.(state := Applying), env.at(OpenForPublication)).plan;
      && checked == s.(target := checked.target) && found == s.(target := found.target)
      && entered == s.(state := Applying, target := entered.target)
      && Inv(checked) && Inv(found) && (StagingIsValid(checked) ==> ReadyToRename(entered))
  {
    ReachKeeps(s, CheckSources, env);
    var checked := Reach(s, env.at(CheckSources)).plan;
    ReachKeeps(checked, CheckTarget, env);
    var found := Reach(checked, env.at(CheckTarget)).plan;
    ReachKeeps(found.(state := Applying), OpenForPublication, env);
  }

  lemma TryDiscardKeeps(s: Migration, env: Env)
    requires Foreign(env, s.stagingIdentity) && (s.transaction.Some? ==> Tidy(s.transaction.value))
    ensures SamePublication(s, TryDiscard(s, env).plan)
  {
    ReachKeeps(s, StopResolver, env);
    var stopped := Reach(s, env.at(StopResolver)).plan;
    CleanupKeeps(stopped, env, {});
    var cleaned := Cleanup(stopped, env, {});
    SamePublicationChains(s, stopped, cleaned.plan);
    RemoveEmptyKeeps(cleaned.plan, env);
    var removed := if cleaned.plan.transaction.Some? then RemoveEmptyRoot(cleaned.plan, env).plan else cleaned.plan;
    SamePublicationChains(s, cleaned.plan, removed);
    ReleaseKeeps(removed, env);
    SamePublicationChains(s, removed, ReleaseLocks(removed, env).plan);
  }

  lemma RemoveEmptyKeeps(s: Migration, env: Env)
    requires Foreign(env, s.stagingIdentity)
    ensures SamePublication(s, RemoveEmptyRoot(s, env).plan)
  {
    ReachKeeps(s, RemoveRoot, env);
  }

  lemma ReleaseKeeps(s: Migration, env: Env)
    ensures
      var t := ReleaseLocks(s, env).plan;
      SamePublication(s, t) && t == s.(sourceLock := t.sourceLock, targetLock := t.targetLock)
  {
  }

  lemma CallKeepsInv(s: Migration, call: Call)
    requires Inv(s) && Foreign(call.env, s.stagingIdentity)
    ensures Inv(Perform(s, call).plan) && Perform(s, call).plan.stagingIdentity == s.stagingIdentity
  {
    match call
    case PrepareCall(handoff, env) => PrepareKeepsInv(s, handoff, env);
    case ApplyCall(handoff, env) => ApplyKeepsInv(s, handoff, env);
    case RetryCall(handoff, env) =>
      ReachKeeps(s, BeginRetry, env);
      if Reach(s, env.at(BeginRetry)).Go? && s.committed { ApplyRawKeepsInv(s, env); }
    case DiscardCall(env) => DiscardKeepsInv(s, env);
  }

  lemma PrepareKeepsInv(s: Migration, handoff: nat, env: Env)
    requires Inv(s) && Foreign(env, s.stagingIdentity)
    ensures Inv(Prepare(s, handoff, env).plan) && Prepare(s, handoff, env).plan.stagingIdentity == s.stagingIdentity
  {
    ReachKeeps(s, ValidatePublication, env);
    var validated := Reach(s, env.at(ValidatePublication)).plan;
    if validated.Staging().Some? && validated.Staging().value.Directory? {
      var staging := validated.Staging().value;
      var prepared := validated.(
        token := Some(handoff), validatedMode := staging.mode, validated := staging.children, state := Ready);
      RecordKeeps(prepared, env.at(RecordPrepared));
    }
  }

  lemma ApplyKeepsInv(s: Migration, handoff: nat, env: Env)
    requires Inv(s) && Foreign(env, s.stagingIdentity)
    ensures Inv(Apply(s, handoff, env).plan) && Apply(s, handoff, env).plan.stagingIdentity == s.stagingIdentity
  {
    ApplyRawKeepsInv(s, env);
    var r := ApplyRaw(s, env);
    var failed := if r.plan.committed then r.plan else r.plan.(state := Failed);
    RecordKeeps(failed.(cleanupFailed := true), env.at(RecordApply));
  }

  lemma DiscardKeepsInv(s: Migration, env: Env)
    requires Inv(s) && Foreign(env, s.stagingIdentity)
    ensures Inv(Discard(s, env).plan) && Discard(s, env).plan.stagingIdentity == s.stagingIdentity
  {
    if s.publication == NotPublished && !s.committed {
      var discarding := s.(state := Discarding);
      TryDiscardKeeps(discarding, env);
      RecordKeeps(TryDiscard(discarding, env).plan.(state := Failed, cleanupFailed := true), env.at(RecordDiscard));
    }
  }

  lemma {:induction false} RunKeepsInv(s: Migration, calls: seq<Call>)
    requires Inv(s) && AllForeign(calls, s.stagingIdentity)
    ensures Inv(Run(s, calls)) && Run(s, calls).stagingIdentity == s.stagingIdentity
    decreases |calls|
  {
    if calls != [] {
      CallKeepsInv(s, calls[0]);
      RunKeepsInv(Perform(s, calls[0]).plan, calls[1..]);
    }
  }

  /**
   Whatever the rename did and reported: a target that holds the staged directory is never taken for
   unpublished, so it is never discarded; a committed plan has it; and it was renamed at most once.
   */
  lemma UncertainRenameIsReconciled(s: Migration, calls: seq<Call>, discard: Env)
    requires Fresh(s) && AllForeign(calls, s.stagingIdentity)
    ensures
      var t := Run(s, calls);
      && (t.Holds() ==> t.publication != NotPublished && Discard(t, discard) == Exc(t))
      && (t.committed ==>
            && t.target == Some(Directory(s.stagingIdentity, t.validatedMode, t.validated))
            && t.publication != NotPublished)
      && t.renames <= 1
  {
    RunKeepsInv(s, calls);
  }

  // ----- Convergence of the cleanup -----

  ghost predicate HasDiagnostic(s: Migration) {
    s.transaction.Some? && Lookup(s.transaction.value, DIAGNOSTIC) == Some(File)
  }

  ghost predicate Calm(env: Env) {
    (forall p: Point :: env.at(p) == Proceed) && env.deletions.None?
  }

  /** A committed plan whose cleanup failed. */
  ghost predicate AwaitsCleanup(s: Migration) {
    Inv(s) && s.committed && s.cleanupFailed
  }

  /** Everything in the transaction directory but the diagnostic can be deleted. */
  predicate Clearable(s: Migration) {
    s.transaction.Some? ==> Removable(s.transaction.value, OWNER, {DIAGNOSTIC})
  }

  lemma {:induction false} WithRemovable(children: seq<Entry>, entry: Entry, mode: Mode, preserve: set<string>)
    requires entry.name in preserve
    ensures Removable(With(children, entry), mode, preserve) <==> Removable(children, mode, preserve)
  {
    var more := With(children, entry);
    RemovableStep(more, mode, preserve);
    if children == [] || more == [entry] + children {
      assert more[1..] == children;
    } else {
      RemovableStep(children, mode, preserve);
      WithRemovable(children[1..], entry, mode, preserve);
      assert more[1..] == With(children[1..], entry);
    }
  }

  lemma RecordKeepsClearable(s: Migration, e: Event)
    ensures Clearable(Record(s, e)) <==> Clearable(s)
  {
    if s.transaction.Some? { WithRemovable(s.transaction.value, Entry(DIAGNOSTIC, File), OWNER, {DIAGNOSTIC}); }
  }

  /** The removal of a directory that cannot be emptied fails, and leaves one that cannot be emptied. */
  lemma RemovalStaysUnclearable(s: Migration, env: Env)
    requires s.transaction.Some? && Tidy(s.transaction.value) && !Clearable(s)
    ensures
      var r := RemoveTransaction(s, env);
      && r.Exc? && r.plan.transaction.Some? && !Clearable(r.plan)
      && r.plan == s.(transaction := r.plan.transaction, target := r.plan.target)
  {
    CleanupFrame(s, env, {DIAGNOSTIC});
    RemoveLeavesUnremovable(s.transaction.value, OWNER, {DIAGNOSTIC}, env.deletions);
    assert Cleanup(s, env, {DIAGNOSTIC}).Exc?;
  }

  /** So does the cleanup, unless it loses sight of the directory; the locks stay. */
  lemma FinishStaysUnclearable(s: Migration, env: Env)
    requires s.transaction.Some? && Tidy(s.transaction.value) && !Clearable(s)
    requires env.at(StatRoot).Raise? ==> env.at(MakeRecoveryRoot).Raise?
    ensures
      var t := Finish(s, env);
      && t.Exc? && t.plan.transaction.Some? && !Clearable(t.plan) && t.plan.cleanupFailed && t.plan.state == Failed
      && t.plan.sourceLock == s.sourceLock && t.plan.targetLock == s.targetLock
  {
    RemovalStaysUnclearable(s, env);
    var failed := RemoveTransaction(s, env).plan.(state := Failed, cleanupFailed := true);
    RecordKeepsClearable(failed, env.at(RecordRetained));
    assert Finish(s, env).plan in {failed, Record(failed, env.at(RecordRetained))};
  }

  /** A cleanup without faults is done exactly if the directory can be emptied. */
  lemma CalmFinish(s: Migration, env: Env)
    requires HasDiagnostic(s) && Tidy(s.transaction.value) && Calm(env) && Clearable(s)
    ensures Finish(s, env) == Go(s.(
              state := Applied, cleanupFailed := false, transaction := None, sourceLock := false, targetLock := false))
  {
    RemoveKeeps(s.transaction.value, OWNER, {DIAGNOSTIC}, None, DIAGNOSTIC);
    RemoveAll(s.transaction.value, OWNER, {DIAGNOSTIC});
    var rest := Remove(s.transaction.value, OWNER, {DIAGNOSTIC}, None).children;
    WithoutOnly(rest, DIAGNOSTIC);
  }

  /** A cleanup that is left waiting: nothing was let go, and nothing can be removed. */
  ghost predicate StillWaits(s: Migration, t: Migration) {
    && AwaitsCleanup(t) && !Clearable(t) && t.token == s.token
    && t.sourceLock == s.sourceLock && t.targetLock == s.targetLock
  }

  /**
   With its diagnostic, one retry without faults finishes exactly if the transaction directory can be emptied: target
   and rename count stay as they are.  Otherwise the plan waits as before.
   */
  lemma RetryConverges(s: Migration, env: Env)
    requires AwaitsCleanup(s) && HasDiagnostic(s) && Calm(env)
    ensures
      var r := Retry(s, s.token.value, env);
      && (r.Go? <==> Clearable(s))
      && (r.Go? ==>
            && r.plan.state == Applied && !r.plan.cleanupFailed
            && !r.plan.sourceLock && !r.plan.targetLock && r.plan.transaction.None?)
      && r.plan.target == s.target && r.plan.renames == s.renames && r.plan.abandoned == s.abandoned
      && (!r.Go? ==> StillWaits(s, r.plan))
  {
    if Clearable(s) { CalmFinish(s, env); } else { UnclearableRetry(s, env); }
    RetryIsFinish(s, env);
    CalmKeepsTrees(s, env);
  }

  lemma UnclearableRetry(s: Migration, env: Env)
    requires AwaitsCleanup(s) && !Clearable(s) && Calm(env)
    ensures Retry(s, s.token.value, env).Exc? && StillWaits(s, Retry(s, s.token.value, env).plan)
  {
    RetryIsFinish(s, env);
    FinishStaysUnclearable(s, env);
    FinishKeeps(s, env);
    RecordKeepsClearable(Finish(s, env).plan, Proceed);
    CallKeepsInv(s, RetryCall(s.token.value, env));
  }

  /** A cleanup that fails leaves a diagnostic behind, unless writing it failed too. */
  lemma FailedFinishKeepsDiagnostic(s: Migration, env: Env)
    requires Foreign(env, s.stagingIdentity) && (s.transaction.Some? ==> Tidy(s.transaction.value))
    requires !env.at(RecordRetained).Raise? && !env.at(MakeRecoveryRoot).Raise? && Finish(s, env).Exc?
    ensures HasDiagnostic(Finish(s, env).plan)
  {
    CleanupKeeps(s, env, {DIAGNOSTIC});
    RemoveRootKeeps(Cleanup(s, env, {DIAGNOSTIC}).plan, env);
    var removed := RemoveTransaction(s, env);
    var r := if removed.Go? then ReleaseLocks(removed.plan, env) else removed;
    RetainedHasDiagnostic(r.plan.(state := Failed, cleanupFailed := true), env);
  }

  lemma RetainedHasDiagnostic(s: Migration, env: Env)
    requires s.transaction.Some? ==> Tidy(s.transaction.value)
    requires !env.at(RecordRetained).Raise? && !env.at(MakeRecoveryRoot).Raise?
    ensures HasDiagnostic(RetainDiagnostic(s, env))
  {
    var made := s.(transaction := Some([]), recovery := true, abandoned := s.abandoned + Trees(s.transaction));
    RecordedHasDiagnostic(made, env.at(RecordRetained));
    if s.transaction.Some? { RecordedHasDiagnostic(s, env.at(RecordRetained)); }
  }

  lemma RecordedHasDiagnostic(s: Migration, e: Event)
    requires s.transaction.Some? && Tidy(s.transaction.value) && !e.Raise?
    ensures HasDiagnostic(Record(s, e))
  {
    TidyDiagnostic(s.transaction.value);
    if Lookup(s.transaction.value, DIAGNOSTIC).None? {
      WithInserts(s.transaction.value, Entry(DIAGNOSTIC, File), DIAGNOSTIC);
    }
  }

  /** Without its diagnostic, a second retry is enough, under the same condition. */
  lemma TwoRetriesConverge(s: Migration, env: Env)
    requires AwaitsCleanup(s) && Calm(env)
    ensures
      var first := Retry(s, s.token.value, env);
      var last := if first.Go? then first else Retry(first.plan, s.token.value, env);
      && (first.Exc? ==> AwaitsCleanup(first.plan) && first.plan.token == s.token)
      && (last.Go? <==> Clearable(s))
      && (last.Go? ==>
            && last.plan.state == Applied && !last.plan.cleanupFailed
            && !last.plan.sourceLock && !last.plan.targetLock && last.plan.transaction.None?)
      && last.plan.target == s.target && last.plan.renames == s.renames && last.plan.abandoned == s.abandoned
      && (!last.Go? ==> StillWaits(s, last.plan))
  {
    FirstRetry(s, env);
    var first := Retry(s, s.token.value, env);
    if first.Exc? { RetryConverges(first.plan, env); }
  }

  /** A first retry without faults: it finishes, or leaves the diagnostic and as much to be removed. */
  lemma FirstRetry(s: Migration, env: Env)
    requires AwaitsCleanup(s) && Calm(env)
    ensures
      var r := Retry(s, s.token.value, env);
      && r.plan.target == s.target && r.plan.renames == s.renames && r.plan.abandoned == s.abandoned
      && (r.Go? ==>
            && r.plan.state == Applied && !r.plan.cleanupFailed
            && !r.plan.sourceLock && !r.plan.targetLock && r.plan.transaction.None? && Clearable(s))
      && (!r.Go? ==>
            && r.Exc? && AwaitsCleanup(r.plan) && HasDiagnostic(r.plan) && r.plan.token == s.token
            && (Clearable(r.plan) <==> Clearable(s))
            && (!Clearable(s) ==> r.plan.sourceLock == s.sourceLock && r.plan.targetLock == s.targetLock))
  {
    RetryIsFinish(s, env);
    CalmKeepsTrees(s, env);
    FinishKeeps(s, env);
    var finished := Finish(s, env);
    if finished.Exc? {
      FailedFinishKeepsDiagnostic(s, env);
      CallKeepsInv(s, RetryCall(s.token.value, env));
      assert Record(finished.plan, Proceed) == finished.plan;
    }
    if Clearable(s) { CalmStaysClearable(s, env); } else { UnclearableRetry(s, env); }
  }

  /** What a cleanup without faults leaves of a directory that can be emptied can be emptied. */
  lemma CalmStaysClearable(s: Migration, env: Env)
    requires Calm(env) && Clearable(s) && (s.transaction.Some? ==> Tidy(s.transaction.value))
    ensures Clearable(Finish(s, env).plan)
  {
    if s.transaction.Some? { RemoveAll(s.transaction.value, OWNER, {DIAGNOSTIC}); }
    var cleaned := Cleanup(s, env, {DIAGNOSTIC}).plan;
    assert OnlyDiagnostic(cleaned.transaction);
    if cleaned.transaction.Some? { WithoutKeepsOnly(cleaned.transaction.value); }
    var removed := RemoveTransaction(s, env);
    assert OnlyDiagnostic(removed.plan.transaction);
    ReleaseKeeps(removed.plan, env);
    var r := if removed.Go? then ReleaseLocks(removed.plan, env) else removed;
    RetainKeepsOnly(r.plan.(state := Failed, cleanupFailed := true), env);
  }

  /** There is no directory, or nothing in it but the diagnostic. */
  predicate OnlyDiagnostic(transaction: Option<seq<Entry>>) {
    transaction.Some? ==> forall i :: 0 <= i < |transaction.value| ==> transaction.value[i].name == DIAGNOSTIC
  }

  lemma {:induction false} WithoutKeepsOnly(children: seq<Entry>)
    requires OnlyDiagnostic(Some(children))
    ensures OnlyDiagnostic(Some(Without(children, DIAGNOSTIC)))
  {
    if children != [] { WithoutKeepsOnly(children[1..]); }
  }

  lemma {:induction false} WithKeepsOnly(children: seq<Entry>, entry: Entry)
    requires OnlyDiagnostic(Some(children)) && entry.name == DIAGNOSTIC
    ensures OnlyDiagnostic(Some(With(children, entry)))
  {
    if children != [] { WithKeepsOnly(children[1..], entry); }
  }

  lemma RecordKeepsOnly(s: Migration, e: Event)
    requires OnlyDiagnostic(s.transaction)
    ensures OnlyDiagnostic(Record(s, e).transaction)
  {
    if s.transaction.Some? { WithKeepsOnly(s.transaction.value, Entry(DIAGNOSTIC, File)); }
  }

  lemma RetainKeepsOnly(s: Migration, env: Env)
    requires OnlyDiagnostic(s.transaction)
    ensures OnlyDiagnostic(RetainDiagnostic(s, env).transaction)
  {
    RecordKeepsOnly(s, env.at(RecordRetained));
    var made := s.(transaction := Some([]), recovery := true, abandoned := s.abandoned + Trees(s.transaction));
    RecordKeepsOnly(made, env.at(RecordRetained));
  }

  /** A retry that comes to the cleanup is the cleanup, and its failure is recorded once more. */
  lemma RetryIsFinish(s: Migration, env: Env)
    requires AwaitsCleanup(s) && forall p :: p in {BeginRetry, RetryCheckpoint, VerifySnapshot, RecordRetry} ==>
             env.at(p) == Proceed
    ensures
      var finished := Finish(s, env);
      Retry(s, s.token.value, env) == if finished.Go? then finished else Exc(Record(finished.plan, Proceed))
  {
    assert env.at(BeginRetry) == env.at(RetryCheckpoint) == env.at(VerifySnapshot) == env.at(RecordRetry) == Proceed;
    assert Reach(s, Proceed) == Go(s) && s.MatchesValidated();
    assert Finish(s, env).Exc? ==> Finish(s, env).plan == Finish(s, env).plan.(state := Failed, cleanupFailed := true);
  }

  /** Cleanup without faults abandons nothing, and when it ends well the directory and the locks are gone. */
  lemma CalmKeepsTrees(s: Migration, env: Env)
    requires Calm(env)
    ensures
      var r := Finish(s, env);
      && r.plan.abandoned == s.abandoned && r.plan.target == s.target && r.plan.renames == s.renames
      && (r.Go? ==>
            && r.plan.state == Applied && !r.plan.cleanupFailed
            && !r.plan.sourceLock && !r.plan.targetLock && r.plan.transaction.None?)
  {
    RemoveTransactionFrame(s, env);
    ReleaseKeeps(RemoveTransaction(s, env).plan, env);
  }

  // ----- Locks outlive the transaction directory -----

  /** Cleanup lets go of a lock only once the transaction directory is gone. */
  lemma FinishReleasesLast(s: Migration, env: Env)
    ensures
      var t := Finish(s, env).plan;
      (t.sourceLock != s.sourceLock || t.targetLock != s.targetLock) ==>
        && RemoveTransaction(s, env).Go? && RemoveTransaction(s, env).plan.transaction.None?
  {
    RemoveTransactionFrame(s, env);
    ReleaseKeeps(RemoveTransaction(s, env).plan, env);
  }

  /** Only the directory is touched, and the target by what appears there. */
  ghost predicate OnlyTransaction(s: Migration, t: Migration, env: Env) {
    && t == s.(transaction := t.transaction, target := t.target)
    && (s.target.Some? || (forall p: Point :: !env.at(p).Appear?) ==> t.target == s.target)
  }

  lemma CleanupFrame(s: Migration, env: Env, preserve: set<string>)
    ensures OnlyTransaction(s, Cleanup(s, env, preserve).plan, env) && !Cleanup(s, env, preserve).Dead?
  {
  }

  lemma RemoveRootFrame(s: Migration, env: Env)
    ensures
      var r := RemoveDiagnosticAndRoot(s, env);
      OnlyTransaction(s, r.plan, env) && !r.Dead? && (r.Go? ==> r.plan.transaction.None?)
  {
  }

  lemma RemoveTransactionFrame(s: Migration, env: Env)
    ensures
      var r := RemoveTransaction(s, env);
      OnlyTransaction(s, r.plan, env) && !r.Dead? && (r.Go? ==> r.plan.transaction.None?)
  {
    CleanupFrame(s, env, {DIAGNOSTIC});
    RemoveRootFrame(Cleanup(s, env, {DIAGNOSTIC}).plan, env);
  }

  /** The same for discarding. */
  lemma DiscardReleasesLast(s: Migration, env: Env)
    ensures
      var t := Discard(s, env).plan;
      (t.sourceLock != s.sourceLock || t.targetLock != s.targetLock) ==> t.transaction.None?
  {
    CleanupFrame(Reach(s.(state := Discarding), env.at(StopResolver)).plan, env, {});
  }

  // ----- Discarding -----

  ghost predicate CanDiscard(s: Migration) {
    Inv(s) && s.publication == NotPublished && !s.committed && s.state !in {Applied, Applying, Discarded}
  }

  /** A discard without faults is done exactly if everything in the transaction directory can be deleted. */
  lemma DiscardConvergesExactlyWhen(s: Migration, env: Env)
    requires CanDiscard(s) && Calm(env)
    ensures
      var r := Discard(s, env);
      && (r.Go? <==> (s.transaction.Some? ==> Removable(s.transaction.value, OWNER, {})))
      && (r.Go? ==>
            && r.plan.state == Discarded && !r.plan.cleanupFailed && r.plan.transaction.None?
            && !r.plan.sourceLock && !r.plan.targetLock)
      && (!r.Go? ==>
            && CanDiscard(r.plan) && r.plan.state == Failed && r.plan.cleanupFailed && HasDiagnostic(r.plan)
            && r.plan.sourceLock == s.sourceLock && r.plan.targetLock == s.targetLock)
  {
    CallKeepsInv(s, DiscardCall(env));
    var discarding := s.(state := Discarding);
    CalmEmptying(discarding, env);
    TryDiscardKeeps(discarding, env);
    var r := TryDiscard(discarding, env);
    if !r.Go? { RecordedHasDiagnostic(r.plan.(state := Failed, cleanupFailed := true), env.at(RecordDiscard)); }
  }

  lemma CalmEmptying(s: Migration, env: Env)
    requires Calm(env) && (s.transaction.Some? ==> Tidy(s.transaction.value))
    ensures
      var r := TryDiscard(s, env);
      && !r.Dead? && r.plan.publication == s.publication && r.plan.committed == s.committed
      && (r.Go? <==> (s.transaction.Some? ==> Removable(s.transaction.value, OWNER, {})))
      && (r.Go? ==> r.plan.transaction.None? && !r.plan.sourceLock && !r.plan.targetLock)
      && (!r.Go? ==>
            r.plan.transaction.Some? && r.plan.sourceLock == s.sourceLock && r.plan.targetLock == s.targetLock)
  {
    CleanupFrame(s, env, {});
    if s.transaction.Some? {
      RemoveAll(s.transaction.value, OWNER, {});
    }
  }
}
