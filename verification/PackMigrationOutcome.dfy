/** When the publication of a copied Pack commits, and what it leaves when it succeeds. */
module PackMigrationOutcome {
  import opened Common
  import opened Ordering
  import opened PackMigration
  import opened Permissions
  import opened PackMigrationProofs
  import opened PackMigrationLocks

  // ----- The transaction directory without the staged Pack -----

  /** Everything in the transaction directory but the diagnostic and the staged Pack can be deleted. */
  predicate RestClearable(children: seq<Entry>) {
    Removable(children, OWNER, {DIAGNOSTIC, STAGING})
  }

  lemma {:induction false} WithoutRemovable(children: seq<Entry>, mode: Mode)
    ensures Removable(Without(children, STAGING), mode, {DIAGNOSTIC}) <==>
            Removable(children, mode, {DIAGNOSTIC, STAGING})
  {
    if children != [] {
      WithoutRemovable(children[1..], mode);
      RemovableStep(children, mode, {DIAGNOSTIC, STAGING});
      var rest := Without(children, STAGING);
      if children[0].name != STAGING {
        RemovableStep(rest, mode, {DIAGNOSTIC});
        assert rest[1..] == Without(children[1..], STAGING);
      }
    }
  }

  lemma {:induction false} WithoutKeepsOthers(children: seq<Entry>, name: string, other: string)
    requires other != name
    ensures Lookup(Without(children, name), other) == Lookup(children, other)
  {
    if children != [] { WithoutKeepsOthers(children[1..], name, other); }
  }

  // ----- Removal with a number of deletions -----

  /** How many deletions it takes to remove the entries that are not preserved, and all that is in them. */
  function Deletions(children: seq<Entry>, preserve: set<string>): nat {
    if children == [] then 0
    else
      (if children[0].name in preserve then 0 else NodeDeletions(children[0].node))
      + Deletions(children[1..], preserve)
  }

  function NodeDeletions(node: Node): nat {
    1 + if node.Directory? then Deletions(node.children, {}) else 0
  }

  predicate Allows(deletions: Option<nat>, n: nat) { deletions.Some? ==> n <= deletions.value }

  function SpendAll(deletions: Option<nat>, n: nat): Option<nat>
    requires Allows(deletions, n)
  {
    if deletions.Some? then Some(deletions.value - n) else None
  }

  /**
   A removal that is interrupted after some deletions finishes exactly if the entries can all be deleted and that many
   deletions are enough; it uses no more than it needs.
   */
  lemma {:induction false} RemoveFinishesExactlyWhen(
    children: seq<Entry>, mode: Mode, preserve: set<string>, deletions: Option<nat>)
    requires Ordinary(children)
    ensures
      var r := Remove(children, mode, preserve, deletions);
      && (r.finished <==> Removable(children, mode, preserve) && Allows(deletions, Deletions(children, preserve)))
      && (r.finished ==> r.deletions == SpendAll(deletions, Deletions(children, preserve)))
      && (r.finished ==> forall i :: 0 <= i < |r.children| ==> r.children[i].name in preserve)
    decreases children
  {
    if children != [] {
      var entry, rest := children[0], children[1..];
      assert OrdinaryNode(entry.node) && Ordinary(rest);
      RemovableStep(children, mode, preserve);
      if entry.name in preserve {
        RemoveFinishesExactlyWhen(rest, mode, preserve, deletions);
      } else if deletions != Some(0) {
        if entry.node.File? {
          RemoveFinishesExactlyWhen(rest, mode, preserve, Spend(deletions));
        } else {
          RemoveFinishesExactlyWhen(entry.node.children, entry.node.mode, {}, deletions);
          var inner := Remove(entry.node.children, entry.node.mode, {}, deletions);
          if inner.finished && inner.deletions != Some(0) {
            RemoveFinishesExactlyWhen(rest, mode, preserve, Spend(inner.deletions));
          }
        }
      }
    }
  }

  /** What cannot be listed, or is neither file nor directory, stays, and stops the removal. */
  lemma UnlistableStays(entry: Entry, rest: seq<Entry>, mode: Mode, preserve: set<string>, deletions: Option<nat>)
    requires entry.name !in preserve
    requires entry.node.Special? || (entry.node.Directory? && !OwnerReads(entry.node.mode))
    ensures Remove([entry] + rest, mode, preserve, deletions) == Removal([entry] + rest, deletions, false)
  {
    assert ([entry] + rest)[0] == entry;
  }

  lemma {:induction false} WithoutDeletions(children: seq<Entry>)
    ensures Deletions(Without(children, STAGING), {DIAGNOSTIC}) == Deletions(children, {DIAGNOSTIC, STAGING})
  {
    if children != [] { WithoutDeletions(children[1..]); }
  }

  // ----- The cleanup -----

  ghost predicate NothingAppears(env: Env) {
    forall p: Point :: !env.at(p).Appear?
  }

  lemma ReachesQuietly(s: Migration, p: Point, env: Env)
    requires NothingAppears(env)
    ensures Reach(s, env.at(p)) == if env.at(p).Raise? then Exc(s) else Go(s)
  {
  }

  /** Nothing stops the cleanup, which takes some deletions, nor the release of the locks. */
  ghost predicate CleanupGoesOn(deletions: nat, env: Env) {
    && !env.at(BeginCleanup).Raise? && Allows(env.deletions, deletions)
    && !env.at(UnlinkDiagnostic).Raise? && !env.at(RemoveRoot).Raise? && !env.at(SyncParent).Raise?
    && !env.at(ReleaseTarget).Raise? && !env.at(ReleaseSource).Raise?
  }

  /** The plan without its transaction directory and its locks. */
  function Finished(s: Migration): Migration {
    s.(state := Applied, cleanupFailed := false, transaction := None, sourceLock := false, targetLock := false)
  }

  lemma CleanupLeaves(s: Migration, env: Env)
    requires s.transaction.Some? && Tidy(s.transaction.value) && NothingAppears(env)
    ensures
      var r := Cleanup(s, env, {DIAGNOSTIC});
      && (r.Go? <==> !env.at(BeginCleanup).Raise? && Clearable(s)
                     && Allows(env.deletions, Deletions(s.transaction.value, {DIAGNOSTIC})))
      && r.plan == s.(transaction := r.plan.transaction) && r.plan.transaction.Some?
      && (HasDiagnostic(r.plan) <==> HasDiagnostic(s))
      && (r.Go? ==> Without(r.plan.transaction.value, DIAGNOSTIC) == [])
  {
    var children := s.transaction.value;
    RemoveFinishesExactlyWhen(children, OWNER, {DIAGNOSTIC}, env.deletions);
    RemoveKeeps(children, OWNER, {DIAGNOSTIC}, env.deletions, DIAGNOSTIC);
    var r := Remove(children, OWNER, {DIAGNOSTIC}, env.deletions);
    if r.finished { WithoutOnly(r.children, DIAGNOSTIC); }
    CleanupRemoves(s, env);
  }

  lemma CleanupRemoves(s: Migration, env: Env)
    requires s.transaction.Some? && Ordinary(s.transaction.value) && NothingAppears(env)
    ensures
      var r := Remove(s.transaction.value, OWNER, {DIAGNOSTIC}, env.deletions);
      var left := s.(transaction := Some(r.children));
      Cleanup(s, env, {DIAGNOSTIC}) ==
      if env.at(BeginCleanup).Raise? then Exc(s) else if r.finished then Go(left) else Exc(left)
  {
    ReachesQuietly(s, BeginCleanup, env);
  }

  lemma RootGoesExactlyWhen(s: Migration, env: Env)
    requires s.transaction.Some? && Without(s.transaction.value, DIAGNOSTIC) == [] && NothingAppears(env)
    ensures
      var r := RemoveDiagnosticAndRoot(s, env);
      && (r.Go? <==> HasDiagnostic(s) && !env.at(UnlinkDiagnostic).Raise? && !env.at(RemoveRoot).Raise?
                     && !env.at(SyncParent).Raise?)
      && (r.Go? ==> r.plan == s.(transaction := None))
  {
  }

  /**
   A cleanup ends well exactly if the directory has its diagnostic and can be emptied, nothing stops that, and both
   locks can be released.
   */
  lemma FinishesExactlyWhen(s: Migration, env: Env)
    requires s.transaction.Some? && Tidy(s.transaction.value) && s.sourceLock && s.targetLock && NothingAppears(env)
    ensures
      var r := Finish(s, env);
      && (r.Go? <==>
            && HasDiagnostic(s) && Clearable(s)
            && CleanupGoesOn(Deletions(s.transaction.value, {DIAGNOSTIC}), env))
      && (r.Go? ==> r.plan == Finished(s)) && !r.Dead?
  {
    CleanupLeaves(s, env);
    var cleaned := Cleanup(s, env, {DIAGNOSTIC});
    if cleaned.Go? { RootGoesExactlyWhen(cleaned.plan, env); }
  }

  // ----- The commit -----

  /** A prepared plan, with the staged Pack in its transaction and nothing at the target. */
  ghost predicate ReadyToPublish(s: Migration, handoff: nat) {
    && s.state == Ready && s.token == Some(handoff) && !s.committed && s.publication == NotPublished
    && s.sourceLock && s.targetLock && s.target.None? && s.transaction.Some? && Tidy(s.transaction.value)
    && StagingIsValid(s)
  }

  /** Nothing stops the rename, or it takes effect and is recognised afterwards. */
  ghost predicate RenameGoesOn(s: Migration, env: Env) {
    && !env.at(LastCheckpoint).Raise? && OwnerWrites(s.validatedMode) && !env.rename.Fails?
    && (env.rename.RenamesAndRaises? ==> !env.at(StatTarget).Raise? && !env.at(StatStaging).Raise?)
    && !env.at(StatPublished).Raise?
  }

  ghost predicate CommitGoesOn(s: Migration, env: Env) {
    && !env.at(CheckSources).Raise? && !env.at(CheckTarget).Raise? && !env.at(OpenForPublication).Raise?
    && RenameGoesOn(s, env)
  }

  /** The plan after a rename that took effect. */
  function Renamed(s: Migration): Migration
    requires s.transaction.Some?
  {
    s.(publication := Uncertain, renames := s.renames + 1, target := s.Staging(),
       transaction := Some(Without(s.transaction.value, STAGING)))
  }

  lemma AttemptRenames(s: Migration, env: Env)
    requires s.target.None? && s.transaction.Some? && StagingIsValid(s) && NothingAppears(env)
    ensures
      var r := AttemptRename(s, env);
      var took := !env.at(LastCheckpoint).Raise? && OwnerWrites(s.validatedMode) && !env.rename.Fails?;
      && (took ==> r == if env.rename.Renames? then Go(Renamed(s)) else Exc(Renamed(s)))
      && (!took ==> r.Exc? && r.plan.Staging() == s.Staging() && r.plan.target.None? && r.plan.committed == s.committed)
      && (took ==> r.plan.Staging().None? && r.plan.Holds())
  {
    WithoutRemoves(s.transaction.value, STAGING);
  }

  /** A rename that took effect and raised is recognised if both names can be looked at. */
  lemma RecognisesRename(s: Migration, env: Env)
    requires s.target.Some? && s.Holds() && s.Staging().None? && NothingAppears(env)
    ensures Reconcile(s, env) == if env.at(StatTarget).Raise? || env.at(StatStaging).Raise? then Exc(s)
            else Go(s.(publication := Published))
  {
    ReachesQuietly(s, StatTarget, env);
    ReachesQuietly(s, StatStaging, env);
  }

  lemma RecognisesFailure(s: Migration, env: Env)
    requires s.target.None? && s.Staging().Some? && NothingAppears(env)
    ensures Reconcile(s, env).Exc? && Reconcile(s, env).plan.committed == s.committed
  {
    ReachesQuietly(s, StatTarget, env);
    ReachesQuietly(s, StatStaging, env);
  }

  lemma CommitsHeld(s: Migration, env: Env)
    requires s.Holds() && NothingAppears(env)
    ensures Commit(s, env) ==
            if env.at(StatPublished).Raise? then Exc(s)
            else if env.at(SetPublished).Raise? then Exc(s.(committed := true))
            else Go(s.(committed := true, publication := Published))
  {
    ReachesQuietly(s, StatPublished, env);
    ReachesQuietly(s.(committed := true), SetPublished, env);
  }

  lemma PublishesExactlyWhen(s: Migration, env: Env)
    requires s.target.None? && s.transaction.Some? && StagingIsValid(s) && NothingAppears(env) && !s.committed
    ensures
      var r := PublishTarget(s, env);
      && (r.plan.committed <==> RenameGoesOn(s, env))
      && (r.Go? <==> RenameGoesOn(s, env) && !env.at(SetPublished).Raise?) && !r.Dead?
      && (r.Go? ==> r.plan == Entered(s).(state := s.state))
      && (r.plan.committed ==> r.plan.target == s.Staging() && r.plan.renames == s.renames + 1)
  {
    AttemptRenames(s, env);
    var attempt := AttemptRename(s, env);
    if !env.at(LastCheckpoint).Raise? && OwnerWrites(s.validatedMode) && !env.rename.Fails? {
      var renamed := Renamed(s);
      RecognisesRename(renamed, env);
      CommitsHeld(renamed, env);
      CommitsHeld(renamed.(publication := Published), env);
      assert renamed.(committed := true, publication := Published) == Entered(s).(state := s.state);
    } else {
      RecognisesFailure(attempt.plan, env);
    }
  }

  lemma AppearsNowhere(env: Env, identity: nat)
    requires NothingAppears(env)
    ensures Foreign(env, identity)
  {
  }

  /** What follows the commit cannot revoke it. */
  lemma FinishingKeepsCommit(s: Migration, env: Env)
    requires NothingAppears(env) && s.committed && s.target.Some? && (s.transaction.Some? ==> Tidy(s.transaction.value))
    ensures
      var t := VerifyAndFinish(s, env);
      t.plan.committed && t.plan.target == s.target && t.plan.renames == s.renames && !t.Dead?
  {
    AppearsNowhere(env, s.stagingIdentity);
    VerifyKeeps(s, env);
    RemoveTransactionFrame(s, env);
  }

  lemma PublishAndFinishExactlyWhen(s: Migration, env: Env)
    requires s.target.None? && s.transaction.Some? && Tidy(s.transaction.value) && StagingIsValid(s) && !s.committed
    requires NothingAppears(env) && s.token.Some? && s.sourceLock && s.targetLock
    ensures
      var r := PublishAndFinish(s, env);
      && (r.plan.committed <==> RenameGoesOn(s, env)) && !r.Dead?
      && (r.plan.committed ==> r.plan.target == s.Staging() && r.plan.renames == s.renames + 1)
      && (r.Go? <==>
            && RenameGoesOn(s, env) && !env.at(SetPublished).Raise? && !env.at(VerifySnapshot).Raise?
            && Finish(Entered(s).(state := s.state), env).Go?)
      && (r.Go? ==> r.plan == Finished(Entered(s)))
  {
    PublishesExactlyWhen(s, env);
    var published := PublishTarget(s, env);
    RecordKeeps(published.plan.(state := Failed), env.at(RecordPublication));
    if published.Go? {
      WithoutRemoves(s.transaction.value, STAGING);
      FinishingKeepsCommit(published.plan, env);
      FinishesExactlyWhen(published.plan, env);
      var r := VerifyAndFinish(published.plan, env);
      RecordKeeps(r.plan.(state := Failed, cleanupFailed := true), env.at(RecordOutcome));
    }
  }

  // ----- The call -----

  /**
   For every prepared plan, every fault of the rename and every interruption: apply commits exactly if nothing stops it
   before the commit and the staged Pack may be moved, and returns exactly if the cleanup ends well too.
   */
  lemma AppliesExactlyWhen(s: Migration, handoff: nat, env: Env)
    requires ReadyToPublish(s, handoff) && NothingAppears(env)
    ensures
      var r := Apply(s, handoff, env);
      && (r.plan.committed <==> CommitGoesOn(s, env))
      && (r.plan.committed ==>
            r.plan.target == Some(Directory(s.stagingIdentity, s.validatedMode, s.validated))
            && r.plan.renames == s.renames + 1)
      && (!r.plan.committed ==> r.plan.state == Failed && r.plan.sourceLock && r.plan.targetLock)
      && (r.Go? <==>
            && CommitGoesOn(s, env) && !env.at(SetPublished).Raise? && !env.at(VerifySnapshot).Raise?
            && HasDiagnostic(s) && RestClearable(s.transaction.value)
            && CleanupGoesOn(Deletions(s.transaction.value, {DIAGNOSTIC, STAGING}), env))
      && (r.Go? ==> r.plan == Finished(Entered(s)))
  {
    var applying := s.(state := Applying);
    PublishAndFinishExactlyWhen(applying, env);
    EnteredFinishesExactlyWhen(applying, env);
    assert Entered(applying) == Entered(s);
    AppliesRaw(s, env);
    AppliesAsRaw(s, handoff, env);
    ApplyHolds(s, handoff, env);
  }

  lemma AppliesRaw(s: Migration, env: Env)
    requires s.state == Ready && s.token.Some? && !s.committed && s.sourceLock && s.targetLock && s.target.None?
    requires StagingIsValid(s) && NothingAppears(env)
    ensures
      var r := ApplyRaw(s, env);
      if env.at(CheckSources).Raise? || env.at(CheckTarget).Raise? || env.at(OpenForPublication).Raise?
      then r.Exc? && !r.plan.committed
      else r == PublishAndFinish(s.(state := Applying), env)
  {
    ReachesQuietly(s, CheckSources, env);
    ReachesQuietly(s, CheckTarget, env);
    ReachesQuietly(s.(state := Applying), OpenForPublication, env);
    var applying := s.(state := Applying);
    var r := PublishAndFinish(applying, env);
    assert env.at(CheckSources).Raise? || env.at(CheckTarget).Raise? || env.at(OpenForPublication).Raise? ||
        ApplyRaw(s, env) == r;
  }

  lemma AppliesAsRaw(s: Migration, handoff: nat, env: Env)
    requires s.state == Ready && s.token == Some(handoff) && !s.committed && !ApplyRaw(s, env).Dead?
    ensures
      var r, raw := Apply(s, handoff, env), ApplyRaw(s, env);
      && (raw.Go? ==> r == raw) && (raw.Exc? ==> r.Exc?)
      && r.plan.committed == raw.plan.committed && r.plan.target == raw.plan.target
      && r.plan.renames == raw.plan.renames && (raw.Exc? && !raw.plan.committed ==> r.plan.state == Failed)
  {
    var raw := ApplyRaw(s, env);
    var failed := if raw.plan.committed then raw.plan else raw.plan.(state := Failed);
    RecordKeeps(failed.(cleanupFailed := true), env.at(RecordApply));
  }

  lemma EnteredFinishesExactlyWhen(s: Migration, env: Env)
    requires s.transaction.Some? && Tidy(s.transaction.value) && s.sourceLock && s.targetLock && NothingAppears(env)
    ensures Finish(Entered(s).(state := s.state), env).Go? <==>
              && HasDiagnostic(s) && RestClearable(s.transaction.value)
              && CleanupGoesOn(Deletions(s.transaction.value, {DIAGNOSTIC, STAGING}), env)
  {
    var entered := Entered(s).(state := s.state);
    WithoutRemoves(s.transaction.value, STAGING);
    FinishesExactlyWhen(entered, env);
    WithoutRemovable(s.transaction.value, OWNER);
    WithoutDeletions(s.transaction.value);
    assert DIAGNOSTIC != STAGING by { assert DIAGNOSTIC[0] != STAGING[0]; }
    WithoutKeepsOthers(s.transaction.value, STAGING, DIAGNOSTIC);
  }

  /** Published and cleaned up: nothing is held, and nothing is left behind. */
  ghost predicate Succeeded(s: Migration, t: Migration) {
    && t.state == Applied && t.publication == Published && t.committed && !t.cleanupFailed
    && t.target == s.Staging() && t.renames == 1
    && !t.sourceLock && !t.targetLock && t.transaction.None? && !t.recovery && t.abandoned == []
  }

  /**
   Prepare and apply without a fault, from a plan whose staged Pack waits in its transaction: they succeed exactly if
   the owner may write the staged directory, and everything else in the transaction but the diagnostic can be deleted.
   */
  lemma PublicationSucceedsExactlyWhen(s: Migration, handoff: nat, calm: Env)
    requires Fresh(s) && s.Staging().Some? && IdentityOf(s.Staging().value) == Some(s.stagingIdentity)
    requires Calm(calm) && calm.rename.Renames?
    ensures
      var prepared := Prepare(s, handoff, calm);
      var r := Apply(prepared.plan, handoff, calm);
      && prepared.Go?
      && (r.Go? <==> OwnerWrites(s.Staging().value.mode) && RestClearable(s.transaction.value))
      && (r.Go? ==> Succeeded(s, r.plan))
      && (r.plan.committed <==> OwnerWrites(s.Staging().value.mode))
  {
    var prepared := Prepared(s, handoff);
    PreparedIsReady(s, handoff, calm);
    PreparedKeepsRest(s, handoff);
    AppliesExactlyWhen(prepared, handoff, calm);
  }

  lemma PreparedKeepsRest(s: Migration, handoff: nat)
    requires s.transaction.Some? && Tidy(s.transaction.value) && s.Staging().Some? && s.Staging().value.Directory?
    ensures
      var prepared := Prepared(s, handoff);
      && HasDiagnostic(prepared) && prepared.Staging() == s.Staging()
      && (RestClearable(prepared.transaction.value) <==> RestClearable(s.transaction.value))
  {
    var staging := s.Staging().value;
    var taken := s.(
      token := Some(handoff), validatedMode := staging.mode, validated := staging.children, state := Ready);
    RecordedHasDiagnostic(taken, Proceed);
    assert DIAGNOSTIC != STAGING by { assert DIAGNOSTIC[0] != STAGING[0]; }
    if Lookup(s.transaction.value, DIAGNOSTIC).None? {
      WithInserts(s.transaction.value, Entry(DIAGNOSTIC, File), STAGING);
      WithRemovable(s.transaction.value, Entry(DIAGNOSTIC, File), OWNER, {DIAGNOSTIC, STAGING});
    }
  }

  // ----- Preparing -----

  /**
   A plan is prepared exactly if it is resolved, its validation does not raise, its staged Pack is the directory that
   was staged, nothing is at the target, and both locks are held; otherwise nothing is changed.
   */
  lemma PreparesExactlyWhen(s: Migration, handoff: nat, env: Env)
    requires NothingAppears(env)
    ensures
      var r := Prepare(s, handoff, env);
      && (r.Go? <==>
            && s.state == Resolved && !env.at(ValidatePublication).Raise?
            && s.Staging().Some? && s.Staging().value.Directory?
            && s.Staging().value.identity == s.stagingIdentity
            && s.target.None? && s.sourceLock && s.targetLock)
      && (r.Go? ==>
            && r.plan.state == Ready && r.plan.token == Some(handoff)
            && s.Staging() == Some(Directory(s.stagingIdentity, r.plan.validatedMode, r.plan.validated)))
      && (!r.Go? ==> r == Exc(s))
  {
    ReachesQuietly(s, ValidatePublication, env);
  }

  /** What appears at the target before the check keeps the plan from being prepared. */
  lemma AppearingTargetIsRefused(s: Migration, handoff: nat, env: Env, node: Node)
    requires env.at(ValidatePublication) == Appear(node)
    ensures Prepare(s, handoff, env).Exc?
  {
  }

  /** A handoff is issued at most once: a plan that was prepared cannot be prepared again, whatever is called. */
  lemma {:induction false} PreparedOnce(s: Migration, calls: seq<Call>, handoff: nat, env: Env)
    requires Inv(s) && AllForeign(calls, s.stagingIdentity) && s.state != Resolved
    ensures Prepare(Run(s, calls), handoff, env) == Exc(Run(s, calls))
    ensures Run(s, calls).state != Resolved && Run(s, calls).token == s.token
    decreases |calls|
  {
    if calls != [] {
      CallKeepsInv(s, calls[0]);
      CallKeepsToken(s, calls[0]);
      PreparedOnce(Perform(s, calls[0]).plan, calls[1..], handoff, env);
    }
  }

  lemma CallKeepsToken(s: Migration, call: Call)
    requires Inv(s) && Foreign(call.env, s.stagingIdentity) && s.state != Resolved
    ensures Perform(s, call).plan.state != Resolved && Perform(s, call).plan.token == s.token
  {
    match call {
      case PrepareCall(_, _) =>
      case ApplyCall(_, env) => RawKeepsToken(s, env);
      case RetryCall(_, env) =>
        ReachKeeps(s, BeginRetry, env);
        RawKeepsToken(Reach(s, env.at(BeginRetry)).plan, env);
      case DiscardCall(env) =>
        var discarding := s.(state := Discarding);
        TryDiscardKeeps(discarding, env);
        TryDiscardHolds(discarding, env);
    }
  }

  lemma RawKeepsToken(s: Migration, env: Env)
    requires Inv(s) && Foreign(env, s.stagingIdentity) && s.state != Resolved
    ensures ApplyRaw(s, env).plan.state != Resolved && ApplyRaw(s, env).plan.token == s.token
  {
    if s.committed {
      RetryRawKeepsInv(s, env);
      VerifyKeeps(Reach(s, env.at(RetryCheckpoint)).plan, env);
    } else if s.state == Ready && s.token.Some? && s.sourceLock && s.targetLock {
      EntersRename(s, env);
      var checked := Reach(s, env.at(CheckSources)).plan;
      var found := Reach(checked, env.at(CheckTarget)).plan;
      var entered := Reach(found.(state := Applying), env.at(OpenForPublication));
      if StagingIsValid(checked) && entered.Go? && found.target.None? {
        PublishKeepsInv(entered.plan, env);
        var published := PublishTarget(entered.plan, env);
        if published.Go? { VerifyKeeps(published.plan, env); }
      }
    }
  }

  // ----- Guards -----

  /** A call that does not fit the plan raises or returns at once, and changes nothing. */
  lemma MisplacedCallsChangeNothing(s: Migration, handoff: nat, env: Env)
    ensures s.token != Some(handoff) || s.committed || s.state == Applied ==> Apply(s, handoff, env) == Exc(s)
    ensures s.token != Some(handoff) || !s.committed || !s.cleanupFailed ==> Retry(s, handoff, env) == Exc(s)
    ensures s.publication != NotPublished || s.committed || s.state in {Applied, Applying} ==> Discard(s, env) == Exc(s)
    ensures s.publication == NotPublished && !s.committed && s.state == Discarded ==> Discard(s, env) == Go(s)
  {
  }

  // ----- The diagnostic -----

  /** The diagnostic is in the directory afterwards exactly if it was, or there is a directory and it is written. */
  lemma DiagnosticIs(s: Migration, e: Event, name: string)
    ensures
      var t := Record(s, e);
      && t == s.(transaction := t.transaction) && (t.transaction.Some? <==> s.transaction.Some?)
      && (s.transaction.Some? ==>
            && (Lookup(t.transaction.value, DIAGNOSTIC).Some? <==>
                  Lookup(s.transaction.value, DIAGNOSTIC).Some? || !e.Raise?)
            && (name != DIAGNOSTIC ==> Lookup(t.transaction.value, name) == Lookup(s.transaction.value, name)))
  {
    if s.transaction.Some? && Lookup(s.transaction.value, DIAGNOSTIC).None? {
      WithInserts(s.transaction.value, Entry(DIAGNOSTIC, File), DIAGNOSTIC);
      WithInserts(s.transaction.value, Entry(DIAGNOSTIC, File), name);
    }
  }

  ghost predicate SortedNames(children: seq<Entry>) {
    forall i, j :: 0 <= i < j < |children| ==> Less(children[i].name, children[j].name)
  }

  lemma {:induction false} WithNames(children: seq<Entry>, entry: Entry)
    ensures forall e :: e in With(children, entry) ==> e == entry || e in children
  {
    if children != [] { WithNames(children[1..], entry); }
  }

  /** A new entry takes its place in name order. */
  lemma {:induction false} WithKeepsOrder(children: seq<Entry>, entry: Entry)
    requires SortedNames(children) && Lookup(children, entry.name).None?
    ensures SortedNames(With(children, entry))
  {
    if children != [] {
      LessIsTotal(entry.name, children[0].name);
      var more := With(children, entry);
      if Less(entry.name, children[0].name) {
        forall j | 0 < j < |more| ensures Less(entry.name, more[j].name) {
          if j > 1 { LessIsTransitive(entry.name, children[0].name, children[j - 1].name); }
        }
      } else {
        var rest := With(children[1..], entry);
        WithKeepsOrder(children[1..], entry);
        WithNames(children[1..], entry);
        forall j | 0 <= j < |rest| ensures Less(children[0].name, rest[j].name) {
          assert rest[j] in rest;
          if rest[j] != entry {
            var i :| 0 <= i < |children[1..]| && children[1..][i] == rest[j];
            assert children[i + 1] == rest[j];
          }
        }
      }
    }
  }

  // ----- The locks -----

  /** Once the transaction directory is gone, each lock is held on exactly if its own release raised. */
  lemma LocksAreReleasedEach(s: Migration, env: Env)
    requires RemoveTransaction(s, env).Go?
    ensures
      var t := Finish(s, env).plan;
      && (t.targetLock <==> s.targetLock && env.at(ReleaseTarget).Raise?)
      && (t.sourceLock <==> s.sourceLock && env.at(ReleaseSource).Raise?)
      && (Finish(s, env).Go? <==> !t.targetLock && !t.sourceLock)
  {
    RemoveTransactionFrame(s, env);
    var removed := RemoveTransaction(s, env).plan;
    RetainKeeps(ReleaseLocks(removed, env).plan.(state := Failed, cleanupFailed := true), env);
  }

  // ----- Reconciliation -----

  /**
   From any state, if nothing appears: a rename is taken for done exactly if both names can be looked at, the staged
   directory is at the target and its old name is free; it is taken for undone exactly if it is the other way round.
   */
  lemma ReconcilesExactlyWhen(s: Migration, env: Env)
    requires NothingAppears(env)
    ensures
      var looked := !env.at(StatTarget).Raise? && !env.at(StatStaging).Raise?;
      var undone := s.target.None? && s.Staging().Some? && IdentityOf(s.Staging().value) == Some(s.stagingIdentity);
      Reconcile(s, env) ==
      if looked && s.Holds() && s.Staging().None? then Go(s.(publication := Published))
      else Exc(if looked && undone then s.(publication := NotPublished) else s)
  {
    ReachesQuietly(s, StatTarget, env);
    ReachesQuietly(s, StatStaging, env);
  }
}
