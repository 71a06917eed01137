/**
 `PackMigrationPlan` and the methods of `pack_migration.py` that publish, clean up and discard it,
 in the form of the source.  Each is tied to the function of `PackMigration` that it computes.
 */
module PackMigrationPlans {
  import opened Common
  import opened PackMigration
  import opened Permissions

  /** The raised exceptions of the source, as a result of the methods below. */
  function Outcome(returned: bool, plan: Migration): Step<Migration> {
    if returned then Go(plan) else Exc(plan)
  }

  /** The loop of `_remove_directory_contents`, over the sorted names of one directory. */
  method RemoveDirectoryContents(children: seq<Entry>, mode: Mode, preserve: set<string>, deletions: Option<nat>)
    returns (r: Removal)
    ensures r == Remove(children, mode, preserve, deletions)
    decreases children
  {
    var kept: seq<Entry>, left := [], deletions;
    ghost var expected := Remove(children, mode, preserve, deletions);
    for i := 0 to |children|
      invariant expected == Behind(kept, Remove(children[i..], mode, preserve, left))
    {
      var entry := children[i];
      assert children[i..][0] == entry && children[i..][1..] == children[i + 1..];
      if entry.name in preserve {
        BehindOneMore(kept, entry, Remove(children[i + 1..], mode, preserve, left));
        kept := kept + [entry];
      } else if left == Some(0) || !OwnerSearches(mode) || entry.node.Special? {
        return Removal(kept + children[i..], left, false);
      } else if entry.node.File? {
        if !OwnerWrites(mode) { return Removal(kept + children[i..], left, false); }
        left := Spend(left);
      } else if !OwnerReads(entry.node.mode) {
        return Removal(kept + children[i..], left, false);
      } else {
        var inner := RemoveDirectoryContents(entry.node.children, entry.node.mode, {}, left);
        if !inner.finished || inner.deletions == Some(0) || !OwnerWrites(mode) {
          var partial := entry.(node := entry.node.(children := inner.children));
          return Removal(kept + ([partial] + children[i + 1..]), inner.deletions, false);
        }
        left := Spend(inner.deletions);
      }
    }
    assert kept + [] == kept;
    r := Removal(kept, left, true);
  }

  /** What is kept of the entries before, and the removal of the rest. */
  function Behind(kept: seq<Entry>, rest: Removal): Removal { rest.(children := kept + rest.children) }

  lemma BehindOneMore(kept: seq<Entry>, entry: Entry, rest: Removal)
    ensures Behind(kept, rest.(children := [entry] + rest.children)) == Behind(kept + [entry], rest)
  {
    assert kept + ([entry] + rest.children) == kept + [entry] + rest.children;
  }

  class PackMigrationPlan {
    const stagingIdentity: nat
    var state: MigrationState
    var publicationState: Publication
    var publicationCommitted: bool
    var cleanupFailed: bool
    var validationToken: Option<nat>
    var sourceLock: bool
    var targetLock: bool
    var transactionRoot: Option<seq<Entry>>
    var recoveryRoot: bool
    var abandonedRoots: seq<seq<Entry>>
    var validatedMode: Mode
    var validatedStaging: seq<Entry>
    var target: Option<Node>
    var renames: nat

    function Abstract(): Migration
      reads this
    {
      Migration(state, publicationState, publicationCommitted, cleanupFailed, validationToken, sourceLock, targetLock,
                transactionRoot, recoveryRoot, abandonedRoots, stagingIdentity, validatedMode, validatedStaging,
                target, renames)
    }

    constructor (stagingIdentity: nat, transactionRoot: seq<Entry>)
      ensures Abstract() == Migration(Resolved, NotPublished, false, false, None, true, true,
                                      Some(transactionRoot), false, [], stagingIdentity, 0, [], None, 0)
    {
      this.stagingIdentity := stagingIdentity;
      state, publicationState, publicationCommitted, cleanupFailed := Resolved, NotPublished, false, false;
      validationToken, sourceLock, targetLock := None, true, true;
      this.transactionRoot, recoveryRoot, abandonedRoots := Some(transactionRoot), false, [];
      validatedMode, validatedStaging, target, renames := 0, [], None, 0;
    }

    method Arrive(event: Event) returns (returned: bool)
      modifies this`target
      ensures Outcome(returned, Abstract()) == Reach(old(Abstract()), event)
    {
      if event.Appear? && target.None? {
        target := Some(event.node);
      }
      returned := !event.Raise?;
    }

    method RecordDiagnostic(event: Event)
      modifies this`transactionRoot
      ensures Abstract() == Record(old(Abstract()), event)
    {
      if !event.Raise? && transactionRoot.Some? && Lookup(transactionRoot.value, DIAGNOSTIC).None? {
        transactionRoot := Some(With(transactionRoot.value, Entry(DIAGNOSTIC, File)));
      }
    }

    method CleanupTransaction(env: Env, preserve: set<string>) returns (returned: bool)
      modifies this
      ensures Outcome(returned, Abstract()) == Cleanup(old(Abstract()), env, preserve)
    {
      if transactionRoot.None? { return true; }
      returned := Arrive(env.at(BeginCleanup));
      if !returned { return; }
      if !Ordinary(transactionRoot.value) { return false; }
      var removal := RemoveDirectoryContents(transactionRoot.value, OWNER, preserve, env.deletions);
      transactionRoot := Some(removal.children);
      returned := removal.finished;
    }

    method RemoveTransactionRoot(env: Env) returns (returned: bool)
      modifies this
      ensures Outcome(returned, Abstract()) == RemoveEmptyRoot(old(Abstract()), env)
    {
      returned := Arrive(env.at(RemoveRoot));
      if !returned { return; }
      if transactionRoot != Some([]) { return false; }
      transactionRoot := None;
    }

    method ReleasePlanLocks(env: Env) returns (returned: bool)
      modifies this
      ensures Outcome(returned, Abstract()) == ReleaseLocks(old(Abstract()), env)
    {
      if targetLock && !env.at(ReleaseTarget).Raise? { targetLock := false; }
      if sourceLock && !env.at(ReleaseSource).Raise? { sourceLock := false; }
      returned := !targetLock && !sourceLock;
    }

    method RetainCleanupDiagnostic(env: Env)
      modifies this
      ensures Abstract() == RetainDiagnostic(old(Abstract()), env)
    {
      if transactionRoot.Some? && !env.at(StatRoot).Raise? {
        RecordDiagnostic(env.at(RecordRetained));
      } else if !env.at(MakeRecoveryRoot).Raise? {
        if transactionRoot.Some? { abandonedRoots := abandonedRoots + [transactionRoot.value]; }
        transactionRoot, recoveryRoot := Some([]), true;
        RecordDiagnostic(env.at(RecordRetained));
      }
    }

    method RemoveRootWithDiagnostic(env: Env) returns (returned: bool)
      modifies this
      ensures Outcome(returned, Abstract()) == RemoveTransaction(old(Abstract()), env)
    {
      returned := CleanupTransaction(env, {DIAGNOSTIC});
      if !returned { return; }
      if transactionRoot.None? { return false; }
      returned := Arrive(env.at(UnlinkDiagnostic));
      if !returned { return; }
      if Lookup(transactionRoot.value, DIAGNOSTIC) != Some(File) { return false; }
      transactionRoot := Some(Without(transactionRoot.value, DIAGNOSTIC));
      returned := RemoveTransactionRoot(env);
      if !returned { return; }
      returned := Arrive(env.at(SyncParent));
    }

    method FinishCommittedPublication(env: Env) returns (returned: bool)
      modifies this
      ensures Outcome(returned, Abstract()) == Finish(old(Abstract()), env)
    {
      returned := RemoveRootWithDiagnostic(env);
      if returned { returned := ReleasePlanLocks(env); }
      if returned {
        state, cleanupFailed := Applied, false;
      } else {
        state, cleanupFailed := Failed, true;
        RetainCleanupDiagnostic(env);
      }
    }

    method PreparePublication(handoff: nat, env: Env) returns (returned: bool)
      modifies this
      ensures Outcome(returned, Abstract()) == Prepare(old(Abstract()), handoff, env)
    {
      if state != Resolved { return false; }
      returned := Arrive(env.at(ValidatePublication));
      if !returned { return; }
      var staging := Abstract().Staging();
      if staging.None? || IdentityOf(staging.value) != Some(stagingIdentity) { return false; }
      if target.Some? || !sourceLock || !targetLock { return false; }
      validationToken, validatedMode, validatedStaging := Some(handoff), staging.value.mode, staging.value.children;
      state := Ready;
      RecordDiagnostic(env.at(RecordPrepared));
    }

    method RenameStaging(outcome: RenameOutcome) returns (returned: bool)
      modifies this
      ensures Outcome(returned, Abstract()) == RenameToTarget(old(Abstract()), outcome)
    {
      renames := renames + 1;
      var staging := Abstract().Staging();
      if outcome.Fails? || staging.None? || target.Some? { return false; }
      if staging.value.Directory? && !OwnerWrites(staging.value.mode) { return false; }
      target, transactionRoot := staging, Some(Without(transactionRoot.value, STAGING));
      returned := outcome.Renames?;
    }

    method ReconcileRename(env: Env) returns (returned: bool)
      modifies this
      ensures Outcome(returned, Abstract()) == Reconcile(old(Abstract()), env)
    {
      returned := Arrive(env.at(StatTarget));
      if !returned { return; }
      var targetMetadata := target;
      returned := Arrive(env.at(StatStaging));
      if !returned { return; }
      var stagingMetadata := Abstract().Staging();
      var expected := Some(stagingIdentity);
      if targetMetadata.None? || IdentityOf(targetMetadata.value) != expected || stagingMetadata.Some? {
        if targetMetadata.None? && stagingMetadata.Some? && IdentityOf(stagingMetadata.value) == expected {
          publicationState := NotPublished;
        }
        return false;
      }
      publicationState := Published;
    }

    method AttemptPublication(env: Env) returns (returned: bool)
      modifies this
      ensures Outcome(returned, Abstract()) == AttemptRename(old(Abstract()), env)
    {
      returned := Arrive(env.at(LastCheckpoint));
      if !returned { return; }
      publicationState := Uncertain;
      returned := RenameStaging(env.rename);
    }

    method Publish(env: Env) returns (returned: bool)
      modifies this
      ensures Outcome(returned, Abstract()) == PublishTarget(old(Abstract()), env)
    {
      returned := AttemptPublication(env);
      if !returned {
        returned := ReconcileRename(env);
        if !returned { return; }
      }
      returned := CommitPublication(env);
    }

    method CommitPublication(env: Env) returns (returned: bool)
      modifies this
      ensures Outcome(returned, Abstract()) == Commit(old(Abstract()), env)
    {
      returned := Arrive(env.at(StatPublished));
      if !returned { return; }
      if target.None? || IdentityOf(target.value) != Some(stagingIdentity) { return false; }
      publicationCommitted := true;
      returned := Arrive(env.at(SetPublished));
      if returned { publicationState := Published; }
    }

    method VerifyAndFinishPublication(env: Env) returns (returned: bool)
      modifies this
      ensures Outcome(returned, Abstract()) == VerifyAndFinish(old(Abstract()), env)
    {
      returned := Arrive(env.at(VerifySnapshot));
      if !returned { return; }
      if validationToken.None? ||
          target != Some(Directory(stagingIdentity, validatedMode, validatedStaging)) { return false; }
      returned := FinishCommittedPublication(env);
    }

    method PublishAndFinishPublication(env: Env) returns (returned: bool)
      modifies this
      ensures Outcome(returned, Abstract()) == PublishAndFinish(old(Abstract()), env)
    {
      returned := Publish(env);
      if !returned {
        state := Failed;
        RecordDiagnostic(env.at(RecordPublication));
        return;
      }
      returned := VerifyAndFinishPublication(env);
      if !returned {
        cleanupFailed, state := true, Failed;
        RecordDiagnostic(env.at(RecordOutcome));
      }
    }

    method ApplyPackCopyMigrationRaw(env: Env) returns (returned: bool)
      modifies this
      ensures Outcome(returned, Abstract()) == ApplyRaw(old(Abstract()), env)
    {
      if publicationCommitted {
        returned := Arrive(env.at(RetryCheckpoint));
        if returned { returned := VerifyAndFinishPublication(env); }
        if !returned {
          state, cleanupFailed := Failed, true;
          RecordDiagnostic(env.at(RecordRetry));
        }
        return;
      }
      if state != Ready || validationToken.None? || !sourceLock || !targetLock { return false; }
      returned := Arrive(env.at(CheckSources));
      if !returned { return; }
      if !StagingIsValid(Abstract()) { return false; }
      returned := Arrive(env.at(CheckTarget));
      if !returned { return; }
      if target.Some? { return false; }
      state := Applying;
      returned := Arrive(env.at(OpenForPublication));
      if !returned { return; }
      returned := PublishAndFinishPublication(env);
    }

    method ApplyPackCopyMigration(handoff: nat, env: Env) returns (returned: bool)
      modifies this
      ensures Outcome(returned, Abstract()) == Apply(old(Abstract()), handoff, env)
    {
      if validationToken != Some(handoff) || state == Applied || publicationCommitted { return false; }
      returned := ApplyPackCopyMigrationRaw(env);
      if !returned {
        if !publicationCommitted { state := Failed; }
        cleanupFailed := true;
        RecordDiagnostic(env.at(RecordApply));
      }
    }

    method RetryPackMigrationCleanup(handoff: nat, env: Env) returns (returned: bool)
      modifies this
      ensures Outcome(returned, Abstract()) == Retry(old(Abstract()), handoff, env)
    {
      if validationToken != Some(handoff) || !publicationCommitted || !cleanupFailed { return false; }
      returned := Arrive(env.at(BeginRetry));
      if !returned { return; }
      returned := ApplyPackCopyMigrationRaw(env);
    }

    method TryDiscardPlan(env: Env) returns (returned: bool)
      modifies this
      ensures Outcome(returned, Abstract()) == TryDiscard(old(Abstract()), env)
    {
      returned := Arrive(env.at(StopResolver));
      if !returned { return; }
      returned := CleanupTransaction(env, {});
      if !returned { return; }
      if transactionRoot.Some? {
        returned := RemoveTransactionRoot(env);
        if !returned { return; }
      }
      returned := ReleasePlanLocks(env);
    }

    method DiscardPackMigrationPlan(env: Env) returns (returned: bool)
      modifies this
      ensures Outcome(returned, Abstract()) == Discard(old(Abstract()), env)
    {
      if publicationState != NotPublished || publicationCommitted || state in {Applied, Applying} { return false; }
      if state == Discarded { return true; }
      state := Discarding;
      returned := TryDiscardPlan(env);
      if returned {
        state, cleanupFailed := Discarded, false;
      } else {
        cleanupFailed, state := true, Failed;
        RecordDiagnostic(env.at(RecordDiscard));
      }
    }
  }
}
