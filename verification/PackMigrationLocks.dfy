/**
 The locks of a copied Pack outlive its transaction tree, as long as no cleanup that fails loses sight of
 that tree; a tree that is lost sight of stays on disk, and the locks do not wait for it.
 */
module PackMigrationLocks {
  import opened Common
  import opened PackMigration
  import opened Permissions
  import opened PackMigrationProofs

  // ----- What a call leaves behind -----

  /** What decides about the promise: the trees, whether there is a directory, and the locks. */
  datatype Holdings = Holdings(abandoned: seq<seq<Entry>>, recovery: bool, directory: bool, sourceLock: bool,
      targetLock: bool)

  function HoldingsOf(s: Migration): Holdings {
    Holdings(s.abandoned, s.recovery, s.transaction.Some?, s.sourceLock, s.targetLock)
  }

  /** The state in which a call enters `_finish_committed_publication`, if it comes so far. */
  function CleanupEntry(s: Migration, call: Call): Option<Migration> {
    match call
    case PrepareCall(_, _) => None
    case ApplyCall(handoff, env) =>
      if s.token != Some(handoff) || s.state == Applied || s.committed then None else RawEntry(s, env)
    case RetryCall(handoff, env) =>
      if s.token != Some(handoff) || !s.committed || !s.cleanupFailed || env.at(BeginRetry).Raise? then None
      else RawEntry(Reach(s, env.at(BeginRetry)).plan, env)
    case DiscardCall(_) => None
  }

  function RawEntry(s: Migration, env: Env): Option<Migration> {
    if s.committed then
      if env.at(RetryCheckpoint).Raise? then None else VerifiedEntry(Reach(s, env.at(RetryCheckpoint)).plan, env)
    else if s.state != Ready || s.token.None? || !s.sourceLock || !s.targetLock || env.at(CheckSources).Raise? then None
    else
      var checked := Reach(s, env.at(CheckSources)).plan;
      var found := Reach(checked, env.at(CheckTarget)).plan;
      if !StagingIsValid(checked) || env.at(CheckTarget).Raise? || found.target.Some? ||
          env.at(OpenForPublication).Raise? then None
      else
        var published := PublishTarget(Reach(found.(state := Applying), env.at(OpenForPublication)).plan, env);
        if published.Go? then VerifiedEntry(published.plan, env) else None
  }

  function VerifiedEntry(s: Migration, env: Env): Option<Migration> {
    var r := Reach(s, env.at(VerifySnapshot));
    if r.Go? && r.plan.token.Some? && r.plan.MatchesValidated() then Some(r.plan) else None
  }

  /** The tree that a cleanup loses sight of: it fails with the tree still there, and then cannot look at it. */
  function LostTree(s: Migration, env: Env): seq<seq<Entry>> {
    var removed := RemoveTransaction(s, env);
    if removed.Exc? && env.at(StatRoot).Raise? &&
        !env.at(MakeRecoveryRoot).Raise? then Trees(removed.plan.transaction) else []
  }

  /** The call has a failing cleanup that finds the tree there and cannot look at it again. */
  ghost predicate LosesSight(s: Migration, call: Call) {
    CleanupEntry(s, call).Some? && LostTree(CleanupEntry(s, call).value, call.env) != []
  }

  lemma RecordHolds(s: Migration, e: Event)
    ensures HoldingsOf(Record(s, e)) == HoldingsOf(s)
  {
  }

  lemma FinishHolds(s: Migration, env: Env)
    ensures
      var t := Finish(s, env);
      && t.plan.abandoned == s.abandoned + LostTree(s, env)
      && (t.Go? ==> !t.plan.sourceLock && !t.plan.targetLock && !t.plan.cleanupFailed)
      && (t.Exc? ==> t.plan.cleanupFailed) && !t.Dead? && t.plan.committed == s.committed
      && ((t.plan.sourceLock == s.sourceLock && t.plan.targetLock == s.targetLock) || t.plan.transaction.None? ||
          t.plan.recovery)
      && (t.plan.transaction.None? || t.plan.recovery || (s.transaction.Some? && !s.recovery))
  {
    RemoveTransactionFrame(s, env);
    var removed := RemoveTransaction(s, env);
    ReleaseKeeps(removed.plan, env);
    var r := if removed.Go? then ReleaseLocks(removed.plan, env) else removed;
    RetainHolds(r.plan.(state := Failed, cleanupFailed := true), env);
  }

  lemma RetainHolds(s: Migration, env: Env)
    ensures
      var t := RetainDiagnostic(s, env);
      && t.abandoned == s.abandoned +
          (if env.at(StatRoot).Raise? && !env.at(MakeRecoveryRoot).Raise? then Trees(s.transaction) else [])
      && t == s.(transaction := t.transaction, recovery := t.recovery, abandoned := t.abandoned)
      && (s.recovery ==> t.recovery) && (s.transaction.None? ==> t.transaction.None? || t.recovery)
  {
    RecordHolds(s, env.at(RecordRetained));
    var made := s.(transaction := Some([]), recovery := true, abandoned := s.abandoned + Trees(s.transaction));
    RecordHolds(made, env.at(RecordRetained));
    RetainKeeps(s, env);
  }

  lemma PublishHolds(s: Migration, env: Env)
    ensures
      var r := PublishTarget(s, env);
      HoldingsOf(r.plan) == HoldingsOf(s) && (r.Go? ==> r.plan.committed) && !r.Dead? &&
          r.plan.cleanupFailed == s.cleanupFailed
      && (s.committed ==> r.plan.committed)
  {
    AttemptHolds(s, env);
    var attempt := AttemptRename(s, env);
    ReconcileHolds(attempt.plan, env);
    var reconciled := if attempt.Exc? then Reconcile(attempt.plan, env) else attempt;
    CommitHolds(reconciled.plan, env);
  }

  lemma CommitHolds(s: Migration, env: Env)
    ensures
      var r := Commit(s, env);
      && r.plan == s.(target := r.plan.target, committed := r.plan.committed, publication := r.plan.publication)
      && (r.Go? || s.committed ==> r.plan.committed) && !r.Dead?
  {
  }

  lemma AttemptHolds(s: Migration, env: Env)
    ensures
      var t := AttemptRename(s, env);
      !t.Dead? && t.plan == s.(publication := t.plan.publication, renames := t.plan.renames, target :=
          t.plan.target, transaction := t.plan.transaction)
      && t.plan.transaction.Some? == s.transaction.Some?
  {
  }

  lemma ReconcileHolds(s: Migration, env: Env)
    ensures
      var t := Reconcile(s, env);
      !t.Dead? && t.plan == s.(publication := t.plan.publication, target := t.plan.target)
  {
  }

  /** Verifying and finishing holds what finishing does, or nothing new. */
  lemma VerifiedHolds(s: Migration, env: Env)
    ensures
      var entry, r := VerifiedEntry(s, env), VerifyAndFinish(s, env);
      if entry.Some? then
        && HoldingsOf(entry.value) == HoldingsOf(s) && entry.value.committed == s.committed
        && r == Finish(entry.value, env)
      else
        && r.Exc? && HoldingsOf(r.plan) == HoldingsOf(s) && r.plan.committed == s.committed
        && r.plan.cleanupFailed == s.cleanupFailed
  {
  }

  /** A recovery directory belongs to a committed plan, and holds the diagnostic at most. */
  ghost predicate BareRecovery(s: Migration) {
    s.recovery ==> s.committed && OnlyDiagnostic(s.transaction)
  }

  lemma RecordKeepsBare(s: Migration, e: Event)
    requires BareRecovery(s)
    ensures BareRecovery(Record(s, e))
  {
    RecordHolds(s, e);
    if s.recovery { RecordKeepsOnly(s, e); }
  }

  lemma {:induction false} RemoveKeepsOnly(children: seq<Entry>, deletions: Option<nat>)
    requires OnlyDiagnostic(Some(children))
    ensures Remove(children, OWNER, {DIAGNOSTIC}, deletions).children == children
  {
    if children != [] { RemoveKeepsOnly(children[1..], deletions); }
  }

  lemma RemovalKeepsBare(s: Migration, env: Env)
    requires BareRecovery(s)
    ensures BareRecovery(RemoveTransaction(s, env).plan)
  {
    RemoveTransactionFrame(s, env);
    CleanupFrame(s, env, {DIAGNOSTIC});
    if s.recovery && s.transaction.Some? {
      RemoveKeepsOnly(s.transaction.value, env.deletions);
      WithoutKeepsOnly(s.transaction.value);
      var cleaned := Cleanup(s, env, {DIAGNOSTIC});
      assert cleaned.plan.transaction == s.transaction;
      RootKeepsOnly(cleaned.plan, env);
    }
  }

  lemma RootKeepsOnly(s: Migration, env: Env)
    requires s.transaction.Some? && OnlyDiagnostic(s.transaction)
    ensures OnlyDiagnostic(RemoveDiagnosticAndRoot(s, env).plan.transaction)
  {
    WithoutKeepsOnly(s.transaction.value);
  }

  lemma FinishKeepsBare(s: Migration, env: Env)
    requires BareRecovery(s) && s.committed
    ensures BareRecovery(Finish(s, env).plan)
  {
    RemovalKeepsBare(s, env);
    RemoveTransactionFrame(s, env);
    var removed := RemoveTransaction(s, env);
    ReleaseKeeps(removed.plan, env);
    var r := if removed.Go? then ReleaseLocks(removed.plan, env) else removed;
    var failed := r.plan.(state := Failed, cleanupFailed := true);
    RetainHolds(failed, env);
    RecordKeepsBare(failed, env.at(RecordRetained));
    var made := failed.(transaction := Some([]), recovery := true, abandoned :=
        failed.abandoned + Trees(failed.transaction));
    RecordKeepsBare(made, env.at(RecordRetained));
    assert RetainDiagnostic(failed, env) in
           {failed, Record(failed, env.at(RecordRetained)), Record(made, env.at(RecordRetained))};
  }

  /** What a call that comes to the cleanup holds afterwards is what the cleanup does. */
  ghost predicate EndsAs(s: Migration, entry: Option<Migration>, env: Env, r: Step<Migration>) {
    && !r.Dead? && (s.committed ==> r.plan.committed) && (BareRecovery(s) ==> BareRecovery(r.plan))
    && if entry.Some? then
         && HoldingsOf(entry.value) == HoldingsOf(s) && entry.value.committed && r.plan.committed
         && HoldingsOf(r.plan) == HoldingsOf(Finish(entry.value, env).plan)
         && r.plan.cleanupFailed == Finish(entry.value, env).plan.cleanupFailed
       else HoldingsOf(r.plan) == HoldingsOf(s) && (r.plan.committed ==> r.plan.cleanupFailed || r.plan == s)
  }

  lemma RetryRawHolds(s: Migration, env: Env)
    requires s.committed
    ensures EndsAs(s, RawEntry(s, env), env, RetryRaw(s, env))
  {
    var begun := Reach(s, env.at(RetryCheckpoint));
    VerifiedHolds(begun.plan, env);
    var r := if begun.Go? then VerifyAndFinish(begun.plan, env) else begun;
    var failed := r.plan.(state := Failed, cleanupFailed := true);
    RecordHolds(failed, env.at(RecordRetry));
    if BareRecovery(s) {
      VerifiedKeepsBare(begun.plan, env);
      RecordKeepsBare(failed, env.at(RecordRetry));
    }
    if RawEntry(s, env).Some? { FinishHolds(RawEntry(s, env).value, env); }
  }

  lemma VerifiedKeepsBare(s: Migration, env: Env)
    requires BareRecovery(s) && s.committed
    ensures BareRecovery(VerifyAndFinish(s, env).plan)
  {
    FinishKeepsBare(Reach(s, env.at(VerifySnapshot)).plan, env);
  }

  /** What `PublishAndFinish` enters the cleanup with. */
  function PublishedEntry(s: Migration, env: Env): Option<Migration> {
    var published := PublishTarget(s, env);
    if published.Go? then VerifiedEntry(published.plan, env) else None
  }

  lemma PublishedHolds(s: Migration, env: Env)
    requires !s.committed
    ensures
      var r, entry := PublishAndFinish(s, env), PublishedEntry(s, env);
      && !r.Dead?
      && if entry.Some? then EndsAs(s, entry, env, r) else r.Exc? && HoldingsOf(r.plan) == HoldingsOf(s)
  {
    PublishHolds(s, env);
    var published := PublishTarget(s, env);
    RecordHolds(published.plan.(state := Failed), env.at(RecordPublication));
    if published.Go? {
      VerifiedHolds(published.plan, env);
      var r := VerifyAndFinish(published.plan, env);
      var failed := r.plan.(state := Failed, cleanupFailed := true);
      RecordHolds(failed, env.at(RecordOutcome));
      if BareRecovery(s) {
        assert BareRecovery(published.plan);
        VerifiedKeepsBare(published.plan, env);
        RecordKeepsBare(failed, env.at(RecordOutcome));
      }
      if PublishedEntry(s, env).Some? { FinishHolds(PublishedEntry(s, env).value, env); }
    }
  }

  lemma ApplyRawHolds(s: Migration, env: Env)
    requires !s.committed
    ensures
      var r, entry := ApplyRaw(s, env), RawEntry(s, env);
      && !r.Dead?
      && if entry.Some? then EndsAs(s, entry, env, r) else r.Exc? && HoldingsOf(r.plan) == HoldingsOf(s)
  {
    if s.state == Ready && s.token.Some? && s.sourceLock && s.targetLock && !env.at(CheckSources).Raise? {
      var checked := Reach(s, env.at(CheckSources)).plan;
      var found := Reach(checked, env.at(CheckTarget)).plan;
      if StagingIsValid(checked) && !env.at(CheckTarget).Raise? && found.target.None? {
        var entered := Reach(found.(state := Applying), env.at(OpenForPublication)).plan;
        PublishedHolds(entered, env);
      }
    }
  }

  lemma ApplyHolds(s: Migration, handoff: nat, env: Env)
    ensures EndsAs(s, CleanupEntry(s, ApplyCall(handoff, env)), env, Apply(s, handoff, env))
  {
    if s.token == Some(handoff) && s.state != Applied && !s.committed {
      ApplyRawHolds(s, env);
      var r := ApplyRaw(s, env);
      var failed := if r.plan.committed then r.plan else r.plan.(state := Failed);
      RecordHolds(failed.(cleanupFailed := true), env.at(RecordApply));
      if BareRecovery(s) {
        assert BareRecovery(r.plan);
        RecordKeepsBare(failed.(cleanupFailed := true), env.at(RecordApply));
      }
      if RawEntry(s, env).Some? { FinishHolds(RawEntry(s, env).value, env); }
    }
  }

  lemma RetryHolds(s: Migration, handoff: nat, env: Env)
    ensures EndsAs(s, CleanupEntry(s, RetryCall(handoff, env)), env, Retry(s, handoff, env))
  {
    if s.token == Some(handoff) && s.committed && s.cleanupFailed && !env.at(BeginRetry).Raise? {
      RetryRawHolds(Reach(s, env.at(BeginRetry)).plan, env);
    }
  }

  // ----- Runs -----

  /** A lock is let go only when the transaction tree is gone; a directory that is there then was made afterwards. */
  ghost predicate Promise(s: Migration) {
    !s.sourceLock || !s.targetLock ==> s.abandoned == [] && (s.transaction.None? || s.recovery)
  }

  ghost predicate LocksInv(s: Migration) {
    && (!s.sourceLock || !s.targetLock ==> s.transaction.None? || s.recovery)
    && (s.committed ==> s.cleanupFailed || (!s.sourceLock && !s.targetLock))
    && (s.abandoned != [] ==> s.recovery) && BareRecovery(s)
  }

  function LostBy(s: Migration, call: Call): seq<seq<Entry>> {
    var entry := CleanupEntry(s, call);
    if entry.Some? then LostTree(entry.value, call.env) else []
  }

  lemma EndKeepsLocks(s: Migration, entry: Option<Migration>, env: Env, r: Step<Migration>)
    requires LocksInv(s) && EndsAs(s, entry, env, r)
    ensures LocksInv(r.plan)
    ensures r.plan.abandoned == s.abandoned + if entry.Some? then LostTree(entry.value, env) else []
  {
    if entry.Some? { FinishHolds(entry.value, env); }
  }

  lemma DiscardHolds(s: Migration, env: Env)
    requires LocksInv(s)
    ensures LocksInv(Discard(s, env).plan) && Discard(s, env).plan.abandoned == s.abandoned
  {
    if s.publication == NotPublished && !s.committed && s.state !in {Applied, Applying, Discarded} {
      var discarding := s.(state := Discarding);
      TryDiscardHolds(discarding, env);
      RecordHolds(TryDiscard(discarding, env).plan.(state := Failed, cleanupFailed := true), env.at(RecordDiscard));
    }
  }

  lemma TryDiscardHolds(s: Migration, env: Env)
    ensures
      var t := TryDiscard(s, env).plan;
      && t == s.(transaction := t.transaction, target := t.target, sourceLock := t.sourceLock, targetLock :=
          t.targetLock)
      && (t.transaction.None? || (s.transaction.Some? && t.sourceLock == s.sourceLock && t.targetLock == s.targetLock))
  {
    var stopped := Reach(s, env.at(StopResolver)).plan;
    CleanupFrame(stopped, env, {});
    var cleaned := Cleanup(stopped, env, {});
    if cleaned.Go? {
      var removed := if cleaned.plan.transaction.Some? then RemoveEmptyRoot(cleaned.plan, env) else cleaned;
      EmptyRootFrame(cleaned.plan, env);
      ReleaseKeeps(removed.plan, env);
      assert OnlyTransaction(stopped, removed.plan, env);
    }
  }

  lemma EmptyRootFrame(s: Migration, env: Env)
    ensures
      var r := RemoveEmptyRoot(s, env);
      && !r.Dead? && OnlyTransaction(s, r.plan, env)
      && (r.Go? ==> r.plan.transaction.None?) && (!r.Go? ==> r.plan.transaction == s.transaction)
  {
  }

  /** What a call abandons is the tree that its cleanup loses sight of, and nothing else. */
  lemma CallKeepsLocks(s: Migration, call: Call)
    requires LocksInv(s)
    ensures LocksInv(Perform(s, call).plan)
    ensures Perform(s, call).plan.abandoned == s.abandoned + LostBy(s, call)
  {
    match call
    case PrepareCall(handoff, env) =>
      var validated := Reach(s, env.at(ValidatePublication)).plan;
      if validated.Staging().Some? && validated.Staging().value.Directory? {
        var staging := validated.Staging().value;
        var prepared := validated.(
          token := Some(handoff), validatedMode := staging.mode, validated := staging.children, state := Ready);
        RecordHolds(prepared, env.at(RecordPrepared));
        RecordKeepsBare(prepared, env.at(RecordPrepared));
      }
    case ApplyCall(handoff, env) =>
      ApplyHolds(s, handoff, env);
      EndKeepsLocks(s, CleanupEntry(s, call), env, Apply(s, handoff, env));
    case RetryCall(handoff, env) =>
      RetryHolds(s, handoff, env);
      EndKeepsLocks(s, CleanupEntry(s, call), env, Retry(s, handoff, env));
    case DiscardCall(env) =>
      DiscardHolds(s, env);
  }

  /** Some call of the run loses sight of a tree. */
  ghost predicate RunLosesSight(s: Migration, calls: seq<Call>)
    decreases |calls|
  {
    calls != [] && (LosesSight(s, calls[0]) || RunLosesSight(Perform(s, calls[0]).plan, calls[1..]))
  }

  lemma {:induction false} RunKeepsLocks(s: Migration, calls: seq<Call>)
    requires LocksInv(s)
    ensures LocksInv(Run(s, calls)) && s.abandoned <= Run(s, calls).abandoned
    ensures Run(s, calls).abandoned == s.abandoned <==> !RunLosesSight(s, calls)
    decreases |calls|
  {
    if calls != [] {
      CallKeepsLocks(s, calls[0]);
      RunKeepsLocks(Perform(s, calls[0]).plan, calls[1..]);
    }
  }

  /** One more retry by the holder of the handoff. */
  function Retried(s: Migration, env: Env): Migration {
    if s.token.Some? then Retry(s, s.token.value, env).plan else s
  }

  /** Retries without faults end with the locks released, if the directory can be emptied. */
  lemma LocksAreReleased(s: Migration, calm: Env)
    requires Inv(s) && LocksInv(s) && s.committed && Clearable(s) && Calm(calm)
    ensures
      var once, twice := Retried(s, calm), Retried(Retried(s, calm), calm);
      && once.abandoned == s.abandoned && twice.abandoned == s.abandoned && !twice.sourceLock && !twice.targetLock
  {
    CalmLosesNothing(s, calm);
    CalmLosesNothing(Retried(s, calm), calm);
    if s.cleanupFailed { ReleasedByTwo(s, calm); }
  }

  lemma ReleasedByTwo(s: Migration, calm: Env)
    requires AwaitsCleanup(s) && Clearable(s) && Calm(calm)
    ensures var twice := Retried(Retried(s, calm), calm);
            !twice.sourceLock && !twice.targetLock
  {
    TwoRetriesConverge(s, calm);
    FirstRetry(s, calm);
    var once := Retried(s, calm);
    if !once.cleanupFailed { assert Retried(once, calm) == once; }
  }

  lemma CalmLosesNothing(s: Migration, calm: Env)
    requires LocksInv(s) && Calm(calm)
    ensures Retried(s, calm).abandoned == s.abandoned && LocksInv(Retried(s, calm))
  {
    if s.token.Some? { CallKeepsLocks(s, RetryCall(s.token.value, calm)); }
  }

  /**
   Over every run, and two retries without faults after it: a released lock means that the transaction tree is gone,
   exactly if no cleanup that failed in the run lost sight of a tree.
   */
  lemma LocksOutliveTheTree(s: Migration, calls: seq<Call>, calm: Env)
    requires Fresh(s) && AllForeign(calls, s.stagingIdentity) && Calm(calm)
    ensures
      var t := Run(s, calls);
      && (!RunLosesSight(s, calls) <==> t.abandoned == [])
      && (!RunLosesSight(s, calls) <==>
          Promise(t) && Promise(Retried(t, calm)) && Promise(Retried(Retried(t, calm), calm)))
  {
    var t := Run(s, calls);
    RunKeepsLocks(s, calls);
    RunKeepsInv(s, calls);
    CalmLosesNothing(t, calm);
    CalmLosesNothing(Retried(t, calm), calm);
    if t.abandoned != [] {
      assert t.committed && OnlyDiagnostic(t.transaction) && Clearable(t);
      LocksAreReleased(t, calm);
    }
  }

  // ----- A tree that is left behind -----

  ghost predicate CannotLook(env: Env) {
    && (forall p: Point :: env.at(p) == if p == BeginCleanup || p == StatRoot then Raise else Proceed)
    && env.deletions.None?
  }

  /**
   A cleanup that cannot begin, nor look at the tree afterwards, leaves all of it; the next retry without faults
   removes the recovery directory alone and releases both locks.
   */
  lemma TreeIsLeftBehind(s: Migration, faulty: Env, calm: Env)
    requires AwaitsCleanup(s) && s.transaction.Some? && CannotLook(faulty) && Calm(calm)
    ensures
      var t := Retried(Retried(s, faulty), calm);
      && t.state == Applied && !t.sourceLock && !t.targetLock && t.transaction.None?
      && t.abandoned == s.abandoned + [s.transaction.value] && !Promise(t)
  {
    FaultyFinish(s, faulty);
    RetryIsFinish(s, faulty);
    var first := Retried(s, faulty);
    assert first == Finish(s, faulty).plan;
    CallKeepsInv(s, RetryCall(s.token.value, faulty));
    RetryConverges(first, calm);
  }

  lemma FaultyFinish(s: Migration, faulty: Env)
    requires s.transaction.Some? && Tidy(s.transaction.value) && CannotLook(faulty)
    ensures
      var t := Finish(s, faulty);
      && t.Exc? && HasDiagnostic(t.plan) && t.plan.cleanupFailed &&
          t.plan.abandoned == s.abandoned + [s.transaction.value]
      && Clearable(t.plan)
      && t.plan.committed == s.committed && t.plan.token == s.token
  {
    assert RemoveTransaction(s, faulty) == Exc(s);
    var failed := s.(state := Failed, cleanupFailed := true);
    RetainHolds(failed, faulty);
    RetainedHasDiagnostic(failed, faulty);
    var made := failed.(transaction := Some([]), recovery := true, abandoned :=
        failed.abandoned + Trees(failed.transaction));
    RecordKeepsOnly(made, faulty.at(RecordRetained));
    assert Finish(s, faulty).plan == Record(made, faulty.at(RecordRetained));
  }

  /** Nothing goes wrong up to the cleanup, and every diagnostic is written. */
  ghost predicate Unhindered(env: Env) {
    && env.rename.Renames?
    && forall p: Point :: p !in {BeginCleanup, UnlinkDiagnostic, RemoveRoot, SyncParent, StatRoot, MakeRecoveryRoot} ==>
                            env.at(p) == Proceed
  }

  /** The plan after preparing, and as it enters the cleanup when nothing has gone wrong. */
  function Prepared(s: Migration, handoff: nat): Migration
    requires s.Staging().Some? && s.Staging().value.Directory?
  {
    var staging := s.Staging().value;
    Record(s.(token := Some(handoff), validatedMode := staging.mode, validated := staging.children, state := Ready),
        Proceed)
  }

  function Entered(s: Migration): Migration
    requires s.transaction.Some?
  {
    s.(state := Applying, publication := Published, committed := true, renames := s.renames + 1,
       target := s.Staging(), transaction := Some(Without(s.transaction.value, STAGING)))
  }

  /** Such a run from the start: prepared, published with that cleanup, and retried. */
  lemma RunLeavesTreeBehind(s: Migration, handoff: nat, faulty: Env, calm: Env)
    requires Fresh(s) && s.Staging().Some? && IdentityOf(s.Staging().value) == Some(s.stagingIdentity)
    requires OwnerWrites(s.Staging().value.mode)
    requires CannotLook(faulty) && faulty.rename.Renames? && Calm(calm)
    ensures
      var t := Run(s, [PrepareCall(handoff, calm), ApplyCall(handoff, faulty), RetryCall(handoff, calm)]);
      && !t.sourceLock && !t.targetLock && t.abandoned == [Entered(Prepared(s, handoff)).transaction.value] &&
          !Promise(t)
  {
    var prepared := Prepared(s, handoff);
    PreparedIsReady(s, handoff, calm);
    AppliedIsFinish(prepared, handoff, faulty);
    var entered := Entered(prepared);
    WithoutRemoves(prepared.transaction.value, STAGING);
    FaultyFinish(entered, faulty);
    var applied := Apply(prepared, handoff, faulty).plan;
    CallKeepsInv(prepared, ApplyCall(handoff, faulty));
    RetryConverges(applied, calm);
    var calls := [PrepareCall(handoff, calm), ApplyCall(handoff, faulty), RetryCall(handoff, calm)];
    ThreeCalls(s, calls[0], calls[1], calls[2]);
  }

  lemma ThreeCalls(s: Migration, a: Call, b: Call, c: Call)
    ensures Run(s, [a, b, c]) == Perform(Perform(Perform(s, a).plan, b).plan, c).plan
  {
    assert [a, b, c][1..] == [b, c] && [b, c][1..] == [c] && [c][1..] == [];
    var t := Perform(s, a).plan;
    assert Run(s, [a, b, c]) == Run(t, [b, c]) == Run(Perform(t, b).plan, [c]) ==
        Run(Perform(Perform(t, b).plan, c).plan, []);
  }

  lemma PreparedIsReady(s: Migration, handoff: nat, calm: Env)
    requires Fresh(s) && s.Staging().Some? && IdentityOf(s.Staging().value) == Some(s.stagingIdentity) && Calm(calm)
    ensures
      var p := Prepared(s, handoff);
      && Prepare(s, handoff, calm) == Go(p) && Inv(p) && p.state == Ready && p.token == Some(handoff)
      && p.sourceLock && p.targetLock && p.transaction.Some? && p.target.None? && !p.committed && p.abandoned == []
      && StagingIsValid(p) && p.validatedMode == s.Staging().value.mode
  {
    CallKeepsInv(s, PrepareCall(handoff, calm));
    assert calm.at(ValidatePublication) == Proceed && calm.at(RecordPrepared) == Proceed;
    if Lookup(s.transaction.value,
        DIAGNOSTIC).None? { WithInserts(s.transaction.value, Entry(DIAGNOSTIC, File), STAGING); }
  }

  lemma AppliedIsFinish(s: Migration, handoff: nat, env: Env)
    requires s.state == Ready && s.token == Some(handoff) && !s.committed && s.sourceLock && s.targetLock &&
             s.target.None?
    requires s.transaction.Some? && StagingIsValid(s) && OwnerWrites(s.validatedMode) && Unhindered(env)
    ensures
      var t := Finish(Entered(s), env);
      t.Exc? && HasDiagnostic(t.plan) ==> Apply(s, handoff, env) == Exc(t.plan.(state := Failed, cleanupFailed := true))
  {
    var applying, t := s.(state := Applying), Finish(Entered(s), env);
    PublishesUnhindered(applying, env);
    assert Entered(applying) == Entered(s);
    if t.Exc? && HasDiagnostic(t.plan) {
      FinishesWith(applying, Entered(s), t.plan, env);
      var failed := t.plan.(state := Failed, cleanupFailed := true);
      ChecksPass(s, env);
      FailsWith(s, handoff, env, failed);
    }
  }

  /** A call of apply that fails with its diagnostic there changes nothing more. */
  lemma FailsWith(s: Migration, handoff: nat, env: Env, failed: Migration)
    requires s.state == Ready && s.token == Some(handoff) && !s.committed
    requires ApplyRaw(s, env) == Exc(failed) && failed.state == Failed && failed.cleanupFailed && HasDiagnostic(failed)
    ensures Apply(s, handoff, env) == Exc(failed)
  {
    var same := if failed.committed then failed else failed.(state := Failed);
    assert same.(cleanupFailed := true) == failed;
  }

  lemma ReachedQuietly(s: Migration, e: Event)
    requires e == Proceed
    ensures Reach(s, e) == Go(s)
  {
  }

  lemma ChecksPass(s: Migration, env: Env)
    requires s.state == Ready && s.token.Some? && !s.committed && s.sourceLock && s.targetLock && s.target.None?
    requires StagingIsValid(s) && Unhindered(env)
    ensures ApplyRaw(s, env) == PublishAndFinish(s.(state := Applying), env)
  {
    ReachedQuietly(s, env.at(CheckSources));
    ReachedQuietly(s, env.at(CheckTarget));
    ReachedQuietly(s.(state := Applying), env.at(OpenForPublication));
    var raw := PublishAndFinish(s.(state := Applying), env);
    assert ApplyRaw(s, env) == raw;
  }

  lemma FinishesWith(s: Migration, entered: Migration, finished: Migration, env: Env)
    requires PublishTarget(s, env) == Go(entered) && entered.token.Some? && entered.MatchesValidated() &&
             Unhindered(env)
    requires Finish(entered, env) == Exc(finished) && HasDiagnostic(finished)
    ensures PublishAndFinish(s, env) == Exc(finished.(state := Failed, cleanupFailed := true))
  {
    assert VerifyAndFinish(entered, env) == Finish(entered, env);
  }

  lemma PublishesUnhindered(s: Migration, env: Env)
    requires s.state == Applying && !s.committed && s.target.None? && s.transaction.Some? && StagingIsValid(s)
    requires OwnerWrites(s.validatedMode) && Unhindered(env)
    ensures PublishTarget(s, env) == Go(Entered(s))
  {
    assert AttemptRename(s, env) ==
           Go(s.(publication := Uncertain, renames := s.renames + 1, target := s.Staging(), transaction :=
               Some(Without(s.transaction.value, STAGING))));
  }

  // ----- A directory that cannot be emptied -----

  /** Committed, and waiting for a cleanup that cannot succeed. */
  ghost predicate Stuck(s: Migration) {
    && Inv(s) && s.committed && s.state == Failed && s.cleanupFailed
    && s.transaction.Some? && !Clearable(s)
  }

  lemma RetryRawStaysStuck(s: Migration, env: Env)
    requires Stuck(s) && Foreign(env, s.stagingIdentity)
    requires RawEntry(s, env).Some? ==> LostTree(RawEntry(s, env).value, env) == []
    ensures
      var t := RetryRaw(s, env).plan;
      && t.state == Failed && t.cleanupFailed && t.transaction.Some? && !Clearable(t)
      && t.sourceLock == s.sourceLock && t.targetLock == s.targetLock
  {
    var begun := Reach(s, env.at(RetryCheckpoint));
    var r := if begun.Go? then VerifyAndFinish(begun.plan, env) else begun;
    if RawEntry(s, env).Some? {
      var entry := RawEntry(s, env).value;
      RemovalStaysUnclearable(entry, env);
      FinishStaysUnclearable(entry, env);
    }
    var failed := r.plan.(state := Failed, cleanupFailed := true);
    RecordKeepsClearable(failed, env.at(RecordRetry));
    RecordHolds(failed, env.at(RecordRetry));
  }

  lemma StuckStays(s: Migration, call: Call)
    requires Stuck(s) && Foreign(call.env, s.stagingIdentity) && !LosesSight(s, call)
    ensures
      var t := Perform(s, call).plan;
      Stuck(t) && t.sourceLock == s.sourceLock && t.targetLock == s.targetLock && t.stagingIdentity == s.stagingIdentity
  {
    CallKeepsInv(s, call);
    if call.RetryCall? && s.token == Some(call.handoff) && !call.env.at(BeginRetry).Raise? {
      var begun := Reach(s, call.env.at(BeginRetry)).plan;
      ReachKeeps(s, BeginRetry, call.env);
      RetryRawStaysStuck(begun, call.env);
      RetryRawKeepsInv(begun, call.env);
    }
  }

  /** Whatever is called: the locks stay as they are, as long as no cleanup loses sight of the directory. */
  lemma {:induction false} StuckForever(s: Migration, calls: seq<Call>)
    requires Stuck(s) && AllForeign(calls, s.stagingIdentity) && !RunLosesSight(s, calls)
    ensures Stuck(Run(s, calls)) && Run(s, calls).sourceLock == s.sourceLock && Run(s, calls).targetLock == s.targetLock
    decreases |calls|
  {
    if calls != [] {
      StuckStays(s, calls[0]);
      StuckForever(Perform(s, calls[0]).plan, calls[1..]);
    }
  }

  /** Some entry, neither the diagnostic nor the staged Pack, holds a directory that cannot be emptied. */
  ghost predicate HoldsUnremovable(children: seq<Entry>) {
    exists e :: e in children && e.name !in {DIAGNOSTIC, STAGING} && !RemovableNode(e.node)
  }

  lemma {:induction false} WithMembers(children: seq<Entry>, entry: Entry, e: Entry)
    requires e in children
    ensures e in With(children, entry)
  {
    if children != [] && e != children[0] { WithMembers(children[1..], entry, e); }
  }

  lemma {:induction false} WithoutMembers(children: seq<Entry>, name: string, e: Entry)
    requires e in children && e.name != name
    ensures e in Without(children, name)
  {
    if children != [] && e != children[0] { WithoutMembers(children[1..], name, e); }
  }

  lemma EnteredIsUnclearable(s: Migration, handoff: nat)
    requires s.transaction.Some? && s.Staging().Some? && s.Staging().value.Directory? &&
             HoldsUnremovable(s.transaction.value)
    requires Prepared(s, handoff).transaction.Some?
    ensures !Clearable(Entered(Prepared(s, handoff)))
  {
    var prepared := Prepared(s, handoff);
    var e :| e in s.transaction.value && e.name !in {DIAGNOSTIC, STAGING} && !RemovableNode(e.node);
    WithMembers(s.transaction.value, Entry(DIAGNOSTIC, File), e);
    assert e in prepared.transaction.value;
    WithoutMembers(prepared.transaction.value, STAGING, e);
    var children := Without(prepared.transaction.value, STAGING);
    var i :| 0 <= i < |children| && children[i] == e;
    assert !Removable(children, OWNER, {DIAGNOSTIC});
  }

  /**
   A copied directory that its owner may not write, with something in it: the Pack is published without a fault, its
   transaction is never cleaned up, and both locks are held through every later call.
   */
  lemma PublicationNeverEnds(s: Migration, handoff: nat, calm: Env, calls: seq<Call>)
    requires Fresh(s) && s.Staging().Some? && IdentityOf(s.Staging().value) == Some(s.stagingIdentity)
    requires OwnerWrites(s.Staging().value.mode) && HoldsUnremovable(s.transaction.value)
    requires Calm(calm) && calm.rename.Renames? && AllForeign(calls, s.stagingIdentity)
    requires
      var published := Run(s, [PrepareCall(handoff, calm), ApplyCall(handoff, calm)]);
      !RunLosesSight(published, calls)
    ensures
      var published := Run(s, [PrepareCall(handoff, calm), ApplyCall(handoff, calm)]);
      var t := Run(published, calls);
      && published.committed && published.Holds() && t.committed && t.sourceLock && t.targetLock && t.state == Failed
  {
    StuckAfterPublication(s, handoff, calm);
    TwoCalls(s, PrepareCall(handoff, calm), ApplyCall(handoff, calm));
    var published := Run(s, [PrepareCall(handoff, calm), ApplyCall(handoff, calm)]);
    StuckForever(published, calls);
  }

  lemma TwoCalls(s: Migration, a: Call, b: Call)
    ensures Run(s, [a, b]) == Perform(Perform(s, a).plan, b).plan
  {
    assert [a, b][1..] == [b] && [b][1..] == [];
    var t := Perform(s, a).plan;
    assert Run(s, [a, b]) == Run(t, [b]) == Run(Perform(t, b).plan, []);
  }

  lemma StuckAfterPublication(s: Migration, handoff: nat, calm: Env)
    requires Fresh(s) && s.Staging().Some? && IdentityOf(s.Staging().value) == Some(s.stagingIdentity)
    requires OwnerWrites(s.Staging().value.mode) && HoldsUnremovable(s.transaction.value)
    requires Calm(calm) && calm.rename.Renames?
    ensures
      var t := Apply(Prepare(s, handoff, calm).plan, handoff, calm).plan;
      Stuck(t) && t.sourceLock && t.targetLock && t.stagingIdentity == s.stagingIdentity
  {
    var prepared := Prepared(s, handoff);
    PreparedIsReady(s, handoff, calm);
    EnteredIsUnclearable(s, handoff);
    var entered := Entered(prepared);
    WithoutRemoves(prepared.transaction.value, STAGING);
    FinishStaysUnclearable(entered, calm);
    FailedFinishKeepsDiagnostic(entered, calm);
    FinishHolds(entered, calm);
    AppliedIsFinish(prepared, handoff, calm);
    CallKeepsInv(prepared, ApplyCall(handoff, calm));
  }

  /** A directory of mode 0555 with a file in it is such a directory. */
  lemma ReadOnlyDirectoryIsUnremovable(identity: nat, name: string)
    ensures OrdinaryNode(Directory(identity, 0x16D, [Entry(name, File)]))
    ensures !RemovableNode(Directory(identity, 0x16D, [Entry(name, File)]))
  {
    var children := [Entry(name, File)];
    assert children[0].name !in {} && !OwnerChanges(0x16D) && OwnerReads(0x16D) && OwnerSearches(0x16D);
    assert !Removable(children, 0x16D, {});
  }
}
