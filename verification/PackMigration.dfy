/**
 The publication of a copied Pack in `pack_migration.py`: the one-shot handoff, the rename of the
 staged Pack to its target, the reconciliation of a rename whose outcome is unknown, the cleanup of
 the transaction directory with its retries, and discarding.

 As in `ContentPublication`, a call is given an environment that decides what happens at each point.
 A writer outside the plan may make something appear at the target as long as nothing is there.
 */
module PackMigration {
  import opened Common
  import opened Ordering
  import opened Permissions

  /** Files are readable: what is not was never copied into a transaction. */
  datatype Node = File | Special | Directory(identity: nat, mode: Mode, children: seq<Entry>)

  datatype Entry = Entry(name: string, node: Node)

  const DIAGNOSTIC := "plan.json"
  const STAGING := "target-staging"

  // ----- Directories -----

  function Lookup(children: seq<Entry>, name: string): Option<Node> {
    if children == [] then None
    else if children[0].name == name then Some(children[0].node)
    else Lookup(children[1..], name)
  }

  function Without(children: seq<Entry>, name: string): seq<Entry> {
    if children == [] then []
    else if children[0].name == name then Without(children[1..], name)
    else [children[0]] + Without(children[1..], name)
  }

  /** A new entry, at its place in name order. */
  function With(children: seq<Entry>, entry: Entry): seq<Entry> {
    if children == [] || Less(entry.name, children[0].name) then [entry] + children
    else [children[0]] + With(children[1..], entry)
  }

  /** Everything can be scanned: `scan_pack_migration_source` finds nothing invalid. */
  predicate Ordinary(children: seq<Entry>) {
    forall i :: 0 <= i < |children| ==> OrdinaryNode(children[i].node)
  }

  predicate OrdinaryNode(node: Node) {
    && !node.Special?
    && (node.Directory? ==>
          && OwnerReads(node.mode) && (node.children != [] ==> OwnerSearches(node.mode))
          && Ordinary(node.children))
  }

  function IdentityOf(node: Node): Option<nat> {
    if node.Directory? then Some(node.identity) else None
  }

  /** What is left, how many deletions are still allowed, and whether the removal finished. */
  datatype Removal = Removal(children: seq<Entry>, deletions: Option<nat>, finished: bool)

  function Spend(deletions: Option<nat>): Option<nat>
    requires deletions != Some(0)
  {
    if deletions.Some? then Some(deletions.value - 1) else None
  }

  /**
   `_remove_directory_contents`: deletes the children of a directory of the given mode in name order, depth first.
   Entries are looked at if the directory can be searched, and deleted if it can be written too.  The environment
   allows a number of deletions before it raises, or all of them.
   */
  function Remove(children: seq<Entry>, mode: Mode, preserve: set<string>, deletions: Option<nat>): (r: Removal)
    ensures r.finished ==> deletions.None? == r.deletions.None?
    decreases children
  {
    if children == [] then Removal([], deletions, true)
    else
      var entry, rest := children[0], children[1..];
      if entry.name in preserve then
        var r := Remove(rest, mode, preserve, deletions);
        r.(children := [entry] + r.children)
      else if deletions == Some(0) || !OwnerSearches(mode) ||
          entry.node.Special? then Removal(children, deletions, false)
      else if entry.node.File? then
        if !OwnerWrites(mode) then Removal(children, deletions, false)
        else Remove(rest, mode, preserve, Spend(deletions))
      else if !OwnerReads(entry.node.mode) then Removal(children, deletions, false)
      else
        var inner := Remove(entry.node.children, entry.node.mode, {}, deletions);
        if !inner.finished || inner.deletions == Some(0) || !OwnerWrites(mode) then
          Removal([entry.(node := entry.node.(children := inner.children))] + rest, inner.deletions, false)
        else Remove(rest, mode, preserve, Spend(inner.deletions))
  }

  // ----- The plan -----

  datatype MigrationState = Resolved | Ready | Applying | Applied | Failed | Discarding | Discarded

  datatype Publication = NotPublished | Uncertain | Published

  /**
   The fields of `PackMigrationPlan` that publication uses, the transaction directory and the target.  The
   transaction directory may be a recovery directory, made after the one before it was gone or lost sight of;
   `abandoned` holds the trees lost sight of, which are still on disk.
   */
  datatype Migration = Migration(
    state: MigrationState,
    publication: Publication,
    committed: bool,
    cleanupFailed: bool,
    token: Option<nat>,
    sourceLock: bool,
    targetLock: bool,
    transaction: Option<seq<Entry>>,
    recovery: bool,
    abandoned: seq<seq<Entry>>,
    stagingIdentity: nat,
    validatedMode: Mode,
    validated: seq<Entry>,
    target: Option<Node>,
    renames: nat)
  {
    function Staging(): Option<Node> {
      if transaction.Some? then Lookup(transaction.value, STAGING) else None
    }

    /** The identity at the target is the one that was staged. */
    predicate Holds() {
      target.Some? && IdentityOf(target.value) == Some(stagingIdentity)
    }

    /** `_matches_validated_target` on the target. */
    predicate MatchesValidated() {
      target == Some(Directory(stagingIdentity, validatedMode, validated))
    }
  }

  datatype Point =
      // prepare_pack_migration_publication
    | ValidatePublication | RecordPrepared
      // _apply_pack_copy_migration_raw
    | CheckSources | CheckTarget | OpenForPublication | LastCheckpoint | StatTarget | StatStaging | StatPublished
    | SetPublished
    | VerifySnapshot | RecordPublication | RecordOutcome
      // the cleanup
    | BeginRetry | RetryCheckpoint | RecordRetry | BeginCleanup | UnlinkDiagnostic | RemoveRoot | SyncParent
    | ReleaseSource | ReleaseTarget | StatRoot | MakeRecoveryRoot | RecordRetained
      // apply_pack_copy_migration_at and discard_pack_migration_plan
    | RecordApply | StopResolver | RecordDiscard

  datatype Event = Proceed | Raise | Appear(node: Node)

  /** What the rename system call does, when the names allow it. */
  datatype RenameOutcome = Renames | Fails | RenamesAndRaises

  datatype Env = Env(at: Point -> Event, rename: RenameOutcome, deletions: Option<nat>)

  function Reach(s: Migration, e: Event): (r: Step<Migration>)
    ensures r.plan == s.(target := r.plan.target) && !r.Dead?
    ensures s.target.Some? || !e.Appear? ==> r.plan == s
  {
    match e
    case Proceed => Go(s)
    case Raise => Exc(s)
    case Appear(node) => Go(if s.target.None? then s.(target := Some(node)) else s)
  }

  /** `_record_plan_diagnostic`, which swallows its own failures. */
  function Record(s: Migration, e: Event): Migration {
    if e.Raise? || s.transaction.None? || Lookup(s.transaction.value, DIAGNOSTIC).Some? then s
    else s.(transaction := Some(With(s.transaction.value, Entry(DIAGNOSTIC, File))))
  }

  // ----- Cleanup -----

  function Cleanup(s: Migration, env: Env, preserve: set<string>): Step<Migration> {
    if s.transaction.None? then Go(s) else
    var s :- Reach(s, env.at(BeginCleanup));
    if !Ordinary(s.transaction.value) then Exc(s) else
    var r := Remove(s.transaction.value, OWNER, preserve, env.deletions);
    var s := s.(transaction := Some(r.children));
    if !r.finished then Exc(s) else Go(s)
  }

  /** `rmdir` of the transaction directory. */
  function RemoveEmptyRoot(s: Migration, env: Env): Step<Migration> {
    var s :- Reach(s, env.at(RemoveRoot));
    if s.transaction != Some([]) then Exc(s) else Go(s.(transaction := None))
  }

  function RemoveDiagnosticAndRoot(s: Migration, env: Env): Step<Migration> {
    if s.transaction.None? then Exc(s) else
    var s :- Reach(s, env.at(UnlinkDiagnostic));
    if Lookup(s.transaction.value, DIAGNOSTIC) != Some(File) then Exc(s) else
    var s :- RemoveEmptyRoot(s.(transaction := Some(Without(s.transaction.value, DIAGNOSTIC))), env);
    Reach(s, env.at(SyncParent))
  }

  function RemoveTransaction(s: Migration, env: Env): Step<Migration> {
    var s :- Cleanup(s, env, {DIAGNOSTIC});
    RemoveDiagnosticAndRoot(s, env)
  }

  /** `_release_plan_locks`: each lock is tried, and one that cannot be released stays owned. */
  function ReleaseLocks(s: Migration, env: Env): Step<Migration> {
    var s := s.(
      targetLock := s.targetLock && env.at(ReleaseTarget).Raise?,
      sourceLock := s.sourceLock && env.at(ReleaseSource).Raise?);
    if s.targetLock || s.sourceLock then Exc(s) else Go(s)
  }

  function Trees(transaction: Option<seq<Entry>>): seq<seq<Entry>> {
    if transaction.Some? then [transaction.value] else []
  }

  /** `_retain_cleanup_diagnostic`: in the transaction directory, or in a new one if that cannot be looked at. */
  function RetainDiagnostic(s: Migration, env: Env): Migration {
    if s.transaction.Some? && !env.at(StatRoot).Raise? then Record(s, env.at(RecordRetained))
    else if env.at(MakeRecoveryRoot).Raise? then s
    else Record(s.(transaction := Some([]), recovery := true, abandoned := s.abandoned + Trees(s.transaction)),
        env.at(RecordRetained))
  }

  /** `_finish_committed_publication`. */
  function Finish(s: Migration, env: Env): Step<Migration> {
    var removed := RemoveTransaction(s, env);
    var r := if removed.Go? then ReleaseLocks(removed.plan, env) else removed;
    if r.Go? then Go(r.plan.(state := Applied, cleanupFailed := false))
    else Exc(RetainDiagnostic(r.plan.(state := Failed, cleanupFailed := true), env))
  }

  // ----- Publication -----

  function Prepare(s: Migration, handoff: nat, env: Env): Step<Migration> {
    if s.state != Resolved then Exc(s) else
    var s :- Reach(s, env.at(ValidatePublication));
    if s.Staging().None? || IdentityOf(s.Staging().value) != Some(s.stagingIdentity) then Exc(s)
    else if s.target.Some? || !s.sourceLock || !s.targetLock then Exc(s)
    else
      var staging := s.Staging().value;
      var prepared := s.(
        token := Some(handoff), validatedMode := staging.mode, validated := staging.children, state := Ready);
      Go(Record(prepared, env.at(RecordPrepared)))
  }

  /**
   `renameat2` with RENAME_NOREPLACE from the transaction to the target; a directory that gets another parent is
   written.
   */
  function RenameToTarget(s: Migration, outcome: RenameOutcome): Step<Migration> {
    var s := s.(renames := s.renames + 1);
    if outcome.Fails? || s.Staging().None? || s.target.Some? then Exc(s)
    else if s.Staging().value.Directory? && !OwnerWrites(s.Staging().value.mode) then Exc(s)
    else
      var moved := s.(target := s.Staging(), transaction := Some(Without(s.transaction.value, STAGING)));
      if outcome.Renames? then Go(moved) else Exc(moved)
  }

  function AttemptRename(s: Migration, env: Env): Step<Migration> {
    var s :- Reach(s, env.at(LastCheckpoint));
    RenameToTarget(s.(publication := Uncertain), env.rename)
  }

  /** What a failed attempt is taken for: the two names are looked at again. */
  function Reconcile(s: Migration, env: Env): Step<Migration> {
    var s :- Reach(s, env.at(StatTarget));
    var target := s.target;
    var s :- Reach(s, env.at(StatStaging));
    var staging := s.Staging();
    var expected := Some(s.stagingIdentity);
    if target.None? || IdentityOf(target.value) != expected || staging.Some? then
      Exc(if target.None? && staging.Some? && IdentityOf(staging.value) == expected
          then s.(publication := NotPublished) else s)
    else Go(s.(publication := Published))
  }

  function PublishTarget(s: Migration, env: Env): Step<Migration> {
    var attempt := AttemptRename(s, env);
    var s :- if attempt.Exc? then Reconcile(attempt.plan, env) else attempt;
    Commit(s, env)
  }

  /** The look at the target after the rename, and the two assignments that commit. */
  function Commit(s: Migration, env: Env): Step<Migration> {
    var s :- Reach(s, env.at(StatPublished));
    if !s.Holds() then Exc(s) else
    var s :- Reach(s.(committed := true), env.at(SetPublished));
    Go(s.(publication := Published))
  }

  function VerifyAndFinish(s: Migration, env: Env): Step<Migration> {
    var s :- Reach(s, env.at(VerifySnapshot));
    if s.token.None? || !s.MatchesValidated() then Exc(s) else Finish(s, env)
  }

  function RetryRaw(s: Migration, env: Env): Step<Migration> {
    var begun := Reach(s, env.at(RetryCheckpoint));
    var r := if begun.Go? then VerifyAndFinish(begun.plan, env) else begun;
    if r.Go? then r else Exc(Record(r.plan.(state := Failed, cleanupFailed := true), env.at(RecordRetry)))
  }

  function PublishAndFinish(s: Migration, env: Env): Step<Migration> {
    var published := PublishTarget(s, env);
    if !published.Go? then Exc(Record(published.plan.(state := Failed), env.at(RecordPublication)))
    else
      var r := VerifyAndFinish(published.plan, env);
      if r.Go? then r
      else Exc(Record(r.plan.(state := Failed, cleanupFailed := true), env.at(RecordOutcome)))
  }

  predicate StagingIsValid(s: Migration) {
    s.Staging() == Some(Directory(s.stagingIdentity, s.validatedMode, s.validated))
  }

  /** `_apply_pack_copy_migration_raw`. */
  function ApplyRaw(s: Migration, env: Env): Step<Migration> {
    if s.committed then RetryRaw(s, env)
    else if s.state != Ready || s.token.None? || !s.sourceLock || !s.targetLock then Exc(s)
    else
      var s :- Reach(s, env.at(CheckSources));
      if !StagingIsValid(s) then Exc(s) else
      var s :- Reach(s, env.at(CheckTarget));
      if s.target.Some? then Exc(s) else
      var s :- Reach(s.(state := Applying), env.at(OpenForPublication));
      PublishAndFinish(s, env)
  }

  /** `apply_pack_copy_migration_at` with an issued handoff. */
  function Apply(s: Migration, handoff: nat, env: Env): Step<Migration> {
    if s.token != Some(handoff) || s.state == Applied || s.committed then Exc(s)
    else
      var r := ApplyRaw(s, env);
      if r.Go? then r
      else
        var failed := if r.plan.committed then r.plan else r.plan.(state := Failed);
        Exc(Record(failed.(cleanupFailed := true), env.at(RecordApply)))
  }

  /** `retry_pack_migration_cleanup`. */
  function Retry(s: Migration, handoff: nat, env: Env): Step<Migration> {
    if s.token != Some(handoff) || !s.committed || !s.cleanupFailed then Exc(s) else
    var s :- Reach(s, env.at(BeginRetry));
    ApplyRaw(s, env)
  }

  function TryDiscard(s: Migration, env: Env): Step<Migration> {
    var s :- Reach(s, env.at(StopResolver));
    var s :- Cleanup(s, env, {});
    var s :- if s.transaction.Some? then RemoveEmptyRoot(s, env) else Go(s);
    ReleaseLocks(s, env)
  }

  /** `discard_pack_migration_plan`. */
  function Discard(s: Migration, env: Env): Step<Migration> {
    if s.publication != NotPublished || s.committed || s.state in {Applied, Applying} then Exc(s)
    else if s.state == Discarded then Go(s)
    else
      var r := TryDiscard(s.(state := Discarding), env);
      if r.Go? then Go(r.plan.(state := Discarded, cleanupFailed := false))
      else Exc(Record(r.plan.(state := Failed, cleanupFailed := true), env.at(RecordDiscard)))
  }
}
