/**
 The Content publication transaction of `content_operations.py`.

 A plan owns five named places on disk: the live Content tree of the project and four names inside
 its private transaction directory.  Publication exchanges the staged tree with the live one,
 verifies both, and commits; anything that goes wrong before the commit is rolled back, at once or
 by a later discard.

 Every call is given an environment, which says for each point of the source what happens on
 reaching it: nothing, an exception, the death of the process, or an external writer that replaces
 the live tree.  A point is named after the statement it stands in front of.
 */
module ContentPublication {
  import opened Common

  /** A directory tree, by what the protocol can see of it: its inode and its content digest. */
  datatype Tree = Tree(identity: nat, digest: nat)

  /** The digest of a snapshot without entries, which is also that of a missing Content directory. */
  const EMPTY_DIGEST: nat := 0

  function DigestOf(tree: Option<Tree>): nat {
    if tree.Some? then tree.value.digest else EMPTY_DIGEST
  }

  datatype Place = Live | Staging | RetainedOriginal | RetainedFailed | RetainedDiscarded

  datatype Slots = Slots(
    live: Option<Tree>,
    staging: Option<Tree>,
    retainedOriginal: Option<Tree>,
    retainedFailed: Option<Tree>,
    retainedDiscarded: Option<Tree>)
  {
    function At(place: Place): Option<Tree> {
      match place
      case Live => live
      case Staging => staging
      case RetainedOriginal => retainedOriginal
      case RetainedFailed => retainedFailed
      case RetainedDiscarded => retainedDiscarded
    }

    function Put(place: Place, tree: Option<Tree>): Slots {
      match place
      case Live => this.(live := tree)
      case Staging => this.(staging := tree)
      case RetainedOriginal => this.(retainedOriginal := tree)
      case RetainedFailed => this.(retainedFailed := tree)
      case RetainedDiscarded => this.(retainedDiscarded := tree)
    }
  }

  datatype PlanState = Ready | Applying | Applied | Failed | Discarded

  /** The fields of `ContentChangePlan` that the protocol reads or writes, and the places on disk. */
  datatype Plan = Plan(
    state: PlanState,
    active: bool,
    committed: bool,
    exchangeName: Option<Place>,
    lockHeld: bool,
    slots: Slots,
    baseline: Option<Tree>,
    staged: Tree)
  {
    function In(place: Place): Option<Tree> { slots.At(place) }
  }

  datatype Point =
      // apply_content_changes
    | CheckIdentities | ReadBaseline | ReadStaged | OpenDirectories | Publish | VerifyPublished
    | VerifyOriginal | RetainOriginal | RecordRetained | TouchCompleted
      // _rollback_publication
    | OpenForRollback | ReadLive | ReadOriginal | ExchangeBack | LeaveExchange | RetainFailed
    | ReadRestored
      // _run_discard
    | CheckDeadline | RetainDiscarded | TouchMarker
      // both
    | ReleaseLock

  datatype Event = Proceed | Raise | Kill | External(content: Option<Tree>)

  type Env = Point -> Event

  // ----- Atomic steps -----

  /** Only the places on disk differ. */
  predicate MovesOnly(s: Plan, t: Plan) {
    t == s.(slots := t.slots)
  }

  /** Reaching a point: the environment acts before the statement behind the point does. */
  function Reach(s: Plan, e: Event): (r: Step<Plan>)
    ensures MovesOnly(s, r.plan)
  {
    match e
    case Proceed => Go(s)
    case Raise => Exc(s)
    case Kill => Dead(s)
    case External(content) => Go(s.(slots := s.slots.Put(Live, content)))
  }

  /** `renameat2` with RENAME_EXCHANGE: both names must exist. */
  function Exchange(s: Plan, a: Place, b: Place): (r: Step<Plan>)
    ensures MovesOnly(s, r.plan)
  {
    if s.In(a).Some? && s.In(b).Some?
    then Go(s.(slots := s.slots.Put(a, s.In(b)).Put(b, s.In(a))))
    else Exc(s)
  }

  /** `renameat2` with RENAME_NOREPLACE: the source must exist and the destination must not. */
  function Rename(s: Plan, from: Place, to: Place): (r: Step<Plan>)
    ensures MovesOnly(s, r.plan)
  {
    if s.In(from).Some? && s.In(to).None?
    then Go(s.(slots := s.slots.Put(from, None).Put(to, s.In(from))))
    else Exc(s)
  }

  /** What planning fixed: the baseline to return to and the tree to publish. */
  predicate SamePlan(s: Plan, t: Plan) {
    t.baseline == s.baseline && t.staged == s.staged
  }

  // ----- What each method computes -----

  function CheckBeforePublication(s: Plan, env: Env): (r: Step<Plan>)
    ensures MovesOnly(s, r.plan)
  {
    var s :- Reach(s, env(CheckIdentities));
    if s.In(Staging).None? || s.In(Staging).value.identity != s.staged.identity then Exc(s) else
    var s :- Reach(s, env(ReadBaseline));
    if s.In(Live) != s.baseline then Exc(s) else
    var s :- Reach(s, env(ReadStaged));
    if DigestOf(s.In(Staging)) != s.staged.digest then Exc(s) else
    Reach(s, env(OpenDirectories))
  }

  function PublishStaged(s: Plan, env: Env): (r: Step<Plan>)
    ensures SamePlan(s, r.plan)
  {
    var s := s.(active := true, exchangeName := if s.baseline.Some? then Some(Staging) else None);
    var s :- Reach(s, env(Publish));
    if s.baseline.Some? then Exchange(s, Staging, Live) else Rename(s, Staging, Live)
  }

  function RetainExchanged(s: Plan, env: Env): (r: Step<Plan>)
    ensures SamePlan(s, r.plan)
  {
    if s.baseline.None? then Go(s) else
    var s :- Reach(s, env(VerifyOriginal));
    if s.In(Staging) != s.baseline then Exc(s) else
    var s :- Reach(s, env(RetainOriginal));
    var s :- Rename(s, Staging, RetainedOriginal);
    var s :- Reach(s, env(RecordRetained));
    Go(s.(exchangeName := Some(RetainedOriginal)))
  }

  function Release(s: Plan, env: Env): (r: Step<Plan>)
    ensures SamePlan(s, r.plan)
  {
    if !s.lockHeld then Go(s) else
    var s :- Reach(s, env(ReleaseLock));
    Go(s.(lockHeld := false))
  }

  /** The `try` block of `apply_content_changes`. */
  function TryApply(s: Plan, env: Env): (r: Step<Plan>)
    ensures SamePlan(s, r.plan)
  {
    var s :- CheckBeforePublication(s, env);
    var s :- PublishStaged(s, env);
    var s :- Reach(s, env(VerifyPublished));
    if s.In(Live) != Some(s.staged) then Exc(s) else
    var s :- RetainExchanged(s, env);
    var s :- Reach(s, env(TouchCompleted));
    var s :- Release(s.(committed := true), env);
    Go(s.(state := Applied))
  }

  function ForgetPublication(s: Plan): Plan {
    s.(active := false, exchangeName := None)
  }

  /** The branch of `_rollback_publication` for an original that is not the baseline. */
  function RestoreExternal(s: Plan, name: Place, env: Env): (r: Step<Plan>)
    ensures MovesOnly(if r.Go? then ForgetPublication(s) else s, r.plan)
  {
    var original := s.In(name);
    var s :- Reach(s, env(ExchangeBack));
    var s :- Exchange(s, name, Live);
    var s :- Reach(s, env(ReadRestored));
    if s.In(Live) != original then Exc(s) else Go(ForgetPublication(s))
  }

  function RestoreBaseline(s: Plan, name: Place, env: Env): (r: Step<Plan>)
    ensures MovesOnly(s, r.plan)
  {
    var s :- Reach(s, env(ExchangeBack));
    var s :- Exchange(s, name, Live);
    var s :- Reach(s, env(LeaveExchange));
    var s :- Reach(s, env(RetainFailed));
    Rename(s, name, RetainedFailed)
  }

  function WithdrawPublished(s: Plan, env: Env): (r: Step<Plan>)
    ensures MovesOnly(s, r.plan)
  {
    var s :- Reach(s, env(RetainFailed));
    Rename(s, Live, RetainedFailed)
  }

  function CheckRestored(s: Plan, env: Env): (r: Step<Plan>)
    ensures MovesOnly(if r.Go? then ForgetPublication(s) else s, r.plan)
  {
    var s :- Reach(s, env(ReadRestored));
    if s.In(Live) != s.baseline then Exc(s) else Go(ForgetPublication(s))
  }

  function Rollback(s: Plan, env: Env): (r: Step<Plan>)
    ensures MovesOnly(if r.Go? then ForgetPublication(s) else s, r.plan)
  {
    var s :- Reach(s, env(OpenForRollback));
    var s :- Reach(s, env(ReadLive));
    if s.In(Live) == s.baseline then Go(ForgetPublication(s))
    else if DigestOf(s.In(Live)) != s.staged.digest then Exc(s)
    else if s.baseline.None? then
      var s :- WithdrawPublished(s, env);
      CheckRestored(s, env)
    else if s.exchangeName.None? then Exc(s)
    else
      var name := s.exchangeName.value;
      var s :- Reach(s, env(ReadOriginal));
      if s.In(name) != s.baseline then RestoreExternal(s, name, env)
      else
        var s :- RestoreBaseline(s, name, env);
        CheckRestored(s, env)
  }

  /** The `except BaseException` block of `apply_content_changes`. */
  function HandleFailure(s: Plan, env: Env): (r: Step<Plan>)
    ensures SamePlan(s, r.plan)
  {
    if s.active && !s.committed then
      var r := Rollback(s, env);
      if r.Dead? then r else Exc(r.plan.(state := Failed))
    else Exc(s.(state := Failed))
  }

  function Apply(s: Plan, env: Env): (r: Step<Plan>)
    ensures SamePlan(s, r.plan)
  {
    if s.state != Ready then Exc(s)
    else
      var r := TryApply(s.(state := Applying), env);
      if r.Exc? then HandleFailure(r.plan, env) else r
  }

  function RetainDiscardedStaging(s: Plan, env: Env): Step<Plan> {
    if s.In(Staging).Some? && s.In(RetainedDiscarded).None? then
      var s :- Reach(s, env(RetainDiscarded));
      Rename(s, Staging, RetainedDiscarded)
    else Go(s)
  }

  function FinishDiscard(s: Plan, env: Env): (r: Step<Plan>)
    ensures SamePlan(s, r.plan)
  {
    var s :- RetainDiscardedStaging(s, env);
    var s :- Reach(s, env(TouchMarker));
    var r := Release(s, env);
    match r
    case Go(s) => Go(s.(state := if s.committed then Applied else Discarded))
    case Exc(s) => Exc(s.(state := Failed))
    case Dead(_) => r
  }

  /** `_run_discard`; `Raise` at `CheckDeadline` is a deadline that has passed. */
  function Discard(s: Plan, env: Env): (r: Step<Plan>)
    ensures SamePlan(s, r.plan)
  {
    var begun := Reach(s, env(CheckDeadline));
    if begun.Dead? then begun
    else if begun.Exc? || begun.plan.state == Applying then Exc(begun.plan.(state := Failed))
    else if begun.plan.active && !begun.plan.committed then
      var s :- Rollback(begun.plan, env);
      FinishDiscard(s, env)
    else FinishDiscard(begun.plan, env)
  }
}
