/** When the publication of Content commits, and what it leaves when it does. */
module ContentCommitProofs {
  import opened Common
  import opened ContentPublication
  import opened ContentPublicationProofs

  // ----- One apply -----

  /** What planning put in place is still there. */
  ghost predicate InPlace(s: Plan) {
    && s.In(Live) == s.baseline && s.In(Staging) == Some(s.staged)
    && (s.baseline.Some? ==> s.In(RetainedOriginal).None?)
  }

  /** Nothing interrupts the publication up to its commit; the original is only looked at if there is one. */
  ghost predicate GoesOn(s: Plan, env: Env) {
    && env(CheckIdentities).Proceed? && env(ReadBaseline).Proceed? && env(ReadStaged).Proceed?
    && env(OpenDirectories).Proceed? && env(Publish).Proceed? && env(VerifyPublished).Proceed?
    && (s.baseline.Some? ==>
          env(VerifyOriginal).Proceed? && env(RetainOriginal).Proceed? && env(RecordRetained).Proceed?)
    && env(TouchCompleted).Proceed?
  }

  /** The result is live, the baseline is retained, and the rest is where it was. */
  ghost predicate Published(s: Plan, t: Plan) {
    && t.In(Live) == Some(s.staged) && t.In(Staging).None?
    && t.In(RetainedOriginal) == (if s.baseline.Some? then s.baseline else s.In(RetainedOriginal))
    && t.In(RetainedFailed) == s.In(RetainedFailed) && t.In(RetainedDiscarded) == s.In(RetainedDiscarded)
    && SamePlan(s, t)
  }

  /** What the `try` block has done when it comes to the lock. */
  function CommittedPlan(s: Plan): Plan {
    var moved := s.slots.(live := Some(s.staged), staging := None);
    s.(active := true, committed := true,
       exchangeName := if s.baseline.Some? then Some(RetainedOriginal) else None,
       slots := if s.baseline.Some? then moved.(retainedOriginal := s.baseline) else moved)
  }

  lemma PublishesInPlace(s: Plan, env: Env)
    requires s.In(Live) == s.baseline && s.In(Staging) == Some(s.staged) && env(Publish).Proceed?
    ensures
      var r := PublishStaged(s, env);
      && r.Go? && r.plan == s.(active := true, exchangeName := r.plan.exchangeName, slots := r.plan.slots)
      && r.plan.exchangeName == (if s.baseline.Some? then Some(Staging) else None)
      && r.plan.slots == s.slots.(live := Some(s.staged), staging := s.baseline)
  {
  }

  lemma TryApplyCommits(s: Plan, env: Env)
    requires Quiet(env) && InPlace(s) && GoesOn(s, env)
    ensures TryApply(s, env) ==
            var released := Release(CommittedPlan(s), env);
            if released.Go? then Go(released.plan.(state := Applied)) else released
  {
    assert CheckBeforePublication(s, env) == Go(s);
    PublishesInPlace(s, env);
    var published := PublishStaged(s, env).plan;
    var retained := RetainExchanged(published, env);
    assert retained.Go? && retained.plan.(committed := true) == CommittedPlan(s);
  }

  lemma TryApplyStops(s: Plan, env: Env)
    requires Quiet(env) && !s.committed && !(InPlace(s) && GoesOn(s, env))
    ensures !TryApply(s, env).Go? && !TryApply(s, env).plan.committed
  {
    ChecksReadOnly(s, env);
    if CheckBeforePublication(s, env).Go? {
      PublishExchanges(s, env);
      var published := PublishStaged(s, env);
      if published.Go? {
        PublishesInPlace(s, env);
        PublishingKeepsLife(published.plan, env);
      }
    }
  }

  /**
   For every ready plan and every interruption: the call commits exactly if what planning put in place is still there
   and nothing stops it before the commit, and it returns exactly if the lock is released too.  A commit puts the
   result in the place of the baseline, which is retained.
   */
  lemma CommitsExactlyWhen(s: Plan, env: Env)
    requires s.state == Ready && !s.committed && Quiet(env)
    ensures
      var r := Apply(s, env);
      && (r.plan.committed <==> InPlace(s) && GoesOn(s, env))
      && (r.Go? <==> r.plan.committed && (s.lockHeld ==> env(ReleaseLock).Proceed?))
      && (r.plan.committed ==> Published(s, r.plan))
      && (r.Go? ==> r.plan.state == Applied && !r.plan.lockHeld)
      && (r.plan.committed && !r.Go? ==> r.plan.lockHeld && r.plan.state == if r.Exc? then Failed else Applying)
      && (r.Exc? ==> r.plan.state == Failed)
  {
    var entered := s.(state := Applying);
    if InPlace(s) && GoesOn(s, env) {
      assert InPlace(entered) && GoesOn(entered, env);
      TryApplyCommits(entered, env);
    } else {
      TryApplyStops(entered, env);
    }
  }

  /** The same for a plan as planning hands it out. */
  lemma FreshPlanIsPublished(s: Plan, env: Env)
    requires Fresh(s) && s.state == Ready && Quiet(env)
    ensures
      var r := Apply(s, env);
      && (r.plan.committed <==> GoesOn(s, env))
      && (r.Go? <==> GoesOn(s, env) && env(ReleaseLock).Proceed?)
      && (r.plan.committed ==>
            && r.plan.In(Live) == Some(s.staged) && r.plan.In(RetainedOriginal) == s.baseline
            && r.plan.In(Staging).None? && r.plan.In(RetainedFailed).None? && r.plan.In(RetainedDiscarded).None?)
      && (r.Go? ==> r.plan.state == Applied && !r.plan.lockHeld)
  {
    CommitsExactlyWhen(s, env);
  }

  // ----- A publication that fails -----

  const ROLLBACK_POINTS: set<Point> := {
    OpenForRollback, ReadLive, ReadOriginal, ExchangeBack, LeaveExchange, RetainFailed, ReadRestored
  }

  /**
   An apply that raises before its commit, outside the gap, and whose rollback goes on: the baseline is live again, the
   result is kept aside, and nothing is left to undo.
   */
  lemma RaisedApplyIsUndone(s: Plan, env: Env)
    requires Fresh(s) && s.state == Ready && Quiet(env) && !MeetsGap(s, ApplyCall(env))
    requires forall p :: p in ROLLBACK_POINTS ==> env(p).Proceed?
    requires Apply(s, env).Exc? && !Apply(s, env).plan.committed
    ensures
      var t := Apply(s, env).plan;
      && t.state == Failed && !t.active && t.exchangeName.None? && t.lockHeld && t.In(Live) == s.baseline
      && (t.In(Staging) == Some(s.staged) || t.In(RetainedFailed) == Some(s.staged))
      && t.In(RetainedOriginal).None? && t.In(RetainedDiscarded).None?
  {
    var entered := s.(state := Applying);
    assert s == entered.(state := Ready);
    TryApplyKeepsInv(entered, env);
    TryApplyKeepsRoom(entered, env);
    TryApplyKeepsLife(entered, env);
    var r := TryApply(entered, env);
    TryApplyStopsAt(entered, env);
    assert OpenForRollback in ROLLBACK_POINTS && ReadLive in ROLLBACK_POINTS && ReadOriginal in ROLLBACK_POINTS
        && ExchangeBack in ROLLBACK_POINTS && LeaveExchange in ROLLBACK_POINTS && RetainFailed in ROLLBACK_POINTS
        && ReadRestored in ROLLBACK_POINTS;
    if r.plan.active { UndoneRollback(r.plan, env); }
  }

  /** Where a publication that does not commit leaves the trees. */
  ghost predicate Uncommitted(s: Plan, t: Plan) {
    || (t.slots == s.slots && (t.active ==> t.exchangeName.None? || t.exchangeName == Some(Staging))
        && (!t.active ==> t.exchangeName == s.exchangeName))
    || (t.active && t.slots == s.slots.(live := Some(s.staged), staging := s.baseline)
        && t.exchangeName == (if s.baseline.Some? then Some(Staging) else None))
    || (t.active && s.baseline.Some? && t.exchangeName == Some(RetainedOriginal)
        && t.slots == s.slots.(live := Some(s.staged), staging := None, retainedOriginal := s.baseline))
  }

  lemma TryApplyStopsAt(s: Plan, env: Env)
    requires Quiet(env) && !s.committed && !s.active && s.state == Applying
    requires !MeetsGap(s.(state := Ready), ApplyCall(env)) && !TryApply(s, env).plan.committed
    ensures Uncommitted(s, TryApply(s, env).plan)
  {
    ChecksReadOnly(s, env);
    if CheckBeforePublication(s, env).Go? {
      PublishExchanges(s, env);
      if PublishStaged(s, env).Go? {
        PublishesInPlace(s, env);
        if env(VerifyPublished).Proceed? {
          assert s.baseline.Some? && s.In(RetainedOriginal).None? ==> !InterruptedRecord(env);
          RetainStopsAt(s, PublishStaged(s, env).plan, env);
        }
      }
    }
  }

  lemma RetainStopsAt(s: Plan, published: Plan, env: Env)
    requires Quiet(env) && published.active
    requires published.slots == s.slots.(live := Some(s.staged), staging := s.baseline)
    requires published.baseline == s.baseline
    requires published.exchangeName == (if s.baseline.Some? then Some(Staging) else None)
    requires s.baseline.Some? && s.In(RetainedOriginal).None? ==>
               !(env(VerifyOriginal).Proceed? && env(RetainOriginal).Proceed?) || env(RecordRetained).Proceed?
    ensures Uncommitted(s, RetainExchanged(published, env).plan)
  {
  }

  lemma UndoneRollback(s: Plan, env: Env)
    requires Inv(s) && HasRoom(s) && s.active && !s.committed && s.state != Ready && Quiet(env)
    requires env(OpenForRollback).Proceed? && env(ReadLive).Proceed? && env(ReadOriginal).Proceed?
    requires env(ExchangeBack).Proceed? && env(LeaveExchange).Proceed? && env(RetainFailed).Proceed?
    requires env(ReadRestored).Proceed?
    ensures
      var r := Rollback(s, env);
      && r.Go? && r.plan.In(Live) == s.baseline && !r.plan.active && r.plan.exchangeName.None?
      && (s.In(Live) != s.baseline ==> r.plan.In(RetainedFailed) == Some(s.staged))
      && (s.In(Live) == s.baseline ==> r.plan.slots == s.slots)
      && (s.In(Live) != s.baseline && s.baseline.Some? ==>
            && s.exchangeName.Some?
            && r.plan.slots == s.slots.(live := s.baseline, retainedFailed := Some(s.staged))
                               .Put(s.exchangeName.value, None))
      && (s.In(Live) != s.baseline && s.baseline.None? ==>
            r.plan.slots == s.slots.(live := None, retainedFailed := Some(s.staged)))
  {
  }

  // ----- Runs -----

  /** An apply that commits its plan. */
  ghost predicate Commits(s: Plan, call: Call) {
    call.ApplyCall? && s.state == Ready && InPlace(s) && GoesOn(s, call.env)
  }

  ghost predicate RunCommits(s: Plan, calls: seq<Call>)
    decreases |calls|
  {
    && calls != []
    && (Commits(s, calls[0])
        || (!Perform(s, calls[0]).Dead? && RunCommits(Perform(s, calls[0]).plan, calls[1..])))
  }

  lemma DiscardCommitsNothing(s: Plan, env: Env)
    ensures Discard(s, env).plan.committed == s.committed
    ensures Discard(s, env).plan.state == Ready ==> s.state == Ready
  {
  }

  /** Over every run: the plan is committed at its end exactly if some apply of the run committed it. */
  lemma {:induction false} CommittedExactlyWhen(s: Plan, calls: seq<Call>)
    requires Life(s) && AllQuiet(calls)
    ensures Run(s, calls).plan.committed <==> s.committed || RunCommits(s, calls)
    decreases |calls|
  {
    if calls != [] {
      var r := Perform(s, calls[0]);
      CallKeepsLife(s, calls[0]);
      match calls[0] {
        case ApplyCall(env) => if s.state == Ready { CommitsExactlyWhen(s, env); }
        case DiscardCall(env) => DiscardCommitsNothing(s, env);
      }
      if !r.Dead? { CommittedExactlyWhen(r.plan, calls[1..]); }
    }
  }

  // ----- Calls that are refused -----

  /** Only a ready plan is published; any other call of apply raises and changes nothing. */
  lemma OnlyReadyIsApplied(s: Plan, env: Env)
    requires s.state != Ready
    ensures Apply(s, env) == Exc(s)
  {
  }

  // ----- External writers -----

  /** Whatever the environment does: a live tree that is not the result when it is verified is not committed. */
  lemma TamperedResultIsNotCommitted(s: Plan, env: Env, x: Option<Tree>)
    requires s.state == Ready && !s.committed && env(VerifyPublished) == External(x) && x != Some(s.staged)
    ensures !Apply(s, env).plan.committed && !Apply(s, env).Go?
  {
    var entered := s.(state := Applying);
    var checked := CheckBeforePublication(entered, env);
    var published := PublishStaged(checked.plan, env);
    PublishingKeepsLife(checked.plan, env);
    assert published.Go? ==> Reach(published.plan, env(VerifyPublished)).plan.In(Live) == x;
    assert !TryApply(entered, env).Go? && !TryApply(entered, env).plan.committed;
  }

  /**
   Whatever the environment does: a rollback that returns has looked at the live tree, and it is the baseline or what
   was found at the exchange name.
   */
  lemma RollbackHasLooked(s: Plan, env: Env)
    requires s.exchangeName != Some(Live) && Rollback(s, env).Go?
    ensures
      var t := Rollback(s, env).plan;
      && !t.active && t.exchangeName.None?
      && (|| t.In(Live) == s.baseline
          || (s.baseline.Some? && s.exchangeName.Some? && t.In(Live) == s.In(s.exchangeName.value)))
  {
  }

  /** The point at which a writer makes a tree where there was none, and everything before it goes on. */
  ghost predicate AppearsAt(env: Env, p: Point, x: Tree) {
    && p in RACE_WINDOW && env(p) == External(Some(x)) && (forall q :: q != p ==> !env(q).External?)
    && env(CheckIdentities).Proceed? && env(ReadBaseline).Proceed?
    && (p != ReadStaged ==> env(ReadStaged).Proceed?) && (p == Publish ==> env(OpenDirectories).Proceed?)
  }

  /** Where there was no Content, a tree that appears is not replaced, and no rollback moves it. */
  lemma AppearingTreeStays(s: Plan, env: Env, p: Point, x: Tree)
    requires Fresh(s) && s.state == Ready && s.baseline.None? && AppearsAt(env, p, x) && x.digest != s.staged.digest
    ensures
      var t := Apply(s, env).plan;
      !t.committed && t.In(Live) == Some(x) && t.In(Staging) == Some(s.staged)
  {
    var entered := s.(state := Applying);
    var appeared := entered.(slots := entered.slots.Put(Live, Some(x)));
    var checked := CheckBeforePublication(entered, env);
    assert checked.plan == (if p == Publish then entered else appeared);
    var r := TryApply(entered, env);
    assert !r.Go? && !r.plan.committed && r.plan.slots == appeared.slots;
    if r.plan.active { AppearedSurvivesRollback(r.plan, env, x); }
  }

  lemma AppearedSurvivesRollback(s: Plan, env: Env, x: Tree)
    requires s.In(Live) == Some(x) && s.baseline.None? && x.digest != s.staged.digest
    requires forall q :: q !in RACE_WINDOW ==> !env(q).External?
    ensures Rollback(s, env).plan.slots == s.slots
  {
    assert Reach(s, env(OpenForRollback)).plan == s && Reach(s, env(ReadLive)).plan == s;
  }

  // ----- Discarding -----

  /** Nothing stops the rollback of a publication, if there is one to be rolled back. */
  ghost predicate RollbackGoesOn(s: Plan, env: Env) {
    && env(OpenForRollback).Proceed? && env(ReadLive).Proceed?
    && (s.In(Live) != s.baseline ==>
          && env(RetainFailed).Proceed? && env(ReadRestored).Proceed?
          && (s.baseline.Some? ==>
                env(ReadOriginal).Proceed? && env(ExchangeBack).Proceed? && env(LeaveExchange).Proceed?))
  }

  lemma RollsBackExactlyWhen(s: Plan, env: Env)
    requires Inv(s) && HasRoom(s) && s.active && !s.committed && s.state != Ready && Quiet(env)
    ensures Rollback(s, env).Go? <==> RollbackGoesOn(s, env)
    ensures Rollback(s, env).Go? ==>
              Rollback(s, env).plan == ForgetPublication(s).(slots := Rollback(s, env).plan.slots)
  {
  }

  /** What is left to do of a discard: the staged tree is kept aside, a marker is made, the lock is released. */
  ghost predicate FinishGoesOn(s: Plan, env: Env) {
    && (s.In(Staging).Some? && s.In(RetainedDiscarded).None? ==> env(RetainDiscarded).Proceed?)
    && env(TouchMarker).Proceed? && (s.lockHeld ==> env(ReleaseLock).Proceed?)
  }

  /** The places after a discard. */
  function Retained(slots: Slots): Slots {
    if slots.staging.Some? && slots.retainedDiscarded.None?
    then slots.(staging := None, retainedDiscarded := slots.staging) else slots
  }

  lemma FinishesExactlyWhen(s: Plan, env: Env)
    requires Quiet(env)
    ensures
      var r := FinishDiscard(s, env);
      && (r.Go? <==> FinishGoesOn(s, env))
      && (r.Go? ==> r.plan == s.(
            state := if s.committed then Applied else Discarded, lockHeld := false, slots := Retained(s.slots)))
      && (env(ReleaseLock).Raise? && r.Exc? && env(TouchMarker).Proceed?
          && (s.In(Staging).Some? && s.In(RetainedDiscarded).None? ==> env(RetainDiscarded).Proceed?) ==>
            r.plan == s.(state := Failed, slots := Retained(s.slots)))
      && (r.plan.state == Ready ==> s.state == Ready)
  {
  }

  /**
   For every plan that a run can leave, and every interruption: a discard returns exactly if its deadline has not
   passed, no apply is under way, and nothing stops the rollback that may be needed nor what follows it.
   */
  lemma DiscardsExactlyWhen(s: Plan, env: Env)
    requires Inv(s) && HasRoom(s) && Quiet(env)
    ensures
      var r := Discard(s, env);
      var rolls := s.active && !s.committed;
      var back := if rolls then Rollback(s, env).plan else s;
      && (r.Go? <==>
            && env(CheckDeadline).Proceed? && s.state != Applying && (rolls ==> RollbackGoesOn(s, env))
            && FinishGoesOn(back, env))
      && (r.Go? ==>
            && r.plan.state == (if s.committed then Applied else Discarded) && !r.plan.lockHeld
            && r.plan.slots == Retained(back.slots) && r.plan.In(Live) == if rolls then s.baseline else s.In(Live))
      && (env(CheckDeadline).Raise? || (env(CheckDeadline).Proceed? && s.state == Applying) ==>
            r == Exc(s.(state := Failed)))
  {
    if s.active && !s.committed && s.state != Applying {
      RollsBackExactlyWhen(s, env);
      RollbackKeepsInv(s, env);
      var back := Rollback(s, env);
      if back.Go? { FinishesExactlyWhen(back.plan, env); }
    } else {
      FinishesExactlyWhen(s, env);
    }
  }
}
