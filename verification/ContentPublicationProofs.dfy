/** What the publication transaction keeps, over every interruption and every run of calls. */
module ContentPublicationProofs {
  import opened Common
  import opened ContentPublication

  // ----- Runs -----

  datatype Call = ApplyCall(env: Env) | DiscardCall(env: Env)

  function Perform(s: Plan, call: Call): Step<Plan> {
    match call
    case ApplyCall(env) => Apply(s, env)
    case DiscardCall(env) => Discard(s, env)
  }

  /** Calls one after the other, whether they return or raise; a dead process makes no more calls. */
  function Run(s: Plan, calls: seq<Call>): Step<Plan>
    decreases |calls|
  {
    if calls == [] then Go(s)
    else
      var r := Perform(s, calls[0]);
      if r.Dead? then r else Run(r.plan, calls[1..])
  }

  /** A plan as planning hands it out: the live tree is the baseline, the staged one is private. */
  ghost predicate Fresh(s: Plan) {
    && s.state in {Ready, Failed} && !s.active && !s.committed && s.exchangeName.None? && s.lockHeld
    && s.In(Live) == s.baseline && s.In(Staging) == Some(s.staged)
    && s.In(RetainedOriginal).None? && s.In(RetainedFailed).None? && s.In(RetainedDiscarded).None?
    && (s.baseline.Some? ==> s.baseline.value.identity != s.staged.identity)
  }

  /** No external writer touches the live tree. */
  ghost predicate Quiet(env: Env) {
    forall p: Point :: !env(p).External?
  }

  const BEFORE_RECORD: set<Point> := {
    CheckIdentities, ReadBaseline, ReadStaged, OpenDirectories, Publish, VerifyPublished, VerifyOriginal, RetainOriginal
  }

  /** The rename that retains the original takes effect, and is interrupted before it is recorded. */
  ghost predicate InterruptedRecord(env: Env) {
    && (forall p :: p in BEFORE_RECORD ==> env(p).Proceed?)
    && !env(RecordRetained).Proceed?
  }

  /** An apply that gets as far as retaining the original, and is interrupted before that is recorded. */
  ghost predicate MeetsGap(s: Plan, call: Call) {
    && call.ApplyCall? && s.state == Ready && s.baseline.Some?
    && s.In(Live) == s.baseline && s.In(Staging) == Some(s.staged) && s.In(RetainedOriginal).None?
    && InterruptedRecord(call.env)
  }

  /** Some call of the run meets the gap. */
  ghost predicate RunMeetsGap(s: Plan, calls: seq<Call>)
    decreases |calls|
  {
    && calls != []
    && (MeetsGap(s, calls[0])
        || (!Perform(s, calls[0]).Dead? && RunMeetsGap(Perform(s, calls[0]).plan, calls[1..])))
  }

  ghost predicate AllQuiet(calls: seq<Call>) {
    forall i :: 0 <= i < |calls| ==> Quiet(calls[i].env)
  }

  // ----- Interruption-safe publication -----

  ghost predicate Safe(s: Plan) {
    if s.committed then
      && s.In(Live) == Some(s.staged)
      && (s.baseline.Some? ==> s.In(RetainedOriginal) == s.baseline)
    else if !s.active then s.In(Live) == s.baseline
    else
      || s.In(Live) == s.baseline
      || (&& s.In(Live) == Some(s.staged)
          && (s.baseline.Some? ==> s.exchangeName.Some? && s.In(s.exchangeName.value) == s.baseline))
  }

  ghost predicate Inv(s: Plan) {
    && Safe(s)
    && (s.state == Ready ==> !s.active && !s.committed)
    && (s.exchangeName.Some? ==> s.exchangeName.value in {Staging, RetainedOriginal})
  }

  lemma RollbackKeepsInv(s: Plan, env: Env)
    requires Inv(s) && Quiet(env) && s.active && !s.committed && s.state != Ready
    ensures Inv(Rollback(s, env).plan)
    ensures Rollback(s, env).Go? ==> Rollback(s, env).plan.In(Live) == s.baseline
  {
  }

  /** The state in which the exchange has happened and can still be undone. */
  ghost predicate Exchanged(s: Plan) {
    && s.active && !s.committed && s.In(Live) == Some(s.staged)
    && s.exchangeName == (if s.baseline.Some? then Some(Staging) else None)
    && (s.baseline.Some? ==> s.In(Staging) == s.baseline)
  }

  lemma ChecksReadOnly(s: Plan, env: Env)
    requires Quiet(env)
    ensures CheckBeforePublication(s, env).plan == s
    ensures CheckBeforePublication(s, env).Go? ==>
              && s.In(Live) == s.baseline && s.In(Staging) == Some(s.staged)
              && env(CheckIdentities).Proceed? && env(ReadBaseline).Proceed?
              && env(ReadStaged).Proceed? && env(OpenDirectories).Proceed?
  {
  }

  lemma PublishExchanges(s: Plan, env: Env)
    requires Quiet(env) && s.In(Live) == s.baseline && s.In(Staging) == Some(s.staged) && !s.committed
    ensures
      var r := PublishStaged(s, env);
      && r.plan.active && r.plan.state == s.state
      && if r.Go? then Exchanged(r.plan) && env(Publish).Proceed? else
           && r.plan.slots == s.slots && !r.plan.committed && r.plan.baseline == s.baseline
           && (r.plan.exchangeName.Some? ==> r.plan.exchangeName == Some(Staging))
  {
  }

  lemma RetainingKeepsInv(s: Plan, env: Env)
    requires Quiet(env) && Exchanged(s) && s.state == Applying
    requires env(VerifyOriginal).Proceed? && env(RetainOriginal).Proceed? && s.baseline.Some? &&
             s.In(RetainedOriginal).None?
             ==> env(RecordRetained).Proceed?
    ensures
      var r := RetainExchanged(s, env);
      && Inv(r.plan) && r.plan.state == Applying && r.plan.active && !r.plan.committed
      && (r.Go? ==>
            && r.plan.In(Live) == Some(r.plan.staged)
            && (s.baseline.Some? ==> r.plan.In(RetainedOriginal) == s.baseline == r.plan.baseline))
      && r.plan.baseline == s.baseline
  {
  }

  lemma TryApplyKeepsInv(s: Plan, env: Env)
    requires Inv(s) && Quiet(env) && s.state == Applying && !s.active && !s.committed
    requires !MeetsGap(s.(state := Ready), ApplyCall(env))
    ensures Inv(TryApply(s, env).plan) && TryApply(s, env).plan.state in {Applying, Applied}
  {
    ChecksReadOnly(s, env);
    if CheckBeforePublication(s, env).Go? {
      PublishExchanges(s, env);
      var published := PublishStaged(s, env);
      if published.Go? && env(VerifyPublished).Proceed? {
        RetainingKeepsInv(published.plan, env);
      }
    }
  }

  lemma CallKeepsInv(s: Plan, call: Call)
    requires Inv(s) && Quiet(call.env) && !MeetsGap(s, call)
    ensures Inv(Perform(s, call).plan)
  {
    match call
    case ApplyCall(env) =>
      if s.state == Ready {
        assert s == s.(state := Applying).(state := Ready);
        TryApplyKeepsInv(s.(state := Applying), env);
        var r := TryApply(s.(state := Applying), env);
        if r.Exc? && r.plan.active && !r.plan.committed { RollbackKeepsInv(r.plan, env); }
      }
    case DiscardCall(env) =>
      DiscardKeepsInv(s, env);
  }

  lemma FinishKeepsInv(s: Plan, env: Env)
    requires Inv(s) && Quiet(env) && (s.active ==> s.committed)
    ensures Inv(FinishDiscard(s, env).plan)
  {
  }

  lemma DiscardKeepsInv(s: Plan, env: Env)
    requires Inv(s) && Quiet(env)
    ensures Inv(Discard(s, env).plan)
  {
    if s.active && !s.committed {
      RollbackKeepsInv(s, env);
      var r := Rollback(s, env);
      if r.Go? { FinishKeepsInv(r.plan, env); }
    } else {
      FinishKeepsInv(s, env);
    }
  }

  lemma {:induction false} InterruptionSafe(s: Plan, calls: seq<Call>)
    requires Inv(s) && AllQuiet(calls) && !RunMeetsGap(s, calls)
    ensures Inv(Run(s, calls).plan)
    decreases |calls|
  {
    if calls != [] {
      CallKeepsInv(s, calls[0]);
      if !Perform(s, calls[0]).Dead? { InterruptionSafe(Perform(s, calls[0]).plan, calls[1..]); }
    }
  }

  /** At any point of any run, also inside a rollback, the live tree and the way back are intact. */
  lemma PublicationIsInterruptionSafe(s: Plan, calls: seq<Call>)
    requires Fresh(s) && AllQuiet(calls) && !RunMeetsGap(s, calls)
    ensures
      var t := Run(s, calls).plan;
      && (!t.committed && !t.active ==> t.In(Live) == s.baseline)
      && (!t.committed && t.active ==>
            || t.In(Live) == s.baseline
            || (&& t.In(Live) == Some(s.staged)
                && (s.baseline.Some? ==> t.exchangeName.Some? && t.In(t.exchangeName.value) == s.baseline)))
      && (t.committed ==>
            && t.In(Live) == Some(s.staged)
            && (s.baseline.Some? ==> t.In(RetainedOriginal) == s.baseline))
  {
    InterruptionSafe(s, calls);
    PlanConstants(s, calls);
  }

  lemma {:induction false} PlanConstants(s: Plan, calls: seq<Call>)
    ensures Run(s, calls).plan.baseline == s.baseline && Run(s, calls).plan.staged == s.staged
    decreases |calls|
  {
    if calls != [] {
      PlanConstants(Perform(s, calls[0]).plan, calls[1..]);
    }
  }

  // ----- The one statement pair that is not interruption-safe -----

  lemma UnsafeIffRecordInterrupted(s: Plan, env: Env)
    requires Fresh(s) && s.state == Ready && s.baseline.Some? && Quiet(env)
    ensures Safe(Apply(s, env).plan) <==> !InterruptedRecord(env)
    ensures InterruptedRecord(env) ==> Stranded(Apply(s, env).plan)
  {
    if InterruptedRecord(env) { GapStrands(s, env); } else { CallKeepsInv(s, ApplyCall(env)); }
  }

  lemma GapStrands(s: Plan, env: Env)
    requires MeetsGap(s, ApplyCall(env)) && Quiet(env) && Inv(s) && s.lockHeld && s.baseline != Some(s.staged)
    ensures Stranded(Apply(s, env).plan)
  {
    assert forall p :: p in BEFORE_RECORD ==> env(p).Proceed?;
  }

  /** The result is live, the baseline is retained, and the plan looks for it under the wrong name. */
  ghost predicate Stranded(s: Plan) {
    && s.active && !s.committed && s.lockHeld && s.state in {Applying, Failed}
    && s.baseline.Some? && s.baseline != Some(s.staged)
    && s.In(Live) == Some(s.staged) && s.In(RetainedOriginal) == s.baseline
    && s.exchangeName == Some(Staging) && s.In(Staging).None?
  }

  lemma {:induction false} StrandedForever(s: Plan, calls: seq<Call>)
    requires Stranded(s) && AllQuiet(calls)
    ensures Stranded(Run(s, calls).plan)
    decreases |calls|
  {
    if calls != [] {
      assert Stranded(Perform(s, calls[0]).plan);
      StrandedForever(Perform(s, calls[0]).plan, calls[1..]);
    }
  }

  lemma {:induction false} UnsafeRun(s: Plan, calls: seq<Call>)
    requires Inv(s) && Life(s) && s.baseline != Some(s.staged) && AllQuiet(calls)
    ensures Safe(Run(s, calls).plan) <==> !RunMeetsGap(s, calls)
    ensures RunMeetsGap(s, calls) ==> Stranded(Run(s, calls).plan)
    decreases |calls|
  {
    if calls != [] {
      var r := Perform(s, calls[0]);
      if MeetsGap(s, calls[0]) {
        GapStrands(s, calls[0].env);
        if !r.Dead? { StrandedForever(r.plan, calls[1..]); }
      } else {
        CallKeepsInv(s, calls[0]);
        CallKeepsLife(s, calls[0]);
        if !r.Dead? { UnsafeRun(r.plan, calls[1..]); }
      }
    }
  }

  /**
   Over every run: its end is unsafe exactly if some apply of the run met the gap, and then the plan is stranded.
   */
  lemma UnsafeExactlyWhen(s: Plan, calls: seq<Call>)
    requires Fresh(s) && AllQuiet(calls)
    ensures Safe(Run(s, calls).plan) <==> !RunMeetsGap(s, calls)
    ensures RunMeetsGap(s, calls) ==> Stranded(Run(s, calls).plan)
  {
    UnsafeRun(s, calls);
  }

  /** A discard of a stranded plan never returns. */
  lemma StrandedNeverReturns(s: Plan, env: Env)
    requires Stranded(s) && Quiet(env)
    ensures !Discard(s, env).Go?
  {
  }

  // ----- A discard converges -----

  /** There is room to retain the result as long as a rollback may have to. */
  ghost predicate HasRoom(s: Plan) {
    && (s.state == Ready ==> s.In(RetainedFailed).None?)
    && (s.active && !s.committed && s.In(Live) != s.baseline ==> s.In(RetainedFailed).None?)
  }

  lemma TryApplyKeepsRoom(s: Plan, env: Env)
    requires Quiet(env) && s.state == Applying && s.In(RetainedFailed).None?
    ensures TryApply(s, env).plan.In(RetainedFailed).None?
  {
    var checked := CheckBeforePublication(s, env).plan;
    ChecksReadOnly(s, env);
    var published := PublishStaged(checked, env).plan;
    assert published.In(RetainedFailed).None?;
    assert RetainExchanged(published, env).plan.In(RetainedFailed).None?;
  }

  lemma RollbackKeepsRoom(s: Plan, env: Env)
    requires Inv(s) && HasRoom(s) && Quiet(env) && s.active && !s.committed && s.state != Ready
    ensures HasRoom(Rollback(s, env).plan)
  {
  }

  lemma FinishKeepsRoom(s: Plan, env: Env)
    requires HasRoom(s) && Quiet(env) && (s.active ==> s.committed)
    ensures HasRoom(FinishDiscard(s, env).plan)
  {
  }

  lemma CallKeepsRoom(s: Plan, call: Call)
    requires Inv(s) && HasRoom(s) && Quiet(call.env) && !MeetsGap(s, call)
    ensures HasRoom(Perform(s, call).plan)
  {
    match call
    case ApplyCall(env) =>
      if s.state == Ready {
        var entered := s.(state := Applying);
        assert s == entered.(state := Ready);
        TryApplyKeepsRoom(entered, env);
        TryApplyKeepsInv(entered, env);
        var r := TryApply(entered, env);
        if r.Exc? && r.plan.active && !r.plan.committed { RollbackKeepsRoom(r.plan, env); }
      }
    case DiscardCall(env) =>
      if s.active && !s.committed {
        RollbackKeepsRoom(s, env);
        if Rollback(s, env).Go? { FinishKeepsRoom(Rollback(s, env).plan, env); }
      } else {
        FinishKeepsRoom(s, env);
      }
  }

  lemma {:induction false} RunKeepsRoom(s: Plan, calls: seq<Call>)
    requires Inv(s) && HasRoom(s) && AllQuiet(calls) && !RunMeetsGap(s, calls)
    ensures Inv(Run(s, calls).plan) && HasRoom(Run(s, calls).plan)
    decreases |calls|
  {
    if calls != [] {
      CallKeepsInv(s, calls[0]);
      CallKeepsRoom(s, calls[0]);
      if !Perform(s, calls[0]).Dead? { RunKeepsRoom(Perform(s, calls[0]).plan, calls[1..]); }
    }
  }

  lemma CalmRollback(s: Plan, calm: Env)
    requires Inv(s) && HasRoom(s) && s.active && !s.committed && s.state != Ready && forall p :: calm(p) == Proceed
    ensures Rollback(s, calm).Go? && Rollback(s, calm).plan.In(Live) == s.baseline && !Rollback(s, calm).plan.active
  {
    assert Quiet(calm);
    RollbackKeepsInv(s, calm);
  }

  lemma CalmFinish(s: Plan, calm: Env)
    requires forall p :: calm(p) == Proceed
    ensures
      var r := FinishDiscard(s, calm);
      && r.Go? && r.plan.state == (if s.committed then Applied else Discarded) && !r.plan.lockHeld
      && r.plan.In(Live) == s.In(Live) && r.plan.committed == s.committed
  {
  }

  /**
   However often apply and discard were interrupted: a discard that nothing interrupts returns, with the lock
   released and the baseline live, or the result if it was committed.
   */
  lemma DiscardConverges(s: Plan, calls: seq<Call>, calm: Env)
    requires Fresh(s) && AllQuiet(calls) && !RunMeetsGap(s, calls)
    requires Run(s, calls).plan.state != Applying && forall p :: calm(p) == Proceed
    ensures
      var t := Run(s, calls).plan;
      var r := Discard(t, calm);
      && r.Go? && !r.plan.lockHeld && r.plan.state == (if t.committed then Applied else Discarded)
      && r.plan.In(Live) == (if t.committed then Some(s.staged) else s.baseline)
  {
    var t := Run(s, calls).plan;
    RunKeepsRoom(s, calls);
    PlanConstants(s, calls);
    if t.active && !t.committed {
      CalmRollback(t, calm);
      CalmFinish(Rollback(t, calm).plan, calm);
    } else {
      CalmFinish(t, calm);
    }
  }

  // ----- Conservation -----

  function Held(slots: Slots, place: Place, tree: Tree): nat {
    if slots.At(place) == Some(tree) then 1 else 0
  }

  /** How many of the five places hold a tree. */
  function Copies(slots: Slots, tree: Tree): nat {
    Held(slots, Live, tree) + Held(slots, Staging, tree) + Held(slots, RetainedOriginal, tree)
    + Held(slots, RetainedFailed, tree) + Held(slots, RetainedDiscarded, tree)
  }

  lemma RenamesConserve(s: Plan, a: Place, b: Place, tree: Tree)
    ensures Copies(Exchange(s, a, b).plan.slots, tree) == Copies(s.slots, tree)
    ensures Copies(Rename(s, a, b).plan.slots, tree) == Copies(s.slots, tree)
  {
  }

  lemma RestoreConserves(s: Plan, name: Place, env: Env, tree: Tree)
    requires Quiet(env)
    ensures Copies(RestoreExternal(s, name, env).plan.slots, tree) == Copies(s.slots, tree)
    ensures Copies(RestoreBaseline(s, name, env).plan.slots, tree) == Copies(s.slots, tree)
  {
    var exchanged := Exchange(s, name, Live);
    var renamed := Rename(exchanged.plan, name, RetainedFailed);
    RenamesConserve(s, name, Live, tree);
    RenamesConserve(exchanged.plan, name, RetainedFailed, tree);
    assert RestoreExternal(s, name, env).plan.slots in {s.slots, exchanged.plan.slots};
    assert RestoreBaseline(s, name, env).plan.slots in {s.slots, exchanged.plan.slots, renamed.plan.slots};
  }

  lemma RollbackMoves(s: Plan, env: Env)
    requires Quiet(env)
    ensures
      var moved := Rollback(s, env).plan.slots;
      || moved == s.slots || moved == WithdrawPublished(s, env).plan.slots
      || (s.exchangeName.Some? && moved == RestoreExternal(s, s.exchangeName.value, env).plan.slots)
      || (s.exchangeName.Some? && moved == RestoreBaseline(s, s.exchangeName.value, env).plan.slots)
  {
    assert Reach(s, env(OpenForRollback)).plan == s && Reach(s, env(ReadLive)).plan == s &&
        Reach(s, env(ReadOriginal)).plan == s;
  }

  lemma RollbackConserves(s: Plan, env: Env, tree: Tree)
    requires Quiet(env)
    ensures Copies(Rollback(s, env).plan.slots, tree) == Copies(s.slots, tree)
  {
    RollbackMoves(s, env);
    RenamesConserve(s, Live, RetainedFailed, tree);
    if s.exchangeName.Some? { RestoreConserves(s, s.exchangeName.value, env, tree); }
  }

  lemma TryApplyConserves(s: Plan, env: Env, tree: Tree)
    requires Quiet(env)
    ensures Copies(TryApply(s, env).plan.slots, tree) == Copies(s.slots, tree)
  {
    var published := PublishStaged(s, env);
    var retained := Rename(published.plan, Staging, RetainedOriginal);
    ChecksReadOnly(s, env);
    RenamesConserve(s, Staging, Live, tree);
    RenamesConserve(published.plan, Staging, RetainedOriginal, tree);
    assert published.plan.slots
        in {s.slots, Exchange(s, Staging, Live).plan.slots, Rename(s, Staging, Live).plan.slots};
    assert TryApply(s, env).plan.slots in {s.slots, published.plan.slots, retained.plan.slots};
  }

  lemma FinishConserves(s: Plan, env: Env, tree: Tree)
    requires Quiet(env)
    ensures Copies(FinishDiscard(s, env).plan.slots, tree) == Copies(s.slots, tree)
  {
    RenamesConserve(s, Staging, RetainedDiscarded, tree);
  }

  lemma CallConserves(s: Plan, call: Call, tree: Tree)
    requires Quiet(call.env)
    ensures Copies(Perform(s, call).plan.slots, tree) == Copies(s.slots, tree)
  {
    match call
    case ApplyCall(env) => ApplyConserves(s, env, tree);
    case DiscardCall(env) => DiscardConserves(s, env, tree);
  }

  lemma ApplyConserves(s: Plan, env: Env, tree: Tree)
    requires Quiet(env)
    ensures Copies(Apply(s, env).plan.slots, tree) == Copies(s.slots, tree)
  {
    if s.state == Ready {
      var r := TryApply(s.(state := Applying), env);
      TryApplyConserves(s.(state := Applying), env, tree);
      RollbackConserves(r.plan, env, tree);
      assert HandleFailure(r.plan, env).plan.slots in {r.plan.slots, Rollback(r.plan, env).plan.slots};
    }
  }

  lemma DiscardConserves(s: Plan, env: Env, tree: Tree)
    requires Quiet(env)
    ensures Copies(Discard(s, env).plan.slots, tree) == Copies(s.slots, tree)
  {
    RollbackConserves(s, env, tree);
    FinishConserves(s, env, tree);
    var r := Rollback(s, env);
    FinishConserves(r.plan, env, tree);
    assert Discard(s, env).plan.slots
        in {s.slots, r.plan.slots, FinishDiscard(r.plan, env).plan.slots, FinishDiscard(s, env).plan.slots};
  }

  /** Whatever is interrupted, the calls only move trees between the places. */
  lemma {:induction false} TreesConserved(s: Plan, calls: seq<Call>, tree: Tree)
    requires AllQuiet(calls)
    ensures Copies(Run(s, calls).plan.slots, tree) == Copies(s.slots, tree)
    decreases |calls|
  {
    if calls != [] {
      CallConserves(s, calls[0], tree);
      TreesConserved(Perform(s, calls[0]).plan, calls[1..], tree);
    }
  }

  // ----- A race with one external writer -----

  /** The points at which the live tree can be replaced between its check and the exchange. */
  const RACE_WINDOW: set<Point> := {ReadStaged, OpenDirectories, Publish}

  /** Exactly at `p`, an external writer replaces the live tree by `x`, and the points before it go on. */
  ghost predicate RacesAt(env: Env, p: Point, x: Tree) {
    && p in RACE_WINDOW
    && env(p) == External(Some(x))
    && (forall q :: q != p ==> !env(q).External?)
    && env(CheckIdentities).Proceed? && env(ReadBaseline).Proceed?
    && (p != ReadStaged ==> env(ReadStaged).Proceed?)
    && (p == Publish ==> env(OpenDirectories).Proceed?)
  }

  ghost predicate QuietOutsideWindow(env: Env) {
    forall p :: p !in RACE_WINDOW ==> !env(p).External?
  }

  /** The external tree is live, or it was exchanged into the transaction and can be fetched back. */
  ghost predicate RaceInv(s: Plan, x: Tree) {
    && !s.committed && s.state in {Applying, Failed, Discarded} && (s.state == Discarded ==> !s.active)
    && s.baseline.Some? && s.baseline != Some(s.staged)
    && Some(x) != s.baseline && x.digest != s.staged.digest
    && (s.In(Live) == Some(x)
        || (&& s.active && s.In(Live) == Some(s.staged)
            && s.exchangeName == Some(Staging) && s.In(Staging) == Some(x)))
  }

  lemma RaceRollback(s: Plan, x: Tree, env: Env)
    requires RaceInv(s, x) && s.active && QuietOutsideWindow(env)
    ensures RaceInv(Rollback(s, env).plan, x) && Rollback(s, env).plan.state == s.state
    ensures Rollback(s, env).Go? ==> Rollback(s, env).plan.In(Live) == Some(x) && !Rollback(s, env).plan.active
  {
    if s.In(Live) == Some(x) {
      assert Reach(s, env(OpenForRollback)).plan == s && Reach(s, env(ReadLive)).plan == s;
    }
  }

  lemma RaceTryApply(s: Plan, x: Tree, env: Env, p: Point)
    requires s.In(Live) == s.baseline && s.In(Staging) == Some(s.staged) && !s.committed && s.state == Applying
    requires s.baseline.Some? && s.baseline != Some(s.staged) && Some(x) != s.baseline && x.digest != s.staged.digest
    requires RacesAt(env, p, x)
    ensures RaceInv(TryApply(s, env).plan, x) && !TryApply(s, env).Go?
  {
    var checked := CheckBeforePublication(s, env);
    var raced := s.(slots := s.slots.Put(Live, Some(x)));
    assert checked.plan == (if p == Publish then s else raced);
    if checked.Go? {
      var published := PublishStaged(checked.plan, env);
      assert published.plan.active && if published.Go? then
          published.plan.In(Live) == Some(s.staged) && published.plan.In(Staging) == Some(x)
        else published.plan.In(Live) == Some(x);
    }
  }

  lemma RaceApply(s: Plan, x: Tree, env: Env, p: Point)
    requires Fresh(s) && s.state == Ready && s.baseline.Some?
    requires Some(x) != s.baseline && x.digest != s.staged.digest && RacesAt(env, p, x)
    ensures RaceInv(Apply(s, env).plan, x)
  {
    RaceTryApply(s.(state := Applying), x, env, p);
    var r := TryApply(s.(state := Applying), env);
    if r.Exc? && r.plan.active { RaceRollback(r.plan, x, env); }
  }

  lemma RaceFinish(s: Plan, x: Tree, env: Env)
    requires RaceInv(s, x) && !s.active && Quiet(env)
    ensures RaceInv(FinishDiscard(s, env).plan, x)
  {
  }

  lemma RaceCall(s: Plan, x: Tree, call: Call)
    requires RaceInv(s, x) && Quiet(call.env)
    ensures RaceInv(Perform(s, call).plan, x)
  {
    if call.DiscardCall? {
      if s.active {
        RaceRollback(s, x, call.env);
        if Rollback(s, call.env).Go? { RaceFinish(Rollback(s, call.env).plan, x, call.env); }
      } else {
        RaceFinish(s, x, call.env);
      }
    }
  }

  lemma {:induction false} RaceRun(s: Plan, x: Tree, calls: seq<Call>)
    requires RaceInv(s, x) && AllQuiet(calls)
    ensures RaceInv(Run(s, calls).plan, x)
    decreases |calls|
  {
    if calls != [] {
      RaceCall(s, x, calls[0]);
      RaceRun(Perform(s, calls[0]).plan, x, calls[1..]);
    }
  }

  /** However often the rollback is interrupted, the external tree is live once it is done. */
  lemma RaceRestored(s: Plan, x: Tree, env: Env, p: Point, calls: seq<Call>)
    requires Fresh(s) && s.state == Ready && s.baseline.Some?
    requires Some(x) != s.baseline && x.digest != s.staged.digest && RacesAt(env, p, x) && AllQuiet(calls)
    ensures
      var t := Run(s, [ApplyCall(env)] + calls).plan;
      && !t.committed && (!t.active ==> t.In(Live) == Some(x))
      && (t.In(Live) == Some(x) || t.In(Staging) == Some(x))
  {
    RaceApply(s, x, env, p);
    assert ([ApplyCall(env)] + calls)[1..] == calls;
    RaceRun(Apply(s, env).plan, x, calls);
  }

  /** The digest is what rollback goes by: an external tree with the result's digest can end up discarded. */
  lemma RaceNeedsAnotherDigest(s: Plan, x: Tree)
    requires Fresh(s) && s.state == Ready && s.baseline.Some?
    requires Some(x) != s.baseline && x.digest == s.staged.digest && x != s.staged
    ensures
      var raced: Env := p => if p == Publish then External(Some(x)) else if p == ReadRestored then Raise else Proceed;
      var calm: Env := p => Proceed;
      var t := Run(s, [ApplyCall(raced), DiscardCall(calm)]).plan;
      && RacesAt(raced, Publish, x)
      && t.state == Discarded && t.In(Live) == Some(s.staged) && t.In(RetainedDiscarded) == Some(x)
  {
    var raced: Env := p => if p == Publish then External(Some(x)) else if p == ReadRestored then Raise else Proceed;
    var calm: Env := p => Proceed;
    RaceLeavesDigest(s, x, raced);
    AfterRaceIs(s, x);
    var t := AfterRace(s, x);
    DiscardTakesDigest(t, x, calm);
    var calls := [ApplyCall(raced), DiscardCall(calm)];
    assert calls[1..] == [DiscardCall(calm)] && Run(t, calls[1..]) == Run(Discard(t, calm).plan, []);
  }

  /** The plan after such a race: the external tree was fetched back, and nobody looked. */
  function AfterRace(s: Plan, x: Tree): Plan {
    Exchange(Raced(s.(state := Applying), x), Staging, Live).plan.(state := Failed)
  }

  lemma AfterRaceIs(s: Plan, x: Tree)
    requires Fresh(s) && s.state == Ready && s.baseline.Some?
    ensures
      var t := AfterRace(s, x);
      && t.active && !t.committed && t.state == Failed && t.baseline == s.baseline && t.staged == s.staged
      && t.In(Live) == Some(x) && t.In(Staging) == Some(s.staged)
      && t.exchangeName == Some(Staging) && t.In(RetainedDiscarded).None?
  {
  }

  lemma RaceLeavesDigest(s: Plan, x: Tree, env: Env)
    requires Fresh(s) && s.state == Ready && s.baseline.Some?
    requires Some(x) != s.baseline && x.digest == s.staged.digest && x != s.staged
    requires forall p :: env(p) == if p == Publish then External(Some(x)) else if p == ReadRestored then Raise
             else Proceed
    ensures Apply(s, env) == Exc(AfterRace(s, x))
  {
    var applying := s.(state := Applying);
    RacedExchange(applying, x, env);
    FailedApply(s, Raced(applying, x), env);
    HandledRace(Raced(applying, x), x, env);
  }

  lemma FailedApply(s: Plan, failed: Plan, env: Env)
    requires s.state == Ready && TryApply(s.(state := Applying), env) == Exc(failed)
    ensures Apply(s, env) == HandleFailure(failed, env)
  {
  }

  lemma HandledRace(raced: Plan, x: Tree, env: Env)
    requires raced.active && !raced.committed && raced.baseline.Some?
    requires raced.In(Live) == Some(raced.staged) && raced.In(Staging) == Some(x) && raced.exchangeName == Some(Staging)
    requires raced.baseline != Some(raced.staged) && Some(x) != raced.baseline
    requires forall p :: env(p) == if p == Publish then External(Some(x)) else if p == ReadRestored then Raise
             else Proceed
    ensures HandleFailure(raced, env) == Exc(Exchange(raced, Staging, Live).plan.(state := Failed))
  {
    RollbackLeavesDigest(raced, x, env);
  }

  /** After an exchange that took an external tree into the transaction. */
  function Raced(s: Plan, x: Tree): Plan {
    s.(active := true, exchangeName := Some(Staging), slots := s.slots.Put(Staging, Some(x)).Put(Live, Some(s.staged)))
  }

  lemma RacedCheck(s: Plan, x: Tree, env: Env)
    requires s.In(Live) == s.baseline && s.In(Staging) == Some(s.staged)
    requires forall p :: env(p) == if p == Publish then External(Some(x)) else if p == ReadRestored then Raise
             else Proceed
    ensures CheckBeforePublication(s, env) == Go(s)
  {
  }

  lemma RacedPublish(s: Plan, x: Tree, env: Env)
    requires s.In(Staging) == Some(s.staged) && s.baseline.Some? && env(Publish) == External(Some(x))
    ensures PublishStaged(s, env) == Go(Raced(s, x))
  {
  }

  lemma RacedExchange(s: Plan, x: Tree, env: Env)
    requires s.In(Live) == s.baseline && s.In(Staging) == Some(s.staged) && s.baseline.Some? && Some(x) != s.baseline
    requires forall p :: env(p) == if p == Publish then External(Some(x)) else if p == ReadRestored then Raise
             else Proceed
    ensures TryApply(s, env) == Exc(Raced(s, x))
  {
    RacedCheck(s, x, env);
    RacedPublish(s, x, env);
    var raced := Raced(s, x);
    assert Reach(raced, env(VerifyPublished)) == Go(raced) && raced.In(Live) == Some(s.staged);
    assert RetainExchanged(raced, env) == Exc(raced);
  }

  lemma RollbackLeavesDigest(s: Plan, x: Tree, env: Env)
    requires s.active && !s.committed && s.baseline.Some?
    requires s.In(Live) == Some(s.staged) && s.In(Staging) == Some(x) && s.exchangeName == Some(Staging)
    requires s.baseline != Some(s.staged) && Some(x) != s.baseline
    requires forall p :: env(p) == if p == Publish then External(Some(x)) else if p == ReadRestored then Raise
             else Proceed
    ensures Rollback(s, env) == Exc(Exchange(s, Staging, Live).plan)
  {
    assert Rollback(s, env) == RestoreExternal(s, Staging, env);
  }

  lemma DiscardTakesDigest(s: Plan, x: Tree, env: Env)
    requires s.active && !s.committed && s.state == Failed && s.baseline.Some?
    requires s.In(Live) == Some(x) && s.In(Staging) == Some(s.staged) && s.exchangeName == Some(Staging)
    requires s.In(RetainedDiscarded).None? && Some(x) != s.baseline && x.digest == s.staged.digest
    requires s.baseline != Some(s.staged) && forall p :: env(p) == Proceed
    ensures
      var r := Discard(s, env);
      r.Go? && r.plan.state == Discarded && r.plan.In(Live) == Some(s.staged) && r.plan.In(RetainedDiscarded) == Some(x)
  {
    assert Rollback(s, env) == RestoreExternal(s, Staging, env);
  }

  /** Rollback never moves a live tree whose digest it has just found not to be the result's. */
  lemma RollbackMovesOnlyTheResult(s: Plan, env: Env)
    requires Reach(s, env(OpenForRollback)).Go? && Reach(Reach(s, env(OpenForRollback)).plan, env(ReadLive)).Go?
    ensures
      var checked := Reach(Reach(s, env(OpenForRollback)).plan, env(ReadLive)).plan;
      DigestOf(checked.In(Live)) != s.staged.digest ==> Rollback(s, env).plan.slots == checked.slots
  {
  }

  lemma ForeignTreeSurvivesCall(s: Plan, x: Option<Tree>, call: Call)
    requires Quiet(call.env) && s.In(Live) == x && DigestOf(x) != s.staged.digest &&
             (s.state == Ready ==> x != s.baseline)
    ensures Perform(s, call).plan.In(Live) == x && (Perform(s, call).plan.state == Ready ==> s.state == Ready)
  {
    match call
    case ApplyCall(env) =>
      if s.state == Ready {
        var entered := s.(state := Applying);
        ChecksReadOnly(entered, env);
        if s.active && !s.committed { ForeignTreeSurvivesRollback(entered, x, env); }
      }
    case DiscardCall(env) =>
      if s.active && !s.committed {
        ForeignTreeSurvivesRollback(s, x, env);
        if Rollback(s, env).Go? { FinishLeavesLive(Rollback(s, env).plan, env); }
      } else {
        FinishLeavesLive(s, env);
      }
  }

  lemma ForeignTreeSurvivesRollback(s: Plan, x: Option<Tree>, env: Env)
    requires Quiet(env) && s.In(Live) == x && DigestOf(x) != s.staged.digest
    ensures Rollback(s, env).plan.slots == s.slots
  {
  }

  lemma FinishLeavesLive(s: Plan, env: Env)
    requires Quiet(env)
    ensures FinishDiscard(s, env).plan.In(Live) == s.In(Live)
  {
  }

  /**
   In every run, from every state, with interruptions anywhere: a live tree without the result's digest stays live,
   unless it is the baseline that a plan still has to publish over.
   */
  lemma {:induction false} ForeignTreeStaysLive(s: Plan, x: Option<Tree>, calls: seq<Call>)
    requires AllQuiet(calls)
    requires s.In(Live) == x && DigestOf(x) != s.staged.digest && (s.state == Ready ==> x != s.baseline)
    ensures Run(s, calls).plan.In(Live) == x
    decreases |calls|
  {
    if calls != [] {
      ForeignTreeSurvivesCall(s, x, calls[0]);
      ForeignTreeStaysLive(Perform(s, calls[0]).plan, x, calls[1..]);
    }
  }

  // ----- Lifecycle -----

  ghost predicate Life(s: Plan) {
    && (s.state == Ready ==> !s.active && !s.committed && s.lockHeld)
    && (s.state == Applying ==> s.lockHeld || s.committed)
    && (s.state == Discarded ==> !s.committed && !s.active)
    && (s.state == Applied ==> s.committed && !s.lockHeld)
    && (!s.lockHeld ==> s.committed || !s.active)
  }

  lemma PublishingKeepsLife(s: Plan, env: Env)
    ensures PublishStaged(s, env).plan.(active := s.active, exchangeName := s.exchangeName, slots := s.slots) == s
    ensures RetainExchanged(s, env).plan.(exchangeName := s.exchangeName, slots := s.slots) == s
  {
  }

  lemma TryApplyKeepsLife(s: Plan, env: Env)
    requires s.state == Applying && s.lockHeld && !s.committed
    ensures
      var r := TryApply(s, env);
      && (r.Go? ==> r.plan.state == Applied && r.plan.committed && !r.plan.lockHeld)
      && (!r.Go? ==> r.plan.state == Applying && r.plan.lockHeld)
  {
    var checked := CheckBeforePublication(s, env).plan;
    var published := PublishStaged(checked, env).plan;
    var verified := Reach(published, env(VerifyPublished)).plan;
    PublishingKeepsLife(checked, env);
    PublishingKeepsLife(verified, env);
  }

  lemma CallKeepsLife(s: Plan, call: Call)
    requires Life(s)
    ensures Life(Perform(s, call).plan)
    ensures s.committed ==> Perform(s, call).plan.committed
  {
    match call
    case ApplyCall(env) =>
      if s.state == Ready {
        TryApplyKeepsLife(s.(state := Applying), env);
      }
    case DiscardCall(env) =>
  }

  // ----- Interleaved callers -----

  /** A `ContentDiscardOperation`: claimed by `start` or by the first `run`, then executed. */
  datatype Operation = Operation(started: bool, pending: bool, done: bool, executions: nat)

  datatype System = System(plan: Plan, alive: bool, operations: seq<Operation>, current: Option<nat>)

  datatype Action =
    | CallApply(env: Env)                  // apply_content_changes, under the plan lock
    | BeginDiscard(busy: bool)             // begin_discard; busy: the plan lock was not free in time
    | Claim(operation: nat)                // start, or run by the first caller
    | Execute(operation: nat, env: Env)    // _execute of a claimed operation, under the plan lock

  function Begin(sys: System, busy: bool): System {
    if busy || (sys.plan.state in {Discarded, Applied} && !sys.plan.lockHeld) then
      sys.(operations := sys.operations + [Operation(true, false, true, 0)])
    else if sys.current.Some? && sys.current.value < |sys.operations| &&
        !sys.operations[sys.current.value].done then sys
    else sys.(operations := sys.operations + [Operation(false, false, false, 0)], current := Some(|sys.operations|))
  }

  function Act(sys: System, action: Action): System {
    if !sys.alive then sys else
    match action
    case CallApply(env) =>
      var r := Apply(sys.plan, env);
      sys.(plan := r.plan, alive := !r.Dead?)
    case BeginDiscard(busy) => Begin(sys, busy)
    case Claim(i) =>
      if i < |sys.operations| && !sys.operations[i].started
      then sys.(operations := sys.operations[i := sys.operations[i].(started := true, pending := true)])
      else sys
    case Execute(i, env) =>
      if i < |sys.operations| && sys.operations[i].pending then
        var r := Discard(sys.plan, env);
        var operation := sys.operations[i].(
          pending := false, done := true, executions := sys.operations[i].executions + 1);
        sys.(plan := r.plan, alive := !r.Dead?, operations := sys.operations[i := operation])
      else sys
  }

  function Interleave(sys: System, actions: seq<Action>): System
    decreases |actions|
  {
    if actions == [] then sys else Interleave(Act(sys, actions[0]), actions[1..])
  }

  ghost predicate Once(operation: Operation) {
    && operation.executions <= 1
    && (operation.pending ==> operation.started && operation.executions == 0)
    && (!operation.started ==> !operation.pending && operation.executions == 0)
  }

  ghost predicate LifecycleInv(sys: System) {
    && Life(sys.plan)
    && forall i :: 0 <= i < |sys.operations| ==> Once(sys.operations[i])
  }

  lemma {:induction false} LifecycleKept(sys: System, actions: seq<Action>)
    requires LifecycleInv(sys)
    ensures LifecycleInv(Interleave(sys, actions))
    ensures sys.plan.committed ==> Interleave(sys, actions).plan.committed
    decreases |actions|
  {
    if actions != [] {
      var action := actions[0];
      if action.CallApply? { CallKeepsLife(sys.plan, ApplyCall(action.env)); }
      if action.Execute? { CallKeepsLife(sys.plan, DiscardCall(action.env)); }
      LifecycleKept(Act(sys, action), actions[1..]);
    }
  }

  /** All discard operations are done but the one that callers are given. */
  ghost predicate OneOpen(sys: System) {
    forall i :: 0 <= i < |sys.operations| && !sys.operations[i].done ==> sys.current == Some(i)
  }

  /** Whatever the interleaving, callers share one discard operation as long as it is not done. */
  lemma {:induction false} OneOperationAtATime(sys: System, actions: seq<Action>)
    requires OneOpen(sys)
    ensures OneOpen(Interleave(sys, actions))
    decreases |actions|
  {
    if actions != [] { OneOperationAtATime(Act(sys, actions[0]), actions[1..]); }
  }

  /** A plan that is finished needs no operation: a caller gets one that is done, and it is never executed. */
  lemma FinishedPlanBeginsNothing(sys: System, busy: bool)
    requires sys.alive && sys.plan.state in {Discarded, Applied} && !sys.plan.lockHeld
    ensures
      var next := Act(sys, BeginDiscard(busy));
      && next == sys.(operations := next.operations) && |next.operations| == |sys.operations| + 1
      && next.operations[|sys.operations|].done && next.operations[|sys.operations|].started
      && !next.operations[|sys.operations|].pending
  {
  }

  /** An operation that was started and is not pending stays as it is. */
  lemma {:induction false} StartedStaysDone(sys: System, actions: seq<Action>, i: nat)
    requires i < |sys.operations| && sys.operations[i].started && !sys.operations[i].pending
    ensures i < |Interleave(sys, actions).operations| && Interleave(sys, actions).operations[i] == sys.operations[i]
    decreases |actions|
  {
    if actions != [] { StartedStaysDone(Act(sys, actions[0]), actions[1..], i); }
  }

  /** The calls that reached the plan, in the order in which they held its lock. */
  function Linearised(sys: System, actions: seq<Action>): seq<Call>
    decreases |actions|
  {
    if actions == [] then []
    else
      var rest := Linearised(Act(sys, actions[0]), actions[1..]);
      match actions[0]
      case CallApply(env) => if sys.alive then [ApplyCall(env)] + rest else rest
      case Execute(i, env) =>
        if sys.alive && i < |sys.operations| && sys.operations[i].pending then [DiscardCall(env)] + rest else rest
      case _ => rest
  }

  /** Whatever the interleaving, the plan has seen a run of whole calls. */
  lemma {:induction false} InterleavingsAreRuns(sys: System, actions: seq<Action>)
    requires sys.alive
    ensures Interleave(sys, actions).plan == Run(sys.plan, Linearised(sys, actions)).plan
    decreases |actions|
  {
    if actions != [] {
      var next := Act(sys, actions[0]);
      if next.alive {
        InterleavingsAreRuns(next, actions[1..]);
      } else {
        DeadStaysDead(next, actions[1..]);
      }
      if Linearised(sys, actions) != Linearised(next, actions[1..]) {
        assert Linearised(sys, actions)[1..] == Linearised(next, actions[1..]);
      }
    }
  }

  lemma {:induction false} DeadStaysDead(sys: System, actions: seq<Action>)
    requires !sys.alive
    ensures Interleave(sys, actions) == sys && Linearised(sys, actions) == []
    decreases |actions|
  {
    if actions != [] { DeadStaysDead(sys, actions[1..]); }
  }
}
