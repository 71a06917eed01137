/**
 `ContentChangePlan`, `apply_content_changes`, `_rollback_publication` and `_run_discard` in the
 form of the source: an object whose fields the methods update one statement at a time.  Each method
 is tied to the function of `ContentPublication` that says what it computes.
 */
module ContentChangePlans {
  import opened Common
  import opened ContentPublication

  /** How a method ended.  A method that did not go on leaves its caller at once, like an exception. */
  datatype Signal = Continue | Raised | Died

  function Outcome(signal: Signal, plan: Plan): Step<Plan> {
    match signal
    case Continue => Go(plan)
    case Raised => Exc(plan)
    case Died => Dead(plan)
  }

  class ContentChangePlan {
    const baseline: Option<Tree>
    const staged: Tree
    var state: PlanState
    var publicationActive: bool
    var publicationCommitted: bool
    var originalExchangeName: Option<Place>
    var projectLock: bool
    var slots: Slots

    function Abstract(): Plan
      reads this
    {
      Plan(state, publicationActive, publicationCommitted, originalExchangeName, projectLock, slots, baseline, staged)
    }

    constructor (slots: Slots, staged: Tree, ready: bool)
      ensures Abstract() == Plan(if ready then Ready else Failed, false, false, None, true, slots, slots.live, staged)
    {
      this.baseline := slots.live;
      this.staged := staged;
      this.state := if ready then Ready else Failed;
      this.publicationActive := false;
      this.publicationCommitted := false;
      this.originalExchangeName := None;
      this.projectLock := true;
      this.slots := slots;
    }

    /** Lets the environment act on reaching a point. */
    method Arrive(event: Event) returns (signal: Signal)
      modifies this`slots
      ensures Outcome(signal, Abstract()) == Reach(old(Abstract()), event)
    {
      match event {
        case Proceed => signal := Continue;
        case Raise => signal := Raised;
        case Kill => signal := Died;
        case External(content) =>
          slots := slots.Put(Live, content);
          signal := Continue;
      }
    }

    method RenameExchange(a: Place, b: Place) returns (signal: Signal)
      modifies this`slots
      ensures Outcome(signal, Abstract()) == Exchange(old(Abstract()), a, b)
    {
      if slots.At(a).None? || slots.At(b).None? {
        return Raised;
      }
      slots := slots.Put(a, slots.At(b)).Put(b, slots.At(a));
      signal := Continue;
    }

    method RenameNoReplace(from: Place, to: Place) returns (signal: Signal)
      modifies this`slots
      ensures Outcome(signal, Abstract()) == Rename(old(Abstract()), from, to)
    {
      if slots.At(from).None? || slots.At(to).Some? {
        return Raised;
      }
      slots := slots.Put(from, None).Put(to, slots.At(from));
      signal := Continue;
    }

    method ReleaseProjectLock(env: Env) returns (signal: Signal)
      modifies this
      ensures Outcome(signal, Abstract()) == Release(old(Abstract()), env)
    {
      if !projectLock {
        return Continue;
      }
      signal := Arrive(env(ReleaseLock));
      if signal.Continue? {
        projectLock := false;
      }
    }

    method CheckBefore(env: Env) returns (signal: Signal)
      modifies this`slots
      ensures Outcome(signal, Abstract()) == CheckBeforePublication(old(Abstract()), env)
    {
      signal := Arrive(env(CheckIdentities));
      if !signal.Continue? { return; }
      if slots.staging.None? || slots.staging.value.identity != staged.identity { return Raised; }
      signal := Arrive(env(ReadBaseline));
      if !signal.Continue? { return; }
      if slots.live != baseline { return Raised; }
      signal := Arrive(env(ReadStaged));
      if !signal.Continue? { return; }
      if DigestOf(slots.staging) != staged.digest { return Raised; }
      signal := Arrive(env(OpenDirectories));
    }

    method Publish(env: Env) returns (signal: Signal)
      modifies this
      ensures Outcome(signal, Abstract()) == PublishStaged(old(Abstract()), env)
    {
      publicationActive := true;
      originalExchangeName := if baseline.Some? then Some(Staging) else None;
      signal := Arrive(env(Point.Publish));
      if !signal.Continue? { return; }
      if baseline.Some? {
        signal := RenameExchange(Staging, Live);
      } else {
        signal := RenameNoReplace(Staging, Live);
      }
    }

    method RetainOriginalContent(env: Env) returns (signal: Signal)
      modifies this
      ensures Outcome(signal, Abstract()) == RetainExchanged(old(Abstract()), env)
    {
      if baseline.None? { return Continue; }
      signal := Arrive(env(VerifyOriginal));
      if !signal.Continue? { return; }
      if slots.staging != baseline { return Raised; }
      signal := Arrive(env(RetainOriginal));
      if !signal.Continue? { return; }
      signal := RenameNoReplace(Staging, RetainedOriginal);
      if !signal.Continue? { return; }
      signal := Arrive(env(RecordRetained));
      if !signal.Continue? { return; }
      originalExchangeName := Some(RetainedOriginal);
    }

    method TryApplyContentChanges(env: Env) returns (signal: Signal)
      modifies this
      ensures Outcome(signal, Abstract()) == TryApply(old(Abstract()), env)
    {
      signal := CheckBefore(env);
      if !signal.Continue? { return; }
      signal := Publish(env);
      if !signal.Continue? { return; }
      signal := Arrive(env(VerifyPublished));
      if !signal.Continue? { return; }
      if slots.live != Some(staged) { return Raised; }
      signal := RetainOriginalContent(env);
      if !signal.Continue? { return; }
      signal := Arrive(env(TouchCompleted));
      if !signal.Continue? { return; }
      publicationCommitted := true;
      signal := ReleaseProjectLock(env);
      if !signal.Continue? { return; }
      state := Applied;
    }

    method ApplyContentChanges(env: Env) returns (signal: Signal)
      modifies this
      ensures Outcome(signal, Abstract()) == Apply(old(Abstract()), env)
    {
      if state != Ready { return Raised; }
      state := Applying;
      signal := TryApplyContentChanges(env);
      if signal.Raised? {
        if publicationActive && !publicationCommitted {
          var rolledBack := RollbackPublication(env);
          if rolledBack.Died? { return Died; }
        }
        state := Failed;
      }
    }

    method RollbackPublication(env: Env) returns (signal: Signal)
      modifies this
      ensures Outcome(signal, Abstract()) == Rollback(old(Abstract()), env)
    {
      signal := Arrive(env(OpenForRollback));
      if !signal.Continue? { return; }
      signal := Arrive(env(ReadLive));
      if !signal.Continue? { return; }
      if slots.live == baseline {
        publicationActive, originalExchangeName := false, None;
        return;
      }
      if DigestOf(slots.live) != staged.digest { return Raised; }
      if baseline.Some? {
        if originalExchangeName.None? { return Raised; }
        signal := Arrive(env(ReadOriginal));
        if !signal.Continue? { return; }
        if slots.At(originalExchangeName.value) != baseline {
          signal := FetchExternalBack(originalExchangeName.value, env);
          return;
        }
        signal := FetchBaselineBack(originalExchangeName.value, env);
      } else {
        signal := Arrive(env(RetainFailed));
        if !signal.Continue? { return; }
        signal := RenameNoReplace(Live, RetainedFailed);
      }
      if !signal.Continue? { return; }
      signal := Arrive(env(ReadRestored));
      if !signal.Continue? { return; }
      if slots.live != baseline { return Raised; }
      publicationActive, originalExchangeName := false, None;
    }

    method FetchExternalBack(name: Place, env: Env) returns (signal: Signal)
      modifies this
      ensures Outcome(signal, Abstract()) == RestoreExternal(old(Abstract()), name, env)
    {
      var original := slots.At(name);
      signal := Arrive(env(ExchangeBack));
      if !signal.Continue? { return; }
      signal := RenameExchange(name, Live);
      if !signal.Continue? { return; }
      signal := Arrive(env(ReadRestored));
      if !signal.Continue? { return; }
      if slots.live != original { return Raised; }
      publicationActive, originalExchangeName := false, None;
    }

    method FetchBaselineBack(name: Place, env: Env) returns (signal: Signal)
      modifies this
      ensures Outcome(signal, Abstract()) == RestoreBaseline(old(Abstract()), name, env)
    {
      signal := Arrive(env(ExchangeBack));
      if !signal.Continue? { return; }
      signal := RenameExchange(name, Live);
      if !signal.Continue? { return; }
      signal := Arrive(env(LeaveExchange));
      if !signal.Continue? { return; }
      signal := Arrive(env(RetainFailed));
      if !signal.Continue? { return; }
      signal := RenameNoReplace(name, RetainedFailed);
    }

    method RunDiscard(env: Env) returns (signal: Signal)
      modifies this
      ensures Outcome(signal, Abstract()) == Discard(old(Abstract()), env)
    {
      signal := Arrive(env(CheckDeadline));
      if signal.Died? { return; }
      if signal.Raised? || state == Applying {
        state := Failed;
        return Raised;
      }
      if publicationActive && !publicationCommitted {
        signal := RollbackPublication(env);
        if !signal.Continue? { return; }
      }
      if slots.staging.Some? && slots.retainedDiscarded.None? {
        signal := Arrive(env(RetainDiscarded));
        if !signal.Continue? { return; }
        signal := RenameNoReplace(Staging, RetainedDiscarded);
        if !signal.Continue? { return; }
      }
      signal := Arrive(env(TouchMarker));
      if !signal.Continue? { return; }
      signal := ReleaseProjectLock(env);
      if signal.Died? { return; }
      if signal.Raised? {
        state := Failed;
        return;
      }
      state := if publicationCommitted then Applied else Discarded;
    }
  }
}
