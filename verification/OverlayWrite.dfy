/**
 The atomic write of an overlay file (`_write_overlay_file` with the writer of `write_overlay_bytes`):
 the bytes go to a temporary file beside the target, which then takes the place of the target.
 */
module OverlayWrite {
  import opened Common
  import opened OverlayTree
  import opened Permissions

  datatype Inode = Regular(identity: nat, contents: Bytes, mode: Mode) | Other(identity: nat)

  type Listing = map<string, Inode>

  datatype Request = Request(
    name: string,
    temporary: string,
    contents: Bytes,
    mode: Option<Mode>,
    create: bool,
    expected: Option<Bytes>,
    identity: nat)

  datatype Point =
    | Inspect | OpenTemporary | SetMode | Restat | BeforePublish | Publish | RestatExchanged | AfterPublish
    | EnterRollBack | RollBack | RecordPreserve | Unlink

  /** An operation goes on, fails, or takes effect and is then interrupted. */
  datatype Event = Proceed | Raise | RaiseLate

  /** `written(offset)`: what `os.write` takes at that offset, or nothing if it raises. */
  datatype Env = Env(at: Point -> Event, stops: nat -> bool, written: nat -> Option<nat>)

  /** 1 MiB, or any other positive size of a chunk. */
  const CHUNK := 1024 * 1024

  function Min(a: nat, b: nat): nat { if a <= b then a else b }

  /** How far the writer comes, and whether it comes to the end; the current chunk ends at `end`. */
  function Stream(size: nat, offset: nat, end: nat, env: Env): (nat, bool)
    requires offset <= end <= size
    decreases size - offset, if offset < end then 0 else 1
  {
    if offset < end then
      var taken := env.written(offset);
      if taken.None? || taken.value == 0 then (offset, false)
      else Stream(size, offset + Min(taken.value, end - offset), end, env)
    else if offset == size then (offset, true)
    else if env.stops(offset) then (offset, false)
    else Stream(size, offset, Min(offset + CHUNK, size), env)
  }

  /** The directory while a write is under way, and whether the temporary name is to be kept. */
  datatype Work = Work(entries: Listing, preserve: bool)

  function At(w: Work, e: Event): Step<Work> {
    if e.Proceed? then Go(w) else Exc(w)
  }

  /** Moves one name to another that is free. */
  function Rename(w: Work, from: string, to: string, e: Event): Step<Work> {
    if e.Raise? || from !in w.entries || to in w.entries then Exc(w)
    else At(w.(entries := (w.entries - {from})[to := w.entries[from]]), e)
  }

  /** Swaps two names. */
  function Exchange(w: Work, a: string, b: string, e: Event): Step<Work> {
    if e.Raise? || a !in w.entries || b !in w.entries then Exc(w)
    else At(w.(entries := w.entries[a := w.entries[b]][b := w.entries[a]]), e)
  }

  /** The mode to write with, when the request can be carried out at all. */
  function Admit(entries: Listing, r: Request, env: Env): Option<Mode> {
    if !env.at(Inspect).Proceed? then None
    else if r.create then if r.name in entries then None else r.mode
    else if r.name !in entries || !entries[r.name].Regular? then None
    else if r.expected.Some? && entries[r.name].contents != r.expected.value then None
    else if r.mode.None? then Some(entries[r.name].mode)
    else r.mode
  }

  function WriteTemporary(w: Work, r: Request, mode: Mode, env: Env): (done: Step<Work>)
    ensures done.plan.entries - {r.temporary} == w.entries - {r.temporary}
  {
    if env.at(OpenTemporary).Raise? || r.temporary in w.entries then Exc(w) else
    var w :- At(w.(entries := w.entries[r.temporary := Regular(r.identity, [], mode)]), env.at(OpenTemporary));
    var (offset, finished) := Stream(|r.contents|, 0, 0, env);
    StreamBounds(|r.contents|, 0, 0, env);
    var w := w.(entries := w.entries[r.temporary := Regular(r.identity, r.contents[..offset], mode)]);
    if !finished then Exc(w) else At(w, env.at(SetMode))
  }

  lemma {:induction false} StreamBounds(size: nat, offset: nat, end: nat, env: Env)
    requires offset <= end <= size
    ensures offset <= Stream(size, offset, end, env).0 <= size
    ensures Stream(size, offset, end, env).1 ==> Stream(size, offset, end, env).0 == size
    decreases size - offset, if offset < end then 0 else 1
  {
    if offset < end {
      var taken := env.written(offset);
      if taken.Some? && taken.value != 0 { StreamBounds(size, offset + Min(taken.value, end - offset), end, env); }
    } else if offset < size && !env.stops(offset) {
      StreamBounds(size, offset, Min(offset + CHUNK, size), env);
    }
  }

  /** The new file takes a name that is free; an exception after that takes it back. */
  function PublishNew(w: Work, r: Request, env: Env): Step<Work> {
    var w :- At(w, env.at(BeforePublish));
    var w :- Rename(w, r.temporary, r.name, env.at(Publish));
    if env.at(AfterPublish).Proceed? then Go(w)
    else
      var w :- At(w, env.at(EnterRollBack));
      var back := Rename(w, r.name, r.temporary, env.at(RollBack));
      Exc(if back.Go? || !env.at(RecordPreserve).Proceed? then back.plan else back.plan.(preserve := true))
  }

  /** The new file and the target change names; an exception after that changes them back. */
  function PublishOver(w: Work, r: Request, env: Env): Step<Work>
    requires r.name in w.entries
  {
    var identity := w.entries[r.name].identity;
    var w :- At(w, env.at(Restat));
    var w :- At(w, env.at(BeforePublish));
    var w :- Exchange(w, r.temporary, r.name, env.at(Publish));
    if env.at(RestatExchanged).Proceed? && w.entries[r.temporary].identity == identity && env.at(AfterPublish).Proceed?
    then Go(w)
    else
      var w :- At(w, env.at(EnterRollBack));
      var back := Exchange(w, r.temporary, r.name, env.at(RollBack));
      Exc(if back.Go? || !env.at(RecordPreserve).Proceed? then back.plan else back.plan.(preserve := true))
  }

  /** The `try` block. */
  function TryWrite(entries: Listing, r: Request, mode: Mode, env: Env): Step<Work>
    requires !r.create ==> r.name in entries
    requires r.name != r.temporary
  {
    var w :- WriteTemporary(Work(entries, false), r, mode, env);
    if r.create then PublishNew(w, r, env)
    else
      assert r.name in w.entries - {r.temporary} <==> r.name in w.entries;
      PublishOver(w, r, env)
  }

  /** The `finally` block: the temporary name goes, unless it is to be kept. */
  function CleanUp(done: Step<Work>, r: Request, env: Env): Step<Listing> {
    var w := done.plan;
    if w.preserve || r.temporary !in w.entries then if done.Go? then Go(w.entries) else Exc(w.entries)
    else if env.at(Unlink).Raise? then Exc(w.entries)
    else if done.Go? && env.at(Unlink).Proceed? then Go(w.entries - {r.temporary})
    else Exc(w.entries - {r.temporary})
  }

  function WriteFile(entries: Listing, r: Request, env: Env): Step<Listing>
    requires r.name != r.temporary
  {
    var mode := Admit(entries, r, env);
    if mode.None? then Exc(entries) else CleanUp(TryWrite(entries, r, mode.value, env), r, env)
  }

  // ----- Properties -----

  /** The file that a successful write leaves under the name. */
  function NewFile(r: Request, mode: Mode): Inode {
    Regular(r.identity, r.contents, mode)
  }

  /** What the `try` block can leave behind: nothing but a temporary file, or the new file in place. */
  lemma TryWriteOutcomes(entries: Listing, r: Request, mode: Mode, env: Env)
    requires r.name != r.temporary && r.temporary !in entries &&
             (if r.create then r.name !in entries else r.name in entries)
    ensures
      var s := TryWrite(entries, r, mode, env);
      var w := s.plan;
      var published := entries[r.name := NewFile(r, mode)];
      var displaced := if r.create then published else published[r.temporary := entries[r.name]];
      if s.Go? then !w.preserve && w.entries == displaced
      else
        || (!w.preserve && w.entries - {r.temporary} == entries)
        || (w.preserve && env.at(RollBack).Raise? && w.entries == displaced)
        || (w.preserve && env.at(RollBack).RaiseLate? && w.entries == entries[r.temporary := NewFile(r, mode)])
        || (!w.preserve && (env.at(Publish).RaiseLate? || NotRolledBack(env)) && w.entries == displaced)
  {
    TryLeaves(entries, r, mode, env);
    TemporaryGoes(entries, r.temporary, Partial(r, mode, env));
    TemporaryGoes(entries, r.temporary, NewFile(r, mode));
    assert entries - {r.temporary} == entries;
  }

  /**
   A request is carried out exactly if the name can be looked at, and it is free for a new file, or there is a file
   under it with the contents that are expected, if any are.  A replaced file keeps its mode unless another is given.
   */
  lemma AdmittedExactlyWhen(entries: Listing, r: Request, env: Env)
    ensures
      var mode := Admit(entries, r, env);
      && (mode.Some? <==>
            && env.at(Inspect).Proceed?
            && (r.create ==> r.name !in entries && r.mode.Some?)
            && (!r.create ==>
                  && r.name in entries && entries[r.name].Regular?
                  && (r.expected.Some? ==> r.expected.value == entries[r.name].contents)))
      && (mode.Some? && r.mode.Some? ==> mode == r.mode)
      && (mode.Some? && r.mode.None? ==> mode.value == entries[r.name].mode)
  {
  }

  /**
   On return the name holds exactly the requested bytes and mode, and nothing else has changed; it was free before, or
   held a file with the expected contents.
   */
  lemma ReturnedMeansWritten(entries: Listing, r: Request, env: Env)
    requires r.name != r.temporary && r.temporary !in entries && WriteFile(entries, r, env).Go?
    ensures Admit(entries, r, env).Some?
    ensures WriteFile(entries, r, env).plan == entries[r.name := NewFile(r, Admit(entries, r, env).value)]
    ensures if r.create then r.name !in entries else r.name in entries && entries[r.name].Regular?
    ensures !r.create && r.expected.Some? ==> r.expected.value == entries[r.name].contents
    ensures Some(Admit(entries, r, env).value) == if r.mode.Some? then r.mode else Some(entries[r.name].mode)
  {
    WriteLeaves(entries, r, env);
  }

  /** What a call leaves in the directory. */
  datatype Fate =
    | Unchanged
      // a temporary file, with what was written of it
    | TemporaryLeft(file: Inode)
      // the new file under its name, and what it displaced is gone, or there was nothing
    | Written
      // the new file under its name, and what it displaced under the temporary name
    | WrittenBeside

  /** The temporary file is complete, and nothing keeps it from being published. */
  predicate ReachesPublish(r: Request, env: Env) {
    && env.at(OpenTemporary).Proceed? && Stream(|r.contents|, 0, 0, env).1 && env.at(SetMode).Proceed?
    && (!r.create ==> env.at(Restat).Proceed?) && env.at(BeforePublish).Proceed?
  }

  /** Nothing interrupts the call between the rename and its return. */
  predicate StaysPublished(r: Request, env: Env) {
    (!r.create ==> env.at(RestatExchanged).Proceed?) && env.at(AfterPublish).Proceed?
  }

  /** The temporary file with what was written of it when the call was interrupted. */
  function Partial(r: Request, mode: Mode, env: Env): Inode {
    StreamBounds(|r.contents|, 0, 0, env);
    Regular(r.identity, if env.at(OpenTemporary).Proceed? then r.contents[..Stream(|r.contents|, 0, 0, env).0]
        else [], mode)
  }

  /** The fate of what displaces a file, or displaces nothing, once it has its name for good. */
  function Published(r: Request, env: Env): Fate {
    if r.create || !env.at(Unlink).Raise? then Written else WrittenBeside
  }

  function FateOf(entries: Listing, r: Request, env: Env): Fate {
    var mode := Admit(entries, r, env);
    if mode.None? || env.at(OpenTemporary).Raise? then Unchanged
    else if !ReachesPublish(r, env) || env.at(Publish).Raise? then
      if env.at(Unlink).Raise? then TemporaryLeft(Partial(r, mode.value, env)) else Unchanged
    else if env.at(Publish).RaiseLate? || StaysPublished(r, env) ||
        !env.at(EnterRollBack).Proceed? then Published(r, env)
    else
      var recorded := env.at(RecordPreserve).Proceed?;
      match env.at(RollBack)
      case Proceed => if env.at(Unlink).Raise? then TemporaryLeft(NewFile(r, mode.value)) else Unchanged
      case Raise => if !recorded then Published(r, env) else if r.create then Written else WrittenBeside
      case RaiseLate => if recorded || env.at(Unlink).Raise? then TemporaryLeft(NewFile(r, mode.value)) else Unchanged
  }

  function Left(entries: Listing, r: Request, mode: Mode, fate: Fate): Listing {
    match fate
    case Unchanged => entries
    case TemporaryLeft(file) => entries[r.temporary := file]
    case Written => entries[r.name := NewFile(r, mode)]
    case WrittenBeside => if r.name in entries
        then entries[r.name := NewFile(r, mode)][r.temporary := entries[r.name]] else entries
  }

  /** The call returns just when nothing interrupts it. */
  predicate Uninterrupted(r: Request, env: Env) {
    && ReachesPublish(r, env) && env.at(Publish).Proceed? && StaysPublished(r, env)
    && (!r.create ==> env.at(Unlink).Proceed?)
  }

  lemma TemporaryWritten(entries: Listing, r: Request, mode: Mode, env: Env)
    requires r.temporary !in entries
    ensures
      var done := WriteTemporary(Work(entries, false), r, mode, env);
      && (done.Go? <==> env.at(OpenTemporary).Proceed? && Stream(|r.contents|, 0, 0, env).1 && env.at(SetMode).Proceed?)
      && !done.Dead? && !done.plan.preserve
      && (done.Go? ==> done.plan.entries == entries[r.temporary := NewFile(r, mode)])
      && done.plan.entries ==
         if env.at(OpenTemporary).Raise? then entries else entries[r.temporary := Partial(r, mode, env)]
  {
    StreamBounds(|r.contents|, 0, 0, env);
    assert r.contents[..|r.contents|] == r.contents;
  }

  /** What the `try` block leaves, whichever rename takes effect. */
  function LeftByTry(entries: Listing, r: Request, mode: Mode, env: Env): Work
    requires !r.create ==> r.name in entries
  {
    var temporary := entries[r.temporary := NewFile(r, mode)];
    var published := entries[r.name := NewFile(r, mode)];
    var displaced := if r.create then published else published[r.temporary := entries[r.name]];
    if !ReachesPublish(r, env) then
      Work(if env.at(OpenTemporary).Raise? then entries else entries[r.temporary := Partial(r, mode, env)], false)
    else if env.at(Publish).Raise? then Work(temporary, false)
    else if env.at(Publish).RaiseLate? || StaysPublished(r, env) ||
        !env.at(EnterRollBack).Proceed? then Work(displaced, false)
    else match env.at(RollBack)
      case Proceed => Work(temporary, false)
      case Raise => Work(displaced, env.at(RecordPreserve).Proceed?)
      case RaiseLate => Work(temporary, env.at(RecordPreserve).Proceed?)
  }

  /** The rollback of a rename is another rename, and swapping two names twice is nothing. */
  lemma TryLeaves(entries: Listing, r: Request, mode: Mode, env: Env)
    requires r.name != r.temporary && r.temporary !in entries &&
             (if r.create then r.name !in entries else r.name in entries)
    ensures TryWrite(entries, r, mode, env).plan == LeftByTry(entries, r, mode, env)
    ensures TryWrite(entries, r, mode, env).Go? <==>
            ReachesPublish(r, env) && env.at(Publish).Proceed? && StaysPublished(r, env)
  {
    TemporaryWritten(entries, r, mode, env);
    var written := entries[r.temporary := NewFile(r, mode)];
    var published := entries[r.name := NewFile(r, mode)];
    if r.create {
      assert (written - {r.temporary})[r.name := NewFile(r, mode)] == published;
      assert (published - {r.name})[r.temporary := NewFile(r, mode)] == written;
    } else {
      var displaced := published[r.temporary := entries[r.name]];
      assert written[r.temporary := written[r.name]][r.name := written[r.temporary]] == displaced;
      assert displaced[r.temporary := displaced[r.name]][r.name := displaced[r.temporary]] == written;
    }
  }

  /** For every way a call can go: what it leaves, and whether it returns. */
  lemma WriteLeaves(entries: Listing, r: Request, env: Env)
    requires r.name != r.temporary && r.temporary !in entries
    ensures
      var mode := Admit(entries, r, env);
      && WriteFile(entries, r, env).plan ==
          Left(entries, r, if mode.Some? then mode.value else 0, FateOf(entries, r, env))
      && (WriteFile(entries, r, env).Go? <==> mode.Some? && Uninterrupted(r, env))
  {
    var admitted := Admit(entries, r, env);
    if admitted.Some? {
      var mode := admitted.value;
      TryLeaves(entries, r, mode, env);
      var published := entries[r.name := NewFile(r, mode)];
      TemporaryGoes(entries, r.temporary, Partial(r, mode, env));
      TemporaryGoes(entries, r.temporary, NewFile(r, mode));
      if r.name in entries { TemporaryGoes(published, r.temporary, entries[r.name]); }
    }
  }

  lemma TemporaryGoes(entries: Listing, temporary: string, file: Inode)
    requires temporary !in entries
    ensures entries[temporary := file] - {temporary} == entries
  {
  }

  /** The rename is taken back, and nothing asks to keep the temporary file. */
  predicate RolledBack(env: Env) {
    && env.at(EnterRollBack).Proceed?
    && (env.at(RollBack).Proceed? || (env.at(RollBack).RaiseLate? && !env.at(RecordPreserve).Proceed?))
  }

  /** The rename is not taken back, and nothing asks to keep what it displaced. */
  predicate NotRolledBack(env: Env) {
    !env.at(EnterRollBack).Proceed? || (env.at(RollBack).Raise? && !env.at(RecordPreserve).Proceed?)
  }

  /** Everything that was done is undone, or nothing was. */
  predicate Undone(entries: Listing, r: Request, env: Env) {
    || Admit(entries, r, env).None? || env.at(OpenTemporary).Raise?
    || (!env.at(Unlink).Raise?
        && (!ReachesPublish(r, env) || env.at(Publish).Raise?
            || (env.at(Publish).Proceed? && !StaysPublished(r, env) && RolledBack(env))))
  }

  /**
   A call that raises leaves the directory as it was exactly if it is undone: it was refused, or its temporary
   file could be removed and the rename was not reached, refused, or taken back.
   */
  lemma RaisedMeansUnchanged(entries: Listing, r: Request, env: Env)
    requires r.name != r.temporary && r.temporary !in entries
    requires forall n :: n in entries ==> entries[n].identity != r.identity
    ensures WriteFile(entries, r, env).plan == entries <==> Undone(entries, r, env)
    ensures WriteFile(entries, r, env).Go? ==> !Undone(entries, r, env)
  {
    WriteLeaves(entries, r, env);
    var mode := Admit(entries, r, env);
    if mode.Some? {
      var published := entries[r.name := NewFile(r, mode.value)];
      assert published[r.name] == NewFile(r, mode.value);
      assert published != entries;
    }
  }

  /** A rename that takes effect and is then interrupted is never undone: the write raises and has happened. */
  lemma LatePublishIsNotUndone(entries: Listing, r: Request, env: Env)
    requires r.name != r.temporary && r.temporary !in entries && Admit(entries, r, env).Some?
    requires ReachesPublish(r, env) && env.at(Publish).RaiseLate?
    ensures
      var after := WriteFile(entries, r, env);
      && after.Exc? && r.name in after.plan && after.plan[r.name] == NewFile(r, Admit(entries, r, env).value)
      && (!r.create && env.at(Unlink).Raise? ==>
          r.temporary in after.plan && after.plan[r.temporary] == entries[r.name])
      && (r.create || !env.at(Unlink).Raise? ==> r.temporary !in after.plan)
  {
    WriteLeaves(entries, r, env);
  }

  /**
   A call that raises loses the file that was there exactly if the rename took effect and was interrupted, or was not
   taken back because a second exception came between, or nothing came after it but the interrupted removal of the
   displaced file.
   */
  lemma OldFileIsLostExactlyWhen(entries: Listing, r: Request, env: Env)
    requires r.name != r.temporary && r.temporary !in entries && r.name in entries
    requires forall n :: n in entries ==>
             entries[n].identity != r.identity && (n != r.name ==> entries[n] != entries[r.name])
    requires WriteFile(entries, r, env).Exc?
    ensures
      var after := WriteFile(entries, r, env).plan;
      (forall n :: n in after ==> after[n] != entries[r.name]) <==>
        && Admit(entries, r, env).Some? && ReachesPublish(r, env) && !env.at(Unlink).Raise?
        && (env.at(Publish).RaiseLate? || (env.at(Publish).Proceed? && (StaysPublished(r, env) || NotRolledBack(env))))
  {
    WriteLeaves(entries, r, env);
    var after := WriteFile(entries, r, env).plan;
    var kept := (r.name in after && after[r.name] == entries[r.name]) ||
        (r.temporary in after && after[r.temporary] == entries[r.name]);
    assert kept ==> !forall n :: n in after ==> after[n] != entries[r.name];
  }
}
