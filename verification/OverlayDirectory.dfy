/** `_write_overlay_file` and its writer in the form of the source, on one directory. */
module OverlayDirectories {
  import opened Common
  import opened OverlayTree
  import opened Permissions
  import opened OverlayWrite

  lemma SlicesJoin(contents: Bytes, offset: nat, written: nat, end: nat)
    requires offset + written <= end <= |contents|
    ensures contents[..offset] + contents[offset..end][..written] == contents[..offset + written]
    ensures contents[offset..end][written..] == contents[offset + written..end]
  {
  }

  /** The writer of `write_overlay_bytes`: chunk by chunk, and each chunk write by write. */
  method StreamBytes(contents: Bytes, env: Env) returns (data: Bytes, finished: bool)
    ensures (|data|, finished) == Stream(|contents|, 0, 0, env) && data <= contents
  {
    var offset: nat := 0;
    data := [];
    while offset < |contents|
      invariant offset == |data| <= |contents| && data == contents[..offset]
      invariant Stream(|contents|, 0, 0, env) == Stream(|contents|, offset, offset, env)
    {
      if env.stops(offset) { return data, false; }
      var end := Min(offset + CHUNK, |contents|);
      var chunk := contents[offset..end];
      while chunk != []
        invariant offset == |data| <= end <= |contents| && data == contents[..offset] && chunk == contents[offset..end]
        invariant Stream(|contents|, 0, 0, env) == Stream(|contents|, offset, end, env)
        decreases |chunk|
      {
        var taken := env.written(offset);
        if taken.None? || taken.value == 0 { return data, false; }
        var written := Min(taken.value, |chunk|);
        SlicesJoin(contents, offset, written, end);
        data, offset, chunk := data + chunk[..written], offset + written, chunk[written..];
      }
    }
    finished := true;
  }

  class OverlayDirectory {
    var entries: Listing

    constructor (entries: Listing)
      ensures this.entries == entries
    {
      this.entries := entries;
    }

    method RenameNoReplace(from: string, to: string, event: Event) returns (returned: bool)
      modifies this
      ensures Rename(Work(old(entries), false), from, to, event) == if returned then Go(Work(entries, false))
              else Exc(Work(entries, false))
    {
      if event.Raise? || from !in entries || to in entries { return false; }
      entries := (entries - {from})[to := entries[from]];
      returned := event.Proceed?;
    }

    method RenameExchange(a: string, b: string, event: Event) returns (returned: bool)
      modifies this
      ensures Exchange(Work(old(entries), false), a, b, event) == if returned then Go(Work(entries, false))
              else Exc(Work(entries, false))
    {
      if event.Raise? || a !in entries || b !in entries { return false; }
      entries := entries[a := entries[b]][b := entries[a]];
      returned := event.Proceed?;
    }

    method WriteTemporaryFile(r: Request, mode: Mode, env: Env) returns (returned: bool)
      modifies this
      ensures WriteTemporary(Work(old(entries), false), r, mode, env)
              == if returned then Go(Work(entries, false)) else Exc(Work(entries, false))
    {
      if env.at(OpenTemporary).Raise? || r.temporary in entries { return false; }
      entries := entries[r.temporary := Regular(r.identity, [], mode)];
      if env.at(OpenTemporary).RaiseLate? { return false; }
      var data, finished := StreamBytes(r.contents, env);
      assert data == r.contents[..|data|];
      entries := entries[r.temporary := Regular(r.identity, data, mode)];
      returned := finished && env.at(SetMode).Proceed?;
    }

    method PublishCreated(r: Request, env: Env) returns (returned: bool, preserve: bool)
      modifies this
      ensures PublishNew(Work(old(entries), false), r, env)
              == if returned then Go(Work(entries, preserve)) else Exc(Work(entries, preserve))
    {
      if !env.at(BeforePublish).Proceed? { return false, false; }
      returned := RenameNoReplace(r.temporary, r.name, env.at(Publish));
      if !returned { return false, false; }
      if env.at(AfterPublish).Proceed? { return true, false; }
      if !env.at(EnterRollBack).Proceed? { return false, false; }
      var back := RenameNoReplace(r.name, r.temporary, env.at(RollBack));
      return false, !back && env.at(RecordPreserve).Proceed?;
    }

    method PublishReplaced(r: Request, env: Env) returns (returned: bool, preserve: bool)
      requires r.name in entries
      modifies this
      ensures PublishOver(Work(old(entries), false), r, env)
              == if returned then Go(Work(entries, preserve)) else Exc(Work(entries, preserve))
    {
      var existing := entries[r.name].identity;
      if !env.at(Restat).Proceed? || !env.at(BeforePublish).Proceed? { return false, false; }
      returned := RenameExchange(r.temporary, r.name, env.at(Publish));
      if !returned { return false, false; }
      if env.at(RestatExchanged).Proceed? && entries[r.temporary].identity == existing &&
          env.at(AfterPublish).Proceed? {
        return true, false;
      }
      if !env.at(EnterRollBack).Proceed? { return false, false; }
      var back := RenameExchange(r.temporary, r.name, env.at(RollBack));
      return false, !back && env.at(RecordPreserve).Proceed?;
    }

    method WriteOverlayFile(r: Request, env: Env) returns (returned: bool)
      requires r.name != r.temporary
      modifies this
      ensures WriteFile(old(entries), r, env) == if returned then Go(entries) else Exc(entries)
    {
      var mode := Admit(entries, r, env);
      if mode.None? { return false; }
      var preserve := false;
      assert r.create || r.name in entries;
      returned := WriteTemporaryFile(r, mode.value, env);
      if returned {
        if r.create {
          returned, preserve := PublishCreated(r, env);
        } else {
          assert r.name in old(entries) - {r.temporary};
          returned, preserve := PublishReplaced(r, env);
        }
      }
      if !preserve && r.temporary in entries {
        if env.at(Unlink).Raise? { return false; }
        entries := entries - {r.temporary};
        returned := returned && env.at(Unlink).Proceed?;
      }
    }
  }
}
