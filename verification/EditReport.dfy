/** The report that `_changes` makes of an edit plan, and why it can be trusted. */
module EditReport {
  import opened Common
  import opened Ordering
  import opened OverlayTree
  import opened Permissions
  import opened EditPlans

  // ----- Modes of created directories -----

  function CreatedDirectories(ops: seq<Operation>): seq<Operation> {
    if ops == [] then []
    else (if ops[0].CreateDirectory? then [ops[0]] else []) + CreatedDirectories(ops[1..])
  }

  function SetModes(t: Tree, directories: seq<Operation>): Option<Tree>
    requires forall op :: op in directories ==> op.CreateDirectory?
    decreases |directories|
  {
    if directories == [] then Some(t)
    else
      var op := directories[0];
      if op.key !in t || !t[op.key].Directory? || !Opens(t, op.key) || !OwnerReads(t[op.key].mode) then None
      else SetModes(t[op.key := Directory(op.mode)], directories[1..])
  }

  predicate Deeper(a: Operation, b: Operation) { |a.key.path| > |b.key.path| }

  /** The created directories, deepest first. */
  function DeepestFirst(ops: seq<Operation>): (r: seq<Operation>)
    ensures forall op :: op in r <==> op in ops && op.CreateDirectory?
  {
    CreatedMembers(ops);
    var created := CreatedDirectories(ops);
    assert forall op :: op in SortBy(created, Deeper) <==> op in created by {
      forall op ensures op in SortBy(created, Deeper) <==> op in created { SortMembers(created, Deeper, op); }
    }
    SortBy(created, Deeper)
  }

  lemma {:induction false} CreatedMembers(ops: seq<Operation>)
    ensures forall op :: op in CreatedDirectories(ops) <==> op in ops && op.CreateDirectory?
  {
    if ops != [] { CreatedMembers(ops[1..]); }
  }

  /** `_finalize_created_directory_modes`. */
  function FinalizeModes(t: Tree, ops: seq<Operation>): Option<Tree> {
    SetModes(t, DeepestFirst(ops))
  }

  lemma {:induction false} SetModesKeeps(t: Tree, directories: seq<Operation>)
    requires forall op :: op in directories ==> op.CreateDirectory?
    requires SetModes(t, directories).Some?
    ensures
      var t' := SetModes(t, directories).value;
      && t'.Keys == t.Keys
      && (forall k :: k in t && (t[k].File? || forall op :: op in directories ==> op.key != k) ==> t'[k] == t[k])
      && (forall k :: k in t && t[k].Directory? ==> t'[k].Directory?)
      && (forall op :: op in directories ==> op.key in t && t[op.key].Directory?)
    decreases |directories|
  {
    if directories != [] {
      var op := directories[0];
      var t1 := t[op.key := Directory(op.mode)];
      SetModesKeeps(t1, directories[1..]);
      assert t1.Keys == t.Keys;
    }
  }

  /** The mode of a directory is set exactly if the way to it is open and it can be opened itself. */
  lemma {:induction false} ModeIsSetExactlyWhen(t: Tree, op: Operation)
    requires op.CreateDirectory?
    ensures
      var r := SetModes(t, [op]);
      && (r.Some? <==> op.key in t && t[op.key].Directory? && Opens(t, op.key) && OwnerReads(t[op.key].mode))
      && (r.Some? ==> r.value == t[op.key := Directory(op.mode)])
  {
    assert [op][1..] == [];
  }

  // ----- The report -----

  datatype Action = Created | Updated | Deleted | Moved | Unchanged

  datatype Change = Change(action: Action, key: Key, source: Option<Key>, before: Option<Bytes>, after: Option<Bytes>)

  function DigestOf(node: Node): Option<Bytes> {
    if node.File? then Some(node.contents) else None
  }

  function DigestAt(t: Tree, k: Key): Option<Bytes> {
    if k in t then DigestOf(t[k]) else None
  }

  predicate ReportsMove(before: Tree, after: Tree, op: Operation) {
    op.Move? && op.source in before && op.key in after
  }

  function MovedChanges(before: Tree, after: Tree, ops: seq<Operation>): seq<Change> {
    if ops == [] then []
    else
      (if ReportsMove(before, after, ops[0])
       then [Change(Moved, ops[0].key, Some(ops[0].source), DigestOf(before[ops[0].source]),
           DigestOf(after[ops[0].key]))]
       else [])
      + MovedChanges(before, after, ops[1..])
  }

  function Handled(before: Tree, after: Tree, ops: seq<Operation>): set<Key> {
    if ops == [] then {}
    else
      var keys := if ReportsMove(before, after, ops[0]) then {ops[0].source, ops[0].key} else {};
      keys + Handled(before, after, ops[1..])
  }

  function PlainChange(before: Tree, after: Tree, k: Key): Change {
    var action :=
      if k !in before then Created
      else if k !in after then Deleted
      else if before[k] != after[k] then Updated
      else Unchanged;
    Change(action, k, None, DigestAt(before, k), DigestAt(after, k))
  }

  function PlainChanges(before: Tree, after: Tree, handled: set<Key>, keys: seq<Key>): seq<Change> {
    if keys == [] then []
    else (if keys[0] in handled then [] else [PlainChange(before, after, keys[0])])
         + PlainChanges(before, after, handled, keys[1..])
  }

  function Report(before: Tree, after: Tree, ops: seq<Operation>, keys: seq<Key>): seq<Change> {
    MovedChanges(before, after, ops) + PlainChanges(before, after, Handled(before, after, ops), keys)
  }

  ghost predicate Enumerates(list: seq<Key>, keys: set<Key>) {
    Distinct(list) && forall k :: k in list <==> k in keys
  }

  function Posix(path: Path): string {
    if path == [] then "" else if |path| == 1 then path[0] else path[0] + "/" + Posix(path[1..])
  }

  function SideOrder(side: Side): string {
    match side case CommonSide => "0" case Client => "1" case Server => "2"
  }

  predicate KeyLess(a: Key, b: Key) {
    Less(SideOrder(a.side) + Posix(a.path), SideOrder(b.side) + Posix(b.path))
  }

  /** The text of a path is its components with slashes between them. */
  lemma {:induction false} PosixJoins(a: Path, b: Path)
    requires a != [] && b != []
    ensures Posix(a + b) == Posix(a) + "/" + Posix(b)
    decreases |a|
  {
    assert (a + b)[0] == a[0] && (a + b)[1..] == a[1..] + b;
    if |a| > 1 {
      PosixJoins(a[1..], b);
      assert a[0] + "/" + (Posix(a[1..]) + "/" + Posix(b)) == a[0] + "/" + Posix(a[1..]) + "/" + Posix(b);
    } else {
      assert a[1..] + b == b;
    }
  }

  function SideRank(side: Side): nat {
    match side case CommonSide => 0 case Client => 1 case Server => 2
  }

  /** The report has the common entries first, then those of the client and the server, each side by its paths' text. */
  lemma KeyOrderIs(a: Key, b: Key)
    ensures KeyLess(a, b) <==>
              SideRank(a.side) < SideRank(b.side) || (a.side == b.side && Less(Posix(a.path), Posix(b.path)))
  {
    var x, y := SideOrder(a.side) + Posix(a.path), SideOrder(b.side) + Posix(b.path);
    assert x[0] == SideOrder(a.side)[0] && x[1..] == Posix(a.path);
    assert y[0] == SideOrder(b.side)[0] && y[1..] == Posix(b.path);
  }

  method Enumerate(keys: set<Key>) returns (list: seq<Key>)
    ensures Enumerates(list, keys)
  {
    list := [];
    var rest := keys;
    while rest != {}
      invariant Enumerates(list, keys - rest) && rest <= keys
      decreases rest
    {
      var k :| k in rest;
      list, rest := list + [k], rest - {k};
    }
    assert keys - rest == keys;
  }

  lemma {:induction false} OneMoveMore(
    before: Tree, after: Tree, ops: seq<Operation>, i: nat, changes: seq<Change>, handled: set<Key>)
    requires i < |ops|
    ensures
      var op := ops[i];
      var change := if ReportsMove(before, after, op)
        then [Change(Moved, op.key, Some(op.source), DigestOf(before[op.source]), DigestOf(after[op.key]))] else [];
      && changes + MovedChanges(before, after, ops[i..]) ==
          (changes + change) + MovedChanges(before, after, ops[i + 1..])
      && handled + Handled(before, after, ops[i..]) ==
         (handled + if ReportsMove(before, after, op) then {op.source, op.key} else {}) +
             Handled(before, after, ops[i + 1..])
  {
    assert ops[i..][0] == ops[i] && ops[i..][1..] == ops[i + 1..];
  }

  lemma {:induction false} OneKeyMore(
    before: Tree, after: Tree, handled: set<Key>, keys: seq<Key>, i: nat, changes: seq<Change>)
    requires i < |keys|
    ensures
      var change := if keys[i] in handled then [] else [PlainChange(before, after, keys[i])];
      changes + PlainChanges(before, after, handled, keys[i..]) ==
      (changes + change) + PlainChanges(before, after, handled, keys[i + 1..])
  {
    assert keys[i..][0] == keys[i] && keys[i..][1..] == keys[i + 1..];
  }

  /** The first loop of `_changes`. */
  method ReportMoves(before: Tree, after: Tree, ops: seq<Operation>) returns (changes: seq<Change>, handled: set<Key>)
    ensures changes == MovedChanges(before, after, ops) && handled == Handled(before, after, ops)
  {
    changes, handled := [], {};
    ghost var moves, all := MovedChanges(before, after, ops), Handled(before, after, ops);
    assert ops[0..] == ops;
    for i := 0 to |ops|
      invariant moves == changes + MovedChanges(before, after, ops[i..])
      invariant all == handled + Handled(before, after, ops[i..])
    {
      var op := ops[i];
      OneMoveMore(before, after, ops, i, changes, handled);
      if op.Move? && op.source in before && op.key in after {
        assert ReportsMove(before, after, op);
        changes := changes + [Change(Moved, op.key, Some(op.source), DigestOf(before[op.source]),
            DigestOf(after[op.key]))];
        handled := handled + {op.source, op.key};
      } else {
        assert !ReportsMove(before, after, op) && changes + [] == changes && handled + {} == handled;
      }
    }
  }

  /** The second loop of `_changes`. */
  method ReportRest(before: Tree, after: Tree, handled: set<Key>, keys: seq<Key>) returns (changes: seq<Change>)
    ensures changes == PlainChanges(before, after, handled, keys)
  {
    changes := [];
    ghost var plain := PlainChanges(before, after, handled, keys);
    assert keys[0..] == keys;
    for i := 0 to |keys|
      invariant plain == changes + PlainChanges(before, after, handled, keys[i..])
    {
      OneKeyMore(before, after, handled, keys, i, changes);
      if keys[i] !in handled {
        changes := changes + [PlainChange(before, after, keys[i])];
      }
    }
  }

  /** `_changes`: the report of the moves, then the other keys in order. */
  method Changes(before: Tree, after: Tree, ops: seq<Operation>) returns (changes: seq<Change>, keys: seq<Key>)
    ensures Enumerates(keys, before.Keys + after.Keys) && SortedBy(keys, KeyLess)
    ensures changes == Report(before, after, ops, keys)
  {
    var handled;
    changes, handled := ReportMoves(before, after, ops);
    var list := Enumerate(before.Keys + after.Keys);
    keys := SortBy(list, KeyLess);
    SortedEnumerates(list, before.Keys + after.Keys);
    var rest := ReportRest(before, after, handled, keys);
    changes := changes + rest;
  }

  lemma SortedEnumerates(list: seq<Key>, keys: set<Key>)
    requires Enumerates(list, keys)
    ensures Enumerates(SortBy(list, KeyLess), keys) && SortedBy(SortBy(list, KeyLess), KeyLess)
  {
    forall k ensures k in SortBy(list, KeyLess) <==> k in list { SortMembers(list, KeyLess, k); }
    SortKeepsDistinct(list, KeyLess);
    forall a: Key, b: Key | KeyLess(a, b) ensures !KeyLess(b, a) {
      LessIsAsymmetric(SideOrder(a.side) + Posix(a.path), SideOrder(b.side) + Posix(b.path));
    }
    forall a: Key, b: Key, c: Key | !KeyLess(b, a) && !KeyLess(c, b) ensures !KeyLess(c, a) {
      NotLessIsTransitive(SideOrder(a.side) + Posix(a.path), SideOrder(b.side) + Posix(b.path),
          SideOrder(c.side) + Posix(c.path));
    }
    SortSorts(list, KeyLess);
  }

  // ----- Soundness -----

  /** A change accounts for its key, and a move also for its source. */
  predicate Covers(change: Change, k: Key) {
    change.key == k || change.source == Some(k)
  }

  function TimesCovered(changes: seq<Change>, k: Key): nat {
    if changes == [] then 0 else (if Covers(changes[0], k) then 1 else 0) + TimesCovered(changes[1..], k)
  }

  lemma {:induction false} CoveringAdds(a: seq<Change>, b: seq<Change>, k: Key)
    ensures TimesCovered(a + b, k) == TimesCovered(a, k) + TimesCovered(b, k)
  {
    if a == [] {
      assert a + b == b;
    } else {
      assert (a + b)[0] == a[0] && (a + b)[1..] == a[1..] + b;
      CoveringAdds(a[1..], b, k);
    }
  }

  lemma {:induction false} HandledAreTargets(before: Tree, after: Tree, ops: seq<Operation>, k: Key)
    requires k in Handled(before, after, ops)
    ensures exists i :: 0 <= i < |ops| && ReportsMove(before, after, ops[i]) && k in Targets(ops[i])
  {
    if ReportsMove(before, after, ops[0]) && k in Targets(ops[0]) {
    } else {
      HandledAreTargets(before, after, ops[1..], k);
      var i :| 0 <= i < |ops[1..]| && ReportsMove(before, after, ops[1..][i]) && k in Targets(ops[1..][i]);
      assert ops[i + 1] == ops[1..][i];
    }
  }

  lemma {:induction false} MovesCoverHandled(before: Tree, after: Tree, ops: seq<Operation>, k: Key)
    requires TargetsDistinct(ops)
    ensures TimesCovered(MovedChanges(before, after, ops), k) == if k in Handled(before, after, ops) then 1 else 0
  {
    if ops != [] {
      var op, rest := ops[0], ops[1..];
      assert forall i :: 0 <= i < |rest| ==> rest[i] == ops[i + 1];
      MovesCoverHandled(before, after, rest, k);
      var first := if ReportsMove(before, after, op)
        then [Change(Moved, op.key, Some(op.source), DigestOf(before[op.source]), DigestOf(after[op.key]))] else [];
      CoveringAdds(first, MovedChanges(before, after, rest), k);
      if ReportsMove(before, after, op) {
        if k in Handled(before, after, rest) && k in Targets(op) {
          HandledAreTargets(before, after, rest, k);
          assert false;
        }
      }
    }
  }

  lemma {:induction false} PlainCoversRest(before: Tree, after: Tree, handled: set<Key>, keys: seq<Key>, k: Key)
    requires Distinct(keys)
    ensures TimesCovered(PlainChanges(before, after, handled, keys), k) == if k in keys && k !in handled then 1 else 0
  {
    if keys != [] {
      var rest := keys[1..];
      assert forall i :: 0 <= i < |rest| ==> rest[i] == keys[i + 1];
      PlainCoversRest(before, after, handled, rest, k);
      var first := if keys[0] in handled then [] else [PlainChange(before, after, keys[0])];
      CoveringAdds(first, PlainChanges(before, after, handled, rest), k);
    }
  }

  /** Every key that was or is there is accounted for by exactly one change, and no other key is. */
  lemma ReportCoversOnce(before: Tree, after: Tree, ops: seq<Operation>, keys: seq<Key>, k: Key)
    requires TargetsDistinct(ops) && Enumerates(keys, before.Keys + after.Keys)
    ensures TimesCovered(Report(before, after, ops, keys), k) == if k in before || k in after then 1 else 0
  {
    var handled := Handled(before, after, ops);
    CoveringAdds(MovedChanges(before, after, ops), PlainChanges(before, after, handled, keys), k);
    MovesCoverHandled(before, after, ops, k);
    PlainCoversRest(before, after, handled, keys, k);
    if k in handled { HandledAreTargets(before, after, ops, k); }
  }

  /** A move whose source was there at first and whose destination is there at last. */
  lemma MoveHappened(states: seq<Tree>, ops: seq<Operation>, m: nat)
    requires IsRun(states, ops) && TargetsDistinct(ops) && m < |ops| && ops[m].Move?
    requires ops[m].source in states[0] && ops[m].key in states[|ops|]
    ensures ops[m].source !in states[|ops|] && ops[m].key !in states[0]
    ensures states[0][ops[m].source] == states[|ops|][ops[m].key]
  {
    var source, destination := ops[m].source, ops[m].key;
    assert ApplyOperation(states[m], ops[m]) == Some(states[m + 1]);
    StatesPrefixClosed(states, ops, m);
    RelocateMembers(states[m], source, destination, source);
    RelocateMembers(states[m], source, destination, destination);
    assert Rebase(destination, destination, source) == source;
    if Under(destination, source) { AncestorsExist(states[m], destination, source); }
    if m + 1 < |ops| && source in states[|ops|] { NoResurrection(states, ops, source, m, m + 1, |ops|); }
    if 0 < m && destination in states[0] { NoResurrection(states, ops, destination, 0, m, m + 1); }
    assert source in Targets(ops[m]) && destination in Targets(ops[m]);
    UntouchedKeys(states, ops, source, 0, m);
    UntouchedKeys(states, ops, destination, m + 1, |ops|);
  }

  // ----- What the changes say -----

  /** The digest of the file at a key, and nothing for a directory or a key that is not there. */
  ghost predicate DigestIs(digest: Option<Bytes>, t: Tree, k: Key) {
    && (digest.Some? <==> k in t && t[k].File?)
    && (digest.Some? ==> digest.value == t[k].contents)
  }

  /** The action is what happened at the key, between the baseline and the result. */
  ghost predicate TellsOf(before: Tree, after: Tree, change: Change) {
    var k := change.key;
    && change.source.None? && (k in before || k in after)
    && DigestIs(change.before, before, k) && DigestIs(change.after, after, k)
    && (change.action == Created <==> k !in before)
    && (change.action == Deleted <==> k !in after)
    && (change.action == Updated <==> k in before && k in after && before[k] != after[k])
    && (change.action == Unchanged <==> k in before && k in after && before[k] == after[k])
  }

  /** A move that took an entry of the baseline to an entry of the result, as a change. */
  ghost predicate TellsOfMove(before: Tree, after: Tree, op: Operation, change: Change) {
    && op.Move? && op.source in before && op.key in after
    && change.action == Moved && change.key == op.key && change.source == Some(op.source)
    && DigestIs(change.before, before, op.source) && DigestIs(change.after, after, op.key)
  }

  /** Some move of the plan took an entry of the baseline from the key, or to it as an entry of the result. */
  ghost predicate MovedKey(before: Tree, after: Tree, ops: seq<Operation>, k: Key) {
    exists i :: 0 <= i < |ops| && ops[i].Move? && ops[i].source in before && ops[i].key in after
                && (k == ops[i].source || k == ops[i].key)
  }

  lemma {:induction false} HandledAreMoved(before: Tree, after: Tree, ops: seq<Operation>, k: Key)
    ensures k in Handled(before, after, ops) <==> MovedKey(before, after, ops, k)
  {
    if ops != [] {
      HandledAreMoved(before, after, ops[1..], k);
      assert ops == [ops[0]] + ops[1..];
      if MovedKey(before, after, ops[1..], k) {
        var i :| 0 <= i < |ops[1..]| && ops[1..][i].Move? && ops[1..][i].source in before && ops[1..][i].key in after
                 && (k == ops[1..][i].source || k == ops[1..][i].key);
        assert ops[i + 1] == ops[1..][i];
      }
      if MovedKey(before, after, ops, k) {
        var i :| 0 <= i < |ops| && ops[i].Move? && ops[i].source in before && ops[i].key in after
                 && (k == ops[i].source || k == ops[i].key);
        if i > 0 { assert ops[1..][i - 1] == ops[i]; }
      }
    }
  }

  lemma {:induction false} PlainChangesAre(
    before: Tree, after: Tree, handled: set<Key>, keys: seq<Key>, change: Change)
    requires forall k :: k in keys ==> k in before || k in after
    ensures change in PlainChanges(before, after, handled, keys) <==>
              change.key in keys && change.key !in handled && TellsOf(before, after, change)
  {
    if keys != [] {
      PlainChangesAre(before, after, handled, keys[1..], change);
      assert TellsOf(before, after, PlainChange(before, after, keys[0]));
      assert TellsOf(before, after, change) && change.key == keys[0] ==>
          change == PlainChange(before, after, keys[0]);
    }
  }

  lemma {:induction false} MovedChangesAre(before: Tree, after: Tree, ops: seq<Operation>, change: Change)
    ensures change in MovedChanges(before, after, ops) <==>
              exists i :: 0 <= i < |ops| && TellsOfMove(before, after, ops[i], change)
  {
    if ops != [] {
      MovedChangesAre(before, after, ops[1..], change);
      assert ops == [ops[0]] + ops[1..];
      assert TellsOfMove(before, after, ops[0], change) <==>
             ReportsMove(before, after, ops[0])
             && change == Change(Moved, ops[0].key, Some(ops[0].source), DigestOf(before[ops[0].source]),
                 DigestOf(after[ops[0].key]));
      if change in MovedChanges(before, after, ops[1..]) {
        var i :| 0 <= i < |ops[1..]| && TellsOfMove(before, after, ops[1..][i], change);
        assert ops[i + 1] == ops[1..][i];
      }
      if i :| 0 <= i < |ops| && TellsOfMove(before, after, ops[i], change) {
        if i > 0 { assert ops[1..][i - 1] == ops[i]; }
      }
    }
  }

  /**
   The report, change by change: it tells of each move that took an entry of the baseline to one of the result, and of
   every other key what happened there; it tells of nothing else.
   */
  lemma ReportIs(before: Tree, after: Tree, ops: seq<Operation>, keys: seq<Key>, change: Change)
    requires Enumerates(keys, before.Keys + after.Keys)
    ensures change in Report(before, after, ops, keys) <==>
              || (exists i :: 0 <= i < |ops| && TellsOfMove(before, after, ops[i], change))
              || (TellsOf(before, after, change) && !MovedKey(before, after, ops, change.key))
  {
    var handled := Handled(before, after, ops);
    MovedChangesAre(before, after, ops, change);
    PlainChangesAre(before, after, handled, keys, change);
    HandledAreMoved(before, after, ops, change.key);
  }

  /** What is reported as moved was at its source only, is at its destination only, and is the same. */
  lemma ReportedMovesAreSound(states: seq<Tree>, ops: seq<Operation>, after: Tree, keys: seq<Key>, change: Change)
    requires IsRun(states, ops) && TargetsDistinct(ops)
    requires FinalizeModes(states[|ops|], ops) == Some(after)
    requires Enumerates(keys, states[0].Keys + after.Keys)
    requires change in Report(states[0], after, ops, keys) && change.action == Moved
    ensures change.source.Some? && change.source.value in states[0] && change.source.value !in after
    ensures change.key !in states[0] && change.key in after
    ensures change.before == change.after && states[0][change.source.value].File? == after[change.key].File?
    ensures states[0][change.source.value].File? ==> after[change.key] == states[0][change.source.value]
    ensures DigestIs(change.before, states[0], change.source.value)
  {
    ReportIs(states[0], after, ops, keys, change);
    var m :| 0 <= m < |ops| && TellsOfMove(states[0], after, ops[m], change);
    SetModesKeeps(states[|ops|], DeepestFirst(ops));
    MoveHappened(states, ops, m);
  }

  /** For every accepted and staged edit plan: each change is the only one about its key, and it is true. */
  lemma {:induction false} EditPlanIsReportedSoundly(
    fold: Fold, before: Tree, ops: seq<Operation>, after: Tree, keys: seq<Key>, change: Change)
    requires PrefixClosed(before) && Distinct(AllClaims(fold, ops)) && ApplyAll(before, ops).Some?
    requires FinalizeModes(ApplyAll(before, ops).value, ops) == Some(after)
    requires Enumerates(keys, before.Keys + after.Keys) && change in Report(before, after, ops, keys)
    ensures TimesCovered(Report(before, after, ops, keys), change.key) == 1
    ensures change.action == Moved ==>
              && change.source.Some? && change.source.value in before && change.source.value !in after
              && change.key !in before && change.key in after && change.before == change.after
              && DigestIs(change.before, before, change.source.value)
    ensures change.action != Moved ==> TellsOf(before, after, change)
  {
    AcceptedTargetsAreDistinct(fold, ops);
    var states := RunOf(before, ops);
    ReportCoversOnce(before, after, ops, keys, change.key);
    CoveredIfPresent(Report(before, after, ops, keys), change);
    ReportIs(before, after, ops, keys, change);
    if change.action == Moved { ReportedMovesAreSound(states, ops, after, keys, change); }
  }

  lemma {:induction false} CoveredIfPresent(changes: seq<Change>, change: Change)
    requires change in changes
    ensures TimesCovered(changes, change.key) >= 1
  {
    if changes[0] != change { CoveredIfPresent(changes[1..], change); }
  }
}
