/**
 Content overlays and the operations on them (`overlay_policy.py` and the edit plans of
 `content_operations.py`).  An overlay is the map from side and path to what is there; the roots of the
 sides are open to the owner.
 */
module OverlayTree {
  import opened Common
  import opened Permissions

  type Path = seq<string>

  datatype Side = CommonSide | Client | Server

  datatype Key = Key(side: Side, path: Path)

  type Bytes = seq<bv8>

  datatype Node = File(contents: Bytes, mode: Mode) | Directory(mode: Mode)

  type Tree = map<Key, Node>

  function Parent(k: Key): Key
    requires k.path != []
  {
    k.(path := k.path[..|k.path| - 1])
  }

  /** `_open_overlay_parent` finds the directory that the last component stands in. */
  predicate ParentExists(t: Tree, k: Key)
    requires k.path != []
  {
    |k.path| > 1 ==> Parent(k) in t && t[Parent(k)].Directory?
  }

  /** Everything stands in directories, as in a file system. */
  ghost predicate PrefixClosed(t: Tree) {
    forall k :: k in t ==> k.path != [] && ParentExists(t, k)
  }

  /** `k` is `a`, or stands somewhere below it. */
  predicate Under(a: Key, k: Key) {
    a.side == k.side && a.path <= k.path
  }

  function Rebase(k: Key, from: Key, to: Key): Key
    requires Under(from, k)
  {
    Key(to.side, to.path + k.path[|from.path|..])
  }

  // ----- Permissions -----

  function Ancestor(k: Key, i: nat): Key
    requires i <= |k.path|
  {
    k.(path := k.path[..i])
  }

  predicate OpenAt(t: Tree, a: Key) {
    a in t && t[a].Directory? ==> OwnerReads(t[a].mode) && OwnerSearches(t[a].mode)
  }

  /** Every directory on the way to `k` can be opened and searched. */
  predicate Opens(t: Tree, k: Key) {
    forall i {:trigger Ancestor(k, i)} :: 0 < i < |k.path| ==> OpenAt(t, Ancestor(k, i))
  }

  /** ... and names can be made and taken away in the last of them. */
  predicate Admits(t: Tree, k: Key) {
    Opens(t, k) && (|k.path| > 1 && Parent(k) in t && t[Parent(k)].Directory? ==> OwnerWrites(t[Parent(k)].mode))
  }

  /**
   What an operation may do: a file that is replaced is read first, and a directory that gets another parent is written.
   */
  predicate Permitted(t: Tree, op: Operation) {
    && Admits(t, op.key)
    && (op.ReplaceFile? && op.key in t ==> OwnerReads(t[op.key].mode))
    && (op.Move? ==>
          && Admits(t, op.source)
          && (op.source in t && t[op.source].Directory? && op.source.path != [] && op.key.path != [] &&
              Parent(op.source) != Parent(op.key)
              ==> OwnerWrites(t[op.source].mode)))
  }

  // ----- Operations -----

  datatype Operation =
    | CreateFile(key: Key, contents: Bytes, mode: Mode)
    | ReplaceFile(key: Key, contents: Bytes, expected: Option<Bytes>, newMode: Option<Mode>)
    | DeleteFile(key: Key)
    | CreateDirectory(key: Key, mode: Mode)
    | DeleteDirectory(key: Key)
    | Move(source: Key, key: Key)

  predicate IsEmptyDirectory(t: Tree, k: Key) {
    k in t && t[k].Directory? && forall other :: other in t && other != k ==> !Under(k, other)
  }

  lemma RebaseIsInjective(a: Key, b: Key, from: Key, to: Key)
    requires Under(from, a) && Under(from, b) && Rebase(a, from, to) == Rebase(b, from, to)
    ensures a == b
  {
    assert a.path == from.path + Rebase(a, from, to).path[|to.path|..];
    assert b.path == from.path + Rebase(b, from, to).path[|to.path|..];
  }

  /** What stands at or below `from`, moved to `to`. */
  function Relocated(t: Tree, from: Key, to: Key): Tree {
    assert forall a, b | a in t && b in t && Under(from, a) && Under(from, b) &&
        Rebase(a, from, to) == Rebase(b, from, to) :: a == b by {
      forall a, b | a in t && b in t && Under(from, a) && Under(from, b) && Rebase(a, from, to) == Rebase(b, from, to)
        ensures a == b
      {
        RebaseIsInjective(a, b, from, to);
      }
    }
    map k | k in t && Under(from, k) :: Rebase(k, from, to) := t[k]
  }

  function Relocate(t: Tree, from: Key, to: Key): Tree {
    (map k | k in t && !Under(from, k) :: t[k]) + Relocated(t, from, to)
  }

  /** `_apply_operation`: the new overlay, or nothing when the operation is refused. */
  function ApplyOperation(t: Tree, op: Operation): Option<Tree> {
    if op.key.path == [] || !ParentExists(t, op.key) || !Permitted(t, op) then None else
    match op
    case CreateFile(k, contents, mode) =>
      if k in t then None else Some(t[k := File(contents, mode)])
    case ReplaceFile(k, contents, expected, newMode) =>
      if k !in t || !t[k].File? || (expected.Some? && t[k].contents != expected.value) then None
      else Some(t[k := File(contents, if newMode.Some? then newMode.value else t[k].mode)])
    case DeleteFile(k) =>
      if k !in t || !t[k].File? then None else Some(t - {k})
    case CreateDirectory(k, mode) =>
      if k in t then None else Some(t[k := Directory(mode | OWNER)])
    case DeleteDirectory(k) =>
      if !IsEmptyDirectory(t, k) then None else Some(t - {k})
    case Move(source, k) =>
      if source.path == [] || !ParentExists(t, source) || source !in t || k in t || Under(source, k) then None
      else Some(Relocate(t, source, k))
  }

  /** The keys an operation takes for itself. */
  function Targets(op: Operation): seq<Key> {
    if op.Move? then [op.source, op.key] else [op.key]
  }

  // ----- What one operation can do -----

  lemma AncestorsExist(t: Tree, a: Key, k: Key)
    requires PrefixClosed(t) && k in t && Under(a, k) && a.path != [] && a != k
    ensures a in t && t[a].Directory?
    decreases |k.path|
  {
    if Parent(k) != a {
      assert a.path <= Parent(k).path;
      AncestorsExist(t, a, Parent(k));
    }
  }

  lemma RelocateMembers(t: Tree, from: Key, to: Key, k: Key)
    requires PrefixClosed(t) && to !in t && to.path != []
    ensures Under(to, k) ==> (k in Relocate(t, from, to) <==> Rebase(k, to, from) in t)
    ensures Under(to, k) && k in Relocate(t, from, to) ==> Relocate(t, from, to)[k] == t[Rebase(k, to, from)]
    ensures !Under(to, k) ==> (k in Relocate(t, from, to) <==> k in t && !Under(from, k))
    ensures !Under(to, k) && k in Relocate(t, from, to) ==> Relocate(t, from, to)[k] == t[k]
  {
    if Under(to, k) {
      if k in t { AncestorsExist(t, to, k); }
      var origin := Rebase(k, to, from);
      assert origin.path[|from.path|..] == k.path[|to.path|..];
      assert Under(from, origin) && Rebase(origin, from, to) == k;
      forall other | other in t && Under(from, other) && Rebase(other, from, to) == k ensures other == origin {
        RebaseIsInjective(other, origin, from, to);
      }
    } else {
      assert forall other :: other in t && Under(from, other) ==> Under(to, Rebase(other, from, to));
    }
  }

  /** What did not move still stands in a directory. */
  lemma StayersKeepParents(t: Tree, from: Key, to: Key, k: Key)
    requires PrefixClosed(t) && ApplyOperation(t, Move(from, to)).Some?
    requires k in t && !Under(from, k)
    ensures ParentExists(Relocate(t, from, to), k)
  {
    if |k.path| > 1 {
      var parent := Parent(k);
      RelocateMembers(t, from, to, parent);
      assert from.path <= parent.path ==> from.path <= k.path;
      if Under(to, parent) && parent != to { AncestorsExist(t, to, parent); }
    }
  }

  /** So does what moved along. */
  lemma MoversKeepParents(t: Tree, from: Key, to: Key, k: Key)
    requires PrefixClosed(t) && ApplyOperation(t, Move(from, to)).Some?
    requires Under(to, k) && k != to && Rebase(k, to, from) in t
    ensures ParentExists(Relocate(t, from, to), k)
  {
    var parent, origin := Parent(k), Rebase(k, to, from);
    assert |to.path| < |k.path|;
    assert Under(to, parent);
    assert Rebase(parent, to, from).path == Parent(origin).path;
    assert ParentExists(t, origin);
    RelocateMembers(t, from, to, parent);
  }

  lemma DestinationKeepsParent(t: Tree, from: Key, to: Key)
    requires PrefixClosed(t) && ApplyOperation(t, Move(from, to)).Some?
    ensures ParentExists(Relocate(t, from, to), to)
  {
    if |to.path| > 1 {
      var parent := Parent(to);
      RelocateMembers(t, from, to, parent);
      if Under(from, parent) { assert Under(from, to); }
    }
  }

  lemma MoveKeepsPrefixClosed(t: Tree, from: Key, to: Key)
    requires PrefixClosed(t) && ApplyOperation(t, Move(from, to)).Some?
    ensures PrefixClosed(Relocate(t, from, to))
  {
    forall k | k in Relocate(t, from, to) ensures k.path != [] && ParentExists(Relocate(t, from, to), k) {
      RelocateMembers(t, from, to, k);
      if k == to {
        DestinationKeepsParent(t, from, to);
      } else if Under(to, k) {
        MoversKeepParents(t, from, to, k);
      } else {
        StayersKeepParents(t, from, to, k);
      }
    }
  }

  lemma OperationKeepsPrefixClosed(t: Tree, op: Operation)
    requires PrefixClosed(t) && ApplyOperation(t, op).Some?
    ensures PrefixClosed(ApplyOperation(t, op).value)
  {
    var t' := ApplyOperation(t, op).value;
    if op.Move? {
      MoveKeepsPrefixClosed(t, op.source, op.key);
    } else if op.DeleteFile? {
      assert forall k :: k in t && |k.path| > 1 ==> Parent(k) != op.key;
    } else if op.DeleteDirectory? {
      assert forall k :: k in t && |k.path| > 1 && Parent(k) == op.key ==> Under(op.key, k) && k != op.key;
    }
  }

  /** A key only goes away below a target that goes away, and only comes below one that comes. */
  lemma OperationActsAtTargets(t: Tree, op: Operation, k: Key)
    requires PrefixClosed(t) && ApplyOperation(t, op).Some?
    ensures
      var t' := ApplyOperation(t, op).value;
      && (k in t && k !in t' ==> exists c :: c in Targets(op) && Under(c, k) && c in t && c !in t')
      && (k !in t && k in t' ==> exists c :: c in Targets(op) && Under(c, k) && c !in t && c in t')
      && (k in t && k in t' && k !in Targets(op) ==> t'[k] == t[k])
      && forall c :: c in Targets(op) ==> c.path != []
  {
    var t' := ApplyOperation(t, op).value;
    if op.Move? {
      RelocateMembers(t, op.source, op.key, k);
      RelocateMembers(t, op.source, op.key, op.source);
      RelocateMembers(t, op.source, op.key, op.key);
      assert op.source in Targets(op) && op.key in Targets(op);
      assert Rebase(op.key, op.key, op.source) == op.source;
      if Under(op.key, k) && k in t { AncestorsExist(t, op.key, k); }
      if Under(op.key, op.source) { AncestorsExist(t, op.key, op.source); }
    } else {
      assert op.key in Targets(op);
    }
  }

  // ----- What one operation does to its key -----

  ghost predicate SameAt(t: Tree, t': Tree, k: Key) {
    (k in t <==> k in t') && (k in t ==> t[k] == t'[k])
  }

  /** Nothing is different but at one key. */
  ghost predicate OnlyAt(t: Tree, t': Tree, k: Key) {
    forall other :: other != k ==> SameAt(t, t', other)
  }

  /**
   A file is replaced exactly if it is there, may be read and replaced, and has the contents that are expected, if any
   are; it has the new contents then, and its old mode unless there is a new one.
   */
  lemma ReplacementIs(t: Tree, k: Key, contents: Bytes, expected: Option<Bytes>, newMode: Option<Mode>)
    ensures
      var r := ApplyOperation(t, ReplaceFile(k, contents, expected, newMode));
      && (r.Some? <==>
            && k.path != [] && k in t && t[k].File? && ParentExists(t, k) && Admits(t, k) && OwnerReads(t[k].mode)
            && expected in {None, Some(t[k].contents)})
      && (r.Some? ==>
            && k in r.value && r.value[k].File? && r.value[k].contents == contents
            && (newMode.None? ==> r.value[k].mode == t[k].mode)
            && (newMode.Some? ==> r.value[k].mode == newMode.value)
            && OnlyAt(t, r.value, k))
  {
  }

  /** A file that is replaced and then replaced by what it was is as before, if it could be read in between. */
  lemma ReplacingBack(t: Tree, k: Key, contents: Bytes, expected: Option<Bytes>, newMode: Option<Mode>)
    requires ApplyOperation(t, ReplaceFile(k, contents, expected, newMode)).Some?
    ensures
      var replaced := ApplyOperation(t, ReplaceFile(k, contents, expected, newMode)).value;
      var back := ApplyOperation(replaced, ReplaceFile(k, t[k].contents, Some(contents), Some(t[k].mode)));
      && (back.Some? <==> OwnerReads(replaced[k].mode))
      && (back.Some? ==> back.value == t)
  {
    var replaced := ApplyOperation(t, ReplaceFile(k, contents, expected, newMode)).value;
    SameParents(t, replaced, k);
  }

  /** What an operation at a key may do depends on the directories above it only. */
  lemma SameParents(t: Tree, t': Tree, k: Key)
    requires OnlyAt(t, t', k) && k.path != []
    ensures ParentExists(t', k) == ParentExists(t, k) && Admits(t', k) == Admits(t, k)
  {
    if |k.path| > 1 {
      assert |Parent(k).path| != |k.path|;
      assert SameAt(t, t', Parent(k));
    }
    forall i | 0 < i < |k.path| ensures OpenAt(t', Ancestor(k, i)) == OpenAt(t, Ancestor(k, i)) {
      assert |Ancestor(k, i).path| != |k.path|;
      assert SameAt(t, t', Ancestor(k, i));
    }
  }

  /** A created file can be deleted, and nothing is left of it. */
  lemma DeletionUndoesCreation(t: Tree, k: Key, contents: Bytes, mode: Mode)
    ensures
      var created := ApplyOperation(t, CreateFile(k, contents, mode));
      && (created.Some? <==> k.path != [] && k !in t && ParentExists(t, k) && Admits(t, k))
      && (created.Some? ==>
            && k in created.value && created.value[k] == File(contents, mode) && OnlyAt(t, created.value, k)
            && ApplyOperation(created.value, DeleteFile(k)) == Some(t))
  {
    var created := ApplyOperation(t, CreateFile(k, contents, mode));
    if created.Some? {
      SameParents(t, created.value, k);
      assert created.value - {k} == t;
    }
  }

  /** The same for a directory, which is open to its owner until its mode is set. */
  lemma DirectoryDeletionUndoesCreation(t: Tree, k: Key, mode: Mode)
    requires PrefixClosed(t)
    ensures
      var created := ApplyOperation(t, CreateDirectory(k, mode));
      && (created.Some? <==> k.path != [] && k !in t && ParentExists(t, k) && Admits(t, k))
      && (created.Some? ==>
            && k in created.value && created.value[k] == Directory(mode | OWNER) && OnlyAt(t, created.value, k)
            && ApplyOperation(created.value, DeleteDirectory(k)) == Some(t))
  {
    var created := ApplyOperation(t, CreateDirectory(k, mode));
    if created.Some? {
      SameParents(t, created.value, k);
      forall other | other in created.value && other != k ensures !Under(k, other) {
        if Under(k, other) { AncestorsExist(t, k, other); }
      }
      assert created.value - {k} == t;
    }
  }

  /** What is deleted: a file, or a directory with nothing below it. */
  lemma DeletionIs(t: Tree, k: Key)
    requires PrefixClosed(t)
    ensures
      var file, directory := ApplyOperation(t, DeleteFile(k)), ApplyOperation(t, DeleteDirectory(k));
      && (file.Some? <==> k in t && t[k].File? && Admits(t, k))
      && (directory.Some? <==>
            k in t && t[k].Directory? && Admits(t, k) && forall other :: other in t && Under(k, other) ==> other == k)
      && (file.Some? ==> k !in file.value && OnlyAt(t, file.value, k))
      && (directory.Some? ==> k !in directory.value && OnlyAt(t, directory.value, k))
  {
  }

  /** What moved to a place and back is where it was; what did not move stays. */
  lemma RelocatedBack(t: Tree, from: Key, to: Key, k: Key)
    requires PrefixClosed(t) && from in t && to !in t && from.path != [] && to.path != [] && !Under(from, to)
    requires PrefixClosed(Relocate(t, from, to)) && from !in Relocate(t, from, to)
    ensures k in Relocate(Relocate(t, from, to), to, from) <==> k in t
    ensures k in t ==> Relocate(Relocate(t, from, to), to, from)[k] == t[k]
  {
    RelocateMembers(Relocate(t, from, to), to, from, k);
    if Under(from, k) { MoverAt(t, from, to, k); } else { StayerAt(t, from, to, k); }
  }

  /** Where something that moved is. */
  lemma MoverAt(t: Tree, from: Key, to: Key, k: Key)
    requires PrefixClosed(t) && to !in t && to.path != [] && Under(from, k)
    ensures Rebase(k, from, to) in Relocate(t, from, to) <==> k in t
    ensures k in t ==> Relocate(t, from, to)[Rebase(k, from, to)] == t[k]
  {
    var there := Rebase(k, from, to);
    RelocateMembers(t, from, to, there);
    assert there.path[|to.path|..] == k.path[|from.path|..];
    assert Rebase(there, to, from).path == k.path;
  }

  /** What did not move is where it was, and nothing but what moved is below the destination. */
  lemma StayerAt(t: Tree, from: Key, to: Key, k: Key)
    requires PrefixClosed(t) && to !in t && to.path != [] && !Under(from, k)
    ensures k in t <==> k in Relocate(t, from, to) && !Under(to, k)
    ensures k in t ==> Relocate(t, from, to)[k] == t[k]
  {
    RelocateMembers(t, from, to, k);
    if Under(to, k) && k in t { AncestorsExist(t, to, k); }
  }

  /** A directory above the source or the destination of a move is neither moved nor hidden. */
  lemma AboveStays(t: Tree, from: Key, to: Key, k: Key, i: nat)
    requires PrefixClosed(t) && from in t && to !in t && to.path != [] && !Under(from, to)
    requires k in {from, to} && i < |k.path|
    ensures
      var a, moved := Ancestor(k, i), Relocate(t, from, to);
      (a in moved <==> a in t) && (a in t ==> moved[a] == t[a])
  {
    var a := Ancestor(k, i);
    assert |a.path| < |k.path| && a.path <= k.path && a.side == k.side;
    assert Under(from, a) ==> Under(from, k);
    assert !Under(to, a) by {
      if Under(to, a) {
        assert Under(to, k);
        if k == from { AncestorsExist(t, to, from); }
      }
    }
    RelocateMembers(t, from, to, a);
  }

  lemma MoveKeepsAbove(t: Tree, from: Key, to: Key, k: Key)
    requires PrefixClosed(t) && from in t && to !in t && to.path != [] && !Under(from, to)
    requires k in {from, to} && k.path != [] && ParentExists(t, k) && Admits(t, k)
    ensures ParentExists(Relocate(t, from, to), k) && Admits(Relocate(t, from, to), k)
  {
    var moved := Relocate(t, from, to);
    forall i {:trigger Ancestor(k, i)} | 0 < i < |k.path| ensures OpenAt(moved, Ancestor(k, i)) {
      AboveStays(t, from, to, k, i);
      assert OpenAt(t, Ancestor(k, i));
    }
    if |k.path| > 1 {
      AboveStays(t, from, to, k, |k.path| - 1);
      assert Parent(k) == Ancestor(k, |k.path| - 1);
    }
  }

  lemma RelocatingBack(t: Tree, from: Key, to: Key)
    requires PrefixClosed(t) && from in t && to !in t && from.path != [] && to.path != [] && !Under(from, to)
    requires PrefixClosed(Relocate(t, from, to)) && from !in Relocate(t, from, to)
    ensures Relocate(Relocate(t, from, to), to, from) == t
  {
    var back := Relocate(Relocate(t, from, to), to, from);
    forall k ensures SameAt(back, t, k) { RelocatedBack(t, from, to, k); }
    SameEverywhere(back, t);
  }

  lemma SameEverywhere(t: Tree, t': Tree)
    requires forall k :: SameAt(t, t', k)
    ensures t == t'
  {
    forall k ensures (k in t <==> k in t') && (k in t ==> t[k] == t'[k]) { assert SameAt(t, t', k); }
  }

  /** A move that applies can be taken back, and then everything is where it was. */
  lemma MovingBack(t: Tree, from: Key, to: Key)
    requires PrefixClosed(t) && ApplyOperation(t, Move(from, to)).Some?
    ensures
      var moved := ApplyOperation(t, Move(from, to)).value;
      ApplyOperation(moved, Move(to, from)) == Some(t)
  {
    MoveKeepsPrefixClosed(t, from, to);
    MoveKeepsAbove(t, from, to, from);
    MoveKeepsAbove(t, from, to, to);
    MoveSwaps(t, from, to);
    RelocatingBack(t, from, to);
    MayMoveBack(t, Relocate(t, from, to), from, to);
  }

  lemma MayMoveBack(t: Tree, moved: Tree, from: Key, to: Key)
    requires ApplyOperation(t, Move(from, to)).Some?
    requires from.path != [] && from !in moved && to in moved && moved[to] == t[from] && !Under(to, from)
    requires ParentExists(moved, from) && Admits(moved, from) && ParentExists(moved, to) && Admits(moved, to)
    ensures ApplyOperation(moved, Move(to, from)) == Some(Relocate(moved, to, from))
  {
  }

  lemma MoveSwaps(t: Tree, from: Key, to: Key)
    requires PrefixClosed(t) && from in t && to !in t && from.path != [] && to.path != [] && !Under(from, to)
    ensures
      var moved := Relocate(t, from, to);
      from !in moved && to in moved && moved[to] == t[from] && !Under(to, from)
  {
    if Under(to, from) { AncestorsExist(t, to, from); }
    RelocateMembers(t, from, to, from);
    RelocateMembers(t, from, to, to);
    assert Rebase(to, to, from) == from;
  }

  /** A directory that its owner can neither read nor search keeps everything below it as it is. */
  lemma ClosedDirectoryRefuses(t: Tree, op: Operation, target: Key, i: nat)
    requires target in Targets(op) && 0 < i < |target.path|
    requires Ancestor(target, i) in t && t[Ancestor(target, i)].Directory?
    requires !OwnerReads(t[Ancestor(target, i)].mode) || !OwnerSearches(t[Ancestor(target, i)].mode)
    ensures ApplyOperation(t, op).None?
  {
    assert !OpenAt(t, Ancestor(target, i)) && !Opens(t, target);
  }

  /** So does one that its owner cannot write, for what stands in it. */
  lemma ReadOnlyDirectoryRefuses(t: Tree, op: Operation, target: Key)
    requires target in Targets(op) && |target.path| > 1 && Parent(target) in t && t[Parent(target)].Directory?
    requires !OwnerWrites(t[Parent(target)].mode)
    ensures ApplyOperation(t, op).None?
  {
  }

  /**
   A move applies exactly if its source is there and its destination is not, both have parents in which names can be
   made and taken away, the destination is not below the source, and a directory that gets another parent can be
   written.
   */
  lemma MoveIs(t: Tree, from: Key, to: Key)
    ensures ApplyOperation(t, Move(from, to)).Some? <==>
              && from in t && to !in t && from.path != [] && to.path != [] && !Under(from, to)
              && ParentExists(t, from) && ParentExists(t, to) && Admits(t, from) && Admits(t, to)
              && (t[from].Directory? && Parent(from) != Parent(to) ==> OwnerWrites(t[from].mode))
  {
  }
}
