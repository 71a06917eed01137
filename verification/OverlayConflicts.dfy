/** The conflict analysis of `_conflicts`. */
module OverlayConflicts {
  import opened Common
  import opened OverlayTree
  import opened EditPlans

  datatype SnapshotEntry = SnapshotEntry(key: Key, node: Node)

  datatype Kind =
    | PortableCollision
    | CommonClientOverlap
    | CommonServerOverlap
    | ClientServerDivergence
    | CrossSideType

  predicate IsError(kind: Kind) { kind.PortableCollision? || kind.CrossSideType? }

  /** A conflict, with the folded path it is about and the entries that cause it. */
  datatype Conflict = Conflict(kind: Kind, portable: Path, entries: seq<Key>)

  /** The entries with a given folded key, in snapshot order. */
  function Group(fold: Fold, entries: seq<SnapshotEntry>, k: Key): seq<SnapshotEntry> {
    if entries == [] then []
    else
      var last := entries[|entries| - 1];
      Group(fold, entries[..|entries| - 1], k) + if FoldKey(fold, last.key) == k then [last] else []
  }

  type Groups = map<Key, seq<SnapshotEntry>>

  ghost predicate GroupsOf(fold: Fold, entries: seq<SnapshotEntry>, groups: Groups) {
    forall k :: (k in groups <==> Group(fold, entries, k) != []) &&
        (k in groups ==> groups[k] == Group(fold, entries, k))
  }

  /** The first entry of a side under a folded path. */
  function First(groups: Groups, side: Side, path: Path): Option<SnapshotEntry> {
    if Key(side, path) in groups && groups[Key(side, path)] != [] then Some(groups[Key(side, path)][0]) else None
  }

  predicate SameKind(a: Node, b: Node) { a.File? == b.File? }

  /** What the comparison of two sides under one folded path reports. */
  function PairKind(overlap: Kind, first: SnapshotEntry, second: SnapshotEntry): Option<Kind> {
    if !SameKind(first.node, second.node) then Some(CrossSideType)
    else if overlap.ClientServerDivergence? && (first.node.File? ==> first.node.contents == second.node.contents)
            && first.node.mode == second.node.mode then None
    else Some(overlap)
  }

  const PAIRS: seq<(Side, Side, Kind)> := [
    (CommonSide, Client, CommonClientOverlap),
    (CommonSide, Server, CommonServerOverlap),
    (Client, Server, ClientServerDivergence)
  ]

  /** The conflict of one pair of sides under one folded path. */
  function PairConflict(groups: Groups, path: Path, pair: (Side, Side, Kind)): seq<Conflict> {
    var first, second := First(groups, pair.0, path), First(groups, pair.1, path);
    if first.None? || second.None? then []
    else
      var kind := PairKind(pair.2, first.value, second.value);
      if kind.None? then [] else [Conflict(kind.value, path, [first.value.key, second.value.key])]
  }

  predicate Collides(groups: Groups, path: Path) {
    exists side: Side :: Key(side, path) in groups && |groups[Key(side, path)]| >= 2
  }

  /** When a conflict of a kind is to be reported for a folded path. */
  ghost predicate Reported(groups: Groups, kind: Kind, path: Path) {
    || (kind.PortableCollision? && Collides(groups, path))
    || (exists pair :: pair in PAIRS && exists c :: c in PairConflict(groups, path, pair) && c.kind == kind)
  }

  ghost predicate Mentions(conflicts: seq<Conflict>, kind: Kind, path: Path) {
    exists c :: c in conflicts && c.kind == kind && c.portable == path
  }

  /** The folded keys in the order in which the snapshot first has them. */
  function FirstKeys(fold: Fold, entries: seq<SnapshotEntry>): seq<Key> {
    if entries == [] then []
    else
      var before := FirstKeys(fold, entries[..|entries| - 1]);
      var k := FoldKey(fold, entries[|entries| - 1].key);
      if k in before then before else before + [k]
  }

  const SIDES: seq<Side> := [CommonSide, Client, Server]

  function KeysOf(entries: seq<SnapshotEntry>): seq<Key> {
    seq(|entries|, i requires 0 <= i < |entries| => entries[i].key)
  }

  /** The collision of one group: a record with all its entries, in snapshot order. */
  function CollisionAt(groups: Groups, k: Key): seq<Conflict> {
    if k in groups && |groups[k]| >= 2 then [Conflict(PortableCollision, k.path, KeysOf(groups[k]))] else []
  }

  function SideCollisions(groups: Groups, order: seq<Key>, side: Side): seq<Conflict> {
    if order == [] then []
    else
      var k := order[|order| - 1];
      SideCollisions(groups, order[..|order| - 1], side) + if k.side == side then CollisionAt(groups, k) else []
  }

  function PathConflicts(groups: Groups, path: Path): seq<Conflict> {
    PairConflict(groups, path, PAIRS[0]) + PairConflict(groups, path, PAIRS[1]) + PairConflict(groups, path, PAIRS[2])
  }

  predicate HasPath(order: seq<Key>, path: Path) { exists i :: 0 <= i < |order| && order[i].path == path }

  /** The overlaps of the sides, for each folded path once, where the snapshot first has it. */
  function SideOverlaps(groups: Groups, order: seq<Key>): seq<Conflict> {
    if order == [] then []
    else
      var before, path := order[..|order| - 1], order[|order| - 1].path;
      SideOverlaps(groups, before) + if HasPath(before, path) then [] else PathConflicts(groups, path)
  }

  /** The records of `_conflicts`, in their order. */
  function ConflictList(groups: Groups, order: seq<Key>): seq<Conflict> {
    SideCollisions(groups, order, CommonSide) + SideCollisions(groups, order, Client) +
        SideCollisions(groups, order, Server)
    + SideOverlaps(groups, order)
  }

  method GroupEntries(fold: Fold, entries: seq<SnapshotEntry>) returns (groups: Groups, order: seq<Key>)
    ensures GroupsOf(fold, entries, groups) && order == FirstKeys(fold, entries)
    ensures forall k :: k in order <==> k in groups
  {
    groups, order := map[], [];
    for n := 0 to |entries|
      invariant GroupsOf(fold, entries[..n], groups) && order == FirstKeys(fold, entries[..n])
      invariant forall k :: k in order <==> k in groups
    {
      var k := FoldKey(fold, entries[n].key);
      OneEntryMore(fold, entries, n, groups);
      var group := if k in groups then groups[k] else [];
      if k !in groups { order := order + [k]; }
      groups := groups[k := group + [entries[n]]];
    }
    assert entries[..|entries|] == entries;
  }

  /** The groups with one more entry. */
  lemma OneEntryMore(fold: Fold, entries: seq<SnapshotEntry>, n: nat, groups: Groups)
    requires n < |entries| && GroupsOf(fold, entries[..n], groups)
    ensures
      var k, before := FoldKey(fold, entries[n].key), FirstKeys(fold, entries[..n]);
      && GroupsOf(fold, entries[..n + 1], groups[k := (if k in groups then groups[k] else []) + [entries[n]]])
      && FirstKeys(fold, entries[..n + 1]) == (if k in before then before else before + [k])
  {
    assert entries[..n + 1][..n] == entries[..n] && entries[..n + 1][n] == entries[n];
    var k, last := FoldKey(fold, entries[n].key), entries[n];
    forall other
      ensures Group(fold, entries[..n + 1], other) == Group(fold, entries[..n], other) + if k == other then [last]
              else []
    {
    }
  }

  /** The collisions within one side. */
  method Collisions(groups: Groups, order: seq<Key>, side: Side) returns (conflicts: seq<Conflict>)
    requires forall k :: k in order <==> k in groups
    ensures conflicts == SideCollisions(groups, order, side)
  {
    conflicts := [];
    for n := 0 to |order|
      invariant conflicts == SideCollisions(groups, order[..n], side)
    {
      var k := order[n];
      assert order[..n + 1][..n] == order[..n] && order[..n + 1][n] == k;
      if k.side == side {
        var entries := groups[k];
        if |entries| >= 2 { conflicts := conflicts + [Conflict(PortableCollision, k.path, KeysOf(entries))]; }
      }
    }
    assert order[..|order|] == order;
  }

  /** The comparison of the pairs of sides under one path. */
  method ComparePairs(groups: Groups, path: Path) returns (conflicts: seq<Conflict>)
    ensures conflicts == PathConflicts(groups, path)
  {
    conflicts := [];
    for p := 0 to |PAIRS|
      invariant p == 0 ==> conflicts == []
      invariant p == 1 ==> conflicts == PairConflict(groups, path, PAIRS[0])
      invariant p == 2 ==> conflicts == PairConflict(groups, path, PAIRS[0]) + PairConflict(groups, path, PAIRS[1])
      invariant p == 3 ==> conflicts == PathConflicts(groups, path)
    {
      var found := PairConflict(groups, path, PAIRS[p]);
      conflicts := conflicts + found;
    }
  }

  /** The comparison of the sides, path by path. */
  method CompareSides(groups: Groups, order: seq<Key>) returns (conflicts: seq<Conflict>)
    ensures conflicts == SideOverlaps(groups, order)
  {
    conflicts := [];
    var done: set<Path> := {};
    for n := 0 to |order|
      invariant conflicts == SideOverlaps(groups, order[..n])
      invariant forall path :: path in done <==> HasPath(order[..n], path)
    {
      OneOverlapMore(groups, order, n);
      PathsGrow(order, n);
      var path := order[n].path;
      if path !in done {
        var found := ComparePairs(groups, path);
        conflicts := conflicts + found;
        done := done + {path};
      } else {
        assert conflicts + [] == conflicts;
      }
    }
    assert order[..|order|] == order;
  }

  lemma {:induction false} OneOverlapMore(groups: Groups, order: seq<Key>, n: nat)
    requires n < |order|
    ensures SideOverlaps(groups, order[..n + 1]) ==
            SideOverlaps(groups, order[..n])
            + if HasPath(order[..n], order[n].path) then [] else PathConflicts(groups, order[n].path)
  {
    assert order[..n + 1][..n] == order[..n] && order[..n + 1][n] == order[n];
  }

  lemma PathsGrow(order: seq<Key>, n: nat)
    requires n < |order|
    ensures forall path :: HasPath(order[..n + 1], path) <==> HasPath(order[..n], path) || path == order[n].path
  {
    var before, longer := order[..n], order[..n + 1];
    assert longer == before + [order[n]];
    forall path ensures HasPath(longer, path) <==> HasPath(before, path) || path == order[n].path {
      if HasPath(before, path) {
        var i :| 0 <= i < |before| && before[i].path == path;
        assert longer[i].path == path;
      }
      assert longer[n] == order[n];
    }
  }

  /**
   `_conflicts`: the records in their order, and by them exactly the collisions within a side and the overlaps between
   sides.
   */
  method Conflicts(fold: Fold, entries: seq<SnapshotEntry>) returns (conflicts: seq<Conflict>, groups: Groups)
    ensures GroupsOf(fold, entries, groups)
    ensures conflicts == ConflictList(groups, FirstKeys(fold, entries))
    ensures forall kind, path :: Mentions(conflicts, kind, path) <==> Reported(groups, kind, path)
  {
    var order;
    groups, order := GroupEntries(fold, entries);
    ghost var common, client := SideCollisions(groups, order, CommonSide), SideCollisions(groups, order, Client);
    ghost var server := SideCollisions(groups, order, Server);
    conflicts := [];
    for n := 0 to |SIDES|
      invariant n == 0 ==> conflicts == []
      invariant n == 1 ==> conflicts == common
      invariant n == 2 ==> conflicts == common + client
      invariant n == 3 ==> conflicts == common + client + server
    {
      var collisions := Collisions(groups, order, SIDES[n]);
      conflicts := conflicts + collisions;
    }
    var overlaps := CompareSides(groups, order);
    conflicts := conflicts + overlaps;
    forall kind, path ensures Mentions(conflicts, kind, path) <==> Reported(groups, kind, path) {
      ListMentionsReported(groups, order, kind, path);
    }
  }

  lemma SideIsListed(side: Side)
    ensures side in {CommonSide, Client, Server}
  {
    match side { case CommonSide => case Client => case Server => }
  }

  lemma {:induction false} SideCollisionsAre(groups: Groups, order: seq<Key>, side: Side, c: Conflict)
    ensures c in SideCollisions(groups, order, side) <==>
            exists k :: k in order && k.side == side && c in CollisionAt(groups, k)
    decreases |order|
  {
    if order != [] {
      var before, last := order[..|order| - 1], order[|order| - 1];
      SideCollisionsAre(groups, before, side, c);
      assert order == before + [last];
    }
  }

  lemma {:induction false} SideOverlapsAre(groups: Groups, order: seq<Key>, c: Conflict)
    ensures c in SideOverlaps(groups, order) <==> exists k :: k in order && c in PathConflicts(groups, k.path)
    decreases |order|
  {
    if order != [] {
      var before, last := order[..|order| - 1], order[|order| - 1];
      SideOverlapsAre(groups, before, c);
      assert order == before + [last];
      if HasPath(before, last.path) {
        var i :| 0 <= i < |before| && before[i].path == last.path;
        assert before[i] in before;
      }
    }
  }

  /**
   The records are exactly the collisions of groups, each with all its entries, and the overlaps of pairs of sides.
   */
  lemma ConflictsAre(groups: Groups, order: seq<Key>, c: Conflict)
    requires forall k :: k in order <==> k in groups
    ensures c in ConflictList(groups, order) <==>
              || (exists k :: k in groups && c in CollisionAt(groups, k))
              || (exists path, pair :: pair in PAIRS && c in PairConflict(groups, path, pair))
  {
    SideCollisionsAre(groups, order, CommonSide, c);
    SideCollisionsAre(groups, order, Client, c);
    SideCollisionsAre(groups, order, Server, c);
    SideOverlapsAre(groups, order, c);
    forall k: Key ensures k.side in {CommonSide, Client, Server} { SideIsListed(k.side); }
    assert forall pair :: pair in PAIRS <==> pair in {PAIRS[0], PAIRS[1], PAIRS[2]};
    forall path, pair | pair in PAIRS && c in PairConflict(groups, path, pair)
      ensures Key(pair.0, path) in order && c in PathConflicts(groups, Key(pair.0, path).path)
    {
      assert First(groups, pair.0, path).Some?;
    }
    forall k | k in order && c in PathConflicts(groups, k.path)
      ensures exists pair :: pair in PAIRS && c in PairConflict(groups, k.path, pair)
    {
      assert PAIRS[0] in PAIRS && PAIRS[1] in PAIRS && PAIRS[2] in PAIRS;
    }
  }

  lemma ListMentionsReported(groups: Groups, order: seq<Key>, kind: Kind, path: Path)
    requires forall k :: k in order <==> k in groups
    ensures Mentions(ConflictList(groups, order), kind, path) <==> Reported(groups, kind, path)
  {
    PairsCollideNever();
    var list := ConflictList(groups, order);
    if c :| c in list && c.kind == kind && c.portable == path {
      ConflictsAre(groups, order, c);
    }
    if kind.PortableCollision? && Collides(groups, path) {
      var side: Side :| Key(side, path) in groups && |groups[Key(side, path)]| >= 2;
      var c := CollisionAt(groups, Key(side, path))[0];
      ConflictsAre(groups, order, c);
    }
    if pair :| pair in PAIRS && exists c :: c in PairConflict(groups, path, pair) && c.kind == kind {
      var c :| c in PairConflict(groups, path, pair) && c.kind == kind;
      ConflictsAre(groups, order, c);
    }
  }

  lemma PairsCollideNever()
    ensures forall groups, path, pair, c :: pair in PAIRS && c in PairConflict(groups, path, pair) ==>
              c.portable == path && c.kind != PortableCollision
  {
    assert forall pair :: pair in PAIRS <==> pair in {PAIRS[0], PAIRS[1], PAIRS[2]};
  }

  // ----- What the records tell of the snapshot -----

  /** The first entry of a side that folds to a path. */
  ghost predicate IsFirst(fold: Fold, entries: seq<SnapshotEntry>, path: Path, e: SnapshotEntry) {
    exists i :: 0 <= i < |entries| && entries[i] == e && FoldKey(fold, e.key) == Key(e.key.side, path)
                && NoneFoldsTo(fold, entries[..i], FoldKey(fold, e.key))
  }

  ghost predicate NoneFoldsTo(fold: Fold, entries: seq<SnapshotEntry>, k: Key) {
    forall j :: 0 <= j < |entries| ==> FoldKey(fold, entries[j].key) != k
  }

  /** What an overlap of two sides is called: a disagreement on file or directory, or by the sides it is between. */
  ghost predicate IsCalled(a: SnapshotEntry, b: SnapshotEntry, kind: Kind) {
    match kind
    case PortableCollision => false
    case CrossSideType => a.node.File? != b.node.File?
    case CommonClientOverlap => a.node.File? == b.node.File? && a.key.side == CommonSide && b.key.side == Client
    case CommonServerOverlap => a.node.File? == b.node.File? && a.key.side == CommonSide && b.key.side == Server
    case ClientServerDivergence =>
      a.node.File? == b.node.File? && a.key.side == Client && b.key.side == Server && a.node != b.node
  }

  predicate SideBefore(a: Side, b: Side) {
    (a == CommonSide && b != CommonSide) || (a == Client && b == Server)
  }

  ghost predicate Overlap(
    fold: Fold, entries: seq<SnapshotEntry>, c: Conflict, a: SnapshotEntry, b: SnapshotEntry) {
    && SideBefore(a.key.side, b.key.side) && IsFirst(fold, entries, c.portable, a)
    && IsFirst(fold, entries, c.portable, b) && IsCalled(a, b, c.kind) && c.entries == [a.key, b.key]
  }

  /** Indices in ascending order: those of the entries that fold to a key. */
  ghost predicate AreIndices(fold: Fold, entries: seq<SnapshotEntry>, k: Key, indices: seq<nat>) {
    && (forall i, j :: 0 <= i < j < |indices| ==> indices[i] < indices[j])
    && (forall i: nat :: i in indices <==> i < |entries| && FoldKey(fold, entries[i].key) == k)
  }

  ghost predicate Collision(fold: Fold, entries: seq<SnapshotEntry>, c: Conflict, k: Key, indices: seq<nat>) {
    && AreIndices(fold, entries, k, indices) && |indices| >= 2
    && c.kind == PortableCollision && c.portable == k.path && |c.entries| == |indices|
    && forall j :: 0 <= j < |indices| ==> indices[j] < |entries| && c.entries[j] == entries[indices[j]].key
  }

  lemma OneIndexMore(fold: Fold, entries: seq<SnapshotEntry>, k: Key, before: seq<nat>) returns (indices: seq<nat>)
    requires entries != [] && AreIndices(fold, entries[..|entries| - 1], k, before)
    ensures AreIndices(fold, entries, k, indices)
    ensures indices == if FoldKey(fold, entries[|entries| - 1].key) == k then before + [|entries| - 1] else before
  {
    var n: nat := |entries| - 1;
    indices := if FoldKey(fold, entries[n].key) == k then before + [n] else before;
    forall j | 0 <= j < |before| ensures before[j] < n { assert before[j] in before; }
    forall i: nat ensures i in indices <==> i < |entries| && FoldKey(fold, entries[i].key) == k {
      assert i in before <==> i < n && FoldKey(fold, entries[..n][i].key) == k;
    }
  }

  /** Each element of the group is the entry at its index. */
  ghost predicate PicksOut(entries: seq<SnapshotEntry>, indices: seq<nat>, group: seq<SnapshotEntry>) {
    |indices| == |group| && forall j :: 0 <= j < |indices| ==> indices[j] < |entries| && group[j] == entries[indices[j]]
  }

  lemma {:induction false} GroupIndices(fold: Fold, entries: seq<SnapshotEntry>, k: Key) returns (indices: seq<nat>)
    ensures AreIndices(fold, entries, k, indices) && PicksOut(entries, indices, Group(fold, entries, k))
    decreases |entries|
  {
    indices := [];
    if entries != [] {
      var before := GroupIndices(fold, entries[..|entries| - 1], k);
      indices := OneIndexMore(fold, entries, k, before);
    }
  }

  lemma IndicesAreUnique(fold: Fold, entries: seq<SnapshotEntry>, k: Key, a: seq<nat>, b: seq<nat>, j: nat)
    requires AreIndices(fold, entries, k, a) && AreIndices(fold, entries, k, b) && j < |a| && j < |b|
    requires a[..j] == b[..j]
    ensures a[j] == b[j]
  {
    assert a[j] in a && a[j] in b && b[j] in b && b[j] in a;
    assert forall m :: 0 <= m < j ==> a[..j][m] == b[..j][m];
    var m :| 0 <= m < |b| && b[m] == a[j];
    var n :| 0 <= n < |a| && a[n] == b[j];
  }

  lemma {:induction false} SameIndices(
    fold: Fold, entries: seq<SnapshotEntry>, k: Key, a: seq<nat>, b: seq<nat>, n: nat)
    requires AreIndices(fold, entries, k, a) && AreIndices(fold, entries, k, b) && n <= |a| && n <= |b|
    ensures a[..n] == b[..n]
  {
    if n > 0 {
      SameIndices(fold, entries, k, a, b, n - 1);
      IndicesAreUnique(fold, entries, k, a, b, n - 1);
      assert a[..n] == a[..n - 1] + [a[n - 1]] && b[..n] == b[..n - 1] + [b[n - 1]];
    }
  }

  lemma NotLonger(fold: Fold, entries: seq<SnapshotEntry>, k: Key, a: seq<nat>, b: seq<nat>)
    requires AreIndices(fold, entries, k, a) && AreIndices(fold, entries, k, b)
    ensures |a| <= |b|
  {
    if |a| > |b| {
      SameIndices(fold, entries, k, a, b, |b|);
      LongerHasMore(a, b);
    }
  }

  lemma LongerHasMore(a: seq<nat>, b: seq<nat>)
    requires |a| > |b| && a[..|b|] == b[..|b|] && forall i, j :: 0 <= i < j < |a| ==> a[i] < a[j]
    ensures a[|b|] in a && a[|b|] !in b
  {
    forall i | 0 <= i < |b| ensures b[i] != a[|b|] { assert a[..|b|][i] == b[..|b|][i]; }
  }

  lemma IndicesAreDetermined(fold: Fold, entries: seq<SnapshotEntry>, k: Key, a: seq<nat>, b: seq<nat>)
    requires AreIndices(fold, entries, k, a) && AreIndices(fold, entries, k, b)
    ensures a == b
  {
    NotLonger(fold, entries, k, a, b);
    NotLonger(fold, entries, k, b, a);
    SameIndices(fold, entries, k, a, b, |a|);
    assert a == a[..|a|] && b == b[..|b|];
  }

  lemma CollisionIs(fold: Fold, entries: seq<SnapshotEntry>, groups: Groups, k: Key, c: Conflict)
    requires GroupsOf(fold, entries, groups)
    ensures c in CollisionAt(groups, k) <==> exists indices :: Collision(fold, entries, c, k, indices)
  {
    var group := Group(fold, entries, k);
    var indices := GroupIndices(fold, entries, k);
    if c in CollisionAt(groups, k) {
      assert Collision(fold, entries, c, k, indices);
    }
    if others :| Collision(fold, entries, c, k, others) {
      IndicesAreDetermined(fold, entries, k, indices, others);
      assert c.entries == KeysOf(group);
    }
  }

  lemma {:induction false} FirstOfGroup(fold: Fold, entries: seq<SnapshotEntry>, k: Key)
    requires Group(fold, entries, k) != []
    ensures
      var e := Group(fold, entries, k)[0];
      FoldKey(fold, e.key) == k && e.key.side == k.side && IsFirst(fold, entries, k.path, e)
  {
    var indices := GroupIndices(fold, entries, k);
    var i := indices[0];
    assert i in indices;
    forall j: nat | j < i ensures FoldKey(fold, entries[..i][j].key) != k { assert j !in indices; }
    assert entries[i] == Group(fold, entries, k)[0] && NoneFoldsTo(fold, entries[..i], k);
  }

  lemma FirstIs(fold: Fold, entries: seq<SnapshotEntry>, groups: Groups, path: Path, e: SnapshotEntry)
    requires GroupsOf(fold, entries, groups)
    ensures First(groups, e.key.side, path) == Some(e) <==> IsFirst(fold, entries, path, e)
  {
    var k := Key(e.key.side, path);
    if Group(fold, entries, k) != [] { FirstOfGroup(fold, entries, k); }
    if IsFirst(fold, entries, path, e) {
      var i :| 0 <= i < |entries| && entries[i] == e && NoneFoldsTo(fold, entries[..i], FoldKey(fold, e.key));
      GroupMembers(fold, entries, k, e);
      var first := Group(fold, entries, k)[0];
      var j :| 0 <= j < |entries| && entries[j] == first && NoneFoldsTo(fold, entries[..j], k);
    }
  }

  lemma OverlapIs(
    fold: Fold, entries: seq<SnapshotEntry>, groups: Groups, path: Path, pair: (Side, Side, Kind), c: Conflict)
    requires GroupsOf(fold, entries, groups) && pair in PAIRS && c in PairConflict(groups, path, pair)
    ensures c.portable == path && exists a, b :: Overlap(fold, entries, c, a, b)
  {
    assert pair in {PAIRS[0], PAIRS[1], PAIRS[2]};
    var a, b := First(groups, pair.0, path).value, First(groups, pair.1, path).value;
    FirstOfGroup(fold, entries, Key(pair.0, path));
    FirstOfGroup(fold, entries, Key(pair.1, path));
    assert Overlap(fold, entries, c, a, b);
  }

  lemma OverlapIsReported(
    fold: Fold, entries: seq<SnapshotEntry>, groups: Groups, c: Conflict, a: SnapshotEntry, b: SnapshotEntry)
    requires GroupsOf(fold, entries, groups) && Overlap(fold, entries, c, a, b)
    ensures exists pair :: pair in PAIRS && c in PairConflict(groups, c.portable, pair)
  {
    FirstIs(fold, entries, groups, c.portable, a);
    FirstIs(fold, entries, groups, c.portable, b);
    var n := if a.key.side == Client then 2 else if b.key.side == Client then 0 else 1;
    assert PAIRS[n] in PAIRS && PAIRS[n].0 == a.key.side && PAIRS[n].1 == b.key.side;
    assert c in PairConflict(groups, c.portable, PAIRS[n]);
  }

  /**
   The records tell of the snapshot: of each folded key of a side that several entries have, with all of them in order;
   and of the first entries that two sides have under one folded path, if they disagree on file or directory, or are
   common and of one side, or of client and server and not the same.
   */
  lemma RecordsTell(fold: Fold, entries: seq<SnapshotEntry>, groups: Groups, order: seq<Key>, c: Conflict)
    requires GroupsOf(fold, entries, groups) && forall k :: k in order <==> k in groups
    ensures c in ConflictList(groups, order) <==>
              || (exists k, indices :: Collision(fold, entries, c, k, indices))
              || (exists a, b :: Overlap(fold, entries, c, a, b))
  {
    ConflictsAre(groups, order, c);
    if k :| k in groups && c in CollisionAt(groups, k) { CollisionIs(fold, entries, groups, k, c); }
    if k, indices :| Collision(fold, entries, c, k, indices) {
      CollisionIs(fold, entries, groups, k, c);
      assert k in groups;
    }
    if path, pair :| pair in PAIRS && c in PairConflict(groups, path, pair) {
      OverlapIs(fold, entries, groups, path, pair, c);
    }
    if a, b :| Overlap(fold, entries, c, a, b) { OverlapIsReported(fold, entries, groups, c, a, b); }
  }

  // ----- What the absence of errors means -----

  /** Folded keys are unique within a side, and what two sides call the same is of the same kind. */
  ghost predicate Consistent(fold: Fold, entries: seq<SnapshotEntry>) {
    && (forall i, j :: 0 <= i < j < |entries| ==> FoldKey(fold, entries[i].key) != FoldKey(fold, entries[j].key))
    && (forall a, b :: a in entries && b in entries && FoldPath(fold, a.key.path) == FoldPath(fold, b.key.path)
                       ==> SameKind(a.node, b.node))
  }

  lemma {:induction false} GroupMembers(fold: Fold, entries: seq<SnapshotEntry>, k: Key, e: SnapshotEntry)
    ensures e in Group(fold, entries, k) <==> e in entries && FoldKey(fold, e.key) == k
    decreases |entries|
  {
    if entries != [] {
      var front, last := entries[..|entries| - 1], entries[|entries| - 1];
      GroupMembers(fold, front, k, e);
      assert entries == front + [last];
    }
  }

  /** A group has two entries just when two entries of the snapshot fold to its key. */
  lemma {:induction false} GroupOfTwo(fold: Fold, entries: seq<SnapshotEntry>, k: Key)
    ensures |Group(fold, entries, k)| >= 2 <==>
            exists i, j :: 0 <= i < j < |entries| && FoldKey(fold, entries[i].key) == k &&
                FoldKey(fold, entries[j].key) == k
    decreases |entries|
  {
    if entries != [] {
      var front, last := entries[..|entries| - 1], entries[|entries| - 1];
      GroupOfTwo(fold, front, k);
      if Group(fold, front, k) != [] {
        GroupMembers(fold, front, k, Group(fold, front, k)[0]);
        var i :| 0 <= i < |front| && front[i] == Group(fold, front, k)[0];
        assert entries[i] == front[i];
      }
      forall i | 0 <= i < |front| && FoldKey(fold, front[i].key) == k ensures Group(fold, front, k) != [] {
        GroupMembers(fold, front, k, front[i]);
      }
    }
  }

  lemma FirstIsMember(fold: Fold, entries: seq<SnapshotEntry>, groups: Groups, side: Side, path: Path)
    requires GroupsOf(fold, entries, groups) && First(groups, side, path).Some?
    ensures First(groups, side, path).value in entries &&
            FoldKey(fold, First(groups, side, path).value.key) == Key(side, path)
  {
    GroupMembers(fold, entries, Key(side, path), First(groups, side, path).value);
  }

  lemma SoleMember<T>(xs: seq<T>, x: T)
    requires x in xs && |xs| < 2
    ensures xs == [x]
  {
  }

  /** A group without collision has only its first entry. */
  lemma OnlyMember(fold: Fold, entries: seq<SnapshotEntry>, groups: Groups, e: SnapshotEntry)
    requires GroupsOf(fold, entries, groups) && e in entries
    requires !Collides(groups, FoldPath(fold, e.key.path))
    ensures First(groups, e.key.side, FoldPath(fold, e.key.path)) == Some(e)
  {
    var k := FoldKey(fold, e.key);
    assert k == Key(e.key.side, FoldPath(fold, e.key.path));
    GroupMembers(fold, entries, k, e);
    var group := Group(fold, entries, k);
    assert e in group && k in groups && groups[k] == group;
    assert |group| < 2;
    SoleMember(group, e);
  }

  lemma DisagreementIsReported(
    fold: Fold, entries: seq<SnapshotEntry>, groups: Groups, a: SnapshotEntry, b: SnapshotEntry,
    pair: (Side, Side, Kind))
    requires GroupsOf(fold, entries, groups) && a in entries && b in entries && pair in PAIRS
    requires FoldPath(fold, a.key.path) == FoldPath(fold, b.key.path) && a.key.side == pair.0 && b.key.side == pair.1
    requires !Collides(groups, FoldPath(fold, a.key.path)) && !SameKind(a.node, b.node)
    ensures Reported(groups, CrossSideType, FoldPath(fold, a.key.path))
  {
    OnlyMember(fold, entries, groups, a);
    OnlyMember(fold, entries, groups, b);
    var path := FoldPath(fold, a.key.path);
    assert PairConflict(groups, path, pair)[0] in PairConflict(groups, path, pair);
  }

  lemma DisagreementAcross(fold: Fold, entries: seq<SnapshotEntry>, groups: Groups, a: SnapshotEntry, b: SnapshotEntry)
    requires GroupsOf(fold, entries, groups) && a in entries && b in entries && a.key.side != b.key.side
    requires FoldPath(fold, a.key.path) == FoldPath(fold, b.key.path)
    requires !Collides(groups, FoldPath(fold, a.key.path)) && !SameKind(a.node, b.node)
    ensures Reported(groups, CrossSideType, FoldPath(fold, a.key.path))
  {
    assert PAIRS[0] in PAIRS && PAIRS[1] in PAIRS && PAIRS[2] in PAIRS;
    if exists pair :: pair in PAIRS && a.key.side == pair.0 && b.key.side == pair.1 {
      var pair :| pair in PAIRS && a.key.side == pair.0 && b.key.side == pair.1;
      DisagreementIsReported(fold, entries, groups, a, b, pair);
    } else {
      var pair :| pair in PAIRS && b.key.side == pair.0 && a.key.side == pair.1;
      DisagreementIsReported(fold, entries, groups, b, a, pair);
    }
  }

  /** No error is reported just when the snapshot is consistent. */
  lemma NoErrorsMeansConsistent(fold: Fold, entries: seq<SnapshotEntry>, groups: Groups)
    requires GroupsOf(fold, entries, groups)
    ensures (forall kind, path :: IsError(kind) ==> !Reported(groups, kind, path)) <==> Consistent(fold, entries)
  {
    if forall kind, path :: IsError(kind) ==> !Reported(groups, kind, path) {
      assert forall path :: !Collides(groups, path) by {
        assert forall path :: Collides(groups, path) ==> Reported(groups, PortableCollision, path);
      }
      forall i, j | 0 <= i < j < |entries| ensures FoldKey(fold, entries[i].key) != FoldKey(fold, entries[j].key) {
        var k := FoldKey(fold, entries[i].key);
        GroupOfTwo(fold, entries, k);
        assert !Collides(groups, k.path);
      }
      forall a, b | a in entries && b in entries && FoldPath(fold, a.key.path) == FoldPath(fold, b.key.path)
        ensures SameKind(a.node, b.node)
      {
        OnlyMember(fold, entries, groups, a);
        OnlyMember(fold, entries, groups, b);
        if a.key.side != b.key.side && !SameKind(a.node, b.node) { DisagreementAcross(fold, entries, groups, a, b); }
      }
    }
    if Consistent(fold, entries) {
      forall kind, path | IsError(kind) ensures !Reported(groups, kind, path) {
        ConsistentReportsNoError(fold, entries, groups, kind, path);
      }
    }
  }

  lemma ConsistentReportsNoError(fold: Fold, entries: seq<SnapshotEntry>, groups: Groups, kind: Kind, path: Path)
    requires GroupsOf(fold, entries, groups) && Consistent(fold, entries) && IsError(kind)
    ensures !Reported(groups, kind, path)
  {
    forall side: Side | Key(side, path) in groups ensures |groups[Key(side, path)]| < 2 {
      GroupOfTwo(fold, entries, Key(side, path));
    }
    PairsCollideNever();
    forall pair, c | pair in PAIRS && c in PairConflict(groups, path, pair) ensures c.kind != CrossSideType {
      FirstIsMember(fold, entries, groups, pair.0, path);
      FirstIsMember(fold, entries, groups, pair.1, path);
      assert pair in {PAIRS[0], PAIRS[1], PAIRS[2]};
    }
  }
}
