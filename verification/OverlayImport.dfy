/** The planning of an import (`plan_content_import_at`): from a source tree to edit operations. */
module OverlayImport {
  import opened Common
  import opened Ordering
  import opened OverlayTree
  import opened Permissions
  import opened EditPlans
  import opened EditReport

  datatype Policy = Reject | ReplaceFiles | MergeDirectories | MergeAndReplaceFiles

  predicate Replaces(policy: Policy) { policy.ReplaceFiles? || policy.MergeAndReplaceFiles? }

  predicate Merges(policy: Policy) { policy.MergeDirectories? || policy.MergeAndReplaceFiles? }

  /** An entry of the source; the root has the empty path. */
  datatype SourceEntry = SourceEntry(relative: Path, node: Node)

  datatype Rejection =
    | ParentIsNotADirectory(key: Key)
    | PortableCollision(key: Key, existing: Key)
    | TypeCollision(key: Key)
    | DirectoryExists(key: Key)
    | FileExists(key: Key)

  /** What is to be done at one key. */
  datatype Decision = Create(operation: Operation) | Update(operation: Operation) | Keep | Refuse(rejection: Rejection)

  const PARENT_MODE: Mode := 0x1ED

  /** A parent that the target needs, or an entry of the source at its place under the target. */
  datatype Item = ParentItem(key: Key) | EntryItem(key: Key, node: Node)

  predicate IsDirectoryItem(item: Item) {
    item.ParentItem? || item.node.Directory?
  }

  function Existing(fold: Fold, index: map<Key, Key>, k: Key): Option<Key> {
    if FoldKey(fold, k) in index then Some(index[FoldKey(fold, k)]) else None
  }

  /** The snapshot entries by folded key; a later entry takes the place of an earlier one. */
  function PortableIndex(fold: Fold, keys: seq<Key>): map<Key, Key> {
    if keys == [] then map[]
    else PortableIndex(fold, keys[..|keys| - 1])[FoldKey(fold, keys[|keys| - 1]) := keys[|keys| - 1]]
  }

  ghost predicate Indexes(fold: Fold, index: map<Key, Key>, baseline: Tree) {
    && (forall k :: k in baseline ==> FoldKey(fold, k) in index)
    && (forall f :: f in index ==> index[f] in baseline && FoldKey(fold, index[f]) == f)
  }

  function Decide(fold: Fold, index: map<Key, Key>, baseline: Tree, policy: Policy, item: Item): Decision
    requires forall f :: f in index ==> index[f] in baseline
  {
    var existing := Existing(fold, index, item.key);
    match item
    case ParentItem(k) =>
      if existing.None? then Create(CreateDirectory(k, PARENT_MODE))
      else if !baseline[existing.value].Directory? then Refuse(ParentIsNotADirectory(k))
      else Keep
    case EntryItem(k, node) =>
      if existing.Some? && existing.value != k then Refuse(Rejection.PortableCollision(k, existing.value))
      else if node.Directory? then
        if existing.None? then Create(CreateDirectory(k, node.mode))
        else if !baseline[k].Directory? then Refuse(TypeCollision(k))
        else if !Merges(policy) then Refuse(DirectoryExists(k))
        else Keep
      else if existing.None? then Create(CreateFile(k, node.contents, node.mode))
      else if !baseline[k].File? then Refuse(TypeCollision(k))
      else if !Replaces(policy) then Refuse(FileExists(k))
      else if baseline[k] == node then Keep
      else Update(ReplaceFile(k, node.contents, Some(baseline[k].contents), Some(node.mode)))
  }

  function OperationOf(decision: Decision): seq<Operation> {
    if decision.Create? || decision.Update? then [decision.operation] else []
  }

  function RejectionOf(decision: Decision): seq<Rejection> {
    if decision.Refuse? then [decision.rejection] else []
  }

  function OperationsOf(decisions: seq<Decision>): seq<Operation> {
    if decisions == [] then []
    else OperationsOf(decisions[..|decisions| - 1]) + OperationOf(decisions[|decisions| - 1])
  }

  function RejectionsOf(decisions: seq<Decision>): seq<Rejection> {
    if decisions == [] then []
    else RejectionsOf(decisions[..|decisions| - 1]) + RejectionOf(decisions[|decisions| - 1])
  }

  function Decisions(
    fold: Fold, index: map<Key, Key>, baseline: Tree, policy: Policy, items: seq<Item>): (r: seq<Decision>)
    requires forall f :: f in index ==> index[f] in baseline
    ensures |r| == |items|
  {
    seq(|items|, i requires 0 <= i < |items| => Decide(fold, index, baseline, policy, items[i]))
  }

  /** Under what an item is listed in the report of an import; a parent that is there is not listed. */
  datatype Effect = Creates | Updates | Leaves

  function EffectOf(decision: Decision, item: Item): Option<Effect> {
    match decision
    case Create(_) => Some(Creates)
    case Update(_) => Some(Updates)
    case Keep => if item.EntryItem? then Some(Leaves) else None
    case Refuse(_) => None
  }

  function PathWith(effect: Effect, decision: Decision, item: Item): seq<Path> {
    if EffectOf(decision, item) == Some(effect) then [item.key.path] else []
  }

  function PathsWith(effect: Effect, decisions: seq<Decision>, items: seq<Item>): seq<Path>
    requires |decisions| == |items|
  {
    if items == [] then []
    else
      var n := |items| - 1;
      PathsWith(effect, decisions[..n], items[..n]) + PathWith(effect, decisions[n], items[n])
  }

  // ----- The items -----

  predicate Shallower(a: Item, b: Item) {
    |a.key.path| < |b.key.path| || (|a.key.path| == |b.key.path| && Less(Posix(a.key.path), Posix(b.key.path)))
  }

  function Parents(target: Key): seq<Item>
    requires target.path != []
  {
    seq(|target.path| - 1, i requires 0 <= i < |target.path| - 1 => ParentItem(target.(path := target.path[..i + 1])))
  }

  function Mapped(target: Key, source: seq<SourceEntry>): seq<Item> {
    seq(|source|, i requires 0 <= i < |source| => EntryItem(target.(path := target.path + source[i].relative),
        source[i].node))
  }

  /** Everything the import looks at, in its order: the parents, then the entries by depth. */
  function Items(target: Key, source: seq<SourceEntry>): seq<Item>
    requires target.path != []
  {
    Parents(target) + SortBy(Mapped(target, source), Shallower)
  }

  datatype ImportPlan = ImportPlan(
    operations: seq<Operation>, created: seq<Path>, updated: seq<Path>, kept: seq<Path>, rejected: seq<Rejection>)

  /** What the loops make of the decisions: operations only without a rejection, the lists in any case. */
  ghost predicate PlanOf(plan: ImportPlan, decisions: seq<Decision>, items: seq<Item>)
    requires |decisions| == |items|
  {
    && plan.rejected == RejectionsOf(decisions)
    && plan.operations == (if plan.rejected == [] then OperationsOf(decisions) else [])
    && plan.created == PathsWith(Creates, decisions, items)
    && plan.updated == PathsWith(Updates, decisions, items)
    && plan.kept == PathsWith(Leaves, decisions, items)
  }

  method BuildIndex(fold: Fold, keys: seq<Key>) returns (index: map<Key, Key>)
    ensures index == PortableIndex(fold, keys)
  {
    index := map[];
    for i := 0 to |keys|
      invariant index == PortableIndex(fold, keys[..i])
    {
      assert keys[..i + 1][..i] == keys[..i];
      index := index[FoldKey(fold, keys[i]) := keys[i]];
    }
    assert keys[..|keys|] == keys;
  }

  lemma {:induction false} IndexIndexes(fold: Fold, keys: seq<Key>)
    ensures
      var index := PortableIndex(fold, keys);
      && (forall k :: k in keys ==> FoldKey(fold, k) in index)
      && (forall f :: f in index ==> index[f] in keys && FoldKey(fold, index[f]) == f)
    decreases |keys|
  {
    if keys != [] {
      var front := keys[..|keys| - 1];
      IndexIndexes(fold, front);
      assert keys == front + [keys[|keys| - 1]];
    }
  }

  /** The loops of `plan_content_import_at`; any rejection leaves nothing to do. */
  method PlanItems(
    fold: Fold, index: map<Key, Key>, baseline: Tree, policy: Policy, items: seq<Item>) returns (plan: ImportPlan)
    requires forall f :: f in index ==> index[f] in baseline
    ensures PlanOf(plan, Decisions(fold, index, baseline, policy, items), items)
  {
    ghost var decisions := Decisions(fold, index, baseline, policy, items);
    var operations: seq<Operation>, rejected: seq<Rejection> := [], [];
    var created: seq<Path>, updated: seq<Path>, kept: seq<Path> := [], [], [];
    for i := 0 to |items|
      invariant operations == OperationsOf(decisions[..i]) && rejected == RejectionsOf(decisions[..i])
      invariant created == PathsWith(Creates, decisions[..i], items[..i])
      invariant updated == PathsWith(Updates, decisions[..i], items[..i])
      invariant kept == PathsWith(Leaves, decisions[..i], items[..i])
    {
      PrefixStep(decisions, i);
      PrefixStep(items, i);
      var decision := Decide(fold, index, baseline, policy, items[i]);
      operations, rejected := operations + OperationOf(decision), rejected + RejectionOf(decision);
      match decision {
        case Create(_) => created := created + [items[i].key.path];
        case Update(_) => updated := updated + [items[i].key.path];
        case Keep => if items[i].EntryItem? { kept := kept + [items[i].key.path]; }
        case Refuse(_) =>
      }
    }
    assert decisions[..|items|] == decisions && items[..|items|] == items;
    plan := ImportPlan(if rejected == [] then operations else [], created, updated, kept, rejected);
  }

  lemma PrefixStep<T>(xs: seq<T>, i: nat)
    requires i < |xs|
    ensures xs[..i + 1][..i] == xs[..i] && xs[..i + 1][i] == xs[i]
  {
  }

  method PlanImport(fold: Fold, baseline: Tree, keys: seq<Key>, target: Key, source: seq<SourceEntry>, policy: Policy)
    returns (plan: ImportPlan, index: map<Key, Key>)
    requires target.path != [] && forall k :: k in keys <==> k in baseline
    ensures index == PortableIndex(fold, keys) && Indexes(fold, index, baseline)
    ensures PlanOf(plan, Decisions(fold, index, baseline, policy, Items(target, source)), Items(target, source))
  {
    index := BuildIndex(fold, keys);
    IndexIndexes(fold, keys);
    plan := PlanItems(fold, index, baseline, policy, Items(target, source));
  }
}
