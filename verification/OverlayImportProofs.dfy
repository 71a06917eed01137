/** An import plan without rejections applies, and does what it says and nothing else. */
module OverlayImportProofs {
  import opened Common
  import opened Ordering
  import opened OverlayTree
  import opened Permissions
  import opened EditPlans
  import opened EditReport
  import opened OverlayImport

  // ----- The operations of an import -----

  predicate IsImport(op: Operation) {
    op.CreateFile? || op.CreateDirectory? || (op.ReplaceFile? && op.newMode.Some?)
  }

  function StagedNode(op: Operation): Node
    requires IsImport(op)
  {
    match op
    case CreateFile(_, contents, mode) => File(contents, mode)
    case ReplaceFile(_, contents, _, newMode) => File(contents, newMode.value)
    case CreateDirectory(_, mode) => Directory(mode | OWNER)
  }

  /** What the operations leave behind before the modes of created directories are set. */
  function Staged(ops: seq<Operation>): Tree
    requires forall op :: op in ops ==> IsImport(op)
  {
    if ops == [] then map[]
    else
      var last := ops[|ops| - 1];
      Staged(ops[..|ops| - 1])[last.key := StagedNode(last)]
  }

  lemma {:induction false} StagedKeys(ops: seq<Operation>, k: Key)
    requires forall op :: op in ops ==> IsImport(op)
    ensures k in Staged(ops) <==> exists op :: op in ops && op.key == k
    ensures k in Staged(ops) ==> exists op :: op in ops && op.key == k && Staged(ops)[k] == StagedNode(op)
    decreases |ops|
  {
    if ops != [] {
      var front, last := ops[..|ops| - 1], ops[|ops| - 1];
      StagedKeys(front, k);
      assert ops == front + [last];
      assert last in ops;
      assert forall op :: op in front ==> op in ops;
    }
  }

  lemma {:induction false} ApplyOneMore(t: Tree, ops: seq<Operation>, op: Operation)
    ensures
      ApplyAll(t, ops + [op]) ==
      var before := ApplyAll(t, ops); if before.None? then None else ApplyOperation(before.value, op)
    decreases |ops|
  {
    if ops == [] {
      assert ([] + [op])[1..] == [];
    } else {
      assert (ops + [op])[0] == ops[0] && (ops + [op])[1..] == ops[1..] + [op];
      var next := ApplyOperation(t, ops[0]);
      if next.Some? { ApplyOneMore(next.value, ops[1..], op); }
    }
  }

  lemma {:induction false} OperationsCome(decisions: seq<Decision>, op: Operation)
    ensures op in OperationsOf(decisions) <==> exists j :: 0 <= j < |decisions| && OperationOf(decisions[j]) == [op]
    decreases |decisions|
  {
    if decisions != [] {
      var front, last := decisions[..|decisions| - 1], decisions[|decisions| - 1];
      OperationsCome(front, op);
      assert decisions == front + [last];
      assert op in OperationOf(last) <==> OperationOf(last) == [op];
    }
  }

  /** A decision that acts, acts on the key of its item. */
  lemma DecisionActsAtItem(fold: Fold, index: map<Key, Key>, baseline: Tree, policy: Policy, item: Item, op: Operation)
    requires forall f :: f in index ==> index[f] in baseline
    requires OperationOf(Decide(fold, index, baseline, policy, item)) == [op]
    ensures IsImport(op) && op.key == item.key
    ensures op.CreateDirectory? ==> IsDirectoryItem(item)
  {
  }

  // ----- Why an item is refused, and what is done otherwise -----

  /** What stands at the key of an entry, as it is spelled, and whether the two are both directories or both files. */
  ghost predicate MeetsItself(fold: Fold, index: map<Key, Key>, item: Item) {
    item.EntryItem? && Existing(fold, index, item.key) == Some(item.key)
  }

  /** Each reason to refuse an item, by what is there and the policy. */
  lemma RefusedExactlyWhen(fold: Fold, index: map<Key, Key>, baseline: Tree, policy: Policy, item: Item, other: Key)
    requires forall f :: f in index ==> index[f] in baseline
    ensures
      var decision, k := Decide(fold, index, baseline, policy, item), item.key;
      var existing := Existing(fold, index, k);
      var meets := MeetsItself(fold, index, item);
      && (decision == Refuse(ParentIsNotADirectory(k)) <==>
            item.ParentItem? && existing.Some? && baseline[existing.value].File?)
      && (decision == Refuse(Rejection.PortableCollision(k, other)) <==>
            item.EntryItem? && existing == Some(other) && other != k)
      && (decision == Refuse(TypeCollision(k)) <==> meets && item.node.File? != baseline[k].File?)
      && (decision == Refuse(DirectoryExists(k)) <==>
            meets && item.node.Directory? && baseline[k].Directory? && policy in {Reject, ReplaceFiles})
      && (decision == Refuse(FileExists(k)) <==>
            meets && item.node.File? && baseline[k].File? && policy in {Reject, MergeDirectories})
      && (decision.Refuse? ==>
            decision.rejection in {ParentIsNotADirectory(k), TypeCollision(k), DirectoryExists(k), FileExists(k)}
            || (existing.Some? && decision.rejection == Rejection.PortableCollision(k, existing.value)))
  {
  }

  /**
   An item that is not refused is created if its key is portably free; a file is replaced, provided that it is still
   what it was, if it differs and the policy replaces files; everything else is left as it is.
   */
  lemma ActsExactlyWhen(fold: Fold, index: map<Key, Key>, baseline: Tree, policy: Policy, item: Item)
    requires forall f :: f in index ==> index[f] in baseline
    ensures
      var decision, k := Decide(fold, index, baseline, policy, item), item.key;
      && (decision.Create? <==> Existing(fold, index, k).None?)
      && (decision.Create? ==>
            decision.operation ==
            if item.ParentItem? then CreateDirectory(k, 0x1ED)
            else if item.node.Directory? then CreateDirectory(k, item.node.mode)
            else CreateFile(k, item.node.contents, item.node.mode))
      && (decision.Update? <==>
            && MeetsItself(fold, index, item) && item.node.File? && baseline[k].File? && baseline[k] != item.node
            && policy in {ReplaceFiles, MergeAndReplaceFiles})
      && (decision.Update? ==>
            decision.operation ==
            ReplaceFile(k, item.node.contents, Some(baseline[k].contents), Some(item.node.mode)))
  {
  }

  // ----- Staging -----

  /** The parent directory of an item is an earlier item. */
  predicate HasParentItem(items: seq<Item>, i: nat)
    requires i < |items| && |items[i].key.path| > 1
  {
    exists j :: 0 <= j < i && items[j].key == Parent(items[i].key) && IsDirectoryItem(items[j])
  }

  /**
   The key is portably free, or there as it is spelled; for a parent, it is enough that it is there as a directory.
   */
  predicate Placed(fold: Fold, index: map<Key, Key>, baseline: Tree, item: Item) {
    || Existing(fold, index, item.key) in {None, Some(item.key)}
    || (item.ParentItem? && item.key in baseline && baseline[item.key].Directory?)
  }

  /** What the items of an import need of each other and of the baseline. */
  ghost predicate Ready(fold: Fold, index: map<Key, Key>, baseline: Tree, policy: Policy, items: seq<Item>) {
    && PrefixClosed(baseline) && Indexes(fold, index, baseline)
    && (forall i :: 0 <= i < |items| ==>
          && items[i].key.path != []
          && !Decide(fold, index, baseline, policy, items[i]).Refuse?
          && Placed(fold, index, baseline, items[i])
          && forall op :: op in OperationOf(Decide(fold, index, baseline, policy, items[i])) ==>
                            Permitted(baseline, op) && FitsMode(op))
    && (forall i {:trigger HasParentItem(items, i)} :: 0 <= i < |items| && |items[i].key.path| > 1 ==>
        HasParentItem(items, i))
    && (forall i, j :: 0 <= i < j < |items| ==> FoldKey(fold, items[i].key) != FoldKey(fold, items[j].key))
  }

  /** An item that is done: its key holds what it asks for, up to the mode of a directory. */
  ghost predicate Done(t: Tree, item: Item) {
    && item.key in t
    && (IsDirectoryItem(item) ==> t[item.key].Directory?)
    && (item.EntryItem? && item.node.File? ==> t[item.key] == item.node)
  }

  /** A decision that can be carried out on a tree and gets its item done. */
  ghost predicate Takes(t: Tree, item: Item, decision: Decision) {
    var ops := OperationOf(decision);
    if ops == [] then Done(t, item)
    else
      && IsImport(ops[0]) && ops[0].key == item.key
      && ApplyOperation(t, ops[0]) == Some(t[item.key := StagedNode(ops[0])])
      && Done(t[item.key := StagedNode(ops[0])], item)
  }

  /** One decision without rejection, on a tree that is the baseline at its key. */
  lemma OneItem(fold: Fold, index: map<Key, Key>, baseline: Tree, policy: Policy, item: Item, t: Tree)
    requires Indexes(fold, index, baseline) && item.key.path != [] && ParentExists(t, item.key)
    requires !Decide(fold, index, baseline, policy, item).Refuse?
    requires Placed(fold, index, baseline, item)
    requires item.key in t <==> item.key in baseline
    requires item.key in t ==> t[item.key] == baseline[item.key]
    requires forall op :: op in OperationOf(Decide(fold, index, baseline, policy, item)) ==> Permitted(t, op)
    ensures Takes(t, item, Decide(fold, index, baseline, policy, item))
  {
  }

  /** Each operation stands for one of the first `n` items. */
  ghost predicate Attributed(ops: seq<Operation>, items: seq<Item>, n: nat)
    requires n <= |items|
  {
    forall op :: op in ops ==> IsImport(op) && exists j :: 0 <= j < n && items[j].key == op.key
  }

  ghost predicate AllDone(t: Tree, items: seq<Item>) {
    forall j :: 0 <= j < |items| ==> Done(t, items[j])
  }

  /** The state of the staging after the first `n` items and their operations. */
  ghost predicate StagedUpTo(baseline: Tree, ops: seq<Operation>, items: seq<Item>, n: nat)
    requires n <= |items|
  {
    && Attributed(ops, items, n)
    && ApplyAll(baseline, ops) == Some(baseline + Staged(ops))
    && AllDone(baseline + Staged(ops), items[..n])
  }

  lemma {:induction false} StageOneMore(baseline: Tree, before: seq<Operation>, op: Operation)
    requires (forall o :: o in before ==> IsImport(o)) && IsImport(op)
    requires
      var t := baseline + Staged(before);
      ApplyAll(baseline, before) == Some(t) && ApplyOperation(t, op) == Some(t[op.key := StagedNode(op)])
    ensures
      && baseline + Staged(before + [op]) == (baseline + Staged(before))[op.key := StagedNode(op)]
      && ApplyAll(baseline, before + [op]) == Some(baseline + Staged(before + [op]))
  {
    ApplyOneMore(baseline, before, op);
    assert (before + [op])[..|before|] == before;
  }

  /** The item of the next step meets what `OneItem` asks for. */
  lemma NextItem(
    fold: Fold, index: map<Key, Key>, baseline: Tree, policy: Policy, items: seq<Item>, ops: seq<Operation>, n: nat)
    requires Ready(fold, index, baseline, policy, items) && n < |items| && StagedUpTo(baseline, ops, items, n)
    ensures
      var t := baseline + Staged(ops);
      && ParentExists(t, items[n].key)
      && (items[n].key in t <==> items[n].key in baseline)
      && (items[n].key in t ==> t[items[n].key] == baseline[items[n].key])
  {
    var item := items[n];
    StagedKeys(ops, item.key);
    forall op | op in ops ensures op.key != item.key {
      var j :| 0 <= j < n && items[j].key == op.key;
      assert FoldKey(fold, items[j].key) != FoldKey(fold, item.key);
    }
    if |item.key.path| > 1 {
      assert HasParentItem(items, n);
      var j :| 0 <= j < n && items[j].key == Parent(item.key) && IsDirectoryItem(items[j]);
      assert Done(baseline + Staged(ops), items[..n][j]);
    }
  }

  /** Directories that an import creates are open, and those that were there keep their modes. */
  lemma OpenWhenStaged(baseline: Tree, ops: seq<Operation>, a: Key)
    requires (forall op :: op in ops ==> IsImport(op)) && OpenAt(baseline, a)
    ensures OpenAt(baseline + Staged(ops), a)
    ensures a in baseline + Staged(ops) && (baseline + Staged(ops))[a].Directory? ==>
              (a in baseline && (baseline + Staged(ops))[a] == baseline[a]) ||
                  OwnerWrites((baseline + Staged(ops))[a].mode)
  {
    StagedKeys(ops, a);
    if a in Staged(ops) && Staged(ops)[a].Directory? {
      var op :| op in ops && op.key == a && Staged(ops)[a] == StagedNode(op);
      OwnerIsOpen(op.mode);
    }
  }

  lemma PermittedWhenStaged(baseline: Tree, ops: seq<Operation>, op: Operation)
    requires (forall o :: o in ops ==> IsImport(o) && o.key != op.key) && IsImport(op) && Permitted(baseline, op)
    requires op.key.path != []
    ensures Permitted(baseline + Staged(ops), op)
  {
    var t, k := baseline + Staged(ops), op.key;
    StagedKeys(ops, k);
    forall i | 0 < i < |k.path| ensures OpenAt(t, Ancestor(k, i)) { OpenWhenStaged(baseline, ops, Ancestor(k, i)); }
    if |k.path| > 1 {
      assert Parent(k) == Ancestor(k, |k.path| - 1);
      OpenWhenStaged(baseline, ops, Parent(k));
    }
  }

  lemma DoneStays(t: Tree, items: seq<Item>, k: Key, node: Node)
    requires AllDone(t, items) && forall j :: 0 <= j < |items| ==> items[j].key != k
    ensures AllDone(t[k := node], items)
  {
  }

  lemma {:induction false} StageAction(baseline: Tree, items: seq<Item>, op: Operation, n: nat, ops: seq<Operation>)
    requires n < |items| && (forall j :: 0 <= j < n ==> items[j].key != items[n].key)
    requires StagedUpTo(baseline, ops, items, n) && IsImport(op) && op.key == items[n].key
    requires ApplyAll(baseline, ops + [op]) == Some(baseline + Staged(ops + [op]))
    requires baseline + Staged(ops + [op]) == (baseline + Staged(ops))[op.key := StagedNode(op)]
    requires Done((baseline + Staged(ops))[op.key := StagedNode(op)], items[n])
    ensures StagedUpTo(baseline, ops + [op], items, n + 1)
  {
    assert items[..n + 1] == items[..n] + [items[n]];
    DoneStays(baseline + Staged(ops), items[..n], op.key, StagedNode(op));
    forall o | o in ops + [op] ensures IsImport(o) && exists j :: 0 <= j < n + 1 && items[j].key == o.key {
      if o in ops { var j :| 0 <= j < n && items[j].key == o.key; }
    }
  }

  lemma StageNothing(baseline: Tree, items: seq<Item>, n: nat, ops: seq<Operation>)
    requires n < |items| && StagedUpTo(baseline, ops, items, n) && Done(baseline + Staged(ops), items[n])
    ensures StagedUpTo(baseline, ops + [], items, n + 1)
  {
    assert items[..n + 1] == items[..n] + [items[n]] && ops + [] == ops;
  }

  lemma StageItem(baseline: Tree, items: seq<Item>, decision: Decision, n: nat, ops: seq<Operation>)
    requires n < |items| && (forall j :: 0 <= j < n ==> items[j].key != items[n].key)
    requires StagedUpTo(baseline, ops, items, n) && Takes(baseline + Staged(ops), items[n], decision)
    ensures StagedUpTo(baseline, ops + OperationOf(decision), items, n + 1)
  {
    var more := OperationOf(decision);
    if more == [] {
      StageNothing(baseline, items, n, ops);
    } else {
      assert more == [more[0]];
      StageOneMore(baseline, ops, more[0]);
      StageAction(baseline, items, more[0], n, ops);
    }
  }

  lemma StageNext(
    fold: Fold, index: map<Key, Key>, baseline: Tree, policy: Policy, items: seq<Item>, n: nat, ops: seq<Operation>)
    requires Ready(fold, index, baseline, policy, items) && n < |items| && StagedUpTo(baseline, ops, items, n)
    ensures StagedUpTo(baseline, ops + OperationOf(Decide(fold, index, baseline, policy, items[n])), items, n + 1)
  {
    NextItem(fold, index, baseline, policy, items, ops, n);
    var decision := Decide(fold, index, baseline, policy, items[n]);
    forall op | op in OperationOf(decision) ensures Permitted(baseline + Staged(ops), op) {
      DecisionActsAtItem(fold, index, baseline, policy, items[n], op);
      forall o | o in ops ensures IsImport(o) && o.key != op.key {
        var j :| 0 <= j < n && items[j].key == o.key;
        assert FoldKey(fold, items[j].key) != FoldKey(fold, items[n].key);
      }
      PermittedWhenStaged(baseline, ops, op);
    }
    OneItem(fold, index, baseline, policy, items[n], baseline + Staged(ops));
    forall j | 0 <= j < n ensures items[j].key != items[n].key {
      assert FoldKey(fold, items[j].key) != FoldKey(fold, items[n].key);
    }
    StageItem(baseline, items, Decide(fold, index, baseline, policy, items[n]), n, ops);
  }

  lemma {:induction false} ImportStages(
    fold: Fold, index: map<Key, Key>, baseline: Tree, policy: Policy, items: seq<Item>, n: nat)
    requires Ready(fold, index, baseline, policy, items) && n <= |items|
    ensures StagedUpTo(baseline, OperationsOf(Decisions(fold, index, baseline, policy, items)[..n]), items, n)
  {
    var decisions := Decisions(fold, index, baseline, policy, items);
    if n == 0 {
      assert baseline + map[] == baseline;
    } else {
      ImportStages(fold, index, baseline, policy, items, n - 1);
      StageNext(fold, index, baseline, policy, items, n - 1, OperationsOf(decisions[..n - 1]));
      OneDecisionMore(decisions, n - 1);
    }
  }

  lemma OneDecisionMore(decisions: seq<Decision>, n: nat)
    requires n < |decisions|
    ensures OperationsOf(decisions[..n + 1]) == OperationsOf(decisions[..n]) + OperationOf(decisions[n])
  {
    assert decisions[..n + 1][..n] == decisions[..n] && decisions[..n + 1][n] == decisions[n];
  }

  // ----- Claims and modes -----

  /** The claims of the operations so far, all from items so far. */
  ghost predicate ClaimsUpTo(fold: Fold, ops: seq<Operation>, items: seq<Item>, n: nat)
    requires n <= |items|
  {
    && Distinct(AllClaims(fold, ops))
    && forall c :: c in AllClaims(fold, ops) ==> exists j :: 0 <= j < n && FoldKey(fold, items[j].key) == c
  }

  lemma ClaimAction(fold: Fold, ops: seq<Operation>, op: Operation, items: seq<Item>, n: nat)
    requires n < |items| && ClaimsUpTo(fold, ops, items, n) && !op.Move? && op.key == items[n].key
    requires forall j :: 0 <= j < n ==> FoldKey(fold, items[j].key) != FoldKey(fold, items[n].key)
    ensures ClaimsUpTo(fold, ops + [op], items, n + 1)
  {
    ClaimsOneMore(fold, ops, op);
    var claim := FoldKey(fold, op.key);
    forall c | c in AllClaims(fold, ops)
      ensures c != claim && exists j :: 0 <= j < n + 1 && FoldKey(fold, items[j].key) == c
    {
      var j :| 0 <= j < n && FoldKey(fold, items[j].key) == c;
    }
    assert forall i :: 0 <= i < |AllClaims(fold, ops)| ==> AllClaims(fold, ops)[i] in AllClaims(fold, ops);
  }

  lemma {:induction false} ImportClaims(
    fold: Fold, index: map<Key, Key>, baseline: Tree, policy: Policy, items: seq<Item>, n: nat)
    requires (forall f :: f in index ==> index[f] in baseline) && n <= |items|
    requires forall i, j :: 0 <= i < j < |items| ==> FoldKey(fold, items[i].key) != FoldKey(fold, items[j].key)
    ensures ClaimsUpTo(fold, OperationsOf(Decisions(fold, index, baseline, policy, items)[..n]), items, n)
  {
    var decisions := Decisions(fold, index, baseline, policy, items);
    if n > 0 {
      ImportClaims(fold, index, baseline, policy, items, n - 1);
      assert decisions[..n][..n - 1] == decisions[..n - 1];
      var ops, more := OperationsOf(decisions[..n - 1]), OperationOf(decisions[n - 1]);
      if more == [] {
        assert ops + [] == ops;
        assert forall c :: c in AllClaims(fold, ops) ==> exists j :: 0 <= j < n && FoldKey(fold, items[j].key) == c;
      } else {
        DecisionActsAtItem(fold, index, baseline, policy, items[n - 1], more[0]);
        assert forall j :: 0 <= j < n - 1 ==> FoldKey(fold, items[j].key) != FoldKey(fold, items[n - 1].key);
        ClaimAction(fold, ops, more[0], items, n - 1);
        assert more == [more[0]];
      }
    }
  }

  /** A directory whose mode can be set. */
  ghost predicate CanSetMode(t: Tree, op: Operation) {
    op.CreateDirectory? && op.key in t && t[op.key].Directory? && Opens(t, op.key) && OwnerReads(t[op.key].mode)
  }

  /** Setting the mode of a directory does not close the way to another one that is not deeper. */
  lemma ShallowerStaysOpen(t: Tree, op: Operation, other: Operation)
    requires CanSetMode(t, op) && CanSetMode(t, other) && op.key != other.key && |op.key.path| >= |other.key.path|
    ensures CanSetMode(t[op.key := Directory(op.mode)], other)
  {
    var t1 := t[op.key := Directory(op.mode)];
    forall i | 0 < i < |other.key.path| ensures OpenAt(t1, Ancestor(other.key, i)) {
      assert OpenAt(t, Ancestor(other.key, i)) && |Ancestor(other.key, i).path| == i;
    }
  }

  /** Setting the modes, deepest first, succeeds when the directories are there and open. */
  lemma {:induction false} SetModesSucceeds(t: Tree, directories: seq<Operation>)
    requires forall op :: op in directories ==> op.CreateDirectory? && CanSetMode(t, op)
    requires forall i, j :: 0 <= i < j < |directories| ==>
               directories[i].key != directories[j].key && |directories[i].key.path| >= |directories[j].key.path|
    ensures SetModes(t, directories).Some?
    ensures forall op :: op in directories ==>
              op.key in SetModes(t, directories).value && SetModes(t, directories).value[op.key] == Directory(op.mode)
    decreases |directories|
  {
    if directories != [] {
      var op, rest := directories[0], directories[1..];
      var t1 := t[op.key := Directory(op.mode)];
      assert CanSetMode(t, op);
      forall o | o in rest ensures CanSetMode(t1, o) && o.key != op.key {
        var j :| 0 <= j < |rest| && rest[j] == o;
        assert directories[j + 1] == o;
        ShallowerStaysOpen(t, op, o);
      }
      assert forall i, j :: 0 <= i < j < |rest| ==> rest[i] == directories[i + 1] && rest[j] == directories[j + 1];
      SetModesSucceeds(t1, rest);
      SetModesKeeps(t1, rest);
      forall o | o in directories
        ensures o.key in SetModes(t1, rest).value && SetModes(t1, rest).value[o.key] == Directory(o.mode)
      {
        if o !in rest { assert o == op; }
      }
    }
  }

  lemma {:induction false} CreatedAreDistinct(ops: seq<Operation>)
    requires Distinct(ops)
    ensures Distinct(CreatedDirectories(ops))
  {
    if ops != [] {
      var rest := ops[1..];
      assert forall i, j :: 0 <= i < j < |rest| ==> rest[i] == ops[i + 1] && rest[j] == ops[j + 1];
      CreatedAreDistinct(rest);
      CreatedMembers(rest);
      assert forall i :: 0 <= i < |rest| ==> rest[i] != ops[0];
    }
  }

  /** The order in which the modes are set. */
  lemma DeepestFirstIsSorted(ops: seq<Operation>)
    requires TargetsDistinct(ops) && forall op :: op in ops ==> !op.Move?
    ensures
      var r := DeepestFirst(ops);
      forall i, j :: 0 <= i < j < |r| ==> r[i].key != r[j].key && |r[i].key.path| >= |r[j].key.path|
  {
    var r := DeepestFirst(ops);
    forall i, j | 0 <= i < j < |ops| ensures ops[i] != ops[j] {
      assert ops[i].key in Targets(ops[i]) && ops[j].key in Targets(ops[j]);
    }
    CreatedAreDistinct(ops);
    SortKeepsDistinct(CreatedDirectories(ops), Deeper);
    assert Comparison(Deeper);
    SortSorts(CreatedDirectories(ops), Deeper);
    forall i, j | 0 <= i < j < |r| ensures r[i].key != r[j].key && |r[i].key.path| >= |r[j].key.path| {
      assert r[i] in r && r[j] in r && !Deeper(r[j], r[i]);
      if r[i].key == r[j].key { KeysIdentify(ops, r[i], r[j]); }
    }
  }

  /** Operations with distinct targets are told apart by their keys. */
  lemma KeysIdentify(ops: seq<Operation>, a: Operation, b: Operation)
    requires TargetsDistinct(ops) && a in ops && b in ops && a.key == b.key
    ensures a == b
  {
    var i :| 0 <= i < |ops| && ops[i] == a;
    var j :| 0 <= j < |ops| && ops[j] == b;
    assert a.key in Targets(ops[i]) && b.key in Targets(ops[j]);
  }

  // ----- The result -----

  /** What an item makes of its key, given what was there. */
  ghost predicate Imported(baseline: Tree, after: Tree, item: Item) {
    && item.key in after
    && (item.EntryItem? && item.node.File? ==> after[item.key] == item.node)
    && (item.EntryItem? && item.node.Directory? && item.key !in baseline ==> after[item.key] == item.node)
    && (item.ParentItem? && item.key !in baseline ==> after[item.key] == Directory(PARENT_MODE))
    && (IsDirectoryItem(item) && item.key in baseline ==> after[item.key] == baseline[item.key])
  }

  /** The baseline with the items, and nothing else. */
  ghost predicate ImportResult(baseline: Tree, after: Tree, items: seq<Item>) {
    && (forall i :: 0 <= i < |items| ==> Imported(baseline, after, items[i]))
    && (forall k :: k in baseline ==> k in after)
    && (forall k :: k in after && k !in baseline ==> exists i :: 0 <= i < |items| && items[i].key == k)
    && (forall k :: k in baseline && (forall i :: 0 <= i < |items| ==> items[i].key != k) ==> after[k] == baseline[k])
  }

  /** Whether an operation acts on the key of an item is decided by the item alone. */
  lemma OperationAtItem(
    fold: Fold, index: map<Key, Key>, baseline: Tree, policy: Policy, items: seq<Item>, i: nat, op: Operation)
    requires (forall f :: f in index ==> index[f] in baseline) && i < |items|
    requires forall a, b :: 0 <= a < b < |items| ==> items[a].key != items[b].key
    requires op in Ops(fold, index, baseline, policy, items) && op.key == items[i].key
    ensures OperationOf(Decide(fold, index, baseline, policy, items[i])) == [op]
  {
    var decisions := Decisions(fold, index, baseline, policy, items);
    OperationsCome(decisions, op);
    var j :| 0 <= j < |decisions| && OperationOf(decisions[j]) == [op];
    DecisionActsAtItem(fold, index, baseline, policy, items[j], op);
    assert items[j].key == items[i].key;
  }

  function Ops(fold: Fold, index: map<Key, Key>, baseline: Tree, policy: Policy, items: seq<Item>): seq<Operation>
    requires forall f :: f in index ==> index[f] in baseline
  {
    OperationsOf(Decisions(fold, index, baseline, policy, items))
  }

  /** A directory item acts exactly when its key is not there, and creates it with its mode. */
  lemma DirectoryItemActs(fold: Fold, index: map<Key, Key>, baseline: Tree, policy: Policy, item: Item)
    requires Indexes(fold, index, baseline) && IsDirectoryItem(item)
    requires !Decide(fold, index, baseline, policy, item).Refuse?
    requires Placed(fold, index, baseline, item)
    ensures
      OperationOf(Decide(fold, index, baseline, policy, item)) ==
      if item.key in baseline then []
      else [CreateDirectory(item.key, if item.ParentItem? then PARENT_MODE else item.node.mode)]
  {
  }

  lemma KeptItemHasNoOperation(
    fold: Fold, index: map<Key, Key>, baseline: Tree, policy: Policy, items: seq<Item>, i: nat)
    requires (forall f :: f in index ==> index[f] in baseline) && i < |items|
    requires forall a, b :: 0 <= a < b < |items| ==> items[a].key != items[b].key
    requires OperationOf(Decide(fold, index, baseline, policy, items[i])) == []
    ensures forall op :: op in Ops(fold, index, baseline, policy, items) ==> op.key != items[i].key
  {
    forall op | op in Ops(fold, index, baseline, policy, items) ensures op.key != items[i].key {
      if op.key == items[i].key { OperationAtItem(fold, index, baseline, policy, items, i, op); }
    }
  }

  function ModeOf(item: Item): Mode
    requires IsDirectoryItem(item)
  {
    if item.ParentItem? then PARENT_MODE else item.node.mode
  }

  /** What the modes make of an item that the staging has done. */
  lemma ModesImport(baseline: Tree, after: Tree, item: Item, ops: seq<Operation>)
    requires forall op :: op in ops ==> IsImport(op)
    requires Done(baseline + Staged(ops), item) && FinalizeModes(baseline + Staged(ops), ops) == Some(after)
    requires IsDirectoryItem(item) ==>
               if item.key in baseline then forall op :: op in ops ==> op.key != item.key
               else item.key in after && after[item.key] == Directory(ModeOf(item))
    ensures Imported(baseline, after, item)
  {
    SetModesKeeps(baseline + Staged(ops), DeepestFirst(ops));
    StagedKeys(ops, item.key);
  }

  lemma ItemImported(
    fold: Fold, index: map<Key, Key>, baseline: Tree, policy: Policy, items: seq<Item>, after: Tree, i: nat)
    requires Ready(fold, index, baseline, policy, items) && i < |items|
    requires
      var ops := Ops(fold, index, baseline, policy, items);
      && Attributed(ops, items, |items|) && Done(baseline + Staged(ops), items[i])
      && FinalizeModes(baseline + Staged(ops), ops) == Some(after)
      && forall op :: op in ops && op.CreateDirectory? ==> op.key in after && after[op.key] == Directory(op.mode)
    ensures Imported(baseline, after, items[i])
  {
    var ops, item := Ops(fold, index, baseline, policy, items), items[i];
    if IsDirectoryItem(item) {
      DirectoryItemActs(fold, index, baseline, policy, item);
      if item.key in baseline {
        assert forall a, b :: 0 <= a < b < |items| ==> FoldKey(fold, items[a].key) != FoldKey(fold, items[b].key);
        KeptItemHasNoOperation(fold, index, baseline, policy, items, i);
      } else {
        var op := CreateDirectory(item.key, if item.ParentItem? then PARENT_MODE else item.node.mode);
        var decisions := Decisions(fold, index, baseline, policy, items);
        assert OperationOf(decisions[i]) == [op];
        OperationsCome(decisions, op);
      }
    }
    ModesImport(baseline, after, item, ops);
  }

  lemma CreatedIsOpen(baseline: Tree, ops: seq<Operation>, op: Operation)
    requires (forall o :: o in ops ==> IsImport(o)) && op in ops && op.CreateDirectory? && Permitted(baseline, op)
    requires op.key in baseline + Staged(ops) && (baseline + Staged(ops))[op.key].Directory?
    ensures CanSetMode(baseline + Staged(ops), op)
  {
    var t := baseline + Staged(ops);
    StagedKeys(ops, op.key);
    forall i | 0 < i < |op.key.path|
        ensures OpenAt(t, Ancestor(op.key, i)) { OpenWhenStaged(baseline, ops, Ancestor(op.key, i)); }
    var o :| o in ops && o.key == op.key && Staged(ops)[op.key] == StagedNode(o);
    OwnerIsOpen(o.mode);
  }

  /** The directories that an import creates are there when their modes are set. */
  lemma ImportModes(fold: Fold, staged: Tree, ops: seq<Operation>)
    requires Distinct(AllClaims(fold, ops)) && forall op :: op in ops ==> IsImport(op)
    requires forall op :: op in ops && op.CreateDirectory? ==> CanSetMode(staged, op)
    ensures FinalizeModes(staged, ops).Some?
    ensures forall op :: op in ops && op.CreateDirectory? ==>
              op.key in FinalizeModes(staged, ops).value &&
                  FinalizeModes(staged, ops).value[op.key] == Directory(op.mode)
  {
    AcceptedTargetsAreDistinct(fold, ops);
    DeepestFirstIsSorted(ops);
    SetModesSucceeds(staged, DeepestFirst(ops));
  }

  /** An operation of an import that is ready and staged. */
  lemma ReadyOperation(
    fold: Fold, index: map<Key, Key>, baseline: Tree, policy: Policy, items: seq<Item>, op: Operation)
    requires Ready(fold, index, baseline, policy, items) && op in Ops(fold, index, baseline, policy, items)
    requires StagedUpTo(baseline, Ops(fold, index, baseline, policy, items), items, |items|)
    ensures FitsMode(op)
    ensures op.CreateDirectory? ==> CanSetMode(baseline + Staged(Ops(fold, index, baseline, policy, items)), op)
  {
    var decisions, ops := Decisions(fold, index, baseline, policy, items), Ops(fold, index, baseline, policy, items);
    OperationsCome(decisions, op);
    var j :| 0 <= j < |decisions| && OperationOf(decisions[j]) == [op];
    assert op in OperationOf(Decide(fold, index, baseline, policy, items[j]));
    if op.CreateDirectory? {
      DecisionActsAtItem(fold, index, baseline, policy, items[j], op);
      assert items[..|items|][j] == items[j] && Done(baseline + Staged(ops), items[j]);
      CreatedIsOpen(baseline, ops, op);
    }
  }

  /** The operations are accepted, they all apply, and the modes are set. */
  ghost predicate CarriedOut(
    fold: Fold, spelling: Spelling, spelled: Path -> string, baseline: Tree, ops: seq<Operation>, after: Tree)
  {
    && Accepted(fold, spelling, spelled, ops)
    && ApplyAll(baseline, ops).Some? && FinalizeModes(ApplyAll(baseline, ops).value, ops) == Some(after)
  }

  ghost predicate AllSpelledBack(spelling: Spelling, spelled: Path -> string, ops: seq<Operation>) {
    forall op :: op in ops ==> SpelledBack(spelling, spelled, op)
  }

  /** An import that is ready is accepted, applies, and makes the import result. */
  lemma ImportApplies(
    fold: Fold, spelling: Spelling, spelled: Path -> string, index: map<Key, Key>, baseline: Tree, policy: Policy,
    items: seq<Item>)
    returns (after: Tree)
    requires Ready(fold, index, baseline, policy, items)
    requires AllSpelledBack(spelling, spelled, Ops(fold, index, baseline, policy, items))
    ensures CarriedOut(fold, spelling, spelled, baseline, Ops(fold, index, baseline, policy, items), after)
    ensures ImportResult(baseline, after, items)
  {
    var decisions, ops := Decisions(fold, index, baseline, policy, items), Ops(fold, index, baseline, policy, items);
    assert decisions[..|items|] == decisions && items[..|items|] == items;
    ImportStages(fold, index, baseline, policy, items, |items|);
    ImportClaims(fold, index, baseline, policy, items, |items|);
    var staged := baseline + Staged(ops);
    forall op | op in ops ensures FitsMode(op) && (op.CreateDirectory? ==> CanSetMode(staged, op)) {
      ReadyOperation(fold, index, baseline, policy, items, op);
    }
    AcceptedIffModesFit(fold, spelling, spelled, ops);
    ImportModes(fold, staged, ops);
    after := FinalizeModes(staged, ops).value;
    forall i | 0 <= i < |items| ensures Imported(baseline, after, items[i]) {
      assert Done(staged, items[i]);
      ItemImported(fold, index, baseline, policy, items, after, i);
    }
    NothingElse(baseline, staged, after, ops, items);
  }

  lemma NothingElse(baseline: Tree, staged: Tree, after: Tree, ops: seq<Operation>, items: seq<Item>)
    requires Attributed(ops, items, |items|) && staged == baseline + Staged(ops) &&
             FinalizeModes(staged, ops) == Some(after)
    requires forall i :: 0 <= i < |items| ==> Imported(baseline, after, items[i])
    ensures ImportResult(baseline, after, items)
  {
    SetModesKeeps(staged, DeepestFirst(ops));
    forall k ensures k in Staged(ops) ==> exists i :: 0 <= i < |items| && items[i].key == k {
      StagedKeys(ops, k);
      if k in Staged(ops) {
        var op :| op in ops && op.key == k;
        var i :| 0 <= i < |items| && items[i].key == op.key;
      }
    }
    forall k | k in baseline && (forall i :: 0 <= i < |items| ==> items[i].key != k) ensures after[k] == baseline[k] {
      assert k !in Staged(ops);
      assert forall op :: op in ops ==> op.key != k;
    }
  }

  // ----- From the source to the items -----

  predicate HasParent(source: seq<SourceEntry>, i: nat)
    requires i < |source| && source[i].relative != []
  {
    exists j :: 0 <= j < |source| && source[j].node.Directory?
                && source[j].relative == source[i].relative[..|source[i].relative| - 1]
  }

  /** What an inspected source without validation errors looks like: a tree without portable collisions. */
  ghost predicate SourceTree(fold: Fold, source: seq<SourceEntry>) {
    && (forall i {:trigger HasParent(source, i)} :: 0 <= i < |source| && source[i].relative != [] ==>
        HasParent(source, i))
    && PortablyDistinct(fold, source)
  }

  ghost predicate PortablyDistinct(fold: Fold, source: seq<SourceEntry>) {
    forall i, j :: 0 <= i < j < |source| ==> FoldPath(fold, source[i].relative) != FoldPath(fold, source[j].relative)
  }

  /** A parent is portably free, or there as a directory under the very spelling of the request. */
  predicate ParentSpelled(fold: Fold, index: map<Key, Key>, baseline: Tree, parent: Key) {
    FoldKey(fold, parent) !in index || (parent in baseline && baseline[parent].Directory?)
  }

  ghost predicate ParentsSpelled(fold: Fold, index: map<Key, Key>, baseline: Tree, target: Key) {
    forall i :: 0 < i < |target.path| ==> ParentSpelled(fold, index, baseline, Ancestor(target, i))
  }

  lemma {:induction false} NoRejections(decisions: seq<Decision>, i: nat)
    requires RejectionsOf(decisions) == [] && i < |decisions|
    ensures !decisions[i].Refuse?
    decreases |decisions|
  {
    if i < |decisions| - 1 { NoRejections(decisions[..|decisions| - 1], i); }
  }

  lemma {:induction false} RefusalsAreRejections(decisions: seq<Decision>)
    ensures RejectionsOf(decisions) == [] <==> forall i :: 0 <= i < |decisions| ==> !decisions[i].Refuse?
    decreases |decisions|
  {
    if decisions != [] { RefusalsAreRejections(decisions[..|decisions| - 1]); }
  }

  /** Any conflict leaves nothing to do, and what is staged is the baseline. */
  lemma {:induction false} AnyConflictLeavesTheBaseline(
    plan: ImportPlan, decisions: seq<Decision>, items: seq<Item>, baseline: Tree)
    requires |decisions| == |items| && PlanOf(plan, decisions, items)
    ensures plan.rejected != [] <==> exists i :: 0 <= i < |decisions| && decisions[i].Refuse?
    ensures plan.rejected != [] ==> plan.operations == [] && ApplyAll(baseline, plan.operations) == Some(baseline)
  {
    RefusalsAreRejections(decisions);
  }

  lemma ShallowerCompares()
    ensures Comparison(Shallower)
  {
    forall a: Item, b: Item | Shallower(a, b) ensures !Shallower(b, a) {
      if |a.key.path| == |b.key.path| { LessIsAsymmetric(Posix(a.key.path), Posix(b.key.path)); }
    }
    forall a: Item, b: Item, c: Item | !Shallower(b, a) && !Shallower(c, b) ensures !Shallower(c, a) {
      if |a.key.path| == |b.key.path| == |c.key.path| {
        NotLessIsTransitive(Posix(a.key.path), Posix(b.key.path), Posix(c.key.path));
      }
    }
  }

  lemma MappedFoldsDiffer(fold: Fold, target: Key, source: seq<SourceEntry>, i: nat, j: nat)
    requires PortablyDistinct(fold, source) && i < |source| && j < |source| && i != j
    ensures FoldKey(fold, Mapped(target, source)[i].key) != FoldKey(fold, Mapped(target, source)[j].key)
  {
    var a, b := source[i].relative, source[j].relative;
    var fa, fb := FoldPath(fold, target.path + a), FoldPath(fold, target.path + b);
    assert fa[|target.path|..] == FoldPath(fold, a) && fb[|target.path|..] == FoldPath(fold, b);
  }

  /** Entries keep their place under the target, and their folded keys stay apart, when they are sorted. */
  lemma SortedMapped(fold: Fold, target: Key, source: seq<SourceEntry>)
    requires SourceTree(fold, source)
    ensures
      var sorted := SortBy(Mapped(target, source), Shallower);
      && SortedBy(sorted, Shallower)
      && (forall item :: item in sorted <==> item in Mapped(target, source))
      && (forall i, j :: 0 <= i < j < |sorted| ==> FoldKey(fold, sorted[i].key) != FoldKey(fold, sorted[j].key))
  {
    var mapped := Mapped(target, source);
    var sorted := SortBy(mapped, Shallower);
    ShallowerCompares();
    SortSorts(mapped, Shallower);
    forall item ensures item in sorted <==> item in mapped { SortMembers(mapped, Shallower, item); }
    forall i, j | 0 <= i < j < |mapped|
        ensures mapped[i] != mapped[j] { MappedFoldsDiffer(fold, target, source, i, j); }
    SortKeepsDistinct(mapped, Shallower);
    forall i, j | 0 <= i < j < |sorted| ensures FoldKey(fold, sorted[i].key) != FoldKey(fold, sorted[j].key) {
      assert sorted[i] in mapped && sorted[j] in mapped;
      var a :| 0 <= a < |mapped| && mapped[a] == sorted[i];
      var b :| 0 <= b < |mapped| && mapped[b] == sorted[j];
      MappedFoldsDiffer(fold, target, source, a, b);
    }
  }

  /** The parent of an entry below the root comes before it. */
  lemma EntryParent(fold: Fold, target: Key, source: seq<SourceEntry>, sorted: seq<Item>, i: nat)
    requires SourceTree(fold, source) && SortedBy(sorted, Shallower) && i < |sorted|
    requires forall item :: item in sorted <==> item in Mapped(target, source)
    requires |sorted[i].key.path| > |target.path|
    ensures exists j :: 0 <= j < i && sorted[j].key == Parent(sorted[i].key) && IsDirectoryItem(sorted[j])
  {
    var mapped := Mapped(target, source);
    assert sorted[i] in mapped;
    var n :| 0 <= n < |mapped| && mapped[n] == sorted[i];
    assert HasParent(source, n);
    var m :| 0 <= m < |source| && source[m].node.Directory?
             && source[m].relative == source[n].relative[..|source[n].relative| - 1];
    assert mapped[m] in sorted;
    var j :| 0 <= j < |sorted| && sorted[j] == mapped[m];
    assert sorted[j].key == Parent(sorted[i].key);
    assert Shallower(sorted[j], sorted[i]);
  }

  lemma ItemAt(target: Key, source: seq<SourceEntry>, i: nat)
    requires target.path != [] && i < |Items(target, source)|
    ensures
      var items, sorted := Items(target, source), SortBy(Mapped(target, source), Shallower);
      if i < |target.path| - 1 then items[i] == ParentItem(target.(path := target.path[..i + 1]))
      else
        && i - (|target.path| - 1) < |sorted| && items[i] == sorted[i - (|target.path| - 1)]
        && items[i].EntryItem? && items[i].key.side == target.side && target.path <= items[i].key.path
  {
    if i >= |target.path| - 1 {
      SortMembers(Mapped(target, source), Shallower, Items(target, source)[i]);
    }
  }

  lemma ParentsHaveParents(target: Key, source: seq<SourceEntry>, i: nat)
    requires target.path != [] && i < |Items(target, source)|
    requires Items(target, source)[i].key.side == target.side && 1 < |Items(target, source)[i].key.path|
    requires Items(target, source)[i].key.path <= target.path
    ensures HasParentItem(Items(target, source), i)
  {
    var items := Items(target, source);
    var j := |items[i].key.path| - 2;
    ItemAt(target, source, i);
    ItemAt(target, source, j);
    assert items[j].key == Parent(items[i].key);
  }

  /** `EntryParent`, behind the items for the parents of the target. */
  lemma EntryParentBehind(
      fold: Fold, target: Key, source: seq<SourceEntry>, before: seq<Item>, sorted: seq<Item>, n: nat)
    requires SourceTree(fold, source) && SortedBy(sorted, Shallower) && n < |sorted|
    requires forall item :: item in sorted <==> item in Mapped(target, source)
    requires target.path != [] && |sorted[n].key.path| > |target.path|
    ensures HasParentItem(before + sorted, |before| + n)
  {
    var items := before + sorted;
    EntryParent(fold, target, source, sorted, n);
    var j :| 0 <= j < n && sorted[j].key == Parent(sorted[n].key) && IsDirectoryItem(sorted[j]);
    assert items[|before| + n] == sorted[n] && items[|before| + j] == sorted[j];
  }

  lemma EntriesHaveParents(fold: Fold, target: Key, source: seq<SourceEntry>, n: nat)
    requires target.path != [] && SourceTree(fold, source) && |target.path| - 1 + n < |Items(target, source)|
    requires |Items(target, source)[|target.path| - 1 + n].key.path| > |target.path|
    ensures HasParentItem(Items(target, source), |target.path| - 1 + n)
  {
    SortedMapped(fold, target, source);
    EntryParentBehind(fold, target, source, Parents(target), SortBy(Mapped(target, source), Shallower), n);
  }

  lemma ItemsHaveParents(fold: Fold, target: Key, source: seq<SourceEntry>, i: nat)
    requires target.path != [] && SourceTree(fold, source)
    requires i < |Items(target, source)| && |Items(target, source)[i].key.path| > 1
    ensures HasParentItem(Items(target, source), i)
  {
    ItemAt(target, source, i);
    if |Items(target, source)[i].key.path| <= |target.path| {
      ParentsHaveParents(target, source, i);
    } else {
      EntriesHaveParents(fold, target, source, i - (|target.path| - 1));
    }
  }

  lemma ItemsFoldApart(fold: Fold, target: Key, source: seq<SourceEntry>, i: nat, j: nat)
    requires target.path != [] && SourceTree(fold, source) && i < j < |Items(target, source)|
    ensures FoldKey(fold, Items(target, source)[i].key) != FoldKey(fold, Items(target, source)[j].key)
  {
    ItemAt(target, source, i);
    ItemAt(target, source, j);
    if i < |target.path| - 1 {
      assert |FoldPath(fold, Items(target, source)[i].key.path)| < |FoldPath(fold, Items(target, source)[j].key.path)|;
    } else {
      SortedMapped(fold, target, source);
    }
  }

  lemma ItemAccepted(
    fold: Fold, index: map<Key, Key>, baseline: Tree, policy: Policy, target: Key, source: seq<SourceEntry>, i: nat)
    requires Indexes(fold, index, baseline) && target.path != [] && i < |Items(target, source)|
    requires ParentsSpelled(fold, index, baseline, target)
    requires RejectionsOf(Decisions(fold, index, baseline, policy, Items(target, source))) == []
    ensures
      var item := Items(target, source)[i];
      && item.key.path != [] && !Decide(fold, index, baseline, policy, item).Refuse?
      && Placed(fold, index, baseline, item)
  {
    var items := Items(target, source);
    var decisions := Decisions(fold, index, baseline, policy, items);
    NoRejections(decisions, i);
    assert decisions[i] == Decide(fold, index, baseline, policy, items[i]);
    ItemAt(target, source, i);
    if i < |target.path| - 1 {
      assert items[i].key == Ancestor(target, i + 1) && ParentSpelled(fold, index, baseline, Ancestor(target, i + 1));
    } else {
      AcceptedEntryIsSpelled(fold, index, baseline, policy, items[i]);
    }
  }

  lemma AcceptedEntryIsSpelled(fold: Fold, index: map<Key, Key>, baseline: Tree, policy: Policy, item: Item)
    requires Indexes(fold, index, baseline)
    requires item.EntryItem? && item.key.path != [] && !Decide(fold, index, baseline, policy, item).Refuse?
    ensures Existing(fold, index, item.key) in {None, Some(item.key)}
  {
  }

  /** Every operation is permitted where the baseline has a say. */
  ghost predicate AllPermitted(baseline: Tree, ops: seq<Operation>) {
    forall op :: op in ops ==> Permitted(baseline, op)
  }

  ghost predicate AllFit(ops: seq<Operation>) {
    forall op :: op in ops ==> FitsMode(op)
  }

  lemma ItemIsPermitted(
    fold: Fold, index: map<Key, Key>, baseline: Tree, policy: Policy, items: seq<Item>, i: nat, op: Operation)
    requires (forall f :: f in index ==> index[f] in baseline) && i < |items|
    requires AllPermitted(baseline, Ops(fold, index, baseline, policy, items))
    requires AllFit(Ops(fold, index, baseline, policy, items))
    requires op in OperationOf(Decide(fold, index, baseline, policy, items[i]))
    ensures Permitted(baseline, op) && FitsMode(op)
  {
    var decisions := Decisions(fold, index, baseline, policy, items);
    assert OperationOf(decisions[i]) == [op];
    OperationsCome(decisions, op);
  }

  lemma ItemsReady(
    fold: Fold, index: map<Key, Key>, baseline: Tree, policy: Policy, target: Key, source: seq<SourceEntry>)
    requires PrefixClosed(baseline) && Indexes(fold, index, baseline) && target.path != []
    requires SourceTree(fold, source) && ParentsSpelled(fold, index, baseline, target)
    requires AllPermitted(baseline, Ops(fold, index, baseline, policy, Items(target, source)))
    requires AllFit(Ops(fold, index, baseline, policy, Items(target, source)))
    requires RejectionsOf(Decisions(fold, index, baseline, policy, Items(target, source))) == []
    ensures Ready(fold, index, baseline, policy, Items(target, source))
  {
    var items := Items(target, source);
    forall i | 0 <= i < |items|
      ensures items[i].key.path != [] && !Decide(fold, index, baseline, policy, items[i]).Refuse?
      ensures Placed(fold, index, baseline, items[i])
      ensures forall op :: op in OperationOf(Decide(fold, index, baseline, policy, items[i])) ==>
                Permitted(baseline, op) && FitsMode(op)
    {
      ItemAccepted(fold, index, baseline, policy, target, source, i);
      forall op | op in OperationOf(Decide(fold, index, baseline, policy, items[i]))
        ensures Permitted(baseline, op) && FitsMode(op)
      {
        ItemIsPermitted(fold, index, baseline, policy, items, i, op);
      }
    }
    forall i | 0 <= i < |items| && |items[i].key.path| > 1 ensures HasParentItem(items, i) {
      ItemsHaveParents(fold, target, source, i);
    }
    forall i, j | 0 <= i < j < |items| ensures FoldKey(fold, items[i].key) != FoldKey(fold, items[j].key) {
      ItemsFoldApart(fold, target, source, i, j);
    }
  }

  /**
   Import planning: without rejections, where permitted and with modes that fit, the operations are accepted, they
   all apply in their order, every entry of the source ends up at its place, and nothing else changes.
   */
  lemma ImportPlanIsCarriedOut(
    fold: Fold, spelling: Spelling, spelled: Path -> string, index: map<Key, Key>, baseline: Tree, policy: Policy,
    target: Key, source: seq<SourceEntry>)
    returns (after: Tree)
    requires PrefixClosed(baseline) && Indexes(fold, index, baseline) && target.path != []
    requires SourceTree(fold, source) && ParentsSpelled(fold, index, baseline, target)
    requires AllPermitted(baseline, Ops(fold, index, baseline, policy, Items(target, source)))
    requires AllFit(Ops(fold, index, baseline, policy, Items(target, source)))
    requires AllSpelledBack(spelling, spelled, Ops(fold, index, baseline, policy, Items(target, source)))
    requires RejectionsOf(Decisions(fold, index, baseline, policy, Items(target, source))) == []
    ensures
      CarriedOut(fold, spelling, spelled, baseline, Ops(fold, index, baseline, policy, Items(target, source)), after)
    ensures ImportResult(baseline, after, Items(target, source))
  {
    ItemsReady(fold, index, baseline, policy, target, source);
    after := ImportApplies(fold, spelling, spelled, index, baseline, policy, Items(target, source));
  }

  /**
   The lists of an import say what happens: created is what was not there, updated what was and changes, unchanged the
   rest.
   */
  lemma ImportReportIsTrue(
    fold: Fold, index: map<Key, Key>, baseline: Tree, policy: Policy, items: seq<Item>, after: Tree, i: nat)
    requires Ready(fold, index, baseline, policy, items) && ImportResult(baseline, after, items) && i < |items|
    ensures
      var k, effect := items[i].key, EffectOf(Decide(fold, index, baseline, policy, items[i]), items[i]);
      && (effect == Some(Creates) <==> k !in baseline)
      && (effect == Some(Updates) <==> k in baseline && after[k] != baseline[k])
      && (effect == Some(Leaves) <==> k in baseline && after[k] == baseline[k] && items[i].EntryItem?)
  {
    var k := items[i].key;
    assert Imported(baseline, after, items[i]);
    assert k in baseline ==> FoldKey(fold, k) in index;
    assert Existing(fold, index, k).Some? ==> k in baseline;
  }

  /** The item `i` has the path and the effect. */
  ghost predicate Lists(effect: Effect, decisions: seq<Decision>, items: seq<Item>, path: Path, i: int)
    requires |decisions| == |items|
  {
    0 <= i < |items| && items[i].key.path == path && EffectOf(decisions[i], items[i]) == Some(effect)
  }

  lemma {:induction false} ListedPaths(effect: Effect, decisions: seq<Decision>, items: seq<Item>, path: Path)
    requires |decisions| == |items|
    ensures path in PathsWith(effect, decisions, items) <==> exists i :: Lists(effect, decisions, items, path, i)
    decreases |items|
  {
    if items != [] {
      var n := |items| - 1;
      var front, frontItems := decisions[..n], items[..n];
      ListedPaths(effect, front, frontItems, path);
      assert forall i :: Lists(effect, front, frontItems, path, i) <==>
          Lists(effect, decisions, items, path, i) && i != n;
      assert Lists(effect, decisions, items, path, n) <==> path in PathWith(effect, decisions[n], items[n]);
      assert PathsWith(effect, decisions, items) ==
             PathsWith(effect, front, frontItems) + PathWith(effect, decisions[n], items[n]);
    }
  }

  /** Without replacement, no file that was there is altered. */
  lemma ImportKeepsFiles(
    fold: Fold, index: map<Key, Key>, baseline: Tree, policy: Policy, items: seq<Item>, after: Tree, k: Key)
    requires Indexes(fold, index, baseline) && !Replaces(policy) && ImportResult(baseline, after, items)
    requires forall i :: 0 <= i < |items| ==>
               && !Decide(fold, index, baseline, policy, items[i]).Refuse?
               && Placed(fold, index, baseline, items[i])
    requires k in baseline && baseline[k].File?
    ensures k in after && after[k] == baseline[k]
  {
    forall i | 0 <= i < |items| ensures items[i].key != k {
      assert items[i].key == k ==> FoldKey(fold, k) in index && Placed(fold, index, baseline, items[i]);
    }
  }

  // ----- Exactly when a plan without rejections applies -----

  lemma OneImportAdds(t: Tree, op: Operation, k: Key)
    requires IsImport(op) && ApplyOperation(t, op).Some?
    ensures k in ApplyOperation(t, op).value <==> k in t || k == op.key
    ensures k in t && k != op.key ==> ApplyOperation(t, op).value[k] == t[k]
  {
  }

  lemma {:induction false} ImportsAddTheirKeys(t: Tree, ops: seq<Operation>, k: Key)
    requires PrefixClosed(t) && (forall op :: op in ops ==> IsImport(op)) && ApplyAll(t, ops).Some?
    ensures PrefixClosed(ApplyAll(t, ops).value)
    ensures k in ApplyAll(t, ops).value <==> k in t || exists op :: op in ops && op.key == k
    ensures k in t && (forall op :: op in ops ==> op.key != k) ==> ApplyAll(t, ops).value[k] == t[k]
    decreases |ops|
  {
    if ops != [] {
      OperationKeepsPrefixClosed(t, ops[0]);
      OneImportAdds(t, ops[0], k);
      ImportsAddTheirKeys(ApplyOperation(t, ops[0]).value, ops[1..], k);
      assert ops == [ops[0]] + ops[1..];
    }
  }

  /** The operations of a plan are imports, each from an item that is not kept. */
  lemma OperationsAreImports(
    fold: Fold, index: map<Key, Key>, baseline: Tree, policy: Policy, items: seq<Item>, op: Operation)
    requires (forall f :: f in index ==> index[f] in baseline) && op in Ops(fold, index, baseline, policy, items)
    ensures IsImport(op)
    ensures exists i ::
              0 <= i < |items| && items[i].key == op.key
              && OperationOf(Decide(fold, index, baseline, policy, items[i])) == [op]
  {
    var decisions := Decisions(fold, index, baseline, policy, items);
    OperationsCome(decisions, op);
    var j :| 0 <= j < |decisions| && OperationOf(decisions[j]) == [op];
    DecisionActsAtItem(fold, index, baseline, policy, items[j], op);
  }

  /** A parent that is there under another spelling is not created. */
  lemma MisspelledIsNotCreated(
    fold: Fold, index: map<Key, Key>, baseline: Tree, policy: Policy, target: Key, source: seq<SourceEntry>,
        parent: Key)
    requires Indexes(fold, index, baseline) && target.path != [] && |parent.path| < |target.path|
    requires FoldKey(fold, parent) in index
    ensures forall op :: op in Ops(fold, index, baseline, policy, Items(target, source)) ==> op.key != parent
  {
    var items := Items(target, source);
    forall op | op in Ops(fold, index, baseline, policy, items) ensures op.key != parent {
      OperationsAreImports(fold, index, baseline, policy, items, op);
      var i :| 0 <= i < |items| && items[i].key == op.key &&
          OperationOf(Decide(fold, index, baseline, policy, items[i])) == [op];
      ItemAt(target, source, i);
    }
  }

  lemma NewEntryIsCreated(fold: Fold, index: map<Key, Key>, baseline: Tree, policy: Policy, item: Item)
    requires Indexes(fold, index, baseline) && item.EntryItem? && item.key !in baseline
    requires !Decide(fold, index, baseline, policy, item).Refuse?
    ensures Decide(fold, index, baseline, policy, item).Create?
  {
  }

  lemma RootItem(target: Key, source: seq<SourceEntry>, r: nat) returns (i: nat)
    requires target.path != [] && r < |source| && source[r].relative == []
    ensures i < |Items(target, source)| && Items(target, source)[i] == EntryItem(target, source[r].node)
  {
    var mapped := Mapped(target, source);
    assert target.path + [] == target.path;
    assert mapped[r] == EntryItem(target, source[r].node);
    SortMembers(mapped, Shallower, mapped[r]);
    var n :| 0 <= n < |SortBy(mapped, Shallower)| && SortBy(mapped, Shallower)[n] == mapped[r];
    i := |target.path| - 1 + n;
  }

  /** The root of the source is created where it is not there. */
  lemma RootIsCreated(
    fold: Fold, index: map<Key, Key>, baseline: Tree, policy: Policy, target: Key, source: seq<SourceEntry>, r: nat)
    requires Indexes(fold, index, baseline) && target.path != [] && r < |source| && source[r].relative == []
    requires RejectionsOf(Decisions(fold, index, baseline, policy, Items(target, source))) == [] && target !in baseline
    ensures exists op :: op in Ops(fold, index, baseline, policy, Items(target, source)) && op.key == target
  {
    var i := RootItem(target, source, r);
    var items := Items(target, source);
    var decisions := Decisions(fold, index, baseline, policy, items);
    NoRejections(decisions, i);
    NewEntryIsCreated(fold, index, baseline, policy, items[i]);
    var op := decisions[i].operation;
    assert OperationOf(decisions[i]) == [op];
    OperationsCome(decisions, op);
    DecisionActsAtItem(fold, index, baseline, policy, items[i], op);
  }

  /** What is permitted after an import operation was permitted before it. */
  lemma PermittedBefore(t: Tree, op: Operation, other: Operation)
    requires IsImport(op) && IsImport(other) && ApplyOperation(t, op).Some? &&
             Permitted(ApplyOperation(t, op).value, other)
    requires other.key.path != []
    ensures Permitted(t, other)
  {
    var t1, k := ApplyOperation(t, op).value, other.key;
    forall i | 0 < i < |k.path| ensures OpenAt(t, Ancestor(k, i)) { assert OpenAt(t1, Ancestor(k, i)); }
    if |k.path| > 1 { assert Parent(k) == Ancestor(k, |k.path| - 1); }
  }

  lemma {:induction false} AppliedIsPermitted(t: Tree, ops: seq<Operation>, op: Operation)
    requires (forall o :: o in ops ==> IsImport(o)) && ApplyAll(t, ops).Some? && op in ops
    ensures Permitted(t, op)
    decreases |ops|
  {
    if op != ops[0] {
      assert op in ops[1..] && ops == [ops[0]] + ops[1..];
      AppliedIsPermitted(ApplyOperation(t, ops[0]).value, ops[1..], op);
      AppliedHasPath(ApplyOperation(t, ops[0]).value, ops[1..], op);
      PermittedBefore(t, ops[0], op);
    }
  }

  lemma {:induction false} AppliedHasPath(t: Tree, ops: seq<Operation>, op: Operation)
    requires ApplyAll(t, ops).Some? && op in ops
    ensures op.key.path != []
    decreases |ops|
  {
    if op != ops[0] {
      assert op in ops[1..] && ops == [ops[0]] + ops[1..];
      AppliedHasPath(ApplyOperation(t, ops[0]).value, ops[1..], op);
    }
  }

  /**
   A plan without rejections is carried out just when every parent of the target is portably free or there, as a
   directory, under the spelling of the request, the modes of the baseline permit each operation, and each operation
   sets a mode within 0777.
   */
  lemma CarriedOutExactlyWhen(
    fold: Fold, spelling: Spelling, spelled: Path -> string, index: map<Key, Key>, baseline: Tree, policy: Policy,
    target: Key, source: seq<SourceEntry>, r: nat)
    requires PrefixClosed(baseline) && Indexes(fold, index, baseline) && target.path != []
    requires SourceTree(fold, source) && r < |source| && source[r].relative == []
    requires AllSpelledBack(spelling, spelled, Ops(fold, index, baseline, policy, Items(target, source)))
    requires RejectionsOf(Decisions(fold, index, baseline, policy, Items(target, source))) == []
    ensures
      var ops := Ops(fold, index, baseline, policy, Items(target, source));
      (exists after :: CarriedOut(fold, spelling, spelled, baseline, ops, after)) <==>
      ParentsSpelled(fold, index, baseline, target) && AllPermitted(baseline, ops) && AllFit(ops)
  {
    var ops := Ops(fold, index, baseline, policy, Items(target, source));
    if ParentsSpelled(fold, index, baseline, target) && AllPermitted(baseline, ops) && AllFit(ops) {
      var after := ImportPlanIsCarriedOut(fold, spelling, spelled, index, baseline, policy, target, source);
    }
    if exists after :: CarriedOut(fold, spelling, spelled, baseline, ops, after) {
      AcceptedIffModesFit(fold, spelling, spelled, ops);
      AppliedMeansPermitted(fold, index, baseline, policy, target, source, r);
    }
  }

  lemma {:induction false} AppliedMeansPermitted(
    fold: Fold, index: map<Key, Key>, baseline: Tree, policy: Policy, target: Key, source: seq<SourceEntry>, r: nat)
    requires PrefixClosed(baseline) && Indexes(fold, index, baseline) && target.path != []
    requires r < |source| && source[r].relative == []
    requires RejectionsOf(Decisions(fold, index, baseline, policy, Items(target, source))) == []
    requires ApplyAll(baseline, Ops(fold, index, baseline, policy, Items(target, source))).Some?
    ensures ParentsSpelled(fold, index, baseline, target)
    ensures AllPermitted(baseline, Ops(fold, index, baseline, policy, Items(target, source)))
  {
    var ops := Ops(fold, index, baseline, policy, Items(target, source));
    forall op | op in ops ensures IsImport(op) {
      OperationsAreImports(fold, index, baseline, policy, Items(target, source), op);
    }
    forall op | op in ops ensures Permitted(baseline, op) { AppliedIsPermitted(baseline, ops, op); }
    forall i | 0 < i < |target.path| ensures ParentSpelled(fold, index, baseline, Ancestor(target, i)) {
      if !ParentSpelled(fold, index, baseline, Ancestor(target, i)) {
        MisspelledIsRefused(fold, index, baseline, policy, target, source, r, Ancestor(target, i));
      }
    }
  }

  /**
   A source directory of mode 02755 onto an empty side: the plan has no rejection and its operation would apply, but it
   is not accepted, because of the mode.
   */
  lemma SetgidDirectoryIsRefused(
    fold: Fold, spelling: Spelling, spelled: Path -> string, side: Side, name: string, policy: Policy)
    requires spelling(spelled([name])) == Some([name])
    ensures
      var items := Items(Key(side, [name]), [SourceEntry([], Directory(0x5ED))]);
      var ops := Ops(fold, map[], map[], policy, items);
      && RejectionsOf(Decisions(fold, map[], map[], policy, items)) == []
      && ops == [CreateDirectory(Key(side, [name]), 0x5ED)] && ApplyAll(map[], ops).Some?
      && Normalize(spelling, RawOf(ops[0], spelled)).Err? && !Accepted(fold, spelling, spelled, ops)
  {
    var target, node := Key(side, [name]), Directory(0x5ED);
    var items := Items(target, [SourceEntry([], node)]);
    OneItemOnly(target, node);
    var decisions := Decisions(fold, map[], map[], policy, items);
    assert decisions == [Create(CreateDirectory(target, 0x5ED))];
    assert decisions[..0] == [];
    assert RejectionsOf(decisions) == RejectionsOf(decisions[..0]) + [] == [];
    var ops := Ops(fold, map[], map[], policy, items);
    assert ops == OperationsOf(decisions[..0]) + [CreateDirectory(target, 0x5ED)];
    assert ops[1..] == [] && ApplyAll(map[], ops) == ApplyAll(ApplyOperation(map[], ops[0]).value, []);
    NormalOperation(spelling, spelled, ops[0]);
    AcceptedIffModesFit(fold, spelling, spelled, ops);
  }

  lemma OneItemOnly(target: Key, node: Node)
    requires |target.path| == 1
    ensures Items(target, [SourceEntry([], node)]) == [EntryItem(target, node)]
  {
    RootIsMapped(target, node);
    assert Parents(target) == [];
  }

  lemma RootIsMapped(target: Key, node: Node)
    ensures SortBy(Mapped(target, [SourceEntry([], node)]), Shallower) == [EntryItem(target, node)]
  {
    var mapped := Mapped(target, [SourceEntry([], node)]);
    assert target.path + [] == target.path;
    assert mapped == [EntryItem(target, node)];
    assert mapped[1..] == [] && SortBy([], Shallower) == [];
    assert SortBy(mapped, Shallower) == InsertBy(mapped[0], SortBy(mapped[1..], Shallower), Shallower) == mapped;
  }

  lemma {:induction false} MisspelledIsRefused(
    fold: Fold, index: map<Key, Key>, baseline: Tree, policy: Policy, target: Key, source: seq<SourceEntry>, r: nat,
        parent: Key)
    requires PrefixClosed(baseline) && Indexes(fold, index, baseline) && target.path != []
    requires r < |source| && source[r].relative == []
    requires RejectionsOf(Decisions(fold, index, baseline, policy, Items(target, source))) == []
    requires parent.path != [] && Under(parent, target) && parent != target &&
             !ParentSpelled(fold, index, baseline, parent)
    ensures ApplyAll(baseline, Ops(fold, index, baseline, policy, Items(target, source))).None?
  {
    var ops := Ops(fold, index, baseline, policy, Items(target, source));
    if target in baseline { AncestorsExist(baseline, parent, target); }
    assert target !in baseline;
    RootIsCreated(fold, index, baseline, policy, target, source, r);
    MisspelledIsNotCreated(fold, index, baseline, policy, target, source, parent);
    forall op | op in ops ensures IsImport(op) {
      OperationsAreImports(fold, index, baseline, policy, Items(target, source), op);
    }
    if ApplyAll(baseline, ops).Some? {
      ImportsAddTheirKeys(baseline, ops, target);
      ImportsAddTheirKeys(baseline, ops, parent);
      AncestorsExist(ApplyAll(baseline, ops).value, parent, target);
    }
  }

  /**
   Two spellings of one directory name: importing a file below the other one is planned without rejection, and
   refused when it is staged.
   */
  lemma OtherSpellingIsRefused(
    fold: Fold, side: Side, there: string, asked: string, name: string, mode: Mode, contents: Bytes, policy: Policy)
    requires fold(there) == fold(asked) && there != asked
    ensures
      var k, target := Key(side, [there]), Key(side, [asked, name]);
      var baseline, index := map[k := Directory(mode)], map[FoldKey(fold, k) := k];
      var items := Items(target, [SourceEntry([], File(contents, mode))]);
      && PrefixClosed(baseline) && Indexes(fold, index, baseline)
      && RejectionsOf(Decisions(fold, index, baseline, policy, items)) == []
      && ApplyAll(baseline, Ops(fold, index, baseline, policy, items)).None?
  {
    var k, parent, target := Key(side, [there]), Key(side, [asked]), Key(side, [asked, name]);
    var baseline, index := map[k := Directory(mode)], map[FoldKey(fold, k) := k];
    var source := [SourceEntry([], File(contents, mode))];
    var items := Items(target, source);
    TwoItems(target, File(contents, mode));
    assert FoldPath(fold, [there]) == FoldPath(fold, [asked]) == [fold(there)];
    assert |FoldPath(fold, [asked, name])| == 2;
    assert FoldKey(fold, parent) == FoldKey(fold, k) && FoldKey(fold, target) != FoldKey(fold, k);
    var decisions := Decisions(fold, index, baseline, policy, items);
    assert target.path[..1] == [asked] && items[0] == ParentItem(parent) && Existing(fold, index, parent) == Some(k);
    assert decisions[0] == Keep && decisions[1] == Create(CreateFile(target, contents, mode));
    assert RejectionsOf(decisions[..1]) == RejectionsOf(decisions[..1][..0]) + [] == [];
    assert decisions[..0] == decisions[..1][..0] == [];
    assert RejectionsOf(decisions) == RejectionsOf(decisions[..1]) + RejectionOf(decisions[1]);
    assert [asked] <= [asked, name];
    MisspelledIsRefused(fold, index, baseline, policy, target, source, 0, parent);
  }

  lemma TwoItems(target: Key, node: Node)
    requires |target.path| == 2
    ensures Items(target, [SourceEntry([], node)]) ==
            [ParentItem(target.(path := target.path[..1])), EntryItem(target, node)]
  {
    RootIsMapped(target, node);
    assert Parents(target) == [ParentItem(target.(path := target.path[..1]))];
  }
}
