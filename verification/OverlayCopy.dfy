/**
 The copy of the Content tree that every edit plan starts from (`copy_content_tree`).  A directory is made with its
 final mode before it is filled, so that one that its owner may not write cannot be copied with something in it.
 */
module OverlayCopy {
  import opened Common
  import opened OverlayTree
  import opened Permissions
  import opened OverlayBuild

  /**
   `_copy_content_directory_strict`, from a directory of the given mode into one that was made with the same mode.
   Whatever is refused raises, and ends the whole copy.
   */
  function CopyStrict(children: seq<Child>, mode: Mode): Option<seq<Child>>
    decreases children
  {
    if children == [] then Some([])
    else
      var child, rest := children[0], children[1..];
      if !OwnerSearches(mode) then None
      else if child.name == GITKEEP then CopyStrict(rest, mode)
      else if PackwizOwned(child.name) || !OwnerReads(child.item.mode) || !OwnerWrites(mode) then None
      else
        var item := CopyItem(child.item);
        if item.None? then None
        else
          var others := CopyStrict(rest, mode);
          if others.None? then None else Some([Child(child.name, item.value)] + others.value)
  }

  function CopyItem(item: Item): Option<Item> {
    match item
    case FileItem(_, _) => Some(item)
    case DirectoryItem(mode, children) =>
      var copied := CopyStrict(children, mode);
      if copied.None? then None else Some(DirectoryItem(mode, copied.value))
  }

  /** The copy of one side; a side that is missing is made. */
  function CopySide(side: Option<Item>): Option<Item> {
    if side.None? then Some(DirectoryItem(0x1ED, []))
    else if side.value.FileItem? || !OwnerReads(side.value.mode) then None
    else CopyItem(side.value)
  }

  method CopyContentDirectoryStrict(children: seq<Child>, mode: Mode) returns (copied: Option<seq<Child>>)
    ensures copied == CopyStrict(children, mode)
    decreases children
  {
    var output: seq<Child> := [];
    assert children[0..] == children;
    NothingBehind(CopyStrict(children, mode));
    for i := 0 to |children|
      invariant CopyStrict(children, mode) == Behind(output, CopyStrict(children[i..], mode))
    {
      var child := children[i];
      assert children[i..][0] == child && children[i..][1..] == children[i + 1..];
      if !OwnerSearches(mode) { return None; }
      if child.name != GITKEEP {
        if PackwizOwned(child.name) || !OwnerReads(child.item.mode) || !OwnerWrites(mode) { return None; }
        var item := child.item;
        if item.DirectoryItem? {
          var inner := CopyContentDirectoryStrict(item.children, item.mode);
          if inner.None? { return None; }
          item := DirectoryItem(item.mode, inner.value);
        }
        BehindOneMore(output, Child(child.name, item), CopyStrict(children[i + 1..], mode));
        output := output + [Child(child.name, item)];
      }
    }
    assert output + [] == output;
    copied := Some(output);
  }

  /** What is copied already, and the copy of the rest. */
  function Behind(output: seq<Child>, rest: Option<seq<Child>>): Option<seq<Child>> {
    if rest.None? then None else Some(output + rest.value)
  }

  lemma NothingBehind(rest: Option<seq<Child>>)
    ensures Behind([], rest) == rest
  {
    if rest.Some? { assert [] + rest.value == rest.value; }
  }

  lemma BehindOneMore(output: seq<Child>, child: Child, rest: Option<seq<Child>>)
    ensures Behind(output + [child], rest) == Behind(output, Behind([child], rest))
  {
    if rest.Some? { assert output + ([child] + rest.value) == output + [child] + rest.value; }
  }

  // ----- When the copy succeeds -----

  /** Nothing that the copy leaves out. */
  predicate NoGitkeep(children: seq<Child>) {
    forall i :: 0 <= i < |children| ==>
      children[i].name != GITKEEP && (children[i].item.DirectoryItem? ==> NoGitkeep(children[i].item.children))
  }

  /** Every directory with something in it is open to its owner, everything is readable, and no name is packwiz's. */
  predicate Copyable(children: seq<Child>, mode: Mode) {
    forall i :: 0 <= i < |children| ==>
        OwnerSearches(mode) && (children[i].name != GITKEEP ==> CopyableChild(children[i], mode))
  }

  predicate CopyableChild(child: Child, mode: Mode) {
    && OwnerWrites(mode) && !PackwizOwned(child.name) && OwnerReads(child.item.mode)
    && (child.item.DirectoryItem? ==> Copyable(child.item.children, child.item.mode))
  }

  lemma CopyableStep(children: seq<Child>, mode: Mode)
    requires children != []
    ensures Copyable(children, mode) <==>
              && OwnerSearches(mode) && (children[0].name != GITKEEP ==> CopyableChild(children[0], mode))
              && Copyable(children[1..], mode)
  {
    assert children == [children[0]] + children[1..];
    assert forall i :: 0 < i < |children| ==> children[i] == children[1..][i - 1];
  }

  lemma NoGitkeepStep(children: seq<Child>)
    requires children != []
    ensures NoGitkeep(children) <==>
              && children[0].name != GITKEEP
              && (children[0].item.DirectoryItem? ==> NoGitkeep(children[0].item.children)) && NoGitkeep(children[1..])
  {
    assert children == [children[0]] + children[1..];
    assert forall i :: 0 < i < |children| ==> children[i] == children[1..][i - 1];
  }

  /** The entries without what the copy leaves out, at any depth. */
  function WithoutGitkeep(children: seq<Child>): seq<Child> {
    if children == [] then []
    else
      var child, rest := children[0], WithoutGitkeep(children[1..]);
      if child.name == GITKEEP then rest
      else if child.item.FileItem? then [child] + rest
      else [child.(item := DirectoryItem(child.item.mode, WithoutGitkeep(child.item.children)))] + rest
  }

  /** The copy succeeds exactly for what is copyable, and is then the original, but for `.gitkeep`. */
  lemma {:induction false} CopyIsExact(children: seq<Child>, mode: Mode)
    ensures CopyStrict(children, mode).Some? <==> Copyable(children, mode)
    ensures Copyable(children, mode) ==> CopyStrict(children, mode) == Some(WithoutGitkeep(children))
    ensures NoGitkeep(children) ==> WithoutGitkeep(children) == children
    decreases children
  {
    if children != [] {
      var child := children[0];
      CopyableStep(children, mode);
      NoGitkeepStep(children);
      CopyIsExact(children[1..], mode);
      if child.item.DirectoryItem? { CopyIsExact(child.item.children, child.item.mode); }
      assert children == [child] + children[1..];
    }
  }

  /** A side that is missing is made, empty and open to all; one that is there is a directory that can be listed. */
  lemma SideIs(side: Option<Item>)
    ensures side.None? ==> CopySide(side) == Some(DirectoryItem(0x1ED, []))
    ensures side.Some? ==>
              (CopySide(side).Some? <==>
                && side.value.DirectoryItem? && OwnerReads(side.value.mode)
                && Copyable(side.value.children, side.value.mode))
    ensures side.Some? && CopySide(side).Some? ==>
              CopySide(side).value == DirectoryItem(side.value.mode, WithoutGitkeep(side.value.children))
  {
    if side.Some? && side.value.DirectoryItem? { CopyIsExact(side.value.children, side.value.mode); }
  }

  /** Every directory below with something in it can be written by its owner. */
  predicate WritableBelow(children: seq<Child>, mode: Mode) {
    forall i :: 0 <= i < |children| ==>
      OwnerWrites(mode)
      && (children[i].item.DirectoryItem? ==> WritableBelow(children[i].item.children, children[i].item.mode))
  }

  lemma WritableStep(children: seq<Child>, mode: Mode)
    requires children != []
    ensures WritableBelow(children, mode) <==>
              && OwnerWrites(mode)
              && (children[0].item.DirectoryItem? ==> WritableBelow(children[0].item.children, children[0].item.mode))
              && WritableBelow(children[1..], mode)
  {
    assert children == [children[0]] + children[1..];
    assert forall i :: 0 < i < |children| ==> children[i] == children[1..][i - 1];
  }

  /** For a valid overlay the one thing that can go wrong is a directory that may not be written. */
  lemma {:induction false} ValidIsCopyable(children: seq<Child>, mode: Mode)
    requires ValidChildren(children) && (children != [] ==> OwnerSearches(mode))
    ensures NoGitkeep(children) && (Copyable(children, mode) <==> WritableBelow(children, mode))
    decreases children
  {
    if children != [] {
      CopyableStep(children, mode);
      NoGitkeepStep(children);
      WritableStep(children, mode);
      assert ValidChild(children[0]) && ValidChildren(children[1..]);
      ValidIsCopyable(children[1..], mode);
      if children[0].item.DirectoryItem? { ValidIsCopyable(children[0].item.children, children[0].item.mode); }
    }
  }

  /**
   An edit plan on a valid overlay gets its copy, and it equals the baseline, exactly if every directory with something
   in it can be written by its owner.
   */
  lemma CopyEqualsBaselineExactlyWhen(side: Item)
    requires side.DirectoryItem? && OwnerReads(side.mode) && ValidChildren(side.children)
    requires side.children != [] ==> OwnerSearches(side.mode)
    ensures CopySide(Some(side)) == Some(side) <==> WritableBelow(side.children, side.mode)
    ensures CopySide(Some(side)).None? <==> !WritableBelow(side.children, side.mode)
  {
    ValidIsCopyable(side.children, side.mode);
    CopyIsExact(side.children, side.mode);
  }

  /** A directory of mode 0555 with a file in it, as an import may make it: valid, and never copied again. */
  lemma ReadOnlyDirectoryIsNotCopied(name: string, file: string, contents: Bytes)
    requires !PackwizOwned(name) && name != GITKEEP && !PackwizOwned(file) && file != GITKEEP
    ensures
      var side := DirectoryItem(0x1ED, [Child(name, DirectoryItem(0x16D, [Child(file, FileItem(contents, 0x1A4))]))]);
      ValidChildren(side.children) && CopySide(Some(side)).None?
  {
    var inner := [Child(file, FileItem(contents, 0x1A4))];
    var children := [Child(name, DirectoryItem(0x16D, inner))];
    assert OwnerReads(0x16D) && OwnerSearches(0x16D) && !OwnerWrites(0x16D) && OwnerReads(0x1A4);
    assert ValidChild(inner[0]) && ValidChildren(inner) && ValidChild(children[0]);
    assert OwnerReads(0x1ED) && OwnerSearches(0x1ED);
    WritableStep(inner, 0x16D);
    WritableStep(children, 0x1ED);
    CopyEqualsBaselineExactlyWhen(DirectoryItem(0x1ED, children));
  }
}
