/**
 Copying overlays into a build (`copy_content_overlays`), and what the analysis says of it.
 */
module OverlayBuild {
  import opened OverlayTree
  import opened Permissions
  import opened EditPlans
  import opened OverlayConflicts

  /** A directory listing in name order. */
  datatype Item = FileItem(contents: Bytes, mode: Mode) | DirectoryItem(mode: Mode, children: seq<Child>)

  datatype Child = Child(name: string, item: Item)

  /** What a build holds at a path; the mode of a directory is not copied. */
  datatype Built = BuiltFile(contents: Bytes, mode: Mode) | BuiltDirectory

  type Build = map<Path, Built>

  /** A name that no copy takes along. */
  const GITKEEP := ".gitkeep"

  predicate PackwizOwned(name: string) {
    name == "pack.toml" || name == "index.toml" || (|name| >= 8 && name[|name| - 8..] == ".pw.toml")
  }

  /** The destination of a copy, and the paths at which something was not copied. */
  datatype Destination = Destination(build: Build, issues: seq<Path>)

  predicate BuiltDirectoryAt(build: Build, path: Path) { path in build && build[path].BuiltDirectory? }

  predicate BuiltFileAt(build: Build, path: Path) { path in build && build[path].BuiltFile? }

  /** `_copy_overlay_directory`; the entries of a directory that may not be searched cannot be inspected. */
  function CopyChildren(children: seq<Child>, searchable: bool, relative: Path, d: Destination): Destination
    decreases children, 1
  {
    if children == [] then d
    else CopyChildren(children[1..], searchable, relative, CopyChild(children[0], searchable, relative, d))
  }

  /** A file of an earlier side keeps the mode it was copied with, and is opened for writing again. */
  function CopyChild(child: Child, searchable: bool, relative: Path, d: Destination): Destination
    decreases child, 0
  {
    var path := relative + [child.name];
    if !searchable || PackwizOwned(child.name) then d.(issues := d.issues + [path])
    else if child.name == GITKEEP then d
    else if !OwnerReads(child.item.mode) then d.(issues := d.issues + [path])
    else if child.item.DirectoryItem? then
      if BuiltFileAt(d.build, path) then d.(issues := d.issues + [path])
      else CopyChildren(child.item.children, OwnerSearches(child.item.mode), path,
          d.(build := d.build[path := BuiltDirectory]))
    else if BuiltDirectoryAt(d.build, path) then d.(issues := d.issues + [path])
    else if BuiltFileAt(d.build, path) && !OwnerWrites(d.build[path].mode) then d.(issues := d.issues + [path])
    else d.(build := d.build[path := BuiltFile(child.item.contents, child.item.mode)])
  }

  /** The copy in the form of the source: a walk that writes into the destination as it goes. */
  class OverlayDestination {
    var build: Build
    var issues: seq<Path>

    function Abstract(): Destination
      reads this
    {
      Destination(build, issues)
    }

    constructor ()
      ensures Abstract() == Destination(map[], [])
    {
      build, issues := map[], [];
    }

    method CopyOverlayDirectory(children: seq<Child>, searchable: bool, relative: Path)
      modifies this
      ensures Abstract() == CopyChildren(children, searchable, relative, old(Abstract()))
      decreases children
    {
      assert children[0..] == children;
      for i := 0 to |children|
        invariant CopyChildren(children, searchable, relative, old(Abstract())) ==
                  CopyChildren(children[i..], searchable, relative, Abstract())
      {
        assert children[i..][0] == children[i] && children[i..][1..] == children[i + 1..];
        var child := children[i];
        var path := relative + [child.name];
        if !searchable || PackwizOwned(child.name) {
          issues := issues + [path];
        } else if child.name != GITKEEP {
          if !OwnerReads(child.item.mode) {
            issues := issues + [path];
          } else if child.item.DirectoryItem? {
            if path in build && build[path].BuiltFile? {
              issues := issues + [path];
            } else {
              build := build[path := BuiltDirectory];
              CopyOverlayDirectory(child.item.children, OwnerSearches(child.item.mode), path);
            }
          } else if path in build && (build[path].BuiltDirectory? || !OwnerWrites(build[path].mode)) {
            issues := issues + [path];
          } else {
            build := build[path := BuiltFile(child.item.contents, child.item.mode)];
          }
        }
      }
    }

    /** `copy_content_overlays` for the sides of a build, one after the other. */
    method CopyContentOverlays(sides: seq<seq<Child>>)
      modifies this
      ensures Abstract() == CopySides(sides, old(Abstract()))
    {
      assert sides[0..] == sides;
      for i := 0 to |sides|
        invariant CopySides(sides, old(Abstract())) == CopySides(sides[i..], Abstract())
      {
        assert sides[i..][0] == sides[i] && sides[i..][1..] == sides[i + 1..];
        CopyOverlayDirectory(sides[i], true, []);
      }
    }
  }

  function CopySides(sides: seq<seq<Child>>, d: Destination): Destination {
    if sides == [] then d else CopySides(sides[1..], CopyChildren(sides[0], true, [], d))
  }

  // ----- The path map of a listing -----

  function Paths(children: seq<Child>, relative: Path): Build
    decreases children
  {
    if children == [] then map[] else ChildPaths(children[0], relative) + Paths(children[1..], relative)
  }

  function ChildPaths(child: Child, relative: Path): Build {
    var path := relative + [child.name];
    match child.item
    case FileItem(contents, mode) => map[path := BuiltFile(contents, mode)]
    case DirectoryItem(_, children) => map[path := BuiltDirectory] + Paths(children, path)
  }

  /** Names that may be in an overlay, each once in a directory, and everything open to the scan. */
  ghost predicate ValidChildren(children: seq<Child>) {
    && (forall i, j :: 0 <= i < j < |children| ==> children[i].name != children[j].name)
    && forall i :: 0 <= i < |children| ==> ValidChild(children[i])
  }

  ghost predicate ValidChild(child: Child) {
    && !PackwizOwned(child.name) && child.name != GITKEEP && OwnerReads(child.item.mode)
    && (child.item.DirectoryItem? ==>
          (child.item.children != [] ==> OwnerSearches(child.item.mode)) && ValidChildren(child.item.children))
  }

  /** No path is a file in one and a directory in the other, and a file that is there can be opened for writing. */
  ghost predicate Agree(a: Build, b: Build) {
    forall path :: path in a && path in b ==>
      a[path].BuiltFile? == b[path].BuiltFile? && (a[path].BuiltFile? ==> OwnerWrites(a[path].mode))
  }

  lemma {:induction false} PathsAreBelow(children: seq<Child>, relative: Path, path: Path)
    requires path in Paths(children, relative)
    ensures |path| > |relative| && path[..|relative|] == relative
    ensures exists i :: 0 <= i < |children| && children[i].name == path[|relative|]
    decreases children, 1
  {
    if path in ChildPaths(children[0], relative) {
      ChildPathsAreBelow(children[0], relative, path);
    } else {
      PathsAreBelow(children[1..], relative, path);
      var i :| 0 <= i < |children[1..]| && children[1..][i].name == path[|relative|];
      assert children[i + 1].name == path[|relative|];
    }
  }

  lemma {:induction false} ChildPathsAreBelow(child: Child, relative: Path, path: Path)
    requires path in ChildPaths(child, relative)
    ensures |path| > |relative| && path[..|relative|] == relative && path[|relative|] == child.name
    decreases child, 0
  {
    var at := relative + [child.name];
    if child.item.DirectoryItem? && path != at {
      PathsAreBelow(child.item.children, at, path);
      assert path[..|at|][..|relative|] == path[..|relative|];
      assert path[..|at|][|relative|] == path[|relative|];
    }
  }

  lemma SiblingsAreDisjoint(children: seq<Child>, relative: Path)
    requires ValidChildren(children) && children != []
    ensures ChildPaths(children[0], relative).Keys !! Paths(children[1..], relative).Keys
  {
    forall path | path in ChildPaths(children[0], relative) && path in Paths(children[1..], relative) ensures false {
      ChildPathsAreBelow(children[0], relative, path);
      PathsAreBelow(children[1..], relative, path);
    }
  }

  /** A copy that agrees with its destination reports nothing and overrides what was there, path by path. */
  lemma {:induction false} CopyIsUnion(children: seq<Child>, searchable: bool, relative: Path, d: Destination)
    requires ValidChildren(children) && (children != [] ==> searchable) && Agree(d.build, Paths(children, relative))
    ensures CopyChildren(children, searchable, relative, d) ==
            Destination(d.build + Paths(children, relative), d.issues)
    decreases children, 1
  {
    if children == [] {
      assert d.build + map[] == d.build;
    } else {
      var mine, others := ChildPaths(children[0], relative), Paths(children[1..], relative);
      SiblingsAreDisjoint(children, relative);
      assert ValidChild(children[0]) && ValidChildren(children[1..]);
      assert Agree(d.build, mine) && Agree(d.build + mine, others);
      ChildCopyIsUnion(children[0], searchable, relative, d);
      CopyIsUnion(children[1..], searchable, relative, Destination(d.build + mine, d.issues));
      assert (d.build + mine) + others == d.build + (mine + others);
    }
  }

  lemma {:induction false} ChildCopyIsUnion(child: Child, searchable: bool, relative: Path, d: Destination)
    requires ValidChild(child) && searchable && Agree(d.build, ChildPaths(child, relative))
    ensures CopyChild(child, searchable, relative, d) == Destination(d.build + ChildPaths(child, relative), d.issues)
    decreases child, 0
  {
    var path, mine := relative + [child.name], ChildPaths(child, relative);
    if child.item.DirectoryItem? {
      var inner := Paths(child.item.children, path);
      var made := d.(build := d.build[path := BuiltDirectory]);
      DirectoryPaths(child, relative);
      InnerAgrees(d.build, path, inner, mine);
      CopyIsUnion(child.item.children, OwnerSearches(child.item.mode), path, made);
      InnerUnion(d.build, path, inner, mine);
    } else {
      assert mine == map[path := BuiltFile(child.item.contents, child.item.mode)] && path in mine;
      assert d.build[path := BuiltFile(child.item.contents, child.item.mode)] == d.build + mine;
    }
  }

  lemma InnerUnion(build: Build, path: Path, inner: Build, all: Build)
    requires path !in inner && path in all && all[path] == BuiltDirectory
    requires forall p :: p != path ==> (p in all <==> p in inner) && (p in inner ==> all[p] == inner[p])
    ensures build[path := BuiltDirectory] + inner == build + all
  {
  }

  /** The names that packwiz keeps for itself. */
  lemma PackwizNames(name: string)
    ensures PackwizOwned(name) <==>
            name == "pack.toml" || name == "index.toml" || exists stem: string :: name == stem + ".pw.toml"
  {
    if |name| >= 8 && name[|name| - 8..] == ".pw.toml" { assert name == name[..|name| - 8] + ".pw.toml"; }
  }

  /** An entry cannot be copied to a path of the build. */
  ghost predicate Refused(child: Child, searchable: bool, path: Path, build: Build) {
    || !searchable || PackwizOwned(child.name)
    || (child.name != GITKEEP
        && (|| !OwnerReads(child.item.mode)
            || (path in build && build[path].BuiltFile? != child.item.FileItem?)
            || (path in build && build[path].BuiltFile? && !OwnerWrites(build[path].mode))))
  }

  /**
   For any entry, valid or not: if it cannot be copied its path is an issue and nothing else happens; a `.gitkeep` is
   left out; a file takes its place in the build, and a directory takes its place before what is in it.
   */
  lemma EntryIs(child: Child, searchable: bool, relative: Path, d: Destination)
    ensures
      var path, next := relative + [child.name], CopyChild(child, searchable, relative, d);
      if Refused(child, searchable, path, d.build) then next == Destination(d.build, d.issues + [path])
      else if child.name == GITKEEP then next == d
      else if child.item.FileItem? then
        next == Destination(d.build[path := BuiltFile(child.item.contents, child.item.mode)], d.issues)
      else
        next == CopyChildren(child.item.children, OwnerSearches(child.item.mode), path,
                             Destination(d.build[path := BuiltDirectory], d.issues))
  {
  }

  /** A copy never takes an issue back. */
  lemma {:induction false} IssuesGrow(children: seq<Child>, searchable: bool, relative: Path, d: Destination)
    ensures d.issues <= CopyChildren(children, searchable, relative, d).issues
    decreases children, 1
  {
    if children != [] {
      ChildIssuesGrow(children[0], searchable, relative, d);
      IssuesGrow(children[1..], searchable, relative, CopyChild(children[0], searchable, relative, d));
    }
  }

  lemma {:induction false} ChildIssuesGrow(child: Child, searchable: bool, relative: Path, d: Destination)
    ensures d.issues <= CopyChild(child, searchable, relative, d).issues
    decreases child, 0
  {
    if child.item.DirectoryItem? {
      IssuesGrow(child.item.children, OwnerSearches(child.item.mode), relative + [child.name],
          d.(build := d.build[relative + [child.name] := BuiltDirectory]));
    }
  }

  /** The copy reports an issue exactly where the kinds clash or a file that is there may not be written. */
  lemma {:induction false} ClashIsAnIssue(children: seq<Child>, searchable: bool, relative: Path, d: Destination)
    requires ValidChildren(children) && (children != [] ==> searchable)
    ensures Agree(d.build, Paths(children, relative)) <==>
            CopyChildren(children, searchable, relative, d).issues == d.issues
    decreases children, 1
  {
    if children != [] {
      var mine, others := ChildPaths(children[0], relative), Paths(children[1..], relative);
      SiblingsAreDisjoint(children, relative);
      assert ValidChild(children[0]) && ValidChildren(children[1..]);
      var next := CopyChild(children[0], searchable, relative, d);
      ChildClashIsAnIssue(children[0], searchable, relative, d);
      ChildIssuesGrow(children[0], searchable, relative, d);
      IssuesGrow(children[1..], searchable, relative, next);
      ClashIsAnIssue(children[1..], searchable, relative, next);
      if Agree(d.build, mine) {
        ChildCopyIsUnion(children[0], searchable, relative, d);
        assert Agree(d.build + mine, others) <==> Agree(d.build, others);
      }
    }
  }

  lemma FileClashIsAnIssue(child: Child, relative: Path, d: Destination)
    requires ValidChild(child) && child.item.FileItem?
    ensures Agree(d.build, ChildPaths(child, relative)) <==> CopyChild(child, true, relative, d).issues == d.issues
  {
    var path, mine := relative + [child.name], ChildPaths(child, relative);
    assert mine == map[path := BuiltFile(child.item.contents, child.item.mode)];
    assert Agree(d.build, mine) <==>
        (path in d.build ==> d.build[path].BuiltFile? && OwnerWrites(d.build[path].mode)) by {
      assert path in mine && mine[path].BuiltFile?;
    }
  }

  /** The paths of a directory are its own and, below it, those of its entries. */
  lemma DirectoryPaths(child: Child, relative: Path)
    requires child.item.DirectoryItem?
    ensures var path, inner := relative + [child.name], Paths(child.item.children, relative + [child.name]);
            path !in inner && path in ChildPaths(child, relative) && ChildPaths(child, relative)[path] == BuiltDirectory
            && forall p :: p != path ==> (p in ChildPaths(child, relative) <==> p in inner)
                                         && (p in inner ==> ChildPaths(child, relative)[p] == inner[p])
  {
    var path := relative + [child.name];
    forall p | p in Paths(child.item.children, path) ensures p != path { PathsAreBelow(child.item.children, path, p); }
  }

  lemma {:induction false} ChildClashIsAnIssue(child: Child, searchable: bool, relative: Path, d: Destination)
    requires ValidChild(child) && searchable
    ensures Agree(d.build, ChildPaths(child, relative)) <==>
            CopyChild(child, searchable, relative, d).issues == d.issues
    decreases child, 0
  {
    if child.item.FileItem? {
      FileClashIsAnIssue(child, relative, d);
    } else {
      var path := relative + [child.name];
      DirectoryPaths(child, relative);
      if BuiltFileAt(d.build, path) {
        assert !Agree(d.build, ChildPaths(child, relative));
      } else {
        var made := d.(build := d.build[path := BuiltDirectory]);
        ClashIsAnIssue(child.item.children, OwnerSearches(child.item.mode), path, made);
        InnerAgrees(d.build, path, Paths(child.item.children, path), ChildPaths(child, relative));
      }
    }
  }

  lemma InnerAgrees(build: Build, path: Path, inner: Build, all: Build)
    requires path !in inner && path in all && all[path] == BuiltDirectory && !BuiltFileAt(build, path)
    requires forall p :: p != path ==> (p in all <==> p in inner) && (p in inner ==> all[p] == inner[p])
    ensures Agree(build[path := BuiltDirectory], inner) <==> Agree(build, all)
  {
    var made := build[path := BuiltDirectory];
    assert forall p :: p in inner ==>
        p in all && all[p] == inner[p] && (p in made <==> p in build) && (p in made ==> made[p] == build[p]);
  }

  // ----- The analysis predicts the build -----

  ghost predicate SameItem(node: Node, built: Built) {
    node.File? == built.BuiltFile?
  }

  /** A snapshot lists a side when it has an entry of the right kind for each of its paths. */
  ghost predicate Lists(entries: seq<SnapshotEntry>, side: Side, children: seq<Child>) {
    forall path :: path in Paths(children, []) ==>
      exists e :: e in entries && e.key == Key(side, path) && SameItem(e.node, Paths(children, [])[path])
  }

  /** No file of the second overlay lies on a file of the first that its owner may not write. */
  ghost predicate NothingProtected(first: Build, second: Build) {
    forall path :: BuiltFileAt(first, path) && BuiltFileAt(second, path) ==> OwnerWrites(first[path].mode)
  }

  lemma CommonIsCopied(common: seq<Child>, own: seq<Child>)
    requires ValidChildren(common)
    ensures CopySides([common, own], Destination(map[], [])) ==
            CopyChildren(own, true, [], Destination(Paths(common, []), []))
  {
    var empty, first := Destination(map[], []), Paths(common, []);
    CopyIsUnion(common, true, [], empty);
    assert empty.build + first == first;
    assert [common, own][1..] == [own] && [own][1..] == [];
    assert CopySides([own], Destination(first, [])) ==
        CopySides([], CopyChildren(own, true, [], Destination(first, [])));
  }

  /**
   When the analysis reports no error, the build of a side gets every file and directory of the common
   overlay and of its own, with its own on top, and no issue, exactly if no file of its own lies on a
   common file that the owner may not write; otherwise there is an issue.
   */
  lemma AnalysisPredictsBuild(
    fold: Fold, entries: seq<SnapshotEntry>, groups: Groups, common: seq<Child>, side: Side, own: seq<Child>)
    requires GroupsOf(fold, entries, groups) && ValidChildren(common) && ValidChildren(own)
    requires Lists(entries, CommonSide, common) && Lists(entries, side, own)
    requires forall kind, path :: IsError(kind) ==> !Reported(groups, kind, path)
    ensures CopySides([common, own], Destination(map[], [])) == Destination(Paths(common, []) + Paths(own, []), [])
            <==> NothingProtected(Paths(common, []), Paths(own, []))
    ensures CopySides([common, own], Destination(map[], [])).issues == [] <==>
            NothingProtected(Paths(common, []), Paths(own, []))
  {
    NoErrorsMeansConsistent(fold, entries, groups);
    var first, second := Paths(common, []), Paths(own, []);
    forall path | path in first && path in second ensures first[path].BuiltFile? == second[path].BuiltFile? {
      var a :| a in entries && a.key == Key(CommonSide, path) && SameItem(a.node, first[path]);
      var b :| b in entries && b.key == Key(side, path) && SameItem(b.node, second[path]);
      assert SameKind(a.node, b.node);
    }
    assert Agree(first, second) <==> NothingProtected(first, second);
    CommonIsCopied(common, own);
    ClashIsAnIssue(own, true, [], Destination(first, []));
    if Agree(first, second) { CopyIsUnion(own, true, [], Destination(first, [])); }
  }

  /**
   A common file of mode 0444 under a file of the side: the analysis has no error, the build has an issue and keeps
   the first.
   */
  lemma ProtectedFileIsAnIssue(fold: Fold, name: string, before: Bytes, after: Bytes)
    requires !PackwizOwned(name) && name != GITKEEP
    ensures
      var entries := [SnapshotEntry(Key(CommonSide, [name]), File(before, 0x124)),
          SnapshotEntry(Key(Client, [name]), File(after, 0x1A4))];
      var common, own := [Child(name, FileItem(before, 0x124))], [Child(name, FileItem(after, 0x1A4))];
      && Consistent(fold, entries) && Lists(entries, CommonSide, common) && Lists(entries, Client, own)
      && CopySides([common, own], Destination(map[], [])) ==
          Destination(map[[name] := BuiltFile(before, 0x124)], [[name]])
  {
    var common, own := Child(name, FileItem(before, 0x124)), Child(name, FileItem(after, 0x1A4));
    OneFile(name, before, 0x124);
    OneFile(name, after, 0x1A4);
    assert [] + [name] == [name];
    assert OwnerReads(0x124) && OwnerReads(0x1A4) && !OwnerWrites(0x124);
    assert ValidChildren([common]);
    CommonIsCopied([common], [own]);
    var first := Destination(map[[name] := BuiltFile(before, 0x124)], []);
    assert CopyChild(own, true, [], first) == first.(issues := [[name]]);
    assert CopyChildren([own], true, [], first) == CopyChildren([], true, [], CopyChild(own, true, [], first));
  }

  lemma OneFile(name: string, contents: Bytes, mode: Mode)
    ensures Paths([Child(name, FileItem(contents, mode))], []) == map[[name] := BuiltFile(contents, mode)]
  {
    var child := Child(name, FileItem(contents, mode));
    assert [child][1..] == [] && [] + [name] == [name];
    assert ChildPaths(child, []) == map[[name] := BuiltFile(contents, mode)];
    assert Paths([child], []) == ChildPaths(child, []) + Paths([], []);
  }
}
