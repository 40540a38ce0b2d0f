/** Which files the walk finds: exactly the visible ones, each once. */
module Walk {
  import opened Wrappers
  import opened Strings
  import opened Paths
  import opened FindFiles

  lemma RenderEndsInName(path: Path) returns (before: string)
    requires path != []
    ensures Render(path) == before + ['/'] + path[|path| - 1]
  {
    var n := |path| - 1;
    if n == 0 {
      before := "";
    } else {
      before := Render(path[..n]);
      TakeSnoc(path, n);
      TakeAll(path);
      JoinSnoc(path[..n], path[n], '/');
      assert "/" + (Join(path[..n], '/') + ['/'] + path[n]) == "/" + Join(path[..n], '/') + ['/'] + path[n];
    }
  }

  /** The tests on the printed path are tests on its last name. */
  lemma BlockedByName(path: Path)
    requires path != [] && IsPath(path)
    ensures Blocked(path) <==> EndsWith(path[|path| - 1], "node_modules") || path[|path| - 1] == ".build"
  {
    var before := RenderEndsInName(path);
    var last := path[|path| - 1];
    assert IsName(last);
    EndsWithLast(before, last, '/', "node_modules");
    EndsWithWhole(before, last, '/', ".build");
    assert ['/'] + ".build" == "/.build";
  }

  function EntryNode(entries: seq<Entry>, name: string): Option<FsNode> {
    if entries == [] then None
    else if entries[|entries| - 1].name == name then Some(entries[|entries| - 1].node)
    else EntryNode(entries[..|entries| - 1], name)
  }

  /** What lies at a relative path. */
  function Lookup(node: FsNode, rel: seq<string>): Option<FsNode>
    decreases |rel|
  {
    if rel == [] then Some(node)
    else if !node.DirNode? then None
    else
      match EntryNode(node.entries, rel[0])
      case None => None
      case Some(child) => Lookup(child, rel[1..])
  }

  /**
   There is a file at `rel`, at most `levelsDeep` levels down, whose name passes the
   filter; no name on the way is ignored, and no path on the way is blocked.
   */
  ghost predicate Visible(node: FsNode, path: Path, ignore: seq<string>, filter: seq<string>, levelsDeep: int,
                          rel: seq<string>)
  {
    && Lookup(node, rel) == Some(FileNode)
    && |rel| <= levelsDeep
    && (forall i :: 0 <= i < |rel| ==> rel[i] !in ignore)
    && (forall k :: 0 <= k <= |rel| ==> !Blocked(path + rel[..k]))
    && Matches(filter, path + rel)
  }

  lemma {:induction false} EntryNodeAt(entries: seq<Entry>, i: nat)
    requires i < |entries|
    requires forall j, k :: 0 <= j < k < |entries| ==> entries[j].name != entries[k].name
    ensures EntryNode(entries, entries[i].name) == Some(entries[i].node)
    decreases |entries|
  {
    if i < |entries| - 1 {
      EntryNodeAt(entries[..|entries| - 1], i);
    }
  }

  lemma {:induction false} EntryNodeSome(entries: seq<Entry>, name: string) returns (i: nat)
    requires EntryNode(entries, name).Some?
    ensures i < |entries| && entries[i].name == name && EntryNode(entries, name) == Some(entries[i].node)
  {
    var n := |entries| - 1;
    if entries[n].name == name {
      i := n;
    } else {
      i := EntryNodeSome(entries[..n], name);
    }
  }

  /** One step down a visible path. */
  lemma VisibleBelow(node: FsNode, path: Path, ignore: seq<string>, filter: seq<string>, levelsDeep: int,
                     rel: seq<string>, i: nat)
    requires WellFormed(node) && node.DirNode? && i < |node.entries| && !Blocked(path)
    requires rel != [] && rel[0] == node.entries[i].name
    ensures Visible(node, path, ignore, filter, levelsDeep, rel)
        <==> rel[0] !in ignore
             && Visible(node.entries[i].node, path + [rel[0]], ignore, filter, levelsDeep - 1, rel[1..])
  {
    EntryNodeAt(node.entries, i);
    var below := path + [rel[0]];
    assert path + rel == below + rel[1..];
    forall k | 0 <= k <= |rel[1..]|
      ensures below + rel[1..][..k] == path + rel[..k + 1]
    {
      assert [rel[0]] + rel[1..][..k] == rel[..k + 1];
    }
    assert path + rel[..0] == path;
    if rel[0] !in ignore && Visible(node.entries[i].node, below, ignore, filter, levelsDeep - 1, rel[1..]) {
      forall j | 0 <= j < |rel|
        ensures rel[j] !in ignore
      {
        if j > 0 { assert rel[1..][j - 1] == rel[j]; }
      }
      forall k | 0 <= k <= |rel|
        ensures !Blocked(path + rel[..k])
      {
        if k > 0 { assert below + rel[1..][..k - 1] == path + rel[..k]; }
      }
    }
  }

  lemma {:induction false} InDirectoryMembers(entries: seq<Entry>, path: Path, ignore: seq<string>,
                                              filter: seq<string>, levelsDeep: int, f: Path)
    ensures f in AllInDirectory(entries, path, ignore, filter, levelsDeep)
        <==> exists i :: 0 <= i < |entries| && f in AllInEntry(entries[i], path, ignore, filter, levelsDeep)
    decreases |entries|
  {
    if entries != [] {
      var n := |entries| - 1;
      var init := entries[..n];
      InDirectoryMembers(init, path, ignore, filter, levelsDeep, f);
      if exists i :: 0 <= i < |entries| && f in AllInEntry(entries[i], path, ignore, filter, levelsDeep) {
        var i :| 0 <= i < |entries| && f in AllInEntry(entries[i], path, ignore, filter, levelsDeep);
        if i < n { assert init[i] == entries[i]; }
      }
      if exists i :: 0 <= i < |init| && f in AllInEntry(init[i], path, ignore, filter, levelsDeep) {
        var i :| 0 <= i < |init| && f in AllInEntry(init[i], path, ignore, filter, levelsDeep);
        assert entries[i] == init[i];
      }
    }
  }

  /** The walk finds exactly the visible files. */
  lemma {:induction false} FindsExactlyVisible(node: FsNode, path: Path, ignore: seq<string>, filter: seq<string>,
                                               levelsDeep: int, f: Path)
    requires WellFormed(node)
    ensures f in AllFound(node, path, ignore, filter, levelsDeep)
        <==> path <= f && Visible(node, path, ignore, filter, levelsDeep, f[|path|..])
    decreases node
  {
    assert path + [] == path;
    if path <= f {
      assert f == path + f[|path|..];
      assert path + f[|path|..][..0] == path;
    }
    if !Blocked(path) && levelsDeep >= 0 && node.DirNode? {
      InDirectoryMembers(node.entries, path, ignore, filter, levelsDeep - 1, f);
      forall i | 0 <= i < |node.entries|
        ensures f in AllInEntry(node.entries[i], path, ignore, filter, levelsDeep - 1)
            <==> EntryShows(node, path, ignore, filter, levelsDeep, f, i)
      {
        var e := node.entries[i];
        FindsExactlyVisible(e.node, path + [e.name], ignore, filter, levelsDeep - 1, f);
        EntryShowsStep(node, path, ignore, filter, levelsDeep, f, i);
      }
      SomeEntryShows(node, path, ignore, filter, levelsDeep, f);
    }
  }

  /** `f` lies below entry `i`, and is visible from `path`. */
  ghost predicate EntryShows(node: FsNode, path: Path, ignore: seq<string>, filter: seq<string>, levelsDeep: int,
                             f: Path, i: nat)
    requires node.DirNode? && i < |node.entries|
  {
    path + [node.entries[i].name] <= f && Visible(node, path, ignore, filter, levelsDeep, f[|path|..])
  }

  lemma EntryShowsStep(node: FsNode, path: Path, ignore: seq<string>, filter: seq<string>, levelsDeep: int, f: Path,
                       i: nat)
    requires WellFormed(node) && node.DirNode? && i < |node.entries| && !Blocked(path)
    ensures EntryShows(node, path, ignore, filter, levelsDeep, f, i)
        <==> var e := node.entries[i];
             && e.name !in ignore && path + [e.name] <= f
             && Visible(e.node, path + [e.name], ignore, filter, levelsDeep - 1, f[|path + [e.name]|..])
  {
    var e := node.entries[i];
    if path + [e.name] <= f {
      var rel := f[|path|..];
      assert f[|path + [e.name]|..] == rel[1..] && rel[0] == (path + [e.name])[|path|] == e.name;
      VisibleBelow(node, path, ignore, filter, levelsDeep, rel, i);
    }
  }

  lemma SomeEntryShows(node: FsNode, path: Path, ignore: seq<string>, filter: seq<string>, levelsDeep: int, f: Path)
    requires WellFormed(node) && node.DirNode? && !Blocked(path)
    ensures path <= f && Visible(node, path, ignore, filter, levelsDeep, f[|path|..])
        <==> exists i :: 0 <= i < |node.entries| && EntryShows(node, path, ignore, filter, levelsDeep, f, i)
  {
    if path <= f && Visible(node, path, ignore, filter, levelsDeep, f[|path|..]) {
      var rel := f[|path|..];
      var i := EntryNodeSome(node.entries, rel[0]);
      assert f == path + rel;
      assert path + [rel[0]] <= f;
      assert EntryShows(node, path, ignore, filter, levelsDeep, f, i);
    }
    if exists i :: 0 <= i < |node.entries| && EntryShows(node, path, ignore, filter, levelsDeep, f, i) {
      var i :| 0 <= i < |node.entries| && EntryShows(node, path, ignore, filter, levelsDeep, f, i);
      assert path <= path + [node.entries[i].name] <= f;
    }
  }

  // ----- which files the walk sees, by names alone -----

  /** No folder of this name is looked into, and no file of this name is found. */
  ghost predicate IsShut(name: string) {
    name == ".build" || exists before :: name == before + "node_modules"
  }

  lemma BlockedIsShut(path: Path)
    requires IsPath(path)
    ensures Blocked(path) <==> path != [] && IsShut(path[|path| - 1])
  {
    if path == [] {
      assert Render(path) == "/";
    } else {
      BlockedByName(path);
      EndsWithIs(path[|path| - 1], "node_modules");
    }
  }

  /** The name a path ends in, as path.basename gives it. */
  ghost function LastName(path: Path): string {
    if path == [] then "" else path[|path| - 1]
  }

  /** No name on the way is one the caller ignores, a default folder, or shut. */
  ghost predicate NamesAllowed(names: seq<string>, rel: seq<string>) {
    forall i :: 0 <= i < |rel| ==> rel[i] !in names && rel[i] != "node_modules" && !IsShut(rel[i])
  }

  /**
   A file lies at `rel`, at most `levels` down; its name passes the filter, no name on the way
   is one the caller ignores, and no name on the way, the last of `path` included, is shut.
   */
  ghost predicate IsSeen(node: FsNode, path: Path, names: seq<string>, filter: seq<string>, levels: int,
                         rel: seq<string>)
  {
    && Lookup(node, rel) == Some(FileNode)
    && |rel| <= levels
    && (path != [] ==> !IsShut(path[|path| - 1]))
    && NamesAllowed(names, rel)
    && (|filter| == 0 || LastName(path + rel) in filter)
  }

  lemma {:induction false} LookupNames(node: FsNode, rel: seq<string>)
    requires WellFormed(node) && Lookup(node, rel).Some?
    ensures IsPath(rel)
    decreases |rel|
  {
    if rel != [] {
      var i := EntryNodeSome(node.entries, rel[0]);
      assert IsName(node.entries[i].name);
      LookupNames(node.entries[i].node, rel[1..]);
      assert forall j :: 0 < j < |rel| ==> rel[j] == rel[1..][j - 1];
    }
  }

  lemma NothingBlocked(path: Path, rel: seq<string>)
    requires IsPath(path) && IsPath(rel)
    ensures (forall k :: 0 <= k <= |rel| ==> !Blocked(path + rel[..k]))
        <==> (path != [] ==> !IsShut(path[|path| - 1])) && forall i :: 0 <= i < |rel| ==> !IsShut(rel[i])
  {
    forall k | 0 <= k <= |rel|
      ensures Blocked(path + rel[..k])
          <==> if k == 0 then path != [] && IsShut(path[|path| - 1]) else IsShut(rel[k - 1])
    {
      assert forall i :: 0 <= i < |rel[..k]| ==> IsName(rel[i]);
      assert k == 0 ==> path + rel[..k] == path;
      BlockedIsShut(path + rel[..k]);
    }
    if forall k :: 0 <= k <= |rel| ==> !Blocked(path + rel[..k]) {
      assert !Blocked(path + rel[..0]);
      forall i | 0 <= i < |rel|
        ensures !IsShut(rel[i])
      {
        assert !Blocked(path + rel[..i + 1]);
      }
    }
  }

  lemma MatchesLastName(filter: seq<string>, path: Path)
    ensures Matches(filter, path) <==> |filter| == 0 || LastName(path) in filter
  {
    if path == [] {
      MatchesByName(filter, [], "");
    } else {
      MatchesByName(filter, path[..|path| - 1], path[|path| - 1]);
      TakeSnoc(path, |path| - 1);
      TakeAll(path);
    }
  }

  lemma NamesAllowedIs(names: seq<string>, rel: seq<string>)
    ensures NamesAllowed(names, rel)
        <==> (forall i :: 0 <= i < |rel| ==> rel[i] !in WithDefaults(names))
             && forall i :: 0 <= i < |rel| ==> !IsShut(rel[i])
  {
    WithDefaultsIs(names);
  }

  lemma SeenIsVisible(node: FsNode, path: Path, names: seq<string>, filter: seq<string>, levels: int,
                      rel: seq<string>)
    requires WellFormed(node) && IsPath(path)
    ensures IsSeen(node, path, names, filter, levels, rel)
        <==> Visible(node, path, WithDefaults(names), filter, levels, rel)
  {
    if Lookup(node, rel).Some? {
      LookupNames(node, rel);
      NothingBlocked(path, rel);
      NamesAllowedIs(names, rel);
      MatchesLastName(filter, path + rel);
    }
  }

  /** What the walk finds with the default folders added to the caller's names. */
  lemma FindsExactlySeen(node: FsNode, path: Path, names: seq<string>, filter: seq<string>, levels: int, f: Path)
    requires WellFormed(node) && IsPath(path)
    ensures f in AllFound(node, path, WithDefaults(names), filter, levels)
        <==> path <= f && IsSeen(node, path, names, filter, levels, f[|path|..])
  {
    FindsExactlyVisible(node, path, WithDefaults(names), filter, levels, f);
    if path <= f {
      SeenIsVisible(node, path, names, filter, levels, f[|path|..]);
    }
  }

  // ----- each once -----

  ghost predicate AllDifferent(files: seq<Path>) {
    forall i, j :: 0 <= i < j < |files| ==> files[i] != files[j]
  }

  lemma DifferentConcat(a: seq<Path>, b: seq<Path>)
    requires AllDifferent(a) && AllDifferent(b) && forall f :: f in a ==> f !in b
    ensures AllDifferent(a + b)
  {
    forall i, j | 0 <= i < j < |a + b|
      ensures (a + b)[i] != (a + b)[j]
    {
      if i < |a| <= j {
        assert a[i] in a && b[j - |a|] in b;
      }
    }
  }

  /** The files found in an entry lie below its path. */
  lemma EntryFilesBelow(e: Entry, path: Path, ignore: seq<string>, filter: seq<string>, levelsDeep: int, f: Path)
    requires WellFormed(e.node) && f in AllInEntry(e, path, ignore, filter, levelsDeep)
    ensures path + [e.name] <= f
  {
    FindsExactlyVisible(e.node, path + [e.name], ignore, filter, levelsDeep, f);
  }

  lemma SameName(path: Path, a: string, b: string, f: Path)
    requires path + [a] <= f && path + [b] <= f
    ensures a == b
  {
    assert (path + [a])[|path|] == f[|path|] == (path + [b])[|path|];
  }

  lemma {:induction false} FindsEachOnce(node: FsNode, path: Path, ignore: seq<string>, filter: seq<string>,
                                         levelsDeep: int)
    requires WellFormed(node)
    ensures AllDifferent(AllFound(node, path, ignore, filter, levelsDeep))
    decreases node, 1, 0
  {
    if node.DirNode? {
      InDirectoryEachOnce(node.entries, path, ignore, filter, levelsDeep - 1);
    }
  }

  ghost predicate GoodEntries(entries: seq<Entry>) {
    && (forall i :: 0 <= i < |entries| ==> IsName(entries[i].name) && WellFormed(entries[i].node))
    && (forall i, j :: 0 <= i < j < |entries| ==> entries[i].name != entries[j].name)
  }

  lemma {:induction false} InDirectoryEachOnce(entries: seq<Entry>, path: Path, ignore: seq<string>,
                                               filter: seq<string>, levelsDeep: int)
    requires GoodEntries(entries)
    ensures AllDifferent(AllInDirectory(entries, path, ignore, filter, levelsDeep))
    decreases entries, 0, |entries|
  {
    if entries != [] {
      var n := |entries| - 1;
      var e := entries[n];
      var a := AllInDirectory(entries[..n], path, ignore, filter, levelsDeep);
      InDirectoryEachOnce(entries[..n], path, ignore, filter, levelsDeep);
      if e.name !in ignore {
        FindsEachOnce(e.node, path + [e.name], ignore, filter, levelsDeep);
      }
      forall f | f in a
        ensures f !in AllInEntry(e, path, ignore, filter, levelsDeep)
      {
        InDirectoryMembers(entries[..n], path, ignore, filter, levelsDeep, f);
        var i :| 0 <= i < n && f in AllInEntry(entries[..n][i], path, ignore, filter, levelsDeep);
        EntryFilesBelow(entries[i], path, ignore, filter, levelsDeep, f);
        if f in AllInEntry(e, path, ignore, filter, levelsDeep) {
          EntryFilesBelow(e, path, ignore, filter, levelsDeep, f);
          SameName(path, entries[i].name, e.name, f);
        }
      }
      DifferentConcat(a, AllInEntry(e, path, ignore, filter, levelsDeep));
    }
  }
}
