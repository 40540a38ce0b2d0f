/**
 `find` filters for default manifests at every directory on its way up.  This module
 compares that with filtering once, at the top, everything the walk found.
 */
module BottomUp {
  import opened Wrappers
  import opened Strings
  import opened Paths
  import opened Manifests
  import opened ManifestFilter
  import opened FindFiles
  import opened Walk

  // ----- files without a kind do not matter to the filter -----

  /** The files that have a kind. */
  function Managed(rules: Rules, files: seq<Path>): seq<Path> {
    if files == [] then []
    else (if KindOf(rules, files[0]).Some? then [files[0]] else []) + Managed(rules, files[1..])
  }

  lemma {:induction false} ManagedConcat(rules: Rules, a: seq<Path>, b: seq<Path>)
    ensures Managed(rules, a + b) == Managed(rules, a) + Managed(rules, b)
    decreases |a|
  {
    if a == [] {
      assert a + b == b;
    } else {
      assert (a + b)[1..] == a[1..] + b;
      ManagedConcat(rules, a[1..], b);
      ConcatAssoc(if KindOf(rules, a[0]).Some? then [a[0]] else [], Managed(rules, a[1..]), Managed(rules, b));
    }
  }

  lemma {:induction false} ManagedMembers(rules: Rules, files: seq<Path>, f: Path)
    ensures f in Managed(rules, files) <==> f in files && KindOf(rules, f).Some?
  {
    if files != [] {
      ManagedMembers(rules, files[1..], f);
      assert f in files <==> f == files[0] || f in files[1..];
    }
  }

  lemma {:induction false} ManagedWhole(rules: Rules, files: seq<Path>)
    requires forall f :: f in files ==> KindOf(rules, f).Some?
    ensures Managed(rules, files) == files
  {
    if files != [] {
      assert files[0] in files;
      ManagedWhole(rules, files[1..]);
    }
  }

  lemma {:induction false} InDirManaged(rules: Rules, files: seq<Path>, d: Path)
    ensures InDir(Managed(rules, files), d) == Managed(rules, InDir(files, d))
  {
    if files != [] {
      InDirManaged(rules, files[1..], d);
      var first := [files[0]];
      assert first[1..] == [];
      InDirConcat(if KindOf(rules, files[0]).Some? then first else [], Managed(rules, files[1..]), d);
      ManagedConcat(rules, if Dir(files[0]) == d then first else [], InDir(files[1..], d));
    }
  }

  lemma {:induction false} OfKindManaged(rules: Rules, files: seq<Path>, k: Kind)
    ensures OfKind(rules, Managed(rules, files), k) == OfKind(rules, files, k)
  {
    if files != [] {
      OfKindManaged(rules, files[1..], k);
      var first := [files[0]];
      assert first[1..] == [];
      OfKindConcat(rules, if KindOf(rules, files[0]).Some? then first else [], Managed(rules, files[1..]), k);
    }
  }

  lemma {:induction false} KindsManaged(rules: Rules, files: seq<Path>)
    ensures Kinds(rules, Managed(rules, files)) == Kinds(rules, files)
  {
    if files != [] {
      var init, last := files[..|files| - 1], files[|files| - 1];
      KindsManaged(rules, init);
      ManagedConcat(rules, init, [last]);
      assert init + [last] == files && [last][1..] == [];
      if KindOf(rules, last).Some? {
        var m := Managed(rules, files);
        assert m == Managed(rules, init) + [last];
        assert m[..|m| - 1] == Managed(rules, init);
      } else {
        assert Managed(rules, files) == Managed(rules, init);
      }
    }
  }

  lemma {:induction false} BlockOfManaged(rules: Rules, files: seq<Path>, kinds: seq<Kind>)
    ensures BlockOf(rules, Managed(rules, files), kinds) == BlockOf(rules, files, kinds)
  {
    if kinds != [] {
      BlockOfManaged(rules, files, kinds[..|kinds| - 1]);
      OfKindManaged(rules, files, kinds[|kinds| - 1]);
    }
  }

  lemma BlockManaged(rules: Rules, files: seq<Path>, d: Path)
    ensures Block(rules, InDir(Managed(rules, files), d)) == Block(rules, InDir(files, d))
  {
    InDirManaged(rules, files, d);
    KindsManaged(rules, InDir(files, d));
    BlockOfManaged(rules, InDir(files, d), Kinds(rules, InDir(files, d)));
  }

  lemma FinalManaged(rules: Rules, files: seq<Path>, d: Path)
    ensures Final(rules, Managed(rules, files), d) == Final(rules, files, d)
  {
    forall e
      ensures HasGradle(rules, Managed(rules, files), e) <==> HasGradle(rules, files, e)
    {
      BlockManaged(rules, files, e);
    }
    BlockManaged(rules, files, d);
  }

  lemma MissesManaged(rules: Rules, files: seq<Path>, d: Path)
    ensures MissesDefaultIn(rules, Managed(rules, files), d) <==> MissesDefaultIn(rules, files, d)
  {
    var inDir := InDir(files, d);
    InDirManaged(rules, files, d);
    KindsManaged(rules, inDir);
    var kinds := Kinds(rules, inDir);
    forall i | 0 <= i < |kinds|
      ensures OfKind(rules, Managed(rules, inDir), kinds[i]) == OfKind(rules, inDir, kinds[i])
    {
      OfKindManaged(rules, inDir, kinds[i]);
    }
  }

  // ----- one entry of a directory filtered first -----

  /** `files` is what is left of `all`: the filtered list, or a single file that the filter was not applied to. */
  ghost predicate Left(rules: Rules, all: seq<Path>, files: seq<Path>) {
    && IsFiltered(rules, all, Managed(rules, files))
    && (Managed(rules, files) == files || (|files| == 1 && Managed(rules, files) == []))
  }

  /** The two lists have no directory in common. */
  ghost predicate Apart(a: seq<Path>, b: seq<Path>) {
    forall d :: InDir(b, d) != [] ==> InDir(a, d) == []
  }

  lemma InDirThree(rules: Rules, a: seq<Path>, m: seq<Path>, b: seq<Path>, d: Path)
    ensures InDir(Managed(rules, a + m + b), d)
         == InDir(Managed(rules, a), d) + InDir(Managed(rules, m), d) + InDir(Managed(rules, b), d)
  {
    ManagedConcat(rules, a + m, b);
    ManagedConcat(rules, a, m);
    InDirConcat(Managed(rules, a + m), Managed(rules, b), d);
    InDirConcat(Managed(rules, a), Managed(rules, m), d);
  }

  lemma ReplacedIn(rules: Rules, a: seq<Path>, all: seq<Path>, files: seq<Path>, b: seq<Path>, d: Path)
    requires IsFiltered(rules, all, Managed(rules, files)) && Apart(a, all) && Apart(b, all)
    ensures var before, part, after := Managed(rules, a + all + b), Managed(rules, all), Managed(rules, a + files + b);
            if InDir(part, d) == [] then InDir(after, d) == InDir(before, d)
            else InDir(part, d) == InDir(before, d) && InDir(after, d) == Final(rules, part, d)
  {
    InDirThree(rules, a, all, b, d);
    InDirThree(rules, a, files, b, d);
    assert InDir(Managed(rules, files), d) == Final(rules, all, d);
    FinalManaged(rules, all, d);
    InDirManaged(rules, all, d);
    InDirManaged(rules, a, d);
    InDirManaged(rules, b, d);
    if InDir(Managed(rules, all), d) == [] {
      EmptyBlock(rules);
    } else {
      assert InDir(a, d) == [] && InDir(b, d) == [];
      OnlyMiddle(InDir(Managed(rules, a), d), InDir(Managed(rules, all), d), InDir(Managed(rules, b), d));
      OnlyMiddle(InDir(Managed(rules, a), d), InDir(Managed(rules, files), d), InDir(Managed(rules, b), d));
    }
  }

  lemma OnlyMiddle<T>(a: seq<T>, m: seq<T>, b: seq<T>)
    requires a == [] && b == []
    ensures a + m + b == m
  {
  }

  /** Replacing the files found below one entry by what is left of them changes neither the result nor a failure. */
  lemma ReplaceOne(rules: Rules, a: seq<Path>, all: seq<Path>, files: seq<Path>, b: seq<Path>, d: Path)
    requires IsFiltered(rules, all, Managed(rules, files)) && Apart(a, all) && Apart(b, all)
    requires !MissesDefaultIn(rules, all, d)
    ensures Final(rules, a + files + b, d) == Final(rules, a + all + b, d)
    ensures MissesDefaultIn(rules, a + files + b, d) <==> MissesDefaultIn(rules, a + all + b, d)
  {
    var before, part, after := Managed(rules, a + all + b), Managed(rules, all), Managed(rules, a + files + b);
    forall e
      ensures if InDir(part, e) == [] then InDir(after, e) == InDir(before, e)
              else InDir(part, e) == InDir(before, e) && InDir(after, e) == Final(rules, part, e)
    {
      ReplacedIn(rules, a, all, files, b, e);
    }
    FilteredInParts(rules, before, part, after, d);
    FinalManaged(rules, a + all + b, d);
    FinalManaged(rules, a + files + b, d);
    MissesManaged(rules, a + all + b, d);
    MissesManaged(rules, a + files + b, d);
    MissesManaged(rules, all, d);
    if InDir(part, d) != [] {
      FinalSolo(rules, part, d);
      SoloNeverMisses(rules, InDir(after, d));
    }
  }

  lemma SoloNeverMisses(rules: Rules, files: seq<Path>)
    requires Solo(rules, files)
    ensures !MissesDefault(rules, files, Kinds(rules, files))
  {
    SoloKinds(rules, files);
    forall i | 0 <= i < |files|
      ensures OfKind(rules, files, Kinds(rules, files)[i]) == [files[i]]
    {
      SoloOfKind(rules, files, i);
    }
  }

  // ----- all entries of a directory -----

  /** What the walk finds in one entry, and what `find` leaves of it. */
  ghost predicate EntryLeft(rules: Rules, e: Entry, all: seq<Path>, files: seq<Path>) {
    && (if e.node.DirNode? then Left(rules, all, files) && !MissesSomeDefault(rules, all) else files == all)
    && forall f :: f in files ==> f in all
  }

  /** The files lie in no directory at or below one of the directory entries. */
  ghost predicate Outside(files: seq<Path>, path: Path, entries: seq<Entry>) {
    forall f, i :: f in files && 0 <= i < |entries| && entries[i].node.DirNode?
        ==> !(path + [entries[i].name] <= Dir(f))
  }

  /** The files found in a directory entry lie in directories at or below it. */
  lemma EntryDirs(e: Entry, path: Path, ignore: seq<string>, filter: seq<string>, levelsDeep: int, f: Path)
    requires WellFormed(e.node) && f in AllInEntry(e, path, ignore, filter, levelsDeep)
    ensures path + [e.name] <= f
    ensures e.node.DirNode? ==> path + [e.name] <= Dir(f)
  {
    var below := path + [e.name];
    FindsExactlyVisible(e.node, below, ignore, filter, levelsDeep, f);
    if e.node.DirNode? {
      assert f[|below|..] != [];
    }
  }

  lemma EntryApart(e: Entry, path: Path, ignore: seq<string>, filter: seq<string>, levelsDeep: int, files: seq<Path>)
    requires WellFormed(e.node) && e.node.DirNode?
    requires forall f :: f in files ==> !(path + [e.name] <= Dir(f))
    ensures Apart(files, AllInEntry(e, path, ignore, filter, levelsDeep))
  {
    var all := AllInEntry(e, path, ignore, filter, levelsDeep);
    forall d | InDir(all, d) != []
      ensures InDir(files, d) == []
    {
      var f := InDir(all, d)[0];
      InDirMembers(all, d, f);
      EntryDirs(e, path, ignore, filter, levelsDeep, f);
      InDirEmpty(files, d);
    }
  }

  /** Files found in the earlier entries lie outside a later directory entry. */
  lemma EarlierOutside(entries: seq<Entry>, path: Path, ignore: seq<string>, filter: seq<string>, levelsDeep: int,
                       n: nat)
    requires GoodEntries(entries) && n < |entries| && entries[n].node.DirNode?
    ensures forall f :: f in AllInDirectory(entries[..n], path, ignore, filter, levelsDeep) ==>
              !(path + [entries[n].name] <= Dir(f))
  {
    forall f | f in AllInDirectory(entries[..n], path, ignore, filter, levelsDeep)
      ensures !(path + [entries[n].name] <= Dir(f))
    {
      InDirectoryMembers(entries[..n], path, ignore, filter, levelsDeep, f);
      var i :| 0 <= i < n && f in AllInEntry(entries[..n][i], path, ignore, filter, levelsDeep);
      EntryDirs(entries[i], path, ignore, filter, levelsDeep, f);
      if path + [entries[n].name] <= Dir(f) {
        assert path + [entries[n].name] <= f;
        SameName(path, entries[i].name, entries[n].name, f);
      }
    }
  }

  /** What an entry leaves lies outside the earlier directory entries. */
  lemma LaterOutside(rules: Rules, entries: seq<Entry>, path: Path, ignore: seq<string>, filter: seq<string>,
                     levelsDeep: int, n: nat, files: seq<Path>, rest: seq<Path>)
    requires GoodEntries(entries) && n < |entries| && Outside(rest, path, entries)
    requires EntryLeft(rules, entries[n], AllInEntry(entries[n], path, ignore, filter, levelsDeep), files)
    ensures Outside(files + rest, path, entries[..n])
  {
    forall f, i | f in files + rest && 0 <= i < n && entries[i].node.DirNode?
      ensures !(path + [entries[..n][i].name] <= Dir(f))
    {
      if f in files {
        EntryDirs(entries[n], path, ignore, filter, levelsDeep, f);
        if path + [entries[i].name] <= Dir(f) {
          assert path + [entries[i].name] <= f;
          SameName(path, entries[i].name, entries[n].name, f);
        }
      } else {
        assert f in rest;
      }
    }
  }

  /** Every entry is fine on its own. */
  ghost predicate EntriesLeft(rules: Rules, entries: seq<Entry>, path: Path, ignore: seq<string>, filter: seq<string>,
                              levelsDeep: int)
  {
    forall i :: 0 <= i < |entries| ==>
      var r := FindInEntry(rules, entries[i], path, ignore, filter, levelsDeep);
      r.Ok? && EntryLeft(rules, entries[i], AllInEntry(entries[i], path, ignore, filter, levelsDeep), r.value.files)
      && r.value.allFilesFound == AllInEntry(entries[i], path, ignore, filter, levelsDeep)
  }

  lemma {:induction false} EntriesFound(rules: Rules, entries: seq<Entry>, path: Path, ignore: seq<string>,
                                        filter: seq<string>, levelsDeep: int)
    requires EntriesLeft(rules, entries, path, ignore, filter, levelsDeep)
    ensures var r := FindInDirectory(rules, entries, path, ignore, filter, levelsDeep);
            && r.Ok?
            && r.value.allFilesFound == AllInDirectory(entries, path, ignore, filter, levelsDeep)
            && forall f :: f in r.value.files ==> f in r.value.allFilesFound
    decreases |entries|
  {
    if entries != [] {
      var n := |entries| - 1;
      forall i | 0 <= i < n
        ensures entries[..n][i] == entries[i]
      {
      }
      EntriesFound(rules, entries[..n], path, ignore, filter, levelsDeep);
    }
  }

  ghost function FilesIn(rules: Rules, entries: seq<Entry>, path: Path, ignore: seq<string>, filter: seq<string>,
                         levelsDeep: int): seq<Path>
    requires FindInDirectory(rules, entries, path, ignore, filter, levelsDeep).Ok?
  {
    FindInDirectory(rules, entries, path, ignore, filter, levelsDeep).value.files
  }

  /** Replacing, entry after entry, all files by what is left of them changes neither the result nor a failure. */
  lemma {:induction false} ReplaceAll(rules: Rules, entries: seq<Entry>, path: Path, ignore: seq<string>,
                                      filter: seq<string>, levelsDeep: int, rest: seq<Path>, d: Path)
    requires GoodEntries(entries) && EntriesLeft(rules, entries, path, ignore, filter, levelsDeep)
            && Outside(rest, path, entries)
    requires FindInDirectory(rules, entries, path, ignore, filter, levelsDeep).Ok?
    ensures var all, files := AllInDirectory(entries, path, ignore, filter, levelsDeep),
            FilesIn(rules, entries, path, ignore, filter, levelsDeep);
            && Final(rules, files + rest, d) == Final(rules, all + rest, d)
            && (MissesDefaultIn(rules, files + rest, d) <==> MissesDefaultIn(rules, all + rest, d))
    decreases |entries|
  {
    if entries != [] {
      var n := |entries| - 1;
      var e, init := entries[n], entries[..n];
      var a := AllInDirectory(init, path, ignore, filter, levelsDeep);
      var all := AllInEntry(e, path, ignore, filter, levelsDeep);
      var files := FindInEntry(rules, e, path, ignore, filter, levelsDeep).value.files;
      assert EntriesLeft(rules, init, path, ignore, filter, levelsDeep) by {
        assert forall i :: 0 <= i < n ==> init[i] == entries[i];
      }
      EntriesFound(rules, init, path, ignore, filter, levelsDeep);
      LaterOutside(rules, entries, path, ignore, filter, levelsDeep, n, files, rest);
      ReplaceAll(rules, init, path, ignore, filter, levelsDeep, files + rest, d);
      ConcatAssoc(FilesIn(rules, init, path, ignore, filter, levelsDeep), files, rest);
      ConcatAssoc(a, files, rest);
      if e.node.DirNode? {
        EarlierOutside(entries, path, ignore, filter, levelsDeep, n);
        EntryApart(e, path, ignore, filter, levelsDeep, a);
        EntryApart(e, path, ignore, filter, levelsDeep, rest);
        ReplaceOne(rules, a, all, files, rest, d);
      }
    }
  }

  // ----- the files of a tree are a file list -----

  lemma {:induction false} LookupNames(node: FsNode, rel: seq<string>)
    requires WellFormed(node) && Lookup(node, rel).Some?
    ensures IsPath(rel)
    decreases |rel|
  {
    if rel != [] {
      var i := EntryNodeSome(node.entries, rel[0]);
      LookupNames(node.entries[i].node, rel[1..]);
      forall j | 0 <= j < |rel|
        ensures IsName(rel[j])
      {
        if j > 0 { assert rel[1..][j - 1] == rel[j]; }
      }
    }
  }

  /** On the way to anything there are only directories. */
  lemma {:induction false} LookupThrough(node: FsNode, rel: seq<string>, n: nat)
    requires n < |rel| && Lookup(node, rel).Some?
    ensures Lookup(node, rel[..n]).Some? && Lookup(node, rel[..n]).value.DirNode?
    decreases |rel|
  {
    if n > 0 {
      var i := EntryNodeSome(node.entries, rel[0]);
      LookupThrough(node.entries[i].node, rel[1..], n - 1);
      assert rel[..n][0] == rel[0] && rel[..n][1..] == rel[1..][..n - 1];
    }
  }

  lemma RestOfPrefix(path: Path, f: Path, g: Path)
    requires path <= f && f <= Dir(g) && g != []
    ensures |f| - |path| < |g[|path|..]| && g[|path|..][..|f| - |path|] == f[|path|..]
  {
  }

  lemma NoFileAbove(node: FsNode, path: Path, f: Path, g: Path)
    requires WellFormed(node) && path <= f && path <= g
    requires Lookup(node, f[|path|..]) == Some(FileNode) && Lookup(node, g[|path|..]) == Some(FileNode)
    ensures !(f <= Dir(g)) || g == []
  {
    if f <= Dir(g) && g != [] {
      RestOfPrefix(path, f, g);
      LookupThrough(node, g[|path|..], |f| - |path|);
    }
  }

  lemma FoundIsFileList(node: FsNode, path: Path, ignore: seq<string>, filter: seq<string>, levelsDeep: int)
    requires WellFormed(node) && IsPath(path) && (path == [] ==> !node.FileNode?)
    ensures FileList(AllFound(node, path, ignore, filter, levelsDeep))
  {
    var all := AllFound(node, path, ignore, filter, levelsDeep);
    forall i | 0 <= i < |all|
      ensures path <= all[i] && all[i] != [] && IsPath(all[i]) && Lookup(node, all[i][|path|..]) == Some(FileNode)
    {
      FindsExactlyVisible(node, path, ignore, filter, levelsDeep, all[i]);
      LookupNames(node, all[i][|path|..]);
      assert all[i] == path + all[i][|path|..];
    }
    forall i, j | 0 <= i < |all| && 0 <= j < |all|
      ensures !(all[i] <= Dir(all[j]))
    {
      NoFileAbove(node, path, all[i], all[j]);
    }
  }

  lemma SubListOfFiles(files: seq<Path>, all: seq<Path>)
    requires FileList(all) && forall f :: f in files ==> f in all
    ensures FileList(files)
  {
    forall i | 0 <= i < |files|
      ensures files[i] != [] && IsPath(files[i])
    {
      assert files[i] in all;
      var k :| 0 <= k < |all| && all[k] == files[i];
    }
    forall i, j | 0 <= i < |files| && 0 <= j < |files|
      ensures !(files[i] <= Dir(files[j]))
    {
      assert files[i] in all && files[j] in all;
      var k :| 0 <= k < |all| && all[k] == files[i];
      var l :| 0 <= l < |all| && all[l] == files[j];
    }
  }

  // ----- the filter on what the entries left -----

  lemma SmallIsSolo(rules: Rules, files: seq<Path>)
    requires |files| <= 1
    ensures Solo(rules, Managed(rules, files))
  {
    if files != [] {
      assert files[1..] == [];
    }
  }

  lemma InDirSmall(files: seq<Path>, d: Path)
    requires |files| <= 1
    ensures |InDir(files, d)| <= 1 && (InDir(files, d) != [] ==> InDir(files, d) == files && Dir(files[0]) == d)
  {
    if files != [] {
      assert files[1..] == [];
    }
  }

  lemma GradleNeedsFiles(rules: Rules, files: seq<Path>, d: Path)
    requires HasGradle(rules, files, d)
    ensures InDir(files, d) != []
  {
    EmptyBlock(rules);
  }

  lemma NothingAboveSmall(rules: Rules, files: seq<Path>, d: Path)
    requires |files| <= 1 && InDir(files, d) != []
    ensures !GradleAbove(rules, files, d)
  {
    InDirSmall(files, d);
    forall n: nat | n < |d|
      ensures !HasGradle(rules, files, d[..n])
    {
      if HasGradle(rules, files, d[..n]) {
        GradleNeedsFiles(rules, files, d[..n]);
        InDirSmall(files, d[..n]);
      }
    }
  }

  lemma SmallFinal(rules: Rules, files: seq<Path>, d: Path)
    requires |files| <= 1 && Solo(rules, InDir(files, d))
    ensures InDir(files, d) == Final(rules, files, d)
  {
    SoloBlock(rules, InDir(files, d));
    if InDir(files, d) != [] {
      NothingAboveSmall(rules, files, d);
    }
  }

  /** A list of at most one file is what the filter would have kept of it, apart from a file without a kind. */
  lemma SmallIsLeft(rules: Rules, files: seq<Path>, d: Path)
    requires |files| <= 1
    ensures InDir(Managed(rules, files), d) == Final(rules, files, d)
    ensures !MissesDefaultIn(rules, files, d)
  {
    var managed := Managed(rules, files);
    SmallSorted(rules, files);
    SmallIsSolo(rules, files);
    InDirSmall(managed, d);
    SmallFinal(rules, managed, d);
    FinalManaged(rules, files, d);
    SoloNeverMisses(rules, InDir(managed, d));
    MissesManaged(rules, files, d);
  }

  lemma SmallSorted(rules: Rules, files: seq<Path>)
    requires |files| <= 1
    ensures |Managed(rules, files)| <= 1 && (Managed(rules, files) == files || Managed(rules, files) == [])
  {
    if files != [] {
      assert files[1..] == [] && Managed(rules, files[1..]) == [];
    }
  }

  /** What `find` returns at one level, against all files found below it. */
  ghost predicate LevelLeft(rules: Rules, all: seq<Path>, r: Result<seq<Path>, Failure>) {
    match r
    case Err(_) => MissesSomeDefault(rules, all)
    case Ok(files) => !MissesSomeDefault(rules, all) && Left(rules, all, files) && forall f :: f in files ==> f in all
  }

  lemma KeptHaveKinds(rules: Rules, files: seq<Path>, r: seq<Path>)
    requires IsFiltered(rules, files, r)
    ensures Managed(rules, r) == r
    ensures forall f :: f in r ==> f in files
  {
    forall f | f in r
      ensures KindOf(rules, f).Some? && f in files
    {
      InDirMembers(r, Dir(f), f);
      assert InDir(r, Dir(f)) == Final(rules, files, Dir(f));
      FinalMembers(rules, files, Dir(f), f);
    }
    ManagedWhole(rules, r);
  }

  lemma FilterLevel(rules: Rules, all: seq<Path>, files: seq<Path>)
    requires Consistent(rules) && FileList(all) && forall f :: f in files ==> f in all
    requires forall d :: Final(rules, files, d) == Final(rules, all, d)
    requires forall d :: MissesDefaultIn(rules, files, d) <==> MissesDefaultIn(rules, all, d)
    ensures LevelLeft(rules, all, Filtered(rules, files))
  {
    if |files| <= 1 {
      SmallSorted(rules, files);
      forall d
        ensures InDir(Managed(rules, files), d) == Final(rules, all, d) && !MissesDefaultIn(rules, all, d)
      {
        SmallIsLeft(rules, files, d);
        assert Final(rules, files, d) == Final(rules, all, d);
        assert MissesDefaultIn(rules, files, d) <==> MissesDefaultIn(rules, all, d);
      }
    } else {
      SubListOfFiles(files, all);
      LoopsFilter(rules, files);
      var r := Filtered(rules, files);
      if r.Ok? {
        KeptHaveKinds(rules, files, r.value);
        forall d
          ensures InDir(r.value, d) == Final(rules, all, d) && !MissesDefaultIn(rules, all, d)
        {
          assert InDir(r.value, d) == Final(rules, files, d);
          assert MissesDefaultIn(rules, files, d) <==> MissesDefaultIn(rules, all, d);
        }
      } else {
        var d :| MissesDefaultIn(rules, files, d);
        assert MissesDefaultIn(rules, all, d);
      }
    }
  }

  // ----- the whole walk -----

  /** What `find` returns for a node, against all files found below it. */
  ghost predicate NodeLeft(rules: Rules, all: seq<Path>, r: Result<Found, Failure>) {
    match r
    case Err(_) => MissesSomeDefault(rules, all)
    case Ok(found) => found.allFilesFound == all && LevelLeft(rules, all, Ok(found.files))
  }

  /** A single file, or none, is left as it is. */
  lemma SmallLevel(rules: Rules, files: seq<Path>)
    requires |files| <= 1
    ensures LevelLeft(rules, files, Ok(files))
  {
    SmallSorted(rules, files);
    forall d
      ensures InDir(Managed(rules, files), d) == Final(rules, files, d) && !MissesDefaultIn(rules, files, d)
    {
      SmallIsLeft(rules, files, d);
    }
  }

  lemma EntryIsLeft(rules: Rules, e: Entry, path: Path, ignore: seq<string>, filter: seq<string>, levelsDeep: int)
    requires var r := FindInEntry(rules, e, path, ignore, filter, levelsDeep);
             r.Ok? && NodeLeft(rules, AllInEntry(e, path, ignore, filter, levelsDeep), r)
    ensures var r := FindInEntry(rules, e, path, ignore, filter, levelsDeep);
            EntryLeft(rules, e, AllInEntry(e, path, ignore, filter, levelsDeep), r.value.files)
  {
  }

  lemma InDirOfRight(a: seq<Path>, b: seq<Path>, d: Path)
    requires forall f :: f in a ==> Dir(f) != d
    ensures InDir(a + b, d) == InDir(b, d)
  {
    InDirConcat(a, b, d);
    InDirEmpty(a, d);
  }

  lemma InDirOfLeft(a: seq<Path>, b: seq<Path>, d: Path)
    requires forall f :: f in b ==> Dir(f) != d
    ensures InDir(a + b, d) == InDir(a, d)
  {
    InDirConcat(a, b, d);
    InDirEmpty(b, d);
  }

  /** Files found in another entry do not lie below this one. */
  lemma OtherEntryDirs(entries: seq<Entry>, path: Path, ignore: seq<string>, filter: seq<string>, levelsDeep: int,
                       i: nat, n: nat, d: Path)
    requires GoodEntries(entries) && i < |entries| && n < |entries| && i != n && path + [entries[i].name] <= d
    ensures forall f :: f in AllInEntry(entries[n], path, ignore, filter, levelsDeep) ==> Dir(f) != d
  {
    forall f | f in AllInEntry(entries[n], path, ignore, filter, levelsDeep)
      ensures Dir(f) != d
    {
      EntryDirs(entries[n], path, ignore, filter, levelsDeep, f);
      if Dir(f) == d {
        assert path + [entries[i].name] <= f;
        SameName(path, entries[i].name, entries[n].name, f);
      }
    }
  }

  /** A directory below one entry holds only the files found in that entry. */
  lemma {:induction false} OnlyInEntry(entries: seq<Entry>, path: Path, ignore: seq<string>, filter: seq<string>,
                                       levelsDeep: int, i: nat, d: Path)
    requires GoodEntries(entries) && i < |entries| && entries[i].node.DirNode? && path + [entries[i].name] <= d
    ensures InDir(AllInDirectory(entries, path, ignore, filter, levelsDeep), d)
            == InDir(AllInEntry(entries[i], path, ignore, filter, levelsDeep), d)
    decreases |entries|
  {
    var n := |entries| - 1;
    var a := AllInDirectory(entries[..n], path, ignore, filter, levelsDeep);
    var b := AllInEntry(entries[n], path, ignore, filter, levelsDeep);
    if i == n {
      EarlierOutside(entries, path, ignore, filter, levelsDeep, n);
      InDirOfRight(a, b, d);
    } else {
      OnlyInEntry(entries[..n], path, ignore, filter, levelsDeep, i, d);
      OtherEntryDirs(entries, path, ignore, filter, levelsDeep, i, n, d);
      InDirOfLeft(a, b, d);
    }
  }

  lemma SomeEntryMisses(rules: Rules, entries: seq<Entry>, path: Path, ignore: seq<string>, filter: seq<string>,
                        levelsDeep: int, i: nat)
    requires GoodEntries(entries) && i < |entries| && entries[i].node.DirNode?
    requires MissesSomeDefault(rules, AllInEntry(entries[i], path, ignore, filter, levelsDeep))
    ensures MissesSomeDefault(rules, AllInDirectory(entries, path, ignore, filter, levelsDeep))
  {
    var all := AllInEntry(entries[i], path, ignore, filter, levelsDeep);
    var d :| MissesDefaultIn(rules, all, d);
    assert InDir(all, d) != [];
    var f := InDir(all, d)[0];
    InDirMembers(all, d, f);
    EntryDirs(entries[i], path, ignore, filter, levelsDeep, f);
    OnlyInEntry(entries, path, ignore, filter, levelsDeep, i, d);
    assert MissesDefaultIn(rules, AllInDirectory(entries, path, ignore, filter, levelsDeep), d);
  }

  lemma {:induction false} FailsAtEntry(rules: Rules, entries: seq<Entry>, path: Path, ignore: seq<string>,
                                        filter: seq<string>, levelsDeep: int, i: nat)
    requires i < |entries| && FindInEntry(rules, entries[i], path, ignore, filter, levelsDeep).Err?
    ensures FindInDirectory(rules, entries, path, ignore, filter, levelsDeep).Err?
    decreases |entries|
  {
    if i < |entries| - 1 {
      FailsAtEntry(rules, entries[..|entries| - 1], path, ignore, filter, levelsDeep, i);
    }
  }

  /** The filter at a directory, once its entries are done. */
  lemma DirectoryLeft(rules: Rules, node: FsNode, path: Path, ignore: seq<string>, filter: seq<string>, levelsDeep: int)
    requires WellFormed(node) && node.DirNode? && Consistent(rules) && IsPath(path)
    requires !Blocked(path) && levelsDeep >= 0
    requires EntriesLeft(rules, node.entries, path, ignore, filter, levelsDeep - 1)
    ensures NodeLeft(rules, AllFound(node, path, ignore, filter, levelsDeep),
                     FindIn(rules, node, path, ignore, filter, levelsDeep))
  {
    var entries := node.entries;
    EntriesFound(rules, entries, path, ignore, filter, levelsDeep - 1);
    var all := AllInDirectory(entries, path, ignore, filter, levelsDeep - 1);
    var files := FilesIn(rules, entries, path, ignore, filter, levelsDeep - 1);
    FoundIsFileList(node, path, ignore, filter, levelsDeep);
    forall d
      ensures Final(rules, files, d) == Final(rules, all, d)
      ensures MissesDefaultIn(rules, files, d) <==> MissesDefaultIn(rules, all, d)
    {
      ReplaceAll(rules, entries, path, ignore, filter, levelsDeep - 1, [], d);
      assert files + [] == files && all + [] == all;
    }
    FilterLevel(rules, all, files);
  }

  ghost predicate EntryWalked(rules: Rules, e: Entry, path: Path, ignore: seq<string>, filter: seq<string>,
                              levelsDeep: int)
  {
    NodeLeft(rules, AllInEntry(e, path, ignore, filter, levelsDeep),
             FindInEntry(rules, e, path, ignore, filter, levelsDeep))
  }

  lemma OnlyDirectoriesFail(rules: Rules, e: Entry, path: Path, ignore: seq<string>, filter: seq<string>,
                            levelsDeep: int)
    requires FindInEntry(rules, e, path, ignore, filter, levelsDeep).Err?
    ensures e.node.DirNode?
  {
  }

  /** From the entries of a directory to the directory. */
  lemma DirectoryWalked(rules: Rules, node: FsNode, path: Path, ignore: seq<string>, filter: seq<string>,
                        levelsDeep: int)
    requires WellFormed(node) && node.DirNode? && Consistent(rules) && IsPath(path)
    requires !Blocked(path) && levelsDeep >= 0
    requires forall i :: 0 <= i < |node.entries| ==>
               EntryWalked(rules, node.entries[i], path, ignore, filter, levelsDeep - 1)
    ensures NodeLeft(rules, AllFound(node, path, ignore, filter, levelsDeep),
                     FindIn(rules, node, path, ignore, filter, levelsDeep))
  {
    var entries := node.entries;
    if i :| 0 <= i < |entries| && FindInEntry(rules, entries[i], path, ignore, filter, levelsDeep - 1).Err? {
      assert EntryWalked(rules, entries[i], path, ignore, filter, levelsDeep - 1);
      OnlyDirectoriesFail(rules, entries[i], path, ignore, filter, levelsDeep - 1);
      FailsAtEntry(rules, entries, path, ignore, filter, levelsDeep - 1, i);
      SomeEntryMisses(rules, entries, path, ignore, filter, levelsDeep - 1, i);
    } else {
      assert EntriesLeft(rules, entries, path, ignore, filter, levelsDeep - 1) by {
        forall i | 0 <= i < |entries|
          ensures EntryLeft(rules, entries[i], AllInEntry(entries[i], path, ignore, filter, levelsDeep - 1),
                            FindInEntry(rules, entries[i], path, ignore, filter, levelsDeep - 1).value.files)
        {
          assert EntryWalked(rules, entries[i], path, ignore, filter, levelsDeep - 1);
          EntryIsLeft(rules, entries[i], path, ignore, filter, levelsDeep - 1);
        }
        assert forall i :: 0 <= i < |entries| ==> EntryWalked(rules, entries[i], path, ignore, filter, levelsDeep - 1);
      }
      DirectoryLeft(rules, node, path, ignore, filter, levelsDeep);
    }
  }

  /**
   At every level of every tree, `find` returns what one filter over everything below would
   leave, apart from a lone file.
   */
  lemma {:induction false} WalkLeaves(rules: Rules, node: FsNode, path: Path, ignore: seq<string>,
                                      filter: seq<string>, levelsDeep: int)
    requires WellFormed(node) && Consistent(rules) && IsPath(path)
    ensures NodeLeft(rules, AllFound(node, path, ignore, filter, levelsDeep),
                     FindIn(rules, node, path, ignore, filter, levelsDeep))
    decreases node
  {
    if Blocked(path) || levelsDeep < 0 || !node.DirNode? {
      SmallLevel(rules, AllFound(node, path, ignore, filter, levelsDeep));
    } else {
      forall i | 0 <= i < |node.entries|
        ensures EntryWalked(rules, node.entries[i], path, ignore, filter, levelsDeep - 1)
      {
        var e := node.entries[i];
        if e.name in ignore {
          SmallLevel(rules, []);
        } else {
          WalkLeaves(rules, e.node, path + [e.name], ignore, filter, levelsDeep - 1);
        }
      }
      DirectoryWalked(rules, node, path, ignore, filter, levelsDeep);
    }
  }
}
