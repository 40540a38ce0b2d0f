/** The main results about manifest discovery: what `find` returns, for every directory tree. */
module Discovery {
  import opened Wrappers
  import opened Paths
  import opened Manifests
  import opened ManifestFilter
  import opened FindFiles
  import opened Walk
  import opened BottomUp

  function FilesOf(r: Result<Found, Failure>): Result<seq<Path>, Failure> {
    match r
    case Err(e) => Err(e)
    case Ok(found) => Ok(found.files)
  }

  // ----- which files are kept -----

  lemma {:induction false} BlockOfExactly(rules: Rules, files: seq<Path>, kinds: seq<Kind>, f: Path)
    ensures f in BlockOf(rules, files, kinds)
        <==> exists i :: 0 <= i < |kinds| && Choose(rules, OfKind(rules, files, kinds[i]), kinds[i]) == Chosen(f)
  {
    if kinds != [] {
      var n := |kinds| - 1;
      BlockOfExactly(rules, files, kinds[..n], f);
      if exists i :: 0 <= i < |kinds| && Choose(rules, OfKind(rules, files, kinds[i]), kinds[i]) == Chosen(f) {
        var i :| 0 <= i < |kinds| && Choose(rules, OfKind(rules, files, kinds[i]), kinds[i]) == Chosen(f);
        if i < n { assert kinds[..n][i] == kinds[i]; }
      }
      if f in BlockOf(rules, files, kinds[..n]) {
        var i :| 0 <= i < n && Choose(rules, OfKind(rules, files, kinds[..n][i]), kinds[..n][i]) == Chosen(f);
        assert kinds[..n][i] == kinds[i];
      }
    }
  }

  /** The file that stands for its group: the files of the same directory and kind. */
  ghost predicate StandsForGroup(rules: Rules, files: seq<Path>, f: Path) {
    && KindOf(rules, f).Some?
    && f in files
    && Choose(rules, OfKind(rules, InDir(files, Dir(f)), KindOf(rules, f).value), KindOf(rules, f).value) == Chosen(f)
  }

  lemma BlockExactly(rules: Rules, files: seq<Path>, d: Path, f: Path)
    ensures f in Block(rules, InDir(files, d)) <==> Dir(f) == d && StandsForGroup(rules, files, f)
  {
    var inDir := InDir(files, d);
    var kinds := Kinds(rules, inDir);
    BlockOfExactly(rules, inDir, kinds, f);
    if f in Block(rules, inDir) {
      var i :| 0 <= i < |kinds| && Choose(rules, OfKind(rules, inDir, kinds[i]), kinds[i]) == Chosen(f);
      ChosenHasKind(rules, inDir, kinds[i]);
      InDirMembers(files, d, f);
    }
    if Dir(f) == d && StandsForGroup(rules, files, f) {
      var k := KindOf(rules, f).value;
      InDirMembers(files, d, f);
      OfKindMembers(rules, inDir, k, f);
      KindsMembers(rules, inDir, k);
      var i :| 0 <= i < |kinds| && kinds[i] == k;
    }
  }

  /**
   A file is kept exactly when it stands for its group and, for Gradle, no directory above has
   a Gradle file of its own.
   */
  lemma KeptExactly(rules: Rules, files: seq<Path>, r: seq<Path>, f: Path)
    requires IsFiltered(rules, files, r)
    ensures f in r
        <==> StandsForGroup(rules, files, f)
             && (KindOf(rules, f) == Some(Gradle) ==> !GradleAbove(rules, files, Dir(f)))
  {
    InDirMembers(r, Dir(f), f);
    assert InDir(r, Dir(f)) == Final(rules, files, Dir(f));
    DropKindMembers(rules, Block(rules, InDir(files, Dir(f))), Gradle, f);
    BlockExactly(rules, files, Dir(f), f);
  }

  /** At most one file per directory and kind. */
  lemma OnePerGroup(rules: Rules, files: seq<Path>, r: seq<Path>, f: Path, g: Path)
    requires IsFiltered(rules, files, r) && f in r && g in r
    requires Dir(f) == Dir(g) && KindOf(rules, f) == KindOf(rules, g)
    ensures f == g
  {
    KeptExactly(rules, files, r, f);
    KeptExactly(rules, files, r, g);
  }

  // ----- Gradle -----

  lemma GradleStands(rules: Rules, files: seq<Path>, d: Path)
    ensures HasGradle(rules, files, d)
        <==> exists f ::
               f in files && Dir(f) == d && KindOf(rules, f) == Some(Gradle) && StandsForGroup(rules, files, f)
  {
    var block := Block(rules, InDir(files, d));
    if HasGradle(rules, files, d) {
      var f := OfKind(rules, block, Gradle)[0];
      OfKindMembers(rules, block, Gradle, f);
      BlockExactly(rules, files, d, f);
    }
    if f :| f in files && Dir(f) == d && KindOf(rules, f) == Some(Gradle) && StandsForGroup(rules, files, f) {
      BlockExactly(rules, files, d, f);
      OfKindMembers(rules, block, Gradle, f);
    }
  }

  /** Of the Gradle files kept, none lies in the subtree of another one's directory. */
  lemma GradleAntichain(rules: Rules, files: seq<Path>, r: seq<Path>, f: Path, g: Path)
    requires IsFiltered(rules, files, r) && f in r && g in r
    requires KindOf(rules, f) == KindOf(rules, g) == Some(Gradle) && Dir(f) <= Dir(g)
    ensures f == g
  {
    KeptExactly(rules, files, r, f);
    KeptExactly(rules, files, r, g);
    if Dir(f) == Dir(g) {
      OnePerGroup(rules, files, r, f, g);
    } else {
      GradleStands(rules, files, Dir(f));
      assert Dir(g)[..|Dir(f)|] == Dir(f) && |Dir(f)| < |Dir(g)|;
      assert GradleAbove(rules, files, Dir(g));
    }
  }

  /** Every matched Gradle file lies in the subtree of a kept one. */
  lemma GradleCovered(rules: Rules, files: seq<Path>, r: seq<Path>, f: Path) returns (g: Path)
    requires Consistent(rules) && IsFiltered(rules, files, r) && !MissesSomeDefault(rules, files)
    requires f in files && KindOf(rules, f) == Some(Gradle)
    ensures g in r && KindOf(rules, g) == Some(Gradle) && Dir(g) <= Dir(f)
  {
    var d := Dir(f);
    GroupHasGradle(rules, files, f);
    assert d[..|d|] == d;
    var m := LeastGradle(rules, files, d, |d|);
    GradleStands(rules, files, d[..m]);
    g :| g in files && Dir(g) == d[..m] && KindOf(rules, g) == Some(Gradle) && StandsForGroup(rules, files, g);
    KeptExactly(rules, files, r, g);
  }

  lemma GroupHasGradle(rules: Rules, files: seq<Path>, f: Path)
    requires Consistent(rules) && !MissesSomeDefault(rules, files)
    requires f in files && KindOf(rules, f) == Some(Gradle)
    ensures HasGradle(rules, files, Dir(f))
  {
    var d := Dir(f);
    var inDir := InDir(files, d);
    InDirMembers(files, d, f);
    OfKindMembers(rules, inDir, Gradle, f);
    KindsMembers(rules, inDir, Gradle);
    var i :| 0 <= i < |Kinds(rules, inDir)| && Kinds(rules, inDir)[i] == Gradle;
    assert !MissesDefaultIn(rules, files, d);
    var c := Choose(rules, OfKind(rules, inDir, Gradle), Gradle);
    assert c != Missing;
    NoDefaultMeansNoNames(rules, OfKind(rules, inDir, Gradle), Gradle);
    ChosenHasKind(rules, inDir, Gradle);
    InDirMembers(files, d, c.file);
    GradleStands(rules, files, d);
  }

  lemma NoDefaultMeansNoNames(rules: Rules, files: seq<Path>, k: Kind)
    ensures Choose(rules, files, k) == NoDefault ==> rules.preferred(k) == []
  {
    FirstNamedIsFirst(files, rules.preferred(k));
  }

  // ----- which files are kept, by names and directories alone -----

  ghost predicate SameGroup(rules: Rules, f: Path, g: Path) {
    Dir(f) == Dir(g) && KindOf(rules, f) == KindOf(rules, g)
  }

  /** No other file of the list has this directory and kind. */
  ghost predicate IsAlone(rules: Rules, files: seq<Path>, f: Path) {
    forall g :: g in files && SameGroup(rules, f, g) ==> g == f
  }

  /** The file has a preferred name, and no earlier file of its directory and kind does. */
  ghost predicate IsFirstPreferred(rules: Rules, files: seq<Path>, f: Path, names: seq<string>) {
    exists i :: 0 <= i < |files| && files[i] == f && Base(f) in names
                && forall j :: 0 <= j < i && SameGroup(rules, f, files[j]) ==> Base(files[j]) !in names
  }

  ghost predicate IsStandIn(rules: Rules, files: seq<Path>, f: Path) {
    && f in files
    && KindOf(rules, f).Some?
    && (IsAlone(rules, files, f) || IsFirstPreferred(rules, files, f, rules.preferred(KindOf(rules, f).value)))
  }

  ghost predicate InGroup(rules: Rules, f: Path, d: Path, k: Kind) {
    Dir(f) == d && KindOf(rules, f) == Some(k)
  }

  lemma GroupFirst(rules: Rules, files: seq<Path>, d: Path, k: Kind)
    requires files != []
    ensures Group(rules, files, d, k)
            == (if InGroup(rules, files[0], d, k) then [files[0]] else []) + Group(rules, files[1..], d, k)
  {
    var first := if Dir(files[0]) == d then [files[0]] else [];
    OfKindConcat(rules, first, InDir(files[1..], d), k);
    assert first != [] ==> first[1..] == [];
  }

  lemma FirstNamedStep(f: Path, rest: seq<Path>, names: seq<string>)
    ensures FirstNamed([f] + rest, names) == if Base(f) in names then Chosen(f) else FirstNamed(rest, names)
  {
    assert ([f] + rest)[1..] == rest;
  }

  /** None of the first `i` files is of the group and has one of the names. */
  ghost predicate NoneBefore(rules: Rules, files: seq<Path>, d: Path, k: Kind, names: seq<string>, i: nat) {
    i <= |files| && forall j :: 0 <= j < i && InGroup(rules, files[j], d, k) ==> Base(files[j]) !in names
  }

  lemma NoneBeforeStep(rules: Rules, files: seq<Path>, d: Path, k: Kind, names: seq<string>, i: nat)
    requires files != [] && NoneBefore(rules, files[1..], d, k, names, i)
    requires !(InGroup(rules, files[0], d, k) && Base(files[0]) in names)
    ensures NoneBefore(rules, files, d, k, names, i + 1)
  {
    assert forall j :: 0 < j < i + 1 ==> files[j] == files[1..][j - 1];
  }

  /** The first file of a group with one of the names is the first such file of the whole list. */
  lemma {:induction false} FirstOfGroup(rules: Rules, files: seq<Path>, d: Path, k: Kind, names: seq<string>)
      returns (i: nat)
    ensures match FirstNamed(Group(rules, files, d, k), names)
            case Chosen(f) => i < |files| && files[i] == f && InGroup(rules, f, d, k) && Base(f) in names
            case _ => i == |files|
    ensures NoneBefore(rules, files, d, k, names, i)
  {
    i := 0;
    if files != [] {
      var rest := Group(rules, files[1..], d, k);
      GroupFirst(rules, files, d, k);
      FirstNamedStep(files[0], rest, names);
      assert [] + rest == rest;
      if !(InGroup(rules, files[0], d, k) && Base(files[0]) in names) {
        i := FirstOfGroup(rules, files[1..], d, k, names);
        NoneBeforeStep(rules, files, d, k, names, i);
        i := i + 1;
      }
    }
  }

  /** Of different files, one is alone in its directory with its kind exactly when its group has one file. */
  lemma AloneIsSingle(rules: Rules, files: seq<Path>, f: Path)
    requires AllDifferent(files) && f in files && KindOf(rules, f).Some?
    ensures IsAlone(rules, files, f) <==> |Group(rules, files, Dir(f), KindOf(rules, f).value)| == 1
    ensures f in Group(rules, files, Dir(f), KindOf(rules, f).value)
  {
    var d, k := Dir(f), KindOf(rules, f).value;
    var group := Group(rules, files, d, k);
    InDirDifferent(files, d);
    OfKindDifferent(rules, InDir(files, d), k);
    GroupMembers(rules, files, d, k, f);
    if |group| == 1 {
      forall g | g in files && SameGroup(rules, f, g)
        ensures g == f
      {
        GroupMembers(rules, files, d, k, g);
      }
    } else {
      var g := if group[0] == f then group[1] else group[0];
      GroupMembers(rules, files, d, k, g);
      assert g in files && SameGroup(rules, f, g) && g != f;
    }
  }

  /** The file that stands for its group is the only one, or the first with a preferred name. */
  lemma StandsIff(rules: Rules, files: seq<Path>, f: Path)
    requires AllDifferent(files)
    ensures StandsForGroup(rules, files, f) <==> IsStandIn(rules, files, f)
  {
    if f in files && KindOf(rules, f).Some? {
      var d, k := Dir(f), KindOf(rules, f).value;
      var names := rules.preferred(k);
      AloneIsSingle(rules, files, f);
      var i := FirstOfGroup(rules, files, d, k, names);
      if IsFirstPreferred(rules, files, f, names) {
        var at :| 0 <= at < |files| && files[at] == f && Base(f) in names
                  && forall j :: 0 <= j < at && SameGroup(rules, f, files[j]) ==> Base(files[j]) !in names;
        assert InGroup(rules, files[at], d, k);
        assert i == at;
      }
      if FirstNamed(Group(rules, files, d, k), names) == Chosen(f) {
        assert IsFirstPreferred(rules, files, f, names);
      }
    }
  }

  /** A file stands for its directory and kind, and no Gradle file lies in a directory above if it is one. */
  ghost predicate IsKept(rules: Rules, all: seq<Path>, f: Path) {
    && IsStandIn(rules, all, f)
    && (KindOf(rules, f) == Some(Gradle) ==>
          forall g :: g in all && KindOf(rules, g) == Some(Gradle) ==> !(Dir(g) < Dir(f)))
  }

  lemma GradleAboveIs(rules: Rules, all: seq<Path>, d: Path)
    requires Consistent(rules) && !MissesSomeDefault(rules, all)
    ensures GradleAbove(rules, all, d) <==> exists g :: g in all && KindOf(rules, g) == Some(Gradle) && Dir(g) < d
  {
    if GradleAbove(rules, all, d) {
      var n: nat :| n < |d| && HasGradle(rules, all, d[..n]);
      GradleStands(rules, all, d[..n]);
    }
    if g :| g in all && KindOf(rules, g) == Some(Gradle) && Dir(g) < d {
      GroupHasGradle(rules, all, g);
      assert d[..|Dir(g)|] == Dir(g);
    }
  }

  /** Of the files with a package manager, `find` returns exactly those kept of all it reports: see IsKept. */
  lemma FindReturnsKept(rules: Rules, node: FsNode, path: Path, ignore: seq<string>, filter: seq<string>,
                        levelsDeep: int, f: Path)
    requires WellFormed(node) && Consistent(rules) && IsPath(path) && KindOf(rules, f).Some?
    requires FindIn(rules, node, path, ignore, filter, levelsDeep).Ok?
    ensures var found := FindIn(rules, node, path, ignore, filter, levelsDeep).value;
            f in found.files <==> IsKept(rules, found.allFilesFound, f)
  {
    var found := FindIn(rules, node, path, ignore, filter, levelsDeep).value;
    var all := found.allFilesFound;
    FindIsFiltered(rules, node, path, ignore, filter, levelsDeep);
    FindsEachOnce(node, path, ignore, filter, levelsDeep);
    ManagedMembers(rules, found.files, f);
    KeptExactly(rules, all, Managed(rules, found.files), f);
    StandsIff(rules, all, f);
    GradleAboveIs(rules, all, Dir(f));
  }

  // ----- filtering again -----

  /** filterForDefaultManifests is idempotent, as a function on lists. */
  lemma FilteredIsIdempotent(rules: Rules, files: seq<Path>)
    requires Consistent(rules) && FileList(files) && Filtered(rules, files).Ok?
    ensures Filtered(rules, Filtered(rules, files).value) == Filtered(rules, files)
  {
    var r := Filtered(rules, files).value;
    if |files| > 1 && |r| > 1 {
      LoopsFilter(rules, files);
      KeptHaveKinds(rules, files, r);
      SubListOfFiles(r, files);
      FilteredTwice(rules, files, r);
      LoopsFilter(rules, r);
      forall d
        ensures !MissesDefaultIn(rules, r, d)
      {
        assert InDir(r, d) == Final(rules, files, d);
        FinalSolo(rules, files, d);
        SoloNeverMisses(rules, InDir(r, d));
      }
      SameFiltered(rules, r, r, Filtered(rules, r).value);
    }
  }

  lemma PathsOfList(files: seq<Path>, all: seq<Path>)
    requires FileList(all) && forall f :: f in files ==> f in all
    ensures AllPaths(files)
  {
    SubListOfFiles(files, all);
  }

  /** There is only one filtered list. */
  lemma SameFiltered(rules: Rules, all: seq<Path>, a: seq<Path>, b: seq<Path>)
    requires FileList(all) && IsFiltered(rules, all, a) && IsFiltered(rules, all, b)
    ensures a == b
  {
    KeptHaveKinds(rules, all, a);
    KeptHaveKinds(rules, all, b);
    PathsOfList(a, all);
    PathsOfList(b, all);
    forall d
      ensures InDir(a, d) == InDir(b, d)
    {
      assert InDir(a, d) == Final(rules, all, d) && InDir(b, d) == Final(rules, all, d);
    }
    SortedUnique(a, b);
  }

  // ----- once at the top -----

  /** Filtering once: a failure or the filtered list, except that a lone file stays. */
  lemma OnceLeaves(rules: Rules, all: seq<Path>)
    requires Consistent(rules) && FileList(all)
    ensures LevelLeft(rules, all, Filtered(rules, all))
  {
    FilterLevel(rules, all, all);
  }

  ghost predicate AllHaveKinds(rules: Rules, files: seq<Path>) {
    forall f :: f in files ==> KindOf(rules, f).Some?
  }

  /**
   When every file found has a package manager, filtering at every directory on the way
   up gives the same list, or the same failure, as filtering everything found once.
   */
  lemma BottomUpIsOnce(rules: Rules, node: FsNode, path: Path, ignore: seq<string>, filter: seq<string>,
                       levelsDeep: int)
    requires WellFormed(node) && Consistent(rules) && IsPath(path) && (path == [] ==> !node.FileNode?)
    requires AllHaveKinds(rules, AllFound(node, path, ignore, filter, levelsDeep))
    ensures FilesOf(FindIn(rules, node, path, ignore, filter, levelsDeep))
            == Filtered(rules, AllFound(node, path, ignore, filter, levelsDeep))
  {
    var all := AllFound(node, path, ignore, filter, levelsDeep);
    WalkLeaves(rules, node, path, ignore, filter, levelsDeep);
    FoundIsFileList(node, path, ignore, filter, levelsDeep);
    OnceLeaves(rules, all);
    SameResult(rules, all, FilesOf(FindIn(rules, node, path, ignore, filter, levelsDeep)), Filtered(rules, all));
  }

  lemma SameResult(rules: Rules, all: seq<Path>, a: Result<seq<Path>, Failure>, b: Result<seq<Path>, Failure>)
    requires FileList(all) && LevelLeft(rules, all, a) && LevelLeft(rules, all, b)
    requires a.Ok? && b.Ok? ==> Managed(rules, a.value) == a.value && Managed(rules, b.value) == b.value
    ensures a == b
  {
    if a.Ok? && b.Ok? {
      SameFiltered(rules, all, a.value, b.value);
    } else {
      assert a.Err? && b.Err?;
      assert a.error == NoDefaultManifest && b.error == NoDefaultManifest;
    }
  }

  // ----- the files find returns -----

  /** The files returned that have a kind are a filtered list; any other is returned alone. */
  lemma FindIsFiltered(rules: Rules, node: FsNode, path: Path, ignore: seq<string>, filter: seq<string>,
                       levelsDeep: int)
    requires WellFormed(node) && Consistent(rules) && IsPath(path)
    requires FindIn(rules, node, path, ignore, filter, levelsDeep).Ok?
    ensures var found := FindIn(rules, node, path, ignore, filter, levelsDeep).value;
            var all := found.allFilesFound;
            && all == AllFound(node, path, ignore, filter, levelsDeep)
            && !MissesSomeDefault(rules, all)
            && IsFiltered(rules, all, Managed(rules, found.files))
            && (|found.files| > 1 ==> Managed(rules, found.files) == found.files)
  {
    WalkLeaves(rules, node, path, ignore, filter, levelsDeep);
  }

  /**
   Whatever list of names the caller gives, `find` reports exactly the files seen: see IsSeen.  None is
   reported twice, and the files returned are among them.
   */
  lemma FindReportsSeen(rules: Rules, node: FsNode, path: Path, names: seq<string>, filter: seq<string>, levels: int)
    requires WellFormed(node) && Consistent(rules) && IsPath(path)
    requires FindIn(rules, node, path, WithDefaults(names), filter, levels).Ok?
    ensures var found := FindIn(rules, node, path, WithDefaults(names), filter, levels).value;
            && (forall f :: f in found.allFilesFound
                  <==> path <= f && IsSeen(node, path, names, filter, levels, f[|path|..]))
            && AllDifferent(found.allFilesFound)
            && forall f :: f in found.files ==> f in found.allFilesFound
  {
    FindIsFiltered(rules, node, path, WithDefaults(names), filter, levels);
    FindsEachOnce(node, path, WithDefaults(names), filter, levels);
    WalkLeaves(rules, node, path, WithDefaults(names), filter, levels);
    forall f
      ensures f in AllFound(node, path, WithDefaults(names), filter, levels)
          <==> path <= f && IsSeen(node, path, names, filter, levels, f[|path|..])
    {
      FindsExactlySeen(node, path, names, filter, levels, f);
    }
  }

  /** `find` returns at most one file per directory and kind. */
  lemma FoundOnePerGroup(rules: Rules, node: FsNode, path: Path, ignore: seq<string>, filter: seq<string>,
                         levelsDeep: int, f: Path, g: Path)
    requires WellFormed(node) && Consistent(rules) && IsPath(path)
    requires FindIn(rules, node, path, ignore, filter, levelsDeep).Ok?
    requires var files := FindIn(rules, node, path, ignore, filter, levelsDeep).value.files; f in files && g in files
    requires Dir(f) == Dir(g) && KindOf(rules, f) == KindOf(rules, g)
    ensures f == g
  {
    var files := FindIn(rules, node, path, ignore, filter, levelsDeep).value.files;
    if |files| <= 1 {
      assert f == files[0] == g;
    } else {
      FindIsFiltered(rules, node, path, ignore, filter, levelsDeep);
      OnePerGroup(rules, AllFound(node, path, ignore, filter, levelsDeep), files, f, g);
    }
  }

  /** Of the Gradle files `find` returns, none lies in the subtree of another one's directory. */
  lemma FoundGradleAntichain(rules: Rules, node: FsNode, path: Path, ignore: seq<string>, filter: seq<string>,
                             levelsDeep: int, f: Path, g: Path)
    requires WellFormed(node) && Consistent(rules) && IsPath(path)
    requires FindIn(rules, node, path, ignore, filter, levelsDeep).Ok?
    requires var files := FindIn(rules, node, path, ignore, filter, levelsDeep).value.files; f in files && g in files
    requires KindOf(rules, f) == KindOf(rules, g) == Some(Gradle) && Dir(f) <= Dir(g)
    ensures f == g
  {
    var files := FindIn(rules, node, path, ignore, filter, levelsDeep).value.files;
    FindIsFiltered(rules, node, path, ignore, filter, levelsDeep);
    ManagedMembers(rules, files, f);
    ManagedMembers(rules, files, g);
    GradleAntichain(rules, AllFound(node, path, ignore, filter, levelsDeep), Managed(rules, files), f, g);
  }

  /** Every Gradle file the walk finds lies in the subtree of one that `find` returns. */
  lemma FoundGradleCovered(rules: Rules, node: FsNode, path: Path, ignore: seq<string>, filter: seq<string>,
                           levelsDeep: int, f: Path)
    returns (g: Path)
    requires WellFormed(node) && Consistent(rules) && IsPath(path)
    requires FindIn(rules, node, path, ignore, filter, levelsDeep).Ok?
    requires f in AllFound(node, path, ignore, filter, levelsDeep) && KindOf(rules, f) == Some(Gradle)
    ensures g in FindIn(rules, node, path, ignore, filter, levelsDeep).value.files
    ensures KindOf(rules, g) == Some(Gradle) && Dir(g) <= Dir(f)
  {
    var files := FindIn(rules, node, path, ignore, filter, levelsDeep).value.files;
    FindIsFiltered(rules, node, path, ignore, filter, levelsDeep);
    g := GradleCovered(rules, AllFound(node, path, ignore, filter, levelsDeep), Managed(rules, files), f);
    ManagedMembers(rules, files, g);
  }

  // ----- exactly when the two differ -----

  /** The filter, applied once, keeps nothing. */
  ghost predicate KeepsNothing(rules: Rules, all: seq<Path>) {
    forall d :: Final(rules, all, d) == []
  }

  /**
   A count over the tree alone: 1 for a file found; for a directory the sum over its
   entries if that is 1, and otherwise 0, since the filter then runs.
   */
  function Residue(node: FsNode, path: Path, ignore: seq<string>, filter: seq<string>, levelsDeep: int): nat
    decreases node, 1, 0
  {
    if Blocked(path) || levelsDeep < 0 then 0
    else
      match node
      case FileNode => if Matches(filter, path) then 1 else 0
      case OtherNode => 0
      case DirNode(entries) => if ResidueSum(entries, path, ignore, filter, levelsDeep - 1) == 1 then 1 else 0
  }

  function ResidueSum(entries: seq<Entry>, path: Path, ignore: seq<string>, filter: seq<string>, levelsDeep: int): nat
    decreases entries, 0, |entries|
  {
    if entries == [] then 0
    else
      var e := entries[|entries| - 1];
      ResidueSum(entries[..|entries| - 1], path, ignore, filter, levelsDeep)
      + (if e.name in ignore then 0 else Residue(e.node, path + [e.name], ignore, filter, levelsDeep))
  }

  /** If some group has a file to stand for it, something is kept. */
  lemma SomeStandsSomeKept(rules: Rules, all: seq<Path>, d: Path) returns (e: Path)
    requires Block(rules, InDir(all, d)) != []
    ensures Final(rules, all, e) != []
  {
    var block := Block(rules, InDir(all, d));
    DropKindMembers(rules, block, Gradle, block[0]);
    OfKindMembers(rules, block, Gradle, block[0]);
    if KindOf(rules, block[0]) == Some(Gradle) {
      assert d[..|d|] == d;
      var m := LeastGradle(rules, all, d, |d|);
      e := d[..m];
      GradleStands(rules, all, e);
      var f :| f in all && Dir(f) == e && KindOf(rules, f) == Some(Gradle) && StandsForGroup(rules, all, f);
      BlockExactly(rules, all, e, f);
    } else {
      e := d;
    }
  }

  /** Nothing is kept exactly when no group anywhere has a file to stand for it. */
  lemma NothingStands(rules: Rules, all: seq<Path>)
    ensures KeepsNothing(rules, all) <==> forall d :: Block(rules, InDir(all, d)) == []
  {
    if d :| Block(rules, InDir(all, d)) != [] {
      var e := SomeStandsSomeKept(rules, all, d);
    }
    assert DropKind(rules, [], Gradle) == [];
  }

  lemma NothingBelow(rules: Rules, entries: seq<Entry>, path: Path, ignore: seq<string>, filter: seq<string>,
                     levelsDeep: int, i: nat)
    requires GoodEntries(entries) && i < |entries| && entries[i].node.DirNode?
    requires KeepsNothing(rules, AllInDirectory(entries, path, ignore, filter, levelsDeep))
    ensures KeepsNothing(rules, AllInEntry(entries[i], path, ignore, filter, levelsDeep))
  {
    var l, all := AllInDirectory(entries, path, ignore, filter, levelsDeep),
            AllInEntry(entries[i], path, ignore, filter, levelsDeep);
    NothingStands(rules, l);
    forall d
      ensures Block(rules, InDir(all, d)) == []
    {
      if InDir(all, d) == [] {
        EmptyBlock(rules);
      } else {
        InDirMembers(all, d, InDir(all, d)[0]);
        EntryDirs(entries[i], path, ignore, filter, levelsDeep, InDir(all, d)[0]);
        OnlyInEntry(entries, path, ignore, filter, levelsDeep, i, d);
        assert Block(rules, InDir(l, d)) == [];
      }
    }
    NothingStands(rules, all);
  }

  /** The entry's result holds as many files as its residue counts. */
  ghost predicate EntryCounted(rules: Rules, e: Entry, path: Path, ignore: seq<string>, filter: seq<string>,
                               levelsDeep: int)
  {
    var r := FindInEntry(rules, e, path, ignore, filter, levelsDeep);
    r.Ok? && |r.value.files|
        == if e.name in ignore then 0 else Residue(e.node, path + [e.name], ignore, filter, levelsDeep)
  }

  lemma {:induction false} SumCounted(rules: Rules, entries: seq<Entry>, path: Path, ignore: seq<string>,
                                      filter: seq<string>, levelsDeep: int)
    requires forall i :: 0 <= i < |entries| ==> EntryCounted(rules, entries[i], path, ignore, filter, levelsDeep)
    ensures var r := FindInDirectory(rules, entries, path, ignore, filter, levelsDeep);
            r.Ok? && |r.value.files| == ResidueSum(entries, path, ignore, filter, levelsDeep)
    decreases |entries|
  {
    if entries != [] {
      var n := |entries| - 1;
      forall i | 0 <= i < n
        ensures EntryCounted(rules, entries[..n][i], path, ignore, filter, levelsDeep)
      {
        assert entries[..n][i] == entries[i];
      }
      SumCounted(rules, entries[..n], path, ignore, filter, levelsDeep);
      assert EntryCounted(rules, entries[n], path, ignore, filter, levelsDeep);
    }
  }

  lemma {:induction false} EntriesOk(rules: Rules, entries: seq<Entry>, path: Path, ignore: seq<string>,
                                     filter: seq<string>, levelsDeep: int, i: nat)
    requires FindInDirectory(rules, entries, path, ignore, filter, levelsDeep).Ok? && i < |entries|
    ensures FindInEntry(rules, entries[i], path, ignore, filter, levelsDeep).Ok?
    decreases |entries|
  {
    if FindInEntry(rules, entries[i], path, ignore, filter, levelsDeep).Err? {
      FailsAtEntry(rules, entries, path, ignore, filter, levelsDeep, i);
    }
  }

  /** Where nothing is kept, the filtered list is empty. */
  lemma NothingIsEmpty(rules: Rules, all: seq<Path>, files: seq<Path>)
    requires FileList(all) && KeepsNothing(rules, all) && IsFiltered(rules, all, files)
    ensures files == []
  {
    assert IsFiltered(rules, all, []);
    SameFiltered(rules, all, files, []);
  }

  /** Where nothing is kept, the filter at a directory leaves a single file as it is and otherwise nothing. */
  lemma LeftOfNothing(rules: Rules, all: seq<Path>, before: seq<Path>, files: seq<Path>)
    requires Consistent(rules) && FileList(all) && FileList(before) && KeepsNothing(rules, all)
    requires Left(rules, all, files) && Filtered(rules, before) == Ok(files)
    ensures |files| == if |before| == 1 then 1 else 0
  {
    if |before| > 1 {
      LoopsFilter(rules, before);
      KeptHaveKinds(rules, before, files);
      NothingIsEmpty(rules, all, files);
    }
  }

  lemma DirectoryResidue(rules: Rules, node: FsNode, path: Path, ignore: seq<string>, filter: seq<string>,
                         levelsDeep: int)
    requires WellFormed(node) && node.DirNode? && Consistent(rules) && IsPath(path) && !Blocked(path) && levelsDeep >= 0
    requires FindIn(rules, node, path, ignore, filter, levelsDeep).Ok?
    requires KeepsNothing(rules, AllFound(node, path, ignore, filter, levelsDeep))
    requires forall i :: 0 <= i < |node.entries| ==>
               EntryCounted(rules, node.entries[i], path, ignore, filter, levelsDeep - 1)
    ensures |FindIn(rules, node, path, ignore, filter, levelsDeep).value.files|
            == Residue(node, path, ignore, filter, levelsDeep)
  {
    SumCounted(rules, node.entries, path, ignore, filter, levelsDeep - 1);
    WalkLeaves(rules, node, path, ignore, filter, levelsDeep);
    FoundIsFileList(node, path, ignore, filter, levelsDeep);
    FilesBeforeFilter(rules, node, path, ignore, filter, levelsDeep);
    LeftOfNothing(rules, AllFound(node, path, ignore, filter, levelsDeep),
                  FindInDirectory(rules, node.entries, path, ignore, filter, levelsDeep - 1).value.files,
                  FindIn(rules, node, path, ignore, filter, levelsDeep).value.files);
  }

  lemma EntryCountedFrom(rules: Rules, e: Entry, path: Path, ignore: seq<string>, filter: seq<string>, levelsDeep: int)
    requires FindInEntry(rules, e, path, ignore, filter, levelsDeep).Ok?
    requires e.name !in ignore && e.node.DirNode? ==>
               |FindIn(rules, e.node, path + [e.name], ignore, filter, levelsDeep).value.files|
               == Residue(e.node, path + [e.name], ignore, filter, levelsDeep)
    ensures EntryCounted(rules, e, path, ignore, filter, levelsDeep)
  {
  }

  /** What holds of a directory holds of each entry: `find` succeeds and nothing is kept. */
  lemma NothingKeptInEntry(rules: Rules, node: FsNode, path: Path, ignore: seq<string>, filter: seq<string>,
                           levelsDeep: int, i: nat)
    requires WellFormed(node) && node.DirNode? && i < |node.entries| && !Blocked(path) && levelsDeep >= 0
    requires FindIn(rules, node, path, ignore, filter, levelsDeep).Ok?
    requires KeepsNothing(rules, AllFound(node, path, ignore, filter, levelsDeep))
    ensures var e := node.entries[i];
            && WellFormed(e.node) && IsName(e.name)
            && FindInEntry(rules, e, path, ignore, filter, levelsDeep - 1).Ok?
            && (e.node.DirNode? ==> KeepsNothing(rules, AllInEntry(e, path, ignore, filter, levelsDeep - 1)))
  {
    EntriesOk(rules, node.entries, path, ignore, filter, levelsDeep - 1, i);
    if node.entries[i].node.DirNode? {
      NothingBelow(rules, node.entries, path, ignore, filter, levelsDeep - 1, i);
    }
  }

  /** Where the filter would keep nothing, `find` returns as many files as the residue says: none, or a lone one. */
  lemma {:induction false} ResidueIsLeft(rules: Rules, node: FsNode, path: Path, ignore: seq<string>,
                                         filter: seq<string>, levelsDeep: int)
    requires WellFormed(node) && Consistent(rules) && IsPath(path)
    requires FindIn(rules, node, path, ignore, filter, levelsDeep).Ok?
    requires KeepsNothing(rules, AllFound(node, path, ignore, filter, levelsDeep))
    ensures |FindIn(rules, node, path, ignore, filter, levelsDeep).value.files|
            == Residue(node, path, ignore, filter, levelsDeep)
    decreases node
  {
    if !Blocked(path) && levelsDeep >= 0 && node.DirNode? {
      forall i | 0 <= i < |node.entries|
        ensures EntryCounted(rules, node.entries[i], path, ignore, filter, levelsDeep - 1)
      {
        var e := node.entries[i];
        NothingKeptInEntry(rules, node, path, ignore, filter, levelsDeep, i);
        if e.name !in ignore && e.node.DirNode? {
          ResidueIsLeft(rules, e.node, path + [e.name], ignore, filter, levelsDeep - 1);
        }
        EntryCountedFrom(rules, e, path, ignore, filter, levelsDeep - 1);
      }
      DirectoryResidue(rules, node, path, ignore, filter, levelsDeep);
    }
  }

  lemma {:induction false} FilesAreFound(rules: Rules, entries: seq<Entry>, path: Path, ignore: seq<string>,
                                         filter: seq<string>, levelsDeep: int)
    requires GoodEntries(entries) && Consistent(rules) && IsPath(path)
    requires FindInDirectory(rules, entries, path, ignore, filter, levelsDeep).Ok?
    ensures forall f :: f in FindInDirectory(rules, entries, path, ignore, filter, levelsDeep).value.files
                        ==> f in AllInDirectory(entries, path, ignore, filter, levelsDeep)
    decreases |entries|
  {
    if entries != [] {
      var n := |entries| - 1;
      FilesAreFound(rules, entries[..n], path, ignore, filter, levelsDeep);
      if entries[n].name !in ignore {
        assert IsName(entries[n].name);
        WalkLeaves(rules, entries[n].node, path + [entries[n].name], ignore, filter, levelsDeep);
      }
    }
  }

  lemma FilesBeforeFilter(rules: Rules, node: FsNode, path: Path, ignore: seq<string>, filter: seq<string>,
                          levelsDeep: int)
    requires WellFormed(node) && node.DirNode? && Consistent(rules) && IsPath(path) && !Blocked(path) && levelsDeep >= 0
    requires FindInDirectory(rules, node.entries, path, ignore, filter, levelsDeep - 1).Ok?
    ensures FileList(FindInDirectory(rules, node.entries, path, ignore, filter, levelsDeep - 1).value.files)
  {
    FilesAreFound(rules, node.entries, path, ignore, filter, levelsDeep - 1);
    FoundIsFileList(node, path, ignore, filter, levelsDeep);
    SubListOfFiles(FindInDirectory(rules, node.entries, path, ignore, filter, levelsDeep - 1).value.files,
                   AllFound(node, path, ignore, filter, levelsDeep));
  }

  lemma {:induction false} InDirDifferent(files: seq<Path>, d: Path)
    requires AllDifferent(files)
    ensures AllDifferent(InDir(files, d))
  {
    if files != [] {
      var rest := InDir(files[1..], d);
      InDirDifferent(files[1..], d);
      forall i | 0 <= i < |rest|
        ensures rest[i] != files[0]
      {
        InDirMembers(files[1..], d, rest[i]);
      }
    }
  }

  lemma {:induction false} OfKindDifferent(rules: Rules, files: seq<Path>, k: Kind)
    requires AllDifferent(files)
    ensures AllDifferent(OfKind(rules, files, k))
  {
    if files != [] {
      var rest := OfKind(rules, files[1..], k);
      OfKindDifferent(rules, files[1..], k);
      forall i | 0 <= i < |rest|
        ensures rest[i] != files[0]
      {
        OfKindMembers(rules, files[1..], k, rest[i]);
      }
    }
  }

  /** Another file of the same directory has the same kind. */
  ghost predicate HasRival(rules: Rules, all: seq<Path>, f: Path) {
    exists g :: g in all && g != f && Dir(g) == Dir(f) && KindOf(rules, g) == KindOf(rules, f)
  }

  /**
   By names alone: no file that has a kind can stand for its group, since another file of
   the directory has the same kind and the kind prefers no name.
   */
  ghost predicate AllCrowdedOut(rules: Rules, all: seq<Path>) {
    forall f {:trigger HasRival(rules, all, f)} :: f in all && KindOf(rules, f).Some? ==>
      HasRival(rules, all, f) && rules.preferred(KindOf(rules, f).value) == []
  }

  ghost function Group(rules: Rules, all: seq<Path>, d: Path, k: Kind): seq<Path> {
    OfKind(rules, InDir(all, d), k)
  }

  lemma GroupMembers(rules: Rules, all: seq<Path>, d: Path, k: Kind, f: Path)
    ensures f in Group(rules, all, d, k) <==> f in all && Dir(f) == d && KindOf(rules, f) == Some(k)
  {
    InDirMembers(all, d, f);
    OfKindMembers(rules, InDir(all, d), k, f);
  }

  /** A file crowded out has a group of several files, of which none is chosen and none is missed. */
  lemma CrowdedGroup(rules: Rules, all: seq<Path>, d: Path, k: Kind)
    requires AllCrowdedOut(rules, all) && Group(rules, all, d, k) != []
    ensures Choose(rules, Group(rules, all, d, k), k) == NoDefault
  {
    var group := Group(rules, all, d, k);
    var f := group[0];
    GroupMembers(rules, all, d, k, f);
    assert HasRival(rules, all, f);
    var g :| g in all && g != f && Dir(g) == Dir(f) && KindOf(rules, g) == KindOf(rules, f);
    GroupMembers(rules, all, d, k, g);
  }

  lemma CrowdedKeepsNothing(rules: Rules, all: seq<Path>)
    requires AllCrowdedOut(rules, all)
    ensures KeepsNothing(rules, all) && !MissesSomeDefault(rules, all)
  {
    forall d
      ensures Block(rules, InDir(all, d)) == [] && !MissesDefaultIn(rules, all, d)
    {
      var block, kinds := Block(rules, InDir(all, d)), Kinds(rules, InDir(all, d));
      if block != [] {
        var k := KindOfBlock(rules, all, d, block[0]);
        CrowdedGroup(rules, all, d, k);
      }
      forall i | 0 <= i < |kinds|
        ensures Choose(rules, OfKind(rules, InDir(all, d), kinds[i]), kinds[i]) != Missing
      {
        KindsMembers(rules, InDir(all, d), kinds[i]);
        CrowdedGroup(rules, all, d, kinds[i]);
      }
    }
    NothingStands(rules, all);
  }

  lemma KindOfBlock(rules: Rules, all: seq<Path>, d: Path, f: Path) returns (k: Kind)
    requires f in Block(rules, InDir(all, d))
    ensures f in Group(rules, all, d, k) && Choose(rules, Group(rules, all, d, k), k) == Chosen(f)
  {
    BlockExactly(rules, all, d, f);
    k := KindOf(rules, f).value;
    GroupMembers(rules, all, d, k, f);
  }

  /** Where nothing is kept and no default is missed, every group has several files and no preferred names. */
  lemma NothingKeptCrowds(rules: Rules, all: seq<Path>, f: Path)
    requires AllDifferent(all) && KeepsNothing(rules, all) && !MissesSomeDefault(rules, all)
    requires f in all && KindOf(rules, f).Some?
    ensures rules.preferred(KindOf(rules, f).value) == []
    ensures HasRival(rules, all, f)
  {
    var d, k := Dir(f), KindOf(rules, f).value;
    var group := Group(rules, all, d, k);
    GroupMembers(rules, all, d, k, f);
    NobodyChosen(rules, all, d, k);
    NoDefaultMeansNoNames(rules, group, k);
    InDirDifferent(all, d);
    OfKindDifferent(rules, InDir(all, d), k);
    var g := if group[0] == f then group[1] else group[0];
    GroupMembers(rules, all, d, k, g);
  }

  lemma NobodyChosen(rules: Rules, all: seq<Path>, d: Path, k: Kind)
    requires KeepsNothing(rules, all) && !MissesSomeDefault(rules, all) && Group(rules, all, d, k) != []
    ensures Choose(rules, Group(rules, all, d, k), k) == NoDefault && |Group(rules, all, d, k)| > 1
  {
    var group, kinds := Group(rules, all, d, k), Kinds(rules, InDir(all, d));
    NothingStands(rules, all);
    KindsMembers(rules, InDir(all, d), k);
    var i :| 0 <= i < |kinds| && kinds[i] == k;
    assert !MissesDefaultIn(rules, all, d) && Block(rules, InDir(all, d)) == [];
    if Choose(rules, group, k).Chosen? {
      BlockOfExactly(rules, InDir(all, d), kinds, Choose(rules, group, k).file);
    }
  }

  /** The filter, applied once, succeeds and keeps nothing exactly when the names crowd every file out. */
  lemma KeepsNothingByNames(rules: Rules, all: seq<Path>)
    requires AllDifferent(all)
    ensures KeepsNothing(rules, all) && !MissesSomeDefault(rules, all) <==> AllCrowdedOut(rules, all)
  {
    if AllCrowdedOut(rules, all) {
      CrowdedKeepsNothing(rules, all);
    }
    if KeepsNothing(rules, all) && !MissesSomeDefault(rules, all) {
      forall f | f in all && KindOf(rules, f).Some?
        ensures rules.preferred(KindOf(rules, f).value) == []
        ensures HasRival(rules, all, f)
      {
        NothingKeptCrowds(rules, all, f);
      }
    }
  }

  /** Several files are found, their names crowd every one out, and one of them slips through every directory alone. */
  ghost predicate LoneFileSlipsThrough(rules: Rules, node: FsNode, path: Path, ignore: seq<string>,
                                       filter: seq<string>, levelsDeep: int)
  {
    var all := AllFound(node, path, ignore, filter, levelsDeep);
    && |all| > 1
    && AllCrowdedOut(rules, all)
    && Residue(node, path, ignore, filter, levelsDeep) == 1
  }

  /** At most one file found is returned as it is. */
  lemma {:induction false} SmallTree(rules: Rules, node: FsNode, path: Path, ignore: seq<string>, filter: seq<string>,
                                     levelsDeep: int)
    requires |AllFound(node, path, ignore, filter, levelsDeep)| <= 1
    ensures var all := AllFound(node, path, ignore, filter, levelsDeep);
            FindIn(rules, node, path, ignore, filter, levelsDeep) == Ok(Found(all, all))
    decreases node, 1, 0
  {
    if !Blocked(path) && levelsDeep >= 0 && node.DirNode? {
      SmallDirectory(rules, node.entries, path, ignore, filter, levelsDeep - 1);
    }
  }

  lemma {:induction false} SmallDirectory(rules: Rules, entries: seq<Entry>, path: Path, ignore: seq<string>,
                                          filter: seq<string>, levelsDeep: int)
    requires |AllInDirectory(entries, path, ignore, filter, levelsDeep)| <= 1
    ensures var all := AllInDirectory(entries, path, ignore, filter, levelsDeep);
            FindInDirectory(rules, entries, path, ignore, filter, levelsDeep) == Ok(Found(all, all))
    decreases entries, 0, |entries|
  {
    if entries != [] {
      var n := |entries| - 1;
      SmallDirectory(rules, entries[..n], path, ignore, filter, levelsDeep);
      if entries[n].name !in ignore {
        SmallTree(rules, entries[n].node, path + [entries[n].name], ignore, filter, levelsDeep);
      }
    }
  }

  lemma EmptyKeepsNothing(rules: Rules, all: seq<Path>)
    requires IsFiltered(rules, all, [])
    ensures KeepsNothing(rules, all)
  {
    forall d
      ensures Final(rules, all, d) == []
    {
      assert InDir([], d) == Final(rules, all, d);
    }
  }

  lemma SameUnlessLone(rules: Rules, all: seq<Path>, files: seq<Path>, once: seq<Path>)
    requires Consistent(rules) && FileList(all) && |all| > 1
    requires Left(rules, all, files) && Filtered(rules, all) == Ok(once)
    ensures files == once <==> !(KeepsNothing(rules, all) && |files| == 1)
  {
    LoopsFilter(rules, all);
    if Managed(rules, files) == files {
      SameFiltered(rules, all, files, once);
    }
    if KeepsNothing(rules, all) {
      NothingIsEmpty(rules, all, once);
      NothingIsEmpty(rules, all, Managed(rules, files));
    }
    if Managed(rules, files) == [] {
      EmptyKeepsNothing(rules, all);
    }
  }

  /** Filtering on the way up and filtering once differ exactly when a lone file slips through. */
  lemma SameUnlessLoneFile(rules: Rules, node: FsNode, path: Path, ignore: seq<string>, filter: seq<string>,
                           levelsDeep: int)
    requires WellFormed(node) && Consistent(rules) && IsPath(path) && (path == [] ==> !node.FileNode?)
    ensures FilesOf(FindIn(rules, node, path, ignore, filter, levelsDeep))
            == Filtered(rules, AllFound(node, path, ignore, filter, levelsDeep))
        <==> !LoneFileSlipsThrough(rules, node, path, ignore, filter, levelsDeep)
  {
    var all := AllFound(node, path, ignore, filter, levelsDeep);
    var r, once := FilesOf(FindIn(rules, node, path, ignore, filter, levelsDeep)), Filtered(rules, all);
    if |all| <= 1 {
      SmallTree(rules, node, path, ignore, filter, levelsDeep);
    } else {
      WalkLeaves(rules, node, path, ignore, filter, levelsDeep);
      FoundIsFileList(node, path, ignore, filter, levelsDeep);
      OnceLeaves(rules, all);
      FindsEachOnce(node, path, ignore, filter, levelsDeep);
      KeepsNothingByNames(rules, all);
      if MissesSomeDefault(rules, all) {
        SameResult(rules, all, r, once);
      } else {
        SameUnlessLone(rules, all, r.value, once.value);
        if KeepsNothing(rules, all) {
          ResidueIsLeft(rules, node, path, ignore, filter, levelsDeep);
        }
      }
    }
  }
}
