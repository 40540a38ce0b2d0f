/**
 filterForDefaultManifests of src/lib/find-files.ts as written: sort by directory,
 group by directory and by kind, and push one file per group unless a Gradle file
 already kept stands above it.
 */
module ManifestFilter {
  import opened Wrappers
  import opened Strings
  import opened Paths
  import opened Manifests

  /** The TypeError of reading `.path` of a default manifest that is not there. */
  datatype Failure = NoDefaultManifest

  // ----- sortBy and groupBy -----

  function Insert(f: Path, sorted: seq<Path>): seq<Path> {
    if sorted == [] || DirLeq(Dir(f), Dir(sorted[0])) then [f] + sorted
    else [sorted[0]] + Insert(f, sorted[1..])
  }

  /** A stable sort by directory. */
  function SortByDir(files: seq<Path>): seq<Path> {
    if files == [] then [] else Insert(files[0], SortByDir(files[1..]))
  }

  /** The directories of the files, by first appearance. */
  function Dirs(files: seq<Path>): seq<Path> {
    if files == [] then []
    else
      var dirs := Dirs(files[..|files| - 1]);
      var d := Dir(files[|files| - 1]);
      if d in dirs then dirs else dirs + [d]
  }

  lemma {:induction false} InsertInDir(f: Path, sorted: seq<Path>, d: Path)
    requires DirSorted(sorted)
    ensures InDir(Insert(f, sorted), d) == InDir([f], d) + InDir(sorted, d)
  {
    if sorted == [] || DirLeq(Dir(f), Dir(sorted[0])) {
      InDirConcat([f], sorted, d);
    } else {
      InsertInDir(f, sorted[1..], d);
      InDirConcat([sorted[0]], Insert(f, sorted[1..]), d);
      InDirConcat([sorted[0]], sorted[1..], d);
      assert [sorted[0]] + sorted[1..] == sorted;
      DirLeqReflexive(Dir(f));
      assert Dir(f) != Dir(sorted[0]);
      assert [f][1..] == [] && [sorted[0]][1..] == [];
      if Dir(f) == d {
        assert InDir([sorted[0]], d) == [];
      } else {
        assert InDir([f], d) == [];
      }
    }
  }

  lemma {:induction false} InsertMembers(f: Path, sorted: seq<Path>, g: Path)
    ensures g in Insert(f, sorted) <==> g == f || g in sorted
  {
    if sorted != [] && !DirLeq(Dir(f), Dir(sorted[0])) {
      InsertMembers(f, sorted[1..], g);
      assert g in sorted <==> g == sorted[0] || g in sorted[1..];
    }
  }

  lemma {:induction false} InsertSorted(f: Path, sorted: seq<Path>)
    requires DirSorted(sorted)
    ensures DirSorted(Insert(f, sorted))
  {
    if sorted == [] {
    } else if DirLeq(Dir(f), Dir(sorted[0])) {
      forall j | 0 <= j < |sorted|
        ensures DirLeq(Dir(f), Dir(sorted[j]))
      {
        if j > 0 {
          DirLeqTransitive(Dir(f), Dir(sorted[0]), Dir(sorted[j]));
        }
      }
    } else {
      var rest := Insert(f, sorted[1..]);
      InsertSorted(f, sorted[1..]);
      DirLeqTotal(Dir(f), Dir(sorted[0]));
      forall j | 0 <= j < |rest|
        ensures DirLeq(Dir(sorted[0]), Dir(rest[j]))
      {
        InsertMembers(f, sorted[1..], rest[j]);
        if rest[j] in sorted[1..] {
          var i :| 0 <= i < |sorted[1..]| && sorted[1..][i] == rest[j];
          assert sorted[i + 1] == rest[j];
        }
      }
    }
  }

  /** Sorting orders the directories and leaves each directory's files as they were. */
  lemma {:induction false} SortByDirIsStable(files: seq<Path>)
    ensures DirSorted(SortByDir(files))
    ensures forall d :: InDir(SortByDir(files), d) == InDir(files, d)
  {
    if files != [] {
      var sorted := SortByDir(files[1..]);
      SortByDirIsStable(files[1..]);
      InsertSorted(files[0], sorted);
      forall d
        ensures InDir(SortByDir(files), d) == InDir(files, d)
      {
        InsertInDir(files[0], sorted, d);
        assert InDir(sorted, d) == InDir(files[1..], d);
        assert [files[0]] + files[1..] == files;
        InDirConcat([files[0]], files[1..], d);
      }
    }
  }

  lemma {:induction false} DirsMembers(files: seq<Path>, d: Path)
    ensures d in Dirs(files) <==> exists i :: 0 <= i < |files| && Dir(files[i]) == d
  {
    if files != [] {
      var init := files[..|files| - 1];
      DirsMembers(init, d);
      if exists i :: 0 <= i < |files| && Dir(files[i]) == d {
        var i :| 0 <= i < |files| && Dir(files[i]) == d;
        if i < |init| {
          assert Dir(init[i]) == d;
        }
      }
      if d in Dirs(init) {
        var i :| 0 <= i < |init| && Dir(init[i]) == d;
        assert Dir(files[i]) == d;
      }
    }
  }

  /** The groups of a sorted list come in strictly increasing order. */
  ghost predicate StrictlySorted(dirs: seq<Path>) {
    forall i, j :: 0 <= i < j < |dirs| ==> dirs[i] != dirs[j] && DirLeq(dirs[i], dirs[j])
  }

  lemma {:induction false} DirsSorted(files: seq<Path>)
    requires DirSorted(files)
    ensures StrictlySorted(Dirs(files))
  {
    if files != [] {
      var init := files[..|files| - 1];
      var d := Dir(files[|files| - 1]);
      DirsSorted(init);
      forall i | 0 <= i < |Dirs(init)|
        ensures DirLeq(Dirs(init)[i], d)
      {
        DirsMembers(init, Dirs(init)[i]);
        var k :| 0 <= k < |init| && Dir(init[k]) == Dirs(init)[i];
        assert files[k] == init[k];
      }
    }
  }

  // ----- the loops -----

  /** shouldSkipAddingFile. */
  predicate ShouldSkip(rules: Rules, k: Kind, f: Path, kept: seq<Path>) {
    k == Gradle &&
    exists i :: 0 <= i < |kept| && rules.gradleName(Base(kept[i])) && !StartsUp(Relative(Dir(kept[i]), f))
  }

  function KeepKind(rules: Rules, kept: seq<Path>, files: seq<Path>, k: Kind): Result<seq<Path>, Failure> {
    var group := OfKind(rules, files, k);
    match Choose(rules, group, k)
    case Missing => Err(NoDefaultManifest)
    case NoDefault => Ok(kept)
    case Chosen(f) => if group != [] && ShouldSkip(rules, k, group[0], kept) then Ok(kept) else Ok(kept + [f])
  }

  /** The inner loop, over the kinds of one directory. */
  function KeepKinds(rules: Rules, kept: seq<Path>, files: seq<Path>, kinds: seq<Kind>): Result<seq<Path>, Failure> {
    if kinds == [] then Ok(kept)
    else
      match KeepKinds(rules, kept, files, kinds[..|kinds| - 1])
      case Err(e) => Err(e)
      case Ok(sofar) => KeepKind(rules, sofar, files, kinds[|kinds| - 1])
  }

  /** The outer loop, over the directories. */
  function KeepDirs(rules: Rules, sorted: seq<Path>, dirs: seq<Path>): Result<seq<Path>, Failure> {
    if dirs == [] then Ok([])
    else
      match KeepDirs(rules, sorted, dirs[..|dirs| - 1])
      case Err(e) => Err(e)
      case Ok(kept) =>
        var files := InDir(sorted, dirs[|dirs| - 1]);
        KeepKinds(rules, kept, files, Kinds(rules, files))
  }

  function Filtered(rules: Rules, files: seq<Path>): Result<seq<Path>, Failure> {
    if |files| <= 1 then Ok(files)
    else KeepDirs(rules, SortByDir(files), Dirs(SortByDir(files)))
  }

  /** The inner loop: at most one file per kind of the directory is pushed. */
  method FilterDirectory(rules: Rules, kept: seq<Path>, filesInDirectory: seq<Path>)
    returns (r: Result<seq<Path>, Failure>)
    ensures r == KeepKinds(rules, kept, filesInDirectory, Kinds(rules, filesInDirectory))
  {
    var filteredFiles := kept;
    var kinds := Kinds(rules, filesInDirectory);
    for j := 0 to |kinds|
      invariant KeepKinds(rules, kept, filesInDirectory, kinds[..j]) == Ok(filteredFiles)
    {
      var filesPerPackageManager := OfKind(rules, filesInDirectory, kinds[j]);
      TakeLast(kinds, j);
      var choice := Choose(rules, filesPerPackageManager, kinds[j]);
      match choice {
        case Missing =>
          KindFails(rules, kept, filesInDirectory, kinds, j + 1);
          return Err(NoDefaultManifest);
        case NoDefault =>
        case Chosen(file) =>
          if filesPerPackageManager == [] || !ShouldSkip(rules, kinds[j], filesPerPackageManager[0], filteredFiles) {
            filteredFiles := filteredFiles + [file];
          }
      }
    }
    TakeAll(kinds);
    r := Ok(filteredFiles);
  }

  method FilterForDefaultManifests(rules: Rules, files: seq<Path>) returns (r: Result<seq<Path>, Failure>)
    ensures r == Filtered(rules, files)
  {
    if |files| <= 1 {
      return Ok(files);
    }
    var filteredFiles: seq<Path> := [];
    var sorted := SortByDir(files);
    var directories := Dirs(sorted);
    for i := 0 to |directories|
      invariant KeepDirs(rules, sorted, directories[..i]) == Ok(filteredFiles)
    {
      TakeLast(directories, i);
      r := FilterDirectory(rules, filteredFiles, InDir(sorted, directories[i]));
      if r.Err? {
        assert r.error == NoDefaultManifest;
        DirFails(rules, sorted, directories, i + 1);
        return;
      }
      filteredFiles := r.value;
    }
    TakeAll(directories);
    r := Ok(filteredFiles);
  }

  lemma TakeLast<T>(s: seq<T>, i: nat)
    requires i < |s|
    ensures s[..i + 1][..i] == s[..i] && s[..i + 1][i] == s[i]
  {
  }

  lemma {:induction false} KindFails(rules: Rules, kept: seq<Path>, files: seq<Path>, kinds: seq<Kind>, j: nat)
    requires j <= |kinds| && KeepKinds(rules, kept, files, kinds[..j]) == Err(NoDefaultManifest)
    ensures KeepKinds(rules, kept, files, kinds) == Err(NoDefaultManifest)
    decreases |kinds|
  {
    if j == |kinds| {
      assert kinds[..j] == kinds;
    } else {
      assert kinds[..|kinds| - 1][..j] == kinds[..j];
      KindFails(rules, kept, files, kinds[..|kinds| - 1], j);
    }
  }

  lemma {:induction false} DirFails(rules: Rules, sorted: seq<Path>, dirs: seq<Path>, i: nat)
    requires i <= |dirs| && KeepDirs(rules, sorted, dirs[..i]) == Err(NoDefaultManifest)
    ensures KeepDirs(rules, sorted, dirs) == Err(NoDefaultManifest)
    decreases |dirs|
  {
    if i == |dirs| {
      assert dirs[..i] == dirs;
    } else {
      assert dirs[..|dirs| - 1][..i] == dirs[..i];
      DirFails(rules, sorted, dirs[..|dirs| - 1], i);
    }
  }

  // ----- the loops keep what they should -----

  /** Different files, none of which is a directory of another. */
  ghost predicate FileList(files: seq<Path>) {
    && (forall i :: 0 <= i < |files| ==> files[i] != [] && IsPath(files[i]))
    && (forall i, j :: 0 <= i < |files| && 0 <= j < |files| ==> !(files[i] <= Dir(files[j])))
  }

  /** Some group of the directory has more than one file and no default among them. */
  ghost predicate MissesDefault(rules: Rules, files: seq<Path>, kinds: seq<Kind>) {
    exists i :: 0 <= i < |kinds| && Choose(rules, OfKind(rules, files, kinds[i]), kinds[i]) == Missing
  }

  ghost predicate MissesDefaultIn(rules: Rules, files: seq<Path>, d: Path) {
    MissesDefault(rules, InDir(files, d), Kinds(rules, InDir(files, d)))
  }

  ghost function WithoutGradle(rules: Rules, files: seq<Path>, above: bool): seq<Path> {
    if above then DropKind(rules, files, Gradle) else files
  }

  lemma {:induction false} DropKindConcat(rules: Rules, a: seq<Path>, b: seq<Path>, k: Kind)
    ensures DropKind(rules, a + b, k) == DropKind(rules, a, k) + DropKind(rules, b, k)
    decreases |a|
  {
    if a == [] {
      assert a + b == b;
    } else {
      assert (a + b)[1..] == a[1..] + b;
      DropKindConcat(rules, a[1..], b, k);
      var first := if KindOf(rules, a[0]) == Some(k) then [] else [a[0]];
      ConcatAssoc(first, DropKind(rules, a[1..], k), DropKind(rules, b, k));
    }
  }

  lemma WithoutGradleSnoc(rules: Rules, kept: seq<Path>, a: seq<Path>, f: Path, above: bool)
    ensures kept + WithoutGradle(rules, a + [f], above)
         == kept + WithoutGradle(rules, a, above) + (if above && KindOf(rules, f) == Some(Gradle) then [] else [f])
  {
    DropKindConcat(rules, a, [f], Gradle);
    assert [f][1..] == [];
    var more := if above && KindOf(rules, f) == Some(Gradle) then [] else [f];
    ConcatAssoc(kept, WithoutGradle(rules, a, above), more);
  }

  /** Files of other kinds do not make a Gradle file be skipped. */
  lemma SkipIgnoresOthers(rules: Rules, f: Path, kept: seq<Path>, others: seq<Path>)
    requires Consistent(rules)
    requires forall g :: g in others ==> KindOf(rules, g).Some? && KindOf(rules, g) != Some(Gradle)
    ensures ShouldSkip(rules, Gradle, f, kept + others) <==> ShouldSkip(rules, Gradle, f, kept)
  {
    var all := kept + others;
    forall j | |kept| <= j < |all|
      ensures !rules.gradleName(Base(all[j]))
    {
      assert all[j] in others;
    }
    if ShouldSkip(rules, Gradle, f, all) {
      var i :| 0 <= i < |all| && rules.gradleName(Base(all[i])) && !StartsUp(Relative(Dir(all[i]), f));
      assert i < |kept|;
      assert kept[i] == all[i];
    }
    if ShouldSkip(rules, Gradle, f, kept) {
      var i :| 0 <= i < |kept| && rules.gradleName(Base(kept[i])) && !StartsUp(Relative(Dir(kept[i]), f));
      assert all[i] == kept[i];
    }
  }

  lemma BlockHasOthers(rules: Rules, files: seq<Path>, kinds: seq<Kind>, above: bool, g: Path)
    requires g in WithoutGradle(rules, BlockOf(rules, files, kinds), above) && Gradle !in kinds
    ensures KindOf(rules, g).Some? && KindOf(rules, g) != Some(Gradle)
  {
    DropKindMembers(rules, BlockOf(rules, files, kinds), Gradle, g);
    BlockOfMembers(rules, files, kinds, g);
  }

  /** One turn of the inner loop, with the block of the kinds before it pushed. */
  lemma KindKept(rules: Rules, kept: seq<Path>, files: seq<Path>, init: seq<Kind>, k: Kind, above: bool)
    requires Consistent(rules)
    requires k !in init && OfKind(rules, files, k) != []
    requires forall f :: f in files ==> (ShouldSkip(rules, Gradle, f, kept) <==> above)
    requires Choose(rules, OfKind(rules, files, k), k).Chosen?
    ensures var block := BlockOf(rules, files, init);
            KeepKind(rules, kept + WithoutGradle(rules, block, above), files, k)
            == Ok(kept + WithoutGradle(rules, block + [Choose(rules, OfKind(rules, files, k), k).file], above))
  {
    var block, group := BlockOf(rules, files, init), OfKind(rules, files, k);
    ChosenHasKind(rules, files, k);
    OfKindMembers(rules, files, k, group[0]);
    if k == Gradle {
      forall g | g in WithoutGradle(rules, block, above)
        ensures KindOf(rules, g).Some? && KindOf(rules, g) != Some(Gradle)
      {
        BlockHasOthers(rules, files, init, above, g);
      }
      SkipIgnoresOthers(rules, group[0], kept, WithoutGradle(rules, block, above));
    }
    WithoutGradleSnoc(rules, kept, block, Choose(rules, group, k).file, above);
    var sofar := kept + WithoutGradle(rules, block, above);
    assert sofar + [] == sofar;
  }

  /** The inner loop pushes the block of its kinds, without Gradle below a kept one. */
  lemma {:induction false} KeepKindsIs(rules: Rules, kept: seq<Path>, files: seq<Path>, kinds: seq<Kind>, above: bool)
    requires Consistent(rules)
    requires forall i, j :: 0 <= i < j < |kinds| ==> kinds[i] != kinds[j]
    requires forall i :: 0 <= i < |kinds| ==> OfKind(rules, files, kinds[i]) != []
    requires forall f :: f in files ==> (ShouldSkip(rules, Gradle, f, kept) <==> above)
    ensures KeepKinds(rules, kept, files, kinds)
         == if MissesDefault(rules, files, kinds) then Err(NoDefaultManifest)
            else Ok(kept + WithoutGradle(rules, BlockOf(rules, files, kinds), above))
    decreases |kinds|
  {
    if kinds == [] {
      assert kept + [] == kept;
    } else {
      var n := |kinds| - 1;
      var init, k := kinds[..n], kinds[n];
      KeepKindsIs(rules, kept, files, init, above);
      MissesMore(rules, files, kinds);
      if !MissesDefault(rules, files, init) {
        if Choose(rules, OfKind(rules, files, k), k).Chosen? {
          KindKept(rules, kept, files, init, k, above);
        } else {
          assert BlockOf(rules, files, init) + [] == BlockOf(rules, files, init);
        }
      }
    }
  }

  lemma MissesMore(rules: Rules, files: seq<Path>, kinds: seq<Kind>)
    requires kinds != []
    ensures var n := |kinds| - 1;
            MissesDefault(rules, files, kinds)
            <==> MissesDefault(rules, files, kinds[..n])
                 || Choose(rules, OfKind(rules, files, kinds[n]), kinds[n]) == Missing
  {
    var n := |kinds| - 1;
    if MissesDefault(rules, files, kinds) {
      var i :| 0 <= i < |kinds| && Choose(rules, OfKind(rules, files, kinds[i]), kinds[i]) == Missing;
      if i < n {
        assert kinds[..n][i] == kinds[i];
      }
    }
    if MissesDefault(rules, files, kinds[..n]) {
      var i :| 0 <= i < n && Choose(rules, OfKind(rules, files, kinds[..n][i]), kinds[..n][i]) == Missing;
      assert kinds[..n][i] == kinds[i];
    }
  }

  /** What is kept in the directories, one after the other. */
  ghost function Finals(rules: Rules, files: seq<Path>, dirs: seq<Path>): seq<Path> {
    if dirs == [] then [] else Finals(rules, files, dirs[..|dirs| - 1]) + Final(rules, files, dirs[|dirs| - 1])
  }

  lemma {:induction false} FinalsMembers(rules: Rules, files: seq<Path>, dirs: seq<Path>, g: Path)
    ensures g in Finals(rules, files, dirs) <==> Dir(g) in dirs && g in Final(rules, files, Dir(g))
  {
    if dirs != [] {
      var n := |dirs| - 1;
      FinalsMembers(rules, files, dirs[..n], g);
      InLast(dirs, Dir(g));
      if g in Final(rules, files, dirs[n]) {
        FinalMembers(rules, files, dirs[n], g);
      }
    }
  }

  /**
   With the directories above already handled, a Gradle file is skipped exactly when one of
   them has a Gradle file.
   */
  lemma SkipIsAbove(rules: Rules, files: seq<Path>, dirs: seq<Path>, d: Path, f: Path)
    requires Consistent(rules) && FileList(files)
    requires f in files && Dir(f) == d && d !in dirs
    requires forall n: nat :: n < |d| && InDir(files, d[..n]) != [] ==> d[..n] in dirs
    ensures ShouldSkip(rules, Gradle, f, Finals(rules, files, dirs)) <==> GradleAbove(rules, files, d)
  {
    var kept := Finals(rules, files, dirs);
    if ShouldSkip(rules, Gradle, f, kept) {
      var i :| 0 <= i < |kept| && rules.gradleName(Base(kept[i])) && !StartsUp(Relative(Dir(kept[i]), f));
      SkipperIsAbove(rules, files, dirs, kept[i], f);
    }
    if GradleAbove(rules, files, d) {
      var n: nat :| n < |d| && HasGradle(rules, files, d[..n]);
      var m := LeastGradle(rules, files, d, n);
      var g := AboveIsSkipper(rules, files, dirs, d, m, f);
      var i :| 0 <= i < |kept| && kept[i] == g;
    }
  }

  lemma ProperlyAbove(d: Path, f: Path)
    requires d <= f && f != [] && d != f && d != Dir(f)
    ensures |d| < |Dir(f)| && Dir(f)[..|d|] == d
  {
  }

  lemma SkipperIsAbove(rules: Rules, files: seq<Path>, dirs: seq<Path>, g: Path, f: Path)
    requires Consistent(rules) && FileList(files) && f in files && Dir(f) !in dirs
    requires g in Finals(rules, files, dirs) && rules.gradleName(Base(g)) && !StartsUp(Relative(Dir(g), f))
    ensures GradleAbove(rules, files, Dir(f))
  {
    FinalsMembers(rules, files, dirs, g);
    FinalMembers(rules, files, Dir(g), g);
    RelativeBelow(Dir(g), f);
    OfKindMembers(rules, Block(rules, InDir(files, Dir(g))), Gradle, g);
    assert HasGradle(rules, files, Dir(g));
    ProperlyAbove(Dir(g), f);
    assert Dir(f)[..|Dir(g)|] == Dir(g) && |Dir(g)| < |Dir(f)|;
  }

  lemma AboveIsSkipper(rules: Rules, files: seq<Path>, dirs: seq<Path>, d: Path, m: nat, f: Path) returns (g: Path)
    requires Consistent(rules) && FileList(files) && f in files && Dir(f) == d && m < |d|
    requires HasGradle(rules, files, d[..m]) && !GradleAbove(rules, files, d[..m])
    requires InDir(files, d[..m]) != [] ==> d[..m] in dirs
    ensures g in Finals(rules, files, dirs) && rules.gradleName(Base(g)) && !StartsUp(Relative(Dir(g), f))
  {
    var block := Block(rules, InDir(files, d[..m]));
    g := OfKind(rules, block, Gradle)[0];
    OfKindMembers(rules, block, Gradle, g);
    FinalMembers(rules, files, d[..m], g);
    InDirMembers(files, d[..m], g);
    FinalsMembers(rules, files, dirs, g);
    RelativeBelow(Dir(g), f);
    assert d[..m] <= f;
  }

  ghost predicate MissesUpTo(rules: Rules, files: seq<Path>, dirs: seq<Path>, n: nat)
    requires n <= |dirs|
  {
    exists i :: 0 <= i < n && MissesDefaultIn(rules, files, dirs[i])
  }

  lemma MissesOneMore(rules: Rules, files: seq<Path>, dirs: seq<Path>, n: nat)
    requires n < |dirs|
    ensures MissesUpTo(rules, files, dirs, n + 1)
        <==> MissesUpTo(rules, files, dirs, n) || MissesDefaultIn(rules, files, dirs[n])
  {
  }

  lemma KeepDirsSnoc(rules: Rules, sorted: seq<Path>, dirs: seq<Path>, n: nat)
    requires n < |dirs|
    ensures var r, files := KeepDirs(rules, sorted, dirs[..n]), InDir(sorted, dirs[n]);
            KeepDirs(rules, sorted, dirs[..n + 1])
            == if r.Err? then r else KeepKinds(rules, r.value, files, Kinds(rules, files))
  {
    TakeLast(dirs, n);
  }

  lemma FinalsSnoc(rules: Rules, files: seq<Path>, dirs: seq<Path>, n: nat)
    requires n < |dirs|
    ensures Finals(rules, files, dirs[..n + 1]) == Finals(rules, files, dirs[..n]) + Final(rules, files, dirs[n])
  {
    TakeLast(dirs, n);
  }

  /** The first `n` directories have been handled: a failure in one of them, or what is kept in each. */
  ghost predicate Handled(rules: Rules, files: seq<Path>, sorted: seq<Path>, dirs: seq<Path>, n: nat)
    requires n <= |dirs|
  {
    KeepDirs(rules, sorted, dirs[..n])
    == if MissesUpTo(rules, files, dirs, n) then Err(NoDefaultManifest) else Ok(Finals(rules, files, dirs[..n]))
  }

  lemma HandledMore(rules: Rules, files: seq<Path>, sorted: seq<Path>, dirs: seq<Path>, n: nat)
    requires n < |dirs| && Handled(rules, files, sorted, dirs, n)
    requires InDir(sorted, dirs[n]) == InDir(files, dirs[n])
    requires KeepKinds(rules, Finals(rules, files, dirs[..n]), InDir(files, dirs[n]),
                       Kinds(rules, InDir(files, dirs[n])))
          == if MissesDefaultIn(rules, files, dirs[n]) then Err(NoDefaultManifest)
             else Ok(Finals(rules, files, dirs[..n]) + Final(rules, files, dirs[n]))
    ensures Handled(rules, files, sorted, dirs, n + 1)
  {
    KeepDirsSnoc(rules, sorted, dirs, n);
    FinalsSnoc(rules, files, dirs, n);
    MissesOneMore(rules, files, dirs, n);
  }

  lemma SameInDir(files: seq<Path>, d: Path)
    ensures InDir(SortByDir(files), d) == InDir(files, d)
  {
    SortByDirIsStable(files);
  }

  ghost predicate HandledDirs(rules: Rules, files: seq<Path>, n: nat) {
    n <= |Dirs(SortByDir(files))| && Handled(rules, files, SortByDir(files), Dirs(SortByDir(files)), n)
  }

  lemma NoneHandled(rules: Rules, files: seq<Path>, sorted: seq<Path>, dirs: seq<Path>)
    ensures Handled(rules, files, sorted, dirs, 0)
  {
    assert dirs[..0] == [];
  }

  lemma HandledDirsMore(rules: Rules, files: seq<Path>, n: nat)
    requires Consistent(rules) && FileList(files)
    requires HandledDirs(rules, files, n) && n < |Dirs(SortByDir(files))|
    ensures HandledDirs(rules, files, n + 1)
  {
    var sorted, dirs := SortByDir(files), Dirs(SortByDir(files));
    SameInDir(files, dirs[n]);
    OneMoreDir(rules, files, n);
    HandledMore(rules, files, sorted, dirs, n);
  }

  /** The outer loop, after the first `n` directories of the sorted list. */
  lemma {:induction false} KeepDirsIs(rules: Rules, files: seq<Path>, n: nat)
    requires Consistent(rules) && FileList(files)
    requires n <= |Dirs(SortByDir(files))|
    ensures HandledDirs(rules, files, n)
    decreases n
  {
    if n == 0 {
      NoneHandled(rules, files, SortByDir(files), Dirs(SortByDir(files)));
    } else {
      KeepDirsIs(rules, files, n - 1);
      HandledDirsMore(rules, files, n - 1);
    }
  }

  /** The inner loop on the directory after the first `n`. */
  lemma OneMoreDir(rules: Rules, files: seq<Path>, n: nat)
    requires Consistent(rules) && FileList(files) && n < |Dirs(SortByDir(files))|
    ensures var dirs := Dirs(SortByDir(files));
            var inDir := InDir(files, dirs[n]);
            KeepKinds(rules, Finals(rules, files, dirs[..n]), inDir, Kinds(rules, inDir))
            == if MissesDefaultIn(rules, files, dirs[n]) then Err(NoDefaultManifest)
               else Ok(Finals(rules, files, dirs[..n]) + Final(rules, files, dirs[n]))
  {
    var dirs := Dirs(SortByDir(files));
    var d := dirs[n];
    var inDir := InDir(files, d);
    DirsAbove(files, n);
    forall f | f in inDir
      ensures ShouldSkip(rules, Gradle, f, Finals(rules, files, dirs[..n])) <==> GradleAbove(rules, files, d)
    {
      InDirMembers(files, d, f);
      SkipIsAbove(rules, files, dirs[..n], d, f);
    }
    KindsDistinct(rules, inDir);
    forall i | 0 <= i < |Kinds(rules, inDir)|
      ensures OfKind(rules, inDir, Kinds(rules, inDir)[i]) != []
    {
      KindsMembers(rules, inDir, Kinds(rules, inDir)[i]);
    }
    KeepKindsIs(rules, Finals(rules, files, dirs[..n]), inDir, Kinds(rules, inDir), GradleAbove(rules, files, d));
  }

  lemma AncestorIsBefore(dirs: seq<Path>, k: nat, n: nat)
    requires k < |dirs| && n < |dirs| && StrictlySorted(dirs)
    requires IsPath(dirs[k]) && IsPath(dirs[n]) && dirs[k] <= dirs[n] && dirs[k] != dirs[n]
    ensures k < n
  {
    AncestorFirst(dirs[k], dirs[n]);
    if k > n {
      DirLeqBoth(dirs[k], dirs[n]);
    }
  }

  lemma DirAbove(files: seq<Path>, n: nat, m: nat)
    requires FileList(files) && n < |Dirs(SortByDir(files))|
    requires m < |Dirs(SortByDir(files))[n]| && InDir(files, Dirs(SortByDir(files))[n][..m]) != []
    ensures Dirs(SortByDir(files))[n][..m] in Dirs(SortByDir(files))[..n]
  {
    var sorted := SortByDir(files);
    var dirs := Dirs(sorted);
    var e := dirs[n][..m];
    SortByDirIsStable(files);
    DirsSorted(sorted);
    assert InDir(sorted, e) == InDir(files, e);
    DirOfSome(files, sorted, dirs[n]);
    DirOfSome(files, sorted, e);
    var k :| 0 <= k < |dirs| && dirs[k] == e;
    AncestorIsBefore(dirs, k, n);
    assert dirs[..n][k] == e;
  }

  /** The directories above one of the list come before it, and it comes once. */
  lemma DirsAbove(files: seq<Path>, n: nat)
    requires FileList(files) && n < |Dirs(SortByDir(files))|
    ensures var dirs := Dirs(SortByDir(files));
            && dirs[n] !in dirs[..n]
            && forall m: nat :: m < |dirs[n]| && InDir(files, dirs[n][..m]) != [] ==> dirs[n][..m] in dirs[..n]
  {
    var dirs := Dirs(SortByDir(files));
    SortByDirIsStable(files);
    DirsSorted(SortByDir(files));
    forall m: nat | m < |dirs[n]| && InDir(files, dirs[n][..m]) != []
      ensures dirs[n][..m] in dirs[..n]
    {
      DirAbove(files, n, m);
    }
  }

  lemma DirOfSome(files: seq<Path>, sorted: seq<Path>, d: Path)
    requires FileList(files) && sorted == SortByDir(files)
    requires d in Dirs(sorted) || InDir(sorted, d) != []
    ensures d in Dirs(sorted) && InDir(files, d) != [] && IsPath(d)
  {
    SortByDirIsStable(files);
    DirsMembers(sorted, d);
    if d in Dirs(sorted) {
      var i :| 0 <= i < |sorted| && Dir(sorted[i]) == d;
      InDirMembers(sorted, d, sorted[i]);
    } else {
      InDirMembers(sorted, d, InDir(sorted, d)[0]);
    }
    assert InDir(sorted, d) == InDir(files, d);
    var f := InDir(files, d)[0];
    InDirMembers(files, d, f);
    DirIsPath(f);
  }

  lemma LastOnce(dirs: seq<Path>)
    requires dirs != [] && forall i, j :: 0 <= i < j < |dirs| ==> dirs[i] != dirs[j]
    ensures dirs[|dirs| - 1] !in dirs[..|dirs| - 1]
  {
  }

  lemma {:induction false} FinalsInDir(rules: Rules, files: seq<Path>, dirs: seq<Path>, d: Path)
    requires forall i, j :: 0 <= i < j < |dirs| ==> dirs[i] != dirs[j]
    ensures InDir(Finals(rules, files, dirs), d) == if d in dirs then Final(rules, files, d) else []
  {
    if dirs != [] {
      var n := |dirs| - 1;
      var init, last := Finals(rules, files, dirs[..n]), Final(rules, files, dirs[n]);
      FinalsInDir(rules, files, dirs[..n], d);
      assert InDir(init + last, d) == InDir(init, d) + InDir(last, d) by { InDirConcat(init, last, d); }
      assert InDir(last, d) == if d == dirs[n] then Final(rules, files, d) else [] by {
        FinalInDir(rules, files, dirs[n], d);
      }
      assert d in dirs <==> d in dirs[..n] || d == dirs[n] by { InLast(dirs, d); }
      assert dirs[n] !in dirs[..n] by { LastOnce(dirs); }
    }
  }

  lemma FinalInDir(rules: Rules, files: seq<Path>, e: Path, d: Path)
    ensures InDir(Final(rules, files, e), d) == if d == e then Final(rules, files, d) else []
  {
    forall f | f in Final(rules, files, e)
      ensures Dir(f) == e
    {
      FinalMembers(rules, files, e, f);
    }
    if d == e {
      InDirWhole(Final(rules, files, e), d);
    } else {
      InDirEmpty(Final(rules, files, e), d);
    }
  }

  lemma {:induction false} FinalsSorted(rules: Rules, files: seq<Path>, dirs: seq<Path>)
    requires StrictlySorted(dirs)
    ensures DirSorted(Finals(rules, files, dirs))
  {
    if dirs != [] {
      var n := |dirs| - 1;
      var a, b := Finals(rules, files, dirs[..n]), Final(rules, files, dirs[n]);
      FinalsSorted(rules, files, dirs[..n]);
      forall j | 0 <= j < |b|
        ensures Dir(b[j]) == dirs[n]
      {
        FinalMembers(rules, files, dirs[n], b[j]);
      }
      forall i | 0 <= i < |a|
        ensures DirLeq(Dir(a[i]), dirs[n])
      {
        FinalsMembers(rules, files, dirs[..n], a[i]);
      }
      DirLeqReflexive(dirs[n]);
    }
  }

  /** Some group of some directory has more than one file and no default among them. */
  ghost predicate MissesSomeDefault(rules: Rules, files: seq<Path>) {
    exists d :: MissesDefaultIn(rules, files, d)
  }

  /**
   The loops fail exactly when some directory has several files of a kind and no default
   among them; otherwise they keep exactly the files of the directory-by-directory rule.
   */
  lemma LoopsFilter(rules: Rules, files: seq<Path>)
    requires Consistent(rules) && FileList(files)
    ensures var r := KeepDirs(rules, SortByDir(files), Dirs(SortByDir(files)));
            && (r.Err? <==> MissesSomeDefault(rules, files))
            && (r.Ok? ==> IsFiltered(rules, files, r.value))
  {
    var sorted := SortByDir(files);
    var dirs := Dirs(sorted);
    KeepDirsIs(rules, files, |dirs|);
    TakeAll(dirs);
    SortByDirIsStable(files);
    DirsSorted(sorted);
    if MissesSomeDefault(rules, files) {
      var d :| MissesDefaultIn(rules, files, d);
      assert InDir(sorted, d) == InDir(files, d);
      assert InDir(files, d) != [];
      DirOfSome(files, sorted, d);
      var i :| 0 <= i < |dirs| && dirs[i] == d;
    } else {
      FinalsSorted(rules, files, dirs);
      forall d
        ensures InDir(Finals(rules, files, dirs), d) == Final(rules, files, d)
      {
        FinalsInDir(rules, files, dirs, d);
        assert InDir(sorted, d) == InDir(files, d);
        if d !in dirs {
          if InDir(files, d) != [] {
            DirOfSome(files, sorted, d);
          }
          EmptyBlock(rules);
        }
      }
    }
  }
}
