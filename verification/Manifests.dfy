/**
 Choosing one manifest per directory and project type: what filterForDefaultManifests
 of src/lib/find-files.ts keeps, stated directory by directory and without any loop.
 */
module Manifests {
  import opened Wrappers
  import opened Paths
  import opened Strings

  /** Project types, with npm and yarn already taken together. */
  datatype Kind =
    | Node | Rubygems | Maven | Gradle | Sbt | Pip | GolangDep | GoModules | GoVendor
    | Nuget | Paket | Composer | Cocoapods | Poetry | Hex | Swift

  /** The name tables the filter works with: see module Detect for the program's own. */
  datatype Rules = Rules(kindOf: string -> Option<Kind>, preferred: Kind -> seq<string>, gradleName: string -> bool)

  ghost predicate Consistent(rules: Rules) {
    && rules.preferred(Gradle) != []
    && forall base :: rules.kindOf(base).Some? ==> (rules.kindOf(base) == Some(Gradle) <==> rules.gradleName(base))
  }

  function Dir(f: Path): Path {
    if f == [] then [] else f[..|f| - 1]
  }

  function Base(f: Path): string {
    if f == [] then "" else f[|f| - 1]
  }

  lemma DirAndBase(d: Path, name: string)
    ensures Dir(d + [name]) == d && Base(d + [name]) == name
  {
  }

  function KindOf(rules: Rules, f: Path): Option<Kind> {
    rules.kindOf(Base(f))
  }

  /** The kind of a file depends on its name alone, whatever its directory. */
  lemma KindByBase(rules: Rules, d: Path, name: string)
    ensures KindOf(rules, d + [name]) == rules.kindOf(name)
  {
  }

  // ----- grouping -----

  /** The files of one directory, in order. */
  function InDir(files: seq<Path>, d: Path): seq<Path> {
    if files == [] then []
    else (if Dir(files[0]) == d then [files[0]] else []) + InDir(files[1..], d)
  }

  /** The files of one kind, in order. */
  function OfKind(rules: Rules, files: seq<Path>, k: Kind): seq<Path> {
    if files == [] then []
    else (if KindOf(rules, files[0]) == Some(k) then [files[0]] else []) + OfKind(rules, files[1..], k)
  }

  /** The kinds of the files that have one, by first appearance. */
  function Kinds(rules: Rules, files: seq<Path>): seq<Kind> {
    if files == [] then []
    else
      var kinds := Kinds(rules, files[..|files| - 1]);
      var k := KindOf(rules, files[|files| - 1]);
      if k.Some? && k.value !in kinds then kinds + [k.value] else kinds
  }

  lemma {:induction false} InDirConcat(a: seq<Path>, b: seq<Path>, d: Path)
    ensures InDir(a + b, d) == InDir(a, d) + InDir(b, d)
    decreases |a|
  {
    if a == [] {
      assert a + b == b;
    } else {
      assert (a + b)[1..] == a[1..] + b;
      InDirConcat(a[1..], b, d);
      ConcatAssoc(if Dir(a[0]) == d then [a[0]] else [], InDir(a[1..], d), InDir(b, d));
    }
  }

  lemma {:induction false} InDirMembers(files: seq<Path>, d: Path, f: Path)
    ensures f in InDir(files, d) <==> f in files && Dir(f) == d
  {
    if files != [] {
      InDirMembers(files[1..], d, f);
      assert f in files <==> f == files[0] || f in files[1..];
    }
  }

  lemma {:induction false} InDirEmpty(files: seq<Path>, d: Path)
    requires forall f :: f in files ==> Dir(f) != d
    ensures InDir(files, d) == []
  {
    if files != [] {
      assert files[0] in files;
      InDirEmpty(files[1..], d);
    }
  }

  lemma {:induction false} InDirWhole(files: seq<Path>, d: Path)
    requires forall f :: f in files ==> Dir(f) == d
    ensures InDir(files, d) == files
  {
    if files != [] {
      assert files[0] in files;
      InDirWhole(files[1..], d);
    }
  }

  lemma {:induction false} OfKindMembers(rules: Rules, files: seq<Path>, k: Kind, f: Path)
    ensures f in OfKind(rules, files, k) <==> f in files && KindOf(rules, f) == Some(k)
  {
    if files != [] {
      OfKindMembers(rules, files[1..], k, f);
      assert f in files <==> f == files[0] || f in files[1..];
    }
  }

  lemma {:induction false} OfKindConcat(rules: Rules, a: seq<Path>, b: seq<Path>, k: Kind)
    ensures OfKind(rules, a + b, k) == OfKind(rules, a, k) + OfKind(rules, b, k)
    decreases |a|
  {
    if a == [] {
      assert a + b == b;
    } else {
      assert (a + b)[1..] == a[1..] + b;
      OfKindConcat(rules, a[1..], b, k);
      ConcatAssoc(if KindOf(rules, a[0]) == Some(k) then [a[0]] else [], OfKind(rules, a[1..], k), OfKind(rules, b, k));
    }
  }

  lemma OfKindLast(rules: Rules, files: seq<Path>, k: Kind)
    requires files != []
    ensures var n := |files| - 1;
            OfKind(rules, files, k)
            == OfKind(rules, files[..n], k) + (if KindOf(rules, files[n]) == Some(k) then [files[n]] else [])
  {
    var init, last := files[..|files| - 1], [files[|files| - 1]];
    assert init + last == files && last[1..] == [];
    OfKindConcat(rules, init, last, k);
  }

  lemma {:induction false} KindsMembers(rules: Rules, files: seq<Path>, k: Kind)
    ensures k in Kinds(rules, files) <==> OfKind(rules, files, k) != []
  {
    if files != [] {
      KindsMembers(rules, files[..|files| - 1], k);
      OfKindLast(rules, files, k);
    }
  }

  /** The kinds stand in the order of the first file of each. */
  lemma {:induction false} KindsInOrder(rules: Rules, files: seq<Path>) returns (at: seq<nat>)
    ensures Ascending(at, |files|) && |at| == |Kinds(rules, files)|
    ensures forall k :: 0 <= k < |at| ==> KindOf(rules, files[at[k]]) == Some(Kinds(rules, files)[k])
    ensures forall k, i :: 0 <= k < |at| && 0 <= i < at[k] ==> KindOf(rules, files[i]) != Some(Kinds(rules, files)[k])
  {
    at := [];
    if files != [] {
      var n := |files| - 1;
      at := KindsInOrder(rules, files[..n]);
      var k := KindOf(rules, files[n]);
      if k.Some? && k.value !in Kinds(rules, files[..n]) {
        NoEarlier(rules, files[..n], k.value);
        at := at + [n];
      }
    }
  }

  lemma NoEarlier(rules: Rules, files: seq<Path>, k: Kind)
    requires k !in Kinds(rules, files)
    ensures forall i :: 0 <= i < |files| ==> KindOf(rules, files[i]) != Some(k)
  {
    KindsMembers(rules, files, k);
    forall i | 0 <= i < |files|
      ensures KindOf(rules, files[i]) != Some(k)
    {
      OfKindMembers(rules, files, k, files[i]);
    }
  }

  lemma {:induction false} KindsDistinct(rules: Rules, files: seq<Path>)
    ensures forall i, j :: 0 <= i < j < |Kinds(rules, files)| ==> Kinds(rules, files)[i] != Kinds(rules, files)[j]
  {
    if files != [] {
      KindsDistinct(rules, files[..|files| - 1]);
    }
  }

  // ----- one file per kind -----

  datatype Choice = Chosen(file: Path) | NoDefault | Missing

  function FirstNamed(files: seq<Path>, names: seq<string>): Choice {
    if files == [] then Missing
    else if Base(files[0]) in names then Chosen(files[0])
    else FirstNamed(files[1..], names)
  }

  /**
   chooseBestManifest: a kind without preferred names has no default; Missing is the TypeError
   of reading the path of undefined.
   */
  function ChooseBestManifest(rules: Rules, files: seq<Path>, k: Kind): Choice {
    if rules.preferred(k) == [] then NoDefault else FirstNamed(files, rules.preferred(k))
  }

  /** The file of a kind that stands for its directory; a single file needs no choice. */
  function Choose(rules: Rules, files: seq<Path>, k: Kind): Choice {
    if |files| == 1 then Chosen(files[0]) else ChooseBestManifest(rules, files, k)
  }

  /** `f` is in the list, bears one of the names, and no earlier file does. */
  ghost predicate IsFirstNamed(files: seq<Path>, names: seq<string>, f: Path) {
    exists i :: 0 <= i < |files| && files[i] == f && Base(f) in names
                && forall j :: 0 <= j < i ==> Base(files[j]) !in names
  }

  /** The file chosen is the first that bears one of the names; it is missing exactly when none does. */
  lemma {:induction false} FirstNamedIsFirst(files: seq<Path>, names: seq<string>)
    ensures FirstNamed(files, names) != NoDefault
    ensures FirstNamed(files, names).Chosen? ==> IsFirstNamed(files, names, FirstNamed(files, names).file)
    ensures FirstNamed(files, names) == Missing <==> forall f :: f in files ==> Base(f) !in names
  {
    if files != [] {
      if Base(files[0]) in names {
        assert IsFirstNamed(files, names, files[0]);
      } else {
        FirstNamedIsFirst(files[1..], names);
        if FirstNamed(files, names).Chosen? {
          var i :| 0 <= i < |files[1..]| && files[1..][i] == FirstNamed(files, names).file
                   && forall j :: 0 <= j < i ==> Base(files[1..][j]) !in names;
          assert forall j :: 0 < j < i + 1 ==> files[j] == files[1..][j - 1];
          assert files[i + 1] == files[1..][i];
        }
      }
    }
  }

  lemma ChosenHasKind(rules: Rules, files: seq<Path>, k: Kind)
    requires Choose(rules, OfKind(rules, files, k), k).Chosen?
    ensures var f := Choose(rules, OfKind(rules, files, k), k).file;
            f in files && KindOf(rules, f) == Some(k)
  {
    var group := OfKind(rules, files, k);
    FirstNamedIsFirst(group, rules.preferred(k));
    OfKindMembers(rules, files, k, Choose(rules, group, k).file);
  }

  function Picked(c: Choice): seq<Path> {
    match c
    case Chosen(f) => [f]
    case _ => []
  }

  function BlockOf(rules: Rules, files: seq<Path>, kinds: seq<Kind>): seq<Path> {
    if kinds == [] then []
    else
      var k := kinds[|kinds| - 1];
      BlockOf(rules, files, kinds[..|kinds| - 1]) + Picked(Choose(rules, OfKind(rules, files, k), k))
  }

  /** One file per kind, for the files of one directory. */
  function Block(rules: Rules, files: seq<Path>): seq<Path> {
    BlockOf(rules, files, Kinds(rules, files))
  }

  /** Every file has a kind, and no two the same. */
  ghost predicate Solo(rules: Rules, files: seq<Path>) {
    && (forall i :: 0 <= i < |files| ==> KindOf(rules, files[i]).Some?)
    && (forall i, j :: 0 <= i < j < |files| ==> KindOf(rules, files[i]) != KindOf(rules, files[j]))
  }

  lemma {:induction false} BlockOfMembers(rules: Rules, files: seq<Path>, kinds: seq<Kind>, f: Path)
    requires f in BlockOf(rules, files, kinds)
    ensures f in files && KindOf(rules, f).Some? && KindOf(rules, f).value in kinds
  {
    var n := |kinds| - 1;
    if f in BlockOf(rules, files, kinds[..n]) {
      BlockOfMembers(rules, files, kinds[..n], f);
    } else {
      ChosenHasKind(rules, files, kinds[n]);
    }
  }

  lemma {:induction false} BlockOfSolo(rules: Rules, files: seq<Path>, kinds: seq<Kind>)
    requires forall i, j :: 0 <= i < j < |kinds| ==> kinds[i] != kinds[j]
    ensures Solo(rules, BlockOf(rules, files, kinds))
  {
    if kinds != [] {
      var n := |kinds| - 1;
      var block := BlockOf(rules, files, kinds[..n]);
      BlockOfSolo(rules, files, kinds[..n]);
      var c := Choose(rules, OfKind(rules, files, kinds[n]), kinds[n]);
      if c.Chosen? {
        ChosenHasKind(rules, files, kinds[n]);
        forall i | 0 <= i < |block|
          ensures KindOf(rules, block[i]) != KindOf(rules, c.file)
        {
          BlockOfMembers(rules, files, kinds[..n], block[i]);
        }
      }
    }
  }

  lemma BlockSolo(rules: Rules, files: seq<Path>)
    ensures Solo(rules, Block(rules, files))
  {
    KindsDistinct(rules, files);
    BlockOfSolo(rules, files, Kinds(rules, files));
  }

  lemma BlockMembers(rules: Rules, files: seq<Path>, f: Path)
    requires f in Block(rules, files)
    ensures f in files && KindOf(rules, f).Some?
  {
    BlockOfMembers(rules, files, Kinds(rules, files), f);
  }

  lemma {:induction false} SoloKinds(rules: Rules, files: seq<Path>)
    requires Solo(rules, files)
    ensures |Kinds(rules, files)| == |files|
    ensures forall i :: 0 <= i < |files| ==> KindOf(rules, files[i]) == Some(Kinds(rules, files)[i])
  {
    if files != [] {
      SoloKinds(rules, files[..|files| - 1]);
    }
  }

  lemma {:induction false} SoloOfKind(rules: Rules, files: seq<Path>, i: nat)
    requires Solo(rules, files) && i < |files|
    ensures OfKind(rules, files, KindOf(rules, files[i]).value) == [files[i]]
    decreases |files|
  {
    var k := KindOf(rules, files[i]).value;
    if i == 0 {
      if OfKind(rules, files[1..], k) != [] {
        var f := OfKind(rules, files[1..], k)[0];
        OfKindMembers(rules, files[1..], k, f);
        assert false;
      }
    } else {
      SoloOfKind(rules, files[1..], i - 1);
    }
  }

  lemma BlockOfSnoc(rules: Rules, files: seq<Path>, kinds: seq<Kind>, n: nat)
    requires n < |kinds|
    ensures BlockOf(rules, files, kinds[..n + 1])
         == BlockOf(rules, files, kinds[..n]) + Picked(Choose(rules, OfKind(rules, files, kinds[n]), kinds[n]))
  {
    assert kinds[..n + 1][..n] == kinds[..n];
  }

  lemma {:induction false} SoloBlockOf(rules: Rules, files: seq<Path>, kinds: seq<Kind>, n: nat)
    requires Solo(rules, files) && n <= |files| == |kinds|
    requires forall i :: 0 <= i < |files| ==> KindOf(rules, files[i]) == Some(kinds[i])
    ensures BlockOf(rules, files, kinds[..n]) == files[..n]
    decreases n
  {
    if n > 0 {
      SoloBlockOf(rules, files, kinds, n - 1);
      BlockOfSnoc(rules, files, kinds, n - 1);
      SoloOfKind(rules, files, n - 1);
      TakeSnoc(files, n - 1);
    }
  }

  /** Choosing again among the chosen changes nothing. */
  lemma SoloBlock(rules: Rules, files: seq<Path>)
    requires Solo(rules, files)
    ensures Block(rules, files) == files
  {
    SoloKinds(rules, files);
    SoloBlockOf(rules, files, Kinds(rules, files), |files|);
    assert Kinds(rules, files)[..|files|] == Kinds(rules, files);
    assert files[..|files|] == files;
  }

  // ----- what is kept of a list -----

  function DropKind(rules: Rules, files: seq<Path>, k: Kind): seq<Path> {
    if files == [] then []
    else (if KindOf(rules, files[0]) == Some(k) then [] else [files[0]]) + DropKind(rules, files[1..], k)
  }

  /** The directory has a Gradle file to stand for it. */
  ghost predicate HasGradle(rules: Rules, files: seq<Path>, d: Path) {
    OfKind(rules, Block(rules, InDir(files, d)), Gradle) != []
  }

  /** Some directory strictly above has one. */
  ghost predicate GradleAbove(rules: Rules, files: seq<Path>, d: Path) {
    exists n: nat :: n < |d| && HasGradle(rules, files, d[..n])
  }

  /** What is kept in one directory: one file per kind, but no Gradle file below another. */
  ghost function Final(rules: Rules, files: seq<Path>, d: Path): seq<Path> {
    var block := Block(rules, InDir(files, d));
    if GradleAbove(rules, files, d) then DropKind(rules, block, Gradle) else block
  }

  ghost predicate DirSorted(files: seq<Path>) {
    forall i, j :: 0 <= i < j < |files| ==> DirLeq(Dir(files[i]), Dir(files[j]))
  }

  /** `r` is what the filter keeps of `files`: in the order of directories, and right in each. */
  ghost predicate IsFiltered(rules: Rules, files: seq<Path>, r: seq<Path>) {
    DirSorted(r) && forall d :: InDir(r, d) == Final(rules, files, d)
  }

  lemma {:induction false} DropKindMembers(rules: Rules, files: seq<Path>, k: Kind, f: Path)
    ensures f in DropKind(rules, files, k) <==> f in files && KindOf(rules, f) != Some(k)
  {
    if files != [] {
      DropKindMembers(rules, files[1..], k, f);
      assert f in files <==> f == files[0] || f in files[1..];
    }
  }

  lemma {:induction false} DropKindNothing(rules: Rules, files: seq<Path>, k: Kind)
    requires forall f :: f in files ==> KindOf(rules, f) != Some(k)
    ensures DropKind(rules, files, k) == files
  {
    if files != [] {
      assert files[0] in files;
      DropKindNothing(rules, files[1..], k);
    }
  }

  lemma DropKindTwice(rules: Rules, files: seq<Path>, k: Kind)
    ensures DropKind(rules, DropKind(rules, files, k), k) == DropKind(rules, files, k)
  {
    forall f | f in DropKind(rules, files, k)
      ensures KindOf(rules, f) != Some(k)
    {
      DropKindMembers(rules, files, k, f);
    }
    DropKindNothing(rules, DropKind(rules, files, k), k);
  }

  lemma {:induction false} DropKindSolo(rules: Rules, files: seq<Path>, k: Kind)
    requires Solo(rules, files)
    ensures Solo(rules, DropKind(rules, files, k))
  {
    if files != [] {
      var rest := DropKind(rules, files[1..], k);
      DropKindSolo(rules, files[1..], k);
      forall i | 0 <= i < |rest|
        ensures KindOf(rules, rest[i]) != KindOf(rules, files[0])
      {
        DropKindMembers(rules, files[1..], k, rest[i]);
        var j :| 0 <= j < |files[1..]| && files[1..][j] == rest[i];
        assert files[j + 1] == rest[i];
      }
    }
  }

  lemma FinalMembers(rules: Rules, files: seq<Path>, d: Path, f: Path)
    requires f in Final(rules, files, d)
    ensures f in files && Dir(f) == d && KindOf(rules, f).Some? && f in Block(rules, InDir(files, d))
  {
    DropKindMembers(rules, Block(rules, InDir(files, d)), Gradle, f);
    BlockMembers(rules, InDir(files, d), f);
    InDirMembers(files, d, f);
  }

  lemma FinalSolo(rules: Rules, files: seq<Path>, d: Path)
    ensures Solo(rules, Final(rules, files, d))
  {
    BlockSolo(rules, InDir(files, d));
    DropKindSolo(rules, Block(rules, InDir(files, d)), Gradle);
  }

  // ----- there is only one such list -----

  ghost predicate AllPaths(files: seq<Path>) {
    forall i :: 0 <= i < |files| ==> IsPath(files[i])
  }

  lemma DirIsPath(f: Path)
    requires IsPath(f)
    ensures IsPath(Dir(f))
  {
  }

  lemma FirstDirLeast(a: seq<Path>, b: seq<Path>)
    requires a != [] && DirSorted(b) && InDir(a, Dir(a[0])) == InDir(b, Dir(a[0]))
    ensures b != [] && DirLeq(Dir(b[0]), Dir(a[0]))
  {
    InDirMembers(a, Dir(a[0]), a[0]);
    InDirMembers(b, Dir(a[0]), a[0]);
    var i :| 0 <= i < |b| && b[i] == a[0];
    if i == 0 {
      DirLeqReflexive(Dir(b[0]));
    }
  }

  lemma InDirTail(a: seq<Path>, d: Path)
    requires a != []
    ensures InDir(a[1..], d) == if Dir(a[0]) == d then InDir(a, d)[1..] else InDir(a, d)
  {
    var rest := InDir(a[1..], d);
    assert ([a[0]] + rest)[1..] == rest && [] + rest == rest;
  }

  /** Two such lists start with the same file. */
  lemma SameFirst(a: seq<Path>, b: seq<Path>)
    requires DirSorted(a) && DirSorted(b) && AllPaths(a) && AllPaths(b) && a != []
    requires forall d :: InDir(a, d) == InDir(b, d)
    ensures b != [] && a[0] == b[0]
  {
    FirstDirLeast(a, b);
    FirstDirLeast(b, a);
    DirIsPath(a[0]);
    DirIsPath(b[0]);
    DirLeqBoth(Dir(a[0]), Dir(b[0]));
    assert InDir(a, Dir(a[0]))[0] == a[0] && InDir(b, Dir(b[0]))[0] == b[0];
  }

  /** Two lists in directory order that agree in every directory are the same list. */
  lemma {:induction false} SortedUnique(a: seq<Path>, b: seq<Path>)
    requires DirSorted(a) && DirSorted(b) && AllPaths(a) && AllPaths(b)
    requires forall d :: InDir(a, d) == InDir(b, d)
    ensures a == b
    decreases |a|
  {
    if b != [] {
      SameFirst(b, a);
    }
    if a != [] {
      SameFirst(a, b);
      forall e
        ensures InDir(a[1..], e) == InDir(b[1..], e)
      {
        assert InDir(a, e) == InDir(b, e);
        InDirTail(a, e);
        InDirTail(b, e);
      }
      SortedUnique(a[1..], b[1..]);
      assert a == [a[0]] + a[1..] && b == [b[0]] + b[1..];
    }
  }

  // ----- filtering a part first -----

  /** The least directory at or above `d` that has a Gradle file. */
  lemma {:induction false} LeastGradle(rules: Rules, files: seq<Path>, d: Path, n: nat) returns (m: nat)
    requires n <= |d| && HasGradle(rules, files, d[..n])
    ensures m <= n && HasGradle(rules, files, d[..m]) && !GradleAbove(rules, files, d[..m])
    decreases n
  {
    if GradleAbove(rules, files, d[..n]) {
      var k: nat :| k < |d[..n]| && HasGradle(rules, files, d[..n][..k]);
      assert d[..n][..k] == d[..k];
      m := LeastGradle(rules, files, d, k);
    } else {
      m := n;
    }
  }

  /**
   Directory by directory, `after` is `before` with some directories already filtered, by a
   part that holds all their files.
   */
  ghost predicate PartFiltered(rules: Rules, before: seq<Path>, part: seq<Path>, after: seq<Path>) {
    forall d ::
      if InDir(part, d) == [] then InDir(after, d) == InDir(before, d)
      else InDir(part, d) == InDir(before, d) && InDir(after, d) == Final(rules, part, d)
  }

  lemma GradleInPart(rules: Rules, before: seq<Path>, part: seq<Path>, after: seq<Path>, d: Path)
    requires PartFiltered(rules, before, part, after)
    ensures HasGradle(rules, after, d) ==> HasGradle(rules, before, d)
    ensures HasGradle(rules, before, d) && !GradleAbove(rules, part, d) ==> HasGradle(rules, after, d)
    ensures HasGradle(rules, part, d) ==> HasGradle(rules, before, d)
  {
    assert if InDir(part, d) == [] then InDir(after, d) == InDir(before, d)
           else InDir(part, d) == InDir(before, d) && InDir(after, d) == Final(rules, part, d);
    if InDir(part, d) != [] {
      FinalSolo(rules, part, d);
      SoloBlock(rules, Final(rules, part, d));
      var block := Block(rules, InDir(part, d));
      if HasGradle(rules, after, d) {
        var f := OfKind(rules, Final(rules, part, d), Gradle)[0];
        OfKindMembers(rules, Final(rules, part, d), Gradle, f);
        FinalMembers(rules, part, d, f);
        OfKindMembers(rules, block, Gradle, f);
      }
    } else {
      EmptyBlock(rules);
    }
  }

  lemma EmptyBlock(rules: Rules)
    ensures Block(rules, []) == []
  {
  }

  lemma AboveInPart(rules: Rules, before: seq<Path>, part: seq<Path>, after: seq<Path>, d: Path)
    requires PartFiltered(rules, before, part, after)
    ensures GradleAbove(rules, after, d) <==> GradleAbove(rules, before, d)
    ensures GradleAbove(rules, part, d) ==> GradleAbove(rules, before, d)
  {
    if GradleAbove(rules, after, d) {
      var n: nat :| n < |d| && HasGradle(rules, after, d[..n]);
      GradleInPart(rules, before, part, after, d[..n]);
    }
    if GradleAbove(rules, part, d) {
      var n: nat :| n < |d| && HasGradle(rules, part, d[..n]);
      GradleInPart(rules, before, part, after, d[..n]);
    }
    if GradleAbove(rules, before, d) {
      var n: nat :| n < |d| && HasGradle(rules, before, d[..n]);
      var m := LeastGradle(rules, before, d, n);
      if GradleAbove(rules, part, d[..m]) {
        var k: nat :| k < |d[..m]| && HasGradle(rules, part, d[..m][..k]);
        GradleInPart(rules, before, part, after, d[..m][..k]);
      }
      GradleInPart(rules, before, part, after, d[..m]);
    }
  }

  /** Filtering a part first, when the part holds all the files of its directories, changes nothing in the end. */
  lemma FilteredInParts(rules: Rules, before: seq<Path>, part: seq<Path>, after: seq<Path>, d: Path)
    requires PartFiltered(rules, before, part, after)
    ensures Final(rules, after, d) == Final(rules, before, d)
  {
    AboveInPart(rules, before, part, after, d);
    if InDir(part, d) == [] {
      assert InDir(after, d) == InDir(before, d);
    } else {
      assert InDir(part, d) == InDir(before, d) && InDir(after, d) == Final(rules, part, d);
      FinalSolo(rules, part, d);
      SoloBlock(rules, Final(rules, part, d));
      DropKindTwice(rules, Block(rules, InDir(part, d)), Gradle);
    }
  }

  /** Filtering twice is filtering once. */
  lemma FilteredTwice(rules: Rules, files: seq<Path>, r: seq<Path>)
    requires IsFiltered(rules, files, r)
    ensures IsFiltered(rules, r, r)
  {
    forall d
      ensures InDir(r, d) == Final(rules, r, d)
    {
      assert PartFiltered(rules, files, files, r) by {
        forall e | InDir(files, e) == []
          ensures InDir(r, e) == []
        {
          assert InDir(r, e) == Final(rules, files, e);
          EmptyBlock(rules);
        }
      }
      assert InDir(r, d) == Final(rules, files, d);
      FilteredInParts(rules, files, files, r, d);
    }
  }
}
