/**
 The name tables of src/lib/detect.ts and of chooseBestManifest in
 src/lib/find-files.ts, and what they mean for the filter.
 */
module Detect {
  import opened Wrappers
  import opened Strings
  import opened Paths
  import opened Manifests
  import opened ManifestFilter
  import opened FindFiles
  import opened Walk
  import opened BottomUp
  import opened Discovery

  /** AUTO_DETECTABLE_FILES. */
  const AUTO_DETECTABLE_FILES: seq<string> := [
    "package-lock.json", "yarn.lock", "package.json", "Gemfile", "Gemfile.lock", "pom.xml", "packages.config",
    "paket.dependencies", "project.json", "project.assets.json", "Podfile", "Podfile.lock", "composer.lock",
    "Gopkg.lock", "go.mod", "vendor.json", "Pipfile", "requirements.txt", "build.sbt", "build.gradle",
    "build.gradle.kts", "poetry.lock", "mix.exs", "mix.lock", "Package.swift"
  ]

  /** The key a file name is looked up under: some endings stand for all names with that ending. */
  function TableKey(base: string): string {
    var key := if EndsWith(base, ".gemspec") then ".gemspec" else base;
    var key := if EndsWith(key, ".jar") then ".jar" else key;
    if EndsWith(key, ".war") then ".war" else key
  }

  /** DETECTABLE_PACKAGE_MANAGERS, with npm and yarn as one project type. */
  function KindOfKey(key: string): Option<Kind> {
    if key in ["Gemfile", "Gemfile.lock", ".gemspec"] then Some(Rubygems)
    else if key in ["package-lock.json", "yarn.lock", "package.json"] then Some(Node)
    else if key in ["pom.xml", ".jar", ".war"] then Some(Maven)
    else if key in ["build.gradle", "build.gradle.kts"] then Some(Gradle)
    else if key == "build.sbt" then Some(Sbt)
    else if key in ["Pipfile", "setup.py", "requirements.txt"] then Some(Pip)
    else if key == "Gopkg.lock" then Some(GolangDep)
    else if key == "go.mod" then Some(GoModules)
    else if key == "vendor.json" then Some(GoVendor)
    else if key in ["project.assets.json", "packages.config", "project.json"] then Some(Nuget)
    else if key == "paket.dependencies" then Some(Paket)
    else if key == "composer.lock" then Some(Composer)
    else if key in ["Podfile.lock", "CocoaPods.podfile.yaml", "CocoaPods.podfile", "Podfile"] then Some(Cocoapods)
    else if key == "poetry.lock" then Some(Poetry)
    else if key == "mix.exs" then Some(Hex)
    else if key == "Package.swift" then Some(Swift)
    else None
  }

  /** detectProjectTypeFromFile, on the base name. */
  function KindOfName(base: string): Option<Kind> {
    KindOfKey(TableKey(base))
  }

  /** The names chooseBestManifest looks for; a kind without any has no default. */
  function PreferredNames(k: Kind): seq<string> {
    match k
    case Node => ["package-lock.json", "yarn.lock"]
    case Rubygems => ["Gemfile.lock"]
    case Cocoapods => ["Podfile"]
    case Pip => ["Pipfile"]
    case Gradle => ["build.gradle"]
    case Poetry => ["pyproject.toml"]
    case Hex => ["mix.exs"]
    case _ => []
  }

  predicate IsGradleName(base: string) {
    EndsWith(base, "build.gradle") || EndsWith(base, "build.gradle.kts")
  }

  const RULES := Rules(KindOfName, PreferredNames, IsGradleName)

  // ----- the tables fit together -----

  /** Names looked up under themselves. */
  lemma PlainKey(base: string)
    requires TableKey(base) !in [".gemspec", ".jar", ".war"]
    ensures TableKey(base) == base
  {
  }

  /** The third last letter tells the Gradle names from all others in the table. */
  lemma GradleLetter(key: string)
    requires KindOfKey(key).Some? && |key| >= 3 && key[|key| - 3] in ['d', 'k']
    ensures key in ["build.gradle", "build.gradle.kts"]
  {
    if |key| < 12 {
      ShorterLetter(key);
    } else {
      LongerLetter(key);
    }
  }

  lemma ShorterLetter(key: string)
    requires KindOfKey(key).Some? && 3 <= |key| < 12
    ensures key[|key| - 3] !in ['d', 'k']
  {
  }

  lemma LongerLetter(key: string)
    requires KindOfKey(key).Some? && |key| >= 12 && key[|key| - 3] in ['d', 'k']
    ensures key in ["build.gradle", "build.gradle.kts"]
  {
  }

  lemma GradleEnding(base: string)
    requires IsGradleName(base)
    ensures |base| >= 3 && base[|base| - 3] in ['d', 'k'] && TableKey(base) == base
  {
    var n := |base|;
    if EndsWith(base, "build.gradle") {
      assert base[n - 3] == base[n - 12..][9] == 'd' && base[n - 1] == base[n - 12..][11] == 'e';
    } else {
      assert base[n - 3] == base[n - 16..][13] == 'k' && base[n - 1] == base[n - 16..][15] == 's';
    }
    LastLetter(base, ".gemspec");
    LastLetter(base, ".jar");
    LastLetter(base, ".war");
  }

  lemma LastLetter(s: string, suffix: string)
    requires s != "" && suffix != ""
    ensures EndsWith(s, suffix) ==> s[|s| - 1] == suffix[|suffix| - 1]
  {
    if EndsWith(s, suffix) {
      assert s[|s| - |suffix|..][|suffix| - 1] == s[|s| - 1];
    }
  }

  lemma GradleKeys(key: string)
    ensures KindOfKey(key) == Some(Gradle) <==> key in ["build.gradle", "build.gradle.kts"]
  {
    if key in ["build.gradle", "build.gradle.kts"] {
      assert key[0] == 'b';
    }
  }

  lemma GradleByName(base: string)
    requires base in ["build.gradle", "build.gradle.kts"]
    ensures IsGradleName(base)
  {
    assert base[0..] == base;
  }

  lemma RulesAreConsistent()
    ensures Consistent(RULES)
  {
    forall base | KindOfName(base).Some?
      ensures KindOfName(base) == Some(Gradle) <==> IsGradleName(base)
    {
      GradleKeys(TableKey(base));
      if KindOfName(base) == Some(Gradle) {
        PlainKey(base);
        GradleByName(base);
      }
      if IsGradleName(base) {
        GradleEnding(base);
        GradleLetter(base);
      }
    }
  }

  // ----- the tables, read the other way -----

  /** The names of each kind, as the table lists them. */
  ghost function NamesOf(k: Kind): seq<string> {
    match k
    case Rubygems => ["Gemfile", "Gemfile.lock"]
    case Node => ["package-lock.json", "package.json", "yarn.lock"]
    case Maven => ["pom.xml"]
    case Gradle => ["build.gradle", "build.gradle.kts"]
    case Sbt => ["build.sbt"]
    case Pip => ["Pipfile", "setup.py", "requirements.txt"]
    case GolangDep => ["Gopkg.lock"]
    case GoModules => ["go.mod"]
    case GoVendor => ["vendor.json"]
    case Nuget => ["project.assets.json", "packages.config", "project.json"]
    case Paket => ["paket.dependencies"]
    case Composer => ["composer.lock"]
    case Cocoapods => ["Podfile.lock", "CocoaPods.podfile.yaml", "CocoaPods.podfile", "Podfile"]
    case Poetry => ["poetry.lock"]
    case Hex => ["mix.exs"]
    case Swift => ["Package.swift"]
  }

  /** The endings that stand for a kind whatever comes before them. */
  ghost function EndingsOf(k: Kind): seq<string> {
    match k
    case Rubygems => [".gemspec"]
    case Maven => [".jar", ".war"]
    case _ => []
  }

  ghost predicate IsListed(key: string, k: Kind) {
    key in NamesOf(k) || key in EndingsOf(k)
  }

  lemma FirstKeysAreListed(key: string, k: Kind)
    requires KindOfKey(key) == Some(k) && k in [Rubygems, Node, Maven, Gradle, Sbt, Pip]
    ensures IsListed(key, k)
  {
  }

  lemma LastKeysAreListed(key: string, k: Kind)
    requires KindOfKey(key) == Some(k) && k !in [Rubygems, Node, Maven, Gradle, Sbt, Pip]
    ensures IsListed(key, k)
  {
  }

  lemma KeyIsListed(key: string, k: Kind)
    requires KindOfKey(key) == Some(k)
    ensures IsListed(key, k)
  {
    match k {
      case Rubygems | Node | Maven | Gradle | Sbt | Pip => FirstKeysAreListed(key, k);
      case _ => LastKeysAreListed(key, k);
    }
  }

  lemma ListedHasKind(key: string, k: Kind)
    requires IsListed(key, k)
    ensures KindOfKey(key).Some?
  {
  }

  /** No listed name starts with a dot or ends like one of the endings. */
  lemma NamesHaveNoEnding(name: string, k: Kind)
    requires name in NamesOf(k)
    ensures name != "" && name[0] != '.' && name[|name| - 1] !in ['c', 'r']
  {
    NamesStart(name, k);
    NamesEnd(name, k);
  }

  lemma NamesStart(name: string, k: Kind)
    requires name in NamesOf(k)
    ensures name != "" && name[0] != '.'
  {
  }

  lemma NamesEnd(name: string, k: Kind)
    requires name in NamesOf(k)
    ensures name != "" && name[|name| - 1] !in ['c', 'r']
  {
  }

  lemma TableKeyOfEnding(base: string)
    ensures EndsWith(base, ".gemspec") ==> TableKey(base) == ".gemspec"
    ensures EndsWith(base, ".jar") ==> TableKey(base) == ".jar"
    ensures EndsWith(base, ".war") ==> TableKey(base) == ".war"
  {
    if base != "" {
      LastLetter(base, ".gemspec");
    }
    LastLetter(".gemspec", ".jar");
    LastLetter(".gemspec", ".war");
    assert EndsWith(base, ".jar") ==> base[|base| - 4..][1] == 'j' && base[|base| - 4..][1] == base[|base| - 3];
    assert EndsWith(base, ".war") ==> base[|base| - 4..][1] == 'w' && base[|base| - 4..][1] == base[|base| - 3];
    assert ".jar"[0..] == ".jar" && ".jar"[1] == 'j' && ".war"[1] == 'w';
  }

  /** A name has the kind it is listed under, by itself or by its ending. */
  lemma KindByName(base: string, k: Kind)
    requires KindOfName(base) == Some(k)
    ensures base in NamesOf(k) || exists ending :: ending in EndingsOf(k) && EndsWith(base, ending)
  {
    var key := TableKey(base);
    KeyIsListed(key, k);
    if key in [".gemspec", ".jar", ".war"] {
      if key in NamesOf(k) {
        NamesHaveNoEnding(key, k);
      }
      assert EndsWith(base, key);
    } else {
      PlainKey(base);
      assert key in EndingsOf(k) ==> EndsWith(base, key);
    }
  }

  /** Every listed name, and every name with a listed ending, has a kind. */
  lemma ListedNameHasKind(base: string, k: Kind)
    requires base in NamesOf(k) || exists ending :: ending in EndingsOf(k) && EndsWith(base, ending)
    ensures KindOfName(base).Some?
  {
    if base in NamesOf(k) {
      NamesHaveNoEnding(base, k);
      LastLetter(base, ".gemspec");
      LastLetter(base, ".jar");
      LastLetter(base, ".war");
      ListedHasKind(base, k);
    } else {
      var ending :| ending in EndingsOf(k) && EndsWith(base, ending);
      TableKeyOfEnding(base);
      ListedHasKind(ending, k);
    }
  }

  // ----- the names the program searches for -----

  lemma AutoLastLetter(base: string)
    requires base in AUTO_DETECTABLE_FILES
    ensures base != "" && base[|base| - 1] !in ['c', 'r']
  {
  }

  lemma AutoNotPython(base: string)
    requires base in AUTO_DETECTABLE_FILES && base != ""
    ensures base[|base| - 1] != 'y'
  {
  }

  lemma AutoKey(base: string)
    requires base in AUTO_DETECTABLE_FILES
    ensures base != "" && TableKey(base) == base
  {
    AutoLastLetter(base);
    LastLetter(base, ".gemspec");
    LastLetter(base, ".jar");
    LastLetter(base, ".war");
  }

  lemma OthersHaveKinds(base: string)
    requires base in AUTO_DETECTABLE_FILES && base != "mix.lock"
    ensures KindOfKey(base).Some?
  {
  }

  lemma MixLockHasNoKind()
    ensures KindOfKey("mix.lock") == None
  {
    assert "mix.lock"[3] == '.' && |"mix.lock"| == 8;
  }

  /** Of the names searched for, only mix.lock has no package manager. */
  lemma OnlyMixLockHasNoKind(base: string)
    requires base in AUTO_DETECTABLE_FILES
    ensures KindOfName(base) == None <==> base == "mix.lock"
  {
    AutoKey(base);
    MixLockHasNoKind();
    if base != "mix.lock" {
      OthersHaveKinds(base);
    }
  }

  /** The listed names that are not searched for. */
  ghost predicate IsExtraName(base: string) {
    base in ["setup.py", "CocoaPods.podfile.yaml", "CocoaPods.podfile"]
  }

  lemma AutoLetters(base: string)
    requires base in AUTO_DETECTABLE_FILES
    ensures base != "" && base[0] !in ['C', '.']
  {
  }


  lemma EndingsStartWithDot(ending: string, k: Kind)
    requires ending in EndingsOf(k)
    ensures ending != "" && ending[0] == '.'
  {
  }

  lemma ExtraLetters(base: string)
    requires IsExtraName(base)
    ensures base != "" && (base[0] == 'C' || base[|base| - 1] == 'y')
  {
  }

  lemma SearchedIsListed(base: string)
    requires base in AUTO_DETECTABLE_FILES && base != "mix.lock"
    ensures (exists k :: base in NamesOf(k)) && !IsExtraName(base)
  {
    AutoLetters(base);
    AutoNotPython(base);
    OthersHaveKinds(base);
    var k := KindOfKey(base).value;
    KeyIsListed(base, k);
    if base in EndingsOf(k) {
      EndingsStartWithDot(base, k);
    }
    if IsExtraName(base) {
      ExtraLetters(base);
    }
  }

  /** The names searched for are mix.lock and the listed names but for three. */
  lemma AutoIsListed(base: string)
    ensures base in AUTO_DETECTABLE_FILES
        <==> base == "mix.lock" || ((exists k :: base in NamesOf(k)) && !IsExtraName(base))
  {
    if base == "mix.lock" {
      assert base == AUTO_DETECTABLE_FILES[23];
    } else {
      if base in AUTO_DETECTABLE_FILES {
        SearchedIsListed(base);
      }
      if k :| base in NamesOf(k) && !IsExtraName(base) {
        ListedIsSearched(base, k);
      }
    }
  }

  lemma ListedIsSearched(base: string, k: Kind)
    requires base in NamesOf(k) && !IsExtraName(base)
    ensures base in AUTO_DETECTABLE_FILES
  {
  }

  /** The names searched for that a kind with preferred names can have. */
  lemma NamesOfKind(base: string)
    ensures KindOfKey(base) == Some(Node) ==> base in ["package-lock.json", "yarn.lock", "package.json"]
    ensures KindOfKey(base) == Some(Rubygems) ==> base in ["Gemfile", "Gemfile.lock", ".gemspec"]
  {
  }

  lemma NameOfPoetry(base: string)
    requires KindOfKey(base) == Some(Poetry)
    ensures base == "poetry.lock"
  {
  }

  lemma NameOfHex(base: string)
    requires KindOfKey(base) == Some(Hex)
    ensures base == "mix.exs"
  {
  }

  lemma NamesOfGradle(base: string)
    requires KindOfKey(base) == Some(Gradle)
    ensures base in ["build.gradle", "build.gradle.kts"]
  {
  }

  lemma NamesOfPip(base: string)
    requires base in AUTO_DETECTABLE_FILES && KindOfKey(base) == Some(Pip)
    ensures base in ["Pipfile", "requirements.txt"]
  {
    assert base in ["Pipfile", "setup.py", "requirements.txt"];
    assert base[|base| - 1] != 'y';
  }

  lemma NamesOfCocoapods(base: string)
    requires base in AUTO_DETECTABLE_FILES && KindOfKey(base) == Some(Cocoapods)
    ensures base in ["Podfile", "Podfile.lock"]
  {
    assert base in ["Podfile.lock", "CocoaPods.podfile.yaml", "CocoaPods.podfile", "Podfile"];
    assert base[0] != 'C';
  }

  lemma NamesOfRubygems(base: string)
    requires base in AUTO_DETECTABLE_FILES && KindOfKey(base) == Some(Rubygems)
    ensures base in ["Gemfile", "Gemfile.lock"]
  {
    NamesOfKind(base);
    assert base[0] != '.';
  }

  /** Of two different names searched for with the same kind, one is preferred, if the kind prefers any. */
  lemma OneIsPreferred(a: string, b: string, k: Kind)
    requires a in AUTO_DETECTABLE_FILES && b in AUTO_DETECTABLE_FILES && a != b
    requires KindOfName(a) == KindOfName(b) == Some(k) && PreferredNames(k) != []
    ensures a in PreferredNames(k) || b in PreferredNames(k)
  {
    AutoKey(a);
    AutoKey(b);
    match k {
      case Pip => NamesOfPip(a); NamesOfPip(b);
      case Cocoapods => NamesOfCocoapods(a); NamesOfCocoapods(b);
      case Rubygems => NamesOfRubygems(a); NamesOfRubygems(b);
      case Gradle => NamesOfGradle(a); NamesOfGradle(b);
      case Node => NamesOfKind(a); NamesOfKind(b);
      case Poetry => NameOfPoetry(a); NameOfPoetry(b);
      case _ => NameOfHex(a); NameOfHex(b);
    }
  }

  /** The files that stand for several of their kind, by name. */
  ghost predicate IsDefaultName(k: Kind, base: string) {
    match k
    case Node => base == "package-lock.json" || base == "yarn.lock"
    case Rubygems => base == "Gemfile.lock"
    case Cocoapods => base == "Podfile"
    case Pip => base == "Pipfile"
    case Gradle => base == "build.gradle"
    case Hex => base == "mix.exs"
    case _ => false
  }

  /** Poetry's default is a name without a kind, so it is never among the files of the kind. */
  lemma PreferredNamesAre(k: Kind, base: string)
    ensures base in PreferredNames(k) <==> IsDefaultName(k, base) || (k == Poetry && base == "pyproject.toml")
  {
  }

  lemma NoNameIsPyproject(base: string)
    requires base in NamesOf(Poetry)
    ensures base != "pyproject.toml"
  {
    assert "poetry.lock"[1] == 'o' && "pyproject.toml"[1] == 'y';
  }

  lemma PreferredIsDefault(k: Kind, base: string)
    requires base in PreferredNames(k) && KindOfName(base) == Some(k)
    ensures IsDefaultName(k, base)
  {
    PreferredNamesAre(k, base);
    if k == Poetry {
      KindByName(base, Poetry);
      NoNameIsPyproject(base);
    }
  }

  /** Where a directory has another file of the same kind, `find` only returns one with a default name of the kind. */
  lemma KeptByName(files: seq<Path>, r: seq<Path>, f: Path, g: Path)
    requires AllDifferent(files) && IsFiltered(RULES, files, r) && f in r
    requires g in files && g != f && SameGroup(RULES, f, g)
    ensures KindOf(RULES, f).Some? && IsDefaultName(KindOf(RULES, f).value, Base(f))
  {
    KeptExactly(RULES, files, r, f);
    StandsIff(RULES, files, f);
    PreferredIsDefault(KindOf(RULES, f).value, Base(f));
  }

  // ----- the filter never fails on them -----

  ghost predicate AllAutoDetectable(files: seq<Path>) {
    forall f :: f in files ==> Base(f) in AUTO_DETECTABLE_FILES
  }

  /** A group of at least two different files of one directory and kind has a default among them. */
  lemma GroupHasDefault(files: seq<Path>, d: Path, k: Kind)
    requires AllDifferent(files) && AllAutoDetectable(files)
    requires k in Kinds(RULES, InDir(files, d))
    ensures Choose(RULES, OfKind(RULES, InDir(files, d), k), k) != Missing
  {
    var inDir := InDir(files, d);
    var group := OfKind(RULES, inDir, k);
    KindsMembers(RULES, inDir, k);
    if |group| > 1 && PreferredNames(k) != [] {
      var a, b := group[0], group[1];
      InDirDifferent(files, d);
      OfKindDifferent(RULES, inDir, k);
      OfKindMembers(RULES, inDir, k, a);
      OfKindMembers(RULES, inDir, k, b);
      InDirMembers(files, d, a);
      InDirMembers(files, d, b);
      SameDirDifferentBase(a, b);
      OneIsPreferred(Base(a), Base(b), k);
      FirstNamedIsFirst(group, PreferredNames(k));
      assert a in group && b in group;
    }
  }

  lemma SameDirDifferentBase(a: Path, b: Path)
    requires a != b && Dir(a) == Dir(b) && Base(a) in AUTO_DETECTABLE_FILES && Base(b) in AUTO_DETECTABLE_FILES
    ensures Base(a) != Base(b)
  {
    AutoKey(Base(a));
    AutoKey(Base(b));
    if a != [] && b != [] {
      TakeSnoc(a, |a| - 1);
      TakeAll(a);
      TakeSnoc(b, |b| - 1);
      TakeAll(b);
    }
  }

  /** chooseBestManifest never reads the path of a missing default on different files with names searched for. */
  lemma AutoDetectableHaveDefaults(files: seq<Path>)
    requires AllDifferent(files) && AllAutoDetectable(files)
    ensures !MissesSomeDefault(RULES, files)
  {
    forall d
      ensures !MissesDefaultIn(RULES, files, d)
    {
      var kinds := Kinds(RULES, InDir(files, d));
      forall i | 0 <= i < |kinds|
        ensures Choose(RULES, OfKind(RULES, InDir(files, d), kinds[i]), kinds[i]) != Missing
      {
        GroupHasDefault(files, d, kinds[i]);
      }
    }
  }

  /** Everything found passes the filter. */
  lemma FoundPassFilter(node: FsNode, path: Path, ignore: seq<string>, filter: seq<string>, levelsDeep: int, f: Path)
    requires WellFormed(node) && filter != [] && f in AllFound(node, path, ignore, filter, levelsDeep)
    ensures Base(f) in filter
  {
    FindsExactlyVisible(node, path, ignore, filter, levelsDeep, f);
    assert path + f[|path|..] == f;
  }

  /** `find` fails only where the filter over everything found would. */
  lemma FailsOnlyOnMissing(node: FsNode, path: Path, ignore: seq<string>, filter: seq<string>, levelsDeep: int)
    requires WellFormed(node) && IsPath(path)
    requires !MissesSomeDefault(RULES, AllFound(node, path, ignore, filter, levelsDeep))
    ensures FindIn(RULES, node, path, ignore, filter, levelsDeep).Ok?
  {
    RulesAreConsistent();
    WalkLeaves(RULES, node, path, ignore, filter, levelsDeep);
  }

  /** With the program's own name list, `find` succeeds on every tree. */
  lemma FindSucceeds(node: FsNode, path: Path, ignore: seq<string>, levelsDeep: int)
    requires WellFormed(node) && IsPath(path)
    ensures FindIn(RULES, node, path, ignore, AUTO_DETECTABLE_FILES, levelsDeep).Ok?
  {
    var all := AllFound(node, path, ignore, AUTO_DETECTABLE_FILES, levelsDeep);
    FindsEachOnce(node, path, ignore, AUTO_DETECTABLE_FILES, levelsDeep);
    forall f | f in all
      ensures Base(f) in AUTO_DETECTABLE_FILES
    {
      FoundPassFilter(node, path, ignore, AUTO_DETECTABLE_FILES, levelsDeep, f);
    }
    AutoDetectableHaveDefaults(all);
    FailsOnlyOnMissing(node, path, ignore, AUTO_DETECTABLE_FILES, levelsDeep);
  }

  /** IsGradleName looks at the name, the code at the printed path; an ending without a slash lies in the last name. */
  lemma EndingInPath(path: Path, ending: string)
    requires path != [] && IsPath(path) && Free(ending, '/')
    ensures EndsWith(Base(path), ending) <==> EndsWith(Render(path), ending)
  {
    var before := RenderEndsInName(path);
    EndsWithLast(before, Base(path), '/', ending);
  }

  // ----- a tree on which the two ways of filtering differ -----

  const MIX_LOCK := Entry("mix.lock", FileNode)
  const ONE_LOCK := DirNode([MIX_LOCK])
  const TWO_LOCKS := DirNode([Entry("c", ONE_LOCK), Entry("d", ONE_LOCK)])
  /** r/a/mix.lock, r/b/c/mix.lock and r/b/d/mix.lock. */
  const THREE_LOCKS := DirNode([Entry("a", ONE_LOCK), Entry("b", TWO_LOCKS)])

  ghost predicate ShortNames(path: Path) {
    path != [] && IsPath(path) && forall i :: 0 <= i < |path| ==> |path[i]| == 1
  }

  lemma ShortIsOpen(path: Path)
    requires ShortNames(path)
    ensures !Blocked(path) && !Blocked(path + ["mix.lock"])
  {
    BlockedByName(path);
    var longer := path + ["mix.lock"];
    assert forall i :: 0 <= i < |longer| ==> longer[i] == if i < |path| then path[i] else "mix.lock";
    BlockedByName(longer);
  }

  lemma DefaultsIgnored()
    ensures "mix.lock" !in WithDefaults([])
    ensures forall name: string :: |name| == 1 ==> name !in WithDefaults([])
  {
    assert WithDefaults([]) == ["node_modules", ".build"];
  }

  ghost function AutoFound(node: FsNode, path: Path, levelsDeep: int): seq<Path> {
    AllFound(node, path, WithDefaults([]), AUTO_DETECTABLE_FILES, levelsDeep)
  }

  ghost function AutoResidue(node: FsNode, path: Path, levelsDeep: int): nat {
    Residue(node, path, WithDefaults([]), AUTO_DETECTABLE_FILES, levelsDeep)
  }

  lemma OneEntry(e: Entry, path: Path, levelsDeep: int)
    requires e.name !in WithDefaults([])
    ensures AllInDirectory([e], path, WithDefaults([]), AUTO_DETECTABLE_FILES, levelsDeep)
            == AutoFound(e.node, path + [e.name], levelsDeep)
    ensures ResidueSum([e], path, WithDefaults([]), AUTO_DETECTABLE_FILES, levelsDeep)
            == AutoResidue(e.node, path + [e.name], levelsDeep)
  {
    assert [e][..0] == [];
    assert [] + AutoFound(e.node, path + [e.name], levelsDeep) == AutoFound(e.node, path + [e.name], levelsDeep);
  }

  lemma TwoEntries(a: Entry, b: Entry, path: Path, levelsDeep: int)
    requires a.name !in WithDefaults([]) && b.name !in WithDefaults([])
    ensures AllInDirectory([a, b], path, WithDefaults([]), AUTO_DETECTABLE_FILES, levelsDeep)
         == AutoFound(a.node, path + [a.name], levelsDeep) + AutoFound(b.node, path + [b.name], levelsDeep)
    ensures ResidueSum([a, b], path, WithDefaults([]), AUTO_DETECTABLE_FILES, levelsDeep)
         == AutoResidue(a.node, path + [a.name], levelsDeep) + AutoResidue(b.node, path + [b.name], levelsDeep)
  {
    OneEntry(a, path, levelsDeep);
    assert [a, b][..1] == [a];
  }

  lemma LockFound(path: Path, levelsDeep: int)
    requires levelsDeep >= 0 && !Blocked(path + ["mix.lock"])
    ensures AutoFound(FileNode, path + ["mix.lock"], levelsDeep) == [path + ["mix.lock"]]
    ensures AutoResidue(FileNode, path + ["mix.lock"], levelsDeep) == 1
  {
    assert Base(path + ["mix.lock"]) == "mix.lock" == AUTO_DETECTABLE_FILES[23];
  }

  /** The walk goes into a directory that is not blocked. */
  lemma GoesIn(entries: seq<Entry>, path: Path, levelsDeep: int)
    requires !Blocked(path) && levelsDeep >= 0
    ensures AutoFound(DirNode(entries), path, levelsDeep)
         == AllInDirectory(entries, path, WithDefaults([]), AUTO_DETECTABLE_FILES, levelsDeep - 1)
    ensures AutoResidue(DirNode(entries), path, levelsDeep)
         == if ResidueSum(entries, path, WithDefaults([]), AUTO_DETECTABLE_FILES, levelsDeep - 1) == 1 then 1 else 0
  {
  }

  /** The files found, and the residue, for a directory with nothing but one mix.lock. */
  lemma OneLock(path: Path, levelsDeep: int)
    requires ShortNames(path) && levelsDeep >= 1
    ensures AutoFound(ONE_LOCK, path, levelsDeep) == [path + ["mix.lock"]]
    ensures AutoResidue(ONE_LOCK, path, levelsDeep) == 1
  {
    assert !Blocked(path) && !Blocked(path + ["mix.lock"]) by { ShortIsOpen(path); }
    assert "mix.lock" !in WithDefaults([]) by { DefaultsIgnored(); }
    GoesIn([MIX_LOCK], path, levelsDeep);
    LockFound(path, levelsDeep - 1);
    OneEntry(MIX_LOCK, path, levelsDeep - 1);
  }

  lemma ShortNamesMore(path: Path, name: string)
    requires ShortNames(path) && IsName(name) && |name| == 1
    ensures ShortNames(path + [name])
  {
    assert forall i :: 0 <= i < |path + [name]| ==> (path + [name])[i] == if i < |path| then path[i] else name;
  }

  lemma TwoLocks(path: Path, levelsDeep: int)
    requires ShortNames(path) && levelsDeep >= 2
    ensures AutoFound(TWO_LOCKS, path, levelsDeep) == [path + ["c"] + ["mix.lock"], path + ["d"] + ["mix.lock"]]
    ensures AutoResidue(TWO_LOCKS, path, levelsDeep) == 0
  {
    assert IsName("c") && IsName("d");
    ShortIsOpen(path);
    DefaultsIgnored();
    ShortNamesMore(path, "c");
    ShortNamesMore(path, "d");
    OneLock(path + ["c"], levelsDeep - 1);
    OneLock(path + ["d"], levelsDeep - 1);
    TwoEntries(Entry("c", ONE_LOCK), Entry("d", ONE_LOCK), path, levelsDeep - 1);
  }

  lemma ThreeLocks()
    ensures AutoFound(THREE_LOCKS, ["r"], 4)
         == [["r"] + ["a"] + ["mix.lock"]]
            + [["r"] + ["b"] + ["c"] + ["mix.lock"], ["r"] + ["b"] + ["d"] + ["mix.lock"]]
    ensures AutoResidue(THREE_LOCKS, ["r"], 4) == 1
  {
    assert IsName("r") && IsName("a") && IsName("b") && ShortNames(["r"]);
    ShortIsOpen(["r"]);
    DefaultsIgnored();
    ShortNamesMore(["r"], "a");
    ShortNamesMore(["r"], "b");
    OneLock(["r"] + ["a"], 3);
    TwoLocks(["r"] + ["b"], 3);
    TwoEntries(Entry("a", ONE_LOCK), Entry("b", TWO_LOCKS), ["r"], 3);
  }

  lemma LocksAreWellFormed()
    ensures WellFormed(THREE_LOCKS)
  {
    assert IsName("a") && IsName("b") && IsName("c") && IsName("d") && IsName("mix.lock");
    assert "a" != "b" && "c" != "d";
    assert WellFormed(ONE_LOCK) && WellFormed(TWO_LOCKS);
  }

  lemma LockHasNoKind(f: Path)
    requires Base(f) == "mix.lock"
    ensures KindOf(RULES, f) == None
  {
    assert "mix.lock" == AUTO_DETECTABLE_FILES[23];
    OnlyMixLockHasNoKind("mix.lock");
  }

  /**
   Three files are found, the filter keeps none of them when it runs once, but one of them when
   it runs at every level.
   */
  lemma MixLockSlipsThrough()
    ensures WellFormed(THREE_LOCKS)
    ensures FilesOf(FindIn(RULES, THREE_LOCKS, ["r"], WithDefaults([]), AUTO_DETECTABLE_FILES, 4))
         != Filtered(RULES, AllFound(THREE_LOCKS, ["r"], WithDefaults([]), AUTO_DETECTABLE_FILES, 4))
  {
    assert IsPath(["r"]);
    LocksAreWellFormed();
    RulesAreConsistent();
    ThreeLocks();
    forall f | f in AutoFound(THREE_LOCKS, ["r"], 4)
      ensures KindOf(RULES, f) == None
    {
      LockHasNoKind(f);
    }
    assert LoneFileSlipsThrough(RULES, THREE_LOCKS, ["r"], WithDefaults([]), AUTO_DETECTABLE_FILES, 4);
    SameUnlessLoneFile(RULES, THREE_LOCKS, ["r"], WithDefaults([]), AUTO_DETECTABLE_FILES, 4);
  }
}
