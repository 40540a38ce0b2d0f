/**
 The directory walk of src/lib/find-files.ts, over a finite tree: `find`, `findFile`
 and `findInDirectory`, and which files they see.
 */
module FindFiles {
  import opened Wrappers
  import opened Strings
  import opened Paths
  import opened Manifests
  import opened ManifestFilter

  /** What a path leads to; OtherNode is neither file nor directory, or gone by the time it is looked at. */
  datatype FsNode = FileNode | DirNode(entries: seq<Entry>) | OtherNode

  datatype Entry = Entry(name: string, node: FsNode)

  /** The result of `find`. */
  datatype Found = Found(files: seq<Path>, allFilesFound: seq<Path>)

  const IGNORE_FOLDERS: seq<string> := ["node_modules", ".build"]

  /** The folders whose contents are never searched, told by the printed path alone. */
  predicate Blocked(path: Path) {
    EndsWith(Render(path), "node_modules") || EndsWith(Render(path), "/.build")
  }

  /** findFile: without a filter every file is found. */
  predicate Matches(filter: seq<string>, path: Path) {
    filter == [] || Base(path) in filter
  }

  function WithFolder(ignore: seq<string>, folder: string): seq<string> {
    if folder in ignore then ignore else ignore + [folder]
  }

  /** The ignore list once the default folders are on it. */
  function WithDefaults(ignore: seq<string>): seq<string> {
    WithFolder(WithFolder(ignore, IGNORE_FOLDERS[0]), IGNORE_FOLDERS[1])
  }

  /** The list keeps the caller's names in front and gains exactly the two default folders, none of them twice. */
  lemma WithDefaultsIs(ignore: seq<string>)
    ensures var names := WithDefaults(ignore);
            && ignore <= names
            && (forall name: string :: name in names <==> name in ignore || name == "node_modules" || name == ".build")
            && (forall i, j :: |ignore| <= i < |names| && 0 <= j < |names| && i != j ==> names[i] != names[j])
  {
    assert IGNORE_FOLDERS[0] == "node_modules" && IGNORE_FOLDERS[1] == ".build";
    assert |"node_modules"| != |".build"|;
  }

  /** A file is found by its name, and without a filter always. */
  lemma MatchesByName(filter: seq<string>, path: Path, name: string)
    ensures Matches(filter, path + [name]) <==> |filter| == 0 || name in filter
    ensures Matches(filter, []) <==> |filter| == 0 || "" in filter
  {
  }

  ghost predicate WellFormed(node: FsNode) {
    node.DirNode? ==>
      && (forall i :: 0 <= i < |node.entries| ==> IsName(node.entries[i].name) && WellFormed(node.entries[i].node))
      && (forall i, j :: 0 <= i < j < |node.entries| ==> node.entries[i].name != node.entries[j].name)
  }

  // ----- the walk -----

  /** Every matching file the walk sees, in order. */
  function AllFound(node: FsNode, path: Path, ignore: seq<string>, filter: seq<string>, levelsDeep: int): seq<Path>
    decreases node, 1, 0
  {
    if Blocked(path) || levelsDeep < 0 then []
    else
      match node
      case FileNode => if Matches(filter, path) then [path] else []
      case OtherNode => []
      case DirNode(entries) => AllInDirectory(entries, path, ignore, filter, levelsDeep - 1)
  }

  function AllInDirectory(entries: seq<Entry>, path: Path, ignore: seq<string>, filter: seq<string>,
                          levelsDeep: int): seq<Path>
    decreases entries, 0, |entries|
  {
    if entries == [] then []
    else
      var e := entries[|entries| - 1];
      AllInDirectory(entries[..|entries| - 1], path, ignore, filter, levelsDeep)
      + AllInEntry(e, path, ignore, filter, levelsDeep)
  }

  function AllInEntry(e: Entry, path: Path, ignore: seq<string>, filter: seq<string>, levelsDeep: int): seq<Path>
    decreases e, 2, 0
  {
    if e.name in ignore then [] else AllFound(e.node, path + [e.name], ignore, filter, levelsDeep)
  }

  /** `find`, filtering for default manifests at every level on the way up. */
  function FindIn(rules: Rules, node: FsNode, path: Path, ignore: seq<string>, filter: seq<string>,
                  levelsDeep: int): Result<Found, Failure>
    decreases node, 1, 0
  {
    if Blocked(path) || levelsDeep < 0 then Ok(Found([], []))
    else
      var sub :=
        match node
        case FileNode => Ok(if Matches(filter, path) then Found([path], [path]) else Found([], []))
        case OtherNode => Ok(Found([], []))
        case DirNode(entries) => FindInDirectory(rules, entries, path, ignore, filter, levelsDeep - 1);
      match sub
      case Err(e) => Err(e)
      case Ok(found) =>
        match Filtered(rules, found.files)
        case Err(e) => Err(e)
        case Ok(files) => Ok(Found(files, found.allFilesFound))
  }

  function FindInDirectory(rules: Rules, entries: seq<Entry>, path: Path, ignore: seq<string>, filter: seq<string>,
                           levelsDeep: int): Result<Found, Failure>
    decreases entries, 0, |entries|
  {
    if entries == [] then Ok(Found([], []))
    else
      var e := entries[|entries| - 1];
      match (FindInDirectory(rules, entries[..|entries| - 1], path, ignore, filter, levelsDeep),
             FindInEntry(rules, e, path, ignore, filter, levelsDeep))
      case (Ok(a), Ok(b)) => Ok(Found(a.files + b.files, a.allFilesFound + b.allFilesFound))
      case _ => Err(NoDefaultManifest)
  }

  function FindInEntry(rules: Rules, e: Entry, path: Path, ignore: seq<string>, filter: seq<string>,
                       levelsDeep: int): Result<Found, Failure>
    decreases e, 2, 0
  {
    if e.name in ignore then Ok(Found([], [])) else FindIn(rules, e.node, path + [e.name], ignore, filter, levelsDeep)
  }

  /** The caller's array of names to ignore, which `find` extends in place. */
  class NameList {
    var names: seq<string>

    constructor (names: seq<string>)
      ensures this.names == names
    {
      this.names := names;
    }
  }

  method Find(rules: Rules, path: Path, node: FsNode, ignore: NameList, filter: seq<string>, levels: int)
    returns (r: Result<Found, Failure>)
    modifies ignore
    ensures ignore.names == if Blocked(path) then old(ignore.names) else WithDefaults(old(ignore.names))
    ensures r == FindIn(rules, node, path, WithDefaults(old(ignore.names)), filter, levels)
    decreases node, 1, 0
  {
    var found, foundAll: seq<Path> := [], [];
    if EndsWith(Render(path), "node_modules") || EndsWith(Render(path), "/.build") {
      return Ok(Found(found, foundAll));
    }
    for i := 0 to |IGNORE_FOLDERS|
      invariant ignore.names == if i == 0 then old(ignore.names)
                                else if i == 1 then WithFolder(old(ignore.names), IGNORE_FOLDERS[0])
                                else WithDefaults(old(ignore.names))
    {
      if IGNORE_FOLDERS[i] !in ignore.names {
        ignore.names := ignore.names + [IGNORE_FOLDERS[i]];
      }
    }
    var levelsDeep := levels;
    if levelsDeep < 0 {
      return Ok(Found(found, foundAll));
    } else {
      levelsDeep := levelsDeep - 1;
    }
    match node {
      case DirNode(entries) =>
        var sub := FindEntries(rules, path, entries, ignore, filter, levelsDeep);
        if sub.Err? {
          return sub;
        }
        found := found + sub.value.files;
        foundAll := foundAll + sub.value.allFilesFound;
        assert found == sub.value.files && foundAll == sub.value.allFilesFound;
      case FileNode =>
        if Matches(filter, path) {
          found := found + [path];
          foundAll := foundAll + [path];
          assert found == foundAll == [path];
        }
      case OtherNode =>
    }
    var files := FilterForDefaultManifests(rules, found);
    match files
    case Err(e) => r := Err(e);
    case Ok(kept) => r := Ok(Found(kept, foundAll));
  }

  /** findInDirectory: the results of the entries that are not ignored, put together in order. */
  method FindEntries(rules: Rules, path: Path, entries: seq<Entry>, ignore: NameList, filter: seq<string>,
                     levelsDeep: int) returns (r: Result<Found, Failure>)
    requires WithDefaults(ignore.names) == ignore.names
    modifies ignore
    ensures ignore.names == old(ignore.names)
    ensures r == FindInDirectory(rules, entries, path, ignore.names, filter, levelsDeep)
    decreases entries, 0, |entries|
  {
    var files, allFilesFound: seq<Path> := [], [];
    ghost var names := ignore.names;
    for i := 0 to |entries|
      invariant ignore.names == names
      invariant FindInDirectory(rules, entries[..i], path, names, filter, levelsDeep) == Ok(Found(files, allFilesFound))
    {
      TakeLast(entries, i);
      if entries[i].name !in ignore.names {
        var sub := Find(rules, path + [entries[i].name], entries[i].node, ignore, filter, levelsDeep);
        if sub.Err? {
          EntryFails(rules, entries, path, names, filter, levelsDeep, i + 1);
          return Err(NoDefaultManifest);
        }
        files := files + sub.value.files;
        allFilesFound := allFilesFound + sub.value.allFilesFound;
      } else {
        assert files + [] == files && allFilesFound + [] == allFilesFound;
      }
    }
    TakeAll(entries);
    r := Ok(Found(files, allFilesFound));
  }

  lemma {:induction false} EntryFails(rules: Rules, entries: seq<Entry>, path: Path, ignore: seq<string>,
                                      filter: seq<string>, levelsDeep: int, i: nat)
    requires i <= |entries| && FindInDirectory(rules, entries[..i], path, ignore, filter, levelsDeep).Err?
    ensures FindInDirectory(rules, entries, path, ignore, filter, levelsDeep) == Err(NoDefaultManifest)
    decreases |entries|
  {
    if i == |entries| {
      TakeAll(entries);
    } else {
      assert entries[..|entries| - 1][..i] == entries[..i];
      EntryFails(rules, entries[..|entries| - 1], path, ignore, filter, levelsDeep, i);
    }
  }
}
