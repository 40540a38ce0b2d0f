/**
 Applying patches to files: applyPatchToFile of packages/vulnmap-protect/src/lib/patch.ts,
 and the run over all patches of packages/vulnmap-protect/src/lib/index.ts.  The file
 system is a map from path to content; path.join and path.resolve are arbitrary.
 */
module Protect {
  import opened Wrappers
  import opened Hunks
  import PatchText
  import Strings

  type Files = map<string, string>

  datatype ProtectError = Unreadable(path: string) | NotPatched(error: PatchError)

  /** One patch to apply; `now` is the time stamp written into the old-style flag. */
  datatype Call = Call(patch: string, baseFolder: string, vulnId: string, now: string)

  datatype PathTools = PathTools(join: (string, string) -> string, resolve: (string, string) -> string)

  /** `line.replace('--- a/', '')`: the first occurrence. */
  function WithoutHeader(line: string): string {
    if PatchText.HEADER <= line then line[|PatchText.HEADER|..]
    else if line == "" then ""
    else [line[0]] + WithoutHeader(line[1..])
  }

  function TargetFileName(patch: string): string {
    WithoutHeader(PatchText.PatchContentLines(patch)[0])
  }

  /** Colons become dashes; everything else stays. */
  function FileSafe(vulnId: string): (r: string)
    ensures |r| == |vulnId|
    ensures forall i :: 0 <= i < |r| ==> r[i] == if vulnId[i] == ':' then '-' else vulnId[i]
  {
    if vulnId == "" then ""
    else [if vulnId[0] == ':' then '-' else vulnId[0]] + FileSafe(vulnId[1..])
  }

  function Target(paths: PathTools, c: Call): string {
    paths.join(c.baseFolder, TargetFileName(c.patch))
  }

  function Flag(target: string): string {
    target + ".vulnmap-protect.flag"
  }

  function OrigFlag(target: string): string {
    target + ".orig"
  }

  function OldStyleFlag(paths: PathTools, c: Call): string {
    paths.resolve(c.baseFolder, ".vulnmap-" + FileSafe(c.vulnId) + ".flag")
  }

  predicate Flagged(files: Files, target: string) {
    Flag(target) in files || OrigFlag(target) in files
  }

  /** The file is patched by this call: it is not flagged, it can be read, and its patch succeeds. */
  predicate Writes(paths: PathTools, files: Files, c: Call) {
    var target := Target(paths, c);
    !Flagged(files, target) && target in files && PatchText.Patched(c.patch, files[target]).Ok?
  }

  /** What one call does to the files. */
  function AfterCall(paths: PathTools, files: Files, c: Call): Files {
    var target := Target(paths, c);
    if Writes(paths, files, c) then
      var patched := PatchText.Patched(c.patch, files[target]).value;
      files[target := patched][Flag(target) := ""][OldStyleFlag(paths, c) := c.now]
    else files
  }

  /** A call throws when its target is not flagged and cannot be patched. */
  predicate Throws(paths: PathTools, files: Files, c: Call) {
    !Flagged(files, Target(paths, c)) && !Writes(paths, files, c)
  }

  /** A missing target cannot be read; any other failure is the patch's own. */
  predicate IsErrorOf(error: ProtectError, files: Files, target: string, patch: string) {
    match error
    case Unreadable(path) => path == target && target !in files
    case NotPatched(e) => target in files && PatchText.Patched(patch, files[target]) == Err(e)
  }

  /** A run: the calls in order, up to the first that throws. */
  function AfterRun(paths: PathTools, files: Files, calls: seq<Call>): Files
    decreases |calls|
  {
    if calls == [] || Throws(paths, files, calls[0]) then files
    else AfterRun(paths, AfterCall(paths, files, calls[0]), calls[1..])
  }

  predicate RunThrows(paths: PathTools, files: Files, calls: seq<Call>)
    decreases |calls|
  {
    calls != [] &&
    (Throws(paths, files, calls[0]) || RunThrows(paths, AfterCall(paths, files, calls[0]), calls[1..]))
  }

  /** What is left of a run from call `i` on. */
  lemma RunStep(paths: PathTools, files: Files, calls: seq<Call>, i: nat)
    requires i < |calls|
    ensures var rest := AfterRun(paths, AfterCall(paths, files, calls[i]), calls[i + 1..]);
            AfterRun(paths, files, calls[i..]) == if Throws(paths, files, calls[i]) then files else rest
    ensures RunThrows(paths, files, calls[i..])
        <==> Throws(paths, files, calls[i]) || RunThrows(paths, AfterCall(paths, files, calls[i]), calls[i + 1..])
  {
    assert calls[i..][0] == calls[i] && calls[i..][1..] == calls[i + 1..];
  }

  class Protector {
    const paths: PathTools
    var files: Files

    constructor (paths: PathTools, files: Files)
      ensures this.paths == paths && this.files == files
    {
      this.paths, this.files := paths, files;
    }

    /** applyPatchToFile. */
    method ApplyPatchToFile(c: Call) returns (r: Result<string, ProtectError>)
      modifies this`files
      ensures r.Err? <==> Throws(paths, old(files), c)
      ensures r.Ok? ==> r.value == Target(paths, c)
      ensures r.Err? ==> files == old(files) && IsErrorOf(r.error, old(files), Target(paths, c), c.patch)
      ensures files == AfterCall(paths, old(files), c)
    {
      var targetFilePath := Target(paths, c);
      var flagPath, origPatchFlagPath := Flag(targetFilePath), OrigFlag(targetFilePath);
      if flagPath in files || origPatchFlagPath in files {
        return Ok(targetFilePath);
      }
      if targetFilePath !in files {
        return Err(Unreadable(targetFilePath));
      }
      var contentsToPatch := files[targetFilePath];
      var patchedContents := PatchText.PatchString(c.patch, contentsToPatch);
      if patchedContents.Err? {
        return Err(NotPatched(patchedContents.error));
      }
      files := files[targetFilePath := patchedContents.value];
      files := files[flagPath := ""];
      files := files[OldStyleFlag(paths, c) := c.now];
      return Ok(targetFilePath);
    }

    /** The nested loops of the run, flattened to one list of calls. */
    method ApplyAll(calls: seq<Call>) returns (patched: seq<string>, error: Option<ProtectError>)
      modifies this`files
      ensures files == AfterRun(paths, old(files), calls)
      ensures error.Some? <==> RunThrows(paths, old(files), calls)
      ensures error.None? ==> |patched| == |calls|
                              && forall i :: 0 <= i < |calls| ==> patched[i] == Target(paths, calls[i])
    {
      patched, error := [], None;
      for i := 0 to |calls|
        invariant AfterRun(paths, old(files), calls) == AfterRun(paths, files, calls[i..])
        invariant RunThrows(paths, old(files), calls) == RunThrows(paths, files, calls[i..])
        invariant |patched| == i && forall k :: 0 <= k < i ==> patched[k] == Target(paths, calls[k])
      {
        RunStep(paths, files, calls, i);
        var r := ApplyPatchToFile(calls[i]);
        if r.Err? {
          return patched, Some(r.error);
        }
        patched := patched + [r.value];
      }
    }
  }

  // ----- one call, by file names -----

  /** A patch with a header names its target on the header's line; one without has its last character as target. */
  lemma TargetFileNameIs(patch: string)
    ensures match PatchText.FindHeader(patch, 0)
            case Some(i) =>
              exists rest :: patch[i..] == "--- a/" + TargetFileName(patch) + rest
                && '\n' !in TargetFileName(patch) && (rest != "" ==> rest[0] == '\n')
            case None =>
              TargetFileName(patch) == if patch == "" || patch[|patch| - 1] == '\n' then "" else [patch[|patch| - 1]]
  {
    var s := PatchText.FromHeader(patch);
    var line := PatchText.PatchContentLines(patch)[0];
    if PatchText.FindHeader(patch, 0).Some? {
      var rest := FirstLine(s);
      assert "--- a/" <= line by {
        assert "--- a/" <= s;
        HeaderInFirstLine(s, line, rest);
      }
      assert line == "--- a/" + TargetFileName(patch);
    } else if s != "" {
      assert s[1..] == "" && Strings.Split("", '\n') == [""];
      assert line == "" || line == s;
      assert line != "" ==> line[1..] == "";
    }
  }

  lemma {:induction false} FirstLine(s: string) returns (rest: string)
    ensures s == Strings.Split(s, '\n')[0] + rest
    ensures '\n' !in Strings.Split(s, '\n')[0] && (rest != "" ==> rest[0] == '\n')
  {
    if s == "" || s[0] == '\n' {
      rest := s;
    } else {
      rest := FirstLine(s[1..]);
    }
  }

  lemma HeaderInFirstLine(s: string, line: string, rest: string)
    requires "--- a/" <= s && s == line + rest && (rest != "" ==> rest[0] == '\n')
    ensures "--- a/" <= line
  {
    assert forall k :: 0 <= k < 6 ==> s[k] == "--- a/"[k] != '\n';
    assert rest != "" ==> s[|line|] == rest[0];
  }

  /** The target holds the patched text, the flag beside it is empty, the old-style flag holds the time stamp. */
  ghost predicate AreWritten(files: Files, after: Files, target: string, patched: string, flag: string,
                             oldFlag: string, now: string)
  {
    && after.Keys == files.Keys + {target, flag, oldFlag}
    && after[oldFlag] == now
    && (flag != oldFlag ==> after[flag] == "")
    && (target != oldFlag ==> after[target] == patched)
    && forall p :: p in files && p != target && p != flag && p != oldFlag ==> after[p] == files[p]
  }

  lemma Write(files: Files, target: string, patched: string, flag: string, oldFlag: string, now: string)
    requires target != flag
    ensures AreWritten(files, files[target := patched][flag := ""][oldFlag := now], target, patched, flag, oldFlag, now)
  {
  }

  /**
   A call whose target has a flag of either name leaves all files as they are; otherwise it throws and leaves
   them as they are, or it writes the patched target, an empty flag beside it and the time stamp into the
   old-style flag, and no other file.
   */
  lemma CallIs(paths: PathTools, files: Files, c: Call)
    ensures var target := paths.join(c.baseFolder, TargetFileName(c.patch));
            var flag, after := target + ".vulnmap-protect.flag", AfterCall(paths, files, c);
            var oldFlag := paths.resolve(c.baseFolder, ".vulnmap-" + FileSafe(c.vulnId) + ".flag");
            if flag in files || target + ".orig" in files then
              after == files && !Throws(paths, files, c)
            else if target !in files || PatchText.Patched(c.patch, files[target]).Err? then
              after == files && Throws(paths, files, c)
            else
              !Throws(paths, files, c)
              && AreWritten(files, after, target, PatchText.Patched(c.patch, files[target]).value, flag, oldFlag, c.now)
  {
    var target := paths.join(c.baseFolder, TargetFileName(c.patch));
    assert |target + ".vulnmap-protect.flag"| != |target|;
    if Writes(paths, files, c) {
      Write(files, target, PatchText.Patched(c.patch, files[target]).value, target + ".vulnmap-protect.flag",
            paths.resolve(c.baseFolder, ".vulnmap-" + FileSafe(c.vulnId) + ".flag"), c.now);
    }
  }

  // ----- whole runs -----

  /** `t` is not the name of a flag that some call writes. */
  ghost predicate NoFlag(paths: PathTools, calls: seq<Call>, t: string) {
    forall j :: 0 <= j < |calls| ==> t != Flag(Target(paths, calls[j])) && t != OldStyleFlag(paths, calls[j])
  }

  /** The files before call `i` of a run. */
  ghost function Before(paths: PathTools, files: Files, calls: seq<Call>, i: nat): Files
    requires i <= |calls|
  {
    AfterRun(paths, files, calls[..i])
  }

  /** Call `i` of the run is reached and writes its target. */
  ghost predicate WritesAt(paths: PathTools, files: Files, calls: seq<Call>, i: nat) {
    i < |calls| && !RunThrows(paths, files, calls[..i]) && Writes(paths, Before(paths, files, calls, i), calls[i])
  }

  lemma {:induction false} RunGrows(paths: PathTools, files: Files, calls: seq<Call>)
    ensures files.Keys <= AfterRun(paths, files, calls).Keys
    decreases |calls|
  {
    if calls != [] && !Throws(paths, files, calls[0]) {
      RunGrows(paths, AfterCall(paths, files, calls[0]), calls[1..]);
    }
  }

  lemma WritesLater(paths: PathTools, files: Files, calls: seq<Call>, i: nat)
    requires 0 < i < |calls|
    ensures WritesAt(paths, files, calls, i)
        <==> !Throws(paths, files, calls[0]) && WritesAt(paths, AfterCall(paths, files, calls[0]), calls[1..], i - 1)
  {
    assert calls[..i][0] == calls[0] && calls[..i][1..] == calls[1..][..i - 1];
    assert calls[1..][i - 1] == calls[i];
  }

  lemma WritesFirst(paths: PathTools, files: Files, calls: seq<Call>)
    requires calls != []
    ensures WritesAt(paths, files, calls, 0) <==> Writes(paths, files, calls[0])
  {
    assert calls[..0] == [];
  }

  /** A file that no call targets, and that is no flag, stays as it is, absent files included. */
  lemma {:induction false} OthersStay(paths: PathTools, files: Files, calls: seq<Call>, p: string)
    requires NoFlag(paths, calls, p)
    requires forall j :: 0 <= j < |calls| ==> Target(paths, calls[j]) != p
    ensures p in AfterRun(paths, files, calls) <==> p in files
    ensures p in files ==> AfterRun(paths, files, calls)[p] == files[p]
    decreases |calls|
  {
    if calls != [] && !Throws(paths, files, calls[0]) {
      assert Target(paths, calls[0]) != p && p != Flag(Target(paths, calls[0])) && p != OldStyleFlag(paths, calls[0]);
      OthersStay(paths, AfterCall(paths, files, calls[0]), calls[1..], p);
    }
  }

  lemma FlaggedThroughCall(paths: PathTools, files: Files, c: Call, t: string)
    requires t != Flag(Target(paths, c)) && t != OldStyleFlag(paths, c) && Flagged(files, t) && t in files
    ensures var after := AfterCall(paths, files, c); t in after && after[t] == files[t] && Flagged(after, t)
  {
  }

  /** A flagged target keeps its content over a whole run. */
  lemma {:induction false} FlaggedStays(paths: PathTools, files: Files, calls: seq<Call>, t: string)
    requires NoFlag(paths, calls, t) && Flagged(files, t) && t in files
    ensures t in AfterRun(paths, files, calls) && AfterRun(paths, files, calls)[t] == files[t]
    decreases |calls|
  {
    if calls != [] && !Throws(paths, files, calls[0]) {
      FlaggedThroughCall(paths, files, calls[0], t);
      FlaggedStays(paths, AfterCall(paths, files, calls[0]), calls[1..], t);
    }
  }

  /** No call of a run writes a target that was flagged before. */
  lemma FlaggedIsNotWritten(paths: PathTools, files: Files, calls: seq<Call>, i: nat)
    requires i < |calls| && Flagged(files, Target(paths, calls[i]))
    ensures !WritesAt(paths, files, calls, i)
  {
    RunGrows(paths, files, calls[..i]);
  }

  /** `i` is the first call of the run on its target. */
  ghost predicate IsFirstOn(paths: PathTools, calls: seq<Call>, i: nat, t: string) {
    i < |calls| && Target(paths, calls[i]) == t && forall j :: 0 <= j < i ==> Target(paths, calls[j]) != t
  }

  /** Over a whole run a target ends as the result of the first call's patch on the original, or as the original. */
  lemma {:induction false} FirstPatchWins(paths: PathTools, files: Files, calls: seq<Call>, i: nat, t: string)
    requires IsFirstOn(paths, calls, i, t) && NoFlag(paths, calls, t) && t in files
    ensures t in AfterRun(paths, files, calls)
    ensures if WritesAt(paths, files, calls, i)
            then PatchText.Patched(calls[i].patch, files[t]) == Ok(AfterRun(paths, files, calls)[t])
            else AfterRun(paths, files, calls)[t] == files[t]
    decreases |calls|
  {
    var next := AfterCall(paths, files, calls[0]);
    assert t != Flag(Target(paths, calls[0])) && t != OldStyleFlag(paths, calls[0]);
    if i == 0 {
      WritesFirst(paths, files, calls);
      if !Throws(paths, files, calls[0]) {
        FlaggedStays(paths, next, calls[1..], t);
      }
    } else {
      FirstPatchWins(paths, next, calls[1..], i - 1, t);
      WritesLater(paths, files, calls, i);
    }
  }

  /** After a run without a failure every target is flagged. */
  lemma {:induction false} TargetsFlagged(paths: PathTools, files: Files, calls: seq<Call>, i: nat)
    requires !RunThrows(paths, files, calls) && i < |calls|
    ensures Flagged(AfterRun(paths, files, calls), Target(paths, calls[i]))
    decreases |calls|
  {
    var next := AfterCall(paths, files, calls[0]);
    if i == 0 {
      RunGrows(paths, next, calls[1..]);
    } else {
      assert calls[1..][i - 1] == calls[i];
      TargetsFlagged(paths, next, calls[1..], i - 1);
    }
  }

  /** Of two calls on one target the later never writes it: a target is written at most once in a run. */
  lemma OnlyFirstWrites(paths: PathTools, files: Files, calls: seq<Call>, i: nat, j: nat)
    requires i < j < |calls| && Target(paths, calls[i]) == Target(paths, calls[j])
    ensures !WritesAt(paths, files, calls, j)
  {
    if !RunThrows(paths, files, calls[..j]) {
      assert calls[..j][i] == calls[i];
      TargetsFlagged(paths, files, calls[..j], i);
    }
  }

  lemma {:induction false} FlaggedRunIsIdle(paths: PathTools, files: Files, calls: seq<Call>)
    requires forall i :: 0 <= i < |calls| ==> Flagged(files, Target(paths, calls[i]))
    ensures AfterRun(paths, files, calls) == files && !RunThrows(paths, files, calls)
    decreases |calls|
  {
    if calls != [] {
      forall i | 0 <= i < |calls[1..]|
        ensures Flagged(files, Target(paths, calls[1..][i]))
      {
        assert calls[1..][i] == calls[i + 1];
      }
      FlaggedRunIsIdle(paths, files, calls[1..]);
    }
  }

  /** Repeating a run that succeeded, at any later time, changes nothing and succeeds again. */
  lemma RepeatedRunIsIdle(paths: PathTools, files: Files, calls: seq<Call>, again: seq<Call>)
    requires !RunThrows(paths, files, calls)
    requires |again| == |calls| && forall i :: 0 <= i < |calls| ==> again[i] == calls[i].(now := again[i].now)
    ensures AfterRun(paths, AfterRun(paths, files, calls), again) == AfterRun(paths, files, calls)
    ensures !RunThrows(paths, AfterRun(paths, files, calls), again)
  {
    forall i | 0 <= i < |again|
      ensures Flagged(AfterRun(paths, files, calls), Target(paths, again[i]))
    {
      TargetsFlagged(paths, files, calls, i);
      assert again[i] == calls[i].(now := again[i].now);
    }
    FlaggedRunIsIdle(paths, AfterRun(paths, files, calls), again);
  }
}
