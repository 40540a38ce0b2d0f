/**
 patchString of packages/vulnmap-protect/src/lib/patch.ts: a cursor that walks down
 a file and splices lines, driven by the lines of one hunk.
 */
module Hunks {
  import opened Wrappers
  import opened Strings

  datatype PatchError = InvalidPatch | Mismatch(current: string, expected: string) | NoSuchLine

  /** The lines and the cursor `lineToPatch`. */
  datatype State = State(lines: seq<string>, cursor: int)

  // ----- one patch line -----

  predicate EndsWithReturn(s: string) {
    s != "" && s[|s| - 1] == '\r'
  }

  /** `patchLine.substring(1)`. */
  function Body(patchLine: string): string {
    if patchLine == "" then "" else patchLine[1..]
  }

  /** getNextLine: the patch line without its marker, with the carriage return of the current line. */
  function NextLine(current: string, patchLine: string): string {
    Body(patchLine) + (if EndsWithReturn(current) && !EndsWithReturn(patchLine) then "\r" else "")
  }

  predicate Is(patchLine: string, marker: char) {
    patchLine != "" && patchLine[0] == marker
  }

  /** One turn of the loop. */
  function Step(patchLine: string, s: State): Result<State, PatchError> {
    var at := s.cursor + 1;
    if !(0 <= at < |s.lines|) then Err(NoSuchLine)
    else
      var next := NextLine(s.lines[at], patchLine);
      if Is(patchLine, '-') then Ok(State(s.lines[..at] + s.lines[at + 1..], at))
      else if Is(patchLine, '+') then Ok(State(s.lines[..at] + [next] + s.lines[at..], at))
      else if Is(patchLine, ' ') && s.lines[at] != next then Err(Mismatch(s.lines[at], next))
      else Ok(State(s.lines, at))
  }

  function Run(hunk: seq<string>, s: State): Result<State, PatchError>
    decreases |hunk|
  {
    if hunk == [] then Ok(s)
    else
      match Step(hunk[0], s)
      case Err(e) => Err(e)
      case Ok(s') => Run(hunk[1..], s')
  }

  /** The loop over the patch lines, splicing as it goes. */
  method PatchLines(hunk: seq<string>, lines: seq<string>, start: int) returns (r: Result<seq<string>, PatchError>)
    ensures match Run(hunk, State(lines, start))
            case Err(e) => r == Err(e)
            case Ok(s) => r == Ok(s.lines)
  {
    var contents, lineToPatch := lines, start;
    assert hunk[0..] == hunk;
    for i := 0 to |hunk|
      invariant Run(hunk, State(lines, start)) == Run(hunk[i..], State(contents, lineToPatch))
    {
      assert hunk[i..][0] == hunk[i] && hunk[i..][1..] == hunk[i + 1..];
      lineToPatch := lineToPatch + 1;
      if !(0 <= lineToPatch < |contents|) {
        return Err(NoSuchLine);
      }
      var currentLine := contents[lineToPatch];
      var nextLine := NextLine(currentLine, hunk[i]);
      if Is(hunk[i], '-') {
        contents := contents[..lineToPatch] + contents[lineToPatch + 1..];
      } else if Is(hunk[i], '+') {
        contents := contents[..lineToPatch] + [nextLine] + contents[lineToPatch..];
      } else if Is(hunk[i], ' ') {
        if currentLine != nextLine {
          return Err(Mismatch(currentLine, nextLine));
        }
      }
    }
    r := Ok(contents);
  }

  // ----- line ends -----

  lemma ReturnIs(s: string)
    ensures EndsWithReturn(s) <==> exists before :: s == before + "\r"
  {
    assert s != "" ==> s == s[..|s| - 1] + [s[|s| - 1]];
  }

  /** A patch line is its marker, told by the first character, and its body. */
  lemma MarkerAndBody(patchLine: string)
    ensures patchLine == "" ==> Body(patchLine) == "" && forall marker :: !Is(patchLine, marker)
    ensures patchLine != "" ==> exists marker :: patchLine == [marker] + Body(patchLine)
                                                 && forall m :: Is(patchLine, m) <==> m == marker
  {
    assert patchLine != "" ==> patchLine == [patchLine[0]] + Body(patchLine);
  }

  /**
   The line a patch line stands for: the patch line without its marker, with a carriage return
   added exactly when the line of the file it is for ends in one and the patch line does not.
   */
  ghost predicate Stands(next: string, current: string, patchLine: string) {
    exists marker, body :: |marker| <= 1 && patchLine == marker + body && (marker == "" ==> body == "")
      && next == if (exists l :: current == l + "\r") && !(exists l :: patchLine == l + "\r") then body + "\r" else body
  }

  lemma NextLineStands(current: string, patchLine: string, next: string)
    ensures Stands(next, current, patchLine) <==> next == NextLine(current, patchLine)
  {
    ReturnIs(current);
    ReturnIs(patchLine);
    var marker := if patchLine == "" then "" else [patchLine[0]];
    assert patchLine == marker + Body(patchLine);
    assert Body(patchLine) + "" == Body(patchLine);
    forall m: string, body: string | |m| <= 1 && patchLine == m + body && (m == "" ==> body == "")
      ensures body == Body(patchLine)
    {
    }
  }

  /** One turn on a file without carriage returns: patch lines are taken as they are. */
  ghost function PlainStep(patchLine: string, s: State): Result<State, PatchError> {
    var at := s.cursor + 1;
    if at < 0 || at >= |s.lines| then Err(NoSuchLine)
    else if patchLine == "" then Ok(State(s.lines, at))
    else
      match patchLine[0]
      case '-' => Ok(State(s.lines[..at] + s.lines[at + 1..], at))
      case '+' => Ok(State(s.lines[..at] + [patchLine[1..]] + s.lines[at..], at))
      case ' ' => if s.lines[at] == patchLine[1..] then Ok(State(s.lines, at))
                  else Err(Mismatch(s.lines[at], patchLine[1..]))
      case _ => Ok(State(s.lines, at))
  }

  ghost function PlainRun(hunk: seq<string>, s: State): Result<State, PatchError>
    decreases |hunk|
  {
    if hunk == [] then Ok(s)
    else
      match PlainStep(hunk[0], s)
      case Err(e) => Err(e)
      case Ok(s') => PlainRun(hunk[1..], s')
  }

  /** No line below the cursor ends in a carriage return. */
  ghost predicate IsPlain(s: State) {
    forall i :: 0 <= i < |s.lines| && s.cursor < i ==> !EndsWithReturn(s.lines[i])
  }

  lemma PlainStepIs(patchLine: string, s: State)
    requires IsPlain(s)
    ensures Step(patchLine, s) == PlainStep(patchLine, s)
    ensures Step(patchLine, s).Ok? ==> IsPlain(Step(patchLine, s).value)
  {
    assert Body(patchLine) + "" == Body(patchLine);
  }

  /** Where the file has no carriage returns the run takes every patch line as it is. */
  lemma {:induction false} PlainRunIs(hunk: seq<string>, s: State)
    requires IsPlain(s)
    ensures Run(hunk, s) == PlainRun(hunk, s)
    decreases |hunk|
  {
    if hunk != [] {
      PlainStepIs(hunk[0], s);
      if Step(hunk[0], s).Ok? {
        PlainRunIs(hunk[1..], Step(hunk[0], s).value);
      }
    }
  }

  /** Every line before the last ends in a carriage return. */
  ghost predicate HasReturns(lines: seq<string>) {
    forall i :: 0 <= i < |lines| - 1 ==> EndsWithReturn(lines[i])
  }

  /** Every insertion of the run comes before a line that ends in a carriage return. */
  ghost predicate InsertsBeforeReturns(hunk: seq<string>, s: State)
    decreases |hunk|
  {
    hunk != [] ==>
      && (Is(hunk[0], '+') && 0 <= s.cursor + 1 < |s.lines| ==> EndsWithReturn(s.lines[s.cursor + 1]))
      && (Step(hunk[0], s).Ok? ==> InsertsBeforeReturns(hunk[1..], Step(hunk[0], s).value))
  }

  lemma ReturnsThroughStep(patchLine: string, s: State)
    requires HasReturns(s.lines) && Step(patchLine, s).Ok?
    requires Is(patchLine, '+') ==> EndsWithReturn(s.lines[s.cursor + 1])
    ensures HasReturns(Step(patchLine, s).value.lines)
  {
    var at := s.cursor + 1;
    var next := NextLine(s.lines[at], patchLine);
    if Is(patchLine, '+') {
      assert EndsWithReturn(next) by {
        assert EndsWithReturn(patchLine) ==> next == patchLine[1..];
      }
    }
  }

  /** A file with carriage returns keeps them, when insertions come before lines that have them. */
  lemma {:induction false} ReturnsKept(hunk: seq<string>, s: State)
    requires HasReturns(s.lines) && InsertsBeforeReturns(hunk, s) && Run(hunk, s).Ok?
    ensures HasReturns(Run(hunk, s).value.lines)
    decreases |hunk|
  {
    if hunk != [] {
      ReturnsThroughStep(hunk[0], s);
      ReturnsKept(hunk[1..], Step(hunk[0], s).value);
    }
  }

  // ----- what a hunk asks for -----

  predicate IsHunk(hunk: seq<string>) {
    forall i :: 0 <= i < |hunk| ==> Is(hunk[i], ' ') || Is(hunk[i], '+') || Is(hunk[i], '-')
  }

  /** The line of the file is the one the patch line shows, up to the file's carriage return. */
  ghost predicate Shows(patchLine: string, line: string) {
    line == Body(patchLine) || (!EndsWithReturn(patchLine) && line == Body(patchLine) + "\r")
  }

  lemma ShowsIsUnchanged(patchLine: string, line: string)
    requires patchLine != ""
    ensures Shows(patchLine, line) <==> line == NextLine(line, patchLine)
  {
    if EndsWithReturn(Body(patchLine)) {
      assert EndsWithReturn(patchLine);
    }
    assert EndsWithReturn(Body(patchLine) + "\r");
    assert Body(patchLine) + "" == Body(patchLine);
  }

  /** The old side of the hunk, its context and deletions, stands at the front of `rest`. */
  ghost predicate Fits(hunk: seq<string>, rest: seq<string>)
    decreases |hunk|
  {
    if hunk == [] then true
    else if Is(hunk[0], '+') then Fits(hunk[1..], rest)
    else rest != [] && Shows(hunk[0], rest[0]) && Fits(hunk[1..], rest[1..])
  }

  /**
   The new side: context as it stands in the file, insertions with the carriage return of the
   line they come before.
   */
  ghost function NewSide(hunk: seq<string>, rest: seq<string>): seq<string>
    decreases |hunk|
  {
    if hunk == [] then []
    else if Is(hunk[0], '+') then [NextLine(if rest == [] then "" else rest[0], hunk[0])] + NewSide(hunk[1..], rest)
    else if rest == [] then []
    else if Is(hunk[0], '-') then NewSide(hunk[1..], rest[1..])
    else [rest[0]] + NewSide(hunk[1..], rest[1..])
  }

  ghost function Count(hunk: seq<string>, marker: char): nat {
    if hunk == [] then 0 else Count(hunk[1..], marker) + (if Is(hunk[0], marker) then 1 else 0)
  }

  ghost function OldCount(hunk: seq<string>): nat {
    Count(hunk, ' ') + Count(hunk, '-')
  }

  /** Unified-diff semantics: the old side at the hunk start gives way to the new side, and the rest stays. */
  ghost function Replaced(hunk: seq<string>, before: seq<string>, rest: seq<string>): seq<string>
    requires OldCount(hunk) <= |rest|
  {
    before + NewSide(hunk, rest) + rest[OldCount(hunk)..]
  }

  /** No deletion but, at most, the last line. */
  ghost predicate DeletesLast(hunk: seq<string>) {
    forall i :: 0 <= i < |hunk| - 1 ==> !Is(hunk[i], '-')
  }

  /** What the code checks: context, and that there is a current line, but not the text of a deleted line. */
  ghost predicate Accepts(hunk: seq<string>, rest: seq<string>)
    decreases |hunk|
  {
    if hunk == [] then true
    else if rest == [] then false
    else if Is(hunk[0], '+') then Accepts(hunk[1..], rest)
    else if Is(hunk[0], '-') then Accepts(hunk[1..], rest[1..])
    else Shows(hunk[0], rest[0]) && Accepts(hunk[1..], rest[1..])
  }

  lemma {:induction false} AcceptsHasOldSide(hunk: seq<string>, rest: seq<string>)
    requires IsHunk(hunk) && (Accepts(hunk, rest) || Fits(hunk, rest))
    ensures OldCount(hunk) <= |rest|
    decreases |hunk|
  {
    if hunk != [] {
      AcceptsHasOldSide(hunk[1..], if Is(hunk[0], '+') then rest else rest[1..]);
    }
  }

  /** One turn with the cursor just before `rest`, by the kind of patch line; any other kind only moves the cursor. */
  lemma StepAt(patchLine: string, before: seq<string>, rest: seq<string>)
    requires rest != []
    ensures var r := Step(patchLine, State(before + rest, |before| - 1));
            && (Is(patchLine, '-') ==> r == Ok(State(before + rest[1..], |before|)))
            && (Is(patchLine, '+') ==> r == Ok(State(before + [NextLine(rest[0], patchLine)] + rest, |before|)))
            && (Is(patchLine, ' ') ==> (r.Ok? <==> Shows(patchLine, rest[0])))
            && (!Is(patchLine, '-') && !Is(patchLine, '+') && r.Ok? ==>
                  r == Ok(State(before + [rest[0]] + rest[1..], |before|)))
  {
    var lines := before + rest;
    assert lines[|before|] == rest[0] && lines[..|before|] == before;
    assert lines[|before|..] == rest && lines[|before| + 1..] == rest[1..];
    assert before + [rest[0]] + rest[1..] == lines;
    if Is(patchLine, ' ') {
      ShowsIsUnchanged(patchLine, rest[0]);
    }
  }

  lemma ReplacedAfter(hunk: seq<string>, before: seq<string>, rest: seq<string>)
    requires hunk != [] && rest != [] && IsHunk(hunk) && OldCount(hunk) <= |rest|
    ensures Is(hunk[0], '+') ==>
              Replaced(hunk, before, rest) == Replaced(hunk[1..], before + [NextLine(rest[0], hunk[0])], rest)
    ensures Is(hunk[0], ' ') ==> Replaced(hunk, before, rest) == Replaced(hunk[1..], before + [rest[0]], rest[1..])
    ensures Is(hunk[0], '-') ==> Replaced(hunk, before, rest) == Replaced(hunk[1..], before, rest[1..])
  {
    var tail := hunk[1..];
    if Is(hunk[0], '+') {
      var next := NextLine(rest[0], hunk[0]);
      assert before + ([next] + NewSide(tail, rest)) == before + [next] + NewSide(tail, rest);
    } else {
      assert rest[1..][OldCount(tail)..] == rest[OldCount(hunk)..];
      if Is(hunk[0], ' ') {
        assert before + ([rest[0]] + NewSide(tail, rest[1..])) == before + [rest[0]] + NewSide(tail, rest[1..]);
      }
    }
  }

  /**
   The run from the cursor just before `rest` succeeds exactly when it accepts `rest`, and then
   it replaces the old side.
   */
  ghost predicate RunReplaces(hunk: seq<string>, before: seq<string>, rest: seq<string>) {
    match Run(hunk, State(before + rest, |before| - 1))
    case Err(_) => !Accepts(hunk, rest)
    case Ok(s) => Accepts(hunk, rest) && OldCount(hunk) <= |rest| && s.lines == Replaced(hunk, before, rest)
  }

  lemma InsertReplaces(hunk: seq<string>, before: seq<string>, rest: seq<string>)
    requires hunk != [] && rest != [] && IsHunk(hunk) && Is(hunk[0], '+')
    requires RunReplaces(hunk[1..], before + [NextLine(rest[0], hunk[0])], rest)
    ensures RunReplaces(hunk, before, rest)
  {
    StepAt(hunk[0], before, rest);
    if Accepts(hunk, rest) {
      AcceptsHasOldSide(hunk, rest);
      ReplacedAfter(hunk, before, rest);
    }
  }

  lemma ContextReplaces(hunk: seq<string>, before: seq<string>, rest: seq<string>)
    requires hunk != [] && rest != [] && IsHunk(hunk) && Is(hunk[0], ' ')
    requires RunReplaces(hunk[1..], before + [rest[0]], rest[1..])
    ensures RunReplaces(hunk, before, rest)
  {
    StepAt(hunk[0], before, rest);
    if Accepts(hunk, rest) {
      AcceptsHasOldSide(hunk, rest);
      ReplacedAfter(hunk, before, rest);
    }
  }

  lemma DeleteReplaces(hunk: seq<string>, before: seq<string>, rest: seq<string>)
    requires |hunk| == 1 && rest != [] && IsHunk(hunk) && Is(hunk[0], '-')
    ensures RunReplaces(hunk, before, rest)
  {
    assert hunk[1..] == [] && Count(hunk[1..], ' ') == Count(hunk[1..], '-') == 0;
    assert Step(hunk[0], State(before + rest, |before| - 1)) == Ok(State(before + rest[1..], |before|)) by {
      StepAt(hunk[0], before, rest);
    }
    assert Replaced(hunk, before, rest) == before + rest[1..] by {
      ReplacedAfter(hunk, before, rest);
      assert before + [] + rest[1..][0..] == before + rest[1..];
    }
  }

  /**
   For a hunk whose only deletion, if any, comes last, the code succeeds exactly when it
   accepts the lines at the hunk start, and then it has replaced the old side by the new.
   */
  lemma {:induction false} CursorReplaces(hunk: seq<string>, before: seq<string>, rest: seq<string>)
    requires IsHunk(hunk) && DeletesLast(hunk)
    ensures RunReplaces(hunk, before, rest)
    decreases |hunk|
  {
    if hunk == [] {
      assert before + [] + rest[0..] == before + rest;
    } else if rest == [] {
      assert before + rest == before;
    } else if Is(hunk[0], '-') {
      DeleteReplaces(hunk, before, rest);
    } else if Is(hunk[0], '+') {
      CursorReplaces(hunk[1..], before + [NextLine(rest[0], hunk[0])], rest);
      InsertReplaces(hunk, before, rest);
    } else {
      CursorReplaces(hunk[1..], before + [rest[0]], rest[1..]);
      ContextReplaces(hunk, before, rest);
    }
  }

  // ----- on which files the code accepts -----

  /**
   The file lines that a hunk with at most one deletion, at its end, is accepted on.  A final
   deletion only needs some line to delete; a final insertion needs a line to come before.
   */
  lemma {:induction false} AcceptsExactly(hunk: seq<string>, rest: seq<string>)
    requires IsHunk(hunk) && DeletesLast(hunk) && hunk != []
    ensures var n := |hunk| - 1;
            Accepts(hunk, rest)
            <==> if Is(hunk[n], '-') then Fits(hunk[..n], rest) && OldCount(hunk) <= |rest|
                 else if Is(hunk[n], '+') then Fits(hunk, rest) && OldCount(hunk) < |rest|
                 else Fits(hunk, rest)
    decreases |hunk|
  {
    if |hunk| == 1 {
      assert hunk[..0] == [] && hunk[1..] == [];
      assert Count(hunk[1..], ' ') == Count(hunk[1..], '-') == 0;
      assert Is(hunk[0], ' ') || Is(hunk[0], '+') || Is(hunk[0], '-');
      assert Fits(hunk[..0], rest);
      assert rest != [] ==> Fits(hunk[1..], rest[1..]) && Accepts(hunk[1..], rest[1..]);
    } else if rest == [] {
      NothingFits(hunk);
    } else {
      assert !Is(hunk[0], '-');
      AcceptsExactly(hunk[1..], if Is(hunk[0], '+') then rest else rest[1..]);
      assert hunk[1..][..|hunk| - 2] == hunk[..|hunk| - 1][1..];
    }
  }

  /** On no lines at all only insertions fit. */
  lemma NothingFits(hunk: seq<string>)
    requires IsHunk(hunk) && hunk != []
    ensures !Is(hunk[|hunk| - 1], '+') ==> OldCount(hunk) > 0 && !Fits(hunk, [])
  {
    var n := |hunk| - 1;
    if !Is(hunk[n], '+') {
      CountSome(hunk, hunk[n][0], n);
      if Fits(hunk, []) {
        AcceptsHasOldSide(hunk, []);
      }
    }
  }

  // ----- which hunks the cursor handles -----

  /** On a file the hunk fits, the code succeeds with the unified-diff result. */
  ghost predicate HandlesFitting(hunk: seq<string>, before: seq<string>, rest: seq<string>) {
    Fits(hunk, rest) ==>
      var r := Run(hunk, State(before + rest, |before| - 1));
      r.Ok? && OldCount(hunk) <= |rest| && r.value.lines == Replaced(hunk, before, rest)
  }

  /** On a file the hunk does not fit, the code fails. */
  ghost predicate RefusesMisfit(hunk: seq<string>, before: seq<string>, rest: seq<string>) {
    Run(hunk, State(before + rest, |before| - 1)).Ok? ==> Fits(hunk, rest)
  }

  /** Unified-diff semantics on one file: success exactly where the hunk fits, and then the old side is replaced. */
  ghost predicate Handles(hunk: seq<string>, before: seq<string>, rest: seq<string>) {
    HandlesFitting(hunk, before, rest) && RefusesMisfit(hunk, before, rest)
  }

  /** No insertion at the end, and no deletion but at the end. */
  ghost predicate Supported(hunk: seq<string>) {
    DeletesLast(hunk) && (hunk != [] ==> !Is(hunk[|hunk| - 1], '+'))
  }

  lemma {:induction false} FitsIsAccepted(hunk: seq<string>, rest: seq<string>)
    requires IsHunk(hunk) && Fits(hunk, rest)
    requires hunk != [] ==> !Is(hunk[|hunk| - 1], '+')
    ensures Accepts(hunk, rest)
    decreases |hunk|
  {
    if hunk != [] {
      FitsIsAccepted(hunk[1..], if Is(hunk[0], '+') then rest else rest[1..]);
      if Is(hunk[0], '+') {
        assert hunk[1..] != [];
      }
    }
  }

  /** The bodies of the context and deletion lines: a file the hunk fits, with nothing after it. */
  ghost function OldSide(hunk: seq<string>): seq<string> {
    if hunk == [] then []
    else if Is(hunk[0], '+') then OldSide(hunk[1..])
    else [Body(hunk[0])] + OldSide(hunk[1..])
  }

  lemma {:induction false} OldSideFits(hunk: seq<string>)
    requires IsHunk(hunk)
    ensures Fits(hunk, OldSide(hunk)) && |OldSide(hunk)| == OldCount(hunk)
    ensures |hunk| == OldCount(hunk) + Count(hunk, '+')
  {
    if hunk != [] {
      OldSideFits(hunk[1..]);
      if !Is(hunk[0], '+') {
        assert OldSide(hunk)[1..] == OldSide(hunk[1..]);
      }
    }
  }

  lemma {:induction false} CountLast(hunk: seq<string>, marker: char)
    requires hunk != []
    ensures Count(hunk, marker) == Count(hunk[..|hunk| - 1], marker) + (if Is(hunk[|hunk| - 1], marker) then 1 else 0)
  {
    if |hunk| > 1 {
      CountLast(hunk[1..], marker);
      assert hunk[1..][..|hunk| - 2] == hunk[..|hunk| - 1][1..];
    }
  }

  lemma {:induction false} CountSome(hunk: seq<string>, marker: char, i: nat)
    requires i < |hunk| && Is(hunk[i], marker)
    ensures Count(hunk, marker) > 0
  {
    if i > 0 {
      CountSome(hunk[1..], marker, i - 1);
    }
  }

  /** A run that succeeds still had a current line for its last patch line. */
  lemma {:induction false} RunHasRoom(hunk: seq<string>, s: State)
    requires IsHunk(hunk) && hunk != [] && Run(hunk, s).Ok?
    ensures s.cursor + |hunk| < |s.lines| + Count(hunk[..|hunk| - 1], '+') - Count(hunk[..|hunk| - 1], '-')
    decreases |hunk|
  {
    var s' := Step(hunk[0], s).value;
    if |hunk| > 1 {
      RunHasRoom(hunk[1..], s');
      assert hunk[..|hunk| - 1][1..] == hunk[1..][..|hunk| - 2];
      assert Is(hunk[0], ' ') || Is(hunk[0], '+') || Is(hunk[0], '-');
    }
  }

  /** An insertion at the end, or a deletion before it, leaves the run of the old side alone short of a line. */
  lemma {:induction false} OldSideIsShort(hunk: seq<string>)
    requires IsHunk(hunk) && !Supported(hunk)
    ensures |hunk| >= |OldSide(hunk)| + 1 + Count(hunk[..|hunk| - 1], '+') - Count(hunk[..|hunk| - 1], '-')
  {
    OldSideFits(hunk);
    CountLast(hunk, '+');
    CountLast(hunk, '-');
    if !DeletesLast(hunk) {
      var i :| 0 <= i < |hunk| - 1 && Is(hunk[i], '-');
      CountSome(hunk[..|hunk| - 1], '-', i);
    }
  }

  /** A hunk of another shape fails where its own old side ends the file, whatever comes before. */
  lemma {:induction false} UnsupportedFails(hunk: seq<string>, before: seq<string>)
    requires IsHunk(hunk) && !Supported(hunk)
    ensures Fits(hunk, OldSide(hunk)) && Run(hunk, State(before + OldSide(hunk), |before| - 1)).Err?
  {
    OldSideFits(hunk);
    OldSideIsShort(hunk);
    var s := State(before + OldSide(hunk), |before| - 1);
    if Run(hunk, s).Ok? {
      RunHasRoom(hunk, s);
      assert false;
    }
  }

  /** Lines as splitting a text gives them: at least one, and no line break in any. */
  ghost predicate IsFile(lines: seq<string>) {
    lines != [] && AllFree(lines, '\n')
  }

  lemma {:induction false} FilesAreTexts(lines: seq<string>)
    ensures IsFile(lines) <==> exists text :: Split(text, '\n') == lines
  {
    if IsFile(lines) {
      SplitJoin(lines, '\n');
    }
    if text :| Split(text, '\n') == lines {
      SplitIsFree(text, '\n');
    }
  }

  lemma {:induction false} OldSideIsFree(hunk: seq<string>)
    requires AllFree(hunk, '\n')
    ensures AllFree(OldSide(hunk), '\n')
  {
    if hunk != [] {
      assert Free(hunk[0], '\n');
      OldSideIsFree(hunk[1..]);
    }
  }

  /** On the files it fits, a hunk is handled, whatever the file, exactly when it has the supported shape. */
  lemma {:induction false} HandlesFittingIffSupported(hunk: seq<string>)
    requires IsHunk(hunk) && AllFree(hunk, '\n')
    ensures (forall before, rest | IsFile(before + rest) :: HandlesFitting(hunk, before, rest)) <==> Supported(hunk)
  {
    if Supported(hunk) {
      forall before, rest
        ensures HandlesFitting(hunk, before, rest)
      {
        if Fits(hunk, rest) {
          FitsIsAccepted(hunk, rest);
          CursorReplaces(hunk, before, rest);
        }
      }
    } else {
      UnsupportedFails(hunk, [""]);
      OldSideIsFree(hunk);
      assert IsFile([""] + OldSide(hunk)) && !HandlesFitting(hunk, [""], OldSide(hunk));
    }
  }

  lemma {:induction false} NoDeletions(hunk: seq<string>)
    requires Count(hunk, '-') == 0
    ensures forall i :: 0 <= i < |hunk| ==> !Is(hunk[i], '-')
  {
    forall i | 0 <= i < |hunk|
      ensures !Is(hunk[i], '-')
    {
      if Is(hunk[i], '-') {
        CountSome(hunk, '-', i);
      }
    }
  }

  lemma {:induction false} AcceptsFits(hunk: seq<string>, rest: seq<string>)
    requires IsHunk(hunk) && Count(hunk, '-') == 0 && Accepts(hunk, rest)
    ensures Fits(hunk, rest)
    decreases |hunk|
  {
    if hunk != [] {
      AcceptsFits(hunk[1..], if Is(hunk[0], '+') then rest else rest[1..]);
    }
  }

  /**
   A file that agrees with the hunk but for the deleted lines: each is longer than shown, with
   an empty line after it for the cursor to skip.
   */
  ghost function Wrong(hunk: seq<string>): seq<string> {
    if hunk == [] then [""]
    else if Is(hunk[0], '+') then Wrong(hunk[1..])
    else if Is(hunk[0], '-') then [Body(hunk[0]) + "x"] + ([""] + Wrong(hunk[1..]))
    else [Body(hunk[0])] + Wrong(hunk[1..])
  }

  lemma {:induction false} WrongDoesNotFit(hunk: seq<string>)
    requires IsHunk(hunk) && Count(hunk, '-') > 0
    ensures !Fits(hunk, Wrong(hunk))
  {
    var rest := Wrong(hunk);
    if Is(hunk[0], '-') {
      var line := Body(hunk[0]) + "x";
      assert rest[0] == line;
      assert line[|line| - 1] == 'x' && (Body(hunk[0]) + "\r")[|line| - 1] == '\r';
    } else {
      WrongDoesNotFit(hunk[1..]);
      assert Is(hunk[0], ' ') ==> rest[1..] == Wrong(hunk[1..]);
    }
  }

  lemma PastDeletion(hunk: seq<string>, before: seq<string>, line: string, rest: seq<string>)
    requires IsHunk(hunk) && hunk != [] && Is(hunk[0], '-')
    requires Run(hunk[1..], State(before + rest, |before|)).Ok?
    ensures Run(hunk, State(before + ([line] + rest), |before| - 1)).Ok?
  {
    StepAt(hunk[0], before, [line] + rest);
    assert ([line] + rest)[1..] == rest;
  }

  lemma WrongPastLine(hunk: seq<string>, before: seq<string>, line: string)
    requires IsHunk(hunk) && hunk != [] && !Is(hunk[0], '-') && Wrong(hunk) != []
    requires line == if Is(hunk[0], '+') then NextLine(Wrong(hunk)[0], hunk[0]) else Wrong(hunk)[0]
    requires Run(hunk[1..], State(before + [line] + Wrong(hunk[1..]), |before|)).Ok?
    ensures Run(hunk, State(before + Wrong(hunk), |before| - 1)).Ok?
  {
    StepAt(hunk[0], before, Wrong(hunk));
    assert Is(hunk[0], ' ') ==> Wrong(hunk)[1..] == Wrong(hunk[1..]);
  }

  lemma {:induction false} WrongIsAccepted(hunk: seq<string>, before: seq<string>)
    requires IsHunk(hunk)
    ensures Run(hunk, State(before + Wrong(hunk), |before| - 1)).Ok?
    decreases |hunk|
  {
    if hunk != [] {
      WrongStarts(hunk);
      if Is(hunk[0], '-') {
        WrongIsAccepted(hunk[1..], before + [""]);
        ConcatAssoc(before, [""], Wrong(hunk[1..]));
        PastDeletion(hunk, before, Body(hunk[0]) + "x", [""] + Wrong(hunk[1..]));
      } else {
        var line := if Is(hunk[0], '+') then NextLine(Wrong(hunk)[0], hunk[0]) else Wrong(hunk)[0];
        WrongIsAccepted(hunk[1..], before + [line]);
        WrongPastLine(hunk, before, line);
      }
    }
  }

  lemma {:induction false} WrongStarts(hunk: seq<string>)
    ensures Wrong(hunk) != []
  {
    if hunk != [] {
      WrongStarts(hunk[1..]);
    }
  }

  lemma {:induction false} WrongIsFree(hunk: seq<string>)
    requires AllFree(hunk, '\n')
    ensures AllFree(Wrong(hunk), '\n')
  {
    if hunk != [] {
      assert Free(hunk[0], '\n');
      WrongIsFree(hunk[1..]);
    }
  }

  /** The code refuses every file a hunk does not fit exactly when the hunk deletes nothing. */
  lemma {:induction false} RefusesMisfitsIffNoDeletion(hunk: seq<string>)
    requires IsHunk(hunk) && AllFree(hunk, '\n')
    ensures (forall before, rest | IsFile(before + rest) :: RefusesMisfit(hunk, before, rest))
        <==> Count(hunk, '-') == 0
  {
    if Count(hunk, '-') == 0 {
      NoDeletions(hunk);
      forall before, rest
        ensures RefusesMisfit(hunk, before, rest)
      {
        CursorReplaces(hunk, before, rest);
        if Accepts(hunk, rest) {
          AcceptsFits(hunk, rest);
        }
      }
    } else {
      WrongIsAccepted(hunk, []);
      WrongDoesNotFit(hunk);
      WrongStarts(hunk);
      WrongIsFree(hunk);
      assert IsFile([] + Wrong(hunk)) && !RefusesMisfit(hunk, [], Wrong(hunk));
    }
  }

  /** A line the hunk does not show is deleted without a complaint. */
  lemma DeletesUnshownLine()
    ensures Supported(["-a"]) && !Fits(["-a"], ["b"])
    ensures Run(["-a"], State(["b"], -1)) == Ok(State([], 0))
  {
    assert Body("-a") == "a" && ["-a"][1..] == [];
    assert ["b"][..0] + ["b"][1..] == [];
    assert Step("-a", State(["b"], -1)) == Ok(State([], 0));
    assert ("a" + "\r")[0] == 'a' && ["b"][0][0] == 'b';
  }

  /** Context and insertions only, the last line being context. */
  ghost predicate OnlyAdds(hunk: seq<string>) {
    Count(hunk, '-') == 0 && (hunk != [] ==> !Is(hunk[|hunk| - 1], '+'))
  }

  /**
   The code meets unified-diff semantics on every file exactly for hunks without deletions and
   without a final insertion.
   */
  lemma {:induction false} HandlesIffOnlyAdds(hunk: seq<string>)
    requires IsHunk(hunk) && AllFree(hunk, '\n')
    ensures (forall before, rest | IsFile(before + rest) :: Handles(hunk, before, rest)) <==> OnlyAdds(hunk)
  {
    HandlesFittingIffSupported(hunk);
    RefusesMisfitsIffNoDeletion(hunk);
    if OnlyAdds(hunk) {
      NoDeletions(hunk);
      assert Supported(hunk);
    } else if Count(hunk, '-') > 0 {
      var before, rest :| IsFile(before + rest) && !RefusesMisfit(hunk, before, rest);
      assert !Handles(hunk, before, rest);
    } else {
      var before, rest :| IsFile(before + rest) && !HandlesFitting(hunk, before, rest);
      assert !Handles(hunk, before, rest);
    }
  }

  // ----- files that end in a line break -----

  lemma {:induction false} FitsBeforeEmptyLine(hunk: seq<string>, rest: seq<string>)
    requires IsHunk(hunk) && Fits(hunk, rest)
    ensures Accepts(hunk, rest + [""])
    decreases |hunk|
  {
    if hunk != [] {
      FitsBeforeEmptyLine(hunk[1..], if Is(hunk[0], '+') then rest else rest[1..]);
      if !Is(hunk[0], '+') {
        assert (rest + [""])[1..] == rest[1..] + [""];
      }
    }
  }

  /**
   A file that ends in a line break has one more, empty line.  Before it a hunk with at most
   one deletion, at its end, succeeds wherever it fits, a final insertion included.
   */
  lemma HandlesBeforeEmptyLine(hunk: seq<string>, before: seq<string>, rest: seq<string>)
    requires IsHunk(hunk) && DeletesLast(hunk) && Fits(hunk, rest)
    ensures var r := Run(hunk, State(before + (rest + [""]), |before| - 1));
            && r.Ok?
            && OldCount(hunk) <= |rest|
            && r.value.lines == Replaced(hunk, before, rest + [""])
  {
    FitsBeforeEmptyLine(hunk, rest);
    AcceptsHasOldSide(hunk, rest);
    CursorReplaces(hunk, before, rest + [""]);
  }

  // ----- what every successful run keeps -----

  /** The lines below the cursor, which no later turn has looked at. */
  ghost function Below(s: State): seq<string> {
    if 0 <= s.cursor + 1 <= |s.lines| then s.lines[s.cursor + 1..] else []
  }

  ghost predicate IsSuffix(part: seq<string>, whole: seq<string>) {
    |part| <= |whole| && whole[|whole| - |part|..] == part
  }

  /** How a run from the cursor just before `rest` leaves the file: line count, the part above, the part below. */
  ghost predicate Keeps(hunk: seq<string>, before: seq<string>, rest: seq<string>, s: State) {
    && s.cursor == |before| - 1 + |hunk|
    && |s.lines| == |before| + |rest| + Count(hunk, '+') - Count(hunk, '-')
    && before <= s.lines
    && IsSuffix(Below(s), rest)
  }

  lemma KeepsNothing(before: seq<string>, rest: seq<string>)
    ensures Keeps([], before, rest, State(before + rest, |before| - 1))
  {
    assert (before + rest)[|before|..] == rest;
  }

  lemma KeepsDelete(hunk: seq<string>, before: seq<string>, rest: seq<string>)
    requires |hunk| == 1 && Is(hunk[0], '-') && rest != []
    ensures Keeps(hunk, before, rest, State(before + rest[1..], |before|))
  {
    assert hunk[1..] == [];
    assert Count(hunk[1..], '+') == Count(hunk[1..], '-') == 0;
    if |rest| > 1 {
      assert (before + rest[1..])[|before| + 1..] == rest[2..];
    }
  }

  lemma KeepsMore(hunk: seq<string>, before: seq<string>, line: string, rest: seq<string>, k: nat, s: State)
    requires hunk != [] && k <= |rest|
    requires k == if Is(hunk[0], '+') then 0 else if Is(hunk[0], '-') then 2 else 1
    requires Keeps(hunk[1..], before + [line], rest[k..], s)
    ensures Keeps(hunk, before, rest, s)
  {
    var part := Below(s);
    assert rest[|rest| - |part|..] == rest[k..][|rest| - k - |part|..];
    assert before <= before + [line] <= s.lines;
  }

  ghost predicate RunKept(hunk: seq<string>, before: seq<string>, rest: seq<string>) {
    match Run(hunk, State(before + rest, |before| - 1))
    case Err(_) => true
    case Ok(s) => Keeps(hunk, before, rest, s)
  }

  lemma LineKept(hunk: seq<string>, before: seq<string>, line: string, rest: seq<string>, k: nat)
    requires hunk != [] && rest != [] && !Is(hunk[0], '-')
    requires line == if Is(hunk[0], '+') then NextLine(rest[0], hunk[0]) else rest[0]
    requires k == if Is(hunk[0], '+') then 0 else 1
    requires RunKept(hunk[1..], before + [line], rest[k..])
    ensures RunKept(hunk, before, rest)
  {
    StepAt(hunk[0], before, rest);
    assert rest[0..] == rest;
    var r := Run(hunk, State(before + rest, |before| - 1));
    if r.Ok? {
      KeepsMore(hunk, before, line, rest, k, r.value);
    }
  }

  /** After a deletion the next turn looks past the line that moved up; without such a line it fails. */
  lemma DeletionKept(hunk: seq<string>, before: seq<string>, rest: seq<string>)
    requires |hunk| > 1 && rest != [] && Is(hunk[0], '-')
    requires |rest| > 1 ==> RunKept(hunk[1..], before + [rest[1]], rest[2..])
    ensures RunKept(hunk, before, rest)
  {
    StepAt(hunk[0], before, rest);
    if |rest| > 1 {
      assert before + [rest[1]] + rest[2..] == before + rest[1..];
      var r := Run(hunk, State(before + rest, |before| - 1));
      if r.Ok? {
        KeepsMore(hunk, before, rest[1], rest, 2, r.value);
      }
    }
  }

  /**
   Whatever the patch lines, a success changes the line count by insertions minus deletions, and
   leaves the lines above the hunk and those below the final cursor as they were.
   */
  lemma {:induction false} RunKeeps(hunk: seq<string>, before: seq<string>, rest: seq<string>)
    ensures RunKept(hunk, before, rest)
    decreases |hunk|
  {
    if hunk == [] {
      KeepsNothing(before, rest);
    } else if rest != [] {
      if !Is(hunk[0], '-') {
        var line := if Is(hunk[0], '+') then NextLine(rest[0], hunk[0]) else rest[0];
        var k := if Is(hunk[0], '+') then 0 else 1;
        RunKeeps(hunk[1..], before + [line], rest[k..]);
        LineKept(hunk, before, line, rest, k);
      } else if |hunk| == 1 {
        StepAt(hunk[0], before, rest);
        KeepsDelete(hunk, before, rest);
      } else {
        if |rest| > 1 {
          RunKeeps(hunk[1..], before + [rest[1]], rest[2..]);
        }
        DeletionKept(hunk, before, rest);
      }
    }
  }

  // ----- from a line number -----

  /** The hunk starts inside the file, at line `n` counted from one, and its lines are accepted there. */
  ghost predicate AcceptedAt(hunk: seq<string>, lines: seq<string>, n: nat) {
    1 <= n <= |lines| && Accepts(hunk, lines[n - 1..])
  }

  ghost predicate ReplacedAt(hunk: seq<string>, lines: seq<string>, n: nat, out: seq<string>) {
    && 1 <= n <= |lines|
    && OldCount(hunk) <= |lines[n - 1..]|
    && out == Replaced(hunk, lines[..n - 1], lines[n - 1..])
  }

  /**
   As many lines as before, less the deletions and plus the insertions; those above the hunk
   start are the file's, and those below the final cursor are a suffix of it.
   */
  ghost predicate KeptAt(hunk: seq<string>, lines: seq<string>, n: nat, out: seq<string>) {
    && 1 <= n <= |lines|
    && |out| == |lines| + Count(hunk, '+') - Count(hunk, '-')
    && lines[..n - 1] <= out
    && (n - 1 + |hunk| <= |out| ==> IsSuffix(out[n - 1 + |hunk|..], lines[n - 1..]))
  }

  /** A hunk start outside the file fails on the first patch line. */
  lemma OutsideFails(hunk: seq<string>, lines: seq<string>, n: nat)
    requires hunk != [] && !(1 <= n <= |lines|)
    ensures Run(hunk, State(lines, n - 2)).Err?
  {
    assert Step(hunk[0], State(lines, n - 2)).Err?;
  }

  lemma RunReplacesAt(hunk: seq<string>, lines: seq<string>, n: nat)
    requires hunk != [] && IsHunk(hunk) && DeletesLast(hunk)
    ensures var r := Run(hunk, State(lines, n - 2));
            (r.Ok? <==> AcceptedAt(hunk, lines, n)) && (r.Ok? ==> ReplacedAt(hunk, lines, n, r.value.lines))
  {
    if 1 <= n <= |lines| {
      var before, rest := lines[..n - 1], lines[n - 1..];
      assert before + rest == lines && |before| - 1 == n - 2;
      CursorReplaces(hunk, before, rest);
    } else {
      OutsideFails(hunk, lines, n);
    }
  }

  lemma RunKeepsAt(hunk: seq<string>, lines: seq<string>, n: nat)
    requires hunk != [] && Run(hunk, State(lines, n - 2)).Ok?
    ensures KeptAt(hunk, lines, n, Run(hunk, State(lines, n - 2)).value.lines)
  {
    if 1 <= n <= |lines| {
      var before, rest := lines[..n - 1], lines[n - 1..];
      assert before + rest == lines && |before| - 1 == n - 2;
      RunKeeps(hunk, before, rest);
    } else {
      OutsideFails(hunk, lines, n);
    }
  }

  // ----- undoing an insertion-only hunk -----

  /** Leaves out the lines at the inserted positions of a hunk without deletions. */
  ghost function Erase(hunk: seq<string>, lines: seq<string>): seq<string>
    decreases |hunk|
  {
    if hunk == [] || lines == [] then lines
    else if Is(hunk[0], '+') then Erase(hunk[1..], lines[1..])
    else [lines[0]] + Erase(hunk[1..], lines[1..])
  }

  lemma EraseStep(hunk: seq<string>, line: string, lines: seq<string>)
    requires hunk != []
    ensures Erase(hunk, [line] + lines)
            == if Is(hunk[0], '+') then Erase(hunk[1..], lines) else [line] + Erase(hunk[1..], lines)
  {
    assert ([line] + lines)[1..] == lines;
  }

  lemma EraseNext(hunk: seq<string>, line: string, lines: seq<string>, after: seq<string>)
    requires hunk != []
    ensures Erase(hunk, [line] + lines + after)
         == if Is(hunk[0], '+') then Erase(hunk[1..], lines + after) else [line] + Erase(hunk[1..], lines + after)
  {
    assert [line] + lines + after == [line] + (lines + after);
    EraseStep(hunk, line, lines + after);
  }

  lemma {:induction false} EraseNewSide(hunk: seq<string>, rest: seq<string>)
    requires IsHunk(hunk) && Count(hunk, '-') == 0 && OldCount(hunk) <= |rest|
    ensures Erase(hunk, NewSide(hunk, rest) + rest[OldCount(hunk)..]) == rest
    decreases |hunk|
  {
    if hunk == [] {
      assert [] + rest[0..] == rest;
    } else {
      var tail, after := hunk[1..], rest[OldCount(hunk)..];
      if Is(hunk[0], '+') {
        EraseNewSide(tail, rest);
        EraseNext(hunk, NextLine(if rest == [] then "" else rest[0], hunk[0]), NewSide(tail, rest), after);
      } else {
        EraseNewSide(tail, rest[1..]);
        assert after == rest[1..][OldCount(tail)..];
        EraseNext(hunk, rest[0], NewSide(tail, rest[1..]), after);
      }
    }
  }

  /** A hunk of context and insertions only adds lines: erasing them gives back the file. */
  lemma InsertionsUndone(hunk: seq<string>, before: seq<string>, rest: seq<string>)
    requires IsHunk(hunk) && Count(hunk, '-') == 0
    requires Run(hunk, State(before + rest, |before| - 1)).Ok?
    ensures var lines := Run(hunk, State(before + rest, |before| - 1)).value.lines;
            |before| <= |lines| && before + Erase(hunk, lines[|before|..]) == before + rest
  {
    var lines := Run(hunk, State(before + rest, |before| - 1)).value.lines;
    assert Accepts(hunk, rest) && OldCount(hunk) <= |rest| && lines == Replaced(hunk, before, rest) by {
      NoDeletions(hunk);
      CursorReplaces(hunk, before, rest);
    }
    DropFirst(before, NewSide(hunk, rest), rest[OldCount(hunk)..]);
    EraseNewSide(hunk, rest);
  }
}
