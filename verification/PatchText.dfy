/**
 The text around the hunk in packages/vulnmap-protect/src/lib/patch.ts: finding the
 file header, reading the hunk's start line, and splitting both texts into lines.
 */
module PatchText {
  import opened Wrappers
  import opened Strings
  import opened Hunks

  const HEADER := "--- a/"

  /** The characters after which `^` matches with the m flag, and which `.` does not match. */
  predicate IsTerminator(c: char) {
    c == '\n' || c == '\r' || c == '\U{2028}' || c == '\U{2029}'
  }

  predicate HeaderAt(patch: string, i: nat) {
    i <= |patch| && HEADER <= patch[i..] && (i == 0 || IsTerminator(patch[i - 1]))
  }

  /** `patch.search(/^--- a\//m)`, or None for -1. */
  function FindHeader(patch: string, i: nat): (r: Option<nat>)
    requires i <= |patch|
    ensures r.Some? ==> i <= r.value <= |patch| && HeaderAt(patch, r.value)
                        && forall k :: i <= k < r.value ==> !HeaderAt(patch, k)
    ensures r.None? ==> forall k :: i <= k <= |patch| ==> !HeaderAt(patch, k)
    decreases |patch| - i
  {
    if HeaderAt(patch, i) then Some(i)
    else if i == |patch| then None
    else FindHeader(patch, i + 1)
  }

  /** `patch.slice(patch.search(...))`: without a header the index is -1, and only the last character is left. */
  function FromHeader(patch: string): string {
    match FindHeader(patch, 0)
    case Some(i) => patch[i..]
    case None => if patch == "" then "" else patch[|patch| - 1..]
  }

  function PatchContentLines(patch: string): seq<string> {
    Split(FromHeader(patch), '\n')
  }

  // ----- the hunk header -----

  predicate IsDigit(c: char) {
    '0' <= c <= '9'
  }

  function DigitRun(s: string): (n: nat)
    ensures n <= |s|
    ensures forall i :: 0 <= i < n ==> IsDigit(s[i])
    ensures n < |s| ==> !IsDigit(s[n])
  {
    if s == "" || !IsDigit(s[0]) then 0 else 1 + DigitRun(s[1..])
  }

  predicate AllDigits(s: string) {
    forall i :: 0 <= i < |s| ==> IsDigit(s[i])
  }

  function DigitValue(c: char): nat
    requires IsDigit(c)
  {
    c as int - '0' as int
  }

  function Decimal(digits: string): nat
    requires AllDigits(digits)
  {
    if digits == "" then 0 else Decimal(digits[..|digits| - 1]) * 10 + DigitValue(digits[|digits| - 1])
  }

  /** `.*@@` matches at the front. */
  predicate Closes(s: string) {
    "@@" <= s || (s != "" && !IsTerminator(s[0]) && Closes(s[1..]))
  }

  /** The number captured by /^@@ -(\d*),.*@@/; an empty capture is refused like no match. */
  function HunkStart(line: string): Option<nat> {
    if !("@@ -" <= line) then None
    else
      var n := DigitRun(line[4..]);
      var rest := line[4 + n..];
      if n == 0 || rest == "" || rest[0] != ',' || !Closes(rest[1..]) then None
      else Some(Decimal(line[4..][..n]))
  }

  function HunkLines(lines: seq<string>): seq<string> {
    if |lines| < 5 then [] else lines[3..|lines| - 2]
  }

  // ----- what the header readers accept -----

  lemma CharacterClasses(c: char)
    ensures IsDigit(c) <==> 0x30 <= c as int <= 0x39
    ensures IsTerminator(c) <==> c as int in {0x0A, 0x0D, 0x2028, 0x2029}
  {
  }

  /** Some "@@" comes before any line terminator. */
  lemma {:induction false} ClosesIs(s: string)
    ensures Closes(s) <==> exists mid, after :: s == mid + "@@" + after && forall c :: c in mid ==> !IsTerminator(c)
  {
    if "@@" <= s {
      assert s == "" + "@@" + s[2..];
    } else if s != "" {
      ClosesIs(s[1..]);
      if mid, after :| s[1..] == mid + "@@" + after && forall c :: c in mid ==> !IsTerminator(c) {
        assert s == ([s[0]] + mid) + "@@" + after;
      }
      if mid, after :| s == mid + "@@" + after && forall c :: c in mid ==> !IsTerminator(c) {
        assert mid != "" && s[1..] == mid[1..] + "@@" + after;
        assert s[0] in mid && forall c :: c in mid[1..] ==> c in mid;
      }
    }
  }

  lemma {:induction false} DigitRunOf(digits: string, rest: string)
    requires AllDigits(digits) && (rest != "" ==> !IsDigit(rest[0]))
    ensures DigitRun(digits + rest) == |digits|
  {
    if digits == "" {
      assert digits + rest == rest;
    } else {
      assert (digits + rest)[1..] == digits[1..] + rest;
      DigitRunOf(digits[1..], rest);
    }
  }

  /** "@@ -", a number, a comma, and some "@@" before any line terminator. */
  ghost predicate IsHunkHeader(line: string, digits: string) {
    && digits != "" && AllDigits(digits)
    && exists mid, after ::
         line == "@@ -" + digits + "," + mid + "@@" + after && forall c :: c in mid ==> !IsTerminator(c)
  }

  lemma HunkStartOf(line: string, digits: string)
    requires IsHunkHeader(line, digits)
    ensures HunkStart(line) == Some(Decimal(digits))
  {
    var mid, after :| line == "@@ -" + digits + "," + mid + "@@" + after && forall c :: c in mid ==> !IsTerminator(c);
    var rest := mid + "@@" + after;
    assert line[4..] == digits + ("," + rest);
    DigitRunOf(digits, "," + rest);
    assert line[4..][..|digits|] == digits;
    assert line[4 + |digits|..] == "," + rest && ("," + rest)[1..] == rest;
    ClosesIs(rest);
  }

  /** The hunk start is read exactly from such a line, and is its number. */
  lemma HunkStartIs(line: string, n: nat)
    ensures HunkStart(line) == Some(n) <==> exists digits :: IsHunkHeader(line, digits) && Decimal(digits) == n
  {
    if HunkStart(line).Some? {
      var k := DigitRun(line[4..]);
      var digits, rest := line[4..][..k], line[4 + k..][1..];
      ClosesIs(rest);
      var mid, after :| rest == mid + "@@" + after && forall c :: c in mid ==> !IsTerminator(c);
      assert line == "@@ -" + digits + "," + mid + "@@" + after;
      assert IsHunkHeader(line, digits);
    }
    if digits :| IsHunkHeader(line, digits) && Decimal(digits) == n {
      HunkStartOf(line, digits);
    }
  }

  /** How a number prints in base ten. */
  function Digits(n: nat): (s: string)
    ensures s != "" && AllDigits(s)
  {
    if n < 10 then [(0x30 + n) as char] else Digits(n / 10) + [(0x30 + n % 10) as char]
  }

  lemma {:induction false} DecimalOfDigits(n: nat)
    ensures Decimal(Digits(n)) == n
  {
    if n >= 10 {
      DecimalOfDigits(n / 10);
      assert Digits(n)[..|Digits(n)| - 1] == Digits(n / 10);
    } else {
      assert Digits(n)[..0] == "";
    }
  }

  lemma {:induction false} LeadingZero(digits: string)
    requires AllDigits(digits)
    ensures AllDigits("0" + digits) && Decimal("0" + digits) == Decimal(digits)
  {
    var n := |digits|;
    if n == 0 {
      assert ("0" + digits)[..0] == "";
    } else {
      LeadingZero(digits[..n - 1]);
      assert ("0" + digits)[..n] == "0" + digits[..n - 1];
    }
  }

  /** The patch lines are those between the first three and the last two. */
  lemma HunkLinesIs(lines: seq<string>, hunk: seq<string>)
    ensures HunkLines(lines) == hunk
        <==> (|lines| < 5 && hunk == [])
             || exists header, end :: |header| == 3 && |end| == 2 && lines == header + hunk + end
  {
    if |lines| >= 5 {
      assert lines == lines[..3] + HunkLines(lines) + lines[|lines| - 2..];
    }
    if header, end :| |header| == 3 && |end| == 2 && lines == header + hunk + end {
      assert (header + hunk + end)[3..|lines| - 2] == hunk;
    }
  }

  /** The lines of a patch with one hunk: two header lines, the hunk's start line, its lines, and two more. */
  function PatchFile(name: string, plus: string, start: string, hunk: seq<string>, end: seq<string>): seq<string> {
    ["--- a/" + name, plus, start] + hunk + end
  }

  lemma HeaderFirst(before: string, lines: seq<string>)
    requires lines != [] && AllFree(lines, '\n') && "--- a/" <= lines[0]
    requires before == "" || IsTerminator(before[|before| - 1])
    requires forall k :: 0 <= k < |before| ==> !HeaderAt(before + Join(lines, '\n'), k)
    ensures PatchContentLines(before + Join(lines, '\n')) == lines
  {
    var text := Join(lines, '\n');
    assert lines[0] <= text;
    assert (before + text)[|before|..] == text;
    assert HEADER <= text;
    assert HeaderAt(before + text, |before|);
    SplitJoin(lines, '\n');
  }

  /** A patch printed from its parts, with other text before, is read as these parts. */
  lemma PatchFileReads(before: string, name: string, plus: string, start: nat, after: string, hunk: seq<string>,
                       end: seq<string>)
    requires |end| == 2 && Closes(after)
    requires var line := "@@ -" + Digits(start) + "," + after;
             && AllFree(PatchFile(name, plus, line, hunk, end), '\n')
             && forall k :: 0 <= k < |before| ==>
                  !HeaderAt(before + Join(PatchFile(name, plus, line, hunk, end), '\n'), k)
    requires before == "" || IsTerminator(before[|before| - 1])
    ensures var patch := before
              + Join(PatchFile(name, plus, "@@ -" + Digits(start) + "," + after, hunk, end), '\n');
            && HasStart(patch) && Start(patch) == start && HunkOf(patch) == hunk
            && PatchContentLines(patch)[0] == "--- a/" + name
  {
    var line := "@@ -" + Digits(start) + "," + after;
    var lines := PatchFile(name, plus, line, hunk, end);
    HeaderFirst(before, lines);
    HunkLinesIs(lines, hunk);
    ClosesIs(after);
    var mid, rest :| after == mid + "@@" + rest && forall c :: c in mid ==> !IsTerminator(c);
    assert line == "@@ -" + Digits(start) + "," + mid + "@@" + rest;
    HunkStartOf(line, Digits(start));
    DecimalOfDigits(start);
  }

  // ----- patchString -----

  /** The third line of the patch has a readable hunk start. */
  predicate HasStart(patch: string) {
    var lines := PatchContentLines(patch);
    |lines| >= 3 && HunkStart(lines[2]).Some?
  }

  /** The line number, counted from one, at which the hunk starts. */
  function Start(patch: string): nat
    requires HasStart(patch)
  {
    HunkStart(PatchContentLines(patch)[2]).value
  }

  function HunkOf(patch: string): seq<string> {
    HunkLines(PatchContentLines(patch))
  }

  /** The lines patchString ends with. */
  function PatchedLines(patch: string, contents: string): Result<seq<string>, PatchError> {
    var lines := PatchContentLines(patch);
    if |lines| < 3 || HunkStart(lines[2]).None? then Err(InvalidPatch)
    else
      match Run(HunkLines(lines), State(Split(contents, '\n'), HunkStart(lines[2]).value - 2))
      case Err(e) => Err(e)
      case Ok(s) => Ok(s.lines)
  }

  /** What patchString returns, as text. */
  function Patched(patch: string, contents: string): Result<string, PatchError> {
    match PatchedLines(patch, contents)
    case Err(e) => Err(e)
    case Ok(lines) => Ok(Join(lines, '\n'))
  }

  /** What a success keeps of the file, whatever the hunk. */
  ghost predicate IsKept(patch: string, contents: string, out: Result<seq<string>, PatchError>)
    requires HasStart(patch)
  {
    out.Ok? ==> KeptAt(HunkOf(patch), Split(contents, '\n'), Start(patch), out.value)
  }

  /** Success is exactly a hunk start inside the file and accepted lines there; then the old side is replaced. */
  ghost predicate IsReplaced(patch: string, contents: string, out: Result<seq<string>, PatchError>)
    requires HasStart(patch)
  {
    && (out.Ok? <==> AcceptedAt(HunkOf(patch), Split(contents, '\n'), Start(patch)))
    && (out.Ok? ==> ReplacedAt(HunkOf(patch), Split(contents, '\n'), Start(patch), out.value))
  }

  /**
   What a caller can rely on: a patch without a hunk start is refused, one without hunk
   lines changes nothing, and a success keeps and, with deletions at most in last place,
   replaces what it should.
   */
  ghost predicate IsResult(patch: string, contents: string, out: Result<seq<string>, PatchError>) {
    if !HasStart(patch) then out == Err(InvalidPatch)
    else if HunkOf(patch) == [] then out == Ok(Split(contents, '\n'))
    else
      && IsKept(patch, contents, out)
      && (IsHunk(HunkOf(patch)) && DeletesLast(HunkOf(patch)) ==> IsReplaced(patch, contents, out))
  }

  /** The text prints these lines, and they can be read back unless there are none. */
  ghost predicate Prints(text: string, lines: seq<string>) {
    text == Join(lines, '\n') && (lines != [] ==> Split(text, '\n') == lines)
  }

  method PatchString(patch: string, contents: string) returns (r: Result<string, PatchError>)
    ensures r == Patched(patch, contents)
    ensures IsResult(patch, contents, PatchedLines(patch, contents))
    ensures r.Ok? ==> Prints(r.value, PatchedLines(patch, contents).value)
  {
    var patchContentLines := PatchContentLines(patch);
    var contentsToPatchLines := Split(contents, '\n');
    if |patchContentLines| < 3 || HunkStart(patchContentLines[2]).None? {
      return Err(InvalidPatch);
    }
    var lineToPatch := HunkStart(patchContentLines[2]).value - 2;
    var patched := PatchLines(HunkLines(patchContentLines), contentsToPatchLines, lineToPatch);
    match patched {
      case Err(e) => r := Err(e);
      case Ok(lines) => r := Ok(Join(lines, '\n'));
    }
    assert r == Patched(patch, contents);
    PatchedIsResult(patch, contents);
    PatchedPrints(patch, contents);
  }

  /** Without a header line the patch is refused, whatever else it holds. */
  lemma NoHeaderIsInvalid(patch: string, contents: string)
    requires FindHeader(patch, 0).None?
    ensures Patched(patch, contents) == Err(InvalidPatch)
  {
    var s := FromHeader(patch);
    if s != "" {
      assert s[1..] == "" && Split(s[1..], '\n') == [""];
    }
  }

  /** Patch lines without a line break never put one into a line of the file. */
  lemma {:induction false} RunStaysFree(hunk: seq<string>, s: State)
    requires AllFree(hunk, '\n') && AllFree(s.lines, '\n') && Run(hunk, s).Ok?
    ensures AllFree(Run(hunk, s).value.lines, '\n')
    decreases |hunk|
  {
    if hunk != [] {
      assert Free(hunk[0], '\n');
      RunStaysFree(hunk[1..], Step(hunk[0], s).value);
    }
  }

  /** The patched text prints the patched lines, and no line of it is cut in two. */
  lemma {:induction false} PatchedPrints(patch: string, contents: string)
    ensures var out := PatchedLines(patch, contents);
            out.Ok? ==> Prints(Join(out.value, '\n'), out.value)
  {
    var out := PatchedLines(patch, contents);
    if out.Ok? {
      assert AllFree(out.value, '\n') by {
        SplitIsFree(FromHeader(patch), '\n');
        SplitIsFree(contents, '\n');
        RunStaysFree(HunkOf(patch), State(Split(contents, '\n'), Start(patch) - 2));
      }
      if out.value != [] {
        SplitJoin(out.value, '\n');
      }
    }
  }

  lemma PatchedIsKept(patch: string, contents: string)
    requires HasStart(patch) && HunkOf(patch) != []
    ensures IsKept(patch, contents, PatchedLines(patch, contents))
  {
    if PatchedLines(patch, contents).Ok? {
      RunKeepsAt(HunkOf(patch), Split(contents, '\n'), Start(patch));
    }
  }

  lemma PatchedIsReplaced(patch: string, contents: string)
    requires HasStart(patch)
    requires HunkOf(patch) != [] && IsHunk(HunkOf(patch)) && DeletesLast(HunkOf(patch))
    ensures IsReplaced(patch, contents, PatchedLines(patch, contents))
  {
    RunReplacesAt(HunkOf(patch), Split(contents, '\n'), Start(patch));
  }

  /** patchString, on every patch and every file: see IsResult. */
  lemma PatchedIsResult(patch: string, contents: string)
    ensures IsResult(patch, contents, PatchedLines(patch, contents))
  {
    if HasStart(patch) && HunkOf(patch) != [] {
      PatchedIsKept(patch, contents);
      if IsHunk(HunkOf(patch)) && DeletesLast(HunkOf(patch)) {
        PatchedIsReplaced(patch, contents);
      }
    }
  }

  /** A file without carriage returns is patched with every patch line taken as it is. */
  lemma PlainFile(patch: string, contents: string)
    requires HasStart(patch) && Free(contents, '\r')
    ensures PatchedLines(patch, contents)
            == match PlainRun(HunkOf(patch), State(Split(contents, '\n'), Start(patch) - 2))
               case Err(e) => Err(e)
               case Ok(s) => Ok(s.lines)
  {
    var lines := Split(contents, '\n');
    SplitKeepsFree(contents, '\n', '\r');
    forall i | 0 <= i < |lines|
      ensures !EndsWithReturn(lines[i])
    {
      assert Free(lines[i], '\r');
    }
    PlainRunIs(HunkOf(patch), State(lines, Start(patch) - 2));
  }

  /** A file whose lines end in carriage returns, up to the last, still does when insertions come before such lines. */
  lemma ReturnsPatched(patch: string, contents: string)
    requires HasStart(patch) && PatchedLines(patch, contents).Ok? && HasReturns(Split(contents, '\n'))
    requires InsertsBeforeReturns(HunkOf(patch), State(Split(contents, '\n'), Start(patch) - 2))
    ensures HasReturns(PatchedLines(patch, contents).value)
  {
    ReturnsKept(HunkOf(patch), State(Split(contents, '\n'), Start(patch) - 2));
  }
}
