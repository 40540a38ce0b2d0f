/**
 reflowText of src/cli/commands/help/reflow-text.ts, from the fragments of each section
 on: text, and escape codes that take no room on the terminal.
 */
module Reflow {
  import opened Strings

  /** A cell of an output line: a visible character or an escape code. */
  datatype Cell = Ch(c: char) | Esc(code: string)

  type Line = seq<Cell>

  /** A piece of a section, as cut at the escape codes. */
  datatype Fragment = Text(text: string) | Code(code: string)

  datatype State = State(column: int, line: Line, lastWasEscape: bool, reflowed: seq<Line>)

  const START := State(0, [], false, [])

  function Cells(s: string): (line: Line)
    ensures |line| == |s| && forall i :: 0 <= i < |s| ==> line[i] == Ch(s[i])
  {
    if s == "" then [] else [Ch(s[0])] + Cells(s[1..])
  }

  /** textLength: escape codes do not count. */
  function TextLength(line: Line): nat {
    if line == [] then 0 else (if line[0].Ch? then 1 else 0) + TextLength(line[1..])
  }

  predicate IsBlank(c: char) {
    c == ' ' || c == '\t' || c == '\n'
  }

  /** The blanks are the space, the tab and the line feed. */
  lemma BlankIs(c: char)
    ensures IsBlank(c) <==> c as int in {0x20, 0x09, 0x0A}
  {
  }

  function SkipBlanks(s: string): (r: string)
    ensures |r| <= |s|
  {
    if s != "" && IsBlank(s[0]) then SkipBlanks(s[1..]) else s
  }

  /** `fragment.split(/[ \t\n]+/)`. */
  function Words(s: string): (words: seq<string>)
    ensures words != []
    decreases |s|
  {
    if s == "" then [""]
    else if IsBlank(s[0]) then [""] + Words(SkipBlanks(s[1..]))
    else
      var rest := Words(s[1..]);
      [[s[0]] + rest[0]] + rest[1..]
  }

  /** `word.substr(0, n)`. */
  function Prefix(word: string, n: int): string {
    if n <= 0 then "" else if n >= |word| then word else word[..n]
  }

  /** The full lines cut from the front of a long word, and what is left of it. */
  function Chop(word: string, width: int): (r: (seq<Line>, string))
    ensures width <= 0 ==> r == ([], "")
    ensures width > 0 ==> |r.1| < width
    decreases |word|
  {
    if width <= 0 then ([], "")
    else if |word| < width then ([], word)
    else
      var (lines, rest) := Chop(word[width..], width);
      ([Cells(word[..width])] + lines, rest)
  }

  function AddSpace(column: int, lastWasEscape: bool): bool {
    column != 0 && !lastWasEscape
  }

  function Space(addSpace: bool): Line {
    if addSpace then [Ch(' ')] else []
  }

  /** One turn of the loop over words. */
  function AddWord(s: State, word: string, width: int): State {
    var space := Space(AddSpace(s.column, s.lastWasEscape));
    if s.column + |word| <= width then
      State(s.column + |space| + |word|, s.line + space + Cells(word), false, s.reflowed)
    else if |word| <= width then
      State(|word|, Cells(word), false, s.reflowed + [s.line])
    else
      var w := Prefix(word, width - s.column);
      var (full, rest) := Chop(word[|w|..], width);
      State(|rest|, Cells(rest), false, s.reflowed + [s.line + space + Cells(w)] + full)
  }

  function AddWords(s: State, words: seq<string>, width: int): State
    decreases |words|
  {
    if words == [] then s else AddWords(AddWord(s, words[0], width), words[1..], width)
  }

  function AddFragment(s: State, fragment: Fragment, width: int): State {
    match fragment
    case Code(code) => s.(line := s.line + [Esc(code)], lastWasEscape := true)
    case Text(text) => if text == "" then s.(lastWasEscape := false) else AddWords(s, Words(text), width)
  }

  function AddFragments(s: State, fragments: seq<Fragment>, width: int): State
    decreases |fragments|
  {
    if fragments == [] then s else AddFragments(AddFragment(s, fragments[0], width), fragments[1..], width)
  }

  /** The last line of a section is written only when something in it is visible. */
  function Finished(s: State): seq<Line> {
    if TextLength(s.line) > 0 then s.reflowed + [s.line] else s.reflowed
  }

  /** The lines of one section. */
  function Section(fragments: seq<Fragment>, width: int): seq<Line> {
    Finished(AddFragments(START, fragments, width))
  }

  function Sections(sections: seq<seq<Fragment>>, width: int): seq<Line> {
    if sections == [] then []
    else Sections(sections[..|sections| - 1], width) + Section(sections[|sections| - 1], width)
  }

  // ----- the code -----

  /** The lines written so far and those still to be cut from `word`, and what stays on the current line. */
  ghost function Whole(done: seq<Line>, word: string, width: int): (seq<Line>, string) {
    (done + Chop(word, width).0, Chop(word, width).1)
  }

  lemma WholeStep(done: seq<Line>, word: string, width: int)
    requires 0 < width <= |word|
    ensures Whole(done, word, width) == Whole(done + [Cells(word[..width])], word[width..], width)
  {
    var first, more := [Cells(word[..width])], Chop(word[width..], width).0;
    assert done + (first + more) == done + first + more;
  }

  lemma WholeEnds(done: seq<Line>, word: string, width: int)
    requires |word| < width || width <= 0
    ensures Whole(done, word, width) == (done, if width <= 0 then "" else word)
  {
    assert done + [] == done;
  }

  /** The line a long word is cut on. */
  ghost function CutLine(s: State, word: string, width: int): Line {
    s.line + Space(AddSpace(s.column, s.lastWasEscape)) + Cells(Prefix(word, width - s.column))
  }

  lemma LongWordIs(s: State, word: string, width: int)
    requires s.column + |word| > width && |word| > width
    ensures var whole := Whole(s.reflowed + [CutLine(s, word, width)], word[|Prefix(word, width - s.column)|..], width);
            AddWord(s, word, width) == State(|whole.1|, Cells(whole.1), false, whole.0)
  {
  }

  /** The branch for a word longer than the width: split it over as many lines as it needs. */
  method SplitLongWord(s: State, longWord: string, width: int) returns (r: State)
    requires s.column + |longWord| > width && |longWord| > width
    ensures r == AddWord(s, longWord, width)
  {
    var addSpace := AddSpace(s.column, s.lastWasEscape);
    var w := Prefix(longWord, width - s.column);
    var currentLine := s.line;
    if addSpace {
      currentLine := currentLine + [Ch(' ')];
    }
    currentLine := currentLine + Cells(w);
    var reflowed := s.reflowed + [currentLine];
    currentLine := [];
    var column := 0;
    var word := longWord[|w|..];
    ghost var whole := Whole(reflowed, word, width);
    assert s.line + [] == s.line;
    LongWordIs(s, longWord, width);
    while word != ""
      invariant currentLine == [] && column == 0
      invariant Whole(reflowed, word, width) == whole
      decreases |word|
    {
      var part := Prefix(word, width);
      if part == "" {
        break;
      }
      if |part| < width {
        currentLine := Cells(part);
        column := |part|;
        break;
      }
      assert part == word[..width];
      WholeStep(reflowed, word, width);
      reflowed := reflowed + [Cells(part)];
      word := word[width..];
    }
    WholeEnds(reflowed, word, width);
    r := State(column, currentLine, false, reflowed);
  }

  /** The loops over the fragments of a section and the words of a fragment. */
  method ReflowSection(section: seq<Fragment>, width: int) returns (lines: seq<Line>)
    ensures lines == Section(section, width)
  {
    var fragments, s := section, START;
    while fragments != []
      invariant AddFragments(START, section, width) == AddFragments(s, fragments, width)
      decreases |fragments|
    {
      var fragment := fragments[0];
      if fragment == Text("") {
        s := s.(lastWasEscape := false);
      } else if fragment.Code? {
        s := s.(line := s.line + [Esc(fragment.code)], lastWasEscape := true);
      } else {
        var words := Words(fragment.text);
        ghost var before := s;
        assert words[0..] == words;
        for i := 0 to |words|
          invariant AddWords(before, words, width) == AddWords(s, words[i..], width)
        {
          assert words[i..][0] == words[i] && words[i..][1..] == words[i + 1..];
          if s.column + |words[i]| > width && |words[i]| > width {
            s := SplitLongWord(s, words[i], width);
          } else {
            s := AddWord(s, words[i], width);
          }
        }
      }
      fragments := fragments[1..];
    }
    lines := if TextLength(s.line) > 0 then s.reflowed + [s.line] else s.reflowed;
  }

  method ReflowText(sections: seq<seq<Fragment>>, width: int) returns (lines: seq<Line>)
    ensures lines == Sections(sections, width)
  {
    lines := [];
    for i := 0 to |sections|
      invariant lines == Sections(sections[..i], width)
    {
      var reflowed := ReflowSection(sections[i], width);
      assert sections[..i + 1][..i] == sections[..i];
      lines := lines + reflowed;
    }
    assert sections[..|sections|] == sections;
  }

  // ----- nothing visible is lost -----

  /** The escape codes and the characters other than blanks, in order. */
  ghost function Solid(line: Line): seq<Cell> {
    if line == [] then []
    else SolidCell(line[0]) + Solid(line[1..])
  }

  ghost function SolidLines(lines: seq<Line>): seq<Cell> {
    if lines == [] then [] else SolidLines(lines[..|lines| - 1]) + Solid(lines[|lines| - 1])
  }

  ghost function SolidFragments(fragments: seq<Fragment>): seq<Cell> {
    if fragments == [] then []
    else SolidFragment(fragments[0]) + SolidFragments(fragments[1..])
  }

  ghost function SolidWords(words: seq<string>): seq<Cell> {
    if words == [] then [] else Solid(Cells(words[0])) + SolidWords(words[1..])
  }

  /** Everything written so far, the current line included. */
  ghost function Written(s: State): seq<Cell> {
    SolidLines(s.reflowed) + Solid(s.line)
  }

  ghost function SolidCell(cell: Cell): seq<Cell> {
    if cell.Ch? && IsBlank(cell.c) then [] else [cell]
  }

  lemma {:induction false} SolidConcat(a: Line, b: Line)
    ensures Solid(a + b) == Solid(a) + Solid(b)
    decreases |a|
  {
    if a == [] {
      assert a + b == b;
    } else {
      assert (a + b)[1..] == a[1..] + b;
      SolidConcat(a[1..], b);
      ConcatAssoc(SolidCell(a[0]), Solid(a[1..]), Solid(b));
    }
  }

  lemma {:induction false} SolidLinesConcat(a: seq<Line>, b: seq<Line>)
    ensures SolidLines(a + b) == SolidLines(a) + SolidLines(b)
    decreases |b|
  {
    if b == [] {
      assert a + b == a;
    } else {
      assert (a + b)[..|a + b| - 1] == a + b[..|b| - 1];
      SolidLinesConcat(a, b[..|b| - 1]);
    }
  }

  lemma SolidLinesOne(line: Line)
    ensures SolidLines([line]) == Solid(line)
  {
    assert [line][..0] == [];
  }

  lemma {:induction false} CellsConcat(a: string, b: string)
    ensures Cells(a + b) == Cells(a) + Cells(b)
  {
  }

  predicate HasNoBlank(s: string) {
    forall i :: 0 <= i < |s| ==> !IsBlank(s[i])
  }

  predicate AllBlank(s: string) {
    forall i :: 0 <= i < |s| ==> IsBlank(s[i])
  }

  /** The words with a gap after each but the last. */
  ghost function Interleaved(words: seq<string>, gaps: seq<string>): string
    requires |words| == |gaps| + 1
  {
    if gaps == [] then words[0] else words[0] + gaps[0] + Interleaved(words[1..], gaps[1..])
  }

  /** `words` are what maximal runs of blanks cut a text into: only the first and the last may be empty. */
  ghost predicate AreWords(words: seq<string>) {
    && words != []
    && (forall i :: 0 <= i < |words| ==> HasNoBlank(words[i]))
    && (forall i :: 0 < i < |words| - 1 ==> words[i] != "")
  }

  ghost predicate AreGaps(gaps: seq<string>) {
    forall i :: 0 <= i < |gaps| ==> gaps[i] != "" && AllBlank(gaps[i])
  }

  /** What SkipBlanks skips. */
  lemma {:induction false} BlankRun(s: string) returns (gap: string)
    ensures AllBlank(gap) && gap + SkipBlanks(s) == s
    ensures SkipBlanks(s) != "" ==> !IsBlank(SkipBlanks(s)[0])
  {
    if s != "" && IsBlank(s[0]) {
      var rest := BlankRun(s[1..]);
      gap := [s[0]] + rest;
      assert [s[0]] + rest + SkipBlanks(s) == [s[0]] + (rest + SkipBlanks(s)) == s;
    } else {
      gap := "";
    }
  }

  lemma {:induction false} WordsStart(s: string)
    ensures s != "" && !IsBlank(s[0]) ==> Words(s)[0] != ""
    ensures s == "" ==> Words(s) == [""]
  {
  }

  /** A text is its words with the blank runs between them, and the words are as long as can be. */
  lemma {:induction false} WordsAreSplit(s: string) returns (gaps: seq<string>)
    ensures AreWords(Words(s)) && AreGaps(gaps)
    ensures |Words(s)| == |gaps| + 1 && Interleaved(Words(s), gaps) == s
    decreases |s|
  {
    if s == "" {
      gaps := [];
    } else if IsBlank(s[0]) {
      gaps := GapFirst(s);
    } else {
      gaps := WordsAreSplit(s[1..]);
      LetterFirst(s[0], Words(s[1..]), gaps);
      assert [s[0]] + s[1..] == s;
    }
  }

  lemma {:induction false} GapFirst(s: string) returns (gaps: seq<string>)
    requires s != "" && IsBlank(s[0])
    ensures AreWords(Words(s)) && AreGaps(gaps)
    ensures |Words(s)| == |gaps| + 1 && Interleaved(Words(s), gaps) == s
    decreases |s|, 0
  {
    var rest := SkipBlanks(s[1..]);
    var run := BlankRun(s[1..]);
    var gap := [s[0]] + run;
    assert gap + rest == s by { assert gap + rest == [s[0]] + (run + rest); }
    var others := WordsAreSplit(rest);
    WordsStart(rest);
    gaps := [gap] + others;
    EmptyFirst(Words(rest), gap, others);
  }

  lemma EmptyFirst(words: seq<string>, gap: string, gaps: seq<string>)
    requires AreWords(words) && AreGaps(gaps) && |words| == |gaps| + 1
    requires gap != "" && AllBlank(gap) && (|words| > 1 ==> words[0] != "")
    ensures AreWords([""] + words) && AreGaps([gap] + gaps)
    ensures Interleaved([""] + words, [gap] + gaps) == gap + Interleaved(words, gaps)
  {
    assert ([""] + words)[1..] == words && ([gap] + gaps)[1..] == gaps;
    assert "" + gap == gap;
  }

  lemma LetterFirst(c: char, words: seq<string>, gaps: seq<string>)
    requires AreWords(words) && AreGaps(gaps) && |words| == |gaps| + 1 && !IsBlank(c)
    ensures AreWords([[c] + words[0]] + words[1..])
    ensures Interleaved([[c] + words[0]] + words[1..], gaps) == [c] + Interleaved(words, gaps)
  {
    var more := [[c] + words[0]] + words[1..];
    assert more[1..] == words[1..] && more[0] == [c] + words[0];
    if gaps != [] {
      var rest := Interleaved(words[1..], gaps[1..]);
      assert Interleaved(more, gaps) == ([c] + words[0] + gaps[0]) + rest;
      ConcatAssoc([c], words[0], gaps[0]);
      ConcatAssoc([c], words[0] + gaps[0], rest);
    }
  }

  lemma SolidFirst(c: char, s: string)
    ensures Solid(Cells([c] + s)) == SolidCell(Ch(c)) + Solid(Cells(s))
  {
    assert ([c] + s)[1..] == s;
    assert Cells([c] + s)[1..] == Cells(s);
  }

  lemma SolidFirstWord(word: string, rest: seq<string>)
    ensures SolidWords([word] + rest) == Solid(Cells(word)) + SolidWords(rest)
  {
    assert ([word] + rest)[1..] == rest;
  }

  /** A character in front of the first word is a character in front of the text. */
  lemma FirstWordGrows(c: char, word: string, rest: seq<string>)
    ensures SolidWords([[c] + word] + rest) == SolidCell(Ch(c)) + SolidWords([word] + rest)
  {
    var first, solid, others := SolidCell(Ch(c)), Solid(Cells(word)), SolidWords(rest);
    assert Solid(Cells([c] + word)) == first + solid by { SolidFirst(c, word); }
    assert SolidWords([word] + rest) == solid + others by { SolidFirstWord(word, rest); }
    SolidFirstWord([c] + word, rest);
    ConcatAssoc(first, solid, others);
  }

  /** Cutting a text into words loses only blanks. */
  lemma {:induction false} WordsKeep(s: string)
    ensures SolidWords(Words(s)) == Solid(Cells(s))
    decreases |s|
  {
    if s == "" {
      assert SolidWords([""][1..]) == [];
    } else {
      assert [s[0]] + s[1..] == s;
      if IsBlank(s[0]) {
        WordsKeep(SkipBlanks(s[1..]));
        SkipKeeps(s[1..]);
        SolidFirstWord("", Words(SkipBlanks(s[1..])));
        SolidFirst(s[0], s[1..]);
      } else {
        WordsKeep(s[1..]);
        var rest := Words(s[1..]);
        assert [rest[0]] + rest[1..] == rest;
        FirstWordGrows(s[0], rest[0], rest[1..]);
        SolidFirst(s[0], s[1..]);
      }
    }
  }

  lemma {:induction false} SkipKeeps(s: string)
    ensures Solid(Cells(SkipBlanks(s))) == Solid(Cells(s))
  {
    if s != "" && IsBlank(s[0]) {
      SkipKeeps(s[1..]);
      assert Cells(s)[1..] == Cells(s[1..]);
    }
  }

  lemma {:induction false} ChopKeeps(word: string, width: int)
    requires width > 0
    ensures SolidLines(Chop(word, width).0) + Solid(Cells(Chop(word, width).1)) == Solid(Cells(word))
    decreases |word|
  {
    if |word| >= width {
      ChopKeeps(word[width..], width);
      var first := Cells(word[..width]);
      SolidLinesConcat([first], Chop(word[width..], width).0);
      SolidLinesOne(first);
      CellsConcat(word[..width], word[width..]);
      SolidConcat(first, Cells(word[width..]));
      assert word[..width] + word[width..] == word;
    }
  }

  lemma SpaceIsNotSolid(line: Line, addSpace: bool)
    ensures Solid(line + Space(addSpace)) == Solid(line)
  {
    SolidConcat(line, Space(addSpace));
  }

  lemma FittingWordKeeps(s: State, word: string, width: int)
    requires s.column + |word| <= width
    ensures Written(AddWord(s, word, width)) == Written(s) + Solid(Cells(word))
  {
    var addSpace := AddSpace(s.column, s.lastWasEscape);
    SpaceIsNotSolid(s.line, addSpace);
    SolidConcat(s.line + Space(addSpace), Cells(word));
    ConcatAssoc(SolidLines(s.reflowed), Solid(s.line), Solid(Cells(word)));
  }

  lemma BreakingWordKeeps(s: State, word: string, width: int)
    requires |word| <= width < s.column + |word|
    ensures Written(AddWord(s, word, width)) == Written(s) + Solid(Cells(word))
  {
    SolidLinesConcat(s.reflowed, [s.line]);
    SolidLinesOne(s.line);
  }

  /** The two pieces of a long word, the first on the current line and the rest chopped. */
  lemma PiecesKeep(reflowed: seq<Line>, line: Line, w: string, tail: string, width: int)
    requires width > 0
    ensures SolidLines(reflowed + [line + Cells(w)] + Chop(tail, width).0) + Solid(Cells(Chop(tail, width).1))
         == SolidLines(reflowed) + Solid(line) + Solid(Cells(w + tail))
  {
    var full, rest := Chop(tail, width).0, Solid(Cells(Chop(tail, width).1));
    SolidLinesConcat(reflowed + [line + Cells(w)], full);
    SolidLinesConcat(reflowed, [line + Cells(w)]);
    SolidLinesOne(line + Cells(w));
    SolidConcat(line, Cells(w));
    ChopKeeps(tail, width);
    CellsConcat(w, tail);
    SolidConcat(Cells(w), Cells(tail));
    var a, b, c := SolidLines(reflowed), Solid(line), Solid(Cells(w));
    ConcatAssoc(a + (b + c), SolidLines(full), rest);
    ConcatAssoc(a, b, c);
    ConcatAssoc(a + b, c, Solid(Cells(tail)));
  }

  lemma PrefixSplits(word: string, n: int)
    ensures |Prefix(word, n)| <= |word| && Prefix(word, n) + word[|Prefix(word, n)|..] == word
  {
    assert "" + word[0..] == word;
  }

  lemma LongWordKeeps(s: State, word: string, width: int)
    requires 0 < width < |word| && s.column + |word| > width
    ensures Written(AddWord(s, word, width)) == Written(s) + Solid(Cells(word))
  {
    var addSpace := AddSpace(s.column, s.lastWasEscape);
    var w := Prefix(word, width - s.column);
    SpaceIsNotSolid(s.line, addSpace);
    PrefixSplits(word, width - s.column);
    PiecesKeep(s.reflowed, s.line + Space(addSpace), w, word[|w|..], width);
  }

  lemma AddWordKeeps(s: State, word: string, width: int)
    requires width > 0
    ensures Written(AddWord(s, word, width)) == Written(s) + Solid(Cells(word))
  {
    if s.column + |word| <= width {
      FittingWordKeeps(s, word, width);
    } else if |word| <= width {
      BreakingWordKeeps(s, word, width);
    } else {
      LongWordKeeps(s, word, width);
    }
  }

  lemma {:induction false} AddWordsKeep(s: State, words: seq<string>, width: int)
    requires width > 0
    ensures Written(AddWords(s, words, width)) == Written(s) + SolidWords(words)
    decreases |words|
  {
    if words != [] {
      AddWordKeeps(s, words[0], width);
      AddWordsKeep(AddWord(s, words[0], width), words[1..], width);
      ConcatAssoc(Written(s), Solid(Cells(words[0])), SolidWords(words[1..]));
    }
  }

  ghost function SolidFragment(fragment: Fragment): seq<Cell> {
    match fragment
    case Code(code) => [Esc(code)]
    case Text(text) => Solid(Cells(text))
  }

  lemma AddFragmentKeeps(s: State, fragment: Fragment, width: int)
    requires width > 0
    ensures Written(AddFragment(s, fragment, width)) == Written(s) + SolidFragment(fragment)
  {
    match fragment {
      case Code(code) =>
        SolidConcat(s.line, [Esc(code)]);
        ConcatAssoc(SolidLines(s.reflowed), Solid(s.line), [Esc(code)]);
      case Text(text) =>
        if text != "" {
          AddWordsKeep(s, Words(text), width);
          WordsKeep(text);
        }
    }
  }

  lemma {:induction false} AddFragmentsKeep(s: State, fragments: seq<Fragment>, width: int)
    requires width > 0
    ensures Written(AddFragments(s, fragments, width)) == Written(s) + SolidFragments(fragments)
    decreases |fragments|
  {
    if fragments != [] {
      AddFragmentKeeps(s, fragments[0], width);
      AddFragmentsKeep(AddFragment(s, fragments[0], width), fragments[1..], width);
      ConcatAssoc(Written(s), SolidFragment(fragments[0]), SolidFragments(fragments[1..]));
    }
  }

  lemma {:induction false} InvisibleIsEscapes(line: Line)
    requires TextLength(line) == 0
    ensures Solid(line) == line && forall i :: 0 <= i < |line| ==> line[i].Esc?
  {
    if line != [] {
      InvisibleIsEscapes(line[1..]);
    }
  }

  /**
   The lines of a section hold its visible characters other than blanks and its escape
   codes, in order and nothing else; only the escape codes of a last line without any
   visible character are left out.
   */
  lemma SectionKeeps(fragments: seq<Fragment>, width: int) returns (dropped: Line)
    requires width > 0
    ensures SolidLines(Section(fragments, width)) + dropped == SolidFragments(fragments)
    ensures forall i :: 0 <= i < |dropped| ==> dropped[i].Esc?
  {
    AddFragmentsKeep(START, fragments, width);
    var s := AddFragments(START, fragments, width);
    if TextLength(s.line) > 0 {
      dropped := [];
      SolidLinesConcat(s.reflowed, [s.line]);
      SolidLinesOne(s.line);
    } else {
      dropped := s.line;
      InvisibleIsEscapes(s.line);
    }
  }

  ghost predicate ContentKept(fragments: seq<Fragment>, width: int) {
    var written, all := SolidLines(Section(fragments, width)), SolidFragments(fragments);
    written <= all && forall i :: |written| <= i < |all| ==> all[i].Esc?
  }

  lemma {:induction false} WordOnly(word: string)
    requires HasNoBlank(word)
    ensures Words(word) == [word]
  {
    if word != "" {
      WordOnly(word[1..]);
      assert [word[0]] + word[1..] == word;
    }
  }

  lemma {:induction false} WordThenSpace(word: string, rest: string)
    requires HasNoBlank(word) && rest != "" && !IsBlank(rest[0])
    ensures Words(word + " " + rest) == [word] + Words(rest)
    decreases |word|
  {
    var s := word + " " + rest;
    if word == "" {
      assert s[1..] == rest;
    } else {
      assert s[1..] == word[1..] + " " + rest;
      WordThenSpace(word[1..], rest);
      assert [word[0]] + word[1..] == word;
    }
  }

  /** What is left out after the last line written is escape codes. */
  lemma TailIsEscapes(written: Line, dropped: Line, all: Line)
    requires written + dropped == all && forall i :: 0 <= i < |dropped| ==> dropped[i].Esc?
    ensures written <= all && forall i :: |written| <= i < |all| ==> all[i].Esc?
  {
    assert forall i :: |written| <= i < |all| ==> all[i] == dropped[i - |written|];
  }

  lemma PositiveKeeps(fragments: seq<Fragment>, width: int)
    requires width > 0
    ensures ContentKept(fragments, width)
  {
    var dropped := SectionKeeps(fragments, width);
    TailIsEscapes(SolidLines(Section(fragments, width)), dropped, SolidFragments(fragments));
  }

  lemma {:induction false} LengthConcat(a: Line, b: Line)
    ensures TextLength(a + b) == TextLength(a) + TextLength(b)
    decreases |a|
  {
    if a == [] {
      assert a + b == b;
    } else {
      assert (a + b)[1..] == a[1..] + b;
      LengthConcat(a[1..], b);
    }
  }

  /** A character takes one column and an escape code none: with LengthConcat, the length of every line. */
  lemma LengthOfOne(cell: Cell)
    ensures TextLength([cell]) == match cell case Ch(_) => 1 case Esc(_) => 0
  {
    assert [cell][1..] == [];
  }

  lemma {:induction false} LengthOfCells(s: string)
    ensures TextLength(Cells(s)) == |s|
  {
    if s != "" {
      LengthOfCells(s[1..]);
      assert Cells(s)[1..] == Cells(s[1..]);
    }
  }

  // ----- no room at all -----

  ghost function Codes(fragments: seq<Fragment>): seq<Cell> {
    if fragments == [] then []
    else (if fragments[0].Code? then [Esc(fragments[0].code)] else []) + Codes(fragments[1..])
  }

  /** Nothing visible has been written, and the column says so. */
  ghost predicate Bare(s: State) {
    s.column == 0 && TextLength(s.line) == 0 && forall i :: 0 <= i < |s.reflowed| ==> TextLength(s.reflowed[i]) == 0
  }

  /** A word that has no room is lost: it ends the line, if it is not empty, and leaves no trace. */
  lemma NoRoomForWord(s: State, word: string, width: int)
    requires width <= 0 && Bare(s)
    ensures Bare(AddWord(s, word, width)) && Written(AddWord(s, word, width)) == Written(s)
  {
    assert s.line + [] + Cells("") == s.line;
    if s.column + |word| > width {
      assert AddWord(s, word, width) == State(0, [], false, s.reflowed + [s.line]) by {
        assert s.reflowed + [s.line] + [] == s.reflowed + [s.line];
      }
      SolidLinesConcat(s.reflowed, [s.line]);
      SolidLinesOne(s.line);
    }
  }

  lemma {:induction false} NoRoomForWords(s: State, words: seq<string>, width: int)
    requires width <= 0 && Bare(s)
    ensures Bare(AddWords(s, words, width)) && Written(AddWords(s, words, width)) == Written(s)
    decreases |words|
  {
    if words != [] {
      NoRoomForWord(s, words[0], width);
      NoRoomForWords(AddWord(s, words[0], width), words[1..], width);
    }
  }

  lemma NoRoomForFragment(s: State, fragment: Fragment, width: int)
    requires width <= 0 && Bare(s)
    ensures Bare(AddFragment(s, fragment, width))
    ensures Written(AddFragment(s, fragment, width))
            == Written(s) + (if fragment.Code? then [Esc(fragment.code)] else [])
  {
    match fragment {
      case Code(code) =>
        LengthConcat(s.line, [Esc(code)]);
        SolidConcat(s.line, [Esc(code)]);
        assert Solid([Esc(code)]) == [Esc(code)] + Solid([]);
        ConcatAssoc(SolidLines(s.reflowed), Solid(s.line), [Esc(code)]);
      case Text(text) =>
        if text != "" {
          NoRoomForWords(s, Words(text), width);
        }
    }
  }

  lemma {:induction false} NoRoomForFragments(s: State, fragments: seq<Fragment>, width: int)
    requires width <= 0 && Bare(s)
    ensures Bare(AddFragments(s, fragments, width))
    ensures Written(AddFragments(s, fragments, width)) == Written(s) + Codes(fragments)
    decreases |fragments|
  {
    if fragments != [] {
      var next := AddFragment(s, fragments[0], width);
      NoRoomForFragment(s, fragments[0], width);
      NoRoomForFragments(next, fragments[1..], width);
      ConcatAssoc(Written(s), if fragments[0].Code? then [Esc(fragments[0].code)] else [], Codes(fragments[1..]));
    }
  }

  /**
   With a width of zero or less no line of a section shows anything: of every section only the
   escape codes are left.
   */
  lemma NoRoom(fragments: seq<Fragment>, width: int) returns (dropped: Line)
    requires width <= 0
    ensures forall line :: line in Section(fragments, width) ==> TextLength(line) == 0
    ensures SolidLines(Section(fragments, width)) + dropped == Codes(fragments)
  {
    var s := AddFragments(START, fragments, width);
    assert Bare(s) && Written(s) == Codes(fragments) by {
      NoRoomForFragments(START, fragments, width);
      assert Written(START) == [] && [] + Codes(fragments) == Codes(fragments);
    }
    assert Section(fragments, width) == s.reflowed;
    dropped := s.line;
    assert Solid(s.line) == s.line by { InvisibleIsEscapes(s.line); }
  }

  lemma {:induction false} CodesAreEscapes(fragments: seq<Fragment>)
    ensures forall i :: 0 <= i < |Codes(fragments)| ==> Codes(fragments)[i].Esc?
    ensures ShowsNothing(fragments) ==> Codes(fragments) == SolidFragments(fragments)
  {
    if fragments != [] {
      CodesAreEscapes(fragments[1..]);
      var first, others := SolidFragment(fragments[0]), SolidFragments(fragments[1..]);
      if ShowsNothing(fragments) {
        assert forall i :: 0 <= i < |others| ==> others[i] == (first + others)[|first| + i];
        if fragments[0].Text? {
          assert first != [] ==> SolidFragments(fragments)[0] == first[0];
          SolidIsVisible(fragments[0].text);
        }
      }
    }
  }

  lemma {:induction false} SolidIsVisible(text: string)
    ensures forall i :: 0 <= i < |Solid(Cells(text))| ==> Solid(Cells(text))[i].Ch?
  {
    if text != "" {
      assert Cells(text)[1..] == Cells(text[1..]);
      SolidIsVisible(text[1..]);
    }
  }

  /** The section has no visible character other than blanks. */
  ghost predicate ShowsNothing(fragments: seq<Fragment>) {
    forall i :: 0 <= i < |SolidFragments(fragments)| ==> SolidFragments(fragments)[i].Esc?
  }

  /** The content of a section is kept exactly when there is some width or nothing to show. */
  lemma ContentKeptIff(fragments: seq<Fragment>, width: int)
    ensures ContentKept(fragments, width) <==> width > 0 || ShowsNothing(fragments)
  {
    if width > 0 {
      PositiveKeeps(fragments, width);
    } else {
      var dropped := NoRoom(fragments, width);
      var written := SolidLines(Section(fragments, width));
      CodesAreEscapes(fragments);
      assert forall i :: 0 <= i < |written| ==> written[i] == Codes(fragments)[i];
      if ContentKept(fragments, width) {
        assert forall i :: 0 <= i < |written| ==> written[i] == SolidFragments(fragments)[i];
      }
    }
  }

  lemma LetterIsSolid()
    ensures SolidFragments([Text("a")]) == [Ch('a')]
  {
    assert Cells("a") == [Ch('a')] && [Ch('a')][1..] == [];
    assert Solid([Ch('a')]) == [Ch('a')] + Solid([]);
    assert SolidFragments([Text("a")]) == SolidFragment(Text("a")) + SolidFragments([]);
  }

  /** Content is kept for every section exactly when the width is positive. */
  lemma KeepsIffPositive(width: int)
    ensures (forall fragments :: ContentKept(fragments, width)) <==> width > 0
  {
    if width > 0 {
      forall fragments
        ensures ContentKept(fragments, width)
      {
        PositiveKeeps(fragments, width);
      }
    } else {
      ContentKeptIff([Text("a")], width);
      LetterIsSolid();
      assert SolidFragments([Text("a")])[0].Ch?;
      assert !ContentKept([Text("a")], width);
    }
  }

  // ----- all sections -----

  /** The visible characters among these cells, in order. */
  ghost function Letters(cells: seq<Cell>): seq<Cell> {
    if cells == [] then [] else (if cells[0].Ch? then [cells[0]] else []) + Letters(cells[1..])
  }

  /** The visible characters of all sections, other than blanks. */
  ghost function AllLetters(sections: seq<seq<Fragment>>): seq<Cell> {
    if sections == [] then []
    else AllLetters(sections[..|sections| - 1]) + Letters(SolidFragments(sections[|sections| - 1]))
  }

  lemma {:induction false} LettersConcat(a: seq<Cell>, b: seq<Cell>)
    ensures Letters(a + b) == Letters(a) + Letters(b)
    decreases |a|
  {
    if a == [] {
      assert a + b == b;
    } else {
      LettersConcat(a[1..], b);
      assert (a + b)[1..] == a[1..] + b;
      ConcatAssoc(if a[0].Ch? then [a[0]] else [], Letters(a[1..]), Letters(b));
    }
  }

  lemma {:induction false} EscapesHaveNoLetters(cells: seq<Cell>)
    requires forall i :: 0 <= i < |cells| ==> cells[i].Esc?
    ensures Letters(cells) == []
  {
    if cells != [] {
      EscapesHaveNoLetters(cells[1..]);
    }
  }

  /** A section's lines show its letters, all of them and in order. */
  lemma SectionShows(fragments: seq<Fragment>, width: int)
    requires width > 0
    ensures Letters(SolidLines(Section(fragments, width))) == Letters(SolidFragments(fragments))
  {
    var dropped := SectionKeeps(fragments, width);
    EscapesHaveNoLetters(dropped);
    LettersConcat(SolidLines(Section(fragments, width)), dropped);
  }

  /** The whole text reflowed shows the letters of all sections, in order. */
  lemma {:induction false} SectionsShow(sections: seq<seq<Fragment>>, width: int)
    requires width > 0
    ensures Letters(SolidLines(Sections(sections, width))) == AllLetters(sections)
  {
    if sections != [] {
      var n := |sections| - 1;
      var before, last := Sections(sections[..n], width), Section(sections[n], width);
      SectionsShow(sections[..n], width);
      SectionShows(sections[n], width);
      SolidLinesConcat(before, last);
      LettersConcat(SolidLines(before), SolidLines(last));
    }
  }

  /** With a width of zero or less the whole text shows nothing. */
  lemma {:induction false} SectionsShowNothing(sections: seq<seq<Fragment>>, width: int)
    requires width <= 0
    ensures forall line :: line in Sections(sections, width) ==> TextLength(line) == 0
  {
    if sections != [] {
      var n := |sections| - 1;
      SectionsShowNothing(sections[..n], width);
      var dropped := NoRoom(sections[n], width);
    }
  }
}
