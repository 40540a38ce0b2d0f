/** How long the lines of a reflowed section get, and which sections keep to the width. */
module ReflowWidth {
  import opened Reflow

  // ----- the bound -----

  ghost predicate NoLongerThan(lines: seq<Line>, bound: int) {
    forall i :: 0 <= i < |lines| ==> TextLength(lines[i]) <= bound
  }

  /** The rest of `n` after taking away `width` as often as possible. */
  function Remainder(n: nat, width: int): (r: nat)
    ensures width > 0 ==> r < width
  {
    if width <= 0 then 0 else if n < width then n else Remainder(n - width, width)
  }

  lemma {:induction false} ChopLengths(word: string, width: int)
    requires width > 0
    ensures NoLongerThan(Chop(word, width).0, width)
    ensures |Chop(word, width).1| == Remainder(|word|, width)
    decreases |word|
  {
    if |word| >= width {
      ChopLengths(word[width..], width);
      LengthOfCells(word[..width]);
    }
  }

  /** The counter is the visible length of the current line. */
  ghost predicate Counted(s: State) {
    s.column == TextLength(s.line)
  }

  /** The length of the line a long word is cut on. */
  function CutLength(s: State, width: int): int {
    (if s.column > width then s.column else width) + (if AddSpace(s.column, s.lastWasEscape) then 1 else 0)
  }

  lemma CutLineLength(s: State, word: string, width: int)
    requires 0 < width < |word| && s.column >= 0 && Counted(s)
    ensures TextLength(CutLine(s, word, width)) == CutLength(s, width)
  {
    var space, w := Space(AddSpace(s.column, s.lastWasEscape)), Prefix(word, width - s.column);
    LengthConcat(s.line + space, Cells(w));
    LengthConcat(s.line, space);
    LengthOfCells(w);
  }

  ghost predicate Bounded(s: State, width: int) {
    Counted(s) && 0 <= s.column <= width + 1 && NoLongerThan(s.reflowed, width + 2)
  }

  /** The two branches that write nothing but, at most, the current line. */
  lemma ShortWordCounted(s: State, word: string, width: int)
    requires Counted(s) && (s.column + |word| <= width || |word| <= width)
    ensures Counted(AddWord(s, word, width))
  {
    var space := Space(AddSpace(s.column, s.lastWasEscape));
    LengthConcat(s.line + space, Cells(word));
    LengthConcat(s.line, space);
    LengthOfCells(word);
  }

  lemma MiddleParts<T>(a: seq<T>, x: T, b: seq<T>)
    ensures var all := a + [x] + b;
            |all| > |a| && all[..|a|] == a && all[|a|] == x && all[|a| + 1..] == b
  {
  }

  /** The branch that splits a long word: the line it is cut on, full lines, and the rest. */
  lemma LongWordLines(s: State, word: string, width: int)
    requires 0 < width < |word| && s.column + |word| > width && s.column >= 0 && Counted(s)
    ensures var r := AddWord(s, word, width);
            && Counted(r) && r.column == Remainder(|word| - |Prefix(word, width - s.column)|, width)
            && |r.reflowed| > |s.reflowed| && r.reflowed[..|s.reflowed|] == s.reflowed
            && TextLength(r.reflowed[|s.reflowed|]) == CutLength(s, width)
            && NoLongerThan(r.reflowed[|s.reflowed| + 1..], width)
  {
    var tail := word[|Prefix(word, width - s.column)|..];
    var line := CutLine(s, word, width);
    LongWordIs(s, word, width);
    MiddleParts(s.reflowed, line, Chop(tail, width).0);
    LengthOfCells(Chop(tail, width).1);
    ChopLengths(tail, width);
    CutLineLength(s, word, width);
  }

  lemma SplitBound(lines: seq<Line>, n: nat, bound: int)
    requires n < |lines| && NoLongerThan(lines[..n], bound) && TextLength(lines[n]) <= bound
            && NoLongerThan(lines[n + 1..], bound)
    ensures NoLongerThan(lines, bound)
  {
    forall i | 0 <= i < |lines|
      ensures TextLength(lines[i]) <= bound
    {
      if i < n {
        assert lines[..n][i] == lines[i];
      } else if i > n {
        assert lines[n + 1..][i - n - 1] == lines[i];
      }
    }
  }

  lemma AddWordBounded(s: State, word: string, width: int)
    requires width > 0 && Bounded(s, width)
    ensures Bounded(AddWord(s, word, width), width)
  {
    if s.column + |word| <= width || |word| <= width {
      ShortWordCounted(s, word, width);
    } else {
      LongWordLines(s, word, width);
      SplitBound(AddWord(s, word, width).reflowed, |s.reflowed|, width + 2);
    }
  }

  lemma {:induction false} AddWordsBounded(s: State, words: seq<string>, width: int)
    requires width > 0 && Bounded(s, width)
    ensures Bounded(AddWords(s, words, width), width)
    decreases |words|
  {
    if words != [] {
      AddWordBounded(s, words[0], width);
      AddWordsBounded(AddWord(s, words[0], width), words[1..], width);
    }
  }

  lemma {:induction false} AddFragmentsBounded(s: State, fragments: seq<Fragment>, width: int)
    requires width > 0 && Bounded(s, width)
    ensures Bounded(AddFragments(s, fragments, width), width)
    decreases |fragments|
  {
    if fragments != [] {
      match fragments[0] {
        case Code(code) =>
          LengthConcat(s.line, [Esc(code)]);
        case Text(text) =>
          if text != "" {
            AddWordsBounded(s, Words(text), width);
          }
      }
      AddFragmentsBounded(AddFragment(s, fragments[0], width), fragments[1..], width);
    }
  }

  /** No line is longer than the width plus two: the overflow test forgets the space it may add. */
  lemma SectionBounded(fragments: seq<Fragment>, width: int)
    requires width > 0
    ensures NoLongerThan(Section(fragments, width), width + 2)
  {
    AddFragmentsBounded(START, fragments, width);
  }

  // ----- exactly when every line keeps to the width -----

  /** How the counter moves for a word of length `n`. */
  function NextColumn(column: nat, lastWasEscape: bool, n: nat, width: int): nat {
    if column + n <= width then column + (if AddSpace(column, lastWasEscape) then 1 else 0) + n
    else if n <= width then n
    else Remainder(if column > width then n else column + n - width, width)
  }

  /** A word that gets a space in front and either just fills the line without it, or is longer than a line. */
  predicate Tight(column: nat, lastWasEscape: bool, n: nat, width: int) {
    AddSpace(column, lastWasEscape) && (column + n == width || n > width)
  }

  /** Counting columns only, a tight word is met. */
  predicate MeetsTight(column: nat, lastWasEscape: bool, words: seq<string>, width: int)
    decreases |words|
  {
    words != [] &&
    (Tight(column, lastWasEscape, |words[0]|, width)
     || MeetsTight(NextColumn(column, lastWasEscape, |words[0]|, width), false, words[1..], width))
  }

  function ColumnAfter(column: nat, lastWasEscape: bool, words: seq<string>, width: int): nat
    decreases |words|
  {
    if words == [] then column
    else ColumnAfter(NextColumn(column, lastWasEscape, |words[0]|, width), false, words[1..], width)
  }

  /** The same over the fragments of a section. */
  predicate HasTightWord(column: nat, lastWasEscape: bool, fragments: seq<Fragment>, width: int)
    decreases |fragments|
  {
    fragments != [] &&
    match fragments[0]
    case Code(_) => HasTightWord(column, true, fragments[1..], width)
    case Text(text) =>
      if text == "" then HasTightWord(column, false, fragments[1..], width)
      else
        || MeetsTight(column, lastWasEscape, Words(text), width)
        || HasTightWord(ColumnAfter(column, lastWasEscape, Words(text), width), false, fragments[1..], width)
  }

  /** So far every line, the current one included, keeps to the width. */
  ghost predicate Keeping(s: State, width: int) {
    Counted(s) && s.column <= width && NoLongerThan(s.reflowed, width)
  }

  /** Some line, perhaps the current one, is already too long. */
  ghost predicate Overfull(s: State, width: int) {
    TextLength(s.line) > width || !NoLongerThan(s.reflowed, width)
  }

  lemma LongerSofar(s: State, r: State, width: int)
    requires !NoLongerThan(s.reflowed, width) && s.reflowed <= r.reflowed
    ensures Overfull(r, width)
  {
    var i :| 0 <= i < |s.reflowed| && TextLength(s.reflowed[i]) > width;
    assert r.reflowed[i] == s.reflowed[i];
  }

  /** What a word of this length is found to do to a state that keeps to the width so far. */
  ghost predicate Decided(s: State, r: State, n: nat, width: int) {
    && s.column >= 0
    && r.column == NextColumn(s.column, s.lastWasEscape, n, width)
    && !r.lastWasEscape
    && (if Tight(s.column, s.lastWasEscape, n, width) then Overfull(r, width) else Keeping(r, width))
  }

  lemma ShortWordDecides(s: State, word: string, width: int)
    requires width > 0 && Keeping(s, width)
    requires s.column + |word| <= width || |word| <= width
    ensures Decided(s, AddWord(s, word, width), |word|, width)
  {
    ShortWordCounted(s, word, width);
  }

  lemma LongWordDecides(s: State, word: string, width: int)
    requires 0 < width < |word| && Keeping(s, width)
    ensures Decided(s, AddWord(s, word, width), |word|, width)
  {
    var r := AddWord(s, word, width);
    LongWordLines(s, word, width);
    if Tight(s.column, s.lastWasEscape, |word|, width) {
      assert TextLength(r.reflowed[|s.reflowed|]) > width;
    } else {
      SplitBound(r.reflowed, |s.reflowed|, width);
    }
  }

  lemma AddWordDecides(s: State, word: string, width: int)
    requires width > 0 && Keeping(s, width)
    ensures Decided(s, AddWord(s, word, width), |word|, width)
  {
    if |word| <= width {
      ShortWordDecides(s, word, width);
    } else {
      LongWordDecides(s, word, width);
    }
  }

  lemma AddWordStaysOverfull(s: State, word: string, width: int)
    requires width > 0 && Overfull(s, width)
    ensures Overfull(AddWord(s, word, width), width)
  {
    var r := AddWord(s, word, width);
    var space := Space(AddSpace(s.column, s.lastWasEscape));
    if !NoLongerThan(s.reflowed, width) {
      assert s.reflowed <= r.reflowed;
      LongerSofar(s, r, width);
    } else if s.column + |word| <= width {
      LengthConcat(s.line + space, Cells(word));
      LengthConcat(s.line, space);
    } else if |word| <= width {
      assert r.reflowed[|s.reflowed|] == s.line;
    } else {
      var w := Prefix(word, width - s.column);
      LengthConcat(s.line + space, Cells(w));
      LengthConcat(s.line, space);
      assert r.reflowed[|s.reflowed|] == s.line + space + Cells(w);
    }
  }

  lemma {:induction false} AddWordsStayOverfull(s: State, words: seq<string>, width: int)
    requires width > 0 && Overfull(s, width)
    ensures Overfull(AddWords(s, words, width), width)
    decreases |words|
  {
    if words != [] {
      AddWordStaysOverfull(s, words[0], width);
      AddWordsStayOverfull(AddWord(s, words[0], width), words[1..], width);
    }
  }

  lemma {:induction false} AddFragmentsStayOverfull(s: State, fragments: seq<Fragment>, width: int)
    requires width > 0 && Overfull(s, width)
    ensures Overfull(AddFragments(s, fragments, width), width)
    decreases |fragments|
  {
    if fragments != [] {
      match fragments[0] {
        case Code(code) => LengthConcat(s.line, [Esc(code)]);
        case Text(text) => if text != "" { AddWordsStayOverfull(s, Words(text), width); }
      }
      AddFragmentsStayOverfull(AddFragment(s, fragments[0], width), fragments[1..], width);
    }
  }

  lemma {:induction false} AddWordsDecide(s: State, words: seq<string>, width: int)
    requires width > 0 && Keeping(s, width)
    ensures var r := AddWords(s, words, width);
            if MeetsTight(s.column, s.lastWasEscape, words, width) then Overfull(r, width)
            else && Keeping(r, width)
                 && r.column == ColumnAfter(s.column, s.lastWasEscape, words, width)
                 && (words != [] ==> !r.lastWasEscape)
    decreases |words|
  {
    if words != [] {
      AddWordDecides(s, words[0], width);
      if Tight(s.column, s.lastWasEscape, |words[0]|, width) {
        AddWordsStayOverfull(AddWord(s, words[0], width), words[1..], width);
      } else {
        AddWordsDecide(AddWord(s, words[0], width), words[1..], width);
      }
    }
  }

  lemma {:induction false} AddFragmentsDecide(s: State, fragments: seq<Fragment>, width: int)
    requires width > 0 && Keeping(s, width)
    ensures var r := AddFragments(s, fragments, width);
            if HasTightWord(s.column, s.lastWasEscape, fragments, width) then Overfull(r, width) else Keeping(r, width)
    decreases |fragments|
  {
    if fragments != [] {
      var next := AddFragment(s, fragments[0], width);
      match fragments[0] {
        case Code(code) =>
          LengthConcat(s.line, [Esc(code)]);
          AddFragmentsDecide(next, fragments[1..], width);
        case Text(text) =>
          if text == "" {
            AddFragmentsDecide(next, fragments[1..], width);
          } else {
            AddWordsDecide(s, Words(text), width);
            if MeetsTight(s.column, s.lastWasEscape, Words(text), width) {
              AddFragmentsStayOverfull(next, fragments[1..], width);
            } else {
              AddFragmentsDecide(next, fragments[1..], width);
            }
          }
      }
    }
  }

  /**
   The goal stated for the function, no line longer than the width, is met exactly by the
   sections in which counting columns meets no tight word.
   */
  lemma FitsIffNoTightWord(fragments: seq<Fragment>, width: int)
    requires width > 0
    ensures NoLongerThan(Section(fragments, width), width) <==> !HasTightWord(0, false, fragments, width)
  {
    AddFragmentsDecide(START, fragments, width);
    var s := AddFragments(START, fragments, width);
    var lines := Section(fragments, width);
    if HasTightWord(0, false, fragments, width) {
      if TextLength(s.line) > width {
        assert lines[|lines| - 1] == s.line;
      } else {
        var i :| 0 <= i < |s.reflowed| && TextLength(s.reflowed[i]) > width;
        assert lines[i] == s.reflowed[i];
      }
    }
  }

  function Repeat(c: char, n: nat): (s: string)
    ensures |s| == n && forall i :: 0 <= i < n ==> s[i] == c
  {
    if n == 0 then "" else [c] + Repeat(c, n - 1)
  }

  /** A section with a line two characters over the width. */
  function WideText(width: int): string
    requires width >= 2
  {
    "a" + " " + (Repeat('b', width - 1) + " " + Repeat('c', width + 1))
  }

  lemma WideWords(width: int)
    requires width >= 2
    ensures Words(WideText(width)) == ["a"] + ([Repeat('b', width - 1)] + [Repeat('c', width + 1)])
  {
    var b, c := Repeat('b', width - 1), Repeat('c', width + 1);
    WordThenSpace("a", b + " " + c);
    WordThenSpace(b, c);
    WordOnly(c);
  }

  lemma ThreeWords(s: State, a: string, b: string, c: string, width: int)
    ensures AddWords(s, [a] + ([b] + [c]), width) == AddWord(AddWord(AddWord(s, a, width), b, width), c, width)
  {
    var words := [a] + ([b] + [c]);
    assert words[1..] == [b] + [c] && words[1..][1..] == [c] && words[1..][1..][1..] == [];
    var s1 := AddWord(s, a, width);
    var s2 := AddWord(s1, b, width);
    var s3 := AddWord(s2, c, width);
    assert AddWords(s, words, width) == AddWords(s1, [b] + [c], width) == AddWords(s2, [c], width)
        == AddWords(s3, [], width);
  }

  /** The bound is reached: from two columns on, some section gets a line of the width plus two. */
  lemma BoundIsReached(width: int)
    requires width >= 2
    ensures exists line :: line in Section([Text(WideText(width))], width) && TextLength(line) == width + 2
  {
    var b, c := Repeat('b', width - 1), Repeat('c', width + 1);
    var s1 := AddWord(START, "a", width);
    var s2 := AddWord(s1, b, width);
    var s3 := AddWord(s2, c, width);
    assert AddFragments(START, [Text(WideText(width))], width) == s3 by {
      WideWords(width);
      ThreeWords(START, "a", b, c, width);
      assert [Text(WideText(width))][1..] == [];
    }
    AddWordBounded(START, "a", width);
    AddWordBounded(s1, b, width);
    LongWordLines(s2, c, width);
    var line := s3.reflowed[|s2.reflowed|];
    assert line in s3.reflowed;
    assert line in Section([Text(WideText(width))], width);
  }

  // ----- from which width on the bound is reached -----

  /** Cutting a section at its escape codes gives text and codes in turn, text first. */
  ghost predicate Alternating(fragments: seq<Fragment>, textNext: bool)
    decreases |fragments|
  {
    fragments == [] || (fragments[0].Text? == textNext && Alternating(fragments[1..], !textNext))
  }

  /** In one column: no line so far is longer than two. */
  ghost predicate Narrow(s: State) {
    Counted(s) && 0 <= s.column <= 2 && NoLongerThan(s.reflowed, 2)
  }

  /** Where no space comes before a word, or the word is not empty, the column stays at most one. */
  lemma NarrowWord(s: State, word: string)
    requires Narrow(s) && (s.column == 2 ==> s.lastWasEscape)
    ensures var r := AddWord(s, word, 1);
            && Narrow(r)
            && ((s.column == 0 || s.lastWasEscape || word != "") ==> r.column <= 1)
  {
    if |word| <= 1 {
      ShortWordCounted(s, word, 1);
    } else {
      LongWordLines(s, word, 1);
      SplitBound(AddWord(s, word, 1).reflowed, |s.reflowed|, 2);
    }
  }

  lemma {:induction false} NarrowRest(s: State, words: seq<string>)
    requires Narrow(s) && s.column <= 1
    requires forall i :: 0 <= i < |words| - 1 ==> words[i] != ""
    ensures Narrow(AddWords(s, words, 1))
    decreases |words|
  {
    if words != [] {
      NarrowWord(s, words[0]);
      if |words| == 1 {
        assert words[1..] == [];
      } else {
        NarrowRest(AddWord(s, words[0], 1), words[1..]);
      }
    }
  }

  lemma NarrowText(s: State, text: string)
    requires Narrow(s) && (s.column == 0 || s.lastWasEscape)
    ensures Narrow(AddWords(s, Words(text), 1))
  {
    var words := Words(text);
    var gaps := WordsAreSplit(text);
    NarrowWord(s, words[0]);
    NarrowRest(AddWord(s, words[0], 1), words[1..]);
  }

  lemma {:induction false} NarrowFragments(s: State, fragments: seq<Fragment>, textNext: bool)
    requires Narrow(s) && Alternating(fragments, textNext)
    requires textNext ==> s.column == 0 || s.lastWasEscape
    ensures Narrow(AddFragments(s, fragments, 1))
    decreases |fragments|
  {
    if fragments != [] {
      match fragments[0] {
        case Code(code) =>
          LengthConcat(s.line, [Esc(code)]);
        case Text(text) =>
          if text != "" {
            NarrowText(s, text);
          }
      }
      NarrowFragments(AddFragment(s, fragments[0], 1), fragments[1..], !textNext);
    }
  }

  ghost predicate ReachesBound(fragments: seq<Fragment>, width: int) {
    exists line :: line in Section(fragments, width) && TextLength(line) == width + 2
  }

  /** The bound is reached by some section exactly from a width of two on; in one column no line passes two. */
  lemma BoundReachedIff(width: int)
    requires width > 0
    ensures (exists fragments :: Alternating(fragments, true) && ReachesBound(fragments, width)) <==> width >= 2
  {
    if width >= 2 {
      BoundIsReached(width);
      var fragments := [Text(WideText(width))];
      assert fragments[1..] == [];
      assert Alternating(fragments, true) && ReachesBound(fragments, width);
    } else {
      forall fragments | Alternating(fragments, true)
        ensures !ReachesBound(fragments, width)
      {
        NarrowFragments(START, fragments, true);
      }
    }
  }

  // ----- no width to keep to -----

  ghost predicate HasNoText(fragments: seq<Fragment>) {
    forall i :: 0 <= i < |fragments| ==> fragments[i].Text? ==> fragments[i].text == ""
  }

  lemma NoTextFirst(fragments: seq<Fragment>)
    requires fragments != []
    ensures HasNoText(fragments) <==> (fragments[0].Text? ==> fragments[0].text == "") && HasNoText(fragments[1..])
  {
    if HasNoText(fragments) {
      assert forall i :: 0 <= i < |fragments[1..]| ==> fragments[1..][i] == fragments[i + 1];
    } else {
      var i :| 0 <= i < |fragments| && fragments[i].Text? && fragments[i].text != "";
      assert i > 0 ==> fragments[1..][i - 1] == fragments[i];
    }
  }

  /** With a negative width every word ends a line, the empty one included. */
  lemma {:induction false} EveryWordEndsLine(s: State, words: seq<string>, width: int)
    requires width < 0 && Bare(s)
    ensures |AddWords(s, words, width).reflowed| >= |s.reflowed| + |words|
    decreases |words|
  {
    if words != [] {
      NoRoomForWord(s, words[0], width);
      EveryWordEndsLine(AddWord(s, words[0], width), words[1..], width);
    }
  }

  lemma {:induction false} TextWritesLines(s: State, fragments: seq<Fragment>, width: int)
    requires width < 0 && Bare(s)
    ensures var r := AddFragments(s, fragments, width);
            |r.reflowed| >= |s.reflowed| && (|r.reflowed| == |s.reflowed| <==> HasNoText(fragments))
    decreases |fragments|
  {
    if fragments != [] {
      var next := AddFragment(s, fragments[0], width);
      NoRoomForFragment(s, fragments[0], width);
      if fragments[0].Text? && fragments[0].text != "" {
        EveryWordEndsLine(s, Words(fragments[0].text), width);
      }
      TextWritesLines(next, fragments[1..], width);
      NoTextFirst(fragments);
    }
  }

  /** Width zero is always kept to, since nothing is shown; a negative one exactly when no line is written. */
  lemma FitsWithoutRoom(fragments: seq<Fragment>, width: int)
    requires width <= 0
    ensures NoLongerThan(Section(fragments, width), width) <==> width == 0 || HasNoText(fragments)
  {
    NoRoomForFragments(START, fragments, width);
    if width < 0 {
      TextWritesLines(START, fragments, width);
      var lines := Section(fragments, width);
      assert lines != [] ==> TextLength(lines[0]) > width;
    }
  }

  // ----- all sections -----

  lemma LongerInParts(a: seq<Line>, b: seq<Line>, bound: int)
    ensures NoLongerThan(a + b, bound) <==> NoLongerThan(a, bound) && NoLongerThan(b, bound)
  {
    if NoLongerThan(a + b, bound) {
      assert forall i :: 0 <= i < |a| ==> a[i] == (a + b)[i];
      assert forall i :: 0 <= i < |b| ==> b[i] == (a + b)[|a| + i];
    }
  }

  /** All lines of the text keep to a bound exactly when those of every section do. */
  lemma {:induction false} SectionsInParts(sections: seq<seq<Fragment>>, width: int, bound: int)
    ensures NoLongerThan(Sections(sections, width), bound)
        <==> forall i :: 0 <= i < |sections| ==> NoLongerThan(Section(sections[i], width), bound)
  {
    if sections != [] {
      var n := |sections| - 1;
      SectionsInParts(sections[..n], width, bound);
      LongerInParts(Sections(sections[..n], width), Section(sections[n], width), bound);
      assert forall i :: 0 <= i < n ==> sections[..n][i] == sections[i];
    }
  }

  /** No line of the whole text is longer than the width plus two. */
  lemma SectionsBounded(sections: seq<seq<Fragment>>, width: int)
    requires width > 0
    ensures NoLongerThan(Sections(sections, width), width + 2)
  {
    forall i | 0 <= i < |sections|
      ensures NoLongerThan(Section(sections[i], width), width + 2)
    {
      SectionBounded(sections[i], width);
    }
    SectionsInParts(sections, width, width + 2);
  }

  /** The condition, for one section and any width, under which its lines keep to the width. */
  ghost predicate KeepsToWidth(fragments: seq<Fragment>, width: int) {
    if width > 0 then !HasTightWord(0, false, fragments, width) else width == 0 || HasNoText(fragments)
  }

  /** The documented goal for the whole text and every width: no line is longer than the width. */
  lemma SectionsFitIff(sections: seq<seq<Fragment>>, width: int)
    ensures NoLongerThan(Sections(sections, width), width)
        <==> forall i :: 0 <= i < |sections| ==> KeepsToWidth(sections[i], width)
  {
    SectionsInParts(sections, width, width);
    forall i | 0 <= i < |sections|
      ensures NoLongerThan(Section(sections[i], width), width) <==> KeepsToWidth(sections[i], width)
    {
      if width > 0 {
        FitsIffNoTightWord(sections[i], width);
      } else {
        FitsWithoutRoom(sections[i], width);
      }
    }
  }
}
