/**
 What the lines of a reflowed section look like, told without columns or steps: every line
 is spaced pieces of the section's words, and every line break has its reason.
 */
module ReflowLayout {
  import opened Strings
  import opened Reflow
  import ReflowWidth

  /** The part from `from` to `to` of a word, an escape code, or an empty fragment. */
  datatype Piece = Part(word: string, from: nat, to: nat) | Mark(code: string) | Gap

  // ----- how a line of pieces is spaced -----

  ghost predicate EndsInMark(pieces: seq<Piece>) {
    pieces != [] && pieces[|pieces| - 1].Mark?
  }

  ghost predicate IsVisible(line: Line) {
    exists i :: 0 <= i < |line| && line[i].Ch?
  }

  /** One blank before a part of a word when something visible stands before it and no escape code directly so. */
  ghost function Spaced(pieces: seq<Piece>): Line {
    if pieces == [] then []
    else
      var n := |pieces| - 1;
      var before := Spaced(pieces[..n]);
      if pieces[n].Mark? then before + [Esc(pieces[n].code)]
      else if pieces[n].Gap? then before
      else if IsVisible(before) && !EndsInMark(pieces[..n]) then before + [Ch(' ')] + PartCells(pieces[n])
      else before + PartCells(pieces[n])
  }

  ghost function PartCells(p: Piece): Line {
    if p.Part? && p.from <= p.to <= |p.word| then Cells(p.word[p.from..p.to]) else []
  }

  /** How many columns the pieces take. */
  ghost function Shown(pieces: seq<Piece>): nat {
    TextLength(Spaced(pieces))
  }

  // ----- which pieces go on a line, and where it breaks -----

  /**
   After `before`, a word not longer than the width stands whole, and fits when no blank is
   counted; a longer one is cut where the line is full, again without the blank, and its later
   parts start lines.
   */
  ghost predicate Stands(before: seq<Piece>, p: Piece, width: int) {
    p.Part? ==>
      && p.from <= p.to <= |p.word|
      && if |p.word| <= width then p.from == 0 && p.to == |p.word| && Shown(before) + |p.word| <= width
         else
           && (p.from > 0 ==> before == [])
           && p.to - p.from == if Shown(before) >= width then 0
                               else if width - Shown(before) < |p.word| - p.from then width - Shown(before)
                               else |p.word| - p.from
  }

  /** A part of a long word that leaves no column of the line free. */
  ghost predicate Fills(before: seq<Piece>, p: Piece, width: int) {
    p.Part? && |p.word| > width && Shown(before) + (p.to - p.from) >= width
  }

  ghost predicate IsFull(line: seq<Piece>, width: int) {
    line != [] && Fills(line[..|line| - 1], line[|line| - 1], width)
  }

  /** Every piece stands where it may, and nothing follows a part that fills the line. */
  ghost predicate IsLine(line: seq<Piece>, width: int) {
    && (forall j :: 0 <= j < |line| ==> Stands(line[..j], line[j], width))
    && (forall j :: 0 <= j < |line| - 1 ==> !Fills(line[..j], line[j], width))
  }

  /** A line ends because a long word fills it, or because the whole word that starts the next one does not fit. */
  ghost predicate Breaks(line: seq<Piece>, next: seq<Piece>, width: int) {
    || IsFull(line, width)
    || (next != [] && next[0].Part? && |next[0].word| <= width && Shown(line) + |next[0].word| > width)
  }

  ghost predicate IsBroken(layout: seq<seq<Piece>>, width: int) {
    && layout != []
    && (forall i :: 0 <= i < |layout| ==> IsLine(layout[i], width))
    && (forall i :: 0 <= i < |layout| - 1 ==> Breaks(layout[i], layout[i + 1], width))
  }

  /** After a part that fills the line there always is another line. */
  ghost predicate IsLayout(layout: seq<seq<Piece>>, width: int) {
    IsBroken(layout, width) && !IsFull(layout[|layout| - 1], width)
  }

  // ----- which pieces a section has -----

  /** A text as its words, each to be cut or not. */
  ghost function WordTokens(words: seq<string>): (tokens: seq<Piece>)
    ensures |tokens| == |words| && forall i :: 0 <= i < |words| ==> tokens[i] == Part(words[i], 0, |words[i]|)
  {
    if words == [] then [] else [Part(words[0], 0, |words[0]|)] + WordTokens(words[1..])
  }

  ghost function TokensOf(fragment: Fragment): seq<Piece> {
    match fragment
    case Code(code) => [Mark(code)]
    case Text(text) => if text == "" then [Gap] else WordTokens(Words(text))
  }

  ghost function Tokens(fragments: seq<Fragment>): seq<Piece> {
    if fragments == [] then [] else TokensOf(fragments[0]) + Tokens(fragments[1..])
  }

  /** The parts of a word, from some place on, one after the other up to its end. */
  ghost predicate IsChain(word: string, from: nat, parts: seq<Piece>)
    decreases |parts|
  {
    if parts == [] then from == |word|
    else
      && parts[0].Part? && parts[0].word == word && parts[0].from == from
      && from <= parts[0].to <= |word|
      && IsChain(word, parts[0].to, parts[1..])
  }

  /** Only a word longer than the width is cut. */
  ghost predicate IsCut(token: Piece, parts: seq<Piece>, width: int) {
    if token.Part? && |token.word| > width then parts != [] && IsChain(token.word, 0, parts) else parts == [token]
  }

  ghost predicate AreCut(tokens: seq<Piece>, parts: seq<seq<Piece>>, width: int) {
    |tokens| == |parts| && forall i :: 0 <= i < |tokens| ==> IsCut(tokens[i], parts[i], width)
  }

  ghost function Flat(lists: seq<seq<Piece>>): seq<Piece> {
    if lists == [] then [] else Flat(lists[..|lists| - 1]) + lists[|lists| - 1]
  }

  /** The layout holds the pieces of the section, in order. */
  ghost predicate LaysOut(layout: seq<seq<Piece>>, tokens: seq<Piece>, width: int) {
    IsLayout(layout, width) && exists parts :: AreCut(tokens, parts, width) && Flat(parts) == Flat(layout)
  }

  /** The lines are those of the layout, spaced; a last one without anything visible is left out. */
  ghost predicate Prints(lines: seq<Line>, layout: seq<seq<Piece>>) {
    && layout != []
    && |lines| == (if IsVisible(Spaced(layout[|layout| - 1])) then |layout| else |layout| - 1)
    && forall i :: 0 <= i < |lines| ==> lines[i] == Spaced(layout[i])
  }

  ghost predicate IsReflowed(lines: seq<Line>, fragments: seq<Fragment>, width: int) {
    exists layout :: LaysOut(layout, Tokens(fragments), width) && Prints(lines, layout)
  }

  // ----- lines -----

  lemma SpacedSnoc(before: seq<Piece>, p: Piece)
    ensures Spaced(before + [p])
            == if p.Mark? then Spaced(before) + [Esc(p.code)]
               else if p.Gap? then Spaced(before)
               else if IsVisible(Spaced(before)) && !EndsInMark(before) then Spaced(before) + [Ch(' ')] + PartCells(p)
               else Spaced(before) + PartCells(p)
  {
    assert (before + [p])[..|before|] == before;
  }

  lemma {:induction false} VisibleIsLong(line: Line)
    ensures IsVisible(line) <==> TextLength(line) > 0
  {
    if line != [] {
      VisibleIsLong(line[1..]);
      if IsVisible(line[1..]) {
        var i :| 0 <= i < |line[1..]| && line[1..][i].Ch?;
        assert line[i + 1].Ch?;
      }
      if IsVisible(line) {
        var i :| 0 <= i < |line| && line[i].Ch?;
        assert i > 0 ==> line[1..][i - 1].Ch?;
      }
    }
  }

  lemma LineGrows(line: seq<Piece>, p: Piece, width: int)
    requires IsLine(line, width) && !IsFull(line, width) && Stands(line, p, width)
    ensures IsLine(line + [p], width)
    ensures IsFull(line + [p], width) <==> Fills(line, p, width)
  {
    var more, n := line + [p], |line|;
    assert more[..n] == line;
    forall j | 0 <= j < n
      ensures Stands(more[..j], more[j], width) && !Fills(more[..j], more[j], width)
    {
      assert more[..j] == line[..j];
      assert j == n - 1 ==> !Fills(line[..j], line[j], width);
    }
  }

  lemma OnePiece(p: Piece, width: int)
    requires Stands([], p, width)
    ensures IsLine([p], width)
    ensures IsFull([p], width) <==> Fills([], p, width)
  {
    assert [] + [p] == [p];
    LineGrows([], p, width);
  }

  // ----- layouts -----

  ghost function Last(layout: seq<seq<Piece>>): seq<Piece>
    requires layout != []
  {
    layout[|layout| - 1]
  }

  /** One more piece on the last line. */
  ghost function ToLast(layout: seq<seq<Piece>>, p: Piece): seq<seq<Piece>>
    requires layout != []
  {
    layout[..|layout| - 1] + [Last(layout) + [p]]
  }

  lemma LastGrows(layout: seq<seq<Piece>>, p: Piece, width: int)
    requires IsLayout(layout, width) && Stands(Last(layout), p, width)
    ensures IsBroken(ToLast(layout, p), width)
    ensures IsFull(Last(ToLast(layout, p)), width) <==> Fills(Last(layout), p, width)
  {
    var n, more := |layout| - 1, ToLast(layout, p);
    LineGrows(layout[n], p, width);
    if n > 0 {
      assert Breaks(layout[n - 1], layout[n], width);
      assert layout[n] != [] ==> more[n][0] == layout[n][0];
    }
    forall i | 0 <= i < n
      ensures Breaks(more[i], more[i + 1], width)
    {
      assert Breaks(layout[i], layout[i + 1], width);
    }
  }

  lemma LayoutsJoin(a: seq<seq<Piece>>, b: seq<seq<Piece>>, width: int)
    requires IsBroken(a, width) && IsLayout(b, width) && Breaks(Last(a), b[0], width)
    ensures IsLayout(a + b, width)
  {
    var all := a + b;
    forall i | 0 <= i < |all| - 1
      ensures Breaks(all[i], all[i + 1], width)
    {
      if i < |a| - 1 {
        assert Breaks(a[i], a[i + 1], width);
      } else if i >= |a| {
        assert Breaks(b[i - |a|], b[i - |a| + 1], width);
      }
    }
  }

  lemma {:induction false} FlatConcat(a: seq<seq<Piece>>, b: seq<seq<Piece>>)
    ensures Flat(a + b) == Flat(a) + Flat(b)
    decreases |b|
  {
    if b == [] {
      assert a + b == a;
    } else {
      assert (a + b)[..|a + b| - 1] == a + b[..|b| - 1];
      FlatConcat(a, b[..|b| - 1]);
      ConcatAssoc(Flat(a), Flat(b[..|b| - 1]), b[|b| - 1]);
    }
  }

  lemma FlatOne(line: seq<Piece>)
    ensures Flat([line]) == line
  {
    assert [line][..0] == [];
  }

  lemma FlatToLast(layout: seq<seq<Piece>>, p: Piece)
    requires layout != []
    ensures Flat(ToLast(layout, p)) == Flat(layout) + [p]
  {
    var n := |layout| - 1;
    assert ToLast(layout, p)[..n] == layout[..n];
    ConcatAssoc(Flat(layout[..n]), layout[n], [p]);
  }

  // ----- what the code has laid out -----

  /** The layout prints as the lines written so far and the current one. */
  ghost predicate Describes(s: State, layout: seq<seq<Piece>>, width: int) {
    && IsLayout(layout, width)
    && |s.reflowed| == |layout| - 1
    && (forall i :: 0 <= i < |s.reflowed| ==> s.reflowed[i] == Spaced(layout[i]))
    && s.line == Spaced(Last(layout))
    && s.column == TextLength(s.line)
    && s.lastWasEscape == EndsInMark(Last(layout))
  }

  /** The blank the code adds is the blank of the layout. */
  lemma SpaceIsSpaced(s: State, layout: seq<seq<Piece>>, p: Piece, width: int)
    requires Describes(s, layout, width) && p.Part?
    ensures Spaced(Last(layout) + [p]) == s.line + Space(AddSpace(s.column, s.lastWasEscape)) + PartCells(p)
  {
    SpacedSnoc(Last(layout), p);
    VisibleIsLong(s.line);
    assert s.line + [] == s.line;
  }

  lemma WholeWord(word: string)
    ensures PartCells(Part(word, 0, |word|)) == Cells(word)
    ensures Spaced([Part(word, 0, |word|)]) == Cells(word)
  {
    assert word[0..|word|] == word;
    SpacedSnoc([], Part(word, 0, |word|));
    assert [] + [Part(word, 0, |word|)] == [Part(word, 0, |word|)];
  }

  lemma FittingWordLaid(s: State, layout: seq<seq<Piece>>, word: string, width: int)
    requires width > 0 && Describes(s, layout, width) && s.column + |word| <= width
    ensures Describes(AddWord(s, word, width), ToLast(layout, Part(word, 0, |word|)), width)
  {
    var p := Part(word, 0, |word|);
    LastGrows(layout, p, width);
    SpaceIsSpaced(s, layout, p, width);
    WholeWord(word);
    ReflowWidth.ShortWordCounted(s, word, width);
  }

  lemma BreakingWordLaid(s: State, layout: seq<seq<Piece>>, word: string, width: int)
    requires width > 0 && Describes(s, layout, width) && |word| <= width < s.column + |word|
    ensures Describes(AddWord(s, word, width), layout + [[Part(word, 0, |word|)]], width)
  {
    var p := Part(word, 0, |word|);
    assert IsLayout(layout + [[p]], width) by {
      OnePiece(p, width);
      LayoutsJoin(layout, [[p]], width);
    }
    WholeWord(word);
    LengthOfCells(word);
  }

  // ----- a word longer than the width -----

  /** The lines that hold a long word from some place on, the last of them with room left. */
  ghost function Chunks(word: string, from: nat, width: int): (lines: seq<seq<Piece>>)
    requires width > 0 && from <= |word|
    ensures lines != []
    decreases |word| - from
  {
    if from == |word| then [[]]
    else if |word| - from < width then [[Part(word, from, |word|)]]
    else [[Part(word, from, from + width)]] + Chunks(word, from + width, width)
  }

  lemma {:induction false} ChunksAreLayout(word: string, from: nat, width: int)
    requires 0 < width < |word| && from <= |word|
    ensures IsLayout(Chunks(word, from, width), width)
    decreases |word| - from
  {
    if |word| - from >= width {
      var p := Part(word, from, from + width);
      OnePiece(p, width);
      ChunksAreLayout(word, from + width, width);
      LayoutsJoin([[p]], Chunks(word, from + width, width), width);
    } else if from < |word| {
      OnePiece(Part(word, from, |word|), width);
    }
  }

  lemma SpacedPart(word: string, from: nat, to: nat)
    requires from <= to <= |word|
    ensures Spaced([Part(word, from, to)]) == Cells(word[from..to])
  {
    SpacedSnoc([], Part(word, from, to));
    assert [] + [Part(word, from, to)] == [Part(word, from, to)];
  }

  /** The lines print as full ones and what is left on the current line. */
  ghost predicate PrintAs(lines: seq<seq<Piece>>, full: seq<Line>, rest: Line) {
    && |lines| == |full| + 1
    && (forall i :: 0 <= i < |full| ==> full[i] == Spaced(lines[i]))
    && Spaced(Last(lines)) == rest && !EndsInMark(Last(lines))
  }

  lemma PrintOneMore(first: seq<Piece>, line: Line, lines: seq<seq<Piece>>, full: seq<Line>, rest: Line)
    requires line == Spaced(first) && PrintAs(lines, full, rest)
    ensures PrintAs([first] + lines, [line] + full, rest)
  {
  }

  lemma ChopStep(word: string, from: nat, width: int)
    requires width > 0 && from + width <= |word|
    ensures Chop(word[from..], width)
            == ([Cells(word[from..from + width])] + Chop(word[from + width..], width).0,
                Chop(word[from + width..], width).1)
  {
    assert word[from..][width..] == word[from + width..] && word[from..][..width] == word[from..from + width];
  }

  /** They print as the code cuts the word. */
  lemma {:induction false} ChunksPrint(word: string, from: nat, width: int)
    requires width > 0 && from <= |word|
    ensures var cut := Chop(word[from..], width);
            PrintAs(Chunks(word, from, width), cut.0, Cells(cut.1))
    decreases |word| - from
  {
    if |word| - from >= width {
      var cut := Chop(word[from + width..], width);
      ChunksPrint(word, from + width, width);
      SpacedPart(word, from, from + width);
      ChopStep(word, from, width);
      PrintOneMore([Part(word, from, from + width)], Cells(word[from..from + width]),
                   Chunks(word, from + width, width), cut.0, Cells(cut.1));
    } else if from < |word| {
      SpacedPart(word, from, |word|);
      assert word[from..] == word[from..|word|];
    }
  }

  /** Their pieces are the word from that place on. */
  lemma {:induction false} ChunksAreChain(word: string, from: nat, width: int)
    requires width > 0 && from <= |word|
    ensures IsChain(word, from, Flat(Chunks(word, from, width)))
    decreases |word| - from
  {
    if |word| - from >= width {
      var p, rest := Part(word, from, from + width), Chunks(word, from + width, width);
      ChunksAreChain(word, from + width, width);
      FlatConcat([[p]], rest);
      FlatOne([p]);
      assert ([p] + Flat(rest))[1..] == Flat(rest);
    } else if from < |word| {
      FlatOne([Part(word, from, |word|)]);
      assert [Part(word, from, |word|)][1..] == [];
    } else {
      FlatOne([]);
    }
  }

  /** The part of a long word that ends the current line. */
  ghost function CutPart(s: State, word: string, width: int): Piece {
    Part(word, 0, |Prefix(word, width - s.column)|)
  }

  lemma CutPartFills(s: State, layout: seq<seq<Piece>>, word: string, width: int)
    requires 0 < width < |word| && Describes(s, layout, width)
    ensures var p := CutPart(s, word, width);
            && IsBroken(ToLast(layout, p), width) && IsFull(Last(ToLast(layout, p)), width)
            && Spaced(Last(layout) + [p]) == CutLine(s, word, width)
  {
    var p := CutPart(s, word, width);
    LastGrows(layout, p, width);
    SpaceIsSpaced(s, layout, p, width);
    assert PartCells(p) == Cells(Prefix(word, width - s.column));
  }

  lemma LongWordLayout(s: State, layout: seq<seq<Piece>>, word: string, width: int)
    requires 0 < width < |word| && Describes(s, layout, width)
    ensures var p := CutPart(s, word, width);
            IsLayout(ToLast(layout, p) + Chunks(word, p.to, width), width)
  {
    var p := CutPart(s, word, width);
    CutPartFills(s, layout, word, width);
    ChunksAreLayout(word, p.to, width);
    LayoutsJoin(ToLast(layout, p), Chunks(word, p.to, width), width);
  }

  lemma LongWordLaid(s: State, layout: seq<seq<Piece>>, word: string, width: int)
    requires 0 < width < |word| && Describes(s, layout, width)
    ensures var p := CutPart(s, word, width);
            Describes(AddWord(s, word, width), ToLast(layout, p) + Chunks(word, p.to, width), width)
  {
    var p := CutPart(s, word, width);
    var chunks, cut := Chunks(word, p.to, width), Chop(word[p.to..], width);
    var r := AddWord(s, word, width);
    LongWordLayout(s, layout, word, width);
    CutPartFills(s, layout, word, width);
    ChunksPrint(word, p.to, width);
    LengthOfCells(cut.1);
    assert r.reflowed == s.reflowed + [CutLine(s, word, width)] + cut.0;
    LinesJoin(s.reflowed, layout[..|layout| - 1], CutLine(s, word, width), Last(layout) + [p], cut.0, chunks);
  }

  /** Lines written before, one line, and lines after it print as the layouts of these. */
  lemma LinesJoin(a: seq<Line>, la: seq<seq<Piece>>, line: Line, l: seq<Piece>, b: seq<Line>, lb: seq<seq<Piece>>)
    requires |a| == |la| && forall i :: 0 <= i < |a| ==> a[i] == Spaced(la[i])
    requires line == Spaced(l)
    requires |b| <= |lb| && forall i :: 0 <= i < |b| ==> b[i] == Spaced(lb[i])
    ensures var lines, layout := a + [line] + b, la + [l] + lb;
            forall i :: 0 <= i < |lines| ==> lines[i] == Spaced(layout[i])
  {
  }

  // ----- words and fragments -----

  /** One word: its parts come after everything laid out before. */
  lemma WordLaid(s: State, layout: seq<seq<Piece>>, word: string, width: int)
      returns (more: seq<seq<Piece>>, parts: seq<Piece>)
    requires width > 0 && Describes(s, layout, width)
    ensures Describes(AddWord(s, word, width), more, width)
    ensures Flat(more) == Flat(layout) + parts && IsCut(Part(word, 0, |word|), parts, width)
  {
    var whole := Part(word, 0, |word|);
    if |word| > width {
      LongWordLaid(s, layout, word, width);
      var p := CutPart(s, word, width);
      var chunks := Chunks(word, p.to, width);
      more, parts := ToLast(layout, p) + chunks, [p] + Flat(chunks);
      FlatConcat(ToLast(layout, p), chunks);
      FlatToLast(layout, p);
      ConcatAssoc(Flat(layout), [p], Flat(chunks));
      ChunksAreChain(word, p.to, width);
      assert ([p] + Flat(chunks))[1..] == Flat(chunks);
    } else if s.column + |word| <= width {
      FittingWordLaid(s, layout, word, width);
      FlatToLast(layout, whole);
      more, parts := ToLast(layout, whole), [whole];
    } else {
      BreakingWordLaid(s, layout, word, width);
      FlatConcat(layout, [[whole]]);
      FlatOne([whole]);
      more, parts := layout + [[whole]], [whole];
    }
  }

  /** The code has laid out these pieces so far. */
  ghost predicate HasLaid(s: State, layout: seq<seq<Piece>>, tokens: seq<Piece>, parts: seq<seq<Piece>>, width: int) {
    Describes(s, layout, width) && AreCut(tokens, parts, width) && Flat(parts) == Flat(layout)
  }

  lemma CutMore(tokens: seq<Piece>, parts: seq<seq<Piece>>, token: Piece, part: seq<Piece>, width: int)
    requires AreCut(tokens, parts, width) && IsCut(token, part, width)
    ensures AreCut(tokens + [token], parts + [part], width) && Flat(parts + [part]) == Flat(parts) + part
  {
    assert (parts + [part])[..|parts|] == parts;
  }

  lemma {:induction false} WordsLaid(s: State, layout: seq<seq<Piece>>, tokens: seq<Piece>, parts: seq<seq<Piece>>,
                                     words: seq<string>, width: int)
      returns (more: seq<seq<Piece>>, moreParts: seq<seq<Piece>>)
    requires width > 0 && HasLaid(s, layout, tokens, parts, width)
    ensures HasLaid(AddWords(s, words, width), more, tokens + WordTokens(words), moreParts, width)
    decreases |words|
  {
    if words == [] {
      assert tokens + [] == tokens;
      more, moreParts := layout, parts;
    } else {
      var token := Part(words[0], 0, |words[0]|);
      var laid, part := WordLaid(s, layout, words[0], width);
      CutMore(tokens, parts, token, part, width);
      more, moreParts := WordsLaid(AddWord(s, words[0], width), laid, tokens + [token], parts + [part], words[1..],
                                   width);
      ConcatAssoc(tokens, [token], WordTokens(words[1..]));
    }
  }

  lemma MarkOrGapLaid(s: State, layout: seq<seq<Piece>>, p: Piece, r: State, width: int)
    requires width > 0 && Describes(s, layout, width) && !p.Part?
    requires r == if p.Mark? then s.(line := s.line + [Esc(p.code)], lastWasEscape := true)
                  else s.(lastWasEscape := false)
    ensures Describes(r, ToLast(layout, p), width)
  {
    LastGrows(layout, p, width);
    SpacedSnoc(Last(layout), p);
    if p.Mark? {
      LengthConcat(s.line, [Esc(p.code)]);
    }
  }

  lemma FragmentLaid(s: State, layout: seq<seq<Piece>>, tokens: seq<Piece>, parts: seq<seq<Piece>>,
                     fragment: Fragment, width: int)
      returns (more: seq<seq<Piece>>, moreParts: seq<seq<Piece>>)
    requires width > 0 && HasLaid(s, layout, tokens, parts, width)
    ensures HasLaid(AddFragment(s, fragment, width), more, tokens + TokensOf(fragment), moreParts, width)
  {
    if fragment.Text? && fragment.text != "" {
      more, moreParts := WordsLaid(s, layout, tokens, parts, Words(fragment.text), width);
    } else {
      var p := if fragment.Code? then Mark(fragment.code) else Gap;
      MarkOrGapLaid(s, layout, p, AddFragment(s, fragment, width), width);
      FlatToLast(layout, p);
      CutMore(tokens, parts, p, [p], width);
      more, moreParts := ToLast(layout, p), parts + [[p]];
    }
  }

  lemma {:induction false} FragmentsLaid(s: State, layout: seq<seq<Piece>>, tokens: seq<Piece>,
                                         parts: seq<seq<Piece>>, fragments: seq<Fragment>, width: int)
      returns (more: seq<seq<Piece>>, moreParts: seq<seq<Piece>>)
    requires width > 0 && HasLaid(s, layout, tokens, parts, width)
    ensures HasLaid(AddFragments(s, fragments, width), more, tokens + Tokens(fragments), moreParts, width)
    decreases |fragments|
  {
    if fragments == [] {
      assert tokens + [] == tokens;
      more, moreParts := layout, parts;
    } else {
      more, moreParts := FragmentLaid(s, layout, tokens, parts, fragments[0], width);
      more, moreParts := FragmentsLaid(AddFragment(s, fragments[0], width), more, tokens + TokensOf(fragments[0]),
                                       moreParts, fragments[1..], width);
      ConcatAssoc(tokens, TokensOf(fragments[0]), Tokens(fragments[1..]));
    }
  }

  // ----- the main results -----

  lemma StartLaid(width: int)
    requires width > 0
    ensures HasLaid(START, [[]], [], [], width)
  {
    FlatOne([]);
  }

  /** The last line is written exactly when something on it is visible. */
  lemma FinishedPrints(s: State, layout: seq<seq<Piece>>, width: int)
    requires Describes(s, layout, width)
    ensures Prints(Finished(s), layout)
  {
    VisibleIsLong(s.line);
  }

  /**
   With a positive width the lines of a section are a layout of its words, escape codes and
   empty fragments, in order: see IsReflowed.
   */
  lemma SectionIsReflowed(fragments: seq<Fragment>, width: int)
    requires width > 0
    ensures IsReflowed(Section(fragments, width), fragments, width)
  {
    var s := AddFragments(START, fragments, width);
    StartLaid(width);
    var layout, parts := FragmentsLaid(START, [[]], [], [], fragments, width);
    assert [] + Tokens(fragments) == Tokens(fragments);
    FinishedPrints(s, layout, width);
    assert LaysOut(layout, Tokens(fragments), width);
  }

  ghost function AllLines(written: seq<seq<Line>>): seq<Line> {
    if written == [] then [] else AllLines(written[..|written| - 1]) + written[|written| - 1]
  }

  ghost predicate AreReflowed(written: seq<seq<Line>>, sections: seq<seq<Fragment>>, width: int) {
    |written| == |sections| && forall i :: 0 <= i < |sections| ==> IsReflowed(written[i], sections[i], width)
  }

  lemma ReflowedMore(written: seq<seq<Line>>, last: seq<Line>, sections: seq<seq<Fragment>>, width: int)
    requires sections != [] && AreReflowed(written, sections[..|sections| - 1], width)
    requires IsReflowed(last, sections[|sections| - 1], width)
    ensures AreReflowed(written + [last], sections, width) && AllLines(written + [last]) == AllLines(written) + last
  {
    assert (written + [last])[..|written|] == written;
    forall i | 0 <= i < |sections|
      ensures IsReflowed((written + [last])[i], sections[i], width)
    {
      assert i < |written| ==> sections[..|sections| - 1][i] == sections[i];
    }
  }

  /** The whole text is its sections so laid out, one after the other. */
  lemma {:induction false} SectionsAreReflowed(sections: seq<seq<Fragment>>, width: int)
      returns (written: seq<seq<Line>>)
    requires width > 0
    ensures AreReflowed(written, sections, width) && Sections(sections, width) == AllLines(written)
  {
    if sections == [] {
      written := [];
    } else {
      var n := |sections| - 1;
      var before := SectionsAreReflowed(sections[..n], width);
      var last := Section(sections[n], width);
      SectionIsReflowed(sections[n], width);
      ReflowedMore(before, last, sections, width);
      written := before + [last];
    }
  }
}
