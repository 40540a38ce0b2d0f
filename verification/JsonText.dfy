/**
 JavaScript strings as sequences of UTF-16 code units, and JSON.stringify of an
 array of strings (string escaping as in section 7 of RFC 8259; a surrogate that
 is not part of a pair is written as a \u escape).
 */
module JsonText {
  import opened Wrappers

  type Unit = u: int | 0 <= u < 0x1_0000
  type Text = seq<Unit>

  const QUOTE: Unit := 0x22
  const COMMA: Unit := 0x2C
  const OPEN: Unit := 0x5B
  const BACKSLASH: Unit := 0x5C
  const CLOSE: Unit := 0x5D
  const LETTER_U: Unit := 0x75

  predicate IsHigh(u: Unit) { 0xD800 <= u <= 0xDBFF }
  predicate IsLow(u: Unit) { 0xDC00 <= u <= 0xDFFF }

  function HexDigit(n: int): Unit
    requires 0 <= n < 16
  {
    if n < 10 then 0x30 + n else 0x57 + n
  }

  function HexEscape(u: Unit): Text {
    [BACKSLASH, LETTER_U, HexDigit(u / 4096), HexDigit(u / 256 % 16), HexDigit(u / 16 % 16), HexDigit(u % 16)]
  }

  function EscapeUnit(u: Unit): Text {
    if u == QUOTE || u == BACKSLASH then [BACKSLASH, u]
    else if u == 0x08 then [BACKSLASH, 0x62]
    else if u == 0x09 then [BACKSLASH, 0x74]
    else if u == 0x0A then [BACKSLASH, 0x6E]
    else if u == 0x0C then [BACKSLASH, 0x66]
    else if u == 0x0D then [BACKSLASH, 0x72]
    else if u < 0x20 || IsHigh(u) || IsLow(u) then HexEscape(u)
    else [u]
  }

  function Escape(s: Text): Text {
    if s == [] then []
    else if IsHigh(s[0]) && |s| > 1 && IsLow(s[1]) then [s[0]] + ([s[1]] + Escape(s[2..]))
    else EscapeUnit(s[0]) + Escape(s[1..])
  }

  /** The elements after the first one, and the closing bracket. */
  function StringifyRest(p: seq<Text>): Text {
    if p == [] then [CLOSE]
    else [COMMA, QUOTE] + (Escape(p[0]) + ([QUOTE] + StringifyRest(p[1..])))
  }

  /** JSON.stringify(p). */
  function Stringify(p: seq<Text>): Text {
    if p == [] then [OPEN, CLOSE]
    else [OPEN, QUOTE] + (Escape(p[0]) + ([QUOTE] + StringifyRest(p[1..])))
  }

  // ----- what is printed, unit by unit -----

  /** Printed as itself: no control character, quote or backslash (0x5C), and no surrogate. */
  ghost predicate IsPlain(u: Unit) {
    0x20 <= u && u != 0x22 && u != 0x5C && !(0xD800 <= u <= 0xDFFF)
  }

  lemma EscapeUnitIs(u: Unit)
    ensures IsPlain(u) <==> EscapeUnit(u) == [u]
    ensures u in {0x22, 0x5C} ==> EscapeUnit(u) == [0x5C, u]
    ensures u == 0x08 ==> EscapeUnit(u) == [0x5C, 0x62]
    ensures u == 0x09 ==> EscapeUnit(u) == [0x5C, 0x74]
    ensures u == 0x0A ==> EscapeUnit(u) == [0x5C, 0x6E]
    ensures u == 0x0C ==> EscapeUnit(u) == [0x5C, 0x66]
    ensures u == 0x0D ==> EscapeUnit(u) == [0x5C, 0x72]
    ensures !IsPlain(u) && u !in {0x22, 0x5C, 0x08, 0x09, 0x0A, 0x0C, 0x0D} ==>
              |EscapeUnit(u)| == 6 && EscapeUnit(u)[..2] == [0x5C, 0x75]
  {
  }

  ghost predicate IsPair(a: Unit, b: Unit) {
    0xD800 <= a <= 0xDBFF && 0xDC00 <= b <= 0xDFFF
  }

  /** A surrogate pair is printed as it is, and every other unit by itself. */
  lemma EscapeIs(u: Unit, s: Text)
    ensures s != [] && IsPair(u, s[0]) ==> Escape([u] + s) == [u, s[0]] + Escape(s[1..])
    ensures s == [] || !IsPair(u, s[0]) ==> Escape([u] + s) == EscapeUnit(u) + Escape(s)
  {
    assert ([u] + s)[1..] == s;
    if s != [] {
      assert ([u] + s)[2..] == s[1..];
      assert [u] + ([s[0]] + Escape(s[1..])) == [u, s[0]] + Escape(s[1..]);
    }
  }

  /** The escaped strings in quotes (0x22), with commas (0x2C) between them. */
  ghost function Listed(p: seq<Text>): Text {
    if p == [] then []
    else [0x22] + Escape(p[0]) + [0x22] + (if |p| == 1 then [] else [0x2C] + Listed(p[1..]))
  }

  lemma QuoteFirst(first: Unit, e: Text, tail: Text)
    ensures [first, 0x22] + (e + ([0x22] + (tail + [0x5D]))) == [first] + ([0x22] + e + [0x22] + tail) + [0x5D]
  {
  }

  lemma {:induction false} StringifyRestIs(p: seq<Text>)
    ensures StringifyRest(p) == (if p == [] then [] else [0x2C] + Listed(p)) + [0x5D]
  {
    if p != [] {
      StringifyRestIs(p[1..]);
      QuoteFirst(0x2C, Escape(p[0]), if |p| == 1 then [] else [0x2C] + Listed(p[1..]));
    }
  }

  /** An array prints as that list in brackets (0x5B and 0x5D). */
  lemma StringifyIs(p: seq<Text>)
    ensures Stringify(p) == [0x5B] + Listed(p) + [0x5D]
  {
    if p != [] {
      StringifyRestIs(p[1..]);
      QuoteFirst(0x5B, Escape(p[0]), if |p| == 1 then [] else [0x2C] + Listed(p[1..]));
    }
  }

  // ----- reading the text back -----

  function HexValue(u: Unit): Option<int> {
    if 0x30 <= u <= 0x39 then Some(u - 0x30)
    else if 0x61 <= u <= 0x66 then Some(u - 0x57)
    else None
  }

  function Unescaped(u: Unit): Option<Unit> {
    if u == QUOTE || u == BACKSLASH then Some(u)
    else if u == 0x62 then Some(0x08)
    else if u == 0x74 then Some(0x09)
    else if u == 0x6E then Some(0x0A)
    else if u == 0x66 then Some(0x0C)
    else if u == 0x72 then Some(0x0D)
    else None
  }

  /** Reads one character of a string literal: the unit it stands for and how many units of text it takes. */
  function ReadUnit(t: Text): (r: Option<(Unit, nat)>)
    ensures r.Some? ==> 0 < r.value.1 <= |t|
  {
    if t == [] || t[0] == QUOTE then None
    else if t[0] != BACKSLASH then Some((t[0], 1))
    else if |t| < 2 then None
    else if t[1] != LETTER_U then
      (match Unescaped(t[1]) case None => None case Some(u) => Some((u, 2)))
    else if |t| < 6 then None
    else
      match (HexValue(t[2]), HexValue(t[3]), HexValue(t[4]), HexValue(t[5]))
      case (Some(a), Some(b), Some(c), Some(d)) =>
        if a < 16 && b < 16 && c < 16 && d < 16 then Some((a * 4096 + b * 256 + c * 16 + d, 6)) else None
      case _ => None
  }

  /** Reads a string literal whose opening quote is gone: its value and the text after the closing quote. */
  function ReadString(t: Text): (r: Option<(Text, Text)>)
    ensures r.Some? ==> |r.value.1| < |t|
    decreases |t|
  {
    if t != [] && t[0] == QUOTE then Some(([], t[1..]))
    else
      match ReadUnit(t)
      case None => None
      case Some((u, n)) =>
        match ReadString(t[n..])
        case None => None
        case Some((s, rest)) => Some(([u] + s, rest))
  }

  function ParseRest(t: Text): Option<seq<Text>>
    decreases |t|
  {
    if t == [CLOSE] then Some([])
    else if |t| < 2 || t[0] != COMMA || t[1] != QUOTE then None
    else
      match ReadString(t[2..])
      case None => None
      case Some((s, rest)) =>
        match ParseRest(rest)
        case None => None
        case Some(p) => Some([s] + p)
  }

  function Parse(t: Text): Option<seq<Text>> {
    if t == [OPEN, CLOSE] then Some([])
    else if |t| < 2 || t[0] != OPEN || t[1] != QUOTE then None
    else
      match ReadString(t[2..])
      case None => None
      case Some((s, rest)) =>
        match ParseRest(rest)
        case None => None
        case Some(p) => Some([s] + p)
  }

  lemma HexReadBack(n: int)
    requires 0 <= n < 16
    ensures HexValue(HexDigit(n)) == Some(n)
    ensures HexDigit(n) != QUOTE && HexDigit(n) != BACKSLASH
  {
  }

  lemma HexDigits(u: Unit)
    ensures u / 4096 < 16
    ensures u / 4096 * 4096 + u / 256 % 16 * 256 + u / 16 % 16 * 16 + u % 16 == u
  {
    var a := u / 16;
    var b := a / 16;
    assert u == a * 16 + u % 16 && a == b * 16 + a % 16;
    assert u / 256 == b && u / 4096 == b / 16;
  }

  lemma ReadHexEscape(u: Unit, t: Text)
    ensures ReadUnit(HexEscape(u) + t) == Some((u, 6))
  {
    HexDigits(u);
    HexReadBack(u / 4096);
    HexReadBack(u / 256 % 16);
    HexReadBack(u / 16 % 16);
    HexReadBack(u % 16);
    var e := HexEscape(u) + t;
    assert e[0] == BACKSLASH && e[1] == LETTER_U;
    assert HexValue(e[2]) == Some(u / 4096) && HexValue(e[3]) == Some(u / 256 % 16);
    assert HexValue(e[4]) == Some(u / 16 % 16) && HexValue(e[5]) == Some(u % 16);
  }

  lemma ReadEscapedUnit(u: Unit, t: Text)
    ensures ReadUnit(EscapeUnit(u) + t) == Some((u, |EscapeUnit(u)|))
  {
    if EscapeUnit(u) == HexEscape(u) {
      ReadHexEscape(u, t);
    }
  }

  lemma ReadStringUnit(e: Text, u: Unit, t: Text)
    requires e != [] && e[0] != QUOTE && ReadUnit(e + t) == Some((u, |e|))
    ensures ReadString(e + t) == match ReadString(t)
                                 case None => None
                                 case Some((s, rest)) => Some(([u] + s, rest))
  {
    assert (e + t)[|e|..] == t;
  }

  /** One escaped unit in front of a literal that reads as `s`. */
  lemma ReadPrepended(u: Unit, s: Text, t: Text, rest: Text)
    requires ReadString(t) == Some((s, rest))
    ensures ReadString(EscapeUnit(u) + t) == Some(([u] + s, rest))
  {
    ReadEscapedUnit(u, t);
    ReadStringUnit(EscapeUnit(u), u, t);
  }

  /** A paired surrogate, written as it is. */
  lemma ReadRaw(u: Unit, s: Text, t: Text, rest: Text)
    requires u != QUOTE && u != BACKSLASH && ReadString(t) == Some((s, rest))
    ensures ReadString([u] + t) == Some(([u] + s, rest))
  {
    ReadStringUnit([u], u, t);
  }

  lemma AppendPair(a: Unit, b: Unit, e: Text, tail: Text)
    ensures [a] + ([b] + e) + tail == [a] + ([b] + (e + tail))
  {
  }

  lemma AppendOne(first: Text, e: Text, tail: Text)
    ensures first + e + tail == first + (e + tail)
  {
  }

  lemma {:induction false} ReadEscaped(s: Text, rest: Text)
    ensures ReadString(Escape(s) + ([QUOTE] + rest)) == Some((s, rest))
    decreases |s|
  {
    var tail := [QUOTE] + rest;
    if s == [] {
      assert Escape(s) + tail == tail;
    } else if IsHigh(s[0]) && |s| > 1 && IsLow(s[1]) {
      var t := Escape(s[2..]) + tail;
      AppendPair(s[0], s[1], Escape(s[2..]), tail);
      ReadEscaped(s[2..], rest);
      ReadRaw(s[1], s[2..], t, rest);
      ReadRaw(s[0], [s[1]] + s[2..], [s[1]] + t, rest);
      assert s == [s[0]] + ([s[1]] + s[2..]);
    } else {
      var t := Escape(s[1..]) + tail;
      AppendOne(EscapeUnit(s[0]), Escape(s[1..]), tail);
      ReadEscaped(s[1..], rest);
      ReadPrepended(s[0], s[1..], t, rest);
      assert s == [s[0]] + s[1..];
    }
  }

  lemma {:induction false} ParseRestStringified(p: seq<Text>)
    ensures ParseRest(StringifyRest(p)) == Some(p)
  {
    if p != [] {
      var t := StringifyRest(p);
      assert t[2..] == Escape(p[0]) + ([QUOTE] + StringifyRest(p[1..]));
      ReadEscaped(p[0], StringifyRest(p[1..]));
      ParseRestStringified(p[1..]);
      assert p == [p[0]] + p[1..];
    }
  }

  /** Reading the printed text gives back the array: any strings, lone surrogates included. */
  lemma {:induction false} ParseStringified(p: seq<Text>)
    ensures Parse(Stringify(p)) == Some(p)
  {
    if p != [] {
      var t := Stringify(p);
      assert t[2..] == Escape(p[0]) + ([QUOTE] + StringifyRest(p[1..]));
      ReadEscaped(p[0], StringifyRest(p[1..]));
      ParseRestStringified(p[1..]);
      assert p == [p[0]] + p[1..];
    }
  }

  // ----- quote parity -----

  /** Where a left-to-right scan of JSON text stands; Broken once a character is met that cannot occur there. */
  datatype Mode = Outside | Inside | Escaped | Broken

  function Step(m: Mode, u: Unit): Mode {
    match m
    case Outside => if u == QUOTE then Inside else if u == OPEN || u == CLOSE || u == COMMA then Outside else Broken
    case Inside => if u == QUOTE then Outside else if u == BACKSLASH then Escaped else Inside
    case Escaped => Inside
    case Broken => Broken
  }

  function Scan(m: Mode, t: Text): Mode
    decreases |t|
  {
    if t == [] then m else Scan(Step(m, t[0]), t[1..])
  }

  lemma {:induction false} ScanConcat(m: Mode, s: Text, t: Text)
    ensures Scan(m, s + t) == Scan(Scan(m, s), t)
    decreases |s|
  {
    if s == [] {
      assert s + t == t;
    } else {
      assert (s + t)[1..] == s[1..] + t;
      ScanConcat(Step(m, s[0]), s[1..], t);
    }
  }

  lemma {:induction false} BrokenStays(t: Text)
    ensures Scan(Broken, t) == Broken
  {
    if t != [] {
      BrokenStays(t[1..]);
    }
  }

  lemma ScanStep(m: Mode, u: Unit, t: Text)
    ensures Scan(m, [u] + t) == Scan(Step(m, u), t)
  {
    assert ([u] + t)[1..] == t;
  }

  /** Units that neither open nor close a literal nor start an escape. */
  lemma {:induction false} ScanPlain(t: Text)
    requires forall i :: 0 <= i < |t| ==> t[i] != QUOTE && t[i] != BACKSLASH
    ensures Scan(Inside, t) == Inside
    decreases |t|
  {
    if t != [] {
      ScanPlain(t[1..]);
    }
  }

  lemma ScanEscapedUnit(u: Unit)
    ensures Scan(Inside, EscapeUnit(u)) == Inside
    ensures Scan(Outside, EscapeUnit(u)) in {Outside, Broken}
  {
    var e := EscapeUnit(u);
    if e[0] == BACKSLASH {
      var t := e[2..];
      assert e == [BACKSLASH] + ([e[1]] + t);
      ScanStep(Inside, BACKSLASH, [e[1]] + t);
      ScanStep(Escaped, e[1], t);
      ScanPlain(t);
      ScanStep(Outside, BACKSLASH, [e[1]] + t);
      BrokenStays([e[1]] + t);
    } else {
      assert e == [u] + [];
      ScanStep(Inside, u, []);
      ScanStep(Outside, u, []);
    }
  }

  /** The inside of a literal never leaves it, and read as if outside it never enters one. */
  lemma {:induction false} ScanEscaped(s: Text)
    ensures Scan(Inside, Escape(s)) == Inside
    ensures Scan(Outside, Escape(s)) in {Outside, Broken}
    decreases |s|
  {
    if s == [] {
    } else if IsHigh(s[0]) && |s| > 1 && IsLow(s[1]) {
      ScanEscaped(s[2..]);
      var t := [s[1]] + Escape(s[2..]);
      assert ([s[0]] + t)[1..] == t && t[1..] == Escape(s[2..]);
      BrokenStays(t);
    } else {
      ScanEscapedUnit(s[0]);
      ScanEscaped(s[1..]);
      ScanConcat(Inside, EscapeUnit(s[0]), Escape(s[1..]));
      ScanConcat(Outside, EscapeUnit(s[0]), Escape(s[1..]));
      BrokenStays(Escape(s[1..]));
    }
  }

  /** One quoted element and what follows, scanned from the two possible modes. */
  lemma ScanQuoted(first: Unit, s: Text, rest: Text)
    requires first == OPEN || first == COMMA
    ensures var t := [first, QUOTE] + (Escape(s) + ([QUOTE] + rest));
            && Scan(Outside, t) == Scan(Outside, rest)
            && Scan(Inside, t) in {Broken, Scan(Inside, rest)}
  {
    var e := Escape(s);
    var tail := [QUOTE] + rest;
    assert [first, QUOTE] + (e + tail) == [first] + ([QUOTE] + (e + tail));
    forall m | m == Outside || m == Inside
      ensures Scan(m, [first, QUOTE] + (e + tail)) == Scan(Scan(Step(m, QUOTE), e), tail)
    {
      ScanStep(m, first, [QUOTE] + (e + tail));
      ScanStep(m, QUOTE, e + tail);
      ScanConcat(Step(m, QUOTE), e, tail);
    }
    ScanEscaped(s);
    ScanStep(Inside, QUOTE, rest);
    ScanStep(Outside, QUOTE, rest);
    BrokenStays(tail);
  }

  lemma {:induction false} ScanRest(p: seq<Text>)
    ensures Scan(Outside, StringifyRest(p)) == Outside
    ensures Scan(Inside, StringifyRest(p)) in {Inside, Broken}
  {
    if p != [] {
      ScanRest(p[1..]);
      ScanQuoted(COMMA, p[0], StringifyRest(p[1..]));
    }
  }

  /** Printed text closes every literal it opens; started inside a literal, it ends inside one or breaks. */
  lemma {:induction false} ScanStringified(p: seq<Text>)
    ensures Scan(Outside, Stringify(p)) == Outside
    ensures Scan(Inside, Stringify(p)) in {Inside, Broken}
  {
    if p == [] {
      assert Stringify(p) == [OPEN] + ([CLOSE] + []);
      forall m | m == Outside || m == Inside
        ensures Scan(m, Stringify(p)) == m
      {
        ScanStep(m, OPEN, [CLOSE] + []);
        ScanStep(m, CLOSE, []);
      }
    } else {
      ScanRest(p[1..]);
      ScanQuoted(OPEN, p[0], StringifyRest(p[1..]));
    }
  }
}
