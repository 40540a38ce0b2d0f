/** Splitting a string at a separator and joining the parts again, and a few laws of sequences. */
module Strings {

  predicate Free(part: string, sep: char) {
    sep !in part
  }

  predicate AllFree(parts: seq<string>, sep: char) {
    forall i :: 0 <= i < |parts| ==> Free(parts[i], sep)
  }

  function Split(s: string, sep: char): (r: seq<string>)
    ensures r != []
  {
    if s == "" then [""]
    else
      var rest := Split(s[1..], sep);
      if s[0] == sep then [""] + rest else [[s[0]] + rest[0]] + rest[1..]
  }

  function Join(parts: seq<string>, sep: char): string {
    if parts == [] then ""
    else if |parts| == 1 then parts[0]
    else parts[0] + [sep] + Join(parts[1..], sep)
  }

  lemma {:induction false} SplitIsFree(s: string, sep: char)
    ensures AllFree(Split(s, sep), sep)
  {
    if s != "" {
      SplitIsFree(s[1..], sep);
      var rest := Split(s[1..], sep);
      assert Free(rest[0], sep);
    }
  }

  lemma {:induction false} JoinSplit(s: string, sep: char)
    ensures Join(Split(s, sep), sep) == s
  {
    if s != "" {
      JoinSplit(s[1..], sep);
      var rest := Split(s[1..], sep);
      if s[0] == sep {
        assert ([""] + rest)[1..] == rest;
        assert "" + [sep] + Join(rest, sep) == s;
      } else {
        var parts := [[s[0]] + rest[0]] + rest[1..];
        assert parts[1..] == rest[1..];
        if |rest| > 1 {
          assert [s[0]] + rest[0] + [sep] + Join(rest[1..], sep) == [s[0]] + (rest[0] + [sep] + Join(rest[1..], sep));
        }
        assert s == [s[0]] + s[1..];
      }
    }
  }

  lemma {:induction false} SplitPart(part: string, rest: string, sep: char)
    requires Free(part, sep)
    ensures Split(part + [sep] + rest, sep) == [part] + Split(rest, sep)
    ensures Split(part, sep) == [part]
    decreases |part|
  {
    if part != "" {
      assert (part + [sep] + rest)[1..] == part[1..] + [sep] + rest;
      SplitPart(part[1..], rest, sep);
      assert [part[0]] + part[1..] == part;
    } else {
      assert (part + [sep] + rest)[1..] == rest;
    }
  }

  lemma {:induction false} SplitJoin(parts: seq<string>, sep: char)
    requires parts != [] && AllFree(parts, sep)
    ensures Split(Join(parts, sep), sep) == parts
    decreases |parts|
  {
    assert Free(parts[0], sep);
    if |parts| == 1 {
      SplitPart(parts[0], "", sep);
    } else {
      SplitJoin(parts[1..], sep);
      SplitPart(parts[0], Join(parts[1..], sep), sep);
      assert parts == [parts[0]] + parts[1..];
    }
  }

  /** The parts have no characters but those of the string. */
  lemma {:induction false} SplitKeepsFree(s: string, sep: char, c: char)
    requires Free(s, c)
    ensures AllFree(Split(s, sep), c)
  {
    if s != "" {
      SplitKeepsFree(s[1..], sep, c);
      assert Free(Split(s[1..], sep)[0], c);
    }
  }

  /** Different lists of separator-free parts join to different strings. */
  lemma JoinInjective(p: seq<string>, q: seq<string>, sep: char)
    requires p != [] && q != [] && AllFree(p, sep) && AllFree(q, sep) && Join(p, sep) == Join(q, sep)
    ensures p == q
  {
    SplitJoin(p, sep);
    SplitJoin(q, sep);
  }

  /** Joining one more part at the end. */
  lemma {:induction false} JoinSnoc(parts: seq<string>, part: string, sep: char)
    requires parts != []
    ensures Join(parts + [part], sep) == Join(parts, sep) + [sep] + part
    decreases |parts|
  {
    assert (parts + [part])[1..] == parts[1..] + [part];
    if |parts| > 1 {
      JoinSnoc(parts[1..], part, sep);
      var head := parts[0] + [sep];
      assert head + (Join(parts[1..], sep) + [sep] + part) == head + Join(parts[1..], sep) + [sep] + part;
    }
  }

  /** Positions in a list of `n` elements, each after the one before. */
  ghost predicate Ascending(at: seq<nat>, n: nat) {
    && (forall k :: 0 <= k < |at| ==> at[k] < n)
    && (forall k, l :: 0 <= k < l < |at| ==> at[k] < at[l])
  }

  lemma TakeAll<T>(s: seq<T>)
    ensures s[..|s|] == s
  {
  }

  lemma TakeSnoc<T>(s: seq<T>, i: nat)
    requires i < |s|
    ensures s[..i + 1] == s[..i] + [s[i]]
  {
  }

  lemma DropFirst<T>(a: seq<T>, b: seq<T>, c: seq<T>)
    ensures (a + b + c)[|a|..] == b + c
  {
  }

  lemma ConcatAssoc<T>(a: seq<T>, b: seq<T>, c: seq<T>)
    ensures (a + b) + c == a + (b + c)
  {
  }

  function Reversed<T>(s: seq<T>): (r: seq<T>)
    ensures |r| == |s| && forall i :: 0 <= i < |s| ==> r[i] == s[|s| - 1 - i]
  {
    if s == [] then [] else Reversed(s[1..]) + [s[0]]
  }

  lemma ReversedTwice<T>(s: seq<T>)
    ensures Reversed(Reversed(s)) == s
  {
  }

  lemma InLast<T>(s: seq<T>, x: T)
    requires s != []
    ensures x in s <==> x in s[..|s| - 1] || x == s[|s| - 1]
  {
    TakeSnoc(s, |s| - 1);
    TakeAll(s);
  }

  predicate EndsWith(s: string, suffix: string) {
    |suffix| <= |s| && s[|s| - |suffix|..] == suffix
  }

  lemma EndsWithIs(s: string, suffix: string)
    ensures EndsWith(s, suffix) <==> exists before :: s == before + suffix
  {
    if EndsWith(s, suffix) {
      assert s == s[..|s| - |suffix|] + suffix;
    }
    if before :| s == before + suffix {
      assert s[|s| - |suffix|..] == suffix;
    }
  }

  lemma SuffixReachesSeparator(before: string, last: string, sep: char, suffix: string)
    requires EndsWith(before + [sep] + last, suffix)
    ensures EndsWith(last, suffix) || sep in suffix
  {
    var s := before + [sep] + last;
    if |suffix| <= |last| {
      assert s[|s| - |suffix|..] == last[|last| - |suffix|..];
    } else {
      assert s[|before|] == suffix[|before| - (|s| - |suffix|)];
    }
  }

  /** A suffix without the separator can only lie in the last part. */
  lemma EndsWithLast(before: string, last: string, sep: char, suffix: string)
    requires Free(suffix, sep)
    ensures EndsWith(before + [sep] + last, suffix) <==> EndsWith(last, suffix)
  {
    var s := before + [sep] + last;
    if EndsWith(s, suffix) {
      SuffixReachesSeparator(before, last, sep, suffix);
    }
    if EndsWith(last, suffix) {
      assert s[|s| - |suffix|..] == last[|last| - |suffix|..];
    }
  }

  lemma LastPart(a: string, x: string, b: string, y: string, sep: char)
    requires a + [sep] + x == b + [sep] + y
    ensures x == y || sep in x || sep in y
  {
    var s, t := a + [sep] + x, b + [sep] + y;
    if |a| < |b| {
      assert s[|b|] == t[|b|] == sep && s[|b|] == x[|b| - |a| - 1];
    } else if |a| > |b| {
      assert t[|a|] == s[|a|] == sep && t[|a|] == y[|a| - |b| - 1];
    } else {
      assert s[|a| + 1..] == x && t[|b| + 1..] == y;
    }
  }

  /** A suffix that starts with the separator is the whole last part. */
  lemma EndsWithWhole(before: string, last: string, sep: char, name: string)
    requires Free(last, sep) && Free(name, sep)
    ensures EndsWith(before + [sep] + last, [sep] + name) <==> last == name
  {
    var s, suffix := before + [sep] + last, [sep] + name;
    if EndsWith(s, suffix) {
      var front := s[..|s| - |suffix|];
      assert s == front + s[|s| - |suffix|..] == front + [sep] + name;
      LastPart(before, last, front, name, sep);
    }
    if last == name {
      assert s == before + suffix;
    }
  }
}
