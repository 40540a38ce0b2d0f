/** Absolute paths as lists of names, the text they print as, and the order that text sorts in. */
module Paths {
  import opened Strings

  /** The names from the root down; [] is the root itself. */
  type Path = seq<string>

  predicate IsName(name: string) {
    name != "" && Free(name, '/') && name != "." && name != ".."
  }

  predicate IsPath(p: Path) {
    forall i :: 0 <= i < |p| ==> IsName(p[i])
  }

  function Render(p: Path): string {
    "/" + Join(p, '/')
  }

  /** The root prints as a slash, and every name with a slash before it. */
  lemma RenderIs(p: Path, name: string)
    ensures Render([]) == "/"
    ensures Render(p + [name]) == (if p == [] then "" else Render(p)) + "/" + name
  {
    if p == [] {
      assert p + [name] == [name];
    } else {
      JoinSnoc(p, name, '/');
      ConcatAssoc("/", Join(p, '/') + ['/'], name);
      ConcatAssoc("/", Join(p, '/'), ['/']);
    }
  }

  lemma RenderInjective(p: Path, q: Path)
    requires IsPath(p) && IsPath(q) && Render(p) == Render(q)
    ensures p == q
  {
    assert Render(p)[1..] == Join(p, '/') && Render(q)[1..] == Join(q, '/');
    assert forall i :: 0 <= i < |p| ==> IsName(p[i]);
    assert forall i :: 0 <= i < |q| ==> IsName(q[i]);
    if p != [] && q != [] {
      JoinInjective(p, q, '/');
    }
  }

  // ----- the order of strings -----

  /** `a <= b` on strings: the first difference decides, and a prefix comes first. */
  predicate Leq(a: string, b: string) {
    a == "" || (b != "" && (a[0] < b[0] || (a[0] == b[0] && Leq(a[1..], b[1..]))))
  }

  /** The first difference of the two strings is at `i`, and there `a` is smaller. */
  ghost predicate SmallerAt(a: string, b: string, i: nat) {
    && i < |a| && i < |b| && a[i] < b[i]
    && forall k :: 0 <= k < i ==> a[k] == b[k]
  }

  lemma SmallerLater(a: string, b: string, i: nat)
    requires a != "" && b != "" && a[0] == b[0]
    ensures SmallerAt(a, b, i + 1) <==> SmallerAt(a[1..], b[1..], i)
  {
    if SmallerAt(a[1..], b[1..], i) {
      assert forall k :: 0 < k < i + 1 ==> a[k] == a[1..][k - 1] && b[k] == b[1..][k - 1];
    }
  }

  /** A string comes first exactly if it is a prefix or smaller at the first difference. */
  lemma {:induction false} LeqIs(a: string, b: string)
    ensures Leq(a, b) <==> a <= b || exists i :: SmallerAt(a, b, i)
  {
    if a != "" && b != "" {
      if a[0] == b[0] {
        LeqIs(a[1..], b[1..]);
        assert a <= b <==> a[1..] <= b[1..];
        if i: nat :| SmallerAt(a[1..], b[1..], i) {
          SmallerLater(a, b, i);
        }
        if i: nat :| SmallerAt(a, b, i) {
          SmallerLater(a, b, i - 1);
        }
      } else {
        assert a[0] < b[0] ==> SmallerAt(a, b, 0);
      }
    }
  }

  lemma {:induction false} LeqReflexive(a: string)
    ensures Leq(a, a)
  {
    if a != "" {
      LeqReflexive(a[1..]);
    }
  }

  lemma {:induction false} LeqTotal(a: string, b: string)
    ensures Leq(a, b) || Leq(b, a)
  {
    if a != "" && b != "" && a[0] == b[0] {
      LeqTotal(a[1..], b[1..]);
    }
  }

  lemma {:induction false} LeqAntisymmetric(a: string, b: string)
    requires Leq(a, b) && Leq(b, a)
    ensures a == b
  {
    if a != "" {
      LeqAntisymmetric(a[1..], b[1..]);
      assert a == [a[0]] + a[1..] && b == [b[0]] + b[1..];
    }
  }

  lemma {:induction false} LeqTransitive(a: string, b: string, c: string)
    requires Leq(a, b) && Leq(b, c)
    ensures Leq(a, c)
  {
    if a != "" && a[0] == b[0] == c[0] {
      LeqTransitive(a[1..], b[1..], c[1..]);
    }
  }

  lemma {:induction false} PrefixIsLeq(a: string, b: string)
    requires a <= b
    ensures Leq(a, b)
  {
    if a != "" {
      PrefixIsLeq(a[1..], b[1..]);
    }
  }

  // ----- the order of directories -----

  predicate DirLeq(p: Path, q: Path) {
    Leq(Render(p), Render(q))
  }

  /** Equal in the order means equal. */
  lemma DirLeqBoth(p: Path, q: Path)
    requires IsPath(p) && IsPath(q) && DirLeq(p, q) && DirLeq(q, p)
    ensures p == q
  {
    LeqAntisymmetric(Render(p), Render(q));
    RenderInjective(p, q);
  }

  lemma DirLeqTransitive(p: Path, q: Path, r: Path)
    requires DirLeq(p, q) && DirLeq(q, r)
    ensures DirLeq(p, r)
  {
    LeqTransitive(Render(p), Render(q), Render(r));
  }

  lemma DirLeqTotal(p: Path, q: Path)
    ensures DirLeq(p, q) || DirLeq(q, p)
  {
    LeqTotal(Render(p), Render(q));
  }

  lemma DirLeqReflexive(p: Path)
    ensures DirLeq(p, p)
  {
    LeqReflexive(Render(p));
  }

  lemma {:induction false} JoinPrefix(p: Path, q: Path)
    requires p <= q
    ensures Join(p, '/') <= Join(q, '/')
    decreases |p|
  {
    if |p| > 1 {
      JoinPrefix(p[1..], q[1..]);
      assert p[0] == q[0] && p[1..] <= q[1..];
    }
  }

  /** A directory sorts before everything below it. */
  lemma AncestorFirst(p: Path, q: Path)
    requires p <= q
    ensures DirLeq(p, q)
  {
    JoinPrefix(p, q);
    PrefixIsLeq(Render(p), Render(q));
  }

  // ----- path.relative -----

  function CommonPrefix(a: Path, b: Path): (n: nat)
    ensures n <= |a| && n <= |b|
  {
    if a == [] || b == [] || a[0] != b[0] then 0 else 1 + CommonPrefix(a[1..], b[1..])
  }

  function Ups(n: nat): Path {
    if n == 0 then [] else [".."] + Ups(n - 1)
  }

  /** path.relative(from, to), as names. */
  function Relative(from: Path, to: Path): Path {
    var n := CommonPrefix(from, to);
    Ups(|from| - n) + to[n..]
  }

  /** The printed relative path starts with "../". */
  predicate StartsUp(p: Path) {
    |p| >= 2 && p[0] == ".."
  }

  lemma {:induction false} UpsFirst(n: nat)
    ensures |Ups(n)| == n && (n > 0 ==> Ups(n)[0] == "..")
  {
    if n > 0 {
      UpsFirst(n - 1);
    }
  }

  lemma {:induction false} CommonPrefixWhole(a: Path, b: Path)
    ensures CommonPrefix(a, b) == |a| <==> a <= b
    ensures CommonPrefix(a, b) == |b| <==> b <= a
  {
    if a != [] && b != [] && a[0] == b[0] {
      CommonPrefixWhole(a[1..], b[1..]);
    }
  }

  /**
   For a file that is no directory above `from`: the relative path does not climb exactly when
   the file lies below `from`.
   */
  lemma RelativeBelow(from: Path, to: Path)
    requires IsPath(to) && !(to <= from)
    ensures !StartsUp(Relative(from, to)) <==> from <= to
  {
    var n := CommonPrefix(from, to);
    CommonPrefixWhole(from, to);
    UpsFirst(|from| - n);
    if n == |from| {
      assert Ups(0) + to[n..] == to[n..];
      assert IsName(to[n]);
    } else {
      assert Relative(from, to)[0] == Ups(|from| - n)[0];
    }
  }

  /** Where a relative path leads to: ".." goes up, any other name down. */
  ghost function Follow(from: Path, rel: Path): Path
    decreases |rel|
  {
    if rel == [] then from
    else if rel[0] == ".." then Follow(if from == [] then [] else from[..|from| - 1], rel[1..])
    else Follow(from + [rel[0]], rel[1..])
  }

  lemma {:induction false} FollowUps(from: Path, n: nat, rest: Path)
    requires n <= |from|
    ensures Follow(from, Ups(n) + rest) == Follow(from[..|from| - n], rest)
    decreases n
  {
    if n == 0 {
      assert [] + rest == rest;
      TakeAll(from);
    } else {
      var up := from[..|from| - 1];
      assert (Ups(n) + rest)[1..] == Ups(n - 1) + rest;
      FollowUps(up, n - 1, rest);
      assert up[..|up| - (n - 1)] == from[..|from| - n];
    }
  }

  lemma {:induction false} FollowNames(from: Path, names: Path)
    requires IsPath(names)
    ensures Follow(from, names) == from + names
    decreases |names|
  {
    if names == [] {
      assert from + names == from;
    } else {
      assert IsName(names[0]);
      assert IsPath(names[1..]);
      FollowNames(from + [names[0]], names[1..]);
      assert from + [names[0]] + names[1..] == from + names;
    }
  }

  lemma {:induction false} CommonPrefixIsCommon(a: Path, b: Path)
    ensures a[..CommonPrefix(a, b)] == b[..CommonPrefix(a, b)]
  {
    if a != [] && b != [] && a[0] == b[0] {
      CommonPrefixIsCommon(a[1..], b[1..]);
      var n := CommonPrefix(a[1..], b[1..]);
      assert a[..n + 1] == [a[0]] + a[1..][..n] && b[..n + 1] == [b[0]] + b[1..][..n];
    }
  }

  /** Followed from where it starts, a relative path leads to where it should. */
  lemma RelativeLeads(from: Path, to: Path)
    requires IsPath(to)
    ensures Follow(from, Relative(from, to)) == to
  {
    var n := CommonPrefix(from, to);
    CommonPrefixIsCommon(from, to);
    FollowUps(from, |from| - n, to[n..]);
    FollowNames(from[..n], to[n..]);
    assert to[..n] + to[n..] == to;
  }
}
