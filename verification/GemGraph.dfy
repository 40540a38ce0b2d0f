/**
 The dependency graph of a parsed Gemfile.lock, and the reducer of
 src/lib/plugins/rubygems/gemfile-lock-to-dependencies.js with its memo table
 taken away: a plain recursive unfolding.  Everything here is about that plain
 form; module GemReducer shows that the code with the table computes the same.
 */
module GemGraph {
  import Strings
  import opened Wrappers

  /** One entry of `lockFile.specs`: its version, and all its keys in order ("version" included). */
  datatype Spec = Spec(version: string, keys: seq<string>)

  type Specs = map<string, Spec>

  /** A finished dependency tree. */
  datatype Tree = Tree(name: string, version: string, children: seq<Tree>)

  /** The error thrown by detectCycles, with its `meta`. */
  datatype Cycle = Cycle(dep: string, chain: seq<string>)

  function DepNames(keys: seq<string>): seq<string> {
    if keys == [] then []
    else if keys[0] == "version" then DepNames(keys[1..])
    else [keys[0]] + DepNames(keys[1..])
  }

  function Next(specs: Specs, n: string): seq<string>
    requires n in specs
  {
    DepNames(specs[n].keys)
  }

  /** The names that end up as keys of the reduced object: known ones, by first occurrence. */
  function Kept(specs: Specs, names: seq<string>): seq<string> {
    if names == [] then []
    else
      var r := Kept(specs, names[..|names| - 1]);
      var n := names[|names| - 1];
      if n in specs && n !in r then r + [n] else r
  }

  ghost predicate Distinct(s: seq<string>) {
    forall i, j :: 0 <= i < j < |s| ==> s[i] != s[j]
  }

  lemma {:induction false} DepNamesMembers(keys: seq<string>, n: string)
    ensures n in DepNames(keys) <==> n in keys && n != "version"
  {
    if keys != [] {
      DepNamesMembers(keys[1..], n);
    }
  }

  /** The dependency names stand in the order of the keys: those of the first keys, then those of the others. */
  lemma {:induction false} DepNamesConcat(keys: seq<string>, more: seq<string>)
    ensures DepNames(keys + more) == DepNames(keys) + DepNames(more)
  {
    if keys == [] {
      assert keys + more == more;
    } else {
      assert (keys + more)[1..] == keys[1..] + more;
      DepNamesConcat(keys[1..], more);
    }
  }

  /** Each key other than "version" gives one name, itself. */
  lemma DepNamesOne(key: string)
    ensures DepNames([key]) == if key == "version" then [] else [key]
  {
    assert [key][1..] == [];
  }

  /** The known names stand in the order in which they first occur. */
  lemma {:induction false} KeptInOrder(specs: Specs, names: seq<string>) returns (at: seq<nat>)
    ensures Strings.Ascending(at, |names|) && |at| == |Kept(specs, names)|
    ensures forall k :: 0 <= k < |at| ==> names[at[k]] == Kept(specs, names)[k] && names[at[k]] !in names[..at[k]]
  {
    at := [];
    if names != [] {
      var n := |names| - 1;
      at := KeptInOrder(specs, names[..n]);
      forall k | 0 <= k < |at|
        ensures names[..n][..at[k]] == names[..at[k]]
      {
      }
      KeptMembers(specs, names[..n], names[n]);
      if names[n] in specs && names[n] !in names[..n] {
        at := at + [n];
      }
    }
  }

  lemma {:induction false} KeptMembers(specs: Specs, names: seq<string>, n: string)
    ensures n in Kept(specs, names) <==> n in names && n in specs
  {
    if names != [] {
      KeptMembers(specs, names[..|names| - 1], n);
      assert names == names[..|names| - 1] + [names[|names| - 1]];
    }
  }

  lemma {:induction false} KeptDistinct(specs: Specs, names: seq<string>)
    ensures Distinct(Kept(specs, names))
  {
    if names != [] {
      KeptDistinct(specs, names[..|names| - 1]);
    }
  }

  lemma KeptSnoc(specs: Specs, names: seq<string>, n: string)
    ensures n in specs && n !in Kept(specs, names) ==> Kept(specs, names + [n]) == Kept(specs, names) + [n]
    ensures n !in specs || n in Kept(specs, names) ==> Kept(specs, names + [n]) == Kept(specs, names)
  {
    assert (names + [n])[..|names|] == names;
  }

  // ----- the reducer without its table -----

  ghost function Names(s: seq<string>): set<string> {
    set n | n in s
  }

  /** How many specs are not on the ancestor chain yet. */
  ghost function Room(specs: Specs, ancestors: seq<string>): nat {
    |specs.Keys - Names(ancestors)|
  }

  lemma RoomShrinks(specs: Specs, ancestors: seq<string>, n: string)
    requires n in specs && n !in ancestors
    ensures Room(specs, ancestors + [n]) < Room(specs, ancestors)
  {
    var before := specs.Keys - Names(ancestors);
    var after := specs.Keys - Names(ancestors + [n]);
    assert n in before && n !in after;
    assert after <= before - {n};
    Subset(after, before - {n});
  }

  lemma Subset<T>(a: set<T>, b: set<T>)
    requires a <= b
    ensures |a| <= |b|
  {
    if a != {} {
      var x :| x in a;
      Subset(a - {x}, b - {x});
    }
  }

  function Naive(specs: Specs, n: string, ancestors: seq<string>): (r: Result<Tree, Cycle>)
    requires n in specs
    decreases Room(specs, ancestors), 0, 0
  {
    if n in ancestors then Err(Cycle(n, ancestors))
    else
      RoomShrinks(specs, ancestors, n);
      match NaiveAll(specs, Next(specs, n), ancestors + [n])
      case Err(e) => Err(e)
      case Ok(cs) => Ok(Tree(n, specs[n].version, cs))
  }

  /** Array.prototype.reduce: the names are handled from the first to the last. */
  function NaiveAll(specs: Specs, names: seq<string>, ancestors: seq<string>): (r: Result<seq<Tree>, Cycle>)
    ensures r.Ok? ==> |r.value| == |Kept(specs, names)|
    ensures r.Ok? ==> forall i :: 0 <= i < |r.value| ==> r.value[i].name == Kept(specs, names)[i]
    decreases Room(specs, ancestors), 1, |names|
  {
    if names == [] then Ok([])
    else
      var before := NaiveAll(specs, names[..|names| - 1], ancestors);
      var n := names[|names| - 1];
      if before.Err? || n !in specs then before
      else
        match Naive(specs, n, ancestors)
        case Err(e) => Err(e)
        case Ok(t) =>
          if n in Kept(specs, names[..|names| - 1]) then before  // the key is written again, with the same value
          else Ok(before.value + [t])
  }

  // ----- what the unfolding means -----

  /** `t` is the finite unfolding of `n`: a child for every known dependency, in order. */
  ghost predicate Unfolds(specs: Specs, n: string, t: Tree)
    decreases t
  {
    && n in specs
    && t.name == n
    && t.version == specs[n].version
    && |t.children| == |Kept(specs, DepNames(specs[n].keys))|
    && forall i :: 0 <= i < |t.children| ==> Unfolds(specs, Kept(specs, DepNames(specs[n].keys))[i], t.children[i])
  }

  ghost predicate AllUnfold(specs: Specs, names: seq<string>, ts: seq<Tree>) {
    && |ts| == |Kept(specs, names)|
    && forall i :: 0 <= i < |ts| ==> Unfolds(specs, Kept(specs, names)[i], ts[i])
  }

  /** A path in the graph, through names present in `specs`. */
  ghost predicate IsPath(specs: Specs, p: seq<string>) {
    && p != []
    && (forall i :: 0 <= i < |p| ==> p[i] in specs)
    && (forall i :: 0 < i < |p| ==> p[i] in DepNames(specs[p[i - 1]].keys))
  }

  ghost predicate Repeats(p: seq<string>) {
    exists i, j :: 0 <= i < j < |p| && p[i] == p[j]
  }

  /** Some root dependency can reach a cycle through names present in `specs`. */
  ghost predicate ReachesCycle(specs: Specs, roots: seq<string>) {
    exists p :: IsPath(specs, p) && p[0] in roots && Repeats(p)
  }

  lemma {:induction false} UnfoldsUnique(specs: Specs, n: string, t: Tree, u: Tree)
    requires Unfolds(specs, n, t) && Unfolds(specs, n, u)
    ensures t == u
    decreases t
  {
    forall i | 0 <= i < |t.children|
      ensures t.children[i] == u.children[i]
    {
      UnfoldsUnique(specs, Kept(specs, Next(specs, n))[i], t.children[i], u.children[i]);
    }
    assert t.children == u.children;
  }

  lemma {:induction false} NaiveUnfolds(specs: Specs, n: string, ancestors: seq<string>)
    requires n in specs && Naive(specs, n, ancestors).Ok?
    ensures Unfolds(specs, n, Naive(specs, n, ancestors).value)
    decreases Room(specs, ancestors), 0, 0
  {
    RoomShrinks(specs, ancestors, n);
    NaiveAllUnfolds(specs, Next(specs, n), ancestors + [n]);
  }

  lemma {:induction false} NaiveAllUnfolds(specs: Specs, names: seq<string>, ancestors: seq<string>)
    requires NaiveAll(specs, names, ancestors).Ok?
    ensures AllUnfold(specs, names, NaiveAll(specs, names, ancestors).value)
    decreases Room(specs, ancestors), 1, |names|
  {
    if names != [] {
      NaiveAllUnfolds(specs, names[..|names| - 1], ancestors);
      var n := names[|names| - 1];
      if n in specs {
        NaiveUnfolds(specs, n, ancestors);
      }
    }
  }

  /** Along a path out of an unfolded name, every later name unfolds to a smaller tree. */
  lemma {:induction false} PathShrinks(specs: Specs, p: seq<string>, t: Tree) returns (u: Tree)
    requires IsPath(specs, p) && Unfolds(specs, p[0], t)
    ensures Unfolds(specs, p[|p| - 1], u)
    ensures |p| > 1 ==> u < t
    ensures |p| == 1 ==> u == t
    decreases |p|
  {
    if |p| == 1 {
      u := t;
    } else {
      var q := p[..|p| - 1];
      var v := PathShrinks(specs, q, t);
      var last := p[|p| - 1];
      assert p[|p| - 1] in Next(specs, p[|p| - 2]);
      var kids := Kept(specs, Next(specs, q[|q| - 1]));
      KeptMembers(specs, Next(specs, q[|q| - 1]), last);
      var i :| 0 <= i < |kids| && kids[i] == last;
      u := v.children[i];
      assert u < v;
    }
  }

  lemma SubPath(specs: Specs, p: seq<string>, i: nat, j: nat)
    requires IsPath(specs, p) && i < j <= |p|
    ensures IsPath(specs, p[i..j])
  {
    var q := p[i..j];
    forall k | 0 < k < |q| ensures q[k] in Next(specs, q[k - 1]) {
      assert q[k] == p[i + k] && q[k - 1] == p[i + k - 1];
    }
  }

  /** No name on a path back to itself has a finite unfolding. */
  lemma {:induction false} LoopHasNoUnfolding(specs: Specs, p: seq<string>, t: Tree)
    requires IsPath(specs, p) && |p| > 1 && p[0] == p[|p| - 1]
    ensures !Unfolds(specs, p[0], t)
  {
    if Unfolds(specs, p[0], t) {
      var u := PathShrinks(specs, p, t);
      UnfoldsUnique(specs, p[0], t, u);
      assert false;
    }
  }

  /** A name with a finite unfolding cannot reach a cycle. */
  lemma {:induction false} UnfoldedIsAcyclic(specs: Specs, p: seq<string>, t: Tree)
    requires IsPath(specs, p) && Unfolds(specs, p[0], t)
    ensures !Repeats(p)
  {
    forall i, j | 0 <= i < j < |p|
      ensures p[i] != p[j]
    {
      var there, back := p[0..i + 1], p[i..j + 1];
      SubPath(specs, p, 0, i + 1);
      SubPath(specs, p, i, j + 1);
      assert there[0] == p[0] && there[|there| - 1] == p[i];
      var u := PathShrinks(specs, there, t);
      assert back[0] == p[i] && back[|back| - 1] == p[j];
      if p[i] == p[j] {
        LoopHasNoUnfolding(specs, back, u);
      }
    }
  }

  ghost predicate IsWitness(specs: Specs, names: seq<string>, ancestors: seq<string>, e: Cycle) {
    && ancestors <= e.chain
    && IsPath(specs, e.chain + [e.dep])
    && (e.chain + [e.dep])[|ancestors|] in names
    && e.dep in e.chain
  }

  ghost predicate Extends(specs: Specs, ancestors: seq<string>, n: string) {
    ancestors == [] || (IsPath(specs, ancestors) && n in Next(specs, ancestors[|ancestors| - 1]))
  }

  /** The error carries a real cycle: its chain is a path from a root back to a name on it. */
  lemma {:induction false} NaiveErrs(specs: Specs, n: string, ancestors: seq<string>)
    requires n in specs && Extends(specs, ancestors, n)
    requires Naive(specs, n, ancestors).Err?
    ensures IsWitness(specs, [n], ancestors, Naive(specs, n, ancestors).error)
    decreases Room(specs, ancestors), 0, 0
  {
    var chain := ancestors + [n];
    assert IsPath(specs, chain);
    if n !in ancestors {
      RoomShrinks(specs, ancestors, n);
      NaiveAllErrs(specs, Next(specs, n), chain);
      var e := Naive(specs, n, ancestors).error;
      assert chain <= e.chain;
      assert e.chain[|ancestors|] == n;
    }
  }

  lemma {:induction false} NaiveAllErrs(specs: Specs, names: seq<string>, ancestors: seq<string>)
    requires forall n :: n in names ==> Extends(specs, ancestors, n)
    requires NaiveAll(specs, names, ancestors).Err?
    ensures IsWitness(specs, names, ancestors, NaiveAll(specs, names, ancestors).error)
    decreases Room(specs, ancestors), 1, |names|
  {
    var init := names[..|names| - 1];
    if NaiveAll(specs, init, ancestors).Err? {
      NaiveAllErrs(specs, init, ancestors);
    } else {
      NaiveErrs(specs, names[|names| - 1], ancestors);
    }
  }

  /** The reducer fails exactly on the lockfiles where a root can reach a cycle. */
  lemma {:induction false} FailsIffCyclic(specs: Specs, roots: seq<string>)
    ensures NaiveAll(specs, roots, []).Err? <==> ReachesCycle(specs, roots)
    ensures NaiveAll(specs, roots, []).Ok? ==> AllUnfold(specs, roots, NaiveAll(specs, roots, []).value)
  {
    var r := NaiveAll(specs, roots, []);
    if r.Err? {
      NaiveAllErrs(specs, roots, []);
      var p := r.error.chain + [r.error.dep];
      var i :| 0 <= i < |r.error.chain| && r.error.chain[i] == r.error.dep;
      assert 0 <= i < |p| - 1 && p[i] == p[|p| - 1];
      assert Repeats(p);
    } else {
      NaiveAllUnfolds(specs, roots, []);
      if ReachesCycle(specs, roots) {
        var p :| IsPath(specs, p) && p[0] in roots && Repeats(p);
        var names := Kept(specs, roots);
        KeptMembers(specs, roots, p[0]);
        var i :| 0 <= i < |names| && names[i] == p[0];
        UnfoldedIsAcyclic(specs, p, r.value[i]);
      }
    }
  }

  /** Having a finite unfolding is the same as reaching no cycle. */
  lemma {:induction false} UnfoldingExists(specs: Specs, n: string)
    requires n in specs
    ensures (exists t :: Unfolds(specs, n, t)) <==> !ReachesCycle(specs, [n])
  {
    FailsIffCyclic(specs, [n]);
    assert [n][..0] == [];
    assert Kept(specs, [n][..0]) == [];
    assert Kept(specs, [n]) == [n];
    if ReachesCycle(specs, [n]) {
      var p :| IsPath(specs, p) && p[0] in [n] && Repeats(p);
      forall t | Unfolds(specs, n, t) ensures false { UnfoldedIsAcyclic(specs, p, t); }
    } else {
      assert Unfolds(specs, n, NaiveAll(specs, [n], []).value[0]);
    }
  }
}
