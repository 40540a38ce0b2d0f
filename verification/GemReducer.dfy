/**
 src/lib/plugins/rubygems/gemfile-lock-to-dependencies.js as written: nodes are
 objects, a node enters the shared table `allDeps` before its dependencies are
 known, and later references alias it.
 */
module GemReducer {
  import opened Wrappers
  import opened GemGraph

  class DepNode {
    const name: string
    const version: string
    /** None until the node's own reduce has returned. */
    var dependencies: Option<seq<(string, DepNode)>>

    constructor (name: string, version: string)
      ensures this.name == name && this.version == version && dependencies == None
    {
      this.name, this.version, dependencies := name, version, None;
    }
  }

  /** A JavaScript object used as a dictionary: its entries in insertion order. */
  type Entries = seq<(string, DepNode)>

  /** `d[key] = node`. */
  function Put(d: Entries, key: string, node: DepNode): Entries {
    if d == [] then [(key, node)]
    else if d[0].0 == key then [(key, node)] + d[1..]
    else [d[0]] + Put(d[1..], key, node)
  }

  lemma {:induction false} PutExisting(d: Entries, i: nat)
    requires i < |d| && forall k :: 0 <= k < i ==> d[k].0 != d[i].0
    ensures Put(d, d[i].0, d[i].1) == d
  {
    if i > 0 {
      PutExisting(d[1..], i - 1);
    }
  }

  lemma {:induction false} PutNew(d: Entries, key: string, node: DepNode)
    requires forall k :: 0 <= k < |d| ==> d[k].0 != key
    ensures Put(d, key, node) == d + [(key, node)]
  {
    if d != [] {
      PutNew(d[1..], key, node);
    }
  }

  /** The object graph below `d` is the tree `t`. */
  ghost predicate Represents(nodes: set<DepNode>, d: DepNode, t: Tree)
    reads nodes
    decreases t
  {
    && d in nodes
    && d.name == t.name
    && d.version == t.version
    && d.dependencies.Some?
    && |d.dependencies.value| == |t.children|
    && forall i :: 0 <= i < |t.children| ==>
         && d.dependencies.value[i].0 == t.children[i].name
         && Represents(nodes, d.dependencies.value[i].1, t.children[i])
  }

  ghost predicate AllRepresent(nodes: set<DepNode>, d: Entries, ts: seq<Tree>)
    reads nodes
  {
    |d| == |ts| && forall i :: 0 <= i < |ts| ==> Represents(nodes, d[i].1, ts[i])
  }

  /** `d` has exactly the keys `names`, each bound to the object in the table. */
  ghost predicate Linked(table: map<string, DepNode>, names: seq<string>, d: Entries) {
    && |d| == |names|
    && forall i :: 0 <= i < |names| ==> names[i] in table && d[i] == (names[i], table[names[i]])
  }

  /** Every known dependency of `n` is among the names `before`. */
  ghost predicate Ready(specs: Specs, n: string, before: seq<string>)
    requires n in specs
  {
    forall m :: m in Kept(specs, Next(specs, n)) ==> m in before
  }

  /** Every name comes after all its known dependencies. */
  ghost predicate Topological(specs: Specs, order: seq<string>) {
    forall i :: 0 <= i < |order| ==> order[i] in specs && Ready(specs, order[i], order[..i])
  }

  lemma TopologicalSnoc(specs: Specs, order: seq<string>, n: string)
    requires Topological(specs, order) && n in specs && Ready(specs, n, order)
    ensures Topological(specs, order + [n])
  {
    var longer := order + [n];
    forall i | 0 <= i < |longer|
      ensures longer[i] in specs && Ready(specs, longer[i], longer[..i])
    {
      assert longer[..i] == order[..i];
      if i == |order| { assert order[..i] == order; }
    }
  }

  /** A name whose dependencies were all finished before it unfolds without an error, under any disjoint ancestors. */
  lemma {:induction false} FinishedUnfolds(specs: Specs, order: seq<string>, k: nat, ancestors: seq<string>)
    requires Topological(specs, order) && k < |order|
    requires forall a :: a in ancestors ==> a !in order[..k + 1]
    ensures Naive(specs, order[k], ancestors).Ok?
    decreases k, 1, 0
  {
    var n := order[k];
    assert order[..k + 1][k] == n;
    RoomShrinks(specs, ancestors, n);
    if n in order[..k] {
      var j :| 0 <= j < k && order[j] == n;
      FinishedUnfolds(specs, order, j, ancestors);
    } else {
      FinishedAllUnfold(specs, order, k, Next(specs, n), ancestors + [n]);
    }
  }

  lemma {:induction false} FinishedAllUnfold(specs: Specs, order: seq<string>, k: nat, names: seq<string>,
                                             ancestors: seq<string>)
    requires Topological(specs, order) && k <= |order|
    requires forall a :: a in ancestors ==> a !in order[..k]
    requires forall m :: m in Kept(specs, names) ==> m in order[..k]
    ensures NaiveAll(specs, names, ancestors).Ok?
    decreases k, 0, |names|
  {
    if names != [] {
      var init := names[..|names| - 1];
      var n := names[|names| - 1];
      FinishedAllUnfold(specs, order, k, init, ancestors);
      if n in specs {
        KeptMembers(specs, names, n);
        var j :| 0 <= j < k && order[j] == n;
        FinishedUnfolds(specs, order, j, ancestors);
      }
    }
  }

  /** The table only gains entries. */
  ghost predicate Grows(before: map<string, DepNode>, after: map<string, DepNode>) {
    forall n {:trigger before[n]} {:trigger after[n]} :: n in before ==> n in after && after[n] == before[n]
  }

  lemma NaiveSnoc(specs: Specs, names: seq<string>, n: string, ancestors: seq<string>)
    requires NaiveAll(specs, names, ancestors).Ok?
    ensures n !in specs ==> NaiveAll(specs, names + [n], ancestors) == NaiveAll(specs, names, ancestors)
    ensures n in specs ==> match Naive(specs, n, ancestors)
                           case Err(e) => NaiveAll(specs, names + [n], ancestors) == Err(e)
                           case Ok(_) => NaiveAll(specs, names + [n], ancestors).Ok?
  {
    assert (names + [n])[..|names|] == names;
  }

  /** Writing a known key again changes nothing; writing a new one appends it. */
  lemma PutLinks(table: map<string, DepNode>, names: seq<string>, dep: string, deps: Entries)
    requires Distinct(names) && Linked(table, names, deps) && dep in table
    ensures Linked(table, if dep in names then names else names + [dep], Put(deps, dep, table[dep]))
  {
    if dep in names {
      var i :| 0 <= i < |names| && names[i] == dep;
      forall k | 0 <= k < i ensures deps[k].0 != deps[i].0 { assert names[k] != names[i]; }
      PutExisting(deps, i);
    } else {
      forall k | 0 <= k < |deps| ensures deps[k].0 != dep { assert names[k] != dep; }
      PutNew(deps, dep, table[dep]);
    }
  }

  /** An error among the first names is the error of the whole reduce. */
  lemma {:induction false} ErrorStays(specs: Specs, names: seq<string>, k: nat, ancestors: seq<string>)
    requires k <= |names| && NaiveAll(specs, names[..k], ancestors).Err?
    ensures NaiveAll(specs, names, ancestors) == NaiveAll(specs, names[..k], ancestors)
    decreases |names|
  {
    if k == |names| {
      assert names[..k] == names;
    } else {
      assert names[..|names| - 1][..k] == names[..k];
      ErrorStays(specs, names[..|names| - 1], k, ancestors);
    }
  }

  class Reducer {
    const specs: Specs
    /** The Map shared by every call of the reducer. */
    var allDeps: map<string, DepNode>
    /** The names whose `dependencies` have been stored, in that order. */
    ghost var finished: seq<string>
    /** The names for which a node was created, in that order. */
    ghost var expanded: seq<string>

    constructor (specs: Specs)
      ensures this.specs == specs && Valid([]) && expanded == []
    {
      this.specs, allDeps, finished, expanded := specs, map[], [], [];
    }

    /** No spec is expanded twice. */
    ghost predicate ExpandedOnce()
      reads this
    {
      && Distinct(expanded)
      && (forall n :: n in expanded <==> n in allDeps)
      && allDeps.Keys <= specs.Keys
    }

    /** The table holds the finished names and the names still being worked on, which are the ancestors. */
    ghost predicate Valid(ancestors: seq<string>)
      reads this, allDeps.Values
    {
      && ExpandedOnce()
      && Distinct(ancestors)
      && Topological(specs, finished)
      && (forall n :: n in allDeps ==>
            (n in finished || n in ancestors) && allDeps[n].name == n && allDeps[n].version == specs[n].version)
      && (forall n :: n in ancestors ==> n in allDeps && n !in finished && allDeps[n].dependencies == None)
      && (forall n :: n in finished ==> n in allDeps && Complete(n))
    }

    ghost predicate Complete(n: string)
      requires n in specs && n in allDeps
      reads this, allDeps.Values
    {
      && allDeps[n].dependencies.Some?
      && Linked(allDeps, Kept(specs, Next(specs, n)), allDeps[n].dependencies.value)
    }

    /** What one reduce over `names` leaves behind, compared with the reducer without a table. */
    ghost predicate Agrees(names: seq<string>, ancestors: seq<string>, r: Result<Entries, Cycle>)
      reads this, allDeps.Values
    {
      match NaiveAll(specs, names, ancestors)
      case Err(e) => r == Err(e) && ExpandedOnce()
      case Ok(_) =>
        && r.Ok?
        && Valid(ancestors)
        && Linked(allDeps, Kept(specs, names), r.value)
        && (forall n :: n in Kept(specs, names) ==> n !in ancestors)
    }

    /** The reduce over an array of names: `names.reduce(gemfileReducer(lockFile, allDeps, ancestors), {})`. */
    method ReduceAll(names: seq<string>, ancestors: seq<string>) returns (r: Result<Entries, Cycle>)
      requires Valid(ancestors)
      modifies this
      ensures Agrees(names, ancestors, r)
      ensures Grows(old(allDeps), allDeps)
      decreases Room(specs, ancestors), 1
    {
      var deps: Entries := [];
      for k := 0 to |names|
        invariant Agrees(names[..k], ancestors, Ok(deps))
        invariant Grows(old(allDeps), allDeps)
      {
        r := Reduce(names[..k], deps, names[k], ancestors);
        assert names[..k + 1] == names[..k] + [names[k]];
        if r.Err? {
          ErrorStays(specs, names, k + 1, ancestors);
          return;
        }
        deps := r.value;
      }
      r := Ok(deps);
      assert names[..|names|] == names;
    }

    /** One step of the reduce, on the object `deps` built from the names in `done`. */
    method Reduce(ghost done: seq<string>, deps: Entries, dep: string, ancestors: seq<string>)
      returns (r: Result<Entries, Cycle>)
      requires Agrees(done, ancestors, Ok(deps))
      modifies this
      ensures Agrees(done + [dep], ancestors, r)
      ensures Grows(old(allDeps), allDeps)
      decreases Room(specs, ancestors), 0, 2
    {
      NaiveSnoc(specs, done, dep, ancestors);
      KeptSnoc(specs, done, dep);
      if dep !in specs {
        return Ok(deps);
      }
      if dep in ancestors {
        return Err(Cycle(dep, ancestors));
      }
      var node: DepNode;
      if dep in allDeps {
        ghost var j :| 0 <= j < |finished| && finished[j] == dep;
        FinishedUnfolds(specs, finished, j, ancestors);
        node := allDeps[dep];
      } else {
        var expansion := Expand(dep, ancestors);
        if expansion.Err? {
          return Err(expansion.error);
        }
        node := expansion.value;
      }
      KeptDistinct(specs, done);
      PutLinks(allDeps, Kept(specs, done), dep, deps);
      return Ok(Put(deps, dep, node));
    }

    /** What creating the node of `dep` leaves behind, compared with the reducer without a table. */
    ghost predicate Expanded(dep: string, ancestors: seq<string>, r: Result<DepNode, Cycle>)
      requires dep in specs
      reads this, allDeps.Values
    {
      match Naive(specs, dep, ancestors)
      case Err(e) => r == Err(e) && ExpandedOnce()
      case Ok(_) => r.Ok? && Valid(ancestors) && dep in finished && allDeps[dep] == r.value
    }

    /** Creates the node of a name met for the first time, shares it, and only then fills in its dependencies. */
    method Expand(dep: string, ancestors: seq<string>) returns (r: Result<DepNode, Cycle>)
      requires Valid(ancestors)
      requires dep in specs && dep !in ancestors && dep !in allDeps
      modifies this
      ensures Expanded(dep, ancestors, r)
      ensures Grows(old(allDeps), allDeps)
      decreases Room(specs, ancestors), 0, 1
    {
      var node, sub := Descend(dep, ancestors);
      r := Finish(node, dep, ancestors, sub);
    }

    /** Creates and shares the node, and reduces its dependencies with the node as one more ancestor. */
    method Descend(dep: string, ancestors: seq<string>) returns (node: DepNode, sub: Result<Entries, Cycle>)
      requires Valid(ancestors)
      requires dep in specs && dep !in ancestors && dep !in allDeps
      modifies this
      ensures fresh(node) && dep in allDeps && allDeps[dep] == node
      ensures Agrees(Next(specs, dep), ancestors + [dep], sub)
      ensures Grows(old(allDeps), allDeps)
      decreases Room(specs, ancestors), 0, 0
    {
      RoomShrinks(specs, ancestors, dep);
      node := Register(dep, ancestors);
      sub := ReduceAll(Next(specs, dep), ancestors + [dep]);
    }

    /** A fresh node enters the table with its dependencies still unset. */
    method Register(dep: string, ancestors: seq<string>) returns (node: DepNode)
      requires Valid(ancestors)
      requires dep in specs && dep !in ancestors && dep !in allDeps
      modifies this
      ensures fresh(node) && dep in allDeps && allDeps[dep] == node
      ensures allDeps == old(allDeps)[dep := node] && finished == old(finished)
      ensures Grows(old(allDeps), allDeps)
      ensures Valid(ancestors + [dep])
    {
      node := new DepNode(dep, specs[dep].version);
      allDeps := allDeps[dep := node];
      expanded := expanded + [dep];
      assert ExpandedOnce();
      forall n | n in finished ensures Complete(n) {
        assert old(Complete(n));
        assert allDeps[n] == old(allDeps[n]);
      }
    }

    /** The node's dependencies are stored once its own reduce has returned. */
    method Finish(node: DepNode, dep: string, ancestors: seq<string>, sub: Result<Entries, Cycle>)
      returns (r: Result<DepNode, Cycle>)
      requires dep in specs && dep !in ancestors
      requires dep in allDeps && allDeps[dep] == node
      requires Agrees(Next(specs, dep), ancestors + [dep], sub)
      modifies this`finished, node
      ensures Expanded(dep, ancestors, r)
    {
      RoomShrinks(specs, ancestors, dep);
      if sub.Err? {
        return Err(sub.error);
      }
      StoreDependencies(node, dep, ancestors, sub.value);
      return Ok(node);
    }

    method StoreDependencies(node: DepNode, dep: string, ancestors: seq<string>, deps: Entries)
      requires dep in specs && dep !in ancestors
      requires Valid(ancestors + [dep])
      requires dep in allDeps && allDeps[dep] == node
      requires Linked(allDeps, Kept(specs, Next(specs, dep)), deps)
      requires forall n :: n in Kept(specs, Next(specs, dep)) ==> n in finished
      modifies this`finished, node
      ensures finished == old(finished) + [dep]
      ensures Valid(ancestors)
    {
      assert forall i :: 0 <= i < |ancestors| ==> (ancestors + [dep])[i] == ancestors[i];
      node.dependencies := Some(deps);
      TopologicalSnoc(specs, finished, dep);
      finished := finished + [dep];
      forall n | n in finished
        ensures Complete(n)
      {
        if n != dep {
          assert old(Complete(n));
          assert allDeps[n].name != node.name;
        }
      }
    }

    /** A finished node is the root of an object graph that reads as its unfolding, aliases included. */
    lemma {:induction false} NodeIsTree(n: string, t: Tree)
      requires Valid([]) && n in finished && Unfolds(specs, n, t)
      ensures Represents(allDeps.Values, allDeps[n], t)
      decreases t
    {
      var kids := Kept(specs, Next(specs, n));
      var i :| 0 <= i < |finished| && finished[i] == n;
      assert Ready(specs, n, finished[..i]);
      assert Complete(n);
      forall k | 0 <= k < |kids|
        ensures kids[k] in finished && Represents(allDeps.Values, allDeps[kids[k]], t.children[k])
      {
        assert kids[k] in finished[..i];
        NodeIsTree(kids[k], t.children[k]);
      }
    }

    /** After a whole reduce over the roots, their nodes read as the roots' unfoldings. */
    lemma RootsAreTrees(roots: seq<string>, d: Entries, ts: seq<Tree>)
      requires Valid([]) && Linked(allDeps, Kept(specs, roots), d)
      requires AllUnfold(specs, roots, ts)
      ensures AllRepresent(allDeps.Values, d, ts)
    {
      var names := Kept(specs, roots);
      forall i | 0 <= i < |ts|
        ensures Represents(allDeps.Values, d[i].1, ts[i])
      {
        assert names[i] in allDeps && d[i] == (names[i], allDeps[names[i]]);
        NodeIsTree(names[i], ts[i]);
      }
    }
  }

  // ----- the entry point -----

  datatype LockError = BadName | Cyclic(cycle: Cycle)

  ghost predicate IsFirstRun(dep: string, i: nat, j: nat)
    requires i < j <= |dep|
  {
    && (forall k :: 0 <= k < i ==> dep[k] == '!')
    && (forall k :: i <= k < j ==> dep[k] != '!')
    && (j < |dep| ==> dep[j] == '!')
  }

  /** `run` is the first longest run of characters other than '!'. */
  ghost predicate IsMatch(dep: string, run: string) {
    exists i, j :: 0 <= i < j <= |dep| && IsFirstRun(dep, i, j) && run == dep[i..j]
  }

  ghost predicate OnlyBangs(dep: string) {
    forall i :: 0 <= i < |dep| ==> dep[i] == '!'
  }

  lemma MatchMovesOn(dep: string, run: string)
    requires dep != [] && dep[0] == '!' && IsMatch(dep[1..], run)
    ensures IsMatch(dep, run)
  {
    var i, j :| 0 <= i < j <= |dep[1..]| && IsFirstRun(dep[1..], i, j) && run == dep[1..][i..j];
    assert IsFirstRun(dep, i + 1, j + 1) && dep[1..][i..j] == dep[i + 1..j + 1];
  }

  /** `dep.match(/[^!]+/)`: the first match, if there is one. */
  function Sanitised(dep: string): (r: Option<string>)
    ensures r.None? <==> OnlyBangs(dep)
    ensures r.Some? ==> IsMatch(dep, r.value)
  {
    if dep == [] then None
    else if dep[0] == '!' then
      var r := Sanitised(dep[1..]);
      assert r.Some? ==> IsMatch(dep, r.value) by {
        if r.Some? {
          MatchMovesOn(dep, r.value);
        }
      }
      r
    else
      var n := RunLength(dep);
      assert IsFirstRun(dep, 0, n) && dep[..n] == dep[0..n];
      Some(dep[..n])
  }

  function RunLength(dep: string): (n: nat)
    ensures n <= |dep|
    ensures forall k :: 0 <= k < n ==> dep[k] != '!'
    ensures n < |dep| ==> dep[n] == '!'
  {
    if dep == [] || dep[0] == '!' then 0 else 1 + RunLength(dep[1..])
  }

  function AllSanitised(deps: seq<string>): (r: Option<seq<string>>)
    ensures r.None? <==> exists i :: 0 <= i < |deps| && Sanitised(deps[i]).None?
    ensures r.Some? ==> |r.value| == |deps| && forall i :: 0 <= i < |deps| ==> Sanitised(deps[i]) == Some(r.value[i])
  {
    if deps == [] then Some([])
    else
      var rest := AllSanitised(deps[1..]);
      if Sanitised(deps[0]).None? || rest.None? then None
      else Some([Sanitised(deps[0]).value] + rest.value)
  }

  /**
   gemfileLockToDependencies, from the parsed lockfile on.  `roots` are the sanitised names
   of the lockfile's dependencies.  The call fails with the cycle error exactly when a root
   can reach a cycle, with the same error as the reducer without a table; otherwise the
   returned object has the known roots as keys, by first occurrence, and reads as their
   unfoldings, built from at most one object per spec.
   */
  method LockToDependencies(dependencies: Option<seq<string>>, specs: Specs)
    returns (r: Result<Entries, LockError>, ghost nodes: set<DepNode>, ghost roots: seq<string>)
    ensures dependencies.None? ==> r == Ok([]) && roots == []
    ensures dependencies.Some? ==>
              (r == Err(BadName) <==> exists i :: 0 <= i < |dependencies.value| && OnlyBangs(dependencies.value[i]))
    ensures dependencies.Some? && r != Err(BadName) ==>
              && |roots| == |dependencies.value|
              && forall i :: 0 <= i < |roots| ==> IsMatch(dependencies.value[i], roots[i])
    ensures r != Err(BadName) ==>
              && (r.Err? <==> ReachesCycle(specs, roots))
              && (r.Err? ==> NaiveAll(specs, roots, []).Err? && r == Err(Cyclic(NaiveAll(specs, roots, []).error)))
    ensures r.Ok? ==>
              && |r.value| == |Kept(specs, roots)|
              && forall i :: 0 <= i < |r.value| ==> r.value[i].0 == Kept(specs, roots)[i]
    ensures r.Ok? ==> exists ts :: AllUnfold(specs, roots, ts) && AllRepresent(nodes, r.value, ts)
    ensures forall d, e :: d in nodes && e in nodes && d.name == e.name ==> d == e
  {
    nodes, roots := {}, [];
    var sanitised := AllSanitised(if dependencies.Some? then dependencies.value else []);
    if sanitised.None? {
      return Err(BadName), {}, [];
    }
    roots := sanitised.value;
    FailsIffCyclic(specs, roots);
    var reducer := new Reducer(specs);
    var result := reducer.ReduceAll(sanitised.value, []);
    if result.Err? {
      return Err(Cyclic(result.error)), {}, roots;
    }
    r := Ok(result.value);
    nodes := reducer.allDeps.Values;
    ghost var ts := NaiveAll(specs, roots, []).value;
    reducer.RootsAreTrees(roots, r.value, ts);
    assert AllUnfold(specs, roots, ts) && AllRepresent(nodes, r.value, ts);
  }
}
