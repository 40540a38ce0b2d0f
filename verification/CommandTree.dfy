/**
 cliv2/cmd/cliv2/main.go: the tree of commands built from the workflow names, and
 the name printed for a command by climbing to the root.
 */
module CommandTree {
  import opened Strings

  /** What a command runs: the fallback that reports an unknown command, or its workflow. */
  datatype Runner = Fallback | RunWorkflow

  datatype Settings = Settings(runE: Runner, hidden: bool, disableFlagParsing: bool)

  datatype Workflow = Workflow(command: string, visible: bool)

  type Path = seq<string>

  /** The part of cobra.Command the program relies on. */
  class Command {
    const use: string
    var settings: Settings
    var parent: Command?
    var commands: seq<Command>
    /** Where the command hangs below the root. */
    ghost const path: Path

    constructor (use: string, settings: Settings, ghost path: Path)
      ensures this.use == use && this.settings == settings && parent == null && commands == [] && this.path == path
    {
      this.use, this.settings, parent, commands, this.path := use, settings, null, [], path;
    }

    /** The first word of `use`. */
    function Name(): string {
      Split(use, ' ')[0]
    }

    method AddCommand(sub: Command)
      requires sub != this
      modifies this`commands, sub`parent
      ensures commands == old(commands) + [sub] && sub.parent == this
    {
      sub.parent := this;
      commands := commands + [sub];
    }
  }

  /** A command's name is what stands before the first blank of its usage line. */
  lemma NameIsFirstWord(c: Command)
    ensures Free(c.Name(), ' ') && (c.use == c.Name() || c.Name() + " " <= c.use)
  {
    SplitIsFree(c.use, ' ');
    JoinSplit(c.use, ' ');
    assert Free(Split(c.use, ' ')[0], ' ');
  }

  function Parts(w: Workflow): Path {
    Split(w.command, ' ')
  }

  function Parent(p: Path): Path
    requires p != []
  {
    p[..|p| - 1]
  }

  /** The map key of a path: a blank before every part. */
  function Key(p: Path): string {
    if p == [] then "" else " " + Join(p, ' ')
  }

  lemma KeySnoc(p: Path, part: string)
    ensures Key(p + [part]) == Key(p) + " " + part
  {
    if p == [] {
      assert p + [part] == [part];
    } else {
      JoinSnoc(p, part, ' ');
    }
  }

  lemma KeyTake(parts: Path, level: nat)
    requires level < |parts|
    ensures parts[..level + 1] == parts[..level] + [parts[level]]
    ensures Key(parts[..level + 1]) == Key(parts[..level]) + " " + parts[level]
  {
    KeySnoc(parts[..level], parts[level]);
    TakeSnoc(parts, level);
  }

  lemma KeyInjective(p: Path, q: Path)
    requires p != [] && q != [] && AllFree(p, ' ') && AllFree(q, ' ') && Key(p) == Key(q)
    ensures p == q
  {
    assert Key(p)[1..] == Join(p, ' ') && Key(q)[1..] == Join(q, ' ');
    JoinInjective(p, q, ' ');
  }

  // ----- what the tree must be -----

  /** `p` is a non-empty prefix of a workflow name. */
  ghost predicate IsPrefix(done: seq<Workflow>, p: Path) {
    p != [] && exists i :: 0 <= i < |done| && p <= Parts(done[i])
  }

  /**
   A path that is a workflow name runs it, with the visibility of the last such workflow; any
   other is a hidden fallback.
   */
  function SettingsOf(done: seq<Workflow>, p: Path): Settings {
    if done == [] then Settings(Fallback, true, true)
    else if Parts(done[|done| - 1]) == p then Settings(RunWorkflow, !done[|done| - 1].visible, false)
    else SettingsOf(done[..|done| - 1], p)
  }

  lemma SettingsSnoc(done: seq<Workflow>, w: Workflow, p: Path)
    ensures SettingsOf(done + [w], p)
         == if Parts(w) == p then Settings(RunWorkflow, !w.visible, false) else SettingsOf(done, p)
  {
    assert (done + [w])[..|done|] == done;
  }

  lemma {:induction false} RunsIffWorkflow(done: seq<Workflow>, p: Path)
    ensures SettingsOf(done, p).runE == RunWorkflow <==> exists i :: 0 <= i < |done| && Parts(done[i]) == p
    ensures SettingsOf(done, p).disableFlagParsing <==> SettingsOf(done, p).runE == Fallback
    ensures SettingsOf(done, p).runE == Fallback ==> SettingsOf(done, p).hidden
  {
    if done != [] {
      var n := |done| - 1;
      RunsIffWorkflow(done[..n], p);
      if Parts(done[n]) != p && exists i :: 0 <= i < |done| && Parts(done[i]) == p {
        var i :| 0 <= i < |done| && Parts(done[i]) == p;
        assert done[..n][i] == done[i];
      }
    }
  }

  /** Of several workflows with the same name the last one decides. */
  lemma {:induction false} LastWorkflowDecides(done: seq<Workflow>, i: nat)
    requires i < |done| && forall j :: i < j < |done| ==> Parts(done[j]) != Parts(done[i])
    ensures SettingsOf(done, Parts(done[i])) == Settings(RunWorkflow, !done[i].visible, false)
    decreases |done|
  {
    if i < |done| - 1 {
      LastWorkflowDecides(done[..|done| - 1], i);
    }
  }

  type Nodes = map<Path, Command>

  /** The root is the root, and every other command hangs below a command of the tree. */
  ghost predicate Linked(root: Command, nodes: Nodes)
    reads root`parent, root`commands, nodes.Values`parent, nodes.Values`commands
  {
    && root.path == [] && root.parent == null
    && Named(nodes)
    && forall p {:trigger LinkedAt(root, nodes, p)} :: p in nodes ==> LinkedAt(root, nodes, p)
  }

  ghost predicate Named(nodes: Nodes) {
    forall p :: p in nodes ==> p != [] && AllFree(p, ' ') && nodes[p].path == p
  }

  ghost predicate InTree(root: Command, nodes: Nodes, c: Command) {
    c == root || (c.path in nodes && nodes[c.path] == c)
  }

  ghost predicate LinkedAt(root: Command, nodes: Nodes, p: Path)
    requires p in nodes
    reads root`commands, nodes.Values`parent, nodes.Values`commands
  {
    var c := nodes[p];
    && c.parent != null
    && p == c.parent.path + [c.use]
    && InTree(root, nodes, c.parent)
    && c in c.parent.commands
  }

  /** A command lists only nodes that hang below it, each once; the root also keeps what it had. */
  ghost predicate ListsOnlyChildren(root: Command, nodes: Nodes, before: seq<Command>)
    reads root`commands, nodes.Values`commands
  {
    && before <= root.commands
    && ListsAt(nodes, root, root.commands[|before|..])
    && forall p {:trigger nodes[p]} :: p in nodes ==> ListsAt(nodes, nodes[p], nodes[p].commands)
  }

  ghost predicate ListsAt(nodes: Nodes, c: Command, commands: seq<Command>) {
    && (forall i :: 0 <= i < |commands| ==> IsChild(nodes, c, commands[i]))
    && (forall i, j :: 0 <= i < j < |commands| ==> commands[i] != commands[j])
  }

  ghost predicate IsChild(nodes: Nodes, c: Command, sub: Command) {
    sub.path in nodes && nodes[sub.path] == sub && sub.path != [] && Parent(sub.path) == c.path
  }

  ghost predicate Keyed(commandMap: map<string, Command>, nodes: Nodes) {
    && (forall p {:trigger nodes[p]} :: p in nodes ==> Key(p) in commandMap && commandMap[Key(p)] == nodes[p])
    && (forall k :: k in commandMap ==> exists p :: p in nodes && Key(p) == k)
  }

  ghost predicate Configured(nodes: Nodes, done: seq<Workflow>)
    reads nodes.Values`settings
  {
    forall p {:trigger nodes[p]} :: p in nodes ==> nodes[p].settings == SettingsOf(done, p)
  }

  // ----- printing a command's name -----

  lemma NameOfPart(part: string)
    requires Free(part, ' ')
    ensures Split(part, ' ')[0] == part
  {
    SplitPart(part, "", ' ');
  }

  method ReverseInPlace(a: array<string>)
    modifies a
    ensures a[..] == Reversed(old(a[..]))
  {
    var i, j := 0, a.Length - 1;
    while i < j
      invariant 0 <= i && j == a.Length - 1 - i && i <= j + 1
      invariant forall k :: 0 <= k < a.Length ==> a[k] == if i <= k <= j then old(a[k]) else old(a[a.Length - 1 - k])
    {
      a[i], a[j] := a[j], a[i];
      i, j := i + 1, j - 1;
    }
  }

  lemma ReversedSuffix(p: Path, n: nat)
    requires 0 < n < |p|
    ensures Reversed(p[n - 1..]) == Reversed(p[n..]) + [p[n - 1]]
  {
    assert p[n - 1..][1..] == p[n..];
  }

  /** Climbing one step; only the root has no parent. */
  lemma Above(root: Command, nodes: Nodes, c: Command)
    requires Linked(root, nodes) && InTree(root, nodes, c)
    ensures c == root <==> c.parent == null
    ensures c != root ==> InTree(root, nodes, c.parent) && c.path == c.parent.path + [c.Name()]
  {
    if c != root {
      assert LinkedAt(root, nodes, c.path);
      assert Free(c.path[|c.path| - 1], ' ');
      NameOfPart(c.use);
    }
  }

  lemma PrefixStep(p: Path, n: nat, up: Path, name: string)
    requires n <= |p| && p[..n] == up + [name]
    ensures n == |up| + 1 && up == p[..n - 1] && name == p[n - 1]
  {
    assert p[..n][..n - 1] == p[..n - 1];
    assert (up + [name])[..n - 1] == up;
    assert p[..n][n - 1] == p[n - 1];
  }

  /** The names from `c` up to the child of the root, when `c` is at the first `n` parts of `p`. */
  ghost predicate Collected(names: seq<string>, p: Path, n: nat) {
    0 < n <= |p| && names == Reversed(p[n - 1..])
  }

  /** The parts a command is printed from: its path, or the root's own name. */
  ghost function Shown(root: Command, cmd: Command): Path {
    if cmd == root then [root.Name()] else cmd.path
  }

  /** The command's name, then VisitParents appending the name of every parent but the root. */
  method CollectNames(cmd: Command, ghost root: Command, ghost nodes: Nodes) returns (names: seq<string>)
    requires Linked(root, nodes) && InTree(root, nodes, cmd)
    ensures names == Reversed(Shown(root, cmd))
  {
    names := [cmd.Name()];
    var c: Command := cmd;
    ghost var p := Shown(root, cmd);
    ghost var n: nat := |p|;
    Above(root, nodes, cmd);
    assert p[n - 1..] == names;
    while c.parent != null
      invariant InTree(root, nodes, c)
      invariant c == root <==> c.parent == null
      invariant Collected(names, p, n)
      invariant if c == root then n == 1 else c.path == p[..n]
      decreases |c.path|
    {
      Above(root, nodes, c);
      PrefixStep(p, n, c.parent.path, c.Name());
      c := c.parent;
      Above(root, nodes, c);
      if c.parent != null {
        PrefixStep(p, n - 1, c.parent.path, c.Name());
        ReversedSuffix(p, n - 1);
        names := names + [c.Name()];
        n := n - 1;
      }
    }
    assert p[0..] == p;
  }

  /** getFullCommandString: climb to the root collecting names, reverse them in place, join them. */
  method GetFullCommandString(cmd: Command, ghost root: Command, ghost nodes: Nodes) returns (name: string)
    requires Linked(root, nodes) && InTree(root, nodes, cmd)
    ensures name == Join(Shown(root, cmd), ' ')
  {
    var names := CollectNames(cmd, root, nodes);
    var full := new string[|names|](i requires 0 <= i < |names| => names[i]);
    assert full[..] == names;
    ReverseInPlace(full);
    ReversedTwice(Shown(root, cmd));
    name := Join(full[..], ' ');
  }

  // ----- building the tree -----

  /** Everything the program relies on about the tree, once the workflows in `done` are in it. */
  ghost predicate Built(root: Command, nodes: Nodes, commandMap: map<string, Command>, before: seq<Command>,
                        done: seq<Workflow>)
    reads root, nodes.Values
  {
    && Keyed(commandMap, nodes)
    && Tree(root, nodes, before, done)
  }

  ghost predicate Tree(root: Command, nodes: Nodes, before: seq<Command>, done: seq<Workflow>)
    reads root, nodes.Values
  {
    && root !in nodes.Values
    && Linked(root, nodes)
    && ListsOnlyChildren(root, nodes, before)
    && Configured(nodes, done)
  }

  lemma ListsMore(nodes: Nodes, sub: Command, c: Command, commands: seq<Command>)
    requires ListsAt(nodes, c, commands) && sub.path !in nodes
    ensures ListsAt(nodes[sub.path := sub], c, commands)
    ensures sub.path != [] && Parent(sub.path) == c.path ==> ListsAt(nodes[sub.path := sub], c, commands + [sub])
  {
    forall i | 0 <= i < |commands|
      ensures IsChild(nodes[sub.path := sub], c, commands[i]) && commands[i] != sub
    {
      assert IsChild(nodes, c, commands[i]);
    }
  }

  lemma KeyedMore(commandMap: map<string, Command>, nodes: Nodes, p: Path, sub: Command)
    requires Keyed(commandMap, nodes)
    requires p != [] && AllFree(p, ' ') && p !in nodes
    requires Named(nodes)
    ensures Keyed(commandMap[Key(p) := sub], nodes[p := sub])
  {
    var more, newNodes := commandMap[Key(p) := sub], nodes[p := sub];
    forall q | q in newNodes
      ensures Key(q) in more && more[Key(q)] == newNodes[q]
    {
      if q != p {
        assert commandMap[Key(q)] == nodes[q];
        if Key(q) == Key(p) {
          KeyInjective(p, q);
        }
      }
    }
    forall k | k in more
      ensures exists q :: q in newNodes && Key(q) == k
    {
      if k == Key(p) {
        assert p in newNodes;
      } else {
        var q :| q in nodes && Key(q) == k;
        assert q in newNodes;
      }
    }
  }

  /** Creates the command of a path not met before and hangs it below its parent. */
  method Hang(parent: Command, part: string,
              ghost root: Command, ghost nodes: Nodes, ghost before: seq<Command>, ghost done: seq<Workflow>)
    returns (sub: Command, ghost newNodes: Nodes)
    requires Tree(root, nodes, before, done)
    requires InTree(root, nodes, parent)
    requires Free(part, ' ') && parent.path + [part] !in nodes
    requires SettingsOf(done, parent.path + [part]) == Settings(Fallback, true, true)
    modifies parent`commands
    ensures fresh(sub) && sub.path == parent.path + [part]
    ensures newNodes == nodes[sub.path := sub]
    ensures Tree(root, newNodes, before, done)
  {
    sub := new Command(part, Settings(Fallback, true, true), parent.path + [part]);
    parent.AddCommand(sub);
    newNodes := nodes[sub.path := sub];
    assert AllFree(sub.path, ' ');
    assert Linked(root, newNodes) by {
      forall q {:trigger LinkedAt(root, newNodes, q)} | q in newNodes
        ensures LinkedAt(root, newNodes, q)
      {
        if q != sub.path {
          assert old(LinkedAt(root, nodes, q));
        }
      }
    }
    assert ListsOnlyChildren(root, newNodes, before) by {
      forall q | q in newNodes
        ensures ListsAt(newNodes, newNodes[q], newNodes[q].commands)
      {
        if q != sub.path {
          ListsMore(nodes, sub, nodes[q], old(nodes[q].commands));
        }
      }
      ListsMore(nodes, sub, root, old(root.commands[|before|..]));
      assert root.commands[|before|..] == old(root.commands[|before|..]) + (if parent == root then [sub] else []);
    }
  }

  lemma KeyFinds(commandMap: map<string, Command>, nodes: Nodes, p: Path)
    requires Keyed(commandMap, nodes) && Named(nodes)
    requires p != [] && AllFree(p, ' ')
    ensures Key(p) in commandMap <==> p in nodes
    ensures p in nodes ==> commandMap[Key(p)] == nodes[p]
  {
    if p in nodes {
      assert commandMap[Key(p)] == nodes[p];
    } else if Key(p) in commandMap {
      var q :| q in nodes && Key(q) == Key(p);
      KeyInjective(p, q);
    }
  }

  /** A path that is no prefix of a workflow name is not configured. */
  lemma NewIsFallback(done: seq<Workflow>, p: Path)
    requires p != [] && !IsPrefix(done, p)
    ensures SettingsOf(done, p) == Settings(Fallback, true, true)
  {
    RunsIffWorkflow(done, p);
  }

  ghost predicate CoversPrefixes(nodes: Nodes, done: seq<Workflow>) {
    forall p :: p in nodes <==> IsPrefix(done, p)
  }

  /** `after` has the nodes of `before`, and new ones for the first parts of `p`. */
  ghost predicate AddsPrefixes(before: Nodes, after: Nodes, p: Path) {
    && (forall q :: q in before ==> q in after && after[q] == before[q])
    && (forall q :: q in after <==> q in before || (q != [] && q <= p))
  }

  /** One step down: the command of the next part, created if it is not there yet. */
  method StepDown(parent: Command, part: string, key: string, commandMap: map<string, Command>,
                  ghost root: Command, ghost nodes: Nodes, ghost before: seq<Command>, ghost done: seq<Workflow>)
    returns (sub: Command, newMap: map<string, Command>, ghost newNodes: Nodes)
    requires Built(root, nodes, commandMap, before, done)
    requires InTree(root, nodes, parent) && Free(part, ' ')
    requires AllFree(parent.path, ' ') && key == Key(parent.path + [part])
    requires forall p :: IsPrefix(done, p) ==> p in nodes
    modifies parent`commands
    ensures Built(root, newNodes, newMap, before, done)
    ensures sub.path == parent.path + [part] && sub.path in newNodes && newNodes[sub.path] == sub
    ensures newNodes == nodes || (sub.path !in nodes && fresh(sub) && newNodes == nodes[sub.path := sub])
  {
    ghost var p := parent.path + [part];
    KeyFinds(commandMap, nodes, p);
    if key in commandMap {
      sub, newMap, newNodes := commandMap[key], commandMap, nodes;
      assert LinkedAt(root, nodes, p);
    } else {
      NewIsFallback(done, p);
      sub, newNodes := Hang(parent, part, root, nodes, before, done);
      newMap := commandMap[key := sub];
      KeyedMore(commandMap, nodes, p, sub);
    }
  }

  /** The inner loop: from the root down the parts of one workflow name. */
  method Descend(root: Command, parts: Path, commandMap: map<string, Command>,
                 ghost nodes: Nodes, ghost before: seq<Command>, ghost done: seq<Workflow>)
    returns (node: Command, newMap: map<string, Command>, ghost newNodes: Nodes)
    requires Built(root, nodes, commandMap, before, done)
    requires CoversPrefixes(nodes, done)
    requires parts != [] && AllFree(parts, ' ')
    modifies root`commands, nodes.Values`commands
    ensures Built(root, newNodes, newMap, before, done)
    ensures AddsPrefixes(nodes, newNodes, parts)
    ensures node.path == parts && parts in newNodes && newNodes[parts] == node
    ensures forall p :: p in newNodes && p !in nodes ==> fresh(newNodes[p])
  {
    node, newMap, newNodes := root, commandMap, nodes;
    var currentParts := "";
    for level := 0 to |parts|
      invariant Built(root, newNodes, newMap, before, done)
      invariant AddsPrefixes(nodes, newNodes, parts[..level])
      invariant node.path == parts[..level] && InTree(root, newNodes, node)
      invariant level > 0 ==> node.path in newNodes
      invariant currentParts == Key(parts[..level])
      invariant forall p :: p in newNodes && p !in nodes ==> fresh(newNodes[p])
    {
      var subCmdName := parts[level];
      KeyTake(parts, level);
      currentParts := currentParts + " " + subCmdName;
      assert Free(subCmdName, ' ');
      ghost var was := newNodes;
      node, newMap, newNodes := StepDown(node, subCmdName, currentParts, newMap, root, newNodes, before, done);
      PrefixesGrow(nodes, was, newNodes, parts, level, node);
    }
    TakeAll(parts);
  }

  lemma PrefixesGrow(nodes: Nodes, was: Nodes, now: Nodes, parts: Path, level: nat, node: Command)
    requires level < |parts| && AddsPrefixes(nodes, was, parts[..level])
    requires node.path == parts[..level + 1]
    requires (now == was && node.path in was) || (node.path !in was && now == was[node.path := node])
    ensures AddsPrefixes(nodes, now, parts[..level + 1])
  {
    forall q | q != [] && q <= parts[..level + 1]
      ensures q in now
    {
      if |q| <= level {
        assert q <= parts[..level];
      } else {
        assert q == parts[..level + 1];
      }
    }
    forall q | q in now && q !in nodes
      ensures q != [] && q <= parts[..level + 1]
    {
      if q in was {
        assert q <= parts[..level];
      }
    }
  }

  /** The last part of a workflow name gets the workflow, replacing what the path ran before. */
  method Configure(node: Command, w: Workflow,
                   ghost root: Command, ghost nodes: Nodes, ghost commandMap: map<string, Command>,
                   ghost before: seq<Command>, ghost done: seq<Workflow>)
    requires Built(root, nodes, commandMap, before, done)
    requires node.path == Parts(w) && node.path in nodes && nodes[node.path] == node
    modifies node`settings
    ensures Built(root, nodes, commandMap, before, done + [w])
  {
    node.settings := Settings(RunWorkflow, !w.visible, false);
    assert Linked(root, nodes) && ListsOnlyChildren(root, nodes, before);
    assert Configured(nodes, done + [w]) by {
      forall p {:trigger nodes[p]} | p in nodes
        ensures nodes[p].settings == SettingsOf(done + [w], p)
      {
        SettingsSnoc(done, w, p);
        assert p != node.path ==> nodes[p] != node;
      }
    }
  }

  lemma CoversMore(before: Nodes, after: Nodes, done: seq<Workflow>, w: Workflow)
    requires CoversPrefixes(before, done) && AddsPrefixes(before, after, Parts(w))
    ensures CoversPrefixes(after, done + [w])
  {
    var longer := done + [w];
    forall p
      ensures p in after <==> IsPrefix(longer, p)
    {
      if IsPrefix(longer, p) {
        var i :| 0 <= i < |longer| && p <= Parts(longer[i]);
        if i < |done| {
          assert p <= Parts(done[i]);
        }
      }
      if p in before {
        var i :| 0 <= i < |done| && p <= Parts(done[i]);
        assert p <= Parts(longer[i]);
      } else if p in after {
        assert p <= Parts(longer[|done|]);
      }
    }
  }

  /** The body of the outer loop. */
  method AddWorkflow(root: Command, w: Workflow, commandMap: map<string, Command>,
                     ghost nodes: Nodes, ghost before: seq<Command>, ghost done: seq<Workflow>)
    returns (newMap: map<string, Command>, ghost newNodes: Nodes)
    requires Built(root, nodes, commandMap, before, done)
    requires CoversPrefixes(nodes, done)
    modifies root`commands, nodes.Values`commands, nodes.Values`settings
    ensures Built(root, newNodes, newMap, before, done + [w])
    ensures CoversPrefixes(newNodes, done + [w])
    ensures forall p :: p in newNodes ==> (p in nodes && newNodes[p] == nodes[p]) || fresh(newNodes[p])
  {
    SplitIsFree(w.command, ' ');
    var node;
    node, newMap, newNodes := Descend(root, Parts(w), commandMap, nodes, before, done);
    CoversMore(nodes, newNodes, done, w);
    Configure(node, w, root, newNodes, newMap, before, done);
  }

  /**
   createCommandsForWorkflows.  For every list of workflows, in any order, the nodes are
   exactly the non-empty prefixes of the names, each hanging below its parent path and
   listed there once; a node runs its workflow exactly when its path is a workflow name.
   */
  method CreateCommandsForWorkflows(root: Command, workflows: seq<Workflow>)
    returns (commandMap: map<string, Command>, ghost nodes: Nodes)
    requires root.path == [] && root.parent == null
    modifies root`commands
    ensures Built(root, nodes, commandMap, old(root.commands), workflows)
    ensures CoversPrefixes(nodes, workflows)
  {
    commandMap, nodes := map[], map[];
    ghost var before, done := root.commands, workflows[..0];
    for i := 0 to |workflows|
      invariant done == workflows[..i]
      invariant Built(root, nodes, commandMap, before, done)
      invariant CoversPrefixes(nodes, done)
      invariant forall p :: p in nodes ==> fresh(nodes[p])
    {
      commandMap, nodes := AddWorkflow(root, workflows[i], commandMap, nodes, before, done);
      TakeSnoc(workflows, i);
      done := done + [workflows[i]];
    }
    TakeAll(workflows);
  }

  /** The command built for a workflow runs it, and getFullCommandString prints it as the workflow's own name. */
  lemma PrintsWorkflowName(root: Command, workflows: seq<Workflow>, i: nat, commandMap: map<string, Command>,
                           nodes: Nodes, before: seq<Command>)
    requires i < |workflows|
    requires Built(root, nodes, commandMap, before, workflows) && CoversPrefixes(nodes, workflows)
    ensures var key := Key(Parts(workflows[i]));
            && key in commandMap
            && InTree(root, nodes, commandMap[key])
            && commandMap[key].settings.runE == RunWorkflow
            && Join(Shown(root, commandMap[key]), ' ') == workflows[i].command
  {
    var parts := Parts(workflows[i]);
    SplitIsFree(workflows[i].command, ' ');
    JoinSplit(workflows[i].command, ' ');
    assert IsPrefix(workflows, parts);
    KeyFinds(commandMap, nodes, parts);
    assert nodes[parts] in nodes.Values;
    RunsIffWorkflow(workflows, parts);
  }
}
