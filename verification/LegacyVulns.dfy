/**
 convertTestDepGraphResultToLegacy of src/lib/vulnmap-test/legacy.ts: the list of
 vulnerabilities, one per (affected package, path to the root, issue), each joined
 with an upgrade path through a printed key.
 */
module LegacyVulns {
  import Strings
  import opened Wrappers
  import opened JsonText

  const BAR: Unit := 0x7C
  const AT: Text := [0x40]
  const STAR: Text := [0x2A]
  /** "undefined", what a missing version prints as in a string concatenation. */
  const UNDEFINED: Text := [0x75, 0x6E, 0x64, 0x65, 0x66, 0x69, 0x6E, 0x65, 0x64]
  /** "Upstream". */
  const UPSTREAM: Text := [0x55, 0x70, 0x73, 0x74, 0x72, 0x65, 0x61, 0x6D]

  datatype Pkg = Pkg(name: Text, version: Option<Text>)

  datatype UpgradeItem = UpgradeItem(pkg: Pkg, newVersion: Option<Text>, isDropped: bool)

  /** An entry of a legacy upgrade path: `false` or "name@version". */
  datatype LegacyStep = NoUpgrade | UpgradeTo(id: Text)

  datatype FixInfo = FixInfo(upgradePaths: Option<seq<seq<UpgradeItem>>>, isPatchable: bool,
                             nearestFixedInVersion: Option<Text>)

  datatype Issue = Issue(issueId: Text, fixInfo: Option<FixInfo>)

  datatype AffectedPkg = AffectedPkg(pkg: Pkg, issues: seq<Issue>)

  datatype Affected<D> = Affected(pkgs: seq<AffectedPkg>, issuesData: map<Text, D>)

  datatype Vuln<D> = Vuln(
    data: Option<D>, from: seq<Text>, upgradePath: seq<LegacyStep>, isUpgradable: bool, isPatchable: bool,
    name: Text, version: Option<Text>, nearestFixedInVersion: Option<Text>)

  datatype LegacyResult<D> = LegacyResult(vulnerabilities: seq<Vuln<D>>, ok: bool)

  /** The TypeError of reading a field of a missing `fixInfo`. */
  datatype Failure = MissingFixInfo

  // ----- the key -----

  /** A missing or empty string is falsy. */
  function Truthy(t: Option<Text>): bool {
    t.Some? && t.value != []
  }

  function LegacyPkgId(pkg: Pkg): Text {
    pkg.name + AT + (if Truthy(pkg.version) then pkg.version.value else STAR)
  }

  function LegacyPath(path: seq<Pkg>): (r: seq<Text>)
    ensures |r| == |path|
    ensures forall i :: 0 <= i < |path| ==> r[i] == LegacyPkgId(path[i])
  {
    if path == [] then [] else [LegacyPkgId(path[0])] + LegacyPath(path[1..])
  }

  function VulnPathString(issueId: Text, path: seq<Text>): Text {
    issueId + [BAR] + Stringify(path)
  }

  /** The key is the issue id, a bar (0x7C) and the printed path. */
  lemma KeyIs(issueId: Text, path: seq<Text>)
    ensures VulnPathString(issueId, path)[..|issueId|] == issueId
    ensures VulnPathString(issueId, path)[|issueId|..] == [0x7C] + Stringify(path)
  {
  }

  /**
   Text printed by Stringify has no bar outside a literal, so it cannot end in a bar followed
   by another printed text.
   */
  lemma NoSplit(before: Text, p: seq<Text>, q: seq<Text>)
    ensures Stringify(p) != before + [BAR] + Stringify(q)
  {
    if Stringify(p) == before + [BAR] + Stringify(q) {
      ScanStringified(p);
      ScanStringified(q);
      ScanConcat(Outside, before + [BAR], Stringify(q));
      ScanConcat(Outside, before, [BAR]);
      var m := Scan(Outside, before);
      ScanStep(m, BAR, []);
      assert [BAR] + [] == [BAR];
      BrokenStays(Stringify(q));
    }
  }

  lemma AfterBar(id: Text, rest: Text)
    ensures (id + [BAR] + rest)[|id| + 1..] == rest
  {
  }

  lemma AfterSome(id: Text, rest: Text, n: nat)
    requires n <= |id|
    ensures (id + [BAR] + rest)[n..] == id[n..] + [BAR] + rest
  {
  }

  lemma KeyNotShorter(id: Text, p: seq<Text>, id': Text, p': seq<Text>)
    requires VulnPathString(id, p) == VulnPathString(id', p')
    ensures |id| >= |id'|
  {
    if |id| < |id'| {
      AfterBar(id, Stringify(p));
      AfterSome(id', Stringify(p'), |id| + 1);
      NoSplit(id'[|id| + 1..], p, p');
    }
  }

  /** Two keys are the same text only for the same issue and the same path, whatever the strings contain. */
  lemma KeyInjective(id: Text, p: seq<Text>, id': Text, p': seq<Text>)
    ensures VulnPathString(id, p) == VulnPathString(id', p') <==> id == id' && p == p'
  {
    var key, key' := VulnPathString(id, p), VulnPathString(id', p');
    if key == key' {
      KeyNotShorter(id, p, id', p');
      KeyNotShorter(id', p', id, p);
      assert id == key[..|id|] == key'[..|id'|] == id';
      assert Stringify(p) == key[|id| + 1..] == key'[|id'| + 1..] == Stringify(p');
      ParseStringified(p);
      ParseStringified(p');
    }
  }

  // ----- upgrade paths -----

  /** The upgrade path recorded for an issue and the path it starts from. */
  datatype Record = Record(issueId: Text, from: seq<Text>, upgrade: seq<LegacyStep>)

  function Pkgs(items: seq<UpgradeItem>): (r: seq<Pkg>)
    ensures |r| == |items| && forall i :: 0 <= i < |items| ==> r[i] == items[i].pkg
  {
    if items == [] then [] else [items[0].pkg] + Pkgs(items[1..])
  }

  /** toLegacyUpgradePath: dropped items are left out, and an item without a new version becomes `false`. */
  function LegacyUpgradePath(items: seq<UpgradeItem>): seq<LegacyStep> {
    if items == [] then []
    else if items[0].isDropped then LegacyUpgradePath(items[1..])
    else if !Truthy(items[0].newVersion) then [NoUpgrade] + LegacyUpgradePath(items[1..])
    else [UpgradeTo(items[0].pkg.name + AT + items[0].newVersion.value)] + LegacyUpgradePath(items[1..])
  }

  function ToRecord(issue: Issue, items: seq<UpgradeItem>): Record {
    Record(issue.issueId, LegacyPath(Pkgs(items)), LegacyUpgradePath(items))
  }

  function UpgradePathsOf(issue: Issue): seq<seq<UpgradeItem>> {
    if issue.fixInfo.Some? && issue.fixInfo.value.upgradePaths.Some? then issue.fixInfo.value.upgradePaths.value else []
  }

  /** `before`, then the upgrade paths of one issue. */
  ghost function PathRecords(before: seq<Record>, issue: Issue, paths: seq<seq<UpgradeItem>>): seq<Record> {
    if paths == [] then before
    else PathRecords(before, issue, paths[..|paths| - 1]) + [ToRecord(issue, paths[|paths| - 1])]
  }

  /** `before`, then the upgrade paths of the issues in iteration order. */
  ghost function IssueRecords(before: seq<Record>, issues: seq<Issue>): seq<Record> {
    if issues == [] then before
    else
      var issue := issues[|issues| - 1];
      PathRecords(IssueRecords(before, issues[..|issues| - 1]), issue, UpgradePathsOf(issue))
  }

  /** Every upgrade path of the response, in iteration order. */
  ghost function Records(pkgs: seq<AffectedPkg>): seq<Record> {
    if pkgs == [] then []
    else IssueRecords(Records(pkgs[..|pkgs| - 1]), pkgs[|pkgs| - 1].issues)
  }

  ghost predicate IsFor(record: Record, id: Text, from: seq<Text>) {
    record.issueId == id && record.from == from
  }

  /** The upgrade path recorded last for this issue and path, or the empty list. */
  ghost function LastUpgrade(records: seq<Record>, id: Text, from: seq<Text>): seq<LegacyStep> {
    if records == [] then []
    else if IsFor(records[|records| - 1], id, from) then records[|records| - 1].upgrade
    else LastUpgrade(records[..|records| - 1], id, from)
  }

  /** A record that no later one replaces is the one that counts. */
  lemma {:induction false} LastUpgradeIsLast(records: seq<Record>, k: nat, id: Text, from: seq<Text>)
    requires k < |records| && IsFor(records[k], id, from)
    requires forall l :: k < l < |records| ==> !IsFor(records[l], id, from)
    ensures LastUpgrade(records, id, from) == records[k].upgrade
    decreases |records|
  {
    if k < |records| - 1 {
      LastUpgradeIsLast(records[..|records| - 1], k, id, from);
    }
  }

  lemma {:induction false} NoUpgradeRecorded(records: seq<Record>, id: Text, from: seq<Text>)
    requires forall l :: 0 <= l < |records| ==> !IsFor(records[l], id, from)
    ensures LastUpgrade(records, id, from) == []
    decreases |records|
  {
    if records != [] {
      NoUpgradeRecorded(records[..|records| - 1], id, from);
    }
  }

  function Lookup(paths: map<Text, seq<LegacyStep>>, key: Text): seq<LegacyStep> {
    if key in paths then paths[key] else []
  }

  /** The table keyed by text answers every (issue, path) as the list of records does. */
  ghost predicate Answers(paths: map<Text, seq<LegacyStep>>, records: seq<Record>) {
    forall id, from :: Lookup(paths, VulnPathString(id, from)) == LastUpgrade(records, id, from)
  }

  lemma AnswersMore(paths: map<Text, seq<LegacyStep>>, records: seq<Record>, record: Record)
    requires Answers(paths, records)
    ensures Answers(paths[VulnPathString(record.issueId, record.from) := record.upgrade], records + [record])
  {
    var more := paths[VulnPathString(record.issueId, record.from) := record.upgrade];
    forall id, from
      ensures Lookup(more, VulnPathString(id, from)) == LastUpgrade(records + [record], id, from)
    {
      KeyInjective(id, from, record.issueId, record.from);
      assert (records + [record])[..|records|] == records;
      assert Lookup(paths, VulnPathString(id, from)) == LastUpgrade(records, id, from);
    }
  }

  lemma PathRecordsSnoc(before: seq<Record>, issue: Issue, paths: seq<seq<UpgradeItem>>, k: nat)
    requires k < |paths|
    ensures PathRecords(before, issue, paths[..k + 1])
            == PathRecords(before, issue, paths[..k]) + [ToRecord(issue, paths[k])]
  {
    assert paths[..k + 1][..k] == paths[..k];
  }

  lemma IssueRecordsSnoc(before: seq<Record>, issues: seq<Issue>, j: nat)
    requires j < |issues|
    ensures IssueRecords(before, issues[..j + 1])
            == PathRecords(IssueRecords(before, issues[..j]), issues[j], UpgradePathsOf(issues[j]))
  {
    assert issues[..j + 1][..j] == issues[..j];
  }

  lemma RecordsSnoc(pkgs: seq<AffectedPkg>, i: nat)
    requires i < |pkgs|
    ensures Records(pkgs[..i + 1]) == IssueRecords(Records(pkgs[..i]), pkgs[i].issues)
  {
    assert pkgs[..i + 1][..i] == pkgs[..i];
  }

  /** The innermost loop: every upgrade path of one issue, a later one replacing an earlier one. */
  method AddUpgradePaths(issue: Issue, before: map<Text, seq<LegacyStep>>, ghost records: seq<Record>)
    returns (paths: map<Text, seq<LegacyStep>>)
    requires Answers(before, records)
    ensures Answers(paths, PathRecords(records, issue, UpgradePathsOf(issue)))
  {
    paths := before;
    var upgrades := UpgradePathsOf(issue);
    for k := 0 to |upgrades|
      invariant Answers(paths, PathRecords(records, issue, upgrades[..k]))
    {
      var record := ToRecord(issue, upgrades[k]);
      AnswersMore(paths, PathRecords(records, issue, upgrades[..k]), record);
      paths := paths[VulnPathString(record.issueId, record.from) := record.upgrade];
      PathRecordsSnoc(records, issue, upgrades, k);
    }
    assert upgrades[..|upgrades|] == upgrades;
  }

  method CollectUpgradePaths(pkgs: seq<AffectedPkg>) returns (paths: map<Text, seq<LegacyStep>>)
    ensures Answers(paths, Records(pkgs))
  {
    paths := map[];
    for i := 0 to |pkgs|
      invariant Answers(paths, Records(pkgs[..i]))
    {
      var issues := pkgs[i].issues;
      ghost var before := Records(pkgs[..i]);
      for j := 0 to |issues|
        invariant Answers(paths, IssueRecords(before, issues[..j]))
      {
        paths := AddUpgradePaths(issues[j], paths, IssueRecords(before, issues[..j]));
        IssueRecordsSnoc(before, issues, j);
      }
      assert issues[..|issues|] == issues;
      RecordsSnoc(pkgs, i);
    }
    assert pkgs[..|pkgs|] == pkgs;
  }

  // ----- the upgrade path of an issue on a path, told from the response alone -----

  /** `id` is the package's name, '@' (0x40), and its version, or '*' (0x2A) for a missing or empty one. */
  ghost predicate IsPkgId(id: Text, pkg: Pkg) {
    && |id| > |pkg.name|
    && id[..|pkg.name|] == pkg.name
    && id[|pkg.name|] == 0x40
    && id[|pkg.name| + 1..] == match pkg.version
                               case None => [0x2A]
                               case Some(version) => if version == [] then [0x2A] else version
  }

  /** The ids of all packages of a path, in order. */
  ghost predicate ArePkgIds(ids: seq<Text>, path: seq<Pkg>) {
    |ids| == |path| && forall i :: 0 <= i < |path| ==> IsPkgId(ids[i], path[i])
  }

  lemma PkgIdIs(id: Text, pkg: Pkg)
    ensures IsPkgId(id, pkg) <==> id == LegacyPkgId(pkg)
  {
    var name, r := pkg.name, LegacyPkgId(pkg);
    assert r[..|name|] == name && r[|name|] == 0x40;
    assert r[|name| + 1..] == if Truthy(pkg.version) then pkg.version.value else [0x2A];
    if IsPkgId(id, pkg) {
      assert id == id[..|name|] + [id[|name|]] + id[|name| + 1..];
    }
  }

  lemma LegacyPathIs(ids: seq<Text>, path: seq<Pkg>)
    ensures ArePkgIds(ids, path) <==> ids == LegacyPath(path)
  {
    forall i | 0 <= i < |path| && |ids| == |path|
      ensures IsPkgId(ids[i], path[i]) <==> ids[i] == LegacyPath(path)[i]
    {
      PkgIdIs(ids[i], path[i]);
    }
  }

  ghost function NotDropped(items: seq<UpgradeItem>): nat {
    if items == [] then 0 else (if items[0].isDropped then 0 else 1) + NotDropped(items[1..])
  }

  /** `false` exactly when there is no new version; otherwise the name, '@' and the new version. */
  ghost predicate IsStep(step: LegacyStep, item: UpgradeItem) {
    match step
    case NoUpgrade => item.newVersion.None? || item.newVersion == Some([])
    case UpgradeTo(id) => item.newVersion.Some? && item.newVersion.value != []
                          && id == item.pkg.name + [0x40] + item.newVersion.value
  }

  /** One entry per item not dropped, in order. */
  ghost predicate IsUpgrade(steps: seq<LegacyStep>, items: seq<UpgradeItem>) {
    && |steps| == NotDropped(items)
    && forall i :: 0 <= i < |items| && !items[i].isDropped ==>
         NotDropped(items[..i]) < |steps| && IsStep(steps[NotDropped(items[..i])], items[i])
  }

  lemma {:induction false} StepAt(items: seq<UpgradeItem>, i: nat)
    requires i < |items| && !items[i].isDropped
    ensures NotDropped(items[..i]) < |LegacyUpgradePath(items)|
    ensures IsStep(LegacyUpgradePath(items)[NotDropped(items[..i])], items[i])
    decreases |items|
  {
    if i > 0 {
      StepAt(items[1..], i - 1);
      assert items[1..][..i - 1] == items[..i][1..];
    }
  }

  lemma {:induction false} StepCount(items: seq<UpgradeItem>)
    ensures |LegacyUpgradePath(items)| == NotDropped(items)
  {
    if items != [] {
      StepCount(items[1..]);
    }
  }

  lemma LegacyUpgradePathIs(items: seq<UpgradeItem>)
    ensures IsUpgrade(LegacyUpgradePath(items), items)
  {
    StepCount(items);
    forall i | 0 <= i < |items| && !items[i].isDropped
      ensures NotDropped(items[..i]) < |LegacyUpgradePath(items)|
      ensures IsStep(LegacyUpgradePath(items)[NotDropped(items[..i])], items[i])
    {
      StepAt(items, i);
    }
  }

  /** Upgrade path number `k` of the issue is for this issue id and path, dropped items included. */
  ghost predicate Offers(issue: Issue, k: nat, id: Text, from: seq<Text>) {
    && issue.fixInfo.Some?
    && issue.fixInfo.value.upgradePaths.Some?
    && k < |issue.fixInfo.value.upgradePaths.value|
    && issue.issueId == id
    && ArePkgIds(from, Pkgs(issue.fixInfo.value.upgradePaths.value[k]))
  }

  ghost predicate IssueOffers(issue: Issue, id: Text, from: seq<Text>) {
    exists k: nat :: Offers(issue, k, id, from)
  }

  ghost predicate PkgOffers(a: AffectedPkg, id: Text, from: seq<Text>) {
    exists j :: 0 <= j < |a.issues| && IssueOffers(a.issues[j], id, from)
  }

  ghost predicate IsLastPath(issue: Issue, k: nat, id: Text, from: seq<Text>) {
    Offers(issue, k, id, from) && forall l: nat :: k < l ==> !Offers(issue, l, id, from)
  }

  ghost predicate IsLastIssue(a: AffectedPkg, j: nat, id: Text, from: seq<Text>) {
    && j < |a.issues| && IssueOffers(a.issues[j], id, from)
    && forall l :: j < l < |a.issues| ==> !IssueOffers(a.issues[l], id, from)
  }

  ghost predicate IsLastPkg(pkgs: seq<AffectedPkg>, i: nat, id: Text, from: seq<Text>) {
    && i < |pkgs| && PkgOffers(pkgs[i], id, from)
    && forall l :: i < l < |pkgs| ==> !PkgOffers(pkgs[l], id, from)
  }

  /** `upgrade` is the last upgrade path of this issue that is for the path. */
  ghost predicate IsLastOfIssue(issue: Issue, id: Text, from: seq<Text>, upgrade: seq<LegacyStep>) {
    exists k: nat :: IsLastPath(issue, k, id, from) && IsUpgrade(upgrade, issue.fixInfo.value.upgradePaths.value[k])
  }

  ghost predicate IsLastOfPkg(a: AffectedPkg, id: Text, from: seq<Text>, upgrade: seq<LegacyStep>) {
    exists j: nat :: IsLastIssue(a, j, id, from) && IsLastOfIssue(a.issues[j], id, from, upgrade)
  }

  /** `upgrade` is the last upgrade path the response has for this issue and path, or empty if it has none. */
  ghost predicate IsOffered(pkgs: seq<AffectedPkg>, id: Text, from: seq<Text>, upgrade: seq<LegacyStep>) {
    if exists i :: 0 <= i < |pkgs| && PkgOffers(pkgs[i], id, from) then
      exists i: nat :: IsLastPkg(pkgs, i, id, from) && IsLastOfPkg(pkgs[i], id, from, upgrade)
    else upgrade == []
  }

  /** Turn `i` of a loop leaves a value that `fits` accepts for `i`, or leaves the value as it was. */
  ghost predicate Turn(u: nat -> seq<LegacyStep>, has: nat -> bool, fits: (nat, seq<LegacyStep>) -> bool, i: nat) {
    if has(i) then fits(i, u(i + 1)) else u(i + 1) == u(i)
  }

  /** After all turns the value is that of the last turn that changed it. */
  lemma {:induction false} LastTurn(u: nat -> seq<LegacyStep>, has: nat -> bool,
                                    fits: (nat, seq<LegacyStep>) -> bool, n: nat) returns (last: Option<nat>)
    requires forall i :: 0 <= i < n ==> Turn(u, has, fits, i)
    ensures last.None? ==> u(n) == u(0) && forall i :: 0 <= i < n ==> !has(i)
    ensures last.Some? ==> && last.value < n && has(last.value) && fits(last.value, u(n))
                           && forall i :: last.value < i < n ==> !has(i)
  {
    if n == 0 {
      last := None;
    } else {
      assert Turn(u, has, fits, n - 1);
      if has(n - 1) {
        last := Some(n - 1);
      } else {
        last := LastTurn(u, has, fits, n - 1);
      }
    }
  }

  lemma PathTurn(before: seq<Record>, issue: Issue, k: nat, id: Text, from: seq<Text>)
    requires k < |UpgradePathsOf(issue)|
    ensures var paths := UpgradePathsOf(issue);
            var upgrade := LastUpgrade(PathRecords(before, issue, paths[..k + 1]), id, from);
            if Offers(issue, k, id, from) then IsUpgrade(upgrade, paths[k])
            else upgrade == LastUpgrade(PathRecords(before, issue, paths[..k]), id, from)
  {
    var paths := UpgradePathsOf(issue);
    var records, record := PathRecords(before, issue, paths[..k]), ToRecord(issue, paths[k]);
    PathRecordsSnoc(before, issue, paths, k);
    LegacyPathIs(from, Pkgs(paths[k]));
    LegacyUpgradePathIs(paths[k]);
    assert (records + [record])[..|records|] == records;
  }

  lemma IssueTurn(before: seq<Record>, issue: Issue, id: Text, from: seq<Text>)
    ensures var upgrade := LastUpgrade(PathRecords(before, issue, UpgradePathsOf(issue)), id, from);
            if IssueOffers(issue, id, from) then IsLastOfIssue(issue, id, from, upgrade)
            else upgrade == LastUpgrade(before, id, from)
  {
    var paths := UpgradePathsOf(issue);
    var u := (k: nat) => if k <= |paths| then LastUpgrade(PathRecords(before, issue, paths[..k]), id, from) else [];
    var has := (k: nat) => Offers(issue, k, id, from);
    var fits := (k: nat, upgrade: seq<LegacyStep>) => k < |paths| && IsUpgrade(upgrade, paths[k]);
    forall k | 0 <= k < |paths|
      ensures Turn(u, has, fits, k)
    {
      PathTurn(before, issue, k, id, from);
    }
    var last := LastTurn(u, has, fits, |paths|);
    forall l: nat | last.Some? ==> last.value < l
      ensures !(Offers(issue, l, id, from))
    {
      assert l < |paths| ==> !has(l);
    }
    assert last.Some? ==> IsLastPath(issue, last.value, id, from) && fits(last.value, u(|paths|));
    assert paths[..|paths|] == paths;
  }

  lemma PkgTurn(before: seq<Record>, a: AffectedPkg, id: Text, from: seq<Text>)
    ensures var upgrade := LastUpgrade(IssueRecords(before, a.issues), id, from);
            if PkgOffers(a, id, from) then IsLastOfPkg(a, id, from, upgrade)
            else upgrade == LastUpgrade(before, id, from)
  {
    var issues := a.issues;
    var u := (j: nat) => if j <= |issues| then LastUpgrade(IssueRecords(before, issues[..j]), id, from) else [];
    var has := (j: nat) => j < |issues| && IssueOffers(issues[j], id, from);
    var fits := (j: nat, upgrade: seq<LegacyStep>) => j < |issues| && IsLastOfIssue(issues[j], id, from, upgrade);
    forall j | 0 <= j < |issues|
      ensures Turn(u, has, fits, j)
    {
      IssueRecordsSnoc(before, issues, j);
      IssueTurn(IssueRecords(before, issues[..j]), issues[j], id, from);
    }
    var last := LastTurn(u, has, fits, |issues|);
    forall l: nat | last.Some? ==> last.value < l
      ensures !(l < |issues| && IssueOffers(issues[l], id, from))
    {
      assert l < |issues| ==> !has(l);
    }
    assert last.Some? ==> IsLastIssue(a, last.value, id, from) && fits(last.value, u(|issues|));
    assert issues[..|issues|] == issues;
  }

  /** The join gives each issue and path the last upgrade path the response has for them. */
  lemma LastUpgradeIsOffered(pkgs: seq<AffectedPkg>, id: Text, from: seq<Text>)
    ensures IsOffered(pkgs, id, from, LastUpgrade(Records(pkgs), id, from))
  {
    var u := (i: nat) => if i <= |pkgs| then LastUpgrade(Records(pkgs[..i]), id, from) else [];
    var has := (i: nat) => i < |pkgs| && PkgOffers(pkgs[i], id, from);
    var fits := (i: nat, upgrade: seq<LegacyStep>) => i < |pkgs| && IsLastOfPkg(pkgs[i], id, from, upgrade);
    forall i | 0 <= i < |pkgs|
      ensures Turn(u, has, fits, i)
    {
      RecordsSnoc(pkgs, i);
      PkgTurn(Records(pkgs[..i]), pkgs[i], id, from);
    }
    var last := LastTurn(u, has, fits, |pkgs|);
    forall l: nat | last.Some? ==> last.value < l
      ensures !(l < |pkgs| && PkgOffers(pkgs[l], id, from))
    {
      assert l < |pkgs| ==> !has(l);
    }
    assert last.Some? ==> IsLastPkg(pkgs, last.value, id, from) && fits(last.value, u(|pkgs|));
    assert pkgs[..|pkgs|] == pkgs;
  }

  // ----- the vulnerabilities -----

  /** One vulnerable path: an issue of an affected package on one of its paths to the root. */
  datatype Slot = Slot(pkg: Pkg, from: seq<Text>, issue: Issue)

  ghost function PathSlots(pkg: Pkg, from: seq<Text>, issues: seq<Issue>): seq<Slot> {
    seq(|issues|, k requires 0 <= k < |issues| => Slot(pkg, from, issues[k]))
  }

  /** `before`, then the slots of the package on each of its paths. */
  ghost function PkgSlots(before: seq<Slot>, a: AffectedPkg, paths: seq<seq<Pkg>>): seq<Slot> {
    if paths == [] then before
    else
      var from := LegacyPath(Strings.Reversed(paths[|paths| - 1]));
      PkgSlots(before, a, paths[..|paths| - 1]) + PathSlots(a.pkg, from, a.issues)
  }

  /** Every vulnerable path of the response, in iteration order. */
  ghost function Slots(pkgs: seq<AffectedPkg>, pathsToRoot: Pkg -> seq<seq<Pkg>>): seq<Slot> {
    if pkgs == [] then []
    else
      var last := pkgs[|pkgs| - 1];
      PkgSlots(Slots(pkgs[..|pkgs| - 1], pathsToRoot), last, pathsToRoot(last.pkg))
  }

  /** The vulnerabilities of the image's binaries, which have no dependency path. */
  ghost function BinarySlots(pkgs: seq<AffectedPkg>): seq<Slot> {
    if pkgs == [] then []
    else
      var last := pkgs[|pkgs| - 1];
      BinarySlots(pkgs[..|pkgs| - 1]) + PathSlots(last.pkg, BinaryFrom(last.pkg), last.issues)
  }

  function BinaryFrom(pkg: Pkg): seq<Text> {
    [UPSTREAM, pkg.name + AT + (if pkg.version.Some? then pkg.version.value else UNDEFINED)]
  }

  function DataOf<D>(data: map<Text, D>, id: Text): Option<D> {
    if id in data then Some(data[id]) else None
  }

  /** `!!upgradePath[i]`: printed ids always contain '@', so only `false` and a missing entry are falsy. */
  predicate Upgrades(upgrade: seq<LegacyStep>, i: nat) {
    i < |upgrade| && upgrade[i].UpgradeTo?
  }

  ghost predicate IsVuln<D>(v: Vuln<D>, s: Slot, data: map<Text, D>, records: seq<Record>) {
    && s.issue.fixInfo.Some?
    && v.data == (if s.issue.issueId in data then Some(data[s.issue.issueId]) else None)
    && v.from == s.from
    && v.upgradePath == LastUpgrade(records, s.issue.issueId, s.from)
    && v.isUpgradable == (exists i :: 0 <= i < 2 && i < |v.upgradePath| && v.upgradePath[i] != NoUpgrade)
    && v.isPatchable == s.issue.fixInfo.value.isPatchable
    && v.name == s.pkg.name
    && v.version == s.pkg.version
    && v.nearestFixedInVersion == s.issue.fixInfo.value.nearestFixedInVersion
  }

  ghost predicate IsBinaryVuln<D>(v: Vuln<D>, s: Slot, data: map<Text, D>) {
    && s.issue.fixInfo.Some?
    && v.data == (if s.issue.issueId in data then Some(data[s.issue.issueId]) else None)
    && v.from == s.from
    && v.upgradePath == []
    && !v.isUpgradable
    && !v.isPatchable
    && v.name == s.pkg.name
    && v.version == s.pkg.version
    && v.nearestFixedInVersion == s.issue.fixInfo.value.nearestFixedInVersion
  }

  ghost predicate AreVulns<D>(vulns: seq<Vuln<D>>, slots: seq<Slot>, data: map<Text, D>, records: seq<Record>) {
    |vulns| == |slots| && forall k :: 0 <= k < |slots| ==> IsVuln(vulns[k], slots[k], data, records)
  }

  ghost predicate AreBinaryVulns<D>(vulns: seq<Vuln<D>>, slots: seq<Slot>, data: map<Text, D>) {
    |vulns| == |slots| && forall k :: 0 <= k < |slots| ==> IsBinaryVuln(vulns[k], slots[k], data)
  }

  /** Each vulnerability has the last upgrade path of the response for its issue and path, or an empty one. */
  ghost predicate AreOffered<D>(pkgs: seq<AffectedPkg>, slots: seq<Slot>, vulns: seq<Vuln<D>>) {
    && |vulns| == |slots|
    && forall k :: 0 <= k < |slots| ==> IsOffered(pkgs, slots[k].issue.issueId, slots[k].from, vulns[k].upgradePath)
  }

  lemma OfferedToAll<D>(affected: Affected<D>, slots: seq<Slot>, vulns: seq<Vuln<D>>)
    requires AreVulns(vulns, slots, affected.issuesData, Records(affected.pkgs))
    ensures AreOffered(affected.pkgs, slots, vulns)
  {
    forall k | 0 <= k < |slots|
      ensures IsOffered(affected.pkgs, slots[k].issue.issueId, slots[k].from, vulns[k].upgradePath)
    {
      assert IsVuln(vulns[k], slots[k], affected.issuesData, Records(affected.pkgs));
      LastUpgradeIsOffered(affected.pkgs, slots[k].issue.issueId, slots[k].from);
    }
  }

  ghost predicate LacksFixInfo(slots: seq<Slot>) {
    exists k :: 0 <= k < |slots| && slots[k].issue.fixInfo.None?
  }

  lemma TakeOneMore<T>(before: seq<T>, s: seq<T>, k: nat)
    requires k < |s|
    ensures before + s[..k + 1] == before + s[..k] + [s[k]]
  {
  }

  lemma LacksPrefix(some: seq<Slot>, all: seq<Slot>)
    requires LacksFixInfo(some) && some <= all
    ensures LacksFixInfo(all)
  {
    var k :| 0 <= k < |some| && some[k].issue.fixInfo.None?;
    assert all[k] == some[k];
  }

  lemma {:induction false} PkgSlotsPrefix(before: seq<Slot>, a: AffectedPkg, paths: seq<seq<Pkg>>, j: nat)
    requires j <= |paths|
    ensures PkgSlots(before, a, paths[..j]) <= PkgSlots(before, a, paths)
    decreases |paths|
  {
    if j < |paths| {
      PkgSlotsPrefix(before, a, paths[..|paths| - 1], j);
      assert paths[..|paths| - 1][..j] == paths[..j];
    } else {
      assert paths[..j] == paths;
    }
  }

  lemma PkgSlotsSnoc(before: seq<Slot>, a: AffectedPkg, paths: seq<seq<Pkg>>, j: nat)
    requires j < |paths|
    ensures PkgSlots(before, a, paths[..j + 1])
         == PkgSlots(before, a, paths[..j]) + PathSlots(a.pkg, LegacyPath(Strings.Reversed(paths[j])), a.issues)
  {
    assert paths[..j + 1][..j] == paths[..j];
  }

  lemma SlotsSnoc(pkgs: seq<AffectedPkg>, pathsToRoot: Pkg -> seq<seq<Pkg>>, i: nat)
    requires i < |pkgs|
    ensures Slots(pkgs[..i + 1], pathsToRoot)
            == PkgSlots(Slots(pkgs[..i], pathsToRoot), pkgs[i], pathsToRoot(pkgs[i].pkg))
  {
    assert pkgs[..i + 1][..i] == pkgs[..i];
  }

  lemma {:induction false} SlotsPrefix(pkgs: seq<AffectedPkg>, pathsToRoot: Pkg -> seq<seq<Pkg>>, i: nat)
    requires i <= |pkgs|
    ensures Slots(pkgs[..i], pathsToRoot) <= Slots(pkgs, pathsToRoot)
    decreases |pkgs|
  {
    if i < |pkgs| {
      var n := |pkgs| - 1;
      var paths := pathsToRoot(pkgs[n].pkg);
      SlotsPrefix(pkgs[..n], pathsToRoot, i);
      assert pkgs[..n][..i] == pkgs[..i];
      PkgSlotsPrefix(Slots(pkgs[..n], pathsToRoot), pkgs[n], paths, 0);
    } else {
      assert pkgs[..i] == pkgs;
    }
  }

  /** A failure among the first slots is a failure of the whole list. */
  lemma EarlyFailure(pkgs: seq<AffectedPkg>, pathsToRoot: Pkg -> seq<seq<Pkg>>, i: nat, j: nat)
    requires i < |pkgs| && j <= |pathsToRoot(pkgs[i].pkg)|
    requires LacksFixInfo(PkgSlots(Slots(pkgs[..i], pathsToRoot), pkgs[i], pathsToRoot(pkgs[i].pkg)[..j]))
    ensures LacksFixInfo(Slots(pkgs, pathsToRoot))
  {
    var before, paths := Slots(pkgs[..i], pathsToRoot), pathsToRoot(pkgs[i].pkg);
    PkgSlotsPrefix(before, pkgs[i], paths, j);
    LacksPrefix(PkgSlots(before, pkgs[i], paths[..j]), PkgSlots(before, pkgs[i], paths));
    SlotsSnoc(pkgs, pathsToRoot, i);
    SlotsPrefix(pkgs, pathsToRoot, i + 1);
    LacksPrefix(Slots(pkgs[..i + 1], pathsToRoot), Slots(pkgs, pathsToRoot));
  }

  lemma {:induction false} BinarySlotsPrefix(pkgs: seq<AffectedPkg>, i: nat)
    requires i <= |pkgs|
    ensures BinarySlots(pkgs[..i]) <= BinarySlots(pkgs)
    decreases |pkgs|
  {
    if i < |pkgs| {
      BinarySlotsPrefix(pkgs[..|pkgs| - 1], i);
      assert pkgs[..|pkgs| - 1][..i] == pkgs[..i];
    } else {
      assert pkgs[..i] == pkgs;
    }
  }

  /** A binary issue without fix information is among the binary slots. */
  lemma EarlyBinaryFailure(pkgs: seq<AffectedPkg>, i: nat, k: nat)
    requires i < |pkgs| && k < |pkgs[i].issues| && pkgs[i].issues[k].fixInfo.None?
    ensures LacksFixInfo(BinarySlots(pkgs))
  {
    var before, more := BinarySlots(pkgs[..i]), PathSlots(pkgs[i].pkg, BinaryFrom(pkgs[i].pkg), pkgs[i].issues);
    assert pkgs[..i + 1][..i] == pkgs[..i];
    assert (before + more)[|before| + k] == more[k];
    BinarySlotsPrefix(pkgs, i + 1);
    LacksPrefix(BinarySlots(pkgs[..i + 1]), BinarySlots(pkgs));
  }

  /** The innermost loop: one vulnerability per issue of the package, on one path. */
  method AddPathVulns<D>(before: seq<Vuln<D>>, ghost slots: seq<Slot>, a: AffectedPkg, from: seq<Text>,
                         data: map<Text, D>, paths: map<Text, seq<LegacyStep>>, ghost records: seq<Record>)
    returns (r: Result<seq<Vuln<D>>, Failure>)
    requires Answers(paths, records)
    requires AreVulns(before, slots, data, records)
    ensures r.Ok? ==> AreVulns(r.value, slots + PathSlots(a.pkg, from, a.issues), data, records)
    ensures r.Err? ==> LacksFixInfo(slots + PathSlots(a.pkg, from, a.issues))
  {
    var vulns := before;
    ghost var more := PathSlots(a.pkg, from, a.issues);
    for k := 0 to |a.issues|
      invariant AreVulns(vulns, slots + more[..k], data, records)
    {
      var issue := a.issues[k];
      if issue.fixInfo.None? {
        assert (slots + more)[|slots| + k] == more[k];
        return Err(MissingFixInfo);
      }
      var upgradePath := Lookup(paths, VulnPathString(issue.issueId, from));
      var vuln := Vuln(DataOf(data, issue.issueId), from, upgradePath,
                       Upgrades(upgradePath, 0) || Upgrades(upgradePath, 1),
                       issue.fixInfo.value.isPatchable, a.pkg.name, a.pkg.version,
                       issue.fixInfo.value.nearestFixedInVersion);
      assert IsVuln(vuln, more[k], data, records);
      vulns := vulns + [vuln];
      TakeOneMore(slots, more, k);
    }
    assert more[..|a.issues|] == more;
    r := Ok(vulns);
  }

  method CollectVulns<D>(affected: Affected<D>, pathsToRoot: Pkg -> seq<seq<Pkg>>, paths: map<Text, seq<LegacyStep>>,
                         ghost records: seq<Record>) returns (r: Result<seq<Vuln<D>>, Failure>)
    requires Answers(paths, records)
    ensures r.Ok? ==> AreVulns(r.value, Slots(affected.pkgs, pathsToRoot), affected.issuesData, records)
    ensures r.Err? ==> LacksFixInfo(Slots(affected.pkgs, pathsToRoot))
  {
    var pkgs, data := affected.pkgs, affected.issuesData;
    var vulns: seq<Vuln<D>> := [];
    for i := 0 to |pkgs|
      invariant AreVulns(vulns, Slots(pkgs[..i], pathsToRoot), data, records)
    {
      var vulnPaths := pathsToRoot(pkgs[i].pkg);
      ghost var before := Slots(pkgs[..i], pathsToRoot);
      for j := 0 to |vulnPaths|
        invariant AreVulns(vulns, PkgSlots(before, pkgs[i], vulnPaths[..j]), data, records)
      {
        var from := LegacyPath(Strings.Reversed(vulnPaths[j]));
        r := AddPathVulns(vulns, PkgSlots(before, pkgs[i], vulnPaths[..j]), pkgs[i], from, data, paths, records);
        PkgSlotsSnoc(before, pkgs[i], vulnPaths, j);
        if r.Err? {
          EarlyFailure(pkgs, pathsToRoot, i, j + 1);
          return;
        }
        vulns := r.value;
      }
      assert vulnPaths[..|vulnPaths|] == vulnPaths;
      SlotsSnoc(pkgs, pathsToRoot, i);
    }
    assert pkgs[..|pkgs|] == pkgs;
    r := Ok(vulns);
  }

  method CollectBinaryVulns<D>(affected: Affected<D>) returns (r: Result<seq<Vuln<D>>, Failure>)
    ensures r.Ok? ==> AreBinaryVulns(r.value, BinarySlots(affected.pkgs), affected.issuesData)
    ensures r.Err? ==> LacksFixInfo(BinarySlots(affected.pkgs))
  {
    var pkgs, data := affected.pkgs, affected.issuesData;
    var vulns: seq<Vuln<D>> := [];
    for i := 0 to |pkgs|
      invariant AreBinaryVulns(vulns, BinarySlots(pkgs[..i]), data)
    {
      ghost var before := BinarySlots(pkgs[..i]);
      var pkg, issues := pkgs[i].pkg, pkgs[i].issues;
      ghost var more := PathSlots(pkg, BinaryFrom(pkg), issues);
      assert pkgs[..i + 1][..i] == pkgs[..i];
      for k := 0 to |issues|
        invariant AreBinaryVulns(vulns, before + more[..k], data)
      {
        if issues[k].fixInfo.None? {
          EarlyBinaryFailure(pkgs, i, k);
          return Err(MissingFixInfo);
        }
        var vuln := Vuln(DataOf(data, issues[k].issueId), BinaryFrom(pkg), [], false, false, pkg.name, pkg.version,
                         issues[k].fixInfo.value.nearestFixedInVersion);
        assert IsBinaryVuln(vuln, more[k], data);
        vulns := vulns + [vuln];
        TakeOneMore(before, more, k);
      }
      assert more[..|issues|] == more;
    }
    assert pkgs[..|pkgs|] == pkgs;
    r := Ok(vulns);
  }

  /**
   The conversion.  It fails exactly when some vulnerable path has an issue without
   fix information; otherwise it lists exactly one vulnerability per slot, in
   iteration order, each with the upgrade path recorded last for its issue and path.
   */
  method Convert<D>(affected: Affected<D>, binaries: Option<Affected<D>>, pathsToRoot: Pkg -> seq<seq<Pkg>>)
    returns (r: Result<LegacyResult<D>, Failure>)
    ensures var slots := Slots(affected.pkgs, pathsToRoot);
            var extra := if binaries.Some? then BinarySlots(binaries.value.pkgs) else [];
            && (r.Err? <==> LacksFixInfo(slots) || LacksFixInfo(extra))
            && (r.Ok? ==>
                  var vulns := r.value.vulnerabilities;
                  && |vulns| == |slots| + |extra|
                  && AreVulns(vulns[..|slots|], slots, affected.issuesData, Records(affected.pkgs))
                  && AreOffered(affected.pkgs, slots, vulns[..|slots|])
                  && (binaries.Some? ==> AreBinaryVulns(vulns[|slots|..], extra, binaries.value.issuesData))
                  && (r.value.ok <==> slots == [] && extra == []))
  {
    var paths := CollectUpgradePaths(affected.pkgs);
    var found := CollectVulns(affected, pathsToRoot, paths, Records(affected.pkgs));
    if found.Err? {
      return Err(found.error);
    }
    var vulns := found.value;
    ghost var n := |vulns|;
    if binaries.Some? {
      var more := CollectBinaryVulns(binaries.value);
      if more.Err? {
        return Err(more.error);
      }
      vulns := vulns + more.value;
      assert vulns[n..] == more.value;
    }
    assert vulns[..n] == found.value;
    assert forall k :: 0 <= k < n ==>
      IsVuln(found.value[k], Slots(affected.pkgs, pathsToRoot)[k], affected.issuesData, Records(affected.pkgs));
    OfferedToAll(affected, Slots(affected.pkgs, pathsToRoot), found.value);
    r := Ok(LegacyResult(vulns, |vulns| == 0));
  }

  // ----- how many there are, and where -----

  /** The number of paths times issues, summed over the packages. */
  ghost function SlotCount(pkgs: seq<AffectedPkg>, pathsToRoot: Pkg -> seq<seq<Pkg>>): nat {
    if pkgs == [] then 0
    else
      var last := pkgs[|pkgs| - 1];
      SlotCount(pkgs[..|pkgs| - 1], pathsToRoot) + |pathsToRoot(last.pkg)| * |last.issues|
  }

  lemma {:induction false} PkgSlotsCount(before: seq<Slot>, a: AffectedPkg, paths: seq<seq<Pkg>>)
    ensures |PkgSlots(before, a, paths)| == |before| + |paths| * |a.issues|
    decreases |paths|
  {
    if paths != [] {
      PkgSlotsCount(before, a, paths[..|paths| - 1]);
      assert |paths| * |a.issues| == (|paths| - 1) * |a.issues| + |a.issues|;
    }
  }

  lemma {:induction false} SlotsCount(pkgs: seq<AffectedPkg>, pathsToRoot: Pkg -> seq<seq<Pkg>>)
    ensures |Slots(pkgs, pathsToRoot)| == SlotCount(pkgs, pathsToRoot)
    decreases |pkgs|
  {
    if pkgs != [] {
      var last := pkgs[|pkgs| - 1];
      SlotsCount(pkgs[..|pkgs| - 1], pathsToRoot);
      PkgSlotsCount(Slots(pkgs[..|pkgs| - 1], pathsToRoot), last, pathsToRoot(last.pkg));
    }
  }

  /** Package `i`, path `j` and issue `k` have their one slot at the place iteration order gives it. */
  lemma {:induction false} SlotAt(pkgs: seq<AffectedPkg>, pathsToRoot: Pkg -> seq<seq<Pkg>>, i: nat, j: nat, k: nat)
    requires i < |pkgs| && j < |pathsToRoot(pkgs[i].pkg)| && k < |pkgs[i].issues|
    ensures var at := SlotCount(pkgs[..i], pathsToRoot) + j * |pkgs[i].issues| + k;
            && at < |Slots(pkgs, pathsToRoot)|
            && var slot, path := Slots(pkgs, pathsToRoot)[at], pathsToRoot(pkgs[i].pkg)[j];
            && slot.pkg == pkgs[i].pkg
            && slot.issue == pkgs[i].issues[k]
            && |slot.from| == |path|
            && forall l :: 0 <= l < |path| ==> IsPkgId(slot.from[l], path[|path| - 1 - l])
  {
    var before, a, paths := Slots(pkgs[..i], pathsToRoot), pkgs[i], pathsToRoot(pkgs[i].pkg);
    SlotsCount(pkgs[..i], pathsToRoot);
    PkgSlotsCount(before, a, paths[..j]);
    var upTo := PkgSlots(before, a, paths[..j]);
    var here := PathSlots(a.pkg, LegacyPath(Strings.Reversed(paths[j])), a.issues);
    PkgSlotsSnoc(before, a, paths, j);
    assert (upTo + here)[|upTo| + k] == here[k];
    PkgSlotsPrefix(before, a, paths, j + 1);
    SlotsSnoc(pkgs, pathsToRoot, i);
    SlotsPrefix(pkgs, pathsToRoot, i + 1);
    LegacyPathIs(LegacyPath(Strings.Reversed(paths[j])), Strings.Reversed(paths[j]));
  }

  /** The number of issues of the binary packages. */
  ghost function IssueCount(pkgs: seq<AffectedPkg>): nat {
    if pkgs == [] then 0 else IssueCount(pkgs[..|pkgs| - 1]) + |pkgs[|pkgs| - 1].issues|
  }

  lemma {:induction false} BinarySlotsCount(pkgs: seq<AffectedPkg>)
    ensures |BinarySlots(pkgs)| == IssueCount(pkgs)
  {
    if pkgs != [] {
      BinarySlotsCount(pkgs[..|pkgs| - 1]);
    }
  }

  /** "Upstream" and the id of the package, in which a missing version reads "undefined". */
  ghost predicate IsBinaryFrom(from: seq<Text>, pkg: Pkg) {
    && |from| == 2
    && from[0] == [0x55, 0x70, 0x73, 0x74, 0x72, 0x65, 0x61, 0x6D]
    && match pkg.version
       case None => from[1] == pkg.name + [0x40] + [0x75, 0x6E, 0x64, 0x65, 0x66, 0x69, 0x6E, 0x65, 0x64]
       case Some(version) => from[1] == pkg.name + [0x40] + version
  }

  /** Issue `k` of binary package `i` has its one slot at the place iteration order gives it. */
  lemma {:induction false} BinarySlotAt(pkgs: seq<AffectedPkg>, i: nat, k: nat)
    requires i < |pkgs| && k < |pkgs[i].issues|
    ensures var at := IssueCount(pkgs[..i]) + k;
            && at < |BinarySlots(pkgs)|
            && var slot := BinarySlots(pkgs)[at];
            && slot.pkg == pkgs[i].pkg
            && slot.issue == pkgs[i].issues[k]
            && IsBinaryFrom(slot.from, pkgs[i].pkg)
  {
    var upTo, a := BinarySlots(pkgs[..i]), pkgs[i];
    var here := PathSlots(a.pkg, BinaryFrom(a.pkg), a.issues);
    BinarySlotsCount(pkgs[..i]);
    assert pkgs[..i + 1][..i] == pkgs[..i];
    assert (upTo + here)[|upTo| + k] == here[k];
    BinarySlotsPrefix(pkgs, i + 1);
  }
}
