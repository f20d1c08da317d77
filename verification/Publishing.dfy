/**
 Publishing the packages of the repository (internal/scripts/lib/publishing.ts): the depth-first sort
 that puts dependencies first, the retry loop, and the loop that publishes one package after another.
 */
module Publishing {
  import opened Prelude

  datatype PackageDetails = PackageDetails(name: string, localDeps: seq<string>, version: string)

  type Packages = map<string, PackageDetails>

  /** Packages are stored under their own names. */
  predicate WellKeyed(packages: Packages) {
    forall name | name in packages :: packages[name].name == name
  }

  predicate DependsOn(packages: Packages, name: string, dep: string) {
    name in packages && dep in packages[name].localDeps
  }

  /** Every local dependency is one of the packages. */
  predicate Closed(packages: Packages) {
    forall name, dep | name in packages && dep in packages[name].localDeps :: dep in packages
  }

  predicate IsChain(packages: Packages, path: seq<string>) {
    forall i | 0 <= i < |path| - 1 :: DependsOn(packages, path[i], path[i + 1])
  }

  /** from depends, over any number of steps, on to. */
  ghost predicate Reaches(packages: Packages, from: string, to: string) {
    exists path: seq<string> :: path != [] && path[0] == from && path[|path| - 1] == to && IsChain(packages, path)
  }

  ghost predicate OnCycle(packages: Packages, name: string, dep: string) {
    DependsOn(packages, name, dep) && Reaches(packages, dep, name)
  }

  ghost predicate Acyclic(packages: Packages) {
    forall name, dep :: !OnCycle(packages, name, dep)
  }

  function Names(sorted: seq<PackageDetails>): set<string> {
    set i | 0 <= i < |sorted| :: sorted[i].name
  }

  /** The packages so far, each once, each after its dependencies, except along the edges of a cycle. */
  ghost predicate Ordered(packages: Packages, sorted: seq<PackageDetails>) {
    && (forall i | 0 <= i < |sorted| :: sorted[i].name in packages && sorted[i] == packages[sorted[i].name])
    && (forall i, j | 0 <= i < j < |sorted| :: sorted[i].name != sorted[j].name)
    && forall i, dep | 0 <= i < |sorted| && dep in sorted[i].localDeps ::
         dep in Names(sorted[..i]) || OnCycle(packages, sorted[i].name, dep)
  }

  function Elements(path: seq<string>): set<string> {
    set name | name in path
  }

  // ---------------------------------------------------------------- the order, written out

  /** The names with all their dependencies in front of them, repeated as often as they are needed. */
  ghost function UnfoldAll(packages: Packages, names: seq<string>, fuel: nat): Option<seq<string>>
    decreases fuel, |names|
  {
    if names == [] then Some([])
    else
      var n := |names| - 1;
      match (UnfoldAll(packages, names[..n], fuel), Unfold(packages, names[n], fuel))
      case (Some(front), Some(last)) => Some(front + last)
      case _ => None
  }

  /** None when the dependencies go deeper than the fuel, as they do on a cycle. */
  ghost function Unfold(packages: Packages, name: string, fuel: nat): Option<seq<string>>
    decreases fuel, 0
  {
    if fuel == 0 || name !in packages then None
    else
      match UnfoldAll(packages, packages[name].localDeps, fuel - 1)
      case None => None
      case Some(deps) => Some(deps + [name])
  }

  /** The list with those of the names that it does not have yet, each once. */
  function AddNew(list: seq<string>, names: seq<string>): seq<string> {
    if names == [] then list
    else
      var n := |names| - 1;
      var front := AddNew(list, names[..n]);
      if names[n] in front then front else front + [names[n]]
  }

  function NameList(sorted: seq<PackageDetails>): seq<string> {
    seq(|sorted|, i requires 0 <= i < |sorted| => sorted[i].name)
  }

  /** From the one list to the other, the new names are added in the order in which they are needed. */
  ghost predicate AddedInOrder(packages: Packages, before: seq<PackageDetails>, names: seq<string>,
                               after: seq<PackageDetails>) {
    forall fuel: nat :: UnfoldAll(packages, names, fuel).Some? ==>
      NameList(after) == AddNew(NameList(before), UnfoldAll(packages, names, fuel).value)
  }

  lemma {:induction false} AddNewConcat(list: seq<string>, a: seq<string>, b: seq<string>)
    ensures AddNew(list, a + b) == AddNew(AddNew(list, a), b)
  {
    if b == [] {
      assert a + b == a;
    } else {
      var n := |b| - 1;
      assert (a + b)[..|a| + n] == a + b[..n] && (a + b)[|a| + n] == b[n];
      AddNewConcat(list, a, b[..n]);
    }
  }

  lemma {:induction false} AddNothing(list: seq<string>, names: seq<string>)
    requires forall n | n in names :: n in list
    ensures AddNew(list, names) == list
  {
    if names != [] {
      var n := |names| - 1;
      assert names[n] in names && forall m | m in names[..n] :: m in names;
      AddNothing(list, names[..n]);
    }
  }

  lemma UnfoldOne(packages: Packages, name: string, fuel: nat)
    ensures UnfoldAll(packages, [name], fuel) == Unfold(packages, name, fuel)
  {
    assert [name][..0] == [];
    if Unfold(packages, name, fuel).Some? {
      assert [] + Unfold(packages, name, fuel).value == Unfold(packages, name, fuel).value;
    }
  }

  lemma {:induction false} UnfoldsEach(packages: Packages, names: seq<string>, fuel: nat)
    requires UnfoldAll(packages, names, fuel).Some?
    ensures forall n | n in names :: Unfold(packages, n, fuel).Some?
    ensures forall x | x in UnfoldAll(packages, names, fuel).value ::
              exists n :: n in names && Unfold(packages, n, fuel).Some? && x in Unfold(packages, n, fuel).value
  {
    if names != [] {
      hide Unfold;
      var n := |names| - 1;
      UnfoldsEach(packages, names[..n], fuel);
      assert names == names[..n] + [names[n]] && names[n] in names;
      assert forall m | m in names[..n] :: m in names;
    }
  }

  /** What a chain leads to can be unfolded with less fuel. */
  lemma {:induction false} ChainUnfolds(packages: Packages, path: seq<string>, fuel: nat)
    requires path != [] && IsChain(packages, path) && Unfold(packages, path[0], fuel).Some?
    ensures fuel >= |path| && Unfold(packages, path[|path| - 1], fuel - (|path| - 1)).Some?
  {
    if |path| > 1 {
      assert DependsOn(packages, path[0], path[1]);
      UnfoldsEach(packages, packages[path[0]].localDeps, fuel - 1);
      var rest := path[1..];
      forall i | 0 <= i < |rest| - 1 ensures DependsOn(packages, rest[i], rest[i + 1]) {
        assert DependsOn(packages, path[i + 1], path[i + 2]);
      }
      ChainUnfolds(packages, rest, fuel - 1);
    }
  }

  lemma {:induction false} CycleNeverUnfolds(packages: Packages, path: seq<string>, fuel: nat)
    requires |path| > 1 && IsChain(packages, path) && path[0] == path[|path| - 1]
    ensures Unfold(packages, path[0], fuel).None?
    decreases fuel
  {
    if Unfold(packages, path[0], fuel).Some? {
      ChainUnfolds(packages, path, fuel);
      CycleNeverUnfolds(packages, path, fuel - (|path| - 1));
    }
  }

  lemma OnCycleNeverUnfolds(packages: Packages, name: string, dep: string, fuel: nat)
    requires OnCycle(packages, name, dep)
    ensures Unfold(packages, name, fuel).None?
  {
    var path: seq<string> :| path != [] && path[0] == dep && path[|path| - 1] == name && IsChain(packages, path);
    var cycle := [name] + path;
    forall i | 0 <= i < |cycle| - 1 ensures DependsOn(packages, cycle[i], cycle[i + 1]) {
      assert i > 0 ==> DependsOn(packages, path[i - 1], path[i]);
    }
    CycleNeverUnfolds(packages, cycle, fuel);
  }

  /** All that a sorted package needs is sorted. */
  lemma {:induction false} SortedHasAll(packages: Packages, sorted: seq<PackageDetails>, name: string, fuel: nat)
    requires Ordered(packages, sorted) && name in Names(sorted) && Unfold(packages, name, fuel).Some?
    ensures forall x | x in Unfold(packages, name, fuel).value :: x in NameList(sorted)
    decreases fuel
  {
    hide OnCycle;
    var i :| 0 <= i < |sorted| && sorted[i].name == name;
    assert NameList(sorted)[i] == name;
    var deps := packages[name].localDeps;
    UnfoldsEach(packages, deps, fuel - 1);
    forall x | x in UnfoldAll(packages, deps, fuel - 1).value ensures x in NameList(sorted) {
      var dep :| dep in deps && Unfold(packages, dep, fuel - 1).Some? && x in Unfold(packages, dep, fuel - 1).value;
      assert dep in sorted[i].localDeps;
      if dep !in Names(sorted[..i]) {
        OnCycleNeverUnfolds(packages, name, dep, fuel);
      } else {
        var j :| 0 <= j < i && sorted[..i][j].name == dep;
        assert sorted[j].name == dep;
        SortedHasAll(packages, sorted, dep, fuel - 1);
      }
    }
  }

  lemma NothingAdded(packages: Packages, sorted: seq<PackageDetails>, name: string)
    requires Ordered(packages, sorted) && name in Names(sorted)
    ensures AddedInOrder(packages, sorted, [name], sorted)
  {
    forall fuel: nat | UnfoldAll(packages, [name], fuel).Some?
      ensures NameList(sorted) == AddNew(NameList(sorted), UnfoldAll(packages, [name], fuel).value)
    {
      UnfoldOne(packages, name, fuel);
      SortedHasAll(packages, sorted, name, fuel);
      AddNothing(NameList(sorted), Unfold(packages, name, fuel).value);
    }
  }

  /** A package on the path is reached again only on a cycle. */
  lemma AgainOnPath(packages: Packages, path: seq<string>, sorted: seq<PackageDetails>)
    requires path != [] && IsChain(packages, path) && path[|path| - 1] in path[..|path| - 1]
    ensures AddedInOrder(packages, sorted, [path[|path| - 1]], sorted)
  {
    var name := path[|path| - 1];
    var i :| 0 <= i < |path| - 1 && path[i] == name;
    var cycle := path[i..];
    forall k | 0 <= k < |cycle| - 1 ensures DependsOn(packages, cycle[k], cycle[k + 1]) {
      assert DependsOn(packages, path[i + k], path[i + k + 1]);
    }
    forall fuel: nat ensures UnfoldAll(packages, [name], fuel).None? {
      UnfoldOne(packages, name, fuel);
      CycleNeverUnfolds(packages, cycle, fuel);
    }
  }

  lemma AddedOneMore(packages: Packages, before: seq<PackageDetails>, names: seq<string>, name: string,
                     between: seq<PackageDetails>, after: seq<PackageDetails>)
    requires AddedInOrder(packages, before, names, between) && AddedInOrder(packages, between, [name], after)
    ensures AddedInOrder(packages, before, names + [name], after)
  {
    hide Unfold;
    assert (names + [name])[..|names|] == names;
    forall fuel: nat | UnfoldAll(packages, names + [name], fuel).Some?
      ensures NameList(after) == AddNew(NameList(before), UnfoldAll(packages, names + [name], fuel).value)
    {
      UnfoldOne(packages, name, fuel);
      AddNewConcat(NameList(before), UnfoldAll(packages, names, fuel).value, Unfold(packages, name, fuel).value);
    }
  }

  lemma AddedItself(packages: Packages, before: seq<PackageDetails>, p: PackageDetails, after: seq<PackageDetails>)
    requires p.name in packages && p == packages[p.name] && p.name !in Names(after)
    requires AddedInOrder(packages, before, p.localDeps, after)
    ensures AddedInOrder(packages, before, [p.name], after + [p])
  {
    hide UnfoldAll;
    assert NameList(after + [p]) == NameList(after) + [p.name];
    assert p.name !in NameList(after);
    forall fuel: nat | UnfoldAll(packages, [p.name], fuel).Some?
      ensures NameList(after + [p]) == AddNew(NameList(before), UnfoldAll(packages, [p.name], fuel).value)
    {
      UnfoldOne(packages, p.name, fuel);
      var deps := UnfoldAll(packages, p.localDeps, fuel - 1).value;
      AddNewConcat(NameList(before), deps, [p.name]);
      AddOne(NameList(after), p.name);
    }
  }

  lemma AddOne(list: seq<string>, name: string)
    ensures AddNew(list, [name]) == if name in list then list else list + [name]
  {
    assert [name][..0] == [];
  }

  lemma NothingToAdd(packages: Packages, sorted: seq<PackageDetails>)
    ensures AddedInOrder(packages, sorted, [], sorted)
  {
  }

  class PackageSorter {
    const packages: Packages
    var sorted: seq<PackageDetails>
    var visited: set<string>

    constructor (packages: Packages)
      ensures this.packages == packages && sorted == [] && visited == {}
    {
      this.packages, sorted, visited := packages, [], {};
    }

    /** The packages being visited are the visited ones that are not yet sorted: the names on the path. */
    ghost predicate Valid(path: seq<string>)
      reads this
    {
      && Ordered(packages, sorted)
      && visited == Names(sorted) + Elements(path)
      && Names(sorted) !! Elements(path)
      && IsChain(packages, path)
    }

    /** ok is false where the code throws because a package cannot be found. */
    method Visit(packageName: string, path: seq<string>) returns (ok: bool)
      requires path != [] && path[|path| - 1] == packageName
      requires WellKeyed(packages) && Valid(path[..|path| - 1]) && IsChain(packages, path)
      modifies this
      ensures ok ==> Valid(path[..|path| - 1]) && packageName in visited && old(visited) <= visited
      ensures ok ==> packageName in Names(sorted) || packageName in path[..|path| - 1]
      ensures ok ==> AddedInOrder(packages, old(sorted), [packageName], sorted)
      ensures !ok ==> packageName !in packages || !Closed(packages)
      decreases packages.Keys - visited
    {
      ghost var ancestors := path[..|path| - 1];
      assert path == ancestors + [packageName];
      hide AddedInOrder, OnCycle;
      if packageName in visited {
        if packageName in Names(sorted) {
          NothingAdded(packages, sorted, packageName);
        } else {
          AgainOnPath(packages, path, sorted);
        }
        return true;
      }
      NothingToAdd(packages, sorted);
      visited := visited + {packageName};
      if packageName !in packages {
        return false;
      }
      var packageDetails := packages[packageName];
      assert Elements(path) == Elements(ancestors) + {packageName};
      assert packageName in packages.Keys - old(visited);
      for i := 0 to |packageDetails.localDeps|
        invariant Valid(path) && old(visited) + {packageName} <= visited
        invariant AddedInOrder(packages, old(sorted), packageDetails.localDeps[..i], sorted)
        invariant forall j | 0 <= j < i :: packageDetails.localDeps[j] in visited
      {
        var dep := packageDetails.localDeps[i];
        assert DependsOn(packages, packageName, dep);
        assert (path + [dep])[..|path|] == path;
        ghost var between := sorted;
        ok := Visit(dep, path + [dep]);
        if !ok {
          return;
        }
        AddedOneMore(packages, old(sorted), packageDetails.localDeps[..i], dep, between, sorted);
        assert packageDetails.localDeps[..i + 1] == packageDetails.localDeps[..i] + [dep];
      }
      assert packageDetails.localDeps[..|packageDetails.localDeps|] == packageDetails.localDeps;
      forall dep | dep in packageDetails.localDeps
        ensures dep in Names(sorted) || OnCycle(packages, packageName, dep)
      {
        if dep !in Names(sorted) {
          CycleThrough(packages, path, dep);
        }
      }
      PushOrdered(packages, sorted, packageDetails);
      AddedItself(packages, old(sorted), packageDetails, sorted);
      sorted := sorted + [packageDetails];
      ok := true;
    }

    /** The whole sort: it succeeds exactly when no dependency is missing, and lists each package once. */
    method TopologicalSort(names: seq<string>) returns (ok: bool)
      requires WellKeyed(packages) && Elements(names) == packages.Keys && sorted == [] && visited == {}
      modifies this
      ensures ok <==> Closed(packages)
      ensures ok ==> Ordered(packages, sorted) && Names(sorted) == packages.Keys && |sorted| == |packages|
      ensures ok ==> AddedInOrder(packages, [], names, sorted)
    {
      hide AddedInOrder;
      NothingToAdd(packages, sorted);
      for i := 0 to |names|
        invariant Valid([])
        invariant forall j | 0 <= j < i :: names[j] in Names(sorted)
        invariant AddedInOrder(packages, [], names[..i], sorted)
      {
        assert names[i] in Elements(names);
        ghost var between := sorted;
        assert [names[i]][..0] == [];
        ghost var before := Names(sorted);
        ok := Visit(names[i], [names[i]]);
        if !ok {
          return;
        }
        assert visited == Names(sorted) && before <= Names(sorted);
        AddedOneMore(packages, [], names[..i], names[i], between, sorted);
        assert names[..i + 1] == names[..i] + [names[i]];
      }
      assert names[..|names|] == names;
      SortedIsEverything(packages, names, sorted);
      ok := true;
    }
  }

  lemma CycleThrough(packages: Packages, path: seq<string>, dep: string)
    requires path != [] && IsChain(packages, path) && dep in path
    requires DependsOn(packages, path[|path| - 1], dep)
    ensures OnCycle(packages, path[|path| - 1], dep)
  {
    var i :| 0 <= i < |path| && path[i] == dep;
    var back := path[i..];
    assert back[0] == dep && back[|back| - 1] == path[|path| - 1];
    assert IsChain(packages, back);
  }

  lemma NamesOfLonger(sorted: seq<PackageDetails>, p: PackageDetails)
    ensures Names(sorted + [p]) == Names(sorted) + {p.name}
  {
    var longer := sorted + [p];
    forall name | name in Names(sorted) ensures name in Names(longer) {
      var i :| 0 <= i < |sorted| && sorted[i].name == name;
      assert longer[i].name == name;
    }
    assert longer[|sorted|].name == p.name;
  }

  lemma PushOrdered(packages: Packages, sorted: seq<PackageDetails>, p: PackageDetails)
    requires Ordered(packages, sorted) && p.name in packages && p == packages[p.name] && p.name !in Names(sorted)
    requires forall dep | dep in p.localDeps :: dep in Names(sorted) || OnCycle(packages, p.name, dep)
    ensures Ordered(packages, sorted + [p]) && Names(sorted + [p]) == Names(sorted) + {p.name}
  {
    var longer := sorted + [p];
    NamesOfLonger(sorted, p);
    forall i | 0 <= i < |sorted| ensures sorted[i].name != p.name {
      assert sorted[i].name in Names(sorted);
    }
    forall i, dep | 0 <= i < |longer| && dep in longer[i].localDeps
      ensures dep in Names(longer[..i]) || OnCycle(packages, longer[i].name, dep)
    {
      if i < |sorted| {
        assert longer[..i] == sorted[..i];
      } else {
        assert longer[..i] == sorted;
      }
    }
  }

  lemma SortedIsEverything(packages: Packages, names: seq<string>, sorted: seq<PackageDetails>)
    requires Ordered(packages, sorted) && Elements(names) == packages.Keys
    requires forall j | 0 <= j < |names| :: names[j] in Names(sorted)
    ensures Names(sorted) == packages.Keys && |sorted| == |packages| && Closed(packages)
  {
    forall name | name in packages ensures name in Names(sorted) {
      assert name in Elements(names);
    }
    assert Names(sorted) == packages.Keys;
    DistinctCount(sorted);
    forall name, dep | name in packages && dep in packages[name].localDeps ensures dep in packages {
      var i :| 0 <= i < |sorted| && sorted[i].name == name;
      if dep in Names(sorted[..i]) {
        var j :| 0 <= j < i && sorted[..i][j].name == dep;
      } else {
        assert OnCycle(packages, name, dep);
        ReachesFromPackage(packages, dep, name);
      }
    }
  }

  lemma ReachesFromPackage(packages: Packages, from: string, to: string)
    requires Reaches(packages, from, to) && to in packages
    ensures from in packages
  {
    var path: seq<string> :| path != [] && path[0] == from && path[|path| - 1] == to && IsChain(packages, path);
    if |path| > 1 {
      assert DependsOn(packages, path[0], path[1]);
    }
  }

  lemma {:induction false} DistinctCount(sorted: seq<PackageDetails>)
    requires forall i, j | 0 <= i < j < |sorted| :: sorted[i].name != sorted[j].name
    ensures |Names(sorted)| == |sorted|
  {
    if sorted != [] {
      var n := |sorted| - 1;
      assert sorted == sorted[..n] + [sorted[n]];
      NamesOfLonger(sorted[..n], sorted[n]);
      DistinctCount(sorted[..n]);
      assert sorted[n].name !in Names(sorted[..n]);
    }
  }

  // ---------------------------------------------------------------- dependencies first

  predicate DepsFirst(sorted: seq<PackageDetails>) {
    forall i, dep | 0 <= i < |sorted| && dep in sorted[i].localDeps :: dep in Names(sorted[..i])
  }

  function PositionOf(sorted: seq<PackageDetails>, name: string): (i: nat)
    requires name in Names(sorted)
    ensures i < |sorted| && sorted[i].name == name
  {
    if sorted[0].name == name then 0
    else
      assert exists i | 1 <= i < |sorted| :: sorted[i].name == name && sorted[1..][i - 1].name == name;
      1 + PositionOf(sorted[1..], name)
  }

  /** With dependencies first, a chain of dependencies goes back in the list. */
  lemma {:induction false} ChainGoesBack(packages: Packages, sorted: seq<PackageDetails>, path: seq<string>)
    requires Ordered(packages, sorted) && DepsFirst(sorted) && Names(sorted) == packages.Keys
    requires path != [] && path[0] in packages && IsChain(packages, path)
    ensures path[|path| - 1] in packages
    ensures PositionOf(sorted, path[|path| - 1]) + |path| - 1 <= PositionOf(sorted, path[0])
  {
    if |path| > 1 {
      StepGoesBack(packages, sorted, path[0], path[1]);
      assert IsChain(packages, path[1..]) by {
        forall i | 0 <= i < |path[1..]| - 1 ensures DependsOn(packages, path[1..][i], path[1..][i + 1]) {
          assert DependsOn(packages, path[i + 1], path[i + 2]);
        }
      }
      ChainGoesBack(packages, sorted, path[1..]);
    }
  }

  lemma StepGoesBack(packages: Packages, sorted: seq<PackageDetails>, name: string, dep: string)
    requires Ordered(packages, sorted) && DepsFirst(sorted) && Names(sorted) == packages.Keys
    requires DependsOn(packages, name, dep)
    ensures dep in packages && PositionOf(sorted, dep) < PositionOf(sorted, name)
  {
    var i := PositionOf(sorted, name);
    var j :| 0 <= j < i && sorted[..i][j].name == dep;
    assert sorted[j].name == dep && dep in Names(sorted);
  }

  /**
   The sorted list has every package after all its local dependencies exactly when the dependency graph
   has no cycle.
   */
  lemma DepsFirstIffAcyclic(packages: Packages, sorted: seq<PackageDetails>)
    requires Ordered(packages, sorted) && Names(sorted) == packages.Keys
    ensures DepsFirst(sorted) <==> Acyclic(packages)
  {
    if DepsFirst(sorted) {
      forall name, dep ensures !OnCycle(packages, name, dep) {
        if OnCycle(packages, name, dep) {
          StepGoesBack(packages, sorted, name, dep);
          var path: seq<string> :|
            path != [] && path[0] == dep && path[|path| - 1] == name && IsChain(packages, path);
          ChainGoesBack(packages, sorted, path);
        }
      }
    }
  }

  lemma {:induction false} MoreFuel(packages: Packages, names: seq<string>, fuel: nat, more: nat)
    requires fuel <= more && UnfoldAll(packages, names, fuel).Some?
    ensures UnfoldAll(packages, names, more) == UnfoldAll(packages, names, fuel)
    decreases fuel, |names|
  {
    if names != [] {
      var n := |names| - 1;
      MoreFuel(packages, names[..n], fuel, more);
      MoreFuel(packages, packages[names[n]].localDeps, fuel - 1, more - 1);
    }
  }

  lemma {:induction false} UnfoldsFrom(packages: Packages, sorted: seq<PackageDetails>, names: seq<string>, i: nat)
    requires Ordered(packages, sorted) && DepsFirst(sorted) && i <= |sorted|
    requires forall n | n in names :: n in Names(sorted[..i])
    ensures UnfoldAll(packages, names, i).Some?
    decreases i, |names|
  {
    if names != [] {
      var n := |names| - 1;
      assert names[n] in names && forall m | m in names[..n] :: m in names;
      UnfoldsFrom(packages, sorted, names[..n], i);
      var j :| 0 <= j < i && sorted[..i][j].name == names[n];
      assert sorted[j].name == names[n];
      UnfoldsFrom(packages, sorted, sorted[j].localDeps, j);
      MoreFuel(packages, sorted[j].localDeps, j, i - 1);
    }
  }

  /**
   Without cycles the whole order is determined: all names, each with its dependencies in front of it, and of the
   repetitions only the first ones.
   */
  lemma OrderWithoutCycles(packages: Packages, names: seq<string>, sorted: seq<PackageDetails>)
    requires Ordered(packages, sorted) && Names(sorted) == packages.Keys && Elements(names) == packages.Keys
    requires AddedInOrder(packages, [], names, sorted) && Acyclic(packages)
    ensures UnfoldAll(packages, names, |sorted|).Some?
    ensures NameList(sorted) == AddNew([], UnfoldAll(packages, names, |sorted|).value)
  {
    hide Acyclic, Ordered;
    DepsFirstIffAcyclic(packages, sorted);
    assert sorted[..|sorted|] == sorted;
    assert forall n | n in names :: n in Elements(names);
    UnfoldsFrom(packages, sorted, names, |sorted|);
    assert NameList([]) == [];
  }

  /** Two packages that depend on each other: the sort succeeds and lists both, one before its dependency. */
  method CycleBreaksTheOrder() returns (packages: Packages, ok: bool, sorted: seq<PackageDetails>)
    ensures packages == map["a" := PackageDetails("a", ["b"], "1.0.0"), "b" := PackageDetails("b", ["a"], "1.0.0")]
    ensures ok && Ordered(packages, sorted) && Names(sorted) == packages.Keys
    ensures !DepsFirst(sorted)
  {
    packages := map["a" := PackageDetails("a", ["b"], "1.0.0"), "b" := PackageDetails("b", ["a"], "1.0.0")];
    var sorter := new PackageSorter(packages);
    ok := sorter.TopologicalSort(["a", "b"]);
    sorted := sorter.sorted;
    var path := ["b", "a"];
    assert path[0] == "b" && path[|path| - 1] == "a" && IsChain(packages, path);
    assert OnCycle(packages, "a", "b");
    DepsFirstIffAcyclic(packages, sorted);
  }

  // ---------------------------------------------------------------- retrying and publishing

  /**
   Calls the attempt until it succeeds or numAttempts have failed, but at least once; attempt(k) is
   whether the call with number k succeeds.
   */
  method Retry(attempt: nat -> bool, numAttempts: int) returns (ok: bool, calls: nat)
    ensures 1 <= calls && (calls <= numAttempts || calls == 1)
    ensures forall k | 0 <= k < calls - 1 :: !attempt(k)
    ensures ok == attempt(calls - 1)
    ensures !ok ==> calls >= numAttempts
  {
    var attempts := 0;
    while true
      invariant attempts == 0 || attempts < numAttempts
      invariant forall k | 0 <= k < attempts :: !attempt(k)
      decreases numAttempts - attempts
    {
      if attempt(attempts) {
        return true, attempts + 1;
      }
      attempts := attempts + 1;
      if attempts >= numAttempts {
        return false, attempts;
      }
    }
  }

  datatype Event = TriedToPublish(name: string, calls: nat, ok: bool) | Checked(name: string, calls: nat, ok: bool)

  /** How the attempts turn out: whether the call with a given number succeeds for a package. */
  type Attempts = (string, nat) -> bool

  predicate Succeeds(e: Event, published: Attempts, confirmed: Attempts, k: nat) {
    if e.TriedToPublish? then published(e.name, k) else confirmed(e.name, k)
  }

  /** The event reports what a retry of at most 5 or 50 attempts comes to. */
  predicate Truthful(e: Event, published: Attempts, confirmed: Attempts) {
    && 1 <= e.calls <= (if e.TriedToPublish? then 5 else 50)
    && (forall k | 0 <= k < e.calls - 1 :: !Succeeds(e, published, confirmed, k))
    && e.ok == Succeeds(e, published, confirmed, e.calls - 1)
    && (!e.ok ==> e.calls == if e.TriedToPublish? then 5 else 50)
  }

  /** The packages are published in the given order, each confirmed before the next, up to the first failure. */
  predicate Follows(log: seq<Event>, order: seq<PackageDetails>) {
    && |log| <= 2 * |order|
    && (forall i | 0 <= i < |log| :: log[i].name == order[i / 2].name && (log[i].TriedToPublish? <==> i % 2 == 0))
    && forall i | 0 <= i < |log| - 1 :: log[i].ok
  }

  /**
   No package is offered to the registry before the registry has confirmed all its local dependencies that
   do not depend back on it.
   */
  ghost predicate SafelyPublished(packages: Packages, log: seq<Event>) {
    forall i, dep | 0 <= i < |log| && log[i].TriedToPublish? && DependsOn(packages, log[i].name, dep) ::
      ConfirmedBefore(log, i, dep) || OnCycle(packages, log[i].name, dep)
  }

  ghost predicate ConfirmedBefore(log: seq<Event>, i: int, dep: string) {
    exists j :: 0 <= j < i && j < |log| && log[j].Checked? && log[j].ok && log[j].name == dep
  }

  /** Following an order in which dependencies come first is publishing safely. */
  lemma FollowingIsSafe(packages: Packages, order: seq<PackageDetails>, log: seq<Event>)
    requires Ordered(packages, order) && Follows(log, order)
    ensures SafelyPublished(packages, log)
  {
    hide OnCycle;
    forall i, dep | 0 <= i < |log| && log[i].TriedToPublish? && DependsOn(packages, log[i].name, dep)
      ensures ConfirmedBefore(log, i, dep) || OnCycle(packages, log[i].name, dep)
    {
      var k := i / 2;
      assert order[k].name == log[i].name && dep in order[k].localDeps;
      if dep in Names(order[..k]) {
        var j :| 0 <= j < k && order[..k][j].name == dep;
        assert (2 * j + 1) / 2 == j && (2 * j + 1) % 2 == 1 && log[2 * j + 1].name == order[j].name == dep;
      }
    }
  }

  lemma LogFollows(log: seq<Event>, order: seq<PackageDetails>, e: Event)
    requires Follows(log, order) && |log| < 2 * |order| && forall i | 0 <= i < |log| :: log[i].ok
    requires e.name == order[|log| / 2].name && (e.TriedToPublish? <==> |log| % 2 == 0)
    ensures Follows(log + [e], order)
  {
  }

  lemma FollowsNothing(packages: Packages, order: seq<PackageDetails>)
    ensures Follows([], order) && SafelyPublished(packages, [])
  {
  }

  /** An event is fine exactly when one of its attempts succeeds. */
  lemma TruthfulIs(e: Event, published: Attempts, confirmed: Attempts)
    requires Truthful(e, published, confirmed)
    ensures e.TriedToPublish? ==> (e.ok <==> exists n: nat :: n < 5 && published(e.name, n))
    ensures e.Checked? ==> (e.ok <==> exists n: nat :: n < 50 && confirmed(e.name, n))
  {
    var last := e.calls - 1;
    if e.TriedToPublish? {
      forall k: nat | k < last ensures !published(e.name, k) {
        assert !Succeeds(e, published, confirmed, k);
      }
      assert e.ok == published(e.name, last);
    } else {
      forall k: nat | k < last ensures !confirmed(e.name, k) {
        assert !Succeeds(e, published, confirmed, k);
      }
      assert e.ok == confirmed(e.name, last);
    }
  }

  lemma LogIsOutcome(order: seq<PackageDetails>, log: seq<Event>, published: Attempts, confirmed: Attempts)
    requires Follows(log, order) && forall e | e in log :: Truthful(e, published, confirmed)
    ensures forall k | 0 <= k < |log| && k % 2 == 0 ::
              && k / 2 < |order| && log[k].TriedToPublish? && log[k].name == order[k / 2].name
              && (log[k].ok <==> exists n: nat :: n < 5 && published(order[k / 2].name, n))
    ensures forall k | 0 <= k < |log| && k % 2 == 1 ::
              && k / 2 < |order| && log[k].Checked? && log[k].name == order[k / 2].name
              && (log[k].ok <==> exists n: nat :: n < 50 && confirmed(order[k / 2].name, n))
  {
    hide Truthful;
    forall k | 0 <= k < |log|
      ensures log[k].TriedToPublish? ==> (log[k].ok <==> exists n: nat :: n < 5 && published(log[k].name, n))
      ensures log[k].Checked? ==> (log[k].ok <==> exists n: nat :: n < 50 && confirmed(log[k].name, n))
    {
      assert log[k] in log;
      TruthfulIs(log[k], published, confirmed);
    }
  }

  /** The two retried actions of the loop: publishing a package, and checking that it is there. */
  method RetryFor(name: string, publishing: bool, published: Attempts, confirmed: Attempts) returns (e: Event)
    ensures e.name == name && e.TriedToPublish? == publishing && Truthful(e, published, confirmed)
  {
    var ok, calls;
    if publishing {
      var attempt := (k: nat) => published(name, k);
      ok, calls := Retry(attempt, 5);
      e := TriedToPublish(name, calls, ok);
      assert forall k: nat :: attempt(k) == Succeeds(e, published, confirmed, k);
    } else {
      var attempt := (k: nat) => confirmed(name, k);
      ok, calls := Retry(attempt, 50);
      e := Checked(name, calls, ok);
      assert forall k: nat :: attempt(k) == Succeeds(e, published, confirmed, k);
    }
  }

  /**
   Sorts the packages and publishes them one after the other, until one cannot be published or confirmed.
   ok is false then, and where the sort throws.
   */
  method Publish(packages: Packages, names: seq<string>, published: Attempts, confirmed: Attempts)
    returns (ok: bool, order: seq<PackageDetails>, log: seq<Event>)
    requires WellKeyed(packages) && Elements(names) == packages.Keys
    ensures Closed(packages) ==> Ordered(packages, order) && Names(order) == packages.Keys && |order| == |packages|
    ensures Follows(log, order) && SafelyPublished(packages, log)
    ensures forall e | e in log :: Truthful(e, published, confirmed)
    ensures forall k | 0 <= k < |log| && k % 2 == 0 ::
              && k / 2 < |order| && log[k].TriedToPublish? && log[k].name == order[k / 2].name
              && (log[k].ok <==> exists n: nat :: n < 5 && published(order[k / 2].name, n))
    ensures forall k | 0 <= k < |log| && k % 2 == 1 ::
              && k / 2 < |order| && log[k].Checked? && log[k].name == order[k / 2].name
              && (log[k].ok <==> exists n: nat :: n < 50 && confirmed(order[k / 2].name, n))
    ensures ok <==> Closed(packages) && |log| == 2 * |order| && forall e | e in log :: e.ok
    ensures !ok && Closed(packages) ==> log != [] && !log[|log| - 1].ok
  {
    hide Follows, Truthful, SafelyPublished, Ordered, Closed, WellKeyed, Elements;
    order, log := [], [];
    FollowsNothing(packages, order);
    var sorter := new PackageSorter(packages);
    ok := sorter.TopologicalSort(names);
    if !ok {
      return;
    }
    order := sorter.sorted;
    FollowsNothing(packages, order);
    for k := 0 to |order|
      invariant |log| == 2 * k && Follows(log, order)
      invariant forall e | e in log :: e.ok && Truthful(e, published, confirmed)
    {
      var e := RetryFor(order[k].name, true, published, confirmed);
      LogFollows(log, order, e);
      log := log + [e];
      if e.ok {
        e := RetryFor(order[k].name, false, published, confirmed);
        LogFollows(log, order, e);
        log := log + [e];
      }
      if !e.ok {
        assert e in log;
        FollowingIsSafe(packages, order, log);
        LogIsOutcome(order, log, published, confirmed);
        return false, order, log;
      }
    }
    FollowingIsSafe(packages, order, log);
    LogIsOutcome(order, log, published, confirmed);
    ok := true;
  }
}
