/**
 * Choosing the packages to download: a depth-first walk over the dependency graph from the
 * packages flagged in the package list.
 */
module PackageClosure {

  datatype Package = Package(dependencies: seq<string>, needsDownload: bool)

  type Graph = map<string, seq<string>>

  function Dependencies(packages: map<string, Package>): Graph {
    map n | n in packages :: packages[n].dependencies
  }

  // ----- reachability -----

  /** A chain of known packages, each a dependency of the one before. */
  predicate Chain(g: Graph, p: seq<string>) {
    && p != []
    && (forall i | 0 <= i < |p| :: p[i] in g)
    && (forall i | 0 < i < |p| :: p[i] in g[p[i - 1]])
  }

  ghost predicate Reaches(g: Graph, a: string, b: string) {
    exists p :: Chain(g, p) && p[0] == a && p[|p| - 1] == b
  }

  ghost predicate ReachedFrom(g: Graph, roots: set<string>, b: string) {
    exists a :: a in roots && Reaches(g, a, b)
  }

  /** Known dependencies of the packages in `these` are in `names`. */
  predicate ClosedIn(g: Graph, these: set<string>, names: set<string>) {
    forall n, d | n in these && n in g && d in g[n] && d in g :: d in names
  }

  lemma ReachesItself(g: Graph, a: string)
    requires a in g
    ensures Reaches(g, a, a)
  {
    assert Chain(g, [a]) && [a][0] == a;
  }

  lemma ReachesDependency(g: Graph, a: string, b: string, d: string)
    requires Reaches(g, a, b) && b in g && d in g[b] && d in g
    ensures Reaches(g, a, d)
  {
    var p :| Chain(g, p) && p[0] == a && p[|p| - 1] == b;
    var q := p + [d];
    assert Chain(g, q) && q[0] == a && q[|q| - 1] == d;
  }

  lemma {:induction false} ReachesTrans(g: Graph, a: string, b: string, p: seq<string>)
    requires Reaches(g, a, b) && Chain(g, p) && p[0] == b
    ensures Reaches(g, a, p[|p| - 1])
    decreases |p|
  {
    if |p| > 1 {
      var q := p[..|p| - 1];
      assert Chain(g, q) && q[0] == b;
      ReachesTrans(g, a, b, q);
      ReachesDependency(g, a, q[|q| - 1], p[|p| - 1]);
    }
  }

  /** What a dependency reaches, the package reaches. */
  lemma ReachesThrough(g: Graph, a: string, b: string, c: string)
    requires Reaches(g, a, b) && Reaches(g, b, c)
    ensures Reaches(g, a, c)
  {
    var p :| Chain(g, p) && p[0] == b && p[|p| - 1] == c;
    ReachesTrans(g, a, b, p);
  }

  /** A closed set holds everything its members reach. */
  lemma {:induction false} ClosedHoldsChain(g: Graph, names: set<string>, p: seq<string>)
    requires ClosedIn(g, names, names) && Chain(g, p) && p[0] in names
    ensures p[|p| - 1] in names
    decreases |p|
  {
    if |p| > 1 {
      var q := p[..|p| - 1];
      assert Chain(g, q) && q[0] == p[0];
      ClosedHoldsChain(g, names, q);
    }
  }

  /** A set that is closed, holds the known roots, and holds only what they reach, is the set reached. */
  lemma ClosureIsReached(g: Graph, roots: set<string>, names: set<string>)
    requires ClosedIn(g, names, names) && (forall a | a in roots && a in g :: a in names)
    requires forall n | n in names :: ReachedFrom(g, roots, n)
    ensures forall n :: n in names <==> ReachedFrom(g, roots, n)
  {
    forall n | ReachedFrom(g, roots, n) ensures n in names {
      var a :| a in roots && Reaches(g, a, n);
      var p :| Chain(g, p) && p[0] == a && p[|p| - 1] == n;
      ClosedHoldsChain(g, names, p);
    }
  }

  // ----- the walk -----

  /** The step from the names before a visit of `name` to the names after it. */
  ghost predicate Visited(g: Graph, name: string, before: set<string>, after: set<string>) {
    && before <= after
    && (name in g ==> name in after)
    && ClosedIn(g, after - before, after)
    && (forall n | n in after - before :: n in g && Reaches(g, name, n))
  }

  /** The step from `before` to `after` while the dependencies of `name` are visited. */
  ghost predicate Visiting(g: Graph, name: string, deps: seq<string>, before: set<string>, after: set<string>) {
    && before <= after
    && (forall d | d in deps && d in g :: d in after)
    && ClosedIn(g, after - before, after)
    && (forall n | n in after - before :: n in g && Reaches(g, name, n))
  }

  lemma VisitingExtends(g: Graph, name: string, deps: seq<string>, d: string, before: set<string>, mid: set<string>,
                        after: set<string>)
    requires Visiting(g, name, deps, before, mid) && Visited(g, d, mid, after) && name in g && d in g[name]
    ensures Visiting(g, name, deps + [d], before, after)
  {
    assert after - before == (mid - before) + (after - mid);
    ReachesItself(g, name);
    forall n | n in after - mid ensures n in g && Reaches(g, name, n) {
      DependencyIsKnown(g, d, n);
      ReachesDependency(g, name, name, d);
      ReachesThrough(g, name, d, n);
    }
  }

  lemma DependencyIsKnown(g: Graph, d: string, n: string)
    requires Reaches(g, d, n)
    ensures d in g
  {
    var p :| Chain(g, p) && p[0] == d && p[|p| - 1] == n;
  }

  lemma VisitingEnds(g: Graph, name: string, before: set<string>, after: set<string>)
    requires name in g && name !in before && Visiting(g, name, g[name], before + {name}, after)
    ensures Visited(g, name, before, after)
  {
    ReachesItself(g, name);
    assert after - before == (after - (before + {name})) + {name};
  }

  /** Packages flagged before the walk, and those it adds, are flagged after it. */
  predicate Flagged(before: map<string, Package>, after: map<string, Package>, names: set<string>) {
    && after.Keys == before.Keys
    && forall n | n in before ::
         && after[n].dependencies == before[n].dependencies
         && after[n].needsDownload == (before[n].needsDownload || n in names)
  }

  lemma FlaggedKeepsDependencies(before: map<string, Package>, after: map<string, Package>, names: set<string>)
    requires Flagged(before, after, names)
    ensures Dependencies(after) == Dependencies(before) && after.Keys == before.Keys
  {
  }

  lemma FlaggedTrans(a: map<string, Package>, b: map<string, Package>, c: map<string, Package>,
                     x: set<string>, y: set<string>, z: set<string>)
    requires Flagged(a, b, y - x) && Flagged(b, c, z - y) && x <= y <= z
    ensures Flagged(a, c, z - x)
  {
  }

  /** `order` lists the known packages, each once. */
  ghost predicate Lists(order: seq<string>, packages: map<string, Package>) {
    && (forall n :: n in order <==> n in packages)
    && (forall i, j | 0 <= i < j < |order| :: order[i] != order[j])
  }

  function FlaggedIn(packages: map<string, Package>): set<string> {
    set n | n in packages && packages[n].needsDownload
  }

  /** What holds after the packages of `done` have been looked at. */
  ghost predicate Walked(was: map<string, Package>, packages: map<string, Package>, names: set<string>,
                         done: seq<string>) {
    && Flagged(was, packages, names) && names <= was.Keys
    && ClosedIn(Dependencies(was), names, names)
    && (forall n | n in names :: ReachedFrom(Dependencies(was), FlaggedIn(was), n))
    && (forall n | n in done && n in FlaggedIn(was) :: n in names)
  }

  lemma WalkedExtends(was: map<string, Package>, packages: map<string, Package>, names: set<string>, done: seq<string>,
                      name: string, packages': map<string, Package>, names': set<string>)
    requires Walked(was, packages, names, done) && name in was && packages[name].needsDownload
    requires Visited(Dependencies(was), name, names, names') && Flagged(packages, packages', names' - names)
    ensures Walked(was, packages', names', done + [name])
  {
    var g := Dependencies(was);
    assert names' == names + (names' - names);
    assert ReachedFrom(g, FlaggedIn(was), name) by {
      if name !in names {
        ReachesItself(g, name);
        assert name in FlaggedIn(was);
      }
    }
    var a :| a in FlaggedIn(was) && Reaches(g, a, name);
    forall n | n in names' ensures ReachedFrom(g, FlaggedIn(was), n) {
      if n !in names { ReachesThrough(g, a, name, n); }
    }
  }

  lemma WalkedSkips(was: map<string, Package>, packages: map<string, Package>, names: set<string>, done: seq<string>,
                    name: string)
    requires Walked(was, packages, names, done) && name in was && !packages[name].needsDownload
    ensures Walked(was, packages, names, done + [name])
  {
  }

  lemma RootsAreWalked(was: map<string, Package>, names: set<string>, order: seq<string>)
    requires Lists(order, was) && forall n | n in order && n in FlaggedIn(was) :: n in names
    ensures FlaggedIn(was) <= names
  {
    forall n | n in FlaggedIn(was) ensures n in names { assert n in order; }
  }

  lemma FlagsAreNames(was: map<string, Package>, packages: map<string, Package>, names: set<string>)
    requires Flagged(was, packages, names) && names <= was.Keys && FlaggedIn(was) <= names
    ensures FlaggedIn(packages) == names && Dependencies(packages) == Dependencies(was)
  {
    forall n ensures n in FlaggedIn(packages) <==> n in names {
      if n in was { assert n in FlaggedIn(was) <==> was[n].needsDownload; }
    }
  }

  lemma WalkedEnds(was: map<string, Package>, packages: map<string, Package>, names: set<string>, order: seq<string>)
    requires Lists(order, was) && Walked(was, packages, names, order)
    ensures forall n :: n in names <==> ReachedFrom(Dependencies(was), FlaggedIn(was), n)
    ensures FlaggedIn(packages) == names && Dependencies(packages) == Dependencies(was)
  {
    RootsAreWalked(was, names, order);
    FlagsAreNames(was, packages, names);
    ClosureIsReached(Dependencies(was), FlaggedIn(was), names);
  }

  // ----- the downloads -----

  /** The names of `order` that are in `names`, in order. */
  function Select(order: seq<string>, names: set<string>): seq<string> {
    if order == [] then []
    else
      var last := order[|order| - 1];
      Select(order[..|order| - 1], names) + if last in names then [last] else []
  }

  /** The names stand at these positions of the list, which go up. */
  predicate AtIncreasing(names: seq<string>, order: seq<string>, positions: seq<nat>) {
    && |positions| == |names|
    && (forall k | 0 <= k < |names| :: positions[k] < |order| && order[positions[k]] == names[k])
    && (forall k, l | 0 <= k < l < |names| :: positions[k] < positions[l])
  }

  /** Selecting keeps the order of the list. */
  lemma {:induction false} SelectKeepsOrder(order: seq<string>, names: set<string>) returns (positions: seq<nat>)
    ensures AtIncreasing(Select(order, names), order, positions)
    decreases |order|
  {
    if order == [] {
      positions := [];
    } else {
      var last := |order| - 1;
      positions := SelectKeepsOrder(order[..last], names);
      PositionsStay(Select(order[..last], names), order, positions, last);
      if order[last] in names { positions := positions + [last]; }
    }
  }

  lemma PositionsStay(names: seq<string>, order: seq<string>, positions: seq<nat>, last: nat)
    requires last < |order| && AtIncreasing(names, order[..last], positions)
    ensures AtIncreasing(names, order, positions) && AtIncreasing(names + [order[last]], order, positions + [last])
  {
  }

  lemma {:induction false} SelectHolds(order: seq<string>, names: set<string>, n: string)
    ensures n in Select(order, names) <==> n in order && n in names
    decreases |order|
  {
    if order != [] {
      SelectHolds(order[..|order| - 1], names, n);
      assert order == order[..|order| - 1] + [order[|order| - 1]];
    }
  }

  /** Selecting from a list without repetition gives each name once. */
  lemma {:induction false} SelectCounts(order: seq<string>, names: set<string>)
    requires forall i, j | 0 <= i < j < |order| :: order[i] != order[j]
    requires forall n | n in names :: n in order
    ensures |Select(order, names)| == |names|
    ensures forall n :: n in Select(order, names) <==> n in names
    decreases |order|
  {
    forall n ensures n in Select(order, names) <==> n in names { SelectHolds(order, names, n); }
    if order == [] {
      assert names == {};
    } else {
      var rest, last := order[..|order| - 1], order[|order| - 1];
      assert order == rest + [last];
      SelectCounts(rest, names - {last});
      SelectIgnores(rest, names, last);
      Without(names, last);
    }
  }

  lemma Without(names: set<string>, name: string)
    ensures |names| == |names - {name}| + if name in names then 1 else 0
  {
    assert name in names ==> names == (names - {name}) + {name};
    assert name !in names ==> names == names - {name};
  }

  lemma {:induction false} SelectIgnores(order: seq<string>, names: set<string>, name: string)
    requires name !in order
    ensures Select(order, names) == Select(order, names - {name})
    decreases |order|
  {
    if order != [] { SelectIgnores(order[..|order| - 1], names, name); }
  }

  function Names(downloads: seq<(nat, nat, string)>): seq<string> {
    seq(|downloads|, k requires 0 <= k < |downloads| => downloads[k].2)
  }

  lemma DownloadsInOrder(downloads: seq<(nat, nat, string)>, order: seq<string>, names: set<string>)
    returns (positions: seq<nat>)
    requires forall i, j | 0 <= i < j < |order| :: order[i] != order[j]
    requires (forall n | n in names :: n in order) && |downloads| == |Select(order, names)|
    requires forall k | 0 <= k < |downloads| :: downloads[k].2 == Select(order, names)[k]
    ensures |downloads| == |names| && (forall n :: n in names <==> n in Names(downloads))
    ensures AtIncreasing(Names(downloads), order, positions)
  {
    SelectCounts(order, names);
    positions := SelectKeepsOrder(order, names);
    assert Names(downloads) == Select(order, names);
  }

  class Downloader {
    var packages: map<string, Package>
    var namesToDownload: set<string>

    constructor (packages: map<string, Package>)
      ensures this.packages == packages && namesToDownload == {}
    {
      this.packages := packages;
      namesToDownload := {};
    }

    method AddPackage(name: string)
      requires name in packages
      modifies this
      ensures namesToDownload == old(namesToDownload) + {name}
      ensures packages.Keys == old(packages.Keys) && Flagged(old(packages), packages, {name})
    {
      packages := packages[name := packages[name].(needsDownload := true)];
      namesToDownload := namesToDownload + {name};
    }

    /** Add a package and, unless it was there or is not known, everything it depends on. */
    method AddPackageAndDependencies(name: string)
      requires namesToDownload <= packages.Keys
      modifies this
      ensures namesToDownload <= packages.Keys
      ensures Visited(Dependencies(old(packages)), name, old(namesToDownload), namesToDownload)
      ensures Flagged(old(packages), packages, namesToDownload - old(namesToDownload))
      decreases packages.Keys - namesToDownload
    {
      if name in namesToDownload { return; }
      if name !in packages { return; }
      ghost var g, before := Dependencies(packages), namesToDownload;
      AddPackage(name);
      var deps := packages[name].dependencies;
      for i := 0 to |deps|
        invariant before + {name} <= namesToDownload <= packages.Keys
        invariant Visiting(g, name, deps[..i], before + {name}, namesToDownload)
        invariant Flagged(old(packages), packages, namesToDownload - before)
      {
        ghost var mid, was := namesToDownload, packages;
        FlaggedKeepsDependencies(old(packages), packages, mid - before);
        AddPackageAndDependencies(deps[i]);
        VisitingExtends(g, name, deps[..i], deps[i], before + {name}, mid, namesToDownload);
        FlaggedTrans(old(packages), was, packages, before, mid, namesToDownload);
        assert deps[..i + 1] == deps[..i] + [deps[i]];
      }
      assert deps[..|deps|] == deps;
      VisitingEnds(g, name, before, namesToDownload);
    }

    /** Walk from every flagged package. */
    method ChoosePackages(packageNames: seq<string>)
      requires Lists(packageNames, packages) && namesToDownload == {}
      modifies this
      ensures forall n ::
                n in namesToDownload <==> ReachedFrom(Dependencies(old(packages)), FlaggedIn(old(packages)), n)
      ensures FlaggedIn(packages) == namesToDownload && Lists(packageNames, packages)
      ensures packages.Keys == old(packages.Keys) && Dependencies(packages) == Dependencies(old(packages))
    {
      ghost var was := packages;
      for i := 0 to |packageNames|
        invariant Walked(was, packages, namesToDownload, packageNames[..i])
      {
        var name := packageNames[i];
        assert name in packageNames;
        assert packageNames[..i + 1] == packageNames[..i] + [name];
        assert Dependencies(packages) == Dependencies(was);
        if packages[name].needsDownload {
          ghost var packages0, names0 := packages, namesToDownload;
          AddPackageAndDependencies(name);
          WalkedExtends(was, packages0, names0, packageNames[..i], name, packages, namesToDownload);
        } else {
          WalkedSkips(was, packages, namesToDownload, packageNames[..i], name);
        }
      }
      assert packageNames[..|packageNames|] == packageNames;
      WalkedEnds(was, packages, namesToDownload, packageNames);
    }

    /** Download the flagged packages in order, counting them: the count ends at the total announced. */
    method Download(packageNames: seq<string>)
      returns (downloads: seq<(nat, nat, string)>, ghost positions: seq<nat>)
      requires Lists(packageNames, packages) && FlaggedIn(packages) == namesToDownload
      ensures |downloads| == |namesToDownload|
      ensures forall k | 0 <= k < |downloads| :: downloads[k].0 == k + 1 && downloads[k].1 == |namesToDownload|
      ensures forall n :: n in namesToDownload <==> n in Names(downloads)
      ensures AtIncreasing(Names(downloads), packageNames, positions)
    {
      downloads := [];
      var downloadedSoFar := 0;
      for i := 0 to |packageNames|
        invariant downloadedSoFar == |downloads| == |Select(packageNames[..i], namesToDownload)|
        invariant forall k | 0 <= k < |downloads| ::
                  downloads[k] == (k + 1, |namesToDownload|, Select(packageNames[..i], namesToDownload)[k])
      {
        var name := packageNames[i];
        assert name in packageNames;
        assert packageNames[..i + 1][..i] == packageNames[..i];
        if packages[name].needsDownload {
          downloadedSoFar := downloadedSoFar + 1;
          downloads := downloads + [(downloadedSoFar, |namesToDownload|, name)];
        }
      }
      assert packageNames[..|packageNames|] == packageNames;
      positions := DownloadsInOrder(downloads, packageNames, namesToDownload);
    }
  }
}
