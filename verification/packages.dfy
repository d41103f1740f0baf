/** R packages and the dependency graph they form (src/rpkg_database.h). A pointer
    into the database is modelled by the key of the package it points to. */
module Packages {

  datatype Repository = GitHub(org: string, name: string, gitRef: string) | CRAN

  datatype RPackage = RPackage(name: string, libPath: string, version: string, dependencies: set<string>,
                               isBase: bool, needsCompilation: bool, repository: Repository)

  type PackageMap = map<string, RPackage>

  /** Every package is stored under its own name. */
  ghost predicate WellNamed(g: PackageMap) {
    forall k :: k in g ==> g[k].name == k
  }

  /** Every dependency of a stored package is stored. */
  ghost predicate Closed(g: PackageMap) {
    forall k :: k in g ==> g[k].dependencies <= g.Keys
  }

  /** `p` walks from a package to one of its dependencies at every step. */
  ghost predicate IsChain(g: PackageMap, p: seq<string>) {
    && p != []
    && (forall i :: 0 <= i < |p| ==> p[i] in g)
    && (forall i, j :: 0 <= i < |p| && 0 <= j < |p| && j == i + 1 ==> p[j] in g[p[i]].dependencies)
  }

  ghost predicate ChainFromTo(g: PackageMap, p: seq<string>, x: string, y: string) {
    IsChain(g, p) && p[0] == x && p[|p|-1] == y
  }

  /** `y` is `x` or a transitive dependency of it. */
  ghost predicate Reaches(g: PackageMap, x: string, y: string) {
    exists p :: ChainFromTo(g, p, x, y)
  }

  ghost predicate Reachable(g: PackageMap, request: set<string>, y: string) {
    exists x :: x in request && Reaches(g, x, y)
  }

  ghost predicate Repeats(p: seq<string>) {
    exists i, j :: 0 <= i < j < |p| && p[i] == p[j]
  }

  /** Some chain that starts in the request visits a package twice. */
  ghost predicate CycleReachable(g: PackageMap, request: set<string>) {
    exists p :: IsChain(g, p) && p[0] in request && Repeats(p)
  }

  /** Some reachable package names a dependency that is not stored. */
  ghost predicate HoleReachable(g: PackageMap, request: set<string>) {
    exists x :: Reachable(g, request, x) && x in g && !(g[x].dependencies <= g.Keys)
  }

  /** `n` is the number of steps of the longest chain that starts at `x`. */
  ghost predicate LongestChain(g: PackageMap, x: string, n: nat) {
    && (exists p :: IsChain(g, p) && p[0] == x && |p| == n + 1)
    && (forall p :: IsChain(g, p) && p[0] == x ==> |p| <= n + 1)
  }

  lemma ReachesSelf(g: PackageMap, x: string)
    requires x in g
    ensures Reaches(g, x, x)
  {
    assert ChainFromTo(g, [x], x, x);
  }

  lemma ReachesDependency(g: PackageMap, x: string, d: string)
    requires x in g && d in g[x].dependencies && d in g
    ensures Reaches(g, x, d)
  {
    assert ChainFromTo(g, [x, d], x, d);
  }

  lemma ReachesTransitive(g: PackageMap, x: string, y: string, z: string)
    requires Reaches(g, x, y) && Reaches(g, y, z)
    ensures Reaches(g, x, z)
  {
    var p :| ChainFromTo(g, p, x, y);
    var q :| ChainFromTo(g, q, y, z);
    assert ChainFromTo(g, p + q[1..], x, z);
  }

  lemma LongestChainUnique(g: PackageMap, x: string, m: nat, n: nat)
    requires LongestChain(g, x, m) && LongestChain(g, x, n)
    ensures m == n
  {
    var p :| IsChain(g, p) && p[0] == x && |p| == m + 1;
    var q :| IsChain(g, q) && q[0] == x && |q| == n + 1;
  }

  /** `x` is recorded above all its dependencies, and one above some of them unless at zero. */
  ghost predicate LevelAt(g: PackageMap, levels: map<string, nat>, x: string) {
    && x in g && x in levels
    && (forall d :: d in g[x].dependencies ==> d in g && d in levels && levels[d] < levels[x])
    && (levels[x] == 0 || exists d :: d in g[x].dependencies && d in levels && levels[d] + 1 == levels[x])
  }

  /** A level map that is locally right everywhere. */
  ghost predicate Consistent(g: PackageMap, levels: map<string, nat>) {
    forall x {:trigger LevelAt(g, levels, x)} :: x in levels ==> LevelAt(g, levels, x)
  }

  /** The level drops at every step of a chain, so a chain never leaves the map, never
      repeats, and is no longer than the level of its head. */
  lemma {:induction false} ChainDescends(g: PackageMap, levels: map<string, nat>, p: seq<string>)
    requires Consistent(g, levels) && IsChain(g, p) && p[0] in levels
    ensures forall i :: 0 <= i < |p| ==> p[i] in levels
    ensures forall i :: 0 < i < |p| ==> levels[p[i]] < levels[p[0]]
    ensures |p| <= levels[p[0]] + 1
    ensures !Repeats(p)
    decreases |p|
  {
    assert LevelAt(g, levels, p[0]);
    if |p| > 1 {
      assert p[1] in g[p[0]].dependencies;
      assert IsChain(g, p[1..]);
      ChainDescends(g, levels, p[1..]);
      var q := p[1..];
      forall i | 0 < i < |p| ensures p[i] in levels && levels[p[i]] < levels[p[0]] {
        assert p[i] == q[i-1];
      }
      forall i, j | 0 <= i < j < |p| ensures p[i] != p[j] {
        assert p[j] == q[j-1];
        assert i > 0 ==> p[i] == q[i-1];
      }
    }
  }

  lemma {:induction false} ChainOfLevel(g: PackageMap, levels: map<string, nat>, x: string) returns (p: seq<string>)
    requires Consistent(g, levels) && x in levels
    ensures IsChain(g, p) && p[0] == x && |p| == levels[x] + 1
    decreases levels[x]
  {
    assert LevelAt(g, levels, x);
    if levels[x] == 0 {
      p := [x];
    } else {
      var d :| d in g[x].dependencies && d in levels && levels[d] + 1 == levels[x];
      var q := ChainOfLevel(g, levels, d);
      p := [x] + q;
    }
  }

  /** Locally right levels are longest-chain lengths. */
  lemma LevelIsLongestChain(g: PackageMap, levels: map<string, nat>, x: string)
    requires Consistent(g, levels) && x in levels
    ensures LongestChain(g, x, levels[x])
  {
    var p := ChainOfLevel(g, levels, x);
    forall q | IsChain(g, q) && q[0] == x ensures |q| <= levels[x] + 1 {
      ChainDescends(g, levels, q);
    }
  }

  /** The domain of a locally right level map is closed under reachability. */
  lemma ReachStaysInside(g: PackageMap, levels: map<string, nat>, x: string, y: string)
    requires Consistent(g, levels) && x in levels && Reaches(g, x, y)
    ensures y in levels && levels[y] <= levels[x]
  {
    var p :| ChainFromTo(g, p, x, y);
    ChainDescends(g, levels, p);
  }
}
