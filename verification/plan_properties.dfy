/** What every installation plan guarantees: each package once, dependencies first, no
    empty level, as few levels as possible, and independence of how the request is closed. */
module PlanProperties {
  import opened Ordering
  import opened Packages
  import opened Planner

  lemma ChainAppend(g: PackageMap, p: seq<string>, q: seq<string>)
    requires IsChain(g, p) && IsChain(g, q) && p[|p|-1] == q[0]
    ensures IsChain(g, p + q[1..])
  {
    var r := p + q[1..];
    forall i, j | 0 <= i < |r| && 0 <= j < |r| && j == i + 1 ensures r[j] in g[r[i]].dependencies {
      if j < |p| {
        assert p[j] in g[p[i]].dependencies;
      } else {
        assert r[i] == q[i - |p| + 1] && r[j] == q[j - |p| + 1];
      }
    }
  }

  lemma ChainSuffix(g: PackageMap, p: seq<string>, k: nat)
    requires IsChain(g, p) && k < |p|
    ensures IsChain(g, p[k..])
  {
    var r := p[k..];
    forall i, j | 0 <= i < |r| && 0 <= j < |r| && j == i + 1 ensures r[j] in g[r[i]].dependencies {
      assert p[k + j] in g[p[k + i]].dependencies;
    }
  }

  lemma ChainPrefix(g: PackageMap, p: seq<string>, k: nat)
    requires IsChain(g, p) && 0 < k <= |p|
    ensures IsChain(g, p[..k])
  {
    var r := p[..k];
    forall i, j | 0 <= i < |r| && 0 <= j < |r| && j == i + 1 ensures r[j] in g[r[i]].dependencies {
      assert p[j] in g[p[i]].dependencies;
    }
  }

  /** Every package a chain meets is reachable when its head is. */
  lemma ChainReachable(g: PackageMap, request: set<string>, p: seq<string>, k: nat)
    requires IsChain(g, p) && Reachable(g, request, p[0]) && k < |p|
    ensures Reachable(g, request, p[k])
  {
    ChainPrefix(g, p, k + 1);
    assert ChainFromTo(g, p[..k+1], p[0], p[k]);
    var x :| x in request && Reaches(g, x, p[0]);
    ReachesTransitive(g, x, p[0], p[k]);
  }

  lemma Listed(g: PackageMap, request: set<string>, plan: seq<seq<string>>, i: nat, x: string)
    requires IsPlan(g, request, plan) && i < |plan|
    ensures x in plan[i] <==> Reachable(g, request, x) && LongestChain(g, x, i)
  {
  }

  /** A proper transitive dependency has a strictly shorter longest chain. */
  lemma DependencyIsLower(g: PackageMap, x: string, y: string, i: nat, j: nat)
    requires Reaches(g, x, y) && x != y && LongestChain(g, x, i) && LongestChain(g, y, j)
    ensures j < i
  {
    var p :| ChainFromTo(g, p, x, y);
    var q :| IsChain(g, q) && q[0] == y && |q| == j + 1;
    ChainAppend(g, p, q);
    assert (p + q[1..])[0] == x;
  }

  /** The guarantee the installer relies on: a package's transitive dependencies are all
      installed at strictly earlier levels. */
  lemma DependenciesFirst(g: PackageMap, request: set<string>, plan: seq<seq<string>>, x: string, y: string, i: nat)
    requires IsPlan(g, request, plan) && i < |plan| && x in plan[i]
    requires Reaches(g, x, y) && x != y
    ensures exists j :: 0 <= j < i && y in plan[j]
  {
    Listed(g, request, plan, i, x);
    var r :| r in request && Reaches(g, r, x);
    ReachesTransitive(g, r, x, y);
    assert Reachable(g, request, y);
    var j :| 0 <= j < |plan| && y in plan[j];
    Listed(g, request, plan, j, y);
    DependencyIsLower(g, x, y, i, j);
  }

  /** Each reachable package is listed at exactly one place. */
  lemma ListedOnce(g: PackageMap, request: set<string>, plan: seq<seq<string>>, x: string)
    requires IsPlan(g, request, plan)
    ensures Reachable(g, request, x) <==> exists i, k :: 0 <= i < |plan| && 0 <= k < |plan[i]| && plan[i][k] == x
    ensures forall i, k, i', k' ::
      (0 <= i < |plan| && 0 <= k < |plan[i]| && plan[i][k] == x &&
       0 <= i' < |plan| && 0 <= k' < |plan[i']| && plan[i'][k'] == x) ==> i == i' && k == k'
  {
    if Reachable(g, request, x) {
      var i :| 0 <= i < |plan| && x in plan[i];
      var k :| 0 <= k < |plan[i]| && plan[i][k] == x;
    }
    forall i, k | 0 <= i < |plan| && 0 <= k < |plan[i]| && plan[i][k] == x
      ensures x in plan[i] && Reachable(g, request, x) && LongestChain(g, x, i)
    {
      Listed(g, request, plan, i, x);
    }
    forall i, k, i', k' |
      0 <= i < |plan| && 0 <= k < |plan[i]| && plan[i][k] == x &&
      0 <= i' < |plan| && 0 <= k' < |plan[i']| && plan[i'][k'] == x
      ensures i == i' && k == k'
    {
      LongestChainUnique(g, x, i, i');
      SortedDistinct(plan[i]);
    }
  }

  /** From the end of the plan a chain comes down through every level. */
  lemma {:induction false} LongestChainSuffix(g: PackageMap, p: seq<string>, k: nat)
    requires IsChain(g, p) && LongestChain(g, p[0], |p| - 1) && k < |p|
    ensures LongestChain(g, p[k], |p| - 1 - k)
  {
    ChainSuffix(g, p, k);
    assert p[k..][0] == p[k] && |p[k..]| == |p| - k;
    forall q | IsChain(g, q) && q[0] == p[k] ensures |q| <= |p| - k {
      ChainPrefix(g, p, k + 1);
      ChainAppend(g, p[..k+1], q);
      assert (p[..k+1] + q[1..])[0] == p[0];
    }
  }

  /** A chain through the whole plan: one package of every level. */
  lemma Spine(g: PackageMap, request: set<string>, plan: seq<seq<string>>) returns (p: seq<string>)
    requires IsPlan(g, request, plan) && request != {}
    ensures IsChain(g, p) && |p| == |plan|
    ensures Reachable(g, request, p[0])
    ensures forall k :: 0 <= k < |p| ==> p[k] in plan[|p| - 1 - k]
  {
    var last := |plan| - 1;
    var x := plan[last][0];
    assert x in plan[last];
    Listed(g, request, plan, last, x);
    p :| IsChain(g, p) && p[0] == x && |p| == last + 1;
    forall k | 0 <= k < |p| ensures p[k] in plan[|p| - 1 - k] {
      LongestChainSuffix(g, p, k);
      ChainReachable(g, request, p, k);
      Listed(g, request, plan, |p| - 1 - k, p[k]);
    }
  }

  lemma NoLevelEmpty(g: PackageMap, request: set<string>, plan: seq<seq<string>>, i: nat)
    requires IsPlan(g, request, plan) && request != {} && i < |plan|
    ensures plan[i] != []
  {
    var p := Spine(g, request, plan);
    assert p[|p| - 1 - i] in plan[i];
  }

  /** Any arrangement in layers that covers the request and its dependencies and puts each
      dependency in an earlier layer. */
  ghost predicate Layering(g: PackageMap, request: set<string>, layers: seq<set<string>>) {
    && (forall x :: Reachable(g, request, x) ==> exists a :: 0 <= a < |layers| && x in layers[a])
    && (forall a, b, x, d :: 0 <= a < |layers| && 0 <= b < |layers| && x in layers[a] && d in layers[b] ==>
          x in g && d in g[x].dependencies ==> b < a)
  }

  /** The plan has the fewest levels possible. */
  lemma FewestLevels(g: PackageMap, request: set<string>, plan: seq<seq<string>>, layers: seq<set<string>>)
    requires IsPlan(g, request, plan) && request != {} && Layering(g, request, layers)
    ensures |plan| <= |layers|
  {
    var p := Spine(g, request, plan);
    var a :| 0 <= a < |layers| && p[0] in layers[a];
    SpineClimbs(g, request, layers, p, a);
  }

  lemma {:induction false} SpineClimbs(g: PackageMap, request: set<string>, layers: seq<set<string>>, p: seq<string>, a: nat)
    requires Layering(g, request, layers) && IsChain(g, p) && Reachable(g, request, p[0])
    requires a < |layers| && p[0] in layers[a]
    ensures |p| <= a + 1
    decreases |p|
  {
    if |p| > 1 {
      ChainReachable(g, request, p, 1);
      var b :| 0 <= b < |layers| && p[1] in layers[b];
      assert p[1] in g[p[0]].dependencies;
      ChainSuffix(g, p, 1);
      SpineClimbs(g, request, layers, p[1..], b);
    }
  }

  /** The plan depends only on what is reachable. */
  lemma PlanUnique(g: PackageMap, request: set<string>, request': set<string>, plan: seq<seq<string>>, plan': seq<seq<string>>)
    requires IsPlan(g, request, plan) && IsPlan(g, request', plan')
    requires forall x :: Reachable(g, request, x) <==> Reachable(g, request', x)
    requires request == {} <==> request' == {}
    ensures plan == plan'
  {
    if request != {} {
      PlanNoLonger(g, request, request', plan, plan');
      PlanNoLonger(g, request', request, plan', plan);
      forall i | 0 <= i < |plan| ensures plan[i] == plan'[i] {
        SameLevel(g, request, request', plan, plan', i);
      }
    }
  }

  lemma PlanNoLonger(g: PackageMap, request: set<string>, request': set<string>, plan: seq<seq<string>>, plan': seq<seq<string>>)
    requires IsPlan(g, request, plan) && IsPlan(g, request', plan') && request != {}
    requires forall x :: Reachable(g, request, x) ==> Reachable(g, request', x)
    ensures |plan| <= |plan'|
  {
    var last := |plan| - 1;
    var x := plan[last][0];
    assert x in plan[last];
    Listed(g, request, plan, last, x);
    assert Reachable(g, request', x);
    var i :| 0 <= i < |plan'| && x in plan'[i];
    Listed(g, request', plan', i, x);
    LongestChainUnique(g, x, i, last);
  }

  lemma SameLevel(g: PackageMap, request: set<string>, request': set<string>, plan: seq<seq<string>>, plan': seq<seq<string>>, i: nat)
    requires IsPlan(g, request, plan) && IsPlan(g, request', plan') && i < |plan| && i < |plan'|
    requires forall x :: Reachable(g, request, x) <==> Reachable(g, request', x)
    ensures plan[i] == plan'[i]
  {
    assert StrictlySorted(plan[i]) && StrictlySorted(plan'[i]);
    assert StrictlySortedBy(Id, plan[i]) && StrictlySortedBy(Id, plan'[i]);
    forall x ensures x in plan[i] <==> x in plan'[i] {
      Listed(g, request, plan, i, x);
      Listed(g, request', plan', i, x);
    }
    StrictlySortedUnique(Id, plan[i], plan'[i]);
  }

  /** Adding packages that are reachable anyway does not change what is reachable. */
  lemma ClosureReachesSame(g: PackageMap, request: set<string>, extra: set<string>)
    requires forall x :: x in extra ==> Reachable(g, request, x)
    ensures forall x :: Reachable(g, request, x) <==> Reachable(g, request + extra, x)
  {
    forall x | Reachable(g, request + extra, x) ensures Reachable(g, request, x) {
      var y :| y in request + extra && Reaches(g, y, x);
      if y !in request {
        var r :| r in request && Reaches(g, r, y);
        ReachesTransitive(g, r, y, x);
      }
    }
    forall x | Reachable(g, request, x) ensures Reachable(g, request + extra, x) {
      var y :| y in request && Reaches(g, y, x);
      assert y in request + extra;
    }
  }

  /** Closing the request over its dependencies leaves the plan unchanged: what is a plan
      before is one after, and the other way round. */
  lemma PlanIgnoresClosure(g: PackageMap, request: set<string>, extra: set<string>, plan: seq<seq<string>>)
    requires forall x :: x in extra ==> Reachable(g, request, x)
    ensures IsPlan(g, request, plan) <==> IsPlan(g, request + extra, plan)
  {
    ClosureReachesSame(g, request, extra);
    NothingFromNothing(g, request, extra);
  }

  /** Closing the request makes planning neither fail nor succeed: a cycle or a missing package
      is in reach afterwards exactly when one was before. */
  lemma FailureIgnoresClosure(g: PackageMap, request: set<string>, extra: set<string>)
    requires forall x :: x in extra ==> Reachable(g, request, x)
    ensures CycleReachable(g, request) <==> CycleReachable(g, request + extra)
    ensures HoleReachable(g, request) <==> HoleReachable(g, request + extra)
  {
    ClosureReachesSame(g, request, extra);
    if p :| IsChain(g, p) && p[0] in request && Repeats(p) {
      assert p[0] in request + extra;
    }
    if p :| IsChain(g, p) && p[0] in request + extra && Repeats(p) {
      if p[0] !in request { CycleFromRequest(g, request, p); }
    }
  }

  /** A cycle behind a reachable package is behind the request. */
  lemma CycleFromRequest(g: PackageMap, request: set<string>, p: seq<string>)
    requires IsChain(g, p) && Repeats(p) && Reachable(g, request, p[0])
    ensures CycleReachable(g, request)
  {
    var x :| x in request && Reaches(g, x, p[0]);
    var q :| ChainFromTo(g, q, x, p[0]);
    ChainAppend(g, q, p);
    var r, d := q + p[1..], |q| - 1;
    var i, j :| 0 <= i < j < |p| && p[i] == p[j];
    assert r[d + i] == p[i] && r[d + j] == p[j];
    assert r[0] == x && Repeats(r);
  }

  lemma NothingFromNothing(g: PackageMap, request: set<string>, extra: set<string>)
    requires forall x :: x in extra ==> Reachable(g, request, x)
    ensures request == {} <==> request + extra == {}
  {
    if request == {} {
      assert forall x :: !Reachable(g, request, x);
      assert request + extra == {};
    }
  }
}
