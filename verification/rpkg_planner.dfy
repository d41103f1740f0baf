/** The installation planner: RpkgDatabase::dfs_visit and get_installation_plan
    (src/rpkg_database.h:283-323, 473-504). */
module Planner {
  import opened Ordering
  import opened Packages

  /** How a traversal ends: normally, with the "Cycle detected" exception, or in the
      failed check for a dependency the database does not hold. */
  datatype Outcome = Done | Cycle(at: string) | Missing(at: string)

  datatype PlanResult = Planned(plan: seq<seq<string>>) | CycleDetected(at: string) | CheckFailed(at: string)

  function Max(a: nat, b: nat): nat { if a < b then b else a }

  /** `n` is the greatest recorded level, zero when there is none. */
  ghost predicate IsMaxLevel(levels: map<string, nat>, n: nat) {
    && (forall x :: x in levels ==> levels[x] <= n)
    && (n > 0 ==> exists x :: x in levels && levels[x] == n)
  }

  /** The elements of `trail` lead, each a dependency of the one before, to `pkg`. */
  ghost predicate Trail(g: PackageMap, trail: seq<string>, inStack: set<string>, pkg: string) {
    IsChain(g, trail + [pkg]) && (forall x :: x in trail <==> x in inStack)
  }

  /** Nothing on the stack has a level yet. */
  ghost predicate Sound(g: PackageMap, inStack: set<string>, levels: map<string, nat>, maxLevel: nat) {
    Consistent(g, levels) && IsMaxLevel(levels, maxLevel) && inStack !! levels.Keys
  }

  /** Chains that extend `trail` and run into a cycle, or into a missing dependency. */
  ghost predicate RunsIntoCycle(g: PackageMap, trail: seq<string>) {
    exists p :: IsChain(g, p) && trail <= p && Repeats(p)
  }

  ghost predicate RunsIntoHole(g: PackageMap, trail: seq<string>) {
    exists p :: IsChain(g, p) && trail <= p && !(g[p[|p|-1]].dependencies <= g.Keys)
  }

  /** `after` keeps every level of `before` and adds only packages reached from `pkg`. */
  ghost predicate Grown(g: PackageMap, pkg: string, before: map<string, nat>, after: map<string, nat>) {
    && (forall x :: x in before ==> x in after && after[x] == before[x])
    && (forall x :: x in after ==> x in before || Reaches(g, pkg, x))
  }

  /** `level` is one more than the greatest level among the dependencies `seen`. */
  ghost predicate IsLevelOf(g: PackageMap, seen: set<string>, levels: map<string, nat>, level: nat) {
    && (forall d :: d in seen ==> d in g && d in levels && levels[d] < level)
    && (level == 0 || exists d :: d in seen && d in levels && levels[d] + 1 == level)
  }

  /** The three variables that all calls of the recursive traversal share. */
  class Traversal {
    var inStack: set<string>
    var dependencyLevels: map<string, nat>
    var maxLevel: nat

    constructor ()
      ensures inStack == {} && dependencyLevels == map[] && maxLevel == 0
    {
      inStack, dependencyLevels, maxLevel := {}, map[], 0;
    }

    /** The loop over the dependencies visits them in an arbitrary order; the source's
        alphabetical order is one of them. */
    method DfsVisit(g: PackageMap, pkg: string, ghost trail: seq<string>) returns (r: Outcome)
      requires pkg in g && pkg !in inStack && pkg !in dependencyLevels
      requires Trail(g, trail, inStack, pkg)
      requires Sound(g, inStack, dependencyLevels, maxLevel)
      modifies this
      ensures r.Done? ==>
        && inStack == old(inStack)
        && Sound(g, inStack, dependencyLevels, maxLevel)
        && pkg in dependencyLevels
        && Grown(g, pkg, old(dependencyLevels), dependencyLevels)
      ensures r.Cycle? ==> RunsIntoCycle(g, trail + [pkg])
      ensures r.Missing? ==> RunsIntoHole(g, trail + [pkg])
      decreases g.Keys - inStack
    {
      ghost var levels0 := dependencyLevels;
      inStack := inStack + {pkg};
      var level := 0;
      var rest := g[pkg].dependencies;
      while rest != {}
        invariant rest <= g[pkg].dependencies
        invariant inStack == old(inStack) + {pkg}
        invariant Sound(g, inStack, dependencyLevels, maxLevel)
        invariant Grown(g, pkg, levels0, dependencyLevels)
        invariant IsLevelOf(g, g[pkg].dependencies - rest, dependencyLevels, level)
        decreases rest
      {
        var d :| d in rest;
        if d !in g {
          MissingOnTrail(g, trail, pkg, d);
          return Missing(d);
        }
        DependencyExtends(g, trail, old(inStack), pkg, d);
        if d in inStack {
          return Cycle(d);
        }
        ghost var levels1 := dependencyLevels;
        if d !in dependencyLevels {
          var sub := DfsVisit(g, d, trail + [pkg]);
          if !sub.Done? {
            LongerTrail(g, trail + [pkg], d);
            return sub;
          }
          GrownThrough(g, pkg, d, levels0, levels1, dependencyLevels);
        }
        NextLevel(g, g[pkg].dependencies - rest, d, levels1, dependencyLevels, level);
        level := Max(level, dependencyLevels[d] + 1);
        assert g[pkg].dependencies - (rest - {d}) == (g[pkg].dependencies - rest) + {d};
        rest := rest - {d};
      }
      assert g[pkg].dependencies - rest == g[pkg].dependencies;
      RecordLevel(g, old(inStack), pkg, levels0, dependencyLevels, maxLevel, level);
      inStack := inStack - {pkg};
      dependencyLevels := dependencyLevels[pkg := level];
      maxLevel := Max(maxLevel, level);
      return Done;
    }
  }

  lemma MissingOnTrail(g: PackageMap, trail: seq<string>, pkg: string, d: string)
    requires IsChain(g, trail + [pkg]) && pkg in g && d in g[pkg].dependencies && d !in g
    ensures RunsIntoHole(g, trail + [pkg])
  {
    var p := trail + [pkg];
    assert p[|p|-1] == pkg;
  }

  /** A dependency extends the trail; when it is already on the stack that is a cycle. */
  lemma DependencyExtends(g: PackageMap, trail: seq<string>, inStack: set<string>, pkg: string, d: string)
    requires Trail(g, trail, inStack, pkg) && pkg in g && d in g && d in g[pkg].dependencies
    ensures Trail(g, trail + [pkg], inStack + {pkg}, d)
    ensures d in inStack + {pkg} ==> RunsIntoCycle(g, trail + [pkg])
  {
    var p := trail + [pkg];
    assert p[|trail|] == pkg;
    assert IsChain(g, p + [d]);
    if d in inStack + {pkg} {
      RevisitRepeats(p, d);
      assert p <= p + [d];
    }
  }

  lemma GrownThrough(g: PackageMap, pkg: string, d: string, a: map<string, nat>, b: map<string, nat>, c: map<string, nat>)
    requires pkg in g && d in g && d in g[pkg].dependencies
    requires Grown(g, pkg, a, b) && Grown(g, d, b, c)
    ensures Grown(g, pkg, a, c)
  {
    ReachesDependency(g, pkg, d);
    forall x | x in c && x !in a ensures Reaches(g, pkg, x) {
      if x !in b { ReachesTransitive(g, pkg, d, x); }
    }
  }

  lemma NextLevel(g: PackageMap, seen: set<string>, d: string, before: map<string, nat>, after: map<string, nat>, level: nat)
    requires IsLevelOf(g, seen, before, level) && d in g && d in after
    requires forall x :: x in before ==> x in after && after[x] == before[x]
    ensures IsLevelOf(g, seen + {d}, after, Max(level, after[d] + 1))
  {
  }

  lemma RecordLevel(g: PackageMap, inStack: set<string>, pkg: string, before: map<string, nat>,
                    levels: map<string, nat>, maxLevel: nat, level: nat)
    requires pkg in g && Sound(g, inStack + {pkg}, levels, maxLevel) && Grown(g, pkg, before, levels)
    requires IsLevelOf(g, g[pkg].dependencies, levels, level) && pkg !in inStack
    ensures Sound(g, inStack, levels[pkg := level], Max(maxLevel, level))
    ensures Grown(g, pkg, before, levels[pkg := level])
  {
    ReachesSelf(g, pkg);
    assert pkg in inStack + {pkg};
    var after := levels[pkg := level];
    forall x | x in after ensures LevelAt(g, after, x) {
      if x == pkg {
        LevelRecorded(g, levels, pkg, level);
      } else {
        LevelKept(g, levels, pkg, level, x);
      }
    }
    MaxRecorded(levels, maxLevel, pkg, level);
  }

  lemma LevelRecorded(g: PackageMap, levels: map<string, nat>, pkg: string, level: nat)
    requires pkg in g && pkg !in levels && IsLevelOf(g, g[pkg].dependencies, levels, level)
    ensures LevelAt(g, levels[pkg := level], pkg)
  {
    if level > 0 {
      var d :| d in g[pkg].dependencies && d in levels && levels[d] + 1 == level;
      assert levels[pkg := level][d] + 1 == level;
    }
  }

  lemma LevelKept(g: PackageMap, levels: map<string, nat>, pkg: string, level: nat, x: string)
    requires Consistent(g, levels) && pkg !in levels && x in levels
    ensures LevelAt(g, levels[pkg := level], x)
  {
    assert LevelAt(g, levels, x);
    if levels[x] > 0 {
      var d :| d in g[x].dependencies && d in levels && levels[d] + 1 == levels[x];
      assert levels[pkg := level][d] + 1 == levels[x];
    }
  }

  lemma MaxRecorded(levels: map<string, nat>, maxLevel: nat, pkg: string, level: nat)
    requires IsMaxLevel(levels, maxLevel) && pkg !in levels
    ensures IsMaxLevel(levels[pkg := level], Max(maxLevel, level))
  {
    var after := levels[pkg := level];
    if level > maxLevel {
      assert after[pkg] == level;
    } else if maxLevel > 0 {
      var x :| x in levels && levels[x] == maxLevel;
      assert after[x] == maxLevel;
    }
  }

  lemma RevisitRepeats(p: seq<string>, d: string)
    requires d in p
    ensures Repeats(p + [d])
  {
    var i :| 0 <= i < |p| && p[i] == d;
    assert (p + [d])[i] == (p + [d])[|p|];
  }

  lemma LongerTrail(g: PackageMap, trail: seq<string>, d: string)
    ensures RunsIntoCycle(g, trail + [d]) ==> RunsIntoCycle(g, trail)
    ensures RunsIntoHole(g, trail + [d]) ==> RunsIntoHole(g, trail)
  {
    if RunsIntoCycle(g, trail + [d]) {
      var p :| IsChain(g, p) && trail + [d] <= p && Repeats(p);
      PrefixOfPrefix(trail, [d], p);
    }
    if RunsIntoHole(g, trail + [d]) {
      var p :| IsChain(g, p) && trail + [d] <= p && !(g[p[|p|-1]].dependencies <= g.Keys);
      PrefixOfPrefix(trail, [d], p);
    }
  }

  lemma PrefixOfPrefix<T>(a: seq<T>, b: seq<T>, c: seq<T>)
    requires a + b <= c
    ensures a <= c
  {
    assert a == (a + b)[..|a|] == c[..|a|];
  }

  function Id(s: string): (r: string) { s }

  ghost predicate EachSorted(plan: seq<seq<string>>) {
    forall i :: 0 <= i < |plan| ==> StrictlySorted(plan[i])
  }

  /** Entry `i` lists the packages at level `i`. */
  ghost predicate ListsByLevel(levels: map<string, nat>, plan: seq<seq<string>>) {
    forall i, x :: 0 <= i < |plan| ==> (x in plan[i] <==> x in levels && levels[x] == i)
  }

  /** Entry `i` lists the reachable packages whose longest chain has `i` steps. */
  ghost predicate ListsExactly(g: PackageMap, request: set<string>, plan: seq<seq<string>>) {
    forall i, x :: 0 <= i < |plan| ==> (x in plan[i] <==> Reachable(g, request, x) && LongestChain(g, x, i))
  }

  ghost predicate ListsAll(g: PackageMap, request: set<string>, plan: seq<seq<string>>) {
    forall x :: Reachable(g, request, x) ==> exists i :: 0 <= i < |plan| && x in plan[i]
  }

  ghost predicate EndsFilled(request: set<string>, plan: seq<seq<string>>) {
    if request == {} then plan == [[]] else |plan| > 0 && plan[|plan|-1] != []
  }

  /** What the planner promises: level `i` lists, in name order, exactly the reachable
      packages whose longest dependency chain has `i` steps; no package is left over and
      no trailing level is empty. The empty request gives one empty level. */
  ghost predicate IsPlan(g: PackageMap, request: set<string>, plan: seq<seq<string>>) {
    EachSorted(plan) && ListsExactly(g, request, plan) && ListsAll(g, request, plan) && EndsFilled(request, plan)
  }

  /** The bucket list that the filling loop builds from a set of levelled packages. */
  ghost predicate Buckets(levels: map<string, nat>, done: set<string>, plan: seq<seq<string>>) {
    && done <= levels.Keys
    && (forall i, x :: 0 <= i < |plan| ==> (x in plan[i] <==> x in done && levels[x] == i))
    && (forall i, j, k :: 0 <= i < |plan| && 0 <= j < k < |plan[i]| ==> plan[i][j] != plan[i][k])
  }

  method Elements(s: set<string>) returns (r: seq<string>)
    ensures forall x :: x in r <==> x in s
    ensures forall i, j :: 0 <= i < j < |r| ==> r[i] != r[j]
  {
    r := [];
    var rest := s;
    while rest != {}
      invariant rest <= s
      invariant forall x :: x in r <==> x in s && x !in rest
      invariant forall i, j :: 0 <= i < j < |r| ==> r[i] != r[j]
      decreases rest
    {
      var x :| x in rest;
      r, rest := r + [x], rest - {x};
    }
  }

  /** Sorting one level keeps its members and makes it strictly ascending. */
  lemma {:induction false} SortedLevel(s: seq<string>)
    requires forall i, j :: 0 <= i < j < |s| ==> s[i] != s[j]
    ensures StrictlySorted(SortBy(Id, s))
    ensures forall x :: x in SortBy(Id, s) <==> x in s
  {
    SortByStrict(Id, s);
    var r := SortBy(Id, s);
    forall i, j | 0 <= i < j < |r| ensures Less(r[i], r[j]) {
      assert Less(Id(r[i]), Id(r[j]));
    }
    forall x ensures x in r <==> x in s {
      assert x in multiset(r) <==> x in multiset(s);
    }
  }

  method SortedElements(s: set<string>) returns (r: seq<string>)
    ensures StrictlySorted(r)
    ensures forall x :: x in r <==> x in s
  {
    var unsorted := Elements(s);
    SortedLevel(unsorted);
    r := SortBy(Id, unsorted);
  }

  /** Rearranging one bucket. */
  lemma {:induction false} RearrangeBucket(levels: map<string, nat>, done: set<string>, plan: seq<seq<string>>, step: nat,
                                           s: seq<string>)
    requires Buckets(levels, done, plan) && step < |plan|
    requires forall x :: x in s <==> x in plan[step]
    requires forall j, k :: 0 <= j < k < |s| ==> s[j] != s[k]
    ensures Buckets(levels, done, plan[step := s])
  {
  }

  lemma {:induction false} SortOneLevel(levels: map<string, nat>, plan: seq<seq<string>>, step: nat)
    requires Buckets(levels, levels.Keys, plan) && step < |plan|
    ensures Buckets(levels, levels.Keys, plan[step := SortBy(Id, plan[step])]) && StrictlySorted(SortBy(Id, plan[step]))
  {
    var s := SortBy(Id, plan[step]);
    SortedLevel(plan[step]);
    SortedDistinct(s);
    hide Buckets, SortBy, StrictlySorted;
    RearrangeBucket(levels, levels.Keys, plan, step, s);
  }

  method FillLevels(levels: map<string, nat>, maxLevel: nat) returns (plan: seq<seq<string>>)
    requires forall x :: x in levels ==> levels[x] <= maxLevel
    ensures |plan| == maxLevel + 1
    ensures EachSorted(plan) && ListsByLevel(levels, plan)
  {
    plan := seq(maxLevel + 1, _ => []);
    var rest := levels.Keys;
    while rest != {}
      invariant rest <= levels.Keys
      invariant |plan| == maxLevel + 1
      invariant Buckets(levels, levels.Keys - rest, plan)
      decreases rest
    {
      var pkg :| pkg in rest;
      var level := levels[pkg];
      plan := plan[level := plan[level] + [pkg]];
      rest := rest - {pkg};
    }
    hide SortBy, StrictlySorted;
    for step := 0 to |plan|
      invariant |plan| == maxLevel + 1
      invariant forall i :: 0 <= i < step ==> StrictlySorted(plan[i])
      invariant Buckets(levels, levels.Keys, plan)
    {
      SortOneLevel(levels, plan, step);
      plan := plan[step := SortBy(Id, plan[step])];
    }
  }

  lemma {:induction false} SortedDistinct(s: seq<string>)
    requires StrictlySorted(s)
    ensures forall i, j :: 0 <= i < j < |s| ==> s[i] != s[j]
  {
    forall i, j | 0 <= i < j < |s| ensures s[i] != s[j] {
      LessIrreflexive(s[i]);
    }
  }

  /** The first loop of the planner: visit every requested package not yet levelled. */
  method VisitRequest(g: PackageMap, request: set<string>)
    returns (outcome: Outcome, levels: map<string, nat>, maxLevel: nat)
    requires request <= g.Keys
    ensures outcome.Done? ==> Finished(g, request, levels, maxLevel)
    ensures outcome.Cycle? ==> CycleReachable(g, request)
    ensures outcome.Missing? ==> HoleReachable(g, request)
  {
    var pkgs := SortedElements(request);
    var t := new Traversal();
    for k := 0 to |pkgs|
      invariant t.inStack == {} && fresh(t)
      invariant Sound(g, {}, t.dependencyLevels, t.maxLevel)
      invariant forall i :: 0 <= i < k ==> pkgs[i] in t.dependencyLevels
      invariant forall x :: x in t.dependencyLevels ==> Reachable(g, request, x)
    {
      if pkgs[k] !in t.dependencyLevels {
        ghost var before := t.dependencyLevels;
        assert [] + [pkgs[k]] == [pkgs[k]];
        outcome := t.DfsVisit(g, pkgs[k], []);
        match outcome {
          case Done => GrownFromRequest(g, request, pkgs[k], before, t.dependencyLevels);
          case Cycle(at) =>
            CycleIsReachable(g, request, pkgs[k]);
            return outcome, map[], 0;
          case Missing(at) =>
            HoleIsReachable(g, request, pkgs[k]);
            return outcome, map[], 0;
        }
      }
    }
    return Done, t.dependencyLevels, t.maxLevel;
  }

  /** The planner proper. It never modifies the database. */
  method GetInstallationPlan(g: PackageMap, request: set<string>) returns (r: PlanResult)
    requires WellNamed(g) && request <= g.Keys
    ensures r.Planned? ==> IsPlan(g, request, r.plan) && !CycleReachable(g, request) && !HoleReachable(g, request)
    ensures r.CycleDetected? ==> CycleReachable(g, request)
    ensures r.CheckFailed? ==> HoleReachable(g, request)
    ensures Closed(g) ==> !r.CheckFailed? && (r.CycleDetected? <==> CycleReachable(g, request))
  {
    ClosedHasNoHole(g, request);
    var outcome, levels, maxLevel := VisitRequest(g, request);
    match outcome {
      case Done =>
        var plan := FillLevels(levels, maxLevel);
        FinishedIsClean(g, request, levels, maxLevel);
        LevelsGivePlan(g, request, levels, maxLevel, plan);
        return Planned(plan);
      case Cycle(at) => return CycleDetected(at);
      case Missing(at) => return CheckFailed(at);
    }
  }

  lemma ClosedHasNoHole(g: PackageMap, request: set<string>)
    ensures Closed(g) ==> !HoleReachable(g, request)
  {
  }

  lemma GrownFromRequest(g: PackageMap, request: set<string>, x: string, before: map<string, nat>, after: map<string, nat>)
    requires x in request && Grown(g, x, before, after)
    requires forall y :: y in before ==> Reachable(g, request, y)
    ensures forall y :: y in after ==> Reachable(g, request, y)
  {
  }

  lemma CycleIsReachable(g: PackageMap, request: set<string>, x: string)
    requires x in request && RunsIntoCycle(g, [x])
    ensures CycleReachable(g, request)
  {
    var p :| IsChain(g, p) && [x] <= p && Repeats(p);
    assert p[0] in request;
  }

  lemma HoleIsReachable(g: PackageMap, request: set<string>, x: string)
    requires x in request && RunsIntoHole(g, [x])
    ensures HoleReachable(g, request)
  {
    var p :| IsChain(g, p) && [x] <= p && !(g[p[|p|-1]].dependencies <= g.Keys);
    assert ChainFromTo(g, p, x, p[|p|-1]);
    assert Reachable(g, request, p[|p|-1]);
  }

  /** The state of a traversal that has ended normally. */
  ghost predicate Finished(g: PackageMap, request: set<string>, levels: map<string, nat>, maxLevel: nat) {
    && request <= levels.Keys
    && Sound(g, {}, levels, maxLevel)
    && (forall x :: x in levels ==> Reachable(g, request, x))
  }

  lemma FinishedIsReachable(g: PackageMap, request: set<string>, levels: map<string, nat>, maxLevel: nat)
    requires Finished(g, request, levels, maxLevel)
    ensures forall x :: Reachable(g, request, x) <==> x in levels
  {
    forall x | Reachable(g, request, x) ensures x in levels {
      var r :| r in request && Reaches(g, r, x);
      ReachStaysInside(g, levels, r, x);
    }
  }

  lemma FinishedIsClean(g: PackageMap, request: set<string>, levels: map<string, nat>, maxLevel: nat)
    requires Finished(g, request, levels, maxLevel)
    ensures !CycleReachable(g, request) && !HoleReachable(g, request)
  {
    forall p | IsChain(g, p) && p[0] in request ensures !Repeats(p) {
      ChainDescends(g, levels, p);
    }
    FinishedIsReachable(g, request, levels, maxLevel);
    forall x | Reachable(g, request, x) ensures x in g && g[x].dependencies <= g.Keys {
      assert LevelAt(g, levels, x);
    }
  }

  lemma PlanEntry(g: PackageMap, request: set<string>, levels: map<string, nat>, maxLevel: nat, x: string, i: nat)
    requires Finished(g, request, levels, maxLevel)
    ensures Reachable(g, request, x) && LongestChain(g, x, i) <==> x in levels && levels[x] == i
  {
    FinishedIsReachable(g, request, levels, maxLevel);
    if x in levels {
      LevelIsLongestChain(g, levels, x);
      if LongestChain(g, x, i) { LongestChainUnique(g, x, i, levels[x]); }
    }
  }

  lemma LastLevelFilled(g: PackageMap, request: set<string>, levels: map<string, nat>, maxLevel: nat, plan: seq<seq<string>>)
    requires Finished(g, request, levels, maxLevel)
    requires |plan| == maxLevel + 1
    requires ListsByLevel(levels, plan)
    ensures EndsFilled(request, plan)
  {
    if request == {} {
      EmptyRequest(g, levels);
      assert maxLevel == 0;
      EmptyLevels(levels, plan);
    } else {
      var x :| x in request;
      TopLevelListed(levels, maxLevel, x, plan);
    }
  }

  lemma TopLevelListed(levels: map<string, nat>, maxLevel: nat, x: string, plan: seq<seq<string>>)
    requires x in levels && IsMaxLevel(levels, maxLevel)
    requires |plan| == maxLevel + 1 && ListsByLevel(levels, plan)
    ensures plan[maxLevel] != []
  {
    var top :| top in levels && levels[top] == maxLevel;
    assert top in plan[maxLevel];
  }

  lemma NonemptyHasMember(s: seq<string>)
    ensures s == [] || exists x: string :: x in s
  {
    if s != [] {
      var x := s[0];
      assert x in s;
    }
  }

  lemma EmptyLevels(levels: map<string, nat>, plan: seq<seq<string>>)
    requires levels == map[] && |plan| == 1 && ListsByLevel(levels, plan)
    ensures plan == [[]]
  {
    forall x: string ensures x !in plan[0] {
      var i := 0;
      assert x in plan[i] ==> x in levels;
    }
    NonemptyHasMember(plan[0]);
    assert plan == [plan[0]];
  }

  lemma EmptyRequest(g: PackageMap, levels: map<string, nat>)
    requires forall x :: x in levels ==> Reachable(g, {}, x)
    ensures levels == map[]
  {
  }

  /** When the traversal ends normally its level map is the plan. */
  lemma {:induction false} LevelsGivePlan(g: PackageMap, request: set<string>, levels: map<string, nat>, maxLevel: nat,
                       plan: seq<seq<string>>)
    requires Finished(g, request, levels, maxLevel)
    requires |plan| == maxLevel + 1
    requires EachSorted(plan) && ListsByLevel(levels, plan)
    ensures IsPlan(g, request, plan)
  {
    LastLevelFilled(g, request, levels, maxLevel, plan);
    LevelsListAll(g, request, levels, maxLevel, plan);
    LevelsListExactly(g, request, levels, maxLevel, plan);
  }

  lemma {:induction false} LevelsListExactly(g: PackageMap, request: set<string>, levels: map<string, nat>, maxLevel: nat,
                          plan: seq<seq<string>>)
    requires Finished(g, request, levels, maxLevel) && ListsByLevel(levels, plan)
    ensures ListsExactly(g, request, plan)
  {
    hide Finished, Reachable, LongestChain;
    forall i, x | 0 <= i < |plan| ensures x in plan[i] <==> Reachable(g, request, x) && LongestChain(g, x, i) {
      PlanEntry(g, request, levels, maxLevel, x, i);
    }
  }

  lemma {:induction false} LevelsListAll(g: PackageMap, request: set<string>, levels: map<string, nat>, maxLevel: nat,
                      plan: seq<seq<string>>)
    requires Finished(g, request, levels, maxLevel) && ListsByLevel(levels, plan) && |plan| == maxLevel + 1
    ensures ListsAll(g, request, plan)
  {
    FinishedIsReachable(g, request, levels, maxLevel);
    forall x | Reachable(g, request, x) ensures exists i :: 0 <= i < |plan| && x in plan[i] {
      assert x in plan[levels[x]];
    }
  }
}
