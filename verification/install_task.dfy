/** The two tasks that drive the planner: closing the set of R packages over their
    dependencies (src/tracer.h:358-377) and writing the installation script
    (src/tracer.h:585-609). */
module InstallTask {
  import opened Packages
  import opened Planner
  import opened PlanProperties
  import opened Batches
  import opened BatchProperties
  import opened Manifests

  const MAX_PARALLEL: nat := 24

  datatype ScriptResult = NothingToInstall | Script(batches: seq<seq<string>>, total: nat) | Failed(outcome: PlanResult)

  /** RpkgDatabase::get_dependencies: the plan written out as one list. */
  method GetDependencies(g: PackageMap, request: set<string>) returns (r: PlanResult, deps: seq<string>)
    requires WellNamed(g) && request <= g.Keys
    ensures r.Planned? ==> IsPlan(g, request, r.plan) && deps == Flatten(r.plan)
    ensures r.Planned? <==> !CycleReachable(g, request) && !HoleReachable(g, request)
    ensures Closed(g) ==> !r.CheckFailed? && (r.CycleDetected? <==> CycleReachable(g, request))
  {
    r := GetInstallationPlan(g, request);
    deps := [];
    if r.Planned? {
      var plan := r.plan;
      for i := 0 to |plan|
        invariant deps == Flatten(plan[..i])
      {
        assert plan[..i+1] == plan[..i] + [plan[i]];
        FlattenConcat(plan[..i], [plan[i]]);
        assert Flatten([plan[i]]) == plan[i] + [];
        deps := deps + plan[i];
      }
      assert plan[..|plan|] == plan;
    }
  }

  lemma PlanFlattenMember(g: PackageMap, request: set<string>, plan: seq<seq<string>>, x: string)
    requires IsPlan(g, request, plan)
    ensures x in Flatten(plan) <==> Reachable(g, request, x)
    ensures x in Flatten(plan) ==> x in g
  {
    FlattenMember(plan, x);
    PlanLevelsDisjoint(g, request, plan);
    if i :| 0 <= i < |plan| && x in plan[i] { Listed(g, request, plan, i, x); }
  }

  /** The packages among `deps` that have to be installed. */
  ghost function Installed(g: PackageMap, deps: seq<string>): (r: set<string>)
    requires AllIn(g, deps)
  {
    set x | x in deps && !g[x].isBase
  }

  /** Those of them that have to be compiled. */
  ghost function Compiled(g: PackageMap, packages: set<string>): (r: set<string>)
    requires packages <= g.Keys
  {
    set x | x in packages && g[x].needsCompilation
  }

  lemma InstalledStep(g: PackageMap, deps: seq<string>, i: nat)
    requires AllIn(g, deps) && i < |deps|
    ensures AllIn(g, deps[..i]) && AllIn(g, deps[..i+1]) && deps[i] in g
    ensures var now, next := Installed(g, deps[..i]), Installed(g, deps[..i+1]);
      && next == (if g[deps[i]].isBase then now else now + {deps[i]})
      && Compiled(g, next) ==
           if g[deps[i]].isBase || !g[deps[i]].needsCompilation then Compiled(g, now) else Compiled(g, now) + {deps[i]}
  {
    assert deps[..i+1] == deps[..i] + [deps[i]];
  }

  lemma PlanInstalls(g: PackageMap, request: set<string>, plan: seq<seq<string>>)
    requires IsPlan(g, request, plan)
    ensures AllIn(g, Flatten(plan)) && Installed(g, Flatten(plan)) == ToInstall(g, request)
  {
    forall x ensures x in Flatten(plan) <==> Reachable(g, request, x)
      ensures x in Flatten(plan) ==> x in g
    {
      PlanFlattenMember(g, request, plan, x);
    }
  }

  /** Adds the non-base dependencies of the recorded packages to the manifest, and returns
      those among them that have to be compiled. */
  method CloseRPackages(g: PackageMap, manifest: Manifest) returns (r: PlanResult, compiled: set<string>)
    requires WellNamed(g) && manifest.rPackages <= g.Keys
    modifies manifest`rPackages
    ensures r.Planned? ==>
      && IsPlan(g, old(manifest.rPackages), r.plan)
      && manifest.rPackages == old(manifest.rPackages) + ToInstall(g, old(manifest.rPackages))
      && compiled == Compiled(g, ToInstall(g, old(manifest.rPackages)))
    ensures !r.Planned? ==> manifest.rPackages == old(manifest.rPackages)
    ensures r.Planned? <==> !CycleReachable(g, old(manifest.rPackages)) && !HoleReachable(g, old(manifest.rPackages))
    ensures Closed(g) ==> !r.CheckFailed? && (r.CycleDetected? <==> CycleReachable(g, old(manifest.rPackages)))
  {
    hide IsPlan, ToInstall, AllIn, Installed, Compiled, Flatten;
    ghost var request := manifest.rPackages;
    var deps;
    r, deps := GetDependencies(g, manifest.rPackages);
    compiled := {};
    ClosedHasNoHole(g, request);
    if !r.Planned? { return; }
    PlanInstalls(g, request, r.plan);
    NothingInstalled(g);
    for i := 0 to |deps|
      invariant AllIn(g, deps[..i]) && Installed(g, deps[..i]) <= g.Keys
      invariant manifest.rPackages == request + Installed(g, deps[..i])
      invariant compiled == Compiled(g, Installed(g, deps[..i]))
    {
      InstalledStep(g, deps, i);
      var pkg := deps[i];
      if !g[pkg].isBase {
        if g[pkg].needsCompilation { compiled := compiled + {pkg}; }
        manifest.rPackages := manifest.rPackages + {pkg};
      }
    }
    assert deps[..|deps|] == deps;
  }

  lemma NothingInstalled(g: PackageMap)
    ensures AllIn(g, []) && Installed(g, []) == {} && Compiled(g, {}) == {}
  {
  }

  /** Hands a plan to the script builder. */
  method BuildScript(g: PackageMap, plan: seq<seq<string>>) returns (batches: seq<seq<string>>, total: nat)
    requires InMap(g, plan)
    ensures batches == Expand(g, plan, MAX_PARALLEL) && total == |Flatten(batches)|
  {
    hide Expand, Flatten, InMap;
    var script := new ScriptBuilder(g);
    script.SetPlan(plan);
    script.SetOutput();
    script.SetMaxParallel(MAX_PARALLEL);
    var built;
    built, total := script.Build();
    batches := script.expandedPlan;
  }

  /** Plans and batches the recorded packages; nothing is written when there are none. */
  method InstallRPackages(g: PackageMap, manifest: Manifest) returns (r: ScriptResult)
    requires WellNamed(g) && manifest.rPackages <= g.Keys
    ensures manifest.rPackages == {} <==> r.NothingToInstall?
    ensures manifest.rPackages != {} ==>
      (r.Script? <==> !CycleReachable(g, manifest.rPackages) && !HoleReachable(g, manifest.rPackages))
    ensures Closed(g) && manifest.rPackages != {} ==> (r.Script? <==> !CycleReachable(g, manifest.rPackages))
    ensures r.Script? ==> GoodScript(g, manifest.rPackages, r.batches, r.total)
    ensures r.Script? ==> BatchesOf(g, manifest.rPackages, r.batches)
  {
    hide IsPlan, InMap, Expand, Flatten, GoodScript, CycleReachable, HoleReachable, Closed;
    if manifest.rPackages == {} { return NothingToInstall; }
    ClosedHasNoHole(g, manifest.rPackages);
    var planned := GetInstallationPlan(g, manifest.rPackages);
    match planned {
      case Planned(plan) =>
        PlanLevelsDisjoint(g, manifest.rPackages, plan);
        var batches, total := BuildScript(g, plan);
        PlanGivesGoodScript(g, manifest.rPackages, plan);
        assert IsBatched(g, manifest.rPackages, plan, batches);
        return Script(batches, total);
      case CycleDetected(_) => return Failed(planned);
      case CheckFailed(_) => return Failed(planned);
    }
  }

  ghost predicate IsBatched(g: PackageMap, request: set<string>, plan: seq<seq<string>>, batches: seq<seq<string>>) {
    IsPlan(g, request, plan) && InMap(g, plan) && batches == Expand(g, plan, MAX_PARALLEL)
  }

  /** The batches come from the plan of the request. */
  ghost predicate BatchesOf(g: PackageMap, request: set<string>, batches: seq<seq<string>>) {
    exists plan :: IsBatched(g, request, plan, batches)
  }

  /** The two tasks in the order they run. When closing succeeds, installing succeeds too, with
      the very batches it would have had without closing. */
  method CloseThenInstall(g: PackageMap, manifest: Manifest) returns (closed: PlanResult, compiled: set<string>, r: ScriptResult)
    requires WellNamed(g) && manifest.rPackages <= g.Keys
    modifies manifest`rPackages
    ensures closed.Planned? <==> !CycleReachable(g, old(manifest.rPackages)) && !HoleReachable(g, old(manifest.rPackages))
    ensures Closed(g) ==> !closed.CheckFailed? && (closed.CycleDetected? <==> CycleReachable(g, old(manifest.rPackages)))
    ensures closed.Planned? && old(manifest.rPackages) != {} ==>
      && r.Script? && GoodScript(g, old(manifest.rPackages), r.batches, r.total)
      && IsBatched(g, old(manifest.rPackages), closed.plan, r.batches)
    ensures closed.Planned? && old(manifest.rPackages) == {} ==> r.NothingToInstall?
    ensures !closed.Planned? ==> r == Failed(closed)
  {
    hide IsPlan, ToInstall, GoodScript, CycleReachable, HoleReachable, IsBatched;
    ghost var request := manifest.rPackages;
    closed, compiled := CloseRPackages(g, manifest);
    if !closed.Planned? { return closed, compiled, Failed(closed); }
    ClosingChangesNothing(g, request, closed.plan);
    r := InstallRPackages(g, manifest);
    if r.Script? { SameBatches(g, request, closed.plan, r.batches, r.total); }
  }

  /** What the generated script promises, in terms of the packages and the request alone:
      no batch is empty or too large, every package to install is in the batches exactly
      once, each after all its dependencies, and the announced total is right. */
  ghost predicate GoodScript(g: PackageMap, request: set<string>, batches: seq<seq<string>>, total: nat) {
    && (forall b :: b in batches ==> 0 < |b| <= MAX_PARALLEL)
    && NoDuplicates(Flatten(batches))
    && (forall x :: x in Flatten(batches) <==> x in ToInstall(g, request))
    && DependenciesEarlier(g, batches)
    && total == |ToInstall(g, request)|
  }

  ghost predicate DependenciesEarlier(g: PackageMap, batches: seq<seq<string>>) {
    forall a, x, y :: 0 <= a < |batches| && x in batches[a] && Reaches(g, x, y) && y != x && y in g && !g[y].isBase ==>
      exists b :: 0 <= b < a && y in batches[b]
  }

  lemma PlanGivesGoodScript(g: PackageMap, request: set<string>, plan: seq<seq<string>>)
    requires IsPlan(g, request, plan) && InMap(g, plan)
    ensures var batches := Expand(g, plan, MAX_PARALLEL); GoodScript(g, request, batches, |Flatten(batches)|)
  {
    BatchedExactlyOnce(g, request, plan, MAX_PARALLEL);
    BatchesBounded(g, plan, MAX_PARALLEL);
    var batches := Expand(g, plan, MAX_PARALLEL);
    forall a, x, y | 0 <= a < |batches| && x in batches[a] && Reaches(g, x, y) && y != x && y in g && !g[y].isBase
      ensures exists b :: 0 <= b < a && y in batches[b]
    {
      DependenciesInEarlierBatches(g, request, plan, MAX_PARALLEL, x, a, y);
    }
  }

  /** Whether or not the closing task has run, the same packages are installed by the same
      plan, and planning fails for the same reasons. */
  lemma ClosingChangesNothing(g: PackageMap, request: set<string>, plan: seq<seq<string>>)
    ensures var closed := request + ToInstall(g, request);
      && (IsPlan(g, request, plan) <==> IsPlan(g, closed, plan))
      && (CycleReachable(g, request) <==> CycleReachable(g, closed))
      && (HoleReachable(g, request) <==> HoleReachable(g, closed))
      && ToInstall(g, closed) == ToInstall(g, request) <= g.Keys
      && (closed == {} <==> request == {})
  {
    PlanIgnoresClosure(g, request, ToInstall(g, request), plan);
    FailureIgnoresClosure(g, request, ToInstall(g, request));
    ClosureReachesSame(g, request, ToInstall(g, request));
    NothingFromNothing(g, request, ToInstall(g, request));
  }

  lemma SameBatches(g: PackageMap, request: set<string>, plan: seq<seq<string>>, batches: seq<seq<string>>, total: nat)
    requires var closed := request + ToInstall(g, request);
      IsPlan(g, request, plan) && BatchesOf(g, closed, batches) && GoodScript(g, closed, batches, total)
    ensures IsBatched(g, request, plan, batches) && GoodScript(g, request, batches, total)
  {
    var closed := request + ToInstall(g, request);
    ClosingChangesNothing(g, request, plan);
    hide IsPlan, ToInstall;
    var plan' :| IsBatched(g, closed, plan', batches);
    PlanUnique(g, closed, closed, plan, plan');
  }
}
