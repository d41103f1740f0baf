/** End to end: what planning a request and expanding the plan guarantees about the
    batches that are installed in parallel. */
module BatchProperties {
  import opened Packages
  import opened Planner
  import opened PlanProperties
  import opened Batches

  ghost predicate LevelsDisjoint(plan: seq<seq<string>>) {
    forall i, j, x :: 0 <= i < |plan| && 0 <= j < |plan| && x in plan[i] && x in plan[j] ==> i == j
  }

  lemma PlanLevelsDisjoint(g: PackageMap, request: set<string>, plan: seq<seq<string>>)
    requires IsPlan(g, request, plan)
    ensures LevelsDisjoint(plan) && InMap(g, plan)
  {
    forall i, j, x | 0 <= i < |plan| && 0 <= j < |plan| && x in plan[i] && x in plan[j] ensures i == j {
      Listed(g, request, plan, i, x);
      Listed(g, request, plan, j, x);
      LongestChainUnique(g, x, i, j);
    }
    forall i, k | 0 <= i < |plan| && 0 <= k < |plan[i]| ensures plan[i][k] in g {
      var x := plan[i][k];
      assert x in plan[i];
      Listed(g, request, plan, i, x);
    }
  }

  lemma ChunkMember(s: seq<string>, m: nat, x: string)
    requires m > 0
    ensures x in s <==> exists a :: 0 <= a < |Chunks(s, m)| && x in Chunks(s, m)[a]
  {
    ChunksFaithful(s, m);
    FlattenMember(Chunks(s, m), x);
  }

  lemma ChunkElement(s: seq<string>, m: nat, a: nat, x: string)
    requires m > 0 && a < |Chunks(s, m)| && x in Chunks(s, m)[a]
    ensures x in s
  {
    ChunkMember(s, m, x);
  }

  lemma {:induction false} FlattenMember(s: seq<seq<string>>, x: string)
    ensures x in Flatten(s) <==> exists a :: 0 <= a < |s| && x in s[a]
  {
    if s != [] {
      FlattenMember(s[1..], x);
      if x in s[0] { assert 0 <= 0 < |s| && x in s[0]; }
      if a :| 0 <= a < |s[1..]| && x in s[1..][a] { assert x in s[a + 1]; }
      if a :| 0 <= a < |s| && x in s[a] {
        if a > 0 { assert x in s[1..][a - 1]; }
      }
    }
  }

  /** A batch consists of non-base packages of one level. */
  lemma {:induction false} BatchWithinLevel(g: PackageMap, plan: seq<seq<string>>, m: nat, a: nat) returns (i: nat)
    requires m > 0 && InMap(g, plan) && a < |Expand(g, plan, m)|
    ensures i < |plan|
    ensures forall x :: x in Expand(g, plan, m)[a] ==> x in plan[i] && x in g && !g[x].isBase
  {
    var c := Chunks(NonBase(g, plan[0]), m);
    if a < |c| {
      i := 0;
      forall x | x in c[a] ensures x in NonBase(g, plan[0]) { ChunkElement(NonBase(g, plan[0]), m, a, x); }
    } else {
      i := BatchWithinLevel(g, plan[1..], m, a - |c|);
      i := i + 1;
    }
  }

  /** Every non-base package of a level is in some batch. */
  lemma {:induction false} LevelIsBatched(g: PackageMap, plan: seq<seq<string>>, m: nat, i: nat, x: string) returns (a: nat)
    requires m > 0 && InMap(g, plan) && i < |plan| && x in plan[i] && x in g && !g[x].isBase
    ensures a < |Expand(g, plan, m)| && x in Expand(g, plan, m)[a]
  {
    var c := Chunks(NonBase(g, plan[0]), m);
    if i == 0 {
      ChunkMember(NonBase(g, plan[0]), m, x);
      a :| 0 <= a < |c| && x in c[a];
    } else {
      a := LevelIsBatched(g, plan[1..], m, i - 1, x);
      a := a + |c|;
    }
  }

  lemma FirstLevelBatch(g: PackageMap, plan: seq<seq<string>>, m: nat, i: nat, x: string, a: nat)
    requires m > 0 && InMap(g, plan) && LevelsDisjoint(plan) && i < |plan| && x in plan[i]
    requires AllIn(g, plan[0]) && a < |Chunks(NonBase(g, plan[0]), m)| && x in Chunks(NonBase(g, plan[0]), m)[a]
    ensures i == 0
  {
    ChunkElement(NonBase(g, plan[0]), m, a, x);
    assert x in plan[0];
  }

  lemma LevelsDisjointTail(plan: seq<seq<string>>)
    requires LevelsDisjoint(plan) && plan != []
    ensures LevelsDisjoint(plan[1..])
  {
  }

  lemma ExpandHead(g: PackageMap, plan: seq<seq<string>>, m: nat)
    requires m > 0 && InMap(g, plan) && plan != []
    ensures AllIn(g, plan[0]) && InMap(g, plan[1..])
    ensures Expand(g, plan, m) == Chunks(NonBase(g, plan[0]), m) + Expand(g, plan[1..], m)
  {
  }

  /** Batches keep the order of the levels they come from. */
  lemma {:induction false} EarlierLevelEarlierBatch(g: PackageMap, plan: seq<seq<string>>, m: nat, i: nat, x: string, a: nat,
                                                    j: nat, y: string, b: nat)
    requires m > 0 && InMap(g, plan) && LevelsDisjoint(plan) && j < i < |plan|
    requires x in plan[i] && a < |Expand(g, plan, m)| && x in Expand(g, plan, m)[a]
    requires y in plan[j] && b < |Expand(g, plan, m)| && y in Expand(g, plan, m)[b]
    ensures b < a
    decreases |plan|
  {
    var c := Chunks(NonBase(g, plan[0]), m);
    ExpandHead(g, plan, m);
    hide Expand, Chunks, NonBase;
    if a < |c| {
      FirstLevelBatch(g, plan, m, i, x, a);
    } else if b >= |c| {
      LevelsDisjointTail(plan);
      var rest := plan[1..];
      var k := BatchWithinLevel(g, rest, m, b - |c|);
      SameLevelOnly(plan, j, k + 1, y);
      hide LevelsDisjoint, InMap, AllIn;
      EarlierLevelEarlierBatch(g, rest, m, i - 1, x, a - |c|, j - 1, y, b - |c|);
    }
  }

  lemma SameLevelOnly(plan: seq<seq<string>>, i: nat, j: nat, x: string)
    requires LevelsDisjoint(plan) && i < |plan| && j < |plan| && x in plan[i] && x in plan[j]
    ensures i == j
  {
  }

  /** The guarantee behind parallel installation: a non-base package's transitive non-base
      dependencies are all in strictly earlier batches. */
  lemma DependenciesInEarlierBatches(g: PackageMap, request: set<string>, plan: seq<seq<string>>, m: nat,
                                     x: string, a: nat, y: string)
    requires m > 0 && IsPlan(g, request, plan) && InMap(g, plan)
    requires a < |Expand(g, plan, m)| && x in Expand(g, plan, m)[a]
    requires Reaches(g, x, y) && y != x && y in g && !g[y].isBase
    ensures exists b :: 0 <= b < a && y in Expand(g, plan, m)[b]
  {
    PlanLevelsDisjoint(g, request, plan);
    var i := BatchWithinLevel(g, plan, m, a);
    DependenciesFirst(g, request, plan, x, y, i);
    var j :| 0 <= j < i && y in plan[j];
    var b := LevelIsBatched(g, plan, m, j, y);
    EarlierLevelEarlierBatch(g, plan, m, i, x, a, j, y, b);
  }

  /** The packages that have to be installed. */
  ghost function ToInstall(g: PackageMap, request: set<string>): set<string> {
    set x | x in g && Reachable(g, request, x) && !g[x].isBase
  }

  ghost predicate NoDuplicates(s: seq<string>) {
    forall i, j :: 0 <= i < j < |s| ==> s[i] != s[j]
  }

  /** The batches written one after the other are the non-base part of the plan. */
  lemma {:induction false} ExpandFlattens(g: PackageMap, plan: seq<seq<string>>, m: nat)
    requires m > 0 && InMap(g, plan)
    ensures AllIn(g, Flatten(plan))
    ensures Flatten(Expand(g, plan, m)) == NonBase(g, Flatten(plan))
  {
    if plan != [] {
      ExpandFlattens(g, plan[1..], m);
      ChunksFaithful(NonBase(g, plan[0]), m);
      FlattenConcat(Chunks(NonBase(g, plan[0]), m), Expand(g, plan[1..], m));
      assert AllIn(g, plan[0]);
      NonBaseConcat(g, plan[0], Flatten(plan[1..]));
    }
  }

  lemma {:induction false} FlattenDistinct(plan: seq<seq<string>>)
    requires LevelsDisjoint(plan) && forall i :: 0 <= i < |plan| ==> NoDuplicates(plan[i])
    ensures NoDuplicates(Flatten(plan))
  {
    if plan != [] {
      FlattenDistinct(plan[1..]);
      var f := Flatten(plan[1..]);
      forall i, j | 0 <= i < |plan[0]| && 0 <= j < |f| ensures plan[0][i] != f[j] {
        var x := f[j];
        FlattenMember(plan[1..], x);
        var k :| 0 <= k < |plan[1..]| && x in plan[1..][k];
        assert x in plan[k + 1];
        assert x !in plan[0];
      }
    }
  }

  lemma {:induction false} NonBaseDistinct(g: PackageMap, s: seq<string>)
    requires AllIn(g, s) && NoDuplicates(s)
    ensures NoDuplicates(NonBase(g, s))
  {
    if s != [] {
      NonBaseDistinct(g, s[1..]);
      if !g[s[0]].isBase { assert s[0] !in NonBase(g, s[1..]); }
    }
  }

  lemma {:induction false} DistinctCardinality(s: seq<string>, t: set<string>)
    requires NoDuplicates(s) && forall x :: x in s <==> x in t
    ensures |s| == |t|
  {
    if s == [] {
      assert t == {};
    } else {
      forall x ensures x in s[1..] <==> x in t - {s[0]} {
        assert s == [s[0]] + s[1..];
      }
      DistinctCardinality(s[1..], t - {s[0]});
    }
  }

  /** Each package to install is in exactly one batch, once, and nothing else is; so the
      total announced at the end is the number of packages to install. */
  lemma BatchedExactlyOnce(g: PackageMap, request: set<string>, plan: seq<seq<string>>, m: nat)
    requires m > 0 && IsPlan(g, request, plan) && InMap(g, plan)
    ensures NoDuplicates(Flatten(Expand(g, plan, m)))
    ensures forall x :: x in Flatten(Expand(g, plan, m)) <==> x in ToInstall(g, request)
    ensures |Flatten(Expand(g, plan, m))| == |ToInstall(g, request)|
  {
    PlanLevelsDisjoint(g, request, plan);
    forall i | 0 <= i < |plan| ensures NoDuplicates(plan[i]) { SortedDistinct(plan[i]); }
    FlattenDistinct(plan);
    ExpandFlattens(g, plan, m);
    NonBaseDistinct(g, Flatten(plan));
    forall x ensures x in Flatten(Expand(g, plan, m)) <==> x in ToInstall(g, request) {
      FlattenMember(plan, x);
      if x in Flatten(plan) {
        var i :| 0 <= i < |plan| && x in plan[i];
        Listed(g, request, plan, i, x);
      }
      if Reachable(g, request, x) {
        var i :| 0 <= i < |plan| && x in plan[i];
      }
    }
    DistinctCardinality(Flatten(Expand(g, plan, m)), ToInstall(g, request));
  }

  lemma {:induction false} BatchesBounded(g: PackageMap, plan: seq<seq<string>>, m: nat)
    requires m > 0 && InMap(g, plan)
    ensures forall b :: b in Expand(g, plan, m) ==> 0 < |b| <= m
  {
    if plan != [] {
      BatchesBounded(g, plan[1..], m);
      ChunksFaithful(NonBase(g, plan[0]), m);
    }
  }

  /** The sum over the levels of their non-base size divided by the limit, rounded up. */
  ghost function SumOfCeilings(g: PackageMap, plan: seq<seq<string>>, m: nat): nat
    requires m > 0 && InMap(g, plan)
  {
    if plan == [] then 0
    else
      assert AllIn(g, plan[0]);
      CeilDiv(|NonBase(g, plan[0])|, m) + SumOfCeilings(g, plan[1..], m)
  }

  lemma {:induction false} BatchCount(g: PackageMap, plan: seq<seq<string>>, m: nat)
    requires m > 0 && InMap(g, plan)
    ensures |Expand(g, plan, m)| == SumOfCeilings(g, plan, m)
  {
    if plan != [] {
      ChunkCount(NonBase(g, plan[0]), m);
      BatchCount(g, plan[1..], m);
    }
  }
}
