/** The batch expander of InstallRPackageScriptBuilder
    (src/install_r_package_builder.h:27-67, 218-228) and what planning followed by
    expansion guarantees about the batches. */
module Batches {
  import opened Collections
  import opened Packages

  datatype BuildResult = Built | MaxParallelIsZero | OutputNotSet

  function Min(a: nat, b: nat): nat { if a < b then a else b }

  ghost predicate AllIn(g: PackageMap, s: seq<string>) {
    forall i :: 0 <= i < |s| ==> s[i] in g
  }

  /** The members of one level that are not base packages, in order. */
  function NonBase(g: PackageMap, level: seq<string>): (r: seq<string>)
    requires AllIn(g, level)
    ensures forall x :: x in r <==> x in level && !g[x].isBase
    ensures |r| <= |level|
  {
    if level == [] then []
    else (if g[level[0]].isBase then [] else [level[0]]) + NonBase(g, level[1..])
  }

  /** Consecutive pieces of `m` elements, the last one possibly shorter. */
  function Chunks(s: seq<string>, m: nat): (r: seq<seq<string>>)
    requires m > 0
    decreases |s|
  {
    if s == [] then [] else [s[..Min(m, |s|)]] + Chunks(s[Min(m, |s|)..], m)
  }

  ghost predicate InMap(g: PackageMap, plan: seq<seq<string>>) {
    forall i :: 0 <= i < |plan| ==> AllIn(g, plan[i])
  }

  /** The batches of a whole plan. */
  function Expand(g: PackageMap, plan: seq<seq<string>>, m: nat): (r: seq<seq<string>>)
    requires m > 0 && InMap(g, plan)
  {
    if plan == [] then []
    else
      assert AllIn(g, plan[0]);
      Chunks(NonBase(g, plan[0]), m) + Expand(g, plan[1..], m)
  }

  function Flatten(s: seq<seq<string>>): (r: seq<string>) {
    if s == [] then [] else s[0] + Flatten(s[1..])
  }

  function CeilDiv(n: nat, m: nat): nat
    requires m > 0
  {
    (n + m - 1) / m
  }

  /** The script builder: the plan it is given, and the batches it expands it to. */
  class ScriptBuilder {
    const packages: PackageMap
    var plan: seq<seq<string>>
    var expandedPlan: seq<seq<string>>
    var maxParallel: nat
    /** Whether there is a stream to write to. */
    var hasOutput: bool

    constructor (packages: PackageMap)
      ensures this.packages == packages && plan == [] && expandedPlan == [] && maxParallel == 1 && !hasOutput
    {
      this.packages := packages;
      plan, expandedPlan, maxParallel, hasOutput := [], [], 1, false;
    }

    method SetOutput()
      modifies this`hasOutput
      ensures hasOutput
    {
      hasOutput := true;
    }

    method SetPlan(plan: seq<seq<string>>)
      modifies this`plan
      ensures this.plan == plan
    {
      this.plan := plan;
    }

    method SetMaxParallel(maxParallel: nat)
      modifies this`maxParallel
      ensures this.maxParallel == maxParallel
    {
      this.maxParallel := maxParallel;
    }

    /** Expansion, refused for a zero limit or without an output; the result is the package total the footer
        announces. */
    method Build() returns (r: BuildResult, total: nat)
      requires InMap(packages, plan)
      modifies this`expandedPlan
      ensures maxParallel == 0 ==> r == MaxParallelIsZero && expandedPlan == old(expandedPlan)
      ensures maxParallel > 0 && !hasOutput ==> r == OutputNotSet && expandedPlan == old(expandedPlan)
      ensures maxParallel > 0 && hasOutput ==> r == Built && expandedPlan == Expand(packages, plan, maxParallel)
      ensures r == Built ==> total == |Flatten(expandedPlan)|
    {
      if maxParallel == 0 {
        return MaxParallelIsZero, 0;
      }
      if !hasOutput {
        return OutputNotSet, 0;
      }
      ExpandPlan();
      total := FooterTotal();
      return Built, total;
    }

    method ExpandPlan()
      requires maxParallel > 0 && InMap(packages, plan)
      modifies this`expandedPlan
      ensures expandedPlan == Expand(packages, plan, maxParallel)
    {
      expandedPlan := [];
      for k := 0 to |plan|
        invariant expandedPlan == Expand(packages, plan[..k], maxParallel)
      {
        var batch := EraseBase(plan[k]);
        ExpandStep(packages, plan, k, maxParallel);
        if batch != [] {
          if |batch| <= maxParallel {
            OneChunk(batch, maxParallel);
            expandedPlan := expandedPlan + [batch];
          } else {
            PushPieces(batch);
          }
        }
      }
      assert plan[..|plan|] == plan;
    }

    /** The chunking loop for a level that exceeds the limit. */
    method PushPieces(batch: seq<string>)
      requires maxParallel > 0
      modifies this`expandedPlan
      ensures expandedPlan == old(expandedPlan) + Chunks(batch, maxParallel)
    {
      var i := 0;
      ghost var rest := batch;
      while i < |batch|
        invariant rest == if i < |batch| then batch[i..] else []
        invariant expandedPlan + Chunks(rest, maxParallel) == old(expandedPlan) + Chunks(batch, maxParallel)
      {
        var end := Min(i + maxParallel, |batch|);
        ChunkStep(expandedPlan, batch, i, end, maxParallel);
        expandedPlan := expandedPlan + [batch[i..end]];
        i := i + maxParallel;
        rest := batch[end..];
      }
    }

    /** Removes the base packages from a copy of one level. */
    method EraseBase(level: seq<string>) returns (batch: seq<string>)
      requires AllIn(packages, level)
      ensures batch == NonBase(packages, level)
    {
      batch := [];
      for i := 0 to |level|
        invariant batch == NonBase(packages, level[..i])
      {
        NonBaseStep(packages, level, i);
        if !packages[level[i]].isBase { batch := batch + [level[i]]; }
      }
      assert level[..|level|] == level;
    }

    method FooterTotal() returns (n: nat)
      ensures n == |Flatten(expandedPlan)|
    {
      n := 0;
      for i := 0 to |expandedPlan|
        invariant n + |Flatten(expandedPlan[i..])| == |Flatten(expandedPlan)|
      {
        assert expandedPlan[i..][0] == expandedPlan[i] && expandedPlan[i..][1..] == expandedPlan[i+1..];
        n := n + |expandedPlan[i]|;
      }
    }
  }

  lemma OneChunk(s: seq<string>, m: nat)
    requires 0 < |s| <= m
    ensures Chunks(s, m) == [s]
  {
    assert s[|s|..] == [] && s[..|s|] == s;
  }

  lemma ChunkStep(acc: seq<seq<string>>, s: seq<string>, i: nat, end: nat, m: nat)
    requires m > 0 && i < |s| && end == Min(i + m, |s|)
    ensures acc + Chunks(s[i..], m) == (acc + [s[i..end]]) + Chunks(s[end..], m)
  {
    var n := Min(m, |s| - i);
    assert s[i..][..n] == s[i..end] && s[i..][n..] == s[end..];
  }

  lemma {:induction false} NonBaseConcat(g: PackageMap, a: seq<string>, b: seq<string>)
    requires AllIn(g, a) && AllIn(g, b)
    ensures NonBase(g, a + b) == NonBase(g, a) + NonBase(g, b)
  {
    if a == [] {
      assert a + b == b;
    } else {
      assert (a + b)[1..] == a[1..] + b;
      NonBaseConcat(g, a[1..], b);
    }
  }

  lemma NonBaseStep(g: PackageMap, level: seq<string>, i: nat)
    requires AllIn(g, level) && i < |level|
    ensures NonBase(g, level[..i+1]) == NonBase(g, level[..i]) + (if g[level[i]].isBase then [] else [level[i]])
  {
    assert level[..i+1] == level[..i] + [level[i]];
    NonBaseConcat(g, level[..i], [level[i]]);
  }

  lemma {:induction false} ExpandConcat(g: PackageMap, a: seq<seq<string>>, b: seq<seq<string>>, m: nat)
    requires m > 0 && InMap(g, a) && InMap(g, b)
    ensures Expand(g, a + b, m) == Expand(g, a, m) + Expand(g, b, m)
  {
    if a == [] {
      assert a + b == b;
    } else {
      ExpandConcat(g, a[1..], b, m);
      var c := Chunks(NonBase(g, a[0]), m);
      assert (a + b)[0] == a[0] && (a + b)[1..] == a[1..] + b;
      assert Expand(g, a + b, m) == c + Expand(g, a[1..] + b, m);
      ConcatAssociative(c, Expand(g, a[1..], m), Expand(g, b, m));
    }
  }

  lemma ExpandStep(g: PackageMap, plan: seq<seq<string>>, k: nat, m: nat)
    requires m > 0 && InMap(g, plan) && k < |plan|
    ensures Expand(g, plan[..k+1], m) == Expand(g, plan[..k], m) + Chunks(NonBase(g, plan[k]), m)
  {
    assert plan[..k+1] == plan[..k] + [plan[k]];
    ExpandConcat(g, plan[..k], [plan[k]], m);
    assert Expand(g, [plan[k]], m) == Chunks(NonBase(g, plan[k]), m) + [];
  }

  lemma {:induction false} FlattenConcat(a: seq<seq<string>>, b: seq<seq<string>>)
    ensures Flatten(a + b) == Flatten(a) + Flatten(b)
  {
    if a == [] {
      assert a + b == b;
    } else {
      assert (a + b)[1..] == a[1..] + b;
      FlattenConcat(a[1..], b);
    }
  }

  /** Chunking loses nothing, reorders nothing, and makes no empty or oversized piece. */
  lemma {:induction false} ChunksFaithful(s: seq<string>, m: nat)
    requires m > 0
    ensures Flatten(Chunks(s, m)) == s
    ensures forall b :: b in Chunks(s, m) ==> 0 < |b| <= m
    decreases |s|
  {
    if s != [] {
      var n := Min(m, |s|);
      ChunksFaithful(s[n..], m);
      assert s[..n] + s[n..] == s;
      assert Chunks(s, m)[1..] == Chunks(s[n..], m);
    }
  }

  lemma {:induction false} ChunkCount(s: seq<string>, m: nat)
    requires m > 0
    ensures |Chunks(s, m)| == CeilDiv(|s|, m)
    decreases |s|
  {
    if s != [] {
      var n := Min(m, |s|);
      ChunkCount(s[n..], m);
      if |s| <= m {
        assert s[n..] == [];
        CeilOfPart(|s|, m);
      } else {
        CeilStep(|s|, m);
      }
    } else {
      CeilOfZero(m);
    }
  }

  lemma CeilOfZero(m: nat)
    requires m > 0
    ensures CeilDiv(0, m) == 0
  {
  }

  lemma DivideIs(a: nat, m: nat, q: nat)
    requires m > 0 && m * q <= a < m * q + m
    ensures a / m == q
  {
    var k := a / m;
    assert a == m * k + a % m;
    assert m * (k - q) < m && 0 < m * (k - q) + m;
    if k > q { MulAtLeast(m, k - q); }
    assert m * (q - k) + m * (k - q) == 0;
    if k < q { MulAtLeast(m, q - k); }
  }

  lemma MulAtLeast(m: nat, d: nat)
    requires d >= 1
    ensures m * d >= m
  {
    assert m * d == m + m * (d - 1);
  }

  lemma CeilOfPart(n: nat, m: nat)
    requires 0 < n <= m
    ensures CeilDiv(n, m) == 1
  {
    DivideIs(n + m - 1, m, 1);
  }

  lemma CeilStep(n: nat, m: nat)
    requires n > m > 0
    ensures CeilDiv(n, m) == 1 + CeilDiv(n - m, m)
  {
    var q := CeilDiv(n - m, m);
    assert n - 1 == m * q + (n - 1) % m;
    assert m * (q + 1) == m * q + m;
    DivideIs(n + m - 1, m, q + 1);
  }
}
