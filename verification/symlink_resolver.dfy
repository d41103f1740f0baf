/** The work list that finds the other names of a file through the links of the root
    directory and the file's own link (src/util_fs.h:16-77). Paths are their parts. */
module SymlinkResolvers {
  import opened Collections
  import opened Options
  import opened Paths

  /** A link in the root directory and the directory it leads to. */
  type RootLink = (Path, Path)

  /** The file system, as it answers throughout. */
  datatype FileSystem = FileSystem(
    exists_: Path -> bool,
    equivalent: (Path, Path) -> bool,
    linkTarget: Path -> Option<Path>)         // is_symlink and read_symlink

  predicate IsSubPath(path: Path, base: Path) { base <= path }

  /** lexically_relative, for a path below its base. */
  function RelativeTo(path: Path, base: Path): (r: Path)
    requires IsSubPath(path, base)
  {
    if |path| == |base| || path[|base|] == "" then ["."] else path[|base|..]
  }

  /** The `/` operator for a relative right side; an empty last part is a trailing separator. */
  function Append(a: Path, b: Path): (r: Path) {
    if a != [] && a[|a|-1] == "" then a[..|a|-1] + b else a + b
  }

  /** The name of `p` with `a` in place of its ancestor `b`, if it is the same file. */
  function Candidate(f: FileSystem, p: Path, a: Path, b: Path): (r: Option<Path>) {
    if !IsSubPath(p, b) then None
    else
      var c := Append(a, RelativeTo(p, b));
      if f.exists_(c) && f.equivalent(c, p) then Some(c) else None
  }

  /** The first rewriting that works: link for target or target for link, link by link. */
  function FirstRewrite(f: FileSystem, links: seq<RootLink>, p: Path): (r: Option<Path>) {
    if links == [] then None
    else
      var (link, target) := links[0];
      var c := Candidate(f, p, link, target);
      var d := Candidate(f, p, target, link);
      if c.Some? then c else if d.Some? then d else FirstRewrite(f, links[1..], p)
  }

  function AsSet<T(==)>(o: Option<T>): (r: set<T>) { if o.Some? then {o.value} else {} }

  /** The names one pass over `p` adds to the work list. */
  function Step(f: FileSystem, links: seq<RootLink>, p: Path): (r: set<Path>) {
    AsSet(FirstRewrite(f, links, p)) + AsSet(f.linkTarget(p))
  }

  ghost predicate ClosedUnderStep(f: FileSystem, links: seq<RootLink>, s: set<Path>) {
    forall p :: p in s ==> Step(f, links, p) <= s
  }

  /** A finite set around `path` that no step leaves. */
  ghost predicate Encloses(f: FileSystem, links: seq<RootLink>, path: Path, s: set<Path>) {
    path in s && ClosedUnderStep(f, links, s)
  }

  ghost predicate HasClosure(f: FileSystem, links: seq<RootLink>, path: Path) {
    exists s :: Encloses(f, links, path, s)
  }

  /** The least set with `path` in it that is closed under the step. */
  ghost predicate IsClosure(f: FileSystem, links: seq<RootLink>, path: Path, s: set<Path>) {
    && path in s && ClosedUnderStep(f, links, s)
    && forall t :: path in t && ClosedUnderStep(f, links, t) ==> s <= t
  }

  /** Every name in `s` is in every closed set around `path`. */
  ghost predicate Needed(f: FileSystem, links: seq<RootLink>, path: Path, s: set<Path>) {
    forall t :: path in t && ClosedUnderStep(f, links, t) ==> s <= t
  }

  ghost function Members<T>(s: seq<T>): set<T> { set x | x in s }

  class SymlinkResolver {
    /** In the order the hash map iterates. */
    const symlinks: seq<RootLink>

    constructor (symlinks: seq<RootLink>)
      ensures this.symlinks == symlinks
    {
      this.symlinks := symlinks;
    }

    method Test(f: FileSystem, p: Path, a: Path, b: Path, wl: seq<Path>) returns (found: bool, wl': seq<Path>)
      ensures found <==> Candidate(f, p, a, b).Some?
      ensures wl' == if found then wl + [Candidate(f, p, a, b).value] else wl
    {
      if IsSubPath(p, b) {
        var candidate := Append(a, RelativeTo(p, b));
        if f.exists_(candidate) && f.equivalent(candidate, p) { return true, wl + [candidate]; }
      }
      return false, wl;
    }

    /** Tries the root links one by one, each in both directions. */
    method Rewrite(f: FileSystem, p: Path, wl: seq<Path>) returns (wl': seq<Path>)
      ensures wl' == wl + AsSeq(FirstRewrite(f, symlinks, p))
    {
      hide Candidate, FirstRewrite;
      wl' := wl;
      assert symlinks[0..] == symlinks;
      for i := 0 to |symlinks|
        invariant wl' == wl && FirstRewrite(f, symlinks[i..], p) == FirstRewrite(f, symlinks, p)
      {
        RewriteStep(f, symlinks, p, i);
        var (link, target) := symlinks[i];
        var found;
        found, wl' := Test(f, p, link, target, wl');
        if found { return; }
        found, wl' := Test(f, p, target, link, wl');
        if found { return; }
      }
      RewriteEnds(f, symlinks, p);
    }

    /** Terminates whenever some finite set with `path` in it is closed under the step. */
    method ResolveSymlinks(f: FileSystem, path: Path) returns (result: set<Path>)
      requires HasClosure(f, symlinks, path)
      ensures IsClosure(f, symlinks, path, result)
      ensures forall q :: q in result <==> exists walk :: Walk(f, symlinks, walk, path, q)
    {
      ghost var bound :| Encloses(f, symlinks, path, bound);
      assert path in bound && ClosedUnderStep(f, symlinks, bound);
      hide *;
      result := {};
      var wl := [path];
      Starts(f, symlinks, path, bound);
      while wl != []
        invariant Progress(f, symlinks, path, bound, result, wl)
        decreases |bound| - |result|, |wl|
      {
        var p := wl[0];
        assert wl == [p] + wl[1..];
        wl := wl[1..];
        if p in result {
          Revisits(f, symlinks, path, bound, result, p, wl);
          continue;
        }
        ghost var rest, seen := wl, result;
        result := result + {p};
        wl := Rewrite(f, p, wl);
        var target := f.linkTarget(p);
        if target.Some? { wl := wl + [target.value]; }
        Pushed(rest + AsSeq(FirstRewrite(f, symlinks, p)), target);
        Visits(f, symlinks, path, bound, seen, p, rest, wl);
      }
      Finishes(f, symlinks, path, bound, result);
      FoundAreWalks(f, symlinks, path, result);
    }
  }

  lemma Pushed(wl: seq<Path>, target: Option<Path>)
    ensures wl + AsSeq(target) == if target.Some? then wl + [target.value] else wl
  {
  }

  function AsSeq<T>(o: Option<T>): (r: seq<T>) { if o.Some? then [o.value] else [] }

  /** The names found or still to be looked at are needed, and what has been looked at has had
      its step taken. */
  ghost predicate Progress(f: FileSystem, links: seq<RootLink>, path: Path, bound: set<Path>, result: set<Path>,
                           wl: seq<Path>) {
    Knows(f, links, path, bound, result, result + Members(wl))
  }

  ghost predicate Knows(f: FileSystem, links: seq<RootLink>, path: Path, bound: set<Path>, result: set<Path>,
                        known: set<Path>) {
    && path in known && result <= known <= bound && Needed(f, links, path, known)
    && forall p :: p in result ==> Step(f, links, p) <= known
  }

  lemma {:induction false} Starts(f: FileSystem, links: seq<RootLink>, path: Path, bound: set<Path>)
    requires path in bound
    ensures Progress(f, links, path, bound, {}, [path])
  {
    assert {} + Members([path]) == {path};
  }

  lemma {:induction false} TakesStep(f: FileSystem, links: seq<RootLink>, path: Path, bound: set<Path>, result: set<Path>, known: set<Path>,
                  p: Path)
    requires Knows(f, links, path, bound, result, known) && p in known && ClosedUnderStep(f, links, bound)
    ensures Knows(f, links, path, bound, result + {p}, known + Step(f, links, p))
  {
    hide Step;
    NeededStep(f, links, path, known, p);
  }

  /** Looking at a name again changes nothing. */
  lemma {:induction false} Revisits(f: FileSystem, links: seq<RootLink>, path: Path, bound: set<Path>, result: set<Path>,
                                    p: Path, rest: seq<Path>)
    requires Progress(f, links, path, bound, result, [p] + rest) && p in result
    ensures Progress(f, links, path, bound, result, rest)
  {
    hide Knows;
    assert result + Members([p] + rest) == result + Members(rest);
  }

  /** Looking at a name for the first time takes its step. */
  lemma {:induction false} Visits(f: FileSystem, links: seq<RootLink>, path: Path, bound: set<Path>, result: set<Path>,
                                  p: Path, rest: seq<Path>, more: seq<Path>)
    requires Progress(f, links, path, bound, result, [p] + rest) && p !in result && ClosedUnderStep(f, links, bound)
    requires more == rest + AsSeq(FirstRewrite(f, links, p)) + AsSeq(f.linkTarget(p))
    ensures Progress(f, links, path, bound, result + {p}, more) && |result + {p}| == |result| + 1 <= |bound|
  {
    StepMembers(f, links, rest, p);
    hide FirstRewrite, Step, ClosedUnderStep, Needed;
    var known := result + Members([p] + rest);
    assert p in [p] + rest;
    CardinalityGrows(result, p, bound);
    TakesStep(f, links, path, bound, result, known, p);
    hide Knows;
    assert result + {p} + Members(more) == known + Step(f, links, p);
  }

  lemma {:induction false} StepMembers(f: FileSystem, links: seq<RootLink>, rest: seq<Path>, p: Path)
    ensures Members(rest + AsSeq(FirstRewrite(f, links, p)) + AsSeq(f.linkTarget(p))) == Members(rest) + Step(f, links, p)
  {
    hide FirstRewrite;
  }

  lemma {:induction false} Finishes(f: FileSystem, links: seq<RootLink>, path: Path, bound: set<Path>, result: set<Path>)
    requires Progress(f, links, path, bound, result, [])
    ensures IsClosure(f, links, path, result)
  {
    assert result + Members([]) == result;
  }

  lemma {:induction false} RewriteStep(f: FileSystem, links: seq<RootLink>, p: Path, i: nat)
    requires i < |links|
    ensures FirstRewrite(f, links[i..], p) ==
      if Candidate(f, p, links[i].0, links[i].1).Some? then Candidate(f, p, links[i].0, links[i].1)
      else if Candidate(f, p, links[i].1, links[i].0).Some? then Candidate(f, p, links[i].1, links[i].0)
      else FirstRewrite(f, links[i+1..], p)
  {
    assert links[i..][1..] == links[i+1..];
  }

  lemma {:induction false} RewriteEnds(f: FileSystem, links: seq<RootLink>, p: Path)
    ensures FirstRewrite(f, links[|links|..], p) == None
  {
  }

  lemma {:induction false} CardinalityGrows(s: set<Path>, p: Path, bound: set<Path>)
    requires s <= bound && p in bound && p !in s
    ensures |s + {p}| == |s| + 1 <= |bound|
  {
    SubsetSize(s + {p}, bound);
  }

  lemma {:induction false} NeededStep(f: FileSystem, links: seq<RootLink>, path: Path, s: set<Path>, p: Path)
    requires Needed(f, links, path, s) && p in s
    ensures Needed(f, links, path, s + Step(f, links, p))
  {
  }

  // ----- What a rewriting is -----

  /** `c` is `p` with the directory `a` in place of its ancestor `b`: what follows `b` in `p` follows
      `a` in `c`. A trailing separator of `a` goes; the directory itself is written `a/.`. */
  ghost predicate Replaces(p: Path, a: Path, b: Path, c: Path) {
    exists base: Path, rest: Path :: Splits(p, a, b, base, rest) && c == base + InDirectory(rest)
  }

  ghost predicate Splits(p: Path, a: Path, b: Path, base: Path, rest: Path) {
    && p == b + rest
    && (a == base + [""] || (a == base && (a == [] || a[|a|-1] != "")))
  }

  /** A name in a directory; none, or a separator alone, is the directory itself. */
  ghost function InDirectory(rest: Path): (r: Path) {
    if rest == [] || rest[0] == "" then ["."] else rest
  }

  /** The rewriting is kept: it exists and is the same file. */
  ghost predicate Works(f: FileSystem, p: Path, a: Path, b: Path, c: Path) {
    Replaces(p, a, b, c) && f.exists_(c) && f.equivalent(c, p)
  }

  lemma SplitsOnce(p: Path, a: Path, b: Path, base: Path, rest: Path)
    requires b <= p
    ensures Splits(p, a, b, base, rest) <==>
      base == (if a != [] && a[|a|-1] == "" then a[..|a|-1] else a) && rest == p[|b|..]
  {
    assert p == b + p[|b|..];
    if Splits(p, a, b, base, rest) { assert (b + rest)[|b|..] == rest; }
    if a == base + [""] { assert a[..|a|-1] == base; }
    if a != [] && a[|a|-1] == "" { assert a == a[..|a|-1] + [""]; }
  }

  lemma SplitsBelow(p: Path, a: Path, b: Path, base: Path, rest: Path)
    ensures Splits(p, a, b, base, rest) ==> b <= p
  {
    if p == b + rest { assert p[..|b|] == b; }
  }

  lemma CandidateExactly(f: FileSystem, p: Path, a: Path, b: Path, c: Path)
    ensures Candidate(f, p, a, b) == Some(c) <==> Works(f, p, a, b, c)
  {
    if IsSubPath(p, b) {
      var base := if a != [] && a[|a|-1] == "" then a[..|a|-1] else a;
      var rest := p[|b|..];
      assert Append(a, RelativeTo(p, b)) == base + InDirectory(rest);
      forall base', rest' ensures Splits(p, a, b, base', rest') <==> base' == base && rest' == rest {
        SplitsOnce(p, a, b, base', rest');
      }
      hide Splits, Append, RelativeTo, InDirectory;
      assert Replaces(p, a, b, c) <==> c == base + InDirectory(rest);
    } else {
      forall base, rest ensures !Splits(p, a, b, base, rest) { SplitsBelow(p, a, b, base, rest); }
    }
  }

  /** The attempts in order: for each link first the link in place of its target, then the target
      in place of the link. */
  ghost function Attempt(links: seq<RootLink>, k: nat): (r: (Path, Path))
    requires k < 2 * |links|
  {
    var (link, target) := links[k / 2];
    if k % 2 == 0 then (link, target) else (target, link)
  }

  /** The `k`-th attempt gives `c`, and none before it gives anything. */
  ghost predicate FirstAttempt(f: FileSystem, links: seq<RootLink>, p: Path, k: nat, c: Path) {
    && k < 2 * |links| && Works(f, p, Attempt(links, k).0, Attempt(links, k).1, c)
    && forall j: nat, d :: j < k ==> !Works(f, p, Attempt(links, j).0, Attempt(links, j).1, d)
  }

  lemma AttemptAfter(links: seq<RootLink>, k: nat)
    requires links != [] && k < 2 * |links[1..]|
    ensures Attempt(links, k + 2) == Attempt(links[1..], k)
  {
    assert (k + 2) / 2 == k / 2 + 1;
  }

  lemma FirstAttemptAfter(f: FileSystem, links: seq<RootLink>, p: Path, k: nat, c: Path)
    requires links != []
    requires forall d :: !Works(f, p, links[0].0, links[0].1, d) && !Works(f, p, links[0].1, links[0].0, d)
    ensures FirstAttempt(f, links[1..], p, k, c) <==> FirstAttempt(f, links, p, k + 2, c)
  {
    hide Works;
    assert Attempt(links, 0) == links[0] && Attempt(links, 1) == (links[0].1, links[0].0);
    if k < 2 * |links[1..]| {
      forall j: nat | j <= k ensures Attempt(links, j + 2) == Attempt(links[1..], j) { AttemptAfter(links, j); }
      if FirstAttempt(f, links[1..], p, k, c) {
        forall j: nat, d | j < k + 2 ensures !Works(f, p, Attempt(links, j).0, Attempt(links, j).1, d) {
          if j >= 2 { assert Attempt(links, j) == Attempt(links[1..], j - 2); }
        }
      }
      if FirstAttempt(f, links, p, k + 2, c) {
        forall j: nat, d | j < k ensures !Works(f, p, Attempt(links[1..], j).0, Attempt(links[1..], j).1, d) {
          assert Attempt(links, j + 2) == Attempt(links[1..], j);
        }
      }
    }
  }

  /** What the two attempts of the first link give. */
  lemma HeadAttempts(f: FileSystem, links: seq<RootLink>, p: Path, k: nat, c: Path)
    requires links != []
    ensures var one, two := Candidate(f, p, links[0].0, links[0].1), Candidate(f, p, links[0].1, links[0].0);
      && (FirstAttempt(f, links, p, 0, c) <==> one == Some(c))
      && (FirstAttempt(f, links, p, 1, c) <==> one.None? && two == Some(c))
      && (k >= 2 && (one.Some? || two.Some?) ==> !FirstAttempt(f, links, p, k, c))
      && (one.None? && two.None? ==> forall d :: !Works(f, p, links[0].0, links[0].1, d) && !Works(f, p, links[0].1, links[0].0, d))
  {
    var (link, target) := links[0];
    assert Attempt(links, 0) == (link, target) && Attempt(links, 1) == (target, link);
    forall d ensures Candidate(f, p, link, target) == Some(d) <==> Works(f, p, link, target, d) {
      CandidateExactly(f, p, link, target, d);
    }
    forall d ensures Candidate(f, p, target, link) == Some(d) <==> Works(f, p, target, link, d) {
      CandidateExactly(f, p, target, link, d);
    }
    hide Candidate, Works, Attempt;
    var one, two := Candidate(f, p, link, target), Candidate(f, p, target, link);
    if one.Some? { assert Works(f, p, Attempt(links, 0).0, Attempt(links, 0).1, one.value); }
    if two.Some? { assert Works(f, p, Attempt(links, 1).0, Attempt(links, 1).1, two.value); }
  }

  /** The rewriting is the result of the first attempt that works, if any does. */
  lemma {:induction false} RewriteExactly(f: FileSystem, links: seq<RootLink>, p: Path, c: Path)
    ensures FirstRewrite(f, links, p) == Some(c) <==> exists k: nat :: FirstAttempt(f, links, p, k, c)
    decreases |links|
  {
    hide *;
    RewriteUnfolds(f, links, p);
    if links == [] {
      NoAttempts(f, p, c);
    } else {
      var one, two := Candidate(f, p, links[0].0, links[0].1), Candidate(f, p, links[0].1, links[0].0);
      if k: nat :| FirstAttempt(f, links, p, k, c) {
        HeadAttempts(f, links, p, k, c);
        if one.None? && two.None? {
          if k >= 2 { FirstAttemptAfter(f, links, p, k - 2, c); }
          RewriteExactly(f, links[1..], p, c);
        }
      } else {
        HeadAttempts(f, links, p, 0, c);
        if one.None? && two.None? {
          RewriteExactly(f, links[1..], p, c);
          if k: nat :| FirstAttempt(f, links[1..], p, k, c) { FirstAttemptAfter(f, links, p, k, c); }
        }
      }
    }
  }

  lemma {:induction false} RewriteUnfolds(f: FileSystem, links: seq<RootLink>, p: Path)
    ensures FirstRewrite(f, links, p) ==
      if links == [] then None
      else
        var one, two := Candidate(f, p, links[0].0, links[0].1), Candidate(f, p, links[0].1, links[0].0);
        if one.Some? then one else if two.Some? then two else FirstRewrite(f, links[1..], p)
  {
    hide Candidate;
  }

  lemma NoAttempts(f: FileSystem, p: Path, c: Path)
    ensures forall k: nat :: !FirstAttempt(f, [], p, k, c)
  {
  }

  /** The search goes from `p` to `q`: by the first rewriting that works, or along `p`'s own link. */
  ghost predicate Leads(f: FileSystem, links: seq<RootLink>, p: Path, q: Path) {
    f.linkTarget(p) == Some(q) || exists k: nat :: FirstAttempt(f, links, p, k, q)
  }

  lemma StepLeads(f: FileSystem, links: seq<RootLink>, p: Path, q: Path)
    ensures q in Step(f, links, p) <==> Leads(f, links, p, q)
  {
    RewriteExactly(f, links, p, q);
    hide FirstRewrite, FirstAttempt;
  }

  /** A walk of the search that starts at `path` and ends at `q`. */
  ghost predicate Walk(f: FileSystem, links: seq<RootLink>, walk: seq<Path>, path: Path, q: Path) {
    && walk != [] && walk[0] == path && walk[|walk|-1] == q
    && forall i :: 0 < i < |walk| ==> Leads(f, links, walk[i-1], walk[i])
  }

  /** The least closed set holds exactly the names that walks from the path end at. */
  lemma FoundExactly(f: FileSystem, links: seq<RootLink>, path: Path, s: set<Path>, q: Path)
    requires IsClosure(f, links, path, s)
    ensures q in s <==> exists walk :: Walk(f, links, walk, path, q)
  {
    var t := set x | x in s && exists walk :: Walk(f, links, walk, path, x);
    assert path in t by { assert Walk(f, links, [path], path, path); }
    hide Leads, Step;
    forall p | p in t ensures Step(f, links, p) <= t {
      forall x | x in Step(f, links, p) ensures x in t {
        var walk :| Walk(f, links, walk, path, p);
        StepLeads(f, links, p, x);
        assert Walk(f, links, walk + [x], path, x);
      }
    }
    assert ClosedUnderStep(f, links, t);
    if walk :| Walk(f, links, walk, path, q) { WalkStays(f, links, path, s, walk, q); }
  }

  lemma FoundAreWalks(f: FileSystem, links: seq<RootLink>, path: Path, s: set<Path>)
    requires IsClosure(f, links, path, s)
    ensures forall q :: q in s <==> exists walk :: Walk(f, links, walk, path, q)
  {
    hide IsClosure, Walk;
    forall q ensures q in s <==> exists walk :: Walk(f, links, walk, path, q) { FoundExactly(f, links, path, s, q); }
  }

  lemma {:induction false} WalkStays(f: FileSystem, links: seq<RootLink>, path: Path, s: set<Path>, walk: seq<Path>, q: Path)
    requires path in s && ClosedUnderStep(f, links, s) && Walk(f, links, walk, path, q)
    ensures q in s
    decreases |walk|
  {
    hide Leads, Step;
    if |walk| > 1 {
      var before := walk[..|walk|-1];
      assert Walk(f, links, before, path, walk[|walk|-2]);
      WalkStays(f, links, path, s, before, walk[|walk|-2]);
      StepLeads(f, links, walk[|walk|-2], q);
    }
  }

  /** For a name below a directory that a root link leads to, the name below the link is found,
      unless an earlier attempt gave another one. */
  lemma BelowLinkFound(f: FileSystem, links: seq<RootLink>, path: Path, s: set<Path>, k: nat, rest: Path)
    requires IsClosure(f, links, path, s) && k < 2 * |links| && rest != [] && "" !in rest
    requires var (a, b) := Attempt(links, k);
      && "" !in a && b + rest in s && f.exists_(a + rest) && f.equivalent(a + rest, b + rest)
      && forall j: nat, d :: j < k ==> !Works(f, b + rest, Attempt(links, j).0, Attempt(links, j).1, d)
    ensures Attempt(links, k).0 + rest in s
  {
    var (a, b) := Attempt(links, k);
    assert Splits(b + rest, a, b, a, rest);
    assert rest[0] in rest && InDirectory(rest) == rest;
    assert Works(f, b + rest, a, b, a + rest);
    assert FirstAttempt(f, links, b + rest, k, a + rest);
    StepLeads(f, links, b + rest, a + rest);
  }

  // ----- Properties -----

  lemma {:induction false} ClosureUnique(f: FileSystem, links: seq<RootLink>, path: Path, s: set<Path>, t: set<Path>)
    requires IsClosure(f, links, path, s) && IsClosure(f, links, path, t)
    ensures s == t
  {
  }

  /** A relation that identifies two names of one file, and that no step leaves. */
  ghost predicate StepsPreserve(f: FileSystem, links: seq<RootLink>, same: (Path, Path) -> bool) {
    && (forall p :: same(p, p))
    && (forall p, q, r :: same(p, q) && same(q, r) ==> same(p, r))
    && (forall p, q :: q in Step(f, links, p) ==> same(p, q))
  }

  /** All names found name the file the search started from, if every step does. */
  lemma {:induction false} ClosureSameFile(f: FileSystem, links: seq<RootLink>, path: Path, s: set<Path>, same: (Path, Path) -> bool)
    requires IsClosure(f, links, path, s) && StepsPreserve(f, links, same)
    ensures forall q :: q in s ==> same(path, q)
  {
    var t := set q | q in s && same(path, q);
    forall p | p in t ensures Step(f, links, p) <= t {
      forall q | q in Step(f, links, p) ensures q in t { assert same(p, q); }
    }
    assert ClosedUnderStep(f, links, t);
  }

  lemma {:induction false} RewriteIsEquivalent(f: FileSystem, links: seq<RootLink>, p: Path)
    ensures var r := FirstRewrite(f, links, p); r.Some? ==> f.exists_(r.value) && f.equivalent(r.value, p)
    decreases |links|
  {
    if links != [] { RewriteIsEquivalent(f, links[1..], p); }
  }

  /** Rewriting steps preserve the file by themselves, so only the links' own targets matter. */
  lemma {:induction false} TargetsDecide(f: FileSystem, links: seq<RootLink>, same: (Path, Path) -> bool)
    requires forall p :: same(p, p)
    requires forall p, q, r :: same(p, q) && same(q, r) ==> same(p, r)
    requires forall p, q :: f.equivalent(q, p) ==> same(p, q)
    requires forall p :: f.linkTarget(p).Some? ==> same(p, f.linkTarget(p).value)
    ensures StepsPreserve(f, links, same)
  {
    forall p, q | q in Step(f, links, p) ensures same(p, q) { RewriteIsEquivalent(f, links, p); }
  }

  /** Existing names and link targets are all among `names`, as on any file system with finitely
      many names. */
  ghost predicate NamesWithin(f: FileSystem, names: set<Path>) {
    && (forall p :: f.exists_(p) ==> p in names)
    && (forall p :: f.linkTarget(p).Some? ==> f.linkTarget(p).value in names)
  }

  /** On such a file system every search ends, whatever the links and wherever it starts. */
  lemma FiniteNamesClose(f: FileSystem, links: seq<RootLink>, path: Path, names: set<Path>)
    requires NamesWithin(f, names)
    ensures HasClosure(f, links, path)
  {
    forall p | p in {path} + names ensures Step(f, links, p) <= {path} + names { RewriteIsEquivalent(f, links, p); }
    assert Encloses(f, links, path, {path} + names);
  }

  /** A search that ends has found a finite closed set, so the condition is also necessary. */
  lemma ClosureNeedsBound(f: FileSystem, links: seq<RootLink>, path: Path, s: set<Path>)
    requires IsClosure(f, links, path, s)
    ensures HasClosure(f, links, path)
  {
    assert Encloses(f, links, path, s);
  }
}
