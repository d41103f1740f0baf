/** The abstract value of a FileSystemTrie: the existing nodes by path, each with the value
    it may hold; and what a sequence of insertions makes of it
    (src/filesystem_trie.h:87-91, 149-221). */
module TrieModel {
  import opened Collections
  import opened Options
  import opened Paths

  type Tree<V> = map<Path, Option<V>>

  /** Empty parts, as a trailing separator gives, are skipped everywhere. */
  function Normal(p: Path): (r: Path)
    ensures "" !in r
    ensures "" !in p ==> r == p
  {
    if p == [] then [] else (if p[0] == "" then [] else [p[0]]) + Normal(p[1..])
  }

  lemma {:induction false} NormalConcat(p: Path, q: Path)
    ensures Normal(p + q) == Normal(p) + Normal(q)
  {
    if p == [] {
      assert p + q == q;
    } else {
      assert (p + q)[1..] == p[1..] + q;
      NormalConcat(p[1..], q);
    }
  }

  lemma NormalStep(p: Path, i: nat)
    requires i < |p|
    ensures Normal(p[..i+1]) == if p[i] == "" then Normal(p[..i]) else Normal(p[..i]) + [p[i]]
  {
    assert p[..i+1] == p[..i] + [p[i]];
    NormalConcat(p[..i], [p[i]]);
  }

  /** The root exists and every parent of a node is a node. */
  ghost predicate IsTree<V>(t: Tree<V>) {
    [] in t && forall p: Path, k: string :: p + [k] in t ==> p in t
  }

  function Empty<V>(): Tree<V> { map[[] := None] }

  /** `t` with valueless nodes added along `p` where there were none. */
  ghost function Extend<V>(t: Tree<V>, p: Path): Tree<V> {
    map q | q in t.Keys + Prefixes(p) :: if q in t then t[q] else None
  }

  ghost function Prefixes(p: Path): set<Path> {
    set i | 0 <= i <= |p| :: p[..i]
  }

  lemma PrefixesAre(p: Path, q: Path)
    ensures q in Prefixes(p) <==> q <= p
  {
    if q <= p { assert p[..|q|] == q; }
  }

  ghost function Insert<V>(t: Tree<V>, p: Path, v: V): Tree<V> {
    Extend(t, p)[p := Some(v)]
  }

  /** What `find` reads at a path. */
  ghost function Find<V>(t: Tree<V>, p: Path): Option<V> {
    if p in t then t[p] else None
  }

  /** `q` is the longest prefix of `p` that exists. */
  ghost predicate Deepest<V>(t: Tree<V>, p: Path, q: Path) {
    q <= p && q in t && forall r :: r <= p && r in t ==> |r| <= |q|
  }

  lemma ProperPrefix(r: Path, p: Path)
    requires r <= p && r != p
    ensures |r| < |p| && r <= p[..|p|-1]
  {
    assert r == p[..|r|];
  }

  /** The longest existing prefix of a path. */
  ghost function DeepestPrefix<V>(t: Tree<V>, p: Path): (q: Path)
    requires [] in t
    ensures Deepest(t, p, q)
  {
    if p in t then p
    else
      var q := DeepestPrefix(t, p[..|p|-1]);
      assert forall r :: r in t && r <= p ==> r <= p[..|p|-1] by {
        forall r | r in t && r <= p ensures r <= p[..|p|-1] { ProperPrefix(r, p); }
      }
      q
  }

  lemma DeepestUnique<V>(t: Tree<V>, p: Path, q: Path, r: Path)
    requires Deepest(t, p, q) && Deepest(t, p, r)
    ensures q == r
  {
    assert q == p[..|q|] && r == p[..|r|];
  }

  lemma {:induction false} PrefixExists<V>(t: Tree<V>, p: Path, q: Path)
    requires IsTree(t) && p in t && q <= p
    ensures q in t
    decreases |p|
  {
    if q != p {
      var init := p[..|p|-1];
      assert p == init + [p[|p|-1]];
      PrefixExists(t, init, q);
    }
  }

  lemma ExtendIsTree<V>(t: Tree<V>, p: Path)
    requires IsTree(t)
    ensures IsTree(Extend(t, p))
  {
    PrefixesAre(p, []);
    forall q: Path, k: string | q + [k] in Extend(t, p) ensures q in Extend(t, p) {
      PrefixesAre(p, q + [k]);
      PrefixesAre(p, q);
      if q + [k] <= p { assert q <= p by { assert p[..|q|] == (q + [k])[..|q|] == q; } }
    }
  }

  lemma ExtendStep<V>(t: Tree<V>, p: Path, k: string)
    ensures Extend(t, p + [k]) == if p + [k] in Extend(t, p) then Extend(t, p) else Extend(t, p)[p + [k] := None]
  {
    forall q ensures q in Prefixes(p + [k]) <==> q in Prefixes(p) || q == p + [k] {
      PrefixesAre(p + [k], q);
      PrefixesAre(p, q);
      if q <= p + [k] && q != p + [k] {
        assert q == (p + [k])[..|q|] == p[..|q|];
      }
      if q <= p { assert q == p[..|q|] == (p + [k])[..|q|]; }
    }
  }

  lemma ExtendNothing<V>(t: Tree<V>)
    requires IsTree(t)
    ensures Extend(t, []) == t
  {
    forall q ensures q in Prefixes([]) <==> q == [] { PrefixesAre([], q); }
  }

  // ----- Sequences of insertions -----

  /** The tree after the insertions `ins`, in order. */
  ghost function Build<V>(ins: seq<(Path, V)>): Tree<V> {
    if ins == [] then Empty()
    else Insert(Build(ins[..|ins|-1]), ins[|ins|-1].0, ins[|ins|-1].1)
  }

  lemma NothingBuilt<V>()
    ensures Build<V>([]) == Empty() && BuildSize<V>([]) == 0
  {
  }

  lemma {:induction false} BuildOneMore<V>(ins: seq<(Path, V)>, e: (Path, V))
    ensures Build(ins + [e]) == Insert(Build(ins), e.0, e.1)
    ensures BuildSize(ins + [e]) == BuildSize(ins) + (if e.0 in Build(ins) then 0 else 1)
  {
    assert (ins + [e])[..|ins|] == ins;
  }

  /** The count that only insertions creating a node increment. */
  ghost function BuildSize<V>(ins: seq<(Path, V)>): nat {
    if ins == [] then 0
    else BuildSize(ins[..|ins|-1]) + (if ins[|ins|-1].0 in Build(ins[..|ins|-1]) then 0 else 1)
  }

  /** `v` was the last value inserted at `p`, or none was. */
  ghost function LastInserted<V>(ins: seq<(Path, V)>, p: Path): Option<V> {
    if ins == [] then None
    else if ins[|ins|-1].0 == p then Some(ins[|ins|-1].1)
    else LastInserted(ins[..|ins|-1], p)
  }

  ghost predicate InsertedBelow<V>(ins: seq<(Path, V)>, p: Path) {
    exists i :: 0 <= i < |ins| && p <= ins[i].0
  }

  /** The trie refines a finite map: `find` is last-writer-wins on exactly the inserted
      paths, and the nodes are the prefixes of inserted paths. */
  lemma {:induction false} BuildRefinesMap<V>(ins: seq<(Path, V)>, p: Path)
    ensures IsTree(Build(ins))
    ensures p in Build(ins) <==> p == [] || InsertedBelow(ins, p)
    ensures Find(Build(ins), p) == LastInserted(ins, p)
    decreases |ins|
  {
    if ins != [] {
      var before := ins[..|ins|-1];
      var last := ins[|ins|-1];
      BuildRefinesMap(before, p);
      ExtendIsTree(Build(before), last.0);
      PrefixesAre(last.0, p);
      PrefixesAre(last.0, last.0);
      if InsertedBelow(before, p) {
        var i :| 0 <= i < |before| && p <= before[i].0;
        assert p <= ins[i].0;
      }
      if InsertedBelow(ins, p) {
        var i :| 0 <= i < |ins| && p <= ins[i].0;
        if i < |before| { assert p <= before[i].0; }
      }
    }
  }

  /** `find_last_matching` reads the longest prefix of `p` that is a prefix of some inserted
      path; it gives the last value inserted at that very prefix, if any. */
  lemma LastMatchingMeaning<V>(ins: seq<(Path, V)>, p: Path, q: Path)
    requires Deepest(Build(ins), p, q)
    ensures Find(Build(ins), q) == LastInserted(ins, q)
    ensures q == [] || InsertedBelow(ins, q)
    ensures forall r :: r <= p && InsertedBelow(ins, r) ==> |r| <= |q|
  {
    BuildRefinesMap(ins, q);
    forall r | r <= p && InsertedBelow(ins, r) ensures |r| <= |q| { BuildRefinesMap(ins, r); }
  }

  /** No inserted path is a proper prefix of another. */
  ghost predicate Antichain<V>(ins: seq<(Path, V)>) {
    forall i, j :: 0 <= i < |ins| && 0 <= j < |ins| && ins[i].0 <= ins[j].0 ==> ins[i].0 == ins[j].0
  }

  lemma {:induction false} LastInsertedWitness<V>(ins: seq<(Path, V)>, p: Path)
    ensures LastInserted(ins, p).Some? ==> exists i :: 0 <= i < |ins| && ins[i] == (p, LastInserted(ins, p).value)
    ensures LastInserted(ins, p).None? ==> forall i :: 0 <= i < |ins| ==> ins[i].0 != p
    decreases |ins|
  {
    if ins != [] {
      var before := ins[..|ins|-1];
      LastInsertedWitness(before, p);
      if ins[|ins|-1].0 != p && LastInserted(before, p).Some? {
        var i :| 0 <= i < |before| && before[i] == (p, LastInserted(before, p).value);
        assert ins[i] == before[i];
      }
    }
  }

  /** When keys never extend one another, `find_last_matching` is longest-prefix match: it
      succeeds exactly when an inserted path is a prefix of `p`, and gives that path's value. */
  lemma AntichainLongestPrefix<V>(ins: seq<(Path, V)>, p: Path, q: Path, k: nat)
    requires Antichain(ins) && Deepest(Build(ins), p, q)
    requires k < |ins| && ins[k].0 <= p
    ensures q == ins[k].0
    ensures Find(Build(ins), q) == LastInserted(ins, ins[k].0)
    ensures Find(Build(ins), q).Some?
  {
    var key := ins[k].0;
    assert InsertedBelow(ins, key);
    LastMatchingMeaning(ins, p, q);
    LastInsertedWitness(ins, key);
    hide Build, LastInserted, IsTree, Find;
    PrefixOfLonger(key, q, p);
    if q != [] {
      var j :| 0 <= j < |ins| && q <= ins[j].0;
      PrefixTransitive(key, q, ins[j].0);
    }
  }

  lemma PrefixOfLonger(a: Path, b: Path, p: Path)
    requires a <= p && b <= p && |a| <= |b|
    ensures a <= b
  {
    assert a == p[..|a|] == b[..|a|];
  }

  lemma PrefixTransitive(a: Path, b: Path, c: Path)
    requires a <= b <= c
    ensures a <= c
  {
    assert c[..|a|] == b[..|a|];
  }

  lemma AntichainNoMatch<V>(ins: seq<(Path, V)>, p: Path, q: Path)
    requires Deepest(Build(ins), p, q)
    requires forall k :: 0 <= k < |ins| ==> !(ins[k].0 <= p)
    ensures Find(Build(ins), q) == None
  {
    LastMatchingMeaning(ins, p, q);
    LastInsertedWitness(ins, q);
  }

  // ----- The size counter -----

  /** Valued nodes other than the root. */
  ghost function Valued<V>(t: Tree<V>): set<Path> {
    set p | p in t && p != [] && t[p].Some?
  }

  ghost predicate HasChild<V>(t: Tree<V>, p: Path) {
    exists k: string :: p + [k] in t
  }

  /** Childless nodes other than the root. */
  ghost function Leaves<V>(t: Tree<V>): set<Path> {
    set p | p in t && p != [] && !HasChild(t, p)
  }

  /** The paths whose insertion was counted. */
  ghost function Counted<V>(ins: seq<(Path, V)>): set<Path> {
    if ins == [] then {}
    else Counted(ins[..|ins|-1]) + (if ins[|ins|-1].0 in Build(ins[..|ins|-1]) then {} else {ins[|ins|-1].0})
  }

  lemma {:induction false} CountedBounds<V>(ins: seq<(Path, V)>)
    ensures |Counted(ins)| == BuildSize(ins)
    ensures Leaves(Build(ins)) <= Counted(ins) <= Valued(Build(ins))
    decreases |ins|
  {
    if ins != [] {
      var before := ins[..|ins|-1];
      var last := ins[|ins|-1].0;
      CountedBounds(before);
      var t, t' := Build(before), Build(ins);
      PrefixesAre(last, last);
      BuildRefinesMap(before, []);
      assert forall p :: p in t && t[p].Some? ==> p in t' && t'[p].Some?;
      forall p | p in Leaves(t') ensures p in Counted(ins) {
        PrefixesAre(last, p);
        if p in t {
          ChildPersists(t, t', p);
          assert p in Leaves(t);
        } else if p != last {
          ProperPrefixHasChild(t, p, last, ins[|ins|-1].1);
        }
      }
    }
  }

  lemma ChildPersists<V>(t: Tree<V>, t': Tree<V>, p: Path)
    requires t.Keys <= t'.Keys
    ensures HasChild(t, p) ==> HasChild(t', p)
  {
  }

  lemma ProperPrefixHasChild<V>(t: Tree<V>, p: Path, q: Path, v: V)
    requires p <= q && p != q
    ensures HasChild(Insert(t, q, v), p)
  {
    var k := q[|p|];
    assert p + [k] == q[..|p|+1];
    PrefixesAre(q, p + [k]);
    assert p + [k] in Insert(t, q, v);
  }

  /** A trie built by insertions has a size between its number of leaves and its number of
      valued nodes, the root aside. */
  lemma SizeBounds<V>(ins: seq<(Path, V)>)
    ensures |Leaves(Build(ins))| <= BuildSize(ins) <= |Valued(Build(ins))|
  {
    CountedBounds(ins);
    SubsetSize(Leaves(Build(ins)), Counted(ins));
    SubsetSize(Counted(ins), Valued(Build(ins)));
  }

  // ----- Listing a tree, and rebuilding it from the listing -----

  ghost predicate Lists<V>(ins: seq<(Path, V)>, p: Path) {
    exists i :: 0 <= i < |ins| && ins[i].0 == p
  }

  ghost predicate ListsOnly<V>(t: Tree<V>, seen: set<Path>, ins: seq<(Path, V)>) {
    forall i :: 0 <= i < |ins| ==> ins[i].0 in t && ins[i].0 in seen && t[ins[i].0] == Some(ins[i].1)
  }

  ghost predicate ListsEvery<V>(t: Tree<V>, seen: set<Path>, ins: seq<(Path, V)>) {
    forall p :: p in seen && p in t && t[p].Some? ==> Lists(ins, p)
  }

  /** No entry extends, or repeats, a later one. */
  ghost predicate AncestorsFirst<V>(ins: seq<(Path, V)>) {
    forall i, j :: 0 <= i < j < |ins| ==> !(ins[j].0 <= ins[i].0)
  }

  /** `ins` lists every valued path of `seen` once with its value, none before an ancestor. */
  ghost predicate Listing<V>(t: Tree<V>, seen: set<Path>, ins: seq<(Path, V)>) {
    ListsOnly(t, seen, ins) && AncestorsFirst(ins) && ListsEvery(t, seen, ins)
  }

  lemma ListingStep<V>(t: Tree<V>, seen: set<Path>, ins: seq<(Path, V)>, p: Path)
    requires Listing(t, seen, ins) && p in t
    requires forall q :: q in seen ==> !(p <= q)
    ensures t[p] == None ==> Listing(t, seen + {p}, ins)
    ensures t[p].Some? ==> Listing(t, seen + {p}, ins + [(p, t[p].value)])
  {
    if t[p].Some? {
      var ins' := ins + [(p, t[p].value)];
      assert ins'[|ins|].0 == p;
      forall q | Lists(ins, q) ensures Lists(ins', q) {
        var i :| 0 <= i < |ins| && ins[i].0 == q;
        assert ins'[i].0 == q;
      }
    }
  }

  lemma ListingFind<V>(t: Tree<V>, ins: seq<(Path, V)>, p: Path)
    requires Listing(t, t.Keys, ins)
    ensures Find(Build(ins), p) == Find(t, p)
  {
    BuildRefinesMap(ins, p);
    LastInsertedWitness(ins, p);
    if p in t && t[p].Some? { assert Lists(ins, p); }
  }

  /** Rebuilding from a listing counts every valued node but the root. */
  lemma ListingSize<V>(t: Tree<V>, ins: seq<(Path, V)>)
    requires Listing(t, t.Keys, ins)
    ensures BuildSize(ins) == |Valued(t)|
  {
    NonRootSize(ins);
    forall p ensures p in NonRoot(ins) <==> p in Valued(t) {
      NonRootMember(ins, p);
      if p in Valued(t) { assert Lists(ins, p); }
    }
    assert NonRoot(ins) == Valued(t);
  }

  ghost function NonRoot<V>(ins: seq<(Path, V)>): set<Path> {
    if ins == [] then {}
    else NonRoot(ins[..|ins|-1]) + (if ins[|ins|-1].0 == [] then {} else {ins[|ins|-1].0})
  }

  lemma {:induction false} NonRootMember<V>(ins: seq<(Path, V)>, p: Path)
    ensures p in NonRoot(ins) <==> p != [] && Lists(ins, p)
    decreases |ins|
  {
    if ins != [] {
      var before := ins[..|ins|-1];
      NonRootMember(before, p);
      if Lists(before, p) {
        var i :| 0 <= i < |before| && before[i].0 == p;
        assert ins[i].0 == p;
      }
      if Lists(ins, p) && ins[|ins|-1].0 != p {
        var i :| 0 <= i < |ins| && ins[i].0 == p;
        assert before[i].0 == p;
      }
    }
  }

  lemma ListedIsBelow<V>(ins: seq<(Path, V)>, p: Path)
    ensures Lists(ins, p) ==> InsertedBelow(ins, p)
  {
  }

  lemma {:induction false} NonRootSize<V>(ins: seq<(Path, V)>)
    requires AncestorsFirst(ins)
    ensures BuildSize(ins) == |NonRoot(ins)|
    decreases |ins|
  {
    if ins != [] {
      var before := ins[..|ins|-1];
      var last := ins[|ins|-1].0;
      NonRootSize(before);
      BuildRefinesMap(before, last);
      assert !InsertedBelow(before, last);
      ListedIsBelow(before, last);
      NonRootMember(before, last);
    }
  }
}
