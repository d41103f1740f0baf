/** The explicit-stack iterator of FileSystemTrie and the copy constructor it drives
    (src/filesystem_trie.h:47-76, 87-91, 120-147). */
module TrieIterator {
  import opened Options
  import opened Paths
  import opened TrieModel
  import opened FilesystemTrie

  /** Distinct valued paths still to come lie below the stack entries; everything else has
      been seen. */
  ghost predicate Covered<V>(stack: seq<(Path, Node<V>)>, p: Path) {
    exists i :: 0 <= i < |stack| && stack[i].0 <= p
  }

  ghost predicate EntriesOk<V>(nodes: map<Path, Node<V>>, stack: seq<(Path, Node<V>)>) {
    forall i :: 0 <= i < |stack| ==> stack[i].0 in nodes && stack[i].1 == nodes[stack[i].0]
  }

  ghost predicate Incomparable<V>(stack: seq<(Path, Node<V>)>) {
    forall i, j :: 0 <= i < |stack| && 0 <= j < |stack| && stack[i].0 <= stack[j].0 ==> i == j
  }

  ghost predicate SeenIsUncovered<V>(nodes: map<Path, Node<V>>, stack: seq<(Path, Node<V>)>, seen: set<Path>) {
    forall p {:trigger Covered(stack, p)} :: p in nodes ==> (p in seen <==> !Covered(stack, p))
  }

  ghost predicate StackOk<V>(nodes: map<Path, Node<V>>, stack: seq<(Path, Node<V>)>, seen: set<Path>) {
    EntriesOk(nodes, stack) && Incomparable(stack) && seen <= nodes.Keys && SeenIsUncovered(nodes, stack, seen)
  }

  /** The iterator: a stack of subtrees still to visit and the entry it stands on. The
      children of a node are pushed in an arbitrary order, as the hash table gives them.
      The tree must not change while it is iterated over. */
  class ConstIterator<V> {
    ghost const nodes: map<Path, Node<V>>
    ghost const repr: set<Node<V>>
    ghost const tree: Tree<V>
    var stack: seq<(Path, Node<V>)>
    var current: Option<(Path, V)>
    ghost var seen: set<Path>
    ghost var yielded: seq<(Path, V)>

    ghost predicate NodeSame(p: Path)
      reads repr
    {
      && p in nodes && p in tree && nodes[p] in repr
      && ChildrenOf(nodes, p, nodes[p].children) && nodes[p].value == tree[p]
    }

    /** Every node is as it was when the iterator was made. */
    ghost predicate Unchanged()
      reads repr
    {
      forall p {:trigger NodeSame(p)} :: p in nodes ==> NodeSame(p)
    }

    ghost predicate InProgress()
      reads this
    {
      && IsTree(tree) && tree.Keys == nodes.Keys && seen <= nodes.Keys
      && StackOk(nodes, stack, seen) && Listing(tree, seen, yielded)
    }

    /** What has been yielded is a listing of the part of the tree seen so far, and ends
        with the current entry; the end is reached only when everything has been seen. */
    ghost predicate Valid()
      reads this
    {
      && InProgress()
      && (current.Some? ==> yielded != [] && current.value == yielded[|yielded|-1])
      && (current.None? ==> seen == nodes.Keys)
    }

    constructor (trie: FileSystemTrie<V>)
      requires trie.Valid()
      ensures Valid() && Unchanged() && nodes == trie.nodes && tree == trie.contents && repr == trie.repr
      ensures yielded == if current.Some? then [current.value] else []
    {
      nodes := trie.nodes;
      repr := trie.repr;
      tree := trie.contents;
      stack := [([], trie.root)];
      current := None;
      seen := {};
      yielded := [];
      new;
      trie.ContentsIsTree();
      forall p | p in nodes ensures NodeSame(p) { assert trie.NodeOk(p); }
      StackStart(nodes, stack);
      Advance();
    }

    method Advance()
      requires InProgress() && Unchanged()
      modifies this
      ensures Valid() && Unchanged()
      ensures yielded == old(yielded) + (if current.Some? then [current.value] else [])
      ensures old(seen) <= seen && (current.Some? ==> old(seen) < seen)
    {
      hide StackOk, Listing, AncestorsFirst, ListsOnly, ListsEvery;
      while stack != []
        invariant InProgress() && Unchanged()
        invariant yielded == old(yielded) && old(seen) <= seen
        decreases nodes.Keys - seen
      {
        ghost var listed := yielded;
        var path, value := Pop();
        if value.Some? {
          current := Some((path, value.value));
          yielded := yielded + [current.value];
          return;
        }
      }
      current := None;
      EmptyStackSeenAll(nodes, seen);
    }

    /** Takes the top subtree off the stack and pushes those of its children. */
    method Pop() returns (path: Path, value: Option<V>)
      requires stack != [] && InProgress() && Unchanged()
      modifies this`stack, this`seen
      ensures Unchanged() && StackOk(nodes, stack, seen)
      ensures path !in old(seen) && seen == old(seen) + {path} && seen <= nodes.Keys
      ensures Listing(tree, seen, if value.Some? then yielded + [(path, value.value)] else yielded)
    {
      hide Incomparable, SeenIsUncovered, Listing, Pushed;
      path := stack[|stack|-1].0;
      var node := stack[|stack|-1].1;
      ghost var before, seen0 := stack, seen;
      assert NodeSame(path);
      var children := node.children;
      value := node.value;
      stack := stack[..|stack|-1];
      PushChildren(path, children);
      PopKeepsStack(tree, nodes, before, seen0, stack);
      ListingStep(tree, seen0, yielded, path);
      seen := seen + {path};
    }

    method PushChildren(path: Path, children: map<string, Node<V>>)
      requires ChildrenOf(nodes, path, children)
      modifies this`stack
      ensures Pushed(nodes, path, old(stack), stack)
    {
      var rest := children.Keys;
      ghost var base := stack;
      while rest != {}
        invariant rest <= children.Keys
        invariant PushedExcept(nodes, path, base, stack, rest)
        invariant forall k :: k in rest ==> !HasEntry(stack, |base|, path + [k])
        decreases rest
      {
        var key :| key in rest;
        ghost var before := stack;
        stack := stack + [(path + [key], children[key])];
        PushedOneMore(nodes, path, base, before, rest, key, stack);
        rest := rest - {key};
      }
    }
  }

  lemma EmptyStackSeenAll<V>(nodes: map<Path, Node<V>>, seen: set<Path>)
    requires StackOk(nodes, [], seen)
    ensures seen == nodes.Keys
  {
    forall p | p in nodes ensures p in seen {
      assert !Covered<V>([], p);
    }
  }

  ghost predicate HasEntry<V>(stack: seq<(Path, Node<V>)>, from: nat, p: Path) {
    exists i :: from <= i < |stack| && stack[i].0 == p
  }

  ghost predicate ChildEntry<V>(nodes: map<Path, Node<V>>, path: Path, e: (Path, Node<V>)) {
    |e.0| == |path| + 1 && path <= e.0 && e.0 in nodes && e.1 == nodes[e.0]
  }

  /** `after` is `base` with an entry for each child of `path` pushed on it, except those
      in `rest`. */
  ghost predicate PushedExcept<V>(nodes: map<Path, Node<V>>, path: Path, base: seq<(Path, Node<V>)>,
                                  after: seq<(Path, Node<V>)>, rest: set<string>) {
    && |base| <= |after| && after[..|base|] == base
    && (forall i :: |base| <= i < |after| ==> ChildEntry(nodes, path, after[i]))
    && (forall i, j :: |base| <= i < j < |after| ==> after[i].0 != after[j].0)
    && (forall k: string :: path + [k] in nodes && k !in rest ==> HasEntry(after, |base|, path + [k]))
  }

  ghost predicate Pushed<V>(nodes: map<Path, Node<V>>, path: Path, base: seq<(Path, Node<V>)>, after: seq<(Path, Node<V>)>) {
    PushedExcept(nodes, path, base, after, {})
  }

  lemma PushedOneMore<V>(nodes: map<Path, Node<V>>, path: Path, base: seq<(Path, Node<V>)>,
                         before: seq<(Path, Node<V>)>, rest: set<string>, key: string, after: seq<(Path, Node<V>)>)
    requires PushedExcept(nodes, path, base, before, rest) && key in rest && path + [key] in nodes
    requires after == before + [(path + [key], nodes[path + [key]])]
    requires forall k :: k in rest ==> !HasEntry(before, |base|, path + [k])
    ensures PushedExcept(nodes, path, base, after, rest - {key})
    ensures forall k :: k in rest - {key} ==> !HasEntry(after, |base|, path + [k])
  {
    assert after[..|base|] == before[..|base|];
    forall k: string | path + [k] in nodes && k !in rest - {key} ensures HasEntry(after, |base|, path + [k]) {
      if k == key {
        assert after[|before|].0 == path + [k];
      } else {
        var i :| |base| <= i < |before| && before[i].0 == path + [k];
        assert after[i].0 == path + [k];
      }
    }
    forall k | k in rest - {key} ensures !HasEntry(after, |base|, path + [k]) {
      assert (path + [k])[|path|] == k && (path + [key])[|path|] == key;
      forall i | |base| <= i < |after| ensures after[i].0 != path + [k] {
        if i < |before| { assert before[i].0 != path + [k]; }
      }
    }
    forall i | |base| <= i < |before| ensures before[i].0 != path + [key] {
      assert !HasEntry(before, |base|, path + [key]);
    }
  }

  /** Replacing the top entry by its children keeps the stack right, with the entry seen;
      nothing seen earlier lies below it. */
  lemma PopKeepsStack<V>(t: Tree<V>, nodes: map<Path, Node<V>>, before: seq<(Path, Node<V>)>, seen: set<Path>,
                         after: seq<(Path, Node<V>)>)
    requires IsTree(t) && t.Keys == nodes.Keys
    requires before != [] && StackOk(nodes, before, seen)
    requires Pushed(nodes, before[|before|-1].0, before[..|before|-1], after)
    ensures before[|before|-1].0 !in seen
    ensures forall q :: q in seen ==> !(before[|before|-1].0 <= q)
    ensures StackOk(nodes, after, seen + {before[|before|-1].0})
  {
    var n := |before| - 1;
    var path := before[n].0;
    forall q | q in seen ensures !(path <= q) {
      assert !Covered(before, q);
    }
    forall i | 0 <= i < |after| ensures after[i].0 in nodes && after[i].1 == nodes[after[i].0] {
      if i < n { assert after[i] == after[..n][i] == before[i]; }
    }
    forall i, j | 0 <= i < |after| && 0 <= j < |after| && after[i].0 <= after[j].0 ensures i == j {
      AfterAntichain(nodes, before, seen, after, i, j);
    }
    forall p | p in nodes ensures p in seen + {path} <==> !Covered(after, p) {
      CoveredAfterPop(t, nodes, before, seen, after, p);
    }
  }

  lemma AfterAntichain<V>(nodes: map<Path, Node<V>>, before: seq<(Path, Node<V>)>, seen: set<Path>,
                          after: seq<(Path, Node<V>)>, i: nat, j: nat)
    requires before != [] && StackOk(nodes, before, seen)
    requires Pushed(nodes, before[|before|-1].0, before[..|before|-1], after)
    requires i < |after| && j < |after| && after[i].0 <= after[j].0
    ensures i == j
  {
    var n := |before| - 1;
    var path := before[n].0;
    var a, b := after[i].0, after[j].0;
    if i < n { assert after[..n][i] == before[i]; }
    if j < n { assert after[..n][j] == before[j]; }
    if i >= n && j >= n { assert a == b; }
  }

  lemma CoveredAfterPop<V>(t: Tree<V>, nodes: map<Path, Node<V>>, before: seq<(Path, Node<V>)>, seen: set<Path>,
                           after: seq<(Path, Node<V>)>, p: Path)
    requires IsTree(t) && t.Keys == nodes.Keys && p in nodes
    requires before != [] && StackOk(nodes, before, seen)
    requires Pushed(nodes, before[|before|-1].0, before[..|before|-1], after)
    ensures p in seen + {before[|before|-1].0} <==> !Covered(after, p)
  {
    if Covered(after, p) { CoveredNotSeen(nodes, before, seen, after, p); }
    if Covered(before, p) && p != before[|before|-1].0 { SeenNotCovered(t, nodes, before, after, p); }
  }

  lemma CoveredNotSeen<V>(nodes: map<Path, Node<V>>, before: seq<(Path, Node<V>)>, seen: set<Path>,
                          after: seq<(Path, Node<V>)>, p: Path)
    requires before != [] && StackOk(nodes, before, seen) && p in nodes
    requires Pushed(nodes, before[|before|-1].0, before[..|before|-1], after)
    requires Covered(after, p)
    ensures Covered(before, p) && p != before[|before|-1].0
  {
    var n := |before| - 1;
    var i :| 0 <= i < |after| && after[i].0 <= p;
    if i < n {
      assert after[..n][i] == before[i];
      StillBelow(before, i, p);
    } else {
      assert before[n].0 <= p;
      StillBelow(before, n, p);
    }
  }

  lemma SeenNotCovered<V>(t: Tree<V>, nodes: map<Path, Node<V>>, before: seq<(Path, Node<V>)>,
                          after: seq<(Path, Node<V>)>, p: Path)
    requires IsTree(t) && t.Keys == nodes.Keys && p in nodes && before != []
    requires Pushed(nodes, before[|before|-1].0, before[..|before|-1], after)
    requires Covered(before, p) && p != before[|before|-1].0
    ensures Covered(after, p)
  {
    var n := |before| - 1;
    var path := before[n].0;
    var i :| 0 <= i < |before| && before[i].0 <= p;
    if i < n {
      assert after[..n][i] == before[i];
      StillBelow(after, i, p);
    } else {
      ProperPrefix(path, p);
      var child := path + [p[|path|]];
      assert child == p[..|path|+1];
      PrefixExists(t, p, child);
      var j :| n <= j < |after| && after[j].0 == child;
      StillBelow(after, j, p);
    }
  }

  lemma StackStart<V>(nodes: map<Path, Node<V>>, stack: seq<(Path, Node<V>)>)
    requires [] in nodes && stack == [([], nodes[[]])]
    ensures StackOk(nodes, stack, {})
  {
    forall p | p in nodes ensures Covered(stack, p) { StillBelow(stack, 0, p); }
  }

  lemma StillBelow<V>(stack: seq<(Path, Node<V>)>, i: nat, p: Path)
    requires i < |stack| && stack[i].0 <= p
    ensures Covered(stack, p)
  {
  }

  /** The copy constructor: inserts into a new tree every entry the iterator yields. The
      copy answers every lookup as the original does, and its size is the number of valued
      nodes, whatever the size of the original. */
  method CopyTrie<V>(other: FileSystemTrie<V>) returns (copy: FileSystemTrie<V>)
    requires other.Valid()
    ensures copy.Valid() && fresh(copy) && fresh(copy.repr)
    ensures forall p :: TrieModel.Find(copy.contents, p) == TrieModel.Find(other.contents, p)
    ensures copy.size == |Valued(other.contents)|
  {
    hide StackOk, Listing, AncestorsFirst, ListsOnly, ListsEvery, Shape, ChildrenOf, Build, BuildSize, Extend, Prefixes,
         TrieModel.Insert;
    assert Build<V>([]) == Empty() && BuildSize<V>([]) == 0 by { NothingBuilt<V>(); }
    copy := new FileSystemTrie();
    var it := new ConstIterator(other);
    ghost var done: seq<(Path, V)> := [];
    while it.current.Some?
      invariant fresh(it) && it.Valid() && it.Unchanged()
      invariant it.nodes == other.nodes && it.tree == other.contents && it.repr == other.repr
      invariant copy.Valid() && fresh(copy) && fresh(copy.repr)
      invariant it.yielded == if it.current.Some? then done + [it.current.value] else done
      invariant copy.contents == Build(done) && copy.size == BuildSize(done)
      decreases it.nodes.Keys - it.seen, it.current.Some?
    {
      var entry := it.current.value;
      ListedIsNormal(other.root, it.nodes, it.tree, it.seen, it.yielded);
      ghost var owned := copy.repr;
      copy.Insert(entry.0, entry.1);
      assert copy.repr == owned + (copy.repr - owned);
      BuildOneMore(done, entry);
      done := done + [entry];
      it.Advance();
    }
    CopyIsFaithful(other.contents, done);
  }

  lemma ListedIsNormal<V>(root: Node<V>, nodes: map<Path, Node<V>>, t: Tree<V>, seen: set<Path>, ins: seq<(Path, V)>)
    requires Shape(root, nodes) && t.Keys == nodes.Keys && Listing(t, seen, ins) && ins != []
    ensures Normal(ins[|ins|-1].0) == ins[|ins|-1].0
  {
  }

  lemma CopyIsFaithful<V>(t: Tree<V>, ins: seq<(Path, V)>)
    requires Listing(t, t.Keys, ins)
    ensures forall p :: TrieModel.Find(Build(ins), p) == TrieModel.Find(t, p)
    ensures BuildSize(ins) == |Valued(t)|
  {
    ListingSize(t, ins);
    forall p ensures TrieModel.Find(Build(ins), p) == TrieModel.Find(t, p) { ListingFind(t, ins, p); }
  }
}
