/** The heap trie FileSystemTrie, its explicit-stack iterator and its copy constructor
    (src/filesystem_trie.h). A ghost map names every node by its path. */
module FilesystemTrie {
  import opened Options
  import opened Paths
  import opened TrieModel

  class Node<V> {
    ghost const path: Path
    var children: map<string, Node<V>>
    var value: Option<V>

    constructor (ghost path: Path)
      ensures this.path == path && children == map[] && value == None
    {
      this.path := path;
      children, value := map[], None;
    }
  }

  /** The child table of the node at `path`: a child for each longer name, and no others. */
  ghost predicate ChildrenOf<V>(nodes: map<Path, Node<V>>, path: Path, children: map<string, Node<V>>) {
    forall k: string {:trigger k in children} {:trigger path + [k]} ::
      (k in children <==> path + [k] in nodes) && (k in children ==> children[k] == nodes[path + [k]])
  }

  /** Every node is named by its own path, so no node has two names. */
  ghost predicate Named<V>(nodes: map<Path, Node<V>>) {
    forall p {:trigger nodes[p]} :: p in nodes ==> nodes[p].path == p
  }

  ghost predicate PrefixClosed<V>(nodes: map<Path, Node<V>>) {
    forall p: Path, k: string :: p + [k] in nodes ==> p in nodes
  }

  /** The names of the nodes form a tree. */
  ghost predicate Shape<V>(root: Node<V>, nodes: map<Path, Node<V>>) {
    && [] in nodes && nodes[[]] == root
    && Named(nodes) && PrefixClosed(nodes)
    && (forall p :: p in nodes ==> "" !in p)
  }

  class FileSystemTrie<V> {
    const root: Node<V>
    var size: nat
    ghost var nodes: map<Path, Node<V>>
    ghost var repr: set<Node<V>>
    /** The abstract value: which nodes exist, and what they hold. */
    ghost var contents: Tree<V>

    /** The node named `p` belongs to this tree, has the children its name says, and holds
        what the abstract value says. */
    ghost predicate NodeOk(p: Path)
      reads this, repr
    {
      && p in nodes && p in contents && nodes[p] in repr
      && ChildrenOf(nodes, p, nodes[p].children) && nodes[p].value == contents[p]
    }

    ghost predicate Agrees()
      reads this, repr
    {
      nodes.Keys == contents.Keys && forall p {:trigger NodeOk(p)} :: p in nodes ==> NodeOk(p)
    }

    ghost predicate Valid()
      reads this, repr
    {
      Shape(root, nodes) && Agrees()
    }

    constructor ()
      ensures Valid() && fresh(repr)
      ensures contents == Empty() && size == 0
    {
      root := new Node([]);
      size := 0;
      new;
      nodes := map[[] := root];
      repr := {root};
      contents := map[[] := None];
      assert NodeOk([]);
    }

    lemma ContentsIsTree()
      requires Valid()
      ensures IsTree(contents)
    {
      forall p: Path, k: string | p + [k] in contents ensures p in contents {
        assert p + [k] in nodes;
      }
    }

    method AddChild(node: Node<V>, ghost here: Path, part: string)
      requires Valid() && here in nodes && nodes[here] == node && part !in node.children && part != ""
      modifies this`nodes, this`repr, this`contents, node`children
      ensures Valid() && fresh(repr - old(repr)) && old(repr) <= repr
      ensures here + [part] in nodes && here in nodes && nodes[here] == node
      ensures contents == old(contents)[here + [part] := None]
    {
      var child := new Node<V>(here + [part]);
      ghost var before := nodes;
      assert NodeOk(here);
      ShapeAfterAdd(root, before, here, part, child);
      node.children := node.children[part := child];
      nodes := nodes[here + [part] := child];
      repr := repr + {child};
      contents := contents[here + [part] := None];
      forall p | p in nodes ensures NodeOk(p) {
        if p in before {
          assert old(NodeOk(p));
          assert before[p].path == p;
          ChildrenAfterAdd(before, here, part, child, p, old(before[p].children));
        } else {
          NoChildrenYet(before, here, part, child);
        }
      }
    }

    /** try_emplace on the child table: the child called `part`, and whether it is new.
        `t` is the tree before the walk that this step belongs to. */
    method EnsureChild(node: Node<V>, ghost here: Path, part: string, ghost t: Tree<V>)
      returns (child: Node<V>, isNew: bool)
      requires Valid() && here in nodes && nodes[here] == node && part != ""
      requires IsTree(t) && contents == Extend(t, here)
      modifies this`nodes, this`repr, this`contents, node`children
      ensures Valid() && fresh(repr - old(repr)) && old(repr) <= repr
      ensures here + [part] in nodes && child == nodes[here + [part]]
      ensures contents == Extend(t, here + [part])
      ensures here !in t || isNew <==> here + [part] !in t
    {
      assert NodeOk(here);
      ExtendStep(t, here, part);
      NewBelowNew(t, here, part);
      isNew := part !in node.children;
      if isNew { AddChild(node, here, part); }
      assert NodeOk(here);
      child := node.children[part];
    }

    /** Walks down from the root, creating missing nodes; reports whether it created any. */
    method Walk(path: Path) returns (node: Node<V>, inserted: bool)
      requires Valid()
      modifies this`nodes, this`repr, this`contents, repr`children
      ensures Valid() && fresh(repr - old(repr)) && old(repr) <= repr
      ensures Normal(path) in nodes && node == nodes[Normal(path)]
      ensures inserted <==> Normal(path) !in old(contents)
      ensures contents == Extend(old(contents), Normal(path))
    {
      hide Extend, ChildrenOf, Prefixes;
      node := root;
      inserted := false;
      ghost var here: Path := [];
      ghost var t := contents;
      ContentsIsTree();
      ExtendNothing(t);
      for i := 0 to |path|
        invariant Valid() && contents == Extend(t, here)
        invariant fresh(repr - old(repr)) && old(repr) <= repr
        invariant here == Normal(path[..i]) && here in nodes && nodes[here] == node
        invariant inserted <==> here !in t
      {
        NormalStep(path, i);
        var part := path[i];
        if part != "" {
          assert NodeOk(here);
          var child, isNew := EnsureChild(node, here, part, t);
          node := child;
          inserted := inserted || isNew;
          here := here + [part];
        }
      }
      assert path[..|path|] == path;
    }

    method SetValue(node: Node<V>, ghost here: Path, value: V)
      requires Valid() && here in nodes && nodes[here] == node
      modifies this`contents, node`value
      ensures Valid() && contents == old(contents)[here := Some(value)]
    {
      node.value := Some(value);
      contents := contents[here := Some(value)];
      forall p | p in nodes ensures NodeOk(p) {
        assert old(NodeOk(p));
        assert nodes[p].path == p;
      }
    }

    /** Sets the value of the last node of the path, creating nodes where needed; an
        insertion that created nothing is not counted. */
    method Insert(path: Path, value: V)
      requires Valid()
      modifies this, repr
      ensures Valid() && fresh(repr - old(repr)) && old(repr) <= repr
      ensures contents == TrieModel.Insert(old(contents), Normal(path), value)
      ensures size == old(size) + (if Normal(path) in old(contents) then 0 else 1)
    {
      var node, inserted := Walk(path);
      assert NodeOk(Normal(path));
      SetValue(node, Normal(path), value);
      if inserted {
        label Counted:
        size := size + 1;
        forall p | p in nodes ensures NodeOk(p) { assert old@Counted(NodeOk(p)); }
      }
    }

    /** The value at exactly this path. */
    method Find(path: Path) returns (r: Option<V>)
      requires Valid()
      ensures r == TrieModel.Find(contents, Normal(path))
    {
      var node := root;
      ghost var here: Path := [];
      ContentsIsTree();
      for i := 0 to |path|
        invariant here == Normal(path[..i]) && here in nodes && nodes[here] == node
      {
        NormalStep(path, i);
        var part := path[i];
        if part != "" {
          assert NodeOk(here);
          if part !in node.children {
            NormalPrefix(path, i + 1);
            if Normal(path) in contents { PrefixExists(contents, Normal(path), here + [part]); }
            return None;
          }
          node := node.children[part];
          here := here + [part];
        }
      }
      assert path[..|path|] == path;
      assert NodeOk(here);
      return node.value;
    }

    /** The value at the deepest existing node on the way to this path. */
    method FindLastMatching(path: Path) returns (r: Option<V>)
      requires Valid()
      ensures r == TrieModel.Find(contents, DeepestPrefix(contents, Normal(path)))
    {
      var node := root;
      ghost var here: Path := [];
      ContentsIsTree();
      for i := 0 to |path|
        invariant here == Normal(path[..i]) && here in nodes && nodes[here] == node
      {
        NormalStep(path, i);
        var part := path[i];
        if part != "" {
          assert NodeOk(here);
          if part !in node.children {
            NormalPrefix(path, i + 1);
            StopsHere(contents, Normal(path), here, part);
            return node.value;
          }
          node := node.children[part];
          here := here + [part];
        }
      }
      assert path[..|path|] == path;
      assert NodeOk(here);
      return node.value;
    }
  }

  lemma NormalPrefix(path: Path, i: nat)
    requires i <= |path|
    ensures Normal(path[..i]) <= Normal(path)
  {
    assert path == path[..i] + path[i..];
    NormalConcat(path[..i], path[i..]);
  }

  /** When the next part of the path has no node, the current node is the deepest. */
  lemma StopsHere<V>(t: Tree<V>, p: Path, here: Path, part: string)
    requires IsTree(t) && here in t && here + [part] !in t && here + [part] <= p
    ensures DeepestPrefix(t, p) == here
  {
    assert here == p[..|here|] by { assert p[..|here|] == (here + [part])[..|here|]; }
    forall r | r <= p && r in t ensures |r| <= |here| {
      if |r| > |here| {
        assert here + [part] == p[..|here|+1] == r[..|here|+1];
        PrefixExists(t, r, here + [part]);
      }
    }
    DeepestUnique(t, p, DeepestPrefix(t, p), here);
  }

  /** Extending towards `here` adds nothing beyond it. */
  lemma NewBelowNew<V>(t: Tree<V>, here: Path, part: string)
    requires IsTree(t)
    ensures here + [part] in t ==> here in t
    ensures here + [part] in Extend(t, here) <==> here + [part] in t
  {
    PrefixesAre(here, here + [part]);
  }

  lemma ShapeAfterAdd<V>(root: Node<V>, nodes: map<Path, Node<V>>, here: Path, part: string, child: Node<V>)
    requires Shape(root, nodes) && here in nodes && here + [part] !in nodes && part != ""
    requires child.path == here + [part]
    ensures Shape(root, nodes[here + [part] := child])
  {
    var after := nodes[here + [part] := child];
    forall p: Path, k: string | p + [k] in after ensures p in after {
      SplitLast(p, k, here, part);
      if p + [k] != here + [part] { assert p + [k] in nodes; }
    }
  }

  lemma SplitLast(p: Path, k: string, q: Path, l: string)
    ensures p + [k] == q + [l] <==> p == q && k == l
  {
    if p + [k] == q + [l] {
      assert p == (p + [k])[..|p|] == (q + [l])[..|q|] == q;
      assert k == (p + [k])[|p|] == (q + [l])[|q|] == l;
    }
  }

  lemma ChildrenAfterAdd<V>(nodes: map<Path, Node<V>>, here: Path, part: string, child: Node<V>, p: Path,
                            children: map<string, Node<V>>)
    requires ChildrenOf(nodes, p, children) && here + [part] !in nodes
    ensures ChildrenOf(nodes[here + [part] := child], p, if p == here then children[part := child] else children)
  {
    forall k: string ensures p + [k] == here + [part] <==> p == here && k == part {
      SplitLast(p, k, here, part);
    }
  }

  lemma NoChildrenYet<V>(nodes: map<Path, Node<V>>, here: Path, part: string, child: Node<V>)
    requires PrefixClosed(nodes) && here + [part] !in nodes
    ensures ChildrenOf(nodes[here + [part] := child], here + [part], map[])
  {
    forall k: string ensures here + [part] + [k] !in nodes {
      assert here + [part] + [k] in nodes ==> here + [part] in nodes;
    }
  }
}
