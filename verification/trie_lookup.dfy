/** When find_last_matching is longest-prefix match, exactly
    (src/filesystem_trie.h:194-221). */
module TrieLookup {
  import opened Options
  import opened Paths
  import opened TrieModel

  /** `r` is the last value inserted at the longest inserted prefix of `p`, none if no
      inserted path is a prefix of it. */
  ghost predicate LongestMatch<V(!new)>(ins: seq<(Path, V)>, p: Path, r: Option<V>) {
    match r
    case None => forall i :: 0 <= i < |ins| ==> !(ins[i].0 <= p)
    case Some(_) => exists k :: 0 <= k < |ins| && LongestAt(ins, p, k) && r == LastInserted(ins, ins[k].0)
  }

  ghost predicate LongestAt<V>(ins: seq<(Path, V)>, p: Path, k: nat)
    requires k < |ins|
  {
    ins[k].0 <= p && forall j :: 0 <= j < |ins| && ins[j].0 <= p ==> |ins[j].0| <= |ins[k].0|
  }

  /** Some inserted path is a prefix of `p`, and `p` follows another one further than that. */
  ghost predicate Shadowed<V>(ins: seq<(Path, V)>, p: Path) {
    exists k, r :: 0 <= k < |ins| && LongestAt(ins, p, k) && r <= p && InsertedBelow(ins, r) && |ins[k].0| < |r|
  }

  lemma {:induction false} LongestInserted<V>(ins: seq<(Path, V)>, p: Path, i: nat) returns (k: nat)
    requires i < |ins| && ins[i].0 <= p
    ensures k < |ins| && LongestAt(ins, p, k)
    decreases |p| - |ins[i].0|
  {
    if j :| 0 <= j < |ins| && ins[j].0 <= p && |ins[j].0| > |ins[i].0| {
      k := LongestInserted(ins, p, j);
    } else {
      k := i;
    }
  }

  /** The lookup is longest-prefix match exactly when no other inserted path shadows the
      longest one. */
  lemma LongestUnlessShadowed<V(!new)>(ins: seq<(Path, V)>, p: Path, q: Path)
    requires Deepest(Build(ins), p, q)
    ensures LongestMatch(ins, p, Find(Build(ins), q)) <==> !Shadowed(ins, p)
  {
    LastMatchingMeaning(ins, p, q);
    LastInsertedWitness(ins, q);
    if i :| 0 <= i < |ins| && ins[i].0 <= p {
      var k := LongestInserted(ins, p, i);
      var key := ins[k].0;
      LastInsertedWitness(ins, key);
      assert InsertedBelow(ins, key);
      assert key == p[..|key|] && q == p[..|q|];
      if |key| < |q| {
        assert Shadowed(ins, p);
        assert Find(Build(ins), q) == None;
      } else {
        NotShadowed(ins, p, q, k);
      }
    }
  }

  /** What is found is always the longest match; a shadowed path finds nothing. */
  lemma {:induction false} FoundIsLongest<V(!new)>(ins: seq<(Path, V)>, p: Path, q: Path)
    requires Deepest(Build(ins), p, q)
    ensures Find(Build(ins), q).Some? ==> LongestMatch(ins, p, Find(Build(ins), q))
    ensures Shadowed(ins, p) ==> Find(Build(ins), q).None?
  {
    LastMatchingMeaning(ins, p, q);
    LastInsertedWitness(ins, q);
    if Find(Build(ins), q).Some? {
      var k :| 0 <= k < |ins| && ins[k] == (q, Find(Build(ins), q).value);
      forall j | 0 <= j < |ins| && ins[j].0 <= p ensures |ins[j].0| <= |q| {
        assert InsertedBelow(ins, ins[j].0);
      }
      assert LongestAt(ins, p, k);
      NotShadowed(ins, p, q, k);
    }
  }

  lemma NotShadowed<V>(ins: seq<(Path, V)>, p: Path, q: Path, k: nat)
    requires k < |ins| && LongestAt(ins, p, k) && ins[k].0 == q
    requires forall r :: r <= p && InsertedBelow(ins, r) ==> |r| <= |q|
    ensures !Shadowed(ins, p)
  {
    forall k' | 0 <= k' < |ins| && LongestAt(ins, p, k') ensures |ins[k'].0| == |q| {
      assert ins[k].0 <= p && ins[k'].0 <= p;
    }
  }

  /** A sibling directory that only leads to another inserted path hides the owner. */
  lemma SiblingHidesOwner<V(!new)>(v: V, w: V, q: Path)
    requires Deepest(Build([(["lib"], v), (["lib", "x", "y"], w)]), ["lib", "x", "z"], q)
    ensures !LongestMatch([(["lib"], v), (["lib", "x", "y"], w)], ["lib", "x", "z"],
                          Find(Build([(["lib"], v), (["lib", "x", "y"], w)]), q))
  {
    var ins := [(["lib"], v), (["lib", "x", "y"], w)];
    var p: Path, r: Path := ["lib", "x", "z"], ["lib", "x"];
    assert r <= ins[1].0 && InsertedBelow(ins, r);
    assert !(ins[1].0 <= p) by { assert ins[1].0[2] != p[2]; }
    assert LongestAt(ins, p, 0);
    assert r <= p && Shadowed(ins, p);
    LongestUnlessShadowed(ins, p, q);
  }
}
