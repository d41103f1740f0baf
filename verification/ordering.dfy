/** Byte-wise lexicographic order on strings, and what sorting by a string key
    computes. The library sort is modelled by insertion; for distinct keys its
    result is the only sorted arrangement, so the choice of algorithm is immaterial. */
module Ordering {

  predicate Less(a: string, b: string) {
    b != [] && (a == [] || a[0] < b[0] || (a[0] == b[0] && Less(a[1..], b[1..])))
  }

  lemma {:induction false} LessIrreflexive(a: string)
    ensures !Less(a, a)
  {
    if a != [] { LessIrreflexive(a[1..]); }
  }

  lemma {:induction false} LessTransitive(a: string, b: string, c: string)
    requires Less(a, b) && Less(b, c)
    ensures Less(a, c)
  {
    if a != [] && a[0] == b[0] == c[0] { LessTransitive(a[1..], b[1..], c[1..]); }
  }

  lemma {:induction false} LessTotal(a: string, b: string)
    ensures Less(a, b) || a == b || Less(b, a)
  {
    if a != [] && b != [] && a[0] == b[0] {
      LessTotal(a[1..], b[1..]);
      if a[1..] == b[1..] { assert a == [a[0]] + a[1..] == b; }
    }
  }

  ghost predicate SortedBy<T>(key: T -> string, s: seq<T>) {
    forall i, j :: 0 <= i < j < |s| ==> !Less(key(s[j]), key(s[i]))
  }

  ghost predicate StrictlySortedBy<T>(key: T -> string, s: seq<T>) {
    forall i, j :: 0 <= i < j < |s| ==> Less(key(s[i]), key(s[j]))
  }

  ghost predicate StrictlySorted(s: seq<string>) {
    forall i, j :: 0 <= i < j < |s| ==> Less(s[i], s[j])
  }

  /** No two positions carry the same key. */
  ghost predicate DistinctKeys<T>(key: T -> string, s: seq<T>) {
    forall i, j :: 0 <= i < j < |s| ==> key(s[i]) != key(s[j])
  }

  function InsertBy<T>(key: T -> string, x: T, s: seq<T>): (r: seq<T>)
    ensures multiset(r) == multiset{x} + multiset(s)
  {
    if s == [] then [x]
    else if Less(key(x), key(s[0])) then [x] + s
    else
      assert s == [s[0]] + s[1..];
      [s[0]] + InsertBy(key, x, s[1..])
  }

  function SortBy<T>(key: T -> string, s: seq<T>): (r: seq<T>)
    ensures multiset(r) == multiset(s)
    ensures |r| == |s|
  {
    if s == [] then [] else
      assert s == [s[0]] + s[1..];
      var r := InsertBy(key, s[0], SortBy(key, s[1..]));
      assert |multiset(r)| == |multiset(s)|;
      r
  }

  lemma {:induction false} InsertBySorted<T>(key: T -> string, x: T, s: seq<T>)
    requires SortedBy(key, s)
    ensures SortedBy(key, InsertBy(key, x, s))
  {
    if s != [] && !Less(key(x), key(s[0])) {
      InsertBySorted(key, x, s[1..]);
      var t := InsertBy(key, x, s[1..]);
      forall y | y in t ensures !Less(key(y), key(s[0])) {
        assert y in multiset(t);
        assert y == x || y in s[1..];
      }
      assert InsertBy(key, x, s) == [s[0]] + t;
    } else if s != [] {
      forall y | y in s ensures !Less(key(y), key(x)) {
        if Less(key(y), key(x)) {
          LessTransitive(key(y), key(x), key(s[0]));
          var i :| 0 <= i < |s| && s[i] == y;
          if i == 0 { LessIrreflexive(key(s[0])); }
        }
      }
    }
  }

  lemma {:induction false} SortBySorted<T>(key: T -> string, s: seq<T>)
    ensures SortedBy(key, SortBy(key, s))
  {
    if s != [] {
      SortBySorted(key, s[1..]);
      InsertBySorted(key, s[0], SortBy(key, s[1..]));
    }
  }

  /** With distinct keys the sorted arrangement is strict. */
  lemma SortByStrict<T>(key: T -> string, s: seq<T>)
    requires forall x, y :: x in s && y in s && key(x) == key(y) ==> x == y
    requires forall i, j :: 0 <= i < j < |s| ==> s[i] != s[j]
    ensures StrictlySortedBy(key, SortBy(key, s))
  {
    SortBySorted(key, s);
    var r := SortBy(key, s);
    PermutationDistinct(s, r);
    forall i, j | 0 <= i < j < |r| ensures Less(key(r[i]), key(r[j])) {
      LessTotal(key(r[i]), key(r[j]));
      assert r[i] in multiset(r) && r[j] in multiset(r);
      assert r[i] in s && r[j] in s;
    }
  }

  lemma PermutationDistinct<T>(s: seq<T>, r: seq<T>)
    requires multiset(r) == multiset(s)
    requires forall i, j :: 0 <= i < j < |s| ==> s[i] != s[j]
    ensures forall i, j :: 0 <= i < j < |r| ==> r[i] != r[j]
  {
    forall i, j | 0 <= i < j < |r| ensures r[i] != r[j] {
      if r[i] == r[j] {
        RepeatCounts(r, i, j);
        DistinctMultiset(s, r[i]);
      }
    }
  }

  lemma SameElements<T>(s: seq<T>, r: seq<T>)
    requires multiset(r) == multiset(s)
    ensures forall x :: x in r <==> x in s
  {
    forall x ensures x in r <==> x in s {
      assert x in multiset(r) <==> x in multiset(s);
    }
  }

  lemma RepeatCounts<T>(r: seq<T>, i: nat, j: nat)
    requires i < j < |r| && r[i] == r[j]
    ensures multiset(r)[r[i]] >= 2
  {
    assert r == r[..j] + [r[j]] + r[j+1..];
    assert r[i] in r[..j];
    assert r[i] in multiset(r[..j]);
  }

  lemma {:induction false} DistinctMultiset<T>(s: seq<T>, x: T)
    requires forall i, j :: 0 <= i < j < |s| ==> s[i] != s[j]
    ensures multiset(s)[x] <= 1
  {
    if s != [] {
      assert s == [s[0]] + s[1..];
      DistinctMultiset(s[1..], x);
      if s[0] == x { assert x !in s[1..]; }
    }
  }

  lemma HeadMember<T>(s: seq<T>)
    ensures s != [] ==> s[0] in s
  {
  }

  /** Two strictly sorted arrangements of the same elements are equal. */
  lemma {:induction false} StrictlySortedUnique<T>(key: T -> string, s: seq<T>, t: seq<T>)
    requires StrictlySortedBy(key, s) && StrictlySortedBy(key, t)
    requires forall x :: x in s <==> x in t
    ensures s == t
  {
    HeadMember(s);
    HeadMember(t);
    if s == [] {
    } else {
      assert s[0] in t;
      assert t[0] in s;
      var i :| 0 <= i < |t| && t[i] == s[0];
      var j :| 0 <= j < |s| && s[j] == t[0];
      if i != 0 && j != 0 {
        LessTransitive(key(s[0]), key(t[0]), key(s[0]));
        LessIrreflexive(key(s[0]));
      }
      assert s[0] == t[0];
      forall x ensures x in s[1..] <==> x in t[1..] {
        LessIrreflexive(key(s[0]));
        if x in s[1..] {
          var k :| 1 <= k < |s| && s[k] == x;
          assert x != s[0] && x in t;
          var m :| 0 <= m < |t| && t[m] == x;
          assert m != 0;
        }
        if x in t[1..] {
          var k :| 1 <= k < |t| && t[k] == x;
          assert x != t[0] && x in s;
          var m :| 0 <= m < |s| && s[m] == x;
          assert m != 0;
        }
      }
      StrictlySortedUnique(key, s[1..], t[1..]);
      assert s == [s[0]] + s[1..];
      assert t == [t[0]] + t[1..];
    }
  }
}
