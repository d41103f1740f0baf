/** Cutting a line at a delimiter (src/util.h:211-240, src/default_image_files.h:132-144). */
module Splitting {
  import opened Options

  /** The UTF-8 bytes of the no-break space (src/common.h:34-35). */
  const NBSP: string := "\U{c2}\U{a0}"

  /** std::string::find: the first position where `d` occurs, or -1. */
  function FindDelim(s: string, d: string): (i: int)
    ensures -1 <= i <= |s| - |d| || (i == -1 && |s| < |d|)
  {
    if |s| < |d| then -1
    else if d <= s then 0
    else if s == "" then -1
    else var i := FindDelim(s[1..], d); if i < 0 then -1 else i + 1
  }

  /** The pieces between successive occurrences of `d`. */
  function Split(s: string, d: string): (r: seq<string>)
    requires d != ""
    ensures r != []
    decreases |s|
  {
    var i := FindDelim(s, d);
    if i < 0 then [s] else [s[..i]] + Split(s[i + |d|..], d)
  }

  function JoinWith(d: string, fields: seq<string>): (r: string) {
    if fields == [] then ""
    else if |fields| == 1 then fields[0]
    else fields[0] + d + JoinWith(d, fields[1..])
  }

  /** Exactly `n` pieces; an empty piece after the `n`-th is let pass. */
  function SplitN(s: string, d: string, n: nat): (r: Option<seq<string>>)
    requires d != ""
    ensures r.Some? ==> |r.value| == n
  {
    var fields := Split(s, d);
    if |fields| == n then Some(fields)
    else if |fields| == n + 1 && fields[n] == "" then Some(fields[..n])
    else None
  }

  ghost predicate Free(s: string, d: string) { FindDelim(s, d) < 0 }

  ghost predicate AllFree(fields: seq<string>, d: string) {
    forall i :: 0 <= i < |fields| ==> Free(fields[i], d)
  }

  lemma {:induction false} FindMeaning(s: string, d: string)
    ensures FindDelim(s, d) >= 0 ==> d <= s[FindDelim(s, d)..]
    ensures forall j :: 0 <= j <= |s| && (FindDelim(s, d) < 0 || j < FindDelim(s, d)) ==> !(d <= s[j..])
  {
    if |s| >= |d| && !(d <= s) && s != "" {
      FindMeaning(s[1..], d);
      var i := FindDelim(s, d);
      forall j | 0 <= j <= |s| && (i < 0 || j < i) ensures !(d <= s[j..]) {
        if j == 0 { assert s[0..] == s; } else { assert s[j..] == s[1..][j-1..]; }
      }
      if i >= 0 { assert s[i..] == s[1..][i-1..]; }
    } else if |s| >= |d| && d <= s {
      assert s[0..] == s;
    }
  }

  /** A delimiter that does not overlap itself is found right after a field without one. */
  lemma {:induction false} FindAfter(s: string, d: string, rest: string)
    requires Free(s, d) && d != "" && d[0] !in d[1..]
    ensures FindDelim(s + d + rest, d) == |s|
  {
    var all := s + d + rest;
    if s == "" {
      assert d <= all by { assert all[..|d|] == d; }
    } else {
      NotAcross(s, d, rest);
      assert all[1..] == s[1..] + d + rest;
      FreeTail(s, d);
      FindAfter(s[1..], d, rest);
    }
  }

  lemma NotAcross(s: string, d: string, rest: string)
    requires Free(s, d) && s != "" && d != "" && d[0] !in d[1..]
    ensures !(d <= s + d + rest)
  {
    var all := s + d + rest;
    if |d| <= |s| {
      assert all[..|d|] == s[..|d|];
      assert !(d <= s);
    } else {
      assert d[1..][|s|-1] == d[|s|];
      assert all[|s|] == d[0];
    }
  }

  lemma FreeTail(s: string, d: string)
    requires Free(s, d) && s != "" && d != ""
    ensures Free(s[1..], d)
  {
  }

  lemma {:induction false} SplitHead(s: string, d: string, rest: string)
    requires Free(s, d) && d != "" && d[0] !in d[1..]
    ensures Split(s + d + rest, d) == [s] + Split(rest, d)
  {
    FindAfter(s, d, rest);
    var all := s + d + rest;
    assert all[..|s|] == s && all[|s| + |d|..] == rest;
  }

  /** Splitting undoes joining. */
  lemma {:induction false} SplitOfJoin(fields: seq<string>, d: string)
    requires fields != [] && AllFree(fields, d) && d != "" && d[0] !in d[1..]
    ensures Split(JoinWith(d, fields), d) == fields
  {
    hide FindDelim;
    if |fields| > 1 {
      SplitHead(fields[0], d, JoinWith(d, fields[1..]));
      SplitOfJoin(fields[1..], d);
      assert fields == [fields[0]] + fields[1..];
    } else {
      assert Free(fields[0], d) && fields == [fields[0]];
    }
  }

  lemma {:induction false} FoundEarly(s: string, d: string, rest: string)
    requires !Free(s, d) && d != ""
    ensures 0 <= FindDelim(s + rest, d) < |s|
  {
    if !(d <= s) {
      assert (s + rest)[1..] == s[1..] + rest;
      FoundEarly(s[1..], d, rest);
    } else {
      assert d <= s + rest by { assert (s + rest)[..|d|] == s[..|d|]; }
    }
  }

  lemma {:induction false} UnfreeHeadIsCut(s: string, d: string, rest: string)
    requires !Free(s, d) && d != ""
    ensures |Split(s + rest, d)[0]| < |s|
  {
    FoundEarly(s, d, rest);
  }

  /** A field that holds the delimiter is cut short. */
  lemma {:induction false} FirstUnfreeIsCut(fields: seq<string>, d: string, k: nat)
    requires k < |fields| && !Free(fields[k], d) && forall i :: 0 <= i < k ==> Free(fields[i], d)
    requires d != "" && d[0] !in d[1..]
    ensures k < |Split(JoinWith(d, fields), d)| && |Split(JoinWith(d, fields), d)[k]| < |fields[k]|
    decreases k
  {
    hide FindDelim, Split, Free;
    if k == 0 {
      var rest := if |fields| == 1 then "" else d + JoinWith(d, fields[1..]);
      assert JoinWith(d, fields) == fields[0] + rest;
      UnfreeHeadIsCut(fields[0], d, rest);
    } else {
      SplitHead(fields[0], d, JoinWith(d, fields[1..]));
      FirstUnfreeIsCut(fields[1..], d, k - 1);
    }
  }

  /** Joining undoes splitting, and no piece holds the delimiter. */
  lemma {:induction false} JoinOfSplit(s: string, d: string)
    requires d != ""
    ensures JoinWith(d, Split(s, d)) == s && AllFree(Split(s, d), d)
    decreases |s|
  {
    var i := FindDelim(s, d);
    if i >= 0 {
      FindMeaning(s, d);
      var rest := Split(s[i + |d|..], d);
      JoinOfSplit(s[i + |d|..], d);
      PieceIsFree(s, d);
      assert ([s[..i]] + rest)[1..] == rest;
      assert s == s[..i] + d + s[i + |d|..] by { assert s[i..][..|d|] == d; }
    }
  }

  lemma PieceIsFree(s: string, d: string)
    requires d != "" && FindDelim(s, d) >= 0
    ensures Free(s[..FindDelim(s, d)], d)
  {
    var i := FindDelim(s, d);
    FindMeaning(s, d);
    FindMeaning(s[..i], d);
    OccursStill(s, d, i, FindDelim(s[..i], d));
  }

  lemma OccursStill(s: string, d: string, i: nat, j: int)
    requires j <= i <= |s|
    ensures 0 <= j && d <= s[..i][j..] ==> d <= s[j..]
  {
    if 0 <= j { assert s[j..] == s[..i][j..] + s[i..]; }
  }

  /** string_split_n accepts exactly `n` fields, or `n` fields and a final delimiter. */
  lemma SplitNExactly(fields: seq<string>, d: string, n: nat)
    requires fields != [] && AllFree(fields, d) && d != "" && d[0] !in d[1..]
    ensures SplitN(JoinWith(d, fields), d, n) ==
      if |fields| == n || (|fields| == n + 1 && fields[n] == "") then Some(fields[..n]) else None
  {
    SplitOfJoin(fields, d);
    if |fields| == n { assert fields[..n] == fields; }
  }

  lemma {:induction false} SplitUnfolds(s: string, d: string)
    requires d != ""
    ensures var i := FindDelim(s, d); Split(s, d) == if i < 0 then [s] else [s[..i]] + Split(s[i + |d|..], d)
  {
  }

  lemma {:induction false} SplitStep(s: string, d: string, start: nat, i: int)
    requires d != "" && start <= |s| && i == FindDelim(s[start..], d)
    ensures i < 0 ==> Split(s[start..], d) == [s[start..]]
    ensures i >= 0 ==> Split(s[start..], d) == [s[start..start + i]] + Split(s[start + i + |d|..], d)
  {
    SplitUnfolds(s[start..], d);
    hide *;
    if i >= 0 { SlicesOfDrop(s, start, i, i + |d|); }
  }

  lemma SlicesOfDrop<T>(s: seq<T>, start: nat, i: nat, j: nat)
    requires start <= |s| && i <= j <= |s| - start
    ensures s[start..][..i] == s[start..start + i] && s[start..][j..] == s[start + j..]
  {
  }

  /** string_split_n, over a fixed array. */
  method StringSplitN(s: string, d: string, n: nat) returns (r: Option<seq<string>>)
    requires d != ""
    ensures r == SplitN(s, d, n)
  {
    hide Split;
    var result := new string[n](_ => "");
    var start, i := 0, 0;
    assert s[0..] == s;
    var end := FindDelim(s[start..], d);
    while end >= 0
      invariant start <= |s| && i <= n && end == FindDelim(s[start..], d)
      invariant Split(s, d) == result[..i] + Split(s[start..], d)
      invariant |Split(s[start..], d)| >= 1
      decreases |s| - start
    {
      SplitStep(s, d, start, end);
      if i < n {
        result[i] := s[start..start + end];
        i := i + 1;
        start := start + end + |d|;
      } else {
        ghost var rest := Split(s[start + end + |d|..], d);
        assert |Split(s, d)| == n + 1 + |rest|;
        return None;
      }
      end := FindDelim(s[start..], d);
    }
    SplitStep(s, d, start, end);
    assert Split(s, d) == result[..i] + [s[start..]];
    if i < n {
      result[i] := s[start..];
      i := i + 1;
      start := |s|;
      assert Split(s, d) == result[..i];
    } else {
      assert Split(s, d)[..n] == result[..n];
    }
    assert result[..n] == result[..];
    if i != n || start != |s| { return None; }
    return Some(result[..]);
  }

  /** The unbounded form of the same loop. */
  method Tokens(line: string, d: string) returns (tokens: seq<string>)
    requires d != ""
    ensures tokens == Split(line, d)
  {
    hide Split;
    tokens := [];
    var start := 0;
    assert line[0..] == line;
    while true
      invariant start <= |line| && Split(line, d) == tokens + Split(line[start..], d)
      decreases |line| - start
    {
      var pos := FindDelim(line[start..], d);
      SplitStep(line, d, start, pos);
      if pos < 0 {
        tokens := tokens + [line[start..]];
        break;
      }
      tokens := tokens + [line[start..start + pos]];
      start := start + pos + |d|;
    }
  }
}
