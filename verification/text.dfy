/** String helpers shared by the text formats: white space, trimming, lines and delimiters
    (src/util.h:211-266, src/common.h:24-29). Strings are sequences of bytes. */
module Text {

  /** std::isspace in the C locale. */
  predicate IsSpace(c: char) {
    c == ' ' || '\t' <= c <= '\r'
  }

  predicate IsDigit(c: char) { '0' <= c <= '9' }

  predicate IsAlpha(c: char) { 'a' <= c <= 'z' || 'A' <= c <= 'Z' }

  ghost predicate AllSpace(s: string) {
    forall i :: 0 <= i < |s| ==> IsSpace(s[i])
  }

  /** No white space at either end. */
  ghost predicate Trimmed(s: string) {
    s == "" || (!IsSpace(s[0]) && !IsSpace(s[|s|-1]))
  }

  function TrimLeft(s: string): (r: string)
    ensures |r| <= |s|
  {
    if s != "" && IsSpace(s[0]) then TrimLeft(s[1..]) else s
  }

  function TrimRight(s: string): (r: string)
    ensures |r| <= |s|
  {
    if s != "" && IsSpace(s[|s|-1]) then TrimRight(s[..|s|-1]) else s
  }

  function Trim(s: string): (r: string) { TrimRight(TrimLeft(s)) }

  lemma {:induction false} TrimLeftMeaning(s: string)
    ensures s == s[..|s|-|TrimLeft(s)|] + TrimLeft(s)
    ensures AllSpace(s[..|s|-|TrimLeft(s)|])
    ensures TrimLeft(s) != "" ==> !IsSpace(TrimLeft(s)[0])
  {
    if s != "" && IsSpace(s[0]) {
      TrimLeftMeaning(s[1..]);
      var n := |s| - |TrimLeft(s)|;
      assert s[..n] == [s[0]] + s[1..][..n-1];
    }
  }

  lemma {:induction false} TrimRightMeaning(s: string)
    ensures s == TrimRight(s) + s[|TrimRight(s)|..]
    ensures AllSpace(s[|TrimRight(s)|..])
    ensures TrimRight(s) != "" ==> !IsSpace(TrimRight(s)[|TrimRight(s)|-1])
  {
    if s != "" && IsSpace(s[|s|-1]) {
      TrimRightMeaning(s[..|s|-1]);
      var n := |TrimRight(s)|;
      assert s[n..] == s[..|s|-1][n..] + [s[|s|-1]];
    }
  }

  /** Trimming removes outer white space, all of it, and nothing else. */
  lemma TrimMeaning(s: string) returns (before: string, after: string)
    ensures s == before + Trim(s) + after
    ensures AllSpace(before) && AllSpace(after) && Trimmed(Trim(s))
  {
    hide TrimLeft, TrimRight;
    TrimLeftMeaning(s);
    var l := TrimLeft(s);
    TrimRightMeaning(l);
    var t := TrimRight(l);
    before := s[..|s|-|l|];
    after := l[|t|..];
    assert before + (t + after) == before + t + after;
    if t != "" { assert t[0] == l[0]; }
  }

  /** The converse: white space around a trimmed string is what trimming takes off. */
  lemma {:induction false} TrimPadded(before: string, s: string, after: string)
    requires AllSpace(before) && AllSpace(after) && Trimmed(s)
    ensures Trim(before + s + after) == s
    decreases |before|, |after|
  {
    if before != "" {
      assert (before + s + after)[1..] == before[1..] + s + after;
      TrimPadded(before[1..], s, after);
    } else {
      assert before + s + after == s + after;
      if s == "" {
        assert s + after == after;
        TrimSpace(after);
      } else {
        assert TrimLeft(s + after) == s + after;
        TrimRightPadded(s, after);
      }
    }
  }

  lemma {:induction false} TrimSpace(s: string)
    requires AllSpace(s)
    ensures Trim(s) == "" && TrimLeft(s) == ""
  {
    if s != "" { TrimSpace(s[1..]); }
  }

  lemma {:induction false} TrimRightPadded(s: string, after: string)
    requires s != "" && Trimmed(s) && AllSpace(after)
    ensures TrimRight(s + after) == s
    decreases |after|
  {
    if after == "" {
      assert s + after == s;
    } else {
      assert (s + after)[..|s + after|-1] == s + after[..|after|-1];
      TrimRightPadded(s, after[..|after|-1]);
    }
  }

  lemma TrimIdle(s: string)
    requires Trimmed(s)
    ensures Trim(s) == s
  {
    TrimPadded("", s, "");
    assert "" + s + "" == s;
  }

  lemma DropIsSlice(s: string, i: nat)
    requires i <= |s|
    ensures s[i..|s|] == s[i..]
  {
  }

  lemma TrimLeftStep(s: string, start: nat)
    requires start <= |s|
    ensures TrimLeft(s[start..]) ==
      if start < |s| && IsSpace(s[start]) then TrimLeft(s[start+1..]) else s[start..]
  {
    if start < |s| { assert s[start..][1..] == s[start+1..]; }
  }

  lemma TrimRightStep(s: string, start: nat, end: nat)
    requires start <= end <= |s|
    ensures TrimRight(s[start..end]) ==
      if start < end && IsSpace(s[end-1]) then TrimRight(s[start..end-1]) else s[start..end]
  {
    if start < end { assert s[start..end][..end-start-1] == s[start..end-1]; }
  }

  /** string_trim: two cursors move inwards over white space. */
  method StringTrim(s: string) returns (r: string)
    ensures r == Trim(s)
  {
    hide TrimLeft, TrimRight;
    var start, end := 0, |s|;
    assert s[0..] == s;
    TrimLeftStep(s, 0);
    while start != end && IsSpace(s[start])
      invariant 0 <= start <= end == |s|
      invariant TrimLeft(s) == TrimLeft(s[start..])
      decreases end - start
    {
      TrimLeftStep(s, start);
      start := start + 1;
    }
    TrimLeftStep(s, start);
    DropIsSlice(s, start);
    while end > start && IsSpace(s[end-1])
      invariant start <= end <= |s|
      invariant Trim(s) == TrimRight(s[start..end])
    {
      TrimRightStep(s, start, end);
      end := end - 1;
    }
    TrimRightStep(s, start, end);
    if start < end {
      return s[start..end];
    }
    return "";
  }

  // ----- Lines -----

  /** The index of the first `c`, or the length. */
  function IndexOf(s: string, c: char): (i: nat)
    ensures i <= |s| && c !in s[..i]
    ensures i < |s| ==> s[i] == c
    ensures i == |s| <==> c !in s
  {
    if s == "" then 0
    else if s[0] == c then 0
    else
      assert s == [s[0]] + s[1..];
      var i := 1 + IndexOf(s[1..], c);
      assert s[..i] == [s[0]] + s[1..][..i-1];
      i
  }

  lemma {:induction false} IndexOfCons(d: char, s: string, c: char)
    requires d != c
    ensures IndexOf([d] + s, c) == 1 + IndexOf(s, c)
  {
    assert ([d] + s)[1..] == s;
  }

  lemma {:induction false} IndexOfConcat(a: string, c: char, b: string)
    requires c !in a
    ensures IndexOf(a + [c] + b, c) == |a|
  {
    var s := a + [c] + b;
    if a != "" {
      assert s[0] == a[0] && a[0] in a;
      assert s[1..] == a[1..] + [c] + b;
      IndexOfConcat(a[1..], c, b);
    }
  }

  /** What repeated std::getline reads: a final newline does not start another line. */
  function Lines(s: string): (r: seq<string>)
    ensures forall l :: l in r ==> '\n' !in l
    decreases |s|
  {
    if s == "" then []
    else
      var i := IndexOf(s, '\n');
      if i == |s| then [s] else [s[..i]] + Lines(s[i+1..])
  }

  function Unlines(ls: seq<string>): (r: string) {
    if ls == [] then "" else ls[0] + "\n" + Unlines(ls[1..])
  }

  ghost predicate NewlineFree(ls: seq<string>) {
    forall i :: 0 <= i < |ls| ==> '\n' !in ls[i]
  }

  lemma LinesStep(l: string, rest: string)
    requires '\n' !in l
    ensures Lines(l + "\n" + rest) == [l] + Lines(rest)
  {
    var s := l + "\n" + rest;
    assert s == l + ['\n'] + rest;
    IndexOfConcat(l, '\n', rest);
    assert s[..|l|] == l && s[|l|+1..] == rest;
  }

  lemma {:induction false} LinesOfUnlines(ls: seq<string>)
    requires NewlineFree(ls)
    ensures Lines(Unlines(ls)) == ls
  {
    if ls != [] {
      LinesOfUnlines(ls[1..]);
      LinesStep(ls[0], Unlines(ls[1..]));
      assert Unlines(ls) == ls[0] + "\n" + Unlines(ls[1..]);
    }
  }

  lemma {:induction false} UnlinesConcat(a: seq<string>, b: seq<string>)
    ensures Unlines(a + b) == Unlines(a) + Unlines(b)
  {
    if a == [] {
      assert a + b == b;
    } else {
      UnlinesConcat(a[1..], b);
      assert (a + b)[0] == a[0] && (a + b)[1..] == a[1..] + b;
    }
  }

  /** Lines joined by newlines, without a final one. */
  function Join(ls: seq<string>): (r: string) {
    if ls == [] then ""
    else if |ls| == 1 then ls[0]
    else ls[0] + "\n" + Join(ls[1..])
  }

  lemma {:induction false} LinesOfJoin(ls: seq<string>)
    requires NewlineFree(ls) && forall i :: 0 <= i < |ls| ==> ls[i] != ""
    ensures Lines(Join(ls)) == ls
  {
    if |ls| == 1 {
      assert IndexOf(ls[0], '\n') == |ls[0]|;
    } else if |ls| > 1 {
      LinesOfJoin(ls[1..]);
      LinesStep(ls[0], Join(ls[1..]));
      assert ls == [ls[0]] + ls[1..];
    }
  }

  lemma {:induction false} JoinSnoc(ls: seq<string>, l: string)
    requires forall i :: 0 <= i < |ls| ==> ls[i] != ""
    ensures Join(ls + [l]) == (if Join(ls) == "" then "" else Join(ls) + "\n") + l
    ensures Join(ls) == "" <==> ls == []
  {
    if ls == [] {
      assert ls + [l] == [l];
    } else {
      JoinSnoc(ls[1..], l);
      assert (ls + [l])[0] == ls[0] && (ls + [l])[1..] == ls[1..] + [l];
      if |ls| == 1 {
        assert ls[1..] == [];
        assert Join(ls + [l]) == ls[0] + "\n" + Join([l]);
      } else {
        assert Join(ls + [l]) == ls[0] + "\n" + (Join(ls[1..]) + "\n" + l);
      }
    }
  }
}
