/** What the parts of a path are, however it is spelled. */
module PathProperties {
  import opened Ordering
  import opened Paths
  import opened Splitting

  ghost predicate SlashFree(s: string) { forall i :: 0 <= i < |s| ==> s[i] != '/' }

  ghost predicate Slashes(s: string) { forall i :: 0 <= i < |s| ==> s[i] == '/' }

  // ----- Reading a path -----

  lemma {:induction false} NameRead(name: string, rest: string, acc: string)
    requires SlashFree(name) && '/' !in acc
    ensures '/' !in acc + name && NamesFrom(name + rest, acc) == NamesFrom(rest, acc + name)
    decreases |name|
  {
    if name == "" {
      assert name + rest == rest && acc + name == acc;
    } else {
      assert (name + rest)[0] == name[0] && (name + rest)[1..] == name[1..] + rest;
      NameRead(name[1..], rest, acc + [name[0]]);
      assert acc + [name[0]] + name[1..] == acc + name;
    }
  }

  lemma {:induction false} SlashesSkipped(gap: string, rest: string)
    requires Slashes(gap)
    ensures NamesFrom(gap + rest, "") == NamesFrom(rest, "")
    decreases |gap|
  {
    if gap == "" {
      assert gap + rest == rest;
    } else {
      assert (gap + rest)[0] == '/' && (gap + rest)[1..] == gap[1..] + rest;
      SlashesSkipped(gap[1..], rest);
    }
  }

  lemma {:induction false} NameEnds(name: string, rest: string)
    requires name != "" && SlashFree(name) && (rest == "" || rest[0] == '/')
    ensures NamesFrom(name + rest, "") == [name] + NamesFrom(rest, "")
  {
    NameRead(name, rest, "");
    assert "" + name == name;
    if rest != "" {
      assert NamesFrom(rest, "") == [] + NamesFrom(rest[1..], "");
    }
  }

  // ----- Spellings -----

  /** A path written out: separators, and after each name more of them. */
  ghost function Spell(before: string, names: seq<string>, gaps: seq<string>): (r: string)
    requires |gaps| == |names|
    decreases |names|
  {
    if names == [] then before else before + (names[0] + Spell(gaps[0], names[1..], gaps[1..]))
  }

  /** There is at least one separator between two names. */
  ghost predicate SpellingOk(before: string, names: seq<string>, gaps: seq<string>) {
    && |gaps| == |names| && Slashes(before)
    && forall i :: 0 <= i < |names| ==>
      names[i] != "" && SlashFree(names[i]) && Slashes(gaps[i]) && (i + 1 < |names| ==> gaps[i] != "")
  }

  lemma {:induction false} SpellingRead(before: string, names: seq<string>, gaps: seq<string>)
    requires SpellingOk(before, names, gaps)
    ensures NamesFrom(Spell(before, names, gaps), "") == names
    ensures Spell(before, names, gaps) == "" <==> before == "" && names == []
    ensures before != "" ==> Spell(before, names, gaps)[0] == '/'
    decreases |names|
  {
    if names == [] {
      SlashesSkipped(before, "");
      assert before + "" == before;
    } else {
      var rest := Spell(gaps[0], names[1..], gaps[1..]);
      SpellingRead(gaps[0], names[1..], gaps[1..]);
      SlashesSkipped(before, names[0] + rest);
      hide NamesFrom;
      NameEnds(names[0], rest);
      assert names == [names[0]] + names[1..];
    }
  }

  /** The parts are the names, with the root in front exactly if a separator is, whatever the
      runs of separators. */
  lemma PartsOfSpelling(before: string, names: seq<string>, gaps: seq<string>)
    requires SpellingOk(before, names, gaps)
    ensures Parts(Spell(before, names, gaps)) == (if before == "" then [] else ["/"]) + names
  {
    SpellingRead(before, names, gaps);
    hide NamesFrom;
    if before == "" && names != [] {
      assert Spell(before, names, gaps)[0] == names[0][0];
    }
  }

  lemma {:induction false} Run(s: string, slash: bool) returns (n: nat)
    ensures n <= |s| && (forall i :: 0 <= i < n ==> (s[i] == '/') == slash)
    ensures n < |s| ==> (s[n] == '/') != slash
  {
    n := 0;
    while n < |s| && (s[n] == '/') == slash
      invariant n <= |s| && forall i :: 0 <= i < n ==> (s[i] == '/') == slash
    {
      n := n + 1;
    }
  }

  /** Every path is spelled like that. */
  lemma {:induction false} EveryPathSpelled(s: string) returns (before: string, names: seq<string>, gaps: seq<string>)
    ensures SpellingOk(before, names, gaps) && s == Spell(before, names, gaps)
    ensures s != "" && s[0] != '/' ==> before == ""
    ensures s != "" && s[0] == '/' ==> before != ""
    decreases |s|
  {
    var n := Run(s, true);
    before, names, gaps := s[..n], [], [];
    var rest := s[n..];
    assert s == before + rest;
    if rest != "" {
      var m := Run(rest, false);
      var name := rest[..m];
      assert m > 0 && rest == name + rest[m..];
      var gap, names', gaps' := EveryPathSpelled(rest[m..]);
      if rest[m..] == "" && names' != [] { SpellingRead(gap, names', gaps'); }
      names, gaps := [name] + names', [gap] + gaps';
      assert names[1..] == names' && gaps[1..] == gaps';
    }
  }

  // ----- Equal paths -----

  /** The non-empty pieces between slashes. */
  function Pieces(s: string): (r: seq<string>) { NonEmpty(Split(s, "/")) }

  function NonEmpty(fields: seq<string>): (r: seq<string>) {
    if fields == [] then [] else (if fields[0] == "" then [] else [fields[0]]) + NonEmpty(fields[1..])
  }

  /** Both start at the root or neither does, and the pieces are the same. */
  ghost predicate SamePath(a: string, b: string) {
    ("/" <= a <==> "/" <= b) && Pieces(a) == Pieces(b)
  }

  lemma {:induction false} SlashFreeIsFree(s: string)
    requires '/' !in s
    ensures Free(s, "/")
  {
    if s != "" {
      assert s == [s[0]] + s[1..];
      SlashFreeIsFree(s[1..]);
    }
  }

  lemma {:induction false} NamesFromSplit(s: string, name: string)
    requires '/' !in name
    ensures NamesFrom(s, name) == NonEmpty(Split(name + s, "/"))
    decreases |s|
  {
    SlashFreeIsFree(name);
    if s == "" {
      assert name + s == name;
    } else if s[0] == '/' {
      NamesFromSplit(s[1..], "");
      assert "" + s[1..] == s[1..];
      assert name + s == name + "/" + s[1..];
      SplitHead(name, "/", s[1..]);
      hide Split;
      var more := Split(s[1..], "/");
      assert ([name] + more)[1..] == more;
    } else {
      assert name + [s[0]] + s[1..] == name + s;
      NamesFromSplit(s[1..], name + [s[0]]);
    }
  }

  lemma NamesArePieces(s: string)
    ensures Names(s) == Pieces(s)
  {
    NamesFromSplit(s, "");
    assert "" + s == s;
  }

  /** Paths have the same parts exactly when they are the same path. */
  lemma PartsTell(a: string, b: string)
    ensures Parts(a) == Parts(b) <==> SamePath(a, b)
  {
    NamesArePieces(a);
    NamesArePieces(b);
    hide Names, Pieces;
    assert IsAbsolute(a) ==> Parts(a)[1..] == Names(a) && Parts(a)[0] == "/";
    assert IsAbsolute(b) ==> Parts(b)[1..] == Names(b) && Parts(b)[0] == "/";
    assert !IsAbsolute(a) ==> Parts(a) == Names(a);
    assert !IsAbsolute(b) ==> Parts(b) == Names(b);
  }

  /** The paths below a directory: they start at the root if it does, and go on with its names. */
  lemma PartsBelow(absolute: bool, names: seq<string>, b: string)
    requires (forall i :: 0 <= i < |names| ==> '/' !in names[i]) && (absolute || names != [])
    ensures (if absolute then ["/"] else []) + names <= Parts(b) <==> absolute == ("/" <= b) && names <= Pieces(b)
  {
    NamesArePieces(b);
    var parts, dir := Parts(b), (if absolute then ["/"] else []) + names;
    var m := if IsAbsolute(b) then 1 else 0;
    assert IsAbsolute(b) == ("/" <= b) && |parts| == m + |Names(b)|;
    assert forall i :: 0 <= i < |Names(b)| ==> parts[i + m] == Names(b)[i] && '/' !in Names(b)[i];
    hide Names, Pieces;
    var n := if absolute then 1 else 0;
    assert forall i :: 0 <= i < |names| ==> dir[i + n] == names[i];
    if dir <= parts {
      assert dir[0] == parts[0];
      assert forall i :: 0 <= i < |names| ==> names[i] == dir[i + n] == parts[i + m] == Names(b)[i];
    }
  }

  lemma {:induction false} NamesAfterSlash(a: string, b: string, acc: string)
    requires '/' !in acc
    ensures NamesFrom(a + "/" + b, acc) == NamesFrom(a, acc) + NamesFrom(b, "")
    decreases |a|
  {
    var s := a + "/" + b;
    if a == "" {
      assert s[0] == '/' && s[1..] == b;
    } else {
      assert s[0] == a[0] && s[1..] == a[1..] + "/" + b;
      if a[0] == '/' { NamesAfterSlash(a[1..], b, ""); } else { NamesAfterSlash(a[1..], b, acc + [a[0]]); }
    }
  }

  // ----- The order of paths -----

  /** Part by part, a path before those below it. */
  ghost predicate NamesLess(a: seq<string>, b: seq<string>) {
    b != [] && (a == [] || Less(a[0], b[0]) || (a[0] == b[0] && NamesLess(a[1..], b[1..])))
  }

  /** Relative paths come first. */
  ghost predicate PathLess(a: string, b: string) {
    if "/" <= a <==> "/" <= b then NamesLess(Pieces(a), Pieces(b)) else "/" <= b
  }

  ghost predicate NulFree(names: seq<string>) { forall i :: 0 <= i < |names| ==> '\0' !in names[i] }

  lemma {:induction false} TerminatedLess(a: string, u: string, b: string, v: string)
    requires '\0' !in a && '\0' !in b
    ensures Less(a + "\0" + u, b + "\0" + v) <==> Less(a, b) || (a == b && Less(u, v))
    decreases |a|
  {
    var s, t := a + "\0" + u, b + "\0" + v;
    assert s[0] == (if a == "" then '\0' else a[0]) && t[0] == (if b == "" then '\0' else b[0]);
    if a == "" && b == "" {
      assert s[1..] == u && t[1..] == v;
    } else if a != "" && b != "" && a[0] == b[0] {
      assert s[1..] == a[1..] + "\0" + u && t[1..] == b[1..] + "\0" + v;
      TerminatedLess(a[1..], u, b[1..], v);
      assert a == [a[0]] + a[1..] && b == [b[0]] + b[1..];
    } else {
      assert a != "" ==> a[0] in a && a[0] != '\0';
      assert b != "" ==> b[0] in b && b[0] != '\0';
    }
  }

  lemma {:induction false} KeysOfNames(a: seq<string>, b: seq<string>)
    requires NulFree(a) && NulFree(b)
    ensures Less(Terminated(a), Terminated(b)) <==> NamesLess(a, b)
    decreases |a|
  {
    if a != [] && b != [] {
      hide Less;
      TerminatedLess(a[0], Terminated(a[1..]), b[0], Terminated(b[1..]));
      KeysOfNames(a[1..], b[1..]);
    }
  }

  /** Comparing keys is comparing paths; no name of a path holds the zero byte. */
  lemma {:induction false} KeyOrder(a: string, b: string)
    requires NulFree(Pieces(a)) && NulFree(Pieces(b))
    ensures Less(OrderKey(a), OrderKey(b)) <==> PathLess(a, b)
  {
    NamesArePieces(a);
    NamesArePieces(b);
    KeysOfNames(Names(a), Names(b));
    hide Names, Pieces, NamesLess, Terminated;
    assert OrderKey(a)[1..] == Terminated(Names(a)) && OrderKey(b)[1..] == Terminated(Names(b));
  }
}
