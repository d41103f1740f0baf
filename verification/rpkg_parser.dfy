/** Reading the table of installed packages that R prints (src/rpkg_database.h:341-471):
    one line a package, twelve fields separated by no-break spaces. */
module RpkgParser {
  import opened Options
  import opened Text
  import opened Splitting
  import opened Packages

  // ----- Dependency fields -----

  /** The characters before a version constraint. */
  function TakeName(s: string): (r: string) {
    if s == "" || s[0] == '(' || IsSpace(s[0]) then "" else [s[0]] + TakeName(s[1..])
  }

  function DepName(piece: string): (r: string) { Trim(TakeName(Trim(piece))) }

  /** The package names of some pieces; nameless ones and R itself are ignored. */
  function NamesOf(pieces: seq<string>): (r: set<string>) {
    set p | p in pieces && DepName(p) != "" && DepName(p) != "R" :: DepName(p)
  }

  function FieldNames(field: string): (r: set<string>) {
    if field == "NA" then {} else NamesOf(Split(field, ","))
  }

  /** One dependency as R writes it: a name, perhaps a version constraint, and white space. */
  datatype Entry = Entry(before: string, name: string, constraint: string)

  ghost predicate EntryOk(e: Entry) {
    && AllSpace(e.before)
    && e.name != "" && (forall i :: 0 <= i < |e.name| ==> !IsSpace(e.name[i]) && e.name[i] != '(')
    && (e.constraint == "" || IsSpace(e.constraint[0]) || e.constraint[0] == '(')
    && ',' !in e.before + e.name + e.constraint
  }

  function EntryText(e: Entry): (r: string) { e.before + e.name + e.constraint }

  lemma {:induction false} TrimLeftPadded(before: string, s: string)
    requires AllSpace(before) && s != "" && !IsSpace(s[0])
    ensures TrimLeft(before + s) == s
  {
    if before == "" {
      assert before + s == s;
    } else {
      assert (before + s)[1..] == before[1..] + s;
      TrimLeftPadded(before[1..], s);
    }
  }

  lemma {:induction false} TrimRightKeepsFront(a: string, b: string) returns (c: string)
    requires a != "" && !IsSpace(a[|a|-1])
    ensures c <= b && TrimRight(a + b) == a + c
    decreases |b|
  {
    c := b;
    if b == "" {
      assert a + b == a;
    } else if IsSpace(b[|b|-1]) {
      assert (a + b)[..|a + b|-1] == a + b[..|b|-1];
      c := TrimRightKeepsFront(a, b[..|b|-1]);
    }
  }

  lemma {:induction false} TakeNameStops(name: string, rest: string)
    requires forall i :: 0 <= i < |name| ==> !IsSpace(name[i]) && name[i] != '('
    requires rest == "" || IsSpace(rest[0]) || rest[0] == '('
    ensures TakeName(name + rest) == name
  {
    if name == "" {
      assert name + rest == rest;
    } else {
      assert (name + rest)[1..] == name[1..] + rest;
      TakeNameStops(name[1..], rest);
    }
  }

  /** Padding and version constraints do not matter. */
  lemma EntryName(e: Entry)
    requires EntryOk(e)
    ensures DepName(EntryText(e)) == e.name
  {
    hide TrimLeft, TrimRight, TakeName;
    assert EntryText(e) == e.before + (e.name + e.constraint);
    TrimLeftPadded(e.before, e.name + e.constraint);
    var rest := TrimRightKeepsFront(e.name, e.constraint);
    TakeNameStops(e.name, rest);
    TrimIdle(e.name);
  }

  lemma {:induction false} CommaFree(s: string)
    ensures ',' !in s <==> Free(s, ",")
  {
    if s != "" {
      CommaFree(s[1..]);
      assert s == [s[0]] + s[1..];
      assert "," <= s <==> s[0] == ',';
    }
  }

  ghost predicate AllEntriesOk(es: seq<Entry>) {
    forall i :: 0 <= i < |es| ==> EntryOk(es[i])
  }

  function EntryTexts(es: seq<Entry>): (r: seq<string>) {
    seq(|es|, i requires 0 <= i < |es| => EntryText(es[i]))
  }

  /** A field written as entries separated by commas reads as their names, R aside. */
  lemma FieldOfEntries(es: seq<Entry>, x: string)
    requires es != [] && AllEntriesOk(es) && JoinWith(",", EntryTexts(es)) != "NA"
    ensures x in FieldNames(JoinWith(",", EntryTexts(es))) <==> x != "R" && exists i :: 0 <= i < |es| && es[i].name == x
  {
    hide Trim, TakeName;
    var pieces := EntryTexts(es);
    forall i | 0 <= i < |pieces| ensures Free(pieces[i], ",") { CommaFree(pieces[i]); }
    SplitOfJoin(pieces, ",");
    if x in NamesOf(pieces) {
      var p :| p in pieces && DepName(p) == x;
      var i :| 0 <= i < |pieces| && pieces[i] == p;
      EntryName(es[i]);
    }
    if i :| 0 <= i < |es| && es[i].name == x {
      EntryName(es[i]);
      assert pieces[i] in pieces;
    }
  }

  lemma TakeNameStep(s: string, i: nat)
    requires i < |s|
    ensures TakeName(s[i..]) == if s[i] == '(' || IsSpace(s[i]) then "" else [s[i]] + TakeName(s[i+1..])
  {
    assert s[i..][1..] == s[i+1..];
  }

  lemma NamesOfOne(p: string)
    ensures NamesOf([p]) == if DepName(p) != "" && DepName(p) != "R" then {DepName(p)} else {}
  {
    hide DepName;
    assert forall q :: q in [p] <==> q == p;
  }

  method NameOf(trimmed: string) returns (name: string)
    ensures name == TakeName(trimmed)
  {
    name := "";
    var i := 0;
    assert trimmed[0..] == trimmed;
    while i < |trimmed|
      invariant i <= |trimmed|
      invariant TakeName(trimmed) == name + TakeName(trimmed[i..])
    {
      TakeNameStep(trimmed, i);
      var x := trimmed[i];
      if x == '(' || IsSpace(x) { return; }
      name := name + [x];
      i := i + 1;
    }
  }

  /** Adds the name in `tmp`, if there is one, to the target. */
  method AddDependency(tmp: string, target: set<string>) returns (r: set<string>)
    ensures r == target + NamesOf([tmp])
  {
    r := target;
    NamesOfOne(tmp);
    TrimIdle("");
    assert TakeName("") == "";
    hide Trim, TakeName, NamesOf;
    if tmp != "" {
      var trimmed := StringTrim(tmp);
      var name := NameOf(trimmed);
      name := StringTrim(name);
      if name != "" && name != "R" { r := r + {name}; }
    }
  }

  lemma PieceEnds(tmp: string, field: string, i: nat)
    requires i < |field| && field[i] == ',' && ',' !in tmp
    ensures Split(tmp + field[i..], ",") == [tmp] + Split(field[i+1..], ",")
  {
    CommaFree(tmp);
    var s := tmp + field[i..];
    assert s == tmp + "," + field[i+1..];
    FindAfter(tmp, ",", field[i+1..]);
    assert s[..|tmp|] == tmp && s[|tmp| + 1..] == field[i+1..];
  }

  lemma LastPiece(tmp: string)
    requires ',' !in tmp
    ensures Split(tmp, ",") == [tmp]
  {
    CommaFree(tmp);
  }

  lemma NamesCons(p: string, pieces: seq<string>)
    ensures NamesOf([p] + pieces) == NamesOf([p]) + NamesOf(pieces)
  {
    hide DepName;
    NamesOfOne(p);
    assert forall q :: q in [p] + pieces <==> q == p || q in pieces;
    forall x ensures x in NamesOf([p] + pieces) <==> x in NamesOf([p]) + NamesOf(pieces) {
      if x in NamesOf([p]) { assert p in [p] + pieces; }
      if x in NamesOf(pieces) {
        var q :| q in pieces && DepName(q) == x && DepName(q) != "" && DepName(q) != "R";
        assert q in [p] + pieces;
      }
    }
  }

  /** The names still to come, `tmp` being the piece that is being read. */
  ghost function NamesLeft(tmp: string, field: string, i: nat): (r: set<string>)
    requires i <= |field|
  {
    NamesOf(Split(tmp + field[i..], ","))
  }

  lemma NamesLeftStart(field: string)
    ensures NamesLeft("", field, 0) == NamesOf(Split(field, ","))
  {
    hide NamesOf, Split;
    assert "" + field[0..] == field;
  }

  lemma NamesLeftStep(tmp: string, field: string, i: nat)
    requires i < |field| && ',' !in tmp
    ensures NamesLeft(tmp, field, i) ==
      if field[i] == ',' then NamesOf([tmp]) + NamesLeft("", field, i + 1) else NamesLeft(tmp + [field[i]], field, i + 1)
  {
    hide NamesOf, Split;
    if field[i] == ',' {
      PieceEnds(tmp, field, i);
      NamesCons(tmp, Split(field[i+1..], ","));
      assert "" + field[i+1..] == field[i+1..];
    } else {
      assert tmp + field[i..] == tmp + [field[i]] + field[i+1..];
    }
  }

  lemma NamesLeftEnd(tmp: string, field: string)
    requires ',' !in tmp
    ensures NamesLeft(tmp, field, |field|) == NamesOf([tmp])
  {
    hide NamesOf, Split;
    LastPiece(tmp);
    assert tmp + field[|field|..] == tmp;
  }

  method ParseDependencyField(field: string, target: set<string>) returns (r: set<string>)
    ensures r == target + FieldNames(field)
  {
    r := target;
    if field == "NA" { return; }
    hide NamesOf, Split, NamesLeft;
    var tmp := "";
    NamesLeftStart(field);
    for i := 0 to |field|
      invariant ',' !in tmp
      invariant r + NamesLeft(tmp, field, i) == target + FieldNames(field)
    {
      NamesLeftStep(tmp, field, i);
      var c := field[i];
      if c == ',' {
        r := AddDependency(tmp, r);
        tmp := "";
      } else {
        tmp := tmp + [c];
      }
    }
    NamesLeftEnd(tmp, field);
    r := AddDependency(tmp, r);
  }

  // ----- Lines -----

  function Lower(c: char): (r: char) { if 'A' <= c <= 'Z' then (c as int + 32) as char else c }

  /** string_iequals. */
  predicate SameIgnoringCase(a: string, b: string) {
    |a| == |b| && forall i :: 0 <= i < |a| ==> Lower(a[i]) == Lower(b[i])
  }

  function GitHubRepo(org: string, name: string, gitRef: string): (r: Option<Repository>) {
    if org == "" || org == "NA" then None
    else if name == "" || name == "NA" then None
    else Some(GitHub(org, name, if gitRef == "" || gitRef == "NA" then "HEAD" else gitRef))
  }

  function RepositoryOf(f: seq<string>): (r: Option<Repository>)
    requires |f| == 12
  {
    if SameIgnoringCase(f[8], "github") then GitHubRepo(f[9], f[10], f[11]) else Some(CRAN)
  }

  /** The package that twelve fields describe, unless its GitHub origin is incomplete. */
  function PackageOf(f: seq<string>): (r: Option<RPackage>)
    requires |f| == 12
  {
    match RepositoryOf(f)
    case None => None
    case Some(repository) =>
      Some(RPackage(f[0], f[1], f[2], FieldNames(f[3]) + FieldNames(f[4]) + FieldNames(f[5]),
                    f[6] == "base", f[7] == "yes", repository))
  }

  function LinePackage(line: string): (r: Option<RPackage>) {
    var t := Trim(line);
    if t == "" then None
    else
      match SplitN(t, NBSP, 12)
      case None => None
      case Some(f) => PackageOf(f)
  }

  /** A well-formed line reads as the package its fields describe. */
  lemma LineReads(before: string, f: seq<string>, after: string)
    requires |f| == 12 && AllFree(f, NBSP) && Trimmed(JoinWith(NBSP, f))
    requires AllSpace(before) && AllSpace(after)
    ensures LinePackage(before + JoinWith(NBSP, f) + after) == PackageOf(f)
  {
    hide Trim, SplitN, PackageOf, FindDelim;
    TrimPadded(before, JoinWith(NBSP, f), after);
    SplitNExactly(f, NBSP, 12);
    assert f[..12] == f;
    assert JoinWith(NBSP, f) == f[0] + NBSP + JoinWith(NBSP, f[1..]);
  }

  method ParseLine(line: string) returns (r: Option<RPackage>)
    ensures r == LinePackage(line)
  {
    hide Trim, SplitN, FieldNames;
    var t := StringTrim(line);
    if t == "" { return None; }
    var tokens := StringSplitN(t, NBSP, 12);
    if tokens.None? { return None; }
    var f := tokens.value;
    var dependencies := ParseDependencyField(f[3], {});
    dependencies := ParseDependencyField(f[4], dependencies);
    dependencies := ParseDependencyField(f[5], dependencies);
    assert {} + FieldNames(f[3]) == FieldNames(f[3]);
    var repository := CRAN;
    if SameIgnoringCase(f[8], "github") {
      var gh := GitHubRepo(f[9], f[10], f[11]);
      if gh.None? { return None; }
      repository := gh.value;
    }
    return Some(RPackage(f[0], f[1], f[2], dependencies, f[6] == "base", f[7] == "yes", repository));
  }

  // ----- The database -----

  /** std::unordered_map::emplace: a name keeps its first package. */
  function Emplaced(m: PackageMap, p: Option<RPackage>): (r: PackageMap) {
    if p.Some? && p.value.name !in m then m[p.value.name := p.value] else m
  }

  function Collect(m: PackageMap, lines: seq<string>): (r: PackageMap)
    decreases |lines|
  {
    if lines == [] then m else Collect(Emplaced(m, LinePackage(lines[0])), lines[1..])
  }

  /** The package of the first line that describes one called `k`. */
  function FirstCalled(k: string, lines: seq<string>): (r: Option<RPackage>) {
    if lines == [] then None
    else
      var p := LinePackage(lines[0]);
      if p.Some? && p.value.name == k then p else FirstCalled(k, lines[1..])
  }

  lemma {:induction false} CollectKeepsFirst(m: PackageMap, lines: seq<string>, k: string)
    ensures k in Collect(m, lines) <==> k in m || FirstCalled(k, lines).Some?
    ensures k in m ==> k in Collect(m, lines) && Collect(m, lines)[k] == m[k]
    ensures k !in m && FirstCalled(k, lines).Some? ==>
      FirstCalled(k, lines).value.name == k && k in Collect(m, lines) && Collect(m, lines)[k] == FirstCalled(k, lines).value
    decreases |lines|
  {
    if lines != [] { CollectKeepsFirst(Emplaced(m, LinePackage(lines[0])), lines[1..], k); }
  }

  /** Without the dependencies that are not installed, for some of the packages. */
  function Pruned(raw: PackageMap, done: set<string>): (r: PackageMap) {
    map k | k in raw :: if k in done then raw[k].(dependencies := raw[k].dependencies * raw.Keys) else raw[k]
  }

  function ParsedPackages(input: string): (r: PackageMap) {
    var raw := Collect(map[], Lines(input));
    Pruned(raw, raw.Keys)
  }

  /** In the text's own terms: a package is present when some line describes it, it is as its
      first line says, and its dependencies are those of the named ones that are present. */
  lemma ParsedMeaning(input: string, k: string)
    ensures var first := FirstCalled(k, Lines(input));
      && (k in ParsedPackages(input) <==> first.Some?)
      && (first.Some? ==>
            && first.value.name == k && k in ParsedPackages(input)
            && ParsedPackages(input)[k] ==
                 first.value.(dependencies := first.value.dependencies * ParsedPackages(input).Keys))
  {
    CollectKeepsFirst(map[], Lines(input), k);
    hide Collect, FirstCalled;
    assert ParsedPackages(input).Keys == Collect(map[], Lines(input)).Keys;
  }

  /** The graph has no dangling dependency, which is what the planner checks for. */
  lemma ParsedIsClosed(input: string)
    ensures WellNamed(ParsedPackages(input)) && Closed(ParsedPackages(input))
  {
    forall k | k in ParsedPackages(input)
      ensures ParsedPackages(input)[k].name == k && ParsedPackages(input)[k].dependencies <= ParsedPackages(input).Keys
    {
      ParsedMeaning(input, k);
    }
  }

  lemma PruneOne(raw: PackageMap, done: set<string>, k: string)
    requires k in raw && k !in done
    ensures Pruned(raw, done).Keys == raw.Keys && Pruned(raw, done)[k] == raw[k]
    ensures Pruned(raw, done + {k}) == Pruned(raw, done)[k := raw[k].(dependencies := raw[k].dependencies * raw.Keys)]
  {
  }

  method ParseRPackages(input: string) returns (packages: PackageMap)
    ensures packages == ParsedPackages(input)
  {
    hide LinePackage, FirstCalled;
    packages := map[];
    var lines := Lines(input);
    assert lines[0..] == lines;
    for i := 0 to |lines|
      invariant Collect(packages, lines[i..]) == Collect(map[], lines)
    {
      assert lines[i..][1..] == lines[i+1..];
      var p := ParseLine(lines[i]);
      if p.Some? && p.value.name !in packages { packages := packages[p.value.name := p.value]; }
    }
    ghost var raw := packages;
    var todo := packages.Keys;
    while todo != {}
      invariant todo <= raw.Keys && packages == Pruned(raw, raw.Keys - todo)
      decreases |todo|
    {
      var k :| k in todo;
      ghost var done := raw.Keys - todo;
      PruneOne(raw, done, k);
      todo := todo - {k};
      assert raw.Keys - todo == done + {k};
      var installed := set d | d in packages[k].dependencies && d in packages;
      assert installed == raw[k].dependencies * raw.Keys;
      packages := packages[k := packages[k].(dependencies := installed)];
    }
  }
}
