/** Saving the manifest and loading the file again gives the files to copy and the result
    files, and drops every ignored one. */
module ManifestRoundTrip {
  import opened Text
  import opened Manifests
  import opened ManifestFormats
  import opened ManifestSections

  predicate IsKept(s: FileStatus) { s == Copy || s == Result }

  /** A path that stays on its line. */
  ghost predicate OneLine(e: Entry) { '\n' !in e.0 }

  ghost predicate AllOneLine(entries: seq<Entry>) {
    forall i :: 0 <= i < |entries| ==> OneLine(entries[i])
  }

  /** Paths that a line of the section can carry: no comment sign, no outer white space and no
      leading quote. An ignored file need not be carried. */
  ghost predicate Carried(e: Entry) {
    IsKept(e.1) ==> COMMENT !in e.0 && Trimmed(e.0) && (e.0 != "" ==> e.0[0] != '"')
  }

  function Mark(s: FileStatus): (r: string) { if s == Copy then "C" else "R" }

  /** The lines an entry is saved as. */
  function EntryLines(e: Entry): (r: seq<string>) {
    match e.1
    case Copy => ["C " + e.0]
    case Result => ["R " + e.0]
    case IgnoreNoLongerExist => []
    case _ => ["# " + e.0 + " # " + StatusText(e.1)]
  }

  function EntriesLines(entries: seq<Entry>): (r: seq<string>) {
    if entries == [] then [] else EntryLines(entries[0]) + EntriesLines(entries[1..])
  }

  /** What the reader keeps of an entry. */
  function KeptLines(e: Entry): (r: seq<string>) {
    if !IsKept(e.1) then [] else [Clean(Mark(e.1) + " " + e.0)]
  }

  function AllKeptLines(entries: seq<Entry>): (r: seq<string>) {
    if entries == [] then [] else KeptLines(entries[0]) + AllKeptLines(entries[1..])
  }

  lemma EntryTextIsLines(e: Entry)
    requires '\n' !in e.0
    ensures EntryText(e) == Unlines(EntryLines(e)) && NewlineFree(EntryLines(e))
  {
    if EntryLines(e) != [] {
      UnlinesCons(EntryLines(e)[0], []);
      assert EntryLines(e) == [EntryLines(e)[0]] + [];
      assert EntryLines(e)[0] + "\n" + "" == EntryLines(e)[0] + "\n";
    }
  }

  lemma {:induction false} EntriesTextIsLines(entries: seq<Entry>)
    requires AllOneLine(entries)
    ensures EntriesText(entries) == Unlines(EntriesLines(entries)) && NewlineFree(EntriesLines(entries))
  {
    if entries != [] {
      assert OneLine(entries[0]);
      EntryTextIsLines(entries[0]);
      assert AllOneLine(entries[1..]);
      EntriesTextIsLines(entries[1..]);
      UnlinesConcat(EntryLines(entries[0]), EntriesLines(entries[1..]));
    }
  }

  lemma LinesOfSave(entries: seq<Entry>)
    requires AllOneLine(entries)
    ensures Lines(SaveText(entries)) == MapPrefix(COMMENT_PREFIX, Lines(HEADER_TEXT)) + EntriesLines(entries)
  {
    hide AllOneLine, EntriesText, EntriesLines, Lines, Unlines, MapPrefix, Prefixed;
    var header := MapPrefix(COMMENT_PREFIX, Lines(HEADER_TEXT));
    HeaderIsLines();
    MapPrefixNewlineFree(COMMENT_PREFIX, Lines(HEADER_TEXT));
    EntriesTextIsLines(entries);
    UnlinesConcat(header, EntriesLines(entries));
    LinesOfUnlines(header + EntriesLines(entries));
  }

  lemma HeaderIsLines()
    ensures Prefixed(COMMENT_PREFIX, HEADER_TEXT, true) == Unlines(MapPrefix(COMMENT_PREFIX, Lines(HEADER_TEXT)))
  {
    hide Lines, Unlines, MapPrefix, Prefixed;
    PrefixedLines(COMMENT_PREFIX, HEADER_TEXT);
    assert EndsOpen(HEADER_TEXT);
    var p, u := Prefixed(COMMENT_PREFIX, HEADER_TEXT, true), Unlines(MapPrefix(COMMENT_PREFIX, Lines(HEADER_TEXT)));
    assert (p + "\n")[..|p|] == p && (u + "\n")[..|u|] == u;
  }

  lemma {:induction false} KeptConcat(a: seq<string>, b: seq<string>)
    ensures Kept(a + b) == Kept(a) + Kept(b)
  {
    hide Clean;
    if a == [] {
      assert a + b == b;
    } else {
      assert (a + b)[0] == a[0] && (a + b)[1..] == a[1..] + b;
      KeptConcat(a[1..], b);
      var head := if Clean(a[0]) == "" then [] else [Clean(a[0])];
      assert Kept(a + b) == head + (Kept(a[1..]) + Kept(b));
    }
  }

  lemma {:induction false} KeptNothing(ls: seq<string>)
    requires forall i :: 0 <= i < |ls| ==> Clean(ls[i]) == ""
    ensures Kept(ls) == []
  {
    if ls != [] { KeptNothing(ls[1..]); }
  }

  lemma KeptOne(l: string)
    ensures Kept([l]) == if Clean(l) == "" then [] else [Clean(l)]
  {
    hide Clean;
    assert [l][1..] == [];
  }

  /** A kept line after cleaning: its mark, and the path up to a comment sign, trimmed. */
  lemma MarkedLine(mark: char, path: string)
    requires (mark == 'C' || mark == 'R') && '\n' !in path
    ensures var line := Clean([mark] + " " + path);
      && line != "" && line[0] == mark && '\n' !in line && !IsSectionHeader(line)
      && Trim(line[1..]) == Trim(CutComment(path))
  {
    hide TrimLeft, TrimRight;
    var c := CutComment(path);
    MarkedCut(mark, path);
    var before, after := TrimMeaning(c);
    var t := Trim(c);
    if t == "" {
      assert [mark] + " " + c == "" + [mark] + (" " + c);
      TrimPadded("", [mark], " " + c);
      TrimIdle("");
    } else {
      var line := [mark] + " " + before + t;
      assert [mark] + " " + c == "" + line + after;
      TrimPadded("", line, after);
      assert line[1..] == (" " + before) + t + "";
      TrimPadded(" " + before, t, "");
      assert line[..|line|-1][1] == ' ' && !NameChar(' ');
    }
  }

  lemma MarkedCut(mark: char, path: string)
    requires mark == 'C' || mark == 'R'
    ensures CutComment([mark] + " " + path) == [mark] + " " + CutComment(path)
    ensures '\n' !in path ==> '\n' !in CutComment(path)
  {
    TwoPlainCut(mark, path);
    hide IndexOf;
  }

  lemma EntryIsCleaned(e: Entry)
    requires OneLine(e)
    ensures Kept(EntryLines(e)) == KeptLines(e)
  {
    hide Clean, Kept, IsSectionHeader, Trim, CutComment;
    match e.1 {
      case Copy =>
        MarkedLine('C', e.0);
        assert ['C'] + " " + e.0 == "C " + e.0;
        KeptOne("C " + e.0);
      case Result =>
        MarkedLine('R', e.0);
        assert ['R'] + " " + e.0 == "R " + e.0;
        KeptOne("R " + e.0);
      case IgnoreNoLongerExist =>
        KeptNothing([]);
      case _ =>
        var line := "# " + e.0 + " # " + StatusText(e.1);
        assert line == COMMENT_PREFIX + (e.0 + " # " + StatusText(e.1));
        CommentLineIsDropped(e.0 + " # " + StatusText(e.1));
        KeptOne(line);
    }
  }

  lemma {:induction false} EntriesAreCleaned(entries: seq<Entry>)
    requires AllOneLine(entries)
    ensures Kept(EntriesLines(entries)) == AllKeptLines(entries)
  {
    if entries != [] {
      assert OneLine(entries[0]);
      EntryIsCleaned(entries[0]);
      assert AllOneLine(entries[1..]);
      EntriesAreCleaned(entries[1..]);
      KeptConcat(EntryLines(entries[0]), EntriesLines(entries[1..]));
    }
  }

  /** The saved section, cleaned, is one line for each kept entry. */
  lemma SaveIsCleaned(entries: seq<Entry>)
    requires AllOneLine(entries)
    ensures Kept(Lines(SaveText(entries))) == AllKeptLines(entries)
  {
    hide AllOneLine, SaveText, EntriesLines, AllKeptLines, Lines, Kept, Clean, MapPrefix;
    var header := MapPrefix(COMMENT_PREFIX, Lines(HEADER_TEXT));
    LinesOfSave(entries);
    PrefixedAreComments(Lines(HEADER_TEXT));
    KeptNothing(header);
    KeptConcat(header, EntriesLines(entries));
    EntriesAreCleaned(entries);
    assert [] + AllKeptLines(entries) == AllKeptLines(entries);
  }

  /** What the loader makes of the path on a kept line. */
  function LoadedFrom(path: string, status: FileStatus): (r: Loaded) {
    var t := Trim(CutComment(path));
    if t != "" && t[0] == '"' then
      if t[|t|-1] == '"' then Loaded.Entry(if |t| == 1 then "" else t[1..|t|-1], status) else Skip
    else Loaded.Entry(t, status)
  }

  lemma KeptLineLoads(e: Entry)
    requires OneLine(e) && IsKept(e.1)
    ensures ProperLines(KeptLines(e)) && LoadLine(KeptLines(e)[0]) == LoadedFrom(e.0, e.1)
  {
    hide Clean, IsSectionHeader, Trim, CutComment;
    var mark := if e.1 == Copy then 'C' else 'R';
    assert Mark(e.1) == [mark];
    MarkedLine(mark, e.0);
  }

  /** The path comes back exactly when the line can carry it; otherwise a shorter one does, or
      none. */
  lemma CarriedExactly(e: Entry)
    requires IsKept(e.1)
    ensures Carried(e) <==> LoadedFrom(e.0, e.1) == Loaded.Entry(e.0, e.1)
    ensures LoadedFrom(e.0, e.1).Entry? ==>
      |LoadedFrom(e.0, e.1).path| <= |e.0| && (|LoadedFrom(e.0, e.1).path| == |e.0| ==> LoadedFrom(e.0, e.1).path == e.0)
  {
    hide TrimLeft, TrimRight;
    var c := CutComment(e.0);
    var before, after := TrimMeaning(c);
    assert COMMENT in e.0 ==> |c| < |e.0|;
    assert COMMENT !in e.0 ==> c == e.0;
    if Trimmed(c) { TrimIdle(c); }
    if Trim(c) == c { assert before == "" && after == ""; }
  }

  lemma {:induction false} KeptLinesProper(entries: seq<Entry>)
    requires AllOneLine(entries)
    ensures ProperLines(AllKeptLines(entries))
  {
    if entries != [] {
      assert OneLine(entries[0]);
      if IsKept(entries[0].1) { KeptLineLoads(entries[0]); }
      assert AllOneLine(entries[1..]);
      KeptLinesProper(entries[1..]);
      ProperConcat(KeptLines(entries[0]), AllKeptLines(entries[1..]));
    }
  }

  ghost predicate ProperLines(ls: seq<string>) {
    NoHeader(ls) && NewlineFree(ls) && forall i :: 0 <= i < |ls| ==> ls[i] != ""
  }

  lemma ProperConcat(a: seq<string>, b: seq<string>)
    requires ProperLines(a) && ProperLines(b)
    ensures ProperLines(a + b)
  {
    hide IsSectionHeader;
  }

  ghost predicate Fresh(m: CopyFiles, entries: seq<Entry>) {
    && (forall i :: 0 <= i < |entries| ==> entries[i].0 !in m)
    && (forall i, j :: 0 <= i < j < |entries| ==> entries[i].0 != entries[j].0)
  }

  /** The map with the kept entries added. */
  function AddKept(m: CopyFiles, entries: seq<Entry>): (r: CopyFiles)
    decreases |entries|
  {
    if entries == [] then m
    else AddKept(if IsKept(entries[0].1) then m[entries[0].0 := entries[0].1] else m, entries[1..])
  }

  lemma FreshStep(m: CopyFiles, entries: seq<Entry>)
    requires Fresh(m, entries) && entries != []
    ensures Fresh(m, entries[1..]) && Fresh(m[entries[0].0 := entries[0].1], entries[1..])
  {
    assert forall i :: 0 <= i < |entries[1..]| ==> entries[1..][i] == entries[i+1];
  }

  ghost predicate AllCarried(entries: seq<Entry>) {
    forall i :: 0 <= i < |entries| ==> Carried(entries[i])
  }

  /** Loading the kept lines adds exactly the kept entries. */
  lemma {:induction false} LoadKept(m: CopyFiles, entries: seq<Entry>)
    requires AllOneLine(entries) && AllCarried(entries) && Fresh(m, entries)
    ensures LoadFrom(m, AllKeptLines(entries)) == AddKept(m, entries)
    decreases |entries|
  {
    if entries != [] {
      var e, rest := entries[0], entries[1..];
      assert OneLine(e) && AllOneLine(rest) && Carried(e) && AllCarried(rest);
      FreshStep(m, entries);
      hide OneLine, Carried, AllOneLine, AllCarried, LoadLine, LoadedFrom, Clean;
      if IsKept(e.1) {
        KeptLineLoads(e);
        CarriedExactly(e);
        LoadKept(m[e.0 := e.1], rest);
        assert AllKeptLines(entries)[0] == KeptLines(e)[0] && AllKeptLines(entries)[1..] == AllKeptLines(rest);
      } else {
        LoadKept(m, rest);
        assert AllKeptLines(entries) == AllKeptLines(rest);
      }
    }
  }

  lemma {:induction false} AddKeptMeaning(m: CopyFiles, entries: seq<Entry>, p: string)
    requires Fresh(m, entries)
    ensures p in m ==> p in AddKept(m, entries) && AddKept(m, entries)[p] == m[p]
    ensures forall i :: 0 <= i < |entries| && entries[i].0 == p && IsKept(entries[i].1) ==>
      p in AddKept(m, entries) && AddKept(m, entries)[p] == entries[i].1
    ensures p in AddKept(m, entries) && p !in m ==> exists i :: 0 <= i < |entries| && entries[i].0 == p && IsKept(entries[i].1)
    decreases |entries|
  {
    if entries != [] {
      var e, rest := entries[0], entries[1..];
      FreshStep(m, entries);
      var more := if IsKept(e.1) then m[e.0 := e.1] else m;
      AddKeptMeaning(more, rest, p);
      forall i | 0 <= i < |entries| && entries[i].0 == p && IsKept(entries[i].1)
        ensures p in AddKept(m, entries) && AddKept(m, entries)[p] == entries[i].1
      {
        if i > 0 { assert rest[i-1] == entries[i]; }
      }
      if p in AddKept(m, entries) && p !in more {
        var i :| 0 <= i < |rest| && rest[i].0 == p && IsKept(rest[i].1);
        assert entries[i+1] == rest[i];
      }
    }
  }

  /** The entries that survive: those to copy and the results, with their statuses. */
  function KeptFiles(m: CopyFiles): (r: CopyFiles) {
    map p | p in m && IsKept(m[p]) :: m[p]
  }

  lemma ListedLoads(m: CopyFiles, entries: seq<Entry>)
    requires ListsMap(m, entries) && AllOneLine(entries) && AllCarried(entries)
    ensures LoadFrom(map[], AllKeptLines(entries)) == KeptFiles(m)
  {
    LoadKept(map[], entries);
    var r := AddKept(map[], entries);
    forall p ensures p in r <==> p in KeptFiles(m)
      ensures p in r ==> r[p] == m[p]
    {
      AddKeptMeaning(map[], entries, p);
      if p in KeptFiles(m) {
        var i :| 0 <= i < |entries| && entries[i] == (p, m[p]);
      }
    }
  }

  /** Every line that the reader keeps comes from a kept entry. */
  lemma {:induction false} LineHasEntry(entries: seq<Entry>, k: nat) returns (i: nat)
    requires k < |AllKeptLines(entries)|
    ensures i < |entries| && IsKept(entries[i].1) && AllKeptLines(entries)[k] == KeptLines(entries[i])[0]
  {
    hide Clean;
    if k < |KeptLines(entries[0])| {
      i := 0;
    } else {
      var j := LineHasEntry(entries[1..], k - |KeptLines(entries[0])|);
      i := j + 1;
    }
  }

  lemma {:induction false} LoadedHasLine(m: CopyFiles, lines: seq<string>, p: string)
    ensures p in LoadFrom(m, lines) && p !in m ==>
      exists k :: 0 <= k < |lines| && LoadLine(lines[k]).Entry? && LoadLine(lines[k]).path == p
    decreases |lines|
  {
    hide LoadLine;
    if lines != [] {
      var l := LoadLine(lines[0]);
      var m' := if l.Entry? && l.path !in m then m[l.path := l.status] else m;
      LoadedHasLine(m', lines[1..], p);
      if p in LoadFrom(m', lines[1..]) && p !in m' {
        var k :| 0 <= k < |lines[1..]| && LoadLine(lines[1..][k]).Entry? && LoadLine(lines[1..][k]).path == p;
        assert lines[k+1] == lines[1..][k];
      }
    }
  }

  /** The longest kept path that cannot be carried; nothing loads as that path. */
  lemma {:induction false} LongestLost(entries: seq<Entry>, i: nat) returns (j: nat)
    requires i < |entries| && !Carried(entries[i])
    ensures j < |entries| && !Carried(entries[j])
    ensures forall k :: 0 <= k < |entries| && !Carried(entries[k]) ==> |entries[k].0| <= |entries[j].0|
    decreases LongestPath(entries) - |entries[i].0|
  {
    j := i;
    PathWithin(entries, i);
    if k :| 0 <= k < |entries| && !Carried(entries[k]) && |entries[k].0| > |entries[i].0| {
      PathWithin(entries, k);
      j := LongestLost(entries, k);
    }
  }

  function LongestPath(entries: seq<Entry>): (n: nat) {
    if entries == [] then 0
    else if |entries[0].0| > LongestPath(entries[1..]) then |entries[0].0| else LongestPath(entries[1..])
  }

  lemma {:induction false} PathWithin(entries: seq<Entry>, i: nat)
    requires i < |entries|
    ensures |entries[i].0| <= LongestPath(entries)
  {
    if i > 0 { PathWithin(entries[1..], i - 1); }
  }

  lemma LostIsLost(entries: seq<Entry>, j: nat)
    requires AllOneLine(entries) && j < |entries| && !Carried(entries[j])
    requires forall k :: 0 <= k < |entries| && !Carried(entries[k]) ==> |entries[k].0| <= |entries[j].0|
    requires forall a, b :: 0 <= a < b < |entries| ==> entries[a].0 != entries[b].0
    ensures entries[j].0 !in LoadFrom(map[], AllKeptLines(entries))
  {
    var p := entries[j].0;
    LoadedHasLine(map[], AllKeptLines(entries), p);
    hide LoadLine, Carried, LoadFrom, LoadedFrom, Clean;
    forall k | 0 <= k < |AllKeptLines(entries)| && LoadLine(AllKeptLines(entries)[k]).Entry?
      ensures LoadLine(AllKeptLines(entries)[k]).path != p
    {
      var i := LineHasEntry(entries, k);
      assert OneLine(entries[i]);
      KeptLineLoads(entries[i]);
      CarriedExactly(entries[i]);
      assert i != j ==> entries[i].0 != p;
    }
  }

  /** The round trip through save, prefixing, writing, reading and loading keeps exactly the
      files to copy and the results, if and only if their paths can be carried. */
  lemma SaveThenLoad(m: CopyFiles, entries: seq<Entry>)
    requires Arranges(m, entries)
    requires forall p :: p in m ==> '\n' !in p
    ensures var read := ReadFrom([], false, Lines(FileText(entries)));
      && read.Read? && HasName(read.sections, SECTION_NAME)
      && (LoadFrom(map[], Lines(SectionContent(read.sections, SECTION_NAME))) == KeptFiles(m) <==>
            forall p :: p in m ==> Carried((p, m[p])))
  {
    assert AllOneLine(entries);
    SaveIsCleaned(entries);
    KeptLinesProper(entries);
    var s := Section(SECTION_NAME, SaveText(entries));
    var t := Section(SECTION_NAME, Join(AllKeptLines(entries)));
    SaveReadsBack(s, t);
    LinesOfJoin(AllKeptLines(entries));
    assert [t][0].name == SECTION_NAME;
    hide ReadFrom, Lines, SaveText, FileText, Join, LoadFrom, AllKeptLines, Carried;
    CarriedDecides(m, entries);
  }

  lemma CarriedDecides(m: CopyFiles, entries: seq<Entry>)
    requires ListsMap(m, entries) && AllOneLine(entries)
    ensures LoadFrom(map[], AllKeptLines(entries)) == KeptFiles(m) <==> forall p :: p in m ==> Carried((p, m[p]))
  {
    hide LoadFrom, AllKeptLines;
    if forall p :: p in m ==> Carried((p, m[p])) {
      forall i | 0 <= i < |entries| ensures Carried(entries[i]) { assert entries[i] == (entries[i].0, m[entries[i].0]); }
      ListedLoads(m, entries);
    } else {
      var p :| p in m && !Carried((p, m[p]));
      var i :| 0 <= i < |entries| && entries[i] == (p, m[p]);
      var j := LongestLost(entries, i);
      LostIsLost(entries, j);
      assert entries[j].0 in KeptFiles(m);
    }
  }

  lemma SaveReadsBack(s: Section, t: Section)
    requires s.name == t.name == SECTION_NAME && NoHeader(Kept(Lines(s.content)))
    requires t.content == Join(Kept(Lines(s.content)))
    ensures ReadFrom([], false, Lines(Write(PREAMBLE, [s]))) == Read([t])
    ensures SectionContent([t], SECTION_NAME) == t.content
  {
    hide ReadFrom, Lines, Write, NoHeader, Kept, Join;
    assert Readable([s]);
    WriteThenRead(PREAMBLE, [s]);
    KeptSectionAt([s], 0);
    assert KeptSections([s]) == [t];
  }
}
