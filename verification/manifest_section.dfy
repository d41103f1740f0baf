/** The "copy" section of the manifest, saved and loaded (src/manifest_section.h:30-104),
    and the manifest file around it (src/tracer.h:253-293). */
module ManifestSections {
  import opened Text
  import opened Ordering
  import opened Paths
  import opened Manifests
  import opened ManifestFormats

  const SECTION_NAME := "copy"

  type Entry = (string, FileStatus)

  function StatusText(s: FileStatus): (r: string)
    ensures '\n' !in r
  {
    match s
    case Copy => "Copy"
    case Result => "Result file"
    case IgnoreDidNotExistBefore => "Ignore, did not exist before"
    case IgnoreNoLongerExist => "Ignore, no longer exists"
    case IgnoreNotAccessible => "Ignore, not accessible"
    case IgnoreDirectory => "Ignore, it is a directory"
  }

  const HEADER_TEXT := "The following files have not been resolved.\n"
                     + "# - ignores the file.\n"
                     + "C - marks the file to be copied into the image.\n"
                     + "R - marks the file as a result file.\n"

  function EntryText(e: Entry): (r: string) {
    match e.1
    case Copy => "C " + e.0 + "\n"
    case Result => "R " + e.0 + "\n"
    case IgnoreNoLongerExist => ""
    case _ => "# " + e.0 + " # " + StatusText(e.1) + "\n"
  }

  function EntriesText(entries: seq<Entry>): (r: string) {
    if entries == [] then "" else EntryText(entries[0]) + EntriesText(entries[1..])
  }

  function SaveText(entries: seq<Entry>): (r: string) {
    Prefixed(COMMENT_PREFIX, HEADER_TEXT, true) + EntriesText(entries)
  }

  function EntryKey(e: Entry): (r: string) { OrderKey(e.0) }

  /** `entries` lists the map, each path once. */
  ghost predicate ListsMap(m: CopyFiles, entries: seq<Entry>) {
    && (forall i :: 0 <= i < |entries| ==> entries[i].0 in m && m[entries[i].0] == entries[i].1)
    && (forall i, j :: 0 <= i < j < |entries| ==> entries[i].0 != entries[j].0)
    && (forall p :: p in m ==> (p, m[p]) in entries)
  }

  ghost predicate Arranges(m: CopyFiles, entries: seq<Entry>) {
    ListsMap(m, entries) && SortedBy(EntryKey, entries)
  }

  /** The map's entries in the order its hash table gives them. */
  method EntriesOf(m: CopyFiles) returns (entries: seq<Entry>)
    ensures ListsMap(m, entries)
  {
    entries := [];
    var rest := m.Keys;
    while rest != {}
      invariant rest <= m.Keys
      invariant forall i :: 0 <= i < |entries| ==> entries[i].0 in m && entries[i].0 !in rest && m[entries[i].0] == entries[i].1
      invariant forall i, j :: 0 <= i < j < |entries| ==> entries[i].0 != entries[j].0
      invariant forall p :: p in m && p !in rest ==> (p, m[p]) in entries
      decreases rest
    {
      var p :| p in rest;
      entries, rest := entries + [(p, m[p])], rest - {p};
    }
  }

  lemma RearrangedListsMap(m: CopyFiles, entries: seq<Entry>, sorted: seq<Entry>)
    requires ListsMap(m, entries) && multiset(sorted) == multiset(entries)
    ensures ListsMap(m, sorted)
  {
    assert forall i, j :: 0 <= i < j < |entries| ==> entries[i] != entries[j];
    PermutationDistinct(entries, sorted);
    SameElements(entries, sorted);
    forall i | 0 <= i < |sorted| ensures sorted[i].0 in m && m[sorted[i].0] == sorted[i].1 {
      var e := sorted[i];
      assert e in sorted;
      var k :| 0 <= k < |entries| && entries[k] == e;
    }
    forall i, j | 0 <= i < j < |sorted| ensures sorted[i].0 != sorted[j].0 {
      assert sorted[i] != sorted[j];
    }
  }

  /** CopyFilesManifestSection::save; false when there is nothing to save. */
  method Save(stream: string, m: CopyFiles) returns (saved: bool, r: string, ghost entries: seq<Entry>)
    ensures saved <==> m != map[]
    ensures saved ==> Arranges(m, entries) && r == stream + SaveText(entries)
    ensures !saved ==> r == stream
  {
    hide EntriesText, Prefixed, ListsMap, SortBy, SortedBy;
    if m == map[] { return false, stream, []; }
    r := WithPrefix(stream, COMMENT_PREFIX, HEADER_TEXT);
    var files := EntriesOf(m);
    var sortedFiles := SortBy(EntryKey, files);
    RearrangedListsMap(m, files, sortedFiles);
    SortBySorted(EntryKey, files);
    r := SaveEntries(r, sortedFiles);
    entries := sortedFiles;
    saved := true;
  }

  method SaveEntries(stream: string, sortedFiles: seq<Entry>) returns (r: string)
    ensures r == stream + EntriesText(sortedFiles)
  {
    r := stream;
    assert sortedFiles[0..] == sortedFiles;
    for i := 0 to |sortedFiles|
      invariant r + EntriesText(sortedFiles[i..]) == stream + EntriesText(sortedFiles)
    {
      assert sortedFiles[i..][0] == sortedFiles[i] && sortedFiles[i..][1..] == sortedFiles[i+1..];
      var path, status := sortedFiles[i].0, sortedFiles[i].1;
      EntryStep(r, sortedFiles[i], EntriesText(sortedFiles[i+1..]));
      match status {
        case Copy => r := r + "C " + path + "\n";
        case Result => r := r + "R " + path + "\n";
        case IgnoreNoLongerExist =>
        case _ => r := r + "# " + path + " # " + StatusText(status) + "\n";
      }
    }
  }

  lemma EntryStep(r: string, e: Entry, rest: string)
    ensures r + (EntryText(e) + rest) == (r + EntryText(e)) + rest
    ensures e.1 == Copy ==> r + EntryText(e) == r + "C " + e.0 + "\n"
    ensures e.1 == Result ==> r + EntryText(e) == r + "R " + e.0 + "\n"
    ensures e.1 == IgnoreNoLongerExist ==> r + EntryText(e) == r
    ensures e.1 != Copy && e.1 != Result && e.1 != IgnoreNoLongerExist ==>
      r + EntryText(e) == r + "# " + e.0 + " # " + StatusText(e.1) + "\n"
  {
  }

  // ----- Loading -----

  datatype Loaded = Skip | Entry(path: string, status: FileStatus)

  /** What one line of the section asks for. */
  function LoadLine(line: string): (r: Loaded) {
    if line == "" || (line[0] != 'C' && line[0] != 'R') then Skip
    else
      var status := if line[0] == 'C' then Copy else Result;
      var path := Trim(line[1..]);
      if path != "" && path[0] == '"' then
        if path[|path|-1] == '"' then Entry(if |path| == 1 then "" else path[1..|path|-1], status) else Skip
      else Entry(path, status)
  }

  /** The map after the lines; the first line for a path wins. */
  function LoadFrom(m: CopyFiles, lines: seq<string>): (r: CopyFiles)
    decreases |lines|
  {
    if lines == [] then m
    else
      var l := LoadLine(lines[0]);
      LoadFrom(if l.Entry? && l.path !in m then m[l.path := l.status] else m, lines[1..])
  }

  lemma {:induction false} LoadStep(m: CopyFiles, lines: seq<string>, i: nat)
    requires i < |lines|
    ensures var l := LoadLine(lines[i]);
      LoadFrom(m, lines[i..]) == LoadFrom(if l.Entry? && l.path !in m then m[l.path := l.status] else m, lines[i+1..])
  {
    hide LoadLine;
    assert lines[i..][0] == lines[i] && lines[i..][1..] == lines[i+1..];
  }

  /** CopyFilesManifestSection::load. */
  method Load(content: string, manifest: Manifest)
    modifies manifest`copyFiles
    ensures manifest.copyFiles == LoadFrom(map[], Lines(content))
  {
    manifest.copyFiles := map[];
    var lines := Lines(content);
    for i := 0 to |lines|
      invariant LoadFrom(manifest.copyFiles, lines[i..]) == LoadFrom(map[], lines)
    {
      LoadStep(manifest.copyFiles, lines, i);
      hide LoadFrom, Trim;
      var line := lines[i];
      var status: FileStatus;
      if line != "" && line[0] == 'C' {
        status := Copy;
      } else if line != "" && line[0] == 'R' {
        status := Result;
      } else {
        continue;
      }
      line := line[1..];
      line := StringTrim(line);
      if line != "" && line[0] == '"' {
        if line[|line|-1] == '"' {
          line := if |line| == 1 then "" else line[1..|line|-1];
        } else {
          continue;
        }
      }
      if line !in manifest.copyFiles {
        manifest.copyFiles := manifest.copyFiles[line := status];
      }
    }
  }

  /** The line asks for a path: its mark, and the path between white space, as it is or in quotes.
      A single quote sign stands for the empty path. */
  ghost predicate Asks(line: string, path: string, status: FileStatus) {
    && line != "" && ((line[0] == 'C' && status == Copy) || (line[0] == 'R' && status == Result))
    && exists text :: Surrounded(line[1..], text) && Spells(text, path)
  }

  ghost predicate Surrounded(s: string, text: string) {
    exists before, after :: AllSpace(before) && AllSpace(after) && Trimmed(text) && s == before + text + after
  }

  ghost predicate Spells(text: string, path: string) {
    if "\"" <= text then text == "\"" + path + "\"" || (text == "\"" && path == "") else text == path
  }

  lemma SurroundedIsTrimmed(s: string, text: string)
    ensures Surrounded(s, text) <==> Trim(s) == text
  {
    var before, after := TrimMeaning(s);
    hide TrimLeft, TrimRight;
    if b, a :| AllSpace(b) && AllSpace(a) && Trimmed(text) && s == b + text + a { TrimPadded(b, text, a); }
  }

  /** Which lines ask for which paths; all others are passed over. */
  lemma LoadLineExactly(line: string, path: string, status: FileStatus)
    ensures LoadLine(line) == Loaded.Entry(path, status) <==> Asks(line, path, status)
  {
    if line != "" {
      forall text ensures Surrounded(line[1..], text) <==> Trim(line[1..]) == text { SurroundedIsTrimmed(line[1..], text); }
      SpellsExactly(Trim(line[1..]), path);
      hide Trim, Surrounded, Spells;
    }
  }

  lemma SpellsExactly(text: string, path: string)
    ensures Spells(text, path) <==>
      if text != "" && text[0] == '"' then text[|text|-1] == '"' && path == (if |text| == 1 then "" else text[1..|text|-1])
      else path == text
  {
    if text == "\"" + path + "\"" { assert text[1..|text|-1] == path; }
    if |text| > 1 && text[0] == '"' && text[|text|-1] == '"' {
      assert text == "\"" + text[1..|text|-1] + "\"";
    }
  }

  ghost predicate AskedBefore(lines: seq<string>, path: string, i: nat)
    requires i <= |lines|
  {
    exists j, s :: 0 <= j < i && Asks(lines[j], path, s)
  }

  /** Loading adds the paths that some line asks for, each as the first such line says. */
  lemma {:induction false} LoadKeepsFirst(m: CopyFiles, lines: seq<string>, path: string)
    ensures path in LoadFrom(m, lines) <==> path in m || AskedBefore(lines, path, |lines|)
    ensures path in m ==> path in LoadFrom(m, lines) && LoadFrom(m, lines)[path] == m[path]
    ensures forall i, s :: 0 <= i < |lines| && path !in m && Asks(lines[i], path, s) && !AskedBefore(lines, path, i) ==>
      path in LoadFrom(m, lines) && LoadFrom(m, lines)[path] == s
    decreases |lines|
  {
    hide Asks, LoadLine;
    if lines != [] {
      var l, more := LoadLine(lines[0]), lines[1..];
      var m' := if l.Entry? && l.path !in m then m[l.path := l.status] else m;
      forall s ensures l == Loaded.Entry(path, s) <==> Asks(lines[0], path, s) { LoadLineExactly(lines[0], path, s); }
      LoadKeepsFirst(m', more, path);
      assert forall i :: 1 <= i < |lines| ==> lines[i] == more[i-1];
      if path !in m' {
        forall i: nat ensures i <= |more| ==> (AskedBefore(lines, path, i + 1) <==> AskedBefore(more, path, i)) {
          AskedOneLater(lines, path, i);
        }
      }
      if j, s :| 0 <= j < |lines| && Asks(lines[j], path, s) && j > 0 { assert Asks(more[j-1], path, s); }
    }
  }

  lemma AskedOneLater(lines: seq<string>, path: string, i: nat)
    requires lines != [] && forall s :: !Asks(lines[0], path, s)
    ensures i <= |lines[1..]| ==> (AskedBefore(lines, path, i + 1) <==> AskedBefore(lines[1..], path, i))
  {
    hide Asks;
    if i <= |lines[1..]| {
      if j, s :| 0 <= j < i && Asks(lines[1..][j], path, s) { assert Asks(lines[j+1], path, s); }
      if j, s :| 0 <= j < i + 1 && Asks(lines[j], path, s) { assert Asks(lines[1..][j-1], path, s); }
    }
  }

  // ----- The manifest file -----

  const PREAMBLE := "This is the manifest file generated by R4R.\n"
                  + "You can update its content by either adding or "
                  + "removing/commenting lines in the corresponding sections."

  function FileText(entries: seq<Entry>): (r: string) {
    Write(PREAMBLE, [Section(SECTION_NAME, SaveText(entries))])
  }

  lemma SectionNameIsValid()
    ensures IsValidSectionName(SECTION_NAME)
  {
  }

  /** The text written to the manifest file, none when there is nothing to decide. */
  method SaveManifest(stream: string, manifest: Manifest) returns (any: bool, r: string, ghost entries: seq<Entry>)
    ensures any <==> manifest.copyFiles != map[]
    ensures any ==> Arranges(manifest.copyFiles, entries) && r == stream + FileText(entries)
    ensures !any ==> r == stream
  {
    hide Write, SaveText, Arranges, IsValidSectionName;
    SectionNameIsValid();
    var format := new ManifestFormat();
    format.SetPreamble(PREAMBLE);
    var content;
    any, content, entries := Save("", manifest.copyFiles);
    if !any { return any, stream, entries; }
    assert content == SaveText(entries);
    var section := Section(SECTION_NAME, content);
    var added := format.AddSection(section);
    assert format.sections == [section];
    r := format.WriteTo(stream);
  }

  datatype LoadResult = LoadOk | LoadFailed(why: ReadResult)

  /** The content of the first section of that name; empty when there is none. */
  function SectionContent(sections: seq<Section>, name: string): (r: string) {
    if sections == [] then ""
    else if sections[0].name == name then sections[0].content
    else SectionContent(sections[1..], name)
  }

  method LoadManifest(text: string, manifest: Manifest) returns (r: LoadResult)
    modifies manifest`copyFiles
    ensures var read := ReadFrom([], false, Lines(text));
      && (r.LoadOk? <==> read.Read?)
      && manifest.copyFiles ==
           if read.Read? && HasName(read.sections, SECTION_NAME)
           then LoadFrom(map[], Lines(SectionContent(read.sections, SECTION_NAME)))
           else old(manifest.copyFiles)
  {
    var format := new ManifestFormat();
    var read := format.ReadLines(text);
    if !read.Read? { return LoadFailed(read); }
    var index := format.GetSection(SECTION_NAME);
    if index != -1 {
      FirstSection(format.sections, SECTION_NAME, index);
      Load(format.sections[index].content, manifest);
    }
    return LoadOk;
  }

  lemma {:induction false} FirstSection(sections: seq<Section>, name: string, i: nat)
    requires i < |sections| && sections[i].name == name
    requires forall j :: 0 <= j < i ==> sections[j].name != name
    ensures SectionContent(sections, name) == sections[i].content
  {
    if i > 0 { FirstSection(sections[1..], name, i - 1); }
  }
}
