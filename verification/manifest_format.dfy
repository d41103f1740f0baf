/** The manifest text format: the line-prefixing stream filter (src/util_io.h:33-65), the
    writer, the reader and the section rules (src/manifest_format.h). */
module ManifestFormats {
  import opened Text

  const COMMENT := '#'
  const COMMENT_PREFIX := "# "
  const CONTENT_INDENT := "  "

  datatype Section = Section(name: string, content: string)

  datatype ReadResult =
    | Read(sections: seq<Section>)
    | ContentBeforeHeader(line: string)
    | DuplicateSection(name: string)

  datatype AddResult = Added | InvalidName | AlreadyExists

  predicate NameChar(c: char) { IsAlpha(c) || IsDigit(c) || c == '_' }

  predicate IsValidSectionName(name: string) {
    name != "" && (IsAlpha(name[0]) || name[0] == '_') && forall i :: 0 <= i < |name| ==> NameChar(name[i])
  }

  predicate IsSectionHeader(line: string) {
    line != "" && line[|line|-1] == ':' && IsValidSectionName(line[..|line|-1])
  }

  // ----- Prefixing -----

  /** `s` with `prefix` before the first character of every line; `atNl` says whether the
      first character of `s` starts one. */
  function Prefixed(prefix: string, s: string, atNl: bool): string {
    if s == "" then ""
    else (if atNl then prefix else "") + [s[0]] + Prefixed(prefix, s[1..], s[0] == '\n')
  }

  /** The stream filter, writing to a buffer. */
  class LinePrefixingFilter {
    const prefix: string
    var atNl: bool
    var target: string

    constructor (prefix: string, target: string)
      ensures this.prefix == prefix && atNl && this.target == target
    {
      this.prefix, atNl, this.target := prefix, true, target;
    }

    method Put(c: char)
      modifies this
      ensures target == old(target) + (if old(atNl) then prefix else "") + [c]
      ensures atNl == (c == '\n')
    {
      if atNl {
        target := target + prefix;
        atNl := false;
      }
      target := target + [c];
      if c == '\n' {
        atNl := true;
      }
    }
  }

  /** with_prefixed_ostream around the writing of one text. */
  method WithPrefix(dst: string, prefix: string, text: string) returns (r: string)
    ensures r == dst + Prefixed(prefix, text, true)
  {
    var filter := new LinePrefixingFilter(prefix, dst);
    assert text[0..] == text;
    for i := 0 to |text|
      invariant fresh(filter) && filter.prefix == prefix
      invariant filter.target + Prefixed(prefix, text[i..], filter.atNl) == dst + Prefixed(prefix, text, true)
    {
      assert text[i..][1..] == text[i+1..];
      PutStep(filter.target, prefix, text[i..], filter.atNl);
      filter.Put(text[i]);
    }
    assert text[|text|..] == "";
    r := filter.target;
  }

  lemma PutStep(out: string, prefix: string, s: string, atNl: bool)
    requires s != ""
    ensures out + Prefixed(prefix, s, atNl)
         == (out + (if atNl then prefix else "") + [s[0]]) + Prefixed(prefix, s[1..], s[0] == '\n')
  {
  }

  function MapPrefix(prefix: string, ls: seq<string>): (r: seq<string>)
    ensures |r| == |ls|
  {
    if ls == [] then [] else [prefix + ls[0]] + MapPrefix(prefix, ls[1..])
  }

  lemma {:induction false} MapPrefixNewlineFree(prefix: string, ls: seq<string>)
    requires NewlineFree(ls) && '\n' !in prefix
    ensures NewlineFree(MapPrefix(prefix, ls))
  {
    if ls != [] { MapPrefixNewlineFree(prefix, ls[1..]); }
  }

  predicate EndsOpen(s: string) { s == "" || s[|s|-1] == '\n' }

  lemma {:induction false} PrefixedLine(prefix: string, l: string, rest: string, atNl: bool)
    requires '\n' !in l
    ensures Prefixed(prefix, l + "\n" + rest, atNl) == (if atNl then prefix else "") + l + "\n" + Prefixed(prefix, rest, true)
  {
    if l == "" {
      assert (l + "\n" + rest)[1..] == rest;
    } else {
      assert (l + "\n" + rest)[1..] == l[1..] + "\n" + rest;
      PrefixedLine(prefix, l[1..], rest, false);
      assert l == [l[0]] + l[1..];
    }
  }

  lemma {:induction false} PrefixedOpenLine(prefix: string, l: string, atNl: bool)
    requires '\n' !in l && l != ""
    ensures Prefixed(prefix, l, atNl) == (if atNl then prefix else "") + l
  {
    assert l == [l[0]] + l[1..];
    assert l[0] != '\n';
    if l[1..] != "" { PrefixedOpenLine(prefix, l[1..], false); }
  }

  /** Prefixing acts on lines: a prefixed text closed by a newline has the lines of the text,
      each prefixed, and one empty line more when the text was already closed. */
  lemma {:induction false} PrefixedLines(prefix: string, s: string)
    ensures Prefixed(prefix, s, true) + "\n" == Unlines(MapPrefix(prefix, Lines(s))) + (if EndsOpen(s) then "\n" else "")
    decreases |s|
  {
    if s != "" {
      var i := IndexOf(s, '\n');
      if i == |s| {
        PrefixedOpenLine(prefix, s, true);
        assert Lines(s) == [s];
        assert MapPrefix(prefix, [s]) == [prefix + s];
        assert Unlines([prefix + s]) == prefix + s + "\n" + "";
      } else {
        var l, rest := s[..i], s[i+1..];
        assert s == l + "\n" + rest;
        PrefixedLines(prefix, rest);
        PrefixedLinesStep(prefix, l, rest);
      }
    }
  }

  lemma PrefixedLinesStep(prefix: string, l: string, rest: string)
    requires '\n' !in l
    requires Prefixed(prefix, rest, true) + "\n"
          == Unlines(MapPrefix(prefix, Lines(rest))) + (if EndsOpen(rest) then "\n" else "")
    ensures var s := l + "\n" + rest;
      Prefixed(prefix, s, true) + "\n" == Unlines(MapPrefix(prefix, Lines(s))) + (if EndsOpen(s) then "\n" else "")
  {
    hide Prefixed, Lines, Unlines;
    var s := l + "\n" + rest;
    PrefixedLine(prefix, l, rest, true);
    LinesStep(l, rest);
    assert MapPrefix(prefix, [l] + Lines(rest)) == [prefix + l] + MapPrefix(prefix, Lines(rest));
    assert EndsOpen(s) == EndsOpen(rest);
    UnlinesCons(prefix + l, MapPrefix(prefix, Lines(rest)));
    Swap(prefix + l + "\n", Prefixed(prefix, rest, true), "\n",
         Unlines(MapPrefix(prefix, Lines(rest))), if EndsOpen(rest) then "\n" else "");
  }

  lemma Swap(a: string, p: string, n: string, u: string, t: string)
    requires p + n == u + t
    ensures a + p + n == a + u + t
  {
    assert a + p + n == a + (p + n);
    assert a + u + t == a + (u + t);
  }

  lemma UnlinesCons(l: string, ls: seq<string>)
    ensures Unlines([l] + ls) == l + "\n" + Unlines(ls)
  {
    assert ([l] + ls)[1..] == ls;
  }

  // ----- Writing -----

  function WriteSections(sections: seq<Section>): (r: string) {
    if sections == [] then ""
    else sections[0].name + ":\n" + Prefixed(CONTENT_INDENT, sections[0].content, true) + "\n\n" + WriteSections(sections[1..])
  }

  function WritePreamble(preamble: string): (r: string) {
    if preamble == "" then "" else Prefixed(COMMENT_PREFIX, preamble, true) + "\n\n"
  }

  function Write(preamble: string, sections: seq<Section>): (r: string) {
    WritePreamble(preamble) + WriteSections(sections)
  }

  /** The empty lines that close a prefixed text. */
  function Closing(s: string): (r: seq<string>) {
    if EndsOpen(s) then ["", ""] else [""]
  }

  /** The written text, line by line. */
  function SectionLines(sections: seq<Section>): (r: seq<string>) {
    if sections == [] then []
    else [sections[0].name + ":"] + (MapPrefix(CONTENT_INDENT, Lines(sections[0].content)) + Closing(sections[0].content))
         + SectionLines(sections[1..])
  }

  function PreambleLines(preamble: string): (r: seq<string>) {
    if preamble == "" then [] else MapPrefix(COMMENT_PREFIX, Lines(preamble)) + Closing(preamble)
  }

  lemma PrefixedClosed(prefix: string, s: string)
    ensures Prefixed(prefix, s, true) + "\n\n" == Unlines(MapPrefix(prefix, Lines(s)) + Closing(s))
  {
    PrefixedLines(prefix, s);
    UnlinesConcat(MapPrefix(prefix, Lines(s)), Closing(s));
    BlankLines();
    var p, u := Prefixed(prefix, s, true), Unlines(MapPrefix(prefix, Lines(s)));
    assert p + "\n\n" == (p + "\n") + "\n";
    if EndsOpen(s) {
      assert (u + "\n") + "\n" == u + "\n\n";
    }
  }

  lemma BlankLines()
    ensures Unlines([""]) == "\n" && Unlines(["", ""]) == "\n\n"
  {
    UnlinesCons("", []);
    UnlinesCons("", [""]);
    assert [""] == [""] + [] && ["", ""] == [""] + [""];
  }

  lemma {:induction false} WriteSectionsIsLines(sections: seq<Section>)
    ensures WriteSections(sections) == Unlines(SectionLines(sections))
  {
    if sections != [] {
      var s := sections[0];
      var body := MapPrefix(CONTENT_INDENT, Lines(s.content)) + Closing(s.content);
      var rest := SectionLines(sections[1..]);
      WriteSectionsIsLines(sections[1..]);
      PrefixedClosed(CONTENT_INDENT, s.content);
      UnlinesConcat([s.name + ":"] + body, rest);
      UnlinesCons(s.name + ":", body);
      Glue(s.name, Prefixed(CONTENT_INDENT, s.content, true), Unlines(rest));
    }
  }

  lemma Glue(name: string, body: string, rest: string)
    ensures name + ":\n" + body + "\n\n" + rest == (name + ":") + "\n" + (body + "\n\n") + rest
  {
    assert name + ":\n" == (name + ":") + "\n";
  }

  lemma {:induction false} SectionLinesNewlineFree(sections: seq<Section>)
    requires forall i :: 0 <= i < |sections| ==> '\n' !in sections[i].name
    ensures NewlineFree(SectionLines(sections))
  {
    if sections != [] {
      SectionLinesNewlineFree(sections[1..]);
      MapPrefixNewlineFree(CONTENT_INDENT, Lines(sections[0].content));
    }
  }

  lemma PreambleIsLines(preamble: string)
    ensures WritePreamble(preamble) == Unlines(PreambleLines(preamble))
    ensures NewlineFree(PreambleLines(preamble))
  {
    PrefixedClosed(COMMENT_PREFIX, preamble);
    MapPrefixNewlineFree(COMMENT_PREFIX, Lines(preamble));
  }

  /** The reader sees exactly the lines the writer meant. */
  lemma LinesOfWrite(preamble: string, sections: seq<Section>)
    requires forall i :: 0 <= i < |sections| ==> IsValidSectionName(sections[i].name)
    ensures Lines(Write(preamble, sections)) == PreambleLines(preamble) + SectionLines(sections)
  {
    hide IsValidSectionName, WritePreamble, WriteSections, PreambleLines, SectionLines, Lines, Unlines;
    forall i | 0 <= i < |sections| ensures '\n' !in sections[i].name {
      ValidNameIsPlain(sections[i].name);
    }
    WriteSectionsIsLines(sections);
    SectionLinesNewlineFree(sections);
    PreambleIsLines(preamble);
    UnlinesConcat(PreambleLines(preamble), SectionLines(sections));
    LinesOfUnlines(PreambleLines(preamble) + SectionLines(sections));
  }

  lemma ValidNameIsPlain(name: string)
    requires IsValidSectionName(name)
    ensures '\n' !in name && COMMENT !in name && Trimmed(name + ":")
  {
    forall i | 0 <= i < |name| ensures name[i] != '\n' && name[i] != COMMENT { assert NameChar(name[i]); }
    assert NameChar(name[0]);
  }

  // ----- Reading -----

  function CutComment(line: string): (r: string) { line[..IndexOf(line, COMMENT)] }

  /** A line without its comment and outer white space. */
  function Clean(line: string): (r: string) { Trim(CutComment(line)) }

  predicate HasName(sections: seq<Section>, name: string) {
    exists i :: 0 <= i < |sections| && sections[i].name == name
  }

  function AppendLine(content: string, line: string): (r: string) {
    (if content == "" then "" else content + "\n") + line
  }

  function AppendToLast(sections: seq<Section>, line: string): (r: seq<Section>)
    requires sections != []
  {
    var last := sections[|sections|-1];
    sections[..|sections|-1] + [Section(last.name, AppendLine(last.content, line))]
  }

  /** Reads the lines on top of what has been read; `open` says whether a section header has
      been met. */
  function ReadFrom(sections: seq<Section>, open: bool, lines: seq<string>): (r: ReadResult)
    requires open ==> sections != []
    decreases |lines|
  {
    if lines == [] then Read(sections)
    else
      var line := Clean(lines[0]);
      if line == "" then ReadFrom(sections, open, lines[1..])
      else if IsSectionHeader(line) then
        var name := line[..|line|-1];
        if HasName(sections, name) then DuplicateSection(name)
        else ReadFrom(sections + [Section(name, "")], true, lines[1..])
      else if !open then ContentBeforeHeader(line)
      else ReadFrom(AppendToLast(sections, line), true, lines[1..])
  }

  class ManifestFormat {
    var preamble: string
    var sections: seq<Section>

    constructor ()
      ensures preamble == "" && sections == []
    {
      preamble, sections := "", [];
    }

    method SetPreamble(preamble: string)
      modifies this`preamble
      ensures this.preamble == preamble
    {
      this.preamble := preamble;
    }

    /** The first section of that name. */
    method GetSection(name: string) returns (index: int)
      ensures index == -1 <==> !HasName(sections, name)
      ensures index != -1 ==> 0 <= index < |sections| && sections[index].name == name
      ensures forall j :: 0 <= j < index ==> sections[j].name != name
    {
      for i := 0 to |sections|
        invariant forall j :: 0 <= j < i ==> sections[j].name != name
      {
        if sections[i].name == name { return i; }
      }
      return -1;
    }

    method AddSection(section: Section) returns (r: AddResult)
      modifies this`sections
      ensures r.InvalidName? <==> !IsValidSectionName(section.name)
      ensures r.AlreadyExists? <==> IsValidSectionName(section.name) && HasName(old(sections), section.name)
      ensures sections == if r.Added? then old(sections) + [section] else old(sections)
    {
      if !IsValidSectionName(section.name) { return InvalidName; }
      var found := GetSection(section.name);
      if found != -1 { return AlreadyExists; }
      sections := sections + [section];
      return Added;
    }

    method WriteTo(dst: string) returns (r: string)
      ensures r == dst + Write(preamble, sections)
    {
      r := dst;
      if preamble != "" {
        r := WithPrefix(r, COMMENT_PREFIX, preamble);
        r := r + "\n\n";
      }
      assert r == dst + WritePreamble(preamble);
      assert sections[0..] == sections;
      for i := 0 to |sections|
        invariant r + WriteSections(sections[i..]) == dst + Write(preamble, sections)
      {
        assert sections[i..][0] == sections[i] && sections[i..][1..] == sections[i+1..];
        ghost var before := r;
        r := r + sections[i].name + ":" + "\n";
        r := WithPrefix(r, CONTENT_INDENT, sections[i].content);
        r := r + "\n\n";
        WriteStep(before, sections[i], WriteSections(sections[i+1..]));
      }
    }

    /** operator>>: a loop over the lines of the stream. */
    method ReadLines(text: string) returns (r: ReadResult)
      modifies this`sections
      ensures r == ReadFrom(old(sections), false, Lines(text))
      ensures r.Read? ==> sections == r.sections
    {
      var lines := Lines(text);
      var open := false;
      ghost var all := ReadFrom(sections, false, lines);
      for i := 0 to |lines|
        invariant open ==> sections != []
        invariant ReadFrom(sections, open, lines[i..]) == all
      {
        assert lines[i..][0] == lines[i] && lines[i..][1..] == lines[i+1..];
        var line := lines[i][..IndexOf(lines[i], COMMENT)];
        line := StringTrim(line);
        if line != "" {
          if IsSectionHeader(line) {
            var name := line[..|line|-1];
            var added := AddSection(Section(name, ""));
            if !added.Added? { return DuplicateSection(name); }
            open := true;
          } else {
            if !open { return ContentBeforeHeader(line); }
            var last := sections[|sections|-1];
            var content := last.content;
            if content != "" { content := content + "\n"; }
            sections := sections[..|sections|-1] + [Section(last.name, content + line)];
          }
        }
      }
      return Read(sections);
    }
  }

  lemma WriteStep(before: string, s: Section, rest: string)
    ensures (before + s.name + ":" + "\n" + Prefixed(CONTENT_INDENT, s.content, true) + "\n\n") + rest
         == before + (s.name + ":\n" + Prefixed(CONTENT_INDENT, s.content, true) + "\n\n" + rest)
  {
    assert ":" + "\n" == ":\n";
  }

  // ----- What reading makes of written text -----

  /** What is left of some lines after cleaning, in order. */
  function Kept(lines: seq<string>): (r: seq<string>) {
    if lines == [] then []
    else (if Clean(lines[0]) == "" then [] else [Clean(lines[0])]) + Kept(lines[1..])
  }

  ghost predicate NoHeader(ls: seq<string>) {
    forall i :: 0 <= i < |ls| ==> !IsSectionHeader(ls[i])
  }

  ghost predicate UniqueNames(sections: seq<Section>) {
    forall i, j :: 0 <= i < j < |sections| ==> sections[i].name != sections[j].name
  }

  /** Each section with the lines that survive cleaning. */
  function KeptSections(sections: seq<Section>): (r: seq<Section>)
    ensures |r| == |sections|
  {
    if sections == [] then []
    else [Section(sections[0].name, Join(Kept(Lines(sections[0].content))))] + KeptSections(sections[1..])
  }

  lemma {:induction false} KeptSectionAt(sections: seq<Section>, i: nat)
    requires i < |sections|
    ensures KeptSections(sections)[i] == Section(sections[i].name, Join(Kept(Lines(sections[i].content))))
  {
    if i > 0 { KeptSectionAt(sections[1..], i - 1); }
  }

  lemma CommentLineIsDropped(l: string)
    ensures Clean(COMMENT_PREFIX + l) == ""
  {
    assert (COMMENT_PREFIX + l)[0] == COMMENT;
    assert IndexOf(COMMENT_PREFIX + l, COMMENT) == 0;
  }

  lemma IndentIsDropped(l: string)
    ensures Clean(CONTENT_INDENT + l) == Clean(l)
  {
    IndentedCut(l);
    IndentedTrim(CutComment(l));
  }

  lemma {:induction false} OnePlainCut(c: char, l: string)
    requires c != COMMENT
    ensures CutComment([c] + l) == [c] + CutComment(l)
  {
    IndexOfCons(c, l, COMMENT);
    TakeCons(c, l, IndexOf(l, COMMENT));
  }

  lemma TakeCons(c: char, l: string, n: nat)
    requires n <= |l|
    ensures ([c] + l)[..n+1] == [c] + l[..n]
  {
  }

  /** Two characters before a comment do not move the cut. */
  lemma {:induction false} TwoPlainCut(c: char, l: string)
    requires c != COMMENT
    ensures CutComment([c] + " " + l) == [c] + " " + CutComment(l)
  {
    OnePlainCut(' ', l);
    OnePlainCut(c, " " + l);
    hide CutComment;
    assert [c] + " " + l == [c] + (" " + l);
    assert [c] + " " + CutComment(l) == [c] + (" " + CutComment(l));
  }

  lemma IndentedCut(l: string)
    ensures CutComment(CONTENT_INDENT + l) == CONTENT_INDENT + CutComment(l)
  {
    TwoPlainCut(' ', l);
    assert CONTENT_INDENT == [' '] + " ";
  }

  lemma IndentedTrim(s: string)
    ensures Trim(CONTENT_INDENT + s) == Trim(s)
  {
    hide TrimLeft, TrimRight;
    var before, after := TrimMeaning(s);
    TrimPadded(CONTENT_INDENT + before, Trim(s), after);
    assert CONTENT_INDENT + (before + Trim(s) + after) == (CONTENT_INDENT + before) + Trim(s) + after;
  }

  lemma BlankIsDropped()
    ensures Clean("") == ""
  {
  }

  /** Comment lines and empty lines change nothing. */
  lemma {:induction false} ReadSkips(sections: seq<Section>, open: bool, skipped: seq<string>, rest: seq<string>)
    requires open ==> sections != []
    requires forall i :: 0 <= i < |skipped| ==> Clean(skipped[i]) == ""
    ensures ReadFrom(sections, open, skipped + rest) == ReadFrom(sections, open, rest)
    decreases |skipped|
  {
    if skipped == [] {
      assert skipped + rest == rest;
    } else {
      assert (skipped + rest)[0] == skipped[0] && (skipped + rest)[1..] == skipped[1..] + rest;
      ReadSkips(sections, open, skipped[1..], rest);
    }
  }

  /** Content lines under a header end up, cleaned, in the section it opened. */
  lemma {:induction false} ReadContent(done: seq<Section>, name: string, got: seq<string>, lines: seq<string>, rest: seq<string>)
    requires NoHeader(Kept(lines)) && forall i :: 0 <= i < |got| ==> got[i] != ""
    ensures ReadFrom(done + [Section(name, Join(got))], true, MapPrefix(CONTENT_INDENT, lines) + rest)
         == ReadFrom(done + [Section(name, Join(got + Kept(lines)))], true, rest)
    decreases |lines|
  {
    var all := MapPrefix(CONTENT_INDENT, lines) + rest;
    if lines == [] {
      assert all == rest && got + [] == got;
    } else {
      var line, more := Clean(lines[0]), lines[1..];
      KeptHead(lines);
      IndentIsDropped(lines[0]);
      assert all[0] == CONTENT_INDENT + lines[0] && all[1..] == MapPrefix(CONTENT_INDENT, more) + rest;
      hide Kept, MapPrefix, Join, Clean, IsSectionHeader, NoHeader;
      if line == "" {
        ReadContent(done, name, got, more, rest);
      } else {
        JoinSnoc(got, line);
        LastGrows(done, name, got, line);
        ReadContent(done, name, got + [line], more, rest);
        OneByOne(got, line, Kept(more));
      }
    }
  }

  lemma LastGrows(done: seq<Section>, name: string, got: seq<string>, line: string)
    requires Join(got + [line]) == AppendLine(Join(got), line)
    ensures AppendToLast(done + [Section(name, Join(got))], line) == done + [Section(name, Join(got + [line]))]
  {
    hide Join, AppendLine;
  }

  lemma OneByOne(got: seq<string>, line: string, more: seq<string>)
    ensures got + [line] + more == got + ([line] + more)
  {
  }

  lemma KeptHead(lines: seq<string>)
    requires lines != []
    ensures Kept(lines) == (if Clean(lines[0]) == "" then [] else [Clean(lines[0])]) + Kept(lines[1..])
    ensures Clean(lines[0]) == "" ==> Kept(lines) == Kept(lines[1..])
    ensures NoHeader(Kept(lines)) ==> NoHeader(Kept(lines[1..])) && (Clean(lines[0]) != "" ==> !IsSectionHeader(Clean(lines[0])))
  {
    hide Clean, IsSectionHeader;
    var more := Kept(lines[1..]);
    assert Clean(lines[0]) != "" ==> forall i :: 0 <= i < |more| ==> more[i] == Kept(lines)[i+1];
  }

  lemma ReadSection(done: seq<Section>, open: bool, s: Section, rest: seq<string>)
    requires open ==> done != []
    requires IsValidSectionName(s.name) && !HasName(done, s.name) && NoHeader(Kept(Lines(s.content)))
    ensures ReadFrom(done, open, [s.name + ":"] + (MapPrefix(CONTENT_INDENT, Lines(s.content)) + Closing(s.content)) + rest)
         == ReadFrom(done + [Section(s.name, Join(Kept(Lines(s.content))))], true, rest)
  {
    var header, lines := s.name + ":", Lines(s.content);
    var content := MapPrefix(CONTENT_INDENT, lines);
    var tail := Closing(s.content) + rest;
    ValidNameIsPlain(s.name);
    HeaderIsRead(s.name);
    assert Join([]) == "";
    BlankIsDropped();
    hide Clean, IsSectionHeader, Join, MapPrefix, Kept, Lines, NoHeader, IsValidSectionName, HasName;
    HeaderOpens(done, open, s.name, content + tail);
    ReadContent(done, s.name, [], lines, tail);
    assert [] + Kept(lines) == Kept(lines);
    ReadSkips(done + [Section(s.name, Join(Kept(lines)))], true, Closing(s.content), rest);
    HeaderFirst(header, content, Closing(s.content), rest);
  }

  lemma HeaderFirst(header: string, content: seq<string>, closing: seq<string>, rest: seq<string>)
    ensures [header] + (content + closing) + rest == [header] + (content + (closing + rest))
  {
  }

  lemma HeaderOpens(done: seq<Section>, open: bool, name: string, rest: seq<string>)
    requires open ==> done != []
    requires Clean(name + ":") == name + ":" && IsSectionHeader(name + ":") && !HasName(done, name)
    ensures ReadFrom(done, open, [name + ":"] + rest) == ReadFrom(done + [Section(name, "")], true, rest)
  {
    var all := [name + ":"] + rest;
    hide Clean, IsSectionHeader, HasName;
    assert all[0] == name + ":" && all[1..] == rest;
    assert (name + ":")[..|name + ":"|-1] == name;
  }

  lemma HeaderIsRead(name: string)
    requires IsValidSectionName(name)
    ensures Clean(name + ":") == name + ":" && IsSectionHeader(name + ":")
    ensures (name + ":")[..|name + ":"|-1] == name
  {
    ValidNameIsPlain(name);
    var line := name + ":";
    assert COMMENT !in line;
    assert line[..|line|] == line;
    TrimIdle(line);
    assert line[..|line|-1] == name;
  }

  /** Sections that the reader will find again: proper names, and no content line that
      could be taken for a header. */
  ghost predicate Readable(sections: seq<Section>) {
    forall i :: 0 <= i < |sections| ==>
      IsValidSectionName(sections[i].name) && NoHeader(Kept(Lines(sections[i].content)))
  }

  lemma SectionReplaced(done: seq<Section>, s: Section, t: Section, rest: seq<Section>)
    requires UniqueNames(done + ([s] + rest)) && s.name == t.name
    ensures UniqueNames((done + [t]) + rest) && !HasName(done, s.name)
  {
    var a, b := done + ([s] + rest), (done + [t]) + rest;
    assert forall i :: 0 <= i < |b| ==> b[i].name == a[i].name;
    assert a[|done|] == s;
    forall i | 0 <= i < |done| ensures done[i].name != s.name { assert a[i] == done[i]; }
  }

  lemma OneMoreSection(done: seq<Section>, t: Section, more: seq<Section>)
    ensures (done + [t]) + more == done + ([t] + more)
  {
  }

  lemma {:induction false} ReadSections(done: seq<Section>, open: bool, sections: seq<Section>)
    requires open ==> done != []
    requires UniqueNames(done + sections) && Readable(sections)
    ensures ReadFrom(done, open, SectionLines(sections)) == Read(done + KeptSections(sections))
    decreases |sections|
  {
    hide IsValidSectionName, UniqueNames, HasName, NoHeader, Kept, Lines, Join, Closing, MapPrefix;
    if sections == [] {
      assert done + [] == done;
    } else {
      var s, rest := sections[0], sections[1..];
      var t := Section(s.name, Join(Kept(Lines(s.content))));
      assert sections == [s] + rest;
      SectionReplaced(done, s, t, rest);
      ReadSection(done, open, s, SectionLines(rest));
      ReadSections(done + [t], true, rest);
      OneMoreSection(done, t, KeptSections(rest));
    }
  }

  lemma {:induction false} PrefixedAreComments(ls: seq<string>)
    ensures forall i :: 0 <= i < |ls| ==> Clean(MapPrefix(COMMENT_PREFIX, ls)[i]) == ""
  {
    if ls != [] {
      CommentLineIsDropped(ls[0]);
      PrefixedAreComments(ls[1..]);
    }
  }

  /** Writing then reading: every section comes back, in order and under its name, with its
      content cleaned line by line; the preamble leaves no trace. */
  lemma WriteThenRead(preamble: string, sections: seq<Section>)
    requires UniqueNames(sections) && Readable(sections)
    ensures ReadFrom([], false, Lines(Write(preamble, sections))) == Read(KeptSections(sections))
  {
    ReadableNames(sections);
    hide *;
    LinesOfWrite(preamble, sections);
    PreambleIsDropped(preamble);
    ReadSkips([], false, PreambleLines(preamble), SectionLines(sections));
    assert [] + sections == sections && [] + KeptSections(sections) == KeptSections(sections);
    ReadSections([], false, sections);
  }

  lemma ReadableNames(sections: seq<Section>)
    requires Readable(sections)
    ensures forall i :: 0 <= i < |sections| ==> IsValidSectionName(sections[i].name)
    ensures sections != [] ==> Readable(sections[1..]) && NoHeader(Kept(Lines(sections[0].content)))
  {
  }

  lemma PreambleIsDropped(preamble: string)
    ensures forall i :: 0 <= i < |PreambleLines(preamble)| ==> Clean(PreambleLines(preamble)[i]) == ""
  {
    PrefixedAreComments(Lines(preamble));
    BlankIsDropped();
  }
}
