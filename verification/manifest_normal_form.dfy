/** Reading a manifest normalises it: what the reader accepts can be written and read again
    without change (src/manifest_format.h:51-135). */
module ManifestNormalForm {
  import opened Text
  import opened ManifestFormats

  ghost predicate ContentLine(l: string) {
    l != "" && Trimmed(l) && COMMENT !in l && '\n' !in l && !IsSectionHeader(l)
  }

  ghost predicate ContentLines(ls: seq<string>) {
    forall i :: 0 <= i < |ls| ==> ContentLine(ls[i])
  }

  /** A section as the reader leaves it. */
  ghost predicate NormalSection(s: Section) {
    IsValidSectionName(s.name) && ContentLines(Lines(s.content)) && s.content == Join(Lines(s.content))
  }

  ghost predicate NormalForm(sections: seq<Section>) {
    UniqueNames(sections) && forall i :: 0 <= i < |sections| ==> NormalSection(sections[i])
  }

  /** What cleaning leaves of a line is free of comment, newline and outer white space. */
  lemma CleanMeaning(line: string)
    requires '\n' !in line
    ensures Trimmed(Clean(line)) && COMMENT !in Clean(line) && '\n' !in Clean(line)
  {
    hide TrimLeft, TrimRight;
    var cut := CutComment(line);
    var before, after := TrimMeaning(cut);
    forall c | c in Trim(cut) ensures c in cut && c in line {
      assert c in before + Trim(cut) + after;
      assert cut == line[..|cut|];
    }
  }

  lemma ContentLineIsClean(l: string)
    requires ContentLine(l)
    ensures Clean(l) == l
  {
    assert l[..|l|] == l;
    TrimIdle(l);
  }

  lemma {:induction false} ContentLinesAreKept(ls: seq<string>)
    requires ContentLines(ls)
    ensures Kept(ls) == ls
  {
    if ls != [] {
      assert ContentLine(ls[0]);
      ContentLineIsClean(ls[0]);
      assert ContentLines(ls[1..]);
      ContentLinesAreKept(ls[1..]);
      assert ls == [ls[0]] + ls[1..];
    }
  }

  lemma AppendKeepsNormal(s: Section, line: string)
    requires NormalSection(s) && ContentLine(line)
    ensures NormalSection(Section(s.name, AppendLine(s.content, line)))
  {
    hide IsValidSectionName, Lines, Join, IsSectionHeader, Trimmed;
    var ls := Lines(s.content);
    assert forall i :: 0 <= i < |ls| ==> ContentLine(ls[i]);
    JoinSnoc(ls, line);
    var more := ls + [line];
    assert ContentLines(more);
    LinesOfJoin(more);
  }

  lemma EmptySectionIsNormal(name: string)
    requires IsValidSectionName(name)
    ensures NormalSection(Section(name, ""))
  {
  }

  lemma AddKeepsNormal(sections: seq<Section>, name: string)
    requires NormalForm(sections) && IsValidSectionName(name) && !HasName(sections, name)
    ensures NormalForm(sections + [Section(name, "")])
  {
    EmptySectionIsNormal(name);
    hide NormalSection, IsValidSectionName;
  }

  lemma AppendLastKeepsNormal(sections: seq<Section>, line: string)
    requires NormalForm(sections) && sections != [] && ContentLine(line)
    ensures NormalForm(AppendToLast(sections, line))
  {
    AppendKeepsNormal(sections[|sections|-1], line);
    hide NormalSection, ContentLine;
  }

  /** Every step of the reader keeps the normal form. */
  lemma {:induction false} ReadKeepsNormal(sections: seq<Section>, open: bool, lines: seq<string>)
    requires open ==> sections != []
    requires NormalForm(sections) && NewlineFree(lines)
    ensures ReadFrom(sections, open, lines).Read? ==> NormalForm(ReadFrom(sections, open, lines).sections)
    decreases |lines|
  {
    hide NormalForm, Clean, IsSectionHeader, IsValidSectionName, HasName, Trimmed;
    if lines != [] {
      CleanMeaning(lines[0]);
      var line := Clean(lines[0]);
      if line == "" {
        ReadKeepsNormal(sections, open, lines[1..]);
      } else if IsSectionHeader(line) {
        HeaderName(line);
        if !HasName(sections, line[..|line|-1]) {
          AddKeepsNormal(sections, line[..|line|-1]);
          ReadKeepsNormal(sections + [Section(line[..|line|-1], "")], true, lines[1..]);
        }
      } else if open {
        AppendLastKeepsNormal(sections, line);
        ReadKeepsNormal(AppendToLast(sections, line), true, lines[1..]);
      }
    }
  }

  lemma HeaderName(line: string)
    requires IsSectionHeader(line)
    ensures line != "" && IsValidSectionName(line[..|line|-1])
  {
  }

  lemma NormalIsReadable(sections: seq<Section>)
    requires NormalForm(sections)
    ensures Readable(sections) && KeptSections(sections) == sections
  {
    forall i | 0 <= i < |sections|
      ensures IsValidSectionName(sections[i].name) && NoHeader(Kept(Lines(sections[i].content)))
      ensures KeptSections(sections)[i] == sections[i]
    {
      assert NormalSection(sections[i]);
      ContentLinesAreKept(Lines(sections[i].content));
      KeptSectionAt(sections, i);
    }
  }

  /** Whatever text the reader accepts, its result is in normal form, and writing it, under
      any preamble, and reading that again gives the same sections in the same order. */
  lemma ReadWriteRead(text: string, preamble: string)
    requires ReadFrom([], false, Lines(text)).Read?
    ensures var sections := ReadFrom([], false, Lines(text)).sections;
      NormalForm(sections) && ReadFrom([], false, Lines(Write(preamble, sections))) == Read(sections)
  {
    assert NewlineFree(Lines(text));
    ReadKeepsNormal([], false, Lines(text));
    var sections := ReadFrom([], false, Lines(text)).sections;
    NormalIsReadable(sections);
    hide *;
    NormalIsUnique(sections);
    WriteThenRead(preamble, sections);
  }

  lemma NormalIsUnique(sections: seq<Section>)
    requires NormalForm(sections)
    ensures UniqueNames(sections)
  {
  }

  // ----- The accepted texts -----

  /** The lines that a list of sections consists of: each header and the content below it. */
  ghost function FlatLines(sections: seq<Section>): (r: seq<string>) {
    if sections == [] then []
    else FlatLines(sections[..|sections|-1]) + SectionFlat(sections[|sections|-1])
  }

  ghost function SectionFlat(s: Section): (r: seq<string>) { [s.name + ":"] + Lines(s.content) }

  lemma {:induction false} FlatSnoc(sections: seq<Section>, s: Section)
    ensures FlatLines(sections + [s]) == FlatLines(sections) + SectionFlat(s)
  {
    assert (sections + [s])[..|sections|] == sections;
  }

  lemma LinesGrow(s: Section, line: string)
    requires NormalSection(s) && ContentLine(line)
    ensures Lines(AppendLine(s.content, line)) == Lines(s.content) + [line]
  {
    hide IsValidSectionName, Lines, Join, IsSectionHeader, Trimmed;
    var ls := Lines(s.content);
    assert forall i :: 0 <= i < |ls| ==> ContentLine(ls[i]);
    JoinSnoc(ls, line);
    assert ContentLines(ls + [line]);
    LinesOfJoin(ls + [line]);
  }

  lemma FlatGrows(sections: seq<Section>, line: string)
    requires NormalForm(sections) && sections != [] && ContentLine(line)
    ensures FlatLines(AppendToLast(sections, line)) == FlatLines(sections) + [line]
  {
    var last, before := sections[|sections|-1], sections[..|sections|-1];
    LinesGrow(last, line);
    hide NormalForm, ContentLine, Lines, AppendLine, FlatLines;
    FlatSnoc(before, Section(last.name, AppendLine(last.content, line)));
    FlatSnoc(before, last);
    assert before + [last] == sections;
    var head := [last.name + ":"];
    assert FlatLines(before) + (head + (Lines(last.content) + [line])) == FlatLines(before) + (head + Lines(last.content)) + [line];
  }

  lemma HeaderOf(name: string)
    requires IsValidSectionName(name)
    ensures IsSectionHeader(name + ":") && (name + ":")[..|name|] == name && Clean(name + ":") == name + ":"
  {
    hide TrimLeft, TrimRight;
    ValidNameIsPlain(name);
    assert COMMENT !in name + ":";
    assert CutComment(name + ":") == name + ":";
    TrimIdle(name + ":");
  }

  lemma HeaderBack(line: string)
    requires IsSectionHeader(line)
    ensures line[..|line|-1] + ":" == line
  {
  }

  /** Reading adds the lines that are not blank to those of the sections before. */
  lemma {:induction false} ReadAddsLines(sections: seq<Section>, open: bool, lines: seq<string>)
    requires open ==> sections != []
    requires NormalForm(sections) && NewlineFree(lines) && ReadFrom(sections, open, lines).Read?
    ensures FlatLines(ReadFrom(sections, open, lines).sections) == FlatLines(sections) + Kept(lines)
    decreases |lines|
  {
    hide NormalForm, Clean, IsSectionHeader, IsValidSectionName, HasName, Trimmed, FlatLines;
    if lines == [] {
      assert FlatLines(sections) + Kept(lines) == FlatLines(sections);
    } else {
      CleanMeaning(lines[0]);
      var line := Clean(lines[0]);
      if line == "" {
        ReadAddsLines(sections, open, lines[1..]);
      } else if IsSectionHeader(line) {
        HeaderName(line);
        HeaderBack(line);
        var name := line[..|line|-1];
        AddKeepsNormal(sections, name);
        FlatSnoc(sections, Section(name, ""));
        ReadAddsLines(sections + [Section(name, "")], true, lines[1..]);
        assert FlatLines(sections) + [line] + Kept(lines[1..]) == FlatLines(sections) + ([line] + Kept(lines[1..]));
      } else {
        AppendLastKeepsNormal(sections, line);
        FlatGrows(sections, line);
        ReadAddsLines(AppendToLast(sections, line), true, lines[1..]);
        assert FlatLines(sections) + [line] + Kept(lines[1..]) == FlatLines(sections) + ([line] + Kept(lines[1..]));
      }
    }
  }

  /** Only what is kept of the lines matters. */
  lemma {:induction false} ReadKept(sections: seq<Section>, open: bool, lines: seq<string>)
    requires (open ==> sections != []) && NewlineFree(lines)
    ensures ReadFrom(sections, open, lines) == ReadFrom(sections, open, Kept(lines))
    decreases |lines|
  {
    hide Clean, IsSectionHeader, HasName;
    if lines != [] {
      CleanTwice(lines[0]);
      var line, kept := Clean(lines[0]), Kept(lines[1..]);
      assert line != "" ==> ([line] + kept)[1..] == kept;
      if line == "" {
        ReadKept(sections, open, lines[1..]);
        assert Kept(lines) == kept;
      } else if IsSectionHeader(line) {
        ReadKept(sections + [Section(line[..|line|-1], "")], true, lines[1..]);
      } else if open {
        ReadKept(AppendToLast(sections, line), true, lines[1..]);
      }
    }
  }

  lemma CleanTwice(line: string)
    requires '\n' !in line
    ensures Clean(Clean(line)) == Clean(line)
  {
    CleanMeaning(line);
    var c := Clean(line);
    assert CutComment(c) == c;
    hide TrimLeft, TrimRight;
    TrimIdle(c);
  }

  /** Content lines go to the section that is open. */
  lemma {:induction false} ReadContentLines(done: seq<Section>, s: Section, lines: seq<string>, rest: seq<string>)
    requires NormalSection(s) && ContentLines(lines)
    ensures var more := Section(s.name, Join(Lines(s.content) + lines));
      ReadFrom(done + [s], true, lines + rest) == ReadFrom(done + [more], true, rest)
    decreases |lines|
  {
    hide IsValidSectionName, IsSectionHeader, Clean, HasName, Trimmed, Lines, Join;
    if lines == [] {
      assert lines + rest == rest && Lines(s.content) + lines == Lines(s.content);
    } else {
      var line := lines[0];
      assert ContentLine(line);
      ContentLineIsClean(line);
      AppendKeepsNormal(s, line);
      LinesGrow(s, line);
      hide AppendLine, NormalSection;
      var s' := Section(s.name, AppendLine(s.content, line));
      assert (lines + rest)[1..] == lines[1..] + rest && (lines + rest)[0] == line;
      assert AppendToLast(done + [s], line) == done + [s'];
      ReadContentLines(done, s', lines[1..], rest);
      assert Lines(s.content) + [line] + lines[1..] == Lines(s.content) + lines;
    }
  }

  lemma {:induction false} ReadOneSection(done: seq<Section>, open: bool, s: Section, rest: seq<string>)
    requires (open ==> done != []) && NormalSection(s) && !HasName(done, s.name)
    ensures ReadFrom(done, open, SectionFlat(s) + rest) == ReadFrom(done + [s], true, rest)
  {
    HeaderOf(s.name);
    EmptySectionIsNormal(s.name);
    assert SectionFlat(s) + rest == [s.name + ":"] + (Lines(s.content) + rest);
    assert [] + Lines(s.content) == Lines(s.content) && Lines("") == [];
    var empty := Section(s.name, "");
    hide IsSectionHeader, IsValidSectionName, Clean, HasName, Lines, Join, Trimmed, ContentLine;
    ReadContentLines(done, empty, Lines(s.content), rest);
    var lines := [s.name + ":"] + (Lines(s.content) + rest);
    assert lines[1..] == Lines(s.content) + rest && lines[0] == s.name + ":";
    assert ReadFrom(done, open, lines) == ReadFrom(done + [empty], true, Lines(s.content) + rest);
  }

  lemma NormalPrefix(sections: seq<Section>)
    requires NormalForm(sections) && sections != []
    ensures NormalForm(sections[..|sections|-1]) && NormalSection(sections[|sections|-1])
    ensures !HasName(sections[..|sections|-1], sections[|sections|-1].name)
  {
    hide NormalSection;
  }

  lemma {:induction false} ReadFlat(sections: seq<Section>, rest: seq<string>)
    requires NormalForm(sections)
    ensures ReadFrom([], false, FlatLines(sections) + rest) == ReadFrom(sections, sections != [], rest)
    decreases |sections|
  {
    hide *;
    FlatSplit(sections, rest);
    if sections != [] {
      NormalPrefix(sections);
      var before, last := sections[..|sections|-1], sections[|sections|-1];
      ReadFlat(before, SectionFlat(last) + rest);
      ReadOneSection(before, before != [], last, rest);
    }
  }

  lemma FlatSplit(sections: seq<Section>, rest: seq<string>)
    ensures sections == [] ==> FlatLines(sections) + rest == rest
    ensures sections != [] ==>
      var before, last := sections[..|sections|-1], sections[|sections|-1];
      FlatLines(sections) + rest == FlatLines(before) + (SectionFlat(last) + rest) && before + [last] == sections
  {
    hide SectionFlat;
  }

  /** Exactly when a text is accepted, and as what: comments, outer white space and blank lines
      aside it is the headers and content lines of these sections, which have different names. */
  lemma ReadExactly(text: string, sections: seq<Section>)
    ensures ReadFrom([], false, Lines(text)) == Read(sections) <==>
      NormalForm(sections) && Kept(Lines(text)) == FlatLines(sections)
  {
    var lines := Lines(text);
    assert NewlineFree(lines) && NormalForm([]);
    ReadKept([], false, lines);
    hide NormalForm, FlatLines, Kept, Lines, NewlineFree;
    if ReadFrom([], false, lines) == Read(sections) {
      ReadKeepsNormal([], false, lines);
      ReadAddsLines([], false, lines);
      assert FlatLines([]) == [] by { NoLines(); }
      assert [] + Kept(lines) == Kept(lines);
    }
    if NormalForm(sections) && Kept(lines) == FlatLines(sections) {
      ReadFlat(sections, []);
      assert FlatLines(sections) + [] == FlatLines(sections);
    }
  }

  lemma NoLines()
    ensures FlatLines([]) == []
  {
  }
}
