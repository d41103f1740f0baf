/** What a line of R's package table means, and tables that are read back as they were meant
    (src/rpkg_database.h:341-471). */
module RpkgLines {
  import opened Options
  import opened Text
  import opened Splitting
  import opened Packages
  import opened RpkgParser

  // ----- Dependencies -----

  /** A piece of a dependency field names `x`: as one entry that does. */
  ghost predicate PieceNames(piece: string, x: string) {
    exists e: Entry :: EntryOk(e) && EntryText(e) == piece && e.name == x
  }

  ghost predicate FieldLists(field: string, x: string) {
    field != "NA" && exists piece :: piece in Split(field, ",") && PieceNames(piece, x)
  }

  lemma {:induction false} TakeNameSplits(s: string) returns (rest: string)
    ensures s == TakeName(s) + rest && (rest == "" || IsSpace(rest[0]) || rest[0] == '(')
    ensures forall i :: 0 <= i < |TakeName(s)| ==> !IsSpace(TakeName(s)[i]) && TakeName(s)[i] != '('
  {
    if s == "" || s[0] == '(' || IsSpace(s[0]) {
      rest := s;
    } else {
      rest := TakeNameSplits(s[1..]);
      assert s == [s[0]] + s[1..];
    }
  }

  /** The name read from a piece is the one it has as an entry; no name is read from a piece that
      is not one. */
  lemma PieceNamesExactly(piece: string, x: string)
    requires ',' !in piece && x != ""
    ensures DepName(piece) == x <==> PieceNames(piece, x)
  {
    if DepName(piece) == x {
      var before, after := TrimMeaning(piece);
      var rest := TakeNameSplits(Trim(piece));
      TrimIdle(TakeName(Trim(piece)));
      hide Trim, TakeName, DepName;
      NameWithRest(before, x, rest, after);
      var e := Entry(before, x, rest + after);
      assert EntryText(e) == piece;
    }
    if e: Entry :| EntryOk(e) && EntryText(e) == piece && e.name == x { EntryName(e); }
  }

  lemma NameWithRest(before: string, x: string, rest: string, after: string)
    requires AllSpace(after) && (rest == "" || IsSpace(rest[0]) || rest[0] == '(')
    ensures rest + after == "" || IsSpace((rest + after)[0]) || (rest + after)[0] == '('
    ensures before + (x + rest) + after == before + x + (rest + after)
  {
  }

  lemma FieldExactly(field: string, x: string)
    ensures x in FieldNames(field) <==> x != "" && x != "R" && FieldLists(field, x)
  {
    hide DepName, PieceNames;
    JoinOfSplit(field, ",");
    var pieces := Split(field, ",");
    forall piece | piece in pieces && x != "" ensures DepName(piece) == x <==> PieceNames(piece, x) {
      var i :| 0 <= i < |pieces| && pieces[i] == piece;
      assert Free(pieces[i], ",");
      CommaFree(piece);
      PieceNamesExactly(piece, x);
    }
  }

  // ----- Lines -----

  /** The letters of the word, each in either case. */
  ghost predicate SaysGitHub(s: string) {
    |s| == 6 && s[0] in "gG" && s[1] in "iI" && s[2] in "tT" && s[3] in "hH" && s[4] in "uU" && s[5] in "bB"
  }

  /** Without a known organisation or name the origin on GitHub is incomplete. */
  ghost predicate Complete(f: seq<string>)
    requires |f| == 12
  {
    SaysGitHub(f[8]) ==> f[9] !in {"", "NA"} && f[10] !in {"", "NA"}
  }

  /** The fields describe the package: its name, library and version; its dependencies in three
      fields; whether it is a base package and whether it needs compilation; its origin in four. */
  ghost predicate Describes(f: seq<string>, p: RPackage)
    requires |f| == 12
  {
    && p.name == f[0] && p.libPath == f[1] && p.version == f[2]
    && (forall x {:trigger x in p.dependencies} :: x in p.dependencies <==>
          x != "" && x != "R" && (FieldLists(f[3], x) || FieldLists(f[4], x) || FieldLists(f[5], x)))
    && (p.isBase <==> f[6] == "base")
    && (p.needsCompilation <==> f[7] == "yes")
    && p.repository == if SaysGitHub(f[8]) then GitHub(f[9], f[10], if f[11] in {"", "NA"} then "HEAD" else f[11]) else CRAN
  }

  /** The line holds these fields: white space around, no-break spaces between, and perhaps one
      more at the end. */
  ghost predicate Holds(line: string, f: seq<string>) {
    && |f| == 12 && AllFree(f, NBSP)
    && exists before, core, after :: Padded(line, before, core, after) && (core == JoinWith(NBSP, f) || core == JoinWith(NBSP, f + [""]))
  }

  ghost predicate Padded(line: string, before: string, core: string, after: string) {
    AllSpace(before) && AllSpace(after) && Trimmed(core) && line == before + core + after
  }

  lemma GitHubSaid(s: string)
    ensures SameIgnoringCase(s, "github") <==> SaysGitHub(s)
  {
    var word := "github";
    if |s| == 6 {
      forall i | 0 <= i < 6 ensures Lower(s[i]) == Lower(word[i]) <==> s[i] == word[i] || s[i] as int + 32 == word[i] as int {}
    }
  }

  lemma FieldsDescribe(f: seq<string>, p: RPackage)
    requires |f| == 12
    ensures PackageOf(f) == Some(p) <==> Complete(f) && Describes(f, p)
  {
    GitHubSaid(f[8]);
    forall x, i | 3 <= i <= 5 ensures x in FieldNames(f[i]) <==> x != "" && x != "R" && FieldLists(f[i], x) {
      FieldExactly(f[i], x);
    }
    hide FieldNames, FieldLists, SaysGitHub, SameIgnoringCase;
    if Describes(f, p) {
      assert p.dependencies == FieldNames(f[3]) + FieldNames(f[4]) + FieldNames(f[5]);
    }
  }

  lemma AllFreeSnoc(f: seq<string>)
    requires AllFree(f, NBSP)
    ensures AllFree(f + [""], NBSP)
  {
  }

  /** The fields a line is split into. */
  lemma HeldFields(line: string, f: seq<string>)
    ensures Holds(line, f) <==> Trim(line) != "" && SplitN(Trim(line), NBSP, 12) == Some(f)
  {
    if Holds(line, f) {
      var before, core, after :|
        Padded(line, before, core, after) && (core == JoinWith(NBSP, f) || core == JoinWith(NBSP, f + [""]));
      TrimPadded(before, core, after);
      HeldIsSplit(core, f);
    }
    if Trim(line) != "" && SplitN(Trim(line), NBSP, 12) == Some(f) {
      var before, after := TrimMeaning(line);
      assert Padded(line, before, Trim(line), after);
      SplitIsHeld(Trim(line), f);
    }
  }

  lemma HeldIsSplit(core: string, f: seq<string>)
    requires |f| == 12 && AllFree(f, NBSP) && (core == JoinWith(NBSP, f) || core == JoinWith(NBSP, f + [""]))
    ensures core != "" && SplitN(core, NBSP, 12) == Some(f)
  {
    hide SplitN, FindDelim;
    AllFreeSnoc(f);
    SplitNExactly(f, NBSP, 12);
    SplitNExactly(f + [""], NBSP, 12);
    assert f[..12] == f && (f + [""])[..12] == f;
    var more := if core == JoinWith(NBSP, f) then f[1..] else (f + [""])[1..];
    assert core == f[0] + NBSP + JoinWith(NBSP, more);
  }

  lemma SplitIsHeld(core: string, f: seq<string>)
    requires SplitN(core, NBSP, 12) == Some(f)
    ensures |f| == 12 && AllFree(f, NBSP) && (core == JoinWith(NBSP, f) || core == JoinWith(NBSP, f + [""]))
  {
    JoinOfSplit(core, NBSP);
    var fields := Split(core, NBSP);
    hide Split, JoinWith, FindDelim, Free;
    if |fields| == 13 {
      assert fields == f + [""];
      forall i | 0 <= i < 12 ensures Free(f[i], NBSP) { assert f[i] == fields[i]; }
    }
  }

  /** Exactly when a line describes a package, and which; every other line is dropped. */
  lemma LineExactly(line: string, p: RPackage)
    ensures LinePackage(line) == Some(p) <==> exists f :: Holds(line, f) && Complete(f) && Describes(f, p)
  {
    hide Trim, SplitN, PackageOf, Complete, Describes, Holds;
    forall f ensures Holds(line, f) <==> Trim(line) != "" && SplitN(Trim(line), NBSP, 12) == Some(f) {
      HeldFields(line, f);
    }
    forall f | Holds(line, f) ensures |f| == 12 && (PackageOf(f) == Some(p) <==> Complete(f) && Describes(f, p)) {
      FieldsDescribe(f, p);
    }
  }

  /** The dropped lines: those that do not hold twelve fields, or hold an incomplete origin. */
  lemma DroppedExactly(line: string)
    ensures LinePackage(line).None? <==> forall f :: Holds(line, f) ==> !Complete(f)
  {
    hide Trim, SplitN, Complete, Describes, Holds, LinePackage, PackageOf;
    forall f | Holds(line, f) && |f| == 12 && Complete(f) ensures LinePackage(line).Some? {
      var p := Described(f);
      LineExactly(line, p);
    }
    if LinePackage(line).Some? { LineExactly(line, LinePackage(line).value); }
    forall f | Holds(line, f) ensures |f| == 12 { HeldFields(line, f); }
  }

  lemma Described(f: seq<string>) returns (p: RPackage)
    requires |f| == 12 && Complete(f)
    ensures Describes(f, p)
  {
    GitHubSaid(f[8]);
    p := PackageOf(f).value;
    FieldsDescribe(f, p);
  }

  // ----- Tables -----

  /** A package with its dependencies as R lists them, in three fields. */
  datatype Row = Row(package: RPackage, depends: seq<Entry>, imports: seq<Entry>, linkingTo: seq<Entry>)

  ghost function FieldText(es: seq<Entry>): (r: string) { if es == [] then "NA" else JoinWith(",", EntryTexts(es)) }

  /** The twelve fields, `NA` where there is nothing to say. */
  ghost function RowFields(row: Row): (f: seq<string>)
    ensures |f| == 12
  {
    var p := row.package;
    [p.name, p.libPath, p.version, FieldText(row.depends), FieldText(row.imports), FieldText(row.linkingTo),
     if p.isBase then "base" else "NA", if p.needsCompilation then "yes" else "NA"]
    + match p.repository
      case CRAN => ["NA", "NA", "NA", "NA"]
      case GitHub(org, name, gitRef) => ["github", org, name, gitRef]
  }

  ghost predicate NamedBy(es: seq<Entry>, x: string) { exists i :: 0 <= i < |es| && es[i].name == x }

  ghost predicate EntriesFit(es: seq<Entry>) { AllEntriesOk(es) && (es != [] ==> FieldText(es) != "NA") }

  /** The row can be written: the entries are well formed and name the dependencies, the origin is
      known, and no text holds a separator or ends the line early. */
  ghost predicate RowOk(row: Row) {
    var p, f := row.package, RowFields(row);
    && EntriesFit(row.depends) && EntriesFit(row.imports) && EntriesFit(row.linkingTo)
    && (forall x {:trigger x in p.dependencies} :: x in p.dependencies <==>
          x != "R" && (NamedBy(row.depends, x) || NamedBy(row.imports, x) || NamedBy(row.linkingTo, x)))
    && (p.repository.GitHub? ==>
          p.repository.org !in {"", "NA"} && p.repository.name !in {"", "NA"} && p.repository.gitRef !in {"", "NA"})
    && AllFree(f, NBSP) && Trimmed(JoinWith(NBSP, f)) && '\n' !in JoinWith(NBSP, f)
  }

  lemma ListedEntries(es: seq<Entry>, x: string)
    requires EntriesFit(es)
    ensures x != "" && x != "R" && FieldLists(FieldText(es), x) <==> x != "R" && NamedBy(es, x)
  {
    FieldExactly(FieldText(es), x);
    hide FieldLists, FieldNames;
    if es == [] {
      assert FieldText(es) == "NA" && x !in FieldNames("NA") by { NothingNamed(x); }
    } else {
      FieldOfEntries(es, x);
    }
  }

  lemma NothingNamed(x: string)
    ensures x !in FieldNames("NA")
  {
  }

  lemma FieldsOfRow(row: Row)
    ensures var p, f := row.package, RowFields(row);
      && f[0] == p.name && f[1] == p.libPath && f[2] == p.version
      && f[3] == FieldText(row.depends) && f[4] == FieldText(row.imports) && f[5] == FieldText(row.linkingTo)
      && f[6] == (if p.isBase then "base" else "NA") && f[7] == (if p.needsCompilation then "yes" else "NA")
      && f[8..] == match p.repository
        case CRAN => ["NA", "NA", "NA", "NA"]
        case GitHub(org, name, gitRef) => ["github", org, name, gitRef]
  {
    hide FieldText;
  }

  lemma OriginOfRow(row: Row)
    ensures var p, f := row.package, RowFields(row);
      && (SaysGitHub(f[8]) <==> p.repository.GitHub?)
      && (p.repository.GitHub? ==> p.repository == GitHub(f[9], f[10], f[11]))
  {
    FieldsOfRow(row);
    hide RowFields;
    var last := RowFields(row)[8..];
    assert last[0] == RowFields(row)[8] && last[1] == RowFields(row)[9];
    assert last[2] == RowFields(row)[10] && last[3] == RowFields(row)[11];
  }

  lemma RowDescribes(row: Row)
    requires RowOk(row)
    ensures Complete(RowFields(row)) && Describes(RowFields(row), row.package)
  {
    var p, f := row.package, RowFields(row);
    FieldsOfRow(row);
    OriginOfRow(row);
    hide RowFields, SaysGitHub, FieldLists, FieldText, NamedBy, EntriesFit, AllFree, Trimmed, JoinWith;
    forall x ensures x in p.dependencies <==>
      x != "" && x != "R" && (FieldLists(f[3], x) || FieldLists(f[4], x) || FieldLists(f[5], x))
    {
      ListedEntries(row.depends, x);
      ListedEntries(row.imports, x);
      ListedEntries(row.linkingTo, x);
    }
  }

  /** A row is read back from its line, white space around it or not. */
  lemma RowReads(row: Row, before: string, after: string)
    requires RowOk(row) && AllSpace(before) && AllSpace(after)
    ensures LinePackage(before + JoinWith(NBSP, RowFields(row)) + after) == Some(row.package)
  {
    RowDescribes(row);
    hide Describes, Complete, JoinWith, LinePackage, RowFields;
    var f := RowFields(row);
    var line := before + JoinWith(NBSP, f) + after;
    assert Padded(line, before, JoinWith(NBSP, f), after);
    assert Holds(line, f);
    LineExactly(line, row.package);
  }

  ghost function TableLines(rows: seq<Row>): (r: seq<string>) {
    seq(|rows|, i requires 0 <= i < |rows| => JoinWith(NBSP, RowFields(rows[i])))
  }

  ghost predicate TableOk(rows: seq<Row>) {
    && (forall i :: 0 <= i < |rows| ==> RowOk(rows[i]))
    && (forall i, j :: 0 <= i < j < |rows| ==> rows[i].package.name != rows[j].package.name)
  }

  ghost predicate Installed(rows: seq<Row>, k: string) { exists i :: 0 <= i < |rows| && rows[i].package.name == k }

  lemma TableTail(rows: seq<Row>)
    requires rows != [] && TableOk(rows)
    ensures TableLines(rows) == [JoinWith(NBSP, RowFields(rows[0]))] + TableLines(rows[1..]) && TableOk(rows[1..])
    ensures forall i :: 1 <= i < |rows| ==> rows[i].package.name != rows[0].package.name
  {
    hide RowFields, JoinWith, RowOk;
  }

  lemma {:induction false} FirstOfTable(rows: seq<Row>, k: string)
    requires TableOk(rows)
    ensures FirstCalled(k, TableLines(rows)).Some? <==> Installed(rows, k)
    ensures forall i :: 0 <= i < |rows| && rows[i].package.name == k ==>
      FirstCalled(k, TableLines(rows)) == Some(rows[i].package)
    decreases |rows|
  {
    if rows != [] {
      FirstRow(rows, k);
      hide *;
      FirstOfTable(rows[1..], k);
      InstalledLater(rows, k);
    }
  }

  lemma {:induction false} FirstRow(rows: seq<Row>, k: string)
    requires rows != [] && TableOk(rows)
    ensures TableOk(rows[1..])
    ensures FirstCalled(k, TableLines(rows)) ==
      if rows[0].package.name == k then Some(rows[0].package) else FirstCalled(k, TableLines(rows[1..]))
    ensures rows[0].package.name == k ==> !Installed(rows[1..], k)
  {
    var line := JoinWith(NBSP, RowFields(rows[0]));
    RowReads(rows[0], "", "");
    assert "" + line + "" == line;
    hide RowFields, JoinWith, LinePackage, RowOk;
    TableTail(rows);
    hide TableLines, TableOk;
    assert forall i :: 0 <= i < |rows[1..]| ==> rows[1..][i] == rows[i+1];
  }

  lemma InstalledLater(rows: seq<Row>, k: string)
    requires rows != []
    ensures Installed(rows, k) <==> rows[0].package.name == k || Installed(rows[1..], k)
    ensures forall i :: 1 <= i < |rows| ==> rows[i] == rows[1..][i-1]
    ensures forall i :: 1 <= i < |rows| && rows[i].package.name == k ==> Installed(rows[1..], k)
  {
    assert forall i :: 1 <= i < |rows| ==> rows[i] == rows[1..][i-1];
    assert forall i :: 0 <= i < |rows[1..]| ==> rows[1..][i] == rows[i+1];
  }

  /** A table is read back as it was meant: the packages of its rows and no others, each as its
      row says, except for dependencies that have no row. */
  lemma TableReads(rows: seq<Row>, k: string)
    requires TableOk(rows)
    ensures var packages := ParsedPackages(Unlines(TableLines(rows)));
      && (k in packages <==> Installed(rows, k))
      && (forall i :: 0 <= i < |rows| && rows[i].package.name == k ==>
            k in packages && packages[k] ==
              rows[i].package.(dependencies := set d | d in rows[i].package.dependencies && Installed(rows, d)))
  {
    var lines := TableLines(rows);
    var text := Unlines(lines);
    assert NewlineFree(lines) by {
      forall i | 0 <= i < |lines| ensures '\n' !in lines[i] { assert RowOk(rows[i]); }
    }
    LinesOfUnlines(lines);
    ParsedMeaning(text, k);
    FirstOfTable(rows, k);
    hide ParsedPackages, FirstCalled, TableLines, Unlines, Lines, RowOk;
    var packages := ParsedPackages(text);
    forall d ensures d in packages <==> Installed(rows, d) {
      ParsedMeaning(text, d);
      FirstOfTable(rows, d);
    }
    forall i | 0 <= i < |rows| && rows[i].package.name == k
      ensures rows[i].package.dependencies * packages.Keys == set d | d in rows[i].package.dependencies && Installed(rows, d)
    {
    }
  }
}
