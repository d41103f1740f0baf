/** The cache of the files an image already holds, read from and saved to lines of fields
    separated by no-break spaces (src/default_image_files.h:126-197). */
module DefaultImages {
  import opened Collections
  import opened Options
  import opened Text
  import opened Decimal
  import opened Ordering
  import opened Splitting

  datatype ImageFileInfo = ImageFileInfo(path: string, user: string, group: string, permissions: nat, size: nat,
                                         sha1: string)

  const TWO_TO_THE_32 := 0x1_0000_0000
  const TWO_TO_THE_64 := 0x1_0000_0000_0000_0000

  // ----- Numbers -----

  function LeadingDigits(s: string): (r: string)
    ensures AllDigits(r)
  {
    if s == "" || !IsDigit(s[0]) then "" else [s[0]] + LeadingDigits(s[1..])
  }

  /** std::stoull: white space and a sign may come first, anything may follow the digits, a
      minus sign wraps around. */
  function Stoull(s: string): (r: Option<nat>)
    ensures r.Some? ==> r.value < TWO_TO_THE_64
  {
    var t := TrimLeft(s);
    var signed := t != "" && (t[0] == '-' || t[0] == '+');
    var digits := LeadingDigits(if signed then t[1..] else t);
    if digits == "" || DigitsValue(digits) >= TWO_TO_THE_64 then None
    else if signed && t[0] == '-' then Some((TWO_TO_THE_64 - DigitsValue(digits)) % TWO_TO_THE_64)
    else Some(DigitsValue(digits))
  }

  /** The conversion of an unsigned long to 32 bits. */
  function Truncate32(n: nat): (r: nat)
    ensures r < TWO_TO_THE_32
  {
    n % TWO_TO_THE_32
  }

  lemma {:induction false} LeadingDigitsAll(s: string)
    requires AllDigits(s)
    ensures LeadingDigits(s) == s
  {
    if s != "" {
      LeadingDigitsAll(s[1..]);
      assert s == [s[0]] + s[1..];
    }
  }

  /** The text starts with a number: white space, perhaps a sign, and all the digits there are. A
      number with a minus sign stands for its distance below two to the 64th. */
  ghost predicate ReadsNumber(s: string, n: nat) {
    exists space, sign, digits, rest :: NumberSplit(s, space, sign, digits, rest) && DigitsValue(digits) < TWO_TO_THE_64 &&
      n == if sign == "-" && DigitsValue(digits) > 0 then TWO_TO_THE_64 - DigitsValue(digits) else DigitsValue(digits)
  }

  ghost predicate NumberSplit(s: string, space: string, sign: string, digits: string, rest: string) {
    && s == space + (sign + (digits + rest)) && AllSpace(space) && sign in ["", "+", "-"]
    && digits != "" && AllDigits(digits) && (rest == "" || !IsDigit(rest[0]))
  }

  lemma {:induction false} LeadingDigitsStop(digits: string, rest: string)
    requires AllDigits(digits) && (rest == "" || !IsDigit(rest[0]))
    ensures LeadingDigits(digits + rest) == digits
  {
    if digits == "" {
      assert digits + rest == rest;
    } else {
      assert (digits + rest)[1..] == digits[1..] + rest;
      LeadingDigitsStop(digits[1..], rest);
      assert digits == [digits[0]] + digits[1..];
    }
  }

  lemma {:induction false} LeadingDigitsSplit(s: string) returns (rest: string)
    ensures s == LeadingDigits(s) + rest && (rest == "" || !IsDigit(rest[0]))
  {
    if s == "" || !IsDigit(s[0]) {
      rest := s;
    } else {
      rest := LeadingDigitsSplit(s[1..]);
      assert s == [s[0]] + s[1..];
    }
  }

  lemma {:induction false} SpaceTaken(space: string, t: string)
    requires AllSpace(space) && t != "" && !IsSpace(t[0])
    ensures TrimLeft(space + t) == t
  {
    if space == "" {
      assert space + t == t;
    } else {
      assert (space + t)[1..] == space[1..] + t;
      SpaceTaken(space[1..], t);
    }
  }

  lemma {:induction false} SplitConverts(s: string, space: string, sign: string, digits: string, rest: string)
    requires NumberSplit(s, space, sign, digits, rest)
    ensures var v := DigitsValue(digits);
      Stoull(s) == if v >= TWO_TO_THE_64 then None
                   else if sign == "-" && v > 0 then Some(TWO_TO_THE_64 - v) else Some(v)
  {
    var t := sign + (digits + rest);
    assert t[0] == (if sign == "" then digits[0] else sign[0]) && IsDigit(digits[0]);
    SpaceTaken(space, t);
    LeadingDigitsStop(digits, rest);
    assert sign != "" ==> t[1..] == digits + rest;
    assert sign == "" ==> t == digits + rest;
    hide TrimLeft, LeadingDigits, DigitsValue;
  }

  lemma SignTaken(t: string) returns (sign: string, tail: string)
    ensures t == sign + tail && sign in ["", "+", "-"]
    ensures var signed := t != "" && (t[0] == '-' || t[0] == '+'); tail == (if signed then t[1..] else t)
  {
    if t != "" && (t[0] == '-' || t[0] == '+') {
      sign, tail := [t[0]], t[1..];
    } else {
      sign, tail := "", t;
    }
  }

  lemma {:induction false} ConvertsSplit(s: string) returns (space: string, sign: string, digits: string, rest: string)
    requires Stoull(s).Some?
    ensures NumberSplit(s, space, sign, digits, rest)
  {
    hide TrimLeft, LeadingDigits, DigitsValue, AllSpace, AllDigits;
    TrimLeftMeaning(s);
    var t, tail := TrimLeft(s), "";
    space := s[..|s|-|t|];
    sign, tail := SignTaken(t);
    digits := LeadingDigits(tail);
    assert digits != "";
    hide Stoull;
    rest := LeadingDigitsSplit(tail);
  }

  /** Which texts convert, and to what. */
  lemma {:induction false} StoullExactly(s: string, n: nat)
    ensures Stoull(s) == Some(n) <==> ReadsNumber(s, n)
  {
    forall space, sign, digits, rest | NumberSplit(s, space, sign, digits, rest) {
      SplitConverts(s, space, sign, digits, rest);
    }
    hide Stoull, NumberSplit, DigitsValue;
    if Stoull(s) == Some(n) {
      var space, sign, digits, rest := ConvertsSplit(s);
      assert NumberSplit(s, space, sign, digits, rest);
    }
  }

  lemma {:induction false} StoullOfPrint(n: nat)
    requires n < TWO_TO_THE_64
    ensures Stoull(PrintNat(n)) == Some(n)
  {
    PrintNatReads(n);
    LeadingDigitsAll(PrintNat(n));
    hide PrintNat, DigitsValue;
    var s := PrintNat(n);
    assert IsDigit(s[0]) && !IsSpace(s[0]);
  }

  // ----- Lines -----

  function ReadFields(t: seq<string>): (r: Option<ImageFileInfo>) {
    if |t| < 6 || t[3] == "error" || t[5] == "error" then None
    else
      var size, perm := Stoull(t[3]), Stoull(t[4]);
      if size.None? || perm.None? then None
      else Some(ImageFileInfo(t[0], t[1], t[2], Truncate32(perm.value), size.value, t[5]))
  }

  function ReadLine(line: string): (r: Option<ImageFileInfo>) { ReadFields(Split(line, NBSP)) }

  /** The fields describe the entry: path, user, group, size, permissions cut to 32 bits, digest. */
  ghost predicate DescribesFile(t: seq<string>, f: ImageFileInfo) {
    && |t| >= 6 && f.path == t[0] && f.user == t[1] && f.group == t[2]
    && t[3] != "error" && ReadsNumber(t[3], f.size)
    && f.permissions < TWO_TO_THE_32 && (exists k: nat :: ReadsNumber(t[4], f.permissions + k * TWO_TO_THE_32))
    && t[5] != "error" && f.sha1 == t[5]
  }

  /** Exactly when a line gives an entry, and which: it is made of fields that describe it. */
  lemma {:induction false} ReadLineExactly(line: string, f: ImageFileInfo)
    ensures ReadLine(line) == Some(f) <==>
      exists t :: t != [] && AllFree(t, NBSP) && line == JoinWith(NBSP, t) && DescribesFile(t, f)
  {
    JoinOfSplit(line, NBSP);
    var t := Split(line, NBSP);
    hide Split, JoinWith, Free, FindDelim;
    FieldsExactly(t, f);
    hide ReadFields, DescribesFile;
    forall t' | t' != [] && AllFree(t', NBSP) && line == JoinWith(NBSP, t') ensures t' == t { SplitOfJoin(t', NBSP); }
  }

  lemma {:induction false} FieldsExactly(t: seq<string>, f: ImageFileInfo)
    ensures ReadFields(t) == Some(f) <==> DescribesFile(t, f)
  {
    if |t| >= 6 {
      StoullExactly(t[3], f.size);
      PermissionsExactly(t[4], f.permissions);
      hide Stoull, ReadsNumber, Truncate32;
    }
  }

  lemma PermissionsExactly(s: string, p: nat)
    ensures Stoull(s).Some? && Truncate32(Stoull(s).value) == p <==>
      p < TWO_TO_THE_32 && exists k: nat :: ReadsNumber(s, p + k * TWO_TO_THE_32)
  {
    forall n: nat ensures Stoull(s) == Some(n) <==> ReadsNumber(s, n) { StoullExactly(s, n); }
    hide Stoull, ReadsNumber;
    forall k: nat ensures p < TWO_TO_THE_32 ==> Truncate32(p + k * TWO_TO_THE_32) == p {}
    if Stoull(s).Some? {
      var n := Stoull(s).value;
      CutTo32(n);
      assert Truncate32(n) == p ==> ReadsNumber(s, p + n / TWO_TO_THE_32 * TWO_TO_THE_32);
    }
  }

  lemma CutTo32(n: nat)
    ensures Truncate32(n) + n / TWO_TO_THE_32 * TWO_TO_THE_32 == n
  {
  }

  /** The entries of the lines that can be read, in order. */
  function ReadAll(lines: seq<string>): (r: seq<ImageFileInfo>) {
    if lines == [] then []
    else (if ReadLine(lines[0]).Some? then [ReadLine(lines[0]).value] else []) + ReadAll(lines[1..])
  }

  function Fields(f: ImageFileInfo): (r: seq<string>)
    ensures |r| == 6
  {
    [f.path, f.user, f.group, PrintNat(f.size), PrintNat(f.permissions), f.sha1]
  }

  function SaveLine(f: ImageFileInfo): (r: string) { JoinWith(NBSP, Fields(f)) }

  function SaveLines(files: seq<ImageFileInfo>): (r: seq<string>)
    ensures |r| == |files|
  {
    if files == [] then [] else [SaveLine(files[0])] + SaveLines(files[1..])
  }

  function Saved(files: seq<ImageFileInfo>): (r: string) { Unlines(SaveLines(files)) }

  ghost predicate Savable(f: ImageFileInfo) {
    && (forall i :: 0 <= i < 6 ==> Free(Fields(f)[i], NBSP) && '\n' !in Fields(f)[i])
    && f.sha1 != "error" && f.size < TWO_TO_THE_64 && f.permissions < TWO_TO_THE_32
  }

  function Path(f: ImageFileInfo): (r: string) { f.path }

  /** What std::sort by path may give: sorted, and the same entries. */
  ghost predicate SortedFrom(files: seq<ImageFileInfo>, r: seq<ImageFileInfo>) {
    SortedBy(Path, r) && multiset(r) == multiset(files)
  }

  /** Reading the text gives, by path, the entries of its readable lines. */
  ghost predicate Loads(text: string, r: seq<ImageFileInfo>) { SortedFrom(ReadAll(Lines(text)), r) }

  class DefaultImageFiles {
    var files: seq<ImageFileInfo>

    constructor FromStream(stream: string)
      ensures Loads(stream, files)
    {
      hide ReadLine;
      var result := [];
      var lines := Lines(stream);
      assert lines[0..] == lines;
      for i := 0 to |lines|
        invariant result + ReadAll(lines[i..]) == ReadAll(lines)
      {
        assert lines[i..][1..] == lines[i+1..];
        var info := ParseLine(lines[i]);
        if info.Some? { result := result + [info.value]; }
      }
      SortBySorted(Path, result);
      files := SortBy(Path, result);
    }

    static method ParseLine(line: string) returns (r: Option<ImageFileInfo>)
      ensures r == ReadLine(line)
    {
      hide Split, Stoull;
      var tokens := Tokens(line, NBSP);
      if |tokens| < 6 { return None; }
      if tokens[3] == "error" || tokens[5] == "error" { return None; }
      var size := Stoull(tokens[3]);
      if size.None? { return None; }
      var perm := Stoull(tokens[4]);
      if perm.None? { return None; }
      return Some(ImageFileInfo(tokens[0], tokens[1], tokens[2], Truncate32(perm.value), size.value, tokens[5]));
    }

    /** Appends to the destination, field by field. */
    method Save(dst: string) returns (out: string)
      ensures out == dst + Saved(files)
    {
      assert Unlines([]) == "";
      hide PrintNat, Unlines, SaveLine;
      out := dst;
      for i := 0 to |files|
        invariant out == dst + Unlines(SaveLines(files)[..i])
      {
        var info := files[i];
        SaveStep(dst, files, i);
        SaveLineText(out, info);
        out := out + info.path + NBSP;
        out := out + info.user + NBSP;
        out := out + info.group + NBSP;
        out := out + PrintNat(info.size) + NBSP;
        out := out + PrintNat(info.permissions) + NBSP;
        out := out + info.sha1 + "\n";
      }
      assert SaveLines(files)[..|files|] == SaveLines(files);
    }
  }

  lemma {:induction false} SaveLinesAt(files: seq<ImageFileInfo>, i: nat)
    requires i < |files|
    ensures SaveLines(files)[i] == SaveLine(files[i])
  {
    hide SaveLine;
    if i > 0 { SaveLinesAt(files[1..], i - 1); }
  }

  lemma {:induction false} SaveStep(dst: string, files: seq<ImageFileInfo>, i: nat)
    requires i < |files|
    ensures dst + Unlines(SaveLines(files)[..i+1]) == dst + Unlines(SaveLines(files)[..i]) + SaveLine(files[i]) + "\n"
  {
    hide SaveLine;
    SaveLinesAt(files, i);
    var ls := SaveLines(files);
    assert ls[..i+1] == ls[..i] + [ls[i]];
    UnlinesConcat(ls[..i], [ls[i]]);
    assert Unlines([ls[i]]) == ls[i] + "\n";
    hide Unlines, SaveLines;
    ConcatFour(dst, Unlines(ls[..i]), ls[i], "\n");
  }

  lemma {:induction false} SaveLineText(out: string, f: ImageFileInfo)
    ensures out + SaveLine(f) ==
      out + f.path + NBSP + f.user + NBSP + f.group + NBSP + PrintNat(f.size) + NBSP + PrintNat(f.permissions) + NBSP + f.sha1
  {
    hide PrintNat;
    var t := Fields(f);
    JoinStep(out, t);
    JoinStep(out + t[0] + NBSP, t[1..]);
    JoinStep(out + t[0] + NBSP + t[1] + NBSP, t[2..]);
    JoinStep(out + t[0] + NBSP + t[1] + NBSP + t[2] + NBSP, t[3..]);
    JoinStep(out + t[0] + NBSP + t[1] + NBSP + t[2] + NBSP + t[3] + NBSP, t[4..]);
    assert t[1..][1..] == t[2..] && t[2..][1..] == t[3..] && t[3..][1..] == t[4..] && t[4..][1..] == [f.sha1];
  }

  lemma {:induction false} JoinStep(out: string, t: seq<string>)
    requires |t| >= 2
    ensures out + JoinWith(NBSP, t) == out + t[0] + NBSP + JoinWith(NBSP, t[1..])
  {
    ConcatFour(out, t[0], NBSP, JoinWith(NBSP, t[1..]));
    var rest := JoinWith(NBSP, t[1..]);
    assert t[0] + (NBSP + rest) == t[0] + NBSP + rest;
  }

  // ----- Round trips -----

  lemma {:induction false} ReadSavedLine(f: ImageFileInfo)
    requires Savable(f)
    ensures ReadLine(SaveLine(f)) == Some(f)
  {
    FieldsRead(f);
    hide PrintNat, FindDelim, ReadFields;
    SplitOfJoin(Fields(f), NBSP);
  }

  lemma {:induction false} FieldsRead(f: ImageFileInfo)
    requires f.size < TWO_TO_THE_64 && f.permissions < TWO_TO_THE_32
    ensures ReadFields(Fields(f)) == if f.sha1 == "error" then None else Some(f)
  {
    PrintNatReads(f.size);
    StoullOfPrint(f.size);
    StoullOfPrint(f.permissions);
    hide PrintNat, Stoull;
    DigitsNotError(PrintNat(f.size));
    hide AllDigits;
  }

  lemma DigitsNotError(s: string)
    requires AllDigits(s) && s != ""
    ensures s != "error"
  {
    assert IsDigit(s[0]) && !IsDigit("error"[0]);
  }

  /** A line is read back exactly when no field holds the delimiter and the digest is not the
      error mark. */
  lemma {:induction false} SavedLineExactly(f: ImageFileInfo)
    requires f.size < TWO_TO_THE_64 && f.permissions < TWO_TO_THE_32
    ensures ReadLine(SaveLine(f)) == Some(f) <==> AllFree(Fields(f), NBSP) && f.sha1 != "error"
  {
    FieldsRead(f);
    NumberIsSavable(f.size);
    NumberIsSavable(f.permissions);
    var t := Fields(f);
    hide PrintNat, FindDelim, Stoull, Split, JoinWith, Free;
    if AllFree(t, NBSP) {
      SplitOfJoin(t, NBSP);
    } else if !Free(t[0], NBSP) {
      FirstUnfreeIsCut(t, NBSP, 0);
    } else if !Free(t[1], NBSP) {
      FirstUnfreeIsCut(t, NBSP, 1);
    } else if !Free(t[2], NBSP) {
      FirstUnfreeIsCut(t, NBSP, 2);
    } else {
      FirstUnfreeIsCut(t, NBSP, 5);
    }
  }

  lemma {:induction false} JoinNewlineFree(t: seq<string>)
    requires forall i :: 0 <= i < |t| ==> '\n' !in t[i]
    ensures '\n' !in JoinWith(NBSP, t)
  {
    if |t| > 1 { JoinNewlineFree(t[1..]); }
  }

  lemma {:induction false} ReadSavedLines(files: seq<ImageFileInfo>)
    requires forall i :: 0 <= i < |files| ==> Savable(files[i])
    ensures ReadAll(SaveLines(files)) == files && NewlineFree(SaveLines(files))
  {
    hide ReadLine, SaveLine, Savable;
    if files != [] {
      ReadSavedLines(files[1..]);
      ReadSavedLine(files[0]);
      SavedLineNewlineFree(files[0]);
      assert files == [files[0]] + files[1..];
      assert SaveLines(files)[1..] == SaveLines(files[1..]);
    }
  }

  lemma {:induction false} SavedLineNewlineFree(f: ImageFileInfo)
    requires Savable(f)
    ensures '\n' !in SaveLine(f)
  {
    JoinNewlineFree(Fields(f));
  }

  /** Reading what was saved gives the same entries, by path. */
  lemma {:induction false} LoadsSaved(files: seq<ImageFileInfo>, r: seq<ImageFileInfo>)
    requires forall i :: 0 <= i < |files| ==> Savable(files[i])
    ensures Loads(Saved(files), r) <==> SortedFrom(files, r)
  {
    ReadSavedLines(files);
    LinesOfUnlines(SaveLines(files));
  }

  /** For distinct paths the result is determined: the list in path order. */
  lemma {:induction false} SaveThenLoad(files: seq<ImageFileInfo>, r: seq<ImageFileInfo>)
    requires forall i :: 0 <= i < |files| ==> Savable(files[i])
    requires DistinctKeys(Path, files) && Loads(Saved(files), r)
    ensures StrictlySortedBy(Path, r) && r == SortBy(Path, files)
  {
    LoadsSaved(files, r);
    hide Savable, Loads;
    SortedDistinctIsStrict(files, r);
    SortBySorted(Path, files);
    SortedDistinctIsStrict(files, SortBy(Path, files));
    SameElements(files, r);
    SameElements(files, SortBy(Path, files));
    StrictlySortedUnique(Path, r, SortBy(Path, files));
  }

  lemma {:induction false} SortedDistinctIsStrict(files: seq<ImageFileInfo>, r: seq<ImageFileInfo>)
    requires DistinctKeys(Path, files) && SortedFrom(files, r)
    ensures StrictlySortedBy(Path, r)
  {
    PermutationDistinct(files, r);
    SameElements(files, r);
    forall i, j | 0 <= i < j < |r| ensures Less(Path(r[i]), Path(r[j])) {
      LessTotal(Path(r[i]), Path(r[j]));
      assert r[i] in files && r[j] in files;
    }
  }

  // ----- What is read can be saved -----

  lemma {:induction false} SplitChars(s: string, d: string, c: char)
    requires d != "" && c !in s
    ensures forall i :: 0 <= i < |Split(s, d)| ==> c !in Split(s, d)[i]
    decreases |s|
  {
    var i := FindDelim(s, d);
    if i >= 0 { SplitChars(s[i + |d|..], d, c); }
  }

  lemma {:induction false} ReadIsSavable(line: string)
    requires '\n' !in line && ReadLine(line).Some?
    ensures Savable(ReadLine(line).value)
  {
    var t := Split(line, NBSP);
    SplitChars(line, NBSP, '\n');
    JoinOfSplit(line, NBSP);
    var f := ReadLine(line).value;
    NumberIsSavable(f.size);
    NumberIsSavable(f.permissions);
    hide PrintNat, Stoull, Split, FindDelim;
  }

  lemma {:induction false} NumberIsSavable(n: nat)
    ensures Free(PrintNat(n), NBSP) && '\n' !in PrintNat(n)
  {
    PrintNatReads(n);
    DigitsFree(PrintNat(n));
  }

  lemma {:induction false} DigitsFree(s: string)
    requires AllDigits(s)
    ensures Free(s, NBSP) && '\n' !in s
  {
    if s != "" {
      DigitsFree(s[1..]);
      assert IsDigit(s[0]) && !IsDigit(NBSP[0]);
    }
  }

  lemma {:induction false} AllReadSavable(lines: seq<string>)
    requires NewlineFree(lines)
    ensures forall f :: f in ReadAll(lines) ==> Savable(f)
  {
    hide ReadLine, Savable;
    if lines != [] {
      AllReadSavable(lines[1..]);
      if ReadLine(lines[0]).Some? { ReadIsSavable(lines[0]); }
    }
  }

  /** Saving what was read from any text and reading it again changes nothing more than the
      order of entries with equal paths. */
  lemma {:induction false} LoadSaveLoad(text: string, r: seq<ImageFileInfo>, r': seq<ImageFileInfo>)
    requires Loads(text, r)
    ensures Loads(Saved(r), r') <==> SortedFrom(r, r')
    ensures Loads(Saved(r), r)
  {
    AllReadSavable(Lines(text));
    SameElements(ReadAll(Lines(text)), r);
    hide Savable;
    forall i | 0 <= i < |r| ensures Savable(r[i]) { assert r[i] in r; }
    LoadsSaved(r, r');
    LoadsSaved(r, r);
  }
}
