/** The index from paths to Debian packages, built from the per-package file lists
    (src/dpkg_database.h:97-142). */
module DpkgDatabases {
  import opened Options
  import opened Text
  import opened TrieModel
  import opened FilesystemTrie
  import opened Paths
  import opened PathProperties

  /** What the file system holds at a package's list file. */
  datatype ListFile = NotRegular | CannotOpen | Contents(text: string)

  /** The list file of `name` has a line for `path`. */
  ghost predicate ListsPath(list: ListFile, path: Path) {
    list.Contents? && exists l :: l in Lines(list.text) && l != "" && Parts(l) == path
  }

  /** The same in terms of the text: one of the lines spells the path. */
  ghost predicate ListsLine(list: ListFile, path: string) {
    list.Contents? && exists l :: l in Lines(list.text) && l != "" && SamePath(l, path)
  }

  lemma ListedLine(list: ListFile, path: string)
    ensures ListsPath(list, Parts(path)) <==> ListsLine(list, path)
  {
    hide Parts, SamePath, Lines;
    if list.Contents? {
      forall l ensures Parts(l) == Parts(path) <==> SamePath(l, path) { PartsTell(l, path); }
    }
  }

  /** `ins` records, with their owners, the listed paths of the packages in `done`, and
      nothing else. */
  ghost predicate Records(listFile: string -> ListFile, done: set<string>, ins: seq<(Path, string)>) {
    && (forall i :: 0 <= i < |ins| ==> ins[i].1 in done && ListsPath(listFile(ins[i].1), ins[i].0))
    && (forall name, path :: name in done && ListsPath(listFile(name), path) ==> InsertedAt(ins, path))
  }

  ghost predicate InsertedAt(ins: seq<(Path, string)>, path: Path) {
    exists i :: 0 <= i < |ins| && ins[i].0 == path
  }

  /** The entries of one list file. */
  function Entries(lines: seq<string>, name: string): (r: seq<(Path, string)>) {
    if lines == [] then []
    else (if lines[0] == "" then [] else [(Parts(lines[0]), name)]) + Entries(lines[1..], name)
  }

  lemma {:induction false} EntriesMeaning(lines: seq<string>, name: string, path: Path)
    ensures InsertedAt(Entries(lines, name), path) <==> exists l :: l in lines && l != "" && Parts(l) == path
    ensures forall i :: 0 <= i < |Entries(lines, name)| ==> Entries(lines, name)[i].1 == name
  {
    if lines != [] {
      EntriesMeaning(lines[1..], name, path);
      var more := Entries(lines[1..], name);
      var first := if lines[0] == "" then [] else [(Parts(lines[0]), name)];
      InsertedAtConcat(first, more, path);
      assert lines[0] in lines;
      assert forall l :: l in lines <==> l == lines[0] || l in lines[1..];
      if lines[0] != "" { assert first[0].0 == Parts(lines[0]); }
    }
  }

  lemma InsertedAtConcat(a: seq<(Path, string)>, b: seq<(Path, string)>, path: Path)
    ensures InsertedAt(a + b, path) <==> InsertedAt(a, path) || InsertedAt(b, path)
  {
    if i :| 0 <= i < |a| && a[i].0 == path { assert (a + b)[i].0 == path; }
    if i :| 0 <= i < |b| && b[i].0 == path { assert (a + b)[|a| + i].0 == path; }
  }

  /** Adding a whole list file keeps the record. */
  lemma RecordsStep(listFile: string -> ListFile, done: set<string>, ins: seq<(Path, string)>, name: string)
    requires Records(listFile, done, ins) && !listFile(name).CannotOpen?
    ensures Records(listFile, done + {name},
                    ins + if listFile(name).Contents? then Entries(Lines(listFile(name).text), name) else [])
  {
    var list := listFile(name);
    var more := if list.Contents? then Entries(Lines(list.text), name) else [];
    hide Parts, Lines, Entries;
    forall path ensures InsertedAt(more, path) <==> ListsPath(list, path) {
      if list.Contents? { EntriesMeaning(Lines(list.text), name, path); }
    }
    forall i | 0 <= i < |more| ensures more[i].1 == name && ListsPath(list, more[i].0) {
      EntriesMeaning(Lines(list.text), name, more[i].0);
      assert InsertedAt(more, more[i].0);
    }
    forall n, path | n in done + {name} && ListsPath(listFile(n), path) ensures InsertedAt(ins + more, path) {
      InsertedAtConcat(ins, more, path);
      if n in done { assert InsertedAt(ins, path); }
    }
  }

  class DpkgDatabase {
    const packages: set<string>
    const files: FileSystemTrie<string>
    ghost const listFile: string -> ListFile
    ghost const inserted: seq<(Path, string)>

    ghost predicate Valid()
      reads files, files.repr
    {
      && files.Valid() && files.contents == Build(inserted)
      && Records(listFile, packages, inserted)
    }

    constructor (packages: set<string>, files: FileSystemTrie<string>, ghost listFile: string -> ListFile,
                 ghost inserted: seq<(Path, string)>)
      requires files.Valid() && files.contents == Build(inserted) && Records(listFile, packages, inserted)
      ensures Valid() && this.packages == packages && this.files == files && this.listFile == listFile
    {
      this.packages, this.files, this.listFile, this.inserted := packages, files, listFile, inserted;
    }

    /** The package that the index gives for a path. */
    ghost function OwnerOf(path: string): (r: Option<string>)
      requires files.Valid()
      reads files, files.repr
    {
      TrieModel.Find(files.contents, Parts(path))
    }

    /** A path has an owner exactly when it is listed, and the owner is a package that lists it. */
    lemma OwnerMeaning(path: string)
      requires Valid()
      ensures OwnerOf(path).Some? <==> exists name :: name in packages && ListsLine(listFile(name), path)
      ensures OwnerOf(path).Some? ==> OwnerOf(path).value in packages && ListsLine(listFile(OwnerOf(path).value), path)
    {
      var r := OwnerOf(path);
      BuildRefinesMap(inserted, Parts(path));
      LastInsertedWitness(inserted, Parts(path));
      hide Build, Parts, ListsPath, ListsLine;
      forall name ensures ListsPath(listFile(name), Parts(path)) <==> ListsLine(listFile(name), path) {
        ListedLine(listFile(name), path);
      }
      if r.Some? {
        assert r.value in packages && ListsPath(listFile(r.value), Parts(path));
      } else {
        forall name | name in packages ensures !ListsPath(listFile(name), Parts(path)) {
          assert !InsertedAt(inserted, Parts(path));
        }
      }
    }

    /** Succeeds exactly for the paths that some line spells, with a package that has such a line. */
    method LookupByPath(path: string) returns (r: Option<string>)
      requires Valid()
      ensures r == OwnerOf(path)
      ensures r.Some? <==> exists name :: name in packages && ListsLine(listFile(name), path)
      ensures r.Some? ==> r.value in packages && ListsLine(listFile(r.value), path)
    {
      r := files.Find(Parts(path));
      OwnerMeaning(path);
    }
  }

  method ProcessPackageListFile(trie: FileSystemTrie<string>, text: string, name: string, ghost ins: seq<(Path, string)>)
    requires trie.Valid() && trie.contents == Build(ins)
    modifies trie, trie.repr
    ensures trie.Valid() && fresh(trie.repr - old(trie.repr))
    ensures trie.contents == Build(ins + Entries(Lines(text), name))
  {
    hide Entries, Parts, Build;
    var lines := Lines(text);
    ghost var done := ins;
    assert lines[0..] == lines;
    for i := 0 to |lines|
      invariant trie.Valid() && fresh(trie.repr - old(trie.repr))
      invariant trie.contents == Build(done)
      invariant done + Entries(lines[i..], name) == ins + Entries(lines, name)
    {
      EntriesStep(lines, i, name, done);
      if lines[i] != "" {
        trie.Insert(Parts(lines[i]), name);
        BuildOneMore(done, (Parts(lines[i]), name));
        done := done + [(Parts(lines[i]), name)];
      }
    }
    NoEntries(lines, name, done);
  }

  lemma NoEntries(lines: seq<string>, name: string, done: seq<(Path, string)>)
    ensures done + Entries(lines[|lines|..], name) == done
  {
  }

  lemma EntriesStep(lines: seq<string>, i: nat, name: string, done: seq<(Path, string)>)
    requires i < |lines|
    ensures done + Entries(lines[i..], name) ==
      if lines[i] == "" then done + Entries(lines[i+1..], name)
      else done + [(Parts(lines[i]), name)] + Entries(lines[i+1..], name)
  {
    assert lines[i..][1..] == lines[i+1..];
  }

  /** None stands for the exception thrown when a regular list file cannot be opened. */
  method FromPath(packages: set<string>, listFile: string -> ListFile) returns (r: Option<DpkgDatabase>)
    ensures r.None? <==> exists name :: name in packages && listFile(name).CannotOpen?
    ensures r.Some? ==> r.value.Valid() && r.value.packages == packages && r.value.listFile == listFile
  {
    assert Records(listFile, {}, []);
    hide Records, ListsPath, Entries, Build, Parts, Lines;
    assert Build<string>([]) == Empty() by { NothingBuilt<string>(); }
    var trie := new FileSystemTrie<string>();
    ghost var ins: seq<(Path, string)> := [];
    var todo := packages;
    ghost var done: set<string> := {};
    while todo != {}
      invariant todo + done == packages && trie.Valid() && fresh(trie) && fresh(trie.repr)
      invariant trie.contents == Build(ins) && Records(listFile, done, ins)
      invariant forall name :: name in done ==> !listFile(name).CannotOpen?
      decreases |todo|
    {
      var name :| name in todo;
      var list := listFile(name);
      if list.CannotOpen? {
        assert name in packages;
        return None;
      }
      RecordsStep(listFile, done, ins, name);
      if list.Contents? {
        ProcessPackageListFile(trie, list.text, name, ins);
        ins := ins + Entries(Lines(list.text), name);
      } else {
        assert ins + [] == ins;
      }
      todo, done := todo - {name}, done + {name};
    }
    assert done == packages;
    var db := new DpkgDatabase(packages, trie, listFile, ins);
    return Some(db);
  }
}
