/** The database of installed R packages: the parsed package map and the index from
    directories to packages (src/rpkg_database.h:121-222, 332-339). */
module RpkgDatabases {
  import opened Options
  import opened TrieModel
  import opened TrieLookup
  import opened FilesystemTrie
  import opened Packages
  import opened Paths
  import opened PathProperties
  import opened RpkgParser
  import opened RpkgLines
  import opened Text
  import opened Planner

  /** The parts of `lib / name`; an absolute name replaces the library. */
  function Directory(p: RPackage): (r: Path)
    ensures "" !in r
  {
    if IsAbsolute(p.name) then Parts(p.name) else Parts(p.libPath) + Names(p.name)
  }

  /** Each package was inserted once, under its directory. */
  ghost predicate Indexes(packages: PackageMap, ins: seq<(Path, string)>) {
    && (forall i :: 0 <= i < |ins| ==> ins[i].1 in packages && ins[i].0 == Directory(packages[ins[i].1]))
    && (forall k :: k in packages ==> Indexed(ins, k))
  }

  /** No package is installed below another one's directory, or in the same one. */
  ghost predicate Apart(packages: PackageMap) {
    forall k, k' :: k in packages && k' in packages && Directory(packages[k]) <= Directory(packages[k']) ==> k == k'
  }

  /** The package whose directory is `path` or above it. */
  ghost predicate Owns(packages: PackageMap, k: string, path: Path) {
    k in packages && Directory(packages[k]) <= path
  }

  /** The package of the deepest directory at or above `path`. */
  ghost predicate IsNearestOwner(packages: PackageMap, k: string, path: Path) {
    && Owns(packages, k, path)
    && forall k' :: Owns(packages, k', path) ==> |Directory(packages[k'])| <= |Directory(packages[k])|
  }

  /** The pieces of a package's path on disk. */
  ghost function PiecesOf(p: RPackage): (r: seq<string>) {
    if "/" <= p.name then Pieces(p.name) else Pieces(p.libPath) + Pieces(p.name)
  }

  /** In terms of the texts: a package owns the paths that start where its library does and whose
      pieces begin with those of its library and then those of its name. */
  lemma OwnsMeaning(packages: PackageMap, k: string, path: string)
    requires k in packages
    ensures var p := packages[k];
      var rooted := "/" <= p.name || "/" <= p.libPath;
      Owns(packages, k, Parts(path)) <==>
        (!rooted && PiecesOf(p) == []) || (rooted == ("/" <= path) && PiecesOf(p) <= Pieces(path))
  {
    var p := packages[k];
    var rooted := "/" <= p.name || "/" <= p.libPath;
    NamesArePieces(p.name);
    NamesArePieces(p.libPath);
    RootInFront(rooted, Names(p.libPath), Names(p.name));
    hide Names, Pieces;
    assert Directory(p) == (if rooted then ["/"] else []) + PiecesOf(p);
    if rooted || PiecesOf(p) != [] { PartsBelow(rooted, PiecesOf(p), path); }
  }

  lemma RootInFront(rooted: bool, a: seq<string>, b: seq<string>)
    ensures (if rooted then ["/"] else []) + a + b == (if rooted then ["/"] else []) + (a + b)
  {
  }

  ghost predicate OnePart(name: string) { name != "" && '/' !in name }

  lemma PiecesInLibrary(lib: string, name: string, tail: string)
    requires OnePart(name) && (tail == "" || tail[0] == '/')
    ensures Pieces(lib + "/" + name + tail) == Pieces(lib) + [name] + Pieces(tail) && Pieces(name) == [name]
    ensures lib != "" ==> ("/" <= lib <==> "/" <= lib + "/" + name + tail)
  {
    NamesArePieces(lib + "/" + name + tail);
    NamesArePieces(lib);
    NamesArePieces(name);
    NamesArePieces(tail);
    hide Pieces;
    NamesAfterSlash(lib, name + tail, "");
    NameEnds(name, tail);
    NameEnds(name, "");
    hide NamesFrom;
    assert name + "" == name && lib + "/" + (name + tail) == lib + "/" + name + tail;
    assert Names(lib) + ([name] + Names(tail)) == Names(lib) + [name] + Names(tail);
    assert Names("") == [];
  }

  /** Everything at or below `lib / name` belongs to the package, nothing in another directory of
      the library does. */
  lemma OwnsItsDirectory(packages: PackageMap, k: string, other: string, tail: string)
    requires k in packages && packages[k].libPath != "" && OnePart(packages[k].name)
    requires OnePart(other) && (tail == "" || tail[0] == '/')
    ensures Owns(packages, k, Parts(packages[k].libPath + "/" + other + tail)) <==> other == packages[k].name
  {
    var p := packages[k];
    OwnsMeaning(packages, k, p.libPath + "/" + other + tail);
    PiecesInLibrary(p.libPath, other, tail);
    PiecesInLibrary(p.libPath, p.name, tail);
    hide Pieces, Owns;
    var inside := Pieces(p.libPath) + [other] + Pieces(tail);
    assert p.name[0] != '/';
    assert PiecesOf(p) <= inside <==> other == p.name by {
      assert inside[..|PiecesOf(p)|] == Pieces(p.libPath) + [other];
      if PiecesOf(p) <= inside { assert PiecesOf(p)[|Pieces(p.libPath)|] == inside[|Pieces(p.libPath)|]; }
    }
  }

  lemma NearestOwnerFound(packages: PackageMap, ins: seq<(Path, string)>, path: Path, r: Option<string>)
    requires Indexes(packages, ins) && LongestMatch(ins, path, r)
    ensures r.None? ==> forall k :: !Owns(packages, k, path)
    ensures r.Some? ==> IsNearestOwner(packages, r.value, path)
  {
    if r.None? {
      forall k | k in packages ensures !Owns(packages, k, path) {
        var i :| 0 <= i < |ins| && ins[i].1 == k;
      }
    } else {
      var i :| 0 <= i < |ins| && LongestAt(ins, path, i) && r == LastInserted(ins, ins[i].0);
      LastInsertedWitness(ins, ins[i].0);
      var j :| 0 <= j < |ins| && ins[j] == (ins[i].0, r.value);
      assert ins[j].1 == r.value;
      forall k | Owns(packages, k, path) ensures |Directory(packages[k])| <= |Directory(packages[r.value])| {
        var m :| 0 <= m < |ins| && ins[m].1 == k;
        assert ins[m].0 <= path;
      }
    }
  }

  lemma ApartNeverShadows(packages: PackageMap, ins: seq<(Path, string)>, path: Path)
    requires Indexes(packages, ins) && Apart(packages)
    ensures !Shadowed(ins, path)
  {
    if Shadowed(ins, path) {
      var k, r: Path :| 0 <= k < |ins| && LongestAt(ins, path, k) && r <= path && InsertedBelow(ins, r) && |ins[k].0| < |r|;
      var i :| 0 <= i < |ins| && r <= ins[i].0;
      PrefixThrough(ins[k].0, r, path, ins[i].0);
    }
  }

  lemma PrefixThrough(a: Path, r: Path, p: Path, b: Path)
    requires a <= p && r <= p && |a| < |r| && r <= b
    ensures a <= b && a != b
  {
    assert a == p[..|a|] == r[..|a|] == b[..|a|];
  }

  class RpkgDatabase {
    var packages: PackageMap
    var files: FileSystemTrie<string>
    /** The insertions that made the index. */
    ghost var inserted: seq<(Path, string)>

    ghost predicate Valid()
      reads this, files, files.repr
    {
      && files.Valid() && WellNamed(packages) && Closed(packages)
      && files.contents == Build(inserted) && Indexes(packages, inserted)
    }

    constructor FromStream(input: string)
      ensures Valid() && fresh(files) && fresh(files.repr)
      ensures packages == ParsedPackages(input)
    {
      var parsed := ParseRPackages(input);
      ParsedIsClosed(input);
      var index, ins := BuildFilesDb(parsed);
      packages, files, inserted := parsed, index, ins;
    }

    /** The package that the index gives for a path. */
    ghost function OwnerOf(path: string): (r: Option<string>)
      requires files.Valid()
      reads this, files, files.repr
    {
      files.ContentsIsTree();
      TrieModel.Find(files.contents, DeepestPrefix(files.contents, Parts(path)))
    }

    /** A package that is found is the nearest owner, in every database. None is found for a
        path that another directory shadows, and otherwise only if the path has no owner. */
    lemma OwnerMeaning(path: string)
      requires Valid()
      ensures OwnerOf(path).Some? ==> IsNearestOwner(packages, OwnerOf(path).value, Parts(path))
      ensures OwnerOf(path).None? <==> Shadowed(inserted, Parts(path)) || forall k :: !Owns(packages, k, Parts(path))
      ensures Apart(packages) ==> !Shadowed(inserted, Parts(path))
    {
      files.ContentsIsTree();
      var p, r := Parts(path), OwnerOf(path);
      LongestUnlessShadowed(inserted, p, DeepestPrefix(files.contents, p));
      FoundIsLongest(inserted, p, DeepestPrefix(files.contents, p));
      if LongestMatch(inserted, p, r) { NearestOwnerFound(packages, inserted, p, r); }
      if r.None? && !Shadowed(inserted, p) { assert LongestMatch(inserted, p, r); }
      if Apart(packages) { ApartNeverShadows(packages, inserted, p); }
    }

    method LookupByPath(path: string) returns (r: Option<string>)
      requires Valid()
      ensures r == OwnerOf(path)
      ensures r.Some? ==> IsNearestOwner(packages, r.value, Parts(path))
      ensures r.None? <==> Shadowed(inserted, Parts(path)) || forall k :: !Owns(packages, k, Parts(path))
      ensures Apart(packages) ==> !Shadowed(inserted, Parts(path))
    {
      r := files.FindLastMatching(Parts(path));
      OwnerMeaning(path);
    }

    method Find(name: string) returns (r: Option<string>)
      requires Valid()
      ensures r == if name in packages then Some(name) else None
      ensures r.Some? ==> packages[r.value].name == name
    {
      if name in packages { return Some(name); }
      return None;
    }

    /** On a parsed database planning fails only for a cycle, never on a missing package. */
    method InstallationPlan(request: set<string>) returns (r: PlanResult)
      requires Valid() && request <= packages.Keys
      ensures !r.CheckFailed?
      ensures r.CycleDetected? <==> CycleReachable(packages, request)
      ensures r.Planned? ==> IsPlan(packages, request, r.plan)
    {
      r := GetInstallationPlan(packages, request);
    }
  }

  lemma OneOwner(packages: PackageMap, k: string, k': string, path: Path)
    requires Apart(packages) && Owns(packages, k, path) && Owns(packages, k', path)
    ensures k == k'
  {
    var a, b := Directory(packages[k]), Directory(packages[k']);
    hide Directory;
    if |a| <= |b| { PrefixOfLonger(a, b, path); } else { PrefixOfLonger(b, a, path); }
  }

  /** From the printed table alone: everything at or below `lib / name` of a row is found to belong
      to that row's package, when package directories do not lie in one another. */
  lemma InstalledFileFound(db: RpkgDatabase, rows: seq<Row>, i: nat, tail: string)
    requires db.Valid() && TableOk(rows) && db.packages == ParsedPackages(Unlines(TableLines(rows)))
    requires i < |rows| && Apart(db.packages) && (tail == "" || tail[0] == '/')
    requires rows[i].package.libPath != "" && OnePart(rows[i].package.name)
    ensures var p := rows[i].package; db.OwnerOf(p.libPath + "/" + p.name + tail) == Some(p.name)
  {
    var p := rows[i].package;
    var path := p.libPath + "/" + p.name + tail;
    TableReads(rows, p.name);
    hide ParsedPackages, TableLines, Unlines, TableOk, Owns, Apart, Parts, IsNearestOwner;
    OwnsItsDirectory(db.packages, p.name, p.name, tail);
    db.OwnerMeaning(path);
    NearestOwns(db.packages, db.OwnerOf(path).value, Parts(path));
    OneOwner(db.packages, p.name, db.OwnerOf(path).value, Parts(path));
  }

  lemma NearestOwns(packages: PackageMap, k: string, path: Path)
    requires IsNearestOwner(packages, k, path)
    ensures Owns(packages, k, path)
  {
  }

  /** Packages are taken in the order of the hash map, which is arbitrary. */
  method BuildFilesDb(packages: PackageMap) returns (files: FileSystemTrie<string>, ghost ins: seq<(Path, string)>)
    ensures fresh(files) && fresh(files.repr) && files.Valid()
    ensures files.contents == Build(ins) && files.size == BuildSize(ins)
    ensures Indexes(packages, ins) && |ins| == |packages|
  {
    NothingBuilt<string>();
    hide Build, BuildSize, TrieModel.Insert, Directory, Indexed;
    files := new FileSystemTrie<string>();
    ins := [];
    var todo := packages.Keys;
    while todo != {}
      invariant fresh(files) && fresh(files.repr) && files.Valid()
      invariant files.contents == Build(ins) && files.size == BuildSize(ins)
      invariant todo <= packages.Keys && |ins| + |todo| == |packages|
      invariant IndexesAllBut(packages, todo, ins)
      decreases |todo|
    {
      var k :| k in todo;
      files.Insert(Directory(packages[k]), k);
      IndexOneMore(packages, todo, ins, k);
      BuildOneMore(ins, (Directory(packages[k]), k));
      todo := todo - {k};
      ins := ins + [(Directory(packages[k]), k)];
    }
  }

  ghost predicate IndexesAllBut(packages: PackageMap, todo: set<string>, ins: seq<(Path, string)>) {
    && (forall i :: 0 <= i < |ins| ==> ins[i].1 in packages && ins[i].0 == Directory(packages[ins[i].1]))
    && (forall k :: k in packages && k !in todo ==> Indexed(ins, k))
  }

  ghost predicate Indexed(ins: seq<(Path, string)>, k: string) { exists i :: 0 <= i < |ins| && ins[i].1 == k }

  lemma IndexedOneMore(ins: seq<(Path, string)>, e: (Path, string), k: string)
    ensures Indexed(ins + [e], k) <==> Indexed(ins, k) || e.1 == k
  {
    var ins' := ins + [e];
    assert ins'[|ins|] == e;
    if i :| 0 <= i < |ins| && ins[i].1 == k { assert ins'[i].1 == k; }
  }

  lemma IndexOneMore(packages: PackageMap, todo: set<string>, ins: seq<(Path, string)>, k: string)
    requires IndexesAllBut(packages, todo, ins) && k in todo && k in packages
    ensures IndexesAllBut(packages, todo - {k}, ins + [(Directory(packages[k]), k)])
  {
    hide Directory, Indexed;
    forall x | x in packages && x !in todo - {k} ensures Indexed(ins + [(Directory(packages[k]), k)], x) {
      IndexedOneMore(ins, (Directory(packages[k]), k), x);
    }
  }
}
