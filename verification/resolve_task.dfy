/** The resolver stages over the real databases and the real search for names, and the tasks
    that follow them (src/tracer.h:192-230, 358-377, 585-609). */
module ResolveTask {
  import opened Options
  import opened Paths
  import opened TrieModel
  import opened Packages
  import opened Planner
  import opened Manifests
  import opened DpkgDatabases
  import opened RpkgDatabases
  import opened SymlinkResolvers
  import opened FileTracers
  import opened Resolvers
  import opened InstallTask

  /** The stages ask these two databases. Only the name of a Debian package comes from the index. */
  ghost predicate AsksDatabases(w: Resolvers.World, deb: DpkgDatabase, r: RpkgDatabase)
    requires deb.files.Valid() && r.files.Valid()
    reads r, r.files, r.files.repr, deb.files, deb.files.repr
  {
    && (forall n {:trigger w.rOf(n)} :: w.rOf(n) == r.OwnerOf(n))
    && (forall n {:trigger w.debOf(n)} :: match deb.OwnerOf(n)
          case None => w.debOf(n) == None
          case Some(name) => w.debOf(n).Some? && w.debOf(n).value.name == name)
  }

  /** The names tried for a path are those the symbolic-link search finds. `parts` splits a name;
      unlike `Parts` it may keep the empty part of a trailing separator. */
  ghost predicate SearchesNames(w: Resolvers.World, f: FileSystem, links: seq<RootLink>, parts: string -> Path) {
    && (forall n {:trigger parts(n)} :: Normal(parts(n)) == Parts(n))
    && (forall path {:trigger w.aliases(path)} ::
          IsClosure(f, links, parts(path), set n | n in w.aliases(path) :: parts(n)))
  }

  /** `n` is among the names of `path`: every closed set around the path holds it. */
  ghost predicate Named(f: FileSystem, links: seq<RootLink>, path: Path, n: Path) {
    exists s :: IsClosure(f, links, path, s) && n in s
  }

  ghost predicate PassedOver(name: string) { Mentions(name, "rstudio") || Mentions(name, "bslib") }

  lemma NameTried(w: Resolvers.World, f: FileSystem, links: seq<RootLink>, parts: string -> Path, path: string, n: Path)
    returns (name: string)
    requires SearchesNames(w, f, links, parts) && Named(f, links, parts(path), n)
    ensures name in w.aliases(path) && parts(name) == n && Parts(name) == Normal(n)
  {
    var names := w.aliases(path);
    var tried := set m | m in names :: parts(m);
    var s :| IsClosure(f, links, parts(path), s) && n in s;
    ClosureUnique(f, links, parts(path), s, tried);
    name :| name in names && parts(name) == n;
  }

  lemma ListingsAgree(listFile: string -> ListFile, n: Path, name: string)
    requires Parts(name) == Normal(n)
    ensures forall p :: ListsPath(listFile(p), Normal(n)) <==> ListsLine(listFile(p), name)
  {
    hide ListsPath, ListsLine, Parts;
    forall p ensures ListsPath(listFile(p), Normal(n)) <==> ListsLine(listFile(p), name) { ListedLine(listFile(p), name); }
  }

  /** A file goes to Debian as soon as one of its names is listed, and by no package that is
      passed over. */
  lemma ListedGoesToDebian(w: Resolvers.World, deb: DpkgDatabase, r: RpkgDatabase, f: FileSystem, links: seq<RootLink>,
                           parts: string -> Path, path: string, n: Path)
    requires deb.Valid() && r.Valid() && AsksDatabases(w, deb, r) && SearchesNames(w, f, links, parts)
    requires Named(f, links, parts(path), n)
    requires exists p :: p in deb.packages && ListsPath(deb.listFile(p), Normal(n))
    requires forall p :: p in deb.packages && ListsPath(deb.listFile(p), Normal(n)) ==> !PassedOver(p)
    ensures StageOf(w, path) == DebStage
  {
    var name := NameTried(w, f, links, parts, path, n);
    deb.OwnerMeaning(name);
    ListingsAgree(deb.listFile, n, name);
    hide ListsPath, ListsLine;
    assert w.debOf(name).Some? && !Skipped(w.debOf(name).value);
    DebOwnerMeaning(w, w.aliases(path));
  }

  /** Conversely a file only goes to Debian when a package that is not passed over lists one of
      its names. */
  lemma DebianListsIt(w: Resolvers.World, deb: DpkgDatabase, r: RpkgDatabase, path: string) returns (name: string, p: string)
    requires deb.Valid() && r.Valid() && AsksDatabases(w, deb, r) && StageOf(w, path) == DebStage
    ensures name in w.aliases(path) && p in deb.packages && !PassedOver(p) && ListsLine(deb.listFile(p), name)
  {
    DebOwnerMeaning(w, w.aliases(path));
    name :| name in w.aliases(path) && w.debOf(name).Some? && !Skipped(w.debOf(name).value);
    deb.OwnerMeaning(name);
    p := deb.OwnerOf(name).value;
  }

  /** A file that Debian does not take goes to R as soon as one of its names is in the directory
      of an R package, unless package directories lie in one another. */
  lemma OwnedGoesToR(w: Resolvers.World, deb: DpkgDatabase, r: RpkgDatabase, f: FileSystem, links: seq<RootLink>,
                     parts: string -> Path, path: string, n: Path, k: string)
    requires deb.Valid() && r.Valid() && AsksDatabases(w, deb, r) && SearchesNames(w, f, links, parts)
    requires Named(f, links, parts(path), n) && Apart(r.packages) && Owns(r.packages, k, Normal(n))
    requires StageOf(w, path) != DebStage
    ensures StageOf(w, path) == RStage
  {
    var name := NameTried(w, f, links, parts, path, n);
    r.OwnerMeaning(name);
    assert w.rOf(name).Some?;
    ROwnerMeaning(w, w.aliases(path));
  }

  /** Recorded R packages are packages of the database, nearest to some name of a traced file. */
  lemma RecordedAreStored(w: Resolvers.World, deb: DpkgDatabase, r: RpkgDatabase, paths: set<string>)
    requires deb.Valid() && r.Valid() && AsksDatabases(w, deb, r)
    ensures ROwners(w, paths) <= r.packages.Keys
    ensures forall k :: k in ROwners(w, paths) ==>
      exists path, n :: path in paths && n in w.aliases(path) && IsNearestOwner(r.packages, k, Parts(n))
  {
    hide IsNearestOwner;
    forall k | k in ROwners(w, paths)
      ensures k in r.packages
      ensures exists path, n :: path in paths && n in w.aliases(path) && IsNearestOwner(r.packages, k, Parts(n))
    {
      var path :| path in paths && ROwner(w, path) == Some(k);
      ROwnerMeaning(w, w.aliases(path));
      var n :| n in w.aliases(path) && w.rOf(n) == Some(k);
      r.OwnerMeaning(n);
      NearestIsStored(r.packages, k, Parts(n));
    }
  }

  lemma NearestIsStored(packages: PackageMap, k: string, path: Path)
    requires IsNearestOwner(packages, k, path)
    ensures k in packages
  {
  }

  datatype TaskResult = ResolverRaised | Resolved(counts: seq<int>, closed: PlanResult, script: ScriptResult)

  /** From traced files to the installation script: what the stages record can be planned, and
      the script installs it unless its dependencies run in a circle. */
  method ResolveThenInstall(w: Resolvers.World, deb: DpkgDatabase, r: RpkgDatabase, state: TracerState) returns (t: TaskResult)
    requires deb.Valid() && r.Valid() && AsksDatabases(w, deb, r)
    requires state.manifest.rPackages == {}
    modifies state, state.manifest
    ensures t.ResolverRaised? <==> FirstStageRaises(w, old(state.files), old(state.symlinks))
    ensures t.Resolved? ==> state.files == [] && Sorted(w, old(state.files), t.counts)
    ensures t.Resolved? ==>
      var g, recorded := r.packages, ROwners(w, PathsOf(Keep(NotDeb(w), old(state.files))));
      && (t.closed.CycleDetected? <==> CycleReachable(g, recorded)) && !t.closed.CheckFailed?
      && (t.closed.Planned? && recorded != {} ==> t.script.Script? && GoodScript(g, recorded, t.script.batches, t.script.total))
  {
    hide FirstStageRaises, Keep, NotDeb, PathsOf, ROwners, GoodScript, CycleReachable, HoleReachable, IsBatched, IsPlan;
    ghost var recorded := ROwners(w, PathsOf(Keep(NotDeb(w), state.files)));
    RecordedAreStored(w, deb, r, PathsOf(Keep(NotDeb(w), state.files)));
    var ok, counts := RunResolvers(w, state);
    if !ok { return ResolverRaised; }
    assert state.manifest.rPackages == recorded;
    var closed, compiled, script := CloseThenInstall(r.packages, state.manifest);
    return Resolved(counts, closed, script);
  }
}
