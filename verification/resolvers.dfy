/** The three resolver stages that sort every traced file into a package or the manifest's
    own file list (src/resolvers.h, src/tracer.h:192-230). */
module Resolvers {
  import opened Options
  import opened Splitting
  import opened Manifests
  import opened FileTracers

  /** A test that the library answers or raises an exception for. */
  datatype Answer = Yes | No | Raises

  datatype Access = Accessible | DoesNotExist | InsufficientPermission

  /** The databases and the file system, as they answer throughout. */
  datatype World = World(
    aliases: string -> seq<string>,           // resolve_symlinks, in the order of the hash set
    debOf: string -> Option<DebPackage>,      // dpkg lookup_by_path
    rOf: string -> Option<string>,            // R lookup_by_path
    access: string -> Access,                 // check_accessibility
    regular: string -> Answer,
    isLink: string -> Answer,
    linkTarget: string -> Option<string>,     // resolve_symlink
    exists_: string -> Answer)

  // ----- What each stage claims -----

  predicate Mentions(s: string, word: string) { FindDelim(s, word) >= 0 }

  /** Packages that the first stage passes over. */
  predicate Skipped(p: DebPackage) { Mentions(p.name, "rstudio") || Mentions(p.name, "bslib") }

  /** A package that settles where the file goes. */
  predicate Accepted(p: Option<DebPackage>) { p.Some? && !Skipped(p.value) }

  function FirstDeb(w: World, names: seq<string>): (r: Option<DebPackage>) {
    if names == [] then None
    else
      var p := w.debOf(names[0]);
      if Accepted(p) then p else FirstDeb(w, names[1..])
  }

  /** Looking through the names for a Debian package raises an exception: the kind of some name
      cannot be told before one that belongs to a package is met. */
  predicate DebRaising(w: World, names: seq<string>) {
    names != [] && (w.regular(names[0]).Raises? || (!Accepted(w.debOf(names[0])) && DebRaising(w, names[1..])))
  }

  predicate DebRaises(w: World, path: string) { DebRaising(w, w.aliases(path)) }

  function FirstR(w: World, names: seq<string>): (r: Option<string>) {
    if names == [] then None
    else if w.rOf(names[0]).Some? then w.rOf(names[0])
    else FirstR(w, names[1..])
  }

  function DebOwner(w: World, path: string): (r: Option<DebPackage>) { FirstDeb(w, w.aliases(path)) }

  function ROwner(w: World, path: string): (r: Option<string>) { FirstR(w, w.aliases(path)) }

  lemma {:induction false} DebStep(w: World, names: seq<string>, i: nat)
    requires i < |names|
    ensures var p := w.debOf(names[i]);
      && (DebRaising(w, names[i..]) <==> w.regular(names[i]).Raises? || (!Accepted(p) && DebRaising(w, names[i+1..])))
      && FirstDeb(w, names[i..]) == if Accepted(p) then p else FirstDeb(w, names[i+1..])
  {
    hide Accepted;
    assert names[i..][1..] == names[i+1..];
  }

  /** A file goes to a Debian package exactly when some name of it does, RStudio's aside. */
  lemma {:induction false} DebOwnerMeaning(w: World, names: seq<string>)
    ensures FirstDeb(w, names).Some? <==>
      exists n :: n in names && w.debOf(n).Some? && !Skipped(w.debOf(n).value)
    ensures FirstDeb(w, names).Some? ==> exists n :: n in names && w.debOf(n) == FirstDeb(w, names)
  {
    hide Skipped;
    if names != [] {
      DebOwnerMeaning(w, names[1..]);
      assert names[0] in names;
      assert forall n :: n in names <==> n == names[0] || n in names[1..];
    }
  }

  /** Exactly when looking through the names raises an exception: the kind of some name cannot be
      told, and no name before it settles where the file goes. */
  lemma {:induction false} DebRaisingMeaning(w: World, names: seq<string>)
    ensures DebRaising(w, names) <==>
      exists i :: 0 <= i < |names| && w.regular(names[i]) == Raises && !SettledBefore(w, names, i)
  {
    if names != [] {
      var more := names[1..];
      DebRaisingMeaning(w, more);
      hide Skipped;
      assert forall i :: 1 <= i < |names| ==> names[i] == more[i-1];
      assert w.regular(names[0]) == Raises ==> !SettledBefore(w, names, 0);
      forall i: nat | i < |more| ensures SettledBefore(w, names, i + 1) <==> Settles(w, names[0]) || SettledBefore(w, more, i) {
        if j :| 0 <= j < i && Settles(w, more[j]) { assert Settles(w, names[j+1]); }
        if j :| 0 <= j < i + 1 && Settles(w, names[j]) && j > 0 { assert Settles(w, more[j-1]); }
      }
      if i: nat :| i < |more| && w.regular(more[i]) == Raises && !SettledBefore(w, more, i) && !Settles(w, names[0]) {
        assert w.regular(names[i+1]) == Raises && !SettledBefore(w, names, i + 1);
      }
      if i: nat :| 0 < i < |names| && w.regular(names[i]) == Raises && !SettledBefore(w, names, i) {
        assert w.regular(more[i-1]) == Raises && !SettledBefore(w, more, i - 1);
        assert !Settles(w, names[0]);
      }
    }
  }

  /** The name belongs to a Debian package that is not passed over. */
  ghost predicate Settles(w: World, name: string) { w.debOf(name).Some? && !Skipped(w.debOf(name).value) }

  ghost predicate SettledBefore(w: World, names: seq<string>, i: nat)
    requires i <= |names|
  {
    exists j :: 0 <= j < i && Settles(w, names[j])
  }

  /** The package is that of the first name that settles it. */
  lemma {:induction false} DebOwnerIsFirst(w: World, names: seq<string>, i: nat)
    requires i < |names| && Settles(w, names[i]) && !SettledBefore(w, names, i)
    ensures FirstDeb(w, names) == w.debOf(names[i])
    decreases i
  {
    hide Skipped;
    if i > 0 {
      assert !Settles(w, names[0]) && names[1..][i-1] == names[i];
      assert forall j :: 0 <= j < i - 1 ==> names[1..][j] == names[j+1];
      hide Settles;
      assert !SettledBefore(w, names[1..], i - 1);
      DebOwnerIsFirst(w, names[1..], i - 1);
      assert Accepted(w.debOf(names[0])) <==> Settles(w, names[0]) by { AcceptedSettles(w, names[0]); }
    }
  }

  lemma AcceptedSettles(w: World, name: string)
    ensures Accepted(w.debOf(name)) <==> Settles(w, name)
  {
    hide Skipped;
  }

  lemma {:induction false} ROwnerIsFirst(w: World, names: seq<string>, i: nat)
    requires i < |names| && w.rOf(names[i]).Some? && forall j :: 0 <= j < i ==> w.rOf(names[j]).None?
    ensures FirstR(w, names) == w.rOf(names[i])
    decreases i
  {
    if i > 0 {
      assert forall j :: 0 <= j < i ==> names[1..][j] == names[j+1];
      ROwnerIsFirst(w, names[1..], i - 1);
    }
  }

  lemma {:induction false} ROwnerMeaning(w: World, names: seq<string>)
    ensures FirstR(w, names).Some? <==> exists n :: n in names && w.rOf(n).Some?
    ensures FirstR(w, names).Some? ==> exists n :: n in names && w.rOf(n) == FirstR(w, names)
  {
    if names != [] {
      ROwnerMeaning(w, names[1..]);
      assert names[0] in names;
      assert forall n :: n in names <==> n == names[0] || n in names[1..];
    }
  }

  datatype Stage = DebStage | RStage | CopyStage

  /** The stage that takes a file. */
  function StageOf(w: World, path: string): (r: Stage) {
    if DebOwner(w, path).Some? then DebStage
    else if ROwner(w, path).Some? then RStage
    else CopyStage
  }

  /** Whether a path leads to a regular file, its own link followed by hand. */
  function Considered(w: World, path: string): (r: Answer) {
    if w.regular(path).Raises? then Raises
    else
      match w.isLink(path)
      case Raises => Raises
      case No => w.regular(path)
      case Yes => if w.linkTarget(path).Some? then w.regular(w.linkTarget(path).value) else w.regular(path)
  }

  function StatusOf(w: World, f: FileInfo): (r: FileStatus) {
    match w.access(f.path)
    case DoesNotExist => IgnoreNoLongerExist
    case InsufficientPermission => IgnoreNotAccessible
    case Accessible =>
      match Considered(w, f.path)
      case Raises => IgnoreNotAccessible
      case No => IgnoreDirectory
      case Yes => if f.existedBefore then Copy else Result
  }

  /** The path that decides the kind: the link's target for a link that can be followed. */
  function Behind(w: World, path: string): (r: string) {
    if w.isLink(path).Yes? && w.linkTarget(path).Some? then w.linkTarget(path).value else path
  }

  /** The library can tell what kind of file the path and what lies behind it are. */
  predicate KindKnown(w: World, path: string) {
    !w.regular(path).Raises? && !w.isLink(path).Raises? && !w.regular(Behind(w, path)).Raises?
  }

  /** What each status says about the file; every file has exactly one, and none is marked as
      not having existed before. */
  lemma StatusMeaning(w: World, f: FileInfo)
    ensures var s, here := StatusOf(w, f), w.access(f.path) == Accessible;
      && (s == Copy <==> here && KindKnown(w, f.path) && w.regular(Behind(w, f.path)) == Yes && f.existedBefore)
      && (s == Result <==> here && KindKnown(w, f.path) && w.regular(Behind(w, f.path)) == Yes && !f.existedBefore)
      && (s == IgnoreDirectory <==> here && KindKnown(w, f.path) && w.regular(Behind(w, f.path)) == No)
      && (s == IgnoreNoLongerExist <==> w.access(f.path) == DoesNotExist)
      && (s == IgnoreNotAccessible <==> w.access(f.path) == InsufficientPermission || (here && !KindKnown(w, f.path)))
  {
  }

  // ----- Lists -----

  function Keep<T>(p: T -> bool, s: seq<T>): (r: seq<T>) {
    if s == [] then []
    else Keep(p, s[..|s|-1]) + (if p(s[|s|-1]) then [s[|s|-1]] else [])
  }

  lemma {:induction false} KeepStep<T>(p: T -> bool, s: seq<T>, i: nat)
    requires i < |s|
    ensures Keep(p, s[..i+1]) == Keep(p, s[..i]) + (if p(s[i]) then [s[i]] else [])
  {
    assert s[..i+1][..i] == s[..i];
  }

  lemma {:induction false} KeepSnoc<T>(p: T -> bool, s: seq<T>, x: T)
    ensures Keep(p, s + [x]) == Keep(p, s) + (if p(x) then [x] else [])
  {
    assert (s + [x])[..|s|] == s;
  }

  /** The parts of a list under a test and its opposite add up to the list. */
  lemma {:induction false} KeepMeaning<T>(p: T -> bool, q: T -> bool, s: seq<T>)
    requires forall x :: q(x) <==> !p(x)
    ensures |Keep(p, s)| + |Keep(q, s)| == |s|
    ensures forall x :: x in Keep(p, s) <==> x in s && p(x)
    decreases |s|
  {
    if s != [] {
      var before, last := s[..|s|-1], s[|s|-1];
      KeepMeaning(p, q, before);
      assert forall x :: x in s <==> x in before || x == last;
    }
  }

  /** Keeping goes on in order: a list is kept part by part, and an element alone if it passes. */
  lemma {:induction false} KeepConcat<T>(p: T -> bool, s: seq<T>, t: seq<T>)
    ensures Keep(p, s + t) == Keep(p, s) + Keep(p, t)
    ensures |t| == 1 ==> Keep(p, t) == if p(t[0]) then t else []
    decreases |t|
  {
    if t == [] {
      assert s + t == s;
    } else {
      assert (s + t)[..|s + t|-1] == s + t[..|t|-1];
      KeepConcat(p, s, t[..|t|-1]);
      if |t| == 1 { assert t == [t[0]]; }
    }
  }

  lemma {:induction false} KeepTwice<T>(p: T -> bool, q: T -> bool, both: T -> bool, s: seq<T>)
    requires forall x :: both(x) <==> p(x) && q(x)
    ensures Keep(q, Keep(p, s)) == Keep(both, s)
    decreases |s|
  {
    if s != [] {
      var before, last := s[..|s|-1], s[|s|-1];
      KeepTwice(p, q, both, before);
      KeepSnoc(q, Keep(p, before), last);
      assert Keep(p, before) + [] == Keep(p, before);
    }
  }

  /** The manifest entries after adding some files: an existing entry stays. */
  function AddAll(w: World, copyFiles: CopyFiles, files: seq<FileInfo>): (r: CopyFiles) {
    if files == [] then copyFiles
    else
      var before := AddAll(w, copyFiles, files[..|files|-1]);
      var f := files[|files|-1];
      if f.path in before then before else before[f.path := StatusOf(w, f)]
  }

  lemma {:induction false} AddAllMeaning(w: World, copyFiles: CopyFiles, files: seq<FileInfo>)
    ensures forall p :: p in copyFiles ==> p in AddAll(w, copyFiles, files) && AddAll(w, copyFiles, files)[p] == copyFiles[p]
    ensures forall f :: f in files ==> f.path in AddAll(w, copyFiles, files)
    ensures forall p :: p in AddAll(w, copyFiles, files) && p !in copyFiles ==>
      exists f :: f in files && f.path == p && AddAll(w, copyFiles, files)[p] == StatusOf(w, f)
    decreases |files|
  {
    hide StatusOf;
    if files != [] {
      var before, last := files[..|files|-1], files[|files|-1];
      AddAllMeaning(w, copyFiles, before);
      assert forall f :: f in files <==> f in before || f == last;
      var r := AddAll(w, copyFiles, files);
      forall p | p in r && p !in copyFiles ensures exists f :: f in files && f.path == p && r[p] == StatusOf(w, f) {
        if p in AddAll(w, copyFiles, before) {
          var f :| f in before && f.path == p && AddAll(w, copyFiles, before)[p] == StatusOf(w, f);
          assert f in files;
        } else {
          assert last in files;
        }
      }
    }
  }

  // ----- The stages -----

  /** What the tasks share: files and links not sorted yet, and the manifest. */
  class TracerState {
    var files: seq<FileInfo>
    var symlinks: map<string, string>
    const manifest: Manifest

    constructor (files: seq<FileInfo>, symlinks: map<string, string>, manifest: Manifest)
      ensures this.files == files && this.symlinks == symlinks && this.manifest == manifest
    {
      this.files, this.symlinks, this.manifest := files, symlinks, manifest;
    }
  }

  function NotDeb(w: World): (r: FileInfo -> bool) { (f: FileInfo) => DebOwner(w, f.path).None? }

  function NotR(w: World): (r: FileInfo -> bool) { (f: FileInfo) => ROwner(w, f.path).None? }

  function DebOwners(w: World, paths: set<string>): (r: set<DebPackage>) {
    set p | p in paths && DebOwner(w, p).Some? :: DebOwner(w, p).value
  }

  function ROwners(w: World, paths: set<string>): (r: set<string>) {
    set p | p in paths && ROwner(w, p).Some? :: ROwner(w, p).value
  }

  function PathsOf(files: seq<FileInfo>): (r: set<string>) { set f | f in files :: f.path }

  function Unowned(w: World, links: map<string, string>, done: set<string>): (r: map<string, string>) {
    map p | p in links && !(p in done && DebOwner(w, p).Some?) :: links[p]
  }

  /** A link that is still one, and leads somewhere. */
  predicate Installable(w: World, path: string, target: string) { w.isLink(path).Yes? && w.exists_(target).Yes? }

  function InstallableLinks(w: World, links: map<string, string>, done: set<string>): (r: set<string>) {
    set p | p in links && p in done && Installable(w, p, links[p])
  }

  /** Erasing owned links: `left` is what is left when all but `todo` have been looked at. */
  ghost predicate Erasing(w: World, links: map<string, string>, todo: set<string>, left: map<string, string>,
                          before: set<DebPackage>, owners: set<DebPackage>) {
    && todo <= links.Keys && left == Unowned(w, links, links.Keys - todo)
    && owners == before + DebOwners(w, links.Keys - todo)
  }

  lemma ErasingStarts(w: World, links: map<string, string>, before: set<DebPackage>)
    ensures Erasing(w, links, links.Keys, links, before, before)
  {
    hide DebOwner;
    assert links.Keys - links.Keys == {};
  }

  lemma ErasingStep(w: World, links: map<string, string>, todo: set<string>, left: map<string, string>,
                    before: set<DebPackage>, owners: set<DebPackage>, p: string)
    requires Erasing(w, links, todo, left, before, owners) && p in todo
    ensures DebOwner(w, p).Some? ==>
      Erasing(w, links, todo - {p}, left - {p}, before, owners + {DebOwner(w, p).value})
    ensures DebOwner(w, p).None? ==> Erasing(w, links, todo - {p}, left, before, owners)
  {
    var done := links.Keys - todo;
    OwnersGrow(w, done, p);
    hide DebOwner, DebOwners;
    assert links.Keys - (todo - {p}) == done + {p};
  }

  lemma ErasingEnds(w: World, links: map<string, string>, left: map<string, string>, before: set<DebPackage>,
                    owners: set<DebPackage>)
    requires Erasing(w, links, {}, left, before, owners)
    ensures left == Unowned(w, links, links.Keys) && owners == before + DebOwners(w, links.Keys)
  {
    assert links.Keys - {} == links.Keys;
  }

  /** Moving installable links to the manifest. */
  ghost predicate Installing(w: World, links: map<string, string>, todo: set<string>, left: map<string, string>,
                             before: set<string>, installed: set<string>) {
    && todo <= links.Keys && left == links - InstallableLinks(w, links, links.Keys - todo)
    && installed == before + InstallableLinks(w, links, links.Keys - todo)
  }

  lemma InstallingStarts(w: World, links: map<string, string>, before: set<string>)
    ensures Installing(w, links, links.Keys, links, before, before)
  {
    hide Installable;
    assert links.Keys - links.Keys == {};
    assert InstallableLinks(w, links, {}) == {};
  }

  lemma InstallingStep(w: World, links: map<string, string>, todo: set<string>, left: map<string, string>,
                       before: set<string>, installed: set<string>, p: string)
    requires Installing(w, links, todo, left, before, installed) && p in todo
    ensures p in left && left[p] == links[p]
    ensures Installable(w, p, links[p]) ==> Installing(w, links, todo - {p}, left - {p}, before, installed + {p})
    ensures !Installable(w, p, links[p]) ==> Installing(w, links, todo - {p}, left, before, installed)
  {
    hide Installable;
    var done := links.Keys - todo;
    assert InstallableLinks(w, links, done + {p}) ==
      InstallableLinks(w, links, done) + (if Installable(w, p, links[p]) then {p} else {});
    hide InstallableLinks;
    assert links.Keys - (todo - {p}) == done + {p};
  }

  lemma InstallingEnds(w: World, links: map<string, string>, left: map<string, string>, before: set<string>,
                       installed: set<string>)
    requires Installing(w, links, {}, left, before, installed)
    ensures left == links - InstallableLinks(w, links, links.Keys)
    ensures installed == before + InstallableLinks(w, links, links.Keys)
  {
    hide InstallableLinks;
    assert links.Keys - {} == links.Keys;
  }

  lemma OwnersGrow(w: World, paths: set<string>, p: string)
    ensures DebOwners(w, paths + {p}) ==
      DebOwners(w, paths) + (if DebOwner(w, p).Some? then {DebOwner(w, p).value} else {})
    ensures ROwners(w, paths + {p}) == ROwners(w, paths) + (if ROwner(w, p).Some? then {ROwner(w, p).value} else {})
  {
    hide DebOwner, ROwner;
  }

  lemma PathsGrow(files: seq<FileInfo>, i: nat)
    requires i < |files|
    ensures PathsOf(files[..i+1]) == PathsOf(files[..i]) + {files[i].path}
  {
    assert forall f :: f in files[..i+1] <==> f in files[..i] || f == files[i];
  }

  class DebPackageResolver {
    const w: World
    var resolvedPackages: set<DebPackage>

    constructor (w: World)
      ensures this.w == w && resolvedPackages == {}
    {
      this.w, resolvedPackages := w, {};
    }

    /** Tries the names of a file until one belongs to a package; not `ok` when an exception
        stops the search. */
    method Resolved(path: string) returns (ok: bool, r: bool)
      modifies this
      ensures ok <==> !DebRaises(w, path)
      ensures ok ==> (r <==> DebOwner(w, path).Some?)
      ensures ok ==> resolvedPackages == old(resolvedPackages) + (if r then {DebOwner(w, path).value} else {})
    {
      hide Skipped, FirstDeb, DebRaising;
      var names := w.aliases(path);
      assert names[0..] == names;
      for i := 0 to |names|
        invariant FirstDeb(w, names[i..]) == FirstDeb(w, names) && (DebRaising(w, names[i..]) <==> DebRaising(w, names))
        invariant resolvedPackages == old(resolvedPackages)
      {
        DebStep(w, names, i);
        if w.regular(names[i]).Raises? { return false, false; }
        var pkg := w.debOf(names[i]);
        if pkg.Some? {
          if Skipped(pkg.value) { continue; }
          resolvedPackages := resolvedPackages + {pkg.value};
          return true, true;
        }
      }
      NoNames(w);
      assert names[|names|..] == [];
      return true, false;
    }

    method EraseFiles(state: TracerState) returns (ok: bool)
      modifies this, state`files
      ensures ok <==> forall f :: f in old(state.files) ==> !DebRaises(w, f.path)
      ensures ok ==> state.files == Keep(NotDeb(w), old(state.files))
      ensures ok ==> resolvedPackages == old(resolvedPackages) + DebOwners(w, PathsOf(old(state.files)))
    {
      hide DebOwner, DebOwners, PathsOf, DebRaises;
      var files, kept := state.files, [];
      NoOwners(w);
      for i := 0 to |files|
        invariant state.files == files
        invariant forall j :: 0 <= j < i ==> !DebRaises(w, files[j].path)
        invariant kept == Keep(NotDeb(w), files[..i])
        invariant resolvedPackages == old(resolvedPackages) + DebOwners(w, PathsOf(files[..i]))
      {
        KeepStep(NotDeb(w), files, i);
        PathsGrow(files, i);
        OwnersGrow(w, PathsOf(files[..i]), files[i].path);
        var resolved;
        ok, resolved := Resolved(files[i].path);
        if !ok {
          assert files[i] in files;
          return;
        }
        if !resolved { kept := kept + [files[i]]; }
      }
      assert files[..|files|] == files;
      state.files := kept;
      ok := true;
    }

    method EraseSymlinks(state: TracerState) returns (ok: bool)
      modifies this, state`symlinks
      ensures ok <==> forall p :: p in old(state.symlinks) ==> !DebRaises(w, p)
      ensures ok ==> state.symlinks == Unowned(w, old(state.symlinks), old(state.symlinks).Keys)
      ensures ok ==> resolvedPackages == old(resolvedPackages) + DebOwners(w, old(state.symlinks).Keys)
    {
      hide DebOwner, DebOwners, Unowned, Erasing, DebRaises;
      ghost var links, before := state.symlinks, resolvedPackages;
      var todo := state.symlinks.Keys;
      ErasingStarts(w, links, before);
      while todo != {}
        invariant todo <= links.Keys && forall p :: p in links && p !in todo ==> !DebRaises(w, p)
        invariant Erasing(w, links, todo, state.symlinks, before, resolvedPackages)
        decreases |todo|
      {
        var p :| p in todo;
        ErasingStep(w, links, todo, state.symlinks, before, resolvedPackages, p);
        todo := todo - {p};
        var resolved;
        ok, resolved := Resolved(p);
        if !ok { return; }
        if resolved { state.symlinks := state.symlinks - {p}; } else { NothingMore(resolvedPackages); }
      }
      ErasingEnds(w, links, state.symlinks, before, resolvedPackages);
      ok := true;
    }

    /** Not `ok` when an exception leaves the stage; the manifest is then as before. */
    method Resolve(state: TracerState) returns (ok: bool)
      requires resolvedPackages == {}
      modifies this, state, state.manifest`debPackages
      ensures ok <==> !FirstStageRaises(w, old(state.files), old(state.symlinks))
      ensures ok ==> state.files == Keep(NotDeb(w), old(state.files))
      ensures ok ==> state.symlinks == Unowned(w, old(state.symlinks), old(state.symlinks).Keys)
      ensures state.manifest.debPackages == old(state.manifest.debPackages) +
        if ok then DebOwners(w, PathsOf(old(state.files)) + old(state.symlinks).Keys) else {}
    {
      OwnersUnion(w, PathsOf(state.files), state.symlinks.Keys);
      hide Keep, Unowned, DebOwners, PathsOf, DebRaises;
      NothingMore(state.manifest.debPackages);
      ok := EraseFiles(state);
      if !ok { return; }
      ok := EraseSymlinks(state);
      if !ok { return; }
      state.manifest.debPackages := state.manifest.debPackages + resolvedPackages;
    }
  }

  /** The first stage looks through the names of every file and every link. */
  ghost predicate FirstStageRaises(w: World, files: seq<FileInfo>, links: map<string, string>) {
    (exists f :: f in files && DebRaises(w, f.path)) || (exists p :: p in links && DebRaises(w, p))
  }

  lemma NoNames(w: World)
    ensures FirstDeb(w, []) == None && !DebRaising(w, [])
  {
  }

  lemma NothingMore<T>(s: set<T>)
    ensures s + {} == s
  {
  }

  lemma NoOwners(w: World)
    ensures DebOwners(w, {}) == {} && ROwners(w, {}) == {} && PathsOf([]) == {}
  {
  }

  lemma OwnersUnion(w: World, a: set<string>, b: set<string>)
    ensures DebOwners(w, a + b) == DebOwners(w, a) + DebOwners(w, b)
  {
    hide DebOwner;
  }

  class RPackageResolver {
    const w: World
    var resolvedPackages: set<string>

    constructor (w: World)
      ensures this.w == w && resolvedPackages == {}
    {
      this.w, resolvedPackages := w, {};
    }

    method Resolved(path: string) returns (r: bool)
      modifies this
      ensures r <==> ROwner(w, path).Some?
      ensures resolvedPackages == old(resolvedPackages) + (if r then {ROwner(w, path).value} else {})
    {
      var names := w.aliases(path);
      assert names[0..] == names;
      for i := 0 to |names|
        invariant FirstR(w, names[i..]) == FirstR(w, names)
        invariant resolvedPackages == old(resolvedPackages)
      {
        assert names[i..][1..] == names[i+1..];
        var pkg := w.rOf(names[i]);
        if pkg.Some? {
          resolvedPackages := resolvedPackages + {pkg.value};
          return true;
        }
      }
      return false;
    }

    method Resolve(state: TracerState)
      requires resolvedPackages == {}
      modifies this, state`files, state.manifest`rPackages
      ensures state.files == Keep(NotR(w), old(state.files))
      ensures state.manifest.rPackages == old(state.manifest.rPackages) + ROwners(w, PathsOf(old(state.files)))
    {
      hide ROwner, ROwners, PathsOf;
      var files, kept := state.files, [];
      NoOwners(w);
      for i := 0 to |files|
        invariant kept == Keep(NotR(w), files[..i])
        invariant resolvedPackages == ROwners(w, PathsOf(files[..i]))
        invariant state.manifest.rPackages == old(state.manifest.rPackages)
      {
        KeepStep(NotR(w), files, i);
        PathsGrow(files, i);
        OwnersGrow(w, PathsOf(files[..i]), files[i].path);
        var resolved := Resolved(files[i].path);
        if !resolved { kept := kept + [files[i]]; }
      }
      assert files[..|files|] == files;
      state.files := kept;
      state.manifest.rPackages := state.manifest.rPackages + resolvedPackages;
    }
  }

  class CopyFileResolver {
    const w: World

    constructor (w: World)
      ensures this.w == w
    {
      this.w := w;
    }

    method Status(f: FileInfo) returns (status: FileStatus)
      ensures status == StatusOf(w, f)
    {
      match w.access(f.path) {
        case Accessible =>
          var shouldConsider := w.regular(f.path);
          if shouldConsider.Raises? { return IgnoreNotAccessible; }
          var isLink := w.isLink(f.path);
          if isLink.Raises? { return IgnoreNotAccessible; }
          if isLink.Yes? {
            var it := w.linkTarget(f.path);
            if it.Some? {
              shouldConsider := w.regular(it.value);
              if shouldConsider.Raises? { return IgnoreNotAccessible; }
            }
          }
          if shouldConsider.Yes? {
            status := if f.existedBefore then Copy else Result;
          } else {
            status := IgnoreDirectory;
          }
        case DoesNotExist => status := IgnoreNoLongerExist;
        case InsufficientPermission => status := IgnoreNotAccessible;
      }
    }

    method ResolveFiles(state: TracerState)
      modifies state`files, state.manifest`copyFiles
      ensures state.files == []
      ensures state.manifest.copyFiles == AddAll(w, old(state.manifest.copyFiles), old(state.files))
    {
      hide StatusOf;
      var manifest, files := state.manifest, state.files;
      var resultFiles := set p | p in manifest.copyFiles && manifest.copyFiles[p] == Result;
      for i := 0 to |files|
        invariant manifest.copyFiles == AddAll(w, old(state.manifest.copyFiles), files[..i])
      {
        var f := files[i];
        assert files[..i+1][..i] == files[..i];
        AddAllMeaning(w, old(state.manifest.copyFiles), files[..i]);
        if f.path in resultFiles { continue; }
        var status := Status(f);
        if f.path !in manifest.copyFiles { manifest.copyFiles := manifest.copyFiles[f.path := status]; }
      }
      assert files[..|files|] == files;
      state.files := [];
    }

    method ResolveSymlinks(state: TracerState)
      modifies state`symlinks, state.manifest`symlinks
      ensures var links, installed := old(state.symlinks), InstallableLinks(w, old(state.symlinks), old(state.symlinks).Keys);
        state.symlinks == links - installed && state.manifest.symlinks == old(state.manifest.symlinks) + installed
    {
      hide InstallableLinks, Installing;
      ghost var links, before := state.symlinks, state.manifest.symlinks;
      var todo := state.symlinks.Keys;
      InstallingStarts(w, links, before);
      while todo != {}
        invariant Installing(w, links, todo, state.symlinks, before, state.manifest.symlinks)
        decreases |todo|
      {
        var p :| p in todo;
        InstallingStep(w, links, todo, state.symlinks, before, state.manifest.symlinks, p);
        todo := todo - {p};
        if w.isLink(p).Yes? && w.exists_(state.symlinks[p]).Yes? {
          state.manifest.symlinks := state.manifest.symlinks + {p};
          state.symlinks := state.symlinks - {p};
        }
      }
      InstallingEnds(w, links, state.symlinks, before, state.manifest.symlinks);
    }

    method Resolve(state: TracerState)
      modifies state, state.manifest`copyFiles, state.manifest`symlinks
      ensures state.files == []
      ensures state.manifest.copyFiles == AddAll(w, old(state.manifest.copyFiles), old(state.files))
      ensures var links, installed := old(state.symlinks), InstallableLinks(w, old(state.symlinks), old(state.symlinks).Keys);
        state.symlinks == links - installed && state.manifest.symlinks == old(state.manifest.symlinks) + installed
    {
      ResolveFiles(state);
      ResolveSymlinks(state);
    }
  }

  // ----- The pipeline -----

  function TakenBy(w: World, stage: Stage): (r: FileInfo -> bool) { (f: FileInfo) => StageOf(w, f.path) == stage }

  /** A file that no package database claims. */
  ghost predicate Unclaimed(w: World, files: seq<FileInfo>, f: FileInfo) {
    f in files && StageOf(w, f.path) == CopyStage
  }

  /** Every traced file leaves at exactly one stage, the one its owners say; the rest of the
      contract says what each stage recorded. */
  ghost predicate Sorted(w: World, files: seq<FileInfo>, counts: seq<int>) {
    && counts == [|Keep(TakenBy(w, DebStage), files)|, |Keep(TakenBy(w, RStage), files)|,
                  |Keep(TakenBy(w, CopyStage), files)|]
    && counts[0] + counts[1] + counts[2] == |files|
  }

  /** Entries from before stay as they were, every unclaimed file has one, and nothing else
      does. */
  ghost predicate Copied(w: World, files: seq<FileInfo>, before: CopyFiles, after: CopyFiles) {
    && (forall p :: p in before ==> p in after && after[p] == before[p])
    && (forall f :: Unclaimed(w, files, f) ==> f.path in after)
    && (forall p :: p in after && p !in before ==>
          exists f :: Unclaimed(w, files, f) && f.path == p && after[p] == StatusOf(w, f))
  }

  /** Some name of the path belongs to a Debian package that is not passed over. */
  ghost predicate OfDebian(w: World, path: string) {
    exists n :: n in w.aliases(path) && Settles(w, n)
  }

  /** Some name of the path belongs to an R package. */
  ghost predicate OfR(w: World, path: string) {
    exists n :: n in w.aliases(path) && w.rOf(n).Some?
  }

  /** The stage that takes a file: Debian before R, and the copying for the rest. */
  lemma StageMeaning(w: World, path: string)
    ensures StageOf(w, path) == DebStage <==> OfDebian(w, path)
    ensures StageOf(w, path) == RStage <==> !OfDebian(w, path) && OfR(w, path)
    ensures StageOf(w, path) == CopyStage <==> !OfDebian(w, path) && !OfR(w, path)
  {
    DebOwnerMeaning(w, w.aliases(path));
    ROwnerMeaning(w, w.aliases(path));
    hide Skipped, FirstDeb, FirstR;
  }

  /** The links that move to the manifest: no Debian package owns them, they are still links, and
      their targets exist. */
  ghost function MovingLinks(w: World, links: map<string, string>): (r: set<string>) {
    set p | p in links && !OfDebian(w, p) && w.isLink(p) == Yes && w.exists_(links[p]) == Yes
  }

  /** The links that stay: those of them that are no links any more or lead nowhere. */
  ghost function StayingLinks(w: World, links: map<string, string>): (r: map<string, string>) {
    map p | p in links && !OfDebian(w, p) && !(w.isLink(p) == Yes && w.exists_(links[p]) == Yes) :: links[p]
  }

  lemma LinksSorted(w: World, links: map<string, string>)
    ensures var unowned := Unowned(w, links, links.Keys);
      var installed := InstallableLinks(w, unowned, unowned.Keys);
      installed == MovingLinks(w, links) && unowned - installed == StayingLinks(w, links)
  {
    forall p ensures DebOwner(w, p).Some? <==> OfDebian(w, p) { DebOwnerMeaning(w, w.aliases(p)); }
    hide DebOwner, OfDebian;
  }

  /** Not `ok` when an exception leaves the first stage, which ends the run. */
  method RunResolvers(w: World, state: TracerState) returns (ok: bool, counts: seq<int>)
    modifies state, state.manifest
    ensures ok <==> !FirstStageRaises(w, old(state.files), old(state.symlinks))
    ensures ok ==> state.files == [] && Sorted(w, old(state.files), counts)
    ensures ok ==> Copied(w, old(state.files), old(state.manifest.copyFiles), state.manifest.copyFiles)
    ensures ok ==> (state.manifest.debPackages ==
      old(state.manifest.debPackages) + DebOwners(w, PathsOf(old(state.files)) + old(state.symlinks).Keys))
    ensures ok ==> (state.manifest.rPackages ==
      old(state.manifest.rPackages) + ROwners(w, PathsOf(Keep(NotDeb(w), old(state.files)))))
    ensures ok ==>
      && state.manifest.symlinks == old(state.manifest.symlinks) + MovingLinks(w, old(state.symlinks))
      && state.symlinks == StayingLinks(w, old(state.symlinks))
  {
    hide *;
    LinksSorted(w, state.symlinks);
    counts := [];
    var deb := new DebPackageResolver(w);
    var r := new RPackageResolver(w);
    var copy := new CopyFileResolver(w);
    var count0 := |state.files|;
    ok := deb.Resolve(state);
    if !ok { return; }
    var count1 := |state.files|;
    r.Resolve(state);
    var count2 := |state.files|;
    CountsSorted(w, old(state.files), state.files);
    UnclaimedCopied(w, old(state.files), state.files, state.manifest.copyFiles);
    copy.Resolve(state);
    counts := [count0 - count1, count1 - count2, count2 - |state.files|];
  }

  lemma CountsSorted(w: World, files: seq<FileInfo>, left: seq<FileInfo>)
    requires left == Keep(NotR(w), Keep(NotDeb(w), files))
    ensures left == Keep(TakenBy(w, CopyStage), files)
    ensures var afterDeb := Keep(NotDeb(w), files);
      Sorted(w, files, [|files| - |afterDeb|, |afterDeb| - |left|, |left|])
  {
    StagesSplit(w, files);
    hide Keep, NotDeb, NotR, TakenBy;
  }

  lemma StagesSplit(w: World, files: seq<FileInfo>)
    ensures var afterDeb := Keep(NotDeb(w), files);
      var afterR := Keep(NotR(w), afterDeb);
      && afterR == Keep(TakenBy(w, CopyStage), files)
      && |files| - |afterDeb| == |Keep(TakenBy(w, DebStage), files)|
      && |afterDeb| - |afterR| == |Keep(TakenBy(w, RStage), files)|
  {
    hide DebOwner, ROwner;
    var afterDeb := Keep(NotDeb(w), files);
    var isR := (f: FileInfo) => ROwner(w, f.path).Some?;
    KeepMeaning(TakenBy(w, DebStage), NotDeb(w), files);
    KeepMeaning(NotR(w), isR, afterDeb);
    KeepTwice(NotDeb(w), NotR(w), TakenBy(w, CopyStage), files);
    KeepTwice(NotDeb(w), isR, TakenBy(w, RStage), files);
  }

  lemma UnclaimedCopied(w: World, files: seq<FileInfo>, left: seq<FileInfo>, before: CopyFiles)
    requires left == Keep(TakenBy(w, CopyStage), files)
    ensures Copied(w, files, before, AddAll(w, before, left))
  {
    hide StatusOf, StageOf;
    KeepMeaning(TakenBy(w, CopyStage), (f: FileInfo) => StageOf(w, f.path) != CopyStage, files);
    AddAllMeaning(w, before, left);
    hide AddAll;
    forall f ensures f in left <==> Unclaimed(w, files, f) {}
  }
}
