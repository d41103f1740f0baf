/** What an entry and the exit that matches it record, in terms of what the kernel and the file
    system answered at the two moments (src/file_tracer.h:179-483). */
module FileTracerRecords {
  import opened Options
  import opened Paths
  import opened FileTracers

  /** What the path functions of the library promise: working directories are absolute, and
      normalising keeps a path absolute. */
  ghost predicate PathLaws(w: World) {
    IsAbsolute(w.workingDir) && forall p :: IsAbsolute(p) ==> IsAbsolute(w.normal(p))
  }

  // ----- The path a call names -----

  /** The path of a relative name in a directory. */
  ghost function Below(dir: string, name: string): (r: string)
    requires dir != ""
  {
    if dir[|dir|-1] == '/' then dir + name else dir + "/" + name
  }

  /** The directory from which a call resolves relative names. */
  ghost function StartOf(entry: Event): (r: Option<string>)
    requires entry.Entry? && !entry.call.Unhandled?
  {
    match entry.call
    case OpenAt(fd, _) => if fd == -100 then entry.w.cwdOf(entry.pid) else entry.w.fdName(entry.pid, fd)
    case NewFStatAt(fd, _) => if fd == -100 then entry.w.cwdOf(entry.pid) else entry.w.fdName(entry.pid, fd)
    case ReadLinkAt(fd, _) => if fd == -100 then entry.w.cwdOf(entry.pid) else entry.w.fdName(entry.pid, fd)
    case _ => entry.w.cwdOf(entry.pid)
  }

  /** `p` is the normalised full path of the call. A start directory that is relative itself is
      taken from the tracer's own working directory. */
  ghost predicate NamesPath(entry: Event, p: string)
    requires entry.Entry?
  {
    && PathLaws(entry.w) && !entry.call.Unhandled?
    && var path, start := entry.call.path, StartOf(entry);
      if path != "" && path[0] == '/' then p == entry.w.normal(path)
      else
        && start.Some?
        && p == entry.w.normal(Below(if start.value != "" && start.value[0] == '/' then start.value
                                     else Below(entry.w.workingDir, start.value), path))
  }

  lemma NamesResolved(ignore: string -> bool, entry: Event, p: string)
    requires entry.Entry? && PathLaws(entry.w) && !entry.call.Unhandled?
    ensures ResolvedPath(ignore, entry.w, entry.pid, Dirfd(entry.call), CallPath(entry.call)) == Some(p)
      <==> NamesPath(entry, p) && !ignore(p)
    ensures NamesPath(entry, p) ==> IsAbsolute(p)
  {
    var start := StartOf(entry);
    assert start == BaseDir(entry.w, entry.pid, Dirfd(entry.call));
    if !IsAbsolute(entry.call.path) && start.Some? { JoinsBelow(entry.w, start.value, entry.call.path); }
  }

  lemma JoinsBelow(w: World, start: string, path: string)
    requires IsAbsolute(w.workingDir) && !IsAbsolute(path)
    ensures var dir := if start != "" && start[0] == '/' then start else Below(w.workingDir, start);
      dir != "" && IsAbsolute(Below(dir, path)) && Absolute(w, Join(Absolute(w, start), path)) == Below(dir, path)
  {
  }

  // ----- What the pair records -----

  /** The file is looked at again at the exit and must then be regular or a directory. */
  ghost predicate StillThere(w: World, p: string) { w.status(p) == Regular || w.status(p) == Directory }

  /** The descriptor that the call returned leads to the file that its path named. */
  ghost predicate Returned(exit: Event, pid: int, p: string)
    requires exit.Exit?
  {
    exit.ret >= 0 && exists name :: exit.w.fdName(pid, exit.ret) == Some(name) && exit.w.equivalent(name, p)
  }

  /** The pair records the file `p`: always for a program that was started, for an opened file
      when the descriptor is one of that file, for an examined file when it is still there. */
  ghost predicate Touches(ignore: string -> bool, entry: Event, exit: Event, p: string)
    requires entry.Entry? && exit.Exit?
  {
    && NamesPath(entry, p) && !ignore(p) && !exit.isError
    && match entry.call
      case Open(_) => entry.w.status(p) != StatusFailed && StillThere(exit.w, p) && Returned(exit, entry.pid, p)
      case OpenAt(_, _) => entry.w.status(p) != StatusFailed && StillThere(exit.w, p) && Returned(exit, entry.pid, p)
      case NewFStatAt(_, _) => entry.w.status(p) != StatusFailed && StillThere(exit.w, p)
      case Execve(_) => exit.w.status(p) != StatusFailed
      case _ => false
  }

  /** A file existed before when its entry found it; a program that was started did. */
  ghost predicate Before(entry: Event, p: string)
    requires entry.Entry?
  {
    entry.call.Execve? || entry.w.status(p) != NotFound
  }

  /** The record of a file: its size is read at the exit, of regular files that existed before. */
  ghost function Record(entry: Event, exit: Event, p: string): (r: FileInfo)
    requires entry.Entry? && exit.Exit?
  {
    FileInfo(p, if Before(entry, p) && exit.w.status(p) == Regular then exit.w.size(p) else None, Before(entry, p))
  }

  /** The pair records the link `p` to `target`. */
  ghost predicate ReadsLink(ignore: string -> bool, entry: Event, exit: Event, p: string, target: string)
    requires entry.Entry? && exit.Exit?
  {
    && (entry.call.ReadLink? || entry.call.ReadLinkAt?)
    && NamesPath(entry, p) && !ignore(p) && !exit.isError
    && exit.w.readSymlink(p) == Some(target) && !ignore(target)
  }

  /** The program image of a successful execve whose status can no longer be read. */
  ghost predicate ImageLost(ignore: string -> bool, entry: Event, exit: Event)
    requires entry.Entry? && exit.Exit?
  {
    && entry.call.Execve? && !exit.isError
    && exists p :: NamesPath(entry, p) && !ignore(p) && exit.w.status(p) == StatusFailed
  }

  /** A file that is registered under its absolute path. */
  lemma RegistersAbsolute(w: World, info: FileInfo)
    requires IsAbsolute(info.path) && info.size.None?
    ensures Registered(w, info) ==
      if info.existedBefore && w.status(info.path) == StatusFailed then Throws
      else RecordFile(FileInfo(info.path, if info.existedBefore && w.status(info.path) == Regular then w.size(info.path) else None,
                               info.existedBefore))
  {
  }

  /** Without a path to look at a pair does nothing. */
  lemma NamelessPair(ignore: string -> bool, entry: Event, exit: Event)
    requires entry.Entry? && exit.Exit? && PathLaws(entry.w)
    requires forall p :: !(NamesPath(entry, p) && !ignore(p))
    ensures PairEffect(ignore, entry, exit) == Nothing
  {
    if !entry.call.Unhandled? {
      var r := ResolvedPath(ignore, entry.w, entry.pid, Dirfd(entry.call), CallPath(entry.call));
      if r.Some? { NamesResolved(ignore, entry, r.value); }
    }
  }

  /** The effect of a pair whose call names `p`. */
  lemma NamedPair(ignore: string -> bool, entry: Event, exit: Event, p: string)
    requires entry.Entry? && exit.Exit? && NamesPath(entry, p) && !ignore(p)
    ensures PairEffect(ignore, entry, exit) ==
      if Touches(ignore, entry, exit, p) then RecordFile(Record(entry, exit, p))
      else if ImageLost(ignore, entry, exit) then Throws
      else if exit.w.readSymlink(p).Some? && ReadsLink(ignore, entry, exit, p, exit.w.readSymlink(p).value)
        then RecordLink(p, exit.w.readSymlink(p).value)
      else Nothing
  {
    NamesResolved(ignore, entry, p);
    var before := !entry.call.Execve? && entry.w.status(p) != NotFound;
    RegistersAbsolute(exit.w, FileInfo(p, None, true));
    RegistersAbsolute(exit.w, FileInfo(p, None, false));
    assert forall q :: NamesPath(entry, q) ==> q == p;
    hide ResolvedPath, Registered, NamesPath;
  }

  /** Exactly when a pair records a file, and what it records. */
  lemma PairRecordsFile(ignore: string -> bool, entry: Event, exit: Event, info: FileInfo)
    requires entry.Entry? && exit.Exit? && PathLaws(entry.w)
    ensures PairEffect(ignore, entry, exit) == RecordFile(info) <==>
      Touches(ignore, entry, exit, info.path) && info == Record(entry, exit, info.path)
  {
    hide PairEffect;
    if p :| NamesPath(entry, p) && !ignore(p) {
      NamedPair(ignore, entry, exit, p);
    } else {
      NamelessPair(ignore, entry, exit);
    }
  }

  /** Exactly when a pair records a link, and what it records. */
  lemma PairRecordsLink(ignore: string -> bool, entry: Event, exit: Event, p: string, target: string)
    requires entry.Entry? && exit.Exit? && PathLaws(entry.w)
    ensures PairEffect(ignore, entry, exit) == RecordLink(p, target) <==> ReadsLink(ignore, entry, exit, p, target)
  {
    hide PairEffect;
    if q :| NamesPath(entry, q) && !ignore(q) {
      NamedPair(ignore, entry, exit, q);
    } else {
      NamelessPair(ignore, entry, exit);
    }
  }

  /** Exactly when a pair raises an exception. */
  lemma PairThrows(ignore: string -> bool, entry: Event, exit: Event)
    requires entry.Entry? && exit.Exit? && PathLaws(entry.w)
    ensures PairEffect(ignore, entry, exit).Throws? <==> ImageLost(ignore, entry, exit)
  {
    hide PairEffect;
    if p :| NamesPath(entry, p) && !ignore(p) {
      NamedPair(ignore, entry, exit, p);
    } else {
      NamelessPair(ignore, entry, exit);
    }
  }
}
