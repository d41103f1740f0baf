/** The file tracer: system call entries and exits of several processes, interleaved, and
    the files and symbolic links it records from them (src/file_tracer.h). The memory of the
    traced process and the file system are seen through the answers each event carries. */
module FileTracers {
  import opened Options
  import opened Paths

  datatype Status = StatusFailed | NotFound | Regular | Directory | OtherKind

  /** The answers of the kernel and the file system while one event is handled. */
  datatype World = World(
    workingDir: string,                       // of the tracer
    cwdOf: int -> Option<string>,             // get_process_cwd
    fdName: (int, int) -> Option<string>,     // resolve_fd_filename
    normal: string -> string,                 // lexically_normal
    status: string -> Status,
    size: string -> Option<nat>,
    equivalent: (string, string) -> bool,
    readSymlink: string -> Option<string>)

  const AT_FDCWD := -100

  /** A system call with the arguments the tracer reads. */
  datatype Call =
    | Open(path: string)
    | OpenAt(dirfd: int, path: string)
    | NewFStatAt(dirfd: int, path: string)
    | Execve(path: string)
    | ReadLink(path: string)
    | ReadLinkAt(dirfd: int, path: string)
    | Unhandled(nr: int)

  datatype Syscall = NrOpen | NrOpenAt | NrNewFStatAt | NrExecve | NrReadLink | NrReadLinkAt

  datatype Event =
    | Entry(pid: int, call: Call, w: World)
    | Exit(pid: int, ret: int, isError: bool, w: World)

  datatype FileInfo = FileInfo(path: string, size: Option<nat>, existedBefore: bool)

  datatype PidState = PidState(syscall: Syscall, info: Option<FileInfo>)

  // ----- What one system call records -----

  function Dirfd(call: Call): (r: int) {
    match call
    case OpenAt(dirfd, _) => dirfd
    case NewFStatAt(dirfd, _) => dirfd
    case ReadLinkAt(dirfd, _) => dirfd
    case _ => AT_FDCWD
  }

  function CallPath(call: Call): (r: string) { if call.Unhandled? then "" else call.path }

  function NumberOf(call: Call): (r: Option<Syscall>) {
    match call
    case Open(_) => Some(NrOpen)
    case OpenAt(_, _) => Some(NrOpenAt)
    case NewFStatAt(_, _) => Some(NrNewFStatAt)
    case Execve(_) => Some(NrExecve)
    case ReadLink(_) => Some(NrReadLink)
    case ReadLinkAt(_, _) => Some(NrReadLinkAt)
    case Unhandled(_) => None
  }

  /** fs::absolute. */
  function Absolute(w: World, path: string): (r: string) {
    if IsAbsolute(path) then path else Join(w.workingDir, path)
  }

  /** The directory a relative path starts from. */
  function BaseDir(w: World, pid: int, dirfd: int): (r: Option<string>) {
    if dirfd == AT_FDCWD then w.cwdOf(pid) else w.fdName(pid, dirfd)
  }

  function FullPath(w: World, pid: int, dirfd: int, path: string): (r: Option<string>) {
    if IsAbsolute(path) then Some(w.normal(path))
    else
      match BaseDir(w, pid, dirfd)
      case None => None
      case Some(d) => Some(w.normal(Absolute(w, Join(Absolute(w, d), path))))
  }

  /** The absolute path a call names, unless it cannot be found out or is to be ignored. */
  function ResolvedPath(ignore: string -> bool, w: World, pid: int, dirfd: int, path: string): (r: Option<string>) {
    var full := FullPath(w, pid, dirfd, path);
    if full.Some? && !ignore(full.value) then full else None
  }

  /** What the entry of a call leaves for its exit. */
  function EntryInfo(ignore: string -> bool, pid: int, call: Call, w: World): (r: Option<FileInfo>) {
    match ResolvedPath(ignore, w, pid, Dirfd(call), CallPath(call))
    case None => None
    case Some(p) =>
      if call.Open? || call.OpenAt? || call.NewFStatAt? then
        if w.status(p) == StatusFailed then None else Some(FileInfo(p, None, w.status(p) != NotFound))
      else Some(FileInfo(p, None, false))
  }

  datatype Effect = Nothing | RecordFile(info: FileInfo) | RecordLink(path: string, target: string) | Throws

  /** The entry that registering a file would add. */
  function Registered(w: World, info: FileInfo): (r: Effect) {
    var p := Absolute(w, info.path);
    if info.existedBefore && w.status(p) == StatusFailed then Throws
    else if info.existedBefore && w.status(p) == Regular && w.size(p).Some? then
      RecordFile(FileInfo(p, w.size(p), true))
    else RecordFile(info.(path := p))
  }

  predicate Supported(s: Status) { s == Regular || s == Directory }

  /** What the exit of a call does, given what its entry left. */
  function ExitEffect(ignore: string -> bool, pid: int, s: PidState, ret: int, isError: bool, w: World): (r: Effect) {
    if isError || s.info.None? then Nothing
    else
      var info := s.info.value;
      match s.syscall
      case NrExecve => Registered(w, info.(existedBefore := true))
      case NrNewFStatAt => if Supported(w.status(info.path)) then Registered(w, info) else Nothing
      case NrReadLink => LinkEffect(ignore, info.path, w)
      case NrReadLinkAt => LinkEffect(ignore, info.path, w)
      case _ =>
        if !Supported(w.status(info.path)) || ret < 0 then Nothing
        else
          match w.fdName(pid, ret)
          case None => Nothing
          case Some(name) => if w.equivalent(name, info.path) then Registered(w, info) else Nothing
  }

  function LinkEffect(ignore: string -> bool, path: string, w: World): (r: Effect) {
    match w.readSymlink(path)
    case None => Nothing
    case Some(target) => if ignore(target) then Nothing else RecordLink(path, target)
  }

  // ----- What a whole trace records -----

  /** The index of the handled entry that `pid` has not yet returned from, if any. */
  ghost function Pending(trace: seq<Event>, pid: int): (r: Option<nat>)
    ensures r.Some? ==> r.value < |trace|
  {
    if trace == [] then None
    else
      var e, before := trace[|trace|-1], trace[..|trace|-1];
      if e.pid != pid then Pending(before, pid)
      else if e.Exit? then None
      else if NumberOf(e.call).Some? then Some(|trace| - 1)
      else Pending(before, pid)
  }

  /** The effect of an entry and the exit that matches it. */
  ghost function PairEffect(ignore: string -> bool, entry: Event, exit: Event): (r: Effect)
    requires entry.Entry? && exit.Exit?
  {
    match NumberOf(entry.call)
    case None => Nothing
    case Some(nr) =>
      ExitEffect(ignore, entry.pid, PidState(nr, EntryInfo(ignore, entry.pid, entry.call, entry.w)), exit.ret, exit.isError, exit.w)
  }

  /** The effect of the last event: that of its matched pair, for an exit. */
  ghost function LastEffect(ignore: string -> bool, before: seq<Event>, e: Event): (r: Effect) {
    if e.Entry? then Nothing
    else
      match Pending(before, e.pid)
      case None => Nothing
      case Some(i) => if before[i].Entry? then PairEffect(ignore, before[i], e) else Nothing
  }

  /** The effects of the matched pairs, in the order of their exits. */
  ghost function Effects(ignore: string -> bool, trace: seq<Event>): (r: seq<Effect>) {
    if trace == [] then []
    else Effects(ignore, trace[..|trace|-1]) + [LastEffect(ignore, trace[..|trace|-1], trace[|trace|-1])]
  }

  /** Recorded files: the first record of a path stays. */
  function FilesOf(effects: seq<Effect>): (r: map<string, FileInfo>) {
    if effects == [] then map[]
    else AddFile(FilesOf(effects[..|effects|-1]), effects[|effects|-1])
  }

  function AddFile(files: map<string, FileInfo>, e: Effect): (r: map<string, FileInfo>) {
    if e.RecordFile? && e.info.path !in files then files[e.info.path := e.info] else files
  }

  function LinksOf(effects: seq<Effect>): (r: map<string, string>) {
    if effects == [] then map[]
    else AddLink(LinksOf(effects[..|effects|-1]), effects[|effects|-1])
  }

  function AddLink(links: map<string, string>, e: Effect): (r: map<string, string>) {
    if e.RecordLink? && e.path !in links then links[e.path := e.target] else links
  }

  /** The exceptions an event raises: a handled call inside another, or a failing status. */
  ghost predicate Raises(ignore: string -> bool, before: seq<Event>, e: Event) {
    if e.Entry? then NumberOf(e.call).Some? && Pending(before, e.pid).Some?
    else LastEffect(ignore, before, e).Throws?
  }

  /** The first `n` events raise nothing. */
  ghost predicate Quiet(ignore: string -> bool, trace: seq<Event>, n: nat)
    requires n <= |trace|
  {
    forall k :: 0 <= k < n ==> !Raises(ignore, trace[..k], trace[k])
  }

  lemma {:induction false} PendingIsEntry(trace: seq<Event>, pid: int)
    ensures Pending(trace, pid).Some? ==>
      var e := trace[Pending(trace, pid).value]; e.Entry? && e.pid == pid && NumberOf(e.call).Some?
  {
    if trace != [] { PendingIsEntry(trace[..|trace|-1], pid); }
  }

  class FileTracer {
    const ignore: string -> bool
    var syscallsCount: nat
    var state: map<int, PidState>
    var files: map<string, FileInfo>
    var symlinks: map<string, string>
    /** The events handled so far. */
    ghost var trace: seq<Event>

    /** What the table holds for a process is what its pending entry left. */
    ghost predicate StateOk(pid: int)
      reads this
    {
      match Pending(trace, pid)
      case None => pid !in state
      case Some(i) =>
        && pid in state && trace[i].Entry? && trace[i].pid == pid
        && NumberOf(trace[i].call) == Some(state[pid].syscall)
        && state[pid].info == EntryInfo(ignore, pid, trace[i].call, trace[i].w)
    }

    /** The fields are determined by the trace: the pending calls and the two folds. */
    ghost predicate Valid()
      reads this
    {
      && (forall pid: int {:trigger StateOk(pid)} :: StateOk(pid))
      && files == FilesOf(Effects(ignore, trace))
      && symlinks == LinksOf(Effects(ignore, trace))
      && syscallsCount == |Entries(trace)|
    }

    constructor (ignore: string -> bool)
      ensures Valid() && trace == [] && this.ignore == ignore
    {
      this.ignore := ignore;
      syscallsCount, state, files, symlinks, trace := 0, map[], map[], map[], [];
    }

    method ResolvePathAt(pid: int, dirfd: int, path: string, w: World) returns (r: Option<string>)
      ensures r == ResolvedPath(ignore, w, pid, dirfd, path)
    {
      var result := path;
      if !IsAbsolute(path) {
        if dirfd == AT_FDCWD {
          var d := w.cwdOf(pid);
          if d.None? { return None; }
          result := d.value;
        } else {
          var d := w.fdName(pid, dirfd);
          if d.None? { return None; }
          result := d.value;
        }
        result := Absolute(w, result);
        result := Join(result, path);
        result := Absolute(w, result);
      }
      result := w.normal(result);
      if ignore(result) { return None; }
      return Some(result);
    }

    method GenericOpenEntry(pid: int, dirfd: int, path: string, w: World) returns (s: Option<FileInfo>)
      ensures s == match ResolvedPath(ignore, w, pid, dirfd, path)
                   case None => None
                   case Some(p) =>
                     if w.status(p) == StatusFailed then None else Some(FileInfo(p, None, w.status(p) != NotFound))
    {
      var result := ResolvePathAt(pid, dirfd, path, w);
      if result.None? { return None; }
      var status := w.status(result.value);
      if status == StatusFailed { return None; }
      return Some(FileInfo(result.value, None, status != NotFound));
    }

    method GenericPathEntry(pid: int, dirfd: int, path: string, w: World) returns (s: Option<FileInfo>)
      ensures s == match ResolvedPath(ignore, w, pid, dirfd, path)
                   case None => None
                   case Some(p) => Some(FileInfo(p, None, false))
    {
      var result := ResolvePathAt(pid, dirfd, path, w);
      if result.None? { return None; }
      return Some(FileInfo(result.value, None, false));
    }

    /** Runs the entry handler of a call. */
    method EntryState(pid: int, call: Call, w: World) returns (s: Option<FileInfo>)
      requires !call.Unhandled?
      ensures s == EntryInfo(ignore, pid, call, w)
    {
      match call {
        case Open(path) => s := GenericOpenEntry(pid, AT_FDCWD, path, w);
        case OpenAt(dirfd, path) => s := GenericOpenEntry(pid, dirfd, path, w);
        case NewFStatAt(dirfd, path) => s := GenericOpenEntry(pid, dirfd, path, w);
        case Execve(path) => s := GenericPathEntry(pid, AT_FDCWD, path, w);
        case ReadLink(path) => s := GenericPathEntry(pid, AT_FDCWD, path, w);
        case ReadLinkAt(dirfd, path) => s := GenericPathEntry(pid, dirfd, path, w);
      }
    }

    /** False when the pid already has a pending call, which raises an exception. */
    method OnSyscallEntry(pid: int, call: Call, w: World) returns (ok: bool)
      requires Valid()
      modifies this
      ensures ok <==> !Raises(ignore, old(trace), Entry(pid, call, w))
      ensures ok ==> Valid() && trace == old(trace) + [Entry(pid, call, w)]
      ensures files == old(files) && symlinks == old(symlinks)
    {
      hide EntryInfo, FilesOf, LinksOf, Pending, Effects, Entries;
      ghost var e := Entry(pid, call, w);
      assert StateOk(pid);
      syscallsCount := syscallsCount + 1;
      var nr := NumberOf(call);
      if nr.Some? {
        var s := EntryState(pid, call, w);
        if pid in state { return false; }
        state := state[pid := PidState(nr.value, s)];
      }
      EffectsSnoc(ignore, trace, e);
      trace := trace + [e];
      forall p ensures StateOk(p) {
        PendingSnoc(old(trace), e, p);
        assert old(StateOk(p));
      }
      ok := true;
    }

    method RegisterFile(info: FileInfo, w: World) returns (ok: bool)
      modifies this`files
      ensures ok <==> !Registered(w, info).Throws?
      ensures files == AddFile(old(files), Registered(w, info))
    {
      var path := info.path;
      if !IsAbsolute(path) { path := Absolute(w, path); }
      var size := info.size;
      if info.existedBefore {
        if w.status(path) == StatusFailed { return false; }
        if w.status(path) == Regular && w.size(path).Some? { size := w.size(path); }
      }
      if path !in files { files := files[path := FileInfo(path, size, info.existedBefore)]; }
      ok := true;
    }

    method GenericOpenExit(pid: int, ret: int, isError: bool, s: PidState, w: World) returns (ok: bool)
      requires s.syscall in {NrOpen, NrOpenAt}
      modifies this`files
      ensures ok <==> !ExitEffect(ignore, pid, s, ret, isError, w).Throws?
      ensures files == AddFile(old(files), ExitEffect(ignore, pid, s, ret, isError, w))
    {
      ok := true;
      if isError || s.info.None? { return; }
      var info := s.info.value;
      if !Supported(w.status(info.path)) { return; }
      if ret >= 0 {
        var exitFile := w.fdName(pid, ret);
        if exitFile.Some? && w.equivalent(exitFile.value, info.path) { ok := RegisterFile(info, w); }
      }
    }

    method ReadLinkExit(isError: bool, s: PidState, w: World)
      modifies this`symlinks
      ensures symlinks == AddLink(old(symlinks),
                                  if isError || s.info.None? then Nothing else LinkEffect(ignore, s.info.value.path, w))
    {
      if isError || s.info.None? { return; }
      var path := s.info.value.path;
      var target := w.readSymlink(path);
      if target.None? || ignore(target.value) { return; }
      if path !in symlinks { symlinks := symlinks[path := target.value]; }
    }

    /** Runs the exit handler of a call. */
    method ExitHandler(pid: int, ret: int, isError: bool, s: PidState, w: World) returns (ok: bool)
      modifies this`files, this`symlinks
      ensures ok <==> !ExitEffect(ignore, pid, s, ret, isError, w).Throws?
      ensures files == AddFile(old(files), ExitEffect(ignore, pid, s, ret, isError, w))
      ensures symlinks == AddLink(old(symlinks), ExitEffect(ignore, pid, s, ret, isError, w))
    {
      ok := true;
      match s.syscall {
        case NrReadLink => ReadLinkExit(isError, s, w);
        case NrReadLinkAt => ReadLinkExit(isError, s, w);
        case NrExecve =>
          if !isError && s.info.Some? { ok := RegisterFile(s.info.value.(existedBefore := true), w); }
        case NrNewFStatAt =>
          if !isError && s.info.Some? && Supported(w.status(s.info.value.path)) { ok := RegisterFile(s.info.value, w); }
        case _ => ok := GenericOpenExit(pid, ret, isError, s, w);
      }
    }

    /** False when the handler raises an exception. */
    method OnSyscallExit(pid: int, ret: int, isError: bool, w: World) returns (ok: bool)
      requires Valid()
      modifies this
      ensures ok <==> !Raises(ignore, old(trace), Exit(pid, ret, isError, w))
      ensures ok ==> Valid() && trace == old(trace) + [Exit(pid, ret, isError, w)]
    {
      hide EntryInfo, FilesOf, LinksOf, Pending, Effects, Entries, ExitEffect, AddFile, AddLink;
      ghost var e := Exit(pid, ret, isError, w);
      assert StateOk(pid);
      EffectsSnoc(ignore, trace, e);
      ok := true;
      if pid in state {
        var s := state[pid];
        state := state - {pid};
        ok := ExitHandler(pid, ret, isError, s, w);
        if !ok { return; }
      } else {
        NothingAdds(files, symlinks);
      }
      trace := trace + [e];
      forall p ensures StateOk(p) {
        PendingSnoc(old(trace), e, p);
        assert old(StateOk(p));
      }
    }
  }

  lemma NothingAdds(files: map<string, FileInfo>, links: map<string, string>)
    ensures AddFile(files, Nothing) == files && AddLink(links, Nothing) == links
  {
  }

  lemma {:induction false} PendingSnoc(trace: seq<Event>, e: Event, pid: int)
    ensures Pending(trace + [e], pid) ==
      if e.pid != pid then Pending(trace, pid)
      else if e.Exit? then None
      else if NumberOf(e.call).Some? then Some(|trace|)
      else Pending(trace, pid)
    ensures Pending(trace, pid).Some? ==> (trace + [e])[Pending(trace, pid).value] == trace[Pending(trace, pid).value]
  {
    assert (trace + [e])[..|trace|] == trace;
  }

  lemma {:induction false} EffectsSnoc(ignore: string -> bool, trace: seq<Event>, e: Event)
    ensures FilesOf(Effects(ignore, trace + [e])) == AddFile(FilesOf(Effects(ignore, trace)), LastEffect(ignore, trace, e))
    ensures LinksOf(Effects(ignore, trace + [e])) == AddLink(LinksOf(Effects(ignore, trace)), LastEffect(ignore, trace, e))
    ensures |Entries(trace + [e])| == |Entries(trace)| + if e.Entry? then 1 else 0
  {
    hide LastEffect, AddFile, AddLink;
    assert (trace + [e])[..|trace|] == trace;
    var es, last := Effects(ignore, trace), LastEffect(ignore, trace, e);
    assert (es + [last])[..|es|] == es;
  }

  /** The entries of a trace, handled or not. */
  ghost function Entries(trace: seq<Event>): (r: seq<Event>) {
    if trace == [] then []
    else Entries(trace[..|trace|-1]) + (if trace[|trace|-1].Entry? then [trace[|trace|-1]] else [])
  }
}
