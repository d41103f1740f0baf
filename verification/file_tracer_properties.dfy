/** What the tracer guarantees over whole traces. */
module FileTracerProperties {
  import opened Options
  import opened Paths
  import opened FileTracers
  import opened FileTracerRecords

  /** Feeds events to the tracer until one raises an exception. */
  method Run(tracer: FileTracer, events: seq<Event>) returns (n: nat)
    requires tracer.Valid() && tracer.trace == []
    modifies tracer
    ensures n <= |events| && Quiet(tracer.ignore, events, n)
    ensures n < |events| ==> Raises(tracer.ignore, events[..n], events[n])
    ensures n == |events| ==> tracer.Valid() && tracer.trace == events
  {
    hide Raises, Pending, Effects, FilesOf, LinksOf, Entries;
    n := 0;
    while n < |events|
      invariant n <= |events| && tracer.Valid() && tracer.trace == events[..n]
      invariant Quiet(tracer.ignore, events, n)
    {
      var ok;
      assert events[..n+1] == events[..n] + [events[n]];
      match events[n] {
        case Entry(pid, call, w) => ok := tracer.OnSyscallEntry(pid, call, w);
        case Exit(pid, ret, isError, w) => ok := tracer.OnSyscallExit(pid, ret, isError, w);
      }
      if !ok { return; }
      n := n + 1;
    }
    assert events[..n] == events;
  }

  /** The table holds exactly the processes inside a handled call. */
  lemma StateHoldsPending(tracer: FileTracer, pid: int)
    requires tracer.Valid()
    ensures pid in tracer.state <==> Pending(tracer.trace, pid).Some?
  {
    assert tracer.StateOk(pid);
  }

  // ----- Matched pairs -----

  /** The events that the tracer does not pass over: an unhandled entry leaves no trace. */
  ghost predicate Noticed(e: Event) { e.Exit? || NumberOf(e.call).Some? }

  /** `j` is the first noticed event of its process after the noticed event `i`. */
  ghost predicate Consecutive(trace: seq<Event>, i: nat, j: nat) {
    && i < j < |trace| && trace[i].pid == trace[j].pid && Noticed(trace[i]) && Noticed(trace[j])
    && forall k :: i < k < j && trace[k].pid == trace[j].pid ==> !Noticed(trace[k])
  }

  /** No process enters a handled call while a handled one is pending. */
  ghost predicate Alternates(trace: seq<Event>) {
    forall i: nat, j: nat :: Consecutive(trace, i, j) && trace[i].Entry? ==> trace[j].Exit?
  }

  /** A handled entry and the next noticed event of its process, an exit. */
  ghost predicate MatchedPair(trace: seq<Event>, i: nat, j: nat) {
    Consecutive(trace, i, j) && trace[i].Entry? && trace[j].Exit?
  }

  /** The last noticed event of `pid` among the first `n`. */
  ghost predicate LastOf(trace: seq<Event>, n: nat, pid: int, i: nat) {
    && i < n <= |trace| && trace[i].pid == pid && Noticed(trace[i])
    && forall k :: i < k < n && trace[k].pid == pid ==> !Noticed(trace[k])
  }

  /** A process is inside a handled call exactly when its last noticed event is the entry of
      one. */
  lemma {:induction false} PendingIsLast(trace: seq<Event>, n: nat, pid: int, i: nat)
    requires n <= |trace|
    ensures Pending(trace[..n], pid) == Some(i) <==>
      LastOf(trace, n, pid, i) && trace[i].Entry?
    decreases n
  {
    if n > 0 {
      assert trace[..n] == trace[..n-1] + [trace[n-1]];
      PendingSnoc(trace[..n-1], trace[n-1], pid);
      PendingIsLast(trace, n - 1, pid, i);
    }
  }

  /** The effect of an exit is that of the matched pair it ends, nothing without one. */
  lemma ExitEndsMatchedPair(ignore: string -> bool, trace: seq<Event>, i: nat, j: nat)
    requires j < |trace| && trace[j].Exit?
    ensures MatchedPair(trace, i, j) ==> LastEffect(ignore, trace[..j], trace[j]) == PairEffect(ignore, trace[i], trace[j])
    ensures (forall k: nat :: !MatchedPair(trace, k, j)) ==> LastEffect(ignore, trace[..j], trace[j]) == Nothing
  {
    hide PairEffect, Pending;
    if MatchedPair(trace, i, j) {
      assert LastOf(trace, j, trace[j].pid, i);
      PendingIsLast(trace, j, trace[j].pid, i);
    } else if k: nat :| Pending(trace[..j], trace[j].pid) == Some(k) {
      PendingIsLast(trace, j, trace[j].pid, k);
      assert MatchedPair(trace, k, j);
    }
  }

  lemma {:induction false} EffectAt(ignore: string -> bool, trace: seq<Event>, k: nat)
    requires k < |trace|
    ensures |Effects(ignore, trace)| == |trace|
    ensures Effects(ignore, trace)[k] == LastEffect(ignore, trace[..k], trace[k])
    decreases |trace|
  {
    var before := trace[..|trace|-1];
    if before != [] {
      if k < |before| {
        assert before[..k] == trace[..k];
        EffectAt(ignore, before, k);
      } else {
        EffectAt(ignore, before, 0);
      }
    } else {
      assert Effects(ignore, before) == [];
    }
  }

  ghost predicate FirstFile(es: seq<Effect>, p: string, k: nat) {
    && k < |es| && es[k].RecordFile? && es[k].info.path == p
    && forall j :: 0 <= j < k && es[j].RecordFile? ==> es[j].info.path != p
  }

  ghost predicate FirstLink(es: seq<Effect>, p: string, k: nat) {
    && k < |es| && es[k].RecordLink? && es[k].path == p
    && forall j :: 0 <= j < k && es[j].RecordLink? ==> es[j].path != p
  }

  /** A file is recorded when some effect records it, as the first one does. */
  lemma {:induction false} FilesAreFirst(es: seq<Effect>, p: string)
    ensures p in FilesOf(es) <==> exists k: nat :: FirstFile(es, p, k)
    ensures forall k: nat :: FirstFile(es, p, k) ==> p in FilesOf(es) && FilesOf(es)[p] == es[k].info
    decreases |es|
  {
    if es != [] {
      var before := es[..|es|-1];
      FilesAreFirst(before, p);
      forall k: nat ensures k < |before| ==> (FirstFile(before, p, k) <==> FirstFile(es, p, k)) {}
      if p in FilesOf(before) {
        var k: nat :| FirstFile(before, p, k);
        assert FirstFile(es, p, k);
      } else if es[|es|-1].RecordFile? && es[|es|-1].info.path == p {
        NoFirstFile(before, p);
        assert FirstFile(es, p, |es| - 1);
      }
    }
  }

  lemma {:induction false} NoFirstFile(es: seq<Effect>, p: string)
    requires forall k: nat :: !FirstFile(es, p, k)
    ensures forall k :: 0 <= k < |es| && es[k].RecordFile? ==> es[k].info.path != p
  {
    if es != [] {
      var before := es[..|es|-1];
      forall k: nat ensures !FirstFile(before, p, k) {
        if FirstFile(before, p, k) { assert FirstFile(es, p, k); }
      }
      NoFirstFile(before, p);
      assert !FirstFile(es, p, |es| - 1);
      assert forall k :: 0 <= k < |before| ==> before[k] == es[k];
    }
  }

  lemma {:induction false} LinksAreFirst(es: seq<Effect>, p: string)
    ensures p in LinksOf(es) <==> exists k: nat :: FirstLink(es, p, k)
    ensures forall k: nat :: FirstLink(es, p, k) ==> p in LinksOf(es) && LinksOf(es)[p] == es[k].target
    decreases |es|
  {
    if es != [] {
      var before := es[..|es|-1];
      LinksAreFirst(before, p);
      forall k: nat ensures k < |before| ==> (FirstLink(before, p, k) <==> FirstLink(es, p, k)) {}
      if p in LinksOf(before) {
        var k: nat :| FirstLink(before, p, k);
        assert FirstLink(es, p, k);
      } else if es[|es|-1].RecordLink? && es[|es|-1].path == p {
        NoFirstLink(before, p);
        assert FirstLink(es, p, |es| - 1);
      }
    }
  }

  lemma {:induction false} NoFirstLink(es: seq<Effect>, p: string)
    requires forall k: nat :: !FirstLink(es, p, k)
    ensures forall k :: 0 <= k < |es| && es[k].RecordLink? ==> es[k].path != p
  {
    if es != [] {
      var before := es[..|es|-1];
      forall k: nat ensures !FirstLink(before, p, k) {
        if FirstLink(before, p, k) { assert FirstLink(es, p, k); }
      }
      NoFirstLink(before, p);
      assert !FirstLink(es, p, |es| - 1);
      assert forall k :: 0 <= k < |before| ==> before[k] == es[k];
    }
  }

  // ----- Exceptions -----

  ghost predicate AllPathLaws(trace: seq<Event>) {
    forall k :: 0 <= k < |trace| ==> PathLaws(trace[k].w)
  }

  /** No program image is lost between the entry and the exit of its execve. */
  ghost predicate KeepsImages(ignore: string -> bool, trace: seq<Event>) {
    forall i: nat, j: nat :: MatchedPair(trace, i, j) ==> !ImageLost(ignore, trace[i], trace[j])
  }

  /** The tracer raises nothing exactly when handled calls alternate and no image is lost. */
  lemma QuietExactly(ignore: string -> bool, trace: seq<Event>)
    requires AllPathLaws(trace)
    ensures Quiet(ignore, trace, |trace|) <==> Alternates(trace) && KeepsImages(ignore, trace)
  {
    hide PairEffect, ImageLost, Pending;
    if Quiet(ignore, trace, |trace|) {
      forall i: nat, j: nat | Consecutive(trace, i, j) && trace[i].Entry? ensures trace[j].Exit? {
        assert LastOf(trace, j, trace[j].pid, i);
        PendingIsLast(trace, j, trace[j].pid, i);
        assert !Raises(ignore, trace[..j], trace[j]);
      }
      forall i: nat, j: nat | MatchedPair(trace, i, j) ensures !ImageLost(ignore, trace[i], trace[j]) {
        ExitEndsMatchedPair(ignore, trace, i, j);
        PairThrows(ignore, trace[i], trace[j]);
        assert !Raises(ignore, trace[..j], trace[j]);
      }
    }
    if Alternates(trace) && KeepsImages(ignore, trace) {
      forall k | 0 <= k < |trace| ensures !Raises(ignore, trace[..k], trace[k]) {
        NothingRaised(ignore, trace, k);
      }
    }
  }

  lemma NothingRaised(ignore: string -> bool, trace: seq<Event>, k: nat)
    requires Alternates(trace) && AllPathLaws(trace) && KeepsImages(ignore, trace) && k < |trace|
    ensures !Raises(ignore, trace[..k], trace[k])
  {
    hide PairEffect, ImageLost, Pending;
    if i: nat :| Pending(trace[..k], trace[k].pid) == Some(i) && Noticed(trace[k]) {
      PendingIsLast(trace, k, trace[k].pid, i);
      assert Consecutive(trace, i, k);
      ExitEndsMatchedPair(ignore, trace, i, k);
      PairThrows(ignore, trace[i], trace[k]);
    }
  }

  /** A second entry of a process inside a handled call raises an exception. */
  lemma ReentryRaises(ignore: string -> bool, pid: int, call: Call, again: Call, w: World)
    requires NumberOf(call).Some? && NumberOf(again).Some?
    ensures Raises(ignore, [Entry(pid, call, w)], Entry(pid, again, w))
  {
    var trace := [Entry(pid, call, w)];
    assert trace == [] + [Entry(pid, call, w)];
    PendingSnoc([], Entry(pid, call, w), pid);
  }

  /** An alternating trace that raises one: an execve whose image can no longer be looked at
      when it returns. */
  lemma LostImageRaises(ignore: string -> bool, pid: int, path: string, w: World, w': World)
    requires IsAbsolute(path) && !ignore(w.normal(path)) && w'.status(w.normal(path)) == StatusFailed
    requires PathLaws(w) && PathLaws(w')
    ensures var trace := [Entry(pid, Execve(path), w), Exit(pid, 0, false, w')];
      Alternates(trace) && AllPathLaws(trace) && !Quiet(ignore, trace, |trace|)
  {
    var trace := [Entry(pid, Execve(path), w), Exit(pid, 0, false, w')];
    assert Consecutive(trace, 0, 1) && MatchedPair(trace, 0, 1);
    assert NamesPath(trace[0], w.normal(path));
    assert ImageLost(ignore, trace[0], trace[1]);
    QuietExactly(ignore, trace);
  }

  // ----- Ignored paths -----

  ghost predicate EffectClean(ignore: string -> bool, e: Effect) {
    match e
    case RecordFile(info) => IsAbsolute(info.path) && !ignore(info.path)
    case RecordLink(path, target) => IsAbsolute(path) && !ignore(path) && !ignore(target)
    case _ => true
  }

  lemma PairClean(ignore: string -> bool, entry: Event, exit: Event)
    requires entry.Entry? && exit.Exit? && PathLaws(entry.w)
    ensures EffectClean(ignore, PairEffect(ignore, entry, exit))
  {
    match PairEffect(ignore, entry, exit) {
      case RecordFile(info) =>
        PairRecordsFile(ignore, entry, exit, info);
        NamesResolved(ignore, entry, info.path);
      case RecordLink(path, target) =>
        PairRecordsLink(ignore, entry, exit, path, target);
        NamesResolved(ignore, entry, path);
      case _ =>
    }
  }

  lemma {:induction false} EffectsClean(ignore: string -> bool, trace: seq<Event>, k: nat)
    requires AllPathLaws(trace) && k < |trace| == |Effects(ignore, trace)|
    ensures EffectClean(ignore, Effects(ignore, trace)[k])
  {
    EffectAt(ignore, trace, k);
    PendingIsEntry(trace[..k], trace[k].pid);
    var p := Pending(trace[..k], trace[k].pid);
    if trace[k].Exit? && p.Some? { PairClean(ignore, trace[p.value], trace[k]); }
  }

  /** No ignored or relative path is ever recorded, and no link to an ignored target. */
  lemma NothingIgnoredRecorded(tracer: FileTracer)
    requires tracer.Valid() && AllPathLaws(tracer.trace)
    ensures forall p :: p in tracer.files ==> IsAbsolute(p) && !tracer.ignore(p)
    ensures forall p :: p in tracer.symlinks ==> IsAbsolute(p) && !tracer.ignore(p) && !tracer.ignore(tracer.symlinks[p])
  {
    var trace, es := tracer.trace, Effects(tracer.ignore, tracer.trace);
    if trace != [] { EffectAt(tracer.ignore, trace, 0); }
    hide FilesOf, LinksOf, Effects;
    forall p | p in tracer.files ensures IsAbsolute(p) && !tracer.ignore(p) {
      FilesAreFirst(es, p);
      var k: nat :| FirstFile(es, p, k);
      EffectsClean(tracer.ignore, trace, k);
    }
    forall p | p in tracer.symlinks ensures IsAbsolute(p) && !tracer.ignore(p) && !tracer.ignore(tracer.symlinks[p]) {
      LinksAreFirst(es, p);
      var k: nat :| FirstLink(es, p, k);
      EffectsClean(tracer.ignore, trace, k);
    }
  }

  // ----- The records of a whole trace -----

  ghost predicate Touched(ignore: string -> bool, trace: seq<Event>, p: string, i: nat, j: nat) {
    MatchedPair(trace, i, j) && Touches(ignore, trace[i], trace[j], p)
  }

  /** The first pair, in the order of the exits, that touches a file. */
  ghost predicate FirstTouched(ignore: string -> bool, trace: seq<Event>, p: string, i: nat, j: nat) {
    Touched(ignore, trace, p, i, j) && forall i': nat, j': nat :: Touched(ignore, trace, p, i', j') ==> j <= j'
  }

  ghost predicate Read(ignore: string -> bool, trace: seq<Event>, p: string, target: string, i: nat, j: nat) {
    MatchedPair(trace, i, j) && ReadsLink(ignore, trace[i], trace[j], p, target)
  }

  ghost predicate FirstRead(ignore: string -> bool, trace: seq<Event>, p: string, target: string, i: nat, j: nat) {
    Read(ignore, trace, p, target, i, j) && forall t, i': nat, j': nat :: Read(ignore, trace, p, t, i', j') ==> j <= j'
  }

  /** The pair that an exit ends, if it ends one. */
  lemma PairOf(ignore: string -> bool, trace: seq<Event>, j: nat) returns (i: nat)
    requires j < |trace| && LastEffect(ignore, trace[..j], trace[j]) != Nothing
    ensures MatchedPair(trace, i, j) && LastEffect(ignore, trace[..j], trace[j]) == PairEffect(ignore, trace[i], trace[j])
  {
    hide PairEffect, Pending;
    i := Pending(trace[..j], trace[j].pid).value;
    PendingIsLast(trace, j, trace[j].pid, i);
  }

  /** The effect at a position of the trace records a file exactly when a pair ending there
      touches it. */
  lemma TouchEffect(ignore: string -> bool, trace: seq<Event>, p: string, j: nat)
    requires AllPathLaws(trace) && j < |trace| == |Effects(ignore, trace)|
    ensures var e := Effects(ignore, trace)[j];
      (e.RecordFile? && e.info.path == p) <==> exists i: nat :: Touched(ignore, trace, p, i, j)
    ensures forall i: nat :: Touched(ignore, trace, p, i, j) ==>
      Effects(ignore, trace)[j] == RecordFile(Record(trace[i], trace[j], p))
  {
    EffectAt(ignore, trace, j);
    hide PairEffect, LastEffect, Effects, Touches, Record;
    var e := Effects(ignore, trace)[j];
    if e.RecordFile? && e.info.path == p {
      var i := PairOf(ignore, trace, j);
      PairRecordsFile(ignore, trace[i], trace[j], e.info);
      assert Touched(ignore, trace, p, i, j);
    }
    forall i: nat | Touched(ignore, trace, p, i, j) ensures e == RecordFile(Record(trace[i], trace[j], p)) {
      ExitEndsMatchedPair(ignore, trace, i, j);
      RecordKeepsPath(trace[i], trace[j], p);
      PairRecordsFile(ignore, trace[i], trace[j], Record(trace[i], trace[j], p));
    }
    forall i: nat | Touched(ignore, trace, p, i, j) ensures e.RecordFile? && e.info.path == p {
      RecordKeepsPath(trace[i], trace[j], p);
    }
  }

  lemma RecordKeepsPath(entry: Event, exit: Event, p: string)
    requires entry.Entry? && exit.Exit?
    ensures Record(entry, exit, p).path == p
  {
  }

  lemma FilesTouched(ignore: string -> bool, trace: seq<Event>, p: string)
    requires AllPathLaws(trace)
    ensures p in FilesOf(Effects(ignore, trace)) <==> exists i: nat, j: nat :: Touched(ignore, trace, p, i, j)
  {
    var es := Effects(ignore, trace);
    if trace != [] { EffectAt(ignore, trace, 0); }
    FilesAreFirst(es, p);
    hide FilesOf, Effects, MatchedPair, Touches, Record;
    if p in FilesOf(es) {
      var j: nat :| FirstFile(es, p, j);
      TouchEffect(ignore, trace, p, j);
    }
    forall i: nat, j: nat | Touched(ignore, trace, p, i, j) ensures p in FilesOf(es) {
      TouchedInside(ignore, trace, p, i, j);
      TouchEffect(ignore, trace, p, j);
      if p !in FilesOf(es) { NoFirstFile(es, p); }
    }
  }

  lemma FirstTouchDecides(ignore: string -> bool, trace: seq<Event>, p: string, i: nat, j: nat)
    requires AllPathLaws(trace) && FirstTouched(ignore, trace, p, i, j) && i < j < |trace|
    requires trace[i].Entry? && trace[j].Exit?
    ensures var files := FilesOf(Effects(ignore, trace)); p in files && files[p] == Record(trace[i], trace[j], p)
  {
    var es := Effects(ignore, trace);
    EffectAt(ignore, trace, 0);
    FilesAreFirst(es, p);
    hide FilesOf, Effects, MatchedPair, Touches, Record;
    TouchEffect(ignore, trace, p, j);
    forall k | 0 <= k < j && es[k].RecordFile? ensures es[k].info.path != p {
      TouchEffect(ignore, trace, p, k);
    }
    RecordKeepsPath(trace[i], trace[j], p);
    assert FirstFile(es, p, j);
  }

  /** The tracer holds a file exactly when a matched pair of the trace touches it, and what it
      holds is the record of the first such pair. */
  lemma RecordedFiles(tracer: FileTracer, p: string)
    requires tracer.Valid() && AllPathLaws(tracer.trace)
    ensures p in tracer.files <==> exists i: nat, j: nat :: Touched(tracer.ignore, tracer.trace, p, i, j)
    ensures forall i: nat, j: nat :: FirstTouched(tracer.ignore, tracer.trace, p, i, j) ==>
      p in tracer.files && tracer.files[p] == Record(tracer.trace[i], tracer.trace[j], p)
  {
    FilesTouched(tracer.ignore, tracer.trace, p);
    hide FilesOf, Effects, MatchedPair, Touches, Record;
    forall i: nat, j: nat | FirstTouched(tracer.ignore, tracer.trace, p, i, j)
      ensures p in tracer.files && tracer.files[p] == Record(tracer.trace[i], tracer.trace[j], p)
    {
      TouchedInside(tracer.ignore, tracer.trace, p, i, j);
      FirstTouchDecides(tracer.ignore, tracer.trace, p, i, j);
    }
  }

  lemma TouchedInside(ignore: string -> bool, trace: seq<Event>, p: string, i: nat, j: nat)
    requires Touched(ignore, trace, p, i, j)
    ensures i < j < |trace| && trace[i].Entry? && trace[j].Exit?
  {
  }

  lemma ReadEffect(ignore: string -> bool, trace: seq<Event>, p: string, target: string, j: nat)
    requires AllPathLaws(trace) && j < |trace| == |Effects(ignore, trace)|
    ensures Effects(ignore, trace)[j] == RecordLink(p, target) <==> exists i: nat :: Read(ignore, trace, p, target, i, j)
  {
    EffectAt(ignore, trace, j);
    hide PairEffect, LastEffect, Effects, ReadsLink;
    var e := Effects(ignore, trace)[j];
    if e == RecordLink(p, target) {
      var i := PairOf(ignore, trace, j);
      PairRecordsLink(ignore, trace[i], trace[j], p, target);
      assert Read(ignore, trace, p, target, i, j);
    }
    forall i: nat | Read(ignore, trace, p, target, i, j) ensures e == RecordLink(p, target) {
      ExitEndsMatchedPair(ignore, trace, i, j);
      PairRecordsLink(ignore, trace[i], trace[j], p, target);
    }
  }

  lemma LinksRead(ignore: string -> bool, trace: seq<Event>, p: string)
    requires AllPathLaws(trace)
    ensures p in LinksOf(Effects(ignore, trace)) <==> exists t, i: nat, j: nat :: Read(ignore, trace, p, t, i, j)
  {
    var es := Effects(ignore, trace);
    if trace != [] { EffectAt(ignore, trace, 0); }
    LinksAreFirst(es, p);
    hide LinksOf, Effects, MatchedPair, ReadsLink;
    if p in LinksOf(es) {
      var j: nat :| FirstLink(es, p, j);
      ReadEffect(ignore, trace, p, es[j].target, j);
    }
    forall t, i: nat, j: nat | Read(ignore, trace, p, t, i, j) ensures p in LinksOf(es) {
      ReadInside(ignore, trace, p, t, i, j);
      ReadEffect(ignore, trace, p, t, j);
      if p !in LinksOf(es) { NoFirstLink(es, p); }
    }
  }

  lemma FirstReadDecides(ignore: string -> bool, trace: seq<Event>, p: string, target: string, i: nat, j: nat)
    requires AllPathLaws(trace) && FirstRead(ignore, trace, p, target, i, j)
    ensures var links := LinksOf(Effects(ignore, trace)); p in links && links[p] == target
  {
    ReadInside(ignore, trace, p, target, i, j);
    var es := Effects(ignore, trace);
    EffectAt(ignore, trace, 0);
    LinksAreFirst(es, p);
    hide LinksOf, Effects, MatchedPair, ReadsLink;
    ReadEffect(ignore, trace, p, target, j);
    forall k | 0 <= k < j && es[k].RecordLink? ensures es[k].path != p {
      ReadEffect(ignore, trace, p, es[k].target, k);
    }
    assert FirstLink(es, p, j);
  }

  /** The tracer holds a link exactly when a matched pair of the trace reads it, with the target
      that the first such pair reads. */
  lemma RecordedLinks(tracer: FileTracer, p: string)
    requires tracer.Valid() && AllPathLaws(tracer.trace)
    ensures p in tracer.symlinks <==> exists t, i: nat, j: nat :: Read(tracer.ignore, tracer.trace, p, t, i, j)
    ensures forall t, i: nat, j: nat :: FirstRead(tracer.ignore, tracer.trace, p, t, i, j) ==>
      p in tracer.symlinks && tracer.symlinks[p] == t
  {
    LinksRead(tracer.ignore, tracer.trace, p);
    hide LinksOf, Effects, MatchedPair, ReadsLink;
    forall t, i: nat, j: nat | FirstRead(tracer.ignore, tracer.trace, p, t, i, j)
      ensures p in tracer.symlinks && tracer.symlinks[p] == t
    {
      FirstReadDecides(tracer.ignore, tracer.trace, p, t, i, j);
    }
  }

  lemma ReadInside(ignore: string -> bool, trace: seq<Event>, p: string, target: string, i: nat, j: nat)
    requires Read(ignore, trace, p, target, i, j)
    ensures i < j < |trace| && trace[i].Entry? && trace[j].Exit?
  {
  }
}
