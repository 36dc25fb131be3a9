/** One cycle of the watcher's main loop, and the loop itself: list the connection
    files, list the kernel pids, resolve the references, remove the unreferenced
    files, then shut down the long-running unreferenced kernels of this user. */
module WatchCycle {
  import opened Basics
  import opened Text
  import opened ProcessInspector
  import opened Scanner
  import opened Finder
  import opened Resolver
  import opened WatcherEvents
  import opened Escalation
  import opened Reaper
  import opened Runs

  /** The `wait` the main loop passes to `gentle_shutdown`. */
  const ShutdownWait := 4

  /** The command-line options the loop uses. */
  datatype Config = Config(runtime: string, interval: int, maxAge: int, forceKill: bool)

  /** What the system answers during one cycle: the directory listing, the `pgrep` run,
      the process table when references are resolved and when each pid is checked
      afterwards, the paths `os.remove` fails on, and the watcher's own uid. */
  datatype World = World(
    listing: Listing,
    pgrep: CommandRun,
    resolveTable: Table,
    checkTable: Table,
    undeletable: set<string>,
    uid: int)

  /** `kernel_basename and kernel_basename in refs`. */
  predicate IsActive(kb: Option<string>, refs: set<string>) {
    kb.Some? && kb.value != "" && kb.value in refs
  }

  /** The guard in front of `gentle_shutdown`: owned by this user (a failed stat skips the
      pid), not an active kernel, and running for at least `maxAge` seconds. */
  predicate ShouldShutDown(cfg: Config, t: Table, uid: int, refs: set<string>, pid: int): (go: bool)
    ensures go ==> pid in t && t[pid].ownerUid == Some(uid)
  {
    StatUid(t, pid) == Some(uid) &&
    !IsActive(ActiveKernel(CmdlineForPid(t, pid), cfg.runtime), refs) &&
    EtimesForPid(t, pid) >= cfg.maxAge
  }

  /** The announcement in front of a shutdown: a log line and a notification. */
  function Announce(pid: int, elapsed: int, maxAge: int): (events: seq<Event>)
    ensures |events| == 2
    ensures forall k :: 0 <= k < |events| ==> events[k].Log? || events[k].Notify?
    ensures events[0].Log? && events[0].line.LongRunning? && events[0].line.pid == pid
    ensures events[0].line.elapsed == elapsed && events[0].line.maxAge == maxAge
    ensures events[1] == Notify(LongRunningKernel(events[0].line.pid, events[0].line.elapsed))
  {
    [Log(LongRunning(pid, elapsed, maxAge)), Notify(LongRunningKernel(pid, elapsed))]
  }

  /** What the check of one pid does. */
  function PidStep(cfg: Config, t: Table, uid: int, refs: set<string>, pid: int): (tr: Trace)
    ensures !ShouldShutDown(cfg, t, uid, refs, pid) ==> tr == Trace([], false)
  {
    if ShouldShutDown(cfg, t, uid, refs, pid) then
      var sd := ShutdownSpec(pid, RepliesFor(t, pid), ShutdownWait, cfg.forceKill);
      Trace(Announce(pid, EtimesForPid(t, pid), cfg.maxAge) + sd.events, sd.crashed)
    else Trace([], false)
  }

  /** The check of each pid, as one step function. */
  function Checks(cfg: Config, t: Table, uid: int, refs: set<string>): int -> Trace {
    pid => PidStep(cfg, t, uid, refs, pid)
  }

  /** The loop over the pids; an exception out of a shutdown ends it. */
  function EscalateSpec(cfg: Config, t: Table, uid: int, refs: set<string>, pids: seq<int>): Trace {
    RunAll(pids, Checks(cfg, t, uid, refs))
  }

  /** The body of the pid loop for one pid; its two `continue`s are early returns. */
  method CheckPid(cfg: Config, t: Table, uid: int, refs: set<string>, pid: int)
    returns (events: seq<Event>, crashed: bool)
    ensures Trace(events, crashed) == PidStep(cfg, t, uid, refs, pid)
  {
    events, crashed := [], false;
    var owner := StatUid(t, pid);
    if owner.None? || owner.value != uid {
      return;
    }
    var cl := CmdlineForPid(t, pid);
    var kb := FindKernelBasename(cl, cfg.runtime);
    if kb.Some? && kb.value != "" && kb.value in refs {
      return;
    }
    var et := EtimesForPid(t, pid);
    if et >= cfg.maxAge {
      var sdEvents;
      sdEvents, crashed := GentleShutdown(pid, RepliesFor(t, pid), ShutdownWait, cfg.forceKill);
      events := Announce(pid, et, cfg.maxAge) + sdEvents;
    }
  }

  /** The pid loop of the main cycle; a crash in a shutdown leaves it. */
  method EscalateLongRunning(cfg: Config, t: Table, uid: int, refs: set<string>, pids: seq<int>)
    returns (events: seq<Event>, crashed: bool)
    ensures Trace(events, crashed) == EscalateSpec(cfg, t, uid, refs, pids)
  {
    events := [];
    crashed := false;
    for i := 0 to |pids|
      invariant Trace(events, false) == RunAll(pids[..i], Checks(cfg, t, uid, refs))
    {
      var stepEvents, stepCrashed := CheckPid(cfg, t, uid, refs, pids[i]);
      RunAllStep(pids, Checks(cfg, t, uid, refs), i);
      events := events + stepEvents;
      if stepCrashed {
        RunAllCrashedPrefix(pids, Checks(cfg, t, uid, refs), i + 1);
        return events, true;
      }
    }
    assert pids[..|pids|] == pids;
  }

  /** The pids `pgrep` reports in a cycle, none when it cannot be started. */
  function CyclePids(w: World): (pids: seq<int>)
    ensures forall k :: 0 <= k < |pids| ==> pids[k] >= 0
  {
    match PgrepPids(w.pgrep)
    case Ok(pids) => pids
    case Uncaught => []
  }

  /** The basenames the cycle's kernels reference. */
  function CycleRefs(cfg: Config, w: World): (refs: set<string>)
    ensures forall b <- refs :: EndsWith(b, ".json") && '/' !in b
  {
    Referenced(CyclePids(w), w.resolveTable, cfg.runtime)
  }

  /** One pass of the `while True` body: the listing or `pgrep` failing ends the
      watcher; otherwise the files are reaped, the pids checked, and the loop sleeps.
      `time.sleep` of a negative interval raises `ValueError`, which also ends it. */
  function CycleSpec(cfg: Config, w: World): (tr: Trace)
    ensures w.listing.ListFailed? ==> tr == Trace([], true)
    ensures !w.listing.ListFailed? && w.pgrep.LaunchFailed? ==> tr == Trace([], true)
    ensures cfg.interval < 0 ==> tr.crashed
  {
    match ListKernelJsons(cfg.runtime, w.listing)
    case Uncaught => Trace([], true)
    case Ok(jsons) =>
      match PgrepPids(w.pgrep)
      case Uncaught => Trace([], true)
      case Ok(pids) =>
        var refs := CycleRefs(cfg, w);
        var esc := EscalateSpec(cfg, w.checkTable, w.uid, refs, pids);
        var pauses := !esc.crashed && cfg.interval >= 0;
        Trace(ReapSpec(jsons, refs, w.undeletable) + esc.events + (if pauses then [Sleep(cfg.interval)] else []),
              !pauses)
  }

  method RunCycle(cfg: Config, w: World) returns (events: seq<Event>, crashed: bool)
    ensures Trace(events, crashed) == CycleSpec(cfg, w)
  {
    var listed := ListKernelJsons(cfg.runtime, w.listing);
    if listed.Uncaught? {
      return [], true;
    }
    var found := GetIpykernelPids(w.pgrep);
    if found.Uncaught? {
      return [], true;
    }
    var pids := found.value;
    var refs := ReferencedJsonsFromProcs(pids, w.resolveTable, cfg.runtime);
    events := ReapStale(listed.value, refs, w.undeletable);
    var escEvents;
    escEvents, crashed := EscalateLongRunning(cfg, w.checkTable, w.uid, refs, pids);
    events := events + escEvents;
    if !crashed {
      if cfg.interval < 0 {
        crashed := true;
      } else {
        events := events + [Sleep(cfg.interval)];
      }
    }
  }

  // ---------------------------------------------------------------- one pid

  /** The check of one pid never removes a file. */
  lemma PidStepRemovesNothing(cfg: Config, t: Table, uid: int, refs: set<string>, pid: int, p: string)
    ensures Remove(p) !in PidStep(cfg, t, uid, refs, pid).events
  {
    if ShouldShutDown(cfg, t, uid, refs, pid) {
      var announce := Announce(pid, EtimesForPid(t, pid), cfg.maxAge);
      var sd := ShutdownSpec(pid, RepliesFor(t, pid), ShutdownWait, cfg.forceKill).events;
      ShutdownTouchesOnlyPid(pid, RepliesFor(t, pid), ShutdownWait, cfg.forceKill);
      assert PidStep(cfg, t, uid, refs, pid).events == announce + sd;
      assert Remove(p) !in announce;
      assert Remove(p) !in sd;
    }
  }

  /** The only pauses of a check are the shutdown's waits of `ShutdownWait` seconds. */
  lemma PidStepSleeps(cfg: Config, t: Table, uid: int, refs: set<string>, pid: int, x: int)
    requires Sleep(x) in PidStep(cfg, t, uid, refs, pid).events
    ensures x == ShutdownWait
  {
    var announce := Announce(pid, EtimesForPid(t, pid), cfg.maxAge);
    var sd := ShutdownSpec(pid, RepliesFor(t, pid), ShutdownWait, cfg.forceKill).events;
    ShutdownTouchesOnlyPid(pid, RepliesFor(t, pid), ShutdownWait, cfg.forceKill);
    assert PidStep(cfg, t, uid, refs, pid).events == announce + sd;
    assert Sleep(x) !in announce;
  }

  /** The check of one pid signals only that pid, and only when it passes the guard. */
  lemma PidStepSignals(cfg: Config, t: Table, uid: int, refs: set<string>, pid: int, q: int, s: Signal)
    requires Kill(q, s) in PidStep(cfg, t, uid, refs, pid).events
    ensures q == pid && ShouldShutDown(cfg, t, uid, refs, pid)
  {
    SignalsToMembership(PidStep(cfg, t, uid, refs, pid).events, q, s);
    PidStepSignalOrder(cfg, t, uid, refs, pid, q);
  }

  /** A pid that passes the guard is announced, then sent SIGINT. */
  lemma PidStepInterrupts(cfg: Config, t: Table, uid: int, refs: set<string>, pid: int)
    requires ShouldShutDown(cfg, t, uid, refs, pid)
    ensures |PidStep(cfg, t, uid, refs, pid).events| > 2
    ensures PidStep(cfg, t, uid, refs, pid).events[..2] == Announce(pid, EtimesForPid(t, pid), cfg.maxAge)
    ensures PidStep(cfg, t, uid, refs, pid).events[2] == Kill(pid, SIGINT)
  {
  }

  /** The signal sequences the escalation can send one process. */
  predicate EscalationPrefix(sigs: seq<Signal>) {
    sigs in {[], [SIGINT], [SIGINT, SIGTERM], [SIGINT, SIGTERM, SIGKILL]}
  }

  /** The check of one pid sends that pid an escalation prefix and nobody else anything. */
  lemma PidStepSignalOrder(cfg: Config, t: Table, uid: int, refs: set<string>, pid: int, q: int)
    ensures EscalationPrefix(SignalsTo(PidStep(cfg, t, uid, refs, pid).events, q))
    ensures q != pid ==> SignalsTo(PidStep(cfg, t, uid, refs, pid).events, q) == []
  {
    var step := PidStep(cfg, t, uid, refs, pid).events;
    if ShouldShutDown(cfg, t, uid, refs, pid) {
      var r := RepliesFor(t, pid);
      var sd := ShutdownSpec(pid, r, ShutdownWait, cfg.forceKill).events;
      PidStepShutdownSignals(cfg, t, uid, refs, pid, q);
      ShutdownSignalOrder(pid, r, ShutdownWait, cfg.forceKill, q);
      var sigs := SignalsTo(sd, q);
      assert sigs == [] || sigs == [SIGINT] || sigs == [SIGINT, SIGTERM] || sigs == [SIGINT, SIGTERM, SIGKILL];
    } else {
      assert step == [];
    }
  }

  /** The signals of a check are those of its shutdown. */
  lemma PidStepShutdownSignals(cfg: Config, t: Table, uid: int, refs: set<string>, pid: int, q: int)
    requires ShouldShutDown(cfg, t, uid, refs, pid)
    ensures SignalsTo(PidStep(cfg, t, uid, refs, pid).events, q) ==
              SignalsTo(ShutdownSpec(pid, RepliesFor(t, pid), ShutdownWait, cfg.forceKill).events, q)
  {
    var sd := ShutdownSpec(pid, RepliesFor(t, pid), ShutdownWait, cfg.forceKill).events;
    assert PidStep(cfg, t, uid, refs, pid).events == Announce(pid, EtimesForPid(t, pid), cfg.maxAge) + sd;
    AnnounceSendsNoSignal(pid, EtimesForPid(t, pid), cfg.maxAge, sd, q);
  }

  /** The announcement in front of a shutdown adds no signal. */
  lemma AnnounceSendsNoSignal(pid: int, elapsed: int, maxAge: int, rest: seq<Event>, q: int)
    ensures SignalsTo(Announce(pid, elapsed, maxAge) + rest, q) == SignalsTo(rest, q)
  {
    var announce := Announce(pid, elapsed, maxAge);
    SignalsToAppend(announce, rest, q);
    NoSignalsTo(announce, q);
  }

  // ---------------------------------------------------------------- the pid loop

  /** The pid loop never removes a file. */
  lemma EscalateRemovesNothing(cfg: Config, t: Table, uid: int, refs: set<string>, pids: seq<int>, p: string)
    ensures Remove(p) !in EscalateSpec(cfg, t, uid, refs, pids).events
  {
    if Remove(p) in EscalateSpec(cfg, t, uid, refs, pids).events {
      RunAllEvents(pids, Checks(cfg, t, uid, refs), Remove(p));
      var k :| 0 <= k < |pids| && Remove(p) in Checks(cfg, t, uid, refs)(pids[k]).events;
      PidStepRemovesNothing(cfg, t, uid, refs, pids[k], p);
    }
  }

  /** The only pauses of the pid loop are the shutdowns' waits. */
  lemma EscalateSleeps(cfg: Config, t: Table, uid: int, refs: set<string>, pids: seq<int>, x: int)
    requires Sleep(x) in EscalateSpec(cfg, t, uid, refs, pids).events
    ensures x == ShutdownWait
  {
    RunAllEvents(pids, Checks(cfg, t, uid, refs), Sleep(x));
    var k :| 0 <= k < |pids| && Sleep(x) in Checks(cfg, t, uid, refs)(pids[k]).events;
    PidStepSleeps(cfg, t, uid, refs, pids[k], x);
  }

  /** A signal goes only to a listed pid that passes the guard. */
  lemma EscalateSignalsOnlyCandidates(cfg: Config, t: Table, uid: int, refs: set<string>,
                                      pids: seq<int>, q: int, s: Signal)
    requires Kill(q, s) in EscalateSpec(cfg, t, uid, refs, pids).events
    ensures q in pids && ShouldShutDown(cfg, t, uid, refs, q)
  {
    RunAllEvents(pids, Checks(cfg, t, uid, refs), Kill(q, s));
    var k :| 0 <= k < |pids| && Kill(q, s) in Checks(cfg, t, uid, refs)(pids[k]).events;
    PidStepSignals(cfg, t, uid, refs, pids[k], q, s);
  }

  /** Every listed pid that passes the guard receives SIGINT, unless the loop crashed. */
  lemma EscalateReachesCandidates(cfg: Config, t: Table, uid: int, refs: set<string>, pids: seq<int>, q: int)
    requires !EscalateSpec(cfg, t, uid, refs, pids).crashed
    requires q in pids && ShouldShutDown(cfg, t, uid, refs, q)
    ensures Kill(q, SIGINT) in EscalateSpec(cfg, t, uid, refs, pids).events
  {
    var k :| 0 <= k < |pids| && pids[k] == q;
    PidStepInterrupts(cfg, t, uid, refs, q);
    assert Kill(q, SIGINT) in PidStep(cfg, t, uid, refs, q).events;
    RunAllReaches(pids, Checks(cfg, t, uid, refs), k, Kill(q, SIGINT));
  }

  /** With distinct pids, each process sees at most one escalation, in the order SIGINT,
      SIGTERM, SIGKILL. */
  lemma EscalateSignalOrder(cfg: Config, t: Table, uid: int, refs: set<string>, pids: seq<int>, q: int)
    requires forall a, b :: 0 <= a < b < |pids| ==> pids[a] != pids[b]
    ensures EscalationPrefix(SignalsTo(EscalateSpec(cfg, t, uid, refs, pids).events, q))
  {
    var step := Checks(cfg, t, uid, refs);
    forall p | p != q ensures SignalsTo(step(p).events, q) == [] {
      PidStepSignalOrder(cfg, t, uid, refs, p, q);
    }
    RunAllSignalsTo(pids, step, q);
    PidStepSignalOrder(cfg, t, uid, refs, q, q);
  }

  // ---------------------------------------------------------------- one cycle

  /** A cycle that gets past the listing and `pgrep` does the reaping, then the checks. */
  lemma CycleParts(cfg: Config, w: World)
    requires !w.listing.ListFailed? && w.pgrep.Completed?
    ensures var esc := EscalateSpec(cfg, w.checkTable, w.uid, CycleRefs(cfg, w), CyclePids(w));
            CycleSpec(cfg, w) ==
              Trace(ReapSpec(ListKernelJsons(cfg.runtime, w.listing).value, CycleRefs(cfg, w), w.undeletable) +
                    esc.events + (if esc.crashed || cfg.interval < 0 then [] else [Sleep(cfg.interval)]),
                    esc.crashed || cfg.interval < 0)
  {
  }

  /** A file of the runtime directory is removed in a cycle exactly when it is a
      connection file that no kernel of that cycle references. */
  lemma CycleRemoves(cfg: Config, w: World, names: seq<string>, f: string)
    requires w.listing == Entries(names) && w.pgrep.Completed?
    requires forall n <- names :: '/' !in n
    requires '/' !in f
    ensures Remove(JoinPath(cfg.runtime, f)) in CycleSpec(cfg, w).events <==>
              f in names && IsKernelJsonName(f) && f !in CycleRefs(cfg, w)
  {
    var jsons := ListKernelJsons(cfg.runtime, w.listing).value;
    var refs := CycleRefs(cfg, w);
    var p := JoinPath(cfg.runtime, f);
    CycleParts(cfg, w);
    EscalateRemovesNothing(cfg, w.checkTable, w.uid, refs, CyclePids(w), p);
    ReapRemoves(jsons, refs, w.undeletable, p);
    BasenameOfJoin(cfg.runtime, f);
    KernelJsonPathsMembership(cfg.runtime, names, p);
    assert p in jsons <==> p in KernelJsonPaths(cfg.runtime, names) by {
      assert p in jsons <==> p in multiset(jsons);
    }
    if g :| g in names && IsKernelJsonName(g) && p == JoinPath(cfg.runtime, g) {
      BasenameOfJoin(cfg.runtime, g);
    }
  }

  /** In a cycle a signal goes only to a pid `pgrep` listed that passes the guard. */
  lemma CycleSignalsOnlyCandidates(cfg: Config, w: World, q: int, s: Signal)
    requires Kill(q, s) in CycleSpec(cfg, w).events
    ensures !w.listing.ListFailed? && w.pgrep.Completed?
    ensures q in CyclePids(w) && ShouldShutDown(cfg, w.checkTable, w.uid, CycleRefs(cfg, w), q)
  {
    CycleParts(cfg, w);
    var jsons := ListKernelJsons(cfg.runtime, w.listing).value;
    if Kill(q, s) in ReapSpec(jsons, CycleRefs(cfg, w), w.undeletable) {
      ReapOnlyFiles(jsons, CycleRefs(cfg, w), w.undeletable, Kill(q, s));
    }
    EscalateSignalsOnlyCandidates(cfg, w.checkTable, w.uid, CycleRefs(cfg, w), CyclePids(w), q, s);
  }

  /** A cycle that does not crash sends SIGINT to every listed pid that passes the guard. */
  lemma CycleShutsDownCandidates(cfg: Config, w: World, q: int)
    requires !CycleSpec(cfg, w).crashed
    requires q in CyclePids(w) && ShouldShutDown(cfg, w.checkTable, w.uid, CycleRefs(cfg, w), q)
    ensures Kill(q, SIGINT) in CycleSpec(cfg, w).events
  {
    CycleParts(cfg, w);
    EscalateReachesCandidates(cfg, w.checkTable, w.uid, CycleRefs(cfg, w), CyclePids(w), q);
  }

  /** The signals a cycle sends are those of its pid loop. */
  lemma CycleSignalsAreEscalation(cfg: Config, w: World, q: int)
    requires !w.listing.ListFailed? && w.pgrep.Completed?
    ensures SignalsTo(CycleSpec(cfg, w).events, q) ==
              SignalsTo(EscalateSpec(cfg, w.checkTable, w.uid, CycleRefs(cfg, w), CyclePids(w)).events, q)
  {
    CycleParts(cfg, w);
    var jsons := ListKernelJsons(cfg.runtime, w.listing).value;
    var reap := ReapSpec(jsons, CycleRefs(cfg, w), w.undeletable);
    var esc := EscalateSpec(cfg, w.checkTable, w.uid, CycleRefs(cfg, w), CyclePids(w));
    var tail: seq<Event> := if esc.crashed || cfg.interval < 0 then [] else [Sleep(cfg.interval)];
    ReapSignalsNobody(jsons, CycleRefs(cfg, w), w.undeletable, q);
    NoSignalsTo(tail, q);
    SignalsToAppend(reap, esc.events, q);
    SignalsToAppend(reap + esc.events, tail, q);
  }

  /** A pid that is not listed or does not pass the guard gets no signal in the cycle. */
  lemma CycleNoSignalsTo(cfg: Config, w: World, q: int)
    requires q !in CyclePids(w) || !ShouldShutDown(cfg, w.checkTable, w.uid, CycleRefs(cfg, w), q)
    ensures SignalsTo(CycleSpec(cfg, w).events, q) == []
  {
    var events := CycleSpec(cfg, w).events;
    forall j | 0 <= j < |events| ensures !(events[j].Kill? && events[j].pid == q) {
      if events[j].Kill? && events[j].pid == q {
        CycleSignalsOnlyCandidates(cfg, w, q, events[j].sig);
      }
    }
    NoSignalsTo(events, q);
  }

  /** A path whose basename is referenced is never removed. */
  lemma CycleKeepsReferenced(cfg: Config, w: World, p: string)
    requires Basename(p) in CycleRefs(cfg, w)
    ensures Remove(p) !in CycleSpec(cfg, w).events
  {
    if Remove(p) in CycleSpec(cfg, w).events {
      CycleRemovesOnlyUnreferenced(cfg, w, p);
    }
  }

  /** The connection file a listed kernel names is among the cycle's references. */
  lemma ActiveKernelReferenced(cfg: Config, w: World, q: int, b: string)
    requires q in CyclePids(w)
    requires ActiveKernel(CmdlineForPid(w.resolveTable, q), cfg.runtime) == Some(b)
    ensures b in CycleRefs(cfg, w)
  {
    var pids := CyclePids(w);
    var k :| 0 <= k < |pids| && pids[k] == q;
    assert ReferencesVia(w.resolveTable, cfg.runtime, pids[k], b);
    ReferencedMembership(pids, w.resolveTable, cfg.runtime, b);
  }

  /** A kernel whose command line names a connection file in the runtime directory keeps
      both: its file is not removed and it is not signalled, as long as its command line
      reads the same when references are resolved and when it is checked. */
  lemma CycleSparesActiveKernel(cfg: Config, w: World, q: int, b: string)
    requires q in CyclePids(w)
    requires CmdlineForPid(w.resolveTable, q) == CmdlineForPid(w.checkTable, q)
    requires ActiveKernel(CmdlineForPid(w.checkTable, q), cfg.runtime) == Some(b)
    ensures SignalsTo(CycleSpec(cfg, w).events, q) == []
    ensures Remove(JoinPath(cfg.runtime, b)) !in CycleSpec(cfg, w).events
  {
    ActiveKernelReferenced(cfg, w, q, b);
    assert !ShouldShutDown(cfg, w.checkTable, w.uid, CycleRefs(cfg, w), q);
    CycleNoSignalsTo(cfg, w, q);
    BasenameOfJoin(cfg.runtime, b);
    CycleKeepsReferenced(cfg, w, JoinPath(cfg.runtime, b));
  }

  /** With `pgrep` listing each pid once, each process sees at most one escalation per
      cycle, in the order SIGINT, SIGTERM, SIGKILL. */
  lemma CycleSignalOrder(cfg: Config, w: World, q: int)
    requires forall a, b :: 0 <= a < b < |CyclePids(w)| ==> CyclePids(w)[a] != CyclePids(w)[b]
    ensures EscalationPrefix(SignalsTo(CycleSpec(cfg, w).events, q))
  {
    if !w.listing.ListFailed? && w.pgrep.Completed? {
      CycleSignalsAreEscalation(cfg, w, q);
      EscalateSignalOrder(cfg, w.checkTable, w.uid, CycleRefs(cfg, w), CyclePids(w), q);
    }
  }

  /** A cycle removes only listed connection files whose basename no kernel of that
      cycle references. */
  lemma CycleRemovesOnlyUnreferenced(cfg: Config, w: World, p: string)
    requires Remove(p) in CycleSpec(cfg, w).events
    ensures !w.listing.ListFailed? && w.pgrep.Completed?
    ensures p in ListKernelJsons(cfg.runtime, w.listing).value && Basename(p) !in CycleRefs(cfg, w)
  {
    CycleParts(cfg, w);
    var jsons := ListKernelJsons(cfg.runtime, w.listing).value;
    ReapRemoves(jsons, CycleRefs(cfg, w), w.undeletable, p);
    EscalateRemovesNothing(cfg, w.checkTable, w.uid, CycleRefs(cfg, w), CyclePids(w), p);
  }

  /** A cycle that does not crash ends with the polling pause, which it could only take
      with a non-negative interval. */
  lemma CycleEndsWithPause(cfg: Config, w: World)
    requires !CycleSpec(cfg, w).crashed
    ensures cfg.interval >= 0
    ensures CycleSpec(cfg, w).events != []
    ensures CycleSpec(cfg, w).events[|CycleSpec(cfg, w).events| - 1] == Sleep(cfg.interval)
  {
    CycleParts(cfg, w);
  }

  /** With a negative interval every cycle raises: the listing or `pgrep` fails, a
      shutdown raises, or else `time.sleep` does, and no pause is taken. */
  lemma CycleNegativeInterval(cfg: Config, w: World)
    requires cfg.interval < 0
    ensures CycleSpec(cfg, w).crashed
    ensures Sleep(cfg.interval) !in CycleSpec(cfg, w).events
  {
    if !w.listing.ListFailed? && w.pgrep.Completed? {
      CycleParts(cfg, w);
      var jsons := ListKernelJsons(cfg.runtime, w.listing).value;
      var refs := CycleRefs(cfg, w);
      var esc := EscalateSpec(cfg, w.checkTable, w.uid, refs, CyclePids(w));
      var reap := ReapSpec(jsons, refs, w.undeletable);
      assert CycleSpec(cfg, w).events == reap + esc.events;
      if Sleep(cfg.interval) in reap {
        ReapOnlyFiles(jsons, refs, w.undeletable, Sleep(cfg.interval));
      }
      if Sleep(cfg.interval) in esc.events {
        EscalateSleeps(cfg, w.checkTable, w.uid, refs, CyclePids(w), cfg.interval);
      }
    }
  }
}
