/** The watcher's `main`: a start line, then cycle after cycle until the user
    interrupts it, then a stop line. The system's answers for the cycles are the
    sequence `worlds`, one per cycle; the user's Ctrl-C arrives when they run out
    (during the pause that ends the last cycle). An exception out of a cycle ends
    the watcher without the stop line. */
module Watcher {
  import opened Basics
  import opened Text
  import opened ProcessInspector
  import opened Scanner
  import opened Resolver
  import opened WatcherEvents
  import opened Runs
  import opened WatchCycle

  /** Each cycle, as one step function. */
  function Cycles(cfg: Config): World -> Trace {
    w => CycleSpec(cfg, w)
  }

  /** A whole run of the watcher. */
  function WatchSpec(cfg: Config, worlds: seq<World>): (t: Trace)
    ensures t.events != [] && t.events[0] == Log(Started(cfg.runtime, cfg.interval, cfg.maxAge))
    ensures !t.crashed ==> t.events[|t.events| - 1] == Log(StoppedByUser)
  {
    var run := RunAll(worlds, Cycles(cfg));
    Trace([Log(Started(cfg.runtime, cfg.interval, cfg.maxAge))] + run.events +
            (if run.crashed then [] else [Log(StoppedByUser)]),
          run.crashed)
  }

  /** The `while True` loop of `main` under `try ... except KeyboardInterrupt`. */
  method Watch(cfg: Config, worlds: seq<World>) returns (events: seq<Event>, crashed: bool)
    ensures Trace(events, crashed) == WatchSpec(cfg, worlds)
  {
    var start := Log(Started(cfg.runtime, cfg.interval, cfg.maxAge));
    var run: seq<Event> := [];
    var i := 0;
    while i < |worlds|
      invariant 0 <= i <= |worlds|
      invariant Trace(run, false) == RunAll(worlds[..i], Cycles(cfg))
    {
      var cycleEvents, cycleCrashed := RunCycle(cfg, worlds[i]);
      RunAllStep(worlds, Cycles(cfg), i);
      run := run + cycleEvents;
      if cycleCrashed {
        RunAllCrashedPrefix(worlds, Cycles(cfg), i + 1);
        return [start] + run, true;
      }
      i := i + 1;
    }
    assert worlds[..i] == worlds;
    events, crashed := [start] + run + [Log(StoppedByUser)], false;
  }

  /** The watcher ends by an exception exactly when some cycle raises one. */
  lemma WatchCrashes(cfg: Config, worlds: seq<World>)
    ensures WatchSpec(cfg, worlds).crashed <==>
              exists k :: 0 <= k < |worlds| && CycleSpec(cfg, worlds[k]).crashed
  {
    RunAllCrashed(worlds, Cycles(cfg));
  }

  /** Nothing happens after a crash: whatever the system would have answered in later
      cycles, the run is the same. */
  lemma WatchCrashIsFinal(cfg: Config, worlds: seq<World>, n: int)
    requires 0 <= n <= |worlds|
    requires WatchSpec(cfg, worlds[..n]).crashed
    ensures WatchSpec(cfg, worlds) == WatchSpec(cfg, worlds[..n])
  {
    RunAllCrashedPrefix(worlds, Cycles(cfg), n);
  }

  /** With a negative `--interval` the watcher never gets past its first cycle: the
      `time.sleep` that ends it raises, if nothing before it did, and the run ends with
      that exception instead of the stop line. */
  lemma WatchNegativeInterval(cfg: Config, worlds: seq<World>)
    requires cfg.interval < 0 && worlds != []
    ensures WatchSpec(cfg, worlds).crashed
    ensures WatchSpec(cfg, worlds) == WatchSpec(cfg, worlds[..1])
  {
    assert worlds[..0] == [];
    RunAllStep(worlds, Cycles(cfg), 0);
    CycleNegativeInterval(cfg, worlds[0]);
    WatchCrashIsFinal(cfg, worlds, 1);
  }

  /** A signal or a removal of the run happened in its cycles. */
  lemma InCycles(cfg: Config, worlds: seq<World>, e: Event)
    requires e in WatchSpec(cfg, worlds).events
    requires e.Kill? || e.Remove?
    ensures exists k :: 0 <= k < |worlds| && e in CycleSpec(cfg, worlds[k]).events
  {
    var run := RunAll(worlds, Cycles(cfg));
    var tail: seq<Event> := if run.crashed then [] else [Log(StoppedByUser)];
    assert WatchSpec(cfg, worlds).events == [Log(Started(cfg.runtime, cfg.interval, cfg.maxAge))] + run.events + tail;
    assert e in run.events;
    RunAllEvents(worlds, Cycles(cfg), e);
  }

  /** Over a whole run, a signal goes only to a pid that `pgrep` listed in some cycle and
      that passed that cycle's guard: owned by the user, not an active kernel, old enough. */
  lemma WatchSignalsOnlyCandidates(cfg: Config, worlds: seq<World>, q: int, s: Signal)
    requires Kill(q, s) in WatchSpec(cfg, worlds).events
    ensures exists k :: 0 <= k < |worlds| && q in CyclePids(worlds[k]) &&
                        ShouldShutDown(cfg, worlds[k].checkTable, worlds[k].uid, CycleRefs(cfg, worlds[k]), q)
  {
    InCycles(cfg, worlds, Kill(q, s));
    var k :| 0 <= k < |worlds| && Kill(q, s) in CycleSpec(cfg, worlds[k]).events;
    CycleSignalsOnlyCandidates(cfg, worlds[k], q, s);
  }

  /** Over a whole run, a file is removed only in a cycle that listed it as a connection
      file and in which no kernel referenced its basename. */
  lemma WatchRemovesOnlyUnreferenced(cfg: Config, worlds: seq<World>, p: string)
    requires Remove(p) in WatchSpec(cfg, worlds).events
    ensures exists k :: 0 <= k < |worlds| && !worlds[k].listing.ListFailed? &&
                        p in ListKernelJsons(cfg.runtime, worlds[k].listing).value &&
                        Basename(p) !in CycleRefs(cfg, worlds[k])
  {
    InCycles(cfg, worlds, Remove(p));
    var k :| 0 <= k < |worlds| && Remove(p) in CycleSpec(cfg, worlds[k]).events;
    CycleRemovesOnlyUnreferenced(cfg, worlds[k], p);
  }

  /** A kernel that `pgrep` lists in every cycle with the same command line naming the
      connection file `b` is never signalled, and `b` is never removed. */
  lemma WatchSparesActiveKernel(cfg: Config, worlds: seq<World>, q: int, b: string)
    requires forall k :: 0 <= k < |worlds| ==> q in CyclePids(worlds[k])
    requires forall k :: 0 <= k < |worlds| ==>
               CmdlineForPid(worlds[k].resolveTable, q) == CmdlineForPid(worlds[k].checkTable, q)
    requires forall k :: 0 <= k < |worlds| ==>
               ActiveKernel(CmdlineForPid(worlds[k].checkTable, q), cfg.runtime) == Some(b)
    ensures forall s :: Kill(q, s) !in WatchSpec(cfg, worlds).events
    ensures Remove(JoinPath(cfg.runtime, b)) !in WatchSpec(cfg, worlds).events
  {
    forall s ensures Kill(q, s) !in WatchSpec(cfg, worlds).events {
      if Kill(q, s) in WatchSpec(cfg, worlds).events {
        InCycles(cfg, worlds, Kill(q, s));
        var k :| 0 <= k < |worlds| && Kill(q, s) in CycleSpec(cfg, worlds[k]).events;
        CycleSparesActiveKernel(cfg, worlds[k], q, b);
        SignalsToMembership(CycleSpec(cfg, worlds[k]).events, q, s);
      }
    }
    var p := JoinPath(cfg.runtime, b);
    if Remove(p) in WatchSpec(cfg, worlds).events {
      InCycles(cfg, worlds, Remove(p));
      var k :| 0 <= k < |worlds| && Remove(p) in CycleSpec(cfg, worlds[k]).events;
      CycleSparesActiveKernel(cfg, worlds[k], q, b);
    }
  }

  /** A run that is stopped by the user has sent SIGINT to every pid that passed the
      guard in any of its cycles. */
  lemma WatchShutsDownCandidates(cfg: Config, worlds: seq<World>, k: int, q: int)
    requires !WatchSpec(cfg, worlds).crashed
    requires 0 <= k < |worlds|
    requires q in CyclePids(worlds[k]) &&
             ShouldShutDown(cfg, worlds[k].checkTable, worlds[k].uid, CycleRefs(cfg, worlds[k]), q)
    ensures Kill(q, SIGINT) in WatchSpec(cfg, worlds).events
  {
    WatchCrashes(cfg, worlds);
    CycleShutsDownCandidates(cfg, worlds[k], q);
    RunAllReaches(worlds, Cycles(cfg), k, Kill(q, SIGINT));
  }
}
