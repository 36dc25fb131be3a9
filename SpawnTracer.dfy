/** The spawn tracer: it polls `pgrep` for kernel processes and writes one
    "NEW KERNEL" line (with the process's parent and both command lines) the
    first time it sees each pid, remembering the pids it has seen in a set. The
    system's answers for each poll are one `Poll`; the user's Ctrl-C arrives when
    the polls run out. */
module SpawnTracer {
  import opened Basics
  import opened ProcessInspector
  import opened Finder

  /** `main`'s default `poll_interval`, in seconds. */
  const PollInterval := 2

  /** What the tracer reads about a new kernel: its parent's pid and both command lines. */
  datatype Parentage = Parentage(ppid: int, cmd: string, parentCmd: string)

  /** The lines the tracer writes. */
  datatype TracerLine =
    | TracerStarted                                              // Starting kernel_spawn_tracer (match=...)
    | NewKernel(pid: int, about: Parentage)                       // NEW KERNEL PID=... PPID=... CMD='...' PARENT_CMD='...'
    | TracerStopped                                              // kernel_spawn_tracer stopped by user

  datatype TracerEvent =
    | Wrote(line: TracerLine)         // write(...)
    | Notified(pid: int, ppid: int)   // notify("Kernel spawned", ...), fire-and-forget
    | Pause(seconds: int)             // time.sleep(poll_interval)

  /** What the system answers in one poll: the `pgrep` run and the process table. */
  datatype Poll = Poll(pgrep: CommandRun, table: Table)

  /** The state of the polling loop: what it has done, the `seen` set, and whether an
      exception has left it. */
  datatype TracerState = TracerState(events: seq<TracerEvent>, seen: set<int>, crashed: bool)

  /** What the tracer reads for a pid: the parent's command line is read only for a
      non-zero parent pid. */
  function Describe(t: Table, pid: int): (info: Parentage)
    ensures info.ppid == PpidFor(t, pid) && info.cmd == CmdlineForPid(t, pid)
    ensures info.ppid == 0 ==> info.parentCmd == ""
    ensures info.ppid != 0 ==> info.parentCmd == CmdlineForPid(t, info.ppid)
  {
    var ppid := PpidFor(t, pid);
    Parentage(ppid, CmdlineForPid(t, pid), if ppid != 0 then CmdlineForPid(t, ppid) else "")
  }

  /** `Describe` for every pid of one process table. */
  function Describer(t: Table): int -> Parentage {
    pid => Describe(t, pid)
  }

  lemma DescriberReads(t: Table, pid: int)
    ensures var ppid := PpidFor(t, pid);
            Describer(t)(pid) == Parentage(ppid, CmdlineForPid(t, pid), if ppid != 0 then CmdlineForPid(t, ppid) else "")
  {
  }

  /** A process that is gone before it is described is reported with parent 0 and empty
      command lines: every failed read falls back instead of raising. */
  lemma DescribeVanished(t: Table, pid: int)
    requires pid !in t
    ensures Describe(t, pid) == Parentage(0, "", "")
  {
  }

  /** A parent that is gone (or unreadable) gives an empty parent command line. */
  lemma DescribeVanishedParent(t: Table, pid: int)
    requires PpidFor(t, pid) !in t
    ensures Describe(t, pid).parentCmd == ""
  {
  }

  function PidSet(pids: seq<int>): set<int> {
    set p | p in pids
  }

  /** The pids of `pids` that are not in `seen`, each once, in the order of their first
      appearance. */
  function NewPids(pids: seq<int>, seen: set<int>): (novel: seq<int>)
    ensures |novel| <= |pids|
  {
    if pids == [] then []
    else
      var front := pids[..|pids| - 1];
      var p := pids[|pids| - 1];
      NewPids(front, seen) + (if p in seen || p in front then [] else [p])
  }

  /** A pid is new exactly when it is among `pids` and was not seen before. */
  lemma {:induction false} NewPidsMembership(pids: seq<int>, seen: set<int>, p: int)
    ensures p in NewPids(pids, seen) <==> p in pids && p !in seen
    decreases |pids|
  {
    if pids != [] {
      var front := pids[..|pids| - 1];
      NewPidsMembership(front, seen, p);
      assert pids == front + [pids[|pids| - 1]];
    }
  }

  /** No pid is new twice. */
  lemma {:induction false} NewPidsDistinct(pids: seq<int>, seen: set<int>)
    ensures var novel := NewPids(pids, seen);
            forall a, b :: 0 <= a < b < |novel| ==> novel[a] != novel[b]
    decreases |pids|
  {
    if pids != [] {
      var front := pids[..|pids| - 1];
      var p := pids[|pids| - 1];
      NewPidsDistinct(front, seen);
      NewPidsMembership(front, seen, p);
    }
  }

  /** Reading two batches in turn is reading them as one: the second batch's new pids are
      those that neither `seen` nor the first batch holds. */
  lemma {:induction false} NewPidsAppend(a: seq<int>, b: seq<int>, seen: set<int>)
    ensures NewPids(a + b, seen) == NewPids(a, seen) + NewPids(b, seen + PidSet(a))
    decreases |b|
  {
    if b == [] {
      assert a + b == a;
    } else {
      var b' := b[..|b| - 1];
      var x := b[|b| - 1];
      assert (a + b)[..|a + b| - 1] == a + b';
      assert (a + b)[|a + b| - 1] == x;
      NewPidsAppend(a, b', seen);
      assert x in a + b' <==> x in a || x in b';
    }
  }

  /** Pids that were not seen and do not repeat are all new, in their own order. */
  lemma {:induction false} NewPidsOfFresh(pids: seq<int>, seen: set<int>)
    requires forall a, b :: 0 <= a < b < |pids| ==> pids[a] != pids[b]
    requires forall k :: 0 <= k < |pids| ==> pids[k] !in seen
    ensures NewPids(pids, seen) == pids
    decreases |pids|
  {
    if pids != [] {
      var front := pids[..|pids| - 1];
      NewPidsOfFresh(front, seen);
      assert pids == front + [pids[|pids| - 1]];
    }
  }

  /** First appearance decides the order: of two new pids, the earlier one occurs in a
      prefix of `pids` that the later one does not occur in yet. */
  lemma {:induction false} NewPidsOrder(pids: seq<int>, seen: set<int>, i: int, j: int)
    requires 0 <= i < j < |NewPids(pids, seen)|
    ensures var novel := NewPids(pids, seen);
            exists n :: 0 <= n <= |pids| && novel[i] in pids[..n] && novel[j] !in pids[..n]
    decreases |pids|
  {
    var novel := NewPids(pids, seen);
    var front := pids[..|pids| - 1];
    var before := NewPids(front, seen);
    NewPidsMembership(front, seen, novel[i]);
    if j < |before| {
      NewPidsOrder(front, seen, i, j);
      var n :| 0 <= n <= |front| && before[i] in front[..n] && before[j] !in front[..n];
      assert front[..n] == pids[..n];
    } else {
      assert novel[i] in pids[..|pids| - 1];
    }
  }

  /** What one poll writes for the new pids: a line and a notification each. */
  function Announcements(describe: int -> Parentage, novel: seq<int>): (events: seq<TracerEvent>)
    ensures |events| == 2 * |novel|
  {
    if novel == [] then []
    else
      var p := novel[|novel| - 1];
      Announcements(describe, novel[..|novel| - 1]) + Announce(describe, p)
  }

  /** The line and the notification for one new pid. */
  function Announce(describe: int -> Parentage, p: int): (events: seq<TracerEvent>)
    ensures |events| == 2 && events[0].Wrote? && events[0].line == NewKernel(p, describe(p))
    ensures events[1] == Notified(p, describe(p).ppid)
  {
    [Wrote(NewKernel(p, describe(p))), Notified(p, describe(p).ppid)]
  }

  /** The pids of the "NEW KERNEL" lines among `events`, in order. */
  function ReportedPids(events: seq<TracerEvent>): (pids: seq<int>)
    ensures |pids| <= |events|
  {
    if events == [] then []
    else
      (if events[0].Wrote? && events[0].line.NewKernel? then [events[0].line.pid] else []) +
      ReportedPids(events[1..])
  }

  lemma {:induction false} ReportedPidsAppend(a: seq<TracerEvent>, b: seq<TracerEvent>)
    ensures ReportedPids(a + b) == ReportedPids(a) + ReportedPids(b)
  {
    if a == [] {
      assert a + b == b;
    } else {
      assert (a + b)[1..] == a[1..] + b;
      ReportedPidsAppend(a[1..], b);
    }
  }

  /** A poll reports exactly its new pids, in order. */
  lemma {:induction false} AnnouncementsReport(describe: int -> Parentage, novel: seq<int>)
    ensures ReportedPids(Announcements(describe, novel)) == novel
    decreases |novel|
  {
    if novel != [] {
      var front := novel[..|novel| - 1];
      var p := novel[|novel| - 1];
      var tail := Announce(describe, p);
      AnnouncementsReport(describe, front);
      ReportedPidsAppend(Announcements(describe, front), tail);
      assert ReportedPids(tail) == [p] by {
        assert tail[1..][1..] == [];
      }
      assert novel == front + [p];
    }
  }

  /** What one poll makes of the system's answers: the pids `list_ipykernel_pids` returns
      (or the exception it raises) and what reading `/proc` and `ps` gives for each pid. */
  datatype Snapshot = Snapshot(listed: Result<seq<int>>, describe: int -> Parentage)

  function Observe(polls: seq<Poll>): (snaps: seq<Snapshot>)
    ensures |snaps| == |polls|
  {
    seq(|polls|, k requires 0 <= k < |polls| => SnapshotOf(polls[k]))
  }

  function SnapshotOf(poll: Poll): (snap: Snapshot)
    ensures snap.listed.Uncaught? <==> poll.pgrep.LaunchFailed?
  {
    Snapshot(PgrepPids(poll.pgrep), Describer(poll.table))
  }

  /** The pids one poll lists; none when `pgrep` could not start, since that raises. */
  function PollPids(snap: Snapshot): (pids: seq<int>)
    ensures snap.listed.Ok? ==> pids == snap.listed.value
    ensures snap.listed.Uncaught? ==> pids == []
  {
    match snap.listed
    case Ok(pids) => pids
    case Uncaught => []
  }

  /** Every `pgrep` of the snaps could be started. */
  predicate PgrepStarts(snaps: seq<Snapshot>) {
    forall k :: 0 <= k < |snaps| ==> snaps[k].listed.Ok?
  }

  /** One snap of the loop from the state `before`. */
  function PollStep(before: TracerState, snap: Snapshot): (after: TracerState)
    ensures after.crashed <==> snap.listed.Uncaught?

  {
    if snap.listed.Uncaught? then TracerState(before.events, before.seen, true)
    else
      var pids := PollPids(snap);
      TracerState(before.events + Announcements(snap.describe, NewPids(pids, before.seen)) + [Pause(PollInterval)],
                  before.seen + PidSet(pids), false)
  }

  /** The `while True` loop, snap by snap; `pgrep` failing to start raises out of it. */
  function RunSpec(snaps: seq<Snapshot>): TracerState {
    if snaps == [] then TracerState([], {}, false)
    else
      var before := RunSpec(snaps[..|snaps| - 1]);
      if before.crashed then before else PollStep(before, snaps[|snaps| - 1])
  }

  /** Everything `pgrep` listed up to the first snap whose `pgrep` could not start. */
  function Sighted(snaps: seq<Snapshot>): seq<int> {
    if snaps == [] then []
    else
      var front := snaps[..|snaps| - 1];
      if PgrepStarts(front) then Sighted(front) + PollPids(snaps[|snaps| - 1]) else Sighted(front)
  }

  /** The whole run: a start line, the polling loop, and the stop line after Ctrl-C. */
  function TracerLog(snaps: seq<Snapshot>): (events: seq<TracerEvent>)
    ensures events != [] && events[0] == Wrote(TracerStarted)
    ensures !RunSpec(snaps).crashed ==> events[|events| - 1] == Wrote(TracerStopped)
  {
    var run := RunSpec(snaps);
    [Wrote(TracerStarted)] + run.events + (if run.crashed then [] else [Wrote(TracerStopped)])
  }

  /** One more pid of a poll: reported when neither seen nor listed earlier in the poll,
      skipped otherwise. */
  lemma ReportOneMore(describe: int -> Parentage, pids: seq<int>, seen: set<int>, i: int)
    requires 0 <= i < |pids|
    ensures pids[i] in seen || pids[i] in pids[..i] ==>
              Announcements(describe, NewPids(pids[..i + 1], seen)) == Announcements(describe, NewPids(pids[..i], seen))
    ensures pids[i] !in seen && pids[i] !in pids[..i] ==>
              Announcements(describe, NewPids(pids[..i + 1], seen)) ==
                Announcements(describe, NewPids(pids[..i], seen)) + Announce(describe, pids[i])
  {
    NewPidsSnoc(pids, seen, i);
    var novel := NewPids(pids[..i], seen);
    if pids[i] in seen || pids[i] in pids[..i] {
      assert novel + [] == novel;
    } else {
      assert (novel + [pids[i]])[..|novel|] == novel;
    }
  }

  /** One more pid extends the new pids by itself, unless it was seen or already listed. */
  lemma NewPidsSnoc(pids: seq<int>, seen: set<int>, i: int)
    requires 0 <= i < |pids|
    ensures NewPids(pids[..i + 1], seen) ==
              NewPids(pids[..i], seen) + (if pids[i] in seen || pids[i] in pids[..i] then [] else [pids[i]])
  {
    assert pids[..i + 1][..i] == pids[..i];
  }

  /** The body of the loop for one poll's pids: skip seen pids, add and report the rest. */
  method ReportNew(t: Table, pids: seq<int>, seen: set<int>) returns (events: seq<TracerEvent>, seen': set<int>)
    ensures events == Announcements(Describer(t), NewPids(pids, seen))
    ensures seen' == seen + PidSet(pids)
  {
    events, seen' := [], seen;
    for i := 0 to |pids|
      invariant forall p :: p in seen' <==> p in seen || p in pids[..i]
      invariant events == Announcements(Describer(t), NewPids(pids[..i], seen))
    {
      var pid := pids[i];
      assert pids[..i + 1] == pids[..i] + [pid];
      ReportOneMore(Describer(t), pids, seen, i);
      if pid !in seen' {
        seen' := seen' + {pid};
        var cl := CmdlineForPid(t, pid);
        var ppid := PpidFor(t, pid);
        var parentCl := if ppid != 0 then CmdlineForPid(t, ppid) else "";
        var info := Parentage(ppid, cl, parentCl);
        DescriberReads(t, pid);
        events := events + [Wrote(NewKernel(pid, info)), Notified(pid, ppid)];
      }
    }
    assert pids[..|pids|] == pids;
    SeenUnion(seen, seen', pids);
  }

  lemma SeenUnion(seen: set<int>, seen': set<int>, pids: seq<int>)
    requires forall p :: p in seen' <==> p in seen || p in pids
    ensures seen' == seen + PidSet(pids)
  {
    forall p ensures p in seen' <==> p in seen + PidSet(pids) {
      assert p in PidSet(pids) <==> p in pids;
    }
  }

  lemma {:induction false} RunCrashSticks(a: seq<Snapshot>, b: seq<Snapshot>)
    requires RunSpec(a).crashed
    ensures RunSpec(a + b) == RunSpec(a)
    decreases |b|
  {
    if b == [] {
      assert a + b == a;
    } else {
      var b' := b[..|b| - 1];
      assert (a + b)[..|a + b| - 1] == a + b';
      RunCrashSticks(a, b');
    }
  }

  /** One poll more extends a run that has not crashed by that poll's step. */
  lemma RunStep(snaps: seq<Snapshot>, i: int)
    requires 0 <= i < |snaps| && !RunSpec(snaps[..i]).crashed
    ensures RunSpec(snaps[..i + 1]) == PollStep(RunSpec(snaps[..i]), snaps[i])
  {
    assert snaps[..i + 1][..i] == snaps[..i];
  }

  /** A run that crashed on a prefix ends there. */
  lemma RunCrashedPrefix(snaps: seq<Snapshot>, n: int)
    requires 0 <= n <= |snaps| && RunSpec(snaps[..n]).crashed
    ensures RunSpec(snaps) == RunSpec(snaps[..n])
  {
    RunCrashSticks(snaps[..n], snaps[n..]);
    assert snaps[..n] + snaps[n..] == snaps;
  }

  /** `main` of the tracer. */
  method TraceSpawns(polls: seq<Poll>) returns (events: seq<TracerEvent>, crashed: bool)
    ensures events == TracerLog(Observe(polls))
    ensures crashed == RunSpec(Observe(polls)).crashed
  {
    var snaps := Observe(polls);
    var seen: set<int> := {};
    var run: seq<TracerEvent> := [];
    var i := 0;
    while i < |polls|
      invariant 0 <= i <= |polls|
      invariant RunSpec(snaps[..i]) == TracerState(run, seen, false)
    {
      var poll := polls[i];
      assert snaps[i] == SnapshotOf(poll);
      RunStep(snaps, i);
      var listed := PgrepPids(poll.pgrep);
      if listed.Uncaught? {
        RunCrashedPrefix(snaps, i + 1);
        return [Wrote(TracerStarted)] + run, true;
      }
      var reported;
      reported, seen := ReportNew(poll.table, listed.value, seen);
      run := run + reported + [Pause(PollInterval)];
      i := i + 1;
    }
    assert snaps[..i] == snaps;
    events, crashed := [Wrote(TracerStarted)] + run + [Wrote(TracerStopped)], false;
  }

  // ---------------------------------------------------------------- properties of a run

  /** The tracer stops by an exception exactly when some snap's `pgrep` cannot start. */
  lemma {:induction false} RunCrashes(snaps: seq<Snapshot>)
    ensures RunSpec(snaps).crashed <==> !PgrepStarts(snaps)
    decreases |snaps|
  {
    if snaps != [] {
      var front := snaps[..|snaps| - 1];
      RunCrashes(front);
      if !PgrepStarts(front) {
        var k :| 0 <= k < |front| && !front[k].listed.Ok?;
        assert snaps[k] == front[k];
      }
      if PgrepStarts(front) && snaps[|snaps| - 1].listed.Ok? {
        forall k | 0 <= k < |snaps| ensures snaps[k].listed.Ok? {
          if k < |front| {
            assert snaps[k] == front[k];
          }
        }
      }
    }
  }

  /** The `seen` set is exactly the set of pids sighted so far. */
  lemma {:induction false} RunSeen(snaps: seq<Snapshot>)
    ensures RunSpec(snaps).seen == PidSet(Sighted(snaps))
    decreases |snaps|
  {
    if snaps != [] {
      var front := snaps[..|snaps| - 1];
      RunSeen(front);
      RunCrashes(front);
      var pids := PollPids(snaps[|snaps| - 1]);
      assert PidSet(Sighted(front) + pids) == PidSet(Sighted(front)) + PidSet(pids);
    }
  }

  /** One poll reports the pids of its listing that the loop has not sighted before. */
  lemma PollReports(before: TracerState, snap: Snapshot, sighted: seq<int>)
    requires !before.crashed && snap.listed.Ok?
    requires before.seen == PidSet(sighted)
    requires ReportedPids(before.events) == NewPids(sighted, {})
    ensures ReportedPids(PollStep(before, snap).events) == NewPids(sighted + PollPids(snap), {})
  {
    var pids := PollPids(snap);
    var novel := NewPids(pids, before.seen);
    var ann := Announcements(snap.describe, novel);
    assert PollStep(before, snap).events == before.events + ann + [Pause(PollInterval)];
    ReportedPidsAppend(before.events, ann);
    ReportedPidsAppend(before.events + ann, [Pause(PollInterval)]);
    assert ReportedPids([Pause(PollInterval)]) == [];
    AnnouncementsReport(snap.describe, novel);
    NewPidsAppend(sighted, pids, {});
    assert {} + PidSet(sighted) == before.seen;
  }

  /** The "NEW KERNEL" lines name exactly the distinct pids sighted, in the order of their
      first appearance. */
  lemma {:induction false} RunReports(snaps: seq<Snapshot>)
    ensures ReportedPids(RunSpec(snaps).events) == NewPids(Sighted(snaps), {})
    decreases |snaps|
  {
    if snaps != [] {
      var front := snaps[..|snaps| - 1];
      var snap := snaps[|snaps| - 1];
      var before := RunSpec(front);
      RunReports(front);
      RunCrashes(front);
      if !before.crashed && snap.listed.Ok? {
        RunSeen(front);
        PollReports(before, snap, Sighted(front));
      } else if !before.crashed {
        assert PollPids(snap) == [];
        assert Sighted(snaps) == Sighted(front);
        assert RunSpec(snaps).events == before.events;
      }
    }
  }

  /** Each pid gets at most one "NEW KERNEL" line in a run, however many snaps list it. */
  lemma ReportsOnce(snaps: seq<Snapshot>)
    ensures var r := ReportedPids(TracerLog(snaps));
            forall a, b :: 0 <= a < b < |r| ==> r[a] != r[b]
  {
    LogReports(snaps);
    NewPidsDistinct(Sighted(snaps), {});
  }

  /** A pid gets a "NEW KERNEL" line exactly when some snap before a crash listed it. */
  lemma ReportsEverySighting(snaps: seq<Snapshot>, p: int)
    ensures p in ReportedPids(TracerLog(snaps)) <==> p in Sighted(snaps)
  {
    LogReports(snaps);
    NewPidsMembership(Sighted(snaps), {}, p);
  }

  /** The start and stop lines are not "NEW KERNEL" lines: the log reports what the loop does. */
  lemma LogReports(snaps: seq<Snapshot>)
    ensures ReportedPids(TracerLog(snaps)) == NewPids(Sighted(snaps), {})
  {
    var run := RunSpec(snaps);
    var tail: seq<TracerEvent> := if run.crashed then [] else [Wrote(TracerStopped)];
    RunReports(snaps);
    ReportedPidsAppend([Wrote(TracerStarted)], run.events);
    ReportedPidsAppend([Wrote(TracerStarted)] + run.events, tail);
  }

  /** A line of one poll's announcements describes a new pid of that poll. */
  lemma {:induction false} AnnouncementsDescribe(describe: int -> Parentage, novel: seq<int>, p: int, info: Parentage)
    requires Wrote(NewKernel(p, info)) in Announcements(describe, novel)
    ensures p in novel && info == describe(p)
    decreases |novel|
  {
    var front := novel[..|novel| - 1];
    var tail := Announce(describe, novel[|novel| - 1]);
    assert Announcements(describe, novel) == Announcements(describe, front) + tail;
    if Wrote(NewKernel(p, info)) in Announcements(describe, front) {
      AnnouncementsDescribe(describe, front, p, info);
    } else {
      assert Wrote(NewKernel(p, info)) == tail[0];
    }
  }

  /** Every "NEW KERNEL" line of the loop carries what was read about its pid in the first
      snap that listed it. */
  lemma {:induction false} RunDescribes(snaps: seq<Snapshot>, p: int, info: Parentage)
    requires Wrote(NewKernel(p, info)) in RunSpec(snaps).events
    ensures exists k :: 0 <= k < |snaps| && p in PollPids(snaps[k]) && p !in Sighted(snaps[..k]) &&
                        info == snaps[k].describe(p)
    decreases |snaps|
  {
    var k := |snaps| - 1;
    var front := snaps[..k];
    var before := RunSpec(front);
    if Wrote(NewKernel(p, info)) in before.events {
      RunDescribes(front, p, info);
      var j :| 0 <= j < |front| && p in PollPids(front[j]) && p !in Sighted(front[..j]) &&
               info == front[j].describe(p);
      assert front[..j] == snaps[..j];
    } else {
      var snap := snaps[k];
      var pids := PollPids(snap);
      var ann := Announcements(snap.describe, NewPids(pids, before.seen));
      assert RunSpec(snaps).events == before.events + ann + [Pause(PollInterval)];
      AnnouncementsDescribe(snap.describe, NewPids(pids, before.seen), p, info);
      NewPidsMembership(pids, before.seen, p);
      RunSeen(front);
    }
  }

  /** The "NEW KERNEL" line for a pid carries its parent pid and both command lines as
      read from the process table of the first poll that listed it. */
  lemma ReportsDescribe(polls: seq<Poll>, p: int, info: Parentage)
    requires Wrote(NewKernel(p, info)) in TracerLog(Observe(polls))
    ensures exists k :: 0 <= k < |polls| && p in PollPids(SnapshotOf(polls[k])) &&
                        p !in Sighted(Observe(polls)[..k]) && info == Describe(polls[k].table, p)
  {
    var snaps := Observe(polls);
    var run := RunSpec(snaps);
    assert TracerLog(snaps) == [Wrote(TracerStarted)] + run.events + (if run.crashed then [] else [Wrote(TracerStopped)]);
    RunDescribes(snaps, p, info);
    var k :| 0 <= k < |snaps| && p in PollPids(snaps[k]) && p !in Sighted(snaps[..k]) && info == snaps[k].describe(p);
    assert snaps[k] == SnapshotOf(polls[k]);
  }

  /** `seen` only grows: a later state of the loop holds every pid an earlier one held. */
  lemma {:induction false} SeenGrows(snaps: seq<Snapshot>, n: int)
    requires 0 <= n <= |snaps|
    ensures RunSpec(snaps[..n]).seen <= RunSpec(snaps).seen
    decreases |snaps| - n
  {
    if n < |snaps| {
      var front := snaps[..|snaps| - 1];
      assert front[..n] == snaps[..n];
      SeenGrows(front, n);
    } else {
      assert snaps[..n] == snaps;
    }
  }

  /** Later snaps only add lines: the log of a shorter run is a prefix of the longer one's,
      up to where it stopped. */
  lemma {:induction false} RunExtends(snaps: seq<Snapshot>, n: int)
    requires 0 <= n <= |snaps|
    ensures RunSpec(snaps[..n]).events <= RunSpec(snaps).events
    decreases |snaps| - n
  {
    if n < |snaps| {
      var front := snaps[..|snaps| - 1];
      assert front[..n] == snaps[..n];
      RunExtends(front, n);
    } else {
      assert snaps[..n] == snaps;
    }
  }
}
