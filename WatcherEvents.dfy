/** What the watcher does to the world, in order: the files it removes, the
    signals and existence probes it sends, its sleeps, its log lines and its
    desktop notifications. A run of the watcher is modelled as such a trace. */
module WatcherEvents {

  datatype Signal = SIGINT | SIGTERM | SIGKILL

  /** The log lines of the watcher, one constructor per message it writes. */
  datatype LogLine =
    | Started(runtime: string, interval: int, maxAge: int)  // Starting kernel_watcher (...)
    | StoppedByUser                            // kernel_watcher stopped by user
    | DeletedStale(path: string)               // Deleted stale file: <path>
    | DeleteFailed(path: string)               // Failed to delete <path>: <error>
    | LongRunning(pid: int, elapsed: int, maxAge: int)  // PID <pid> running for <elapsed>s ... attempting gentle shutdown
    | SignalSent(pid: int, sig: Signal)        // SIGINT / SIGTERM / SIGKILL sent to <pid>
    | AlreadyExited(pid: int)                  // Process <pid> does not exist (already exited)
    | SigintDenied(pid: int)                   // Permission denied sending SIGINT to <pid>
    | ExitedAfter(pid: int, sig: Signal)       // Process <pid> exited after SIGINT / SIGTERM
    | SignalFailed(pid: int, sig: Signal)      // Failed to send SIGTERM / Failed to SIGKILL <pid>
    | NotKilling(pid: int)                     // Process <pid> still alive after SIGTERM; not killing

  /** The desktop notifications of the watcher; each has its own title and text. */
  datatype Notice =
    | FileDeleted(name: string)                  // deleted file: <basename of the path>
    | ShuttingDown(pid: int)                     // shutting down: SIGINT sent to <pid>
    | LongRunningKernel(pid: int, elapsed: int)  // long-running kernel: PID <pid> running for <elapsed>s

  datatype Event =
    | Remove(path: string)          // os.remove(path)
    | Kill(pid: int, sig: Signal)   // os.kill(pid, sig)
    | Probe(pid: int)               // os.kill(pid, 0)
    | Sleep(seconds: int)           // time.sleep(seconds)
    | Log(line: LogLine)            // log(...)
    | Notify(about: Notice)         // notify(...), fire-and-forget

  /** The events of a run, and whether it ended by an exception nothing catches. */
  datatype Trace = Trace(events: seq<Event>, crashed: bool)

  /** The signals sent to `pid`, in the order they are sent. */
  function SignalsTo(events: seq<Event>, pid: int): (sigs: seq<Signal>)
    ensures |sigs| <= |events|
  {
    if events == [] then []
    else (if events[0].Kill? && events[0].pid == pid then [events[0].sig] else []) + SignalsTo(events[1..], pid)
  }

  lemma {:induction false} SignalsToAppend(a: seq<Event>, b: seq<Event>, pid: int)
    ensures SignalsTo(a + b, pid) == SignalsTo(a, pid) + SignalsTo(b, pid)
  {
    if a == [] {
      assert a + b == b;
    } else {
      var head: seq<Signal> := if a[0].Kill? && a[0].pid == pid then [a[0].sig] else [];
      calc {
        SignalsTo(a + b, pid);
        { assert (a + b)[0] == a[0]; assert (a + b)[1..] == a[1..] + b; }
        head + SignalsTo(a[1..] + b, pid);
        { SignalsToAppend(a[1..], b, pid); }
        head + (SignalsTo(a[1..], pid) + SignalsTo(b, pid));
        SignalsTo(a, pid) + SignalsTo(b, pid);
      }
    }
  }

  lemma {:induction false} NoSignalsTo(events: seq<Event>, pid: int)
    requires forall k :: 0 <= k < |events| ==> !(events[k].Kill? && events[k].pid == pid)
    ensures SignalsTo(events, pid) == []
  {
    if events != [] {
      NoSignalsTo(events[1..], pid);
    }
  }

  /** A signal is in the list exactly when a `Kill` event for it is in the run. */
  lemma {:induction false} SignalsToMembership(events: seq<Event>, pid: int, sig: Signal)
    ensures sig in SignalsTo(events, pid) <==> Kill(pid, sig) in events
  {
    if events != [] {
      SignalsToMembership(events[1..], pid, sig);
      assert events == [events[0]] + events[1..];
    }
  }

  /** The waits of the run, in seconds, in order. */
  function Sleeps(events: seq<Event>): (waits: seq<int>)
    ensures |waits| <= |events|
  {
    if events == [] then []
    else (if events[0].Sleep? then [events[0].seconds] else []) + Sleeps(events[1..])
  }

  lemma {:induction false} SleepsAppend(a: seq<Event>, b: seq<Event>)
    ensures Sleeps(a + b) == Sleeps(a) + Sleeps(b)
  {
    if a == [] {
      assert a + b == b;
    } else {
      var head: seq<int> := if a[0].Sleep? then [a[0].seconds] else [];
      calc {
        Sleeps(a + b);
        { assert (a + b)[0] == a[0]; assert (a + b)[1..] == a[1..] + b; }
        head + Sleeps(a[1..] + b);
        { SleepsAppend(a[1..], b); }
        head + (Sleeps(a[1..]) + Sleeps(b));
        Sleeps(a) + Sleeps(b);
      }
    }
  }

  lemma {:induction false} NoSleeps(events: seq<Event>)
    requires forall k :: 0 <= k < |events| ==> !events[k].Sleep?
    ensures Sleeps(events) == []
  {
    if events != [] {
      NoSleeps(events[1..]);
    }
  }
}
