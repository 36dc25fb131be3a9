# Jupyter kernel watcher and spawn tracer, modelled in Dafny

This project models the decision logic of two small system scripts:

- `scripts/kernel_watcher.py`, a watchdog for Jupyter kernels. Each cycle it
  lists the connection files `kernel-*.json` of the runtime directory. It
  lists the `ipykernel_launcher` processes with `pgrep`. It resolves which
  connection files those processes still name on their command lines. It
  removes the files nobody names. Then it shuts down this user's kernels that
  are unreferenced and have run too long. The shutdown escalates
  SIGINT → SIGTERM → SIGKILL, with a wait and an existence check between steps.
- `scripts/kernel_spawn_tracer.py`, a poller. It reports every new kernel
  process once, with its parent pid and both command lines, and keeps a `seen`
  set to do so.

Everything the operating system answers is an input:

- `/proc/<pid>/cmdline`, `os.stat`, `ps -p <pid> -o etimes=|ppid=` and the
  replies to `os.kill` form a process table, `ProcessInspector.Table`.
- `os.listdir` gives a `Scanner.Listing`.
- A `pgrep` run is a `ProcessInspector.CommandRun`.
- The paths `os.remove` fails on are a set.

What the watcher does to the world is a trace of `WatcherEvents.Event`s: removals,
signals, existence probes, sleeps, log lines and notifications. The trace also
carries a flag for an exception that nothing catches. Each operation is a
specification function, and the loops of the source are methods proved equal
to those functions.

Ctrl-C is modelled as the end of the input sequence: one `World` per watcher
cycle, one `Poll` per tracer poll. It arrives during the final sleep, and the
stop line follows.

Modules:

- `Text`: the `str` operations the code uses, with ASCII whitespace and digits.
- `Sorting`: `sorted` on strings.
- `ProcessInspector`: the per-pid readers.
- `Scanner`, `Finder`, `Resolver`, `Reaper` and `Escalation`: the five pieces
  of the watcher.
- `Runs`: the shape of a loop that stops at the first exception.
- `WatchCycle` and `Watcher`: `main` of the watcher.
- `SpawnTracer`: the tracer.

## Model

| member | source | states |
|---|---|---|
| Text.Strip | scripts/kernel_watcher.py:79 | the result of `strip()` neither starts nor ends with whitespace |
| Text.StripKeeps | scripts/kernel_watcher.py:66 | text without whitespace is unchanged by `strip()` |
| Text.StripEmpty | scripts/kernel_watcher.py:79 | `strip()` gives "" exactly when the text is all whitespace |
| Text.StripPadded | scripts/kernel_watcher.py:88 | stripping a word padded with whitespace on both sides gives back the word |
| Text.WordsAreWords | scripts/kernel_watcher.py:167 | every token of `split()` is non-empty and free of whitespace |
| Text.WordsOfJoin | scripts/kernel_watcher.py:167 | `split()` undoes `" ".join` of whitespace-free words |
| Text.LinesOfTerminated | scripts/kernel_watcher.py:65 | `splitlines()` of lines each ended by "\n" gives back those lines |
| Text.DecimalRoundTrip | scripts/kernel_watcher.py:88 | reading back the decimal rendering of a natural number gives the number |
| Text.ParseInt | scripts/kernel_watcher.py:88 | `int()` succeeds exactly on a run of digits with at most one leading `+` or `-`, giving its signed decimal value; any other text, the empty string included, fails |
| Text.BasenameOfJoin | scripts/kernel_watcher.py:55 | the basename of `os.path.join(dir, name)` is `name` when `name` has no '/' |
| Text.BasenameKeepsSuffix | scripts/kernel_watcher.py:170 | `os.path.basename` keeps a suffix of the path that has no '/', such as ".json" |
| Sorting.Sort | scripts/kernel_watcher.py:55 | `sorted` returns an ascending permutation of its argument |
| Sorting.SortedUnique | scripts/kernel_watcher.py:55 | two ascending permutations of one list are equal, so the listing order is fixed |
| Sorting.LexLeTotal | scripts/kernel_watcher.py:55 | any two strings are comparable in Python's string order |
| Scanner.ListKernelJsons | scripts/kernel_watcher.py:53-57 | a missing directory gives []; another listing error raises; otherwise the result is sorted and a permutation of the kept paths |
| Scanner.KernelJsonPathsMembership | scripts/kernel_watcher.py:55 | a path is kept iff it is the directory joined with an entry that starts with `kernel-` and ends with `.json` |
| Scanner.ListedPath | scripts/kernel_watcher.py:55 | each listed path is a kept entry joined to the directory, and its basename is that entry |
| Scanner.EveryKernelJsonListed | scripts/kernel_watcher.py:55 | every connection-file entry of the directory is listed |
| Finder.PgrepPids | scripts/kernel_watcher.py:60-72 | a `pgrep` that cannot start raises; a non-zero exit gives []; all pids are non-negative |
| Finder.GetIpykernelPids | scripts/kernel_watcher.py:60-72 | the append loop computes `PgrepPids` |
| Finder.DigitLineValuesAppend | scripts/kernel_watcher.py:65-68 | the lines are read independently, in output order |
| Finder.NonDigitLineIgnored | scripts/kernel_watcher.py:67 | a line that is not all digits once stripped contributes nothing |
| Finder.PaddedDigitLine | scripts/kernel_watcher.py:66-68 | a line that is all digits once stripped adds its value in its place, whatever whitespace pads it |
| Finder.PgrepRoundTrip | scripts/kernel_watcher.py:64-68 | reading `pgrep`'s output of pids, one per line, gives back exactly those pids in order |
| ProcessInspector.CmdlineForPid | scripts/kernel_watcher.py:75-81 | an unreadable or unknown process gives ""; the line is stripped |
| ProcessInspector.CmdlineWordsOfArgv | scripts/kernel_watcher.py:78-79 | splitting the command line read from a NUL-separated argv of whitespace-free arguments gives back the argv |
| ProcessInspector.NulToSpaceOfTerminated | scripts/kernel_watcher.py:78 | replacing NULs by spaces turns the argv layout into the arguments joined by spaces plus a trailing space |
| ProcessInspector.PsNumber | scripts/kernel_watcher.py:87-90 | a failed `ps` or output that is not a number gives 0 |
| ProcessInspector.PsNumberOfColumn | scripts/kernel_watcher.py:87-88 | `ps`'s right-aligned number column reads back as the number |
| ProcessInspector.EtimesForPid | scripts/kernel_watcher.py:84-90 | an unknown pid or a failed `ps` gives 0 seconds |
| ProcessInspector.PpidFor | scripts/kernel_spawn_tracer.py:44-49 | an unknown pid or a failed `ps` gives parent pid 0 |
| ProcessInspector.StatUid | scripts/kernel_watcher.py:209-214 | the owner of an unknown pid cannot be read |
| ProcessInspector.RepliesFor | scripts/kernel_watcher.py:113-114 | every `os.kill` on an unknown pid raises `ProcessLookupError` |
| Resolver.KernelTokenBasename | scripts/kernel_watcher.py:169-170 | the recorded basename of a kernel token ends with ".json" and is not empty |
| Resolver.TokenRefs | scripts/kernel_watcher.py:168-170 | every recorded name ends with ".json" and holds no '/' |
| Resolver.TokenRefsMembership | scripts/kernel_watcher.py:168-170 | a name is recorded iff some token contains `kernel-`, ends with `.json` and has that basename; every match is added |
| Resolver.CmdlineRefs | scripts/kernel_watcher.py:165-170 | a command line that does not contain the runtime directory contributes nothing |
| Resolver.ReferencedMembership | scripts/kernel_watcher.py:160-171 | a name is referenced iff the command line of some listed pid references it |
| Resolver.ReferencedOrderFree | scripts/kernel_watcher.py:160-171 | the order of the pids and repeated pids do not change the referenced set |
| Resolver.AddTokenRefs | scripts/kernel_watcher.py:168-170 | the inner loop adds exactly the basenames of the line's kernel tokens |
| Resolver.ReferencedJsonsFromProcs | scripts/kernel_watcher.py:160-171 | the nested loop computes `Referenced` |
| Resolver.FirstKernelToken | scripts/kernel_watcher.py:221-224 | the result is the first kernel token, and there is none exactly when no token is one |
| Resolver.ActiveKernel | scripts/kernel_watcher.py:216-224 | a found basename is non-empty and among the line's own references; none iff the line lacks the runtime directory or has no kernel token |
| Resolver.FindKernelBasename | scripts/kernel_watcher.py:217-224 | the loop with its `break` computes `ActiveKernel` |
| Reaper.DeleteFile | scripts/kernel_watcher.py:93-102 | the path is removed first; success is logged with the path and notified with its basename, a failure only logged; nothing is signalled |
| Reaper.ReapOne | scripts/kernel_watcher.py:201-204 | one listed file is removed iff its basename is unreferenced, and no other file is |
| Reaper.ReapStale | scripts/kernel_watcher.py:201-204 | the deletion loop computes `ReapSpec` |
| Reaper.ReapRemoves | scripts/kernel_watcher.py:201-204 | a path is removed iff it is listed and its basename is unreferenced |
| Reaper.ReapReportsFailures | scripts/kernel_watcher.py:101-102 | a failure is logged for exactly the files to be removed that cannot be, and the loop goes on |
| Reaper.ReapRemovesOnce | scripts/kernel_watcher.py:201-204 | a listing without repeats removes each file at most once |
| Reaper.ReapOnlyFiles | scripts/kernel_watcher.py:201-204 | the reaper only removes, logs and notifies |
| Escalation.ShutdownSpec | scripts/kernel_watcher.py:105-157 | every shutdown starts with SIGINT to the pid |
| Escalation.GentleShutdown | scripts/kernel_watcher.py:105-157 | the step-by-step code with its early returns computes `ShutdownSpec` |
| Escalation.ShutdownEarlyExits | scripts/kernel_watcher.py:106-121 | a SIGINT that raises `ProcessLookupError` or `PermissionError` gives one log line and nothing more; any other error raises; after an accepted SIGINT a negative `wait` raises at the first `time.sleep`, before any probe |
| Escalation.ShutdownCrashes | scripts/kernel_watcher.py:106-127 | the call raises iff SIGINT fails with an unexpected error, or SIGINT was sent and then the wait is negative or an existence probe raises anything but `ProcessLookupError` |
| Escalation.ShutdownTouchesOnlyPid | scripts/kernel_watcher.py:105-157 | only the given pid is signalled or probed, every pause lasts `wait` seconds, and no file is removed |
| Escalation.ShutdownSignalOrder | scripts/kernel_watcher.py:120-157 | the pid receives SIGINT, then SIGTERM only if it survived the first wait, then SIGKILL only if it survived the second and `force` is set; nobody else receives anything |
| Escalation.ShutdownOutcomes | scripts/kernel_watcher.py:129-157 | "exited after SIGINT", "exited after SIGTERM" and "not killing" are logged exactly in their cases |
| Escalation.ShutdownSignalLogs | scripts/kernel_watcher.py:133-157 | SIGTERM is logged as sent or as failed exactly when the process survived the first wait, according to the system's reply; the same holds for SIGKILL when it survived the second wait and `force` is set; a failure does not stop the call |
| Escalation.ShutdownWaits | scripts/kernel_watcher.py:120-140 | no wait after an early exit; a second wait whenever the process survived the first, even if SIGTERM failed |
| WatchCycle.Announce | scripts/kernel_watcher.py:233-235 | a shutdown is announced first by the long-running log line for that pid with its elapsed time and the age limit, then by a notification for the same pid and elapsed time |
| WatchCycle.ShouldShutDown | scripts/kernel_watcher.py:209-232 | a pid passes the guard only if its `/proc` entry can be stat-ed and is owned by the watcher's user |
| WatchCycle.PidStepSleeps | scripts/kernel_watcher.py:231-238 | the only pauses of a check are `gentle_shutdown`'s waits of 4 seconds |
| WatchCycle.EscalateSleeps | scripts/kernel_watcher.py:207-238 | the only pauses of the pid loop are the shutdowns' waits of 4 seconds |
| WatchCycle.PidStep | scripts/kernel_watcher.py:207-238 | a pid that fails the guard produces no events |
| WatchCycle.CheckPid | scripts/kernel_watcher.py:207-238 | the loop body with its two `continue`s computes `PidStep` |
| WatchCycle.EscalateLongRunning | scripts/kernel_watcher.py:207-238 | the pid loop computes `EscalateSpec` and stops at a shutdown that raises |
| WatchCycle.CycleSpec | scripts/kernel_watcher.py:192-240 | a failed listing or a `pgrep` that cannot start ends the watcher with no events; with a negative interval the cycle always raises |
| WatchCycle.RunCycle | scripts/kernel_watcher.py:192-240 | the body of `while True` computes `CycleSpec` |
| WatchCycle.PidStepSignals | scripts/kernel_watcher.py:209-238 | a check signals only its own pid, and only if the pid passes the guard |
| WatchCycle.PidStepRemovesNothing | scripts/kernel_watcher.py:207-238 | checking a pid never removes a file |
| WatchCycle.PidStepShutdownSignals | scripts/kernel_watcher.py:231-238 | the signals of a check are those of `gentle_shutdown` with wait 4 and the configured `force` |
| WatchCycle.PidStepInterrupts | scripts/kernel_watcher.py:233-238 | a pid that passes the guard is announced, then sent SIGINT |
| WatchCycle.PidStepSignalOrder | scripts/kernel_watcher.py:231-238 | a check sends its pid an escalation prefix and nobody else anything |
| WatchCycle.EscalateRemovesNothing | scripts/kernel_watcher.py:207-238 | the pid loop never removes a file |
| WatchCycle.EscalateSignalsOnlyCandidates | scripts/kernel_watcher.py:207-238 | a signal goes only to a listed pid that passes the guard |
| WatchCycle.EscalateReachesCandidates | scripts/kernel_watcher.py:207-238 | unless the loop raised, every listed pid that passes the guard receives SIGINT |
| WatchCycle.EscalateSignalOrder | scripts/kernel_watcher.py:207-238 | with distinct pids, each process gets at most one escalation, in the order INT, TERM, KILL |
| WatchCycle.CycleRemoves | scripts/kernel_watcher.py:192-204 | a file of the directory is removed in a cycle iff it is a connection file whose name no kernel of the cycle references |
| WatchCycle.CycleRemovesOnlyUnreferenced | scripts/kernel_watcher.py:192-204 | a removed path was listed and its basename was unreferenced |
| WatchCycle.CycleKeepsReferenced | scripts/kernel_watcher.py:201-204 | a path whose basename is referenced is never removed |
| WatchCycle.CycleSignalsOnlyCandidates | scripts/kernel_watcher.py:207-238 | in a cycle, a signal goes only to a pid `pgrep` listed that passes the guard |
| WatchCycle.CycleShutsDownCandidates | scripts/kernel_watcher.py:207-238 | a cycle that does not raise sends SIGINT to every listed pid that passes the guard |
| WatchCycle.CycleSignalsAreEscalation | scripts/kernel_watcher.py:192-238 | the signals of a cycle are those of its pid loop |
| WatchCycle.CycleNoSignalsTo | scripts/kernel_watcher.py:207-238 | a pid that is not listed, or fails the guard, gets no signal |
| WatchCycle.ActiveKernelReferenced | scripts/kernel_watcher.py:163-170 | the file a listed kernel names on its command line is among the cycle's references |
| WatchCycle.CycleSparesActiveKernel | scripts/kernel_watcher.py:216-229 | a kernel naming its connection file, with an unchanged command line between the two reads, is not signalled and its file is not removed |
| WatchCycle.CycleSignalOrder | scripts/kernel_watcher.py:207-238 | with `pgrep` listing each pid once, each process gets at most one escalation per cycle, in order |
| WatchCycle.CycleEndsWithPause | scripts/kernel_watcher.py:240 | a cycle that does not raise has a non-negative interval and ends with the `interval` sleep |
| WatchCycle.CycleNegativeInterval | scripts/kernel_watcher.py:240 | with a negative interval every cycle raises and takes no pause |
| Runs.RunAllCrashed | scripts/kernel_watcher.py:189-242 | a loop of steps raises iff one of its steps raises |
| Runs.RunAllCrashedPrefix | scripts/kernel_watcher.py:189-242 | nothing after the first raising step happens |
| Runs.RunAllEvents | scripts/kernel_watcher.py:189-240 | everything a loop does, one of its steps did |
| Runs.RunAllReaches | scripts/kernel_watcher.py:189-240 | everything each step does, a loop that did not raise does |
| Runs.RunAllSignalsTo | scripts/kernel_watcher.py:207-238 | a pid with one step receives the signals of that step or none |
| WatcherEvents.SignalsToMembership | scripts/kernel_watcher.py:105-157 | a signal is in the per-pid list iff the run sends it to that pid |
| Watcher.WatchSpec | scripts/kernel_watcher.py:187-242 | a run starts with the start line and, unless it raised, ends with "stopped by user" |
| Watcher.Watch | scripts/kernel_watcher.py:187-242 | `main`'s loop computes `WatchSpec` |
| Watcher.WatchCrashes | scripts/kernel_watcher.py:189-242 | the watcher ends by an exception iff some cycle raises one |
| Watcher.WatchCrashIsFinal | scripts/kernel_watcher.py:189-242 | later answers of the system do not matter after an exception |
| Watcher.WatchNegativeInterval | scripts/kernel_watcher.py:177-242 | an `--interval` below zero, which `argparse` accepts, ends the watcher by an exception in its first cycle, without the stop line |
| Watcher.WatchSignalsOnlyCandidates | scripts/kernel_watcher.py:207-238 | over a run, a signal goes only to a pid listed in some cycle that passed that cycle's guard |
| Watcher.WatchRemovesOnlyUnreferenced | scripts/kernel_watcher.py:192-204 | over a run, a file is removed only in a cycle that listed it and whose kernels did not reference it |
| Watcher.WatchSparesActiveKernel | scripts/kernel_watcher.py:216-229 | a kernel listed in every cycle, naming the same connection file, is never signalled and its file is never removed |
| Watcher.WatchShutsDownCandidates | scripts/kernel_watcher.py:207-242 | a run stopped by the user has sent SIGINT to every pid that passed the guard in any cycle |
| SpawnTracer.DescribeVanished | scripts/kernel_spawn_tracer.py:36-49 | a process that is gone is reported with parent 0 and empty command lines |
| SpawnTracer.DescribeVanishedParent | scripts/kernel_spawn_tracer.py:81 | a parent that is gone gives an empty parent command line |
| SpawnTracer.SnapshotOf | scripts/kernel_spawn_tracer.py:61-66 | `list_ipykernel_pids` raises exactly when `pgrep` cannot start |
| SpawnTracer.NewPidsMembership | scripts/kernel_spawn_tracer.py:75-78 | a pid is new iff it is listed and was not seen |
| SpawnTracer.NewPidsDistinct | scripts/kernel_spawn_tracer.py:75-78 | no pid is new twice |
| SpawnTracer.NewPidsAppend | scripts/kernel_spawn_tracer.py:73-78 | two batches in turn are one batch: the second's new pids are those the first did not see |
| SpawnTracer.NewPidsOfFresh | scripts/kernel_spawn_tracer.py:75-78 | unseen, non-repeating pids are all new, in their own order |
| SpawnTracer.NewPidsOrder | scripts/kernel_spawn_tracer.py:73-78 | new pids come in the order of their first appearance |
| SpawnTracer.AnnouncementsReport | scripts/kernel_spawn_tracer.py:82-86 | a poll writes a "NEW KERNEL" line for exactly its new pids, in order |
| SpawnTracer.RunDescribes | scripts/kernel_spawn_tracer.py:74-83 | every "NEW KERNEL" line of the loop carries what was read about its pid in the first poll that listed it |
| SpawnTracer.ReportsDescribe | scripts/kernel_spawn_tracer.py:69-90 | the "NEW KERNEL" line for a pid carries `ppid_for`, `cmdline` and the parent's `cmdline` ("" for parent 0), read from the process table of the first poll that listed the pid |
| SpawnTracer.ReportNew | scripts/kernel_spawn_tracer.py:75-87 | the loop over one poll's pids writes and notifies for exactly the new pids and adds every listed pid to `seen` |
| SpawnTracer.PollStep | scripts/kernel_spawn_tracer.py:74 | a poll raises exactly when `pgrep` cannot start |
| SpawnTracer.TraceSpawns | scripts/kernel_spawn_tracer.py:69-90 | `main` computes `TracerLog` and raises exactly as `RunSpec` does |
| SpawnTracer.TracerLog | scripts/kernel_spawn_tracer.py:71-90 | the log starts with the start line and, unless the loop raised, ends with the stop line |
| SpawnTracer.RunCrashes | scripts/kernel_spawn_tracer.py:72-90 | the tracer raises iff some poll's `pgrep` cannot start |
| SpawnTracer.RunSeen | scripts/kernel_spawn_tracer.py:70-78 | `seen` is exactly the set of pids listed so far |
| SpawnTracer.RunReports | scripts/kernel_spawn_tracer.py:73-83 | the reported pids are the distinct listed pids, in order of first appearance |
| SpawnTracer.ReportsOnce | scripts/kernel_spawn_tracer.py:75-83 | each pid gets at most one "NEW KERNEL" line per run |
| SpawnTracer.ReportsEverySighting | scripts/kernel_spawn_tracer.py:73-83 | a pid is reported iff some poll before an exception listed it |
| SpawnTracer.LogReports | scripts/kernel_spawn_tracer.py:71-90 | the start and stop lines add no reports |
| SpawnTracer.SeenGrows | scripts/kernel_spawn_tracer.py:70-78 | `seen` only grows from poll to poll |
| SpawnTracer.RunExtends | scripts/kernel_spawn_tracer.py:73-88 | later polls only add events: a shorter run's log is a prefix of a longer one's |

## Left out

- Real OS access: `/proc` reads, `pgrep` and `ps`, `os.stat`, `os.kill`, `os.remove` and `os.listdir`. Their answers are inputs.
- Time: `time.sleep` is a `Sleep` event, and the `now()` timestamps are not modelled.
- Log formatting and the log file. `log` and the tracer's `write` are events carrying the message's data. A failing log-file append is swallowed by the source, so it changes nothing.
- Notifications: `notify` is an event. Whether `notify-send` exists, and how `Popen` fails, is not modelled; the source swallows both.
- `argparse`. The options are a `Config`, and the `pgrep` match text is not modelled.
- KeyboardInterrupt can arrive at any instant in the source. The model delivers it only at the end of the inputs, during the last sleep.
- Text: byte decoding with `errors='replace'` is not modelled; command lines are already-decoded strings. `isdigit`, `split` and `strip` use ASCII classes only, so they differ from Python on non-ASCII whitespace such as \x85, U+2028 and U+2029. `splitlines` breaks at Python's full set of line boundaries, those three included. `int()` accepts no underscores.
- The race between the existence probe and the next signal, and pid reuse. They depend on OS concurrency.
- An exception nothing catches is modelled as the trace's `crashed` flag; its traceback is not modelled.
- SpawnTracer.TraceSpawns: the tracer's `write` cannot fail in the model; the source swallows file errors, and a failing write to standard output is not modelled.
- The documented behaviour differs from the code in the following places, and the model follows the code:
  - the resolver adds every kernel token of a command line, not only the first;
  - a token matches when it contains `kernel-`, not when it starts with it;
  - the runtime-directory test is a substring test on the whole command line;
  - errors other than an interrupt can end the watcher. The design says only an external interrupt ends the loop, that `exists(pid)` answers true or false, and that filesystem failures are logged. But `main` catches only `KeyboardInterrupt` (scripts/kernel_watcher.py:241), so the watcher stops with an exception when an existence probe `os.kill(pid, 0)` fails with anything but `ProcessLookupError` (:123-127, :142-146), when the listing fails with anything but `FileNotFoundError` (:53-57), when `pgrep` cannot start (:62-69), or when a sleep gets a negative argument (:121, :140, :240). `Escalation.ShutdownCrashes`, `WatchCycle.CycleSpec` and `Watcher.WatchCrashes` state these cases.
- The per-pid skip needs a non-empty basename; a token ending in `.json` always has one, so `Resolver.KernelTokenBasename` shows the test never fails for a found token.
- `check_env.py`, `config.py` and `journal.py` are not part of this model.
