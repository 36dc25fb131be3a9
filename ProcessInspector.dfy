/** The process table as the watcher and the tracer read it. Everything the
    operating system answers (`/proc/<pid>/cmdline`, `os.stat("/proc/<pid>")`,
    `ps -p <pid> -o ...`, `os.kill`) is an input here: a snapshot `Table` from
    pid to what the system would answer for that pid. A pid that is not in the
    table is one the system does not know. */
module ProcessInspector {
  import opened Basics
  import opened Text

  /** What `subprocess.check_output` does with a command: it runs to an exit code with
      some standard output, or it cannot be started at all (an `OSError`). */
  datatype CommandRun = Completed(exitCode: int, stdout: string) | LaunchFailed

  /** What one `os.kill(pid, sig)` call does: it returns, or raises
      `ProcessLookupError`, `PermissionError` or another `OSError`. */
  datatype KillResult = Accepted | NoSuchProcess | NotPermitted | OtherOsError

  /** The system's answers to the `os.kill` calls of one shutdown, in the order they
      are made: SIGINT, the first existence probe, SIGTERM, the second probe, SIGKILL. */
  datatype SignalReplies = SignalReplies(
    toInt: KillResult,
    firstProbe: KillResult,
    toTerm: KillResult,
    secondProbe: KillResult,
    toKill: KillResult)

  /** One process as the system describes it. */
  datatype ProcInfo = ProcInfo(
    rawCmdline: Option<string>,    // contents of /proc/<pid>/cmdline; None when it cannot be read
    ownerUid: Option<int>,         // st_uid of /proc/<pid>; None when os.stat fails
    etimesOutput: Option<string>,  // output of `ps -p <pid> -o etimes=`; None when ps fails
    ppidOutput: Option<string>,    // output of `ps -p <pid> -o ppid=`; None when ps fails
    replies: SignalReplies)

  type Table = map<int, ProcInfo>

  /** Every `os.kill` on a pid the system does not know raises `ProcessLookupError`. */
  const Unknown := SignalReplies(NoSuchProcess, NoSuchProcess, NoSuchProcess, NoSuchProcess, NoSuchProcess)

  function RepliesFor(t: Table, pid: int): (r: SignalReplies)
    ensures pid !in t ==> r == Unknown
  {
    if pid in t then t[pid].replies else Unknown
  }

  /** `os.stat(f"/proc/{pid}").st_uid`, or None when the stat raises. */
  function StatUid(t: Table, pid: int): (u: Option<int>)
    ensures pid !in t ==> u == None
  {
    if pid in t then t[pid].ownerUid else None
  }

  /** The NUL bytes between arguments become spaces. */
  function NulToSpace(s: string): (r: string)
    ensures |r| == |s|
  {
    if s == [] then [] else [if s[0] == '\0' then ' ' else s[0]] + NulToSpace(s[1..])
  }

  /** `cmdline_for_pid` / `cmdline`: the argument vector as one stripped line, "" when unreadable. */
  function CmdlineForPid(t: Table, pid: int): (cl: string)
    ensures (pid !in t || t[pid].rawCmdline.None?) ==> cl == ""
    ensures cl == [] || (!IsSpace(cl[0]) && !IsSpace(cl[|cl| - 1]))
  {
    if pid in t && t[pid].rawCmdline.Some? then Strip(NulToSpace(t[pid].rawCmdline.value)) else ""
  }

  /** `int(out.strip())` of a `ps` output, and 0 when `ps` fails or the text is not a number. */
  function PsNumber(out: Option<string>): (n: int)
    ensures out.None? ==> n == 0
    ensures out.Some? && ParseInt(Strip(out.value)).None? ==> n == 0
  {
    if out.Some? then
      match ParseInt(Strip(out.value))
      case Some(v) => v
      case None => 0
    else 0
  }

  /** `etimes_for_pid`: seconds since the process started, 0 when unavailable. */
  function EtimesForPid(t: Table, pid: int): (secs: int)
    ensures pid !in t || t[pid].etimesOutput.None? ==> secs == 0
  {
    PsNumber(if pid in t then t[pid].etimesOutput else None)
  }

  /** `ppid_for`: the parent's pid, 0 when unavailable. */
  function PpidFor(t: Table, pid: int): (ppid: int)
    ensures pid !in t || t[pid].ppidOutput.None? ==> ppid == 0
  {
    PsNumber(if pid in t then t[pid].ppidOutput else None)
  }

  /** `ps` right-aligns a number in a blank-padded column and ends the line: reading it
      back gives the number. */
  lemma PsNumberOfColumn(pad: string, n: nat)
    requires forall c <- pad :: IsSpace(c)
    ensures PsNumber(Some(pad + Decimal(n) + "\n")) == n
  {
    var d := Decimal(n);
    StripPadded(pad, d, "\n");
    DecimalRoundTrip(n);
  }

  /** How the kernel lays out /proc/<pid>/cmdline: each argument followed by a NUL. */
  function NulTerminated(argv: seq<string>): string {
    if argv == [] then "" else argv[0] + "\0" + NulTerminated(argv[1..])
  }

  lemma {:induction false} NulToSpaceOfTerminated(argv: seq<string>)
    requires argv != []
    requires forall k :: 0 <= k < |argv| ==> '\0' !in argv[k]
    ensures NulToSpace(NulTerminated(argv)) == JoinWords(argv) + " "
  {
    var a := argv[0];
    var rest := NulTerminated(argv[1..]);
    assert NulTerminated(argv) == (a + "\0") + rest;
    NulToSpaceConcat(a + "\0", rest);
    NulToSpaceConcat(a, "\0");
    NulToSpaceKeeps(a);
    assert NulToSpace(a + "\0") == a + " ";
    if |argv| == 1 {
      assert rest == "";
    } else {
      NulToSpaceOfTerminated(argv[1..]);
      assert JoinWords(argv) + " " == (a + " ") + (JoinWords(argv[1..]) + " ");
    }
  }

  lemma {:induction false} NulToSpaceKeeps(s: string)
    requires '\0' !in s
    ensures NulToSpace(s) == s
  {
    if s != [] {
      assert s[0] in s;
      assert s == [s[0]] + s[1..];
      NulToSpaceKeeps(s[1..]);
    }
  }

  lemma {:induction false} NulToSpaceConcat(x: string, y: string)
    ensures NulToSpace(x + y) == NulToSpace(x) + NulToSpace(y)
  {
    if x != [] {
      assert (x + y)[1..] == x[1..] + y;
      NulToSpaceConcat(x[1..], y);
    } else {
      assert x + y == y;
    }
  }

  /** For a process started with arguments that hold no whitespace, splitting the
      command line the watcher reads gives back the argument vector. */
  lemma CmdlineWordsOfArgv(t: Table, pid: int, argv: seq<string>)
    requires pid in t && t[pid].rawCmdline == Some(NulTerminated(argv))
    requires forall k :: 0 <= k < |argv| ==> IsWord(argv[k]) && '\0' !in argv[k]
    ensures Words(CmdlineForPid(t, pid)) == argv
  {
    if argv != [] {
      assert CmdlineForPid(t, pid) == Strip(NulToSpace(NulTerminated(argv)));
      NulToSpaceOfTerminated(argv);
      StripJoinedWords(argv);
      WordsOfJoin(argv);
    }
  }

  lemma StripJoinedWords(ws: seq<string>)
    requires ws != [] && forall k :: 0 <= k < |ws| ==> IsWord(ws[k])
    ensures Strip(JoinWords(ws) + " ") == JoinWords(ws)
  {
    var joined := JoinWords(ws);
    JoinWordsEnds(ws);
    StripPadded("", joined, " ");
    assert "" + joined + " " == joined + " ";
  }
}
