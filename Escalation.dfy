/** The escalation controller, `gentle_shutdown`: SIGINT, a wait, an existence
    check, SIGTERM, a second wait and check, then SIGKILL when forced. The
    system's answer to each `os.kill` comes from the pid's `SignalReplies`. */
module Escalation {
  import opened ProcessInspector
  import opened WatcherEvents

  /** An existence probe is wrapped in `except ProcessLookupError` only: any other
      error it raises leaves `gentle_shutdown` and the watcher. */
  predicate ProbeRaises(k: KillResult) {
    k == NotPermitted || k == OtherOsError
  }

  /** The log line after a best-effort signal: sent, or the failure to send it. */
  function Outcome(pid: int, sig: Signal, reply: KillResult): (line: LogLine)
    ensures line == SignalSent(pid, sig) <==> reply == Accepted
    ensures line == SignalFailed(pid, sig) <==> reply != Accepted
  {
    if reply == Accepted then SignalSent(pid, sig) else SignalFailed(pid, sig)
  }

  /** SIGINT accepted: it is logged and notified. */
  function Interrupted(pid: int): seq<Event> {
    [Kill(pid, SIGINT), Log(SignalSent(pid, SIGINT)), Notify(ShuttingDown(pid))]
  }

  /** `time.sleep(wait)`, then the existence probe `os.kill(pid, 0)`. */
  function Pause(pid: int, wait: int): seq<Event> {
    [Sleep(wait), Probe(pid)]
  }

  /** The best-effort SIGTERM and its log line. */
  function Terminating(pid: int, reply: KillResult): seq<Event> {
    [Kill(pid, SIGTERM), Log(Outcome(pid, SIGTERM, reply))]
  }

  /** What follows the second probe. */
  function AfterSecondCheck(pid: int, r: SignalReplies, force: bool): seq<Event> {
    if ProbeRaises(r.secondProbe) then []
    else if r.secondProbe == Accepted && force then [Kill(pid, SIGKILL), Log(Outcome(pid, SIGKILL, r.toKill))]
    else if r.secondProbe == Accepted then [Log(NotKilling(pid))]
    else [Log(ExitedAfter(pid, SIGTERM))]
  }

  /** What follows the first probe. */
  function AfterFirstCheck(pid: int, r: SignalReplies, wait: int, force: bool): seq<Event> {
    if ProbeRaises(r.firstProbe) then []
    else if r.firstProbe == NoSuchProcess then [Log(ExitedAfter(pid, SIGINT))]
    else Terminating(pid, r.toTerm) + Pause(pid, wait) + AfterSecondCheck(pid, r, force)
  }

  /** The trace of one `gentle_shutdown(pid, wait=wait, force=force)` call. A probe that
      raises anything but `ProcessLookupError` ends the trace with a crash, and so does
      the `ValueError` of `time.sleep` for a negative `wait`. */
  function ShutdownSpec(pid: int, r: SignalReplies, wait: int, force: bool): (t: Trace)
    ensures t.events != [] && t.events[0] == Kill(pid, SIGINT)
  {
    match r.toInt
    case NoSuchProcess => Trace([Kill(pid, SIGINT), Log(AlreadyExited(pid))], false)
    case NotPermitted => Trace([Kill(pid, SIGINT), Log(SigintDenied(pid))], false)
    case OtherOsError => Trace([Kill(pid, SIGINT)], true)
    case Accepted =>
      if wait < 0 then Trace(Interrupted(pid), true)
      else
      Trace(Interrupted(pid) + Pause(pid, wait) + AfterFirstCheck(pid, r, wait, force),
            ProbeRaises(r.firstProbe) || (r.firstProbe == Accepted && ProbeRaises(r.secondProbe)))
  }

  /** Only `pid` is ever signalled or probed, every pause lasts `wait` seconds, and no
      file is touched. */
  lemma ShutdownTouchesOnlyPid(pid: int, r: SignalReplies, wait: int, force: bool)
    ensures forall k :: 0 <= k < |ShutdownSpec(pid, r, wait, force).events| ==>
              var e := ShutdownSpec(pid, r, wait, force).events[k];
              (e.Kill? || e.Probe? ==> e.pid == pid) && (e.Sleep? ==> e.seconds == wait) && !e.Remove?
  {
    if r.toInt == Accepted && wait >= 0 {
      var t := ShutdownSpec(pid, r, wait, force).events;
      var head := Interrupted(pid) + Pause(pid, wait);
      var after := AfterFirstCheck(pid, r, wait, force);
      assert t == head + after;
      if r.firstProbe == Accepted {
        var second := AfterSecondCheck(pid, r, force);
        assert after == Terminating(pid, r.toTerm) + Pause(pid, wait) + second;
      }
    }
  }

  /** When SIGINT itself raises, the call logs one line and returns; only an error other
      than a missing process or a denied permission goes on up. After an accepted SIGINT,
      a negative `wait` makes `time.sleep` raise before any probe. */
  lemma ShutdownEarlyExits(pid: int, r: SignalReplies, wait: int, force: bool)
    ensures r.toInt == NoSuchProcess ==>
              ShutdownSpec(pid, r, wait, force) == Trace([Kill(pid, SIGINT), Log(AlreadyExited(pid))], false)
    ensures r.toInt == NotPermitted ==>
              ShutdownSpec(pid, r, wait, force) == Trace([Kill(pid, SIGINT), Log(SigintDenied(pid))], false)
    ensures r.toInt == OtherOsError ==>
              ShutdownSpec(pid, r, wait, force) == Trace([Kill(pid, SIGINT)], true)
    ensures r.toInt == Accepted && wait < 0 ==>
              ShutdownSpec(pid, r, wait, force) == Trace(Interrupted(pid), true)
  {
  }

  /** The answers that end the whole watcher: SIGINT failing with an unexpected error, a
      negative wait, or an existence probe failing with anything but a missing process.
      A failed SIGTERM or SIGKILL is only logged. */
  lemma ShutdownCrashes(pid: int, r: SignalReplies, wait: int, force: bool)
    ensures ShutdownSpec(pid, r, wait, force).crashed <==>
              r.toInt == OtherOsError ||
              (r.toInt == Accepted &&
               (wait < 0 || ProbeRaises(r.firstProbe) || (r.firstProbe == Accepted && ProbeRaises(r.secondProbe))))
  {
  }

  /** `gentle_shutdown`, step by step with its early returns. */
  method GentleShutdown(pid: int, replies: SignalReplies, wait: int, force: bool)
    returns (events: seq<Event>, crashed: bool)
    ensures Trace(events, crashed) == ShutdownSpec(pid, replies, wait, force)
  {
    crashed := false;
    events := [Kill(pid, SIGINT)];
    match replies.toInt {
      case NoSuchProcess =>
        events := events + [Log(AlreadyExited(pid))];
        return;
      case NotPermitted =>
        events := events + [Log(SigintDenied(pid))];
        return;
      case OtherOsError =>
        crashed := true;
        return;
      case Accepted =>
        events := Interrupted(pid);
    }

    if wait < 0 {
      crashed := true;
      return;
    }

    var head := events + Pause(pid, wait);
    events := head;
    if ProbeRaises(replies.firstProbe) {
      crashed := true;
      assert events == head + [];
      return;
    }
    var stillAlive := replies.firstProbe == Accepted;
    if !stillAlive {
      events := events + [Log(ExitedAfter(pid, SIGINT))];
      return;
    }

    var middle := Terminating(pid, replies.toTerm) + Pause(pid, wait);
    events := events + middle;
    var last: seq<Event>;
    if ProbeRaises(replies.secondProbe) {
      crashed := true;
      last := [];
    } else {
      stillAlive := replies.secondProbe == Accepted;
      if stillAlive && force {
        last := [Kill(pid, SIGKILL), Log(Outcome(pid, SIGKILL, replies.toKill))];
      } else if stillAlive {
        last := [Log(NotKilling(pid))];
      } else {
        last := [Log(ExitedAfter(pid, SIGTERM))];
      }
    }
    assert last == AfterSecondCheck(pid, replies, force);
    assert events + last == head + (middle + last);
    events := events + last;
  }

  lemma SignalsOfBlocks(pid: int, q: int, wait: int, reply: KillResult)
    ensures SignalsTo(Interrupted(pid), q) == if q == pid then [SIGINT] else []
    ensures SignalsTo(Pause(pid, wait), q) == []
    ensures SignalsTo(Terminating(pid, reply), q) == if q == pid then [SIGTERM] else []
  {
    NoSignalsTo(Interrupted(pid)[1..], q);
    NoSignalsTo(Pause(pid, wait), q);
    NoSignalsTo(Terminating(pid, reply)[1..], q);
  }

  lemma SignalsAfterSecondCheck(pid: int, r: SignalReplies, force: bool, q: int)
    ensures SignalsTo(AfterSecondCheck(pid, r, force), q) ==
              if q == pid && !ProbeRaises(r.secondProbe) && r.secondProbe == Accepted && force then [SIGKILL] else []
  {
    var t := AfterSecondCheck(pid, r, force);
    if t != [] {
      NoSignalsTo(t[1..], q);
    }
  }

  lemma SignalsAfterFirstCheck(pid: int, r: SignalReplies, wait: int, force: bool, q: int)
    ensures SignalsTo(AfterFirstCheck(pid, r, wait, force), q) ==
              if q != pid || r.firstProbe != Accepted then []
              else if r.secondProbe == Accepted && force then [SIGTERM, SIGKILL]
              else [SIGTERM]
  {
    var t := AfterFirstCheck(pid, r, wait, force);
    if r.firstProbe != Accepted {
      NoSignalsTo(t, q);
    } else {
      var term, pause, last := Terminating(pid, r.toTerm), Pause(pid, wait), AfterSecondCheck(pid, r, force);
      SignalsOfBlocks(pid, q, wait, r.toTerm);
      SignalsAfterSecondCheck(pid, r, force, q);
      calc {
        SignalsTo(t, q);
        SignalsTo(term + pause + last, q);
        { SignalsToAppend(term + pause, last, q); SignalsToAppend(term, pause, q); }
        SignalsTo(term, q) + SignalsTo(pause, q) + SignalsTo(last, q);
      }
    }
  }

  /** Signals go out in the order SIGINT, SIGTERM, SIGKILL, each at most once, and only
      to `pid`. SIGTERM follows only when the process is still there after the first
      wait, SIGKILL only when it is still there after the second and killing is forced. */
  lemma ShutdownSignalOrder(pid: int, r: SignalReplies, wait: int, force: bool, q: int)
    ensures SignalsTo(ShutdownSpec(pid, r, wait, force).events, q) ==
              if q != pid then []
              else if r.toInt != Accepted || wait < 0 || r.firstProbe != Accepted then [SIGINT]
              else if r.secondProbe == Accepted && force then [SIGINT, SIGTERM, SIGKILL]
              else [SIGINT, SIGTERM]
  {
    var t := ShutdownSpec(pid, r, wait, force).events;
    if r.toInt != Accepted || wait < 0 {
      assert t == [Kill(pid, SIGINT)] + t[1..];
      SignalsToAppend([Kill(pid, SIGINT)], t[1..], q);
      NoSignalsTo(t[1..], q);
    } else {
      var sigint, pause, after := Interrupted(pid), Pause(pid, wait), AfterFirstCheck(pid, r, wait, force);
      SignalsOfBlocks(pid, q, wait, r.toTerm);
      SignalsAfterFirstCheck(pid, r, wait, force, q);
      calc {
        SignalsTo(t, q);
        SignalsTo(sigint + pause + after, q);
        { SignalsToAppend(sigint + pause, after, q); SignalsToAppend(sigint, pause, q); }
        SignalsTo(sigint, q) + SignalsTo(pause, q) + SignalsTo(after, q);
      }
    }
  }

  /** How a shutdown that got past SIGINT and its wait ends: gone after SIGINT, gone
      after SIGTERM, left alive because killing is not forced, or killed. */
  lemma ShutdownOutcomes(pid: int, r: SignalReplies, wait: int, force: bool)
    requires r.toInt == Accepted && wait >= 0
    ensures Log(ExitedAfter(pid, SIGINT)) in ShutdownSpec(pid, r, wait, force).events <==>
              r.firstProbe == NoSuchProcess
    ensures Log(ExitedAfter(pid, SIGTERM)) in ShutdownSpec(pid, r, wait, force).events <==>
              r.firstProbe == Accepted && r.secondProbe == NoSuchProcess
    ensures Log(NotKilling(pid)) in ShutdownSpec(pid, r, wait, force).events <==>
              r.firstProbe == Accepted && r.secondProbe == Accepted && !force
  {
    var head := Interrupted(pid) + Pause(pid, wait);
    var after := AfterFirstCheck(pid, r, wait, force);
    assert ShutdownSpec(pid, r, wait, force).events == head + after;
    assert Log(ExitedAfter(pid, SIGINT)) !in head;
    assert Log(ExitedAfter(pid, SIGTERM)) !in head;
    assert Log(NotKilling(pid)) !in head;
    if r.firstProbe == Accepted {
      var middle := Terminating(pid, r.toTerm) + Pause(pid, wait);
      assert after == middle + AfterSecondCheck(pid, r, force);
      assert Log(ExitedAfter(pid, SIGINT)) !in middle;
      assert Log(ExitedAfter(pid, SIGTERM)) !in middle;
      assert Log(NotKilling(pid)) !in middle;
    }
  }

  /** SIGTERM and SIGKILL are best effort: each is logged as sent when the system accepts
      it and as a failure otherwise, and the call goes on either way. */
  lemma ShutdownSignalLogs(pid: int, r: SignalReplies, wait: int, force: bool)
    requires r.toInt == Accepted && wait >= 0
    ensures Log(SignalSent(pid, SIGTERM)) in ShutdownSpec(pid, r, wait, force).events <==>
              r.firstProbe == Accepted && r.toTerm == Accepted
    ensures Log(SignalFailed(pid, SIGTERM)) in ShutdownSpec(pid, r, wait, force).events <==>
              r.firstProbe == Accepted && r.toTerm != Accepted
    ensures Log(SignalSent(pid, SIGKILL)) in ShutdownSpec(pid, r, wait, force).events <==>
              r.firstProbe == Accepted && r.secondProbe == Accepted && force && r.toKill == Accepted
    ensures Log(SignalFailed(pid, SIGKILL)) in ShutdownSpec(pid, r, wait, force).events <==>
              r.firstProbe == Accepted && r.secondProbe == Accepted && force && r.toKill != Accepted
  {
    TermLogs(pid, r, wait, force);
    KillLogs(pid, r, wait, force);
  }

  /** The SIGTERM half of `ShutdownSignalLogs`. */
  lemma TermLogs(pid: int, r: SignalReplies, wait: int, force: bool)
    requires r.toInt == Accepted && wait >= 0
    ensures Log(SignalSent(pid, SIGTERM)) in ShutdownSpec(pid, r, wait, force).events <==>
              r.firstProbe == Accepted && r.toTerm == Accepted
    ensures Log(SignalFailed(pid, SIGTERM)) in ShutdownSpec(pid, r, wait, force).events <==>
              r.firstProbe == Accepted && r.toTerm != Accepted
  {
    var head := Interrupted(pid) + Pause(pid, wait);
    var after := AfterFirstCheck(pid, r, wait, force);
    assert ShutdownSpec(pid, r, wait, force).events == head + after;
    if r.firstProbe == Accepted {
      assert after == Terminating(pid, r.toTerm) + Pause(pid, wait) + AfterSecondCheck(pid, r, force);
    }
  }

  /** The SIGKILL half of `ShutdownSignalLogs`. */
  lemma KillLogs(pid: int, r: SignalReplies, wait: int, force: bool)
    requires r.toInt == Accepted && wait >= 0
    ensures Log(SignalSent(pid, SIGKILL)) in ShutdownSpec(pid, r, wait, force).events <==>
              r.firstProbe == Accepted && r.secondProbe == Accepted && force && r.toKill == Accepted
    ensures Log(SignalFailed(pid, SIGKILL)) in ShutdownSpec(pid, r, wait, force).events <==>
              r.firstProbe == Accepted && r.secondProbe == Accepted && force && r.toKill != Accepted
  {
    var head := Interrupted(pid) + Pause(pid, wait);
    var after := AfterFirstCheck(pid, r, wait, force);
    assert ShutdownSpec(pid, r, wait, force).events == head + after;
    if r.firstProbe == Accepted {
      var middle := Terminating(pid, r.toTerm) + Pause(pid, wait);
      assert after == middle + AfterSecondCheck(pid, r, force);
      assert Log(SignalSent(pid, SIGKILL)) !in middle;
      assert Log(SignalFailed(pid, SIGKILL)) !in middle;
    }
  }

  lemma SleepsOfBlocks(pid: int, wait: int, reply: KillResult, r: SignalReplies, force: bool)
    ensures Sleeps(Interrupted(pid)) == []
    ensures Sleeps(Pause(pid, wait)) == [wait]
    ensures Sleeps(Terminating(pid, reply)) == []
    ensures Sleeps(AfterSecondCheck(pid, r, force)) == []
  {
    NoSleeps(Interrupted(pid));
    NoSleeps(Pause(pid, wait)[1..]);
    NoSleeps(Terminating(pid, reply));
    NoSleeps(AfterSecondCheck(pid, r, force));
  }

  /** No wait after an early exit; a second wait whenever the process was still there
      after the first, whether or not SIGTERM could be sent; every wait is `wait` seconds. */
  lemma ShutdownWaits(pid: int, r: SignalReplies, wait: int, force: bool)
    ensures Sleeps(ShutdownSpec(pid, r, wait, force).events) ==
              if r.toInt != Accepted || wait < 0 then []
              else if r.firstProbe != Accepted then [wait]
              else [wait, wait]
  {
    var t := ShutdownSpec(pid, r, wait, force).events;
    if r.toInt != Accepted || wait < 0 {
      NoSleeps(t);
    } else {
      var sigint, pause, after := Interrupted(pid), Pause(pid, wait), AfterFirstCheck(pid, r, wait, force);
      SleepsOfBlocks(pid, wait, r.toTerm, r, force);
      WaitsAfterFirstCheck(pid, r, wait, force);
      calc {
        Sleeps(t);
        Sleeps(sigint + pause + after);
        { SleepsAppend(sigint + pause, after); SleepsAppend(sigint, pause); }
        Sleeps(sigint) + Sleeps(pause) + Sleeps(after);
      }
    }
  }

  lemma WaitsAfterFirstCheck(pid: int, r: SignalReplies, wait: int, force: bool)
    ensures Sleeps(AfterFirstCheck(pid, r, wait, force)) == if r.firstProbe != Accepted then [] else [wait]
  {
    var t := AfterFirstCheck(pid, r, wait, force);
    if r.firstProbe != Accepted {
      NoSleeps(t);
    } else {
      var term, pause, last := Terminating(pid, r.toTerm), Pause(pid, wait), AfterSecondCheck(pid, r, force);
      SleepsOfBlocks(pid, wait, r.toTerm, r, force);
      calc {
        Sleeps(t);
        Sleeps(term + pause + last);
        { SleepsAppend(term + pause, last); SleepsAppend(term, pause); }
        Sleeps(term) + Sleeps(pause) + Sleeps(last);
      }
    }
  }
}
