/** The shape both loops of the watcher share: do one step per element, in order,
    and stop at the first step that raises out of the loop. */
module Runs {
  import opened WatcherEvents

  /** The run of `step` over `xs`; a crashed step ends it. */
  function RunAll<T>(xs: seq<T>, step: T -> Trace): Trace {
    if xs == [] then Trace([], false)
    else
      var before := RunAll(xs[..|xs| - 1], step);
      if before.crashed then before
      else Trace(before.events + step(xs[|xs| - 1]).events, step(xs[|xs| - 1]).crashed)
  }

  /** One more element extends a run that has not crashed by that element's step. */
  lemma RunAllStep<T>(xs: seq<T>, step: T -> Trace, i: int)
    requires 0 <= i < |xs|
    requires !RunAll(xs[..i], step).crashed
    ensures RunAll(xs[..i + 1], step) ==
              Trace(RunAll(xs[..i], step).events + step(xs[i]).events, step(xs[i]).crashed)
  {
    assert xs[..i + 1][..i] == xs[..i];
  }

  lemma {:induction false} RunAllCrashSticks<T>(a: seq<T>, b: seq<T>, step: T -> Trace)
    requires RunAll(a, step).crashed
    ensures RunAll(a + b, step) == RunAll(a, step)
    decreases |b|
  {
    if b == [] {
      assert a + b == a;
    } else {
      var b' := b[..|b| - 1];
      assert (a + b)[..|a + b| - 1] == a + b';
      RunAllCrashSticks(a, b', step);
    }
  }

  /** A run that crashed on a prefix ends there: nothing after the crash happens. */
  lemma RunAllCrashedPrefix<T>(xs: seq<T>, step: T -> Trace, n: int)
    requires 0 <= n <= |xs|
    requires RunAll(xs[..n], step).crashed
    ensures RunAll(xs, step) == RunAll(xs[..n], step)
  {
    RunAllCrashSticks(xs[..n], xs[n..], step);
    assert xs[..n] + xs[n..] == xs;
  }

  /** A whole run that did not crash did not crash on any prefix. */
  lemma {:induction false} RunAllNoCrashPrefix<T>(xs: seq<T>, step: T -> Trace, n: int)
    requires 0 <= n <= |xs|
    requires !RunAll(xs, step).crashed
    ensures !RunAll(xs[..n], step).crashed
    decreases |xs| - n
  {
    if n < |xs| {
      var front := xs[..|xs| - 1];
      assert !RunAll(front, step).crashed;
      RunAllNoCrashPrefix(front, step, n);
      assert front[..n] == xs[..n];
    } else {
      assert xs[..n] == xs;
    }
  }

  /** Everything a run does, some step did. */
  lemma {:induction false} RunAllEvents<T>(xs: seq<T>, step: T -> Trace, e: Event)
    requires e in RunAll(xs, step).events
    ensures exists k :: 0 <= k < |xs| && e in step(xs[k]).events
    decreases |xs|
  {
    var front := xs[..|xs| - 1];
    if e in RunAll(front, step).events {
      RunAllEvents(front, step, e);
      var k :| 0 <= k < |front| && e in step(front[k]).events;
      assert xs[k] == front[k];
    } else {
      assert e in step(xs[|xs| - 1]).events;
    }
  }

  /** Everything each step does, a run that did not crash does. */
  lemma {:induction false} RunAllReaches<T>(xs: seq<T>, step: T -> Trace, k: int, e: Event)
    requires !RunAll(xs, step).crashed
    requires 0 <= k < |xs| && e in step(xs[k]).events
    ensures e in RunAll(xs, step).events
    decreases |xs|
  {
    var front := xs[..|xs| - 1];
    assert !RunAll(front, step).crashed;
    if k < |xs| - 1 {
      assert front[k] == xs[k];
      RunAllReaches(front, step, k, e);
    }
  }

  /** The signals a run sends one pid are those its steps send it, in order; when only
      the step for a pid signals that pid, and each pid has one step, the pid gets the
      signals of its own step or, before that step, none. */
  lemma {:induction false} RunAllSignalsTo(pids: seq<int>, step: int -> Trace, q: int)
    requires forall a, b :: 0 <= a < b < |pids| ==> pids[a] != pids[b]
    requires forall p :: p != q ==> SignalsTo(step(p).events, q) == []
    ensures SignalsTo(RunAll(pids, step).events, q) == [] ||
            (q in pids && SignalsTo(RunAll(pids, step).events, q) == SignalsTo(step(q).events, q))
    decreases |pids|
  {
    if pids != [] {
      var front := pids[..|pids| - 1];
      var last := pids[|pids| - 1];
      var before := RunAll(front, step);
      RunAllSignalsTo(front, step, q);
      if !before.crashed {
        SignalsToAppend(before.events, step(last).events, q);
        if q == last {
          assert q !in front;
        }
      }
    }
  }

  /** A run crashes exactly when one of its steps does: the steps after the first crash
      never run, but the crash they would have met is already there. */
  lemma {:induction false} RunAllCrashed<T>(xs: seq<T>, step: T -> Trace)
    ensures RunAll(xs, step).crashed <==> exists k :: 0 <= k < |xs| && step(xs[k]).crashed
    decreases |xs|
  {
    if xs != [] {
      var front := xs[..|xs| - 1];
      RunAllCrashed(front, step);
      if exists k :: 0 <= k < |front| && step(front[k]).crashed {
        var k :| 0 <= k < |front| && step(front[k]).crashed;
        assert xs[k] == front[k];
      }
      if exists k :: 0 <= k < |xs| && step(xs[k]).crashed {
        var k :| 0 <= k < |xs| && step(xs[k]).crashed;
        if k < |xs| - 1 {
          assert front[k] == xs[k];
        }
      }
    }
  }
}
