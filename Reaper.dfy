/** The stale-file reaper: every listed connection file whose basename no running
    kernel references is removed. Whether `os.remove` fails for a path is an
    input, the set `undeletable`. */
module Reaper {
  import opened Text
  import opened WatcherEvents

  /** `delete_file`: remove, then log and notify; a failed remove is only logged. */
  function DeleteFile(path: string, undeletable: set<string>): (events: seq<Event>)
    ensures events != [] && events[0] == Remove(path)
    ensures forall k :: 0 <= k < |events| ==> !events[k].Kill? && !events[k].Probe? && !events[k].Sleep?
    ensures forall k :: 1 <= k < |events| ==> !events[k].Remove?
    ensures Log(DeletedStale(path)) in events <==> path !in undeletable
    ensures Log(DeleteFailed(path)) in events <==> path in undeletable
    ensures Notify(FileDeleted(Basename(path))) in events <==> path !in undeletable
  {
    if path in undeletable then [Remove(path), Log(DeleteFailed(path))]
    else [Remove(path), Log(DeletedStale(path)), Notify(FileDeleted(Basename(path)))]
  }

  /** What the loop does for one listed file: delete it unless its basename is referenced. */
  function ReapOne(j: string, refs: set<string>, undeletable: set<string>): (events: seq<Event>)
    ensures Remove(j) in events <==> Basename(j) !in refs
    ensures forall p :: p != j ==> Remove(p) !in events
    ensures forall p :: Log(DeleteFailed(p)) in events <==> p == j && Basename(j) !in refs && j in undeletable
  {
    if Basename(j) !in refs then DeleteFile(j, undeletable) else []
  }

  /** The deletion loop of the main cycle over the sorted listing. */
  function ReapSpec(jsons: seq<string>, refs: set<string>, undeletable: set<string>): (events: seq<Event>)
  {
    if jsons == [] then []
    else ReapSpec(jsons[..|jsons| - 1], refs, undeletable) + ReapOne(jsons[|jsons| - 1], refs, undeletable)
  }

  /** The loop itself. */
  method ReapStale(jsons: seq<string>, refs: set<string>, undeletable: set<string>) returns (events: seq<Event>)
    ensures events == ReapSpec(jsons, refs, undeletable)
  {
    events := [];
    for i := 0 to |jsons|
      invariant events == ReapSpec(jsons[..i], refs, undeletable)
    {
      assert jsons[..i + 1][..i] == jsons[..i];
      var base := Basename(jsons[i]);
      if base !in refs {
        events := events + DeleteFile(jsons[i], undeletable);
      } else {
        assert events + [] == events;
      }
    }
    assert jsons[..|jsons|] == jsons;
  }

  /** A file is removed exactly when it is listed and its basename is unreferenced:
      no referenced file is ever touched. */
  lemma {:induction false} ReapRemoves(jsons: seq<string>, refs: set<string>, undeletable: set<string>, p: string)
    ensures Remove(p) in ReapSpec(jsons, refs, undeletable) <==> p in jsons && Basename(p) !in refs
    decreases |jsons|
  {
    if jsons != [] {
      var front := jsons[..|jsons| - 1];
      var j := jsons[|jsons| - 1];
      assert jsons == front + [j];
      ReapRemoves(front, refs, undeletable, p);
    }
  }

  /** A failure is reported for exactly the files that were to be removed and could not be. */
  lemma {:induction false} ReapReportsFailures(jsons: seq<string>, refs: set<string>, undeletable: set<string>, p: string)
    ensures Log(DeleteFailed(p)) in ReapSpec(jsons, refs, undeletable) <==>
              p in jsons && Basename(p) !in refs && p in undeletable
    decreases |jsons|
  {
    if jsons != [] {
      var front := jsons[..|jsons| - 1];
      var j := jsons[|jsons| - 1];
      assert jsons == front + [j];
      ReapReportsFailures(front, refs, undeletable, p);
    }
  }

  /** Each file of a listing without repeats is removed at most once. */
  lemma {:induction false} ReapRemovesOnce(jsons: seq<string>, refs: set<string>, undeletable: set<string>, p: string)
    requires forall a, b :: 0 <= a < b < |jsons| ==> jsons[a] != jsons[b]
    ensures multiset(ReapSpec(jsons, refs, undeletable))[Remove(p)] <= 1
    decreases |jsons|
  {
    if jsons != [] {
      var front := jsons[..|jsons| - 1];
      var j := jsons[|jsons| - 1];
      ReapRemovesOnce(front, refs, undeletable, p);
      var d := ReapOne(j, refs, undeletable);
      ReapOneRemovesOnce(j, refs, undeletable, p);
      if p == j && Basename(j) !in refs {
        ReapRemoves(front, refs, undeletable, p);
        assert p !in front;
      }
    }
  }

  lemma ReapOneRemovesOnce(j: string, refs: set<string>, undeletable: set<string>, p: string)
    ensures multiset(ReapOne(j, refs, undeletable))[Remove(p)] == if p == j && Basename(j) !in refs then 1 else 0
  {
  }

  /** The reaper only removes files, logs and notifies: it signals and probes nobody. */
  lemma {:induction false} ReapOnlyFiles(jsons: seq<string>, refs: set<string>, undeletable: set<string>, e: Event)
    requires e in ReapSpec(jsons, refs, undeletable)
    ensures e.Remove? || e.Log? || e.Notify?
    decreases |jsons|
  {
    var front := jsons[..|jsons| - 1];
    if e in ReapSpec(front, refs, undeletable) {
      ReapOnlyFiles(front, refs, undeletable, e);
    }
  }

  lemma ReapSignalsNobody(jsons: seq<string>, refs: set<string>, undeletable: set<string>, q: int)
    ensures SignalsTo(ReapSpec(jsons, refs, undeletable), q) == []
  {
    var reap := ReapSpec(jsons, refs, undeletable);
    forall j | 0 <= j < |reap| ensures !(reap[j].Kill? && reap[j].pid == q) {
      ReapOnlyFiles(jsons, refs, undeletable, reap[j]);
    }
    NoSignalsTo(reap, q);
  }
}
