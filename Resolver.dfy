/** The reference resolver: which connection files the running kernels name on
    their command lines. A token names a connection file when it contains
    "kernel-" and ends with ".json"; what is recorded is the token's basename. */
module Resolver {
  import opened Basics
  import opened Text
  import opened ProcessInspector

  predicate IsKernelToken(t: string) {
    Contains(t, "kernel-") && EndsWith(t, ".json")
  }

  /** The recorded name of a kernel token ends with ".json", so it is never empty. */
  lemma KernelTokenBasename(t: string)
    requires IsKernelToken(t)
    ensures EndsWith(Basename(t), ".json") && Basename(t) != ""
  {
    BasenameKeepsSuffix(t, ".json");
  }

  /** The basenames of all kernel tokens among `parts`. */
  function TokenRefs(parts: seq<string>): (refs: set<string>)
    ensures forall b <- refs :: EndsWith(b, ".json") && '/' !in b
  {
    if parts == [] then {}
    else
      var part := parts[|parts| - 1];
      TokenRefs(parts[..|parts| - 1]) +
        (if IsKernelToken(part) then (KernelTokenBasename(part); {Basename(part)}) else {})
  }

  lemma {:induction false} TokenRefsMembership(parts: seq<string>, b: string)
    ensures b in TokenRefs(parts) <==>
            exists k :: 0 <= k < |parts| && IsKernelToken(parts[k]) && Basename(parts[k]) == b
    decreases |parts|
  {
    if parts != [] {
      var front := parts[..|parts| - 1];
      TokenRefsMembership(front, b);
      if b in TokenRefs(parts) && b !in TokenRefs(front) {
        assert IsKernelToken(parts[|parts| - 1]) && Basename(parts[|parts| - 1]) == b;
      }
      if exists k :: 0 <= k < |parts| && IsKernelToken(parts[k]) && Basename(parts[k]) == b {
        var k :| 0 <= k < |parts| && IsKernelToken(parts[k]) && Basename(parts[k]) == b;
        if k < |parts| - 1 {
          assert front[k] == parts[k];
        }
      }
    }
  }

  /** The files one command line refers to: none unless it mentions the runtime
      directory, else the basenames of all its kernel tokens. */
  function CmdlineRefs(cl: string, runtime: string): (refs: set<string>)
    ensures !Contains(cl, runtime) ==> refs == {}
    ensures forall b <- refs :: EndsWith(b, ".json") && '/' !in b
  {
    if Contains(cl, runtime) then TokenRefs(Words(cl)) else {}
  }

  /** A basename is referenced through `pid` when that pid's command line names it. */
  predicate ReferencesVia(t: Table, runtime: string, pid: int, b: string) {
    b in CmdlineRefs(CmdlineForPid(t, pid), runtime)
  }

  /** What `referenced_jsons_from_procs` returns. */
  function Referenced(pids: seq<int>, t: Table, runtime: string): (refs: set<string>)
    ensures forall b <- refs :: EndsWith(b, ".json") && '/' !in b
  {
    if pids == [] then {}
    else Referenced(pids[..|pids| - 1], t, runtime) + CmdlineRefs(CmdlineForPid(t, pids[|pids| - 1]), runtime)
  }

  /** A basename is referenced exactly when some listed process references it. */
  lemma {:induction false} ReferencedMembership(pids: seq<int>, t: Table, runtime: string, b: string)
    ensures b in Referenced(pids, t, runtime) <==>
            exists k :: 0 <= k < |pids| && ReferencesVia(t, runtime, pids[k], b)
    decreases |pids|
  {
    if pids != [] {
      var front := pids[..|pids| - 1];
      ReferencedMembership(front, t, runtime, b);
      if exists k :: 0 <= k < |pids| && ReferencesVia(t, runtime, pids[k], b) {
        var k :| 0 <= k < |pids| && ReferencesVia(t, runtime, pids[k], b);
        if k < |pids| - 1 {
          assert front[k] == pids[k];
        }
      }
    }
  }

  /** Neither the order of the pids nor repeated pids change the references. */
  lemma ReferencedOrderFree(pids: seq<int>, other: seq<int>, t: Table, runtime: string)
    requires forall p <- pids :: p in other
    requires forall p <- other :: p in pids
    ensures Referenced(pids, t, runtime) == Referenced(other, t, runtime)
  {
    forall b | b in Referenced(pids, t, runtime)
      ensures b in Referenced(other, t, runtime)
    {
      ReferencedMembership(pids, t, runtime, b);
      var k :| 0 <= k < |pids| && ReferencesVia(t, runtime, pids[k], b);
      assert pids[k] in other;
      var j :| 0 <= j < |other| && other[j] == pids[k];
      ReferencedMembership(other, t, runtime, b);
    }
    forall b | b in Referenced(other, t, runtime)
      ensures b in Referenced(pids, t, runtime)
    {
      ReferencedMembership(other, t, runtime, b);
      var k :| 0 <= k < |other| && ReferencesVia(t, runtime, other[k], b);
      assert other[k] in pids;
      var j :| 0 <= j < |pids| && pids[j] == other[k];
      ReferencedMembership(pids, t, runtime, b);
    }
  }

  /** The inner loop of `referenced_jsons_from_procs`: the tokens of one command line. */
  method AddTokenRefs(refs: set<string>, parts: seq<string>) returns (refs': set<string>)
    ensures refs' == refs + TokenRefs(parts)
  {
    refs' := refs;
    for j := 0 to |parts|
      invariant refs' == refs + TokenRefs(parts[..j])
    {
      var part := parts[j];
      if IsKernelToken(part) {
        refs' := refs' + {Basename(part)};
      }
      assert parts[..j + 1][..j] == parts[..j];
    }
    assert parts[..|parts|] == parts;
  }

  /** `referenced_jsons_from_procs`: the loop over the pids. */
  method ReferencedJsonsFromProcs(pids: seq<int>, t: Table, runtime: string) returns (refs: set<string>)
    ensures refs == Referenced(pids, t, runtime)
  {
    refs := {};
    for i := 0 to |pids|
      invariant refs == Referenced(pids[..i], t, runtime)
    {
      var cl := CmdlineForPid(t, pids[i]);
      if Contains(cl, runtime) {
        refs := AddTokenRefs(refs, Words(cl));
      }
      assert pids[..i + 1][..i] == pids[..i];
    }
    assert pids[..|pids|] == pids;
  }

  /** The first kernel token of a token list, if any. */
  function FirstKernelToken(parts: seq<string>): (r: Option<string>)
    ensures r.Some? ==> IsKernelToken(r.value) && r.value in parts
    ensures r.None? <==> forall k :: 0 <= k < |parts| ==> !IsKernelToken(parts[k])
    ensures r.Some? ==> exists k :: 0 <= k < |parts| && parts[k] == r.value &&
                                    forall j :: 0 <= j < k ==> !IsKernelToken(parts[j])
  {
    if parts == [] then None
    else if IsKernelToken(parts[0]) then Some(parts[0])
    else
      var r := FirstKernelToken(parts[1..]);
      if r.Some? then
        var k :| 0 <= k < |parts[1..]| && parts[1..][k] == r.value &&
                 forall j :: 0 <= j < k ==> !IsKernelToken(parts[1..][j]);
        assert parts[k + 1] == r.value;
        r
      else r
  }

  /** The `kernel_basename` the main loop computes for a command line: the basename of
      its first kernel token, when the line mentions the runtime directory. */
  function ActiveKernel(cl: string, runtime: string): (kb: Option<string>)
    ensures kb.Some? ==> kb.value != "" && kb.value in CmdlineRefs(cl, runtime)
    ensures kb.None? <==> !Contains(cl, runtime) || CmdlineRefs(cl, runtime) == {}
  {
    if !Contains(cl, runtime) then None
    else
      var first := FirstKernelToken(Words(cl));
      if first.None? then
        assert forall b :: b !in TokenRefs(Words(cl)) by {
          forall b | true ensures b !in TokenRefs(Words(cl)) {
            TokenRefsMembership(Words(cl), b);
          }
        }
        None
      else
        KernelTokenBasename(first.value);
        var k :| 0 <= k < |Words(cl)| && Words(cl)[k] == first.value;
        TokenRefsMembership(Words(cl), Basename(first.value));
        Some(Basename(first.value))
  }

  /** The search in the main loop: over the tokens, stopping at the first kernel token. */
  method FindKernelBasename(cl: string, runtime: string) returns (kb: Option<string>)
    ensures kb == ActiveKernel(cl, runtime)
  {
    kb := None;
    if Contains(cl, runtime) {
      var parts := Words(cl);
      var i := 0;
      while i < |parts|
        invariant 0 <= i <= |parts|
        invariant FirstKernelToken(parts) == FirstKernelToken(parts[i..])
        invariant kb == None
      {
        if IsKernelToken(parts[i]) {
          kb := Some(Basename(parts[i]));
          break;
        }
        assert parts[i..][1..] == parts[i + 1..];
        i := i + 1;
      }
    }
  }
}
