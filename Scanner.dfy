/** The descriptor directory scanner: the connection files `kernel-*.json` in
    the Jupyter runtime directory, as sorted full paths. The listing of the
    directory (`os.listdir`) is an input. */
module Scanner {
  import opened Basics
  import opened Text
  import opened Sorting

  /** What `os.listdir` does: the directory is missing (`FileNotFoundError`), it
      fails in another way (another `OSError`), or it lists the entry names. */
  datatype Listing = NoSuchDirectory | ListFailed | Entries(names: seq<string>)

  /** The naming convention of connection files. */
  predicate IsKernelJsonName(f: string) {
    StartsWith(f, "kernel-") && EndsWith(f, ".json")
  }

  /** The directory joined with each kept name, in listing order. */
  function KernelJsonPaths(dir: string, names: seq<string>): (ps: seq<string>)
    ensures |ps| <= |names|
  {
    if names == [] then []
    else
      var f := names[|names| - 1];
      KernelJsonPaths(dir, names[..|names| - 1]) + (if IsKernelJsonName(f) then [JoinPath(dir, f)] else [])
  }

  /** A path is kept exactly when it is the directory joined with a kept name. */
  lemma {:induction false} KernelJsonPathsMembership(dir: string, names: seq<string>, p: string)
    ensures p in KernelJsonPaths(dir, names) <==>
            exists f :: f in names && IsKernelJsonName(f) && p == JoinPath(dir, f)
    decreases |names|
  {
    if names != [] {
      var front := names[..|names| - 1];
      KernelJsonPathsMembership(dir, front, p);
      assert names == front + [names[|names| - 1]];
    }
  }

  /** `list_kernel_jsons`. */
  function ListKernelJsons(dir: string, listing: Listing): (r: Result<seq<string>>)
    ensures listing.NoSuchDirectory? ==> r == Ok([])
    ensures listing.ListFailed? ==> r == Uncaught
    ensures listing.Entries? ==>
              r.Ok? && Sorted(r.value) && multiset(r.value) == multiset(KernelJsonPaths(dir, listing.names))
  {
    match listing
    case NoSuchDirectory => Ok([])
    case ListFailed => Uncaught
    case Entries(names) => Ok(Sort(KernelJsonPaths(dir, names)))
  }

  /** Every listed path is a connection file of the directory, and its basename is the
      entry's own name (entry names hold no '/'). */
  lemma ListedPath(dir: string, names: seq<string>, p: string)
    requires forall f <- names :: '/' !in f
    requires ListKernelJsons(dir, Entries(names)).Ok?
    requires p in ListKernelJsons(dir, Entries(names)).value
    ensures Basename(p) in names && IsKernelJsonName(Basename(p))
    ensures p == JoinPath(dir, Basename(p))
  {
    var listed := ListKernelJsons(dir, Entries(names)).value;
    assert p in multiset(listed);
    KernelJsonPathsMembership(dir, names, p);
    var f :| f in names && IsKernelJsonName(f) && p == JoinPath(dir, f);
    BasenameOfJoin(dir, f);
  }

  /** Every connection file in the directory is listed. */
  lemma EveryKernelJsonListed(dir: string, names: seq<string>, f: string)
    requires f in names && IsKernelJsonName(f)
    ensures JoinPath(dir, f) in ListKernelJsons(dir, Entries(names)).value
  {
    KernelJsonPathsMembership(dir, names, JoinPath(dir, f));
    var listed := ListKernelJsons(dir, Entries(names)).value;
    assert JoinPath(dir, f) in multiset(KernelJsonPaths(dir, names));
    assert JoinPath(dir, f) in multiset(listed);
  }
}
