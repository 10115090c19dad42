/** The archive half of `Filesystem::new` (src/filesystem.rs:29-52): the
    entries of a bundled tar archive are folded, in archive order, into a
    path-to-contents cache. The tar parser itself is not modelled: an archive
    is given as what its reader yields. */
module ArchiveLoader {
  import opened FsTypes

  /** The cache: path to the bytes of the stored file. */
  type Cache = map<Path, seq<byte>>

  /** One item of the entry iterator. */
  datatype ArchiveEntry =
    | Unreadable(err: IoError)                                     // the iterator yields an error
    | Entry(path: Result<Path, IoError>, payload: Result<seq<byte>, IoError>)

  /** What the reader makes of the archive bytes: the entry list, or the
      error of `archive.entries()` itself. */
  datatype Archive = Archive(entries: Result<seq<ArchiveEntry>, IoError>)

  /** The four places where loading panics. */
  datatype Stage = ListEntries | NextEntry | EntryPath | ReadPayload

  /** The payload of the panic: where it happened and the reader's error. */
  datatype LoadError = LoadError(stage: Stage, cause: IoError)

  /** The failure an entry causes, checked in the order the code touches it:
      the entry itself, then its path, then its payload. */
  function Fault(e: ArchiveEntry): (f: Option<LoadError>)
    ensures f.None? <==> e.Entry? && e.path.Success? && e.payload.Success?
    ensures e.Unreadable? ==> f == Some(LoadError(NextEntry, e.err))
    ensures e.Entry? && e.path.Failure? ==> f == Some(LoadError(EntryPath, e.path.error))
    ensures e.Entry? && e.path.Success? && e.payload.Failure? ==>
              f == Some(LoadError(ReadPayload, e.payload.error))
  {
    match e
    case Unreadable(err) => Some(LoadError(NextEntry, err))
    case Entry(path, payload) =>
      if path.Failure? then Some(LoadError(EntryPath, path.error))
      else if payload.Failure? then Some(LoadError(ReadPayload, payload.error))
      else None
  }

  /** An entry that the loader reads without failure and inserts under `p`. */
  ghost predicate Stores(e: ArchiveEntry, p: Path) {
    Fault(e).None? && e.path.value == p && e.payload.value != []
  }

  /** One iteration of the loop: fail, keep the cache (empty payload), or
      insert, overwriting what was stored under that path. */
  function Step(m: Cache, e: ArchiveEntry): (r: Result<Cache, LoadError>)
    ensures r.Failure? <==> Fault(e).Some?
    ensures r.Failure? ==> Fault(e) == Some(r.error)
    ensures r.Success? ==> forall q :: q in r.value <==> q in m || Stores(e, q)
    ensures r.Success? ==> forall q :: q in r.value && Stores(e, q) ==> r.value[q] == e.payload.value
    ensures r.Success? ==> forall q :: q in r.value && !Stores(e, q) ==> r.value[q] == m[q]
  {
    match Fault(e)
    case Some(err) => Failure(err)
    case None =>
      if e.payload.value == [] then Success(m)
      else Success(m[e.path.value := e.payload.value])
  }

  /** The loop as a fold over the entries, last entry outermost. */
  function LoadEntries(es: seq<ArchiveEntry>): (r: Result<Cache, LoadError>)
    ensures r.Failure? ==> exists i :: 0 <= i < |es| && Fault(es[i]) == Some(r.error)
    decreases |es|
  {
    if es == [] then Success(map[])
    else
      var pre := es[..|es| - 1];
      assert forall j :: 0 <= j < |pre| ==> pre[j] == es[j];
      match LoadEntries(pre)
      case Failure(err) => Failure(err)
      case Success(m) => Step(m, es[|es| - 1])
  }

  /** The whole loader: a failing listing aborts before any entry is read. */
  function Load(archive: Archive): (r: Result<Cache, LoadError>)
    ensures archive.entries.Failure? ==> r.Failure? && r.error.stage == ListEntries
    ensures r.Success? ==> forall p :: p in r.value ==> r.value[p] != []
  {
    match archive.entries
    case Failure(err) => Failure(LoadError(ListEntries, err))
    case Success(es) =>
      var loaded := LoadEntries(es);
      if loaded.Success? then LoadedNonEmpty(es, loaded.value); loaded else loaded
  }

  /** Once a prefix of the entries has failed, the rest is never looked at. */
  lemma {:induction false} PrefixFailureAborts(es: seq<ArchiveEntry>, k: nat)
    requires k <= |es|
    requires LoadEntries(es[..k]).Failure?
    ensures LoadEntries(es) == LoadEntries(es[..k])
    decreases |es| - k
  {
    if k < |es| {
      var pre := es[..|es| - 1];
      assert pre[..k] == es[..k];
      PrefixFailureAborts(pre, k);
    } else {
      assert es[..k] == es;
    }
  }

  /** The for-loop of `Filesystem::new`: it fills a mutable map and panics
      (here: returns the failure) on the first bad entry. */
  method LoadArchive(archive: Archive) returns (r: Result<Cache, LoadError>)
    ensures r == Load(archive)
  {
    if archive.entries.Failure? {
      return Failure(LoadError(ListEntries, archive.entries.error));
    }
    var es := archive.entries.value;
    var files: Cache := map[];
    for i := 0 to |es|
      invariant LoadEntries(es[..i]) == Success(files)
    {
      assert es[..i + 1][..i] == es[..i];
      match es[i]
      case Unreadable(err) =>
        PrefixFailureAborts(es, i + 1);
        return Failure(LoadError(NextEntry, err));
      case Entry(path, payload) =>
        if path.Failure? {
          PrefixFailureAborts(es, i + 1);
          return Failure(LoadError(EntryPath, path.error));
        }
        var filename := path.value;
        if payload.Failure? {
          PrefixFailureAborts(es, i + 1);
          return Failure(LoadError(ReadPayload, payload.error));
        }
        var buf := payload.value;
        if buf != [] {
          files := files[filename := buf];
        }
    }
    assert es[..|es|] == es;
    return Success(files);
  }

  /** Loading fails exactly when some entry is faulty, and then with the fault
      of the first faulty entry: no later entry is read. */
  lemma {:induction false} LoadFailsAtFirstFault(es: seq<ArchiveEntry>)
    ensures LoadEntries(es).Failure? <==> exists i :: 0 <= i < |es| && Fault(es[i]).Some?
    ensures LoadEntries(es).Failure? ==>
      exists i :: 0 <= i < |es| && Fault(es[i]) == Some(LoadEntries(es).error) &&
        forall j :: 0 <= j < i ==> Fault(es[j]).None?
    decreases |es|
  {
    if es != [] {
      var n := |es|;
      var pre := es[..n - 1];
      LoadFailsAtFirstFault(pre);
      assert forall j :: 0 <= j < n - 1 ==> pre[j] == es[j];
      if LoadEntries(pre).Failure? {
        var i :| 0 <= i < |pre| && Fault(pre[i]) == Some(LoadEntries(pre).error) &&
          forall j :: 0 <= j < i ==> Fault(pre[j]).None?;
        assert Fault(es[i]) == Some(LoadEntries(es).error);
      } else if Fault(es[n - 1]).Some? {
        assert forall j :: 0 <= j < n - 1 ==> Fault(es[j]).None?;
      } else {
        assert forall j :: 0 <= j < n ==> Fault(es[j]).None?;
      }
    }
  }

  /** After a successful load, a path is a key exactly when some entry stores
      it: entries with an empty payload never produce a key. */
  lemma {:induction false} LoadedKeys(es: seq<ArchiveEntry>, m: Cache, p: Path)
    requires LoadEntries(es) == Success(m)
    ensures p in m <==> exists i :: 0 <= i < |es| && Stores(es[i], p)
    decreases |es|
  {
    if es != [] {
      var n := |es|;
      var pre := es[..n - 1];
      var m0 := LoadEntries(pre).value;
      LoadedKeys(pre, m0, p);
      assert forall j :: 0 <= j < n - 1 ==> pre[j] == es[j];
      if exists i :: 0 <= i < |es| && Stores(es[i], p) {
        var i :| 0 <= i < |es| && Stores(es[i], p);
        if i < n - 1 {
          assert Stores(pre[i], p);
        }
      }
    }
  }

  /** Every stored file is non-empty. */
  lemma {:induction false} LoadedNonEmpty(es: seq<ArchiveEntry>, m: Cache)
    requires LoadEntries(es) == Success(m)
    ensures forall p :: p in m ==> m[p] != []
    decreases |es|
  {
    if es != [] {
      LoadedNonEmpty(es[..|es| - 1], LoadEntries(es[..|es| - 1]).value);
    }
  }

  /** Last write wins: an entry that stores `p` and is followed by no other
      entry storing `p` decides what is kept under `p`. A later entry with an
      empty payload does not erase it. */
  lemma {:induction false} LastWriteWins(es: seq<ArchiveEntry>, m: Cache, i: nat)
    requires LoadEntries(es) == Success(m)
    requires i < |es| && Fault(es[i]).None? && es[i].payload.value != []
    requires forall j :: i < j < |es| ==> !Stores(es[j], es[i].path.value)
    ensures es[i].path.value in m && m[es[i].path.value] == es[i].payload.value
    decreases |es|
  {
    var n := |es|;
    var pre := es[..n - 1];
    var m0 := LoadEntries(pre).value;
    if i < n - 1 {
      assert forall j :: i < j < n - 1 ==> pre[j] == es[j];
      LastWriteWins(pre, m0, i);
      assert !Stores(es[n - 1], es[i].path.value);
    }
  }

  /** Conversely, whatever is cached under `p` is the payload of the last entry
      storing `p`. */
  lemma {:induction false} LoadedValueIsLastStore(es: seq<ArchiveEntry>, m: Cache, p: Path)
    requires LoadEntries(es) == Success(m)
    requires p in m
    ensures exists i ::
              && 0 <= i < |es| && Stores(es[i], p) && m[p] == es[i].payload.value
              && forall j :: i < j < |es| ==> !Stores(es[j], p)
    decreases |es|
  {
    var n := |es|;
    var pre := es[..n - 1];
    var m0 := LoadEntries(pre).value;
    if Stores(es[n - 1], p) {
      assert m[p] == es[n - 1].payload.value;
    } else {
      assert p in m0 && m[p] == m0[p];
      LoadedValueIsLastStore(pre, m0, p);
      var i :| 0 <= i < |pre| && Stores(pre[i], p) && m0[p] == pre[i].payload.value &&
        forall j :: i < j < |pre| ==> !Stores(pre[j], p);
      assert forall j :: i < j < n - 1 ==> pre[j] == es[j];
      assert es[i] == pre[i];
    }
  }

  /** A path all of whose entries carry an empty payload is not cached, although
      it occurs in the archive. */
  lemma EmptyEntriesOmitted(es: seq<ArchiveEntry>, m: Cache, p: Path)
    requires LoadEntries(es) == Success(m)
    requires forall i :: 0 <= i < |es| && Fault(es[i]).None? && es[i].path.value == p ==>
      es[i].payload.value == []
    ensures p !in m
  {
    LoadedKeys(es, m, p);
  }
}
