/** The virtual filesystem of src/filesystem.rs: a configured physical root
    consulted first, and the read-only cache built from the bundled archive. */
module Filesystem {
  import opened FsTypes
  import opened ArchiveLoader
  import opened FileCursor

  /** The configuration's cache setting; only the tar variant loads anything. */
  datatype CacheConf = Tar(archive: Archive) | NotTar

  /** The two fields of the configuration this file reads. */
  datatype Conf = Conf(physicalRootDir: Option<Path>, cache: CacheConf)

  /** The filesystem state. Neither field is changed after construction, so the
      state is a value. */
  datatype Filesystem = Filesystem(root: Option<Path>, files: Cache)

  /** The filesystem variant of the game's error type. */
  datatype GameError = FilesystemError(message: string)

  /** The host's whole-file read (`std::fs::read`): the bytes, or None for any
      I/O error whatsoever. */
  type Disk = Path -> Option<seq<byte>>

  /** `msg` contains `p` as a contiguous piece. */
  ghost predicate Mentions(msg: string, p: string) {
    exists i :: 0 <= i <= |msg| - |p| && msg[i..][..|p|] == p
  }

  /** The not-found message; it quotes the path it was asked for. */
  function NoSuchFile(p: Path): (msg: string)
    ensures Mentions(msg, p)
  {
    var prefix := "No such file: \"";
    var msg := prefix + p + "\"";
    assert msg[|prefix|..][..|p|] == p;
    msg
  }

  /** `Filesystem::new` as a function of the configuration: only a faulty
      archive makes it fail. */
  function Construct(conf: Conf): (r: Result<Filesystem, LoadError>)
    ensures r.Success? ==> r.value.root == conf.physicalRootDir
    ensures r.Failure? ==> conf.cache.Tar?
    ensures r.Success? ==> forall p :: p in r.value.files ==> r.value.files[p] != []
  {
    match conf.cache
    case NotTar => Success(Filesystem(conf.physicalRootDir, map[]))
    case Tar(archive) =>
      match Load(archive)
      case Failure(err) => Failure(err)
      case Success(files) => Success(Filesystem(conf.physicalRootDir, files))
  }

  /** `Filesystem::new`: loads the cache, then copies the physical root. */
  method New(conf: Conf) returns (r: Result<Filesystem, LoadError>)
    ensures r == Construct(conf)
  {
    var files: Cache := map[];
    if conf.cache.Tar? {
      var loaded := LoadArchive(conf.cache.archive);
      if loaded.Failure? {
        return Failure(loaded.error);
      }
      files := loaded.value;
    }
    var root := conf.physicalRootDir;
    return Success(Filesystem(root, files));
  }

  /** The root is copied verbatim; without a tar cache nothing is cached and
      construction cannot fail; with one it fails exactly when loading does. */
  lemma ConstructRootAndCache(conf: Conf)
    ensures Construct(conf).Success? ==> Construct(conf).value.root == conf.physicalRootDir
    ensures conf.cache.NotTar? ==> Construct(conf) == Success(Filesystem(conf.physicalRootDir, map[]))
    ensures conf.cache.Tar? ==>
      (Construct(conf).Failure? <==> Load(conf.cache.archive).Failure?) &&
      (Construct(conf).Failure? ==> Construct(conf).error == Load(conf.cache.archive).error) &&
      (Construct(conf).Success? ==> Construct(conf).value.files == Load(conf.cache.archive).value)
  {
  }

  /** The ggez-style path workaround: one leading '/' is dropped. */
  function Normalize(path: Path): (p: Path)
    ensures path == p || path == "/" + p
  {
    if |path| > 0 && path[0] == '/' then path[1..] else path
  }

  /** Exactly one leading '/' goes, and a path without one is kept as it is. */
  lemma NormalizeExact(p: Path)
    ensures Normalize("/" + p) == p
    ensures (p == [] || p[0] != '/') ==> Normalize(p) == p
  {
  }

  /** `root_path.join(path)`: a separator is put between the two unless the
      root is empty or already ends in one. */
  function Join(root: Path, p: Path): (j: Path)
    ensures |j| >= |root| + |p| && j[..|root|] == root && j[|j| - |p|..] == p
  {
    if root == [] || root[|root| - 1] == '/' then root + p else root + "/" + p
  }

  /** The outcome of `Filesystem::open`, with the returned handle given by its
      contents (it is always positioned at offset zero). */
  function Lookup(fs: Filesystem, path: Path, disk: Disk, diskAccess: bool): (r: Result<seq<byte>, GameError>)
    ensures r.Failure? ==> Normalize(path) !in fs.files && Mentions(r.error.message, Normalize(path))
    ensures r.Success? ==>
      || (diskAccess && fs.root.Some? && disk(Join(fs.root.value, Normalize(path))) == Some(r.value))
      || (Normalize(path) in fs.files && r.value == fs.files[Normalize(path)])
  {
    var p := Normalize(path);
    if diskAccess && fs.root.Some? && disk(Join(fs.root.value, p)).Some? then
      Success(disk(Join(fs.root.value, p)).value)
    else if p !in fs.files then
      Failure(FilesystemError(NoSuchFile(p)))
    else
      Success(fs.files[p])
  }

  /** `Filesystem::open`: returns a fresh handle over the physical file or over
      a copy of the cached one. */
  method Open(fs: Filesystem, path: Path, disk: Disk, diskAccess: bool) returns (r: Result<File, GameError>)
    ensures r.Failure? ==> Lookup(fs, path, disk, diskAccess) == Failure(r.error)
    ensures r.Success? ==>
      fresh(r.value) && r.value.Valid() && r.value.pos == 0 &&
      Lookup(fs, path, disk, diskAccess) == Success(r.value.bytes)
  {
    var p := Normalize(path);
    if diskAccess && fs.root.Some? {
      var read := disk(Join(fs.root.value, p));
      if read.Some? {
        var f := new File(read.value);
        return Success(f);
      }
    }
    if p !in fs.files {
      return Failure(FilesystemError(NoSuchFile(p)));
    }
    var f := new File(fs.files[p]);
    return Success(f);
  }

  /** With disk access and a root, a successful physical read wins, whatever
      the cache holds. */
  lemma PhysicalPrecedence(fs: Filesystem, path: Path, disk: Disk, bytes: seq<byte>)
    requires fs.root.Some?
    requires disk(Join(fs.root.value, Normalize(path))) == Some(bytes)
    ensures Lookup(fs, path, disk, true) == Success(bytes)
  {
  }

  /** Whenever no physical read succeeds (no root, no disk access, or any read
      error), the outcome is that of the cache alone. */
  lemma FallbackToCache(fs: Filesystem, path: Path, disk: Disk, diskAccess: bool)
    requires !diskAccess || fs.root.None? || disk(Join(fs.root.value, Normalize(path))).None?
    ensures Lookup(fs, path, disk, diskAccess) == Lookup(Filesystem(None, fs.files), path, disk, false)
  {
  }

  /** A cache miss is a filesystem error whose message names the normalized path. */
  lemma CacheMiss(fs: Filesystem, path: Path, disk: Disk, diskAccess: bool)
    requires Normalize(path) !in fs.files
    ensures Lookup(Filesystem(None, fs.files), path, disk, diskAccess).Failure?
    ensures Mentions(Lookup(Filesystem(None, fs.files), path, disk, diskAccess).error.message, Normalize(path))
  {
  }

  /** A cache hit yields exactly the stored bytes. */
  lemma CacheHit(fs: Filesystem, path: Path, disk: Disk, diskAccess: bool)
    requires Normalize(path) in fs.files
    ensures Lookup(Filesystem(None, fs.files), path, disk, diskAccess) == Success(fs.files[Normalize(path)])
  {
  }

  /** `open("/a/b")` and `open("a/b")` agree, physical root or not. */
  lemma LeadingSlashIrrelevant(fs: Filesystem, p: Path, disk: Disk, diskAccess: bool)
    requires p == [] || p[0] != '/'
    ensures Lookup(fs, "/" + p, disk, diskAccess) == Lookup(fs, p, disk, diskAccess)
  {
    NormalizeExact(p);
  }

  /** Archive round trip: with distinct relative paths and non-empty payloads
      and no physical root, looking up "/" + path of any entry gives its payload. */
  lemma {:induction false} ArchiveRoundTrip(es: seq<ArchiveEntry>, i: nat, disk: Disk, diskAccess: bool)
    requires forall k :: 0 <= k < |es| ==>
               es[k].Entry? && es[k].path.Success? && es[k].payload.Success? && es[k].payload.value != []
    requires forall k, l :: 0 <= k < l < |es| ==> es[k].path.value != es[l].path.value
    requires forall k :: 0 <= k < |es| ==> es[k].path.value == [] || es[k].path.value[0] != '/'
    requires i < |es|
    ensures Construct(Conf(None, Tar(Archive(Success(es))))).Success?
    ensures Lookup(Construct(Conf(None, Tar(Archive(Success(es))))).value,
                   "/" + es[i].path.value, disk, diskAccess) == Success(es[i].payload.value)
  {
    LoadFailsAtFirstFault(es);
    var m := LoadEntries(es).value;
    LastWriteWins(es, m, i);
    NormalizeExact(es[i].path.value);
  }

  /** An entry with an empty payload cannot be opened from the cache, even
      though it is in the archive, while no other entry stores its path. */
  lemma {:induction false} EmptyEntryNotFound(es: seq<ArchiveEntry>, path: Path, disk: Disk, diskAccess: bool)
    requires LoadEntries(es).Success?
    requires forall k :: 0 <= k < |es| && Fault(es[k]).None? && es[k].path.value == Normalize(path) ==>
               es[k].payload.value == []
    ensures Lookup(Filesystem(None, LoadEntries(es).value), path, disk, diskAccess).Failure?
  {
    LoadFailsAtFirstFault(es);
    EmptyEntriesOmitted(es, LoadEntries(es).value, Normalize(path));
  }

  /** With no root and no cache every lookup fails, naming the path. */
  lemma CleanMiss(path: Path, disk: Disk, diskAccess: bool)
    ensures Lookup(Filesystem(None, map[]), path, disk, diskAccess).Failure?
    ensures Mentions(Lookup(Filesystem(None, map[]), path, disk, diskAccess).error.message, Normalize(path))
  {
  }
}
