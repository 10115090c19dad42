# Virtual filesystem of good-web-game, modelled in Dafny

This project models `src/filesystem.rs` of good-web-game. That file holds the small virtual filesystem the game uses to turn asset paths into readable bytes. It has three parts:

- **`File`** (`file.dfy`, module `FileCursor`): a fully buffered handle, modelled as it is used by the game: its contents are fixed, and its cursor moves forward only through `Read` and never passes the end of the buffer.
- **Archive loading** (`archive_loader.dfy`, module `ArchiveLoader`): the `for` loop of `Filesystem::new`. It folds the entries of the bundled tar archive, in archive order, into a path→bytes cache. Entries with an empty payload are skipped. A later entry overwrites an earlier one with the same path. The first failing entry aborts the whole construction. `LoadArchive` is that loop, written as a Dafny `for` loop over a mutable map. It is proved equal to the fold `Load`/`LoadEntries`, and the lemmas next to it describe the fold independently: which keys exist, which entry wins, and where a failure comes from.
- **`Filesystem`** (`filesystem.dfy`, module `Filesystem`): construction from the configuration (`New`, specified by `Construct`) and lookup (`Open`, specified by `Lookup`). Lookup drops one leading `/`. When physical disk access is available and a root is configured, it tries a physical read first. Any failed physical read falls through to the cache. A cache miss gives a `FilesystemError` whose message quotes the normalized path.

`types.dfy` (module `FsTypes`) holds the shared types: bytes, paths, `Option`, `Result`, and I/O errors.

Abstractions:
- The tar parser is not modelled. An `Archive` is what the reader yields: either a failure of `entries()`, or a list of items. Each item is either an iterator error or an entry whose path and payload may each fail.
- The host read `std::fs::read` is represented by a `Disk` parameter of type `Path -> Option<bytes>`. `None` stands for any I/O error.
- The `wasm32` compile-time gate is represented by the boolean `diskAccess`.
- The `panic_any` calls are represented as a `Failure(LoadError(stage, cause))` result.
- `Filesystem` is a datatype, not a class, because `open` reads its two fields and never writes them. So "`open` changes neither `files` nor `root`" holds by construction.
- The cache maps paths to byte sequences, not to `File` values. The stored cursors are never read, because `open` returns clones. They therefore stay at position zero, and a clone is the same as a fresh handle over the same bytes. `Open` builds exactly that fresh handle.

`Filesystem::new` stores each tar path as the archive gives it (src/filesystem.rs:38-39, 44-45), so a cache key may start with `/`. In the source, such a key can never be opened: `strip_prefix("/")` at src/filesystem.rs:65 removes the whole root component, so `//a` becomes `a`. In the model, which drops one `/` character, the key `/a` is reached through `//a`.

## Model

| member | source | states |
|---|---|---|
| `FileCursor.File.constructor` | src/filesystem.rs:9-12 | a new handle holds exactly the given bytes, with the cursor at offset zero |
| `FileCursor.File.Read` | src/filesystem.rs:14-17 | copies min(buffer length, remaining) bytes into the front of the buffer and advances the cursor by that count; the bytes read plus what remains equal what remained before; the rest of the buffer is untouched; it returns 0 only for an empty buffer or at end of file |
| `ArchiveLoader.Fault` | src/filesystem.rs:37-42 | an entry causes no failure exactly when the entry, its path and its payload all read successfully; an unreadable entry fails at the entry stage; an entry whose path fails fails at the path stage, whatever its payload; an entry with a good path and a failing payload fails at the payload stage; each failure carries the reader's error |
| `ArchiveLoader.Step` | src/filesystem.rs:37-50 | one loop iteration fails exactly when the entry is faulty, with that fault; otherwise the keys afterwards are the old keys plus the entry's path if its payload is non-empty; that path holds the payload, and every other key is unchanged |
| `ArchiveLoader.LoadEntries` | src/filesystem.rs:34-51 | the fold over the entries; a failure is always the fault of one of the entries |
| `ArchiveLoader.Load` | src/filesystem.rs:32-51 | a failing listing fails at the listing stage; a successful load holds only non-empty files |
| `ArchiveLoader.LoadArchive` | src/filesystem.rs:29-52 | the loop's result is exactly the fold `Load` of the archive: a failing listing aborts; otherwise the entries are applied in order |
| `ArchiveLoader.PrefixFailureAborts` | src/filesystem.rs:34-42 | once an entry has failed, the entries after it do not affect the result |
| `ArchiveLoader.LoadFailsAtFirstFault` | src/filesystem.rs:34-42 | loading fails if and only if some entry is faulty, and then it fails with the fault of the first faulty entry |
| `ArchiveLoader.LoadedKeys` | src/filesystem.rs:40-50 | after loading, a path is a key exactly when some entry with that path read successfully and has a non-empty payload |
| `ArchiveLoader.LoadedNonEmpty` | src/filesystem.rs:43-50 | every cached file is non-empty |
| `ArchiveLoader.LastWriteWins` | src/filesystem.rs:43-49 | a non-empty entry that no later non-empty entry with the same path follows is cached under its path with exactly its bytes; a later empty entry does not erase it |
| `ArchiveLoader.LoadedValueIsLastStore` | src/filesystem.rs:34-51 | every cached value is the payload of the last non-empty entry with that path |
| `ArchiveLoader.EmptyEntriesOmitted` | src/filesystem.rs:43 | a path whose entries all have empty payloads is not a key |
| `Filesystem.NoSuchFile` | src/filesystem.rs:80-83 | the not-found message contains the path |
| `Filesystem.Construct` | src/filesystem.rs:28-56 | a constructed filesystem carries the configured root verbatim and only non-empty files; construction fails only with a tar cache |
| `Filesystem.New` | src/filesystem.rs:28-56 | the result is `Construct(conf)`: the loader's result paired with the configured root |
| `Filesystem.ConstructRootAndCache` | src/filesystem.rs:29-55 | the root is copied verbatim; without a tar cache nothing is cached and construction succeeds; with a tar cache construction fails exactly when loading fails, with the same error, and otherwise stores the loader's map |
| `Filesystem.Normalize` | src/filesystem.rs:61-67 | the result is the path itself, or the path with one leading `/` removed |
| `Filesystem.NormalizeExact` | src/filesystem.rs:63-67 | exactly one leading `/` is removed; a path without a leading `/` is unchanged |
| `Filesystem.Join` | src/filesystem.rs:72 | the joined path starts with the root and ends with the relative path |
| `Filesystem.Lookup` | src/filesystem.rs:60-85 | a failure means the normalized path is not cached, and its message contains that path; a success is either the physical read of root joined with the normalized path (with disk access and a root) or the cached bytes under the normalized path |
| `Filesystem.Open` | src/filesystem.rs:60-86 | fails exactly as `Lookup` does, with the same error; on success it returns a fresh handle at offset zero over exactly the bytes `Lookup` gives |
| `Filesystem.PhysicalPrecedence` | src/filesystem.rs:69-77 | with disk access and a root, a successful physical read of root joined with the normalized path is returned, whatever the cache holds |
| `Filesystem.FallbackToCache` | src/filesystem.rs:69-79 | when there is no root, no disk access, or the physical read fails for any reason, the result equals a cache-only lookup |
| `Filesystem.CacheMiss` | src/filesystem.rs:79-84 | a normalized path missing from the cache gives a filesystem error whose message contains that path |
| `Filesystem.CacheHit` | src/filesystem.rs:85 | a normalized path in the cache gives exactly the stored bytes |
| `Filesystem.LeadingSlashIrrelevant` | src/filesystem.rs:61-67 | `"/" + p` and `p` (with `p` not starting with `/`) give the same result, with or without a physical root |
| `Filesystem.ArchiveRoundTrip` | src/filesystem.rs:28-85 | for an archive of readable, non-empty entries with distinct paths that do not start with `/`, and no root, construction succeeds and looking up `"/" + path` of any entry gives that entry's payload |
| `Filesystem.EmptyEntryNotFound` | src/filesystem.rs:43-84 | a path whose archive entries are all empty fails a cache lookup |
| `Filesystem.CleanMiss` | src/filesystem.rs:79-84 | with no root and an empty cache, every lookup fails with a message containing the normalized path |

## Left out

- The tar format and the `tar` crate (src/filesystem.rs:32): an archive is given as its reader's output, not as bytes.
- `std::fs::read` (src/filesystem.rs:72) is host I/O. It is the `Disk` parameter, and which I/O error occurred is not modelled.
- Rust `Path` semantics: component-wise `strip_prefix`, treating `a//b` and `a/b` as one key, and `join` of an absolute path replacing the root. Paths are strings, and normalization removes one leading `/` character. So `//a` becomes `/a` in the model but `a` in the source, and a cache key starting with `/` is reachable in the model (through `//a`) but not in the source.
- The `{:?}` formatting of the not-found message: the model quotes the path but does not escape it. The source's `Debug` formatting escapes `"`, `\`, control characters, non-printable characters such as U+200B, and grapheme-extending characters such as a combining U+0301 (the last three as `\u{…}`). For paths containing any of them, the source message does not contain the path verbatim, so the `Mentions` clauses of `Filesystem.NoSuchFile`, `Filesystem.Lookup`, `Filesystem.CacheMiss` and `Filesystem.CleanMiss` hold in the source only for paths without those characters.
- The `#[cfg(not(target_arch = "wasm32"))]` gate is the runtime flag `diskAccess`.
- Panic unwinding is modelled as a `Failure` result of construction.
- The other variants of the configuration's cache setting: conf.rs is not part of this model. Every variant other than `Tar` is `NotTar`.
- The free function `open(ctx, path)` (src/filesystem.rs:91-93) forwards to the context's filesystem and is not modelled separately.
- FileCursor.File: only the `Read` of the public cursor is modelled. In the source, the `pub bytes` field also allows seeking, even past the end (where a read then returns 0), writing through `Write`, and changing the buffer through `get_mut()`. So `const bytes` and `Valid()` hold only for handles used through `Read`.
- `Clone` of `File`: a stored handle is never read, so its clone is modelled as a fresh handle over the same bytes.
