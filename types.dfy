/** Values shared by the filesystem model: bytes, paths and the two
    failure-compatible wrappers the Rust code gets from `Option` and `Result`. */
module FsTypes {

  /** One octet of file contents (`u8`). */
  newtype byte = b: int | 0 <= b < 256

  /** Paths are abstracted as strings; '/' is the only separator. */
  type Path = string

  datatype Option<+T> = None | Some(value: T)

  datatype Result<+T, +E> = Success(value: T) | Failure(error: E)

  /** An I/O error reported by a collaborator (the archive reader or the host
      filesystem); only its presence matters to the model. */
  datatype IoError = IoError(description: string)
}
