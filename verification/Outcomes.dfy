/** Results and errors shared by the snapshot modules. */
module Outcomes {

  datatype Option<+T> = None | Some(value: T)

  datatype SnapshotError =
    | InvalidPath
    | Io
    | MemoryIo
    | Bitcode
    | CrcMismatch
    | TooShort
    | SizeLimitExceeded
    | MagicMismatch
    | VersionMismatch
    | Incompatible
    | AtomicCommitFailed
    | AtomicCommitCrossFs

  datatype Result<+T> = Ok(value: T) | Err(error: SnapshotError)
}
