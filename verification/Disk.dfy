/** What a file system may do with an append followed by a sync. */
module Disk {

  datatype Io = Synced | AppendFailed(written: nat) | SyncFailed

  /** What reaches the file: all of it, unless the append failed part of the way. */
  function Written(bytes: string, io: Io): string {
    match io
    case AppendFailed(k) => if k <= |bytes| then bytes[..k] else bytes
    case _ => bytes
  }
}
