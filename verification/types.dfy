/** The values the Rapid client passes around: repositories from the
    registry, descriptors ("sdp") from a repository's version list, the
    blob records ("sdp packages") of a descriptor file, and the failures
    and events its operations produce. */
module Types {
  import opened Bytes
  import Hex

  /** A filesystem path, written out as text. */
  type Path = string

  /** One line of the registry: a repository's short name and base URL. */
  datatype Repo = Repo(name: string, url: string)

  /** One line of a repository's version list. `md5` is the hex name of
      the descriptor file; `something` is the unused fourth column. */
  datatype Sdp = Sdp(fullname: string, md5: string, alias: string, something: string)

  /** One blob record of a descriptor file. The name is kept as its UTF-8
      bytes; `md5Bin` is the 16-byte digest of the blob's decompressed
      contents, `crc32` is carried through unread, `size` is a `u32`. */
  datatype SdpPackage = SdpPackage(name: seq<byte>, md5Bin: seq<byte>, crc32: seq<byte>, size: nat) {
    /** The 32-character lowercase hex form of the digest. */
    function Md5(): string {
      Hex.Encode(md5Bin)
    }
  }

  /** Why a pool file fails validation. */
  datatype FileError = Missing | Corrupt | WrongHash

  /** Everything that can stop an operation. `Panic` stands for a place
      where the Rust code aborts the process (a failed `unwrap`, `expect`
      or `assert`, or a slice index out of range) instead of returning an
      error. */
  datatype Failure =
    | Panic(reason: string)
    | GzReadError
    | CorruptFile
    | NoMoreData
    | NetworkError
    | NoSuchRepo
    | DownloadFailed

  /** The informational messages the commands report. */
  datatype Note =
    | FixAttemptStarted(attempt: nat)
    | FixSucceeded
    | Verified(fullname: string)
    | RemovedFiles(count: nat)
    | RepoDownloaded

  /** The error messages the commands report. */
  datatype Problem =
    | SizeMismatch(path: Path, onDisk: nat, expected: nat)
    | InvalidFile(path: Path, error: FileError)
    | BytesRemaining(count: nat)
    | SdpFileMissing
    | MetadataQueryFailed
    | RemoveFailed(path: Path)
    | FixGaveUp
    | RegistryUnreadable
    | NoSuchSdp(md5: string)
    | SdpDownloadFailed
    | RepoDownloadSucceeded
    | RepoDownloadFailed(cause: Failure)

  /** What a command hands to its output sink, in order. */
  datatype Event =
    | Info(note: Note)
    | Error(problem: Problem)
    | DownloadStarted(total: nat)
    | DownloadProgress(soFar: nat)
    | DownloadFinished
}
