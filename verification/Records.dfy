/** The rows of the two tables every other part works on, and the status words. */
module Records {
  import opened Strings

  datatype Status =
    | MagnetConversion
    | WaitingFilesSelection
    | Queued
    | Downloading
    | Downloaded
    | Error
    | MagnetError
    | Dead
    | Unclassified(text: string)

  predicate IsFailed(s: Status) { s.Error? || s.MagnetError? || s.Dead? }

  datatype FileRow = FileRow(
    id: int,
    path: string,
    bytes: int,
    selected: bool,
    downloaded: int,
    streamable: int,
    diskPath: string,
    objectKey: string,
    remote: bool)

  datatype Record = Record(
    id: string,
    infoHash: string,
    status: Status,
    progress: int,
    bytes: int,
    endedAt: Option<int>,
    seeders: int,
    files: seq<FileRow>)

  predicate RemoteStoredComplete(f: FileRow) { f.bytes > 0 && f.remote }

  ghost predicate DistinctIds(files: seq<FileRow>) {
    forall i: nat, j: nat | i < j < |files| :: files[i].id != files[j].id
  }
}
