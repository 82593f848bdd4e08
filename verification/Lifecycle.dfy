/**
 * The torrent lifecycle: how selection, runtime sync, remote reconciliation, errors, retries and new
 * metadata move a record, and what its status then guarantees.
 */
module Lifecycle {
  import opened Strings
  import opened Sequences
  import opened Records
  import opened Arithmetic

  // ----- the steps as functions -----------------------------------------------------------

  function Complete(f: FileRow): FileRow {
    if f.selected then f.(streamable := f.bytes) else f
  }

  function MarkedDownloaded(r: Record, now: int): Record {
    r.(status := Downloaded,
       progress := 100,
       files := Map(r.files, Complete),
       endedAt := if r.endedAt.None? then Some(now) else r.endedAt)
  }

  function SelectedTotal(files: seq<FileRow>): int {
    if files == [] then 0
    else SelectedTotal(files[..|files| - 1])
         + (var f := files[|files| - 1]; if f.selected then f.bytes else 0)
  }

  function CompletedBytes(f: FileRow): int {
    if RemoteStoredComplete(f) then f.bytes else f.downloaded
  }

  function SelectedCompleted(files: seq<FileRow>): int {
    if files == [] then 0
    else SelectedCompleted(files[..|files| - 1])
         + (var f := files[|files| - 1]; if f.selected then CompletedBytes(f) else 0)
  }

  function Percent(completed: int, total: int): int
    requires total > 0
  {
    TruncDiv(Wrap64(completed * 100), total)
  }

  function Snapshot(r: Record, total: int, completed: int, seeders: int, now: int): Record {
    var p := if total > 0 then r.(progress := Percent(completed, total)) else r;
    var q := if completed >= total && total > 0 then MarkedDownloaded(p, now)
             else if !r.status.MagnetConversion? && !r.status.WaitingFilesSelection?
             then p.(status := Downloading) else p;
    q.(seeders := seeders)
  }

  /** What the torrent client reports of one of its files. */
  datatype ClientFile = ClientFile(path: string, completed: int, prefix: int)

  /** filepath.Join of the files directory, the info hash and the client's path. */
  function DiskPath(infoHash: string, path: string): string { infoHash + "/" + path }

  function SyncFile(f: FileRow, infoHash: string, client: seq<ClientFile>): FileRow {
    var i := f.id - 1;
    if i < 0 || i >= |client| then f
    else if f.remote then
      f.(downloaded := f.bytes, streamable := f.bytes, diskPath := DiskPath(infoHash, client[i].path))
    else
      f.(downloaded := client[i].completed, streamable := client[i].prefix,
          diskPath := DiskPath(infoHash, client[i].path))
  }

  function Synced(r: Record, client: seq<ClientFile>, seeders: int, now: int): Record {
    var files := Map(r.files, (f: FileRow) => SyncFile(f, r.infoHash, client));
    Snapshot(r.(files := files), SelectedTotal(files), SelectedCompleted(files), seeders, now)
  }

  predicate AllSelectedRemote(files: seq<FileRow>) {
    && (exists f <- files :: f.selected)
    && (forall f <- files :: f.selected ==> RemoteStoredComplete(f))
  }

  function Arrived(f: FileRow): FileRow {
    if f.selected && RemoteStoredComplete(f) then f.(downloaded := f.bytes, streamable := f.bytes) else f
  }

  predicate Reconcilable(r: Record) {
    !r.status.Downloaded? && AllSelectedRemote(r.files)
  }

  function Reconciled(r: Record, now: int): Record
    requires Reconcilable(r)
  {
    MarkedDownloaded(r.(files := Map(r.files, Arrived)), now)
  }

  /** A files spec after splitting at commas: None for a piece that is not a number. */
  datatype Spec = Blank | All | Ids(pieces: seq<Option<int>>)

  function ParseSpec(spec: Spec, count: nat): Option<seq<int>> {
    match spec
    case Blank => None
    case All => Some(seq(count, i => i + 1))
    case Ids(pieces) =>
      if forall p <- pieces :: p.Some? && 1 <= p.value <= count
      then Some(seq(|pieces|, i requires 0 <= i < |pieces| => pieces[i].GetOr(0)))
      else None
  }

  function SelectFile(f: FileRow, ids: seq<int>): FileRow {
    if f.id in ids then f.(selected := true) else f.(selected := false, streamable := 0)
  }

  function Selected(r: Record, ids: seq<int>): Record {
    var files := Map(r.files, (f: FileRow) => SelectFile(f, ids));
    r.(files := files, bytes := SelectedTotal(files), status := Queued)
  }

  function Reset(f: FileRow): FileRow { f.(downloaded := 0, streamable := 0) }

  // ----- invariants of every record -------------------------------------------------------

  function TotalBytes(files: seq<FileRow>): int {
    if files == [] then 0 else TotalBytes(files[..|files| - 1]) + files[|files| - 1].bytes
  }

  /** Counts never exceed sizes, and a hundred times the total still fits an int64. */
  ghost predicate FilesOk(files: seq<FileRow>) {
    && (forall f <- files :: 0 <= f.downloaded <= f.bytes)
    && TotalBytes(files) * 100 <= MAX_INT64
  }

  /** What "downloaded" promises. */
  ghost predicate DownloadedOk(r: Record) {
    r.status.Downloaded? ==>
      && r.progress == 100 && r.endedAt.Some?
      && forall f <- r.files :: f.selected ==> f.streamable == f.bytes
  }

  ghost predicate Inv(r: Record) {
    FilesOk(r.files) && DownloadedOk(r) && 0 <= r.progress <= 100
  }

  ghost predicate ClientOk(files: seq<FileRow>, client: seq<ClientFile>) {
    forall f <- files :: 1 <= f.id <= |client| ==> 0 <= client[f.id - 1].completed <= f.bytes
  }

  datatype Step =
    | Select(spec: Spec)
    | Sync(client: seq<ClientFile>, seeders: int, now: int)
    | ListSync(seeders: int, now: int)        // List loads records without their files
    | InfoMissing                             // the client lost the torrent's metadata
    | Reconcile(now: int)
    | Fail(status: Status)
    | Retry
    | Metadata(files: seq<FileRow>)
    | Offloaded(id: int, key: string)

  ghost predicate Possible(r: Record, step: Step) {
    match step
    case Sync(client, _, _) => ClientOk(r.files, client)
    case Fail(status) => IsFailed(status)
    case Metadata(files) => FilesOk(files)
    case _ => true
  }

  function Apply(r: Record, step: Step): Record {
    match step
    case Select(spec) => (match ParseSpec(spec, |r.files|) case None => r case Some(ids) => Selected(r, ids))
    case Sync(client, seeders, now) => Synced(r, client, seeders, now)
    case ListSync(seeders, now) => Synced(r.(files := []), [], seeders, now).(files := r.files)
    case InfoMissing => if IsFailed(r.status) || r.status.Downloaded? then r else r.(status := MagnetConversion)
    case Reconcile(now) => if Reconcilable(r) then Reconciled(r, now) else r
    case Fail(status) => r.(status := status)
    case Retry =>
      if !IsFailed(r.status) then r
      else r.(status := Queued, progress := 0, endedAt := None, files := Map(r.files, Reset))
    case Metadata(files) => r.(status := WaitingFilesSelection, files := files)
    case Offloaded(id, key) =>
      r.(files := Map(r.files, (f: FileRow) => if f.id == id then f.(objectKey := key, remote := true) else f))
  }

  function Run(r: Record, steps: seq<Step>): Record
    decreases |steps|
  {
    if steps == [] then r else Run(Apply(r, steps[0]), steps[1..])
  }

  ghost predicate AllPossible(r: Record, steps: seq<Step>)
    decreases |steps|
  {
    steps == [] || (Possible(r, steps[0]) && AllPossible(Apply(r, steps[0]), steps[1..]))
  }

  lemma {:induction false} SameBytesSameTotal(a: seq<FileRow>, b: seq<FileRow>)
    requires |a| == |b| && forall i: nat | i < |a| :: a[i].bytes == b[i].bytes
    ensures TotalBytes(a) == TotalBytes(b)
  {
    if a != [] {
      SameBytesSameTotal(a[..|a| - 1], b[..|b| - 1]);
    }
  }

  lemma {:induction false} SelectedBounds(files: seq<FileRow>)
    requires forall f <- files :: 0 <= f.downloaded <= f.bytes
    ensures 0 <= SelectedCompleted(files) <= SelectedTotal(files) <= TotalBytes(files)
  {
    if files != [] {
      SelectedBounds(files[..|files| - 1]);
      assert files[|files| - 1] in files;
    }
  }

  lemma PercentBounds(completed: int, total: int)
    requires 0 <= completed <= total && 0 < total && total * 100 <= MAX_INT64
    ensures 0 <= Percent(completed, total) <= 100
    ensures Percent(completed, total) == 100 <==> completed == total
  {
    assert 0 <= completed * 100 <= total * 100;
    assert Percent(completed, total) == (completed * 100) / total;
    DivIs(0, total, 0);
    DivIs(total * 100, total, 100);
    DivMono(0, completed * 100, total);
    DivMono(completed * 100, total * 100, total);
    DivBounds(completed * 100, total);
  }

  lemma DivPlus(w: int, x: int, d: int)
    requires d > 0 && x >= w + d
    ensures x / d >= w / d + 1
  {
    DivBounds(w, d);
    DivIs(w + d, d, w / d + 1);
    DivMono(w + d, x, d);
  }

  /** The int64 product completed * 100 gives the percentage exactly when it does not wrap around. */
  lemma PercentExact(completed: int, total: int)
    requires 0 <= completed <= total && 0 < total <= MAX_INT64
    ensures Percent(completed, total) == (completed * 100) / total <==> completed * 100 <= MAX_INT64
  {
    var x := completed * 100;
    var w := Wrap64(x);
    if x > MAX_INT64 {
      if w >= 0 {
        DivPlus(w, x, total);
      } else {
        DivIs(total, total, 1);
        DivMono(total, x, total);
        DivIs(0, total, 0);
        DivMono(0, -w, total);
      }
    }
  }

  /** Steps write neither sizes nor order, and set counts to 0, to the size or to what the client has. */
  lemma FilesStayOk(files: seq<FileRow>, files': seq<FileRow>)
    requires FilesOk(files) && |files'| == |files|
    requires forall i: nat | i < |files| ::
      files'[i].bytes == files[i].bytes && (files[i].downloaded >= 0 ==> 0 <= files'[i].downloaded <= files[i].bytes)
    ensures FilesOk(files')
  {
    SameBytesSameTotal(files, files');
    forall i: nat | i < |files'| ensures 0 <= files'[i].downloaded <= files'[i].bytes {
      assert files[i] in files;
    }
  }

  lemma CountsOk(files: seq<FileRow>)
    requires FilesOk(files)
    ensures forall i: nat | i < |files| :: 0 <= files[i].downloaded <= files[i].bytes
  {
    forall i: nat | i < |files| ensures 0 <= files[i].downloaded <= files[i].bytes {
      assert files[i] in files;
    }
  }

  lemma SyncFilesOk(files: seq<FileRow>, infoHash: string, client: seq<ClientFile>)
    requires FilesOk(files) && ClientOk(files, client)
    ensures FilesOk(Map(files, (f: FileRow) => SyncFile(f, infoHash, client)))
  {
    var synced := Map(files, (f: FileRow) => SyncFile(f, infoHash, client));
    CountsOk(files);
    forall i: nat | i < |files| ensures 0 <= synced[i].downloaded <= files[i].bytes {
      assert files[i] in files;
    }
    FilesStayOk(files, synced);
  }

  lemma CompleteFilesOk(files: seq<FileRow>)
    requires FilesOk(files)
    ensures FilesOk(Map(files, Complete))
    ensures forall f <- Map(files, Complete) :: f.selected ==> f.streamable == f.bytes
  {
    CountsOk(files);
    FilesStayOk(files, Map(files, Complete));
  }

  /**
   * After a runtime sync of a selection that is not empty, progress is the percentage of its bytes that are there,
   * rounded down, and it is 100 exactly when the status is downloaded.
   */
  lemma SnapshotProgress(r: Record, seeders: int, now: int)
    requires FilesOk(r.files) && SelectedTotal(r.files) > 0
    ensures var s := Snapshot(r, SelectedTotal(r.files), SelectedCompleted(r.files), seeders, now);
      && s.progress == SelectedCompleted(r.files) * 100 / SelectedTotal(r.files)
      && 0 <= s.progress <= 100 && (s.progress == 100 <==> s.status.Downloaded?)
  {
    var total, completed := SelectedTotal(r.files), SelectedCompleted(r.files);
    SelectedBounds(r.files);
    PercentBounds(completed, total);
    PercentExact(completed, total);
    DivIs(total * 100, total, 100);
  }

  /**
   * A sync makes a record downloaded exactly when its selection is there and not empty. Otherwise it is downloading,
   * unless its metadata or selection is still awaited: then its status stays. The first end time stays.
   */
  lemma SnapshotExactly(r: Record, total: int, completed: int, seeders: int, now: int)
    ensures var s := Snapshot(r, total, completed, seeders, now);
      var done := completed >= total > 0;
      && (s.status == Downloaded <==> done)
      && (s.status == r.status <==>
            if done then r.status.Downloaded?
            else r.status.Downloading? || r.status.MagnetConversion? || r.status.WaitingFilesSelection?)
      && (!done && s.status != r.status ==> s.status == Downloading)
      && s.endedAt == (if done && r.endedAt.None? then Some(now) else r.endedAt)
      && s.seeders == seeders && (total <= 0 ==> s.progress == r.progress)
      && |s.files| == |r.files|
      && forall i: nat | i < |r.files| ::
           s.files[i] == if done && r.files[i].selected then r.files[i].(streamable := r.files[i].bytes) else r.files[i]
  {}

  lemma SnapshotInv(r: Record, seeders: int, now: int)
    requires FilesOk(r.files) && 0 <= r.progress <= 100
    ensures Inv(Snapshot(r, SelectedTotal(r.files), SelectedCompleted(r.files), seeders, now))
  {
    if SelectedTotal(r.files) > 0 { SnapshotProgress(r, seeders, now); }
    CompleteFilesOk(r.files);
  }

  lemma OffloadedKeepsStreamable(r: Record, id: int, key: string)
    requires DownloadedOk(r)
    ensures DownloadedOk(Apply(r, Offloaded(id, key)))
  {
    var files := Apply(r, Offloaded(id, key)).files;
    forall i: nat | i < |files| && r.status.Downloaded? && files[i].selected
        ensures files[i].streamable == files[i].bytes {
      assert r.files[i] in r.files;
    }
  }

  /** Every step of a record's life keeps the invariant. */
  lemma StepInv(r: Record, step: Step)
    requires Inv(r) && Possible(r, step)
    ensures Inv(Apply(r, step))
  {
    CountsOk(r.files);
    match step
    case Select(spec) =>
      if ParseSpec(spec, |r.files|).Some? { FilesStayOk(r.files, Apply(r, step).files); }
    case Sync(client, seeders, now) =>
      SyncFilesOk(r.files, r.infoHash, client);
      SnapshotInv(r.(files := Map(r.files, (f: FileRow) => SyncFile(f, r.infoHash, client))), seeders, now);
    case Reconcile(now) =>
      if Reconcilable(r) {
        FilesStayOk(r.files, Map(r.files, Arrived));
        CompleteFilesOk(Map(r.files, Arrived));
      }
    case Retry =>
      FilesStayOk(r.files, Map(r.files, Reset));
    case Offloaded(id, key) =>
      FilesStayOk(r.files, Apply(r, step).files);
      OffloadedKeepsStreamable(r, id, key);
    case _ =>
  }

  /**
   * In every reachable record, "downloaded" means progress 100, an end time, and every selected file
   * streamable to its last byte; progress is always a percentage.
   */
  lemma {:induction false} RunInv(r: Record, steps: seq<Step>)
    requires Inv(r) && AllPossible(r, steps)
    ensures Inv(Run(r, steps))
    decreases |steps|
  {
    if steps != [] {
      StepInv(r, steps[0]);
      RunInv(Apply(r, steps[0]), steps[1..]);
    }
  }

  /**
   * In every record that comes of a new one, "downloaded" means what it promises and progress is a percentage.
   */
  lemma EveryRecordKeepsPromise(r: Record, steps: seq<Step>)
    requires r == Record(r.id, r.infoHash, MagnetConversion, 0, 0, None, 0, []) && AllPossible(r, steps)
    ensures var s := Run(r, steps);
      && 0 <= s.progress <= 100
      && (s.status.Downloaded? ==>
            s.progress == 100 && s.endedAt.Some? && forall f <- s.files :: f.selected ==> f.streamable == f.bytes)
  {
    RunInv(r, steps);
  }

  /** The record passes through every step in turn. */
  lemma {:induction false} StepsFollow(r: Record, steps: seq<Step>, step: Step)
    ensures Run(r, []) == r && Run(r, steps + [step]) == Apply(Run(r, steps), step)
    decreases |steps|
  {
    if steps == [] {
      assert [step][1..] == [];
    } else {
      assert (steps + [step])[1..] == steps[1..] + [step];
      StepsFollow(Apply(r, steps[0]), steps[1..], step);
    }
  }

  // ----- exact conditions -----------------------------------------------------------------

  /** Without that bound, progress can even go negative: one file one byte short of complete. */
  lemma ProgressMayGoNegative()
    ensures Percent(92233720368547759, 92233720368547760) < 0
  {}

  /** "downloaded" is not absorbing: a sync keeps it exactly when the selection is complete by then. */
  lemma DownloadedSurvivesSync(r: Record, client: seq<ClientFile>, seeders: int, now: int)
    requires r.status.Downloaded?
    ensures var files := Map(r.files, (f: FileRow) => SyncFile(f, r.infoHash, client));
      Synced(r, client, seeders, now).status.Downloaded? <==> SelectedCompleted(files) >= SelectedTotal(files) > 0
  {}

  /** So List, which loads records without files, always puts a torrent the client still has back. */
  lemma ListPutsDownloadedBack(r: Record, seeders: int, now: int)
    requires r.status.Downloaded?
    ensures Apply(r, ListSync(seeders, now)) == r.(status := Downloading, seeders := seeders)
  {
    DownloadedSurvivesSync(r.(files := []), [], seeders, now);
  }

  lemma {:induction false} AllRemoteSums(files: seq<FileRow>)
    requires forall f <- files :: f.selected ==> RemoteStoredComplete(f)
    ensures SelectedCompleted(files) == SelectedTotal(files) >= 0
    ensures (exists f <- files :: f.selected) ==> SelectedTotal(files) > 0
  {
    if files != [] {
      var n := |files| - 1;
      AllRemoteSums(files[..n]);
      assert files[n] in files;
      if exists f <- files :: f.selected {
        var f :| f in files && f.selected;
        assert f == files[n] || f in files[..n];
      }
    }
  }

  lemma {:induction false} SyncKeepsSums(files: seq<FileRow>, infoHash: string, client: seq<ClientFile>)
    requires forall f <- files :: f.selected ==> RemoteStoredComplete(f)
    ensures var synced := Map(files, (f: FileRow) => SyncFile(f, infoHash, client));
      SelectedCompleted(synced) == SelectedTotal(synced) == SelectedTotal(files)
  {
    var g := (f: FileRow) => SyncFile(f, infoHash, client);
    if files != [] {
      var n := |files| - 1;
      SyncKeepsSums(files[..n], infoHash, client);
      assert Map(files, g)[..n] == Map(files[..n], g);
      assert files[n] in files;
    }
  }

  /**
   * A sync with the client: a file that it knows, by its number, gets the path below the info hash and the client's
   * counts, or its size if it is stored; other files stay. A record that is downloaded then streams what is selected.
   */
  lemma SyncExactly(r: Record, client: seq<ClientFile>, seeders: int, now: int, i: nat)
    requires i < |r.files|
    ensures var s, f := Apply(r, Sync(client, seeders, now)), r.files[i];
      && |s.files| == |r.files|
      && if 1 <= f.id <= |client| then
           var c := client[f.id - 1];
           s.files[i] == f.(
             downloaded := if f.remote then f.bytes else c.completed,
             streamable := if f.remote || (f.selected && s.status.Downloaded?) then f.bytes else c.prefix,
             diskPath := r.infoHash + "/" + c.path)
         else s.files[i] == f.(streamable := if f.selected && s.status.Downloaded? then f.bytes else f.streamable)
  {
    var files := Map(r.files, (f: FileRow) => SyncFile(f, r.infoHash, client));
    SnapshotExactly(r.(files := files), SelectedTotal(files), SelectedCompleted(files), seeders, now);
  }

  /** The sync of a list, which has no files, makes a record downloading unless it awaits metadata or a selection. */
  lemma ListSyncExactly(r: Record, seeders: int, now: int)
    ensures Apply(r, ListSync(seeders, now))
         == r.(seeders := seeders,
               status := if r.status.MagnetConversion? || r.status.WaitingFilesSelection? then r.status
                         else Downloading)
  {
    assert Map(r.(files := []).files, (f: FileRow) => SyncFile(f, r.infoHash, [])) == [];
    SnapshotExactly(r.(files := []), 0, 0, seeders, now);
  }

  /** A retry revives failed records only; it queues them and forgets what there was of their files. */
  lemma RetryExactly(r: Record)
    ensures var s := Apply(r, Retry);
      if r.status.Error? || r.status.MagnetError? || r.status.Dead? then
        && s == r.(status := Queued, progress := 0, endedAt := None, files := s.files)
        && |s.files| == |r.files|
        && forall i: nat | i < |r.files| :: s.files[i] == r.files[i].(downloaded := 0, streamable := 0)
      else s == r
  {}

  /** A record whose metadata the client lost waits for it again, unless it is downloaded or has failed. */
  lemma InfoMissingExactly(r: Record)
    ensures Apply(r, InfoMissing)
         == if r.status.Error? || r.status.MagnetError? || r.status.Dead? || r.status.Downloaded? then r
            else r.(status := MagnetConversion)
  {}

  /**
   * A record is completed from the object store exactly when it is not downloaded yet, some file is selected, and
   * every selected file is stored and not empty. Its selected files then count as whole.
   */
  lemma ReconcileExactly(r: Record, now: int)
    ensures var s := Apply(r, Reconcile(now));
      if !r.status.Downloaded? && (exists f <- r.files :: f.selected)
           && (forall f <- r.files :: f.selected ==> f.remote && f.bytes > 0) then
        && s == r.(status := Downloaded, progress := 100, files := s.files,
                   endedAt := if r.endedAt.Some? then r.endedAt else Some(now))
        && |s.files| == |r.files|
        && forall i: nat | i < |r.files| ::
             s.files[i] == if !r.files[i].selected then r.files[i]
                           else r.files[i].(downloaded := r.files[i].bytes, streamable := r.files[i].bytes)
      else s == r
  {
    if Reconcilable(r) {
      forall i: nat | i < |r.files| ensures r.files[i].selected ==> RemoteStoredComplete(r.files[i]) {
        assert r.files[i] in r.files;
      }
    }
  }

  /** A failure changes the status only; new metadata brings the files and waits for a selection of them. */
  lemma FailAndMetadataExactly(r: Record, status: Status, files: seq<FileRow>)
    ensures Apply(r, Fail(status)) == r.(status := status)
    ensures Apply(r, Metadata(files)) == r.(status := WaitingFilesSelection, files := files)
  {}

  /** Storing marks the files with the id and no others, and changes nothing else of the record. */
  lemma OffloadedExactly(r: Record, id: int, key: string)
    ensures var s := Apply(r, Offloaded(id, key));
      && s == r.(files := s.files) && |s.files| == |r.files|
      && forall i: nat | i < |r.files| ::
           s.files[i] == if r.files[i].id == id then r.files[i].(objectKey := key, remote := true) else r.files[i]
  {}

  /**
   * The shortcut for torrents whose selected files are all in the object store gives the same status,
   * progress and end time as a full runtime sync, and the same file counts for every selected file
   * that the client knows, or that already counts as fully downloaded - and for no other.
   */
  lemma ReconcileMatchesSync(r: Record, client: seq<ClientFile>, seeders: int, now: int, i: nat)
    requires Reconcilable(r) && i < |r.files| && r.files[i].selected
    ensures var a, b := Reconciled(r, now), Synced(r, client, seeders, now);
      && a.status == b.status == Downloaded && a.progress == b.progress == 100 && a.endedAt == b.endedAt
      && |a.files| == |b.files| == |r.files|
      && a.files[i].streamable == b.files[i].streamable == r.files[i].bytes
      && a.files[i].downloaded == r.files[i].bytes
      && (a.files[i].downloaded == b.files[i].downloaded <==>
            1 <= r.files[i].id <= |client| || r.files[i].downloaded == r.files[i].bytes)
  {
    assert r.files[i] in r.files;
    AllRemoteSums(r.files);
    SyncKeepsSums(r.files, r.infoHash, client);
  }

  predicate Names(spec: Spec, id: int) {
    spec.All? || (spec.Ids? && Some(id) in spec.pieces)
  }

  lemma ParsedIds(spec: Spec, count: nat, ids: seq<int>, id: int)
    requires ParseSpec(spec, count) == Some(ids) && 1 <= id <= count
    ensures id in ids <==> Names(spec, id)
  {
    if spec.All? {
      assert ids[id - 1] == id;
    } else {
      assert forall k: nat | k < |ids| :: spec.pieces[k] == Some(ids[k]);
    }
  }

  lemma {:induction false} AllSelectedTotal(files: seq<FileRow>, files': seq<FileRow>)
    requires |files| == |files'| && forall i: nat | i < |files| ::
        files'[i].selected && files'[i].bytes == files[i].bytes
    ensures SelectedTotal(files') == TotalBytes(files)
  {
    if files != [] {
      AllSelectedTotal(files[..|files| - 1], files'[..|files| - 1]);
    }
  }

  /**
   * A selection is refused exactly when it is blank or names a number that no file has; it is applied
   * to all files or to none, and "all" counts every byte.
   */
  lemma SelectionExactly(r: Record, spec: Spec)
    requires forall i: nat | i < |r.files| :: r.files[i].id == i + 1
    ensures var s := Apply(r, Select(spec));
      && (ParseSpec(spec, |r.files|).None? <==>
            spec.Blank? || (spec.Ids? && exists p <- spec.pieces :: p.None? || !(1 <= p.value <= |r.files|)))
      && (ParseSpec(spec, |r.files|).None? ==> s == r)
      && (ParseSpec(spec, |r.files|).Some? ==>
            && |s.files| == |r.files| && s.status == Queued && s.bytes == SelectedTotal(s.files)
            && (forall i: nat | i < |s.files| :: s.files[i].selected <==> Names(spec, r.files[i].id))
            && (forall f <- s.files :: !f.selected ==> f.streamable == 0))
      && (spec.All? ==> s.bytes == TotalBytes(r.files))
  {
    var parsed := ParseSpec(spec, |r.files|);
    if parsed.Some? {
      forall i: nat | i < |r.files| ensures r.files[i].id in parsed.value <==> Names(spec, r.files[i].id) {
        ParsedIds(spec, |r.files|, parsed.value, r.files[i].id);
      }
      if spec.All? {
        AllSelectedTotal(r.files, Selected(r, parsed.value).files);
      }
    }
  }

  /**
   * The record and its files are written in two statements, each of whose errors is ignored. When a
   * completed record is written over another, what is stored still keeps the promise of "downloaded"
   * exactly when the record's write failed, the files' write went through, or nothing was missing.
   */
  function Persisted(stored: Record, r: Record, filesOk: bool, recordOk: bool): Record {
    var s := if filesOk then stored.(files := r.files) else stored;
    if recordOk then r.(files := s.files) else s
  }

  lemma PersistKeepsPromise(stored: Record, r: Record, filesOk: bool, recordOk: bool)
    requires DownloadedOk(r) && r.status.Downloaded? && !stored.status.Downloaded?
    ensures DownloadedOk(Persisted(stored, r, filesOk, recordOk)) <==>
            !recordOk || filesOk || forall f <- stored.files :: f.selected ==> f.streamable == f.bytes
  {}

  /** The loss: the files' write fails, the record's does not, and a selected file has no bytes yet. */
  lemma PersistMayBreakPromise(stored: Record, r: Record)
    requires stored.files == [FileRow(1, "/a.mkv", 9, true, 0, 0, "", "", false)] && stored.status == Downloading
    requires r == MarkedDownloaded(stored, 5)
    ensures DownloadedOk(r) && !DownloadedOk(Persisted(stored, r, false, true))
  {
    PersistKeepsPromise(stored, r, false, true);
    assert stored.files[0] in stored.files;
  }

  /**
   * The writes of a tracker that has completed a record and of a selection, in the order in which they reach
   * the tables.
   */
  datatype Write = TrackerFiles | TrackerRecord | SelectorFiles | SelectorRecord

  /** Each writer writes its files first; otherwise the four writes come in any order. */
  predicate InAnyOrder(order: seq<Write>) {
    || order == [TrackerFiles, TrackerRecord, SelectorFiles, SelectorRecord]
    || order == [TrackerFiles, SelectorFiles, TrackerRecord, SelectorRecord]
    || order == [TrackerFiles, SelectorFiles, SelectorRecord, TrackerRecord]
    || order == [SelectorFiles, SelectorRecord, TrackerFiles, TrackerRecord]
    || order == [SelectorFiles, TrackerFiles, SelectorRecord, TrackerRecord]
    || order == [SelectorFiles, TrackerFiles, TrackerRecord, SelectorRecord]
  }

  /** One write: r is what the tracker has in hand, q what the selection has, read whenever they were. */
  function Written(stored: Record, r: Record, q: Record, w: Write): Record {
    match w
    case TrackerFiles => stored.(files := r.files)
    case TrackerRecord => r.(files := stored.files)
    case SelectorFiles => stored.(files := q.files)
    case SelectorRecord => q.(files := stored.files)
  }

  function AllWritten(stored: Record, r: Record, q: Record, order: seq<Write>): Record {
    if order == [] then stored
    else Written(AllWritten(stored, r, q, order[..|order| - 1]), r, q, order[|order| - 1])
  }

  predicate Before(order: seq<Write>, a: Write, b: Write) {
    exists i: nat, j: nat | i < j < |order| :: order[i] == a && order[j] == b
  }

  lemma FourWrites(stored: Record, r: Record, q: Record, a: Write, b: Write, c: Write, d: Write)
    ensures AllWritten(stored, r, q, [a, b, c, d])
         == Written(Written(Written(Written(stored, r, q, a), r, q, b), r, q, c), r, q, d)
  {
    var order := [a, b, c, d];
    assert order[..3] == [a, b, c] && order[..3][..2] == [a, b] && order[..3][..2][..1] == [a];
    assert AllWritten(stored, r, q, []) == stored;
    assert AllWritten(stored, r, q, [a]) == Written(stored, r, q, a);
    assert AllWritten(stored, r, q, [a, b]) == Written(Written(stored, r, q, a), r, q, b);
  }

  lemma BeforeInFour(order: seq<Write>, a: Write, b: Write)
    requires InAnyOrder(order) && a != b
    ensures Before(order, a, b) <==>
            (order[0] == a || (order[1] == a && order[0] != b) || (order[2] == a && order[3] == b))
  {
    if order[0] == a { assert order[1] == b || order[2] == b || order[3] == b; }
    if order[1] == a { assert order[0] == b || order[2] == b || order[3] == b; }
  }

  /** These are the orders of the four writes in which each writer's files come before its record. */
  lemma AnyOrderExactly(order: seq<Write>)
    ensures InAnyOrder(order) <==>
            && |order| == 4
            && Before(order, TrackerFiles, TrackerRecord) && Before(order, SelectorFiles, SelectorRecord)
  {
    if InAnyOrder(order) {
      BeforeInFour(order, TrackerFiles, TrackerRecord);
      BeforeInFour(order, SelectorFiles, SelectorRecord);
    } else if |order| == 4 {
      assert order == [order[0], order[1], order[2], order[3]];
    }
  }

  /**
   * In whatever order the four writes come, the files stored are the selection's exactly when they were
   * written last, and so is the status.
   */
  lemma LastWriterWins(stored: Record, r: Record, q: Record, order: seq<Write>)
    requires InAnyOrder(order)
    ensures var s := AllWritten(stored, r, q, order);
      && s.files == (if Before(order, TrackerFiles, SelectorFiles) then q.files else r.files)
      && s == (if Before(order, TrackerRecord, SelectorRecord) then q else r).(files := s.files)
  {
    FourWrites(stored, r, q, order[0], order[1], order[2], order[3]);
    assert order == [order[0], order[1], order[2], order[3]];
    BeforeInFour(order, TrackerFiles, SelectorFiles);
    BeforeInFour(order, TrackerRecord, SelectorRecord);
  }

  /** A selection is stored whole exactly when both its writes come after the tracker's. */
  lemma SelectionStoredExactly(stored: Record, r: Record, q: Record, order: seq<Write>)
    requires InAnyOrder(order) && r.status.Downloaded? && q.status == Queued && r.files != q.files
    ensures AllWritten(stored, r, q, order) == q
       <==> Before(order, TrackerFiles, SelectorFiles) && Before(order, TrackerRecord, SelectorRecord)
  {
    LastWriterWins(stored, r, q, order);
  }

  /**
   * What is stored keeps the promise of "downloaded" exactly when the tracker does not have the last word
   * on the status while the selection has it on the files - or all that is selected is there already.
   */
  lemma InterleavedKeepsPromise(stored: Record, r: Record, q: Record, order: seq<Write>)
    requires InAnyOrder(order) && DownloadedOk(r) && r.status.Downloaded? && q.status == Queued
    ensures DownloadedOk(AllWritten(stored, r, q, order))
       <==> Before(order, TrackerRecord, SelectorRecord) || Before(order, SelectorFiles, TrackerFiles)
            || forall f <- q.files :: f.selected ==> f.streamable == f.bytes
  {
    LastWriterWins(stored, r, q, order);
    BeforeInFour(order, TrackerFiles, SelectorFiles);
    BeforeInFour(order, SelectorFiles, TrackerFiles);
    BeforeInFour(order, TrackerRecord, SelectorRecord);
  }

  /** So a second file chosen between the tracker's writes is never fetched: the torrent is stored as downloaded. */
  lemma SelectionMayBeLost(stored: Record, r: Record)
    requires r.status == Downloaded && r.progress == 100 && r.endedAt.Some?
    requires r.files == [FileRow(1, "/a.mkv", 9, true, 9, 9, "", "", false),
        FileRow(2, "/b.mkv", 9, false, 0, 0, "", "", false)]
    ensures var q := Selected(r, [1, 2]);
      DownloadedOk(r) && !DownloadedOk(AllWritten(stored, r, q,
          [TrackerFiles, SelectorFiles, SelectorRecord, TrackerRecord]))
  {
    var q, order := Selected(r, [1, 2]), [TrackerFiles, SelectorFiles, SelectorRecord, TrackerRecord];
    InterleavedKeepsPromise(stored, r, q, order);
    BeforeInFour(order, TrackerRecord, SelectorRecord);
    BeforeInFour(order, SelectorFiles, TrackerFiles);
    assert q.files[1] in q.files && q.files[1].selected && q.files[1].streamable == 0;
  }

  // ----- what the API shows ---------------------------------------------------------------

  const VIDEO_EXTENSIONS :=
    [".mkv", ".mp4", ".avi", ".m4v", ".webm", ".mov", ".wmv", ".flv", ".ts", ".m2ts"]

  /** filepath.Ext, in lower case: from the last dot after the last slash. */
  function LowerExt(path: string): string {
    if path == "" || path[|path| - 1] == '/' then ""
    else
      var n := |path| - 1;
      if path[n] == '.' then "."
      else
        var before := LowerExt(path[..n]);
        if before == "" then "" else before + [LowerChar(path[n])]
  }

  predicate IsVideoPath(path: string) { LowerExt(path) in VIDEO_EXTENSIONS }

  /** The path ends with the extension, but for case. */
  predicate EndsWith(path: string, ext: string) {
    |ext| <= |path| && Lower(path[|path| - |ext|..]) == ext
  }

  lemma LastEqual(a: string, x: char, b: string, y: char)
    ensures a + [x] == b + [y] <==> a == b && x == y
  {
    if a + [x] == b + [y] {
      assert (a + [x])[..|a|] == a && (b + [y])[..|b|] == b && (a + [x])[|a|] == x && (b + [y])[|b|] == y;
    }
  }

  lemma EndOfExt(path: string, front: string, c: char)
    requires path != "" && front != "" && c != '.' && c != '/'
    ensures LowerExt(path) == front + [c]
       <==> LowerExt(path[..|path| - 1]) == front && LowerChar(path[|path| - 1]) == c
  {
    LastEqual(LowerExt(path[..|path| - 1]), LowerChar(path[|path| - 1]), front, c);
  }

  lemma EndOfPath(path: string, front: string, c: char)
    requires path != ""
    ensures EndsWith(path, front + [c]) <==> EndsWith(path[..|path| - 1], front) && LowerChar(path[|path| - 1]) == c
  {
    var n := |path| - 1;
    if |front| <= n {
      var at := n - |front|;
      assert Lower(path[at..]) == Lower(path[..n][at..]) + [LowerChar(path[n])];
      LastEqual(Lower(path[..n][at..]), LowerChar(path[n]), front, c);
    }
  }

  lemma {:induction false} ExtIsEnd(path: string, rest: string)
    requires '.' !in rest && '/' !in rest
    ensures LowerExt(path) == ['.'] + rest <==> EndsWith(path, ['.'] + rest)
  {
    var n, k := |path| - 1, |rest| - 1;
    if path != "" && rest != "" {
      ExtIsEnd(path[..n], rest[..k]);
      var ext, front := ['.'] + rest, ['.'] + rest[..k];
      assert ext == front + [rest[k]] && rest[k] in rest;
      EndOfExt(path, front, rest[k]);
      EndOfPath(path, front, rest[k]);
    }
  }

  /** A path is a video's exactly when it ends with one of the extensions, in whatever case. */
  lemma IsVideoPathExactly(path: string)
    ensures IsVideoPath(path) <==> exists ext <- VIDEO_EXTENSIONS :: EndsWith(path, ext)
  {
    forall i: nat | i < |VIDEO_EXTENSIONS|
      ensures LowerExt(path) == VIDEO_EXTENSIONS[i] <==> EndsWith(path, VIDEO_EXTENSIONS[i])
    {
      var ext := VIDEO_EXTENSIONS[i];
      assert ext == ['.'] + ext[1..];
      ExtIsEnd(path, ext[1..]);
    }
  }

  predicate FileStreamable(min: int, f: FileRow) {
    min > 0 && f.selected && IsVideoPath(f.path) && f.streamable >= min
  }

  predicate Streamable(min: int, r: Record) {
    min > 0 && exists f <- r.files :: FileStreamable(min, f)
  }

  predicate FileLinksVisible(min: int, r: Record, f: FileRow) {
    f.selected && !IsFailed(r.status) && (r.status.Downloaded? || FileStreamable(min, f))
  }

  predicate LinksVisible(min: int, r: Record) {
    !IsFailed(r.status) && (r.status.Downloaded? || exists f <- r.files :: FileLinksVisible(min, r, f))
  }

  datatype View = View(completed: bool, failed: bool, streamable: bool, linksVisible: bool)

  function ViewOf(min: int, r: Option<Record>): View {
    match r
    case None => View(false, false, false, false)
    case Some(rec) => View(rec.status.Downloaded?, IsFailed(rec.status), Streamable(min, rec), LinksVisible(min, rec))
  }

  /** A link shows exactly for a selected file of a torrent that is downloaded, or streams it and has not failed. */
  lemma FileLinksVisibleExactly(min: int, r: Record, f: FileRow)
    ensures FileLinksVisible(min, r, f)
       <==> f.selected
            && (|| r.status.Downloaded?
                || (!r.status.Error? && !r.status.MagnetError? && !r.status.Dead?
                    && f.streamable >= min > 0 && IsVideoPath(f.path)))
  {}

  /**
   * Links show exactly for completed torrents and for streamable ones that have not failed: those with a selected
   * video of which the first bytes are there, as many as the setting asks for.
   */
  lemma LinksVisibleExactly(min: int, r: Option<Record>)
    ensures var v := ViewOf(min, r);
      && (v.completed <==> r.Some? && r.value.status.Downloaded?)
      && (v.failed <==> r.Some? && (r.value.status.Error? || r.value.status.MagnetError? || r.value.status.Dead?))
      && (v.streamable <==>
            r.Some? && exists f <- r.value.files :: f.selected && f.streamable >= min > 0 && IsVideoPath(f.path))
      && (v.linksVisible <==> v.completed || (v.streamable && !v.failed))
  {
    if r.Some? && LinksVisible(min, r.value) && !r.value.status.Downloaded? {
      var f :| f in r.value.files && FileLinksVisible(min, r.value, f);
      assert FileStreamable(min, f);
    }
    if r.Some? && Streamable(min, r.value) && !IsFailed(r.value.status) {
      var f :| f in r.value.files && FileStreamable(min, f);
      assert FileLinksVisible(min, r.value, f);
    }
  }

  // ----- the record, updated in place -----------------------------------------------------

  class Torrent {
    const id: string
    const infoHash: string
    var status: Status
    var progress: int
    var bytes: int
    var endedAt: Option<int>
    var seeders: int
    var files: seq<FileRow>

    function State(): Record
      reads this
    {
      Record(id, infoHash, status, progress, bytes, endedAt, seeders, files)
    }

    constructor (r: Record)
      ensures State() == r
    {
      id, infoHash, status, progress := r.id, r.infoHash, r.status, r.progress;
      bytes, endedAt, seeders, files := r.bytes, r.endedAt, r.seeders, r.files;
    }

    method MarkDownloaded(now: int)
      modifies this
      ensures State() == MarkedDownloaded(old(State()), now)
    {
      status := Downloaded;
      progress := 100;
      for i := 0 to |files|
        invariant State() == old(State()).(status := Downloaded, progress := 100, files := files)
        invariant |files| == |old(files)|
        invariant forall j: nat | j < |files| :: files[j] == if j < i then Complete(old(files)[j]) else old(files)[j]
      {
        if files[i].selected {
          files := files[i := files[i].(streamable := files[i].bytes)];
        }
      }
      assert files == Map(old(files), Complete);
      if endedAt.None? {
        endedAt := Some(now);
      }
    }

    method ApplyRuntimeSnapshot(total: int, completed: int, peers: int, now: int)
      modifies this
      ensures State() == Snapshot(old(State()), total, completed, peers, now)
    {
      if total > 0 {
        progress := Percent(completed, total);
      }
      if completed >= total && total > 0 {
        MarkDownloaded(now);
      } else if !status.MagnetConversion? && !status.WaitingFilesSelection? {
        status := Downloading;
      }
      seeders := peers;
    }

    method ComputeTotals() returns (total: int, completed: int)
      ensures total == SelectedTotal(files) && completed == SelectedCompleted(files)
    {
      total, completed := 0, 0;
      for i := 0 to |files|
        invariant total == SelectedTotal(files[..i]) && completed == SelectedCompleted(files[..i])
      {
        assert files[..i + 1][..i] == files[..i];
        if files[i].selected {
          total := total + files[i].bytes;
          if RemoteStoredComplete(files[i]) {
            completed := completed + files[i].bytes;
          } else {
            completed := completed + files[i].downloaded;
          }
        }
      }
      assert files[..|files|] == files;
    }

    method SyncRuntimeState(client: seq<ClientFile>, peers: int, now: int)
      modifies this
      ensures State() == Synced(old(State()), client, peers, now)
    {
      for i := 0 to |files|
        invariant State() == old(State()).(files := files)
        invariant |files| == |old(files)|
        invariant forall j: nat | j < |files| ::
          files[j] == if j < i then SyncFile(old(files)[j], infoHash, client) else old(files)[j]
      {
        var f := files[i];
        var index := f.id - 1;
        if index < 0 || index >= |client| {
          continue;
        }
        var path := DiskPath(infoHash, client[index].path);
        if f.remote {
          files := files[i := f.(downloaded := f.bytes, streamable := f.bytes, diskPath := path)];
          continue;
        }
        files := files[i := f.(downloaded := client[index].completed, streamable := client[index].prefix,
            diskPath := path)];
      }
      assert files == Map(old(files), (f: FileRow) => SyncFile(f, infoHash, client));
      var total, completed := ComputeTotals();
      if total > 0 {
        progress := Percent(completed, total);
      }
      ApplyRuntimeSnapshot(total, completed, peers, now);
    }

    method ReconcileRemoteStoredComplete(now: int) returns (done: bool)
      modifies this
      ensures done == Reconcilable(old(State()))
      ensures State() == if done then Reconciled(old(State()), now) else old(State())
    {
      if !Reconcilable(State()) {
        return false;
      }
      for i := 0 to |files|
        invariant State() == old(State()).(files := files)
        invariant |files| == |old(files)|
        invariant forall j: nat | j < |files| :: files[j] == if j < i then Arrived(old(files)[j]) else old(files)[j]
      {
        if files[i].selected && RemoteStoredComplete(files[i]) {
          files := files[i := files[i].(downloaded := files[i].bytes, streamable := files[i].bytes)];
        }
      }
      assert files == Map(old(files), Arrived);
      MarkDownloaded(now);
      return true;
    }

    /** The loop: it selects the files with these ids, and no others, and adds up their sizes. */
    method SelectIds(ids: seq<int>) returns (total: int)
      modifies this
      ensures State() == old(State()).(files := Map(old(files), (f: FileRow) => SelectFile(f, ids)))
      ensures total == SelectedTotal(files)
    {
      total := 0;
      for i := 0 to |files|
        invariant State() == old(State()).(files := files)
        invariant |files| == |old(files)|
        invariant forall j: nat | j < |files| ::
          files[j] == if j < i then SelectFile(old(files)[j], ids) else old(files)[j]
        invariant total == SelectedTotal(files[..i])
      {
        var f := files[i].(selected := files[i].id in ids);
        if f.selected {
          total := total + f.bytes;
        } else {
          f := f.(streamable := 0);
        }
        files := files[i := f];
        assert files[..i + 1][..i] == files[..i];
      }
      assert files[..|files|] == files;
      assert files == Map(old(files), (f: FileRow) => SelectFile(f, ids));
    }

    /** The spec is checked before anything is written; a refused spec leaves the record alone. */
    method ApplySelection(spec: Spec) returns (ok: bool)
      modifies this
      ensures ok == ParseSpec(spec, |old(files)|).Some?
      ensures State() == Apply(old(State()), Select(spec))
    {
      var parsed := ParseSpec(spec, |files|);
      if parsed.None? {
        return false;
      }
      bytes := SelectIds(parsed.value);
      status := Queued;
      return true;
    }
  }
}
