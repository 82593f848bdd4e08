/**
 * The byte quota of the object store: what counts against it, and which steps keep it
 * (internal/torrent/offload.go, manager.go, internal/storage/torrents.go).
 */
module ObjectQuota {
  import opened Strings
  import opened Sequences
  import opened Records
  import opened Offload
  import Lifecycle

  // ----- stored bytes ----------------------------------------------------------------------

  function StoredBytes(r: Row): int {
    if r.file.remote then r.file.bytes else 0
  }

  /** SUM(bytes) over the rows with remote_stored = 1. */
  function Usage(rows: seq<Row>): int {
    Total(rows, StoredBytes)
  }

  ghost predicate BytesOk(rows: seq<Row>) {
    forall r <- rows :: r.file.bytes >= 0
  }

  /** The record agrees with its rows on size and on being stored. */
  ghost predicate AgreesOnMarks(rows: seq<Row>, torrent: string, files: seq<FileRow>) {
    forall k: nat, i: nat | k < |rows| && i < |files| && Matches(rows[k], torrent, files[i]) ::
      rows[k].file.remote == files[i].remote && rows[k].file.bytes == files[i].bytes
  }

  /** Writing a record that agrees leaves every mark as it was. */
  lemma WriteKeepsMarks(rows: seq<Row>, torrent: string, files: seq<FileRow>, k: nat)
    requires DistinctIds(files) && AgreesOnMarks(rows, torrent, files) && k < |rows|
    ensures var r := UpdateRows(rows, torrent, files)[k];
            && r.torrent == rows[k].torrent && r.file.id == rows[k].file.id
            && r.file.bytes == rows[k].file.bytes && r.file.remote == rows[k].file.remote
  {
    if i: nat :| i < |files| && Matches(rows[k], torrent, files[i]) {
      MatchedRow(rows, torrent, files, k, i);
    } else {
      UnmatchedRow(rows, torrent, files, k);
    }
  }

  lemma WriteKeepsUsage(rows: seq<Row>, torrent: string, files: seq<FileRow>)
    requires DistinctIds(files) && AgreesOnMarks(rows, torrent, files)
    ensures Usage(UpdateRows(rows, torrent, files)) == Usage(rows)
  {
    var rows' := UpdateRows(rows, torrent, files);
    forall k: nat | k < |rows| ensures StoredBytes(rows'[k]) == StoredBytes(rows[k]) {
      WriteKeepsMarks(rows, torrent, files, k);
    }
    TotalSame(rows', StoredBytes, rows, StoredBytes);
  }

  /** A commit marks the rows of file i and no other. */
  lemma CommitMarks(rows: seq<Row>, torrent: string, files: seq<FileRow>, i: nat, f: FileRow, k: nat)
    requires DistinctIds(files) && AgreesOnMarks(rows, torrent, files) && k < |rows|
    requires i < |files| && f.id == files[i].id && f.bytes == files[i].bytes && f.remote
    ensures var r := UpdateRows(rows, torrent, Replace(files, f))[k];
            && r.torrent == rows[k].torrent && r.file.id == rows[k].file.id && r.file.bytes == rows[k].file.bytes
            && r.file.remote == (rows[k].file.remote || Matches(rows[k], torrent, files[i]))
  {
    ReplaceIs(files, i, f);
    var next := files[i := f];
    if j: nat :| j < |files| && Matches(rows[k], torrent, files[j]) {
      MatchedRow(rows, torrent, next, k, j);
    } else {
      UnmatchedRow(rows, torrent, next, k);
    }
  }

  /** A row after the commit that stores f. */
  predicate Marked(r: Row, r': Row, torrent: string, f: FileRow) {
    && r'.torrent == r.torrent && r'.file.id == r.file.id && r'.file.bytes == r.file.bytes
    && (Matches(r, torrent, f) ==> r.file.bytes == f.bytes)
    && r'.file.remote == (r.file.remote || Matches(r, torrent, f))
  }

  ghost predicate AllMarked(rows: seq<Row>, rows': seq<Row>, torrent: string, f: FileRow) {
    |rows'| == |rows| && forall k: nat | k < |rows| :: Marked(rows[k], rows'[k], torrent, f)
  }

  lemma CommitMarksAll(rows: seq<Row>, torrent: string, files: seq<FileRow>, i: nat, f: FileRow)
    requires DistinctIds(files) && AgreesOnMarks(rows, torrent, files)
    requires i < |files| && f.id == files[i].id && f.bytes == files[i].bytes && f.remote
    ensures AllMarked(rows, UpdateRows(rows, torrent, Replace(files, f)), torrent, files[i])
  {
    forall k: nat | k < |rows|
      ensures Marked(rows[k], UpdateRows(rows, torrent, Replace(files, f))[k], torrent, files[i])
    {
      CommitMarks(rows, torrent, files, i, f, k);
    }
  }

  lemma {:induction false} OneMoreRow(rows: seq<Row>, rows': seq<Row>, torrent: string, f: FileRow)
    requires DistinctRows(rows) && f.bytes >= 0 && AllMarked(rows, rows', torrent, f)
    ensures Usage(rows') <= Usage(rows) + f.bytes
    ensures (forall r <- rows :: !Matches(r, torrent, f)) ==> Usage(rows') == Usage(rows)
    ensures (exists r <- rows :: Matches(r, torrent, f) && !r.file.remote) ==> Usage(rows') == Usage(rows) + f.bytes
  {
    if rows != [] {
      var n := |rows| - 1;
      OneMoreRow(rows[..n], rows'[..n], torrent, f);
      assert forall r <- rows :: r in rows[..n] || r == rows[n];
      if Matches(rows[n], torrent, f) {
        assert forall r <- rows[..n] :: !Matches(r, torrent, f);
      }
    }
  }

  /** What the loop knows: its record agrees with the rows, and it has counted at least what is stored. */
  ghost predicate Counted(job: Job, st: State) {
    && DistinctIds(st.files) && DistinctRows(st.world.rows)
    && AgreesOnMarks(st.world.rows, job.torrent, st.files)
    && st.used >= Usage(st.world.rows)
  }

  lemma CommitIsCounted(job: Job, st: State, i: nat, rows': seq<Row>)
    requires Counted(job, st) && i < |st.files| && AllMarked(st.world.rows, rows', job.torrent, st.files[i])
    ensures DistinctRows(rows')
    ensures AgreesOnMarks(rows', job.torrent, st.files[i := Moved(job, st.files[i])])
  {
    var rows := st.world.rows;
    forall k: nat, l: nat | k < l < |rows'|
      ensures rows'[k].torrent != rows'[l].torrent || rows'[k].file.id != rows'[l].file.id
    {
      assert Marked(rows[k], rows'[k], job.torrent, st.files[i]);
      assert Marked(rows[l], rows'[l], job.torrent, st.files[i]);
    }
    forall k: nat | k < |rows'| ensures Marked(rows[k], rows'[k], job.torrent, st.files[i]) {}
  }

  /** The bytes stored have not changed, or stay in the quota. */
  predicate Within(quota: int, before: int, after: int) {
    after == before || after <= quota
  }

  lemma StepIsCounted(job: Job, st: State, i: nat, o: Outcome, s: State)
    requires Counted(job, st) && i < |st.files| && job.quota > 0 && s == Stepped(job, st, i, o)
    ensures Counted(job, s) && Within(job.quota, Usage(st.world.rows), Usage(s.world.rows))
  {
    if Commits(job, st, i, o) {
      var f := st.files[i];
      ReplaceIs(st.files, i, Moved(job, f));
      CommitMarksAll(st.world.rows, job.torrent, st.files, i, Moved(job, f));
      CommitIsCounted(job, st, i, s.world.rows);
      OneMoreRow(st.world.rows, s.world.rows, job.torrent, f);
    }
  }

  lemma RunIsCounted(job: Job, st: State, outcomes: seq<Outcome>, n: nat)
    requires Counted(job, st) && n <= |st.files| <= |outcomes| && job.quota > 0
    ensures Counted(job, Run(job, st, outcomes, n))
    ensures Within(job.quota, Usage(st.world.rows), Usage(Run(job, st, outcomes, n).world.rows))
  {
    var inv := (i: nat, s: State) => Counted(job, s) && Within(job.quota, Usage(st.world.rows), Usage(s.world.rows));
    forall i: nat, s: State | i < n && |s.files| == |st.files| && inv(i, s)
      ensures inv(i + 1, Stepped(job, s, i, outcomes[i]))
    {
      StepIsCounted(job, s, i, outcomes[i], Stepped(job, s, i, outcomes[i]));
    }
    RunInduction(job, st, outcomes, n, inv);
  }

  ghost predicate HasRow(rows: seq<Row>, torrent: string, f: FileRow) {
    exists k: nat :: k < |rows| && Matches(rows[k], torrent, f)
  }

  /** The record is of rows that are there, and what is stored has been counted exactly. */
  ghost predicate CountedExactly(job: Job, st: State) {
    && Counted(job, st) && st.used == Usage(st.world.rows)
    && forall f <- st.files :: HasRow(st.world.rows, job.torrent, f)
  }

  lemma RowsStay(rows: seq<Row>, rows': seq<Row>, job: Job, files: seq<FileRow>, i: nat)
    requires i < |files| && AllMarked(rows, rows', job.torrent, files[i])
    requires forall f <- files :: HasRow(rows, job.torrent, f)
    ensures forall f <- files[i := Moved(job, files[i])] :: HasRow(rows', job.torrent, f)
  {
    forall f | f in files[i := Moved(job, files[i])] ensures HasRow(rows', job.torrent, f) {
      var g := if f in files then f else files[i];
      assert g in files && g.id == f.id;
      var k: nat :| k < |rows| && Matches(rows[k], job.torrent, g);
      assert Marked(rows[k], rows'[k], job.torrent, files[i]);
      assert Matches(rows'[k], job.torrent, f);
    }
  }

  lemma CommitCountsExactly(job: Job, st: State, i: nat, rows': seq<Row>)
    requires CountedExactly(job, st) && i < |st.files| && !st.files[i].remote && st.files[i].bytes >= 0
    requires AllMarked(st.world.rows, rows', job.torrent, st.files[i])
    ensures Usage(rows') == Usage(st.world.rows) + st.files[i].bytes
    ensures forall f <- st.files[i := Moved(job, st.files[i])] :: HasRow(rows', job.torrent, f)
  {
    var f, rows := st.files[i], st.world.rows;
    assert f in st.files;
    var k: nat :| k < |rows| && Matches(rows[k], job.torrent, f);
    assert rows[k] in rows;
    OneMoreRow(rows, rows', job.torrent, f);
    RowsStay(rows, rows', job, st.files, i);
  }

  lemma StepCountsExactly(job: Job, st: State, i: nat, o: Outcome, s: State)
    requires CountedExactly(job, st) && i < |st.files| && s == Stepped(job, st, i, o)
    ensures CountedExactly(job, s)
    ensures forall j: nat | j < |st.files| && j != i :: s.files[j] == st.files[j]
  {
    if Commits(job, st, i, o) {
      var f, rows := st.files[i], st.world.rows;
      ReplaceIs(st.files, i, Moved(job, f));
      assert s.files == st.files[i := Moved(job, f)];
      CommitMarksAll(rows, job.torrent, st.files, i, Moved(job, f));
      CommitIsCounted(job, st, i, s.world.rows);
      CommitCountsExactly(job, st, i, s.world.rows);
    }
  }

  lemma RunCountsExactly(job: Job, st: State, outcomes: seq<Outcome>, n: nat)
    requires CountedExactly(job, st) && n <= |st.files| <= |outcomes|
    ensures CountedExactly(job, Run(job, st, outcomes, n))
    ensures forall i: nat | n <= i < |st.files| :: Run(job, st, outcomes, n).files[i] == st.files[i]
  {
    var inv := (i: nat, s: State) => 
      && CountedExactly(job, s) && |s.files| == |st.files|
      && forall j: nat | i <= j < |st.files| :: s.files[j] == st.files[j];
    forall i: nat, s: State | i < n && |s.files| == |st.files| && inv(i, s)
      ensures inv(i + 1, Stepped(job, s, i, outcomes[i]))
    {
      StepCountsExactly(job, s, i, outcomes[i], Stepped(job, s, i, outcomes[i]));
    }
    RunInduction(job, st, outcomes, n, inv);
  }

  /**
   * In a run whose calls succeed, a complete file that was on the disk at its turn stays out of the store
   * exactly when what is really stored then leaves no room for it.
   */
  lemma SkippedExactlyWhenFull(job: Job, st: State, outcomes: seq<Outcome>, i: nat)
    requires CountedExactly(job, st) && i < |st.files| <= |outcomes| && job.quota > 0
    requires outcomes[i] == SUCCEEDS && st.files[i].diskPath != ""
    requires st.files[i].selected && !st.files[i].remote && 0 < st.files[i].bytes <= st.files[i].downloaded
    requires st.files[i].diskPath in Run(job, st, outcomes, i).world.disk
    ensures !Run(job, st, outcomes, i + 1).files[i].remote
       <==> Usage(Run(job, st, outcomes, i).world.rows) + st.files[i].bytes > job.quota
  {
    RunCountsExactly(job, st, outcomes, i);
    var s := Run(job, st, outcomes, i);
    if Commits(job, s, i, SUCCEEDS) {
      ReplaceIs(s.files, i, Moved(job, s.files[i]));
    }
  }

  // ----- the bound over whole runs ---------------------------------------------------------

  /**
   * What happens to the rows: offload runs, each atomic under the lock, deletions, new rows, and
   * other writes of records. Disk and store are whatever they are when an offload starts.
   */
  datatype Event =
    | OffloadRun(job: Job, files: seq<FileRow>, disk: map<string, Content>, objects: map<string, Content>,
                 outcomes: seq<Outcome>, done: nat)
    | Write(torrent: string, files: seq<FileRow>)
    | Delete(torrent: string)
    | Insert(row: Row)

  ghost predicate Possible(quota: int, rows: seq<Row>, e: Event) {
    match e
    case OffloadRun(job, files, _, _, outcomes, done) =>
      && job.quota == quota && done <= |files| <= |outcomes|
      && DistinctIds(files) && AgreesOnMarks(rows, job.torrent, files)
    case Write(torrent, files) => DistinctIds(files) && AgreesOnMarks(rows, torrent, files)
    case Delete(_) => true
    case Insert(row) =>
      && !row.file.remote && row.file.bytes >= 0
      && forall r <- rows :: r.torrent != row.torrent || r.file.id != row.file.id
  }

  function After(rows: seq<Row>, e: Event): seq<Row> {
    match e
    case OffloadRun(job, files, disk, objects, outcomes, done) =>
      if done <= |files| <= |outcomes| then
        Run(job, State(World(disk, objects, rows), files, Usage(rows)), outcomes, done).world.rows
      else rows
    case Write(torrent, files) => UpdateRows(rows, torrent, files)
    case Delete(torrent) => Keep(rows, (r: Row) => r.torrent != torrent)
    case Insert(row) => rows + [row]
  }

  ghost predicate TableOk(rows: seq<Row>) {
    DistinctRows(rows) && BytesOk(rows)
  }

  lemma {:induction false} UpdateKeepsKey(rows: seq<Row>, torrent: string, files: seq<FileRow>, k: nat)
    requires k < |rows|
    ensures var r := UpdateRows(rows, torrent, files)[k];
            r.torrent == rows[k].torrent && r.file.id == rows[k].file.id && r.file.bytes == rows[k].file.bytes
  {
    if files != [] {
      UpdateKeepsKey(rows, torrent, files[..|files| - 1], k);
    }
  }

  lemma WriteKeepsTable(rows: seq<Row>, torrent: string, files: seq<FileRow>)
    requires TableOk(rows)
    ensures TableOk(UpdateRows(rows, torrent, files))
  {
    var rows' := UpdateRows(rows, torrent, files);
    forall k: nat | k < |rows|
      ensures rows'[k].torrent == rows[k].torrent && rows'[k].file.id == rows[k].file.id
      ensures rows'[k].file.bytes == rows[k].file.bytes
    {
      UpdateKeepsKey(rows, torrent, files, k);
    }
    forall r | r in rows' ensures r.file.bytes >= 0 {
      var k: nat :| k < |rows'| && rows'[k] == r;
      assert rows[k] in rows;
    }
  }

  lemma {:induction false} OffloadKeepsTable(job: Job, st: State, outcomes: seq<Outcome>, n: nat)
    requires TableOk(st.world.rows) && n <= |st.files| <= |outcomes|
    ensures TableOk(Run(job, st, outcomes, n).world.rows)
  {
    if n > 0 {
      OffloadKeepsTable(job, st, outcomes, n - 1);
      var s := Run(job, st, outcomes, n - 1);
      WriteKeepsTable(s.world.rows, job.torrent, Replace(s.files, Moved(job, s.files[n - 1])));
    }
  }

  lemma {:induction false} KeepDistinctRows(rows: seq<Row>, keep: Row -> bool)
    requires DistinctRows(rows)
    ensures DistinctRows(Keep(rows, keep))
  {
    if rows != [] {
      var n := |rows| - 1;
      KeepDistinctRows(rows[..n], keep);
      KeepFacts(rows[..n], keep);
      forall r | r in Keep(rows[..n], keep) ensures r.torrent != rows[n].torrent || r.file.id != rows[n].file.id {
        var k: nat :| k < n && rows[k] == r;
      }
    }
  }

  lemma {:induction false} KeptUsage(rows: seq<Row>, keep: Row -> bool)
    requires BytesOk(rows)
    ensures Usage(Keep(rows, keep)) <= Usage(rows)
  {
    if rows != [] {
      var n := |rows| - 1;
      assert rows[n] in rows && forall r <- rows[..n] :: r in rows;
      KeptUsage(rows[..n], keep);
      if keep(rows[n]) {
        TotalAppend(Keep(rows[..n], keep), rows[n], StoredBytes);
      } else {
        assert Keep(rows, keep) == Keep(rows[..n], keep);
      }
    }
  }

  lemma DeleteKeepsTable(rows: seq<Row>, keep: Row -> bool)
    requires TableOk(rows)
    ensures TableOk(Keep(rows, keep)) && Usage(Keep(rows, keep)) <= Usage(rows)
  {
    KeepFacts(rows, keep);
    KeepDistinctRows(rows, keep);
    KeptUsage(rows, keep);
  }

  lemma EventKeepsQuota(quota: int, rows: seq<Row>, e: Event)
    requires quota > 0 && TableOk(rows) && Possible(quota, rows, e)
    ensures TableOk(After(rows, e))
    ensures Usage(After(rows, e)) <= Usage(rows) || Usage(After(rows, e)) <= quota
  {
    match e
    case OffloadRun(job, files, disk, objects, outcomes, done) =>
      var st := State(World(disk, objects, rows), files, Usage(rows));
      OffloadKeepsTable(job, st, outcomes, done);
      RunIsCounted(job, st, outcomes, done);
    case Write(torrent, files) =>
      WriteKeepsTable(rows, torrent, files);
      WriteKeepsUsage(rows, torrent, files);
    case Delete(torrent) =>
      DeleteKeepsTable(rows, (r: Row) => r.torrent != torrent);
    case Insert(row) =>
      TotalAppend(rows, row, StoredBytes);
  }

  function Final(rows: seq<Row>, events: seq<Event>): seq<Row> {
    if events == [] then rows else After(Final(rows, events[..|events| - 1]), events[|events| - 1])
  }

  ghost predicate AllPossible(quota: int, rows: seq<Row>, events: seq<Event>) {
    forall n: nat | n < |events| :: Possible(quota, Final(rows, events[..n]), events[n])
  }

  lemma PrefixPossible(quota: int, rows: seq<Row>, events: seq<Event>, n: nat)
    requires AllPossible(quota, rows, events) && n <= |events|
    ensures AllPossible(quota, rows, events[..n])
  {
    forall m: nat | m < n ensures Possible(quota, Final(rows, events[..n][..m]), events[..n][m]) {
      assert events[..n][..m] == events[..m];
    }
  }

  /** What each event makes of the rows. */
  lemma EventsMean(rows: seq<Row>, e: Event)
    ensures e.OffloadRun? && e.done <= |e.files| <= |e.outcomes| ==>
              var start := State(World(e.disk, e.objects, rows), e.files, Usage(rows));
              After(rows, e) == Run(e.job, start, e.outcomes, e.done).world.rows
    ensures e.Write? ==> After(rows, e) == UpdateRows(rows, e.torrent, e.files)
    ensures e.Delete? ==> forall r :: r in After(rows, e) <==> r in rows && r.torrent != e.torrent
    ensures e.Insert? ==> After(rows, e) == rows + [e.row]
  {
    if e.Delete? {
      KeepFacts(rows, (r: Row) => r.torrent != e.torrent);
    }
  }

  /** The rows pass through every event in turn. */
  lemma EventsFollow(rows: seq<Row>, events: seq<Event>, e: Event)
    ensures Final(rows, []) == rows && Final(rows, events + [e]) == After(Final(rows, events), e)
  {
    assert (events + [e])[..|events|] == events;
  }

  /** No run takes the stored bytes above the quota, or above where they began. */
  lemma {:induction false} QuotaHolds(quota: int, rows: seq<Row>, events: seq<Event>)
    requires quota > 0 && TableOk(rows) && AllPossible(quota, rows, events)
    ensures TableOk(Final(rows, events))
    ensures Usage(Final(rows, events)) <= Usage(rows) || Usage(Final(rows, events)) <= quota
  {
    if events != [] {
      var n := |events| - 1;
      var before := events[..n];
      PrefixPossible(quota, rows, events, n);
      QuotaHolds(quota, rows, before);
      EventKeepsQuota(quota, Final(rows, before), events[n]);
    }
  }

  // ----- reserved bytes --------------------------------------------------------------------

  /** The columns of torrents that the reservation query joins, and torrent_files. */
  datatype Tables = Tables(status: map<string, Status>, rows: seq<Row>)

  function ReservedBytes(status: map<string, Status>, exclude: string, r: Row): int {
    if r.torrent !in status || (exclude != "" && r.torrent == exclude) then 0
    else if r.file.remote then r.file.bytes
    else if r.file.selected && !IsFailed(status[r.torrent]) then r.file.bytes
    else 0
  }

  function Reserved(t: Tables, exclude: string): int {
    Total(t.rows, (r: Row) => ReservedBytes(t.status, exclude, r))
  }

  function RequiredBytes(f: FileRow): int {
    if f.selected && !RemoteStoredComplete(f) then f.bytes else 0
  }

  function Required(files: seq<FileRow>): int {
    Total(files, RequiredBytes)
  }

  /** The bytes a torrent has in the store. */
  function OwnStored(rows: seq<Row>, torrent: string): int {
    Total(rows, (r: Row) => if r.torrent == torrent then StoredBytes(r) else 0)
  }

  function WithSelection(files: seq<FileRow>, ids: seq<int>): seq<FileRow> {
    Map(files, (f: FileRow) => Lifecycle.SelectFile(f, ids))
  }

  /** The tables after a selection that was accepted: the torrent's files rewritten, the torrent queued. */
  function Selected(t: Tables, torrent: string, ids: seq<int>): Tables {
    Tables(t.status[torrent := Queued], UpdateRows(t.rows, torrent, WithSelection(FilesOf(t.rows, torrent), ids)))
  }

  lemma SelectedRow(t: Tables, torrent: string, ids: seq<int>, k: nat)
    requires TableOk(t.rows) && k < |t.rows|
    ensures Selected(t, torrent, ids).rows[k]
         == if t.rows[k].torrent == torrent then t.rows[k].(file := Lifecycle.SelectFile(t.rows[k].file, ids))
             else t.rows[k]
  {
    var files := FilesOf(t.rows, torrent);
    var own := (r: Row) => r.torrent == torrent;
    LoadedRecordAgrees(t.rows, torrent);
    var next := WithSelection(files, ids);
    assert DistinctIds(next);
    if t.rows[k].torrent == torrent {
      KeepFacts(t.rows, own);
      assert own(t.rows[k]) && t.rows[k] in Keep(t.rows, own);
      var i: nat :| i < |Keep(t.rows, own)| && Keep(t.rows, own)[i] == t.rows[k];
      assert next[i] == Lifecycle.SelectFile(t.rows[k].file, ids);
      MatchedRow(t.rows, torrent, next, k, i);
    } else {
      UnmatchedRow(t.rows, torrent, next, k);
    }
  }

  function SelectionNeeds(torrent: string, ids: seq<int>, r: Row): int {
    if r.torrent == torrent then RequiredBytes(Lifecycle.SelectFile(r.file, ids)) else 0
  }

  /** What is required is a total over the torrent's own rows. */
  lemma RequiredByRows(rows: seq<Row>, torrent: string, ids: seq<int>)
    ensures Required(WithSelection(FilesOf(rows, torrent), ids))
        == Total(rows, (r: Row) => SelectionNeeds(torrent, ids, r))
  {
    var own := (r: Row) => r.torrent == torrent;
    var pick := (r: Row) => Lifecycle.SelectFile(r.file, ids);
    TotalKept(rows, own, pick, RequiredBytes, (r: Row) => SelectionNeeds(torrent, ids, r));
    assert WithSelection(FilesOf(rows, torrent), ids) == Map(Keep(rows, own), pick);
  }

  /** After a selection: what the others hold, what was required, and what this torrent had stored. */
  lemma SelectionReserves(t: Tables, torrent: string, ids: seq<int>)
    requires TableOk(t.rows) && torrent != "" && torrent in t.status
    ensures Reserved(Selected(t, torrent, ids), "")
         == Reserved(t, torrent) + Required(WithSelection(FilesOf(t.rows, torrent), ids)) + OwnStored(t.rows, torrent)
  {
    var t' := Selected(t, torrent, ids);
    var others := (r: Row) => ReservedBytes(t.status, torrent, r);
    var needs := (r: Row) => SelectionNeeds(torrent, ids, r);
    var stored := (r: Row) => if r.torrent == torrent then StoredBytes(r) else 0;
    var own := (r: Row) => needs(r) + stored(r);
    forall k: nat | k < |t.rows|
      ensures ReservedBytes(t'.status, "", t'.rows[k]) == others(t.rows[k]) + own(t.rows[k])
    {
      SelectedRow(t, torrent, ids, k);
      assert t.rows[k] in t.rows;
    }
    TotalSum(t'.rows, (r: Row) => ReservedBytes(t'.status, "", r), t.rows, others, own);
    TotalSum(t.rows, own, t.rows, needs, stored);
    RequiredByRows(t.rows, torrent, ids);
  }

  lemma {:induction false} OwnStoredNotNegative(rows: seq<Row>, torrent: string)
    requires BytesOk(rows)
    ensures OwnStored(rows, torrent) >= 0
  {
    if rows != [] {
      var n := |rows| - 1;
      assert rows[n] in rows && forall r <- rows[..n] :: r in rows;
      OwnStoredNotNegative(rows[..n], torrent);
    }
  }

  /**
   * A selection that passes the check keeps the reservation in the quota exactly when what is stored already
   * fits beside it.
   */
  lemma SelectionInQuotaExactly(t: Tables, torrent: string, ids: seq<int>, quota: int)
    requires TableOk(t.rows) && torrent != "" && torrent in t.status
    requires Reserved(t, torrent) + Required(WithSelection(FilesOf(t.rows, torrent), ids)) <= quota
    ensures var own := OwnStored(t.rows, torrent);
            var left := quota - Reserved(t, torrent) - Required(WithSelection(FilesOf(t.rows, torrent), ids));
            && own >= 0
            && Reserved(Selected(t, torrent, ids), "") <= quota + own
            && (Reserved(Selected(t, torrent, ids), "") <= quota <==> own <= left)
  {
    SelectionReserves(t, torrent, ids);
    OwnStoredNotNegative(t.rows, torrent);
  }

  lemma TwoRows(a: Row, b: Row, w: Row -> int)
    ensures Total([a, b], w) == w(a) + w(b)
  {
    TotalAppend([a], b, w);
    TotalAppend([], a, w);
    assert [a] + [b] == [a, b] && [] + [a] == [a];
  }

  /** The case that overbooks: a stored file of 60 bytes is selected again beside one of 100, and the quota is 100. */
  lemma SelectionMayOverbook(torrent: string)
    requires torrent != ""
    ensures exists t: Tables ::
              && TableOk(t.rows) && torrent in t.status
              && Reserved(t, torrent) + Required(WithSelection(FilesOf(t.rows, torrent), [1, 2])) == 100
              && Reserved(Selected(t, torrent, [1, 2]), "") == 160
  {
    var a := Row(torrent, FileRow(1, "a", 60, true, 60, 60, "", "k", true));
    var b := Row(torrent, FileRow(2, "b", 100, false, 0, 0, "", "", false));
    var t := Tables(map[torrent := Downloaded], [a, b]);
    var needs := (r: Row) => SelectionNeeds(torrent, [1, 2], r);
    RequiredByRows(t.rows, torrent, [1, 2]);
    TwoRows(a, b, needs);
    TwoRows(a, b, (r: Row) => ReservedBytes(t.status, torrent, r));
    TwoRows(a, b, (r: Row) => if r.torrent == torrent then StoredBytes(r) else 0);
    SelectionReserves(t, torrent, [1, 2]);
  }

  /** What a failed torrent holds back from the reservation: its selected files that are not stored. */
  function Unreserved(torrent: string, r: Row): int {
    if r.torrent == torrent && r.file.selected && !r.file.remote then r.file.bytes else 0
  }

  /** ResetTorrentForRetry on the tables. */
  function Retried(t: Tables, torrent: string): Tables {
    Tables(t.status[torrent := Queued],
           Map(t.rows, (r: Row) => if r.torrent == torrent then r.(file := Lifecycle.Reset(r.file)) else r))
  }

  /** A retry queues the torrent and forgets how much of its files is there; other torrents stay as they are. */
  lemma RetryExactly(t: Tables, torrent: string, k: nat)
    requires k < |t.rows|
    ensures var t', r := Retried(t, torrent), t.rows[k];
      && |t'.rows| == |t.rows| && t'.status == t.status[torrent := Queued]
      && t'.rows[k] == if r.torrent == torrent then r.(file := r.file.(downloaded := 0, streamable := 0)) else r
  {}

  /** A retry takes its reservation back whatever the quota. */
  lemma RetryReserves(t: Tables, torrent: string)
    requires torrent in t.status && IsFailed(t.status[torrent])
    ensures Reserved(Retried(t, torrent), "") == Reserved(t, "") + Total(t.rows, (r: Row) => Unreserved(torrent, r))
  {
    var t' := Retried(t, torrent);
    TotalSum(t'.rows, (r: Row) => ReservedBytes(t'.status, "", r),
             t.rows, (r: Row) => ReservedBytes(t.status, "", r), (r: Row) => Unreserved(torrent, r));
  }

  /** The record also agrees on what is selected. */
  ghost predicate Mirrors(rows: seq<Row>, torrent: string, files: seq<FileRow>) {
    && DistinctIds(files) && AgreesOnMarks(rows, torrent, files)
    && forall k: nat, i: nat | k < |rows| && i < |files| && Matches(rows[k], torrent, files[i]) ::
         rows[k].file.selected == files[i].selected
  }

  /** A torrent that has not failed, with a record that mirrors its rows, and so many bytes reserved in all. */
  ghost predicate Holds(job: Job, st: State, status: map<string, Status>, reserved: int) {
    && job.torrent in status && !IsFailed(status[job.torrent])
    && Mirrors(st.world.rows, job.torrent, st.files)
    && Reserved(Tables(status, st.world.rows), "") == reserved
  }

  /** A failed torrent of 60 bytes retried beside one that reserves the whole quota of 100. */
  lemma RetryMayOverbook(a: string, b: string)
    requires a != "" && b != "" && a != b
    ensures exists t: Tables ::
              && a in t.status && IsFailed(t.status[a])
              && Reserved(t, "") == 100 && Reserved(Retried(t, a), "") == 160
  {
    var f := Row(a, FileRow(1, "a", 60, true, 0, 0, "", "", false));
    var g := Row(b, FileRow(1, "b", 100, true, 0, 0, "", "", false));
    var t := Tables(map[a := Error, b := Queued], [f, g]);
    TwoRows(f, g, (r: Row) => ReservedBytes(t.status, "", r));
    TwoRows(f, g, (r: Row) => Unreserved(a, r));
    RetryReserves(t, a);
  }

  predicate SameReservation(status: map<string, Status>, r: Row, r': Row) {
    ReservedBytes(status, "", r) == ReservedBytes(status, "", r')
  }

  lemma ReservedStays(status: map<string, Status>, rows: seq<Row>, rows': seq<Row>)
    requires |rows| == |rows'| && forall k: nat | k < |rows| :: SameReservation(status, rows[k], rows'[k])
    ensures Reserved(Tables(status, rows'), "") == Reserved(Tables(status, rows), "")
  {
    var weight := (r: Row) => ReservedBytes(status, "", r);
    forall k: nat | k < |rows| ensures weight(rows[k]) == weight(rows'[k]) {
      assert SameReservation(status, rows[k], rows'[k]);
    }
    TotalSame(rows', weight, rows, weight);
  }

  lemma MirrorsStays(rows: seq<Row>, rows': seq<Row>, job: Job, files: seq<FileRow>, i: nat)
    requires i < |files| && Mirrors(rows, job.torrent, files) && AllMarked(rows, rows', job.torrent, files[i])
    requires forall k: nat | k < |rows| :: rows'[k].file.selected == rows[k].file.selected
    requires DistinctIds(files[i := Moved(job, files[i])])
    ensures Mirrors(rows', job.torrent, files[i := Moved(job, files[i])])
  {
    forall k: nat | k < |rows'| ensures Marked(rows[k], rows'[k], job.torrent, files[i]) {}
  }

  lemma CommitKeepsSelected(rows: seq<Row>, torrent: string, files: seq<FileRow>, i: nat, f: FileRow, k: nat)
    requires Mirrors(rows, torrent, files) && k < |rows|
    requires i < |files| && f.id == files[i].id && f.selected == files[i].selected
    ensures UpdateRows(rows, torrent, Replace(files, f))[k].file.selected == rows[k].file.selected
  {
    ReplaceIs(files, i, f);
    if j: nat :| j < |files| && Matches(rows[k], torrent, files[j]) {
      MatchedRow(rows, torrent, files[i := f], k, j);
    } else {
      UnmatchedRow(rows, torrent, files[i := f], k);
    }
  }

  lemma CommitKeepsReservation(job: Job, st: State, i: nat, status: map<string, Status>, reserved: int, s: State)
    requires i < |st.files| && Holds(job, st, status, reserved) && st.files[i].selected
    requires s.files == Replace(st.files, Moved(job, st.files[i]))
    requires s.world.rows == UpdateRows(st.world.rows, job.torrent, Replace(st.files, Moved(job, st.files[i])))
    ensures Holds(job, s, status, reserved)
  {
    var rows, rows', f := st.world.rows, s.world.rows, Moved(job, st.files[i]);
    ReplaceIs(st.files, i, f);
    CommitMarksAll(rows, job.torrent, st.files, i, f);
    forall k: nat | k < |rows|
      ensures SameReservation(status, rows[k], rows'[k]) && rows'[k].file.selected == rows[k].file.selected
    {
      CommitKeepsSelected(rows, job.torrent, st.files, i, f, k);
      assert Marked(rows[k], rows'[k], job.torrent, st.files[i]);
    }
    ReservedStays(status, rows, rows');
    MirrorsStays(rows, rows', job, st.files, i);
  }

  lemma StepKeepsReservation(job: Job, st: State, i: nat, o: Outcome, status: map<string, Status>, reserved: int,
                             s: State)
    requires i < |st.files| && Holds(job, st, status, reserved) && s == Stepped(job, st, i, o)
    ensures Holds(job, s, status, reserved)
  {
    if Commits(job, st, i, o) {
      CommitKeepsReservation(job, st, i, status, reserved, s);
    }
  }

  /**
   * Storing what was reserved reserves nothing more: an offload never moves the reservation of a torrent that
   * has not failed.
   */
  lemma OffloadKeepsReservation(job: Job, st: State, outcomes: seq<Outcome>, n: nat,
                                                   status: map<string, Status>, reserved: int)
    requires n <= |st.files| <= |outcomes| && Holds(job, st, status, reserved)
    ensures Holds(job, Run(job, st, outcomes, n), status, reserved)
  {
    var inv := (i: nat, s: State) => Holds(job, s, status, reserved);
    forall i: nat, s: State | i < n && |s.files| == |st.files| && inv(i, s)
      ensures inv(i + 1, Stepped(job, s, i, outcomes[i]))
    {
      StepKeepsReservation(job, s, i, outcomes[i], status, reserved, Stepped(job, s, i, outcomes[i]));
    }
    RunInduction(job, st, outcomes, n, inv);
  }

  /** The bytes the quota is held against: what others reserve and what the selection requires. */
  function Asked(t: Tables, torrent: string, ids: seq<int>): int {
    Reserved(t, torrent) + Required(WithSelection(FilesOf(t.rows, torrent), ids))
  }

  // ----- SelectFiles -----------------------------------------------------------------------

  datatype Answer = Accepted | UnknownTorrent | BadSpec | QuotaExceeded | StoreFailed

  class Selector {
    const db: Database
    var status: map<string, Status>

    constructor (db: Database, status: map<string, Status>)
      ensures this.db == db && this.status == status
    {
      this.db, this.status := db, status;
    }

    ghost function Now(): Tables
      reads this, db
    {
      Tables(status, db.rows)
    }

    /** The check made under the lock; reserved is what the query over the other torrents returns. */
    method EnsureQuotaForSelection(files: seq<FileRow>, quota: int, reserved: Option<int>) returns (r: Answer)
      ensures r in {Accepted, QuotaExceeded, StoreFailed}
      ensures quota <= 0 ==> r == Accepted
      ensures quota > 0 ==>
                && (r == Accepted <==> reserved.Some? && reserved.value + Required(files) <= quota)
                && (r == QuotaExceeded <==> reserved.Some? && reserved.value + Required(files) > quota)
    {
      if quota <= 0 {
        return Accepted;
      }
      var required := 0;
      for i := 0 to |files|
        invariant required == Required(files[..i])
      {
        assert files[..i + 1][..i] == files[..i];
        if files[i].selected && !RemoteStoredComplete(files[i]) {
          required := required + files[i].bytes;
        }
      }
      assert files[..|files|] == files;
      if reserved.None? {
        return StoreFailed;
      }
      if reserved.value + required > quota {
        return QuotaExceeded;
      }
      return Accepted;
    }

    method SelectFiles(torrent: string, spec: Lifecycle.Spec, s3: bool, quota: int, queryOk: bool, filesOk: bool,
                       recordOk: bool)
      returns (r: Answer)
      modifies this`status, db
      ensures var ids := Lifecycle.ParseSpec(spec, |FilesOf(old(db.rows), torrent)|);
              && (r == UnknownTorrent <==> torrent !in old(status))
              && (r == BadSpec <==> torrent in old(status) && ids.None?)
              && (torrent in old(status) && ids.Some? ==>
                    var asked := Asked(old(Now()), torrent, ids.value);
                    && (r == QuotaExceeded <==> s3 && quota > 0 && queryOk && asked > quota)
                    && (r == Accepted <==> filesOk && recordOk && (s3 && quota > 0 ==> queryOk && asked <= quota))
                    && (r == Accepted ==> Now() == Selected(old(Now()), torrent, ids.value))
                    && (r == StoreFailed ==>
                          && status == old(status)
                          && db.rows in {old(db.rows), Selected(old(Now()), torrent, ids.value).rows})
                    && (r == StoreFailed && db.rows != old(db.rows) ==> filesOk && !recordOk))
      ensures r in {UnknownTorrent, BadSpec, QuotaExceeded} ==> Now() == old(Now())
    {
      if torrent !in status {
        return UnknownTorrent;
      }
      var files := FilesOf(db.rows, torrent);
      var ids := Lifecycle.ParseSpec(spec, |files|);
      if ids.None? {
        return BadSpec;
      }
      files := WithSelection(files, ids.value);
      if s3 && quota > 0 {
        var reserved := if queryOk then Some(Reserved(Tables(status, db.rows), torrent)) else None;
        var checked := EnsureQuotaForSelection(files, quota, reserved);
        if checked != Accepted {
          return checked;
        }
      }
      var ok := db.UpdateTorrentFiles(torrent, files, if filesOk then |files| + 1 else |files|);
      if !ok || !recordOk {
        return StoreFailed;
      }
      status := status[torrent := Queued];
      return Accepted;
    }
  }
}
