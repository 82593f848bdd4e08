/** Moving completed files from the disk to the object store (internal/torrent/offload.go). */
module Offload {
  import opened Strings
  import opened Sequences
  import opened Records
  import ObjectKeys

  type Content = seq<bv8>

  /** A row of torrent_files. */
  datatype Row = Row(torrent: string, file: FileRow)

  datatype World = World(disk: map<string, Content>, objects: map<string, Content>, rows: seq<Row>)

  datatype Job = Job(torrent: string, infoHash: string, prefix: string, quota: int, removeLocal: bool)

  /** A failed upload may or may not have written the object. */
  datatype Upload = Stored | StoredButFails | Refused

  /** What the calls made for one file return. */
  datatype Outcome = Outcome(opens: bool, upload: Upload, commits: bool, deletes: bool, removes: bool)

  /** The loop's variables, and what it acts on. */
  datatype State = State(world: World, files: seq<FileRow>, used: int)

  predicate Matches(r: Row, torrent: string, f: FileRow) {
    r.torrent == torrent && r.file.id == f.id
  }

  // ----- UpdateTorrentFiles ----------------------------------------------------------------

  /** One UPDATE statement on one row: path and bytes are not among the columns it sets. */
  function UpdateRow(r: Row, torrent: string, f: FileRow): Row {
    if Matches(r, torrent, f) then
      r.(file := r.file.(selected := f.selected, downloaded := f.downloaded, streamable := f.streamable,
                         diskPath := f.diskPath, objectKey := f.objectKey, remote := f.remote))
    else r
  }

  function UpdateAll(rows: seq<Row>, torrent: string, f: FileRow): seq<Row> {
    Map(rows, r => UpdateRow(r, torrent, f))
  }

  function UpdateRows(rows: seq<Row>, torrent: string, files: seq<FileRow>): (r: seq<Row>)
    ensures |r| == |rows|
  {
    if files == [] then rows
    else UpdateAll(UpdateRows(rows, torrent, files[..|files| - 1]), torrent, files[|files| - 1])
  }

  lemma {:induction false} UnmatchedRow(rows: seq<Row>, torrent: string, files: seq<FileRow>, k: nat)
    requires k < |rows| && forall f <- files :: !Matches(rows[k], torrent, f)
    ensures UpdateRows(rows, torrent, files)[k] == rows[k]
  {
    if files != [] {
      UnmatchedRow(rows, torrent, files[..|files| - 1], k);
    }
  }

  lemma {:induction false} MatchedRow(rows: seq<Row>, torrent: string, files: seq<FileRow>, k: nat, i: nat)
    requires DistinctIds(files) && k < |rows| && i < |files| && Matches(rows[k], torrent, files[i])
    ensures UpdateRows(rows, torrent, files)[k] == UpdateRow(rows[k], torrent, files[i])
  {
    var n := |files| - 1;
    var before := files[..n];
    if i == n {
      UnmatchedRow(rows, torrent, before, k);
    } else {
      assert before[i] == files[i];
      MatchedRow(rows, torrent, before, k, i);
      assert !Matches(rows[k], torrent, files[n]);
    }
  }

  /** UpdateTorrentFiles writes the record's columns into the rows of its files, and no others. */
  lemma RecordIsWritten(rows: seq<Row>, torrent: string, files: seq<FileRow>, k: nat, r: Row)
    requires DistinctIds(files) && k < |rows| && r == UpdateRows(rows, torrent, files)[k]
    ensures r.torrent == rows[k].torrent && r.file.id == rows[k].file.id
    ensures r.file.path == rows[k].file.path && r.file.bytes == rows[k].file.bytes
    ensures forall i: nat | i < |files| && rows[k].torrent == torrent && rows[k].file.id == files[i].id ::
              && r.file.selected == files[i].selected && r.file.downloaded == files[i].downloaded
              && r.file.streamable == files[i].streamable && r.file.diskPath == files[i].diskPath
              && r.file.objectKey == files[i].objectKey && r.file.remote == files[i].remote
    ensures rows[k].torrent != torrent || (forall f <- files :: f.id != rows[k].file.id) ==> r == rows[k]
  {
    if i: nat :| i < |files| && Matches(rows[k], torrent, files[i]) {
      MatchedRow(rows, torrent, files, k, i);
    } else {
      UnmatchedRow(rows, torrent, files, k);
    }
  }

  // ----- the loop --------------------------------------------------------------------------

  predicate Candidate(f: FileRow) {
    f.selected && !f.remote && f.bytes > 0 && f.downloaded >= f.bytes
  }

  function TargetKey(job: Job, f: FileRow): string {
    ObjectKeys.Key(job.prefix, job.infoHash, f.path)
  }

  predicate Room(job: Job, used: int, f: FileRow) {
    !(job.quota > 0 && used + f.bytes > job.quota)
  }

  /** Reaching the upload: stat must succeed, so there is a file at the path. */
  predicate Reads(w: World, f: FileRow, o: Outcome) {
    f.diskPath != "" && f.diskPath in w.disk && o.opens
  }

  predicate Uploads(job: Job, st: State, i: nat, o: Outcome)
    requires i < |st.files|
  {
    Candidate(st.files[i]) && Room(job, st.used, st.files[i]) && Reads(st.world, st.files[i], o)
  }

  function Uploaded(job: Job, st: State, i: nat, o: Outcome): State
    requires i < |st.files|
  {
    var f := st.files[i];
    if Uploads(job, st, i, o) && o.upload != Refused then
      st.(world := st.world.(objects := st.world.objects[TargetKey(job, f) := st.world.disk[f.diskPath]]))
    else st
  }

  function Replace(files: seq<FileRow>, f: FileRow): (r: seq<FileRow>)
    ensures |r| == |files|
  {
    if files == [] then []
    else if files[0].id == f.id then [f] + files[1..]
    else [files[0]] + Replace(files[1..], f)
  }

  function Moved(job: Job, f: FileRow): FileRow {
    f.(objectKey := TargetKey(job, f), remote := true)
  }

  predicate Commits(job: Job, st: State, i: nat, o: Outcome)
    requires i < |st.files|
  {
    Uploads(job, st, i, o) && o.upload.Stored? && o.commits
  }

  /** After the upload: the rows are written, or the new object is taken back. */
  function Recorded(job: Job, st: State, i: nat, o: Outcome): (r: State)
    requires i < |st.files|
    ensures |r.files| == |st.files|
  {
    var u := Uploaded(job, st, i, o);
    var f := st.files[i];
    if Commits(job, st, i, o) then
      var next := Replace(st.files, Moved(job, f));
      State(u.world.(rows := UpdateRows(u.world.rows, job.torrent, next)), next, st.used + f.bytes)
    else if Uploads(job, st, i, o) && o.upload.Stored? && o.deletes then
      u.(world := u.world.(objects := u.world.objects - {TargetKey(job, f)}))
    else u
  }

  predicate Removes(job: Job, st: State, i: nat, o: Outcome)
    requires i < |st.files|
  {
    job.removeLocal && o.removes && st.files[i].diskPath != "" && (st.files[i].remote || Commits(job, st, i, o))
  }

  function Stepped(job: Job, st: State, i: nat, o: Outcome): (r: State)
    requires i < |st.files|
    ensures |r.files| == |st.files|
  {
    var r := Recorded(job, st, i, o);
    if Removes(job, st, i, o) then r.(world := r.world.(disk := r.world.disk - {st.files[i].diskPath})) else r
  }

  /** The state after the first n files. */
  function Run(job: Job, st: State, outcomes: seq<Outcome>, n: nat): (r: State)
    requires n <= |st.files| <= |outcomes|
    ensures |r.files| == |st.files|
  {
    if n == 0 then st else Stepped(job, Run(job, st, outcomes, n - 1), n - 1, outcomes[n - 1])
  }

  /** What holds at the start and is kept by every turn holds after n of them. */
  lemma {:induction false} RunInduction(job: Job, st: State, outcomes: seq<Outcome>, n: nat, inv: (nat, State) -> bool)
    requires n <= |st.files| <= |outcomes| && inv(0, st)
    requires forall i: nat, s: State | i < n && |s.files| == |st.files| && inv(i, s) ::
      inv(i + 1, Stepped(job, s, i, outcomes[i]))
    ensures inv(n, Run(job, st, outcomes, n))
  {
    if n > 0 {
      RunInduction(job, st, outcomes, n - 1, inv);
    }
  }

  lemma {:induction false} ReplaceIs(files: seq<FileRow>, i: nat, f: FileRow)
    requires DistinctIds(files) && i < |files| && files[i].id == f.id
    ensures Replace(files, f) == files[i := f] && DistinctIds(files[i := f])
  {
    if i > 0 {
      assert files[0].id != files[i].id;
      ReplaceIs(files[1..], i - 1, f);
      assert files == [files[0]] + files[1..];
    }
  }

  // ----- no loss ---------------------------------------------------------------------------

  /** The file of a row, whose bytes are c, is on the disk, or in the store with the row saying so. */
  predicate Held(w: World, f: FileRow, c: Content) {
    || (f.diskPath in w.disk && w.disk[f.diskPath] == c)
    || (f.remote && f.objectKey in w.objects && w.objects[f.objectKey] == c)
  }

  predicate SamePlace(r: FileRow, f: FileRow) {
    r.path == f.path && r.diskPath == f.diskPath && r.objectKey == f.objectKey && r.remote == f.remote
  }

  /** The record shows its rows as they are. */
  ghost predicate Agrees(rows: seq<Row>, torrent: string, files: seq<FileRow>) {
    forall k: nat, i: nat | k < |rows| && i < |files| && Matches(rows[k], torrent, files[i]) ::
      SamePlace(rows[k].file, files[i])
  }

  /** A row marked remote has its bytes in the store. */
  ghost predicate Truthful(w: World, bodies: seq<Content>) {
    && |bodies| == |w.rows|
    && forall k: nat | k < |w.rows| && w.rows[k].file.remote ::
         w.rows[k].file.objectKey in w.objects && w.objects[w.rows[k].file.objectKey] == bodies[k]
  }

  /** A selected, complete file that is not stored and is found on the disk holds its bytes. */
  ghost predicate LocalRight(w: World, torrent: string, files: seq<FileRow>, bodies: seq<Content>) {
    && |bodies| == |w.rows|
    && forall k: nat, i: nat | k < |w.rows| && i < |files| && Matches(w.rows[k], torrent, files[i]) ::
         files[i].selected && !files[i].remote && 0 < files[i].bytes <= files[i].downloaded ==>
           files[i].diskPath in w.disk ==> w.disk[files[i].diskPath] == bodies[k]
  }

  /** Another file has another disk path, and no object under the key to which this one would go. */
  predicate Disjoint(job: Job, r: FileRow, f: FileRow) {
    && (f.diskPath != "" ==> r.diskPath != f.diskPath)
    && (r.remote && !f.remote ==> r.objectKey != TargetKey(job, f))
  }

  /** Different files have different disk paths, and those not stored yet go to different keys. */
  ghost predicate Apart(job: Job, rows: seq<Row>, files: seq<FileRow>) {
    && (forall i: nat, j: nat | i < j < |files| && !files[i].remote && !files[j].remote ::
          TargetKey(job, files[i]) != TargetKey(job, files[j]))
    && (forall k: nat, i: nat | k < |rows| && i < |files| && !Matches(rows[k], job.torrent, files[i]) ::
          Disjoint(job, rows[k].file, files[i]))
  }

  ghost predicate Sound(job: Job, st: State, bodies: seq<Content>) {
    && DistinctIds(st.files)
    && Agrees(st.world.rows, job.torrent, st.files)
    && Truthful(st.world, bodies)
    && LocalRight(st.world, job.torrent, st.files, bodies)
    && Apart(job, st.world.rows, st.files)
  }

  /**
   * Every row is still about the same file, and a file that was on the disk, or in the store with the row saying so,
   * still is one or the other.
   */
  ghost predicate Keeps(w: World, w': World, bodies: seq<Content>) {
    && |w'.rows| == |w.rows| == |bodies|
    && forall k: nat | k < |w.rows| ::
         && w'.rows[k].torrent == w.rows[k].torrent
         && w'.rows[k].file.id == w.rows[k].file.id
         && w'.rows[k].file.path == w.rows[k].file.path
         && w'.rows[k].file.bytes == w.rows[k].file.bytes
         && w'.rows[k].file.diskPath == w.rows[k].file.diskPath
         && var f, f' := w.rows[k].file, w'.rows[k].file;
            (|| (f.diskPath in w.disk && w.disk[f.diskPath] == bodies[k])
             || (f.remote && f.objectKey in w.objects && w.objects[f.objectKey] == bodies[k])) ==>
              (|| (f'.diskPath in w'.disk && w'.disk[f'.diskPath] == bodies[k])
               || (f'.remote && f'.objectKey in w'.objects && w'.objects[f'.objectKey] == bodies[k]))
  }

  /** No row marked remote uses the key of a file that is not. */
  lemma OtherKey(job: Job, st: State, bodies: seq<Content>, i: nat, k: nat)
    requires Sound(job, st, bodies) && i < |st.files| && !st.files[i].remote
    requires k < |st.world.rows| && st.world.rows[k].file.remote
    ensures st.world.rows[k].file.objectKey != TargetKey(job, st.files[i])
  {
    if !Matches(st.world.rows[k], job.torrent, st.files[i]) {
      assert Disjoint(job, st.world.rows[k].file, st.files[i]);
    }
  }

  lemma UploadKeeps(job: Job, st: State, i: nat, o: Outcome, bodies: seq<Content>)
    requires Sound(job, st, bodies) && i < |st.files|
    ensures Sound(job, Uploaded(job, st, i, o), bodies)
    ensures Keeps(st.world, Uploaded(job, st, i, o).world, bodies)
    ensures Uploaded(job, st, i, o).world.disk == st.world.disk && Uploaded(job, st, i, o).world.rows == st.world.rows
  {
    var s := Uploaded(job, st, i, o);
    var key := TargetKey(job, st.files[i]);
    if Uploads(job, st, i, o) && o.upload != Refused {
      forall k: nat | k < |st.world.rows| && st.world.rows[k].file.remote
        ensures st.world.rows[k].file.objectKey != key
      {
        OtherKey(job, st, bodies, i, k);
      }
    }
  }

  predicate RowAfterCommit(job: Job, f: FileRow, row: Row, was: Row) {
    && row.torrent == was.torrent && row.file.id == was.file.id && row.file.path == was.file.path
    && row.file.bytes == was.file.bytes && row.file.diskPath == was.file.diskPath
    && if Matches(was, job.torrent, f) then row.file.remote && row.file.objectKey == TargetKey(job, f)
       else row.file.remote == was.file.remote && row.file.objectKey == was.file.objectKey
  }

  /** What a commit writes in each row. */
  lemma CommitWrites(job: Job, rows: seq<Row>, files: seq<FileRow>, i: nat, k: nat)
    requires DistinctIds(files) && Agrees(rows, job.torrent, files) && i < |files| && k < |rows|
    ensures RowAfterCommit(job, files[i], UpdateRows(rows, job.torrent, Replace(files, Moved(job, files[i])))[k],
        rows[k])
  {
    ReplaceIs(files, i, Moved(job, files[i]));
    var next := files[i := Moved(job, files[i])];
    if j: nat :| j < |files| && Matches(rows[k], job.torrent, files[j]) {
      MatchedRow(rows, job.torrent, next, k, j);
      assert SamePlace(rows[k].file, files[j]);
    } else {
      UnmatchedRow(rows, job.torrent, next, k);
    }
  }

  /** What a commit makes of the state. */
  ghost predicate Committed(job: Job, st: State, i: nat, s: State)
    requires i < |st.files|
  {
    var f := st.files[i];
    && s.files == st.files[i := Moved(job, f)] && DistinctIds(s.files)
    && f.selected && !f.remote && 0 < f.bytes <= f.downloaded && f.diskPath in st.world.disk
    && s.world.disk == st.world.disk
    && s.world.objects == st.world.objects[TargetKey(job, f) := st.world.disk[f.diskPath]]
    && |s.world.rows| == |st.world.rows|
    && forall k: nat | k < |s.world.rows| :: RowAfterCommit(job, f, s.world.rows[k], st.world.rows[k])
  }

  lemma CommitCommits(job: Job, st: State, i: nat, o: Outcome, bodies: seq<Content>)
    requires Sound(job, st, bodies) && i < |st.files| && Commits(job, st, i, o)
    ensures Committed(job, st, i, Recorded(job, st, i, o))
  {
    ReplaceIs(st.files, i, Moved(job, st.files[i]));
    forall k: nat | k < |st.world.rows|
      ensures RowAfterCommit(job, st.files[i], Recorded(job, st, i, o).world.rows[k], st.world.rows[k])
    {
      CommitWrites(job, st.world.rows, st.files, i, k);
    }
  }

  lemma CommitKeepsTruth(job: Job, st: State, i: nat, s: State, bodies: seq<Content>)
    requires Sound(job, st, bodies) && i < |st.files| && Committed(job, st, i, s)
    ensures Truthful(s.world, bodies) && Keeps(st.world, s.world, bodies)
  {
    forall k: nat | k < |st.world.rows| && st.world.rows[k].file.remote
      ensures st.world.rows[k].file.objectKey != TargetKey(job, st.files[i])
    {
      OtherKey(job, st, bodies, i, k);
    }
    forall k: nat | k < |s.world.rows| && s.world.rows[k].file.remote
      ensures s.world.rows[k].file.objectKey in s.world.objects
      ensures s.world.objects[s.world.rows[k].file.objectKey] == bodies[k]
    {
      assert RowAfterCommit(job, st.files[i], s.world.rows[k], st.world.rows[k]);
    }
    forall k: nat | k < |s.world.rows| ensures RowAfterCommit(job, st.files[i], s.world.rows[k], st.world.rows[k]) {}
  }

  lemma CommitKeepsAgreement(job: Job, st: State, i: nat, s: State, bodies: seq<Content>)
    requires Sound(job, st, bodies) && i < |st.files| && Committed(job, st, i, s)
    ensures Agrees(s.world.rows, job.torrent, s.files)
    ensures LocalRight(s.world, job.torrent, s.files, bodies)
  {
    forall k: nat, j: nat | k < |s.world.rows| && j < |s.files| && Matches(s.world.rows[k], job.torrent, s.files[j])
      ensures SamePlace(s.world.rows[k].file, s.files[j])
      ensures s.files[j].selected && !s.files[j].remote && 0 < s.files[j].bytes <= s.files[j].downloaded ==>
                s.files[j].diskPath in s.world.disk ==> s.world.disk[s.files[j].diskPath] == bodies[k]
    {
      assert RowAfterCommit(job, st.files[i], s.world.rows[k], st.world.rows[k]);
      assert Matches(st.world.rows[k], job.torrent, st.files[j]);
      assert SamePlace(st.world.rows[k].file, st.files[j]);
    }
  }

  lemma CommitKeepsApart(job: Job, st: State, i: nat, s: State, bodies: seq<Content>)
    requires Sound(job, st, bodies) && i < |st.files| && Committed(job, st, i, s)
    ensures Apart(job, s.world.rows, s.files)
  {
    forall k: nat, j: nat | k < |s.world.rows| && j < |s.files| && !Matches(s.world.rows[k], job.torrent, s.files[j])
      ensures Disjoint(job, s.world.rows[k].file, s.files[j])
    {
      assert RowAfterCommit(job, st.files[i], s.world.rows[k], st.world.rows[k]);
      assert Disjoint(job, st.world.rows[k].file, st.files[j]);
      if Matches(st.world.rows[k], job.torrent, st.files[i]) {
        assert j != i;
      }
    }
  }

  lemma CommitKeeps(job: Job, st: State, i: nat, o: Outcome, bodies: seq<Content>)
    requires Sound(job, st, bodies) && i < |st.files| && Commits(job, st, i, o)
    ensures Sound(job, Recorded(job, st, i, o), bodies)
    ensures Keeps(st.world, Recorded(job, st, i, o).world, bodies)
  {
    var s := Recorded(job, st, i, o);
    CommitCommits(job, st, i, o, bodies);
    CommitKeepsTruth(job, st, i, s, bodies);
    CommitKeepsAgreement(job, st, i, s, bodies);
    CommitKeepsApart(job, st, i, s, bodies);
  }

  lemma RecordKeeps(job: Job, st: State, i: nat, o: Outcome, bodies: seq<Content>)
    requires Sound(job, st, bodies) && i < |st.files|
    ensures Sound(job, Recorded(job, st, i, o), bodies)
    ensures Keeps(st.world, Recorded(job, st, i, o).world, bodies)
    ensures Recorded(job, st, i, o).world.disk == st.world.disk
  {
    UploadKeeps(job, st, i, o, bodies);
    if Commits(job, st, i, o) {
      CommitKeeps(job, st, i, o, bodies);
    } else if Uploads(job, st, i, o) && o.upload.Stored? && o.deletes {
      forall k: nat | k < |st.world.rows| && st.world.rows[k].file.remote
        ensures st.world.rows[k].file.objectKey != TargetKey(job, st.files[i])
      {
        OtherKey(job, st, bodies, i, k);
      }
    }
  }

  lemma RemoveKeeps(job: Job, st: State, i: nat, bodies: seq<Content>)
    requires Sound(job, st, bodies) && i < |st.files| && st.files[i].remote && st.files[i].diskPath != ""
    ensures var w' := st.world.(disk := st.world.disk - {st.files[i].diskPath});
            Sound(job, st.(world := w'), bodies) && Keeps(st.world, w', bodies)
  {
    forall k: nat | k < |st.world.rows| && st.world.rows[k].file.diskPath == st.files[i].diskPath
      ensures st.world.rows[k].file.remote
    {
      assert !Disjoint(job, st.world.rows[k].file, st.files[i]);
      assert Matches(st.world.rows[k], job.torrent, st.files[i]);
      assert SamePlace(st.world.rows[k].file, st.files[i]);
    }
  }

  lemma StepKeeps(job: Job, st: State, i: nat, o: Outcome, bodies: seq<Content>)
    requires Sound(job, st, bodies) && i < |st.files|
    ensures Sound(job, Stepped(job, st, i, o), bodies)
    ensures Keeps(st.world, Stepped(job, st, i, o).world, bodies)
  {
    RecordKeeps(job, st, i, o, bodies);
    if Removes(job, st, i, o) {
      var r := Recorded(job, st, i, o);
      ReplaceIs(st.files, i, Moved(job, st.files[i]));
      assert r.files[i].remote && r.files[i].diskPath == st.files[i].diskPath;
      RemoveKeeps(job, r, i, bodies);
    }
  }

  lemma RunKeeps(job: Job, st: State, outcomes: seq<Outcome>, n: nat, bodies: seq<Content>)
    requires Sound(job, st, bodies) && n <= |st.files| <= |outcomes|
    ensures Sound(job, Run(job, st, outcomes, n), bodies)
    ensures Keeps(st.world, Run(job, st, outcomes, n).world, bodies)
  {
    var inv := (i: nat, s: State) => Sound(job, s, bodies) && Keeps(st.world, s.world, bodies);
    forall i: nat, s: State | i < n && |s.files| == |st.files| && inv(i, s)
      ensures inv(i + 1, Stepped(job, s, i, outcomes[i]))
    {
      StepKeeps(job, s, i, outcomes[i], bodies);
    }
    RunInduction(job, st, outcomes, n, inv);
  }

  /**
   * At no moment of a run, whatever fails, is a file lost that was held: not one of this torrent,
   * and not one of another. The moments are those after each file's turn, and in a turn those after the upload
   * and after the rows are written.
   */
  lemma NoDataLoss(job: Job, st: State, outcomes: seq<Outcome>, n: nat, bodies: seq<Content>)
    requires Sound(job, st, bodies) && n <= |st.files| <= |outcomes|
    ensures var s := Run(job, st, outcomes, n);
      && Keeps(st.world, s.world, bodies) && Truthful(s.world, bodies)
      && (n < |st.files| ==>
            var u, w := Uploaded(job, s, n, outcomes[n]).world, Recorded(job, s, n, outcomes[n]).world;
            Keeps(st.world, u, bodies) && Truthful(u, bodies) && Keeps(st.world, w, bodies) && Truthful(w, bodies))
  {
    RunKeeps(job, st, outcomes, n, bodies);
    var s := Run(job, st, outcomes, n);
    if n < |st.files| {
      UploadKeeps(job, s, n, outcomes[n], bodies);
      RecordKeeps(job, s, n, outcomes[n], bodies);
    }
  }

  // ----- records and rows ------------------------------------------------------------------

  /** The primary key of torrent_files. */
  ghost predicate DistinctRows(rows: seq<Row>) {
    forall k: nat, l: nat | k < l < |rows| :: rows[k].torrent != rows[l].torrent || rows[k].file.id != rows[l].file.id
  }

  function FilesOf(rows: seq<Row>, torrent: string): seq<FileRow> {
    Map(Keep(rows, (r: Row) => r.torrent == torrent), (r: Row) => r.file)
  }

  /** A record just read agrees with its rows. */
  lemma LoadedRecordAgrees(rows: seq<Row>, torrent: string)
    requires DistinctRows(rows)
    ensures Agrees(rows, torrent, FilesOf(rows, torrent)) && DistinctIds(FilesOf(rows, torrent))
  {
    var own := (r: Row) => r.torrent == torrent;
    var kept := Keep(rows, own);
    KeepFacts(rows, own);
    KeepDistinct(rows, own);
    forall k: nat, i: nat | k < |rows| && i < |kept| && Matches(rows[k], torrent, kept[i].file)
      ensures rows[k] == kept[i]
    {
      assert kept[i] in kept;
      var l: nat :| l < |rows| && rows[l] == kept[i];
    }
    forall i: nat, j: nat | i < j < |kept| ensures kept[i].file.id != kept[j].file.id {
      assert kept[i] in kept && kept[j] in kept;
      var k: nat :| k < |rows| && rows[k] == kept[i];
      var l: nat :| l < |rows| && rows[l] == kept[j];
      assert k != l;
    }
  }

  /** Writing a record unmarks no row exactly when the record marks every file that has a marked row. */
  lemma CommitKeepsMarksExactly(rows: seq<Row>, torrent: string, files: seq<FileRow>)
    requires DistinctIds(files)
    ensures (forall k: nat | k < |rows| && rows[k].file.remote :: UpdateRows(rows, torrent, files)[k].file.remote)
       <==> (forall k: nat, i: nat | k < |rows| && i < |files| && Matches(rows[k], torrent, files[i]) ::
               rows[k].file.remote ==> files[i].remote)
  {
    forall k: nat | k < |rows|
      ensures (rows[k].file.remote ==> UpdateRows(rows, torrent, files)[k].file.remote)
         <==> forall i: nat | i < |files| && Matches(rows[k], torrent, files[i]) ::
                rows[k].file.remote ==> files[i].remote
    {
      if i: nat :| i < |files| && Matches(rows[k], torrent, files[i]) {
        MatchedRow(rows, torrent, files, k, i);
      } else {
        UnmatchedRow(rows, torrent, files, k);
      }
    }
  }

  // ----- what a run leaves behind ----------------------------------------------------------

  lemma StepFiles(job: Job, st: State, i: nat, o: Outcome, s: State)
    requires DistinctIds(st.files) && i < |st.files| && s == Stepped(job, st, i, o)
    ensures s.files == if Commits(job, st, i, o) then st.files[i := Moved(job, st.files[i])] else st.files
    ensures DistinctIds(s.files)
  {
    ReplaceIs(st.files, i, Moved(job, st.files[i]));
  }

  lemma StepKeepsOtherFile(job: Job, s: State, n: nat, o: Outcome, s': State, i: nat)
    requires DistinctIds(s.files) && n < |s.files| && i < |s.files| && i != n && s' == Stepped(job, s, n, o)
    ensures DistinctIds(s'.files) && s'.files[i] == s.files[i]
  {
    StepFiles(job, s, n, o, s');
  }

  /** Turns change the entry of their own file only. */
  lemma {:induction false} RunLeavesFile(job: Job, st: State, outcomes: seq<Outcome>, i: nat, n: nat)
    requires DistinctIds(st.files) && n <= i < |st.files| <= |outcomes|
    ensures DistinctIds(Run(job, st, outcomes, n).files) && Run(job, st, outcomes, n).files[i] == st.files[i]
  {
    if n > 0 {
      RunLeavesFile(job, st, outcomes, i, n - 1);
      StepKeepsOtherFile(job, Run(job, st, outcomes, n - 1), n - 1, outcomes[n - 1], Run(job, st, outcomes, n), i);
    }
  }

  lemma {:induction false} RunKeepsFile(job: Job, st: State, outcomes: seq<Outcome>, i: nat, n: nat)
    requires i < n <= |st.files| <= |outcomes| && DistinctIds(Run(job, st, outcomes, i + 1).files)
    ensures DistinctIds(Run(job, st, outcomes, n).files)
    ensures Run(job, st, outcomes, n).files[i] == Run(job, st, outcomes, i + 1).files[i]
  {
    if n > i + 1 {
      RunKeepsFile(job, st, outcomes, i, n - 1);
      StepKeepsOtherFile(job, Run(job, st, outcomes, n - 1), n - 1, outcomes[n - 1], Run(job, st, outcomes, n), i);
    }
  }

  /**
   * A run stores a file exactly when it is selected, complete, not empty and not stored yet, its bytes are on the
   * disk and the quota has room at its turn, and the calls for it succeed. Otherwise its entry stays as it was.
   */
  lemma FileMovedExactly(job: Job, st: State, outcomes: seq<Outcome>, i: nat)
    requires DistinctIds(st.files) && i < |st.files| <= |outcomes|
    ensures var f, o, before := st.files[i], outcomes[i], Run(job, st, outcomes, i);
            var ready := f.selected && !f.remote && 0 < f.bytes <= f.downloaded
                           && f.diskPath != "" && f.diskPath in before.world.disk
                           && (job.quota <= 0 || before.used + f.bytes <= job.quota);
            Run(job, st, outcomes, |st.files|).files[i] ==
              if ready && o.opens && o.upload == Stored && o.commits then
                f.(objectKey := ObjectKeys.Key(job.prefix, job.infoHash, f.path), remote := true)
              else f
  {
    var before := Run(job, st, outcomes, i);
    var after := Stepped(job, before, i, outcomes[i]);
    RunLeavesFile(job, st, outcomes, i, i);
    StepFiles(job, before, i, outcomes[i], after);
    RunKeepsFile(job, st, outcomes, i, |st.files|);
  }

  lemma {:induction false} DiskShrinks(job: Job, st: State, outcomes: seq<Outcome>, n: nat)
    requires n <= |st.files| <= |outcomes|
    ensures Run(job, st, outcomes, n).world.disk.Keys <= st.world.disk.Keys
  {
    if n > 0 {
      DiskShrinks(job, st, outcomes, n - 1);
    }
  }

  /** Whatever fails, a file that a run marks stored was selected and complete, with its bytes on the disk. */
  lemma OnlyCompleteFilesMove(job: Job, st: State, outcomes: seq<Outcome>, i: nat)
    requires DistinctIds(st.files) && i < |st.files| <= |outcomes|
    requires !st.files[i].remote && Run(job, st, outcomes, |st.files|).files[i].remote
    ensures st.files[i].selected && 0 < st.files[i].bytes <= st.files[i].downloaded
    ensures st.files[i].diskPath != "" && st.files[i].diskPath in st.world.disk
  {
    FileMovedExactly(job, st, outcomes, i);
    DiskShrinks(job, st, outcomes, i);
  }

  /** Every file has a disk path of its own. */
  ghost predicate OwnPaths(files: seq<FileRow>) {
    && (forall i: nat | i < |files| :: files[i].diskPath != "")
    && (forall i: nat, j: nat | i < j < |files| :: files[i].diskPath != files[j].diskPath)
  }

  ghost predicate SamePaths(files: seq<FileRow>, files': seq<FileRow>) {
    |files| == |files'| && forall i: nat | i < |files| :: files'[i].diskPath == files[i].diskPath
  }

  /** Of the first n files those are on the disk that were and that are not stored; the disk is otherwise as it was. */
  ghost predicate Cleared(st: State, s: State, n: nat)
    requires n <= |st.files| == |s.files|
  {
    && (forall i: nat | i < n ::
          st.files[i].diskPath in s.world.disk <==> st.files[i].diskPath in st.world.disk && !s.files[i].remote)
    && (forall p: string | (forall i: nat | i < n :: st.files[i].diskPath != p) ::
          (p in s.world.disk <==> p in st.world.disk))
  }

  ghost predicate Clearing(st: State, s: State, n: nat) {
    DistinctIds(s.files) && SamePaths(st.files, s.files) && n <= |st.files| && Cleared(st, s, n)
  }

  lemma NothingCleared(st: State)
    requires DistinctIds(st.files)
    ensures Clearing(st, st, 0)
  {}

  lemma ClearOne(st: State, s: State, n: nat, s': State)
    requires OwnPaths(st.files) && n < |st.files| && Clearing(st, s, n)
    requires DistinctIds(s'.files) && SamePaths(s.files, s'.files)
    requires forall i: nat | i < |s.files| && i != n :: s'.files[i] == s.files[i]
    requires s'.world.disk == if s'.files[n].remote then s.world.disk - {st.files[n].diskPath} else s.world.disk
    ensures Clearing(st, s', n + 1)
  {
    var path := st.files[n].diskPath;
    assert path in s.world.disk <==> path in st.world.disk;
    forall p: string | (forall i: nat | i < n + 1 :: st.files[i].diskPath != p)
      ensures p in s'.world.disk <==> p in st.world.disk
    {
      assert p != path;
    }
  }

  lemma StepDisk(job: Job, s: State, n: nat, o: Outcome, s': State)
    requires DistinctIds(s.files) && n < |s.files| && s' == Stepped(job, s, n, o)
    requires job.removeLocal && o.removes && s.files[n].diskPath != ""
    ensures s'.world.disk == if s'.files[n].remote then s.world.disk - {s.files[n].diskPath} else s.world.disk
  {
    StepFiles(job, s, n, o, s');
  }

  lemma StepClears(job: Job, st: State, s: State, n: nat, o: Outcome, s': State)
    requires OwnPaths(st.files) && job.removeLocal && n < |st.files| && o.removes
    requires Clearing(st, s, n) && s' == Stepped(job, s, n, o)
    ensures Clearing(st, s', n + 1)
  {
    assert s.files[n].diskPath == st.files[n].diskPath;
    StepFiles(job, s, n, o, s');
    StepDisk(job, s, n, o, s');
    ClearOne(st, s, n, s');
  }

  lemma RunClears(job: Job, st: State, outcomes: seq<Outcome>, n: nat)
    requires DistinctIds(st.files) && OwnPaths(st.files) && job.removeLocal && n <= |st.files| <= |outcomes|
    requires forall i: nat | i < n :: outcomes[i].removes
    ensures Clearing(st, Run(job, st, outcomes, n), n)
  {
    var inv := (i: nat, s: State) => Clearing(st, s, i);
    NothingCleared(st);
    forall i: nat, s: State | i < n && |s.files| == |st.files| && inv(i, s)
      ensures inv(i + 1, Stepped(job, s, i, outcomes[i]))
    {
      StepClears(job, st, s, i, outcomes[i], Stepped(job, s, i, outcomes[i]));
    }
    RunInduction(job, st, outcomes, n, inv);
  }

  /** When local copies go and can be removed, the disk keeps exactly the files that are not stored. */
  lemma LocalCopiesExactly(job: Job, st: State, outcomes: seq<Outcome>, i: nat)
    requires DistinctIds(st.files) && OwnPaths(st.files) && job.removeLocal && i < |st.files| <= |outcomes|
    requires forall o <- outcomes :: o.removes
    ensures var end := Run(job, st, outcomes, |st.files|);
            st.files[i].diskPath in end.world.disk <==> st.files[i].diskPath in st.world.disk && !end.files[i].remote
  {
    RunClears(job, st, outcomes, |st.files|);
  }

  ghost predicate Accounted(st: State, s: State) {
    forall key <- s.world.objects ::
      key in st.world.objects || exists f <- s.files :: f.remote && f.objectKey == key
  }

  lemma StepAccounts(job: Job, st: State, s: State, n: nat, o: Outcome, s': State)
    requires DistinctIds(s.files) && n < |s.files| && o.upload != StoredButFails && o.deletes
    requires Accounted(st, s) && s' == Stepped(job, s, n, o)
    ensures DistinctIds(s'.files) && Accounted(st, s')
  {
    StepFiles(job, s, n, o, s');
    var key := TargetKey(job, s.files[n]);
    forall k | k in s'.world.objects && k !in st.world.objects
      ensures exists f <- s'.files :: f.remote && f.objectKey == k
    {
      if Commits(job, s, n, o) && k == key {
        assert s'.files[n] in s'.files;
      } else {
        assert k in s.world.objects;
        var f :| f in s.files && f.remote && f.objectKey == k;
        var i: nat :| i < |s.files| && s.files[i] == f;
        assert s'.files[i] == f;
      }
    }
  }

  /** Unless a failed upload stores or a deletion fails, every new object belongs to a file marked stored. */
  lemma NoOrphans(job: Job, st: State, outcomes: seq<Outcome>, n: nat)
    requires DistinctIds(st.files) && n <= |st.files| <= |outcomes|
    requires forall o <- outcomes :: o.upload != StoredButFails && o.deletes
    ensures DistinctIds(Run(job, st, outcomes, n).files) && Accounted(st, Run(job, st, outcomes, n))
  {
    var inv := (i: nat, s: State) => DistinctIds(s.files) && Accounted(st, s);
    forall i: nat, s: State | i < n && |s.files| == |st.files| && inv(i, s)
      ensures inv(i + 1, Stepped(job, s, i, outcomes[i]))
    {
      assert outcomes[i] in outcomes;
      StepAccounts(job, st, s, i, outcomes[i], Stepped(job, s, i, outcomes[i]));
    }
    RunInduction(job, st, outcomes, n, inv);
  }

  // ----- two files, one key ----------------------------------------------------------------

  const SUCCEEDS := Outcome(true, Stored, true, true, true)

  /** Every file is complete, on the disk, at a path of its own; no call fails and local copies go. */
  ghost predicate AllGoes(job: Job, st: State, outcomes: seq<Outcome>) {
    && DistinctIds(st.files) && |st.files| <= |outcomes|
    && job.quota <= 0 && job.removeLocal && '/' !in job.infoHash
    && (forall i: nat | i < |st.files| ::
          && st.files[i].selected && !st.files[i].remote && 0 < st.files[i].bytes <= st.files[i].downloaded
          && st.files[i].diskPath != "" && st.files[i].diskPath in st.world.disk)
    && (forall i: nat, j: nat | i < j < |st.files| :: st.files[i].diskPath != st.files[j].diskPath)
    && (forall i: nat | i < |st.files| :: outcomes[i] == SUCCEEDS)
  }

  ghost predicate SamePieces(p: string, q: string) {
    ObjectKeys.Segments(ObjectKeys.ForwardSlashes(p)) == ObjectKeys.Segments(ObjectKeys.ForwardSlashes(q))
  }

  /** What the disk holds at the start for file i. */
  function Body(st: State, i: nat): Content
    requires i < |st.files|
  {
    if st.files[i].diskPath in st.world.disk then st.world.disk[st.files[i].diskPath] else []
  }

  predicate WrittenFrom(job: Job, st: State, objects: map<string, Content>, i: nat, j: nat)
    requires i < |st.files| && j < |st.files|
  {
    var key := TargetKey(job, st.files[i]);
    TargetKey(job, st.files[j]) == key && key in objects && objects[key] == Body(st, j)
  }

  /** The object of file i was written from a file with the same key. */
  ghost predicate Written(job: Job, st: State, objects: map<string, Content>, i: nat)
    requires i < |st.files|
  {
    exists j: nat :: j < |st.files| && WrittenFrom(job, st, objects, i, j)
  }

  ghost predicate MovedSoFar(job: Job, st: State, n: nat, s: State)
    requires n <= |st.files|
  {
    && |s.files| == |st.files|
    && (forall i: nat | i < |st.files| :: s.files[i] == if i < n then Moved(job, st.files[i]) else st.files[i])
    && (forall i: nat | i < n :: st.files[i].diskPath !in s.world.disk)
    && (forall i: nat | n <= i < |st.files| :: st.files[i].diskPath in s.world.disk && Body(s, i) == Body(st, i))
    && (forall i: nat | i < n :: Written(job, st, s.world.objects, i))
  }

  lemma WriteOne(job: Job, st: State, n: nat, objects: map<string, Content>, after: map<string, Content>)
    requires n < |st.files| && after == objects[TargetKey(job, st.files[n]) := Body(st, n)]
    requires forall i: nat | i < n :: Written(job, st, objects, i)
    ensures forall i: nat | i <= n :: Written(job, st, after, i)
  {
    var key := TargetKey(job, st.files[n]);
    forall i: nat | i <= n ensures Written(job, st, after, i) {
      if TargetKey(job, st.files[i]) == key {
        assert WrittenFrom(job, st, after, i, n);
      } else {
        assert i < n;
        assert Written(job, st, objects, i);
        var j: nat :| j < |st.files| && WrittenFrom(job, st, objects, i, j);
        assert WrittenFrom(job, st, after, i, j);
      }
    }
  }

  /** What a turn does to a file when nothing fails. */
  predicate MovesFile(job: Job, st: State, n: nat, s: State)
    requires n < |st.files|
  {
    && s.files == st.files[n := Moved(job, st.files[n])]
    && s.world.disk == st.world.disk - {st.files[n].diskPath}
    && s.world.objects == st.world.objects[TargetKey(job, st.files[n]) := Body(st, n)]
    && s.world.rows == UpdateRows(st.world.rows, job.torrent, s.files)
  }

  lemma StepMoves(job: Job, st: State, n: nat)
    requires DistinctIds(st.files) && n < |st.files| && job.quota <= 0 && job.removeLocal
    requires st.files[n].selected && !st.files[n].remote && 0 < st.files[n].bytes <= st.files[n].downloaded
    requires st.files[n].diskPath != "" && st.files[n].diskPath in st.world.disk
    ensures MovesFile(job, st, n, Stepped(job, st, n, SUCCEEDS))
  {
    ReplaceIs(st.files, n, Moved(job, st.files[n]));
    assert Commits(job, st, n, SUCCEEDS);
  }

  lemma MoveOne(job: Job, st: State, outcomes: seq<Outcome>, n: nat, s: State, s': State)
    requires AllGoes(job, st, outcomes) && n < |st.files|
    requires MovedSoFar(job, st, n, s) && MovesFile(job, s, n, s')
    ensures MovedSoFar(job, st, n + 1, s')
  {
    assert s.files[n] == st.files[n] && Body(s, n) == Body(st, n);
    WriteOne(job, st, n, s.world.objects, s'.world.objects);
  }

  lemma NothingMoved(job: Job, st: State, outcomes: seq<Outcome>)
    requires AllGoes(job, st, outcomes)
    ensures MovedSoFar(job, st, 0, st)
  {}

  lemma MoveNext(job: Job, st: State, outcomes: seq<Outcome>, n: nat, s: State, s': State)
    requires AllGoes(job, st, outcomes) && n < |st.files| && MovedSoFar(job, st, n, s)
    requires s' == Stepped(job, s, n, outcomes[n])
    ensures MovedSoFar(job, st, n + 1, s')
  {
    assert outcomes[n] == SUCCEEDS && s.files[n] == st.files[n];
    StepMoves(job, s, n);
    MoveOne(job, st, outcomes, n, s, s');
  }

  lemma MoveMany(job: Job, st: State, outcomes: seq<Outcome>, n: nat)
    requires AllGoes(job, st, outcomes) && n <= |st.files|
    ensures MovedSoFar(job, st, n, Run(job, st, outcomes, n))
  {
    var inv := (i: nat, s: State) => i <= |st.files| && MovedSoFar(job, st, i, s);
    NothingMoved(job, st, outcomes);
    forall i: nat, s: State | i < n && |s.files| == |st.files| && inv(i, s)
      ensures inv(i + 1, Stepped(job, s, i, outcomes[i]))
    {
      MoveNext(job, st, outcomes, i, s, Stepped(job, s, i, outcomes[i]));
    }
    RunInduction(job, st, outcomes, n, inv);
  }

  lemma SurvivalByKeys(job: Job, st: State, end: State)
    requires MovedSoFar(job, st, |st.files|, end)
    ensures (forall i: nat | i < |st.files| :: Held(end.world, end.files[i], Body(st, i)))
       <==> (forall i: nat, j: nat | i < |st.files| && j < |st.files|
           && TargetKey(job, st.files[i]) == TargetKey(job, st.files[j]) ::
               Body(st, i) == Body(st, j))
  {
    var objects := end.world.objects;
    forall i: nat | i < |st.files|
      ensures TargetKey(job, st.files[i]) in objects
      ensures Held(end.world, end.files[i], Body(st, i)) <==> objects[TargetKey(job, st.files[i])] == Body(st, i)
      ensures (forall j: nat | j < |st.files| && TargetKey(job, st.files[i]) == TargetKey(job, st.files[j]) ::
          Body(st, i) == Body(st, j))
          ==> Held(end.world, end.files[i], Body(st, i))
    {
      assert Written(job, st, objects, i);
      assert end.files[i] == Moved(job, st.files[i]);
    }
  }

  /**
   * With nothing failing, all files survive exactly when those whose paths have the same pieces have the same
   * bytes.
   */
  lemma SurvivalExactly(job: Job, st: State, outcomes: seq<Outcome>, end: State)
    requires AllGoes(job, st, outcomes) && end == Run(job, st, outcomes, |st.files|)
    ensures (forall i: nat | i < |st.files| :: Held(end.world, end.files[i], Body(st, i)))
       <==> (forall i: nat, j: nat | i < |st.files| && j < |st.files|
           && SamePieces(st.files[i].path, st.files[j].path) ::
               Body(st, i) == Body(st, j))
  {
    MoveMany(job, st, outcomes, |st.files|);
    SurvivalByKeys(job, st, end);
    forall i: nat, j: nat | i < |st.files| && j < |st.files|
      ensures TargetKey(job, st.files[i]) == TargetKey(job, st.files[j])
          <==> SamePieces(st.files[i].path, st.files[j].path)
    {
      ObjectKeys.SameKeyExactly(job.prefix, job.infoHash, st.files[i].path, job.infoHash, st.files[j].path);
    }
  }

  lemma SlashesSame(a: string, b: string, p: string, q: string)
    requires p == a + "//" + b && q == a + "\\" + b
    ensures SamePieces(p, q)
  {
    ObjectKeys.DoubledSlashSameKey("", "h", a, b);
    ObjectKeys.SameKeyExactly("", "h", p, "h", q);
  }

  lemma BothPathsSame(p: string, q: string)
    requires p == "a//b" && q == "a\\b"
    ensures SamePieces(p, q)
  {
    SlashesSame("a", "b", p, q);
  }

  lemma NotBothSurvive(job: Job, st: State, end: State)
    requires AllGoes(job, st, [SUCCEEDS, SUCCEEDS]) && |st.files| == 2 && end == Run(job, st, [SUCCEEDS, SUCCEEDS], 2)
    requires SamePieces(st.files[0].path, st.files[1].path) && Body(st, 0) != Body(st, 1)
    ensures !Held(end.world, end.files[0], Body(st, 0)) || !Held(end.world, end.files[1], Body(st, 1))
  {
    SurvivalExactly(job, st, [SUCCEEDS, SUCCEEDS], end);
  }

  function TwoFiles(a: FileRow, b: FileRow): State {
    State(World(map["disk/1" := [1], "disk/2" := [2]], map[], []), [a, b], 0)
  }

  lemma TwoFilesGo(a: FileRow, b: FileRow, job: Job)
    requires a == FileRow(1, "a//b", 1, true, 1, 1, "disk/1", "", false)
    requires b == FileRow(2, "a\\b", 1, true, 1, 1, "disk/2", "", false)
    requires job == Job("T", "h", "", 0, true)
    ensures AllGoes(job, TwoFiles(a, b), [SUCCEEDS, SUCCEEDS])
    ensures Body(TwoFiles(a, b), 0) == [1] && Body(TwoFiles(a, b), 1) == [2]
  {
    assert "disk/1"[5] != "disk/2"[5];
  }

  /** Files "a//b" and "a\\b" of one byte each, 1 and 2: one of them is lost though nothing fails. */
  lemma TwoFilesOneLost(a: FileRow, b: FileRow, job: Job)
    requires a == FileRow(1, "a//b", 1, true, 1, 1, "disk/1", "", false)
    requires b == FileRow(2, "a\\b", 1, true, 1, 1, "disk/2", "", false)
    requires job == Job("T", "h", "", 0, true)
    ensures var end := Run(job, TwoFiles(a, b), [SUCCEEDS, SUCCEEDS], 2);
            !Held(end.world, end.files[0], [1]) || !Held(end.world, end.files[1], [2])
  {
    TwoFilesGo(a, b, job);
    BothPathsSame(a.path, b.path);
    NotBothSurvive(job, TwoFiles(a, b), Run(job, TwoFiles(a, b), [SUCCEEDS, SUCCEEDS], 2));
  }

  /**
   * Taking back an object after a failed commit spares a stored file with no local copy exactly when its key
   * is another.
   */
  lemma FailedCommitSparesExactly(job: Job, st: State, i: nat, o: Outcome, k: nat, body: Content)
    requires i < |st.files| && k < |st.world.rows|
    requires Uploads(job, st, i, o) && o.upload.Stored? && !o.commits && o.deletes
    requires Held(st.world, st.world.rows[k].file, body) && st.world.rows[k].file.diskPath !in st.world.disk
    ensures var end := Stepped(job, st, i, o).world;
            |end.rows| == |st.world.rows|
            && (Held(end, end.rows[k].file, body) <==> st.world.rows[k].file.objectKey != TargetKey(job, st.files[i]))
  {
    assert !Removes(job, st, i, o) && !Commits(job, st, i, o);
    var key := TargetKey(job, st.files[i]);
    var end := Stepped(job, st, i, o).world;
    assert end.rows == st.world.rows && end.disk == st.world.disk && key !in end.objects;
    assert forall other: string :: other != key ==>
      (other in end.objects <==> other in st.world.objects)
          && (other in end.objects ==> end.objects[other] == st.world.objects[other]);
  }

  /**
   * Two torrents with a file "/a" and one info hash: the upload for the second fails to commit, and the first
   * loses its object.
   */
  lemma FailedCommitLosesFile(a: FileRow, b: FileRow, o: Outcome) returns (job: Job, st: State)
    requires a == FileRow(1, "/a", 1, true, 1, 1, "", ObjectKeys.Key("", "h", "/a"), true)
    requires b == FileRow(1, "/a", 1, true, 1, 1, "disk/a", "", false)
    requires o == Outcome(true, Stored, false, true, true)
    ensures st.world.rows == [Row("A", a), Row("B", b)] && st.files == [b] && job.torrent == "B"
    ensures Held(st.world, a, [7])
    ensures var end := Stepped(job, st, 0, o).world; |end.rows| == 2 && !Held(end, end.rows[0].file, [7])
  {
    job := Job("B", "h", "", 0, false);
    st := State(World(map["disk/a" := [7]], map[a.objectKey := [7]], [Row("A", a), Row("B", b)]), [b], 0);
    FailedCommitSparesExactly(job, st, 0, o, 0, [7]);
  }

  // ----- a record read too early -----------------------------------------------------------

  lemma StaleSkips(a: FileRow, b: FileRow, job: Job, w: World, o: Outcome)
    requires a.diskPath !in w.disk && !a.remote
    ensures Stepped(job, State(w, [a, b], 0), 0, o) == State(w, [a, b], 0)
  {}

  /** The row says stored and the local copy is gone, but the record was read before that. */
  lemma StaleRecordLosesFile(a: FileRow, b: FileRow, job: Job, w: World, body: Content, end: State)
    requires a.id == 1 && b.id == 2 && a.remote && b.selected && !b.remote && 0 < b.bytes <= b.downloaded
    requires a.diskPath !in w.disk && b.diskPath != "" && b.diskPath in w.disk
    requires a.objectKey in w.objects && w.objects[a.objectKey] == body
    requires w.rows == [Row(job.torrent, a), Row(job.torrent, b)] && job.quota <= 0 && job.removeLocal
    requires end == Run(job, State(w, [a.(remote := false), b], 0), [SUCCEEDS, SUCCEEDS], 2)
    ensures Held(w, w.rows[0].file, body)
    ensures |end.world.rows| == 2 && !Held(end.world, end.world.rows[0].file, body)
  {
    var files := [a.(remote := false), b];
    var st := State(w, files, 0);
    StaleSkips(files[0], b, job, w, SUCCEEDS);
    assert Run(job, st, [SUCCEEDS, SUCCEEDS], 0) == st;
    assert Run(job, st, [SUCCEEDS, SUCCEEDS], 1) == st;
    StepMoves(job, st, 1);
    MatchedRow(w.rows, job.torrent, files[1 := Moved(job, b)], 0, 0);
  }

  /** One turn of the loop that replaces an entry. */
  lemma ReplaceFrom(files: seq<FileRow>, i: nat, f: FileRow)
    requires i < |files|
    ensures files[..i] + Replace(files[i..], f)
         == if files[i].id == f.id then files[i := f] else files[..i + 1] + Replace(files[i + 1..], f)
  {
    assert files[i..][1..] == files[i + 1..];
    assert files[..i + 1] == files[..i] + [files[i]];
  }

  // ----- the source's own form -------------------------------------------------------------

  class Database {
    var rows: seq<Row>

    constructor (rows: seq<Row>)
      ensures this.rows == rows
    {
      this.rows := rows;
    }

    /** One transaction; the statement numbered failAt, the commit being the last, is the one that fails. */
    method UpdateTorrentFiles(torrent: string, files: seq<FileRow>, failAt: nat) returns (ok: bool)
      modifies this
      ensures ok == (failAt > |files|)
      ensures rows == if ok then UpdateRows(old(rows), torrent, files) else old(rows)
    {
      var pending := rows;
      var i := 0;
      while i < |files|
        invariant i <= |files| && i <= failAt
        invariant pending == UpdateRows(rows, torrent, files[..i]) && rows == old(rows)
      {
        if i == failAt {
          return false;
        }
        assert files[..i + 1][..i] == files[..i];
        pending := UpdateAll(pending, torrent, files[i]);
        i := i + 1;
      }
      assert files[..|files|] == files;
      if failAt == |files| {
        return false;
      }
      rows := pending;
      ok := true;
    }
  }

  class TorrentRecord {
    const id: string
    const infoHash: string
    var files: seq<FileRow>

    constructor (id: string, infoHash: string, files: seq<FileRow>)
      ensures this.id == id && this.infoHash == infoHash && this.files == files
    {
      this.id, this.infoHash, this.files := id, infoHash, files;
    }
  }

  class Manager {
    const db: Database
    const prefix: string
    var disk: map<string, Content>
    var objects: map<string, Content>

    constructor (db: Database, prefix: string, disk: map<string, Content>, objects: map<string, Content>)
      ensures this.db == db && this.prefix == prefix && this.disk == disk && this.objects == objects
    {
      this.db, this.prefix, this.disk, this.objects := db, prefix, disk, objects;
    }

    ghost function Now(): World
      reads this, db
    {
      World(disk, objects, db.rows)
    }

    ghost function StateOf(files: seq<FileRow>, used: int): State
      reads this, db
    {
      State(Now(), files, used)
    }

    method RemoveLocalOffloadedFile(f: FileRow, o: Outcome)
      modifies this`disk
      ensures disk == if f.diskPath != "" && o.removes then old(disk) - {f.diskPath} else old(disk)
    {
      if f.diskPath == "" {
        return;
      }
      if o.removes {
        disk := disk - {f.diskPath};
      }
    }

    method OffloadOneFile(infoHash: string, f: FileRow, o: Outcome) returns (changed: bool, out: FileRow)
      modifies this`objects
      ensures var ready := f.selected && !f.remote && 0 < f.bytes <= f.downloaded
                             && f.diskPath != "" && f.diskPath in disk && o.opens;
              var key := ObjectKeys.Key(prefix, infoHash, f.path);
              && changed == (ready && o.upload.Stored?)
              && out == (if changed then f.(objectKey := key, remote := true) else f)
              && objects == if ready && o.upload != Refused then old(objects)[key := disk[f.diskPath]]
                            else old(objects)
    {
      if !Candidate(f) || f.diskPath == "" || f.diskPath !in disk || !o.opens {
        return false, f;
      }
      var key := ObjectKeys.ObjectKey(prefix, infoHash, f.path);
      if o.upload != Refused {
        objects := objects[key := disk[f.diskPath]];
      }
      if !o.upload.Stored? {
        return false, f;
      }
      return true, f.(objectKey := key, remote := true);
    }

    method ReplaceTorrentFile(files: seq<FileRow>, updated: FileRow) returns (out: seq<FileRow>)
      ensures out == Replace(files, updated)
    {
      out := files;
      assert files[..0] + Replace(files[0..], updated) == Replace(files, updated);
      for i := 0 to |out|
        invariant out == files
        invariant Replace(files, updated) == files[..i] + Replace(files[i..], updated)
      {
        ReplaceFrom(files, i, updated);
        if out[i].id == updated.id {
          return out[i := updated];
        }
      }
      assert files[|files|..] == [] && files[..|files|] == files;
    }

    /** The loop's body. */
    method OffloadAt(rec: TorrentRecord, quota: int, removeLocal: bool, used: int, i: nat, o: Outcome)
      returns (used': int)
      requires i < |rec.files|
      modifies this`disk, this`objects, db, rec
      ensures StateOf(rec.files, used')
           == Stepped(Job(rec.id, rec.infoHash, prefix, quota, removeLocal), old(StateOf(rec.files, used)), i, o)
    {
      ghost var job := Job(rec.id, rec.infoHash, prefix, quota, removeLocal);
      ghost var st := StateOf(rec.files, used);
      used' := used;
      var f := rec.files[i];
      if f.remote {
        if removeLocal {
          RemoveLocalOffloadedFile(f, o);
        }
        return;
      }
      if !Candidate(f) {
        return;
      }
      if quota > 0 && used + f.bytes > quota {
        return;
      }
      var changed, out := OffloadOneFile(rec.infoHash, f, o);
      assert StateOf(rec.files, used) == Uploaded(job, st, i, o);
      if changed {
        var nextFiles := ReplaceTorrentFile(rec.files, out);
        var ok := db.UpdateTorrentFiles(rec.id, nextFiles, if o.commits then |nextFiles| + 1 else |nextFiles|);
        if !ok {
          if o.deletes {
            objects := objects - {out.objectKey};
          }
          return;
        }
        rec.files := nextFiles;
        if removeLocal {
          RemoveLocalOffloadedFile(out, o);
        }
        used' := used + f.bytes;
      }
    }

    /** usage is what the usage query returns, None when it fails. */
    method OffloadFiles(rec: TorrentRecord, quota: int, removeLocal: bool, usage: Option<int>, outcomes: seq<Outcome>)
      requires |rec.files| <= |outcomes|
      modifies this`disk, this`objects, db, rec
      ensures quota > 0 && usage.None? ==> Now() == old(Now()) && rec.files == old(rec.files)
      ensures !(quota > 0 && usage.None?) ==>
                var used := if quota > 0 then usage.value else 0;
                var end := Run(Job(rec.id, rec.infoHash, prefix, quota, removeLocal),
                               old(StateOf(rec.files, used)), outcomes, |old(rec.files)|);
                Now() == end.world && rec.files == end.files
    {
      var used := 0;
      if quota > 0 {
        if usage.None? {
          return;
        }
        used := usage.value;
      }
      ghost var job := Job(rec.id, rec.infoHash, prefix, quota, removeLocal);
      ghost var start := StateOf(rec.files, used);
      var n := |rec.files|;
      for i := 0 to n
        invariant |rec.files| == n == |start.files|
        invariant StateOf(rec.files, used) == Run(job, start, outcomes, i)
      {
        var o := outcomes[i];
        used := OffloadAt(rec, quota, removeLocal, used, i, o);
      }
    }
  }
}
