/**
 * The HLS job table: request threads racing through ensureJob (Load, MkdirAll,
 * LoadOrStore) and waitReady, and one runJob goroutine per stored job (runner, RemoveAll, setErr,
 * CompareAndDelete, close(done)).
 *
 * Every atomic operation of the source is one Action; a run is any sequence of enabled actions, so
 * the theorems below hold for any number of threads and every interleaving.
 */
module HlsJobs {
  import opened Strings

  /** The map key "<torrent id>/<file id>"; each key has its own output directory. */
  datatype Key = Key(torrentId: string, fileId: int)

  type JobId = nat        // a *hlsJob: jobs are numbered in the order the table stored them
  type ThreadId = nat

  /** The runner's error, joined with the error of the cleanup when RemoveAll failed too. */
  datatype JobError = JobError(run: string, cleanup: Option<string>)

  /** Where the runJob goroutine stands. */
  datatype Phase =
    | Starting                // the runner has not yet looked for an index
    | Running                 // it found none and is at work on the output directory
    | Returned                // the runner returned nil
    | Failed(run: string)     // the runner returned an error; RemoveAll comes next
    | Cleaned(error: JobError) // RemoveAll is over; setErr comes next
    | Recorded                // the error is set; CompareAndDelete comes next
    | Evicted                 // CompareAndDelete is over
    | Closed                  // done is closed and the goroutine is gone

  /** Who wrote index.m3u8: an earlier process, or a job of this one. */
  datatype Writer = Earlier | By(job: JobId)

  /** An output directory: the jobs with output in it, and the index if there is one. */
  datatype Dir = Dir(writers: set<JobId>, index: Option<Writer>)

  /** `found` is history: the index at which the runner returned at once. */
  datatype Job = Job(key: Key, phase: Phase, err: Option<JobError>, done: bool, found: Option<Writer>)

  /** What waitReady returns; Ready names the index that it saw. */
  datatype WaitResult = JobFailed(error: JobError) | Ready(index: Writer) | OutputMissing | GaveUp

  /** Where a request thread stands. */
  datatype Pc =
    | Idle
    | Looking(key: Key)
    | Missed(key: Key)
    | Made(key: Key)
    | MkdirFailed
    | Has(job: JobId)
    | Waited(job: JobId, result: WaitResult)

  /** table: the sync.Map. dirs: the output directories that exist. */
  datatype State = State(
    table: map<Key, JobId>,
    jobs: seq<Job>,
    dirs: map<Key, Dir>,
    threads: map<ThreadId, Pc>)

  datatype Action =
    | Enter(t: ThreadId, key: Key)
    | Load(t: ThreadId)
    | MkdirAll(t: ThreadId, ok: bool)
    | LoadOrStore(t: ThreadId)
    | Begin(j: JobId)
    | Write(j: JobId, index: bool)
    | RunnerReturns(j: JobId, error: Option<string>)
    | RemoveAll(j: JobId, error: Option<string>, left: set<JobId>, leavesIndex: bool)
    | SetErr(j: JobId)
    | CompareAndDelete(j: JobId)
    | CloseDone(j: JobId)
    | WaitDone(t: ThreadId)
    | WaitGivesUp(t: ThreadId)

  /** The process starts on the directories that earlier ones left. */
  function Start(dirs: map<Key, Dir>): State {
    State(map[], [], dirs, map[])
  }

  ghost predicate Leftover(dirs: map<Key, Dir>) {
    forall k <- dirs :: dirs[k].writers == {} && (dirs[k].index.Some? ==> dirs[k].index.value == Earlier)
  }

  function PcOf(s: State, t: ThreadId): Pc {
    if t in s.threads then s.threads[t] else Idle
  }

  function IndexOf(s: State, k: Key): Option<Writer> {
    if k in s.dirs then s.dirs[k].index else None
  }

  function Goto(s: State, t: ThreadId, pc: Pc): State {
    s.(threads := s.threads[t := pc])
  }

  function SetJob(s: State, j: JobId, job: Job): State
    requires j < |s.jobs|
  {
    s.(jobs := s.jobs[j := job])
  }

  // ----- the threads -----------------------------------------------------------------------

  function DoMkdirAll(s: State, t: ThreadId, k: Key): State {
    Goto(s, t, Made(k)).(dirs := if k in s.dirs then s.dirs else s.dirs[k := Dir({}, None)])
  }

  function DoStore(s: State, t: ThreadId, k: Key): State {
    Goto(s, t, Has(|s.jobs|)).(
      table := s.table[k := |s.jobs|],
      jobs := s.jobs + [Job(k, Starting, None, false, None)])
  }

  function Outcome(s: State, j: JobId): WaitResult
    requires j < |s.jobs|
  {
    match s.jobs[j].err
    case Some(e) => JobFailed(e)
    case None =>
      match IndexOf(s, s.jobs[j].key)
      case Some(w) => Ready(w)
      case None => OutputMissing
  }

  function ThreadStep(s: State, t: ThreadId, a: Action): Option<State> {
    match PcOf(s, t)
    case Idle => if a.Enter? then Some(Goto(s, t, Looking(a.key))) else None
    case MkdirFailed => if a.Enter? then Some(Goto(s, t, Looking(a.key))) else None
    case Waited(_, _) => if a.Enter? then Some(Goto(s, t, Looking(a.key))) else None
    case Looking(k) =>
      if a.Load? then Some(Goto(s, t, if k in s.table then Has(s.table[k]) else Missed(k))) else None
    case Missed(k) =>
      if a.MkdirAll? then Some(if a.ok then DoMkdirAll(s, t, k) else Goto(s, t, MkdirFailed)) else None
    case Made(k) =>
      if a.LoadOrStore? then Some(if k in s.table then Goto(s, t, Has(s.table[k])) else DoStore(s, t, k))
      else None
    case Has(j) =>
      if a.WaitGivesUp? then Some(Goto(s, t, Waited(j, GaveUp)))
      else if a.WaitDone? && j < |s.jobs| && s.jobs[j].done then Some(Goto(s, t, Waited(j, Outcome(s, j))))
      else None
  }

  // ----- the goroutine ---------------------------------------------------------------------

  /** The runner looks for an index first, and is done if there is one. */
  function DoBegin(s: State, j: JobId): State
    requires j < |s.jobs|
  {
    var found := IndexOf(s, s.jobs[j].key);
    SetJob(s, j, s.jobs[j].(phase := if found.Some? then Returned else Running, found := found))
  }

  function DoWrite(s: State, j: JobId, index: bool): State
    requires j < |s.jobs| && s.jobs[j].key in s.dirs
  {
    var d := s.dirs[s.jobs[j].key];
    s.(dirs := s.dirs[s.jobs[j].key := Dir(d.writers + {j}, if index then Some(By(j)) else d.index)])
  }

  /** RemoveAll that succeeds takes the whole directory. */
  function DoRemoveAll(s: State, j: JobId, run: string): State
    requires j < |s.jobs|
  {
    SetJob(s, j, s.jobs[j].(phase := Cleaned(JobError(run, None)))).(dirs := s.dirs - {s.jobs[j].key})
  }

  function LeftOf(d: Dir, left: set<JobId>, leavesIndex: bool): Dir {
    Dir(d.writers * left, if leavesIndex then d.index else None)
  }

  /** RemoveAll that fails leaves the directory, with some of what was in it. */
  function DoFailingRemoveAll(s: State, j: JobId, run: string, error: string, left: set<JobId>,
                              leavesIndex: bool): State
    requires j < |s.jobs|
  {
    var k := s.jobs[j].key;
    SetJob(s, j, s.jobs[j].(phase := Cleaned(JobError(run, Some(error))))).(
      dirs := if k in s.dirs then s.dirs[k := LeftOf(s.dirs[k], left, leavesIndex)]
              else s.dirs)
  }

  predicate InTable(s: State, j: JobId)
    requires j < |s.jobs|
  {
    s.jobs[j].key in s.table && s.table[s.jobs[j].key] == j
  }

  function DoCompareAndDelete(s: State, j: JobId): State
    requires j < |s.jobs|
  {
    SetJob(s, j, s.jobs[j].(phase := Evicted)).(
      table := if InTable(s, j) then s.table - {s.jobs[j].key} else s.table)
  }

  /** RunnerReturns, SetErr and close(done) write to the job only. */
  function JobAfter(job: Job, a: Action): Option<Job> {
    match job.phase
    case Running =>
      if !a.RunnerReturns? then None
      else Some(job.(phase := match a.error case None => Returned case Some(e) => Failed(e)))
    case Cleaned(e) => if a.SetErr? then Some(job.(phase := Recorded, err := Some(e))) else None
    case Returned => if a.CloseDone? then Some(job.(phase := Closed, done := true)) else None
    case Evicted => if a.CloseDone? then Some(job.(phase := Closed, done := true)) else None
    case _ => None
  }

  function RunnerStep(s: State, j: JobId, a: Action): Option<State> {
    if j >= |s.jobs| then None
    else
      var job := s.jobs[j];
      if a.Begin? then
        if job.phase.Starting? then Some(DoBegin(s, j)) else None
      else if a.Write? then
        if job.phase.Running? && job.key in s.dirs then Some(DoWrite(s, j, a.index)) else None
      else if a.RemoveAll? then
        if !job.phase.Failed? then None
        else Some(match a.error
                  case None => DoRemoveAll(s, j, job.phase.run)
                  case Some(e) => DoFailingRemoveAll(s, j, job.phase.run, e, a.left, a.leavesIndex))
      else if a.CompareAndDelete? then
        if job.phase.Recorded? then Some(DoCompareAndDelete(s, j)) else None
      else match JobAfter(job, a)
           case None => None
           case Some(job') => Some(SetJob(s, j, job'))
  }

  predicate ByThread(a: Action) {
    a.Enter? || a.Load? || a.MkdirAll? || a.LoadOrStore? || a.WaitDone? || a.WaitGivesUp?
  }

  function Step(s: State, a: Action): Option<State> {
    if ByThread(a) then ThreadStep(s, a.t, a) else RunnerStep(s, a.j, a)
  }

  function Run(s: State, actions: seq<Action>): Option<State>
    decreases |actions|
  {
    if actions == [] then Some(s)
    else match Step(s, actions[0])
         case None => None
         case Some(s1) => Run(s1, actions[1..])
  }

  ghost predicate Reachable(s: State) {
    exists dirs, actions :: Leftover(dirs) && Run(Start(dirs), actions) == Some(s)
  }

  // ----- what may be observed of a job -----------------------------------------------------

  /** The goroutine has not yet left the critical part: it may still write to or remove the output. */
  predicate Live(s: State, j: JobId)
    requires j < |s.jobs|
  {
    var p := s.jobs[j].phase;
    p.Starting? || p.Running? || p.Failed? || p.Cleaned? || p.Recorded?
  }

  predicate Succeeded(s: State, j: JobId)
    requires j < |s.jobs|
  {
    s.jobs[j].phase.Returned? || (s.jobs[j].phase.Closed? && s.jobs[j].err.None?)
  }

  predicate HasOutput(s: State, j: JobId)
    requires j < |s.jobs|
  {
    s.jobs[j].key in s.dirs && (j in s.dirs[s.jobs[j].key].writers || s.dirs[s.jobs[j].key].index == Some(By(j)))
  }

  /** What any waiter can see of a failed job once done is closed. */
  predicate SeenFailed(s: State, j: JobId) {
    j < |s.jobs| && s.jobs[j].done && s.jobs[j].err.Some?
  }

  /** The index a job found: an earlier process left it, or an earlier job that failed and could not clean up. */
  predicate LeftBehind(s: State, w: Writer, j: JobId)
    requires j < |s.jobs|
  {
    w.By? ==>
      && w.job < j && s.jobs[w.job].key == s.jobs[j].key
      && s.jobs[w.job].err.Some? && s.jobs[w.job].err.value.cleanup.Some?
  }

  // ----- the invariant ---------------------------------------------------------------------

  ghost predicate JobInv(s: State, j: JobId)
    requires j < |s.jobs|
  {
    var job := s.jobs[j];
    && (job.done <==> job.phase.Closed?)
    && (job.phase.Recorded? || job.phase.Evicted? ==> job.err.Some?)
    && (job.phase.Starting? || job.phase.Running? || job.phase.Returned? || job.phase.Failed? || job.phase.Cleaned? ==>
          job.err.None?)
    && (InTable(s, j) <==> Live(s, j) || Succeeded(s, j))
    && (job.phase.Starting? ==> !HasOutput(s, j))
    && (job.phase.Cleaned? && job.phase.error.cleanup.None? ==> !HasOutput(s, j))
    && (job.err.Some? && job.err.value.cleanup.None? ==> !HasOutput(s, j))
  }

  /** Whose index a job works beside. */
  ghost predicate IndexInv(s: State, j: JobId)
    requires j < |s.jobs|
  {
    var job, index := s.jobs[j], IndexOf(s, s.jobs[j].key);
    && (job.phase.Running? ==> job.found.None?)
    && (job.phase.Running? || (Succeeded(s, j) && job.found.None?) ==> index.None? || index == Some(By(j)))
    && (Succeeded(s, j) && job.found.Some? ==> index == job.found && LeftBehind(s, job.found.value, j))
  }

  ghost predicate TableInv(s: State) {
    && (forall k <- s.table :: s.table[k] < |s.jobs| && s.jobs[s.table[k]].key == k)
    && (forall i: JobId, j: JobId | i < |s.jobs| && j < |s.jobs| && s.jobs[i].key == s.jobs[j].key && InTable(s, j) ::
         i <= j)
  }

  ghost predicate JobsInv(s: State) {
    forall j: JobId | j < |s.jobs| :: JobInv(s, j) && IndexInv(s, j)
  }

  /** What lies in a directory was written by jobs of its key. */
  ghost predicate DirInv(s: State, k: Key)
    requires k in s.dirs
  {
    && (forall i <- s.dirs[k].writers :: i < |s.jobs| && s.jobs[i].key == k)
    && (s.dirs[k].index.Some? && s.dirs[k].index.value.By? ==>
          s.dirs[k].index.value.job < |s.jobs| && s.jobs[s.dirs[k].index.value.job].key == k)
  }

  ghost predicate DirsInv(s: State) {
    forall k <- s.dirs :: DirInv(s, k)
  }

  ghost predicate PcInv(s: State, pc: Pc) {
    match pc
    case Has(j) => j < |s.jobs|
    case Waited(j, result) => j < |s.jobs| && (!result.GaveUp? ==> s.jobs[j].done && result == Outcome(s, j))
    case _ => true
  }

  ghost predicate ThreadsInv(s: State) {
    forall t <- s.threads :: PcInv(s, s.threads[t])
  }

  ghost predicate Inv(s: State) {
    TableInv(s) && JobsInv(s) && DirsInv(s) && ThreadsInv(s)
  }

  /**
   * What no step undoes: a job keeps its key, a closed channel stays closed, an error stays, and so does a
   * success with its output.
   */
  ghost predicate JobLater(s: State, s': State, j: JobId)
    requires j < |s.jobs|
  {
    && j < |s'.jobs| && s'.jobs[j].key == s.jobs[j].key
    && (s.jobs[j].err.Some? ==> s'.jobs[j].err == s.jobs[j].err)
    && (s.jobs[j].done ==> s'.jobs[j] == s.jobs[j])
    && (Succeeded(s, j) ==>
          var k := s.jobs[j].key;
          && Succeeded(s', j) && IndexOf(s', k) == IndexOf(s, k)
          && (k in s.dirs ==> k in s'.dirs && s'.dirs[k] == s.dirs[k]))
  }

  ghost predicate Later(s: State, s': State) {
    |s.jobs| <= |s'.jobs| && forall j: JobId | j < |s.jobs| :: JobLater(s, s', j)
  }

  lemma LaterTransitive(s: State, s1: State, s2: State)
    requires Later(s, s1) && Later(s1, s2)
    ensures Later(s, s2)
  {
    forall j: JobId | j < |s.jobs| ensures JobLater(s, s2, j) {
      assert JobLater(s, s1, j) && JobLater(s1, s2, j);
    }
  }

  lemma PcsStayValid(s: State, s': State, t: ThreadId, pc: Pc)
    requires JobsInv(s) && ThreadsInv(s) && Later(s, s') && PcInv(s', pc)
    requires s'.threads == s.threads[t := pc] || s'.threads == s.threads
    ensures ThreadsInv(s')
  {
    forall u <- s'.threads ensures PcInv(s', s'.threads[u]) {
      if u in s.threads {
        assert PcInv(s, s.threads[u]);
        if s.threads[u].Waited? {
          assert JobInv(s, s.threads[u].job) && JobLater(s, s', s.threads[u].job);
        }
      }
    }
  }

  /** While a job may touch the output no other job of its key may, or has succeeded. */
  lemma Alone(s: State, i: JobId, j: JobId)
    requires TableInv(s) && JobsInv(s) && i < |s.jobs| && j < |s.jobs|
    requires i != j && s.jobs[i].key == s.jobs[j].key && (Live(s, j) || Succeeded(s, j))
    ensures i < j && !Live(s, i) && !Succeeded(s, i)
  {
    assert JobInv(s, i) && JobInv(s, j);
  }

  // ----- steps of threads ------------------------------------------------------------------

  lemma TableStaysValid(s: State, s': State)
    requires TableInv(s) && s'.table == s.table && |s'.jobs| == |s.jobs|
    requires forall j: JobId | j < |s.jobs| :: s'.jobs[j].key == s.jobs[j].key
    ensures TableInv(s')
  {
    forall i: JobId, j: JobId | i < |s.jobs| && j < |s.jobs| && s'.jobs[i].key == s'.jobs[j].key && InTable(s', j)
      ensures i <= j
    {
      assert InTable(s, j);
    }
  }

  /** Enter, Load, the waits, a failed MkdirAll and a LoadOrStore that loads change the thread only. */
  lemma MoveOnlyKeepsInv(s: State, t: ThreadId, pc: Pc)
    requires Inv(s) && PcInv(s, pc)
    ensures Inv(Goto(s, t, pc)) && Later(s, Goto(s, t, pc))
  {
    var s' := Goto(s, t, pc);
    forall j: JobId | j < |s.jobs| ensures JobInv(s', j) && IndexInv(s', j) && JobLater(s, s', j) {
      assert JobInv(s, j) && IndexInv(s, j);
    }
    forall k <- s'.dirs ensures DirInv(s', k) { assert DirInv(s, k); }
    TableStaysValid(s, s');
    PcsStayValid(s, s', t, pc);
  }

  lemma MkdirKeepsInv(s: State, t: ThreadId, k: Key)
    requires Inv(s)
    ensures var s' := DoMkdirAll(s, t, k); Inv(s') && Later(s, s')
  {
    var s' := DoMkdirAll(s, t, k);
    TableStaysValid(s, s');
    forall j: JobId | j < |s.jobs| ensures JobInv(s', j) && IndexInv(s', j) && JobLater(s, s', j) {
      assert JobInv(s, j) && IndexInv(s, j);
      assert IndexOf(s', s.jobs[j].key) == IndexOf(s, s.jobs[j].key);
    }
    forall k' <- s'.dirs ensures DirInv(s', k') {
      if k' in s.dirs { assert DirInv(s, k'); }
    }
    PcsStayValid(s, s', t, Made(k));
  }

  /** No job of the key is in the table, so the new one is the only one that may be live. */
  lemma StoreKeepsJobs(s: State, t: ThreadId, k: Key)
    requires TableInv(s) && JobsInv(s) && DirsInv(s) && k !in s.table
    ensures JobsInv(DoStore(s, t, k)) && Later(s, DoStore(s, t, k))
  {
    var s' := DoStore(s, t, k);
    forall j: JobId | j < |s.jobs| ensures JobInv(s', j) && IndexInv(s', j) && JobLater(s, s', j) {
      assert JobInv(s, j) && IndexInv(s, j);
    }
    if k in s.dirs { assert DirInv(s, k); }
    assert JobInv(s', |s.jobs|) && IndexInv(s', |s.jobs|);
  }

  lemma StoreKeepsTable(s: State, t: ThreadId, k: Key)
    requires TableInv(s) && k !in s.table
    ensures TableInv(DoStore(s, t, k))
  {
    var s' := DoStore(s, t, k);
    forall i: JobId, j: JobId | i < |s'.jobs| && j < |s'.jobs| && s'.jobs[i].key == s'.jobs[j].key && InTable(s', j)
      ensures i <= j
    {
      if j < |s.jobs| { assert InTable(s, j); }
    }
  }

  lemma StoreKeepsInv(s: State, t: ThreadId, k: Key)
    requires Inv(s) && k !in s.table
    ensures var s' := DoStore(s, t, k); Inv(s') && Later(s, s')
  {
    var s' := DoStore(s, t, k);
    StoreKeepsTable(s, t, k);
    StoreKeepsJobs(s, t, k);
    forall k' <- s'.dirs ensures DirInv(s', k') { assert DirInv(s, k'); }
    PcsStayValid(s, s', t, Has(|s.jobs|));
  }

  // ----- steps of runners ------------------------------------------------------------------

  /** What a live job may do: to itself, its directory, its table entry, and no output of another job. */
  ghost predicate Works(s: State, s': State, j: JobId)
    requires j < |s.jobs|
  {
    var k := s.jobs[j].key;
    && |s'.jobs| == |s.jobs| && s'.threads == s.threads && s'.jobs[j].key == k
    && (forall i: JobId | i < |s.jobs| && i != j :: s'.jobs[i] == s.jobs[i])
    && (forall k': Key | k' != k :: (k' in s'.dirs <==> k' in s.dirs) && (k' in s.table <==> k' in s'.table))
    && (forall k': Key | k' != k && k' in s.dirs :: s'.dirs[k'] == s.dirs[k'])
    && (forall k': Key | k' != k && k' in s.table :: s'.table[k'] == s.table[k'])
    && (forall i: JobId | i < |s.jobs| && i != j && s.jobs[i].key == k && HasOutput(s', i) :: HasOutput(s, i))
    && (InTable(s', j) || k !in s'.table)
  }

  lemma WorkSparesOthers(s: State, s': State, j: JobId, i: JobId)
    requires TableInv(s) && JobsInv(s) && j < |s.jobs| && i < |s.jobs| && i != j && Live(s, j) && Works(s, s', j)
    requires s.jobs[j].err.Some? ==> s'.jobs[j].err == s.jobs[j].err
    ensures JobInv(s', i) && IndexInv(s', i) && JobLater(s, s', i)
  {
    assert JobInv(s, i) && IndexInv(s, i) && JobInv(s, j);
    if s.jobs[i].key == s.jobs[j].key {
      Alone(s, i, j);
    } else {
      assert InTable(s', i) <==> InTable(s, i);
      assert HasOutput(s', i) <==> HasOutput(s, i);
    }
  }

  lemma WorkKeepsTable(s: State, s': State, j: JobId)
    requires TableInv(s) && JobsInv(s) && j < |s.jobs| && Live(s, j) && Works(s, s', j)
    ensures TableInv(s')
  {
    assert JobInv(s, j);
    forall i: JobId, l: JobId | i < |s'.jobs| && l < |s'.jobs| && s'.jobs[i].key == s'.jobs[l].key && InTable(s', l)
      ensures i <= l
    {
      assert InTable(s, l);
    }
  }

  lemma WorkKeepsInv(s: State, s': State, j: JobId)
    requires Inv(s) && j < |s.jobs| && Live(s, j) && Works(s, s', j)
    requires JobInv(s', j) && IndexInv(s', j) && JobLater(s, s', j)
    requires s.jobs[j].key in s'.dirs ==> DirInv(s', s.jobs[j].key)
    ensures Inv(s') && Later(s, s')
  {
    forall i: JobId | i < |s.jobs| ensures JobInv(s', i) && IndexInv(s', i) && JobLater(s, s', i) {
      if i != j { WorkSparesOthers(s, s', j, i); }
    }
    forall k <- s'.dirs ensures DirInv(s', k) {
      if k != s.jobs[j].key { assert DirInv(s, k); }
    }
    WorkKeepsTable(s, s', j);
    PcsStayValid(s, s', 0, Idle);
  }

  /** An index found is not the job's own, and its job failed and could not clean up. */
  lemma FoundIsLeftBehind(s: State, j: JobId)
    requires Inv(s) && j < |s.jobs| && s.jobs[j].phase.Starting? && IndexOf(s, s.jobs[j].key).Some?
    ensures LeftBehind(s, IndexOf(s, s.jobs[j].key).value, j)
  {
    var k := s.jobs[j].key;
    var w := s.dirs[k].index.value;
    assert JobInv(s, j) && DirInv(s, k);
    if w.By? {
      assert w.job != j;
      Alone(s, w.job, j);
      assert JobInv(s, w.job) && HasOutput(s, w.job);
    }
  }

  lemma BeginKeepsInv(s: State, j: JobId)
    requires Inv(s) && j < |s.jobs| && s.jobs[j].phase.Starting?
    ensures var s' := DoBegin(s, j); Inv(s') && Later(s, s')
  {
    var s', k := DoBegin(s, j), s.jobs[j].key;
    assert JobInv(s, j) && IndexInv(s, j);
    if k in s.dirs {
      assert DirInv(s, k);
      if s.dirs[k].index.Some? && s.dirs[k].index.value.By? {
        FoundIsLeftBehind(s, j);
      }
    }
    WorkKeepsInv(s, s', j);
  }

  lemma WriteKeepsInv(s: State, j: JobId, index: bool)
    requires Inv(s) && j < |s.jobs| && s.jobs[j].phase.Running? && s.jobs[j].key in s.dirs
    ensures var s' := DoWrite(s, j, index); Inv(s') && Later(s, s')
  {
    assert JobInv(s, j) && IndexInv(s, j) && DirInv(s, s.jobs[j].key);
    WorkKeepsInv(s, DoWrite(s, j, index), j);
  }

  lemma RemoveAllKeepsInv(s: State, j: JobId)
    requires Inv(s) && j < |s.jobs| && s.jobs[j].phase.Failed?
    ensures var s' := DoRemoveAll(s, j, s.jobs[j].phase.run); Inv(s') && Later(s, s')
  {
    assert JobInv(s, j) && IndexInv(s, j);
    WorkKeepsInv(s, DoRemoveAll(s, j, s.jobs[j].phase.run), j);
  }

  lemma FailingRemoveAllKeepsInv(s: State, j: JobId, error: string, left: set<JobId>, leavesIndex: bool)
    requires Inv(s) && j < |s.jobs| && s.jobs[j].phase.Failed?
    ensures var s' := DoFailingRemoveAll(s, j, s.jobs[j].phase.run, error, left, leavesIndex); Inv(s') && Later(s, s')
  {
    assert JobInv(s, j) && IndexInv(s, j);
    if s.jobs[j].key in s.dirs { assert DirInv(s, s.jobs[j].key); }
    WorkKeepsInv(s, DoFailingRemoveAll(s, j, s.jobs[j].phase.run, error, left, leavesIndex), j);
  }

  lemma CompareAndDeleteKeepsInv(s: State, j: JobId)
    requires Inv(s) && j < |s.jobs| && s.jobs[j].phase.Recorded?
    ensures var s' := DoCompareAndDelete(s, j); Inv(s') && Later(s, s')
  {
    assert JobInv(s, j) && IndexInv(s, j) && InTable(s, j);
    if s.jobs[j].key in s.dirs { assert DirInv(s, s.jobs[j].key); }
    WorkKeepsInv(s, DoCompareAndDelete(s, j), j);
  }

  lemma ErrorStays(s: State, j: JobId, a: Action, i: JobId)
    requires j < |s.jobs| && i < |s.jobs| && JobInv(s, j) && JobAfter(s.jobs[j], a).Some?
    ensures var s' := SetJob(s, j, JobAfter(s.jobs[j], a).value);
      s'.jobs[i].key == s.jobs[i].key && (s.jobs[i].err.Some? ==> s'.jobs[i].err == s.jobs[i].err)
  {}

  lemma JobOnlyKeepsJob(s: State, j: JobId, a: Action, i: JobId)
    requires j < |s.jobs| && i < |s.jobs| && JobInv(s, j) && JobInv(s, i) && IndexInv(s, i)
    requires JobAfter(s.jobs[j], a).Some?
    ensures var s' := SetJob(s, j, JobAfter(s.jobs[j], a).value);
      JobInv(s', i) && IndexInv(s', i) && JobLater(s, s', i)
  {
    var s' := SetJob(s, j, JobAfter(s.jobs[j], a).value);
    assert InTable(s', i) == InTable(s, i) && HasOutput(s', i) == HasOutput(s, i);
    if Succeeded(s, i) && s.jobs[i].found.Some? && s.jobs[i].found.value.By? {
      ErrorStays(s, j, a, s.jobs[i].found.value.job);
    }
  }

  lemma JobOnlyKeepsInv(s: State, j: JobId, a: Action)
    requires Inv(s) && j < |s.jobs| && JobAfter(s.jobs[j], a).Some?
    ensures var s' := SetJob(s, j, JobAfter(s.jobs[j], a).value); Inv(s') && Later(s, s')
  {
    var s' := SetJob(s, j, JobAfter(s.jobs[j], a).value);
    TableStaysValid(s, s');
    forall i: JobId | i < |s.jobs| ensures JobInv(s', i) && IndexInv(s', i) && JobLater(s, s', i) {
      assert JobInv(s, i) && IndexInv(s, i) && JobInv(s, j);
      JobOnlyKeepsJob(s, j, a, i);
    }
    forall k <- s'.dirs ensures DirInv(s', k) { assert DirInv(s, k); }
    PcsStayValid(s, s', 0, Idle);
  }

  lemma RunnerStepInv(s: State, a: Action)
    requires Inv(s) && !ByThread(a) && Step(s, a).Some?
    ensures Inv(Step(s, a).value) && Later(s, Step(s, a).value)
  {
    if a.Begin? {
      BeginKeepsInv(s, a.j);
    } else if a.Write? {
      WriteKeepsInv(s, a.j, a.index);
    } else if a.RemoveAll? {
      if a.error.None? {
        RemoveAllKeepsInv(s, a.j);
      } else {
        FailingRemoveAllKeepsInv(s, a.j, a.error.value, a.left, a.leavesIndex);
      }
    } else if a.CompareAndDelete? {
      CompareAndDeleteKeepsInv(s, a.j);
    } else {
      JobOnlyKeepsInv(s, a.j, a);
    }
  }

  lemma ThreadStepInv(s: State, a: Action)
    requires Inv(s) && ByThread(a) && Step(s, a).Some?
    ensures Inv(Step(s, a).value) && Later(s, Step(s, a).value)
  {
    var s', pc := Step(s, a).value, PcOf(s, a.t);
    assert PcInv(s, pc);
    if a.MkdirAll? && a.ok {
      MkdirKeepsInv(s, a.t, pc.key);
    } else if a.LoadOrStore? && pc.key !in s.table {
      StoreKeepsInv(s, a.t, pc.key);
    } else {
      assert s' == Goto(s, a.t, PcOf(s', a.t));
      MoveOnlyKeepsInv(s, a.t, PcOf(s', a.t));
    }
  }

  lemma StepInv(s: State, a: Action)
    requires Inv(s) && Step(s, a).Some?
    ensures Inv(Step(s, a).value) && Later(s, Step(s, a).value)
  {
    if ByThread(a) { ThreadStepInv(s, a); } else { RunnerStepInv(s, a); }
  }

  // ----- theorems over every run -----------------------------------------------------------

  lemma {:induction false} RunInv(s: State, actions: seq<Action>)
    requires Inv(s) && Run(s, actions).Some?
    ensures Inv(Run(s, actions).value) && Later(s, Run(s, actions).value)
    decreases |actions|
  {
    if actions != [] {
      var s1 := Step(s, actions[0]).value;
      StepInv(s, actions[0]);
      RunInv(s1, actions[1..]);
      LaterTransitive(s, s1, Run(s, actions).value);
    }
  }

  lemma ReachableInv(s: State)
    requires Reachable(s)
    ensures Inv(s)
  {
    var dirs, actions :| Leftover(dirs) && Run(Start(dirs), actions) == Some(s);
    RunInv(Start(dirs), actions);
  }

  /** At most one runner of a key is live, in every reachable state. */
  lemma MutualExclusion(s: State, i: JobId, j: JobId)
    requires Reachable(s) && i < |s.jobs| && j < |s.jobs|
    requires s.jobs[i].key == s.jobs[j].key && Live(s, i) && Live(s, j)
    ensures i == j
  {
    ReachableInv(s);
    assert JobInv(s, i) && JobInv(s, j);
  }

  /**
   * When done closes on a failed job, the job has already left the table, and its output is gone
   * unless the error itself says that the cleanup failed.
   */
  lemma FailureIsCompleteWhenSeen(s: State, j: JobId)
    requires Reachable(s) && SeenFailed(s, j)
    ensures forall k <- s.table :: s.table[k] != j
    ensures s.jobs[j].err.value.cleanup.None? ==> !HasOutput(s, j)
  {
    ReachableInv(s);
    assert JobInv(s, j);
  }

  /**
   * What a waiter was told stays true: every later look at the job gives the same error, or the same
   * index, or none. So all waiters of a job that did not give up are told the same.
   */
  lemma WaitersAgree(s: State, t: ThreadId, j: JobId, result: WaitResult, actions: seq<Action>)
    requires Reachable(s) && PcOf(s, t) == Waited(j, result) && !result.GaveUp?
    requires Run(s, actions).Some?
    ensures var s' := Run(s, actions).value;
      && j < |s'.jobs| && s'.jobs[j].done && result == Outcome(s', j)
      && (result.JobFailed? <==> s'.jobs[j].err.Some?)
      && forall u: ThreadId, r: WaitResult | PcOf(s', u) == Waited(j, r) && !r.GaveUp? :: r == result
  {
    ReachableInv(s);
    assert PcInv(s, s.threads[t]);
    assert JobInv(s, j);
    RunInv(s, actions);
    var s' := Run(s, actions).value;
    assert JobLater(s, s', j);
    forall u: ThreadId, r: WaitResult | PcOf(s', u) == Waited(j, r) && !r.GaveUp? ensures r == result {
      assert PcInv(s', s'.threads[u]);
    }
  }

  /**
   * What waitReady answers a thread that waited: the job's error if it has one; otherwise Ready of the index
   * that lies in the job's directory, or that none does.
   */
  lemma WaitAnswersExactly(s: State, t: ThreadId, j: JobId, r: WaitResult)
    requires Reachable(s) && PcOf(s, t) == Waited(j, r) && !r.GaveUp?
    ensures j < |s.jobs| && s.jobs[j].done
    ensures forall e: JobError :: r == JobFailed(e) <==> s.jobs[j].err == Some(e)
    ensures var k := s.jobs[j].key;
      && (forall w: Writer :: r == Ready(w) <==> s.jobs[j].err.None? && k in s.dirs && s.dirs[k].index == Some(w))
      && (r == OutputMissing <==> s.jobs[j].err.None? && (k in s.dirs ==> s.dirs[k].index.None?))
  {
    ReachableInv(s);
    assert PcInv(s, s.threads[t]);
  }

  /**
   * Ready means the output of the job itself exactly when its runner found no index to begin with; an
   * index found was left by an earlier process, or by an earlier job that failed and failed to clean up.
   */
  lemma ReadyMeansOwnOutput(s: State, t: ThreadId, j: JobId, w: Writer)
    requires Reachable(s) && PcOf(s, t) == Waited(j, Ready(w))
    ensures j < |s.jobs| && Succeeded(s, j) && IndexOf(s, s.jobs[j].key) == Some(w)
    ensures w == By(j) <==> s.jobs[j].found.None?
    ensures s.jobs[j].found.Some? ==> w == s.jobs[j].found.value
    ensures w.By? && w.job != j ==>
              && w.job < j && s.jobs[w.job].key == s.jobs[j].key
              && s.jobs[w.job].err.Some? && s.jobs[w.job].err.value.cleanup.Some?
  {
    ReachableInv(s);
    assert PcInv(s, s.threads[t]);
    assert JobInv(s, j) && IndexInv(s, j);
  }

  lemma FoundStaysOneStep(s: State, a: Action, j: JobId)
    requires Step(s, a).Some? && j < |s.jobs| && !s.jobs[j].phase.Starting?
    ensures var s' := Step(s, a).value;
      j < |s'.jobs| && !s'.jobs[j].phase.Starting? && s'.jobs[j].found == s.jobs[j].found
  {}

  lemma {:induction false} FoundStays(s: State, actions: seq<Action>, j: JobId)
    requires Run(s, actions).Some? && j < |s.jobs| && !s.jobs[j].phase.Starting?
    ensures var s' := Run(s, actions).value; j < |s'.jobs| && s'.jobs[j].found == s.jobs[j].found
    decreases |actions|
  {
    if actions != [] {
      FoundStaysOneStep(s, actions[0], j);
      FoundStays(Step(s, actions[0]).value, actions[1..], j);
    }
  }

  lemma {:induction false} RunsJoin(s: State, a: seq<Action>, mid: State, b: seq<Action>)
    requires Run(s, a) == Some(mid)
    ensures Run(s, a + b) == Run(mid, b)
    decreases |a|
  {
    if a == [] {
      assert a + b == b;
    } else {
      assert (a + b)[1..] == a[1..] + b;
      RunsJoin(Step(s, a[0]).value, a[1..], mid, b);
    }
  }

  lemma {:induction false} RunExtends(s: State, actions: seq<Action>, a: Action)
    requires Run(s, actions).Some? && Step(Run(s, actions).value, a).Some?
    ensures Run(s, actions + [a]) == Step(Run(s, actions).value, a)
    decreases |actions|
  {
    if actions == [] {
      var s1 := Step(s, a).value;
      assert ([a])[1..] == [];
      assert Run(s1, []) == Some(s1);
    } else {
      assert (actions + [a])[1..] == actions[1..] + [a];
      RunExtends(Step(s, actions[0]).value, actions[1..], a);
    }
  }

  lemma ReachesRun(s: State, actions: seq<Action>, end: State)
    requires Reachable(s) && Run(s, actions) == Some(end)
    ensures Reachable(end)
  {
    var dirs, before :| Leftover(dirs) && Run(Start(dirs), before) == Some(s);
    RunsJoin(Start(dirs), before, s, actions);
  }

  lemma ReachesNext(s: State, a: Action) returns (s': State)
    requires Reachable(s) && Step(s, a).Some?
    ensures Reachable(s') && Step(s, a) == Some(s')
  {
    var dirs, actions :| Leftover(dirs) && Run(Start(dirs), actions) == Some(s);
    RunExtends(Start(dirs), actions, a);
    s' := Step(s, a).value;
  }

  /**
   * Over the run: from where a runner begins, whatever happens, Ready will mean its own output exactly when
   * the directory holds no index then.
   */
  lemma OwnOutputExactly(s: State, j: JobId, actions: seq<Action>, t: ThreadId, w: Writer)
    requires Reachable(s) && j < |s.jobs| && s.jobs[j].phase.Starting?
    requires Run(DoBegin(s, j), actions).Some? && PcOf(Run(DoBegin(s, j), actions).value, t) == Waited(j, Ready(w))
    ensures w == By(j) <==> IndexOf(s, s.jobs[j].key).None?
    ensures w != By(j) ==> Some(w) == IndexOf(s, s.jobs[j].key)
  {
    var s1 := ReachesNext(s, Begin(j));
    FoundStays(s1, actions, j);
    ReachesRun(s1, actions, Run(s1, actions).value);
    ReadyMeansOwnOutput(Run(s1, actions).value, t, j, w);
  }

  /** The job's own index lies in its directory, and the job still may or did return nil; or it failed. */
  ghost predicate OwnIndexOrFailed(s: State, j: JobId)
    requires j < |s.jobs|
  {
    var job := s.jobs[j];
    || job.phase.Failed? || job.phase.Cleaned? || job.err.Some?
    || ((job.phase.Running? || Succeeded(s, j)) && IndexOf(s, job.key) == Some(By(j)))
  }

  /** Only jobs of the key touch an index: by writing it, or by a RemoveAll. */
  lemma IndexStep(s: State, a: Action, k: Key)
    requires Step(s, a).Some? && k in s.dirs
    requires !((a.Write? || a.RemoveAll?) && a.j < |s.jobs| && s.jobs[a.j].key == k)
    ensures k in Step(s, a).value.dirs && IndexOf(Step(s, a).value, k) == IndexOf(s, k)
  {}

  lemma OwnStepAtWork(s: State, a: Action, j: JobId)
    requires Step(s, a).Some? && j < |s.jobs| && s.jobs[j].phase.Running? && IndexOf(s, s.jobs[j].key) == Some(By(j))
    requires !ByThread(a) && a.j == j
    ensures j < |Step(s, a).value.jobs| && OwnIndexOrFailed(Step(s, a).value, j)
  {}

  lemma OtherStepAtWork(s: State, a: Action, j: JobId)
    requires Step(s, a).Some? && j < |s.jobs| && !(!ByThread(a) && a.j == j)
    ensures j < |Step(s, a).value.jobs| && Step(s, a).value.jobs[j] == s.jobs[j]
  {}

  lemma IndexStaysAtWork(s: State, a: Action, j: JobId)
    requires TableInv(s) && JobsInv(s) && Step(s, a).Some? && j < |s.jobs| && s.jobs[j].phase.Running?
    requires s.jobs[j].key in s.dirs && !(!ByThread(a) && a.j == j)
    ensures IndexOf(Step(s, a).value, s.jobs[j].key) == IndexOf(s, s.jobs[j].key)
  {
    if !ByThread(a) && a.j < |s.jobs| && s.jobs[a.j].key == s.jobs[j].key {
      Alone(s, a.j, j);
    }
    IndexStep(s, a, s.jobs[j].key);
  }

  lemma FailingStep(s: State, a: Action, j: JobId)
    requires Step(s, a).Some? && j < |s.jobs| && (s.jobs[j].phase.Failed? || s.jobs[j].phase.Cleaned?)
    requires !ByThread(a) && a.j == j
    ensures j < |Step(s, a).value.jobs| && OwnIndexOrFailed(Step(s, a).value, j)
  {}

  lemma OwnIndexStep(s: State, a: Action, j: JobId)
    requires Inv(s) && Step(s, a).Some? && j < |s.jobs| && OwnIndexOrFailed(s, j)
    ensures j < |Step(s, a).value.jobs| && OwnIndexOrFailed(Step(s, a).value, j)
  {
    StepInv(s, a);
    assert JobInv(s, j) && JobLater(s, Step(s, a).value, j);
    if s.jobs[j].phase.Running? {
      if !ByThread(a) && a.j == j {
        OwnStepAtWork(s, a, j);
      } else {
        IndexStaysAtWork(s, a, j);
        OtherStepAtWork(s, a, j);
      }
    } else if s.jobs[j].err.None? && !Succeeded(s, j) {
      if !ByThread(a) && a.j == j {
        FailingStep(s, a, j);
      } else {
        OtherStepAtWork(s, a, j);
      }
    }
  }

  lemma {:induction false} OwnIndexStays(s: State, actions: seq<Action>, j: JobId)
    requires Inv(s) && Run(s, actions).Some? && j < |s.jobs| && OwnIndexOrFailed(s, j)
    ensures j < |Run(s, actions).value.jobs| && OwnIndexOrFailed(Run(s, actions).value, j)
    decreases |actions|
  {
    if actions != [] {
      StepInv(s, actions[0]);
      OwnIndexStep(s, actions[0], j);
      OwnIndexStays(Step(s, actions[0]).value, actions[1..], j);
    }
  }

  /** Every waiter of a job that wrote its index and did not fail is told Ready, of that index. */
  lemma OwnIndexIsReady(s: State, j: JobId, actions: seq<Action>, t: ThreadId, r: WaitResult)
    requires Reachable(s) && Step(s, Write(j, true)).Some?
    requires Run(Step(s, Write(j, true)).value, actions).Some?
    requires var end := Run(Step(s, Write(j, true)).value, actions).value;
      PcOf(end, t) == Waited(j, r) && !r.GaveUp? && j < |end.jobs| && end.jobs[j].err.None?
    ensures r == Ready(By(j))
  {
    var s1 := ReachesNext(s, Write(j, true));
    ReachableInv(s1);
    OwnIndexStays(s1, actions, j);
    var end := Run(s1, actions).value;
    ReachesRun(s1, actions, end);
    ReachableInv(end);
    WaitAnswersExactly(end, t, j, r);
    assert JobInv(end, j);
  }

  /** The runner returned this error; the cleanup may still add its own. */
  ghost predicate FailedWith(job: Job, e: string) {
    || job.phase == Failed(e) || (job.phase.Cleaned? && job.phase.error.run == e)
    || (job.err.Some? && job.err.value.run == e && !job.phase.Starting? && !job.phase.Running?)
  }

  lemma FailedWithStep(s: State, a: Action, j: JobId, e: string)
    requires Step(s, a).Some? && j < |s.jobs| && JobInv(s, j) && FailedWith(s.jobs[j], e)
    ensures j < |Step(s, a).value.jobs| && FailedWith(Step(s, a).value.jobs[j], e)
  {
    if !(!ByThread(a) && a.j == j) {
      OtherStepAtWork(s, a, j);
    }
  }

  lemma {:induction false} FailedWithStays(s: State, actions: seq<Action>, j: JobId, e: string)
    requires Inv(s) && Run(s, actions).Some? && j < |s.jobs| && FailedWith(s.jobs[j], e)
    ensures j < |Run(s, actions).value.jobs| && FailedWith(Run(s, actions).value.jobs[j], e)
    decreases |actions|
  {
    if actions != [] {
      StepInv(s, actions[0]);
      assert JobInv(s, j);
      FailedWithStep(s, actions[0], j, e);
      FailedWithStays(Step(s, actions[0]).value, actions[1..], j, e);
    }
  }

  lemma ErrorReachesJob(s: State, actions: seq<Action>, j: JobId, error: Option<string>, end: State)
    requires Reachable(s) && Run(s, actions) == Some(end) && j < |s.jobs|
    requires if error.Some? then FailedWith(s.jobs[j], error.value) else Succeeded(s, j)
    ensures j < |end.jobs|
    ensures end.jobs[j].done ==>
              if error.Some? then end.jobs[j].err.Some? && end.jobs[j].err.value.run == error.value
              else end.jobs[j].err.None?
  {
    ReachableInv(s);
    RunInv(s, actions);
    if error.Some? {
      FailedWithStays(s, actions, j, error.value);
    } else {
      assert JobLater(s, end, j);
    }
    assert JobInv(end, j);
  }

  /** What a runner returns is what its job's waiters are told: its error, with the cleanup's, or that there is none. */
  lemma RunnerErrorIsTold(s: State, j: JobId, error: Option<string>, actions: seq<Action>, t: ThreadId, r: WaitResult)
    requires Reachable(s) && Step(s, RunnerReturns(j, error)).Some?
    requires Run(Step(s, RunnerReturns(j, error)).value, actions).Some?
    requires PcOf(Run(Step(s, RunnerReturns(j, error)).value, actions).value, t) == Waited(j, r) && !r.GaveUp?
    ensures error.Some? ==> r.JobFailed? && r.error.run == error.value
    ensures error.None? ==> !r.JobFailed?
  {
    var s1 := ReachesNext(s, RunnerReturns(j, error));
    var end := Run(s1, actions).value;
    ErrorReachesJob(s1, actions, j, error, end);
    ReachesRun(s1, actions, end);
    WaitAnswersExactly(end, t, j, r);
  }

  lemma TableHoldsExactly(s: State, k: Key, j: JobId)
    requires Inv(s)
    ensures (k in s.table && s.table[k] == j)
       <==> j < |s.jobs| && s.jobs[j].key == k && (Live(s, j) || Succeeded(s, j))
  {
    if j < |s.jobs| {
      assert JobInv(s, j);
    }
  }

  /**
   * A Load finds the job of its key that still works or has succeeded, if there is one, and so does a LoadOrStore.
   * Otherwise the Load misses, and the LoadOrStore returns a new job.
   */
  lemma EnsureJobFindsExactly(s: State, t: ThreadId, k: Key, a: Action)
    requires Reachable(s)
    requires (PcOf(s, t) == Looking(k) && a == Load(t)) || (PcOf(s, t) == Made(k) && a == LoadOrStore(t))
    ensures Step(s, a).Some?
    ensures var s' := Step(s, a).value;
      && (forall j: JobId | j < |s.jobs| ::
            (PcOf(s', t) == Has(j) <==> s.jobs[j].key == k && (Live(s, j) || Succeeded(s, j))))
      && ((forall j: JobId | j < |s.jobs| && s.jobs[j].key == k :: !Live(s, j) && !Succeeded(s, j)) <==>
            PcOf(s', t) == if a.Load? then Missed(k) else Has(|s.jobs|))
      && s'.jobs == if PcOf(s', t) == Has(|s.jobs|) then s.jobs + [Job(k, Starting, None, false, None)] else s.jobs
  {
    ReachableInv(s);
    forall j: JobId | j < |s.jobs|
      ensures (k in s.table && s.table[k] == j) <==> s.jobs[j].key == k && (Live(s, j) || Succeeded(s, j))
    {
      TableHoldsExactly(s, k, j);
    }
    if k in s.table {
      TableHoldsExactly(s, k, s.table[k]);
    }
  }

  /** A thread is never stuck: between requests it may make one, and a wait may be given up at any time. */
  lemma ThreadGoesOn(s: State, t: ThreadId)
    ensures match PcOf(s, t)
      case Has(j) => (exists s' :: Step(s, WaitGivesUp(t)) == Some(s') && PcOf(s', t) == Waited(j, GaveUp))
      case Looking(_) => Step(s, Load(t)).Some?
      case Missed(k) =>
        && (exists s' :: Step(s, MkdirAll(t, true)) == Some(s') && PcOf(s', t) == Made(k))
        && (exists s' :: Step(s, MkdirAll(t, false)) == Some(s') && PcOf(s', t) == MkdirFailed)
      case Made(_) => Step(s, LoadOrStore(t)).Some?
      case _ => forall k: Key :: exists s' :: Step(s, Enter(t, k)) == Some(s') && PcOf(s', t) == Looking(k)
  {
    match PcOf(s, t)
    case Has(j) => assert Step(s, WaitGivesUp(t)) == Some(Goto(s, t, Waited(j, GaveUp)));
    case Missed(k) =>
      assert Step(s, MkdirAll(t, true)) == Some(DoMkdirAll(s, t, k));
      assert Step(s, MkdirAll(t, false)) == Some(Goto(s, t, MkdirFailed));
    case Looking(_) =>
    case Made(_) =>
    case _ =>
      forall k: Key ensures exists s' :: Step(s, Enter(t, k)) == Some(s') && PcOf(s', t) == Looking(k) {
        assert Step(s, Enter(t, k)) == Some(Goto(s, t, Looking(k)));
      }
  }

  /** The next step of a goroutine that is not over, with an error of the runner if it is at work. */
  function NextOf(p: Phase, j: JobId, error: Option<string>): Action {
    match p
    case Starting => Begin(j)
    case Running => RunnerReturns(j, error)
    case Failed(_) => RemoveAll(j, None, {}, false)
    case Cleaned(_) => SetErr(j)
    case Recorded => CompareAndDelete(j)
    case _ => CloseDone(j)
  }

  function StepsLeft(p: Phase): nat {
    match p
    case Starting => 6
    case Running => 5
    case Failed(_) => 4
    case Cleaned(_) => 3
    case Recorded => 2
    case Closed => 0
    case _ => 1
  }

  lemma NextIsPossible(s: State, j: JobId, error: Option<string>)
    requires j < |s.jobs| && !s.jobs[j].phase.Closed?
    ensures Step(s, NextOf(s.jobs[j].phase, j, error)).Some?
    ensures var s' := Step(s, NextOf(s.jobs[j].phase, j, error)).value;
      && |s'.jobs| == |s.jobs| && s'.threads == s.threads
      && StepsLeft(s'.jobs[j].phase) < StepsLeft(s.jobs[j].phase)
  {
    var a := NextOf(s.jobs[j].phase, j, error);
    if s.jobs[j].phase.Running? || a.SetErr? || a.CloseDone? {
      assert JobAfter(s.jobs[j], a).Some?;
    }
  }

  lemma RunnerGoesOn(s: State, j: JobId, error: Option<string>) returns (s': State)
    requires Reachable(s) && j < |s.jobs| && !s.jobs[j].phase.Closed?
    ensures Reachable(s') && Step(s, NextOf(s.jobs[j].phase, j, error)) == Some(s')
    ensures j < |s'.jobs| && StepsLeft(s'.jobs[j].phase) < StepsLeft(s.jobs[j].phase)
    ensures s'.threads == s.threads
  {
    NextIsPossible(s, j, error);
    s' := ReachesNext(s, NextOf(s.jobs[j].phase, j, error));
  }

  /** From every reachable state a job can end, whether or not its runner fails, and its waiters can be answered. */
  lemma {:induction false} JobCanEnd(s: State, j: JobId, error: Option<string>)
    returns (actions: seq<Action>, s': State)
    requires Reachable(s) && j < |s.jobs|
    ensures Run(s, actions) == Some(s') && Reachable(s') && s'.threads == s.threads
    ensures j < |s'.jobs| && s'.jobs[j].done
    decreases StepsLeft(s.jobs[j].phase)
  {
    if s.jobs[j].phase.Closed? {
      ReachableInv(s);
      assert JobInv(s, j);
      actions, s' := [], s;
    } else {
      var s1 := RunnerGoesOn(s, j, error);
      var rest;
      rest, s' := JobCanEnd(s1, j, error);
      var a := NextOf(s.jobs[j].phase, j, error);
      actions := [a] + rest;
      assert actions[1..] == rest;
    }
  }

  /** A wait for the job is over, without giving up, exactly when its channel is closed. */
  lemma WaitEndsExactly(s: State, t: ThreadId, j: JobId)
    requires Reachable(s) && PcOf(s, t) == Has(j)
    ensures j < |s.jobs| && (Step(s, WaitDone(t)).Some? <==> s.jobs[j].done)
    ensures s.jobs[j].done ==> exists r: WaitResult :: PcOf(Step(s, WaitDone(t)).value, t) == Waited(j, r) && !r.GaveUp?
  {
    ReachableInv(s);
    assert PcInv(s, s.threads[t]);
    if s.jobs[j].done {
      assert PcOf(Step(s, WaitDone(t)).value, t) == Waited(j, Outcome(s, j));
    }
  }

  /** Only its own goroutine moves a job, and only forward; close(done) comes last. */
  lemma JobMovesExactly(s: State, a: Action, j: JobId)
    requires Step(s, a).Some? && j < |s.jobs|
    ensures j < |Step(s, a).value.jobs|
    ensures var p, p' := s.jobs[j].phase, Step(s, a).value.jobs[j].phase;
      && (p' != p ==> !ByThread(a) && a.j == j && StepsLeft(p') < StepsLeft(p))
      && (p.Starting? && p' != p ==> a.Begin?) && (p.Running? && p' != p ==> a.RunnerReturns?)
      && (p.Failed? && p' != p ==> a.RemoveAll?) && (p.Cleaned? && p' != p ==> a.SetErr?)
      && (p.Recorded? && p' != p ==> a.CompareAndDelete?) && (p'.Closed? && p' != p ==> a.CloseDone?)
  {}

  /** What a step does to a directory that it leaves. */
  lemma DirectoryExactly(s: State, a: Action, k: Key)
    requires Step(s, a).Some? && k in Step(s, a).value.dirs
    ensures var own := !ByThread(a) && a.j < |s.jobs| && s.jobs[a.j].key == k;
      Step(s, a).value.dirs[k] ==
        if k !in s.dirs then Dir({}, None)
        else if own && a.Write? then
          Dir(s.dirs[k].writers + {a.j}, if a.index then Some(By(a.j)) else s.dirs[k].index)
        else if own && a.RemoveAll? then
          Dir(s.dirs[k].writers * a.left, if a.leavesIndex then s.dirs[k].index else None)
        else s.dirs[k]
  {}

  lemma StepReturnsOnlyTableJobs(s: State, a: Action, j: JobId, t: ThreadId)
    requires j < |s.jobs| && PcOf(s, t) != Has(j) && Step(s, a).Some?
    requires forall k <- s.table :: s.table[k] != j
    ensures PcOf(Step(s, a).value, t) != Has(j)
  {}

  /** Once a failure can be seen, no ensureJob returns that job to anyone again. */
  lemma {:induction false} FailedJobNeverReturnedAgain(s: State, actions: seq<Action>, j: JobId, t: ThreadId)
    requires Inv(s) && SeenFailed(s, j) && PcOf(s, t) != Has(j) && Run(s, actions).Some?
    ensures PcOf(Run(s, actions).value, t) != Has(j)
    decreases |actions|
  {
    if actions != [] {
      StepInv(s, actions[0]);
      assert JobInv(s, j) && JobLater(s, Step(s, actions[0]).value, j);
      StepReturnsOnlyTableJobs(s, actions[0], j, t);
      FailedJobNeverReturnedAgain(Step(s, actions[0]).value, actions[1..], j, t);
    }
  }

  /** So a caller that was told of a failure and comes back to ensureJob gets a different job. */
  lemma CallerGetsDifferentJob(s: State, actions: seq<Action>, j: JobId, e: JobError, t: ThreadId, j': JobId)
    requires Reachable(s) && PcOf(s, t) == Waited(j, JobFailed(e))
    requires Run(s, actions).Some? && PcOf(Run(s, actions).value, t) == Has(j')
    ensures j' != j
  {
    ReachableInv(s);
    assert PcInv(s, s.threads[t]);
    FailedJobNeverReturnedAgain(s, actions, j, t);
  }

  /** A cleanup removes nothing of a later runner: the job that cleans up is the key's newest. */
  lemma CleanupIsNewest(s: State, j: JobId, i: JobId)
    requires Reachable(s) && j < |s.jobs| && s.jobs[j].phase.Failed?
    requires i < |s.jobs| && s.jobs[i].key == s.jobs[j].key && i != j
    ensures i < j && !Live(s, i) && !Succeeded(s, i)
  {
    ReachableInv(s);
    Alone(s, i, j);
  }

  /** When a job has succeeded its directory, output and index stay as they are. */
  lemma SuccessfulOutputStays(s: State, actions: seq<Action>, j: JobId)
    requires Reachable(s) && j < |s.jobs| && Succeeded(s, j) && Run(s, actions).Some?
    ensures var s', k := Run(s, actions).value, s.jobs[j].key;
      && j < |s'.jobs| && Succeeded(s', j) && IndexOf(s', k) == IndexOf(s, k)
      && (k in s.dirs ==> k in s'.dirs && s'.dirs[k] == s.dirs[k])
  {
    ReachableInv(s);
    RunInv(s, actions);
    assert JobLater(s, Run(s, actions).value, j);
  }

  // ----- the directory of a new job --------------------------------------------------------

  /** The last thing that happened to the directory of a key. */
  datatype Touch = Untouched | MadeBy(thread: ThreadId) | RemovedBy(job: JobId)

  predicate Makes(s: State, a: Action, k: Key) {
    a.MkdirAll? && a.ok && PcOf(s, a.t) == Missed(k)
  }

  predicate Removes(s: State, a: Action, k: Key) {
    a.RemoveAll? && a.error.None? && a.j < |s.jobs| && s.jobs[a.j].key == k
  }

  /** The last successful MkdirAll or RemoveAll of the key's directory in a run. */
  function LastTouch(s: State, actions: seq<Action>, k: Key): Touch
    requires Run(s, actions).Some?
    decreases |actions|
  {
    if actions == [] then Untouched
    else
      var later := LastTouch(Step(s, actions[0]).value, actions[1..], k);
      if later != Untouched then later
      else if Makes(s, actions[0], k) then MadeBy(actions[0].t)
      else if Removes(s, actions[0], k) then RemovedBy(actions[0].j)
      else Untouched
  }

  lemma StepDir(s: State, a: Action, k: Key)
    requires Step(s, a).Some?
    ensures k in Step(s, a).value.dirs <==> Makes(s, a, k) || (k in s.dirs && !Removes(s, a, k))
  {}

  lemma {:induction false} LastTouchDecides(s: State, actions: seq<Action>, k: Key)
    requires Run(s, actions).Some?
    ensures k in Run(s, actions).value.dirs <==>
            LastTouch(s, actions, k).MadeBy? || (LastTouch(s, actions, k).Untouched? && k in s.dirs)
    decreases |actions|
  {
    if actions != [] {
      StepDir(s, actions[0], k);
      LastTouchDecides(Step(s, actions[0]).value, actions[1..], k);
    }
  }

  lemma OldJobsStayOver(s: State, a: Action, j: JobId)
    requires Step(s, a).Some? && j < |s.jobs| && JobInv(s, j) && !Live(s, j) && !Succeeded(s, j)
    ensures var s' := Step(s, a).value; j < |s'.jobs| && !Live(s', j) && !Succeeded(s', j)
  {}

  /** Whoever removes a directory was stored when no job held the key, or since. */
  lemma {:induction false} RemoverIsNewer(s: State, actions: seq<Action>, k: Key, n: nat)
    requires Inv(s) && n <= |s.jobs| && Run(s, actions).Some?
    requires forall j: JobId | j < n && s.jobs[j].key == k :: !Live(s, j) && !Succeeded(s, j)
    ensures LastTouch(s, actions, k).RemovedBy? ==> n <= LastTouch(s, actions, k).job < |Run(s, actions).value.jobs|
    decreases |actions|
  {
    if actions != [] {
      var s1 := Step(s, actions[0]).value;
      StepInv(s, actions[0]);
      RunInv(s1, actions[1..]);
      forall j: JobId | j < n && s1.jobs[j].key == k ensures !Live(s1, j) && !Succeeded(s1, j) {
        assert JobLater(s, s1, j);
        OldJobsStayOver(s, actions[0], j);
      }
      RemoverIsNewer(s1, actions[1..], k, n);
    }
  }

  lemma NoWayStep(s: State, a: Action, t: ThreadId, k: Key)
    requires Step(s, a).Some? && a != Load(t) && PcOf(s, t) != Missed(k) && PcOf(s, t) != Made(k)
    ensures PcOf(Step(s, a).value, t) != Missed(k) && PcOf(Step(s, a).value, t) != Made(k)
  {}

  /** Without another Load a thread that is not on its way to store this key does not get there. */
  lemma {:induction false} NoWayWithoutLoad(s: State, actions: seq<Action>, t: ThreadId, k: Key)
    requires Run(s, actions).Some? && Load(t) !in actions
    requires PcOf(s, t) != Missed(k) && PcOf(s, t) != Made(k)
    ensures PcOf(Run(s, actions).value, t) != Made(k)
    decreases |actions|
  {
    if actions != [] {
      NoWayStep(s, actions[0], t, k);
      NoWayWithoutLoad(Step(s, actions[0]).value, actions[1..], t, k);
    }
  }

  lemma MissedStep(s: State, a: Action, t: ThreadId, k: Key)
    requires Step(s, a).Some? && PcOf(s, t) == Missed(k)
    ensures PcOf(Step(s, a).value, t) == Missed(k) || a == MkdirAll(t, true) || PcOf(Step(s, a).value, t) == MkdirFailed
  {}

  /** A thread past MkdirAll since its Load has touched the directory. */
  lemma {:induction false} OwnMkdirTouches(s: State, actions: seq<Action>, t: ThreadId, k: Key)
    requires Run(s, actions).Some? && Load(t) !in actions
    requires PcOf(s, t) == Missed(k) && PcOf(Run(s, actions).value, t) == Made(k)
    ensures LastTouch(s, actions, k) != Untouched
    decreases |actions|
  {
    var s1 := Step(s, actions[0]).value;
    MissedStep(s, actions[0], t, k);
    if PcOf(s1, t) == Missed(k) {
      OwnMkdirTouches(s1, actions[1..], t, k);
    } else if actions[0] != MkdirAll(t, true) {
      NoWayWithoutLoad(s1, actions[1..], t, k);
    }
  }

  /**
   * The directory is missing where a thread is about to store its job exactly when the last of the
   * key's MkdirAlls and RemoveAlls since the thread's Load was a RemoveAll, by a job stored after it.
   */
  lemma MissingDirectoryExactly(s: State, t: ThreadId, k: Key, actions: seq<Action>)
    requires Reachable(s) && PcOf(s, t) == Missed(k) && k !in s.table && Load(t) !in actions
    requires Run(s, actions).Some? && PcOf(Run(s, actions).value, t) == Made(k)
    ensures var s' := Run(s, actions).value;
      k !in s'.dirs <==>
      exists j: JobId :: |s.jobs| <= j < |s'.jobs| && LastTouch(s, actions, k) == RemovedBy(j)
  {
    ReachableInv(s);
    OwnMkdirTouches(s, actions, t, k);
    LastTouchDecides(s, actions, k);
    forall j: JobId | j < |s.jobs| && s.jobs[j].key == k ensures !Live(s, j) && !Succeeded(s, j) {
      assert JobInv(s, j);
    }
    RemoverIsNewer(s, actions, k, |s.jobs|);
  }

  /** The key is out of the table before each action and after the last. */
  predicate AbsentThroughout(s: State, actions: seq<Action>, k: Key)
    requires Run(s, actions).Some?
    decreases |actions|
  {
    k !in s.table && (actions != [] ==> AbsentThroughout(Step(s, actions[0]).value, actions[1..], k))
  }

  lemma OnlyTheHolderRemoves(s: State, a: Action, k: Key)
    requires Inv(s) && Step(s, a).Some?
    ensures Removes(s, a, k) ==> k in s.table
  {
    if a.RemoveAll? && a.j < |s.jobs| { assert JobInv(s, a.j); }
  }

  lemma {:induction false} NobodyRemoves(s: State, actions: seq<Action>, k: Key)
    requires Inv(s) && Run(s, actions).Some? && AbsentThroughout(s, actions, k)
    ensures !LastTouch(s, actions, k).RemovedBy?
    decreases |actions|
  {
    if actions != [] {
      StepInv(s, actions[0]);
      NobodyRemoves(Step(s, actions[0]).value, actions[1..], k);
      OnlyTheHolderRemoves(s, actions[0], k);
    }
  }

  /** If nobody stores a job of the key between a thread's Load and its LoadOrStore, the directory is there. */
  lemma DirectoryIsThereWhenAlone(s: State, t: ThreadId, k: Key, actions: seq<Action>)
    requires Reachable(s) && PcOf(s, t) == Missed(k) && Load(t) !in actions
    requires Run(s, actions).Some? && PcOf(Run(s, actions).value, t) == Made(k) && AbsentThroughout(s, actions, k)
    ensures k in Run(s, actions).value.dirs
  {
    ReachableInv(s);
    OwnMkdirTouches(s, actions, t, k);
    LastTouchDecides(s, actions, k);
    NobodyRemoves(s, actions, k);
  }

  predicate AtWork(s: State, j: JobId)
    requires j < |s.jobs|
  {
    s.jobs[j].phase.Starting? || s.jobs[j].phase.Running?
  }

  lemma WorkKeepsDirectory(s: State, a: Action, j: JobId)
    requires Inv(s) && j < |s.jobs| && AtWork(s, j) && s.jobs[j].key in s.dirs && Step(s, a).Some?
    ensures s.jobs[j].key in Step(s, a).value.dirs
  {
    StepDir(s, a, s.jobs[j].key);
    if Removes(s, a, s.jobs[j].key) && a.j != j {
      Alone(s, a.j, j);
    }
  }

  lemma AtWorkBefore(s: State, a: Action, j: JobId)
    requires Step(s, a).Some? && j < |s.jobs| && AtWork(Step(s, a).value, j)
    ensures AtWork(s, j)
  {}

  lemma {:induction false} AtWorkFirst(s: State, actions: seq<Action>, j: JobId)
    requires Inv(s) && j < |s.jobs| && Run(s, actions).Some?
    requires j < |Run(s, actions).value.jobs| && AtWork(Run(s, actions).value, j)
    ensures AtWork(s, j)
    decreases |actions|
  {
    if actions != [] {
      StepInv(s, actions[0]);
      RunInv(Step(s, actions[0]).value, actions[1..]);
      AtWorkFirst(Step(s, actions[0]).value, actions[1..], j);
      AtWorkBefore(s, actions[0], j);
    }
  }

  /** A runner at work keeps its directory: if it began with one, it has it as long as it works. */
  lemma {:induction false} DirectoryStaysWhileAtWork(s: State, actions: seq<Action>, j: JobId)
    requires Inv(s) && j < |s.jobs| && s.jobs[j].key in s.dirs && Run(s, actions).Some?
    requires j < |Run(s, actions).value.jobs| && AtWork(Run(s, actions).value, j)
    ensures s.jobs[j].key in Run(s, actions).value.dirs
    decreases |actions|
  {
    RunInv(s, actions);
    AtWorkFirst(s, actions, j);
    if actions != [] {
      var s1 := Step(s, actions[0]).value;
      StepInv(s, actions[0]);
      assert JobLater(s, s1, j);
      WorkKeepsDirectory(s, actions[0], j);
      DirectoryStaysWhileAtWork(s1, actions[1..], j);
    }
  }

  // ----- runs that show it -----------------------------------------------------------------

  lemma OnePastMkdir(k: Key) returns (s: State)
    ensures Reachable(s) && s == State(map[], [], map[k := Dir({}, None)], map[1 := Made(k)])
  {
    s := Start(map[]);
    assert Leftover(map[]) && Run(s, []) == Some(s);
    s := ReachesNext(s, Enter(1, k));
    s := ReachesNext(s, Load(1));
    s := ReachesNext(s, MkdirAll(1, true));
  }

  /** Two requests of one key can both be past MkdirAll before either stores its job. */
  lemma BothPastMkdir(k: Key) returns (s: State)
    ensures Reachable(s) && s.table == map[] && s.jobs == [] && k in s.dirs && s.dirs[k] == Dir({}, None)
    ensures PcOf(s, 1) == Made(k) && PcOf(s, 2) == Made(k)
  {
    s := OnePastMkdir(k);
    s := ReachesNext(s, Enter(2, k));
    s := ReachesNext(s, Load(2));
    s := ReachesNext(s, MkdirAll(2, true));
  }

  lemma FirstWorks(k: Key) returns (s: State)
    ensures Reachable(s) && s.table == map[k := 0] && k in s.dirs && s.dirs[k].index == None
    ensures PcOf(s, 2) == Made(k) && s.jobs == [Job(k, Running, None, false, None)]
  {
    s := BothPastMkdir(k);
    s := ReachesNext(s, LoadOrStore(1));
    s := ReachesNext(s, Begin(0));
  }

  /** The job of the first one fails. */
  lemma FirstFails(k: Key, index: bool) returns (s: State)
    ensures Reachable(s) && s.table == map[k := 0] && k in s.dirs
    ensures s.dirs[k].index == if index then Some(By(0)) else None
    ensures PcOf(s, 2) == Made(k) && s.jobs == [Job(k, Failed("ffmpeg"), None, false, None)]
  {
    s := FirstWorks(k);
    s := ReachesNext(s, Write(0, index));
    s := ReachesNext(s, RunnerReturns(0, Some("ffmpeg")));
  }

  lemma FirstKeepsIndex(k: Key) returns (s: State)
    ensures Reachable(s) && s.table == map[k := 0] && k in s.dirs && s.dirs[k].index == Some(By(0))
    ensures PcOf(s, 2) == Made(k) && |s.jobs| == 1 && s.jobs[0].key == k && s.jobs[0].phase.Cleaned?
  {
    s := FirstFails(k, true);
    s := ReachesNext(s, RemoveAll(0, Some("busy"), {0}, true));
  }

  lemma FirstLeavesIndex(k: Key) returns (s: State)
    ensures Reachable(s) && s.table == map[] && |s.jobs| == 1 && k in s.dirs && s.dirs[k].index == Some(By(0))
    ensures PcOf(s, 2) == Made(k)
  {
    s := FirstKeepsIndex(k);
    s := ReachesNext(s, SetErr(0));
    s := ReachesNext(s, CompareAndDelete(0));
  }

  lemma FirstRemoves(k: Key) returns (s: State)
    ensures Reachable(s) && s.table == map[k := 0] && k !in s.dirs && PcOf(s, 2) == Made(k)
    ensures |s.jobs| == 1 && s.jobs[0].key == k && s.jobs[0].phase.Cleaned?
  {
    s := FirstFails(k, false);
    s := ReachesNext(s, RemoveAll(0, None, {}, false));
  }

  /** Its cleanup succeeds, and it leaves the table. */
  lemma FirstCleansUp(k: Key) returns (s: State)
    ensures Reachable(s) && s.table == map[] && |s.jobs| == 1 && k !in s.dirs && PcOf(s, 2) == Made(k)
  {
    s := FirstRemoves(k);
    s := ReachesNext(s, SetErr(0));
    s := ReachesNext(s, CompareAndDelete(0));
  }

  /**
   * A new job can miss its directory: the second request now stores its own job, whose runner
   * starts on a directory that its MkdirAll made and the first job's cleanup removed.
   */
  lemma JobMayStartWithoutDirectory(k: Key) returns (s: State, j: JobId)
    ensures Reachable(s) && j < |s.jobs| && s.jobs[j].phase.Running? && s.jobs[j].key == k && k !in s.dirs
  {
    s := FirstCleansUp(k);
    s := ReachesNext(s, LoadOrStore(2));
    s := ReachesNext(s, Begin(1));
    j := 1;
  }

  lemma FirstWrites(k: Key) returns (s: State)
    ensures Reachable(s) && s.table == map[k := 0] && k in s.dirs && s.dirs[k].index == Some(By(0))
    ensures PcOf(s, 1) == Has(0) && s.jobs == [Job(k, Running, None, false, None)]
  {
    s := OnePastMkdir(k);
    s := ReachesNext(s, LoadOrStore(1));
    s := ReachesNext(s, Begin(0));
    s := ReachesNext(s, Write(0, true));
  }

  /** An ordinary request: one thread and one job, which writes its index and is ready. */
  lemma OrdinaryRequestIsReady(k: Key) returns (s: State)
    ensures Reachable(s) && PcOf(s, 1) == Waited(0, Ready(By(0))) && k in s.dirs && s.dirs[k].index == Some(By(0))
  {
    s := FirstWrites(k);
    s := ReachesNext(s, RunnerReturns(0, None));
    s := ReachesNext(s, CloseDone(0));
    s := ReachesNext(s, WaitDone(1));
  }

  /** Its cleanup fails and leaves the index; the second request's job finds it. */
  lemma SecondFindsIndex(k: Key) returns (s: State)
    ensures Reachable(s) && |s.jobs| == 2 && PcOf(s, 2) == Has(1) && k in s.dirs && s.dirs[k].index == Some(By(0))
    ensures s.jobs[1] == Job(k, Returned, None, false, Some(By(0)))
  {
    s := FirstLeavesIndex(k);
    s := ReachesNext(s, LoadOrStore(2));
    s := ReachesNext(s, Begin(1));
  }

  /** So a request can be told that a job is ready when all there is comes from a runner that failed. */
  lemma ReadyMayBeFailedOutput(k: Key) returns (s: State)
    ensures Reachable(s) && PcOf(s, 2) == Waited(1, Ready(By(0))) && 0 < |s.jobs| && s.jobs[0].err.Some?
  {
    s := SecondFindsIndex(k);
    ReachableInv(s);
    s := ReachesNext(s, CloseDone(1));
    s := ReachesNext(s, WaitDone(2));
    ReachableInv(s);
    assert IndexInv(s, 1);
  }
}
