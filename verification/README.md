# DebridNest in Dafny

DebridNest downloads torrents on a server and serves their files over HTTP, HLS and WebDAV; finished files
can move to an object store, and a Stremio addon searches indexers and asks the server for links. This
project models the parts where state, concurrency or arithmetic carry a promise, and proves the promise for
every input or every run. `dafny verify dfyconfig.toml` checks all of it.

| module | what it models |
|---|---|
| HlsJobs | request threads and runner goroutines racing over the HLS job table, as an interleaved step machine |
| Offload | moving completed files from disk to the object store while uploads, commits and deletions fail |
| ObjectKeys | object names: which paths share one |
| ObjectQuota | stored and reserved bytes, the quota under its lock, selection and retry |
| Eviction, Timestamps | the eviction loops, the retention pass, and the text order of end times that drives them |
| Lifecycle | the torrent record as a state machine |
| RateLimiter | the token bucket, over exact rationals and integer nanoseconds |
| RangeReader | the reconnecting reader of objects, against a plain cursor |
| Streaming | Range headers, the window to download first, and its pieces |
| WebDav | the directory tree made from a flat list of paths |
| Jackett, TorrentFileCache | merging search results; the cache of torrent files |
| ProgressJobs | starting a download once |
| HostLinks | the server's list of links against the addon's choice by position |
| Signed | printing and parsing signed links |

Records holds the rows; Strings, Sequences, Decimal and Arithmetic are helpers.

Where the source updates an object in place the model is a class whose methods are proved equal to functions
of the old state, and the theorems are about those functions. What the functions themselves decide is said by
lemmas that write out the columns, bytes and nanoseconds it depends on. Calls into libraries, the database, the store
and the clock return what an argument says, so every theorem holds for all their outcomes.

## What turned out false

Each item names a lemma that shows the promise fail, and the lemma that says for all inputs exactly when it
holds.

- A new HLS job can start without its output directory: `HlsJobs.JobMayStartWithoutDirectory`; exactly when by `HlsJobs.MissingDirectoryExactly`.
- An HLS job can be ready with the output of one that failed: `HlsJobs.ReadyMayBeFailedOutput`; exactly when by `HlsJobs.OwnOutputExactly`.
- Two files of a torrent can get one object, and one of them is lost: `Offload.TwoFilesOneLost`; exactly when by `Offload.SurvivalExactly` and `ObjectKeys.SameKeyExactly`.
- A failed commit can delete the object of another file with the same key: `Offload.FailedCommitLosesFile`; exactly when by `Offload.FailedCommitSparesExactly`.
- A record read before another offload finished can unmark a stored file: `Offload.StaleRecordLosesFile`; exactly when by `Offload.CommitKeepsMarksExactly`.
- An accepted selection can reserve more than the quota: `ObjectQuota.SelectionMayOverbook`; exactly when by `ObjectQuota.SelectionInQuotaExactly`.
- So can a retry, which is not checked: `ObjectQuota.RetryMayOverbook`; by exactly how much by `ObjectQuota.RetryReserves`.
- End times sort as text in another order than as times within one second: `Timestamps.WholeSecondSortsLast`; exactly when by `Timestamps.TextOrderExactly`, for the eviction's list by `Eviction.ListingInTimeOrderExactly`, and for the age clean-up by `Eviction.AgeVictimsByTime`.
- "downloaded" is not absorbing: `Lifecycle.ListPutsDownloadedBack`; exactly when by `Lifecycle.DownloadedSurvivesSync`.
- One failed write of two can leave "downloaded" without its bytes: `Lifecycle.PersistMayBreakPromise`; exactly when by `Lifecycle.PersistKeepsPromise`.
- So can a selection whose files are written between the two writes: `Lifecycle.SelectionMayBeLost`; exactly when by `Lifecycle.InterleavedKeepsPromise`.
- Progress can be negative for petabyte selections: `Lifecycle.ProgressMayGoNegative`; exactly when it is right by `Lifecycle.PercentExact`.
- While a torrent downloads the addon can be given another file's link: `HostLinks.LinkOfAnotherFile`; exactly when by `HostLinks.PickedLinkExactly`.
- A file with a percent sign in its name is not served through its own link: `Signed.PercentNameIsNotServed`; exactly when by `Signed.ParseDecoded`.
- Two starts of one job can both succeed: `ProgressJobs.FalsyIdStartsTwice`; exactly when another can by `ProgressJobs.FurtherSuccessExactly`, and after a success by `ProgressJobs.SecondSuccessExactly`.
- A top-level WebDAV directory can open as a file of the same name: `WebDav.DirectoryOpensAsFile`; exactly when by `WebDav.EntriesOpenExactly`.
- Storing a cached torrent file again does not make it recent: `TorrentFileCache.StoredAgainGoesFirst`; exactly when it is recent by `TorrentFileCache.StoredIsRecentExactly`, and how long it then stays by `TorrentFileCache.StoredStaysExactly`.

## Model

| member | source | states |
|---|---|---|
| HlsJobs.StepInv | internal/transcode/handler.go:265-303 | every step of every thread and runner keeps the invariant of table, jobs, directories and threads, and undoes nothing that is settled |
| HlsJobs.MutualExclusion | internal/transcode/handler.go:271-287 | in every reachable interleaving two live runners of a key are the same |
| HlsJobs.FailureIsCompleteWhenSeen | internal/transcode/handler.go:290-303 | when done closes on a failed job it is out of the table and its output gone, unless its error reports the failed cleanup |
| HlsJobs.WaitAnswersExactly | internal/transcode/hls.go:35-55 | in every reachable state a waiter that did not give up was told the error exactly when the job has it, ready of an index exactly when there is no error and that index lies in the directory, and that output is missing exactly when there is neither |
| HlsJobs.OwnIndexIsReady | internal/transcode/hls.go:35-60 | over every run, each waiter of a job that wrote its index and did not fail is told ready, of that index |
| HlsJobs.RunnerErrorIsTold | internal/transcode/handler.go:290-303 | over every run, what the runner returned is what each waiter is told: its error, with the cleanup's if that failed too, or none |
| HlsJobs.OrdinaryRequestIsReady | internal/transcode/handler.go:265-303 | one request and its job, from the empty table to ready |
| HlsJobs.EnsureJobFindsExactly | internal/transcode/handler.go:265-287 | Load and LoadOrStore return a job of the key exactly when it is at work or has succeeded; without one Load misses and LoadOrStore stores a new job |
| HlsJobs.ThreadGoesOn | internal/transcode/handler.go:265-287 | no request is stuck: which step each can take next, MkdirAll failing or not, and a wait can always be given up |
| HlsJobs.WaitEndsExactly | internal/transcode/hls.go:35-55 | a wait ends without giving up exactly when done is closed |
| HlsJobs.JobCanEnd | internal/transcode/handler.go:290-303 | from every reachable state every job can close done, whether its runner fails or not |
| HlsJobs.JobMovesExactly | internal/transcode/handler.go:290-303 | only its own goroutine moves a job, in the order runner, RemoveAll, setErr, CompareAndDelete, close |
| HlsJobs.DirectoryExactly | internal/transcode/handler.go:290-297 | what each step leaves in a directory: a write adds the job's output and its index, a RemoveAll that fails leaves some, nothing else changes it |
| HlsJobs.WaitersAgree | internal/transcode/hls.go:35-55 | what a waiter that did not give up was told is what every later look at the job gives, so all are told the same; an error exactly from a failed job |
| HlsJobs.ReadyMeansOwnOutput | internal/transcode/hls.go:35-60 | ready is said of a job that succeeded, with an index that is still there; it is the job's own exactly when its runner found none, and otherwise one left by an earlier process or by a job that failed and could not clean up |
| HlsJobs.OwnOutputExactly | internal/transcode/hls.go:57-60 | over every run, ready means the job's own output exactly when the directory holds no index where its runner begins |
| HlsJobs.ReadyMayBeFailedOutput | internal/transcode/hls.go:57-60 | a run after which a request is told that a job is ready with the index of a failed one |
| HlsJobs.FailedJobNeverReturnedAgain | internal/transcode/handler.go:265-287 | after a visible failure no run makes ensureJob hand that job to a thread that does not have it |
| HlsJobs.CallerGetsDifferentJob | internal/transcode/handler.go:265-303 | a caller told of a failure gets a different job from its next ensureJob |
| HlsJobs.CleanupIsNewest | internal/transcode/handler.go:292-297 | the job that cleans up is the newest of its key, so it removes nothing of a later runner |
| HlsJobs.SuccessfulOutputStays | internal/transcode/handler.go:290-303 | once a job has succeeded its directory, output and index, is the same after every further run |
| HlsJobs.MissingDirectoryExactly | internal/transcode/handler.go:265-287 | where a thread is about to store its job the directory is missing exactly when the last MkdirAll or RemoveAll of the key since the thread's Load was a RemoveAll, by a job stored after that Load |
| HlsJobs.DirectoryIsThereWhenAlone | internal/transcode/handler.go:265-287 | if the key stays out of the table from a thread's Load to its LoadOrStore the directory is there |
| HlsJobs.DirectoryStaysWhileAtWork | internal/transcode/handler.go:290-297 | a runner at work whose directory is there keeps it as long as it works |
| HlsJobs.JobMayStartWithoutDirectory | internal/transcode/handler.go:271-287 | a run after which a job is running without its directory |
| Offload.CommitKeepsMarksExactly | internal/storage/torrents.go:115-142 | writing a record unmarks no stored row exactly when the record marks every file that has a marked row |
| Offload.LoadedRecordAgrees | internal/storage/torrents.go:410-428 | a record read from the rows has distinct ids and agrees with them |
| Offload.StepKeeps | internal/torrent/offload.go:48-73 | one file's turn, whatever fails, keeps record and rows in agreement, stored rows true, and everything that was held |
| Offload.FileMovedExactly | internal/torrent/offload.go:48-73 | a run stores a file exactly when it is selected, not stored, not empty and complete, its bytes are on the disk and the quota has room at its turn, and open, upload and commit succeed; then its key and mark are set, otherwise its entry is untouched |
| Offload.OnlyCompleteFilesMove | internal/torrent/offload.go:92-118 | whatever fails, a file that a run marks stored was selected, complete and on the disk |
| Offload.RecordIsWritten | internal/storage/torrents.go:115-142 | writing a record sets selection, counts, disk path, key and mark of its files' rows, not path and size, and no other rows |
| Offload.NoDataLoss | internal/torrent/offload.go:33-75 | at every moment of every run, between any two writes too, a file held before on disk or in the store is still held, also one of another torrent; rows marked stored are true. The premise is that complete files hold their bytes, that files have disk paths and keys of their own, and that the record agrees with the rows |
| Offload.LocalCopiesExactly | internal/torrent/offload.go:50-70 | when local copies go and can be removed, the disk keeps exactly the files that are not stored |
| Offload.NoOrphans | internal/torrent/offload.go:61-66 | unless a failed upload stores or a deletion fails, every new object belongs to a file marked stored |
| Offload.SurvivalExactly | internal/torrent/offload.go:96-118 | when nothing fails and local copies go, all files survive exactly when files whose paths have the same pieces have the same bytes |
| Offload.FailedCommitSparesExactly | internal/torrent/offload.go:63-66 | taking back an object after a failed commit spares a stored file with no local copy exactly when its key is another |
| Offload.FailedCommitLosesFile | internal/torrent/offload.go:63-66 | two torrents of one info hash of which the first loses its object when the second's commit fails |
| Offload.TwoFilesOneLost | internal/torrent/offload.go:96-118 | two paths of one torrent of which one is lost though nothing fails |
| Offload.StaleRecordLosesFile | internal/torrent/offload.go:61-67 | a stored file whose local copy is gone is lost when a record read earlier is written back |
| Offload.Database.UpdateTorrentFiles | internal/storage/torrents.go:115-142 | the rows become the fold of the statements, or stay as they were when a statement or the commit fails |
| Offload.Manager.OffloadOneFile | internal/torrent/offload.go:96-118 | reports a move exactly when a selected, complete, unstored file was read and stored, and writes the object also when the upload fails after storing |
| Offload.Manager.RemoveLocalOffloadedFile | internal/torrent/offload.go:120-125 | removes at most the file's own path |
| Offload.Manager.ReplaceTorrentFile | internal/torrent/offload.go:81-90 | replaces the first entry with the id |
| Offload.Manager.OffloadFiles | internal/torrent/offload.go:33-79 | disk, store, rows and record end as the run the theorems are about; nothing changes when the usage cannot be read |
| ObjectKeys.ObjectKey | internal/objectstore/store.go:86-99 | the repeated replacements end with prefix, lower-case hash and the non-empty pieces of the path |
| ObjectKeys.NormalisePath | internal/objectstore/store.go:87-92 | the loop ends, with the non-empty pieces joined by single slashes |
| ObjectKeys.SameKeyExactly | internal/objectstore/store.go:86-99 | two files share a key exactly when their hashes agree but for case and their paths have the same pieces |
| ObjectKeys.DoubledSlashSameKey | internal/objectstore/store.go:86-99 | a doubled slash and a backslash give the same key |
| ObjectQuota.StepIsCounted | internal/torrent/offload.go:57-73 | one file's turn keeps the running count at least the stored bytes, which stay as they are or within the quota |
| ObjectQuota.QuotaHolds | internal/torrent/offload.go:33-75 | no run of offloads, other writes, insertions and deletions takes the stored bytes above both the quota and where they began |
| ObjectQuota.EventsMean | internal/torrent/offload.go:33-75 | the events are whole offload runs from the usage of the rows, writes of records, deletions of a torrent's rows, and new rows |
| ObjectQuota.EventsFollow | internal/torrent/offload.go:33-75 | each event acts on what the ones before it left |
| ObjectQuota.RunCountsExactly | internal/torrent/offload.go:43-73 | for a record of rows that exist the running count is exactly what is stored, after every file |
| ObjectQuota.SkippedExactlyWhenFull | internal/torrent/offload.go:57-59 | when its calls succeed a selected, complete, unstored file on disk stays out exactly when the bytes stored at its turn leave no room |
| ObjectQuota.WriteKeepsUsage | internal/storage/torrents.go:115-142 | writing a record that agrees on what is stored changes the stored bytes by nothing |
| ObjectQuota.OffloadKeepsReservation | internal/storage/torrents.go:669-685 | an offload run moves bytes from reserved to stored without changing their sum |
| ObjectQuota.SelectionReserves | internal/torrent/manager.go:1232-1254 | after a selection the reservation is what others hold, what was required, and what the torrent itself had stored |
| ObjectQuota.SelectionInQuotaExactly | internal/torrent/manager.go:1232-1254 | after an accepted selection the reservation is at most the quota and the torrent's own stored bytes, and in the quota exactly when those fit beside the rest |
| ObjectQuota.SelectionMayOverbook | internal/torrent/manager.go:1238-1242 | a selection that passes at 100 of 100 bytes and reserves 160 |
| ObjectQuota.RetryExactly | internal/storage/torrents.go:687-704 | a retry queues the torrent and sets the counts of its files to 0, and touches no other torrent |
| ObjectQuota.RetryReserves | internal/storage/torrents.go:687-704 | a retry adds exactly the torrent's selected bytes that are not stored, whatever the quota |
| ObjectQuota.RetryMayOverbook | internal/torrent/manager.go:1473-1493 | a retry that takes a full reservation of 100 to 160 |
| ObjectQuota.Selector.EnsureQuotaForSelection | internal/torrent/manager.go:1232-1254 | refuses exactly when reservations and required bytes exceed the quota |
| ObjectQuota.Selector.SelectFiles | internal/torrent/manager.go:202-230 | exactly when each answer comes; an accepted selection is written and queued, a failed write leaves the rows as they were or, when only the record fails, as selected |
| Eviction.ListingFacts | internal/storage/torrents.go:602-626 | completed torrents only, earliest text first; at most a thousand, those left out end no earlier, and none is left out below that |
| Eviction.ListingInTimeOrderExactly | internal/storage/torrents.go:602-626 | the listed torrents stand in the order of their times exactly when no two ended in one second with trimmed fractions of which one begins the other |
| Eviction.StopIsShortest | internal/torrent/manager.go:1400-1403 | where the loop stops is the shortest run that frees enough, or all |
| Eviction.NoTorrentTooMany | internal/torrent/manager.go:1400-1429 | the last torrent looked at is one that was removed, and without it too little would be free |
| Eviction.EvictionFrees | internal/torrent/manager.go:1400-1429 | the stored bytes fall by exactly what the loop counts as freed |
| Eviction.EvictionReachesQuotaExactly | internal/torrent/manager.go:1388-1431 | with nothing failing the store ends in its quota exactly when the listed torrents hold enough |
| Eviction.Cleaner.EvictOldestRemoteStored | internal/torrent/manager.go:1388-1431 | removes the removable of the shortest sufficient run, for every pattern of failures, and reports an error exactly when a tried one failed |
| Eviction.Cleaner.EvictOldestCompleted | internal/torrent/manager.go:1361-1386 | the same by size on disk, where failed deletions are passed over in silence |
| Eviction.EndedBeforeFacts | internal/storage/torrents.go:580-600 | the listing for age holds exactly the downloaded torrents whose end sorts before the cutoff, the earliest first |
| Eviction.AgeVictimsExactly | internal/retention/retention.go:58-67 | a torrent goes for its age only if retention is on and it is downloaded with an end that sorts before the cutoff; when listing and deletions succeed, exactly those go |
| Eviction.AgeVictimsByTime | internal/retention/retention.go:58-67 | in times: one that ended before the cutoff goes unless its fraction begins the cutoff's in the same second, and one that ended at the cutoff or later stays unless the cutoff's fraction begins its own in that second |
| Eviction.Cleaner.DeleteCompletedBefore | internal/torrent/manager.go:1346-1359 | removes the deletable of the listing for age; when no deletion fails exactly the downloaded torrents whose end sorts before the cutoff are gone |
| Eviction.PassRemovesCompletedOnly | internal/retention/retention.go:52-118 | whatever fails, a pass removes exactly the aged, then of the oldest the deletable up to the disk quota, then up to the store's; all had completed |
| Eviction.PassWithNothingToDo | internal/retention/retention.go:58-117 | with retention off and no quota exceeded nothing goes |
| Eviction.PassWithoutErrors | internal/retention/retention.go:96-117 | no error and a positive quota mean that the store is really in its quota, and is reported so |
| Eviction.PassFailsExactly | internal/retention/retention.go:58-117 | when no call fails a pass, with whatever age and disk phases, returns an error exactly when the torrents listed after those phases hold too little |
| Eviction.Cleaner.RunNow | internal/retention/retention.go:52-118 | tables, result and errors are those the lemmas on passes are about, for every pattern of failures |
| Timestamps.TextOrderExactly | internal/storage/torrents.go:98-102 | stored end times sort as text in the order of time, except within a second when one trimmed fraction begins the other: then the other way round |
| Timestamps.PrefixIsEarlier | internal/storage/torrents.go:100-102 | of two ends in one second the one whose trimmed fraction begins the other's is the earlier |
| Timestamps.TailExactly | internal/storage/torrents.go:100-102 | what RFC3339Nano prints after the seconds: a Z, or a dot and the nanoseconds without the zeros at their end |
| Timestamps.WholeSecondSortsLast | internal/storage/torrents.go:602-612 | a torrent that ended on the second sorts after one that ended later in it |
| Lifecycle.StepInv | internal/torrent/lifecycle.go:106-150 | every step of a record's life keeps "downloaded means progress 100, an end time and all selected bytes streamable" |
| Lifecycle.RunInv | internal/torrent/manager.go:781-799 | so does every run of selection, sync, reconciliation, listing, error, retry, offload and metadata steps |
| Lifecycle.StepsFollow | internal/torrent/manager.go:781-799 | each step acts on what the ones before it left |
| Lifecycle.EveryRecordKeepsPromise | internal/torrent/manager.go:180-196 | in particular every run from a new record |
| Lifecycle.SnapshotProgress | internal/torrent/lifecycle.go:106-122 | after a sync of a non-empty selection progress is the percentage of its bytes that are there, rounded down, and 100 exactly when the status is downloaded |
| Lifecycle.SnapshotExactly | internal/torrent/lifecycle.go:106-122 | a sync makes a record downloaded exactly when its selection is there and not empty, and otherwise downloading unless metadata or a selection is awaited; what becomes of end time and files |
| Lifecycle.SyncExactly | internal/torrent/manager.go:661-682 | what a sync makes of each file: a known one gets path and counts of the client, or its size if stored, others stay; a downloaded record streams what is selected |
| Lifecycle.ListSyncExactly | internal/torrent/manager.go:276-285 | listing makes a record downloading unless it awaits metadata or a selection, and touches no file |
| Lifecycle.RetryExactly | internal/torrent/manager.go:1473-1493 | a retry revives failed records only: queued, progress 0, no end, counts 0 |
| Lifecycle.InfoMissingExactly | internal/torrent/manager.go:738-747 | a record whose metadata is gone waits for it again unless it is downloaded or failed |
| Lifecycle.ReconcileExactly | internal/torrent/manager.go:1080-1128 | a record is completed from the store exactly when it is not downloaded, some file is selected and all selected are stored and not empty; its selected files then count as whole |
| Lifecycle.FailAndMetadataExactly | internal/torrent/manager.go:1047-1054 | a failure changes the status only; metadata brings the files and waits for a selection |
| Lifecycle.OffloadedExactly | internal/torrent/offload.go:115-117 | storing sets key and mark of the file and nothing else |
| Lifecycle.PercentExact | internal/torrent/lifecycle.go:106-122 | the int64 product gives the percentage exactly when it does not wrap |
| Lifecycle.ProgressMayGoNegative | internal/torrent/lifecycle.go:106-122 | a selection whose progress is negative |
| Lifecycle.DownloadedSurvivesSync | internal/torrent/manager.go:781-799 | a sync keeps "downloaded" exactly when the selection is complete by then |
| Lifecycle.ListPutsDownloadedBack | internal/torrent/manager.go:276-285 | listing, which loads no files, puts an active downloaded torrent back |
| Lifecycle.ReconcileMatchesSync | internal/torrent/manager.go:1080-1128 | the shortcut for stored torrents agrees with the full sync on status, progress and end; on a file's counts exactly when the client knows the file or it counts as downloaded |
| Lifecycle.SelectionExactly | internal/torrent/lifecycle.go:124-150 | a selection is refused exactly when blank or naming a number no file has, changes nothing then, and otherwise selects exactly the files named; "all" counts every byte |
| Lifecycle.PersistKeepsPromise | internal/torrent/manager.go:723-779 | when one of the two writes fails the stored record keeps the promise of "downloaded" exactly in these cases |
| Lifecycle.PersistMayBreakPromise | internal/torrent/manager.go:767-768 | a record stored as downloaded whose file has no bytes |
| Lifecycle.AnyOrderExactly | internal/torrent/manager.go:638-641 | the orders considered are all in which each writer's files come before its record |
| Lifecycle.LastWriterWins | internal/torrent/manager.go:638-641 | in every order of a tracker's two writes and a selection's two, whatever each had read, files and status stored are those written last |
| Lifecycle.SelectionStoredExactly | internal/torrent/manager.go:202-230 | a selection is stored whole exactly when both its writes come after the tracker's |
| Lifecycle.InterleavedKeepsPromise | internal/torrent/manager.go:638-641 | in every such order the promise of "downloaded" is kept exactly when the tracker does not have the last word on the status while the selection has it on the files, or all that is selected is there already |
| Lifecycle.SelectionMayBeLost | internal/torrent/manager.go:638-641 | a second file selected at that moment and stored as downloaded |
| Lifecycle.LinksVisibleExactly | internal/torrent/lifecycle.go:65-104 | links show exactly for completed torrents and for those that have not failed and have a selected video with enough of its first bytes |
| Lifecycle.FileLinksVisibleExactly | internal/torrent/lifecycle.go:97-104 | a file's link shows exactly for a selected file of a torrent that is downloaded, or that has not failed and streams it |
| Lifecycle.IsVideoPathExactly | internal/torrent/lifecycle.go:181-188 | a path is a video's exactly when it ends with one of the extensions, in whatever case |
| Lifecycle.Torrent.MarkDownloaded | internal/torrent/lifecycle.go:190-208 | in place, as the step the invariant is about |
| Lifecycle.Torrent.ApplyRuntimeSnapshot | internal/torrent/lifecycle.go:106-122 | in place, as the step the invariant is about |
| Lifecycle.Torrent.ComputeTotals | internal/torrent/manager.go:1056-1078 | the two sums over the selected files |
| Lifecycle.Torrent.SyncRuntimeState | internal/torrent/manager.go:661-682 | in place, file by file, as the step the invariant is about |
| Lifecycle.Torrent.ReconcileRemoteStoredComplete | internal/torrent/manager.go:1080-1107 | applies exactly to the records it may complete |
| Lifecycle.Torrent.ApplySelection | internal/torrent/lifecycle.go:124-150 | selects and sums, or leaves the record alone when the specification is malformed |
| RateLimiter.BackwardClockIsHarmless | internal/links/ratelimit.go:117-134 | a clock that steps back refills nothing and forgets nothing |
| RateLimiter.EventBound | internal/links/ratelimit.go:81-115 | each take and refund is paid from the allowance and the time passed, and the allowance stays between 0 and the burst |
| RateLimiter.RefillExactly | internal/links/ratelimit.go:117-145 | in numbers: full the first time, then rate / 10^9 bytes for each nanosecond up to max(1, rate), and nothing when no time has passed |
| RateLimiter.TakeExactly | internal/links/ratelimit.go:81-101 | in numbers: the grant is min(max, floor(max(1, rate))), made exactly when the refilled allowance covers it, and charged in full; otherwise the wait covers what is missing |
| RateLimiter.RefundExactly | internal/links/ratelimit.go:103-115 | in numbers: a refill, and the unused bytes up to a full bucket |
| RateLimiter.ThroughputBound | internal/links/ratelimit.go:81-134 | between any two points of any run the net bytes times 10^9 are at most max(1, rate) times 10^9 and rate times the nanoseconds between |
| RateLimiter.NewLimiterBound | internal/links/ratelimit.go:18-23 | the same from a new limiter |
| RateLimiter.WaitIsAlmostEnough | internal/links/ratelimit.go:147-153 | the wait is the whole nanoseconds, at least one, in which the rate earns what is missing: no more, and less than one nanosecond's bytes still miss after it |
| RateLimiter.SmallWaitIsOne | internal/links/ratelimit.go:147-153 | the floor of one nanosecond then closes the gap |
| RateLimiter.Limiter.RefillLocked | internal/links/ratelimit.go:117-134 | the fields become the refilled bucket |
| RateLimiter.Limiter.TakeLoop | internal/links/ratelimit.go:81-101 | at most three passes; the grant is min(max, floor(max(1, rate))), and the bucket is charged for it |
| RateLimiter.Limiter.GiveBackBytes | internal/links/ratelimit.go:103-115 | a refund is one event of the bucket |
| RateLimiter.Limiter.Read | internal/links/ratelimit.go:67-79 | the bytes delivered are the smaller of those available and the grant, and exactly those charged, net of the refund |
| RangeReader.ReadIsCursor | internal/objectstore/store.go:203-227 | a read returns the object's bytes at the cursor, wherever bodies break off, and says EOF only at the end |
| RangeReader.ReadOutcomeExactly | internal/objectstore/store.go:203-227 | how many bytes a read returns, and with which error: a failed opening or a body's error is a failure, an early EOF is none if the object can be opened again, and EOF comes exactly when the body ends with the object |
| RangeReader.BodyIsDropped | internal/objectstore/store.go:229-268 | after a close and a seek that succeeds no body is open |
| RangeReader.SeekIsExact | internal/objectstore/store.go:229-257 | a seek succeeds exactly when the exact target is representable and not negative; a failed one changes nothing |
| RangeReader.EveryHistoryRefines | internal/objectstore/store.go:189-280 | every history of reads, seeks and closes is one of a plain cursor, which says EOF at the end |
| RangeReader.ReadMakesProgress | internal/objectstore/store.go:203-227 | when nothing fails a read before the end returns a byte at least, unless its body is spent: then it opens another |
| RangeReader.WillingReadsReachTheEnd | internal/objectstore/store.go:203-227 | so enough reads return the whole rest of the object and come to its end |
| RangeReader.ReadsCopyTheObject | internal/objectstore/store.go:203-227 | successive reads concatenate to a piece of the object |
| RangeReader.Reader.Read | internal/objectstore/store.go:203-227 | position and body become those of the step, with the same data and error |
| RangeReader.Reader.Seek | internal/objectstore/store.go:229-257 | the same, and unchanged on failure |
| RangeReader.Reader.Close | internal/objectstore/store.go:259-268 | drops the body and keeps the position |
| Streaming.ParsedRangeInside | internal/torrent/range.go:13-57 | whatever the header, the range lies in the file |
| Streaming.ParseRangeFollowsStandard | internal/torrent/range.go:13-57 | every int-range and suffix-range of section 14.1.2 of RFC 9110, with any digits and of any size, gives the bytes it selects, with any padding and further ranges; one that selects none gives no bounded range |
| Streaming.NoRangeInHeader | internal/torrent/range.go:13-27 | without a size, another unit than bytes, or no dash: the whole file |
| Streaming.UnusableNumbers | internal/torrent/range.go:29-51 | what comes of numbers that cannot be read, are not in the file, or end before they begin |
| Streaming.IsSpaceExactly | internal/torrent/range.go:22 | what is trimmed are the characters Unicode calls white space |
| Streaming.ConfigInBytes | internal/config/config.go:80-99 | the settings in bytes, with their defaults |
| Streaming.FloorCeil | internal/torrent/streaming.go:211-212 | the two divisions name exactly the pieces that overlap |
| Streaming.ComputeWindow | internal/torrent/streaming.go:128-154 | position clamped into the file; the window begins at most the pre-roll before and reaches the read-ahead beyond the request |
| Streaming.Pieces.PrioritizeFileRange | internal/torrent/streaming.go:193-230 | marks exactly the pieces with a byte of the clipped window |
| Streaming.ServeRange | internal/torrent/streaming.go:128-158 | for every header the window begins the pre-roll before the range, clamped at 0, and spans range, pre-roll and read-ahead; exactly its pieces are marked, so all pieces of the range are |
| Streaming.PrioritizeStreamStart | internal/torrent/streaming.go:232-255 | exactly the pieces of the first and the last window |
| WebDav.ListingMeans | internal/webdav/fs.go:103-160 | a directory lists the next names of the paths through it, each as a file with its size exactly when a file lies there |
| WebDav.OwnNameIsListed | internal/webdav/fs.go:103-160 | no entry is without a name, and a file at the listed path itself is listed under its own |
| WebDav.BaseExactly | internal/webdav/fs.go:115 | the last name of a path, whatever slashes follow it; "." for none and "/" for the root |
| WebDav.OpenMeans | internal/webdav/fs.go:319-341 | what a path opens as, by the tree and by how many other files bear its name |
| WebDav.EntriesOpenExactly | internal/webdav/fs.go:162-206 | an entry opens as what it is listed as exactly when at most one other file before it (for a file), or not exactly one (for a directory), bears its name |
| WebDav.DirectoryOpensAsFile | internal/webdav/fs.go:162-186 | with files /d/x and /e/d the directory d opens as the second file |
| WebDav.NoHitsBelowTop | internal/webdav/fs.go:162-186 | below the top level no name is in question |
| WebDav.WalkMeans | internal/webdav/fs.go:103-160 | the walk from a directory meets, once each, exactly the files below it that no file stands in the way of |
| WebDav.WalkIsWhole | internal/webdav/fs.go:103-160 | the walk from the top meets each selected file at most once with its size, and all exactly when no path runs through a file |
| WebDav.ListChildren | internal/webdav/fs.go:103-160 | the loop and the sort give the entries, each once, by name |
| WebDav.ListsUnique | internal/webdav/fs.go:155-159 | there is one such listing |
| WebDav.FindFileByScan | internal/webdav/fs.go:162-186 | the scan is the search the theorems are about |
| WebDav.IsVirtualDirByScan | internal/webdav/fs.go:188-206 | the scan is the test the theorems are about |
| WebDav.ReadingIsExact | internal/webdav/fs.go:233-261 | whatever is asked for, successive batches are the entries in order, each once, and all of them by the time EOF is said |
| WebDav.AskingEnoughReadsAll | internal/webdav/fs.go:233-261 | asking as often as entries are left, for any number at a time, reads them all |
| WebDav.Dir.Readdir | internal/webdav/fs.go:233-261 | one batch, its end, and EOF exactly at the end of a counted reading; the new position |
| Jackett.MergeTorrentResults | stremio-addon/lib/jackett.js:411-438 | the loops compute the merge the theorems are about |
| Jackett.SameTorrentExactly | stremio-addon/lib/jackett.js:384-398 | two results are one torrent exactly when both have the same hash but for case, or have none and the same link that is no magnet, or neither and the same title and size |
| Jackett.AddOneKeepsIndex | stremio-addon/lib/jackett.js:411-438 | the index left behind is the one a rebuild would give |
| Jackett.MergeInBatches | stremio-addon/lib/jackett.js:411-438 | merging in batches is merging at once |
| Jackett.MergedListExact | stremio-addon/lib/jackett.js:384-438 | one slot for each first appearance, in order of appearance, with the best result of its identity, the earliest of equals; identities are distinct |
| Jackett.RepresentationIsUnique | stremio-addon/lib/jackett.js:400-438 | that describes one list only |
| Jackett.FirstPositionsExact | stremio-addon/lib/jackett.js:411-438 | the slots stand for the first appearances and no others |
| TorrentFileCache.Bounded | stremio-addon/lib/jackett.js:168-180 | after every run keys are distinct and at most the maximum |
| TorrentFileCache.GetIsLatest | stremio-addon/lib/jackett.js:151-166 | a value returned was stored by a set of the link that has not expired and is followed by no other set or deletion of it |
| TorrentFileCache.LookupExactly | stremio-addon/lib/jackett.js:151-166 | a lookup returns the value exactly when an entry of the link has not expired; that entry moves behind the others, an expired one goes, the others keep their order |
| TorrentFileCache.DeleteExactly | stremio-addon/lib/jackett.js:159-161 | deleting takes the entry of the link and leaves the others in order |
| TorrentFileCache.RecentStays | stremio-addon/lib/jackett.js:151-180 | the most recent entry stays as long as fewer other links than the maximum are used |
| TorrentFileCache.StoredIsRecentExactly | stremio-addon/lib/jackett.js:168-180 | storing makes an entry the most recent exactly when its link was not there, or was the most recent already |
| TorrentFileCache.StoredStaysExactly | stremio-addon/lib/jackett.js:168-180 | in every run and for every maximum, after n entries under new links an entry just stored is there exactly when n is at most the maximum less one, or, if its link was there, the room left and the slots that stood before it |
| TorrentFileCache.NewOnesFollow | stremio-addon/lib/jackett.js:168-180 | storing under new links appends, and drops from the front what is too much |
| TorrentFileCache.StoredAgainGoesFirst | stremio-addon/lib/jackett.js:168-180 | two entries of which the one just stored again is dropped next |
| TorrentFileCache.Cache.GetEntry | stremio-addon/lib/jackett.js:151-166 | the Map and the answer are those of the step |
| TorrentFileCache.Cache.SetEntry | stremio-addon/lib/jackett.js:168-180 | the loop that makes room ends, with the Map of the step |
| ProgressJobs.SingleFlight | stremio-addon/lib/progressHandler.js:10-44 | in every interleaving at most one start is outstanding, and it is the one new callers await |
| ProgressJobs.SecondSuccessNeedsFalsyId | stremio-addon/lib/progressHandler.js:10-44 | a start after a success means that the success gave no id |
| ProgressJobs.AtMostOneSuccess | stremio-addon/lib/progressHandler.js:10-44 | with ids at most one start succeeds, and the job holds its id |
| ProgressJobs.TorrentIdStays | stremio-addon/lib/progressHandler.js:10-44 | the id is written once |
| ProgressJobs.CallersAgree | stremio-addon/lib/progressHandler.js:10-44 | all callers given an id are given the same |
| ProgressJobs.CallIsAnswered | stremio-addon/lib/progressHandler.js:10-44 | a call on a job with an id is given it at once; without one it throws exactly when there is no source, and otherwise awaits the start there is, or begins one |
| ProgressJobs.AwaitingIsAnswered | stremio-addon/lib/progressHandler.js:42-43 | a waiting caller goes on exactly when its start is over: with the start's id, or throwing if it failed |
| ProgressJobs.StartGoesOn | stremio-addon/lib/progressHandler.js:17-40 | a start that is out may be fulfilled with any id or rejected; what its callbacks then write |
| ProgressJobs.FailureIsRestartable | stremio-addon/lib/progressHandler.js:10-44 | a failed start erases itself and no newer one, and the next caller starts anew |
| ProgressJobs.FurtherSuccessExactly | stremio-addon/lib/progressHandler.js:10-44 | from every reachable state some run makes a further start succeed exactly when the job has a source and no id, which is so whenever a start is under way |
| ProgressJobs.SecondSuccessExactly | stremio-addon/lib/progressHandler.js:10-44 | after a success another is possible exactly when no successful start gave an id |
| ProgressJobs.FalsyIdStartsTwice | stremio-addon/lib/progressHandler.js:10-44 | an interleaving in which two starts succeed |
| HostLinks.LinkTable.EnsureHostLinks | internal/torrent/manager.go:836-850 | rows and links become those of the fold the theorems are about, for every pattern of failing lookups and upserts |
| HostLinks.EnsuredRows | internal/torrent/manager.go:836-850 | each file's row depends on its own visibility and calls only; no other row is touched |
| HostLinks.ListedExactly | internal/torrent/manager.go:836-850 | the links listed are, in file order, those of the rows of the visible files exactly when each has a row its lookup finds, or is written one |
| HostLinks.LinkReplacedExactly | internal/storage/torrents.go:294-302 | an old link is replaced exactly when its file is visible, its lookup fails and its upsert does not |
| HostLinks.PickVideoFileExactly | stremio-addon/lib/debridnest.js:196-210 | the largest file of the best tier, and none exactly when there is no file or several videos could be meant |
| HostLinks.PickIsFirst | stremio-addon/lib/debridnest.js:196-210 | among equals the first: every file before it ranks below it |
| HostLinks.SelectedVideoFileExactly | stremio-addon/lib/debridnest.js:217-229 | the file is the first of the largest in the best tier among the selected; none exactly when none is selected, or an episode is asked for, no selected video matches and several are selected |
| HostLinks.ChosenExactly | stremio-addon/lib/debridnest.js:217-229 | the addon finds the file to play, defined by rank among the selected files, and none exactly when there is none |
| HostLinks.PickHostLinkExactly | stremio-addon/lib/debridnest.js:231-253 | the first link if there are no files; else the link at the position of the file to play unless it is blank; else none for an episode and the first otherwise |
| HostLinks.NoLinkExactly | stremio-addon/lib/debridnest.js:231-253 | no link is taken exactly when an episode is asked for and the file to play, if any, has no link at its position |
| HostLinks.PickedLinkExactly | stremio-addon/lib/debridnest.js:217-253 | the link taken by position is that of the file to play, which no selected file ranks above, exactly when all selected files up to it are visible, or by the fall-back to the first link when it is the only one |
| HostLinks.DownloadedLinkIsRight | stremio-addon/lib/debridnest.js:231-253 | once downloaded the link is always that of the file to play, the best of the selected files for the episode asked for |
| HostLinks.EnsuredDistinct | internal/torrent/manager.go:836-850 | links stay distinct when the new ids are none of those in use and differ from each other |
| HostLinks.EndToEndExactly | internal/torrent/manager.go:836-850 | from the table to the addon: with every visible file settled the link taken is that of the file to play exactly as above, and always once downloaded |
| HostLinks.LinkOfAnotherFile | stremio-addon/lib/debridnest.js:231-253 | a torrent for which the addon is given another file's link |
| Signed.UnescapeEscape | internal/links/signed.go:76-82 | percent-decoding undoes percent-encoding (section 2.1 of RFC 3986) |
| Signed.EscapeExactly | internal/links/signed.go:36-42 | which characters a link holds as they are; all others as a percent sign and two capital digits |
| Signed.HexExactly | internal/links/signed.go:107-122 | hexadecimal digits are read in either case |
| Signed.ParseSigned | internal/links/signed.go:36-53 | parsing a signed path gives back path, expiry and signature, and the link verifies exactly until it expires |
| Signed.ParseLinkPath | internal/links/signed.go:107-122 | what stands between expiry and signature is found again, slashes and all |
| Signed.OnlyLinksParse | internal/links/signed.go:107-122 | nothing else parses: a path that does is, between slashes, "dl", a number, a middle that decodes and a signature |
| Signed.ParseDecoded | internal/links/signed.go:107-122 | on the already decoded path exactly when the path holds no percent sign |
| Signed.PercentNameIsNotServed | internal/links/signed.go:107-122 | a file name whose own link never parses |
| Signed.PayloadInjective | internal/links/signed.go:36-42 | what is signed determines path and expiry, though the path may hold the separator |
| Signed.SignatureIsForOneLink | internal/links/signed.go:44-53 | a signature verifies for another link only where the hash collides |
| Strings.LowerCharExactly | internal/objectstore/store.go:97 | the capital ASCII letters become small ones, nothing else changes |
| Decimal.PrintChars | internal/links/signed.go:37 | a number is printed as digits without a leading zero, after a minus if negative |
| Decimal.ParseSign | internal/torrent/range.go:38 | a plus or minus in front of digits is read |
| Arithmetic.Wrap64Exactly | internal/objectstore/store.go:229-257 | int64 arithmetic is exact up to a multiple of 2^64 |
| Arithmetic.TruncDivExactly | internal/torrent/lifecycle.go:106-122 | int64 division rounds toward zero |

## Left out

- The torrent client, SQLite, the AWS SDK, ffmpeg, HTTP routing and fetch: their calls return what an argument says. A commit either happened or not; a commit that reports an error after it happened is not modelled.
- HMAC is any function, info hashes and ids are given; random link ids are assumed new where a lemma says so. A failure to make one is not modelled.
- RunInv: each step reads and writes a record at once; of other interleavings, those of one tracker's writes with one selection's are modelled (LastWriterWins), with more writers not.
- SelectFiles: reads its record where it checks the quota; that the source reads it before taking the lock is not modelled.
- Regular expressions (titles, qualities, episodes) and the ranking scores: identity titles and episode matching are inputs.
- Floating point in the rate limiter: arithmetic is over reals, so rounding of the allowance is not modelled. The bound on the loop assumes one caller and sleeps at least as long as asked for.
- Sums of file sizes are unbounded integers; only the percentage, the seek target and the expiry are taken modulo 2^64.
- The text of a file selection is modelled as blank, all, or a list of numbers and other pieces; the scanning of one number is an input.
- Changes of the quota or of the store's settings while an offload runs, and offloads without a quota running at once: the runs of ObjectQuota take one offload at a time, as the lock does.
- The objects that Delete removes from the store, and its directories: Eviction follows the tables. Two torrents with one info hash share keys; NoDataLoss excludes them by its premise that other rows use other keys, and FailedCommitSparesExactly says what happens without it.
- Retention's quota warning, its ticker and log lines; the text of its cutoff is given.
- A rate limiter without a rate, which passes every read through.
- EvictOldestCompleted frees disk space only as its records count it; DirSize is an input.
- HLS: os.Stat is taken to fail for a missing index only, and a MkdirAll that fails to make nothing. Who else might empty the directories, and what ffmpeg writes besides its own output, is not modelled.
- Cancellation of a waiter and the choice of what a rejected request reports beyond the error: WaitGivesUp stands for both.
- The playlist rewriting of the HLS handler, the serving of assets and the checks of their signatures.
- WebDAV: the names of torrent folders (sanitizeName and the numbered suffix), cleanPath, modification times, and opening the reader. ForwardSlashes and Lower act on single characters, Lower on ASCII only.
- ListChildren: sorts by characters, where Go compares UTF-8 bytes; the two orders agree.
- The search driver of the addon, parsing of Torznab items, and warming of the cache. A negative cache maximum, for which the loop never ends, is excluded by its type.
- resolveJobStream and the polling loops of the addon.
- Streaming: PrioritizeFileRange is given the library's piece bounds as floor and ceiling; the readers themselves are not modelled.
- The dashboard, authentication, notifications, settings, configuration parsing, status labels and SQL migrations.
