/**
 * Freeing space: the eviction loops of internal/torrent/manager.go and the pass that runs them
 * (internal/retention/retention.go).
 */
module Eviction {
  import opened Strings
  import opened Sequences
  import opened Records
  import Offload
  import ObjectQuota
  import Timestamps

  datatype TorrentRow = TorrentRow(id: string, status: Status, endedAt: Option<string>, bytes: int, originalBytes: int)

  datatype Tables = Tables(torrents: seq<TorrentRow>, rows: seq<Offload.Row>)

  predicate Completed(t: TorrentRow) {
    t.status == Downloaded && t.endedAt.Some?
  }

  ghost predicate TablesOk(t: Tables) {
    && ObjectQuota.TableOk(t.rows)
    && forall i: nat, j: nat | i < j < |t.torrents| :: t.torrents[i].id != t.torrents[j].id
  }

  function Not(ids: set<string>): TorrentRow -> bool {
    (x: TorrentRow) => x.id !in ids
  }

  function NotOf(ids: set<string>): Offload.Row -> bool {
    (r: Offload.Row) => r.torrent !in ids
  }

  /** Deleting torrents; the foreign keys cascade to their files. */
  function DropAll(t: Tables, ids: set<string>): Tables {
    Tables(Keep(t.torrents, Not(ids)), Keep(t.rows, NotOf(ids)))
  }

  ghost function CompletedIds(t: Tables): set<string> {
    set x | x in t.torrents && Completed(x) :: x.id
  }

  // ----- listing ---------------------------------------------------------------------------

  predicate EndsNoLater(a: TorrentRow, b: TorrentRow) {
    !Timestamps.Less(b.endedAt.GetOr(""), a.endedAt.GetOr(""))
  }

  function InsertByEnd(x: TorrentRow, s: seq<TorrentRow>): (r: seq<TorrentRow>)
    ensures multiset(r) == multiset(s) + multiset{x} && |r| == |s| + 1
  {
    if s == [] || EndsNoLater(x, s[0]) then [x] + s
    else
      assert s == [s[0]] + s[1..];
      [s[0]] + InsertByEnd(x, s[1..])
  }

  function SortByEnd(s: seq<TorrentRow>): (r: seq<TorrentRow>)
    ensures multiset(r) == multiset(s) && |r| == |s|
  {
    if s == [] then []
    else
      assert s == [s[0]] + s[1..];
      InsertByEnd(s[0], SortByEnd(s[1..]))
  }

  const LIMIT := 1000

  /** WHERE status = 'downloaded' AND ended_at IS NOT NULL ORDER BY ended_at ASC LIMIT 1000. */
  function Listing(torrents: seq<TorrentRow>): (items: seq<TorrentRow>)
    ensures |items| <= LIMIT
  {
    var all := SortByEnd(Keep(torrents, Completed));
    if |all| <= LIMIT then all else all[..LIMIT]
  }

  ghost predicate InOrder(s: seq<TorrentRow>) {
    forall i: nat, j: nat | i < j < |s| :: EndsNoLater(s[i], s[j])
  }

  lemma {:induction false} LessTransitive(a: string, b: string, c: string)
    requires !Timestamps.Less(b, a) && !Timestamps.Less(c, b)
    ensures !Timestamps.Less(c, a)
  {
    if a != "" && b != "" && c != "" && a[0] == b[0] == c[0] {
      LessTransitive(a[1..], b[1..], c[1..]);
    }
  }

  lemma {:induction false} InsertInOrder(x: TorrentRow, s: seq<TorrentRow>)
    requires InOrder(s)
    ensures InOrder(InsertByEnd(x, s))
  {
    if s == [] {
    } else if EndsNoLater(x, s[0]) {
      forall j: nat | j < |s| ensures EndsNoLater(x, s[j]) {
        assert EndsNoLater(s[0], s[j]) || j == 0;
        Timestamps.LessIrreflexive(s[0].endedAt.GetOr(""));
        LessTransitive(x.endedAt.GetOr(""), s[0].endedAt.GetOr(""), s[j].endedAt.GetOr(""));
      }
    } else {
      var rest := InsertByEnd(x, s[1..]);
      InsertInOrder(x, s[1..]);
      Timestamps.TextTotal(x.endedAt.GetOr(""), s[0].endedAt.GetOr(""));
      forall j: nat | j < |rest| ensures EndsNoLater(s[0], rest[j]) {
        assert rest[j] in multiset(rest);
        assert rest[j] in multiset(s[1..]) || rest[j] == x;
      }
    }
  }

  lemma {:induction false} SortIsInOrder(s: seq<TorrentRow>)
    ensures InOrder(SortByEnd(s))
  {
    if s != [] {
      SortIsInOrder(s[1..]);
      InsertInOrder(s[0], SortByEnd(s[1..]));
    }
  }

  ghost predicate DistinctTorrents(s: seq<TorrentRow>) {
    forall i: nat, j: nat | i < j < |s| :: s[i].id != s[j].id
  }

  lemma InsertHolds(x: TorrentRow, s: seq<TorrentRow>, y: TorrentRow)
    ensures y in InsertByEnd(x, s) ==> y == x || y in s
  {
    assert y in InsertByEnd(x, s) <==> y in multiset(InsertByEnd(x, s));
    assert y in s <==> y in multiset(s);
  }

  lemma {:induction false} InsertDistinct(x: TorrentRow, s: seq<TorrentRow>)
    requires DistinctTorrents(s) && forall y <- s :: y.id != x.id
    ensures DistinctTorrents(InsertByEnd(x, s))
  {
    if s != [] && !EndsNoLater(x, s[0]) {
      var rest := InsertByEnd(x, s[1..]);
      InsertDistinct(x, s[1..]);
      forall j: nat | j < |rest| ensures rest[j].id != s[0].id {
        InsertHolds(x, s[1..], rest[j]);
      }
    }
  }

  lemma {:induction false} SortDistinct(s: seq<TorrentRow>)
    requires DistinctTorrents(s)
    ensures DistinctTorrents(SortByEnd(s))
  {
    if s != [] {
      SortDistinct(s[1..]);
      forall y | y in SortByEnd(s[1..]) ensures y.id != s[0].id {
        assert y in multiset(s[1..]);
      }
      InsertDistinct(s[0], SortByEnd(s[1..]));
    }
  }

  lemma {:induction false} KeepDistinctTorrents(s: seq<TorrentRow>, p: TorrentRow -> bool)
    requires DistinctTorrents(s)
    ensures DistinctTorrents(Keep(s, p))
  {
    if s != [] {
      var n := |s| - 1;
      KeepDistinctTorrents(s[..n], p);
      KeepFacts(s[..n], p);
      forall x | x in Keep(s[..n], p) ensures x.id != s[n].id {
        var k: nat :| k < n && s[k] == x;
      }
    }
  }

  lemma ListingDistinct(t: Tables)
    requires TablesOk(t)
    ensures DistinctTorrents(Listing(t.torrents))
  {
    KeepDistinctTorrents(t.torrents, Completed);
    SortDistinct(Keep(t.torrents, Completed));
  }

  lemma SortHolds(s: seq<TorrentRow>, x: TorrentRow)
    ensures x in SortByEnd(s) <==> x in s
  {
    assert x in SortByEnd(s) <==> x in multiset(SortByEnd(s));
    assert x in s <==> x in multiset(s);
  }

  /** The listing holds completed torrents only, the earliest first; those it leaves out end no earlier. */
  lemma ListingFacts(t: Tables)
    ensures var items := Listing(t.torrents);
            && InOrder(items)
            && (forall x <- items :: x in t.torrents && Completed(x))
            && |items| <= 1000
            && (|items| < 1000 ==> forall x <- t.torrents :: Completed(x) ==> x in items)
            && (forall x <- t.torrents, y <- items :: Completed(x) && x !in items ==> EndsNoLater(y, x))
  {
    var kept := Keep(t.torrents, Completed);
    KeepFacts(t.torrents, Completed);
    SortIsInOrder(kept);
    forall x ensures x in SortByEnd(kept) <==> x in kept {
      SortHolds(kept, x);
    }
  }

  /** The end times that the texts stand for. */
  ghost predicate Stamped(items: seq<TorrentRow>, when: TorrentRow -> Timestamps.Time) {
    forall x <- items :: Timestamps.Valid(when(x)) && x.endedAt == Some(Timestamps.Text(when(x)))
  }

  ghost predicate InTimeOrder(items: seq<TorrentRow>, when: TorrentRow -> Timestamps.Time) {
    forall i: nat, j: nat | i < j < |items| :: !Timestamps.Before(when(items[j]), when(items[i]))
  }

  predicate Clash(a: Timestamps.Time, b: Timestamps.Time) {
    Timestamps.SameSecond(a, b) && Timestamps.ProperPrefix(Timestamps.Fraction(a.nanos), Timestamps.Fraction(b.nanos))
  }

  lemma OrderOfTwo(x: TorrentRow, y: TorrentRow, a: Timestamps.Time, b: Timestamps.Time)
    requires Timestamps.Valid(a) && Timestamps.Valid(b) && EndsNoLater(x, y)
    requires x.endedAt == Some(Timestamps.Text(a)) && y.endedAt == Some(Timestamps.Text(b))
    ensures !Timestamps.Before(b, a) <==> !Clash(a, b) && !Clash(b, a)
  {
    if a != b {
      Timestamps.TextOrderExactly(b, a);
      Timestamps.TextOrderExactly(a, b);
      Timestamps.TextTotal(Timestamps.Text(a), Timestamps.Text(b));
      Timestamps.TimesTotal(a, b);
      Timestamps.TextInjective(a, b);
    } else {
      Timestamps.LessIrreflexive(Timestamps.Fraction(a.nanos));
    }
  }

  lemma OrderedPairs(items: seq<TorrentRow>, when: TorrentRow -> Timestamps.Time)
    requires InOrder(items) && Stamped(items, when)
    ensures forall i: nat, j: nat | i < j < |items| ::
              (!Timestamps.Before(when(items[j]), when(items[i]))
               <==> !Clash(when(items[i]), when(items[j])) && !Clash(when(items[j]), when(items[i])))
  {
    forall i: nat, j: nat | i < j < |items|
      ensures !Timestamps.Before(when(items[j]), when(items[i]))
         <==> !Clash(when(items[i]), when(items[j])) && !Clash(when(items[j]), when(items[i]))
    {
      assert items[i] in items && items[j] in items;
      OrderOfTwo(items[i], items[j], when(items[i]), when(items[j]));
    }
  }

  lemma InTimeOrderExactly(items: seq<TorrentRow>, when: TorrentRow -> Timestamps.Time)
    requires InOrder(items) && Stamped(items, when)
    ensures InTimeOrder(items, when) <==> forall x <- items, y <- items :: !Clash(when(x), when(y))
  {
    OrderedPairs(items, when);
    if InTimeOrder(items, when) {
      forall x, y | x in items && y in items ensures !Clash(when(x), when(y)) {
        var i: nat :| i < |items| && items[i] == x;
        var j: nat :| j < |items| && items[j] == y;
        if i < j {
          assert !Timestamps.Before(when(items[j]), when(items[i]));
        } else if j < i {
          assert !Timestamps.Before(when(items[i]), when(items[j]));
        }
      }
    } else {
      var i: nat, j: nat :| i < j < |items| && Timestamps.Before(when(items[j]), when(items[i]));
      assert items[i] in items && items[j] in items;
    }
  }

  /**
   * The torrents are listed by the times at which they ended exactly when no two ended in one second with
   * fractions of which one begins the other.
   */
  lemma ListingInTimeOrderExactly(t: Tables, when: TorrentRow -> Timestamps.Time)
    requires Stamped(Listing(t.torrents), when)
    ensures var items := Listing(t.torrents);
      InTimeOrder(items, when) <==> forall x <- items, y <- items :: !Clash(when(x), when(y))
  {
    ListingFacts(t);
    InTimeOrderExactly(Listing(t.torrents), when);
  }

  // ----- where the loops stop --------------------------------------------------------------

  function Same(x: int): int { x }

  function Sum(gains: seq<int>): int {
    Total(gains, Same)
  }

  /** The first number of items, from i on, that frees enough; all of them when none does. */
  function Stop(gains: seq<int>, need: int, i: nat): (n: nat)
    requires i <= |gains|
    ensures i <= n <= |gains|
    decreases |gains| - i
  {
    if i == |gains| || Sum(gains[..i]) >= need then i else Stop(gains, need, i + 1)
  }

  /** It is the shortest run that frees enough, or all. */
  lemma {:induction false} StopIsShortest(gains: seq<int>, need: int, i: nat, n: nat)
    requires i <= n <= |gains|
    ensures n == Stop(gains, need, i)
       <==> (Sum(gains[..n]) >= need || n == |gains|) && forall m: nat | i <= m < n :: Sum(gains[..m]) < need
    decreases |gains| - i
  {
    if i < n && Sum(gains[..i]) < need {
      StopIsShortest(gains, need, i + 1, n);
    }
  }

  /** The torrents removed when the first n items have been tried. */
  function Gone(items: seq<TorrentRow>, ok: seq<bool>, n: nat): set<string>
    requires n <= |items| <= |ok|
  {
    set i: nat | i < n && ok[i] :: items[i].id
  }

  lemma DropMore(t: Tables, ids: set<string>, id: string)
    ensures DropAll(DropAll(t, ids), {id}) == DropAll(t, ids + {id})
  {
    KeepBoth(t.torrents, Not(ids), Not({id}), Not(ids + {id}));
    KeepBoth(t.rows, NotOf(ids), NotOf({id}), NotOf(ids + {id}));
  }

  lemma DropNone(t: Tables)
    ensures DropAll(t, {}) == t
  {
    KeepEvery(t.torrents, Not({}));
    KeepEvery(t.rows, NotOf({}));
  }

  lemma DropKeepsOk(t: Tables, ids: set<string>)
    requires TablesOk(t)
    ensures TablesOk(DropAll(t, ids)) && CompletedIds(DropAll(t, ids)) <= CompletedIds(t)
  {
    KeepDistinctTorrents(t.torrents, Not(ids));
    KeepFacts(t.torrents, Not(ids));
    ObjectQuota.DeleteKeepsTable(t.rows, NotOf(ids));
  }

  // ----- stored bytes ----------------------------------------------------------------------

  function CompleteBytes(f: FileRow): int {
    if RemoteStoredComplete(f) then f.bytes else 0
  }

  /** What the store holds for one torrent. */
  function RemoteBytes(rows: seq<Offload.Row>, id: string): int {
    Total(Offload.FilesOf(rows, id), CompleteBytes)
  }

  lemma OtherFilesStay(t: Tables, ids: set<string>, id: string)
    requires id !in ids
    ensures Offload.FilesOf(DropAll(t, ids).rows, id) == Offload.FilesOf(t.rows, id)
  {
    KeepKeep(t.rows, (r: Offload.Row) => r.torrent == id, NotOf(ids));
  }

  lemma TotalOfKept<T>(s: seq<T>, p: T -> bool, w: T -> int, v: T -> int)
    requires forall x <- s :: v(x) == if p(x) then w(x) else 0
    ensures Total(Keep(s, p), w) == Total(s, v)
  {
    TotalKept(s, p, (x: T) => x, w, v);
    assert Map(Keep(s, p), (x: T) => x) == Keep(s, p);
  }

  function OwnRow(id: string): Offload.Row -> bool {
    (r: Offload.Row) => r.torrent == id
  }

  function StoredElsewhere(id: string): Offload.Row -> int {
    (r: Offload.Row) => if r.torrent == id then 0 else ObjectQuota.StoredBytes(r)
  }

  function StoredFor(id: string): Offload.Row -> int {
    (r: Offload.Row) => if r.torrent == id then CompleteBytes(r.file) else 0
  }

  lemma RemoteBytesByRow(rows: seq<Offload.Row>, id: string)
    ensures RemoteBytes(rows, id) == Total(rows, StoredFor(id))
  {
    var file := (r: Offload.Row) => r.file;
    assert Offload.FilesOf(rows, id) == Map(Keep(rows, OwnRow(id)), file);
    TotalKept(rows, OwnRow(id), file, CompleteBytes, StoredFor(id));
  }

  /** Dropping a torrent frees exactly what the store held for it. */
  lemma DropFrees(t: Tables, id: string)
    requires ObjectQuota.BytesOk(t.rows)
    ensures ObjectQuota.Usage(DropAll(t, {id}).rows) == ObjectQuota.Usage(t.rows) - RemoteBytes(t.rows, id)
  {
    TotalOfKept(t.rows, NotOf({id}), ObjectQuota.StoredBytes, StoredElsewhere(id));
    RemoteBytesByRow(t.rows, id);
    forall i: nat | i < |t.rows|
      ensures ObjectQuota.StoredBytes(t.rows[i]) == StoredElsewhere(id)(t.rows[i]) + StoredFor(id)(t.rows[i])
    {
      assert t.rows[i] in t.rows;
    }
    TotalSum(t.rows, ObjectQuota.StoredBytes, t.rows, StoredElsewhere(id), StoredFor(id));
  }

  // ----- EvictOldestRemoteStored -----------------------------------------------------------

  /** What the calls made for one torrent return. */
  datatype Calls = Calls(loads: bool, objectsGone: bool, deletes: bool)

  predicate Tried(t: Tables, x: TorrentRow, c: Calls) {
    c.loads && RemoteBytes(t.rows, x.id) > 0
  }

  predicate Freed(t: Tables, x: TorrentRow, c: Calls) {
    Tried(t, x, c) && c.objectsGone && c.deletes
  }

  function FreedOf(t: Tables, items: seq<TorrentRow>, calls: seq<Calls>): (ok: seq<bool>)
    requires |items| <= |calls|
    ensures |ok| == |items|
  {
    seq(|items|, i requires 0 <= i < |items| => Freed(t, items[i], calls[i]))
  }

  function GainsOf(t: Tables, items: seq<TorrentRow>, calls: seq<Calls>): (gains: seq<int>)
    requires |items| <= |calls|
    ensures |gains| == |items|
  {
    seq(|items|, i requires 0 <= i < |items| =>
      if Freed(t, items[i], calls[i]) then RemoteBytes(t.rows, items[i].id) else 0)
  }

  lemma FreesOneMore(t: Tables, before: set<string>, id: string)
    requires TablesOk(t) && id !in before
    ensures ObjectQuota.Usage(DropAll(t, before + {id}).rows)
         == ObjectQuota.Usage(DropAll(t, before).rows) - RemoteBytes(t.rows, id)
  {
    DropMore(t, before, id);
    DropKeepsOk(t, before);
    OtherFilesStay(t, before, id);
    DropFrees(DropAll(t, before), id);
  }

  lemma GoneGrows(items: seq<TorrentRow>, ok: seq<bool>, n: nat)
    requires DistinctTorrents(items) && n < |items| <= |ok|
    ensures Gone(items, ok, n + 1) == if ok[n] then Gone(items, ok, n) + {items[n].id} else Gone(items, ok, n)
    ensures items[n].id !in Gone(items, ok, n)
  {}

  lemma {:induction false} EvictionFrees(t: Tables, items: seq<TorrentRow>, calls: seq<Calls>, n: nat)
    requires TablesOk(t) && DistinctTorrents(items) && n <= |items| <= |calls|
    ensures ObjectQuota.Usage(DropAll(t, Gone(items, FreedOf(t, items, calls), n)).rows)
         == ObjectQuota.Usage(t.rows) - Sum(GainsOf(t, items, calls)[..n])
  {
    var ok, gains := FreedOf(t, items, calls), GainsOf(t, items, calls);
    if n == 0 {
      assert Gone(items, ok, 0) == {};
      DropNone(t);
    } else {
      EvictionFrees(t, items, calls, n - 1);
      assert gains[..n] == gains[..n - 1] + [gains[n - 1]];
      TotalAppend(gains[..n - 1], gains[n - 1], Same);
      GoneGrows(items, ok, n - 1);
      if ok[n - 1] {
        FreesOneMore(t, Gone(items, ok, n - 1), items[n - 1].id);
      }
    }
  }

  ghost predicate NothingFails(calls: seq<Calls>) {
    forall c <- calls :: c == Calls(true, true, true)
  }

  function NotBelowZero(n: int): int { if n > 0 then n else 0 }

  function AllRemote(t: Tables, items: seq<TorrentRow>): seq<int> {
    seq(|items|, i requires 0 <= i < |items| => NotBelowZero(RemoteBytes(t.rows, items[i].id)))
  }

  /** Those EvictOldestRemoteStored removes, and what it leaves. */
  function Victims(t: Tables, items: seq<TorrentRow>, calls: seq<Calls>, need: int): set<string>
    requires |items| <= |calls|
  {
    Gone(items, FreedOf(t, items, calls), Stop(GainsOf(t, items, calls), need, 0))
  }

  function AfterEviction(t: Tables, items: seq<TorrentRow>, calls: seq<Calls>, need: int): Tables
    requires |items| <= |calls|
  {
    DropAll(t, Victims(t, items, calls, need))
  }

  lemma GainsAreAllRemote(t: Tables, items: seq<TorrentRow>, calls: seq<Calls>)
    requires NothingFails(calls) && |items| <= |calls|
    ensures GainsOf(t, items, calls) == AllRemote(t, items)
  {
    forall i: nat | i < |items| ensures Freed(t, items[i], calls[i]) <==> RemoteBytes(t.rows, items[i].id) > 0 {
      assert calls[i] in calls;
    }
  }

  lemma {:induction false} GainsNotNegative(gains: seq<int>, n: nat)
    requires n <= |gains| && forall g <- gains :: g >= 0
    ensures Sum(gains[..n]) <= Sum(gains)
  {
    if n < |gains| {
      var m := |gains| - 1;
      assert forall g <- gains[..m] :: g in gains;
      GainsNotNegative(gains[..m], n);
      assert gains[..m][..n] == gains[..n];
      assert gains[m] in gains;
    } else {
      assert gains[..n] == gains;
    }
  }

  lemma EvictionReaches(t: Tables, items: seq<TorrentRow>, calls: seq<Calls>, need: int, after: Tables)
    requires TablesOk(t) && DistinctTorrents(items) && |items| <= |calls|
    requires after == AfterEviction(t, items, calls, need)
    ensures ObjectQuota.Usage(t.rows) - ObjectQuota.Usage(after.rows) >= need
       <==> Sum(GainsOf(t, items, calls)) >= need
  {
    var gains := GainsOf(t, items, calls);
    var n := Stop(gains, need, 0);
    EvictionFrees(t, items, calls, n);
    StopIsShortest(gains, need, 0, n);
    GainsNotNegative(gains, n);
    assert gains[..|gains|] == gains;
  }

  /**
   * With nothing failing the pass over the oldest torrents brings the store under its quota exactly when
   * the torrents it may look at hold enough.
   */
  lemma EvictionReachesQuotaExactly(t: Tables, items: seq<TorrentRow>, calls: seq<Calls>, quota: int, after: Tables)
    requires TablesOk(t) && items == Listing(t.torrents) && NothingFails(calls) && |items| <= |calls|
    requires ObjectQuota.Usage(t.rows) > quota
    requires after == AfterEviction(t, items, calls, ObjectQuota.Usage(t.rows) - quota)
    ensures ObjectQuota.Usage(after.rows) <= quota <==> Sum(AllRemote(t, items)) >= ObjectQuota.Usage(t.rows) - quota
  {
    ListingDistinct(t);
    GainsAreAllRemote(t, items, calls);
    EvictionReaches(t, items, calls, ObjectQuota.Usage(t.rows) - quota, after);
  }

  /** The last torrent the loop looks at before it has enough is one it removes, and without it there is too little. */
  lemma NoTorrentTooMany(t: Tables, items: seq<TorrentRow>, calls: seq<Calls>, need: int)
    requires |items| <= |calls|
    ensures var ok := FreedOf(t, items, calls);
            var gains := GainsOf(t, items, calls);
            var n := Stop(gains, need, 0);
            0 < n && Sum(gains[..n]) >= need ==> ok[n - 1] && Sum(gains[..n - 1]) < need
  {
    var gains := GainsOf(t, items, calls);
    var n := Stop(gains, need, 0);
    StopIsShortest(gains, need, 0, n);
    if 0 < n {
      assert gains[..n] == gains[..n - 1] + [gains[n - 1]];
      TotalAppend(gains[..n - 1], gains[n - 1], Same);
    }
  }

  // ----- the source's own form -------------------------------------------------------------

  function SizeOf(x: TorrentRow): int {
    if x.bytes <= 0 then x.originalBytes else x.bytes
  }

  function SizeGains(items: seq<TorrentRow>, deletes: seq<bool>): (gains: seq<int>)
    requires |items| <= |deletes|
    ensures |gains| == |items|
  {
    seq(|items|, i requires 0 <= i < |items| => if deletes[i] then SizeOf(items[i]) else 0)
  }

  function Aged(cutoff: string): TorrentRow -> bool {
    (x: TorrentRow) => Completed(x) && Timestamps.Less(x.endedAt.value, cutoff)
  }

  /** Completed torrents whose end sorts before the cutoff's text. */
  function EndedBefore(torrents: seq<TorrentRow>, cutoff: string): (items: seq<TorrentRow>)
    ensures |items| <= |torrents|
  {
    KeepFacts(torrents, Aged(cutoff));
    SortByEnd(Keep(torrents, Aged(cutoff)))
  }

  datatype Fault = AgeCleanup | DiskUsage | QuotaEviction | UsageQuery | S3Eviction | StillExceeded

  datatype Result = Result(ageRemoved: nat, quotaRemoved: nat, s3QuotaRemoved: nat,
                           diskUsed: int, diskQuota: int, s3Used: int, s3Quota: int)

  /** The settings of a pass, and what its calls return. */
  datatype Pass = Pass(
    retentionDays: int, cutoff: string, diskQuota: int, s3Quota: int,
    agedOk: bool, agedDeletes: seq<bool>,
    size: Option<int>, sizeAfter: Option<int>,
    completedOk: bool, completedDeletes: seq<bool>,
    usageOk: bool, usageAfterOk: bool,
    remoteOk: bool, remoteCalls: seq<Calls>)

  lemma GoneAreCompleted(t: Tables, items: seq<TorrentRow>, ok: seq<bool>, n: nat)
    requires n <= |items| <= |ok|
    requires forall x <- items :: x in t.torrents && Completed(x)
    ensures Gone(items, ok, n) <= CompletedIds(t)
  {
    forall id | id in Gone(items, ok, n) ensures id in CompletedIds(t) {
      var i: nat :| i < n && items[i].id == id;
      assert items[i] in items;
    }
  }

  /** The listing holds the downloaded torrents whose end sorts before the cutoff, the earliest first. */
  lemma EndedBeforeFacts(t: Tables, cutoff: string)
    requires TablesOk(t)
    ensures DistinctTorrents(EndedBefore(t.torrents, cutoff)) && InOrder(EndedBefore(t.torrents, cutoff))
    ensures forall x :: x in EndedBefore(t.torrents, cutoff) <==>
              && x in t.torrents && x.status == Downloaded
              && x.endedAt.Some? && Timestamps.Less(x.endedAt.value, cutoff)
  {
    var kept := Keep(t.torrents, Aged(cutoff));
    KeepFacts(t.torrents, Aged(cutoff));
    KeepDistinctTorrents(t.torrents, Aged(cutoff));
    SortDistinct(kept);
    SortIsInOrder(kept);
    forall x ensures x in SortByEnd(kept) <==> x in kept {
      SortHolds(kept, x);
    }
  }

  ghost predicate AllDeleted(deletes: seq<bool>) {
    forall ok <- deletes :: ok
  }

  lemma OneById(s: seq<TorrentRow>, x: TorrentRow, y: TorrentRow)
    requires forall i: nat, j: nat | i < j < |s| :: s[i].id != s[j].id
    requires x in s && y in s && x.id == y.id
    ensures x == y
  {}

  lemma ListedGo(t: Tables, items: seq<TorrentRow>, deletes: seq<bool>, x: TorrentRow)
    requires TablesOk(t) && (forall y <- items :: y in t.torrents) && x in t.torrents && |items| <= |deletes|
    ensures x.id in Gone(items, deletes, |items|) ==> x in items
    ensures AllDeleted(deletes) && x in items ==> x.id in Gone(items, deletes, |items|)
  {
    if x.id in Gone(items, deletes, |items|) {
      var i: nat :| i < |items| && items[i].id == x.id;
      OneById(t.torrents, x, items[i]);
    }
    if AllDeleted(deletes) && x in items {
      var i: nat :| i < |items| && items[i] == x;
      assert deletes[i] in deletes;
    }
  }

  /** With no deletion failing the torrents left are those that have not ended before the cutoff. */
  lemma AllAgedGo(t: Tables, cutoff: string, deletes: seq<bool>)
    requires TablesOk(t) && |deletes| >= |t.torrents| && AllDeleted(deletes)
    ensures var items := EndedBefore(t.torrents, cutoff);
            forall x :: x in DropAll(t, Gone(items, deletes, |items|)).torrents <==>
              x in t.torrents
              && !(x.status == Downloaded && x.endedAt.Some? && Timestamps.Less(x.endedAt.value, cutoff))
  {
    var items := EndedBefore(t.torrents, cutoff);
    var gone := Gone(items, deletes, |items|);
    EndedBeforeFacts(t, cutoff);
    KeepFacts(t.torrents, Not(gone));
    forall x | x in t.torrents ensures Not(gone)(x) <==> x !in items {
      ListedGo(t, items, deletes, x);
    }
  }

  lemma DropTwice(t: Tables, a: set<string>, b: set<string>)
    ensures DropAll(DropAll(t, a), b) == DropAll(t, a + b)
  {
    KeepBoth(t.torrents, Not(a), Not(b), Not(a + b));
    KeepBoth(t.rows, NotOf(a), NotOf(b), NotOf(a + b));
  }

  /** i items have been tried, and those that could go are gone. */
  ghost predicate Removed(t: Tables, items: seq<TorrentRow>, ok: seq<bool>, i: nat, now: Tables, removed: int)
    requires i <= |items| <= |ok|
  {
    now == DropAll(t, Gone(items, ok, i)) && removed == |Gone(items, ok, i)|
  }

  lemma RemovedNone(t: Tables, items: seq<TorrentRow>, ok: seq<bool>)
    requires |items| <= |ok|
    ensures Removed(t, items, ok, 0, t, 0)
  {
    assert Gone(items, ok, 0) == {};
    DropNone(t);
  }

  lemma RemovedMore(t: Tables, items: seq<TorrentRow>, ok: seq<bool>, i: nat, now: Tables, removed: int)
    requires DistinctTorrents(items) && i < |items| <= |ok| && Removed(t, items, ok, i, now, removed)
    ensures if ok[i] then Removed(t, items, ok, i + 1, DropAll(now, {items[i].id}), removed + 1)
            else Removed(t, items, ok, i + 1, now, removed)
  {
    GoneGrows(items, ok, i);
    DropMore(t, Gone(items, ok, i), items[i].id);
  }

  /** The loop has not had enough before i. */
  ghost predicate Freeing(gains: seq<int>, need: int, i: nat, freed: int)
    requires i <= |gains|
  {
    freed == Sum(gains[..i]) && Stop(gains, need, 0) == Stop(gains, need, i)
  }

  lemma Enough(gains: seq<int>, need: int, i: nat, freed: int)
    requires i <= |gains| && Freeing(gains, need, i, freed) && (i == |gains| || freed >= need)
    ensures Stop(gains, need, 0) == i
  {}

  lemma FreeingMore(gains: seq<int>, need: int, i: nat, freed: int)
    requires i < |gains| && Freeing(gains, need, i, freed) && freed < need
    ensures Freeing(gains, need, i + 1, freed + gains[i])
  {
    assert gains[..i + 1] == gains[..i] + [gains[i]];
    TotalAppend(gains[..i], gains[i], Same);
  }

  ghost predicate SomeFailed(t: Tables, items: seq<TorrentRow>, calls: seq<Calls>, i: nat)
    requires i <= |items| <= |calls|
  {
    exists j: nat | j < i :: Tried(t, items[j], calls[j]) && !Freed(t, items[j], calls[j])
  }

  /** Everything the loop of EvictOldestRemoteStored keeps up to date. */
  ghost predicate Evicting(t: Tables, items: seq<TorrentRow>, calls: seq<Calls>, need: int, i: nat,
                           now: Tables, freed: int, removed: int, failed: bool)
    requires i <= |items| <= |calls|
  {
    && Freeing(GainsOf(t, items, calls), need, i, freed)
    && Removed(t, items, FreedOf(t, items, calls), i, now, removed)
    && failed == SomeFailed(t, items, calls, i)
  }

  lemma OneTried(t: Tables, items: seq<TorrentRow>, calls: seq<Calls>, i: nat, failed: bool)
    requires i < |items| <= |calls| && failed == SomeFailed(t, items, calls, i)
    ensures var x := items[i];
      SomeFailed(t, items, calls, i + 1) == (failed || (Tried(t, x, calls[i]) && !Freed(t, x, calls[i])))
  {}

  lemma EvictingMore(t: Tables, items: seq<TorrentRow>, calls: seq<Calls>, need: int, i: nat,
                     now: Tables, freed: int, removed: int, failed: bool)
    requires DistinctTorrents(items) && i < |items| <= |calls| && freed < need
    requires Evicting(t, items, calls, need, i, now, freed, removed, failed)
    ensures RemoteBytes(now.rows, items[i].id) == RemoteBytes(t.rows, items[i].id)
    ensures var x := items[i];
            if Freed(t, x, calls[i]) then
              Evicting(t, items, calls, need, i + 1, DropAll(now, {x.id}), freed + RemoteBytes(t.rows, x.id),
                  removed + 1, failed)
            else Evicting(t, items, calls, need, i + 1, now, freed, removed, failed || Tried(t, x, calls[i]))
  {
    GoneGrows(items, FreedOf(t, items, calls), i);
    OtherFilesStay(t, Gone(items, FreedOf(t, items, calls), i), items[i].id);
    RemovedMore(t, items, FreedOf(t, items, calls), i, now, removed);
    FreeingMore(GainsOf(t, items, calls), need, i, freed);
    OneTried(t, items, calls, i, failed);
  }

  lemma NothingEvicted(t: Tables, items: seq<TorrentRow>, calls: seq<Calls>, need: int)
    requires |items| <= |calls|
    ensures Evicting(t, items, calls, need, 0, t, 0, 0, false)
  {
    RemovedNone(t, items, FreedOf(t, items, calls));
    assert GainsOf(t, items, calls)[..0] == [];
  }

  lemma EvictionOver(t: Tables, items: seq<TorrentRow>, calls: seq<Calls>, need: int, i: nat,
                     now: Tables, freed: int, removed: int, failed: bool)
    requires i <= |items| <= |calls| && (i == |items| || freed >= need)
    requires Evicting(t, items, calls, need, i, now, freed, removed, failed)
    ensures now == AfterEviction(t, items, calls, need) && removed == |Victims(t, items, calls, need)|
    ensures failed == SomeFailed(t, items, calls, Stop(GainsOf(t, items, calls), need, 0))
  {
    Enough(GainsOf(t, items, calls), need, i, freed);
  }

  lemma AllRemoteNotNegative(t: Tables, items: seq<TorrentRow>)
    ensures Sum(AllRemote(t, items)) >= 0
  {
    GainsNotNegative(AllRemote(t, items), 0);
    assert AllRemote(t, items)[..0] == [];
  }

  // ----- a pass ----------------------------------------------------------------------------

  ghost predicate Fits(t: Tables, p: Pass) {
    |p.agedDeletes| >= |t.torrents| && |p.completedDeletes| >= LIMIT && |p.remoteCalls| >= LIMIT
  }

  /** The torrents that go for their age. */
  function AgeVictims(t: Tables, p: Pass): set<string>
    requires |p.agedDeletes| >= |t.torrents|
  {
    var items := EndedBefore(t.torrents, p.cutoff);
    if p.retentionDays > 0 && p.agedOk then Gone(items, p.agedDeletes, |items|) else {}
  }

  predicate DiskFull(p: Pass) {
    p.size.Some? && p.diskQuota > 0 && p.size.value > p.diskQuota
  }

  /** The torrents that go for the disk quota: of the oldest, the deletable up to where enough is freed. */
  function DiskVictims(t: Tables, p: Pass): set<string>
    requires |p.completedDeletes| >= LIMIT
  {
    var items, deletes := Listing(t.torrents), p.completedDeletes;
    if DiskFull(p) && p.completedOk then
      Gone(items, deletes, Stop(SizeGains(items, deletes), p.size.value - p.diskQuota, 0))
    else {}
  }

  predicate StoreFull(t: Tables, p: Pass) {
    p.s3Quota > 0 && ObjectQuota.Usage(t.rows) > p.s3Quota
  }

  /** The torrents that go for the quota of the object store. */
  function StoreVictims(t: Tables, p: Pass): set<string>
    requires |p.remoteCalls| >= LIMIT
  {
    if StoreFull(t, p) && p.remoteOk then
      Victims(t, Listing(t.torrents), p.remoteCalls, ObjectQuota.Usage(t.rows) - p.s3Quota)
    else {}
  }

  /** The pass gets as far as the object store. */
  predicate ReachesStore(p: Pass) {
    p.size.Some? && (DiskFull(p) ==> p.completedOk) && p.usageOk
  }

  function AfterAge(t: Tables, p: Pass): Tables
    requires |p.agedDeletes| >= |t.torrents|
  {
    DropAll(t, AgeVictims(t, p))
  }

  function AfterDisk(t: Tables, p: Pass): Tables
    requires |p.agedDeletes| >= |t.torrents| && |p.completedDeletes| >= LIMIT
  {
    DropAll(AfterAge(t, p), DiskVictims(AfterAge(t, p), p))
  }

  function AfterStore(t: Tables, p: Pass): Tables
    requires |p.remoteCalls| >= LIMIT
  {
    DropAll(t, StoreVictims(t, p))
  }

  /** The tables a pass leaves. */
  function AfterPass(t: Tables, p: Pass): Tables
    requires |p.agedDeletes| >= |t.torrents| && |p.completedDeletes| >= LIMIT && |p.remoteCalls| >= LIMIT
  {
    if ReachesStore(p) then AfterStore(AfterDisk(t, p), p) else AfterDisk(t, p)
  }

  /** The usage reported after the store phase: the first reading when the second fails. */
  function UsageRead(t: Tables, p: Pass): int
    requires |p.remoteCalls| >= LIMIT
  {
    if StoreFull(t, p) && !p.usageAfterOk then ObjectQuota.Usage(t.rows) else ObjectQuota.Usage(AfterStore(t, p).rows)
  }

  /** A call of the store phase fails. */
  ghost predicate StoreFails(t: Tables, p: Pass)
    requires |p.remoteCalls| >= LIMIT
  {
    var items, need := Listing(t.torrents), ObjectQuota.Usage(t.rows) - p.s3Quota;
    !p.remoteOk || SomeFailed(t, items, p.remoteCalls, Stop(GainsOf(t, items, p.remoteCalls), need, 0))
  }

  ghost function StoreFaults(t: Tables, p: Pass): seq<Fault>
    requires |p.remoteCalls| >= LIMIT
  {
    if !StoreFull(t, p) then []
    else
      (if StoreFails(t, p) then [S3Eviction] else [])
      + (if UsageRead(t, p) > p.s3Quota then [StillExceeded] else [])
  }

  function DiskFaults(p: Pass): seq<Fault> {
    if p.size.None? then [DiskUsage]
    else if DiskFull(p) && !p.completedOk then [QuotaEviction]
    else if !p.usageOk then [UsageQuery]
    else []
  }

  /** The errors of the age and disk phases, and of the calls between. */
  function LocalFaults(p: Pass): seq<Fault> {
    (if p.retentionDays > 0 && !p.agedOk then [AgeCleanup] else []) + DiskFaults(p)
  }

  /** The disk usage reported: the second reading if there is one. */
  function DiskRead(p: Pass): int {
    if p.size.None? then 0
    else if DiskFull(p) && p.completedOk && p.sizeAfter.Some? then p.sizeAfter.value
    else p.size.value
  }

  /** The result as far as the disk. */
  function LocalResult(t: Tables, p: Pass): Result
    requires |p.agedDeletes| >= |t.torrents| && |p.completedDeletes| >= LIMIT
  {
    Result(|AgeVictims(t, p)|, |DiskVictims(AfterAge(t, p), p)|, 0, DiskRead(p), p.diskQuota, 0, p.s3Quota)
  }

  /** The errors a pass returns. */
  ghost function FaultsOf(t: Tables, p: Pass): seq<Fault>
    requires Fits(t, p)
  {
    LocalFaults(p) + (if ReachesStore(p) then StoreFaults(AfterDisk(t, p), p) else [])
  }

  /** The result a pass returns. */
  function ResultOf(t: Tables, p: Pass): Result
    requires |p.agedDeletes| >= |t.torrents| && |p.completedDeletes| >= LIMIT && |p.remoteCalls| >= LIMIT
  {
    var r := LocalResult(t, p);
    if ReachesStore(p) then
      r.(s3QuotaRemoved := |StoreVictims(AfterDisk(t, p), p)|, s3Used := UsageRead(AfterDisk(t, p), p))
    else r
  }

  lemma AgeVictimsCompleted(t: Tables, p: Pass)
    requires TablesOk(t) && |p.agedDeletes| >= |t.torrents|
    ensures AgeVictims(t, p) <= CompletedIds(t) && TablesOk(AfterAge(t, p))
    ensures CompletedIds(AfterAge(t, p)) <= CompletedIds(t)
  {
    var items := EndedBefore(t.torrents, p.cutoff);
    EndedBeforeFacts(t, p.cutoff);
    GoneAreCompleted(t, items, p.agedDeletes, |items|);
    DropKeepsOk(t, AgeVictims(t, p));
  }

  /**
   * A torrent goes for its age only if retention is on and it is downloaded with an end that sorts before the
   * cutoff; when the listing and the deletions succeed, exactly those go.
   */
  lemma AgeVictimsExactly(t: Tables, p: Pass, x: TorrentRow)
    requires TablesOk(t) && |p.agedDeletes| >= |t.torrents| && x in t.torrents
    ensures x.id in AgeVictims(t, p) ==>
              && p.retentionDays > 0 && p.agedOk
              && x.status == Downloaded && x.endedAt.Some? && Timestamps.Less(x.endedAt.value, p.cutoff)
    ensures AllDeleted(p.agedDeletes) && p.agedOk && p.retentionDays > 0 ==>
              (x.id in AgeVictims(t, p)
               <==> x.status == Downloaded && x.endedAt.Some? && Timestamps.Less(x.endedAt.value, p.cutoff))
  {
    var items := EndedBefore(t.torrents, p.cutoff);
    EndedBeforeFacts(t, p.cutoff);
    ListedGo(t, items, p.agedDeletes, x);
  }

  lemma TextsOfTwo(a: Timestamps.Time, b: Timestamps.Time)
    requires Timestamps.Valid(a) && Timestamps.Valid(b)
    ensures Timestamps.Less(Timestamps.Text(a), Timestamps.Text(b))
       <==> if Timestamps.Before(a, b) then !Clash(a, b) else Clash(b, a)
  {
    if a == b {
      Timestamps.LessIrreflexive(Timestamps.Text(a));
    } else {
      Timestamps.TextOrderExactly(a, b);
      Timestamps.TimesTotal(a, b);
      if Clash(a, b) {
        Timestamps.PrefixIsEarlier(a, b);
      }
      if Clash(b, a) {
        Timestamps.PrefixIsEarlier(b, a);
      }
    }
  }

  /**
   * With every call succeeding a downloaded torrent that ended before the cutoff goes unless its fraction begins
   * the cutoff's in the same second. One that ended at the cutoff or later stays unless the cutoff's fraction
   * begins its own in that second.
   */
  lemma AgeVictimsByTime(t: Tables, p: Pass, x: TorrentRow, ended: Timestamps.Time, cutoff: Timestamps.Time)
    requires TablesOk(t) && |p.agedDeletes| >= |t.torrents| && AllDeleted(p.agedDeletes)
    requires p.agedOk && p.retentionDays > 0 && x in t.torrents && x.status == Downloaded
    requires Timestamps.Valid(ended) && x.endedAt == Some(Timestamps.Text(ended))
    requires Timestamps.Valid(cutoff) && p.cutoff == Timestamps.Text(cutoff)
    ensures x.id in AgeVictims(t, p)
       <==> if Timestamps.Before(ended, cutoff) then !Clash(ended, cutoff) else Clash(cutoff, ended)
  {
    AgeVictimsExactly(t, p, x);
    TextsOfTwo(ended, cutoff);
  }

  lemma DiskVictimsCompleted(t: Tables, p: Pass)
    requires TablesOk(t) && |p.completedDeletes| >= LIMIT
    ensures DiskVictims(t, p) <= CompletedIds(t) && TablesOk(DropAll(t, DiskVictims(t, p)))
    ensures CompletedIds(DropAll(t, DiskVictims(t, p))) <= CompletedIds(t)
  {
    ListingFacts(t);
    if DiskFull(p) && p.completedOk {
      var items := Listing(t.torrents);
      var n := Stop(SizeGains(items, p.completedDeletes), p.size.value - p.diskQuota, 0);
      GoneAreCompleted(t, items, p.completedDeletes, n);
    }
    DropKeepsOk(t, DiskVictims(t, p));
  }

  lemma StoreVictimsCompleted(t: Tables, p: Pass)
    requires TablesOk(t) && |p.remoteCalls| >= LIMIT
    ensures StoreVictims(t, p) <= CompletedIds(t)
  {
    ListingFacts(t);
    if StoreFull(t, p) && p.remoteOk {
      var items, need := Listing(t.torrents), ObjectQuota.Usage(t.rows) - p.s3Quota;
      GoneAreCompleted(t, items, FreedOf(t, items, p.remoteCalls), Stop(GainsOf(t, items, p.remoteCalls), need, 0));
    }
  }

  /** What the store phase has to free. */
  function Excess(t: Tables, p: Pass): int {
    ObjectQuota.Usage(t.rows) - p.s3Quota
  }

  lemma StoreVictimsAre(t: Tables, p: Pass)
    requires |p.remoteCalls| >= LIMIT && StoreFull(t, p) && p.remoteOk
    ensures StoreVictims(t, p) == Victims(t, Listing(t.torrents), p.remoteCalls, Excess(t, p))
    ensures AfterStore(t, p) == AfterEviction(t, Listing(t.torrents), p.remoteCalls, Excess(t, p))
  {}

  lemma StoreFailsWhen(t: Tables, p: Pass)
    requires |p.remoteCalls| >= LIMIT && p.remoteOk
    ensures var items, calls := Listing(t.torrents), p.remoteCalls;
      StoreFails(t, p) == SomeFailed(t, items, calls, Stop(GainsOf(t, items, calls), Excess(t, p), 0))
  {}

  lemma StorePhaseStops(t: Tables, p: Pass)
    requires |p.remoteCalls| >= LIMIT && (!StoreFull(t, p) || !p.remoteOk)
    ensures StoreVictims(t, p) == {} && AfterStore(t, p) == t && (!p.remoteOk ==> StoreFails(t, p))
  {
    DropNone(t);
  }

  /** All who go in a pass. */
  function PassVictims(t: Tables, p: Pass): set<string>
    requires |p.agedDeletes| >= |t.torrents| && |p.completedDeletes| >= LIMIT && |p.remoteCalls| >= LIMIT
  {
    AgeVictims(t, p) + DiskVictims(AfterAge(t, p), p)
        + (if ReachesStore(p) then StoreVictims(AfterDisk(t, p), p) else {})
  }

  /** Victims of one phase after those of another. */
  lemma PhasesJoin(t: Tables, gone: set<string>, t1: Tables, more: set<string>)
    requires t1 == DropAll(t, gone) && gone <= CompletedIds(t)
    requires more <= CompletedIds(t1) <= CompletedIds(t)
    ensures DropAll(t1, more) == DropAll(t, gone + more) && gone + more <= CompletedIds(t)
  {
    DropTwice(t, gone, more);
  }

  lemma LocalRemovesCompletedOnly(t: Tables, p: Pass, gone: set<string>, left: Tables)
    requires TablesOk(t) && Fits(t, p) && left == AfterDisk(t, p)
    requires gone == AgeVictims(t, p) + DiskVictims(AfterAge(t, p), p)
    ensures left == DropAll(t, gone) && gone <= CompletedIds(t)
    ensures TablesOk(left) && CompletedIds(left) <= CompletedIds(t)
  {
    AgeVictimsCompleted(t, p);
    DiskVictimsCompleted(AfterAge(t, p), p);
    PhasesJoin(t, AgeVictims(t, p), AfterAge(t, p), DiskVictims(AfterAge(t, p), p));
  }

  /** Whatever fails, a pass removes its victims and nothing else, and they had all completed. */
  lemma PassRemovesCompletedOnly(t: Tables, p: Pass)
    requires TablesOk(t) && Fits(t, p)
    ensures AfterPass(t, p) == DropAll(t, PassVictims(t, p)) && PassVictims(t, p) <= CompletedIds(t)
  {
    var gone, left := AgeVictims(t, p) + DiskVictims(AfterAge(t, p), p), AfterDisk(t, p);
    LocalRemovesCompletedOnly(t, p, gone, left);
    if ReachesStore(p) {
      StoreVictimsCompleted(left, p);
      PhasesJoin(t, gone, left, StoreVictims(left, p));
    } else {
      assert gone + {} == gone;
    }
  }

  /** With retention off and no quota exceeded nothing goes. */
  lemma PassWithNothingToDo(t: Tables, p: Pass)
    requires Fits(t, p) && p.retentionDays <= 0 && !DiskFull(p) && !StoreFull(t, p)
    ensures AfterPass(t, p) == t
  {
    DropNone(t);
  }

  /** Without an error the store is in its quota, really and as reported. */
  lemma PassWithoutErrors(t: Tables, p: Pass)
    requires Fits(t, p) && p.s3Quota > 0 && FaultsOf(t, p) == []
    ensures ResultOf(t, p).s3Used == ObjectQuota.Usage(AfterPass(t, p).rows) <= p.s3Quota
  {
    var t2 := AfterDisk(t, p);
    assert StoreFaults(t2, p) == [];
    DropNone(t2);
  }

  lemma NoneFailed(t: Tables, items: seq<TorrentRow>, calls: seq<Calls>, n: nat)
    requires NothingFails(calls) && n <= |items| <= |calls|
    ensures !SomeFailed(t, items, calls, n)
  {
    forall j: nat | j < |items| ensures calls[j] == Calls(true, true, true) {
      assert calls[j] in calls;
    }
  }

  lemma FullStoreExactly(t: Tables, p: Pass, after: Tables)
    requires TablesOk(t) && |p.remoteCalls| >= LIMIT && StoreFull(t, p) && after == AfterStore(t, p)
    requires p.remoteOk && NothingFails(p.remoteCalls)
    ensures ObjectQuota.Usage(after.rows) <= p.s3Quota
       <==> Sum(AllRemote(t, Listing(t.torrents))) >= ObjectQuota.Usage(t.rows) - p.s3Quota
  {
    EvictionReachesQuotaExactly(t, Listing(t.torrents), p.remoteCalls, p.s3Quota, after);
  }

  lemma NoStoreFaultsExactly(t: Tables, p: Pass)
    requires |p.remoteCalls| >= LIMIT
    ensures StoreFaults(t, p) == [] <==> !StoreFull(t, p) || (!StoreFails(t, p) && UsageRead(t, p) <= p.s3Quota)
  {}

  lemma StoreWorks(t: Tables, p: Pass)
    requires |p.remoteCalls| >= LIMIT && p.remoteOk && NothingFails(p.remoteCalls)
    ensures !StoreFails(t, p)
  {
    var items, need := Listing(t.torrents), ObjectQuota.Usage(t.rows) - p.s3Quota;
    NoneFailed(t, items, p.remoteCalls, Stop(GainsOf(t, items, p.remoteCalls), need, 0));
  }

  lemma UsageReadAfter(t: Tables, p: Pass)
    requires |p.remoteCalls| >= LIMIT && p.usageAfterOk
    ensures UsageRead(t, p) == ObjectQuota.Usage(AfterStore(t, p).rows)
  {}

  /** What the store phase comes to when no call of it fails. */
  lemma StorePhaseExactly(t: Tables, p: Pass)
    requires TablesOk(t) && |p.remoteCalls| >= LIMIT && p.s3Quota > 0
    requires p.usageAfterOk && p.remoteOk && NothingFails(p.remoteCalls)
    ensures StoreFaults(t, p) == []
       <==> Sum(AllRemote(t, Listing(t.torrents))) >= ObjectQuota.Usage(t.rows) - p.s3Quota
  {
    NoStoreFaultsExactly(t, p);
    if StoreFull(t, p) {
      StoreWorks(t, p);
      UsageReadAfter(t, p);
      FullStoreExactly(t, p, AfterStore(t, p));
    } else {
      AllRemoteNotNegative(t, Listing(t.torrents));
    }
  }

  /**
   * When no call fails a pass, with whatever age and disk quota it cleans for, returns an error exactly
   * when the torrents listed after those phases hold too little.
   */
  lemma PassFailsExactly(t: Tables, p: Pass)
    requires TablesOk(t) && Fits(t, p) && p.s3Quota > 0
    requires p.agedOk && p.size.Some? && p.completedOk && p.usageOk
    requires p.usageAfterOk && p.remoteOk && NothingFails(p.remoteCalls)
    ensures var left := AfterDisk(t, p);
      FaultsOf(t, p) == [] <==> Sum(AllRemote(left, Listing(left.torrents))) >= ObjectQuota.Usage(left.rows) - p.s3Quota
  {
    AgeVictimsCompleted(t, p);
    DiskVictimsCompleted(AfterAge(t, p), p);
    StorePhaseExactly(AfterDisk(t, p), p);
  }

  class Cleaner {
    var tables: Tables

    constructor (tables: Tables)
      ensures this.tables == tables
    {
      this.tables := tables;
    }

    method Delete(id: string, ok: bool)
      modifies this
      ensures tables == if ok then DropAll(old(tables), {id}) else old(tables)
    {
      if ok {
        tables := DropAll(tables, {id});
      }
    }

    method SumRemoteBytes(id: string) returns (bytes: int)
      ensures bytes == RemoteBytes(tables.rows, id)
    {
      var files := Offload.FilesOf(tables.rows, id);
      bytes := 0;
      for i := 0 to |files|
        invariant bytes == Total(files[..i], CompleteBytes)
      {
        assert files[..i + 1][..i] == files[..i];
        if RemoteStoredComplete(files[i]) {
          bytes := bytes + files[i].bytes;
        }
      }
      assert files[..|files|] == files;
    }

    /**
     * The loop's body for one torrent: gone says that it was removed, bad that a call failed which the loop
     * reports.
     */
    method TryOne(id: string, c: Calls) returns (gone: bool, bytes: int, bad: bool)
      modifies this
      ensures bytes == RemoteBytes(old(tables).rows, id) || (!gone && !bad)
      ensures gone == (c.loads && RemoteBytes(old(tables).rows, id) > 0 && c.objectsGone && c.deletes)
      ensures bad == (c.loads && RemoteBytes(old(tables).rows, id) > 0 && !gone)
      ensures tables == if gone then DropAll(old(tables), {id}) else old(tables)
    {
      gone, bytes, bad := false, 0, false;
      if !c.loads {
        return;
      }
      bytes := SumRemoteBytes(id);
      if bytes <= 0 {
        return;
      }
      if !c.objectsGone {
        bad := true;
        return;
      }
      Delete(id, c.deletes);
      gone := c.deletes;
      bad := !c.deletes;
    }

    /** The loop's body and what it keeps. */
    method EvictOne(items: seq<TorrentRow>, need: int, calls: seq<Calls>, i: nat, freed: int, removed: nat,
                    failed: bool, ghost t: Tables)
      returns (freed': int, removed': nat, failed': bool)
      requires DistinctTorrents(items) && i < |items| <= |calls| && freed < need
      requires Evicting(t, items, calls, need, i, tables, freed, removed, failed)
      modifies this
      ensures Evicting(t, items, calls, need, i + 1, tables, freed', removed', failed')
    {
      EvictingMore(t, items, calls, need, i, tables, freed, removed, failed);
      var gone, bytes, bad := TryOne(items[i].id, calls[i]);
      freed', removed', failed' := freed, removed, failed || bad;
      if gone {
        removed' := removed + 1;
        freed' := freed + bytes;
      }
    }

    /** The loop over the listed torrents. */
    method EvictFrom(items: seq<TorrentRow>, need: int, calls: seq<Calls>) returns (removed: nat, failed: bool)
      requires DistinctTorrents(items) && |items| <= |calls|
      modifies this
      ensures tables == AfterEviction(old(tables), items, calls, need)
      ensures removed == |Victims(old(tables), items, calls, need)|
      ensures failed <==> SomeFailed(old(tables), items, calls, Stop(GainsOf(old(tables), items, calls), need, 0))
    {
      ghost var t := tables;
      NothingEvicted(t, items, calls, need);
      var freed := 0;
      var i := 0;
      removed, failed := 0, false;
      while i < |items| && freed < need
        invariant i <= |items|
        invariant Evicting(t, items, calls, need, i, tables, freed, removed, failed)
      {
        freed, removed, failed := EvictOne(items, need, calls, i, freed, removed, failed, t);
        i := i + 1;
      }
      EvictionOver(t, items, calls, need, i, tables, freed, removed, failed);
    }

    method EvictOldestRemoteStored(need: int, listOk: bool, calls: seq<Calls>) returns (removed: nat, failed: bool)
      requires TablesOk(tables) && |calls| >= LIMIT
      modifies this
      ensures need <= 0 ==> tables == old(tables) && removed == 0 && !failed
      ensures need > 0 && !listOk ==> tables == old(tables) && removed == 0 && failed
      ensures need > 0 && listOk ==>
                var t, items := old(tables), Listing(old(tables).torrents);
                && tables == AfterEviction(t, items, calls, need)
                && removed == |Victims(t, items, calls, need)|
                && (failed <==> SomeFailed(t, items, calls, Stop(GainsOf(t, items, calls), need, 0)))
    {
      if need <= 0 {
        return 0, false;
      }
      if !listOk {
        return 0, true;
      }
      var items := Listing(tables.torrents);
      ListingDistinct(tables);
      removed, failed := EvictFrom(items, need, calls);
    }

    /** The loop over the listed torrents. */
    method DeleteFrom(items: seq<TorrentRow>, need: int, deletes: seq<bool>) returns (removed: nat)
      requires DistinctTorrents(items) && |items| <= |deletes|
      modifies this
      ensures Removed(old(tables), items, deletes, Stop(SizeGains(items, deletes), need, 0), tables, removed)
    {
      ghost var t := tables;
      ghost var gains := SizeGains(items, deletes);
      RemovedNone(t, items, deletes);
      removed := 0;
      var freed := 0;
      var i := 0;
      while i < |items| && freed < need
        invariant i <= |items|
        invariant Freeing(gains, need, i, freed)
        invariant Removed(t, items, deletes, i, tables, removed)
      {
        RemovedMore(t, items, deletes, i, tables, removed);
        FreeingMore(gains, need, i, freed);
        var size := items[i].bytes;
        if size <= 0 {
          size := items[i].originalBytes;
        }
        Delete(items[i].id, deletes[i]);
        if deletes[i] {
          removed := removed + 1;
          freed := freed + size;
        }
        i := i + 1;
      }
      Enough(gains, need, i, freed);
    }

    method EvictOldestCompleted(need: int, listOk: bool, deletes: seq<bool>) returns (removed: nat, failed: bool)
      requires TablesOk(tables) && |deletes| >= LIMIT
      modifies this
      ensures need <= 0 ==> tables == old(tables) && removed == 0 && !failed
      ensures need > 0 && !listOk ==> tables == old(tables) && removed == 0 && failed
      ensures need > 0 && listOk ==>
                var items := Listing(old(tables).torrents);
                !failed && Removed(old(tables), items, deletes, Stop(SizeGains(items, deletes), need, 0), tables,
                    removed)
    {
      removed, failed := 0, false;
      if need <= 0 {
        return;
      }
      if !listOk {
        return 0, true;
      }
      var items := Listing(tables.torrents);
      ListingDistinct(tables);
      removed := DeleteFrom(items, need, deletes);
    }

    method DeleteEach(items: seq<TorrentRow>, deletes: seq<bool>) returns (removed: nat)
      requires DistinctTorrents(items) && |items| <= |deletes|
      modifies this
      ensures Removed(old(tables), items, deletes, |items|, tables, removed)
    {
      ghost var t := tables;
      RemovedNone(t, items, deletes);
      removed := 0;
      for i := 0 to |items|
        invariant Removed(t, items, deletes, i, tables, removed)
      {
        RemovedMore(t, items, deletes, i, tables, removed);
        Delete(items[i].id, deletes[i]);
        if deletes[i] {
          removed := removed + 1;
        }
      }
    }

    method DeleteCompletedBefore(cutoff: string, listOk: bool, deletes: seq<bool>) returns (removed: nat, failed: bool)
      requires TablesOk(tables) && |deletes| >= |tables.torrents|
      modifies this
      ensures failed == !listOk
      ensures failed ==> tables == old(tables) && removed == 0
      ensures !failed ==>
                var items := EndedBefore(old(tables).torrents, cutoff);
                |items| <= |deletes| && Removed(old(tables), items, deletes, |items|, tables, removed)
      ensures !failed && AllDeleted(deletes) ==>
                forall x :: x in tables.torrents <==>
                  x in old(tables).torrents
                  && !(x.status == Downloaded && x.endedAt.Some? && Timestamps.Less(x.endedAt.value, cutoff))
    {
      if !listOk {
        return 0, true;
      }
      var items := EndedBefore(tables.torrents, cutoff);
      EndedBeforeFacts(tables, cutoff);
      if AllDeleted(deletes) {
        AllAgedGo(tables, cutoff, deletes);
      }
      removed := DeleteEach(items, deletes);
      failed := false;
    }

    /** The age clean-up of a pass. */
    method CleanByAge(p: Pass) returns (removed: nat, failed: bool)
      requires TablesOk(tables) && |p.agedDeletes| >= |tables.torrents|
      modifies this
      ensures tables == AfterAge(old(tables), p) && removed == |AgeVictims(old(tables), p)|
      ensures failed <==> p.retentionDays > 0 && !p.agedOk
    {
      DropNone(tables);
      removed, failed := 0, false;
      if p.retentionDays > 0 {
        removed, failed := DeleteCompletedBefore(p.cutoff, p.agedOk, p.agedDeletes);
      }
    }

    /** The disk quota of a pass; stop says that the pass ends here. */
    method CleanDisk(p: Pass, used: int) returns (removed: nat, stop: bool)
      requires TablesOk(tables) && |p.completedDeletes| >= LIMIT && p.size == Some(used)
      modifies this
      ensures tables == DropAll(old(tables), DiskVictims(old(tables), p)) && removed == |DiskVictims(old(tables), p)|
      ensures stop <==> DiskFull(p) && !p.completedOk
      ensures stop ==> removed == 0
    {
      DropNone(tables);
      removed, stop := 0, false;
      if p.diskQuota > 0 && used > p.diskQuota {
        removed, stop := EvictOldestCompleted(used - p.diskQuota, p.completedOk, p.completedDeletes);
      }
    }

    /** The eviction of the store phase. */
    method EmptyStore(p: Pass, need: int) returns (removed: nat, failed: bool)
      requires TablesOk(tables) && |p.remoteCalls| >= LIMIT
      requires StoreFull(tables, p) && need == ObjectQuota.Usage(tables.rows) - p.s3Quota
      modifies this
      ensures tables == AfterStore(old(tables), p) && removed == |StoreVictims(old(tables), p)|
      ensures failed == StoreFails(old(tables), p)
    {
      if p.remoteOk {
        StoreVictimsAre(tables, p);
        StoreFailsWhen(tables, p);
      } else {
        StorePhaseStops(tables, p);
      }
      removed, failed := EvictOldestRemoteStored(need, p.remoteOk, p.remoteCalls);
    }

    /** The object store quota of a pass. */
    method CleanStore(p: Pass) returns (removed: nat, used: int, errs: seq<Fault>)
      requires TablesOk(tables) && |p.remoteCalls| >= LIMIT
      modifies this
      ensures tables == AfterStore(old(tables), p) && removed == |StoreVictims(old(tables), p)|
      ensures used == UsageRead(old(tables), p) && errs == StoreFaults(old(tables), p)
    {
      used := ObjectQuota.Usage(tables.rows);
      removed, errs := 0, [];
      if p.s3Quota <= 0 || used <= p.s3Quota {
        StorePhaseStops(tables, p);
        return;
      }
      var failed;
      removed, failed := EmptyStore(p, used - p.s3Quota);
      if failed {
        errs := errs + [S3Eviction];
      }
      if p.usageAfterOk {
        used := ObjectQuota.Usage(tables.rows);
      }
      if used > p.s3Quota {
        errs := errs + [StillExceeded];
      }
    }

    /** The disk phase and the calls around it; goesOn says that the object store is next. */
    method CheckDisk(p: Pass, before: Result) returns (result: Result, errs: seq<Fault>, goesOn: bool)
      requires TablesOk(tables) && |p.completedDeletes| >= LIMIT && before.quotaRemoved == 0 && before.diskUsed == 0
      modifies this
      ensures tables == DropAll(old(tables), DiskVictims(old(tables), p)) && goesOn == ReachesStore(p)
      ensures result == before.(diskUsed := DiskRead(p), quotaRemoved := |DiskVictims(old(tables), p)|)
      ensures errs == DiskFaults(p)
    {
      result := before;
      if p.size.None? {
        DropNone(tables);
        return result, [DiskUsage], false;
      }
      result := result.(diskUsed := p.size.value);
      var removed, stop := CleanDisk(p, p.size.value);
      if stop {
        return result, [QuotaEviction], false;
      }
      result := result.(quotaRemoved := removed);
      if p.diskQuota > 0 && p.size.value > p.diskQuota && p.sizeAfter.Some? {
        result := result.(diskUsed := p.sizeAfter.value);
      }
      if !p.usageOk {
        return result, [UsageQuery], false;
      }
      return result, [], true;
    }

    /** A pass as far as the disk. */
    method CleanLocal(p: Pass) returns (result: Result, errs: seq<Fault>, goesOn: bool)
      requires TablesOk(tables) && Fits(tables, p)
      modifies this
      ensures tables == AfterDisk(old(tables), p) && goesOn == ReachesStore(p)
      ensures result == LocalResult(old(tables), p) && errs == LocalFaults(p)
    {
      AgeVictimsCompleted(tables, p);
      result, errs := Result(0, 0, 0, 0, p.diskQuota, 0, p.s3Quota), [];
      var removed, failed := CleanByAge(p);
      if failed {
        errs := errs + [AgeCleanup];
      } else {
        result := result.(ageRemoved := removed);
      }
      var more;
      result, more, goesOn := CheckDisk(p, result);
      errs := errs + more;
    }

    /** A pass leaves the tables, and returns the result and the errors, that the lemmas above are about. */
    method RunNow(p: Pass) returns (result: Result, errs: seq<Fault>)
      requires TablesOk(tables) && Fits(tables, p)
      modifies this
      ensures tables == AfterPass(old(tables), p)
      ensures result == ResultOf(old(tables), p) && errs == FaultsOf(old(tables), p)
    {
      LocalRemovesCompletedOnly(tables, p, AgeVictims(tables, p) + DiskVictims(AfterAge(tables, p), p),
          AfterDisk(tables, p));
      var goesOn;
      result, errs, goesOn := CleanLocal(p);
      if !goesOn {
        return;
      }
      var removed, used, faults := CleanStore(p);
      result := result.(s3QuotaRemoved := removed, s3Used := used);
      errs := errs + faults;
    }
  }
}
