/**
 * Host links: the server lists one link for each link-visible file of a torrent, and the addon picks
 * one by position among the selected files. Links carry no file id, so the two sides must agree.
 */
module HostLinks {
  import opened Strings
  import opened Sequences
  import opened Records
  import opened Lifecycle

  // ----- the server -----------------------------------------------------------------------

  /** Signer.HostLink. */
  function HostLink(publicUrl: string, linkId: string): string { publicUrl + "/d/" + linkId }

  function Visible(min: int, r: Record): FileRow -> bool { f => FileLinksVisible(min, r, f) }

  function VisibleFiles(min: int, r: Record): seq<FileRow> { Keep(r.files, Visible(min, r)) }

  /**
   * What the database calls for one file do: the lookup finds the row there is, or fails; the upsert writes,
   * or fails.
   */
  datatype Calls = Calls(looks: bool, writes: bool)

  /** The id listed for a visible file. */
  function LinkIdOf(rows: map<int, string>, f: FileRow, newId: string, c: Calls): string {
    if c.looks && f.id in rows then rows[f.id] else newId
  }

  /** The rows after a visible file: a file not found is inserted, or its row is overwritten. */
  function RowsAfter(rows: map<int, string>, f: FileRow, newId: string, c: Calls): map<int, string> {
    if (c.looks && f.id in rows) || !c.writes then rows else rows[f.id := newId]
  }

  /** The rows and the ids listed after the first n files. */
  function Ensured(min: int, r: Record, rows: map<int, string>, newIds: seq<string>, calls: seq<Calls>, n: nat)
    : (map<int, string>, seq<string>)
    requires n <= |r.files| == |newIds| == |calls|
  {
    if n == 0 then (rows, [])
    else
      var before := Ensured(min, r, rows, newIds, calls, n - 1);
      var f := r.files[n - 1];
      if !FileLinksVisible(min, r, f) then before
      else (RowsAfter(before.0, f, newIds[n - 1], calls[n - 1]),
            before.1 + [LinkIdOf(before.0, f, newIds[n - 1], calls[n - 1])])
  }

  function Links(publicUrl: string, ids: seq<string>): (links: seq<string>)
    ensures |links| == |ids| && forall i: nat | i < |ids| :: links[i] == HostLink(publicUrl, ids[i])
  {
    seq(|ids|, i requires 0 <= i < |ids| => HostLink(publicUrl, ids[i]))
  }

  /** The host_links rows of one torrent, by file id. */
  class LinkTable {
    const publicUrl: string
    var rows: map<int, string>

    constructor (publicUrl: string, rows: map<int, string>)
      ensures this.publicUrl == publicUrl && this.rows == rows
    {
      this.publicUrl, this.rows := publicUrl, rows;
    }

    method EnsureHostLinks(min: int, r: Record, newIds: seq<string>, calls: seq<Calls>) returns (links: seq<string>)
      requires |newIds| == |r.files| == |calls|
      modifies this
      ensures rows == Ensured(min, r, old(rows), newIds, calls, |r.files|).0
      ensures links == Links(publicUrl, Ensured(min, r, old(rows), newIds, calls, |r.files|).1)
    {
      links := [];
      for i := 0 to |r.files|
        invariant rows == Ensured(min, r, old(rows), newIds, calls, i).0
        invariant links == Links(publicUrl, Ensured(min, r, old(rows), newIds, calls, i).1)
      {
        var f := r.files[i];
        if !FileLinksVisible(min, r, f) {
          continue;
        }
        var linkId := newIds[i];
        if calls[i].looks && f.id in rows {
          linkId := rows[f.id];
        } else if calls[i].writes {
          rows := rows[f.id := linkId];
        }
        links := links + [HostLink(publicUrl, linkId)];
      }
    }
  }

  function RowAt(rows: map<int, string>, id: int): Option<string> {
    if id in rows then Some(rows[id]) else None
  }

  /** What becomes of the row of file i, and what is listed for it. */
  function RowOf(min: int, r: Record, rows: map<int, string>, newIds: seq<string>, calls: seq<Calls>,
                 i: nat): Option<string>
    requires i < |r.files| == |newIds| == |calls|
  {
    var f := r.files[i];
    RowAt(if FileLinksVisible(min, r, f) then RowsAfter(rows, f, newIds[i], calls[i]) else rows, f.id)
  }

  ghost predicate ListedFor(min: int, r: Record, rows: map<int, string>, newIds: seq<string>, calls: seq<Calls>,
                            n: nat, f: FileRow, id: string)
    requires n <= |r.files| == |newIds| == |calls|
  {
    exists i: nat :: i < n && r.files[i] == f && id == LinkIdOf(rows, f, newIds[i], calls[i])
  }

  ghost predicate Touched(r: Record, n: nat, id: int)
    requires n <= |r.files|
  {
    exists i: nat :: i < n && r.files[i].id == id
  }

  ghost predicate AscendingRows(files: seq<FileRow>) {
    forall i: nat, j: nat | i < j < |files| :: files[i].id < files[j].id
  }

  /** Each file's row depends on its own calls only. */
  lemma {:induction false} EnsuredRows(min: int, r: Record, rows: map<int, string>, newIds: seq<string>,
                                       calls: seq<Calls>, n: nat)
    requires AscendingRows(r.files) && n <= |r.files| == |newIds| == |calls|
    ensures var after := Ensured(min, r, rows, newIds, calls, n).0;
      && (forall id: int | !Touched(r, n, id) :: RowAt(after, id) == RowAt(rows, id))
      && (forall i: nat | i < n :: RowAt(after, r.files[i].id) == RowOf(min, r, rows, newIds, calls, i))
  {
    if n > 0 {
      var f := r.files[n - 1];
      EnsuredRows(min, r, rows, newIds, calls, n - 1);
      var before := Ensured(min, r, rows, newIds, calls, n - 1).0;
      assert !Touched(r, n - 1, f.id);
      assert RowAt(before, f.id) == RowAt(rows, f.id);
      forall id: int | !Touched(r, n, id) ensures !Touched(r, n - 1, id) && id != f.id {}
    }
  }

  /** So does the id listed for it. */
  lemma {:induction false} EnsuredIds(min: int, r: Record, rows: map<int, string>, newIds: seq<string>,
                                      calls: seq<Calls>, n: nat)
    requires AscendingRows(r.files) && n <= |r.files| == |newIds| == |calls|
    ensures var ids, visible := Ensured(min, r, rows, newIds, calls, n).1, Keep(r.files[..n], Visible(min, r));
      && |ids| == |visible|
      && forall j: nat | j < |visible| :: ListedFor(min, r, rows, newIds, calls, n, visible[j], ids[j])
  {
    if n > 0 {
      var f := r.files[n - 1];
      EnsuredIds(min, r, rows, newIds, calls, n - 1);
      EnsuredRows(min, r, rows, newIds, calls, n - 1);
      var (before, ids) := Ensured(min, r, rows, newIds, calls, n - 1);
      assert r.files[..n] == r.files[..n - 1] + [f];
      KeepAppend(r.files[..n - 1], f, Visible(min, r));
      assert !Touched(r, n - 1, f.id);
      assert RowAt(before, f.id) == RowAt(rows, f.id);
      var visible := Keep(r.files[..n - 1], Visible(min, r));
      forall j: nat | j < |visible| ensures ListedFor(min, r, rows, newIds, calls, n, visible[j], ids[j]) {
        assert ListedFor(min, r, rows, newIds, calls, n - 1, visible[j], ids[j]);
      }
      assert ListedFor(min, r, rows, newIds, calls, n, f, LinkIdOf(rows, f, newIds[n - 1], calls[n - 1]));
    }
  }

  /** The new ids are none of those in use. */
  ghost predicate NewIds(r: Record, rows: map<int, string>, newIds: seq<string>) {
    forall i: nat, id: int | i < |newIds| && id in rows :: newIds[i] != rows[id]
  }

  predicate Settled(min: int, r: Record, rows: map<int, string>, calls: seq<Calls>, i: nat)
    requires i < |r.files| == |calls|
  {
    FileLinksVisible(min, r, r.files[i]) ==> (calls[i].looks && r.files[i].id in rows) || calls[i].writes
  }

  lemma EnsuredLinks(min: int, r: Record, rows: map<int, string>, newIds: seq<string>, calls: seq<Calls>, n: nat)
    requires AscendingRows(r.files) && n == |r.files| == |newIds| == |calls| && NewIds(r, rows, newIds)
    ensures var (after, ids) := Ensured(min, r, rows, newIds, calls, n);
      forall i: nat | i < n && FileLinksVisible(min, r, r.files[i]) ::
        (RowAt(after, r.files[i].id) == Some(LinkIdOf(rows, r.files[i], newIds[i], calls[i]))
         <==> Settled(min, r, rows, calls, i))
  {
    EnsuredRows(min, r, rows, newIds, calls, n);
  }

  /** What EnsuredIds and EnsuredLinks say of the outcome. */
  ghost predicate ByFile(min: int, r: Record, rows: map<int, string>, newIds: seq<string>, calls: seq<Calls>,
                         after: map<int, string>, ids: seq<string>)
    requires |r.files| == |newIds| == |calls|
  {
    && |ids| == |VisibleFiles(min, r)|
    && (forall j: nat | j < |ids| :: ListedFor(min, r, rows, newIds, calls, |r.files|, VisibleFiles(min, r)[j], ids[j]))
    && forall i: nat | i < |r.files| && FileLinksVisible(min, r, r.files[i]) ::
         (Settled(min, r, rows, calls, i)
          <==> RowAt(after, r.files[i].id) == Some(LinkIdOf(rows, r.files[i], newIds[i], calls[i])))
  }

  ghost predicate AllSettled(min: int, r: Record, rows: map<int, string>, calls: seq<Calls>)
    requires |r.files| == |calls|
  {
    forall i: nat | i < |r.files| :: Settled(min, r, rows, calls, i)
  }

  /** A file's link is its row's exactly when its calls settle it. */
  lemma OneListed(min: int, r: Record, rows: map<int, string>, newIds: seq<string>, calls: seq<Calls>,
                  after: map<int, string>, f: FileRow, id: string)
    requires AscendingRows(r.files) && |r.files| == |newIds| == |calls|
    requires ListedFor(min, r, rows, newIds, calls, |r.files|, f, id) && FileLinksVisible(min, r, f)
    requires forall i: nat | i < |r.files| && FileLinksVisible(min, r, r.files[i]) ::
      (Settled(min, r, rows, calls, i)
       <==> RowAt(after, r.files[i].id) == Some(LinkIdOf(rows, r.files[i], newIds[i], calls[i])))
    ensures forall i: nat | i < |r.files| && r.files[i] == f ::
      (RowAt(after, f.id) == Some(id) <==> Settled(min, r, rows, calls, i))
  {
    var k: nat :| k < |r.files| && r.files[k] == f && id == LinkIdOf(rows, f, newIds[k], calls[k]);
    forall i: nat | i < |r.files| && r.files[i] == f ensures i == k {}
  }

  /** The links are those of the visible ones among the files, in order. */
  ghost predicate Listed(min: int, r: Record, files: seq<FileRow>, publicUrl: string, rows: map<int, string>,
                         links: seq<string>) {
    var visible := Keep(files, Visible(min, r));
    && |links| == |visible|
    && forall i: nat | i < |visible| :: visible[i].id in rows && links[i] == HostLink(publicUrl, rows[visible[i].id])
  }

  lemma ListedWhenSettled(min: int, r: Record, publicUrl: string, rows: map<int, string>, newIds: seq<string>,
                          calls: seq<Calls>, after: map<int, string>, ids: seq<string>)
    requires AscendingRows(r.files) && |r.files| == |newIds| == |calls|
    requires ByFile(min, r, rows, newIds, calls, after, ids) && AllSettled(min, r, rows, calls)
    ensures Listed(min, r, r.files, publicUrl, after, Links(publicUrl, ids))
  {
    var visible := VisibleFiles(min, r);
    KeepFacts(r.files, Visible(min, r));
    forall j: nat | j < |visible| ensures RowAt(after, visible[j].id) == Some(ids[j]) {
      assert visible[j] in visible;
      OneListed(min, r, rows, newIds, calls, after, visible[j], ids[j]);
    }
  }

  lemma HostLinkInjective(publicUrl: string, a: string, b: string)
    requires HostLink(publicUrl, a) == HostLink(publicUrl, b)
    ensures a == b
  {
    var n := |publicUrl + "/d/"|;
    assert HostLink(publicUrl, a)[n..] == a && HostLink(publicUrl, b)[n..] == b;
  }

  lemma SettledWhenListed(min: int, r: Record, publicUrl: string, rows: map<int, string>, newIds: seq<string>,
                          calls: seq<Calls>, after: map<int, string>, ids: seq<string>)
    requires AscendingRows(r.files) && |r.files| == |newIds| == |calls|
    requires ByFile(min, r, rows, newIds, calls, after, ids)
    requires Listed(min, r, r.files, publicUrl, after, Links(publicUrl, ids))
    ensures AllSettled(min, r, rows, calls)
  {
    var visible := VisibleFiles(min, r);
    KeepFacts(r.files, Visible(min, r));
    forall i: nat | i < |r.files| ensures Settled(min, r, rows, calls, i) {
      if FileLinksVisible(min, r, r.files[i]) {
        assert r.files[i] in visible;
        var j: nat :| j < |visible| && visible[j] == r.files[i];
        OneListed(min, r, rows, newIds, calls, after, visible[j], ids[j]);
        HostLinkInjective(publicUrl, ids[j], after[visible[j].id]);
      }
    }
  }

  lemma EnsuredByFile(min: int, r: Record, rows: map<int, string>, newIds: seq<string>, calls: seq<Calls>,
                      after: map<int, string>, ids: seq<string>)
    requires AscendingRows(r.files) && |r.files| == |newIds| == |calls| && NewIds(r, rows, newIds)
    requires (after, ids) == Ensured(min, r, rows, newIds, calls, |r.files|)
    ensures ByFile(min, r, rows, newIds, calls, after, ids)
  {
    EnsuredIds(min, r, rows, newIds, calls, |r.files|);
    EnsuredLinks(min, r, rows, newIds, calls, |r.files|);
    assert r.files[..|r.files|] == r.files;
  }

  /**
   * The links listed are those of the rows exactly when every visible file has a row that its lookup
   * finds, or is written one.
   */
  lemma ListedExactly(min: int, r: Record, publicUrl: string, rows: map<int, string>, newIds: seq<string>,
                      calls: seq<Calls>, after: map<int, string>, ids: seq<string>)
    requires AscendingRows(r.files) && |r.files| == |newIds| == |calls| && NewIds(r, rows, newIds)
    requires (after, ids) == Ensured(min, r, rows, newIds, calls, |r.files|)
    ensures Listed(min, r, r.files, publicUrl, after, Links(publicUrl, ids)) <==> AllSettled(min, r, rows, calls)
  {
    EnsuredByFile(min, r, rows, newIds, calls, after, ids);
    if AllSettled(min, r, rows, calls) {
      ListedWhenSettled(min, r, publicUrl, rows, newIds, calls, after, ids);
    } else if Listed(min, r, r.files, publicUrl, after, Links(publicUrl, ids)) {
      SettledWhenListed(min, r, publicUrl, rows, newIds, calls, after, ids);
    }
  }

  /**
   * A link that was there is another afterwards exactly when its file is visible, its lookup fails and the
   * upsert does not.
   */
  lemma LinkReplacedExactly(min: int, r: Record, rows: map<int, string>, newIds: seq<string>, calls: seq<Calls>, i: nat)
    requires AscendingRows(r.files) && i < |r.files| == |newIds| == |calls| && NewIds(r, rows, newIds)
    requires r.files[i].id in rows
    ensures RowAt(Ensured(min, r, rows, newIds, calls, |r.files|).0, r.files[i].id) != Some(rows[r.files[i].id])
       <==> FileLinksVisible(min, r, r.files[i]) && !calls[i].looks && calls[i].writes
  {
    EnsuredRows(min, r, rows, newIds, calls, |r.files|);
  }

  // ----- the addon ------------------------------------------------------------------------

  /** A file as the API shows it; the two regular-expression tests on its path are given. */
  datatype ApiFile = ApiFile(id: int, bytes: int, selected: bool, video: bool, matchesEpisode: bool)

  /** reduce(best, file) that replaces the best only by a strictly larger file. */
  function Largest(files: seq<ApiFile>): (r: ApiFile)
    requires files != []
    ensures r in files && forall f <- files :: f.bytes <= r.bytes
  {
    if |files| == 1 then files[0]
    else
      var best, last := Largest(files[..|files| - 1]), files[|files| - 1];
      assert files == files[..|files| - 1] + [last];
      if last.bytes > best.bytes then last else best
  }

  predicate IsVideo(f: ApiFile) { f.video }

  function MatchesFor(hasEpisode: bool): ApiFile -> bool { (f: ApiFile) => hasEpisode && f.matchesEpisode }

  function IsTarget(hasEpisode: bool): ApiFile -> bool { (f: ApiFile) => f.video && hasEpisode && f.matchesEpisode }

  function PickVideoFile(files: seq<ApiFile>, hasEpisode: bool): Option<ApiFile> {
    var videos := Keep(files, IsVideo);
    var targets := Keep(videos, MatchesFor(hasEpisode));
    if targets != [] then Some(Largest(targets))
    else if hasEpisode && |videos| > 1 then None
    else
      var candidates := if videos != [] then videos else files;
      if candidates == [] then None else Some(Largest(candidates))
  }

  /** Tier of a file: episode matches first, then videos, then anything. */
  function Tier(f: ApiFile, hasEpisode: bool): nat {
    if f.video && hasEpisode && f.matchesEpisode then 2 else if f.video then 1 else 0
  }

  /** How a file ranks below another: in a worse tier, or smaller in the same. */
  predicate RanksBelow(f: ApiFile, g: ApiFile, hasEpisode: bool) {
    Tier(f, hasEpisode) < Tier(g, hasEpisode) || (Tier(f, hasEpisode) == Tier(g, hasEpisode) && f.bytes < g.bytes)
  }

  lemma {:induction false} LargestFirst(files: seq<ApiFile>) returns (k: nat)
    requires files != []
    ensures k < |files| && files[k] == Largest(files) && forall j: nat | j < k :: files[j].bytes < files[k].bytes
  {
    var n := |files| - 1;
    k := n;
    if n > 0 {
      var before := LargestFirst(files[..n]);
      if Largest(files) == Largest(files[..n]) && files[n].bytes <= files[before].bytes {
        k := before;
      } else {
        forall j: nat | j < n ensures files[j].bytes < files[n].bytes { assert files[j] in files[..n]; }
      }
    }
  }

  /** The file stands somewhere, and all before it rank below it. */
  ghost predicate FirstOfBest(files: seq<ApiFile>, r: ApiFile, hasEpisode: bool) {
    exists i: nat :: i < |files| && files[i] == r && forall j: nat | j < i :: RanksBelow(files[j], files[i], hasEpisode)
  }

  /** The files of the best tier are those kept. */
  ghost predicate KeepsBest(files: seq<ApiFile>, p: ApiFile -> bool, hasEpisode: bool) {
    forall f <- files, g <- files ::
      p(g) ==> if p(f) then Tier(f, hasEpisode) == Tier(g, hasEpisode) else Tier(f, hasEpisode) < Tier(g, hasEpisode)
  }

  lemma LargestIsFirst(files: seq<ApiFile>, p: ApiFile -> bool, hasEpisode: bool)
    requires Keep(files, p) != [] && KeepsBest(files, p, hasEpisode)
    ensures FirstOfBest(files, Largest(Keep(files, p)), hasEpisode)
  {
    var kept := Keep(files, p);
    var k := LargestFirst(kept);
    var i := KeepPosition(files, p, k);
    KeepFacts(files[..i], p);
    forall j: nat | j < i ensures RanksBelow(files[j], files[i], hasEpisode) {
      assert files[j] in files && files[i] in files;
      if p(files[j]) {
        assert files[j] in files[..i];
        assert files[j] in kept[..k];
      }
    }
  }

  lemma TargetIsFirst(files: seq<ApiFile>)
    requires Keep(files, IsTarget(true)) != []
    ensures FirstOfBest(files, Largest(Keep(files, IsTarget(true))), true)
  {
    LargestIsFirst(files, IsTarget(true), true);
  }

  lemma VideoIsFirst(files: seq<ApiFile>, hasEpisode: bool)
    requires Keep(files, IsVideo) != [] && forall f <- files :: Tier(f, hasEpisode) < 2
    ensures FirstOfBest(files, Largest(Keep(files, IsVideo)), hasEpisode)
  {
    LargestIsFirst(files, IsVideo, hasEpisode);
  }

  lemma AnyIsFirst(files: seq<ApiFile>, hasEpisode: bool)
    requires files != [] && forall f <- files :: !f.video
    ensures FirstOfBest(files, Largest(files), hasEpisode)
  {
    var all := (f: ApiFile) => true;
    KeepEvery(files, all);
    LargestIsFirst(files, all, hasEpisode);
  }

  lemma TargetsAre(files: seq<ApiFile>, hasEpisode: bool)
    ensures Keep(Keep(files, IsVideo), MatchesFor(hasEpisode)) == Keep(files, IsTarget(hasEpisode))
    ensures Keep(files, IsTarget(hasEpisode)) == [] ==> forall f <- files :: Tier(f, hasEpisode) < 2
    ensures Keep(files, IsTarget(hasEpisode)) != [] ==> hasEpisode
    ensures Keep(files, IsVideo) == [] ==> forall f <- files :: !f.video
  {
    KeepBoth(files, IsVideo, MatchesFor(hasEpisode), IsTarget(hasEpisode));
    KeepFacts(files, IsTarget(hasEpisode));
    KeepFacts(files, IsVideo);
    var targets := Keep(files, IsTarget(hasEpisode));
    if targets != [] {
      assert targets[0] in targets;
    } else {
      forall f | f in files ensures Tier(f, hasEpisode) < 2 {
        assert f !in targets;
      }
    }
    if Keep(files, IsVideo) == [] {
      forall f | f in files ensures !f.video {
        assert f !in Keep(files, IsVideo);
      }
    }
  }

  /** A file of the list that no other is better than. */
  ghost predicate BestOf(files: seq<ApiFile>, r: ApiFile, hasEpisode: bool) {
    && r in files
    && forall f <- files ::
         || Tier(f, hasEpisode) < Tier(r, hasEpisode)
         || (Tier(f, hasEpisode) == Tier(r, hasEpisode) && f.bytes <= r.bytes)
  }

  lemma LargestIsBest(files: seq<ApiFile>, p: ApiFile -> bool, hasEpisode: bool)
    requires Keep(files, p) != [] && KeepsBest(files, p, hasEpisode)
    ensures BestOf(files, Largest(Keep(files, p)), hasEpisode)
  {
    KeepFacts(files, p);
    var r := Largest(Keep(files, p));
    assert r in files && p(r);
  }

  lemma BestOfAll(files: seq<ApiFile>, hasEpisode: bool)
    requires files != [] && forall f <- files :: !f.video
    ensures BestOf(files, Largest(files), hasEpisode)
  {}

  lemma TargetTier(files: seq<ApiFile>)
    ensures Keep(files, IsTarget(true)) != [] ==> exists f <- files :: Tier(f, true) == 2
  {
    KeepFacts(files, IsTarget(true));
    if Keep(files, IsTarget(true)) != [] {
      var f := Keep(files, IsTarget(true))[0];
      assert f in Keep(files, IsTarget(true));
      assert f in files && Tier(f, true) == 2;
    }
  }

  /**
   * The pick is the largest file of the best tier there is. There is none exactly when there are no
   * files, or when an episode is asked for, no video matches it, and several videos could be meant.
   */
  lemma PickVideoFileExactly(files: seq<ApiFile>, hasEpisode: bool)
    ensures var r, videos := PickVideoFile(files, hasEpisode), Keep(files, IsVideo);
      && (r.None? <==> files == [] || (hasEpisode && |videos| > 1 && forall f <- files :: Tier(f, hasEpisode) < 2))
      && (r.Some? ==> BestOf(files, r.value, hasEpisode))
  {
    TargetsAre(files, hasEpisode);
    if Keep(files, IsTarget(hasEpisode)) != [] {
      LargestIsBest(files, IsTarget(hasEpisode), hasEpisode);
      TargetTier(files);
    } else if Keep(files, IsVideo) != [] {
      LargestIsBest(files, IsVideo, hasEpisode);
    } else if files != [] {
      BestOfAll(files, hasEpisode);
    }
  }

  /** Among equals the pick is the first: every file before it ranks below it. */
  lemma PickIsFirst(files: seq<ApiFile>, hasEpisode: bool)
    requires PickVideoFile(files, hasEpisode).Some?
    ensures FirstOfBest(files, PickVideoFile(files, hasEpisode).value, hasEpisode)
  {
    TargetsAre(files, hasEpisode);
    if Keep(files, IsTarget(hasEpisode)) != [] {
      TargetIsFirst(files);
    } else if Keep(files, IsVideo) != [] {
      VideoIsFirst(files, hasEpisode);
    } else {
      AnyIsFirst(files, hasEpisode);
    }
  }

  predicate IsSelected(f: ApiFile) { f.selected }

  predicate Ascending(files: seq<ApiFile>) {
    forall i: nat, j: nat | i < j < |files| :: files[i].id < files[j].id
  }

  /** The server sends files in ascending id order, which the addon's sort by id leaves as it is. */
  function SelectedFiles(files: seq<ApiFile>): seq<ApiFile>
    requires Ascending(files)
  {
    Keep(files, IsSelected)
  }

  function SelectedVideoFile(files: seq<ApiFile>, hasEpisode: bool): Option<ApiFile>
    requires Ascending(files)
  {
    var selected := SelectedFiles(files);
    if selected == [] then None
    else
      var picked := PickVideoFile(selected, hasEpisode);
      if picked.Some? || hasEpisode then picked else Some(selected[0])
  }

  lemma SomeSelected(files: seq<ApiFile>)
    ensures Keep(files, IsSelected) == [] <==> forall f <- files :: !f.selected
  {
    KeepFacts(files, IsSelected);
    if Keep(files, IsSelected) != [] {
      assert Keep(files, IsSelected)[0] in Keep(files, IsSelected);
    }
  }

  /**
   * Of the selected files it is the first of the largest in the best tier. There is none exactly when none is
   * selected, or when an episode is asked for, no selected video matches it, and several are selected.
   */
  lemma SelectedVideoFileExactly(files: seq<ApiFile>, hasEpisode: bool)
    requires Ascending(files)
    ensures var r, selected := SelectedVideoFile(files, hasEpisode), Keep(files, IsSelected);
      && (r.None? <==>
            || (forall f <- files :: !f.selected)
            || (hasEpisode && |Keep(selected, IsVideo)| > 1 && forall f <- selected :: Tier(f, true) < 2))
      && (r.Some? ==> BestOf(selected, r.value, hasEpisode) && FirstOfBest(selected, r.value, hasEpisode))
  {
    var selected := Keep(files, IsSelected);
    SomeSelected(files);
    PickVideoFileExactly(selected, hasEpisode);
    if PickVideoFile(selected, hasEpisode).Some? {
      PickIsFirst(selected, hasEpisode);
    }
  }

  /** findIndex by id: -1 when there is none. */
  function IndexOfId(files: seq<ApiFile>, id: int): (i: int)
    ensures -1 <= i < |files|
    ensures i >= 0 ==> files[i].id == id
  {
    if files == [] then -1
    else
      var n := |files| - 1;
      var before := IndexOfId(files[..n], id);
      if before >= 0 then before else if files[n].id == id then n else -1
  }

  function PickHostLink(files: seq<ApiFile>, links: seq<string>, hasEpisode: bool): Option<string>
    requires Ascending(files)
  {
    if links == [] then None
    else if files == [] then Some(links[0])
    else
      var video := SelectedVideoFile(files, hasEpisode);
      var index := if video.Some? then IndexOfId(SelectedFiles(files), video.value.id) else -1;
      if 0 <= index < |links| && links[index] != "" then Some(links[index])
      else if hasEpisode then None
      else Some(links[0])
  }

  // ----- both sides together --------------------------------------------------------------

  function ToApi(video: string -> bool, matches: string -> bool): FileRow -> ApiFile {
    (f: FileRow) => ApiFile(f.id, f.bytes, f.selected, video(f.path), matches(f.path))
  }

  /** What the API shows of a record's files, for given answers of the two path tests. */
  function ApiFiles(files: seq<FileRow>, video: string -> bool, matches: string -> bool): seq<ApiFile> {
    Map(files, ToApi(video, matches))
  }

  predicate RowSelected(f: FileRow) { f.selected }

  function SelectedRows(files: seq<FileRow>): seq<FileRow> { Keep(files, RowSelected) }

  lemma {:induction false} SelectedRowsAscending(files: seq<FileRow>)
    requires AscendingRows(files)
    ensures AscendingRows(SelectedRows(files))
  {
    if files != [] {
      var n := |files| - 1;
      SelectedRowsAscending(files[..n]);
      KeepFacts(files[..n], RowSelected);
      assert forall f <- Keep(files[..n], RowSelected) :: f in files[..n];
      assert forall f <- files[..n] :: f.id < files[n].id;
    }
  }

  ghost predicate DistinctLinks(rows: map<int, string>) {
    forall a, b | a in rows && b in rows && rows[a] == rows[b] :: a == b
  }

  lemma {:induction false} IndexOfIdExact(files: seq<ApiFile>, k: nat)
    requires Ascending(files) && k < |files|
    ensures IndexOfId(files, files[k].id) == k
  {
    var n := |files| - 1;
    if k < n {
      IndexOfIdExact(files[..n], k);
    }
  }

  /** Both sides see the same selected files in the same order. */
  lemma SelectedAgree(files: seq<FileRow>, video: string -> bool, matches: string -> bool)
    requires AscendingRows(files)
    ensures var api := ApiFiles(files, video, matches);
      && Ascending(api)
      && SelectedFiles(api) == ApiFiles(SelectedRows(files), video, matches)
      && Ascending(SelectedFiles(api))
  {
    KeepMap(files, ToApi(video, matches), IsSelected, RowSelected);
    SelectedRowsAscending(files);
  }

  /**
   * Position k of the selected files is the file to play: none ranks above it and those before it rank below.
   * When an episode is asked for it matches, unless no more than one video is selected.
   */
  ghost predicate ToPlay(selected: seq<ApiFile>, hasEpisode: bool, k: nat) {
    && k < |selected|
    && (forall j: nat | j < |selected| :: !RanksBelow(selected[k], selected[j], hasEpisode))
    && (forall j: nat | j < k :: RanksBelow(selected[j], selected[k], hasEpisode))
    && (hasEpisode && Tier(selected[k], true) < 2 ==> |Keep(selected, IsVideo)| <= 1)
  }

  lemma OneToPlay(selected: seq<ApiFile>, hasEpisode: bool, i: nat, k: nat)
    requires ToPlay(selected, hasEpisode, i) && ToPlay(selected, hasEpisode, k)
    ensures i == k
  {
    assert !RanksBelow(selected[i], selected[k], hasEpisode) && !RanksBelow(selected[k], selected[i], hasEpisode);
  }

  lemma FirstIsToPlay(selected: seq<ApiFile>, r: ApiFile, hasEpisode: bool)
    requires BestOf(selected, r, hasEpisode) && FirstOfBest(selected, r, hasEpisode)
    requires hasEpisode && Tier(r, true) < 2 ==> |Keep(selected, IsVideo)| <= 1
    ensures exists k: nat :: ToPlay(selected, hasEpisode, k) && selected[k] == r
  {
    var i: nat :| i < |selected| && selected[i] == r
      && forall j: nat | j < i :: RanksBelow(selected[j], selected[i], hasEpisode);
    assert ToPlay(selected, hasEpisode, i);
  }

  lemma NothingToPlay(selected: seq<ApiFile>, k: nat)
    requires |Keep(selected, IsVideo)| > 1 && forall f <- selected :: Tier(f, true) < 2
    ensures !ToPlay(selected, true, k)
  {
    if k < |selected| {
      assert selected[k] in selected;
    }
  }

  /** Position k of the record's selected files is the file to play. */
  ghost predicate Chosen(files: seq<FileRow>, video: string -> bool, matches: string -> bool, hasEpisode: bool,
                         k: nat) {
    ToPlay(ApiFiles(SelectedRows(files), video, matches), hasEpisode, k)
  }

  /** The addon finds the file to play, and none exactly when there is none. */
  lemma ChosenExactly(files: seq<FileRow>, video: string -> bool, matches: string -> bool, hasEpisode: bool)
    requires AscendingRows(files)
    ensures var api, selected := ApiFiles(files, video, matches), ApiFiles(SelectedRows(files), video, matches);
      && Ascending(api)
      && (SelectedVideoFile(api, hasEpisode).Some? <==> exists k: nat :: Chosen(files, video, matches, hasEpisode, k))
      && (forall k: nat | Chosen(files, video, matches, hasEpisode, k) ::
            SelectedVideoFile(api, hasEpisode) == Some(selected[k]))
  {
    var api, selected := ApiFiles(files, video, matches), ApiFiles(SelectedRows(files), video, matches);
    SelectedAgree(files, video, matches);
    SelectedVideoFileExactly(api, hasEpisode);
    SomeSelected(api);
    var v := SelectedVideoFile(api, hasEpisode);
    if v.Some? {
      FirstIsToPlay(selected, v.value, hasEpisode);
      var i: nat :| ToPlay(selected, hasEpisode, i) && selected[i] == v.value;
      assert Chosen(files, video, matches, hasEpisode, i);
      forall k: nat | Chosen(files, video, matches, hasEpisode, k) ensures k == i {
        OneToPlay(selected, hasEpisode, i, k);
      }
    } else if selected != [] {
      forall k: nat ensures !Chosen(files, video, matches, hasEpisode, k) {
        NothingToPlay(selected, k);
      }
    }
  }

  /**
   * The link taken is the first if there are no files. Otherwise it is the one at the position of the file to play,
   * if there is one and it is not blank; else none when an episode is asked for, and the first when not.
   */
  lemma PickHostLinkExactly(files: seq<FileRow>, links: seq<string>, video: string -> bool, matches: string -> bool,
                            hasEpisode: bool)
    requires AscendingRows(files)
    ensures var r := PickHostLink(ApiFiles(files, video, matches), links, hasEpisode);
      && (links == [] ==> r.None?)
      && (links != [] && files == [] ==> r == Some(links[0]))
      && (forall k: nat | k < |links| && files != [] && Chosen(files, video, matches, hasEpisode, k) ::
            links[k] != "" ==> r == Some(links[k]))
      && (links != [] && files != []
          && (forall k: nat | k < |links| && Chosen(files, video, matches, hasEpisode, k) :: links[k] == "") ==>
            r == if hasEpisode then None else Some(links[0]))
  {
    var api, selected := ApiFiles(files, video, matches), ApiFiles(SelectedRows(files), video, matches);
    SelectedAgree(files, video, matches);
    ChosenExactly(files, video, matches, hasEpisode);
    if k: nat :| Chosen(files, video, matches, hasEpisode, k) {
      IndexOfIdExact(selected, k);
      forall j: nat | Chosen(files, video, matches, hasEpisode, j) ensures j == k {
        OneToPlay(selected, hasEpisode, j, k);
      }
    }
  }

  /** In terms of positions: the link at the chosen file's position, else none or the first. */
  lemma PickByPosition(api: seq<ApiFile>, links: seq<string>, hasEpisode: bool, k: nat)
    requires Ascending(api) && links != [] && forall l <- links :: l != ""
    requires Ascending(SelectedFiles(api)) && k < |SelectedFiles(api)|
    requires SelectedVideoFile(api, hasEpisode) == Some(SelectedFiles(api)[k])
    ensures PickHostLink(api, links, hasEpisode)
         == if k < |links| then Some(links[k]) else if hasEpisode then None else Some(links[0])
  {
    IndexOfIdExact(SelectedFiles(api), k);
    assert api != [];
    assert k < |links| ==> links[k] in links;
  }

  /** The files visible among all are those visible among the selected. */
  lemma VisibleAmongSelected(min: int, r: Record)
    ensures VisibleFiles(min, r) == Keep(SelectedRows(r.files), Visible(min, r))
  {
    KeepKeep(r.files, Visible(min, r), RowSelected);
  }

  ghost predicate AllVisibleUpTo(min: int, r: Record, k: nat)
    requires k < |SelectedRows(r.files)|
  {
    forall j: nat | j <= k :: FileLinksVisible(min, r, SelectedRows(r.files)[j])
  }

  ghost predicate OnlyVisibleAt(min: int, r: Record, k: nat)
    requires k < |SelectedRows(r.files)|
  {
    && FileLinksVisible(min, r, SelectedRows(r.files)[k])
    && forall j: nat | j < k :: !FileLinksVisible(min, r, SelectedRows(r.files)[j])
  }

  lemma SameLinkSameFile(publicUrl: string, rows: map<int, string>, a: int, b: int)
    requires DistinctLinks(rows) && a in rows
    ensures b in rows && HostLink(publicUrl, rows[a]) == HostLink(publicUrl, rows[b]) <==> a == b
  {
    if b in rows && HostLink(publicUrl, rows[a]) == HostLink(publicUrl, rows[b]) {
      HostLinkInjective(publicUrl, rows[a], rows[b]);
    }
  }

  lemma SameIdSamePosition(r: Record, f: FileRow, k: nat, min: int)
    requires AscendingRows(r.files) && k < |SelectedRows(r.files)|
    requires f in VisibleFiles(min, r)
    ensures f.id == SelectedRows(r.files)[k].id <==> f == SelectedRows(r.files)[k]
  {
    SelectedRowsAscending(r.files);
    VisibleAmongSelected(min, r);
    KeepFacts(SelectedRows(r.files), Visible(min, r));
  }

  /** When all selected files up to k are visible, there are more than k links. */
  lemma NotBeyond(min: int, r: Record, k: nat)
    requires k < |SelectedRows(r.files)|
    ensures AllVisibleUpTo(min, r, k) ==> k < |VisibleFiles(min, r)|
  {
    var selected := SelectedRows(r.files);
    VisibleAmongSelected(min, r);
    Split3(selected, k + 1, Visible(min, r));
    KeepAll(selected[..k + 1], Visible(min, r));
    if AllVisibleUpTo(min, r, k) {
      assert forall j: nat | j < k + 1 :: selected[..k + 1][j] == selected[j];
    }
  }

  /**
   * The link the addon takes is the link of the file it chose exactly when every selected file up to
   * that one is link-visible - or, by its fall-back to the first link, when the chosen file is the
   * first visible one, too far back to have a link at its own position, and no episode was asked for.
   */
  lemma PickedLinkExactly(min: int, r: Record, publicUrl: string, rows: map<int, string>, links: seq<string>,
                          video: string -> bool, matches: string -> bool, hasEpisode: bool, k: nat)
    requires AscendingRows(r.files) && Listed(min, r, r.files, publicUrl, rows, links) && DistinctLinks(rows)
    requires Chosen(r.files, video, matches, hasEpisode, k)
    ensures var api, f := ApiFiles(r.files, video, matches), SelectedRows(r.files)[k];
      (f.id in rows && PickHostLink(api, links, hasEpisode) == Some(HostLink(publicUrl, rows[f.id])))
      <==>
      (AllVisibleUpTo(min, r, k) || (!hasEpisode && |links| <= k && OnlyVisibleAt(min, r, k)))
  {
    var selected, visible := SelectedRows(r.files), VisibleFiles(min, r);
    VisibleAmongSelected(min, r);
    SelectedRowsAscending(r.files);
    if links == [] {
      KeepFacts(selected, Visible(min, r));
      assert selected[k] in selected && selected[k] !in visible;
    } else {
      SelectedAgree(r.files, video, matches);
      ChosenExactly(r.files, video, matches, hasEpisode);
      PickByPosition(ApiFiles(r.files, video, matches), links, hasEpisode, k);
      var at := if k < |links| then k else 0;
      SameLinkSameFile(publicUrl, rows, visible[at].id, selected[k].id);
      if k < |links| {
        KeptInPlace(selected, k, Visible(min, r));
        SameIdSamePosition(r, visible[k], k, min);
        NotBeyond(min, r, k);
      } else {
        KeptFirst(selected, k, Visible(min, r));
        SameIdSamePosition(r, visible[0], k, min);
        NotBeyond(min, r, k);
      }
    }
  }

  /** No link is taken exactly when an episode is asked for and no file with a link at its position is to be played. */
  lemma NoLinkExactly(files: seq<FileRow>, links: seq<string>, video: string -> bool, matches: string -> bool,
                      hasEpisode: bool)
    requires AscendingRows(files) && files != [] && links != [] && forall l <- links :: l != ""
    ensures PickHostLink(ApiFiles(files, video, matches), links, hasEpisode).None?
       <==> hasEpisode && forall k: nat :: Chosen(files, video, matches, true, k) ==> |links| <= k
  {
    var api, selected := ApiFiles(files, video, matches), ApiFiles(SelectedRows(files), video, matches);
    SelectedAgree(files, video, matches);
    ChosenExactly(files, video, matches, hasEpisode);
    if k: nat :| Chosen(files, video, matches, hasEpisode, k) {
      PickByPosition(api, links, hasEpisode, k);
      forall j: nat | Chosen(files, video, matches, hasEpisode, j) ensures j == k {
        OneToPlay(selected, hasEpisode, j, k);
      }
    }
  }

  /** Once a torrent is downloaded every selected file is visible, so the addon's link is always right. */
  lemma DownloadedLinkIsRight(min: int, r: Record, publicUrl: string, rows: map<int, string>, links: seq<string>,
                              video: string -> bool, matches: string -> bool, hasEpisode: bool, k: nat)
    requires AscendingRows(r.files) && Listed(min, r, r.files, publicUrl, rows, links) && DistinctLinks(rows)
    requires Chosen(r.files, video, matches, hasEpisode, k) && r.status.Downloaded?
    ensures var f := SelectedRows(r.files)[k];
      f.id in rows && PickHostLink(ApiFiles(r.files, video, matches), links, hasEpisode)
          == Some(HostLink(publicUrl, rows[f.id]))
  {
    KeepFacts(r.files, RowSelected);
    forall j: nat | j <= k ensures FileLinksVisible(min, r, SelectedRows(r.files)[j]) {
      assert SelectedRows(r.files)[j] in SelectedRows(r.files);
    }
    PickedLinkExactly(min, r, publicUrl, rows, links, video, matches, hasEpisode, k);
  }

  lemma KeepTwo<T>(a: T, b: T, p: T -> bool)
    ensures Keep([a] + [b], p) == (if p(a) then [a] else []) + (if p(b) then [b] else [])
  {
    assert [a] == [] + [a];
    KeepAppend([], a, p);
    KeepAppend([a], b, p);
  }

  lemma LargerFirst(a: ApiFile, b: ApiFile, links: seq<string>)
    requires a.id < b.id && a.bytes >= b.bytes && a.selected && b.selected && a.video && b.video
    requires links != [] && links[0] != ""
    ensures PickHostLink([a] + [b], links, false) == Some(links[0])
  {
    var api := [a] + [b];
    KeepTwo(a, b, IsSelected);
    KeepTwo(a, b, IsVideo);
    KeepTwo(a, b, MatchesFor(false));
    assert api[..1] == [a];
    assert Largest(api) == a;
    IndexOfIdExact(api, 0);
  }

  /** Two selected videos, the larger one first: it is the file to play. */
  lemma LargerToPlay(files: seq<FileRow>, a: FileRow, b: FileRow, video: string -> bool, matches: string -> bool)
    requires files == [a] + [b] && a.selected && b.selected && video(a.path) && video(b.path) && a.bytes >= b.bytes
    ensures Chosen(files, video, matches, false, 0)
  {
    KeepTwo(a, b, RowSelected);
  }

  lemma BMkvIsVideo()
    ensures IsVideoPath("/b.mkv")
  {
    assert "/b.mkv"[..5] == "/b.mk" && "/b.mk"[..4] == "/b.m" && "/b.m"[..3] == "/b.";
    assert LowerExt("/b.") == ".";
    assert LowerExt("/b.m") == ".m";
    assert LowerExt("/b.mk") == ".mk";
    assert LowerExt("/b.mkv") == LowerExt("/b.mk") + "v" == ".mkv" == VIDEO_EXTENSIONS[0];
  }

  /**
   * While a download runs the link can be another file's: two selected videos, the larger one first
   * and not streamable yet. The addon chooses the larger and is given the link of the smaller.
   */
  lemma LinkOfAnotherFile(r: Record, publicUrl: string, video: string -> bool, matches: string -> bool)
    requires r.status.Downloading? && |r.files| == 2 && video(r.files[0].path) && video(r.files[1].path)
    requires r.files[0] == FileRow(1, "/a.mkv", 900, true, 0, 0, "", "", false)
    requires r.files[1] == FileRow(2, "/b.mkv", 100, true, 100, 100, "", "", false)
    ensures var rows, api := map[2 := "B"], ApiFiles(r.files, video, matches);
      && Listed(16, r, r.files, publicUrl, rows, [HostLink(publicUrl, "B")])
      && Ascending(api) && Chosen(r.files, video, matches, false, 0)
      && PickHostLink(api, [HostLink(publicUrl, "B")], false) == Some(HostLink(publicUrl, "B"))
  {
    var a, b, api := r.files[0], r.files[1], ApiFiles(r.files, video, matches);
    assert r.files == [a] + [b] && api == [api[0]] + [api[1]];
    BMkvIsVideo();
    KeepTwo(a, b, Visible(16, r));
    LargerToPlay(r.files, a, b, video, matches);
    LargerFirst(api[0], api[1], [HostLink(publicUrl, "B")]);
  }

  // ----- from the table to the addon -------------------------------------------------------

  /** The id in a row is the one it had, or one of the first n new ones. */
  ghost predicate FromBefore(rows: map<int, string>, newIds: seq<string>, n: nat, id: string)
    requires n <= |newIds|
  {
    (exists k <- rows :: rows[k] == id) || exists i: nat :: i < n && newIds[i] == id
  }

  lemma NewIdIsNew(r: Record, rows: map<int, string>, newIds: seq<string>, n: nat)
    requires NewIds(r, rows, newIds) && Distinct(newIds) && n < |newIds|
    ensures !FromBefore(rows, newIds, n, newIds[n])
  {}

  /** Links stay distinct when the new ids are none of those in use and differ from each other. */
  lemma {:induction false} EnsuredDistinct(min: int, r: Record, rows: map<int, string>, newIds: seq<string>,
                                           calls: seq<Calls>, n: nat)
    requires n <= |r.files| == |newIds| == |calls|
    requires DistinctLinks(rows) && NewIds(r, rows, newIds) && Distinct(newIds)
    ensures var after := Ensured(min, r, rows, newIds, calls, n).0;
      DistinctLinks(after) && forall k <- after :: FromBefore(rows, newIds, n, after[k])
  {
    if n > 0 {
      EnsuredDistinct(min, r, rows, newIds, calls, n - 1);
      NewIdIsNew(r, rows, newIds, n - 1);
      var before := Ensured(min, r, rows, newIds, calls, n - 1).0;
      forall k | k in before ensures FromBefore(rows, newIds, n, before[k]) {
        assert FromBefore(rows, newIds, n - 1, before[k]);
      }
      assert FromBefore(rows, newIds, n, newIds[n - 1]);
    }
  }

  /**
   * From the table to the addon: when ensureHostLinks has settled every visible file, the link the addon
   * takes is the link of the file it chose exactly when the selected files up to it are visible (or by
   * the fall-back); so always, once the torrent is downloaded.
   */
  lemma EndToEndExactly(min: int, r: Record, publicUrl: string, rows: map<int, string>, newIds: seq<string>,
                        calls: seq<Calls>, video: string -> bool, matches: string -> bool, hasEpisode: bool, k: nat)
    requires AscendingRows(r.files) && |r.files| == |newIds| == |calls|
    requires DistinctLinks(rows) && NewIds(r, rows, newIds) && Distinct(newIds) && AllSettled(min, r, rows, calls)
    requires Chosen(r.files, video, matches, hasEpisode, k)
    ensures var (after, ids) := Ensured(min, r, rows, newIds, calls, |r.files|);
      var links, f := Links(publicUrl, ids), SelectedRows(r.files)[k];
      var right := f.id in after
        && PickHostLink(ApiFiles(r.files, video, matches), links, hasEpisode) == Some(HostLink(publicUrl, after[f.id]));
      && (right <==> AllVisibleUpTo(min, r, k) || (!hasEpisode && |links| <= k && OnlyVisibleAt(min, r, k)))
      && (r.status.Downloaded? ==> right)
  {
    var (after, ids) := Ensured(min, r, rows, newIds, calls, |r.files|);
    EnsuredDistinct(min, r, rows, newIds, calls, |r.files|);
    ListedExactly(min, r, publicUrl, rows, newIds, calls, after, ids);
    PickedLinkExactly(min, r, publicUrl, after, Links(publicUrl, ids), video, matches, hasEpisode, k);
    if r.status.Downloaded? {
      DownloadedLinkIsRight(min, r, publicUrl, after, Links(publicUrl, ids), video, matches, hasEpisode, k);
    }
  }
}
