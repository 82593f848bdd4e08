/** Merging indexer search results by torrent identity, batch by batch. */
module Jackett {
  import opened Strings

  /**
   * A parsed result. `hash` is its info hash or the one in its magnet link, `title` the normalised
   * title text (both found by regular expressions); `rest` stands for the remaining fields.
   */
  datatype Torrent = Torrent(hash: string, link: string, title: string, size: int, seeders: int, rest: int)

  /** torrentIdentity's "hash:...", "link:..." and "title:...:size" strings. */
  datatype Identity = ByHash(hash: string) | ByLink(link: string) | ByTitle(title: string, size: int)

  function IdentityOf(t: Torrent): Option<Identity> {
    if t.hash != "" then Some(ByHash(Lower(t.hash)))
    else if t.link != "" && !("magnet:" <= Lower(t.link)) then Some(ByLink(t.link))
    else if t.title != "" then Some(ByTitle(t.title, t.size))
    else None
  }

  /**
   * Two results are of one torrent exactly when both have a hash and it is the same up to case; or neither has one
   * and both have the same link, which is no magnet; or they have neither, and the same title and size.
   */
  lemma SameTorrentExactly(a: Torrent, b: Torrent)
    ensures var linkA := a.link != "" && !("magnet:" <= Lower(a.link));
            var linkB := b.link != "" && !("magnet:" <= Lower(b.link));
      (IdentityOf(a).Some? && IdentityOf(a) == IdentityOf(b)) <==>
      (|| (a.hash != "" && b.hash != "" && Lower(a.hash) == Lower(b.hash))
       || (a.hash == "" && b.hash == "" && linkA && linkB && a.link == b.link)
       || (a.hash == "" && b.hash == "" && !linkA && !linkB && a.title != "" && a.title == b.title && a.size == b.size))
  {}

  function PickBetter(a: Torrent, b: Torrent): Torrent {
    if a.seeders != b.seeders then (if a.seeders > b.seeders then a else b)
    else if a.size >= b.size then a else b
  }

  // ----- the merge ------------------------------------------------------------------------

  datatype Merged = Merged(items: seq<Torrent>, index: map<Identity, nat>)

  /** The index of a list: where each identity occurs last. */
  function BuildIndex(items: seq<Torrent>): (index: map<Identity, nat>)
    ensures forall k <- index :: index[k] < |items| && IdentityOf(items[index[k]]) == Some(k)
    ensures forall i: nat | i < |items| && IdentityOf(items[i]).Some? :: IdentityOf(items[i]).value in index
  {
    if items == [] then map[]
    else
      var n := |items| - 1;
      var before := BuildIndex(items[..n]);
      match IdentityOf(items[n])
      case None => before
      case Some(k) => before[k := n]
  }

  ghost predicate Valid(m: Merged) {
    m.index == BuildIndex(m.items)
  }

  function AddOne(m: Merged, t: Torrent): Merged
    requires Valid(m)
  {
    match IdentityOf(t)
    case None => m.(items := m.items + [t])
    case Some(k) =>
      if k !in m.index then Merged(m.items + [t], m.index[k := |m.items|])
      else m.(items := m.items[m.index[k] := PickBetter(m.items[m.index[k]], t)])
  }

  lemma {:induction false} SameIdentitiesSameIndex(a: seq<Torrent>, b: seq<Torrent>)
    requires |a| == |b| && forall i: nat | i < |a| :: IdentityOf(a[i]) == IdentityOf(b[i])
    ensures BuildIndex(a) == BuildIndex(b)
  {
    if a != [] {
      SameIdentitiesSameIndex(a[..|a| - 1], b[..|b| - 1]);
    }
  }

  lemma AppendKeepsIndex(items: seq<Torrent>, t: Torrent)
    ensures BuildIndex(items + [t])
         == if IdentityOf(t).None? then BuildIndex(items) else BuildIndex(items)[IdentityOf(t).value := |items|]
  {
    assert (items + [t])[..|items|] == items;
  }

  lemma ReplaceKeepsIndex(items: seq<Torrent>, i: nat, t: Torrent)
    requires i < |items| && IdentityOf(t) == IdentityOf(items[i])
    ensures BuildIndex(items[i := t]) == BuildIndex(items)
  {
    SameIdentitiesSameIndex(items, items[i := t]);
  }

  /** The index the loop leaves behind is the one a rebuild from its list would give. */
  lemma AddOneKeepsIndex(m: Merged, t: Torrent)
    requires Valid(m)
    ensures Valid(AddOne(m, t))
  {
    if IdentityOf(t).None? || IdentityOf(t).value !in m.index {
      AppendKeepsIndex(m.items, t);
    } else {
      var i := m.index[IdentityOf(t).value];
      ReplaceKeepsIndex(m.items, i, PickBetter(m.items[i], t));
    }
  }

  function AddAll(m: Merged, additions: seq<Torrent>): (r: Merged)
    requires Valid(m)
    ensures Valid(r)
  {
    if additions == [] then m
    else
      var n := |additions| - 1;
      var before := AddAll(m, additions[..n]);
      AddOneKeepsIndex(before, additions[n]);
      AddOne(before, additions[n])
  }

  function Merge(existing: seq<Torrent>, additions: seq<Torrent>): seq<Torrent> {
    AddAll(Merged(existing, BuildIndex(existing)), additions).items
  }

  method MergeTorrentResults(existing: seq<Torrent>, additions: seq<Torrent>) returns (merged: seq<Torrent>)
    ensures merged == Merge(existing, additions)
  {
    merged := existing;
    var byIdentity: map<Identity, nat> := map[];
    for i := 0 to |merged|
      invariant merged == existing && byIdentity == BuildIndex(merged[..i])
    {
      assert merged[..i + 1][..i] == merged[..i];
      var key := IdentityOf(merged[i]);
      if key.Some? {
        byIdentity := byIdentity[key.value := i];
      }
    }
    assert existing[..|existing|] == existing;
    ghost var start := Merged(existing, BuildIndex(existing));
    for j := 0 to |additions|
      invariant Merged(merged, byIdentity) == AddAll(start, additions[..j])
    {
      var t := additions[j];
      assert additions[..j + 1][..j] == additions[..j];
      var key := IdentityOf(t);
      if key.None? {
        merged := merged + [t];
      } else if key.value !in byIdentity {
        byIdentity := byIdentity[key.value := |merged|];
        merged := merged + [t];
      } else {
        var at := byIdentity[key.value];
        merged := merged[at := PickBetter(merged[at], t)];
      }
    }
    assert additions[..|additions|] == additions;
  }

  // ----- batches --------------------------------------------------------------------------

  lemma {:induction false} AddAllConcat(m: Merged, a: seq<Torrent>, b: seq<Torrent>)
    requires Valid(m)
    ensures AddAll(m, a + b) == AddAll(AddAll(m, a), b)
    decreases |b|
  {
    if b == [] {
      assert a + b == a;
    } else {
      var n := |b| - 1;
      assert (a + b)[..|a + b| - 1] == a + b[..n];
      AddAllConcat(m, a, b[..n]);
    }
  }

  /** Merging batch by batch, rebuilding the index each time, is merging everything at once. */
  lemma MergeInBatches(existing: seq<Torrent>, a: seq<Torrent>, b: seq<Torrent>)
    ensures Merge(Merge(existing, a), b) == Merge(existing, a + b)
  {
    AddAllConcat(Merged(existing, BuildIndex(existing)), a, b);
  }

  // ----- what the merged list is ----------------------------------------------------------

  /** Position p is the first result with its identity, or has none. */
  ghost predicate FirstSeen(a: seq<Torrent>, p: nat)
    requires p < |a|
  {
    IdentityOf(a[p]).None? || forall q: nat | q < p :: IdentityOf(a[q]) != IdentityOf(a[p])
  }

  /** Those positions, in order. */
  ghost function FirstPositions(a: seq<Torrent>): (r: seq<nat>)
    ensures forall i: nat | i < |r| :: r[i] < |a|
  {
    if a == [] then []
    else
      var n := |a| - 1;
      FirstPositions(a[..n]) + (if FirstSeen(a, n) then [n] else [])
  }

  lemma FirstPositionsUnfold(a: seq<Torrent>)
    requires a != []
    ensures FirstPositions(a) == FirstPositions(a[..|a| - 1]) + (if FirstSeen(a, |a| - 1) then [|a| - 1] else [])
  {}

  lemma FirstSeenInFront(a: seq<Torrent>, n: nat, p: nat)
    requires p < n <= |a|
    ensures FirstSeen(a, p) <==> FirstSeen(a[..n], p)
  {}

  lemma {:induction false} FirstPositionsExact(a: seq<Torrent>)
    ensures forall p: nat :: p in FirstPositions(a) <==> p < |a| && FirstSeen(a, p)
  {
    if a != [] {
      var n := |a| - 1;
      FirstPositionsExact(a[..n]);
      FirstPositionsUnfold(a);
      forall p: nat ensures p in FirstPositions(a) <==> p < |a| && FirstSeen(a, p) {
        if p < n { FirstSeenInFront(a, n, p); }
      }
    }
  }

  lemma {:induction false} FirstPositionsInOrder(a: seq<Torrent>)
    ensures var r := FirstPositions(a); forall i: nat, j: nat | i < j < |r| :: r[i] < r[j]
  {
    if a != [] {
      var r0, r := FirstPositions(a[..|a| - 1]), FirstPositions(a);
      FirstPositionsInOrder(a[..|a| - 1]);
      FirstPositionsUnfold(a);
      forall i: nat, j: nat | i < j < |r| ensures r[i] < r[j] {
        assert r[i] == r0[i] < |a| - 1;
      }
    }
  }

  predicate RankBelow(a: Torrent, b: Torrent) {
    a.seeders < b.seeders || (a.seeders == b.seeders && a.size < b.size)
  }

  /** Position q holds the best result of its identity: better than all before, no worse than all after. */
  ghost predicate BestSeen(a: seq<Torrent>, q: nat)
    requires q < |a|
  {
    forall p: nat | p < |a| && p != q && IdentityOf(a[p]) == IdentityOf(a[q]) ::
      if p < q then RankBelow(a[p], a[q]) else !RankBelow(a[q], a[p])
  }

  /** A merged slot for the results with the identity of a[p]. */
  ghost predicate SlotOk(a: seq<Torrent>, p: nat, t: Torrent)
    requires p < |a|
  {
    && IdentityOf(t) == IdentityOf(a[p])
    && (IdentityOf(t).None? ==> t == a[p])
    && (IdentityOf(t).Some? ==> exists q: nat | q < |a| :: a[q] == t && BestSeen(a, q))
  }

  lemma SlotStays(a: seq<Torrent>, p: nat, t: Torrent, x: Torrent)
    requires p < |a| && SlotOk(a, p, t) && (IdentityOf(x).None? || IdentityOf(x) != IdentityOf(t))
    ensures SlotOk(a + [x], p, t)
  {
    if IdentityOf(t).Some? {
      var q: nat :| q < |a| && a[q] == t && BestSeen(a, q);
      assert (a + [x])[q] == t && BestSeen(a + [x], q);
    }
  }

  lemma SlotImproves(a: seq<Torrent>, p: nat, t: Torrent, x: Torrent)
    requires p < |a| && SlotOk(a, p, t) && IdentityOf(x).Some? && IdentityOf(x) == IdentityOf(t)
    ensures SlotOk(a + [x], p, PickBetter(t, x))
  {
    var q: nat :| q < |a| && a[q] == t && BestSeen(a, q);
    var b := a + [x];
    if PickBetter(t, x) == t {
      assert b[q] == t && BestSeen(b, q);
    } else {
      assert b[|a|] == x && BestSeen(b, |a|);
    }
  }

  /** One slot for each first appearance, in that order, and no two slots share an identity. */
  ghost predicate Represents(r: seq<Torrent>, a: seq<Torrent>) {
    && |r| == |FirstPositions(a)|
    && (forall i: nat | i < |r| :: SlotOk(a, FirstPositions(a)[i], r[i]))
    && (forall i: nat, j: nat | i < j < |r| && IdentityOf(r[i]) == IdentityOf(r[j]) :: IdentityOf(r[i]).None?)
  }

  lemma FirstPositionsAppend(a: seq<Torrent>, x: Torrent)
    ensures FirstPositions(a + [x]) == FirstPositions(a) + (if FirstSeen(a + [x], |a|) then [|a|] else [])
  {
    FirstPositionsUnfold(a + [x]);
    assert (a + [x])[..|a|] == a;
  }

  lemma NewSlot(m: Merged, a: seq<Torrent>, x: Torrent)
    requires Valid(m) && Represents(m.items, a)
    requires IdentityOf(x).None? || (IdentityOf(x).value !in m.index && FirstSeen(a + [x], |a|))
    ensures Represents(m.items + [x], a + [x])
  {
    var r, b, f := m.items, a + [x], FirstPositions(a);
    FirstPositionsAppend(a, x);
    forall i: nat | i < |r| ensures SlotOk(b, f[i], r[i]) {
      SlotStays(a, f[i], r[i], x);
    }
    if IdentityOf(x).Some? {
      assert b[|a|] == x && BestSeen(b, |a|);
    }
    assert SlotOk(b, |a|, x);
  }

  lemma OneSlot(r: seq<Torrent>, a: seq<Torrent>, x: Torrent, at: nat, i: nat)
    requires Represents(r, a) && at < |r| && i < |r|
    requires IdentityOf(x).Some? && IdentityOf(r[at]) == IdentityOf(x)
    ensures SlotOk(a + [x], FirstPositions(a)[i], if i == at then PickBetter(r[at], x) else r[i])
  {
    var p := FirstPositions(a)[i];
    assert SlotOk(a, p, r[i]);
    if i == at { SlotImproves(a, p, r[i], x); } else { SlotStays(a, p, r[i], x); }
  }

  lemma BetterSlot(r: seq<Torrent>, a: seq<Torrent>, x: Torrent, at: nat)
    requires Represents(r, a) && at < |r|
    requires IdentityOf(x).Some? && IdentityOf(r[at]) == IdentityOf(x) && !FirstSeen(a + [x], |a|)
    ensures Represents(r[at := PickBetter(r[at], x)], a + [x])
  {
    var t := PickBetter(r[at], x);
    var r' := r[at := t];
    FirstPositionsAppend(a, x);
    assert forall i: nat | i < |r| :: IdentityOf(r'[i]) == IdentityOf(r[i]);
    forall i: nat | i < |r| ensures SlotOk(a + [x], FirstPositions(a)[i], r'[i]) {
      OneSlot(r, a, x, at, i);
    }
  }

  lemma {:induction false} FirstOf(a: seq<Torrent>, q: nat) returns (p: nat)
    requires q < |a|
    ensures p <= q && IdentityOf(a[p]) == IdentityOf(a[q]) && FirstSeen(a, p)
    decreases q
  {
    p := q;
    if !FirstSeen(a, q) {
      var earlier: nat :| earlier < q && IdentityOf(a[earlier]) == IdentityOf(a[q]);
      p := FirstOf(a, earlier);
    }
  }

  /** An identity is missing from the index exactly when no earlier result had it. */
  lemma NewMeansFirst(m: Merged, a: seq<Torrent>, x: Torrent)
    requires Valid(m) && Represents(m.items, a) && IdentityOf(x).Some?
    ensures IdentityOf(x).value !in m.index <==> FirstSeen(a + [x], |a|)
  {
    var b, f := a + [x], FirstPositions(a);
    if IdentityOf(x).value in m.index {
      var i := m.index[IdentityOf(x).value];
      assert SlotOk(a, f[i], m.items[i]) && b[f[i]] == a[f[i]];
    }
    if !FirstSeen(b, |a|) {
      var q: nat :| q < |a| && IdentityOf(b[q]) == IdentityOf(x);
      var p := FirstOf(a, q);
      FirstPositionsExact(a);
      var i: nat :| i < |f| && f[i] == p;
      assert SlotOk(a, f[i], m.items[i]);
    }
  }

  lemma OneMoreSlot(m: Merged, a: seq<Torrent>, x: Torrent)
    requires Valid(m) && Represents(m.items, a)
    ensures Represents(AddOne(m, x).items, a + [x])
  {
    if IdentityOf(x).None? {
      NewSlot(m, a, x);
    } else {
      NewMeansFirst(m, a, x);
      if IdentityOf(x).value !in m.index {
        NewSlot(m, a, x);
      } else {
        BetterSlot(m.items, a, x, m.index[IdentityOf(x).value]);
      }
    }
  }

  lemma {:induction false} MergeRepresents(a: seq<Torrent>)
    ensures Represents(Merge([], a), a)
  {
    if a == [] {
      assert FirstPositions(a) == [];
    } else {
      var before := a[..|a| - 1];
      MergeRepresents(before);
      OneMoreSlot(AddAll(Merged([], BuildIndex([])), before), before, a[|a| - 1]);
      assert a == before + [a[|a| - 1]];
    }
  }

  /**
   * Merging from nothing: one slot for each first appearance, in that order; the slot of an identity
   * holds its best result by (seeders, size), the earliest of equals; no two slots share an identity.
   */
  lemma MergedListExact(a: seq<Torrent>)
    ensures Represents(Merge([], a), a)
    ensures var f := FirstPositions(a); forall i: nat, j: nat | i < j < |f| :: f[i] < f[j]
  {
    FirstPositionsInOrder(a);
    MergeRepresents(a);
  }

  lemma BestIsUnique(a: seq<Torrent>, q: nat, q': nat)
    requires q < |a| && q' < |a| && IdentityOf(a[q]) == IdentityOf(a[q']) && IdentityOf(a[q]).Some?
    requires BestSeen(a, q) && BestSeen(a, q')
    ensures q == q'
  {}

  /** That description leaves no freedom: it is met by one list only. */
  lemma RepresentationIsUnique(r: seq<Torrent>, r': seq<Torrent>, a: seq<Torrent>)
    requires Represents(r, a) && Represents(r', a)
    ensures r == r'
  {
    forall i: nat | i < |r| ensures r[i] == r'[i] {
      var p := FirstPositions(a)[i];
      assert SlotOk(a, p, r[i]) && SlotOk(a, p, r'[i]);
      if IdentityOf(r[i]).Some? {
        var q: nat :| q < |a| && a[q] == r[i] && BestSeen(a, q);
        var q': nat :| q' < |a| && a[q'] == r'[i] && BestSeen(a, q');
        BestIsUnique(a, q, q');
      }
    }
  }
}
