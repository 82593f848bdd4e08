/**
 * The cache of downloaded torrent files (stremio-addon/lib/jackett.js): a JavaScript Map, which keeps
 * its keys in the order they were first inserted, used as a least-recently-used cache with expiry.
 */
module TorrentFileCache {
  import opened Strings
  import opened Sequences

  type Value = int

  datatype Link = Link(url: string)

  datatype Slot = Slot(key: Link, value: Value, expiresAt: int)

  datatype Settings = Settings(ttl: int, max: nat)

  datatype Op = Get(key: Link, now: int) | Set(key: Link, value: Value, now: int) | Delete(key: Link)

  function KeyOf(op: Op): Link {
    match op
    case Get(k, _) => k
    case Set(k, _, _) => k
    case Delete(k) => k
  }

  // ----- the Map ---------------------------------------------------------------------------

  ghost predicate DistinctKeys(m: seq<Slot>) {
    forall i: nat, j: nat | i < j < |m| :: m[i].key != m[j].key
  }

  function Find(m: seq<Slot>, key: Link): (r: Option<Slot>)
    ensures r.Some? ==> r.value in m && r.value.key == key
    ensures r.None? ==> forall s <- m :: s.key != key
  {
    if m == [] then None else if m[0].key == key then Some(m[0]) else Find(m[1..], key)
  }

  function Other(key: Link): Slot -> bool {
    (s: Slot) => s.key != key
  }

  function Remove(m: seq<Slot>, key: Link): seq<Slot> {
    Keep(m, Other(key))
  }

  /** Map.set leaves a key that is there in its place. */
  function Put(m: seq<Slot>, s: Slot): seq<Slot> {
    if m == [] then [s]
    else if m[0].key == s.key then [s] + m[1..]
    else [m[0]] + Put(m[1..], s)
  }

  /** Removing the oldest key while there are too many. */
  function Trim(m: seq<Slot>, max: nat): seq<Slot> {
    if |m| > max then Trim(m[1..], max) else m
  }

  function Store(m: seq<Slot>, s: Slot, max: nat): seq<Slot> {
    Trim(Put(m, s), max)
  }

  // ----- the cache -------------------------------------------------------------------------

  function Lookup(m: seq<Slot>, c: Settings, key: Link, now: int): (seq<Slot>, Option<Value>) {
    var e := Find(m, key);
    if c.ttl <= 0 || e.None? then (m, None)
    else if e.value.expiresAt <= now then (Remove(m, key), None)
    else (Remove(m, key) + [e.value], Some(e.value.value))
  }

  function Step(m: seq<Slot>, c: Settings, op: Op): seq<Slot> {
    match op
    case Get(key, now) => Lookup(m, c, key, now).0
    case Set(key, value, now) => if c.ttl <= 0 then m else Store(m, Slot(key, value, now + c.ttl), c.max)
    case Delete(key) => Remove(m, key)
  }

  function RunFrom(m: seq<Slot>, c: Settings, ops: seq<Op>): seq<Slot> {
    if ops == [] then m else Step(RunFrom(m, c, ops[..|ops| - 1]), c, ops[|ops| - 1])
  }

  function Run(c: Settings, ops: seq<Op>): seq<Slot> {
    RunFrom([], c, ops)
  }

  /** What was last stored under a key and not deleted, whatever the cache dropped since. */
  function LastSet(c: Settings, ops: seq<Op>, key: Link): Option<Slot> {
    if ops == [] then None
    else
      var op := ops[|ops| - 1];
      if KeyOf(op) == key && op.Set? then Some(Slot(key, op.value, op.now + c.ttl))
      else if KeyOf(op) == key && op.Delete? then None
      else LastSet(c, ops[..|ops| - 1], key)
  }

  lemma {:induction false} RemoveFacts(m: seq<Slot>, key: Link)
    requires DistinctKeys(m)
    ensures DistinctKeys(Remove(m, key)) && |Remove(m, key)| <= |m|
    ensures forall s :: s in Remove(m, key) <==> s in m && s.key != key
    ensures Find(m, key).Some? ==> |Remove(m, key)| < |m|
  {
    KeepFacts(m, Other(key));
    KeepAll(m, Other(key));
    if m != [] {
      var n := |m| - 1;
      RemoveFacts(m[..n], key);
      forall x | x in Remove(m[..n], key) ensures x.key != m[n].key {
        var k: nat :| k < n && m[k] == x;
      }
    }
  }

  lemma {:induction false} PutFacts(m: seq<Slot>, s: Slot)
    requires DistinctKeys(m)
    ensures DistinctKeys(Put(m, s))
    ensures forall x <- Put(m, s) :: x == s || (x in m && x.key != s.key)
  {
    if m == [] {
    } else if m[0].key == s.key {
      assert forall x <- m[1..] :: x in m && x.key != s.key;
    } else {
      PutFacts(m[1..], s);
      var rest := Put(m[1..], s);
      assert forall x <- rest :: x == s || x in m[1..];
      forall j: nat | j < |rest| ensures rest[j].key != m[0].key {
        assert rest[j] in rest;
      }
    }
  }

  lemma {:induction false} TrimFacts(m: seq<Slot>, max: nat)
    requires DistinctKeys(m)
    ensures DistinctKeys(Trim(m, max)) && |Trim(m, max)| <= max
    ensures forall x <- Trim(m, max) :: x in m
  {
    if |m| > max {
      TrimFacts(m[1..], max);
    }
  }

  lemma StoreFacts(m: seq<Slot>, s: Slot, max: nat)
    requires DistinctKeys(m)
    ensures DistinctKeys(Store(m, s, max)) && |Store(m, s, max)| <= max
    ensures forall x <- Store(m, s, max) :: x == s || (x in m && x.key != s.key)
  {
    PutFacts(m, s);
    TrimFacts(Put(m, s), max);
  }

  lemma LookupFacts(m: seq<Slot>, c: Settings, key: Link, now: int)
    requires DistinctKeys(m)
    ensures var r := Lookup(m, c, key, now).0;
            DistinctKeys(r) && |r| <= |m| && forall x <- r :: x in m
  {
    RemoveFacts(m, key);
    var rest := Remove(m, key);
    assert forall j: nat | j < |rest| :: rest[j] in rest;
  }

  ghost predicate StepIsGood(m: seq<Slot>, c: Settings, op: Op, r: seq<Slot>) {
    && DistinctKeys(r) && |r| <= c.max
    && forall s <- r ::
         if op.Set? && c.ttl > 0 && s.key == op.key then s == Slot(op.key, op.value, op.now + c.ttl)
         else s in m && !(op.Delete? && s.key == op.key)
  }

  lemma GetIsGood(m: seq<Slot>, c: Settings, op: Op)
    requires DistinctKeys(m) && |m| <= c.max && op.Get?
    ensures StepIsGood(m, c, op, Step(m, c, op))
  {
    LookupFacts(m, c, op.key, op.now);
  }

  lemma SetIsGood(m: seq<Slot>, c: Settings, op: Op)
    requires DistinctKeys(m) && |m| <= c.max && op.Set?
    ensures StepIsGood(m, c, op, Step(m, c, op))
  {
    StoreFacts(m, Slot(op.key, op.value, op.now + c.ttl), c.max);
  }

  lemma DeleteIsGood(m: seq<Slot>, c: Settings, op: Op)
    requires DistinctKeys(m) && |m| <= c.max && op.Delete?
    ensures StepIsGood(m, c, op, Step(m, c, op))
  {
    RemoveFacts(m, op.key);
  }

  /** A step keeps the keys apart and their number bounded, and changes no slot but the one it stores. */
  lemma StepFacts(m: seq<Slot>, c: Settings, op: Op, r: seq<Slot>)
    requires DistinctKeys(m) && |m| <= c.max && r == Step(m, c, op)
    ensures StepIsGood(m, c, op, r)
  {
    if op.Get? {
      GetIsGood(m, c, op);
    } else if op.Set? {
      SetIsGood(m, c, op);
    } else {
      DeleteIsGood(m, c, op);
    }
  }

  /** Keys are distinct and their number is bounded. */
  lemma {:induction false} Bounded(c: Settings, ops: seq<Op>)
    ensures DistinctKeys(Run(c, ops)) && |Run(c, ops)| <= c.max
  {
    if ops != [] {
      Bounded(c, ops[..|ops| - 1]);
      StepFacts(Run(c, ops[..|ops| - 1]), c, ops[|ops| - 1], Run(c, ops));
    }
  }

  /** Every slot is what was last stored under its key. */
  lemma {:induction false} SlotsAreLatest(c: Settings, ops: seq<Op>, s: Slot)
    requires c.ttl > 0 && s in Run(c, ops)
    ensures LastSet(c, ops, s.key) == Some(s)
  {
    if ops != [] {
      var before, op := ops[..|ops| - 1], ops[|ops| - 1];
      Bounded(c, before);
      StepFacts(Run(c, before), c, op, Run(c, ops));
      if s.key != KeyOf(op) || op.Get? {
        SlotsAreLatest(c, before, s);
      }
    }
  }

  /** Operation i stored the value under the key; it has not expired, and no later one stored or deleted there. */
  ghost predicate StoredAt(c: Settings, ops: seq<Op>, i: nat, key: Link, value: Value, now: int)
    requires i < |ops|
  {
    && ops[i].Set? && ops[i].key == key && ops[i].value == value && now < ops[i].now + c.ttl
    && forall j: nat | i < j < |ops| && ops[j].key == key :: ops[j].Get?
  }

  lemma {:induction false} LastSetAt(c: Settings, ops: seq<Op>, key: Link) returns (i: nat)
    requires LastSet(c, ops, key).Some?
    ensures i < |ops| && ops[i].Set? && LastSet(c, ops, key).value == Slot(key, ops[i].value, ops[i].now + c.ttl)
    ensures ops[i].key == key && forall j: nat | i < j < |ops| && ops[j].key == key :: ops[j].Get?
  {
    i := |ops| - 1;
    if !(ops[i].Set? && ops[i].key == key) {
      i := LastSetAt(c, ops[..i], key);
    }
  }

  /** A value that is returned is the one last stored, not deleted since and not yet expired. */
  lemma GetIsLatest(c: Settings, ops: seq<Op>, key: Link, now: int)
    ensures var r := Lookup(Run(c, ops), c, key, now).1;
            r.Some? ==> exists i: nat :: i < |ops| && StoredAt(c, ops, i, key, r.value, now)
  {
    var e := Find(Run(c, ops), key);
    if c.ttl > 0 && e.Some? {
      SlotsAreLatest(c, ops, e.value);
      var i := LastSetAt(c, ops, key);
      assert Lookup(Run(c, ops), c, key, now).1.Some? ==> StoredAt(c, ops, i, key, e.value.value, now);
    }
  }

  lemma KeepsOthers(m: seq<Slot>, key: Link)
    requires forall i: nat | i < |m| :: m[i].key != key
    ensures Remove(m, key) == m
  {
    KeepAll(m, Other(key));
  }

  lemma RemoveAt(m: seq<Slot>, i: nat)
    requires DistinctKeys(m) && i < |m|
    ensures Remove(m, m[i].key) == m[..i] + m[i + 1..]
  {
    var p, front, back := Other(m[i].key), m[..i], m[i + 1..];
    assert m == front + [m[i]] + back;
    KeepConcat(front + [m[i]], back, p);
    KeepAppend(front, m[i], p);
    KeepsOthers(front, m[i].key);
    KeepsOthers(back, m[i].key);
  }

  lemma {:induction false} FindAt(m: seq<Slot>, i: nat)
    requires DistinctKeys(m) && i < |m|
    ensures Find(m, m[i].key) == Some(m[i])
  {
    if i > 0 {
      FindAt(m[1..], i - 1);
    }
  }

  /**
   * A lookup finds the value under its key exactly when an entry has it that has not expired. That entry moves
   * behind all others, an expired one goes, and the others keep their order.
   */
  lemma LookupExactly(m: seq<Slot>, c: Settings, key: Link, now: int)
    requires DistinctKeys(m)
    ensures var (m', r) := Lookup(m, c, key, now);
      && (forall v: Value :: r == Some(v) <==>
            c.ttl > 0 && exists s <- m :: s.key == key && s.value == v && now < s.expiresAt)
      && (c.ttl <= 0 || (forall s <- m :: s.key != key) ==> m' == m)
      && (forall i: nat | i < |m| && m[i].key == key && c.ttl > 0 ::
            m' == m[..i] + m[i + 1..] + (if now < m[i].expiresAt then [m[i]] else []))
  {
    if i: nat :| i < |m| && m[i].key == key {
      FindAt(m, i);
      RemoveAt(m, i);
      assert m[..i] + m[i + 1..] + [] == m[..i] + m[i + 1..];
      assert forall j: nat | j < |m| && m[j].key == key :: j == i;
      assert m[i] in m;
    } else {
      assert Find(m, key).None?;
    }
  }

  /** Deleting takes the entry with the key, if there is one, and leaves the others in their order. */
  lemma DeleteExactly(m: seq<Slot>, c: Settings, key: Link)
    requires DistinctKeys(m)
    ensures var m' := Step(m, c, Delete(key));
      && ((forall s <- m :: s.key != key) ==> m' == m)
      && (forall i: nat | i < |m| && m[i].key == key :: m' == m[..i] + m[i + 1..])
  {
    if i: nat :| i < |m| && m[i].key == key {
      RemoveAt(m, i);
      assert m[i] in m;
      assert forall j: nat | j < |m| && m[j].key == key :: j == i;
    } else {
      KeepsOthers(m, key);
    }
  }

  // ----- how long an entry stays -----------------------------------------------------------

  function Keys(ops: seq<Op>): set<Link> {
    set op | op in ops :: KeyOf(op)
  }

  ghost predicate Within(m: seq<Slot>, keys: set<Link>) {
    forall x <- m :: x.key in keys
  }

  ghost predicate Ends(m: seq<Slot>, front: seq<Slot>, s: Slot, back: seq<Slot>, keys: set<Link>) {
    m == front + [s] + back && Within(back, keys)
  }

  /** Only the given keys stand after the slot. */
  ghost predicate After(m: seq<Slot>, s: Slot, keys: set<Link>) {
    exists front: seq<Slot>, back: seq<Slot> :: Ends(m, front, s, back, keys)
  }

  lemma RemoveKeepsAfter(m: seq<Slot>, key: Link, s: Slot, keys: set<Link>)
    requires After(m, s, keys) && key != s.key
    ensures After(Remove(m, key), s, keys)
  {
    var front: seq<Slot>, back: seq<Slot> :| Ends(m, front, s, back, keys);
    KeepConcat(front + [s], back, Other(key));
    KeepAppend(front, s, Other(key));
    KeepFacts(back, Other(key));
    assert Ends(Remove(m, key), Remove(front, key), s, Remove(back, key), keys);
  }

  lemma AppendKeepsAfter(m: seq<Slot>, e: Slot, s: Slot, keys: set<Link>)
    requires After(m, s, keys) && e.key in keys
    ensures After(m + [e], s, keys)
  {
    var front: seq<Slot>, back: seq<Slot> :| Ends(m, front, s, back, keys);
    assert Ends(m + [e], front, s, back + [e], keys);
  }

  lemma {:induction false} PutWithin(m: seq<Slot>, e: Slot, keys: set<Link>)
    requires Within(m, keys) && e.key in keys
    ensures Within(Put(m, e), keys)
  {
    if m != [] && m[0].key != e.key {
      assert m[0] in m && forall x <- m[1..] :: x in m;
      PutWithin(m[1..], e, keys);
    }
  }

  lemma {:induction false} PutKeepsAfter(m: seq<Slot>, e: Slot, s: Slot, keys: set<Link>)
    requires After(m, s, keys) && e.key != s.key && e.key in keys
    ensures After(Put(m, e), s, keys)
  {
    var front: seq<Slot>, back: seq<Slot> :| Ends(m, front, s, back, keys);
    if front == [] {
      assert m[0] == s && m[1..] == back;
      PutWithin(back, e, keys);
      assert Ends(Put(m, e), [], s, Put(back, e), keys);
    } else if m[0].key == e.key {
      assert Ends(Put(m, e), [e] + front[1..], s, back, keys);
    } else {
      assert Ends(m[1..], front[1..], s, back, keys);
      PutKeepsAfter(m[1..], e, s, keys);
      var f: seq<Slot>, b: seq<Slot> :| Ends(Put(m[1..], e), f, s, b, keys);
      assert Ends(Put(m, e), [m[0]] + f, s, b, keys);
    }
  }

  lemma {:induction false} KeysFit(m: seq<Slot>, keys: set<Link>)
    requires DistinctKeys(m) && Within(m, keys)
    ensures |m| <= |keys|
  {
    if m != [] {
      var n := |m| - 1;
      assert m[n] in m;
      forall x | x in m[..n] ensures x.key in keys - {m[n].key} {
        var i: nat :| i < n && m[i] == x;
        assert x in m;
      }
      KeysFit(m[..n], keys - {m[n].key});
    }
  }

  /** Only keys from the set can be behind it, and there is room for them all. */
  lemma {:induction false} TrimKeepsAfter(m: seq<Slot>, max: nat, s: Slot, keys: set<Link>)
    requires DistinctKeys(m) && After(m, s, keys) && |keys| < max
    ensures After(Trim(m, max), s, keys)
  {
    if |m| > max {
      var front: seq<Slot>, back: seq<Slot> :| Ends(m, front, s, back, keys);
      forall i: nat, j: nat | i < j < |back| ensures back[i].key != back[j].key {
        assert back[i] == m[|front| + 1 + i] && back[j] == m[|front| + 1 + j];
      }
      KeysFit(back, keys);
      assert Ends(m[1..], front[1..], s, back, keys);
      TrimKeepsAfter(m[1..], max, s, keys);
    }
  }

  lemma GetKeepsRecent(m: seq<Slot>, c: Settings, key: Link, now: int, s: Slot, keys: set<Link>)
    requires After(m, s, keys) && key != s.key && key in keys
    ensures After(Lookup(m, c, key, now).0, s, keys)
  {
    RemoveKeepsAfter(m, key, s, keys);
    var e := Find(m, key);
    if e.Some? { AppendKeepsAfter(Remove(m, key), e.value, s, keys); }
  }

  lemma StoreKeepsRecent(m: seq<Slot>, e: Slot, max: nat, s: Slot, keys: set<Link>)
    requires DistinctKeys(m) && After(m, s, keys) && e.key != s.key && e.key in keys && |keys| < max
    ensures After(Store(m, e, max), s, keys)
  {
    PutFacts(m, e);
    PutKeepsAfter(m, e, s, keys);
    TrimKeepsAfter(Put(m, e), max, s, keys);
  }

  lemma StepKeepsRecent(m: seq<Slot>, c: Settings, op: Op, s: Slot, keys: set<Link>)
    requires DistinctKeys(m) && After(m, s, keys)
    requires KeyOf(op) != s.key && KeyOf(op) in keys && |keys| < c.max
    ensures After(Step(m, c, op), s, keys)
  {
    match op
    case Get(key, now) => GetKeepsRecent(m, c, key, now, s, keys);
    case Set(key, value, now) => StoreKeepsRecent(m, Slot(key, value, now + c.ttl), c.max, s, keys);
    case Delete(key) => RemoveKeepsAfter(m, key, s, keys);
  }

  lemma MoreKeys(m: seq<Slot>, s: Slot, keys: set<Link>, more: set<Link>)
    requires After(m, s, keys) && keys <= more
    ensures After(m, s, more)
  {
    var front: seq<Slot>, back: seq<Slot> :| Ends(m, front, s, back, keys);
    assert Ends(m, front, s, back, more);
  }

  lemma {:induction false} SubsetSize(a: set<Link>, b: set<Link>)
    requires a <= b
    ensures |a| <= |b|
  {
    if a != {} {
      var x :| x in a;
      SubsetSize(a - {x}, b - {x});
    }
  }

  /**
   * An entry that was just read stays, with its value, as long as fewer other keys than the cache
   * holds are used.
   */
  lemma {:induction false} RecentStays(m: seq<Slot>, c: Settings, s: Slot, ops: seq<Op>)
    requires DistinctKeys(m) && |m| <= c.max && m != [] && m[|m| - 1] == s
    requires s.key !in Keys(ops) && |Keys(ops)| < c.max
    ensures var r := RunFrom(m, c, ops);
            DistinctKeys(r) && |r| <= c.max && s in r && After(r, s, Keys(ops))
  {
    if ops == [] {
      assert Ends(m, m[..|m| - 1], s, [], {});
    } else {
      var before, op := ops[..|ops| - 1], ops[|ops| - 1];
      assert ops == before + [op];
      SubsetSize(Keys(before), Keys(ops));
      RecentStays(m, c, s, before);
      MoreKeys(RunFrom(m, c, before), s, Keys(before), Keys(ops));
      StepFacts(RunFrom(m, c, before), c, op, RunFrom(m, c, ops));
      StepKeepsRecent(RunFrom(m, c, before), c, op, s, Keys(ops));
    }
  }

  // ----- how recent storing makes an entry -------------------------------------------------

  lemma {:induction false} PutInPlace(m: seq<Slot>, s: Slot, i: nat)
    requires DistinctKeys(m) && i < |m| && m[i].key == s.key
    ensures Put(m, s) == m[i := s]
  {
    if i > 0 {
      assert m[0].key != m[i].key;
      PutInPlace(m[1..], s, i - 1);
      assert m == [m[0]] + m[1..];
    }
  }

  lemma {:induction false} PutAtEnd(m: seq<Slot>, s: Slot)
    requires forall x <- m :: x.key != s.key
    ensures Put(m, s) == m + [s]
  {
    if m != [] {
      assert m[0] in m && forall x <- m[1..] :: x in m;
      PutAtEnd(m[1..], s);
      assert m == [m[0]] + m[1..];
    }
  }

  lemma {:induction false} TrimIsBack(m: seq<Slot>, max: nat)
    ensures Trim(m, max) == if |m| > max then m[|m| - max..] else m
  {
    if |m| > max {
      TrimIsBack(m[1..], max);
    }
  }

  /** Where a key stands: among the slots, or after them if it is not there. */
  function Position(m: seq<Slot>, key: Link): (i: nat)
    ensures i <= |m| && (i < |m| ==> m[i].key == key)
    ensures i == |m| ==> forall s <- m :: s.key != key
  {
    if m == [] then 0 else if m[0].key == key then 0 else 1 + Position(m[1..], key)
  }

  /** Where a stored entry stands: where its key stood, or at the end. */
  lemma StorePosition(m: seq<Slot>, s: Slot, max: nat)
    requires DistinctKeys(m) && |m| <= max && max > 0
    ensures var i, r := Position(m, s.key), Store(m, s, max);
      && DistinctKeys(r) && |r| == (if i < |m| then |m| else if |m| < max then |m| + 1 else max)
      && var at := if i < |m| then i else |r| - 1;
         at < |r| && r[at] == s
  {
    var i := Position(m, s.key);
    StoreFacts(m, s, max);
    if i < |m| {
      PutInPlace(m, s, i);
    } else {
      PutAtEnd(m, s);
    }
    TrimIsBack(Put(m, s), max);
  }

  /** Storing makes an entry the most recent exactly when its key was not there, or was the most recent already. */
  lemma StoredIsRecentExactly(m: seq<Slot>, s: Slot, max: nat)
    requires DistinctKeys(m) && |m| <= max && max > 0
    ensures var r := Store(m, s, max);
      r != [] && (r[|r| - 1] == s <==> Position(m, s.key) == |m| || Position(m, s.key) == |m| - 1)
  {
    StorePosition(m, s, max);
  }

  function SlotOf(c: Settings, op: Op): Slot
    requires op.Set?
  {
    Slot(op.key, op.value, op.now + c.ttl)
  }

  function SlotsOf(c: Settings, ops: seq<Op>): (r: seq<Slot>)
    requires forall op <- ops :: op.Set?
    ensures |r| == |ops| && forall i: nat | i < |ops| :: r[i] == SlotOf(c, ops[i])
  {
    seq(|ops|, i requires 0 <= i < |ops| => SlotOf(c, ops[i]))
  }

  /** Entries stored under keys of their own, none of them in the cache. */
  ghost predicate AllNew(m: seq<Slot>, c: Settings, ops: seq<Op>) {
    (forall op <- ops :: op.Set?) && DistinctKeys(m + SlotsOf(c, ops))
  }

  lemma DistinctFront(m: seq<Slot>, e: Slot)
    requires DistinctKeys(m + [e])
    ensures DistinctKeys(m) && forall x <- m :: x.key != e.key
  {
    var all := m + [e];
    assert forall i: nat | i < |m| :: all[i] == m[i] && all[i].key != all[|m|].key;
  }

  lemma TrimAppend(m: seq<Slot>, e: Slot, max: nat)
    ensures Trim(Trim(m, max) + [e], max) == Trim(m + [e], max)
  {
    TrimIsBack(m, max);
    TrimIsBack(Trim(m, max) + [e], max);
    TrimIsBack(m + [e], max);
  }

  lemma {:induction false} NewOnesFollow(m: seq<Slot>, c: Settings, ops: seq<Op>)
    requires c.ttl > 0 && |m| <= c.max && AllNew(m, c, ops)
    ensures RunFrom(m, c, ops) == Trim(m + SlotsOf(c, ops), c.max)
  {
    if ops == [] {
      assert m + SlotsOf(c, ops) == m;
    } else {
      var n := |ops| - 1;
      var before, e := m + SlotsOf(c, ops[..n]), SlotOf(c, ops[n]);
      assert forall op <- ops[..n] :: op in ops;
      assert m + SlotsOf(c, ops) == before + [e];
      DistinctFront(before, e);
      NewOnesFollow(m, c, ops[..n]);
      TrimFacts(before, c.max);
      PutAtEnd(Trim(before, c.max), e);
      TrimAppend(before, e, c.max);
    }
  }

  lemma TrimKeepsExactly(m: seq<Slot>, max: nat, i: nat)
    requires DistinctKeys(m) && i < |m|
    ensures m[i] in Trim(m, max) <==> |m| <= max + i
  {
    TrimIsBack(m, max);
    var r := Trim(m, max);
    if |m| > max {
      if i >= |m| - max { assert r[i - (|m| - max)] == m[i]; }
    }
  }

  lemma {:induction false} RunsJoin(c: Settings, m: seq<Slot>, a: seq<Op>, b: seq<Op>)
    ensures RunFrom(m, c, a + b) == RunFrom(RunFrom(m, c, a), c, b)
  {
    if b == [] {
      assert a + b == a;
    } else {
      var n := |b| - 1;
      RunsJoin(c, m, a, b[..n]);
      assert (a + b)[..|a + b| - 1] == a + b[..n];
    }
  }

  /**
   * In every run and for every maximum: after n entries under new keys an entry just stored is still
   * there exactly when n is at most the room left and the slots that stood before it. So one stored under a new key
   * outlasts max - 1 others, and one stored again only as many as its old place allows.
   */
  lemma StoredStaysExactly(c: Settings, ops: seq<Op>, stored: Op, later: seq<Op>)
    requires c.ttl > 0 && c.max > 0 && stored.Set? && AllNew(Run(c, ops + [stored]), c, later)
    ensures var m := Run(c, ops);
      var i := Position(m, stored.key);
      SlotOf(c, stored) in Run(c, ops + [stored] + later)
      <==> |later| <= if i < |m| then c.max - |m| + i else c.max - 1
  {
    var m, r, s := Run(c, ops), Run(c, ops + [stored]), SlotOf(c, stored);
    assert (ops + [stored])[..|ops|] == ops;
    assert r == Store(m, s, c.max);
    Bounded(c, ops);
    Bounded(c, ops + [stored]);
    StorePosition(m, s, c.max);
    RunsJoin(c, [], ops + [stored], later);
    NewOnesFollow(r, c, later);
    var at := if Position(m, s.key) < |m| then Position(m, s.key) else |r| - 1;
    var all := r + SlotsOf(c, later);
    assert all[at] == s;
    TrimKeepsExactly(all, c.max, at);
  }

  /** The case of two: the entry just stored again is the next to go. */
  lemma StoredAgainGoesFirst(c: Settings, a: Slot, b: Slot, w: Value, other: Slot)
    requires c.ttl > 0 && c.max == 2 && a.key != b.key && other.key != a.key && other.key != b.key
    ensures Store(Store([a, b], a.(value := w), c.max), other, c.max) == [b, other]
  {
    PutInPlace([a, b], a.(value := w), 0);
    var m := [a.(value := w), b];
    assert Store([a, b], a.(value := w), c.max) == m;
    PutAtEnd(m, other);
    TrimIsBack(m + [other], 2);
  }

  // ----- the source's own form -------------------------------------------------------------

  lemma RemoveOldest(m: seq<Slot>)
    requires DistinctKeys(m) && m != []
    ensures Remove(m, m[0].key) == m[1..]
  {
    var p := Other(m[0].key);
    Split3(m, 1, p);
    KeepAll(m[1..], p);
    assert m[..1] == [m[0]];
    KeepAppend([], m[0], p);
    assert [] + [m[0]] == [m[0]];
  }

  class Cache {
    const settings: Settings
    var slots: seq<Slot>

    constructor (settings: Settings)
      ensures this.settings == settings && slots == []
    {
      this.settings, slots := settings, [];
    }

    method GetEntry(key: Link, now: int) returns (r: Option<Value>)
      modifies this
      ensures (slots, r) == Lookup(old(slots), settings, key, now)
    {
      if settings.ttl <= 0 {
        return None;
      }
      var entry := Find(slots, key);
      if entry.None? {
        return None;
      }
      if entry.value.expiresAt <= now {
        slots := Remove(slots, key);
        return None;
      }
      slots := Remove(slots, key);
      slots := slots + [entry.value];
      return Some(entry.value.value);
    }

    /** The loop that makes room. */
    method DropOldest()
      requires DistinctKeys(slots)
      modifies this
      ensures slots == Trim(old(slots), settings.max)
    {
      while |slots| > settings.max
        invariant DistinctKeys(slots)
        invariant Trim(slots, settings.max) == Trim(old(slots), settings.max)
      {
        RemoveOldest(slots);
        slots := Remove(slots, slots[0].key);
      }
    }

    method SetEntry(key: Link, value: Value, now: int)
      requires DistinctKeys(slots)
      modifies this
      ensures slots == Step(old(slots), settings, Set(key, value, now))
    {
      if settings.ttl <= 0 {
        return;
      }
      PutFacts(slots, Slot(key, value, now + settings.ttl));
      slots := Put(slots, Slot(key, value, now + settings.ttl));
      DropOldest();
    }
  }
}
