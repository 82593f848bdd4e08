/**
 * The seeking reader over an S3 object. The content store answers each GetObject with an error or with
 * a body that may end anywhere; the reader reopens and must still behave as a cursor in one string.
 */
module RangeReader {
  import opened Arithmetic
  import opened Strings

  type Byte = b: int | 0 <= b < 256

  datatype Err = Nil | Eof | Failed

  datatype Whence = SeekStart | SeekCurrent | SeekEnd | BadWhence

  /** What the reader keeps: the offset, and what is still to come from the open body. */
  datatype Cursor = Cursor(pos: nat, body: Option<seq<Byte>>)

  /**
   * The environment's choices during one Read: how many bytes each GetObject's body will carry
   * (None for an error), how many bytes the body's Read hands over, and with which error.
   */
  datatype Env = Env(open: Option<nat>, take: nat, err: Err, reopen: Option<nat>)

  function MinNat(a: nat, b: nat): nat { if a <= b then a else b }

  /** GetObject for bytes start..start+length-1: all of them, or a body cut short. */
  function OpenRange(content: seq<Byte>, start: nat, length: nat, carried: Option<nat>): (body: Option<seq<Byte>>)
    requires start + length <= |content|
    ensures body.Some? <==> carried.Some?
    ensures body.Some? ==> |body.value| <= length && body.value == content[start..start + |body.value|]
  {
    match carried
    case None => None
    case Some(k) => Some(content[start..start + MinNat(k, length)])
  }

  /** io.Reader on the body: at most what was asked for and what is left; EOF only at its end. */
  function BodyRead(rest: seq<Byte>, length: nat, env: Env): (r: (nat, Err))
    ensures r.0 <= length && r.0 <= |rest|
    ensures r.1.Eof? ==> r.0 == |rest|
  {
    var n := MinNat(env.take, MinNat(length, |rest|));
    (n, if env.err.Eof? && n < |rest| then Nil else env.err)
  }

  // ----- the steps as functions -----------------------------------------------------------

  /** The open body always holds the bytes that come next. */
  ghost predicate Good(content: seq<Byte>, c: Cursor) {
    && c.pos <= |content| <= MAX_INT64
    && (c.body.Some? ==> c.body.value <= content[c.pos..])
  }

  function ReadStep(content: seq<Byte>, c: Cursor, length: nat, env: Env): (Cursor, seq<Byte>, Err)
    requires Good(content, c)
  {
    if c.pos >= |content| then (c, [], Eof)
    else
      var body := if c.body.Some? then c.body else OpenRange(content, c.pos, |content| - c.pos, env.open);
      match body
      case None => (c, [], Failed)
      case Some(rest) =>
        var (n, err) := BodyRead(rest, length, env);
        var pos := c.pos + n;
        if err.Eof? && pos < |content| then
          var again := OpenRange(content, pos, |content| - pos, env.reopen);
          (Cursor(pos, again), rest[..n], if again.None? then Failed else Nil)
        else (Cursor(pos, Some(rest[n..])), rest[..n], err)
  }

  function SeekStep(size: nat, c: Cursor, offset: int, whence: Whence): (Cursor, Option<nat>) {
    if whence.BadWhence? then (c, None)
    else
      var abs := match whence
        case SeekStart => offset
        case SeekCurrent => Wrap64(c.pos + offset)
        case _ => Wrap64(size + offset);
      if abs < 0 then (c, None)
      else
        var pos := if abs > size then size else abs;
        (Cursor(pos, None), Some(pos))
  }

  // ----- one operation --------------------------------------------------------------------

  lemma PrefixSplits(content: seq<Byte>, pos: nat, rest: seq<Byte>, n: nat)
    requires pos <= |content| && rest <= content[pos..] && n <= |rest|
    ensures rest[..n] == content[pos..pos + n] && rest[n..] <= content[pos + n..]
  {
    assert content[pos..][n..] == content[pos + n..];
  }

  lemma OpenedIsNext(content: seq<Byte>, pos: nat, carried: Option<nat>)
    requires pos <= |content|
    ensures var body := OpenRange(content, pos, |content| - pos, carried);
      body.Some? ==> body.value <= content[pos..]
  {}

  /** A Read returns the bytes at the cursor and moves past them; it says EOF only at the end. */
  lemma ReadIsCursor(content: seq<Byte>, c: Cursor, length: nat, env: Env)
    requires Good(content, c)
    ensures var (c', data, err) := ReadStep(content, c, length, env);
      && Good(content, c')
      && |data| <= length && c'.pos == c.pos + |data|
      && data == content[c.pos..c.pos + |data|]
      && (err.Eof? ==> c'.pos == |content|)
      && (c.pos == |content| ==> data == [] && err.Eof?)
  {
    var (c', data, err) := ReadStep(content, c, length, env);
    if c.pos < |content| && (c.body.Some? || env.open.Some?) {
      var rest := if c.body.Some? then c.body.value else OpenRange(content, c.pos, |content| - c.pos, env.open).value;
      var n := BodyRead(rest, length, env).0;
      OpenedIsNext(content, c.pos, env.open);
      PrefixSplits(content, c.pos, rest, n);
      OpenedIsNext(content, c.pos + n, env.reopen);
    }
  }

  /**
   * What a Read before the end returns, and with which error. Without a body it opens one, and fails when that
   * fails. It hands over what the body does. The body's own error is passed on, except an EOF before the end of the
   * object: that is none if another body can be opened, and a failure if not.
   */
  lemma ReadOutcomeExactly(content: seq<Byte>, c: Cursor, length: nat, env: Env)
    requires Good(content, c) && c.pos < |content|
    ensures var (c', data, err) := ReadStep(content, c, length, env);
      if c.body.None? && env.open.None? then c' == c && data == [] && err.Failed?
      else
        var rest := if c.body.Some? then |c.body.value| else MinNat(env.open.value, |content| - c.pos);
        var spent, ended := env.err.Eof? && |data| == rest, c.pos + |data| == |content|;
        && |data| == MinNat(env.take, MinNat(length, rest))
        && (err.Failed? <==> env.err.Failed? || (spent && !ended && env.reopen.None?))
        && (err.Eof? <==> spent && ended)
  {}

  /** Where io.Seeker says a Seek should go, in unbounded arithmetic. */
  function Target(size: nat, pos: nat, offset: int, whence: Whence): Option<int> {
    match whence
    case SeekStart => Some(offset)
    case SeekCurrent => Some(pos + offset)
    case SeekEnd => Some(size + offset)
    case BadWhence => None
  }

  /**
   * Seek succeeds exactly when the exact sum of base and offset is representable and not negative;
   * it then stops at the end of the object at the latest. A failed Seek changes nothing at all.
   */
  lemma SeekIsExact(content: seq<Byte>, c: Cursor, offset: int, whence: Whence)
    requires Good(content, c) && MIN_INT64 <= offset <= MAX_INT64
    ensures var (c', r) := SeekStep(|content|, c, offset, whence);
      var target := Target(|content|, c.pos, offset, whence);
      && Good(content, c')
      && (r.Some? <==> target.Some? && 0 <= target.value <= MAX_INT64)
      && (r.Some? ==> c'.pos == r.value == MinNat(target.value, |content|))
      && (r.None? ==> c' == c)
  {
    assert whence.SeekCurrent? && c.pos + offset > MAX_INT64 ==> Wrap64(c.pos + offset) < 0;
    assert whence.SeekEnd? && |content| + offset > MAX_INT64 ==> Wrap64(|content| + offset) < 0;
  }

  // ----- every history --------------------------------------------------------------------

  datatype Op = Read(length: nat, env: Env) | Seek(offset: int, whence: Whence) | Close

  datatype Out = Bytes(data: seq<Byte>, err: Err) | Sought(pos: Option<nat>) | Closed

  function Apply(content: seq<Byte>, c: Cursor, op: Op): (Cursor, Out)
    requires Good(content, c)
  {
    match op
    case Read(length, env) => var (c', data, err) := ReadStep(content, c, length, env); (c', Bytes(data, err))
    case Seek(offset, whence) => var (c', r) := SeekStep(|content|, c, offset, whence); (c', Sought(r))
    case Close => (c.(body := None), Closed)
  }

  /** The specification: a position in a string held in memory. */
  ghost predicate CursorStep(content: seq<Byte>, pos: nat, op: Op, out: Out, pos': nat) {
    && pos <= |content| && pos' <= |content|
    && match (op, out)
       case (Read(length, _), Bytes(data, err)) =>
         && |data| <= length && pos' == pos + |data| && data == content[pos..pos']
         && (err.Eof? ==> pos' == |content|)
         && (pos == |content| ==> data == [] && err.Eof?)
       case (Seek(offset, whence), Sought(r)) =>
         var target := Target(|content|, pos, offset, whence);
         if target.Some? && 0 <= target.value <= MAX_INT64
         then pos' == MinNat(target.value, |content|) && r == Some(pos')
         else pos' == pos && r == None
       case (Close, Closed) => pos' == pos
       case _ => false
  }

  /** After a Close, and after a Seek that succeeds, no body is open. */
  lemma BodyIsDropped(content: seq<Byte>, c: Cursor, op: Op)
    requires Good(content, c) && !op.Read?
    ensures var (c', out) := Apply(content, c, op);
            c'.body == if op.Close? || out.pos.Some? then None else c.body
  {}

  ghost predicate InRange(op: Op) { op.Seek? ==> MIN_INT64 <= op.offset <= MAX_INT64 }

  /** The outputs of a history are those of the plain cursor, step for step. */
  ghost predicate Refines(content: seq<Byte>, c: Cursor, ops: seq<Op>)
    requires Good(content, c)
    decreases |ops|
  {
    ops == [] ||
    var (c', out) := Apply(content, c, ops[0]);
    Good(content, c') && CursorStep(content, c.pos, ops[0], out, c'.pos) && Refines(content, c', ops[1..])
  }

  lemma {:induction false} EveryHistoryRefines(content: seq<Byte>, c: Cursor, ops: seq<Op>)
    requires Good(content, c) && forall op <- ops :: InRange(op)
    ensures Refines(content, c, ops)
    decreases |ops|
  {
    if ops != [] {
      assert InRange(ops[0]);
      match ops[0] {
        case Read(length, env) => ReadIsCursor(content, c, length, env);
        case Seek(offset, whence) => SeekIsExact(content, c, offset, whence);
        case Close =>
      }
      EveryHistoryRefines(content, Apply(content, c, ops[0]).0, ops[1..]);
    }
  }

  lemma ReadKeepsGood(content: seq<Byte>, c: Cursor, op: Op)
    requires Good(content, c) && !op.Seek?
    ensures Good(content, Apply(content, c, op).0)
  {
    if op.Read? { ReadIsCursor(content, c, op.length, op.env); }
  }

  function DataOf(out: Out): seq<Byte> { if out.Bytes? then out.data else [] }

  /** Reading on (with Closes in between) copies the object: the chunks joined are one slice of it. */
  function Copied(content: seq<Byte>, c: Cursor, ops: seq<Op>): (Cursor, seq<Byte>)
    requires Good(content, c)
    decreases |ops|
  {
    if ops == [] || ops[0].Seek? then (c, [])
    else
      ReadKeepsGood(content, c, ops[0]);
      var (c1, out) := Apply(content, c, ops[0]);
      var (c', rest) := Copied(content, c1, ops[1..]);
      (c', DataOf(out) + rest)
  }

  lemma SlicesJoin(content: seq<Byte>, a: nat, b: nat, c: nat)
    requires a <= b <= c <= |content|
    ensures content[a..b] + content[b..c] == content[a..c]
  {}

  lemma OneCopies(content: seq<Byte>, c: Cursor, op: Op)
    requires Good(content, c) && !op.Seek?
    ensures var (c1, out) := Apply(content, c, op);
      Good(content, c1) && c.pos <= c1.pos && DataOf(out) == content[c.pos..c1.pos]
  {
    if op.Read? { ReadIsCursor(content, c, op.length, op.env); }
  }

  lemma {:induction false} ReadsCopyTheObject(content: seq<Byte>, c: Cursor, ops: seq<Op>)
    requires Good(content, c)
    ensures var (c', data) := Copied(content, c, ops);
      c.pos <= c'.pos <= |content| && data == content[c.pos..c'.pos]
    decreases |ops|
  {
    if ops != [] && !ops[0].Seek? {
      var c1 := Apply(content, c, ops[0]).0;
      OneCopies(content, c, ops[0]);
      ReadsCopyTheObject(content, c1, ops[1..]);
      SlicesJoin(content, c.pos, c1.pos, Copied(content, c1, ops[1..]).0.pos);
    }
  }

  // ----- progress -------------------------------------------------------------------------

  /**
   * Nothing fails: every GetObject carries a byte at least, and the body hands one over if it has one and says
   * EOF when it has none.
   */
  predicate Willing(env: Env) {
    && env.take >= 1 && env.err.Eof?
    && env.open.Some? && env.open.value >= 1 && env.reopen.Some? && env.reopen.value >= 1
  }

  predicate Asks(op: Op) { op.Read? && op.length >= 1 && Willing(op.env) }

  /** How many such Reads it takes to the end at most: a byte or a reopening each. */
  function Distance(size: nat, c: Cursor): int {
    2 * (size - c.pos) + (if c.body == Some([]) then 1 else 0)
  }

  /** A Read before the end returns a byte at least, unless the body it has is spent: then it has another. */
  lemma ReadMakesProgress(content: seq<Byte>, c: Cursor, length: nat, env: Env)
    requires Good(content, c) && length >= 1 && Willing(env) && c.pos < |content|
    ensures var (c', data, err) := ReadStep(content, c, length, env);
      && !err.Failed?
      && (c.body != Some([]) ==> |data| >= 1)
      && (c.body == Some([]) ==> data == [] && err.Nil? && c'.body.Some? && c'.body.value != [])
      && Distance(|content|, c') < Distance(|content|, c)
  {
    ReadIsCursor(content, c, length, env);
  }

  /** So enough of them, with Closes in none of them, read the rest of the object and come to its end. */
  lemma {:induction false} WillingReadsReachTheEnd(content: seq<Byte>, c: Cursor, ops: seq<Op>)
    requires Good(content, c) && (forall op <- ops :: Asks(op)) && |ops| >= Distance(|content|, c)
    ensures var (c', data) := Copied(content, c, ops); c'.pos == |content| && data == content[c.pos..]
    decreases |ops|
  {
    ReadsCopyTheObject(content, c, ops);
    if ops != [] {
      assert Asks(ops[0]);
      ReadKeepsGood(content, c, ops[0]);
      var c1 := Apply(content, c, ops[0]).0;
      if c.pos < |content| {
        ReadMakesProgress(content, c, ops[0].length, ops[0].env);
        WillingReadsReachTheEnd(content, c1, ops[1..]);
      } else {
        ReadsCopyTheObject(content, c1, ops[1..]);
      }
    }
  }

  lemma ReadStaysGood(content: seq<Byte>, c: Cursor, length: nat, env: Env)
    requires Good(content, c)
    ensures Good(content, ReadStep(content, c, length, env).0)
  {
    ReadIsCursor(content, c, length, env);
  }

  // ----- the reader object ----------------------------------------------------------------

  class Reader {
    const content: seq<Byte>   // what the store holds under the key; Head told its size
    var pos: nat
    var rc: Option<seq<Byte>>

    function State(): Cursor
      reads this
    {
      Cursor(pos, rc)
    }

    ghost predicate Valid()
      reads this
    {
      Good(content, State())
    }

    constructor (content: seq<Byte>)
      requires |content| <= MAX_INT64
      ensures Valid() && this.content == content && State() == Cursor(0, None)
    {
      this.content := content;
      pos, rc := 0, None;
    }

    method Read(length: nat, env: Env) returns (data: seq<Byte>, err: Err)
      requires Valid()
      modifies this
      ensures Valid() && (State(), data, err) == ReadStep(content, old(State()), length, env)
    {
      ReadStaysGood(content, State(), length, env);
      if pos >= |content| {
        return [], Eof;
      }
      if rc.None? {
        rc := OpenRange(content, pos, |content| - pos, env.open);
        if rc.None? {
          return [], Failed;
        }
      }
      var body := rc.value;
      var (n, e) := BodyRead(body, length, env);
      data, err := body[..n], e;
      rc := Some(body[n..]);
      pos := pos + n;
      if err.Eof? && pos < |content| {
        rc := OpenRange(content, pos, |content| - pos, env.reopen);
        err := if rc.None? then Failed else Nil;
      }
    }

    method Seek(offset: int, whence: Whence) returns (r: Option<nat>)
      requires Valid() && MIN_INT64 <= offset <= MAX_INT64
      modifies this
      ensures Valid() && (State(), r) == SeekStep(|content|, old(State()), offset, whence)
      ensures r.None? ==> State() == old(State())
    {
      SeekIsExact(content, State(), offset, whence);
      var abs := offset;
      match whence {
        case SeekStart =>
        case SeekCurrent => abs := Wrap64(pos + offset);
        case SeekEnd => abs := Wrap64(|content| + offset);
        case BadWhence => return None;
      }
      if abs < 0 {
        return None;
      }
      if abs > |content| {
        abs := |content|;
      }
      rc := None;
      pos := abs;
      return Some(pos);
    }

    method Close()
      requires Valid()
      modifies this
      ensures Valid() && State() == old(State()).(body := None)
    {
      rc := None;
    }
  }
}
