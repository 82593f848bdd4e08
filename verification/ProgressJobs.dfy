/**
 * Single flight in the addon: any number of requests call ensureTorrentStarted on one job. Between
 * two awaits a call runs undisturbed, so each Action below is one such stretch; a run is any sequence
 * of enabled actions. A torrent id is a string, and the empty one is falsy, as in JavaScript.
 */
module ProgressJobs {
  import opened Strings

  type StartId = nat
  type Caller = nat

  /** One startDownload call and the promise chain built on it. */
  datatype Start =
    | Outstanding
    | Fulfilled(id: string)   // startDownload has settled; the then-callback is still to run
    | Rejected                // it has settled; the catch-callback is still to run
    | Preparing(id: string)   // the then-callback stored the id and awaits prepareTorrent
    | Succeeded(id: string)
    | Failed

  datatype Pc = Idle | Awaiting(start: StartId) | Returned(id: string) | Threw

  datatype State = State(
    hasSource: bool,               // a magnet or a download link is set
    torrentId: string,
    starting: Option<StartId>,
    starts: seq<Start>,
    callers: map<Caller, Pc>)

  datatype Action =
    | Call(c: Caller)
    | Fulfil(k: StartId, id: string)
    | Reject(k: StartId)
    | Then(k: StartId)
    | Catch(k: StartId)
    | Prepared(k: StartId)
    | Resume(c: Caller)

  function Init(hasSource: bool, torrentId: string): State {
    State(hasSource, torrentId, None, [], map[])
  }

  function PcOf(s: State, c: Caller): Pc { if c in s.callers then s.callers[c] else Idle }

  function Goto(s: State, c: Caller, pc: Pc): State { s.(callers := s.callers[c := pc]) }

  function DoCall(s: State, c: Caller): State {
    if s.torrentId != "" then Goto(s, c, Returned(s.torrentId))
    else if !s.hasSource then Goto(s, c, Threw)
    else match s.starting
         case Some(k) => Goto(s, c, Awaiting(k))
         case None => Goto(s, c, Awaiting(|s.starts|)).(starting := Some(|s.starts|),
             starts := s.starts + [Outstanding])
  }

  function SetStart(s: State, k: StartId, start: Start): State
    requires k < |s.starts|
  {
    s.(starts := s.starts[k := start])
  }

  function Step(s: State, a: Action): Option<State> {
    match a
    case Call(c) => if PcOf(s, c).Awaiting? then None else Some(DoCall(s, c))
    case Resume(c) =>
      var pc := PcOf(s, c);
      if !pc.Awaiting? || pc.start >= |s.starts| then None
      else if s.starts[pc.start].Succeeded? then Some(Goto(s, c, Returned(s.torrentId)))
      else if s.starts[pc.start].Failed? then Some(Goto(s, c, Threw))
      else None
    case Fulfil(k, id) => if k < |s.starts| && s.starts[k].Outstanding? then Some(SetStart(s, k, Fulfilled(id)))
        else None
    case Reject(k) => if k < |s.starts| && s.starts[k].Outstanding? then Some(SetStart(s, k, Rejected)) else None
    case Then(k) =>
      if k < |s.starts| && s.starts[k].Fulfilled? then
        Some(SetStart(s, k, Preparing(s.starts[k].id)).(torrentId := s.starts[k].id, starting := None))
      else None
    case Catch(k) =>
      if k < |s.starts| && s.starts[k].Rejected? then Some(SetStart(s, k, Failed).(starting := None)) else None
    case Prepared(k) =>
      if k < |s.starts| && s.starts[k].Preparing? then Some(SetStart(s, k, Succeeded(s.starts[k].id))) else None
  }

  function Run(s: State, actions: seq<Action>): Option<State>
    decreases |actions|
  {
    if actions == [] then Some(s)
    else match Step(s, actions[0])
         case None => None
         case Some(s1) => Run(s1, actions[1..])
  }

  // ----- the invariant --------------------------------------------------------------------

  /** The start whose callbacks have not both had their say yet. */
  predicate Open(start: Start) { start.Outstanding? || start.Fulfilled? || start.Rejected? }

  predicate Stored(start: Start) { start.Preparing? || start.Succeeded? }

  /** A start after which another one may begin. */
  predicate Over(start: Start) { start.Failed? || (Stored(start) && start.id == "") }

  /** `first` is the id the job was created with, or "". */
  ghost predicate Inv(s: State, first: string) {
    && (forall k: StartId | k < |s.starts| :: Open(s.starts[k]) <==> s.starting == Some(k))
    && (s.starting.Some? ==> s.starting.value < |s.starts| && s.torrentId == "")
    && (first != "" ==> s.starts == [] && s.torrentId == first)
    && (s.starts != [] ==> s.hasSource)
    && (forall i: StartId | i + 1 < |s.starts| :: Over(s.starts[i]))
    && (first == "" && s.torrentId != "" ==>
          s.starts != [] && Stored(s.starts[|s.starts| - 1]) && s.starts[|s.starts| - 1].id == s.torrentId)
    && (forall k: StartId | k < |s.starts| && Stored(s.starts[k]) && s.starts[k].id != "" ::
         s.torrentId == s.starts[k].id)
    && (forall c <- s.callers :: s.callers[c].Awaiting? ==> s.callers[c].start < |s.starts|)
    && (forall c <- s.callers :: s.callers[c].Returned? && s.callers[c].id != "" ==> s.callers[c].id == s.torrentId)
  }

  lemma CallInv(s: State, first: string, c: Caller)
    requires Inv(s, first)
    ensures var s' := DoCall(s, c); Inv(s', first) && (s.torrentId != "" ==> s'.torrentId == s.torrentId)
  {
    if |s.starts| > 0 && s.starting.None? && s.torrentId == "" {
      assert !Open(s.starts[|s.starts| - 1]);
    }
  }

  /** Only the last start can move. */
  lemma MovingIsLast(s: State, first: string, k: StartId)
    requires Inv(s, first) && k < |s.starts| && !Over(s.starts[k])
    ensures k == |s.starts| - 1
  {}

  lemma StartInv(s: State, first: string, a: Action)
    requires Inv(s, first) && Step(s, a).Some? && !a.Call? && !a.Resume?
    ensures var s' := Step(s, a).value; Inv(s', first) && (s.torrentId != "" ==> s'.torrentId == s.torrentId)
  {
    if a.Fulfil? || a.Reject? || a.Then? || a.Catch? {
      assert Open(s.starts[a.k]) && s.starting == Some(a.k);
      MovingIsLast(s, first, a.k);
    }
  }

  lemma StepInv(s: State, first: string, a: Action)
    requires Inv(s, first) && Step(s, a).Some?
    ensures var s' := Step(s, a).value; Inv(s', first) && (s.torrentId != "" ==> s'.torrentId == s.torrentId)
  {
    if a.Call? {
      CallInv(s, first, a.c);
    } else if !a.Resume? {
      StartInv(s, first, a);
    }
  }

  lemma {:induction false} RunInv(s: State, first: string, actions: seq<Action>)
    requires Inv(s, first) && Run(s, actions).Some?
    ensures var s' := Run(s, actions).value; Inv(s', first) && (s.torrentId != "" ==> s'.torrentId == s.torrentId)
    decreases |actions|
  {
    if actions != [] {
      StepInv(s, first, actions[0]);
      RunInv(Step(s, actions[0]).value, first, actions[1..]);
    }
  }

  ghost predicate Reachable(s: State) {
    exists hasSource, first, actions :: Run(Init(hasSource, first), actions) == Some(s)
  }

  lemma ReachableInv(s: State) returns (first: string)
    requires Reachable(s)
    ensures Inv(s, first)
  {
    var hasSource, f, actions :| Run(Init(hasSource, f), actions) == Some(s);
    first := f;
    RunInv(Init(hasSource, first), first, actions);
  }

  // ----- theorems over every run ----------------------------------------------------------

  /** At most one startDownload is outstanding, and it is the one every new caller will await. */
  lemma SingleFlight(s: State, i: StartId, j: StartId)
    requires Reachable(s) && i < |s.starts| && j < |s.starts| && Open(s.starts[i]) && Open(s.starts[j])
    ensures i == j && s.starting == Some(i)
  {
    var first := ReachableInv(s);
  }

  /** A second start follows a success only when that success gave no (a falsy) id. */
  lemma SecondSuccessNeedsFalsyId(s: State, i: StartId, j: StartId)
    requires Reachable(s) && i < j < |s.starts| && Stored(s.starts[i])
    ensures s.starts[i].id == ""
  {
    var first := ReachableInv(s);
  }

  /** So with truthy ids at most one start ever succeeds. */
  lemma AtMostOneSuccess(s: State, i: StartId, j: StartId)
    requires Reachable(s) && i < |s.starts| && j < |s.starts| && Stored(s.starts[i]) && Stored(s.starts[j])
    requires s.starts[i].id != "" && s.starts[j].id != ""
    ensures i == j && s.torrentId == s.starts[i].id
  {
    var first := ReachableInv(s);
  }

  /** The torrent id is written once: whatever happens later, it stays. */
  lemma TorrentIdStays(s: State, actions: seq<Action>)
    requires Reachable(s) && s.torrentId != "" && Run(s, actions).Some?
    ensures Run(s, actions).value.torrentId == s.torrentId
  {
    var first := ReachableInv(s);
    RunInv(s, first, actions);
  }

  /** All callers that are given an id are given the same one. */
  lemma CallersAgree(s: State, c: Caller, d: Caller)
    requires Reachable(s) && PcOf(s, c).Returned? && PcOf(s, d).Returned?
    requires PcOf(s, c).id != "" && PcOf(s, d).id != ""
    ensures PcOf(s, c).id == PcOf(s, d).id == s.torrentId
  {
    var first := ReachableInv(s);
  }

  /**
   * A call on a job that has an id is given it at once. Without one it throws if there is no source; otherwise it
   * awaits the start there is, or begins one.
   */
  lemma CallIsAnswered(s: State, c: Caller)
    requires Reachable(s)
    ensures Step(s, Call(c)).Some? <==> !PcOf(s, c).Awaiting?
    ensures Step(s, Call(c)).Some? ==>
      var s' := Step(s, Call(c)).value;
      && (forall id: string | id != "" :: PcOf(s', c) == Returned(id) <==> s.torrentId == id)
      && (PcOf(s', c).Threw? <==> s.torrentId == "" && !s.hasSource)
      && (s.torrentId == "" && s.hasSource ==> s'.starting.Some? && PcOf(s', c) == Awaiting(s'.starting.value))
      && (|s'.starts| > |s.starts| <==> s.torrentId == "" && s.hasSource && s.starting.None?)
  {
    var first := ReachableInv(s);
  }

  /** A start that is out can be fulfilled with any id or rejected, and goes on from there. */
  lemma StartGoesOn(s: State, k: StartId, id: string)
    requires k < |s.starts|
    ensures s.starts[k].Outstanding? ==>
              && Step(s, Fulfil(k, id)) == Some(s.(starts := s.starts[k := Fulfilled(id)]))
              && Step(s, Reject(k)) == Some(s.(starts := s.starts[k := Rejected]))
    ensures s.starts[k].Fulfilled? ==>
              Step(s, Then(k)) == Some(s.(starts := s.starts[k := Preparing(s.starts[k].id)],
                                          torrentId := s.starts[k].id, starting := None))
    ensures s.starts[k].Preparing? ==>
              Step(s, Prepared(k)) == Some(s.(starts := s.starts[k := Succeeded(s.starts[k].id)]))
    ensures s.starts[k].Rejected? ==>
              Step(s, Catch(k)) == Some(s.(starts := s.starts[k := Failed], starting := None))
  {}

  /** A caller that awaits a start resumes exactly when it is over, with its id, or throws if it failed. */
  lemma AwaitingIsAnswered(s: State, c: Caller, k: StartId)
    requires Reachable(s) && PcOf(s, c) == Awaiting(k)
    ensures k < |s.starts|
    ensures Step(s, Resume(c)).Some? <==> s.starts[k].Succeeded? || s.starts[k].Failed?
    ensures s.starts[k].Failed? ==> PcOf(Step(s, Resume(c)).value, c) == Threw
    ensures s.starts[k].Succeeded? && s.starts[k].id != "" ==>
              PcOf(Step(s, Resume(c)).value, c) == Returned(s.starts[k].id)
  {
    var first := ReachableInv(s);
  }

  /**
   * A failure is cleaned up by its own start and erases no newer one: until its catch-callback runs
   * the job still names it, afterwards the job names none, and the next caller starts anew.
   */
  lemma FailureIsRestartable(s: State, k: StartId, c: Caller)
    requires Reachable(s) && k < |s.starts| && s.starts[k].Rejected?
    ensures k == |s.starts| - 1 && s.starting == Some(k)
    ensures Step(s, Catch(k)).Some?
    ensures var s' := Step(s, Catch(k)).value;
      && s'.starting == None && s'.torrentId == ""
      && (s.hasSource && !PcOf(s, c).Awaiting? ==>
            Step(s', Call(c)).Some? && Step(s', Call(c)).value.starting == Some(|s.starts|))
  {
    var first := ReachableInv(s);
    MovingIsLast(s, first, k);
  }

  // ----- when another start can succeed ---------------------------------------------------

  /** A start has stored its id that had not, or that was not there. */
  ghost predicate MoreStored(s: State, s': State) {
    exists k: StartId :: k < |s'.starts| && Stored(s'.starts[k]) && !(k < |s.starts| && Stored(s.starts[k]))
  }

  ghost predicate CanSucceedAgain(s: State) {
    exists actions :: Run(s, actions).Some? && MoreStored(s, Run(s, actions).value)
  }

  /** No start is under way and none can begin. */
  predicate Finished(s: State) {
    s.starting.None? && (s.torrentId != "" || !s.hasSource)
  }

  lemma StepWhenOver(s: State, first: string, a: Action)
    requires Inv(s, first) && Finished(s) && Step(s, a).Some?
    ensures var s' := Step(s, a).value;
      && Finished(s') && |s'.starts| == |s.starts|
      && forall k: StartId | k < |s.starts| && Stored(s'.starts[k]) :: Stored(s.starts[k])
  {
    if !a.Call? && !a.Resume? && a.k < |s.starts| { assert !Open(s.starts[a.k]); }
  }

  lemma {:induction false} RunWhenOver(s: State, first: string, actions: seq<Action>)
    requires Inv(s, first) && Finished(s) && Run(s, actions).Some?
    ensures !MoreStored(s, Run(s, actions).value)
    ensures |Run(s, actions).value.starts| == |s.starts|
    decreases |actions|
  {
    if actions != [] {
      var s1 := Step(s, actions[0]).value;
      StepWhenOver(s, first, actions[0]);
      StepInv(s, first, actions[0]);
      RunWhenOver(s1, first, actions[1..]);
    }
  }

  /** A number above all of these, so a caller that is not among them. */
  lemma {:induction false} Above(keys: set<Caller>) returns (c: Caller)
    ensures forall k <- keys :: k < c
  {
    c := 0;
    if keys != {} {
      var x :| x in keys;
      var d := Above(keys - {x});
      c := if x < d then d else x + 1;
      assert forall k <- keys :: k == x || k in keys - {x};
    }
  }

  lemma RunOne(s: State, a: Action)
    ensures Run(s, [a]) == Step(s, a)
  {
    assert [a][1..] == [];
    if Step(s, a).Some? { assert Run(Step(s, a).value, []) == Step(s, a); }
  }

  lemma RunCons(s: State, a: Action, rest: seq<Action>)
    requires Step(s, a).Some?
    ensures Run(s, [a] + rest) == Run(Step(s, a).value, rest)
  {
    assert ([a] + rest)[1..] == rest;
  }

  /** With a source, no id and no start under way a new caller's start can succeed. */
  lemma IdleCanSucceed(s: State) returns (actions: seq<Action>)
    requires s.hasSource && s.torrentId == "" && s.starting.None?
    ensures Run(s, actions).Some?
    ensures var s' := Run(s, actions).value; |s.starts| < |s'.starts| && s'.starts[|s.starts|] == Preparing("T")
  {
    var c := Above(s.callers.Keys);
    var n := |s.starts|;
    var s1 := Step(s, Call(c)).value;
    var s2 := Step(s1, Fulfil(n, "T")).value;
    RunOne(s2, Then(n));
    RunCons(s1, Fulfil(n, "T"), [Then(n)]);
    RunCons(s, Call(c), [Fulfil(n, "T")] + [Then(n)]);
    actions := [Call(c)] + ([Fulfil(n, "T")] + [Then(n)]);
  }

  /** A start under way can succeed, or fail and make room for one that does. */
  lemma OpenCanSucceed(s: State, first: string) returns (actions: seq<Action>)
    requires Inv(s, first) && s.starting.Some?
    ensures Run(s, actions).Some? && MoreStored(s, Run(s, actions).value)
  {
    var k := s.starting.value;
    assert Open(s.starts[k]);
    if s.starts[k].Rejected? {
      var s1 := Step(s, Catch(k)).value;
      var rest := IdleCanSucceed(s1);
      RunCons(s, Catch(k), rest);
      actions := [Catch(k)] + rest;
      assert Stored(Run(s, actions).value.starts[|s.starts|]);
    } else if s.starts[k].Fulfilled? {
      RunOne(s, Then(k));
      actions := [Then(k)];
      assert Stored(Run(s, actions).value.starts[k]);
    } else {
      var s1 := Step(s, Fulfil(k, "T")).value;
      RunOne(s1, Then(k));
      RunCons(s, Fulfil(k, "T"), [Then(k)]);
      actions := [Fulfil(k, "T")] + [Then(k)];
      assert Stored(Run(s, actions).value.starts[k]);
    }
  }

  /** From a reachable state a further start can succeed exactly when the job has a source and no id. */
  lemma FurtherSuccessExactly(s: State)
    requires Reachable(s)
    ensures CanSucceedAgain(s) <==> s.torrentId == "" && s.hasSource
    ensures s.starting.Some? ==> s.torrentId == "" && s.hasSource
  {
    var first := ReachableInv(s);
    if s.torrentId == "" && s.hasSource {
      if s.starting.Some? {
        var actions := OpenCanSucceed(s, first);
      } else {
        var actions := IdleCanSucceed(s);
        assert Stored(Run(s, actions).value.starts[|s.starts|]);
        assert MoreStored(s, Run(s, actions).value);
      }
    } else if CanSucceedAgain(s) {
      var actions :| Run(s, actions).Some? && MoreStored(s, Run(s, actions).value);
      RunWhenOver(s, first, actions);
    }
  }

  /** So after a success another is possible exactly when no start that succeeded gave an id. */
  lemma SecondSuccessExactly(s: State, k: StartId)
    requires Reachable(s) && k < |s.starts| && Stored(s.starts[k])
    ensures CanSucceedAgain(s) <==> forall i: StartId | i < |s.starts| && Stored(s.starts[i]) :: s.starts[i].id == ""
  {
    var first := ReachableInv(s);
    FurtherSuccessExactly(s);
  }

  lemma {:induction false} RunJoin(s: State, a: seq<Action>, mid: State, b: seq<Action>)
    requires Run(s, a) == Some(mid)
    ensures Run(s, a + b) == Run(mid, b)
    decreases |a|
  {
    if a == [] {
      assert a + b == b;
    } else {
      assert (a + b)[1..] == a[1..] + b;
      RunJoin(Step(s, a[0]).value, a[1..], mid, b);
    }
  }

  lemma RunFour(s: State, a: Action, b: Action, c: Action, d: Action)
    requires Step(s, a).Some? && Step(Step(s, a).value, b).Some?
    requires Step(Step(Step(s, a).value, b).value, c).Some?
    ensures Run(s, [a, b, c, d]) == Step(Step(Step(Step(s, a).value, b).value, c).value, d)
  {
    assert [a, b, c, d][1..] == [b, c, d] && [b, c, d][1..] == [c, d] && [c, d][1..] == [d] && [d][1..] == [];
    var s3 := Step(Step(Step(s, a).value, b).value, c).value;
    assert Run(s3, [d]) == Step(s3, d);
    assert Run(Step(Step(s, a).value, b).value, [c, d]) == Step(s3, d);
    assert Run(Step(s, a).value, [b, c, d]) == Step(s3, d);
  }

  lemma RunFirst() returns (s: State)
    ensures Run(Init(true, ""), [Call(0), Fulfil(0, ""), Then(0), Prepared(0)]) == Some(s)
    ensures s.hasSource && s.torrentId == "" && s.starting == None && s.starts == [Succeeded("")] && PcOf(s, 1) == Idle
  {
    RunFour(Init(true, ""), Call(0), Fulfil(0, ""), Then(0), Prepared(0));
    s := Run(Init(true, ""), [Call(0), Fulfil(0, ""), Then(0), Prepared(0)]).value;
  }

  lemma RunSecond(mid: State) returns (s: State)
    requires mid.hasSource && mid.torrentId == "" && mid.starting == None && mid.starts == [Succeeded("")]
    requires PcOf(mid, 1) == Idle
    ensures Run(mid, [Call(1), Fulfil(1, "T"), Then(1), Prepared(1)]) == Some(s)
    ensures s.starts == [Succeeded(""), Succeeded("T")]
  {
    RunFour(mid, Call(1), Fulfil(1, "T"), Then(1), Prepared(1));
    s := Run(mid, [Call(1), Fulfil(1, "T"), Then(1), Prepared(1)]).value;
  }

  /** With a falsy id two starts can both succeed. */
  lemma FalsyIdStartsTwice()
    ensures exists s :: Reachable(s) && |s.starts| == 2 && s.starts[0] == Succeeded("") && s.starts[1] == Succeeded("T")
  {
    var first := [Call(0), Fulfil(0, ""), Then(0), Prepared(0)];
    var again := [Call(1), Fulfil(1, "T"), Then(1), Prepared(1)];
    var mid := RunFirst();
    var s := RunSecond(mid);
    RunJoin(Init(true, ""), first, mid, again);
    assert Run(Init(true, ""), first + again) == Some(s);
  }
}
