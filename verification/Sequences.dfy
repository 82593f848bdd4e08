/** Filtering a sequence, as the loops with `continue` and the JavaScript filter do. */
module Sequences {

  function Keep<T>(s: seq<T>, p: T -> bool): seq<T> {
    if s == [] then []
    else Keep(s[..|s| - 1], p) + (if p(s[|s| - 1]) then [s[|s| - 1]] else [])
  }

  lemma KeepAppend<T>(s: seq<T>, x: T, p: T -> bool)
    ensures Keep(s + [x], p) == Keep(s, p) + (if p(x) then [x] else [])
  {
    assert (s + [x])[..|s|] == s;
  }

  lemma {:induction false} KeepConcat<T>(a: seq<T>, b: seq<T>, p: T -> bool)
    ensures Keep(a + b, p) == Keep(a, p) + Keep(b, p)
  {
    if b == [] {
      assert a + b == a;
    } else {
      var n := |b| - 1;
      KeepConcat(a, b[..n], p);
      KeepAppend(a + b[..n], b[n], p);
      assert a + b == (a + b[..n]) + [b[n]];
    }
  }

  lemma {:induction false} KeepFacts<T>(s: seq<T>, p: T -> bool)
    ensures |Keep(s, p)| <= |s|
    ensures forall x <- Keep(s, p) :: x in s && p(x)
    ensures forall x <- s :: p(x) ==> x in Keep(s, p)
  {
    if s != [] {
      KeepFacts(s[..|s| - 1], p);
    }
  }

  /** Keeping as many as there were is keeping everything. */
  lemma {:induction false} KeepAll<T>(s: seq<T>, p: T -> bool)
    ensures |Keep(s, p)| == |s| <==> forall i: nat | i < |s| :: p(s[i])
    ensures |Keep(s, p)| == |s| ==> Keep(s, p) == s
  {
    if s != [] {
      var n := |s| - 1;
      KeepFacts(s[..n], p);
      KeepAll(s[..n], p);
      assert s == s[..n] + [s[n]];
      assert forall i: nat | i < n :: s[..n][i] == s[i];
      if |Keep(s, p)| == |s| {
        forall i: nat | i < |s| ensures p(s[i]) {
          assert i < n ==> p(s[..n][i]);
        }
      }
    }
  }

  ghost predicate Distinct<T>(s: seq<T>) {
    forall i: nat, j: nat | i < j < |s| :: s[i] != s[j]
  }

  lemma Split3<T>(s: seq<T>, k: nat, p: T -> bool)
    requires k <= |s|
    ensures s == s[..k] + s[k..] && Keep(s, p) == Keep(s[..k], p) + Keep(s[k..], p)
  {
    var front, back := s[..k], s[k..];
    assert s == front + back;
    KeepConcat(front, back, p);
  }

  /** The k-th kept element is the k-th element exactly when none up to it is dropped. */
  lemma KeptInPlace<T>(s: seq<T>, k: nat, p: T -> bool)
    requires Distinct(s) && k < |s| && k < |Keep(s, p)|
    ensures Keep(s, p)[k] == s[k] <==> forall j: nat | j <= k :: p(s[j])
  {
    var front, back := s[..k + 1], s[k + 1..];
    Split3(s, k + 1, p);
    KeepFacts(front, p);
    KeepAll(front, p);
    if k < |Keep(front, p)| {
      assert Keep(s, p)[k] == front[k];
      assert forall j: nat | j <= k :: s[j] == front[j];
    } else {
      KeepFacts(back, p);
      var x := Keep(s, p)[k];
      assert x in Keep(back, p);
      assert x in back;
      assert exists j: nat :: j < |front| && !p(front[j]);
    }
  }

  lemma KeptFirstInFront<T>(front: seq<T>, s: seq<T>, k: nat, p: T -> bool)
    requires Distinct(s) && k < |s| && front == s[..k] && Keep(front, p) != [] && Keep(front, p) <= Keep(s, p)
    ensures Keep(s, p)[0] != s[k] && exists j: nat :: j < k && p(s[j])
  {
    KeepFacts(front, p);
    var x := Keep(s, p)[0];
    assert x == Keep(front, p)[0] && x in front;
    var j: nat :| j < k && front[j] == x;
    assert p(s[j]);
  }

  lemma KeepFirst<T>(x: T, r: seq<T>, p: T -> bool)
    ensures Keep([x] + r, p) == (if p(x) then [x] else []) + Keep(r, p)
  {
    KeepConcat([x], r, p);
    KeepAppend([], x, p);
    assert [] + [x] == [x];
  }

  lemma KeptHead<T>(s: seq<T>, p: T -> bool)
    requires Distinct(s) && s != [] && Keep(s, p) != []
    ensures Keep(s, p)[0] == s[0] <==> p(s[0])
  {
    assert s == [s[0]] + s[1..];
    KeepFirst(s[0], s[1..], p);
    if !p(s[0]) {
      KeepFacts(s[1..], p);
      assert Keep(s, p)[0] in s[1..];
    }
  }

  /** The first kept element is the k-th exactly when that one is kept and all before are dropped. */
  lemma KeptFirst<T>(s: seq<T>, k: nat, p: T -> bool)
    requires Distinct(s) && k < |s| && Keep(s, p) != []
    ensures Keep(s, p)[0] == s[k] <==> p(s[k]) && forall j: nat | j < k :: !p(s[j])
  {
    var front, back := s[..k], s[k..];
    Split3(s, k, p);
    if Keep(front, p) != [] {
      KeptFirstInFront(front, s, k, p);
    } else {
      KeepFacts(front, p);
      forall j: nat | j < k ensures !p(s[j]) {
        assert front[j] in front;
      }
      KeptHead(back, p);
    }
  }

  function Map<T, U>(s: seq<T>, g: T -> U): (r: seq<U>)
    ensures |r| == |s| && forall i: nat | i < |s| :: r[i] == g(s[i])
  {
    seq(|s|, i requires 0 <= i < |s| => g(s[i]))
  }

  /** Filtering the images is imaging the filtered, when the tests agree. */
  lemma {:induction false} KeepMap<T, U>(s: seq<T>, g: T -> U, p: U -> bool, q: T -> bool)
    requires forall x <- s :: p(g(x)) == q(x)
    ensures Keep(Map(s, g), p) == Map(Keep(s, q), g)
  {
    if s != [] {
      var n := |s| - 1;
      KeepMap(s[..n], g, p, q);
      assert Map(s, g) == Map(s[..n], g) + [g(s[n])];
      KeepAppend(Map(s[..n], g), g(s[n]), p);
      assert s[n] in s;
      if q(s[n]) {
        assert Map(Keep(s, q), g) == Map(Keep(s[..n], q), g) + [g(s[n])];
      } else {
        assert Keep(s, q) == Keep(s[..n], q);
      }
    }
  }

  /** A weaker filter first changes nothing. */
  lemma {:induction false} KeepKeep<T>(s: seq<T>, p: T -> bool, q: T -> bool)
    requires forall x <- s :: p(x) ==> q(x)
    ensures Keep(Keep(s, q), p) == Keep(s, p)
  {
    if s != [] {
      var n := |s| - 1;
      KeepKeep(s[..n], p, q);
      assert s[n] in s;
      if q(s[n]) {
        assert Keep(s, q) == Keep(s[..n], q) + [s[n]];
        KeepAppend(Keep(s[..n], q), s[n], p);
      } else {
        assert Keep(s, q) == Keep(s[..n], q) && !p(s[n]);
      }
    }
  }

  lemma {:induction false} KeepDistinct<T>(s: seq<T>, p: T -> bool)
    requires Distinct(s)
    ensures Distinct(Keep(s, p))
  {
    if s != [] {
      var n := |s| - 1;
      KeepDistinct(s[..n], p);
      KeepFacts(s[..n], p);
      assert s[n] !in s[..n];
    }
  }

  function Total<T>(s: seq<T>, w: T -> int): int {
    if s == [] then 0 else Total(s[..|s| - 1], w) + w(s[|s| - 1])
  }

  lemma TotalAppend<T>(s: seq<T>, x: T, w: T -> int)
    ensures Total(s + [x], w) == Total(s, w) + w(x)
  {
    assert (s + [x])[..|s|] == s;
  }

  /** Weights that add up, position by position, give totals that add up. */
  lemma {:induction false} TotalSum<T, U>(s: seq<T>, w: T -> int, a: seq<U>, u: U -> int, v: U -> int)
    requires |s| == |a| && forall i: nat | i < |s| :: w(s[i]) == u(a[i]) + v(a[i])
    ensures Total(s, w) == Total(a, u) + Total(a, v)
  {
    if s != [] {
      TotalSum(s[..|s| - 1], w, a[..|s| - 1], u, v);
    }
  }

  lemma {:induction false} TotalSame<T, U>(s: seq<T>, w: T -> int, a: seq<U>, u: U -> int)
    requires |s| == |a| && forall i: nat | i < |s| :: w(s[i]) == u(a[i])
    ensures Total(s, w) == Total(a, u)
  {
    if s != [] {
      TotalSame(s[..|s| - 1], w, a[..|s| - 1], u);
    }
  }

  /** The total of what is kept is the total with the rest weighing nothing. */
  lemma {:induction false} TotalKept<T, U>(s: seq<T>, p: T -> bool, g: T -> U, w: U -> int, v: T -> int)
    requires forall x <- s :: v(x) == if p(x) then w(g(x)) else 0
    ensures Total(Map(Keep(s, p), g), w) == Total(s, v)
  {
    if s != [] {
      var n := |s| - 1;
      TotalKept(s[..n], p, g, w, v);
      assert s[n] in s;
      if p(s[n]) {
        assert Map(Keep(s, p), g) == Map(Keep(s[..n], p), g) + [g(s[n])];
        TotalAppend(Map(Keep(s[..n], p), g), g(s[n]), w);
      } else {
        assert Keep(s, p) == Keep(s[..n], p);
      }
    }
  }

  /** Filtering twice is filtering by both. */
  lemma {:induction false} KeepBoth<T>(s: seq<T>, p: T -> bool, q: T -> bool, both: T -> bool)
    requires forall x <- s :: both(x) == (p(x) && q(x))
    ensures Keep(Keep(s, p), q) == Keep(s, both)
  {
    if s != [] {
      var n := |s| - 1;
      KeepBoth(s[..n], p, q, both);
      assert s[n] in s;
      if p(s[n]) {
        KeepAppend(Keep(s[..n], p), s[n], q);
      } else {
        assert Keep(s, p) == Keep(s[..n], p) && !both(s[n]);
      }
    }
  }

  lemma {:induction false} KeepEvery<T>(s: seq<T>, p: T -> bool)
    requires forall x <- s :: p(x)
    ensures Keep(s, p) == s
  {
    if s != [] {
      assert s[|s| - 1] in s;
      KeepEvery(s[..|s| - 1], p);
    }
  }

  /** Where a kept element stands, and that what was kept before it is what stands before it. */
  lemma {:induction false} KeepPosition<T>(s: seq<T>, p: T -> bool, k: nat) returns (i: nat)
    requires k < |Keep(s, p)|
    ensures i < |s| && s[i] == Keep(s, p)[k] && p(s[i])
    ensures Keep(s[..i], p) == Keep(s, p)[..k]
  {
    var n := |s| - 1;
    if k < |Keep(s[..n], p)| {
      i := KeepPosition(s[..n], p, k);
      assert s[..n][..i] == s[..i];
    } else {
      i := n;
    }
  }
}
