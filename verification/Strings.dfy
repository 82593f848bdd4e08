/** Splitting and joining on a separator, as Go's strings.Split and strings.Join do. */
module Strings {

  datatype Option<+T> = None | Some(value: T) {
    function GetOr(default: T): T {
      if Some? then value else default
    }
  }

  function Split<T(==)>(s: seq<T>, sep: T): (parts: seq<seq<T>>)
    ensures |parts| >= 1
  {
    if s == [] then [[]]
    else if s[0] == sep then [[]] + Split(s[1..], sep)
    else
      var rest := Split(s[1..], sep);
      [[s[0]] + rest[0]] + rest[1..]
  }

  function Join<T>(parts: seq<seq<T>>, sep: T): seq<T> {
    if |parts| == 0 then []
    else if |parts| == 1 then parts[0]
    else parts[0] + [sep] + Join(parts[1..], sep)
  }

  lemma {:induction false} SplitHasNoSeparator<T>(s: seq<T>, sep: T)
    ensures forall p <- Split(s, sep) :: sep !in p
  {
    if s != [] {
      SplitHasNoSeparator(s[1..], sep);
    }
  }

  lemma {:induction false} SplitWithout<T>(s: seq<T>, sep: T)
    requires sep !in s
    ensures Split(s, sep) == [s]
  {
    if s != [] {
      SplitWithout(s[1..], sep);
      assert [s[0]] + s[1..] == s;
    }
  }

  lemma PrependToFirst<T>(c: T, l: seq<seq<T>>, r: seq<seq<T>>)
    requires |l| >= 1
    ensures [[c] + (l + r)[0]] + (l + r)[1..] == [[c] + l[0]] + l[1..] + r
  {}

  lemma {:induction false} SplitAtSeparator<T>(a: seq<T>, sep: T, b: seq<T>)
    ensures Split(a + [sep] + b, sep) == Split(a, sep) + Split(b, sep)
  {
    var s := a + [sep] + b;
    if a == [] {
      assert s[1..] == b && s[0] == sep;
    } else {
      assert s[1..] == a[1..] + [sep] + b && s[0] == a[0];
      SplitAtSeparator(a[1..], sep, b);
      PrependToFirst(a[0], Split(a[1..], sep), Split(b, sep));
    }
  }

  /** Splitting undoes joining, for pieces that do not hold the separator. */
  lemma {:induction false} SplitJoin<T>(parts: seq<seq<T>>, sep: T)
    requires |parts| >= 1
    requires forall p <- parts :: sep !in p
    ensures Split(Join(parts, sep), sep) == parts
  {
    if |parts| == 1 {
      SplitWithout(parts[0], sep);
    } else {
      SplitJoin(parts[1..], sep);
      SplitWithout(parts[0], sep);
      SplitAtSeparator(parts[0], sep, Join(parts[1..], sep));
      assert [parts[0]] + parts[1..] == parts;
    }
  }

  /** Joining undoes splitting, for every string. */
  lemma {:induction false} JoinSplit<T>(s: seq<T>, sep: T)
    ensures Join(Split(s, sep), sep) == s
  {
    if s != [] {
      JoinSplit(s[1..], sep);
      var rest := Split(s[1..], sep);
      if s[0] == sep {
        assert ([[]] + rest)[1..] == rest;
        assert s == [sep] + s[1..];
      } else {
        var parts := Split(s, sep);
        assert parts[1..] == rest[1..];
        assert s == [s[0]] + s[1..];
      }
    }
  }

  lemma {:induction false} JoinConcat<T>(a: seq<seq<T>>, b: seq<seq<T>>, sep: T)
    requires a != [] && b != []
    ensures Join(a + b, sep) == Join(a, sep) + [sep] + Join(b, sep)
  {
    if |a| == 1 {
      assert (a + b)[1..] == b;
    } else {
      JoinConcat(a[1..], b, sep);
      assert (a + b)[1..] == a[1..] + b;
    }
  }

  function LowerChar(c: char): char {
    if 'A' <= c <= 'Z' then c - 'A' + 'a' else c
  }

  /** The capital letters become small ones, and nothing else changes. */
  lemma LowerCharExactly(c: char)
    ensures LowerChar(c) as int == if 65 <= c as int <= 90 then c as int + 32 else c as int
  {}

  /** ASCII letters in lower case. */
  function Lower(s: string): (r: string)
    ensures |r| == |s| && forall i: nat | i < |s| :: r[i] == LowerChar(s[i])
  {
    seq(|s|, i requires 0 <= i < |s| => LowerChar(s[i]))
  }

  function TrimSlashLeft(s: string): (r: string)
    ensures r != "" ==> r[0] != '/'
    ensures s != "" && r != "" ==> r[|r| - 1] == s[|s| - 1]
  {
    if s != "" && s[0] == '/' then TrimSlashLeft(s[1..]) else s
  }

  function TrimSlashRight(s: string): (r: string)
    ensures r != "" ==> s != "" && r[0] == s[0] && r[|r| - 1] != '/'
  {
    if s != "" && s[|s| - 1] == '/' then TrimSlashRight(s[..|s| - 1]) else s
  }

  /** strings.Trim(s, "/"). */
  function TrimSlashes(s: string): string {
    TrimSlashRight(TrimSlashLeft(s))
  }
}
