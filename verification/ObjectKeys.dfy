/** The names objects get in the store (internal/objectstore/store.go). */
module ObjectKeys {
  import opened Strings
  import opened Sequences

  predicate NonEmpty(p: string) { p != "" }

  /** The non-empty pieces of a path, whichever slash they are cut with. */
  function Segments(path: string): seq<string> {
    Keep(Split(path, '/'), NonEmpty)
  }

  function ForwardSlashes(path: string): (r: string)
    ensures |r| == |path|
  {
    Map(path, c => if c == '\\' then '/' else c)
  }

  /** The path part of a key. */
  function NormalPath(path: string): string {
    Join(Segments(ForwardSlashes(path)), '/')
  }

  /** The key of a file: what the method ObjectKey below computes by repeated replacement. */
  function Key(prefix: string, infoHash: string, path: string): string {
    Join((if prefix != "" then [prefix] else [])
         + [Lower(infoHash), NormalPath(path)], '/')
  }

  predicate HasDouble(s: string) {
    exists i | 0 <= i < |s| - 1 :: s[i] == '/' && s[i + 1] == '/'
  }

  /** One pass of strings.ReplaceAll(s, "//", "/"). */
  function Squeeze(s: string): (r: string)
    ensures |r| <= |s|
    ensures s != "" ==> r != "" && r[0] == s[0] && r[|r| - 1] == s[|s| - 1]
  {
    if s == "" then ""
    else if |s| >= 2 && s[0] == '/' && s[1] == '/' then ['/'] + Squeeze(s[2..])
    else [s[0]] + Squeeze(s[1..])
  }

  lemma {:induction false} SqueezeShrinks(s: string)
    requires HasDouble(s)
    ensures |Squeeze(s)| < |s|
  {
    var i :| 0 <= i < |s| - 1 && s[i] == '/' && s[i + 1] == '/';
    if !(s[0] == '/' && s[1] == '/') {
      assert s[1..][i - 1] == '/' && s[1..][i] == '/';
      SqueezeShrinks(s[1..]);
    }
  }

  lemma SplitSlash(t: string)
    ensures Split(['/'] + t, '/') == [""] + Split(t, '/')
    ensures Split(['/'] + t, '/')[0] == "" && Split(['/'] + t, '/')[1..] == Split(t, '/')
  {
    assert (['/'] + t)[1..] == t;
  }

  lemma SplitOther(c: char, t: string)
    requires c != '/'
    ensures Split([c] + t, '/')[0] == [c] + Split(t, '/')[0]
    ensures Split([c] + t, '/')[1..] == Split(t, '/')[1..]
  {
    assert ([c] + t)[1..] == t;
  }

  lemma {:induction false} SqueezeKeepsSegments(s: string)
    ensures Segments(Squeeze(s)) == Segments(s)
    decreases |s|, 1
  {
    SqueezeKeepsPieces(s);
    KeepFirst(Split(s, '/')[0], Split(s, '/')[1..], NonEmpty);
    KeepFirst(Split(Squeeze(s), '/')[0], Split(Squeeze(s), '/')[1..], NonEmpty);
    assert Split(s, '/') == [Split(s, '/')[0]] + Split(s, '/')[1..];
    assert Split(Squeeze(s), '/') == [Split(Squeeze(s), '/')[0]] + Split(Squeeze(s), '/')[1..];
  }

  /** What squeezing keeps: the first piece, and the non-empty ones after it. */
  ghost predicate SamePieces(s: string, t: string) {
    && Split(s, '/')[0] == Split(t, '/')[0]
    && Keep(Split(s, '/')[1..], NonEmpty) == Keep(Split(t, '/')[1..], NonEmpty)
  }

  lemma SlashBefore(s: string, t: string)
    requires Segments(s) == Segments(t)
    ensures SamePieces(['/'] + s, ['/'] + t) && SamePieces(['/'] + s, ['/'] + (['/'] + t))
  {
    SplitSlash(s);
    SplitSlash(t);
    SplitSlash(['/'] + t);
    KeepFirst("", Split(t, '/'), NonEmpty);
  }

  lemma OtherBefore(c: char, s: string, t: string)
    requires c != '/' && SamePieces(s, t)
    ensures SamePieces([c] + s, [c] + t)
  {
    SplitOther(c, s);
    SplitOther(c, t);
  }

  lemma {:induction false} SqueezeKeepsPieces(s: string)
    ensures SamePieces(Squeeze(s), s)
    decreases |s|, 0
  {
    if s == "" {
    } else if |s| >= 2 && s[0] == '/' && s[1] == '/' {
      SqueezeKeepsSegments(s[2..]);
      SlashBefore(Squeeze(s[2..]), s[2..]);
      assert s == ['/'] + (['/'] + s[2..]);
    } else if s[0] == '/' {
      SqueezeKeepsSegments(s[1..]);
      SlashBefore(Squeeze(s[1..]), s[1..]);
      assert s == ['/'] + s[1..];
    } else {
      SqueezeKeepsPieces(s[1..]);
      OtherBefore(s[0], Squeeze(s[1..]), s[1..]);
      assert s == [s[0]] + s[1..];
    }
  }

  lemma SegmentsAtSlash(a: string, b: string)
    ensures Segments(a + "/" + b) == Segments(a) + Segments(b)
  {
    SplitAtSeparator(a, '/', b);
    KeepConcat(Split(a, '/'), Split(b, '/'), NonEmpty);
  }

  lemma NoSegments()
    ensures Segments("") == []
  {
    assert Split("", '/') == [""];
    KeepFirst("", [], NonEmpty);
    assert [""] + [] == [""];
  }

  predicate Trimmed(s: string) {
    s != "" ==> s[0] != '/' && s[|s| - 1] != '/'
  }

  lemma SlashAtStart(s: string)
    ensures Segments(['/'] + s) == Segments(s)
  {
    assert (['/'] + s)[1..] == s;
    KeepFirst("", Split(s, '/'), NonEmpty);
  }

  lemma SlashAtEnd(s: string)
    ensures Segments(s + "/") == Segments(s)
  {
    assert s + "/" == s + "/" + "";
    SegmentsAtSlash(s, "");
    NoSegments();
  }

  lemma {:induction false} TrimLeftKeepsSegments(s: string)
    ensures Segments(TrimSlashLeft(s)) == Segments(s)
  {
    if s != "" && s[0] == '/' {
      TrimLeftKeepsSegments(s[1..]);
      SlashAtStart(s[1..]);
      assert s == ['/'] + s[1..];
    }
  }

  lemma {:induction false} TrimRightKeepsSegments(s: string)
    ensures Segments(TrimSlashRight(s)) == Segments(s)
  {
    if s != "" && s[|s| - 1] == '/' {
      var t := s[..|s| - 1];
      TrimRightKeepsSegments(t);
      SlashAtEnd(t);
      assert s == t + "/";
    }
  }

  /** With no slash at an end and none doubled, every piece is non-empty. */
  lemma {:induction false} PiecesNonEmpty(s: string)
    requires s != "" && s[|s| - 1] != '/' && !HasDouble(s)
    ensures Split(s, '/')[0] == "" <==> s[0] == '/'
    ensures forall p <- Split(s, '/')[1..] :: p != ""
  {
    var t := s[1..];
    if t != "" {
      forall i | 0 <= i < |t| - 1 ensures !(t[i] == '/' && t[i + 1] == '/') {
        assert t[i] == s[i + 1] && t[i + 1] == s[i + 2];
      }
      assert t[|t| - 1] == s[|s| - 1];
      PiecesNonEmpty(t);
      if s[0] == '/' {
        assert t[0] == s[1];
        assert Split(s, '/')[1..] == [Split(t, '/')[0]] + Split(t, '/')[1..];
      }
    }
  }

  lemma CleanPathIsItsSegments(s: string)
    requires Trimmed(s) && !HasDouble(s)
    ensures s == Join(Segments(s), '/')
  {
    if s == "" {
      NoSegments();
    } else {
      PiecesNonEmpty(s);
      var parts := Split(s, '/');
      forall i: nat | i < |parts| ensures NonEmpty(parts[i]) {
        if i > 0 { assert parts[i] in parts[1..]; }
      }
      KeepAll(parts, NonEmpty);
      JoinSplit(s, '/');
    }
  }

  lemma SqueezeKeepsEnds(s: string)
    requires Trimmed(s)
    ensures Trimmed(Squeeze(s)) && Segments(Squeeze(s)) == Segments(s)
  {
    SqueezeKeepsSegments(s);
  }

  method NormalisePath(path: string) returns (filePath: string)
    ensures filePath == NormalPath(path)
  {
    var slashed := ForwardSlashes(path);
    var left := TrimSlashLeft(slashed);
    filePath := TrimSlashRight(left);
    TrimLeftKeepsSegments(slashed);
    TrimRightKeepsSegments(left);
    while HasDouble(filePath)
      invariant Segments(filePath) == Segments(slashed)
      invariant Trimmed(filePath)
      decreases |filePath|
    {
      SqueezeShrinks(filePath);
      SqueezeKeepsEnds(filePath);
      filePath := Squeeze(filePath);
    }
    CleanPathIsItsSegments(filePath);
  }

  method ObjectKey(prefix: string, infoHash: string, path: string) returns (key: string)
    ensures key == Key(prefix, infoHash, path)
  {
    var filePath := NormalisePath(path);
    var parts := [];
    if prefix != "" {
      parts := parts + [prefix];
    }
    parts := parts + [Lower(infoHash), filePath];
    assert parts == (if prefix != "" then [prefix] else []) + [Lower(infoHash), filePath];
    key := Join(parts, '/');
  }

  lemma JoinEmpty(a: seq<string>)
    requires forall p <- a :: p != ""
    ensures Join(a, '/') == "" <==> a == []
  {
    if |a| >= 1 { assert a[0] in a; }
  }

  lemma JoinSegmentsInjective(a: seq<string>, b: seq<string>)
    requires forall p <- a :: p != "" && '/' !in p
    requires forall p <- b :: p != "" && '/' !in p
    ensures Join(a, '/') == Join(b, '/') <==> a == b
  {
    if a != [] { SplitJoin(a, '/'); }
    if b != [] { SplitJoin(b, '/'); }
    if Join(a, '/') == Join(b, '/') && (a == [] || b == []) {
      JoinEmpty(a);
      JoinEmpty(b);
    }
  }

  lemma SegmentsClean(s: string)
    ensures forall p <- Segments(s) :: p != "" && '/' !in p
  {
    SplitHasNoSeparator(s, '/');
    KeepFacts(Split(s, '/'), NonEmpty);
  }

  lemma JoinHead(prefix: string, hash: string, path: string)
    ensures Join((if prefix != "" then [prefix] else []) + [hash, path], '/')
         == (if prefix != "" then prefix + "/" else "") + (hash + "/" + path)
  {
    assert [hash, path][1..] == [path];
    assert Join([hash, path], '/') == hash + "/" + path;
    if prefix != "" {
      assert [prefix] + [hash, path] == [prefix, hash, path];
      assert [prefix, hash, path][1..] == [hash, path];
    } else {
      assert [] + [hash, path] == [hash, path];
    }
  }

  lemma FirstSlash(s: string, a: string, x: string, k: nat)
    requires '/' !in a && s == a + "/" + x && k <= |a|
    ensures s[k] == '/' <==> k == |a|
  {}

  lemma HeadInjective(a: string, x: string, b: string, y: string)
    requires '/' !in a && '/' !in b
    ensures a + "/" + x == b + "/" + y <==> a == b && x == y
  {
    if a + "/" + x == b + "/" + y {
      var s := a + "/" + x;
      var k := if |b| <= |a| then |b| else |a|;
      FirstSlash(s, a, x, k);
      FirstSlash(s, b, y, k);
      assert a == s[..|a|] && b == (b + "/" + y)[..|b|];
      assert x == s[|a| + 1..] && y == (b + "/" + y)[|b| + 1..];
    }
  }

  lemma AfterHead(head: string, x: string, y: string)
    ensures head + x == head + y <==> x == y
  {
    assert (head + x)[|head|..] == x && (head + y)[|head|..] == y;
  }

  lemma SamePathExactly(p: string, q: string)
    ensures NormalPath(p) == NormalPath(q) <==> Segments(ForwardSlashes(p)) == Segments(ForwardSlashes(q))
  {
    SegmentsClean(ForwardSlashes(p));
    SegmentsClean(ForwardSlashes(q));
    JoinSegmentsInjective(Segments(ForwardSlashes(p)), Segments(ForwardSlashes(q)));
  }

  lemma SameKeyParts(prefix: string, h1: string, p1: string, h2: string, p2: string)
    requires '/' !in h1 && '/' !in h2
    ensures var head := if prefix != "" then [prefix] else [];
      Join(head + [h1, p1], '/') == Join(head + [h2, p2], '/') <==> h1 == h2 && p1 == p2
  {
    JoinHead(prefix, h1, p1);
    JoinHead(prefix, h2, p2);
    HeadInjective(h1, p1, h2, p2);
    AfterHead(if prefix != "" then prefix + "/" else "", h1 + "/" + p1, h2 + "/" + p2);
  }

  /** Two files get one object exactly when their hashes agree but for case and their paths have the same pieces. */
  lemma SameKeyExactly(prefix: string, h1: string, p1: string, h2: string, p2: string)
    requires '/' !in h1 && '/' !in h2
    ensures Key(prefix, h1, p1) == Key(prefix, h2, p2)
       <==> Lower(h1) == Lower(h2) && Segments(ForwardSlashes(p1)) == Segments(ForwardSlashes(p2))
  {
    SamePathExactly(p1, p2);
    SameKeyParts(prefix, Lower(h1), NormalPath(p1), Lower(h2), NormalPath(p2));
  }

  /** A doubled slash or a backslash is as good as one slash, so distinct files may share an object. */
  lemma DoubledSlashSameKey(prefix: string, hash: string, a: string, b: string)
    requires '/' !in hash
    ensures Key(prefix, hash, a + "//" + b) == Key(prefix, hash, a + "\\" + b)
  {
    var fa, fb := ForwardSlashes(a), ForwardSlashes(b);
    SameKeyExactly(prefix, hash, a + "//" + b, hash, a + "\\" + b);
    assert ForwardSlashes(a + "//" + b) == fa + "/" + (['/'] + fb);
    assert ForwardSlashes(a + "\\" + b) == fa + "/" + fb;
    SegmentsAtSlash(fa, ['/'] + fb);
    SegmentsAtSlash(fa, fb);
    SlashAtStart(fb);
  }
}
