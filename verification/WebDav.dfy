/** The directory tree made from a flat list of paths (internal/webdav/fs.go). */
module WebDav {
  import opened Strings
  import opened Sequences
  import opened Records
  import opened ObjectKeys
  import Timestamps

  datatype Info = Info(name: string, size: int, dir: bool)

  // ----- paths -----------------------------------------------------------------------------

  function TrimPrefix(s: string, p: string): string {
    if p <= s then s[|p|..] else s
  }

  /** The path of a file below its torrent. */
  function Relative(f: FileRow): string {
    TrimPrefix(ForwardSlashes(f.path), "/")
  }

  /** path.Base. */
  function Base(p: string): string {
    if p == "" then "."
    else if TrimSlashRight(p) == "" then "/"
    else Split(TrimSlashRight(p), '/')[|Split(TrimSlashRight(p), '/')| - 1]
  }

  lemma {:induction false} TrimmedSlashes(p: string) returns (back: string)
    ensures p == TrimSlashRight(p) + back && forall c <- back :: c == '/'
  {
    back := "";
    if p != "" && p[|p| - 1] == '/' {
      var b := TrimmedSlashes(p[..|p| - 1]);
      back := b + ['/'];
    }
  }

  /** The last piece of a split is what stands after the last separator. */
  lemma LastPiece(s: string) returns (front: string)
    ensures var parts := Split(s, '/');
      s == front + parts[|parts| - 1] && (front == "" || front[|front| - 1] == '/') && '/' !in parts[|parts| - 1]
  {
    var parts := Split(s, '/');
    var n := |parts| - 1;
    JoinSplit(s, '/');
    SplitHasNoSeparator(s, '/');
    front := "";
    if n > 0 {
      assert parts == parts[..n] + [parts[n]];
      JoinConcat(parts[..n], [parts[n]], '/');
      front := Join(parts[..n], '/') + ['/'];
    }
  }

  /** What path.Base gives: the last name of a path, whatever slashes follow it; "." for none and "/" for the root. */
  lemma BaseExactly(p: string)
    ensures p == "" ==> Base(p) == "."
    ensures p != "" && (forall c <- p :: c == '/') ==> Base(p) == "/"
    ensures (exists c <- p :: c != '/') ==>
              && Base(p) != "" && '/' !in Base(p)
              && exists front, back: string ::
                   && p == front + Base(p) + back
                   && (front == "" || front[|front| - 1] == '/') && forall c <- back :: c == '/'
  {
    var s := TrimSlashRight(p);
    var back := TrimmedSlashes(p);
    if s == "" {
      assert p == back;
    } else {
      assert s[|s| - 1] in p;
      var front := LastPiece(s);
      assert p == front + Base(p) + back;
    }
  }

  // ----- listChildren, findFile, isVirtualDir ----------------------------------------------

  /** Every entry stands under its own name. */
  predicate Keyed(children: map<string, Info>) {
    forall k <- children :: children[k].name == k
  }

  function AddEntry(children: map<string, Info>, f: FileRow, rel: string): (r: map<string, Info>)
    requires Keyed(children)
    ensures Keyed(r)
  {
    var parts := Split(rel, '/');
    var name := parts[0];
    if name == "" then children
    else if |parts| == 1 then children[name := Info(name, f.bytes, false)]
    else if name !in children then children[name := Info(name, 0, true)]
    else children
  }

  /** The loop's body. */
  function AddChild(children: map<string, Info>, f: FileRow, sub: string): (r: map<string, Info>)
    requires Keyed(children)
    ensures Keyed(r)
  {
    var rel := Relative(f);
    if !f.selected then children
    else if sub != "" && rel == sub then children[Base(rel) := Info(Base(rel), f.bytes, false)]
    else if sub != "" && !(sub + "/" <= rel) then children
    else AddEntry(children, f, if sub == "" then rel else TrimPrefix(rel, sub + "/"))
  }

  function Children(files: seq<FileRow>, sub: string): (r: map<string, Info>)
    ensures Keyed(r)
  {
    if files == [] then map[] else AddChild(Children(files[..|files| - 1], sub), files[|files| - 1], sub)
  }

  /** The search, with what has been found by name alone so far. */
  function Search(files: seq<FileRow>, clean: string, found: Option<FileRow>): Option<FileRow> {
    if files == [] then found
    else
      var f := files[0];
      var p := ForwardSlashes(f.path);
      if !f.selected then Search(files[1..], clean, found)
      else if p == "/" + clean then Some(f)
      else if Base(p) == clean then
        if found.Some? then None else Search(files[1..], clean, Some(f))
      else Search(files[1..], clean, found)
  }

  function FindFile(files: seq<FileRow>, sub: string): Option<FileRow> {
    Search(files, TrimSlashes(ForwardSlashes(sub)), None)
  }

  function FirstUnder(files: seq<FileRow>, sub: string): bool {
    if files == [] then false
    else if !files[0].selected then FirstUnder(files[1..], sub)
    else if Relative(files[0]) == sub then false
    else if sub + "/" <= Relative(files[0]) then true
    else FirstUnder(files[1..], sub)
  }

  function IsVirtualDir(files: seq<FileRow>, sub: string): bool {
    sub == "" || FirstUnder(files, TrimSlashes(sub))
  }

  // ----- the tree the paths mean -----------------------------------------------------------

  ghost predicate CleanNames(d: seq<string>) {
    forall n <- d :: n != "" && '/' !in n && '\\' !in n
  }

  /** The names on the way to a file. */
  function Names(f: FileRow): seq<string> {
    Segments(ForwardSlashes(f.path))
  }

  /** A path as it is stored: a slash before every name, and at least one name. */
  ghost predicate Normal(f: FileRow) {
    Names(f) != [] && ForwardSlashes(f.path) == "/" + Join(Names(f), '/')
  }

  ghost predicate NormalFiles(files: seq<FileRow>) {
    forall f <- files :: Normal(f)
  }

  ghost predicate DistinctPaths(files: seq<FileRow>) {
    forall i: nat, j: nat | i < j < |files| && files[i].selected && files[j].selected ::
        Names(files[i]) != Names(files[j])
  }

  predicate Under(d: seq<string>, s: seq<string>) {
    d < s
  }

  lemma NamesClean(f: FileRow)
    ensures forall n <- Names(f) :: n != "" && '/' !in n
  {
    SegmentsClean(ForwardSlashes(f.path));
  }

  lemma RelativeIsJoin(f: FileRow)
    requires Normal(f)
    ensures Relative(f) == Join(Names(f), '/')
  {
    assert ("/" + Join(Names(f), '/'))[1..] == Join(Names(f), '/');
  }

  lemma UnderByText(d: seq<string>, s: seq<string>)
    requires d != [] && s != []
    requires forall n <- d :: n != "" && '/' !in n
    requires forall n <- s :: n != "" && '/' !in n
    ensures Join(s, '/') == Join(d, '/') <==> s == d
    ensures Join(d, '/') + "/" <= Join(s, '/') <==> Under(d, s)
    ensures Under(d, s) ==> TrimPrefix(Join(s, '/'), Join(d, '/') + "/") == Join(s[|d|..], '/')
  {
    var sub, rel := Join(d, '/'), Join(s, '/');
    JoinSegmentsInjective(s, d);
    if Under(d, s) {
      assert s == d + s[|d|..];
      JoinConcat(d, s[|d|..], '/');
      assert rel == sub + "/" + Join(s[|d|..], '/');
      assert rel[|sub + "/"|..] == Join(s[|d|..], '/');
    }
    if sub + "/" <= rel {
      var t := rel[|sub + "/"|..];
      assert rel == sub + ['/'] + t;
      SplitAtSeparator(sub, '/', t);
      SplitJoin(d, '/');
      SplitJoin(s, '/');
      assert s == d + Split(t, '/');
    }
  }

  lemma JoinNotEmpty(d: seq<string>)
    requires d != [] && forall n <- d :: n != ""
    ensures Join(d, '/') != ""
  {
    JoinEmpty(d);
  }

  /** The entry for the first name of the way that is left. */
  function WithName(children: map<string, Info>, f: FileRow, way: seq<string>): map<string, Info>
    requires way != []
  {
    if |way| == 1 then children[way[0] := Info(way[0], f.bytes, false)]
    else if way[0] !in children then children[way[0] := Info(way[0], 0, true)]
    else children
  }

  lemma AddEntryMeans(children: map<string, Info>, f: FileRow, way: seq<string>)
    requires Keyed(children) && way != [] && forall n <- way :: n != "" && '/' !in n
    ensures AddEntry(children, f, Join(way, '/')) == WithName(children, f, way)
  {
    SplitJoin(way, '/');
    assert way[0] in way;
  }

  /** One file adds the next name on its way, if it lies below the directory. */
  lemma AddChildMeans(children: map<string, Info>, f: FileRow, d: seq<string>)
    requires Keyed(children) && Normal(f) && CleanNames(d) && (f.selected ==> Names(f) != d)
    ensures AddChild(children, f, Join(d, '/'))
         == if f.selected && Under(d, Names(f)) then WithName(children, f, Names(f)[|d|..]) else children
  {
    var s := Names(f);
    NamesClean(f);
    RelativeIsJoin(f);
    if d != [] {
      JoinNotEmpty(d);
      UnderByText(d, s);
    } else {
      assert s[0..] == s;
    }
    if Under(d, s) {
      assert forall n <- s[|d|..] :: n in s;
      AddEntryMeans(children, f, s[|d|..]);
    }
  }

  predicate ChildOf(f: FileRow, d: seq<string>, name: string) {
    f.selected && Under(d, Names(f)) && Names(f)[|d|] == name
  }

  predicate FileAt(f: FileRow, path: seq<string>) {
    f.selected && Names(f) == path
  }

  ghost predicate EntryMeans(files: seq<FileRow>, d: seq<string>, name: string, children: map<string, Info>) {
    && (name in children <==> exists f <- files :: ChildOf(f, d, name))
    && (name in children ==> children[name].name == name)
    && (name in children && children[name].dir ==>
          children[name].size == 0 && forall f <- files :: !FileAt(f, d + [name]))
    && (name in children && !children[name].dir ==>
          exists f <- files :: FileAt(f, d + [name]) && f.bytes == children[name].size)
  }

  lemma ExtendBy(s: seq<string>, d: seq<string>, name: string)
    ensures s == d + [name] <==> d < s && |s| == |d| + 1 && s[|d|] == name
  {
    if d < s && |s| == |d| + 1 { assert s == s[..|d|] + [s[|d|]]; }
  }

  /** One file adds the entry for its next name, or none. */
  lemma ChildAdded(files: seq<FileRow>, f: FileRow, d: seq<string>, name: string,
                   children: map<string, Info>, after: map<string, Info>)
    requires EntryMeans(files, d, name, children) && ChildOf(f, d, name)
    requires after == WithName(children, f, Names(f)[|d|..])
    ensures EntryMeans(files + [f], d, name, after)
  {
    ExtendBy(Names(f), d, name);
    assert Names(f)[|d|..][0] == Names(f)[|d|];
    assert forall g <- files + [f] :: g in files || g == f;
    assert (files + [f])[|files|] == f && forall g <- files :: g in files + [f];
    assert f in files + [f];
  }

  lemma ChildElsewhere(files: seq<FileRow>, f: FileRow, d: seq<string>, name: string,
                       children: map<string, Info>, after: map<string, Info>)
    requires EntryMeans(files, d, name, children) && !ChildOf(f, d, name)
    requires name in after <==> name in children
    requires name in children ==> after[name] == children[name]
    ensures EntryMeans(files + [f], d, name, after)
  {
    ExtendBy(Names(f), d, name);
    assert forall g <- files + [f] :: g in files || g == f;
    assert forall g <- files :: g in files + [f];
  }

  lemma EntryOneMore(files: seq<FileRow>, f: FileRow, d: seq<string>, name: string, children: map<string, Info>)
    requires Keyed(children) && Normal(f) && CleanNames(d) && (f.selected ==> Names(f) != d)
    requires EntryMeans(files, d, name, children)
    ensures EntryMeans(files + [f], d, name, AddChild(children, f, Join(d, '/')))
  {
    var after := AddChild(children, f, Join(d, '/'));
    AddChildMeans(children, f, d);
    if ChildOf(f, d, name) {
      ChildAdded(files, f, d, name, children, after);
    } else {
      assert Under(d, Names(f)) ==> Names(f)[|d|..][0] == Names(f)[|d|];
      ChildElsewhere(files, f, d, name, children, after);
    }
  }

  /** A directory lists the next names on the ways through it, each as a file exactly when a file lies there. */
  lemma {:induction false} ListingMeans(files: seq<FileRow>, d: seq<string>, name: string)
    requires NormalFiles(files) && CleanNames(d) && forall f <- files :: !FileAt(f, d)
    ensures EntryMeans(files, d, name, Children(files, Join(d, '/')))
  {
    if files != [] {
      var n := |files| - 1;
      assert files == files[..n] + [files[n]];
      assert files[n] in files && forall f <- files[..n] :: f in files;
      ListingMeans(files[..n], d, name);
      EntryOneMore(files[..n], files[n], d, name, Children(files[..n], Join(d, '/')));
    }
  }

  lemma FileEntryStays(children: map<string, Info>, f: FileRow, sub: string, name: string)
    requires Keyed(children)
    ensures name in children && !children[name].dir ==>
              name in AddChild(children, f, sub) && !AddChild(children, f, sub)[name].dir
    ensures "" !in children ==> "" !in AddChild(children, f, sub)
  {
    BaseExactly(Relative(f));
  }

  /** No entry is without a name, and a file that lies at the listed path itself is listed under its own name. */
  lemma {:induction false} OwnNameIsListed(files: seq<FileRow>, sub: string)
    ensures "" !in Children(files, sub)
    ensures sub != "" && (exists f <- files :: f.selected && Relative(f) == sub) ==>
              Base(sub) in Children(files, sub) && !Children(files, sub)[Base(sub)].dir
  {
    if files != [] {
      var n := |files| - 1;
      OwnNameIsListed(files[..n], sub);
      FileEntryStays(Children(files[..n], sub), files[n], sub, Base(sub));
      FileEntryStays(Children(files[..n], sub), files[n], sub, "");
      assert forall f <- files :: f in files[..n] || f == files[n];
    }
  }

  // ----- opening a path --------------------------------------------------------------------

  lemma {:induction false} SplitChars(s: string, c: char)
    requires c !in s
    ensures forall p <- Split(s, '/') :: c !in p
  {
    if s != "" {
      assert c !in s[1..];
      SplitChars(s[1..], c);
    }
  }

  lemma NamesAreClean(f: FileRow)
    ensures CleanNames(Names(f))
  {
    var p := ForwardSlashes(f.path);
    NamesClean(f);
    SplitChars(p, '\\');
    KeepFacts(Split(p, '/'), NonEmpty);
  }

  lemma {:induction false} JoinChars(d: seq<string>, c: char)
    requires c != '/' && forall n <- d :: c !in n
    ensures c !in Join(d, '/')
  {
    if |d| > 1 {
      assert forall n <- d[1..] :: n in d;
      JoinChars(d[1..], c);
    }
    if |d| >= 1 { assert d[0] in d; }
  }

  lemma {:induction false} JoinEnds(d: seq<string>)
    requires d != [] && forall n <- d :: n != "" && '/' !in n
    ensures Trimmed(Join(d, '/')) && Join(d, '/') != ""
  {
    assert d[0] in d;
    if |d| > 1 {
      assert forall n <- d[1..] :: n in d;
      JoinEnds(d[1..]);
    }
  }

  lemma TrimmedStays(s: string)
    requires Trimmed(s)
    ensures TrimSlashes(s) == s && TrimSlashRight(s) == s
  {}

  /** A path of clean names reaches the search as it is. */
  lemma CleanPathStays(d: seq<string>)
    requires d != [] && CleanNames(d)
    ensures TrimSlashes(ForwardSlashes(Join(d, '/'))) == Join(d, '/') == TrimSlashes(Join(d, '/'))
  {
    JoinChars(d, '\\');
    assert ForwardSlashes(Join(d, '/')) == Join(d, '/');
    JoinEnds(d);
    TrimmedStays(Join(d, '/'));
  }

  lemma BaseOfPath(p: string, s: seq<string>)
    requires s != [] && (forall n <- s :: n != "" && '/' !in n) && p == ['/'] + Join(s, '/')
    ensures Base(p) == s[|s| - 1]
  {
    JoinEnds(s);
    SplitJoin(s, '/');
    SplitSlash(Join(s, '/'));
    assert p[|p| - 1] == Join(s, '/')[|Join(s, '/')| - 1];
    assert Split(p, '/') == [""] + s;
  }

  lemma BaseIsLastName(f: FileRow)
    requires Normal(f)
    ensures Base(ForwardSlashes(f.path)) == Names(f)[|Names(f)| - 1]
  {
    NamesClean(f);
    BaseOfPath(ForwardSlashes(f.path), Names(f));
  }

  predicate NamedLike(f: FileRow, path: seq<string>) {
    f.selected && Names(f) != path && |path| == 1 && Names(f) != [] && Names(f)[|Names(f)| - 1] == path[0]
  }

  lemma TextMatches(f: FileRow, path: seq<string>)
    requires Normal(f) && CleanNames(path) && path != []
    ensures ForwardSlashes(f.path) == "/" + Join(path, '/') <==> Names(f) == path
    ensures Names(f) != path ==>
              (Base(ForwardSlashes(f.path)) == Join(path, '/') <==> NamedLike(f.(selected := true), path))
  {
    NamesClean(f);
    JoinSegmentsInjective(Names(f), path);
    assert ("/" + Join(path, '/'))[1..] == Join(path, '/');
    assert ("/" + Join(Names(f), '/'))[1..] == Join(Names(f), '/');
    BaseIsLastName(f);
    var last := Names(f)[|Names(f)| - 1];
    assert last in Names(f);
    JoinSegmentsInjective([last], path);
    assert Join([last], '/') == last;
    assert path == [last] <==> |path| == 1 && path[0] == last;
  }

  /** How many files bear the name before the file itself comes, or in all if it does not. */
  function HitsBefore(files: seq<FileRow>, path: seq<string>): nat {
    if files == [] || FileAt(files[0], path) then 0
    else (if NamedLike(files[0], path) then 1 else 0) + HitsBefore(files[1..], path)
  }

  ghost predicate HasFile(files: seq<FileRow>, path: seq<string>) {
    exists f <- files :: FileAt(f, path)
  }

  ghost predicate FoundRight(files: seq<FileRow>, path: seq<string>, found: Option<FileRow>, r: Option<FileRow>) {
    var hits := (if found.Some? then 1 else 0) + HitsBefore(files, path);
    && (HasFile(files, path) && hits <= 1 ==> r.Some? && r.value in files && FileAt(r.value, path))
    && (HasFile(files, path) && hits > 1 ==> r.None?)
    && (!HasFile(files, path) ==> (r.Some? <==> hits == 1))
    && (r.Some? && !HasFile(files, path) ==> r == found || (r.value in files && NamedLike(r.value, path)))
  }

  lemma NotHere(files: seq<FileRow>, path: seq<string>)
    requires files != [] && !FileAt(files[0], path)
    ensures HasFile(files, path) <==> HasFile(files[1..], path)
    ensures forall g <- files[1..] :: g in files
  {
    assert forall g <- files :: g == files[0] || g in files[1..];
  }

  lemma {:induction false} SearchMeans(files: seq<FileRow>, path: seq<string>, found: Option<FileRow>)
    requires NormalFiles(files) && CleanNames(path) && path != []
    ensures FoundRight(files, path, found, Search(files, Join(path, '/'), found))
  {
    if files != [] {
      var f, rest := files[0], files[1..];
      assert f in files;
      TextMatches(f, path);
      if FileAt(f, path) {
        assert HasFile(files, path);
      } else {
        NotHere(files, path);
        SearchMeans(rest, path, if NamedLike(f, path) then Some(f) else found);
      }
    }
  }

  lemma {:induction false} FirstUnderMeans(files: seq<FileRow>, path: seq<string>)
    requires NormalFiles(files) && CleanNames(path) && path != []
    ensures !HasFile(files, path) ==>
              (FirstUnder(files, Join(path, '/')) <==> exists f <- files :: f.selected && Under(path, Names(f)))
    ensures (forall f <- files :: f.selected ==> !Under(path, Names(f))) ==> !FirstUnder(files, Join(path, '/'))
  {
    if files != [] {
      var f, rest := files[0], files[1..];
      assert f in files && forall g <- rest :: g in files;
      assert forall g <- files :: g == f || g in rest;
      NamesClean(f);
      RelativeIsJoin(f);
      UnderByText(path, Names(f));
      FirstUnderMeans(rest, path);
      assert !HasFile(files, path) ==> !HasFile(rest, path) && !FileAt(f, path);
    }
  }

  datatype Opened = OpensFile(file: FileRow) | OpensDirectory | Missing

  /** The branches of Stat and OpenFile below a torrent. */
  function Open(files: seq<FileRow>, sub: string): Opened {
    if sub == "" then OpensDirectory
    else
      var found := FindFile(files, sub);
      if found.Some? then OpensFile(found.value)
      else if IsVirtualDir(files, sub) then OpensDirectory
      else Missing
  }

  lemma SameFile(files: seq<FileRow>, f: FileRow, g: FileRow)
    requires DistinctPaths(files) && f in files && g in files && f.selected && g.selected && Names(f) == Names(g)
    ensures f == g
  {
    var i: nat :| i < |files| && files[i] == f;
    var j: nat :| j < |files| && files[j] == g;
  }

  /** What opening a path comes to, by the tree and by the number of files that bear its name. */
  lemma OpenMeans(files: seq<FileRow>, path: seq<string>)
    requires NormalFiles(files) && CleanNames(path) && path != []
    ensures var o, hits := Open(files, Join(path, '/')), HitsBefore(files, path);
            && (HasFile(files, path) && hits <= 1 ==> o.OpensFile? && o.file in files && FileAt(o.file, path))
            && (HasFile(files, path) && hits > 1 ==> !o.OpensFile?)
            && (!HasFile(files, path) ==> (o.OpensFile? <==> hits == 1))
            && (!HasFile(files, path) && hits != 1 ==>
                  (o.OpensDirectory? <==> exists f <- files :: f.selected && Under(path, Names(f))))
    ensures Open(files, "") == OpensDirectory
  {
    CleanPathStays(path);
    JoinEnds(path);
    SearchMeans(files, path, None);
    FirstUnderMeans(files, path);
  }

  lemma DirectoryOpens(files: seq<FileRow>, d: seq<string>, name: string, f: FileRow)
    requires NormalFiles(files) && CleanNames(d + [name]) && !HasFile(files, d + [name])
    requires f in files && ChildOf(f, d, name)
    ensures Open(files, Join(d + [name], '/')) == OpensDirectory <==> HitsBefore(files, d + [name]) != 1
  {
    OpenMeans(files, d + [name]);
    ExtendBy(Names(f), d, name);
    assert !FileAt(f, d + [name]);
    assert Under(d + [name], Names(f));
  }

  lemma FileOpens(files: seq<FileRow>, path: seq<string>, f: FileRow)
    requires NormalFiles(files) && DistinctPaths(files) && CleanNames(path) && path != []
    requires f in files && FileAt(f, path)
    ensures Open(files, Join(path, '/')) == OpensFile(f) <==> HitsBefore(files, path) <= 1
  {
    OpenMeans(files, path);
    var o := Open(files, Join(path, '/'));
    if HitsBefore(files, path) <= 1 {
      SameFile(files, f, o.file);
    }
  }

  lemma ChildNameClean(d: seq<string>, name: string, f: FileRow)
    requires CleanNames(d) && ChildOf(f, d, name)
    ensures CleanNames(d + [name])
  {
    NamesAreClean(f);
    assert name in Names(f);
  }

  /**
   * An entry opens as what it is listed as exactly when few enough other files bear its name: for a
   * file at most one before it, for a directory any number but one.
   */
  lemma EntriesOpenExactly(files: seq<FileRow>, d: seq<string>, e: Info, o: Opened)
    requires NormalFiles(files) && DistinctPaths(files) && CleanNames(d) && !HasFile(files, d)
    requires e in Children(files, Join(d, '/')).Values && o == Open(files, Join(d + [e.name], '/'))
    ensures e.dir ==> (o == OpensDirectory <==> HitsBefore(files, d + [e.name]) != 1)
    ensures !e.dir ==>
              (o.OpensFile? && o.file.selected && Names(o.file) == d + [e.name] && o.file.bytes == e.size
               <==> HitsBefore(files, d + [e.name]) <= 1)
  {
    ListingMeans(files, d, e.name);
    var f :| f in files && ChildOf(f, d, e.name);
    ChildNameClean(d, e.name, f);
    if e.dir {
      DirectoryOpens(files, d, e.name, f);
    } else {
      var g :| g in files && FileAt(g, d + [e.name]) && g.bytes == e.size;
      FileOpens(files, d + [e.name], g);
      if o.OpensFile? && FileAt(o.file, d + [e.name]) {
        OpenMeans(files, d + [e.name]);
      }
    }
  }

  /** Below the top level no name is in question. */
  lemma {:induction false} NoHitsBelowTop(files: seq<FileRow>, path: seq<string>)
    requires |path| != 1
    ensures HitsBefore(files, path) == 0
  {
    if files != [] { NoHitsBelowTop(files[1..], path); }
  }

  /** A stored path is its names. */
  lemma PathOfNames(f: FileRow, names: seq<string>)
    requires names != [] && CleanNames(names) && f.path == ['/'] + Join(names, '/')
    ensures Names(f) == names && Normal(f)
  {
    JoinChars(names, '\\');
    assert '\\' !in f.path;
    assert ForwardSlashes(f.path) == f.path;
    SplitJoin(names, '/');
    SlashAtStart(Join(names, '/'));
    KeepEvery(names, NonEmpty);
  }

  lemma TwoNames(f: FileRow, a: string, b: string)
    requires CleanNames([a, b]) && f.path == "/" + a + "/" + b
    ensures Names(f) == [a, b] && Normal(f)
  {
    assert [a, b][1..] == [b];
    assert Join([a, b], '/') == a + ['/'] + b;
    assert f.path == ['/'] + Join([a, b], '/');
    PathOfNames(f, [a, b]);
  }

  /** The hits for "d" among files below "d" and "e". */
  lemma OneHit(files: seq<FileRow>)
    requires |files| == 2 && files[0].selected && files[1].selected
    requires Names(files[0]) == ["d", "x"] && Names(files[1]) == ["e", "d"]
    ensures HitsBefore(files, ["d"]) == 1 && !HasFile(files, ["d"])
  {
    assert files[1..] == [files[1]] && files[1..][1..] == [];
    assert HitsBefore([], ["d"]) == 0;
    assert HitsBefore(files[1..], ["d"]) == 1;
  }

  lemma SearchFindsTheOther(files: seq<FileRow>)
    requires |files| == 2 && NormalFiles(files) && !HasFile(files, ["d"]) && HitsBefore(files, ["d"]) == 1
    requires Names(files[0]) == ["d", "x"]
    ensures Search(files, Join(["d"], '/'), None) == Some(files[1])
  {
    SearchMeans(files, ["d"], None);
    assert !NamedLike(files[0], ["d"]);
  }

  lemma OpensTheOther(files: seq<FileRow>)
    requires |files| == 2 && NormalFiles(files) && !HasFile(files, ["d"]) && HitsBefore(files, ["d"]) == 1
    requires Names(files[0]) == ["d", "x"]
    ensures Open(files, "d") == OpensFile(files[1])
  {
    assert Join(["d"], '/') == "d";
    CleanPathStays(["d"]);
    SearchFindsTheOther(files);
  }

  lemma ListedAsDirectory(files: seq<FileRow>)
    requires |files| == 2 && NormalFiles(files) && !HasFile(files, ["d"])
    requires files[0].selected && Names(files[0]) == ["d", "x"]
    ensures "d" in Children(files, "") && Children(files, "")["d"].dir
  {
    assert [] + ["d"] == ["d"] && Join([], '/') == "";
    forall f | f in files ensures !FileAt(f, []) {}
    ListingMeans(files, [], "d");
    assert ChildOf(files[0], [], "d");
    assert files[0] in files;
  }

  lemma NamesOfTwo(f: FileRow, g: FileRow)
    requires f.path == "/d/x" && g.path == "/e/d"
    ensures Names(f) == ["d", "x"] && Normal(f) && Names(g) == ["e", "d"] && Normal(g)
  {
    TwoNames(f, "d", "x");
    TwoNames(g, "e", "d");
  }

  lemma OpensByNames(files: seq<FileRow>)
    requires |files| == 2 && files[0].selected && files[1].selected && NormalFiles(files)
    requires Names(files[0]) == ["d", "x"] && Names(files[1]) == ["e", "d"]
    ensures "d" in Children(files, "") && Children(files, "")["d"].dir
    ensures Open(files, "d") == OpensFile(files[1])
  {
    OneHit(files);
    ListedAsDirectory(files);
    OpensTheOther(files);
  }

  /** The directory "d" of "/d/x" opens as the file "/e/d". */
  lemma DirectoryOpensAsFile(files: seq<FileRow>)
    requires |files| == 2 && files[0].selected && files[1].selected
    requires files[0].path == "/d/x" && files[1].path == "/e/d"
    ensures "d" in Children(files, "") && Children(files, "")["d"].dir
    ensures Open(files, "d") == OpensFile(files[1])
  {
    NamesOfTwo(files[0], files[1]);
    forall f | f in files ensures Normal(f) { assert f == files[0] || f == files[1]; }
    OpensByNames(files);
  }

  // ----- listings in order -----------------------------------------------------------------

  ghost predicate Ascending(s: seq<Info>) {
    forall i: nat, j: nat | i < j < |s| :: Timestamps.Less(s[i].name, s[j].name)
  }

  /** The entries of the map, each once, by name. */
  ghost predicate Lists(s: seq<Info>, children: map<string, Info>) {
    && Ascending(s)
    && (forall e <- s :: e.name in children && children[e.name] == e)
    && (forall k <- children :: children[k] in s)
  }

  function Insert(e: Info, s: seq<Info>): (r: seq<Info>)
    ensures forall x :: x in r <==> x == e || x in s
  {
    if s == [] || Timestamps.Less(e.name, s[0].name) then [e] + s
    else
      assert s == [s[0]] + s[1..];
      [s[0]] + Insert(e, s[1..])
  }

  lemma {:induction false} LessTransitive(a: string, b: string, c: string)
    requires Timestamps.Less(a, b) && Timestamps.Less(b, c)
    ensures Timestamps.Less(a, c)
  {
    if a != "" && a[0] == b[0] == c[0] {
      LessTransitive(a[1..], b[1..], c[1..]);
    }
  }

  lemma {:induction false} InsertAscending(e: Info, s: seq<Info>)
    requires Ascending(s) && forall x <- s :: x.name != e.name
    ensures Ascending(Insert(e, s))
  {
    if s == [] {
    } else if Timestamps.Less(e.name, s[0].name) {
      forall j: nat | 0 < j < |s| ensures Timestamps.Less(e.name, s[j].name) {
        LessTransitive(e.name, s[0].name, s[j].name);
      }
    } else {
      var rest := Insert(e, s[1..]);
      InsertAscending(e, s[1..]);
      Timestamps.TextTotal(e.name, s[0].name);
      assert s[0] in s;
      forall j: nat | j < |rest| ensures Timestamps.Less(s[0].name, rest[j].name) {
        assert rest[j] in rest;
      }
    }
  }

  method ListChildren(files: seq<FileRow>, sub: string) returns (out: seq<Info>)
    ensures Lists(out, Children(files, TrimSlashes(sub)))
  {
    var subPath := TrimSlashes(sub);
    var children: map<string, Info> := map[];
    for i := 0 to |files|
      invariant Keyed(children) && children == Children(files[..i], subPath)
    {
      assert files[..i + 1][..i] == files[..i];
      children := AddChild(children, files[i], subPath);
    }
    assert files[..|files|] == files;
    out := [];
    var left := children.Keys;
    while left != {}
      invariant left <= children.Keys
      invariant Ascending(out)
      invariant forall e <- out :: e.name in children && e.name !in left && children[e.name] == e
      invariant forall k <- children :: k in left || children[k] in out
    {
      var k :| k in left;
      InsertAscending(children[k], out);
      out := Insert(children[k], out);
      left := left - {k};
    }
  }

  lemma SameElements(s: seq<Info>, t: seq<Info>, children: map<string, Info>)
    requires Lists(s, children) && Lists(t, children)
    ensures forall e :: e in s <==> e in t
  {
    forall e | e in s ensures e in t { assert children[e.name] in t; }
    forall e | e in t ensures e in s { assert children[e.name] in s; }
  }

  lemma HeadNotInRest(s: seq<Info>)
    requires Ascending(s) && s != []
    ensures s[0] !in s[1..]
  {
    Timestamps.LessIrreflexive(s[0].name);
    forall j: nat | 0 < j < |s| ensures s[j] != s[0] {
      assert Timestamps.Less(s[0].name, s[j].name);
    }
  }

  lemma HeadIsLeast(s: seq<Info>, e: Info)
    requires Ascending(s) && e in s
    ensures e == s[0] || Timestamps.Less(s[0].name, e.name)
  {}

  lemma {:induction false} AscendingUnique(s: seq<Info>, t: seq<Info>)
    requires Ascending(s) && Ascending(t) && forall e :: e in s <==> e in t
    ensures s == t
  {
    assert t != [] ==> t[0] in t;
    if s != [] {
      assert s[0] in s;
      HeadIsLeast(t, s[0]);
      assert t[0] in t;
      HeadIsLeast(s, t[0]);
      Timestamps.TextTotal(s[0].name, t[0].name);
      assert s == [s[0]] + s[1..] && t == [t[0]] + t[1..];
      HeadNotInRest(s);
      HeadNotInRest(t);
      assert forall e :: e in s[1..] <==> e in s && e != s[0];
      assert forall e :: e in t[1..] <==> e in t && e != t[0];
      AscendingUnique(s[1..], t[1..]);
    }
  }

  /** There is one listing. */
  lemma {:induction false} ListsUnique(s: seq<Info>, t: seq<Info>, children: map<string, Info>)
    requires Keyed(children) && Lists(s, children) && Lists(t, children)
    ensures s == t
  {
    SameElements(s, t, children);
    AscendingUnique(s, t);
  }

  ghost function Sorted(children: map<string, Info>, keys: set<string>): (s: seq<Info>)
    requires Keyed(children) && keys <= children.Keys
    ensures Ascending(s) && forall e :: e in s <==> e.name in keys && children[e.name] == e
  {
    if keys == {} then []
    else
      var k :| k in keys;
      var rest := Sorted(children, keys - {k});
      InsertAscending(children[k], rest);
      Insert(children[k], rest)
  }

  ghost function Listing(files: seq<FileRow>, d: seq<string>): (s: seq<Info>)
    ensures Lists(s, Children(files, Join(d, '/')))
  {
    var children := Children(files, Join(d, '/'));
    Sorted(children, children.Keys)
  }

  // ----- walking the tree ------------------------------------------------------------------

  datatype Visit = Visit(path: seq<string>, size: int)

  ghost function WalkEntries(files: seq<FileRow>, d: seq<string>, entries: seq<Info>, depth: nat): seq<Visit>
    decreases depth, 0, |entries|
  {
    if entries == [] then []
    else
      (if !entries[0].dir then [Visit(d + [entries[0].name], entries[0].size)]
       else if depth == 0 then []
       else Walk(files, d + [entries[0].name], depth - 1))
      + WalkEntries(files, d, entries[1..], depth)
  }

  /** Going through the directories from d down, at most depth levels below it. */
  ghost function Walk(files: seq<FileRow>, d: seq<string>, depth: nat): seq<Visit>
    decreases depth, 1, 0
  {
    WalkEntries(files, d, Listing(files, d), depth)
  }

  /** A file standing where a directory is needed hides what lies below. */
  ghost predicate Hidden(files: seq<FileRow>, d: seq<string>, path: seq<string>) {
    exists g <- files :: g.selected && Under(d, Names(g)) && Under(Names(g), path)
  }

  ghost predicate Reached(files: seq<FileRow>, d: seq<string>, v: Visit) {
    && Under(d, v.path) && !Hidden(files, d, v.path)
    && exists f <- files :: FileAt(f, v.path) && f.bytes == v.size
  }

  ghost predicate DeepEnough(files: seq<FileRow>, d: seq<string>, depth: nat) {
    forall f <- files :: f.selected && Under(d, Names(f)) ==> |Names(f)| <= |d| + 1 + depth
  }

  ghost predicate WalksBelow(files: seq<FileRow>, d: seq<string>, name: string, visits: seq<Visit>) {
    && Distinct(visits)
    && forall v :: v in visits <==> Reached(files, d, v) && v.path[|d|] == name
  }

  lemma NothingBetween(files: seq<FileRow>, d: seq<string>, name: string)
    ensures !Hidden(files, d, d + [name])
  {}

  lemma OnlyVisit(files: seq<FileRow>, d: seq<string>, name: string, f: FileRow, v: Visit)
    requires DistinctPaths(files) && f in files && FileAt(f, d + [name])
    requires Reached(files, d, v) && v.path[|d|] == name
    ensures v == Visit(d + [name], f.bytes)
  {
    var g :| g in files && FileAt(g, v.path) && g.bytes == v.size;
    ExtendBy(v.path, d, name);
    if v.path == d + [name] {
      SameFile(files, f, g);
    }
  }

  lemma FileEntryVisits(files: seq<FileRow>, d: seq<string>, e: Info)
    requires DistinctPaths(files) && !e.dir
    requires exists f <- files :: FileAt(f, d + [e.name]) && f.bytes == e.size
    ensures WalksBelow(files, d, e.name, [Visit(d + [e.name], e.size)])
  {
    var f :| f in files && FileAt(f, d + [e.name]) && f.bytes == e.size;
    var visit := Visit(d + [e.name], e.size);
    NothingBetween(files, d, e.name);
    assert Reached(files, d, visit);
    forall v ensures v in [visit] <==> Reached(files, d, v) && v.path[|d|] == e.name {
      if Reached(files, d, v) && v.path[|d|] == e.name { OnlyVisit(files, d, e.name, f, v); }
    }
  }

  /** Below a directory entry the walk from it reaches what the walk from here should. */
  lemma DirEntryReaches(files: seq<FileRow>, d: seq<string>, name: string, v: Visit)
    requires !HasFile(files, d + [name])
    ensures Reached(files, d + [name], v) <==> Reached(files, d, v) && v.path[|d|] == name
  {
    var path := d + [name];
    if path <= v.path {
      assert d < v.path && v.path[|d|] == name;
      if Hidden(files, d, v.path) {
        var g :| g in files && g.selected && Under(d, Names(g)) && Under(Names(g), v.path);
        assert Names(g) != path by { assert !FileAt(g, path); }
        assert Names(g)[|d|] == v.path[|d|];
        assert path <= Names(g);
        assert Under(path, Names(g));
      }
    }
    if Under(d, v.path) && v.path[|d|] == name {
      assert path <= v.path;
    }
  }

  lemma NameNotInRest(s: seq<Info>)
    requires Ascending(s) && s != []
    ensures forall e <- s[1..] :: e.name != s[0].name
  {
    Timestamps.LessIrreflexive(s[0].name);
    forall j: nat | 0 < j < |s| ensures s[j].name != s[0].name {
      assert Timestamps.Less(s[0].name, s[j].name);
    }
  }

  lemma DistinctConcat<T>(a: seq<T>, b: seq<T>)
    requires Distinct(a) && Distinct(b) && forall x <- a :: x !in b
    ensures Distinct(a + b)
  {
    forall i: nat, j: nat | i < |a| <= j < |a| + |b| ensures (a + b)[i] != (a + b)[j] {
      assert a[i] in a && b[j - |a|] in b;
    }
  }

  lemma DirEntryVisits(files: seq<FileRow>, d: seq<string>, name: string, visits: seq<Visit>)
    requires !HasFile(files, d + [name]) && Distinct(visits)
    requires forall v :: v in visits <==> Reached(files, d + [name], v)
    ensures WalksBelow(files, d, name, visits)
  {
    forall v ensures v in visits <==> Reached(files, d, v) && v.path[|d|] == name {
      DirEntryReaches(files, d, name, v);
    }
  }

  lemma GoesDeeper(files: seq<FileRow>, d: seq<string>, name: string, f: FileRow, depth: nat)
    requires f in files && ChildOf(f, d, name) && !HasFile(files, d + [name]) && DeepEnough(files, d, depth)
    ensures depth > 0 && DeepEnough(files, d + [name], depth - 1)
  {
    ExtendBy(Names(f), d, name);
    assert !FileAt(f, d + [name]);
    forall g | g in files && g.selected && Under(d + [name], Names(g)) ensures Under(d, Names(g)) {
      assert d < d + [name];
    }
  }

  lemma FileEntryWalks(files: seq<FileRow>, d: seq<string>, e: Info)
    requires NormalFiles(files) && DistinctPaths(files) && CleanNames(d) && !HasFile(files, d)
    requires e in Children(files, Join(d, '/')).Values && !e.dir
    ensures WalksBelow(files, d, e.name, [Visit(d + [e.name], e.size)])
  {
    ListingMeans(files, d, e.name);
    FileEntryVisits(files, d, e);
  }

  lemma DirEntryMeans(files: seq<FileRow>, d: seq<string>, e: Info, depth: nat)
    requires NormalFiles(files) && CleanNames(d) && !HasFile(files, d) && DeepEnough(files, d, depth)
    requires e in Children(files, Join(d, '/')).Values && e.dir
    ensures CleanNames(d + [e.name]) && !HasFile(files, d + [e.name])
    ensures depth > 0 && DeepEnough(files, d + [e.name], depth - 1)
  {
    ListingMeans(files, d, e.name);
    var f :| f in files && ChildOf(f, d, e.name);
    ChildNameClean(d, e.name, f);
    GoesDeeper(files, d, e.name, f, depth);
  }

  lemma {:induction false} WalkEntriesMean(files: seq<FileRow>, d: seq<string>, entries: seq<Info>, depth: nat)
    requires NormalFiles(files) && DistinctPaths(files) && CleanNames(d) && !HasFile(files, d)
    requires DeepEnough(files, d, depth)
    requires Ascending(entries) && forall e <- entries :: e in Children(files, Join(d, '/')).Values
    ensures Distinct(WalkEntries(files, d, entries, depth))
    ensures forall v :: v in WalkEntries(files, d, entries, depth)
              <==> Reached(files, d, v) && exists e <- entries :: e.name == v.path[|d|]
    decreases depth, 0, |entries|
  {
    if entries != [] {
      var e, rest := entries[0], entries[1..];
      assert e in entries && forall x <- rest :: x in entries;
      assert forall x <- entries :: x == e || x in rest;
      var first := if !e.dir then [Visit(d + [e.name], e.size)]
                   else if depth == 0 then [] else Walk(files, d + [e.name], depth - 1);
      EntryWalks(files, d, e, depth, first);
      WalkEntriesMean(files, d, rest, depth);
      NameNotInRest(entries);
      DistinctConcat(first, WalkEntries(files, d, rest, depth));
    }
  }

  lemma {:induction false} WalkMeans(files: seq<FileRow>, d: seq<string>, depth: nat)
    requires NormalFiles(files) && DistinctPaths(files) && CleanNames(d) && !HasFile(files, d)
    requires DeepEnough(files, d, depth)
    ensures Distinct(Walk(files, d, depth))
    ensures forall v :: v in Walk(files, d, depth) <==> Reached(files, d, v)
    decreases depth, 1, 0
  {
    var entries := Listing(files, d);
    var children := Children(files, Join(d, '/'));
    WalkEntriesMean(files, d, entries, depth);
    forall v | Reached(files, d, v) ensures exists e <- entries :: e.name == v.path[|d|] {
      ListingMeans(files, d, v.path[|d|]);
      var f :| f in files && FileAt(f, v.path) && f.bytes == v.size;
      assert ChildOf(f, d, v.path[|d|]);
      assert children[v.path[|d|]] in entries;
    }
  }

  lemma DirEntryWalks(files: seq<FileRow>, d: seq<string>, e: Info, depth: nat)
    requires NormalFiles(files) && DistinctPaths(files) && CleanNames(d) && !HasFile(files, d)
    requires DeepEnough(files, d, depth)
    requires e in Children(files, Join(d, '/')).Values && e.dir
    ensures depth > 0 && WalksBelow(files, d, e.name, Walk(files, d + [e.name], depth - 1))
    decreases depth, 0, 0, 0
  {
    DirEntryMeans(files, d, e, depth);
    WalkMeans(files, d + [e.name], depth - 1);
    DirEntryVisits(files, d, e.name, Walk(files, d + [e.name], depth - 1));
  }

  lemma EntryWalks(files: seq<FileRow>, d: seq<string>, e: Info, depth: nat, visits: seq<Visit>)
    requires NormalFiles(files) && DistinctPaths(files) && CleanNames(d) && !HasFile(files, d)
    requires DeepEnough(files, d, depth)
    requires e in Children(files, Join(d, '/')).Values
    requires visits == if !e.dir then [Visit(d + [e.name], e.size)]
                       else if depth == 0 then [] else Walk(files, d + [e.name], depth - 1)
    ensures WalksBelow(files, d, e.name, visits)
    decreases depth, 0, 0, 1
  {
    if e.dir { DirEntryWalks(files, d, e, depth); } else { FileEntryWalks(files, d, e); }
  }

  /** No selected file stands on the way to another. */
  ghost predicate PrefixFree(files: seq<FileRow>) {
    forall f <- files, g <- files :: f.selected && g.selected ==> !Under(Names(f), Names(g))
  }

  lemma ReachedWhenNotHidden(files: seq<FileRow>, f: FileRow)
    requires f in files && f.selected && Names(f) != []
    ensures Reached(files, [], Visit(Names(f), f.bytes)) <==> !Hidden(files, [], Names(f))
  {
    assert FileAt(f, Names(f));
  }

  lemma NoneHiddenExactly(files: seq<FileRow>)
    requires NormalFiles(files)
    ensures (forall f <- files :: f.selected ==> !Hidden(files, [], Names(f))) <==> PrefixFree(files)
  {
    assert forall g <- files :: Under([], Names(g));
  }

  /**
   * The walk from the top meets each selected file at most once, with its size, and meets them all
   * exactly when none stands on the way to another.
   */
  lemma WalkIsWhole(files: seq<FileRow>, depth: nat)
    requires NormalFiles(files) && DistinctPaths(files)
    requires forall f <- files :: f.selected ==> |Names(f)| <= 1 + depth
    ensures Distinct(Walk(files, [], depth))
    ensures forall v <- Walk(files, [], depth) :: exists f <- files :: FileAt(f, v.path) && f.bytes == v.size
    ensures (forall f <- files :: f.selected ==> Visit(Names(f), f.bytes) in Walk(files, [], depth))
        <==> PrefixFree(files)
  {
    forall f | f in files ensures !FileAt(f, []) {}
    WalkMeans(files, [], depth);
    NoneHiddenExactly(files);
    forall f | f in files && f.selected
      ensures Visit(Names(f), f.bytes) in Walk(files, [], depth) <==> !Hidden(files, [], Names(f))
    {
      ReachedWhenNotHidden(files, f);
    }
  }

  // ----- Readdir ---------------------------------------------------------------------------

  datatype Batch = Batch(entries: seq<Info>, eof: bool)

  function ReadFrom(entries: seq<Info>, pos: nat, n: int): (r: (nat, Batch))
    requires pos <= |entries|
    ensures pos <= r.0 <= |entries| && r.1.entries == entries[pos..r.0]
  {
    if pos >= |entries| then (pos, Batch([], n > 0))
    else if n <= 0 then (|entries|, Batch(entries[pos..], false))
    else
      var end := if pos + n > |entries| then |entries| else pos + n;
      (end, Batch(entries[pos..end], end >= |entries|))
  }

  function ReadAll(entries: seq<Info>, pos: nat, asks: seq<int>): seq<Batch>
    requires pos <= |entries|
    decreases |asks|
  {
    if asks == [] then []
    else
      var r := ReadFrom(entries, pos, asks[0]);
      [r.1] + ReadAll(entries, r.0, asks[1..])
  }

  function Flat(batches: seq<Batch>): seq<Info> {
    if batches == [] then [] else batches[0].entries + Flat(batches[1..])
  }

  /**
   * Whatever is asked for, the batches are the entries in order, each once, up to some point; that
   * point is the end as soon as a batch says so, or when everything was asked for at once.
   */
  lemma {:induction false} ReadingIsExact(entries: seq<Info>, pos: nat, asks: seq<int>)
    requires pos <= |entries|
    ensures Flat(ReadAll(entries, pos, asks)) <= entries[pos..]
    ensures (exists b <- ReadAll(entries, pos, asks) :: b.eof) || (exists n <- asks :: n <= 0)
        ==> Flat(ReadAll(entries, pos, asks)) == entries[pos..]
    decreases |asks|
  {
    if asks != [] {
      var r := ReadFrom(entries, pos, asks[0]);
      ReadingIsExact(entries, r.0, asks[1..]);
      assert entries[pos..] == entries[pos..r.0] + entries[r.0..];
      assert forall n <- asks :: n == asks[0] || n in asks[1..];
      var all := ReadAll(entries, pos, asks);
      assert all == [r.1] + ReadAll(entries, r.0, asks[1..]);
      assert all[1..] == ReadAll(entries, r.0, asks[1..]);
      if r.0 == |entries| { assert entries[r.0..] == []; }
    }
  }

  /** Asking as often as there are entries left, for any number at a time, reads them all. */
  lemma {:induction false} AskingEnoughReadsAll(entries: seq<Info>, pos: nat, asks: seq<int>)
    requires pos <= |entries| && (forall n <- asks :: n > 0) && |asks| >= |entries| - pos
    ensures Flat(ReadAll(entries, pos, asks)) == entries[pos..]
    decreases |asks|
  {
    if asks != [] {
      var r := ReadFrom(entries, pos, asks[0]);
      assert forall n <- asks[1..] :: n in asks;
      ReadingIsExact(entries, r.0, asks[1..]);
      if r.0 < |entries| {
        assert asks[0] in asks;
        AskingEnoughReadsAll(entries, r.0, asks[1..]);
      }
      assert entries[pos..] == entries[pos..r.0] + entries[r.0..];
      assert ReadAll(entries, pos, asks)[1..] == ReadAll(entries, r.0, asks[1..]);
    }
  }

  class Dir {
    const entries: seq<Info>
    var pos: nat

    ghost predicate Valid()
      reads this
    {
      pos <= |entries|
    }

    constructor (entries: seq<Info>)
      ensures Valid() && this.entries == entries && pos == 0
    {
      this.entries, pos := entries, 0;
    }

    method Readdir(n: int) returns (b: Batch)
      requires Valid()
      modifies this
      ensures Valid()
      ensures (pos, b) == ReadFrom(entries, old(pos), n)
      ensures pos == (if n <= 0 || old(pos) + n >= |entries| then |entries| else old(pos) + n)
      ensures b.entries == entries[old(pos)..pos] && (b.eof <==> n > 0 && pos == |entries|)
    {
      if pos >= |entries| {
        return Batch([], n > 0);
      }
      if n <= 0 {
        var out := [];
        for i := pos to |entries|
          invariant out == entries[pos..i]
        {
          out := out + [entries[i]];
        }
        assert entries[pos..|entries|] == entries[pos..];
        pos := |entries|;
        return Batch(out, false);
      }
      var end := pos + n;
      if end > |entries| {
        end := |entries|;
      }
      var out := [];
      for i := pos to end
        invariant out == entries[pos..i]
      {
        out := out + [entries[i]];
      }
      pos := end;
      return Batch(out, pos >= |entries|);
    }
  }

  method FindFileByScan(files: seq<FileRow>, sub: string) returns (r: Option<FileRow>)
    ensures r == FindFile(files, sub)
  {
    var clean := TrimSlashes(ForwardSlashes(sub));
    var want := "/" + clean;
    var basenameMatch: Option<FileRow> := None;
    var i := 0;
    while i < |files|
      invariant i <= |files|
      invariant FindFile(files, sub) == Search(files[i..], clean, basenameMatch)
    {
      var f := files[i];
      assert files[i..][1..] == files[i + 1..];
      i := i + 1;
      if f.selected {
        var p := ForwardSlashes(f.path);
        if p == want {
          return Some(f);
        }
        if Base(p) == clean {
          if basenameMatch.Some? {
            return None;
          }
          basenameMatch := Some(f);
        }
      }
    }
    return basenameMatch;
  }

  method IsVirtualDirByScan(files: seq<FileRow>, sub: string) returns (r: bool)
    ensures r == IsVirtualDir(files, sub)
  {
    if sub == "" {
      return true;
    }
    var subPath := TrimSlashes(sub);
    var i := 0;
    while i < |files|
      invariant i <= |files|
      invariant FirstUnder(files, subPath) == FirstUnder(files[i..], subPath)
    {
      var f := files[i];
      assert files[i..][1..] == files[i + 1..];
      i := i + 1;
      if f.selected {
        var rel := Relative(f);
        if rel == subPath {
          return false;
        }
        if subPath + "/" <= rel {
          return true;
        }
      }
    }
    return false;
  }
}
