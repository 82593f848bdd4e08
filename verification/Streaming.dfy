/**
 * From an HTTP Range header to the torrent pieces downloaded first: ParseRange, the window that
 * OpenServingReader computes around the range, and the pieces that prioritizeFileRange marks.
 */
module Streaming {
  import opened Strings
  import opened Arithmetic
  import opened Decimal

  datatype ByteRange = ByteRange(start: int, length: int)

  predicate IsSpace(c: char) {
    || '\t' <= c <= '\r' || c == ' ' || c == '\U{85}' || c == '\U{A0}' || c == '\U{1680}'
    || '\U{2000}' <= c <= '\U{200A}' || c == '\U{2028}' || c == '\U{2029}' || c == '\U{202F}'
    || c == '\U{205F}' || c == '\U{3000}'
  }

  /** The characters that Unicode calls white space. */
  const WHITE_SPACE :=
    "\t\n\U{0B}\U{0C}\r \U{85}\U{A0}\U{1680}\U{2000}\U{2001}\U{2002}\U{2003}\U{2004}\U{2005}\U{2006}\U{2007}"
    + "\U{2008}\U{2009}\U{200A}\U{2028}\U{2029}\U{202F}\U{205F}\U{3000}"

  lemma IsSpaceExactly(c: char)
    ensures IsSpace(c) <==> c in WHITE_SPACE
  {
    var w := WHITE_SPACE;
    assert w[0] == '\t' && w[1] == '\n' && w[2] == '\U{0B}' && w[3] == '\U{0C}' && w[4] == '\r';
  }

  function TrimLeft(s: string): string {
    if s != [] && IsSpace(s[0]) then TrimLeft(s[1..]) else s
  }

  function TrimRight(s: string): string {
    if s != [] && IsSpace(s[|s| - 1]) then TrimRight(s[..|s| - 1]) else s
  }

  function TrimSpace(s: string): string { TrimRight(TrimLeft(s)) }

  function IndexOf(s: string, c: char): (i: int)
    ensures -1 <= i < |s|
    ensures i >= 0 ==> s[i] == c
  {
    if s == [] then -1
    else if s[0] == c then 0
    else var i := IndexOf(s[1..], c); if i < 0 then -1 else i + 1
  }

  lemma {:induction false} TrimLeftWithout(s: string, c: char)
    requires c !in s
    ensures c !in TrimLeft(s)
  {
    if s != [] && IsSpace(s[0]) { TrimLeftWithout(s[1..], c); }
  }

  lemma {:induction false} TrimRightWithout(s: string, c: char)
    requires c !in s
    ensures c !in TrimRight(s)
  {
    if s != [] && IsSpace(s[|s| - 1]) { TrimRightWithout(s[..|s| - 1], c); }
  }

  lemma TrimKeepsWithout(s: string, c: char)
    requires c !in s
    ensures IndexOf(TrimSpace(s), c) == -1
  {
    TrimLeftWithout(s, c);
    TrimRightWithout(TrimLeft(s), c);
  }

  lemma {:induction false} IndexOfFirst(a: string, c: char, b: string)
    requires c !in a
    ensures IndexOf(a + [c] + b, c) == |a|
  {
    if a != [] {
      IndexOfFirst(a[1..], c, b);
      assert (a + [c] + b)[1..] == a[1..] + [c] + b;
    }
  }

  const UNIT := "bytes="

  function ParsePart(first: string, last: string, size: int): ByteRange
    requires size > 0
  {
    if first == "" then
      match ParseInt(last)
      case None => ByteRange(0, 0)
      case Some(suffix) =>
        if suffix <= 0 then ByteRange(0, 0)
        else
          var n := if suffix > size then size else suffix;
          ByteRange(size - n, n)
    else
      match ParseInt(first)
      case None => ByteRange(0, 0)
      case Some(start) =>
        if start < 0 || start >= size then ByteRange(0, 0)
        else if last == "" then ByteRange(start, 0)
        else
          match ParseInt(last)
          case None => ByteRange(start, 0)
          case Some(end) =>
            if end < start then ByteRange(start, 0)
            else ByteRange(start, (if end >= size then size - 1 else end) - start + 1)
  }

  function ParseRange(header: string, size: int): ByteRange {
    if size <= 0 || !(UNIT <= header) then ByteRange(0, 0)
    else
      var part := TrimSpace(Split(header[|UNIT|..], ',')[0]);
      var dash := IndexOf(part, '-');
      if dash < 0 then ByteRange(0, 0)
      else ParsePart(TrimSpace(part[..dash]), TrimSpace(part[dash + 1..]), size)
  }

  /** Whatever the header, the result lies inside the file. */
  lemma ParsedRangeInside(header: string, size: int)
    requires size > 0
    ensures var r := ParseRange(header, size); 0 <= r.start < size && 0 <= r.length && r.start + r.length <= size
  {}

  /** Without a size, another unit than bytes, or no dash in its first range: the whole file. */
  lemma NoRangeInHeader(header: string, size: int, value: string)
    ensures size <= 0 || !("bytes=" <= header) ==> ParseRange(header, size) == ByteRange(0, 0)
    ensures '-' !in value && ',' !in value ==> ParseRange("bytes=" + value, size) == ByteRange(0, 0)
  {
    if '-' !in value && ',' !in value {
      assert ("bytes=" + value)[|UNIT|..] == value;
      SplitWithout(value, ',');
      TrimKeepsWithout(value, '-');
    }
  }

  /**
   * Numbers that cannot be read, or make no range: a first one that is not in the file gives the whole file, a last
   * one before it gives the rest from the first on, and without a first one a last one that is not positive gives
   * the whole file.
   */
  lemma UnusableNumbers(first: string, last: string, size: int)
    requires size > 0 && '-' !in first && ',' !in first && ',' !in last
    requires TrimSpace(first + ['-'] + last) == first + ['-'] + last
    ensures var r := ParseRange("bytes=" + (first + ['-'] + last), size);
      var x, y := ParseInt(TrimSpace(first)), ParseInt(TrimSpace(last));
      && (TrimSpace(first) != "" && (x.None? || x.value < 0 || x.value >= size) ==> r == ByteRange(0, 0))
      && (TrimSpace(first) != "" && x.Some? && 0 <= x.value < size && (y.None? || y.value < x.value) ==>
            r == ByteRange(x.value, 0))
      && (TrimSpace(first) == "" && (y.None? || y.value <= 0) ==> r == ByteRange(0, 0))
  {
    var value := first + ['-'] + last;
    assert ("bytes=" + value)[|UNIT|..] == value;
    SplitWithout(value, ',');
    IndexOfFirst(first, '-', last);
    assert value[..|first|] == first && value[|first| + 1..] == last;
  }

  // ----- RFC 9110, section 14.1.2 ---------------------------------------------------------

  /** A range-spec of the grammar; its numbers are any digits, as many as one likes. */
  datatype RangeSpec = From(first: string, last: string) | OpenEnd(start: string) | Suffix(count: string)

  function PrintSpec(spec: RangeSpec): string {
    match spec
    case From(first, last) => first + "-" + last
    case OpenEnd(start) => start + "-"
    case Suffix(count) => "-" + count
  }

  ghost predicate Grammatical(spec: RangeSpec) {
    match spec
    case From(first, last) => Digits(first) && Digits(last)
    case OpenEnd(start) => Digits(start)
    case Suffix(count) => Digits(count)
  }

  /**
   * The bytes that the standard says a range selects, from the first to before the end. None for a
   * range that is not valid (it ends before it begins) or not satisfiable (past the end, or no bytes).
   */
  function Selected(spec: RangeSpec, size: nat): Option<(nat, nat)> {
    match spec
    case From(first, last) =>
      var from, to := Value(first), Value(last);
      if to < from || from >= size then None else Some((from, if to < size then to + 1 else size))
    case OpenEnd(start) => if Value(start) >= size then None else Some((Value(start), size))
    case Suffix(count) =>
      if Value(count) == 0 then None else Some((if Value(count) <= size then size - Value(count) else 0, size))
  }

  /** The bytes a parsed range stands for: length 0 means to the end. */
  function Covered(r: ByteRange, size: nat): (int, int) {
    (r.start, if r.length == 0 then size else r.start + r.length)
  }

  /** What comes of a range that selects nothing: everything from a position inside, or from the start. */
  function Unselected(spec: RangeSpec, size: nat): ByteRange {
    ByteRange(if spec.From? && Value(spec.first) < size then Value(spec.first) else 0, 0)
  }

  lemma DigitsAreNotTrimmed(s: string)
    requires Digits(s)
    ensures TrimSpace(s) == s && '-' !in s && ',' !in s
  {
    assert s[0] in s && s[|s| - 1] in s;
  }

  lemma DigitEnds(s: string)
    requires Digits(s)
    ensures IsDigit(s[0]) && IsDigit(s[|s| - 1]) && ',' !in s
  {
    assert s[0] in s && s[|s| - 1] in s;
  }

  lemma SpecEnds(spec: RangeSpec)
    requires Grammatical(spec)
    ensures var s := PrintSpec(spec); s != [] && !IsSpace(s[0]) && !IsSpace(s[|s| - 1]) && ',' !in s
  {
    match spec
    case From(first, last) =>
      DigitEnds(first);
      DigitEnds(last);
    case OpenEnd(start) =>
      DigitEnds(start);
    case Suffix(count) =>
      DigitEnds(count);
  }

  lemma {:induction false} TrimLeftSpaces(pad: string, s: string)
    requires (forall c <- pad :: IsSpace(c)) && s != [] && !IsSpace(s[0])
    ensures TrimLeft(pad + s) == s
  {
    if pad == [] {
      assert pad + s == s;
    } else {
      assert (pad + s)[1..] == pad[1..] + s;
      TrimLeftSpaces(pad[1..], s);
    }
  }

  lemma {:induction false} TrimRightSpaces(s: string, pad: string)
    requires (forall c <- pad :: IsSpace(c)) && s != [] && !IsSpace(s[|s| - 1])
    ensures TrimRight(s + pad) == s
  {
    if pad == [] {
      assert s + pad == s;
    } else {
      var n := |pad| - 1;
      assert (s + pad)[..|s + pad| - 1] == s + pad[..n];
      TrimRightSpaces(s, pad[..n]);
    }
  }

  lemma PaddedSpec(before: string, spec: RangeSpec, after: string)
    requires Grammatical(spec) && (forall c <- before :: IsSpace(c)) && (forall c <- after :: IsSpace(c))
    ensures TrimSpace(before + PrintSpec(spec) + after) == PrintSpec(spec)
  {
    var s := PrintSpec(spec);
    SpecEnds(spec);
    assert before + s + after == before + (s + after);
    TrimLeftSpaces(before, s + after);
    TrimRightSpaces(s, after);
  }

  /** The range parsed is the one selected, up to how "to the end" is said. */
  ghost predicate Agrees(r: ByteRange, spec: RangeSpec, size: nat) {
    match Selected(spec, size)
    case None => r == Unselected(spec, size)
    case Some(range) => Covered(r, size) == range
  }

  lemma PartsAgree(spec: RangeSpec, size: nat)
    requires Grammatical(spec) && 0 < size <= MAX_INT64
    ensures var (first, last) := (match spec
              case From(first, last) => (first, last)
              case OpenEnd(start) => (start, "")
              case Suffix(count) => ("", count));
            Agrees(ParsePart(first, last, size), spec, size)
  {
    match spec
    case From(first, last) =>
      ParseDigits(first);
      ParseDigits(last);
    case OpenEnd(start) =>
      ParseDigits(start);
    case Suffix(count) =>
      ParseDigits(count);
  }

  lemma ParsePrintedSpec(spec: RangeSpec, size: nat)
    requires Grammatical(spec) && 0 < size <= MAX_INT64
    ensures var part := PrintSpec(spec);
      var dash := IndexOf(part, '-');
      dash >= 0 && Agrees(ParsePart(TrimSpace(part[..dash]), TrimSpace(part[dash + 1..]), size), spec, size)
  {
    var part := PrintSpec(spec);
    PartsAgree(spec, size);
    match spec
    case From(first, last) =>
      DigitsAreNotTrimmed(first);
      DigitsAreNotTrimmed(last);
      IndexOfFirst(first, '-', last);
      assert part[..|first|] == first && part[|first| + 1..] == last;
    case OpenEnd(start) =>
      DigitsAreNotTrimmed(start);
      IndexOfFirst(start, '-', "");
      assert part == start + ['-'] + "";
      assert part[..|start|] == start && part[|start| + 1..] == "";
    case Suffix(count) =>
      DigitsAreNotTrimmed(count);
      assert part[..0] == "" && part[1..] == count;
  }

  /** Only the first of several ranges counts, and the white space around it does not. */
  lemma FirstRange(before: string, spec: RangeSpec, after: string, more: string)
    requires Grammatical(spec) && (forall c <- before :: IsSpace(c)) && (forall c <- after :: IsSpace(c))
    requires more == "" || more[0] == ','
    ensures TrimSpace(Split(before + PrintSpec(spec) + after + more, ',')[0]) == PrintSpec(spec)
  {
    var part := before + PrintSpec(spec) + after;
    SpecEnds(spec);
    SplitWithout(part, ',');
    if more == "" {
      assert part + more == part;
    } else {
      assert part + more == part + [','] + more[1..];
      SplitAtSeparator(part, ',', more[1..]);
    }
    PaddedSpec(before, spec, after);
  }

  /**
   * A header with any range of the grammar, padded with any white space and followed by any further
   * ranges, gives exactly the bytes that range selects, whatever the size of its numbers; one that
   * selects none gives no bounded range.
   */
  lemma ParseRangeFollowsStandard(before: string, spec: RangeSpec, after: string, more: string, size: nat)
    requires Grammatical(spec) && 0 < size <= MAX_INT64
    requires (forall c <- before :: IsSpace(c)) && (forall c <- after :: IsSpace(c))
    requires more == "" || more[0] == ','
    ensures var r := ParseRange(UNIT + (before + PrintSpec(spec) + after + more), size);
      match Selected(spec, size)
      case None => r == Unselected(spec, size)
      case Some(range) => Covered(r, size) == range
  {
    var value := before + PrintSpec(spec) + after + more;
    assert (UNIT + value)[|UNIT|..] == value;
    FirstRange(before, spec, after, more);
    ParsePrintedSpec(spec, size);
  }

  // ----- the window -----------------------------------------------------------------------

  const MIB := 1024 * 1024

  /** Settings in MiB; values that are not positive stand for the defaults. */
  datatype Config = Config(readaheadMB: int, seekReadaheadMB: int, seekPreRollMB: int) {
    function StreamReadahead(): (n: int) ensures n > 0 { if readaheadMB <= 0 then 32 * MIB else readaheadMB * MIB }
    function SeekReadahead(): (n: int) ensures n > 0 {
      if seekReadaheadMB <= 0 then 64 * MIB else seekReadaheadMB * MIB
    }
    function SeekPreRoll(): (n: int) ensures n > 0 { if seekPreRollMB <= 0 then 8 * MIB else seekPreRollMB * MIB }
  }

  /** The settings in bytes, and the defaults for those that are not positive. */
  lemma ConfigInBytes(c: Config)
    ensures c.StreamReadahead() == if c.readaheadMB > 0 then c.readaheadMB * 1_048_576 else 33_554_432
    ensures c.SeekReadahead() == if c.seekReadaheadMB > 0 then c.seekReadaheadMB * 1_048_576 else 67_108_864
    ensures c.SeekPreRoll() == if c.seekPreRollMB > 0 then c.seekPreRollMB * 1_048_576 else 8_388_608
  {}

  /**
   * The bytes of the file to download first. The read position is clamped into the file; the window
   * begins at most the pre-roll before it, never before the file, and reaches at least the end of
   * the requested bytes and at least the read-ahead beyond them.
   */
  method ComputeWindow(config: Config, fileBytes: int, startOffset: int, requestLength: int)
    returns (start: int, priorityStart: int, span: int)
    requires fileBytes >= 0
    ensures start == if startOffset < 0 || fileBytes == 0 then 0
                     else if startOffset >= fileBytes then fileBytes - 1 else startOffset
    ensures 0 <= priorityStart <= start && span > 0
    ensures start == 0 ==> priorityStart == 0
    ensures start > 0 ==> priorityStart == (if start > config.SeekPreRoll() then start - config.SeekPreRoll() else 0)
    ensures var ahead := if start > 0 then config.SeekReadahead() else config.StreamReadahead();
      var roll := if start > 0 then config.SeekPreRoll() else 0;
      span == (if requestLength > 0 then requestLength else 0) + ahead + roll
      && priorityStart + span >= start + (if requestLength > 0 then requestLength else 0) + ahead
  {
    var readahead, preRoll := config.StreamReadahead(), 0;
    start := startOffset;
    if start < 0 {
      start := 0;
    }
    if start >= fileBytes {
      start := fileBytes - 1;
    }
    if start < 0 {
      start := 0;
    }
    priorityStart := start;
    span := readahead + preRoll;
    if start > 0 {
      readahead := config.SeekReadahead();
      preRoll := config.SeekPreRoll();
      priorityStart := start - preRoll;
      if priorityStart < 0 {
        priorityStart := 0;
      }
      span := readahead + preRoll;
    }
    if requestLength > 0 {
      span := requestLength + readahead + preRoll;
    }
  }

  // ----- the pieces -----------------------------------------------------------------------

  /** Where a file lies in its torrent; the torrent library's floor and ceiling piece bounds. */
  datatype Layout = Layout(pieceLength: int, offset: int, length: int) {
    ghost predicate Ok() { pieceLength > 0 && offset >= 0 && length >= 0 }

    function BeginPiece(): int
      requires pieceLength > 0
    {
      offset / pieceLength
    }

    function EndPiece(): int
      requires pieceLength > 0
    {
      (offset + length + pieceLength - 1) / pieceLength
    }
  }

  function Max(a: int, b: int): int { if a >= b then a else b }
  function Min(a: int, b: int): int { if a <= b then a else b }

  /** Piece p has a byte in from..to-1. */
  predicate Intersects(pieceLength: int, p: int, from: int, to: int) {
    Max(p * pieceLength, from) < Min(p * pieceLength + pieceLength, to)
  }

  /** floor(a / d) <= p exactly when piece p ends after a; p < ceil(b / d) exactly when it begins before b. */
  lemma FloorCeil(d: int, p: int, a: int, b: int)
    requires d > 0
    ensures a / d <= p <==> a < p * d + d
    ensures p < (b + d - 1) / d <==> p * d < b
  {
    DivBounds(a, d);
    DivBounds(b + d - 1, d);
    if a / d <= p { if a / d < p { MulLess(a / d, p, d); } } else { MulLess(p, a / d, d); }
    var c := (b + d - 1) / d;
    if p < c { MulLess(p, c, d); } else if c < p { MulLess(c, p, d); }
  }

  datatype Priority = None_ | Normal | High

  class Pieces {
    const priority: array<Priority>

    constructor (n: nat)
      ensures fresh(priority) && priority.Length == n
    {
      priority := new Priority[n](_ => None_);
    }

    /**
     * Marks exactly the pieces that hold a byte of the window: from `startByte` of the file on, as
     * long as `span` but at least one piece, and not beyond the file.
     */
    method PrioritizeFileRange(f: Layout, startByte: int, span: int)
      requires f.Ok() && 0 <= startByte < f.length && f.EndPiece() <= priority.Length
      modifies priority
      ensures var from, to := f.offset + startByte, f.offset + Min(f.length, startByte + Max(span, f.pieceLength));
        forall p: nat | p < priority.Length ::
          priority[p] == if Intersects(f.pieceLength, p, from, to) then High else old(priority[p])
    {
      var length := span;
      if length < f.pieceLength {
        length := f.pieceLength;
      }
      var absStart := f.offset + startByte;
      var absEnd := absStart + length;
      if absEnd > f.offset + f.length {
        absEnd := f.offset + f.length;
      }
      var begin := absStart / f.pieceLength;
      var end := (absEnd + f.pieceLength - 1) / f.pieceLength;
      if begin < f.BeginPiece() {
        begin := f.BeginPiece();
      }
      if end > f.EndPiece() {
        end := f.EndPiece();
      }
      DivMono(f.offset, absStart, f.pieceLength);
      DivMono(absEnd + f.pieceLength - 1, f.offset + f.length + f.pieceLength - 1, f.pieceLength);
      DivMono(0, absStart, f.pieceLength);
      forall p: nat | p < priority.Length
        ensures begin <= p < end <==> Intersects(f.pieceLength, p, absStart, absEnd)
      {
        FloorCeil(f.pieceLength, p, absStart, absEnd);
      }
      if begin >= end {
        return;
      }
      for i := begin to end
        invariant forall p: nat | p < priority.Length ::
          priority[p] == if begin <= p < i then High else old(priority[p])
      {
        priority[i] := High;
      }
    }
  }

  /**
   * The whole way: for every header that selects bytes of a file that is not empty, every piece with
   * one of the selected bytes is marked, and the marked pieces are exactly those of the window.
   */
  method ServeRange(config: Config, header: string, f: Layout, pieces: Pieces)
    returns (r: ByteRange, from: int, to: int)
    requires f.Ok() && f.length > 0 && f.EndPiece() <= pieces.priority.Length
    modifies pieces.priority
    ensures r == ParseRange(header, f.length) && r.start + r.length <= f.length
    ensures var seeks := r.start > 0;
      var ahead := if seeks then config.SeekReadahead() else config.StreamReadahead();
      var roll := if seeks then config.SeekPreRoll() else 0;
      var begin := if r.start > roll then r.start - roll else 0;
      && from == f.offset + begin
      && to == f.offset + Min(f.length, begin + Max(r.length + ahead + roll, f.pieceLength))
    ensures f.offset <= from <= f.offset + r.start && f.offset + r.start + r.length <= to <= f.offset + f.length
    ensures forall p: nat | p < pieces.priority.Length ::
      pieces.priority[p] == if Intersects(f.pieceLength, p, from, to) then High else old(pieces.priority[p])
    ensures forall p: nat | p < pieces.priority.Length
      && Intersects(f.pieceLength, p, f.offset + r.start, f.offset + r.start + r.length) :: pieces.priority[p] == High
  {
    r := ParseRange(header, f.length);
    ParsedRangeInside(header, f.length);
    var start, priorityStart, span := ComputeWindow(config, f.length, r.start, r.length);
    from, to := f.offset + priorityStart, f.offset + Min(f.length, priorityStart + Max(span, f.pieceLength));
    pieces.PrioritizeFileRange(f, priorityStart, span);
  }

  /** When a torrent starts: exactly the pieces of the first and of the last window of the file are marked. */
  method PrioritizeStreamStart(config: Config, f: Layout, pieces: Pieces)
    requires f.Ok() && f.length > 0 && f.EndPiece() <= pieces.priority.Length
    modifies pieces.priority
    ensures var window, end := config.StreamReadahead(), f.offset + f.length;
      forall p: nat | p < pieces.priority.Length ::
        pieces.priority[p] ==
          if Intersects(f.pieceLength, p, f.offset, f.offset + Min(f.length, Max(window, f.pieceLength)))
             || (window < f.length && Intersects(f.pieceLength, p, end - window, end))
          then High else old(pieces.priority[p])
  {
    var window := config.StreamReadahead();
    pieces.PrioritizeFileRange(f, 0, window);
    var tailStart := f.length - window;
    if tailStart < 0 {
      tailStart := 0;
    }
    if tailStart > 0 {
      pieces.PrioritizeFileRange(f, tailStart, window);
    }
  }
}
