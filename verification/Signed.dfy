/**
 * Signed download links. A string is a sequence of bytes here, one char below 256 for each; the
 * keyed hash is any function from the signed text to the signature text.
 */
module Signed {
  import opened Arithmetic
  import opened Strings
  import opened Decimal

  // ----- percent-encoding (RFC 3986, section 2.1) -----------------------------------------

  predicate IsByte(c: char) { c as int < 256 }

  predicate IsHex(c: char) { '0' <= c <= '9' || 'a' <= c <= 'f' || 'A' <= c <= 'F' }

  function HexValue(c: char): (v: int)
    requires IsHex(c)
    ensures 0 <= v < 16
  {
    if '0' <= c <= '9' then c as int - '0' as int
    else if 'a' <= c <= 'f' then c as int - 'a' as int + 10
    else c as int - 'A' as int + 10
  }

  function UpperHex(v: int): (c: char)
    requires 0 <= v < 16
    ensures IsHex(c) && HexValue(c) == v
  {
    if v < 10 then (v + '0' as int) as char else (v - 10 + 'A' as int) as char
  }

  /** url.PathEscape leaves letters, digits and these alone in a path segment. */
  predicate Unreserved(c: char) {
    || 'a' <= c <= 'z' || 'A' <= c <= 'Z' || '0' <= c <= '9'
    || c in "-_.~$&+:=@"
  }

  function EscapeByte(c: char): string
    requires IsByte(c)
  {
    if Unreserved(c) then [c] else ['%', UpperHex(c as int / 16), UpperHex(c as int % 16)]
  }

  /**
   * Letters, digits and some other characters stay as they are; all else is printed as a percent sign and two
   * capital hexadecimal digits.
   */
  lemma EscapeExactly(c: char)
    requires IsByte(c)
    ensures var n := c as int;
      EscapeByte(c) == if 65 <= n <= 90 || 97 <= n <= 122 || 48 <= n <= 57 || c in "-_.~$&+:=@" then [c]
                       else ['%', "0123456789ABCDEF"[n / 16], "0123456789ABCDEF"[n % 16]]
  {}

  /** Hexadecimal digits are read in either case. */
  lemma HexExactly(c: char, i: nat)
    requires i < 16
    ensures IsHex(c) <==> c in "0123456789ABCDEF" || c in "0123456789abcdef"
    ensures IsHex("0123456789ABCDEF"[i]) && HexValue("0123456789ABCDEF"[i]) == i
    ensures IsHex("0123456789abcdef"[i]) && HexValue("0123456789abcdef"[i]) == i
  {
    var capital, small := "0123456789ABCDEF", "0123456789abcdef";
    if '0' <= c <= '9' {
      assert capital[c as int - '0' as int] == c;
    } else if 'A' <= c <= 'F' {
      assert capital[10 + (c as int - 'A' as int)] == c;
    } else if 'a' <= c <= 'f' {
      assert small[10 + (c as int - 'a' as int)] == c;
    }
  }

  function PathEscape(s: string): string
    requires forall c <- s :: IsByte(c)
  {
    if s == [] then [] else EscapeByte(s[0]) + PathEscape(s[1..])
  }

  function PathUnescape(s: string): Option<string> {
    if s == [] then Some([])
    else if s[0] != '%' then
      match PathUnescape(s[1..])
      case None => None
      case Some(t) => Some([s[0]] + t)
    else if |s| < 3 || !IsHex(s[1]) || !IsHex(s[2]) then None
    else
      match PathUnescape(s[3..])
      case None => None
      case Some(t) => Some([(16 * HexValue(s[1]) + HexValue(s[2])) as char] + t)
  }

  lemma UnescapeByte(c: char, rest: string)
    requires IsByte(c) && PathUnescape(rest).Some?
    ensures PathUnescape(EscapeByte(c) + rest) == Some([c] + PathUnescape(rest).value)
  {
    var s := EscapeByte(c) + rest;
    if Unreserved(c) {
      assert s[1..] == rest && s[0] == c != '%';
    } else {
      assert s[3..] == rest;
    }
  }

  lemma {:induction false} UnescapeEscape(s: string)
    requires forall c <- s :: IsByte(c)
    ensures PathUnescape(PathEscape(s)) == Some(s)
  {
    if s != [] {
      UnescapeEscape(s[1..]);
      UnescapeByte(s[0], PathEscape(s[1..]));
      assert s == [s[0]] + s[1..];
    }
  }

  /** Unescaping gives a text back unchanged exactly when the text holds no percent sign. */
  lemma {:induction false} UnescapeUnchanged(s: string)
    ensures PathUnescape(s) == Some(s) <==> '%' !in s
    ensures PathUnescape(s).Some? ==> |PathUnescape(s).value| <= |s|
    ensures PathUnescape(s).Some? && '%' in s ==> |PathUnescape(s).value| < |s|
  {
    if s != [] {
      if s[0] != '%' {
        UnescapeUnchanged(s[1..]);
        assert s == [s[0]] + s[1..];
        if PathUnescape(s) == Some(s) {
          assert PathUnescape(s).value[1..] == s[1..];
        }
      } else if |s| >= 3 {
        UnescapeUnchanged(s[3..]);
      }
    }
  }

  // ----- links ----------------------------------------------------------------------------

  type Mac = string -> string

  function Payload(relativePath: string, expires: int): string {
    relativePath + "|" + Print(expires)
  }

  function LinkPath(expires: int, middle: string, sig: string): string {
    "/dl/" + Print(expires) + "/" + middle + "/" + sig
  }

  /** The link after the public URL. */
  function SignedPath(mac: Mac, relativePath: string, expires: int): string
    requires forall c <- relativePath :: IsByte(c)
  {
    LinkPath(expires, PathEscape(relativePath), mac(Payload(relativePath, expires)))
  }

  predicate VerifyDownload(mac: Mac, relativePath: string, expires: int, sig: string, now: int) {
    now <= expires && mac(Payload(relativePath, expires)) == sig
  }

  datatype Parsed = Parsed(relativePath: string, expires: int, sig: string)

  function ParseParts(parts: seq<string>): Option<Parsed> {
    var n := |parts|;
    if n < 4 || parts[0] != "dl" then None
    else
      match ParseInt(parts[1])
      case None => None
      case Some(expires) =>
        match PathUnescape(Join(parts[2..n - 1], '/'))
        case None => None
        case Some(relativePath) => Some(Parsed(relativePath, expires, parts[n - 1]))
  }

  function ParseDownloadPath(path: string): Option<Parsed> {
    ParseParts(Split(TrimSlashes(path), '/'))
  }

  ghost predicate GoodSignature(sig: string) { sig != "" && '/' !in sig }

  lemma TrimLeadingSlash(path: string, body: string)
    requires path == ['/'] + body && body != "" && body[0] != '/' && body[|body| - 1] != '/'
    ensures TrimSlashes(path) == body
  {
    assert path[1..] == body;
    assert TrimSlashLeft(body) == body;
    assert TrimSlashLeft(path) == body;
  }

  /** What stands in a link's path after the first slash. */
  function LinkBody(expires: int, middle: string, sig: string): string {
    "dl" + ['/'] + (Print(expires) + ['/'] + (middle + ['/'] + sig))
  }

  lemma BodyEnds(expires: int, middle: string, sig: string)
    requires GoodSignature(sig)
    ensures var body := LinkBody(expires, middle, sig);
      body != "" && body[0] != '/' && body[|body| - 1] != '/'
  {
    var body := LinkBody(expires, middle, sig);
    assert body[|body| - 1] == sig[|sig| - 1];
  }

  lemma LinkPathIsSlashBody(expires: int, middle: string, sig: string)
    ensures LinkPath(expires, middle, sig) == ['/'] + LinkBody(expires, middle, sig)
  {}

  lemma TrimLinkPath(expires: int, middle: string, sig: string)
    requires GoodSignature(sig)
    ensures TrimSlashes(LinkPath(expires, middle, sig)) == LinkBody(expires, middle, sig)
  {
    LinkPathIsSlashBody(expires, middle, sig);
    BodyEnds(expires, middle, sig);
    TrimLeadingSlash(LinkPath(expires, middle, sig), LinkBody(expires, middle, sig));
  }

  lemma SplitLinkPath(expires: int, middle: string, sig: string)
    requires GoodSignature(sig)
    ensures Split(LinkBody(expires, middle, sig), '/')
         == ["dl"] + ([Print(expires)] + (Split(middle, '/') + [sig]))
  {
    PrintChars(expires);
    SplitAtSeparator("dl", '/', Print(expires) + ['/'] + (middle + ['/'] + sig));
    SplitWithout("dl", '/');
    SplitAtSeparator(Print(expires), '/', middle + ['/'] + sig);
    SplitWithout(Print(expires), '/');
    SplitAtSeparator(middle, '/', sig);
    SplitWithout(sig, '/');
  }

  lemma ParseSplitParts(expires: int, m: seq<string>, sig: string)
    requires MIN_INT64 <= expires <= MAX_INT64 && m != []
    ensures ParseParts(["dl"] + ([Print(expires)] + (m + [sig])))
         == match PathUnescape(Join(m, '/'))
            case None => None
            case Some(relativePath) => Some(Parsed(relativePath, expires, sig))
  {
    var parts := ["dl"] + ([Print(expires)] + (m + [sig]));
    assert parts[2..|parts| - 1] == m;
    ParsePrint(expires);
  }

  /** Whatever stands between the expiry and the signature is found again, slashes and all. */
  lemma ParseLinkPath(expires: int, middle: string, sig: string)
    requires MIN_INT64 <= expires <= MAX_INT64 && GoodSignature(sig)
    ensures ParseDownloadPath(LinkPath(expires, middle, sig))
         == match PathUnescape(middle)
            case None => None
            case Some(relativePath) => Some(Parsed(relativePath, expires, sig))
  {
    TrimLinkPath(expires, middle, sig);
    SplitLinkPath(expires, middle, sig);
    JoinSplit(middle, '/');
    ParseSplitParts(expires, Split(middle, '/'), sig);
  }

  /** Nothing else parses: a path that does is, between slashes, a link's, with a number and a middle to decode. */
  lemma OnlyLinksParse(path: string)
    requires ParseDownloadPath(path).Some?
    ensures var p := ParseDownloadPath(path).value;
      && '/' !in p.sig
      && exists expires: string, middle: seq<string> ::
           && TrimSlashes(path) == Join(["dl", expires] + middle + [p.sig], '/')
           && ParseInt(expires) == Some(p.expires) && PathUnescape(Join(middle, '/')) == Some(p.relativePath)
  {
    var parts := Split(TrimSlashes(path), '/');
    var n := |parts| - 1;
    JoinSplit(TrimSlashes(path), '/');
    SplitHasNoSeparator(TrimSlashes(path), '/');
    assert parts == ["dl", parts[1]] + parts[2..n] + [parts[n]];
  }

  /**
   * Parsing undoes signing, for every path, expiry and usable signature; and the link verifies
   * exactly until it expires.
   */
  lemma ParseSigned(mac: Mac, relativePath: string, expires: int, now: int)
    requires forall c <- relativePath :: IsByte(c)
    requires MIN_INT64 <= expires <= MAX_INT64 && GoodSignature(mac(Payload(relativePath, expires)))
    ensures var p := ParseDownloadPath(SignedPath(mac, relativePath, expires));
      && p == Some(Parsed(relativePath, expires, mac(Payload(relativePath, expires))))
      && (VerifyDownload(mac, p.value.relativePath, p.value.expires, p.value.sig, now) <==> now <= expires)
  {
    UnescapeEscape(relativePath);
    ParseLinkPath(expires, PathEscape(relativePath), mac(Payload(relativePath, expires)));
  }

  /**
   * The HTTP server parses the path after it has been decoded once. That gives the signed path back
   * exactly when the path holds no percent sign; with one, the second decoding fails or changes it.
   */
  lemma ParseDecoded(relativePath: string, expires: int, sig: string)
    requires MIN_INT64 <= expires <= MAX_INT64 && GoodSignature(sig)
    ensures ParseDownloadPath(LinkPath(expires, relativePath, sig)) == Some(Parsed(relativePath, expires, sig))
       <==> '%' !in relativePath
  {
    ParseLinkPath(expires, relativePath, sig);
    UnescapeUnchanged(relativePath);
  }

  /** A file named "100%.mkv" can never be downloaded through its own signed link. */
  lemma PercentNameIsNotServed(expires: int, sig: string)
    requires MIN_INT64 <= expires <= MAX_INT64 && GoodSignature(sig)
    ensures ParseDownloadPath(LinkPath(expires, "100%.mkv", sig)) == None
  {
    ParseLinkPath(expires, "100%.mkv", sig);
    assert "100%.mkv"[1..] == "00%.mkv" && "00%.mkv"[1..] == "0%.mkv" && "0%.mkv"[1..] == "%.mkv";
    assert PathUnescape("%.mkv") == None;
  }

  /** What is signed determines the path and the expiry, though the path may hold the separator. */
  lemma PayloadInjective(a: string, x: int, b: string, y: int)
    requires MIN_INT64 <= x <= MAX_INT64 && MIN_INT64 <= y <= MAX_INT64 && Payload(a, x) == Payload(b, y)
    ensures a == b && x == y
  {
    PrintChars(x);
    PrintChars(y);
    SplitAtSeparator(a, '|', Print(x));
    SplitAtSeparator(b, '|', Print(y));
    SplitWithout(Print(x), '|');
    SplitWithout(Print(y), '|');
    var parts := Split(Payload(a, x), '|');
    assert parts == Split(a, '|') + [Print(x)] == Split(b, '|') + [Print(y)];
    assert parts[..|parts| - 1] == Split(a, '|') == Split(b, '|');
    JoinSplit(a, '|');
    JoinSplit(b, '|');
    PrintInjective(x, y);
  }

  /** So a signature made for one link verifies another only where the hash itself collides. */
  lemma SignatureIsForOneLink(mac: Mac, a: string, x: int, b: string, y: int, now: int)
    requires MIN_INT64 <= x <= MAX_INT64 && MIN_INT64 <= y <= MAX_INT64 && (a != b || x != y)
    requires VerifyDownload(mac, b, y, mac(Payload(a, x)), now)
    ensures Payload(a, x) != Payload(b, y) && mac(Payload(a, x)) == mac(Payload(b, y))
  {
    if Payload(a, x) == Payload(b, y) { PayloadInjective(a, x, b, y); }
  }
}
