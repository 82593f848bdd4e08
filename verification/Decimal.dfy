/** Printing and parsing int64 numbers in decimal, as fmt's %d and strconv.ParseInt(s, 10, 64) do. */
module Decimal {
  import opened Arithmetic
  import opened Strings

  predicate IsDigit(c: char) { '0' <= c <= '9' }

  function DigitOf(d: int): char
    requires 0 <= d < 10
  {
    (d + '0' as int) as char
  }

  function PrintNat(n: nat): (s: string)
    ensures s != [] && forall c <- s :: IsDigit(c)
  {
    if n < 10 then [DigitOf(n)] else PrintNat(n / 10) + [DigitOf(n % 10)]
  }

  function Print(n: int): string {
    if n < 0 then "-" + PrintNat(-n) else PrintNat(n)
  }

  function ParseNat(s: string): Option<nat> {
    if s == [] || !IsDigit(s[|s| - 1]) then None
    else
      var d: nat := s[|s| - 1] as int - '0' as int;
      if |s| == 1 then Some(d)
      else match ParseNat(s[..|s| - 1])
           case None => None
           case Some(n) => Some(10 * n + d)
  }

  function ParseInt(s: string): Option<int> {
    var negative := s != [] && s[0] == '-';
    var digits := if s != [] && (s[0] == '-' || s[0] == '+') then s[1..] else s;
    match ParseNat(digits)
    case None => None
    case Some(n) =>
      var v := if negative then -(n as int) else n as int;
      if MIN_INT64 <= v <= MAX_INT64 then Some(v) else None
  }

  lemma {:induction false} ParsePrintNat(n: nat)
    ensures ParseNat(PrintNat(n)) == Some(n)
  {
    if n >= 10 {
      ParsePrintNat(n / 10);
      var s := PrintNat(n);
      assert s[..|s| - 1] == PrintNat(n / 10);
    }
  }

  lemma ParsePositive(n: nat)
    requires n <= MAX_INT64
    ensures ParseInt(PrintNat(n)) == Some(n as int)
  {
    ParsePrintNat(n);
    assert PrintNat(n)[0] in PrintNat(n);
  }

  lemma ParseNegative(n: nat)
    requires n <= -MIN_INT64
    ensures ParseInt("-" + PrintNat(n)) == Some(-(n as int))
  {
    ParsePrintNat(n);
    assert ("-" + PrintNat(n))[1..] == PrintNat(n);
  }

  /** ParseInt undoes %d on every int64. */
  lemma ParsePrint(n: int)
    requires MIN_INT64 <= n <= MAX_INT64
    ensures ParseInt(Print(n)) == Some(n)
  {
    if n < 0 { ParseNegative(-n); } else { ParsePositive(n); }
  }

  lemma {:induction false} NoLeadingZero(n: nat)
    ensures n > 0 ==> PrintNat(n)[0] != '0'
  {
    if n >= 10 { NoLeadingZero(n / 10); }
  }

  /** Digits without a leading zero, after a minus for negative numbers. */
  lemma PrintChars(n: int)
    ensures Print(n) != [] && forall c <- Print(n) :: IsDigit(c) || c == '-'
    ensures n < 0 <==> Print(n)[0] == '-'
    ensures n > 0 ==> Print(n)[0] != '0'
  {
    if n >= 0 {
      NoLeadingZero(n);
      assert Print(n)[0] in Print(n);
    }
  }

  lemma PrintInjective(a: int, b: int)
    requires MIN_INT64 <= a <= MAX_INT64 && MIN_INT64 <= b <= MAX_INT64 && Print(a) == Print(b)
    ensures a == b
  {
    ParsePrint(a);
    ParsePrint(b);
  }

  /** A sign in front is read. */
  lemma ParseSign(s: string)
    requires s != [] && forall c <- s :: IsDigit(c)
    ensures ParseInt("+" + s) == ParseInt(s)
    ensures ParseInt(s).Some? ==> ParseInt("-" + s) == Some(-ParseInt(s).value)
  {
    assert s[0] in s;
    assert ("+" + s)[1..] == s && ("-" + s)[1..] == s;
  }

  /** One or more digits. */
  ghost predicate Digits(s: string) {
    s != [] && forall c <- s :: IsDigit(c)
  }

  /** The number that digits stand for. */
  function Value(s: string): nat {
    if s == [] then 0
    else
      var c := s[|s| - 1];
      10 * Value(s[..|s| - 1]) + (if IsDigit(c) then c as int - '0' as int else 0)
  }

  lemma {:induction false} ParseNatIsValue(s: string)
    requires Digits(s)
    ensures ParseNat(s) == Some(Value(s))
  {
    assert s[|s| - 1] in s;
    if |s| > 1 {
      var front := s[..|s| - 1];
      assert forall c <- front :: c in s;
      ParseNatIsValue(front);
    } else {
      assert s[..0] == [];
      assert Value([]) == 0;
    }
  }

  /** Leading zeros do not matter, and what an int64 cannot hold is refused. */
  lemma ParseDigits(s: string)
    requires Digits(s)
    ensures ParseInt(s) == if Value(s) <= MAX_INT64 then Some(Value(s) as int) else None
  {
    ParseNatIsValue(s);
    assert s[0] in s;
  }
}
