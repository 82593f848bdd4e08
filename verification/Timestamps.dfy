/**
 * ended_at is kept as text (internal/storage/torrents.go) and compared as text by the queries that
 * clean up: when does the order of the texts follow the order of the times?
 */
module Timestamps {

  /** A UTC time with a four-digit year, as RFC3339Nano prints it. */
  datatype Time = Time(year: nat, month: nat, day: nat, hour: nat, minute: nat, second: nat, nanos: nat)

  predicate Valid(t: Time) {
    && t.year < 10000 && t.month < 100 && t.day < 100 && t.hour < 100 && t.minute < 100 && t.second < 100
    && t.nanos < 1_000_000_000
  }

  function Digit(n: nat): (c: char)
    requires n < 10
    ensures '0' <= c <= '9'
  {
    '0' + n as char
  }

  function Power(w: nat): (p: nat)
    ensures p > 0
  {
    if w == 0 then 1 else 10 * Power(w - 1)
  }

  predicate Digits(s: string) {
    forall i: nat | i < |s| :: '0' <= s[i] <= '9'
  }

  function Pad(w: nat, n: nat): (s: string)
    ensures |s| == w && Digits(s)
  {
    if w == 0 then "" else Pad(w - 1, n / 10) + [Digit(n % 10)]
  }

  /** Digits without the zeros at the end. */
  function Trim(s: string): (t: string)
    ensures t <= s
  {
    if s == "" then ""
    else
      var rest := Trim(s[1..]);
      if rest == "" && s[0] == '0' then "" else [s[0]] + rest
  }

  function Fraction(nanos: nat): string {
    Trim(Pad(9, nanos))
  }

  function Tail(nanos: nat): string {
    (if Fraction(nanos) == "" then "" else ['.'] + Fraction(nanos)) + "Z"
  }

  /** Format(time.RFC3339Nano) of a UTC time. */
  function Text(t: Time): string {
    Pad(4, t.year) + (['-'] + (Pad(2, t.month) + (['-'] + (Pad(2, t.day) + (['T'] +
      (Pad(2, t.hour) + ([':'] + (Pad(2, t.minute) + ([':'] + (Pad(2, t.second) + Tail(t.nanos)))))))))))
  }

  lemma {:induction false} ZeroAtEnd(s: string)
    requires Trim(s) == ""
    ensures Trim(s + [Digit(0)]) == ""
  {
    if s != "" {
      ZeroAtEnd(s[1..]);
      assert (s + [Digit(0)])[1..] == s[1..] + [Digit(0)];
    }
  }

  lemma {:induction false} ZeroFraction(w: nat)
    ensures Trim(Pad(w, 0)) == ""
  {
    if w > 0 {
      ZeroFraction(w - 1);
      ZeroAtEnd(Pad(w - 1, 0));
    }
  }

  /** The order of SQLite's binary collation, and of strings. */
  predicate Less(a: string, b: string) {
    if b == "" then false
    else if a == "" then true
    else if a[0] != b[0] then a[0] < b[0]
    else Less(a[1..], b[1..])
  }

  predicate SameSecond(a: Time, b: Time) {
    a.(nanos := 0) == b.(nanos := 0)
  }

  predicate Before(a: Time, b: Time) {
    if a.year != b.year then a.year < b.year
    else if a.month != b.month then a.month < b.month
    else if a.day != b.day then a.day < b.day
    else if a.hour != b.hour then a.hour < b.hour
    else if a.minute != b.minute then a.minute < b.minute
    else if a.second != b.second then a.second < b.second
    else a.nanos < b.nanos
  }

  lemma {:induction false} LessIrreflexive(a: string)
    ensures !Less(a, a)
  {
    if a != "" { LessIrreflexive(a[1..]); }
  }

  lemma {:induction false} LessAppend(a: string, x: string, b: string, y: string)
    requires |a| == |b|
    ensures Less(a + x, b + y) <==> Less(a, b) || (a == b && Less(x, y))
  {
    if a == "" {
      assert a + x == x && b + y == y;
    } else {
      assert (a + x)[1..] == a[1..] + x && (b + y)[1..] == b[1..] + y;
      assert a == [a[0]] + a[1..] && b == [b[0]] + b[1..];
      LessAppend(a[1..], x, b[1..], y);
    }
  }

  /** Numbers of one width stand in the order of their values. */
  lemma {:induction false} PadLess(w: nat, n: nat, m: nat)
    requires n < Power(w) && m < Power(w)
    ensures Less(Pad(w, n), Pad(w, m)) <==> n < m
    ensures Pad(w, n) == Pad(w, m) <==> n == m
  {
    if w > 0 {
      var a, b := Pad(w - 1, n / 10), Pad(w - 1, m / 10);
      var x, y := [Digit(n % 10)], [Digit(m % 10)];
      PadLess(w - 1, n / 10, m / 10);
      LessAppend(a, x, b, y);
      assert Less(x, y) <==> n % 10 < m % 10;
      assert Pad(w, n)[..w - 1] == a && Pad(w, m)[..w - 1] == b;
      assert Pad(w, n)[w - 1] == x[0] && Pad(w, m)[w - 1] == y[0];
    }
  }

  lemma FieldLess(w: nat, n: nat, m: nat, c: char, x: string, y: string)
    requires n < Power(w) && m < Power(w)
    ensures Less(Pad(w, n) + ([c] + x), Pad(w, m) + ([c] + y)) <==> n < m || (n == m && Less(x, y))
  {
    PadLess(w, n, m);
    LessAppend(Pad(w, n), [c] + x, Pad(w, m), [c] + y);
    LessAppend([c], x, [c], y);
    LessIrreflexive([c]);
  }

  predicate ProperPrefix(u: string, v: string) {
    u < v
  }

  ghost predicate TrimOrdered(a: string, b: string) {
    && (Trim(a) == Trim(b) <==> a == b)
    && (ProperPrefix(Trim(a), Trim(b)) ==> Less(a, b) && Less(Trim(b) + "Z", Trim(a) + "Z"))
    && (!(Trim(a) <= Trim(b)) && !(Trim(b) <= Trim(a)) ==> (Less(Trim(a) + "Z", Trim(b) + "Z") <==> Less(a, b)))
  }

  lemma DifferentHeads(a: string, b: string)
    requires |a| == |b| > 0 && Digits(a) && Digits(b) && a[0] != b[0]
    ensures TrimOrdered(a, b)
  {
    var t, u := Trim(a), Trim(b);
    assert t != "" ==> t[0] == a[0];
    assert u != "" ==> u[0] == b[0];
    assert t == "" ==> a[0] == '0';
    assert u == "" ==> b[0] == '0';
    assert (t + "Z")[0] == if t == "" then 'Z' else a[0];
    assert (u + "Z")[0] == if u == "" then 'Z' else b[0];
  }

  lemma PrefixUnderHead(c: char, t: string, u: string)
    ensures [c] + t <= [c] + u <==> t <= u
    ensures [c] + t == [c] + u <==> t == u
  {
    assert ([c] + t)[1..] == t && ([c] + u)[1..] == u;
    if t <= u {
      assert u == t + u[|t|..];
    }
    if [c] + t <= [c] + u {
      assert ([c] + u)[1..][..|t|] == ([c] + u)[..|t| + 1][1..];
    }
  }

  lemma SameHeads(c: char, a: string, b: string)
    requires '0' <= c <= '9' && TrimOrdered(a, b)
    ensures TrimOrdered([c] + a, [c] + b)
  {
    var t, u := Trim(a), Trim(b);
    assert ([c] + a)[1..] == a && ([c] + b)[1..] == b;
    LessAppend([c], a, [c], b);
    LessAppend([c], t + "Z", [c], u + "Z");
    LessAppend([c], u + "Z", [c], t + "Z");
    LessIrreflexive([c]);
    assert [c] + t + "Z" == [c] + (t + "Z") && [c] + u + "Z" == [c] + (u + "Z");
    PrefixUnderHead(c, t, u);
    PrefixUnderHead(c, u, t);
  }

  /**
   * Trimmed fractions followed by Z: their order follows the digits unless one begins the other, and then it
   * is reversed.
   */
  lemma {:induction false} TrimOrder(a: string, b: string)
    requires |a| == |b| && Digits(a) && Digits(b)
    ensures TrimOrdered(a, b)
  {
    if a != "" {
      if a[0] != b[0] {
        DifferentHeads(a, b);
      } else {
        TrimOrder(a[1..], b[1..]);
        SameHeads(a[0], a[1..], b[1..]);
        assert a == [a[0]] + a[1..] && b == [b[0]] + b[1..];
      }
    }
  }

  lemma PrefixDigits(u: string, a: string)
    requires u <= a && Digits(a)
    ensures Digits(u)
  {
    assert u == a[..|u|];
  }

  function TailOf(u: string): string {
    (if u == "" then "" else ['.'] + u) + "Z"
  }

  /** The dot changes nothing: like a digit it comes before Z. */
  lemma TailLess(u: string, v: string)
    requires Digits(u) && Digits(v)
    ensures Less(TailOf(u), TailOf(v)) <==> Less(u + "Z", v + "Z")
  {
    LessIrreflexive(".");
    LessIrreflexive("Z");
    assert ['.'] + u + "Z" == "." + (u + "Z") && ['.'] + v + "Z" == "." + (v + "Z");
    LessAppend(".", u + "Z", ".", v + "Z");
    if u != "" { assert u[0] in u; }
    if v != "" { assert v[0] in v; }
  }

  lemma {:induction false} TextTotal(a: string, b: string)
    ensures Less(a, b) || Less(b, a) || a == b
    ensures !(Less(a, b) && Less(b, a))
  {
    if a != "" && b != "" {
      TextTotal(a[1..], b[1..]);
      assert a == [a[0]] + a[1..] && b == [b[0]] + b[1..];
    }
  }

  lemma TailOrder(n: nat, m: nat)
    requires n < 1_000_000_000 && m < 1_000_000_000 && n != m
    ensures (Less(Tail(n), Tail(m)) <==> n < m)
       <==> !ProperPrefix(Fraction(n), Fraction(m)) && !ProperPrefix(Fraction(m), Fraction(n))
  {
    assert Power(9) == 1_000_000_000;
    PadLess(9, n, m);
    PadLess(9, m, n);
    var u, v := Fraction(n), Fraction(m);
    TrimOrder(Pad(9, n), Pad(9, m));
    TrimOrder(Pad(9, m), Pad(9, n));
    PrefixDigits(u, Pad(9, n));
    PrefixDigits(v, Pad(9, m));
    TailLess(u, v);
    TailLess(v, u);
    assert u != v;
    TextTotal(u + "Z", v + "Z");
  }

  lemma Powers()
    ensures Power(2) == 100 && Power(4) == 10000
  {
    assert Power(1) == 10;
    assert Power(3) == 1000;
  }

  lemma TextByFields(a: Time, b: Time)
    requires Valid(a) && Valid(b)
    ensures !SameSecond(a, b) ==> (Less(Text(a), Text(b)) <==> Before(a, b))
    ensures SameSecond(a, b) ==> (Less(Text(a), Text(b)) <==> Less(Tail(a.nanos), Tail(b.nanos)))
  {
    var a6, b6 := Pad(2, a.second) + Tail(a.nanos), Pad(2, b.second) + Tail(b.nanos);
    var a5, b5 := Pad(2, a.minute) + ([':'] + a6), Pad(2, b.minute) + ([':'] + b6);
    var a4, b4 := Pad(2, a.hour) + ([':'] + a5), Pad(2, b.hour) + ([':'] + b5);
    var a3, b3 := Pad(2, a.day) + (['T'] + a4), Pad(2, b.day) + (['T'] + b4);
    var a2, b2 := Pad(2, a.month) + (['-'] + a3), Pad(2, b.month) + (['-'] + b3);
    Powers();
    FieldLess(4, a.year, b.year, '-', a2, b2);
    FieldLess(2, a.month, b.month, '-', a3, b3);
    FieldLess(2, a.day, b.day, 'T', a4, b4);
    FieldLess(2, a.hour, b.hour, ':', a5, b5);
    FieldLess(2, a.minute, b.minute, ':', a6, b6);
    PadLess(2, a.second, b.second);
    LessAppend(Pad(2, a.second), Tail(a.nanos), Pad(2, b.second), Tail(b.nanos));
  }

  /**
   * The texts stand in the order of the times, except within one second when the trimmed fraction of
   * one begins the other's: then they stand in the opposite order.
   */
  lemma TextOrderExactly(a: Time, b: Time)
    requires Valid(a) && Valid(b) && a != b
    ensures (Less(Text(a), Text(b)) <==> Before(a, b))
       <==> !(&& SameSecond(a, b)
              && (|| ProperPrefix(Fraction(a.nanos), Fraction(b.nanos))
                  || ProperPrefix(Fraction(b.nanos), Fraction(a.nanos))))
  {
    TextByFields(a, b);
    if SameSecond(a, b) {
      TailOrder(a.nanos, b.nanos);
    }
  }

  /** The time whose trimmed fraction begins the other's is the earlier one. */
  lemma PrefixIsEarlier(a: Time, b: Time)
    requires Valid(a) && Valid(b) && SameSecond(a, b) && ProperPrefix(Fraction(a.nanos), Fraction(b.nanos))
    ensures Before(a, b)
  {
    assert Power(9) == 1_000_000_000;
    PadLess(9, a.nanos, b.nanos);
    TrimOrder(Pad(9, a.nanos), Pad(9, b.nanos));
  }

  /** A torrent that ended on the second sorts after one that ended later in that second. */
  lemma WholeSecondSortsLast(a: Time, b: Time)
    requires Valid(a) && Valid(b) && SameSecond(a, b) && a.nanos == 0 < b.nanos
    ensures Before(a, b) && Less(Text(b), Text(a))
  {
    assert Power(9) == 1_000_000_000;
    TextByFields(b, a);
    ZeroFraction(9);
    PadLess(9, 0, b.nanos);
    TrimOrder(Pad(9, 0), Pad(9, b.nanos));
    TailOrder(b.nanos, 0);
  }

  lemma TimesTotal(a: Time, b: Time)
    ensures Before(a, b) || Before(b, a) || a == b
    ensures !(Before(a, b) && Before(b, a))
  {}

  /** Different times have different texts. */
  lemma TextInjective(a: Time, b: Time)
    requires Valid(a) && Valid(b)
    ensures Text(a) == Text(b) <==> a == b
  {
    if a != b {
      TextOrderExactly(a, b);
      TextOrderExactly(b, a);
      TimesTotal(a, b);
      LessIrreflexive(Text(a));
    }
  }

  lemma {:induction false} TrimmedZeros(s: string)
    ensures forall c <- s[|Trim(s)|..] :: c == '0'
    ensures Trim(s) != "" ==> Trim(s)[|Trim(s)| - 1] != '0'
  {
    if s != "" {
      TrimmedZeros(s[1..]);
      if Trim(s) == "" {
        assert s == [s[0]] + s[1..] && s[1..][0..] == s[1..];
      } else {
        assert s[|Trim(s)|..] == s[1..][|Trim(s)| - 1..];
      }
    }
  }

  /**
   * What follows the seconds: the Z alone on the second, and otherwise the nine digits of the nanoseconds after a
   * dot, without the zeros at their end.
   */
  lemma TailExactly(nanos: nat)
    requires nanos < 1_000_000_000
    ensures nanos == 0 ==> Tail(nanos) == "Z"
    ensures nanos > 0 ==>
              var fraction := Fraction(nanos);
              && fraction != "" && fraction[|fraction| - 1] != '0' && Tail(nanos) == "." + fraction + "Z"
              && fraction <= Pad(9, nanos) && (forall c <- Pad(9, nanos)[|fraction|..] :: c == '0')
  {
    assert Power(9) == 1_000_000_000;
    PadLess(9, 0, nanos);
    ZeroFraction(9);
    TrimOrder(Pad(9, 0), Pad(9, nanos));
    TrimmedZeros(Pad(9, nanos));
  }
}
