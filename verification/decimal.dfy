/** Decimal text of integers, as JavaScript template literals print them
    (`${n}` for an integer n: optional '-' then digits, no leading zeros),
    and the two-integer labels built from them. Parsing is the partner that
    shows distinct integers never print alike. */
module Decimal {
  import opened Options

  predicate IsDigit(c: char) {
    '0' <= c <= '9'
  }

  predicate AllDigits(s: string) {
    forall i :: 0 <= i < |s| ==> IsDigit(s[i])
  }

  function DigitChar(d: int): (c: char)
    requires 0 <= d < 10
    ensures IsDigit(c) && c as int - '0' as int == d
  {
    ('0' as int + d) as char
  }

  function DigitValue(c: char): int
    requires IsDigit(c)
  {
    c as int - '0' as int
  }

  /** Decimal digits of a natural number, most significant first. */
  function NatToString(n: nat): (r: string)
    ensures |r| > 0 && AllDigits(r)
  {
    if n < 10 then [DigitChar(n)] else NatToString(n / 10) + [DigitChar(n % 10)]
  }

  /** The value of a non-empty digit string. */
  function ParseNat(s: string): nat
    requires |s| > 0 && AllDigits(s)
  {
    if |s| == 1 then DigitValue(s[0]) else ParseNat(s[..|s| - 1]) * 10 + DigitValue(s[|s| - 1])
  }

  lemma {:induction false} ParseNatToString(n: nat)
    ensures ParseNat(NatToString(n)) == n
  {
    if n >= 10 {
      ParseNatToString(n / 10);
      var s := NatToString(n);
      assert s[..|s| - 1] == NatToString(n / 10);
    }
  }

  /** `${i}` for an integer i. */
  function IntToString(i: int): (r: string)
    ensures |r| > 0 && forall j :: 0 <= j < |r| ==> IsDigit(r[j]) || r[j] == '-'
  {
    if i < 0 then "-" + NatToString(-i) else NatToString(i)
  }

  /** Reads an optional '-' followed by at least one digit. */
  function ParseInt(s: string): Option<int> {
    if |s| > 0 && s[0] == '-' then
      (if |s| > 1 && AllDigits(s[1..]) then Some(0 - ParseNat(s[1..]) as int) else None)
    else if |s| > 0 && AllDigits(s) then Some(ParseNat(s))
    else None
  }

  lemma ParseIntToString(i: int)
    ensures ParseInt(IntToString(i)) == Some(i)
  {
    if i < 0 {
      ParseNatToString(-i);
      assert IntToString(i)[1..] == NatToString(-i);
    } else {
      ParseNatToString(i);
    }
  }

  /** The two-integer label `${a}<sep>${b}`. */
  function Pair(a: int, sep: char, b: int): (r: string)
    ensures |r| >= 3
  {
    IntToString(a) + [sep] + IntToString(b)
  }

  /** A separator that never occurs in an integer's text. */
  predicate Separator(sep: char) {
    !IsDigit(sep) && sep != '-'
  }

  /** The index of the first occurrence of c in s, if any. */
  function IndexOf(s: string, c: char): (r: Option<nat>)
    ensures r.Some? ==> r.value < |s| && s[r.value] == c && forall j :: 0 <= j < r.value ==> s[j] != c
    ensures r.None? ==> forall j :: 0 <= j < |s| ==> s[j] != c
  {
    if |s| == 0 then None
    else if s[0] == c then Some(0)
    else
      match IndexOf(s[1..], c)
      case None => None
      case Some(j) => Some(j + 1)
  }

  /** Splits a label at its first separator and reads both integers. */
  function ParsePair(s: string, sep: char): Option<(int, int)> {
    match IndexOf(s, sep)
    case None => None
    case Some(j) =>
      match (ParseInt(s[..j]), ParseInt(s[j + 1..]))
      case (Some(a), Some(b)) => Some((a, b))
      case _ => None
  }

  /** Reading a label back gives the two integers it was printed from. */
  lemma PairRoundTrip(a: int, sep: char, b: int)
    requires Separator(sep)
    ensures ParsePair(Pair(a, sep, b), sep) == Some((a, b))
  {
    var s := Pair(a, sep, b);
    var n := |IntToString(a)|;
    assert s[n] == sep;
    assert forall j :: 0 <= j < n ==> s[j] == IntToString(a)[j];
    assert IndexOf(s, sep) == Some(n);
    assert s[..n] == IntToString(a);
    assert s[n + 1..] == IntToString(b);
    ParseIntToString(a);
    ParseIntToString(b);
  }

  /** Distinct integer pairs give distinct labels. */
  lemma PairInjective(a: int, b: int, c: int, d: int, sep: char)
    requires Separator(sep) && Pair(a, sep, b) == Pair(c, sep, d)
    ensures a == c && b == d
  {
    PairRoundTrip(a, sep, b);
    PairRoundTrip(c, sep, d);
  }
}
