/** Decimal text of unsigned integers: the printing loop of Json.cpp and the C library readers. */
module Decimal {
  predicate IsDigit(c: char) { '0' <= c <= '9' }

  predicate AllDigits(s: string) { forall i :: 0 <= i < |s| ==> IsDigit(s[i]) }

  function DigitChar(d: nat): (c: char)
    requires d < 10
    ensures IsDigit(c) && c as int == d + 48
  {
    (d + 48) as char
  }

  /** The canonical decimal text: no leading zero except in "0" itself. */
  function Show(n: nat): (s: string)
    ensures |s| > 0 && AllDigits(s)
    ensures s[0] == '0' <==> n == 0
  {
    if n < 10 then [DigitChar(n)] else Show(n / 10) + [DigitChar(n % 10)]
  }

  /** The number a run of digits denotes. */
  function Value(s: string): nat
    requires AllDigits(s)
  {
    if |s| == 0 then 0 else Value(s[..|s| - 1]) * 10 + (s[|s| - 1] as int - 48)
  }

  lemma {:induction false} ValueOfShow(n: nat)
    ensures Value(Show(n)) == n
  {
    if n >= 10 {
      var s := Show(n);
      assert s[..|s| - 1] == Show(n / 10);
      ValueOfShow(n / 10);
    } else {
      assert Show(n)[..0] == [];
    }
  }

  lemma ShowInjective(a: nat, b: nat)
    requires Show(a) == Show(b)
    ensures a == b
  {
    ValueOfShow(a);
    ValueOfShow(b);
  }

  /** How many leading characters of `s` are digits. */
  function Span(s: string): (n: nat)
    ensures n <= |s| && AllDigits(s[..n]) && (n < |s| ==> !IsDigit(s[n]))
  {
    if |s| == 0 || !IsDigit(s[0]) then 0
    else
      var n := 1 + Span(s[1..]);
      assert s[..n] == [s[0]] + s[1..][..n - 1];
      n
  }

  lemma {:induction false} SpanUnique(s: string, n: nat)
    requires n <= |s| && AllDigits(s[..n]) && (n < |s| ==> !IsDigit(s[n]))
    ensures Span(s) == n
  {
    if n > 0 {
      assert s[1..][..n - 1] == s[..n][1..] && IsDigit(s[..n][0]);
      SpanUnique(s[1..], n - 1);
    }
  }

  /** What strtoul/strtoull/atoi read from unsigned text: the leading digits, capped at `max`. */
  function ReadUnsigned(s: string, max: nat): (n: nat)
    ensures n <= max
  {
    var v := Value(s[..Span(s)]);
    if v <= max then v else max
  }

  /** Reading back printed text recovers the number whatever non-digit text follows it. */
  lemma ReadOfShow(n: nat, rest: string, max: nat)
    requires n <= max
    requires |rest| > 0 ==> !IsDigit(rest[0])
    ensures Span(Show(n) + rest) == |Show(n)|
    ensures ReadUnsigned(Show(n) + rest, max) == n
  {
    var s := Show(n) + rest;
    assert s[..|Show(n)|] == Show(n);
    SpanUnique(s, |Show(n)|);
    ValueOfShow(n);
  }

  /** `bigint2string`: prepend the low digit until nothing is left, and print "0" for zero. */
  method BigIntToString(l: nat) returns (str: string)
    ensures str == Show(l)
  {
    str := "";
    var tmp: nat := l;
    while tmp != 0
      invariant l == 0 ==> tmp == 0 && str == ""
      invariant l > 0 && tmp == 0 ==> str == Show(l)
      invariant l > 0 && tmp > 0 ==> Show(l) == Show(tmp) + str
      decreases tmp
    {
      var a := tmp % 10;
      str := [DigitChar(a)] + str;
      tmp := tmp / 10;
    }
    if |str| == 0 {
      str := "0";
    }
  }
}
