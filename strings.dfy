/**
 * Python's `str()` of an integer, and the small readers used to parse the
 * emitted TikZ text back (the partners of the renderers).
 */
module Strings {
  import opened Wrappers

  predicate IsDigit(c: char) {
    '0' <= c <= '9'
  }

  function DigitChar(d: nat): (c: char)
    requires d < 10
  {
    ('0' as int + d) as char
  }

  function DigitValue(c: char): nat
    requires IsDigit(c)
  {
    c as int - '0' as int
  }

  /** `str(n)` for a non-negative integer: base 10, no leading zeros. */
  function Decimal(n: nat): (r: string)
    ensures r != []
    ensures forall i :: 0 <= i < |r| ==> IsDigit(r[i])
    ensures r[0] == '0' ==> r == "0"
    decreases n
  {
    if n < 10 then [DigitChar(n)] else Decimal(n / 10) + [DigitChar(n % 10)]
  }

  /** `str(n)` for any integer: a minus sign, then the digits of |n|. */
  function IntString(n: int): (r: string)
  {
    if n < 0 then "-" + Decimal(-n) else Decimal(n)
  }

  /** The value of a string of decimal digits (the inverse of Decimal). */
  function ParseDecimal(s: string): nat
    requires forall i :: 0 <= i < |s| ==> IsDigit(s[i])
  {
    if s == [] then 0 else ParseDecimal(s[..|s| - 1]) * 10 + DigitValue(s[|s| - 1])
  }

  lemma {:induction false} DecimalRoundTrip(n: nat)
    ensures ParseDecimal(Decimal(n)) == n
    decreases n
  {
    if n >= 10 {
      var s := Decimal(n);
      assert s[..|s| - 1] == Decimal(n / 10);
      DecimalRoundTrip(n / 10);
    }
  }

  /** Two numbers print alike only if they are equal. */
  lemma DecimalInjective(a: nat, b: nat)
    ensures Decimal(a) == Decimal(b) <==> a == b
  {
    DecimalRoundTrip(a);
    DecimalRoundTrip(b);
  }

  predicate StartsWith(s: string, prefix: string) {
    |prefix| <= |s| && s[..|prefix|] == prefix
  }

  /** The rest of `s` after the literal `lit`, if `s` starts with it. */
  function Expect(s: string, lit: string): (r: Option<string>)
    ensures r.Some? <==> StartsWith(s, lit)
    ensures r.Some? ==> s == lit + r.value
  {
    if StartsWith(s, lit) then Some(s[|lit|..]) else None
  }

  /** Seven pieces joined left to right, regrouped to the right. */
  lemma Reassociate(a: string, b: string, c: string, d: string, e: string, f: string, g: string)
    ensures a + b + c + d + e + f + g == a + (b + (c + (d + (e + (f + g)))))
  {
  }

  /** A literal is expected and found in front of whatever follows it. */
  lemma ExpectLit(lit: string, t: string)
    ensures Expect(lit + t, lit) == Some(t)
  {
    assert (lit + t)[..|lit|] == lit;
    assert (lit + t)[|lit|..] == t;
  }

  /** The longest prefix of `s` made of digits. */
  function TakeDigits(s: string): (r: string)
    ensures StartsWith(s, r)
    ensures forall i :: 0 <= i < |r| ==> IsDigit(s[i])
    ensures |r| < |s| ==> !IsDigit(s[|r|])
  {
    if s != [] && IsDigit(s[0]) then [s[0]] + TakeDigits(s[1..]) else []
  }

  lemma {:induction false} TakeDigitsOf(d: string, t: string)
    requires forall i :: 0 <= i < |d| ==> IsDigit(d[i])
    requires t == [] || !IsDigit(t[0])
    ensures TakeDigits(d + t) == d
  {
    if d != [] {
      assert (d + t)[1..] == d[1..] + t;
      TakeDigitsOf(d[1..], t);
    }
  }

  /** Reads a non-empty run of digits; returns its value and what follows. */
  function ReadNumber(s: string): (r: Option<(nat, string)>)
    ensures r.Some? <==> s != [] && IsDigit(s[0])
  {
    var d := TakeDigits(s);
    if d == [] then None else Some((ParseDecimal(d), s[|d|..]))
  }

  /** Reads an optional minus sign and a run of digits. */
  function ReadInt(s: string): Option<(int, string)>
  {
    if StartsWith(s, "-") then
      var (n, rest) :- ReadNumber(s[1..]);
      var negated := -(n as int);
      Some((negated, rest))
    else
      var (n, rest) :- ReadNumber(s);
      Some((n as int, rest))
  }

  /** A printed number is read back whole when what follows it is not a digit. */
  lemma ReadDecimal(n: nat, t: string)
    requires t == [] || !IsDigit(t[0])
    ensures ReadNumber(Decimal(n) + t) == Some((n, t))
  {
    var s := Decimal(n) + t;
    var d := TakeDigits(s);
    TakeDigitsOf(Decimal(n), t);
    DecimalRoundTrip(n);
    assert s[|d|..] == t;
  }

  lemma ReadNonNegative(n: nat, t: string)
    requires t == [] || !IsDigit(t[0])
    ensures ReadInt(Decimal(n) + t) == Some((n as int, t))
  {
    var s := Decimal(n) + t;
    assert s[0] == Decimal(n)[0];
    assert IsDigit(s[0]);
    assert s[..1][0] == s[0];
    assert s[..1] != "-";
    ReadDecimal(n, t);
  }

  lemma ReadNegative(n: nat, t: string)
    requires n > 0
    requires t == [] || !IsDigit(t[0])
    ensures ReadInt("-" + (Decimal(n) + t)) == Some((-(n as int), t))
  {
    var s := "-" + (Decimal(n) + t);
    assert s[..1] == "-";
    assert s[1..] == Decimal(n) + t;
    ReadDecimal(n, t);
  }

  /** `str()` of an integer is read back whole when what follows it is not a digit. */
  lemma ReadIntString(n: int, t: string)
    requires t == [] || !IsDigit(t[0])
    ensures ReadInt(IntString(n) + t) == Some((n, t))
  {
    if n < 0 {
      var m: nat := -n;
      assert IntString(n) == "-" + Decimal(m);
      assert ("-" + Decimal(m)) + t == "-" + (Decimal(m) + t);
      ReadNegative(m, t);
    } else {
      ReadNonNegative(n, t);
    }
  }

  /** The prefix of `s` before the first `stop` (all of `s` if there is none). */
  function TakeUntil(s: string, stop: char): (r: string)
    ensures StartsWith(s, r)
    ensures stop !in r
    ensures |r| < |s| ==> s[|r|] == stop
  {
    if s == [] || s[0] == stop then [] else [s[0]] + TakeUntil(s[1..], stop)
  }

  lemma TakeUntilStop(a: string, stop: char, b: string)
    requires stop !in a && b != [] && b[0] == stop
    ensures TakeUntil(a + b, stop) == a
    ensures (a + b)[|a|..] == b
  {
    var s := a + b;
    assert s[|a|] == stop;
  }
}
