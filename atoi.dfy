/**
 * The strict decimal parser `atoi_pedantic` of the todo command-line tool.
 *
 * A C string is modelled by the characters before its terminating NUL, as a
 * `seq<char>`. The parser accepts a string only when every character is a
 * decimal digit; it then returns the decimal value, accumulated left to right
 * as `10 * acc + digit`. On the first non-digit it returns 0, so 0 doubles as
 * "invalid". Integers are unbounded here: the C `int` accumulator overflows
 * for long inputs, which `NineDigitsFitInInt` bounds.
 */
module Atoi {

  /** `isdigit` in the C locale: exactly the characters '0' to '9'. */
  predicate IsDigit(c: char) {
    '0' <= c <= '9'
  }

  /** `isspace` in the C locale: blank, and tab through carriage return. */
  predicate IsSpace(c: char) {
    c == ' ' || '\t' <= c <= '\r'
  }

  /** The numeric value of a digit character, `c - '0'`. */
  function DigitValue(c: char): (d: nat)
    requires IsDigit(c)
    ensures d <= 9
  {
    c as int - '0' as int
  }

  /** The digit character of a value below ten. */
  function DigitChar(d: nat): (c: char)
    requires d <= 9
    ensures IsDigit(c) && DigitValue(c) == d
  {
    ('0' as int + d) as char
  }

  predicate AllDigits(s: seq<char>) {
    forall i :: 0 <= i < |s| ==> IsDigit(s[i])
  }

  predicate AllZeros(s: seq<char>) {
    forall i :: 0 <= i < |s| ==> s[i] == '0'
  }

  function Pow10(k: nat): (p: nat)
    ensures p >= 1
  {
    if k == 0 then 1 else 10 * Pow10(k - 1)
  }

  /**
   * The decimal value of a digit string, built the way the parser builds it:
   * the value of everything but the last digit, times ten, plus the last digit.
   */
  function Value(s: seq<char>): nat
    requires AllDigits(s)
  {
    if s == [] then 0 else 10 * Value(s[..|s| - 1]) + DigitValue(s[|s| - 1])
  }

  /** What `atoi_pedantic` returns: the value of an all-digit string, else 0. */
  function ParsedValue(s: seq<char>): nat {
    if AllDigits(s) then Value(s) else 0
  }

  /**
   * `atoi_pedantic`: scan the string once, returning 0 at the first
   * non-digit and otherwise accumulating `10 * result + digit`.
   */
  method AtoiPedantic(s: seq<char>) returns (result: int)
    ensures result == ParsedValue(s)
    ensures s == [] ==> result == 0
    ensures (exists i :: 0 <= i < |s| && !IsDigit(s[i])) ==> result == 0
    ensures AllDigits(s) ==> result == Value(s)
  {
    result := 0;
    var i := 0;
    while i < |s|
      invariant 0 <= i <= |s|
      invariant AllDigits(s[..i])
      invariant result == Value(s[..i])
      invariant result < Pow10(i)
    {
      if !IsDigit(s[i]) {
        return 0;
      }
      assert s[..i + 1][..i] == s[..i];
      result := 10 * result + DigitValue(s[i]);
      i := i + 1;
    }
    assert s[..i] == s;
  }

  lemma DigitRoundTrip(c: char)
    requires IsDigit(c)
    ensures DigitChar(DigitValue(c)) == c
  {
  }

  /** A string of n digits has a value below 10^n. */
  lemma {:induction false} ValueBound(s: seq<char>)
    requires AllDigits(s)
    ensures Value(s) < Pow10(|s|)
  {
    if s != [] {
      ValueBound(s[..|s| - 1]);
    }
  }

  /** A string of n digits that does not start with '0' has a value of at least 10^(n-1). */
  lemma {:induction false} ValueLowerBound(s: seq<char>)
    requires AllDigits(s) && s != [] && s[0] != '0'
    ensures Value(s) >= Pow10(|s| - 1)
  {
    if |s| > 1 {
      ValueLowerBound(s[..|s| - 1]);
    }
  }

  /** Splitting a digit string: the left part is shifted by the width of the right part. */
  lemma {:induction false} ValueAppend(s: seq<char>, t: seq<char>)
    requires AllDigits(s) && AllDigits(t)
    ensures AllDigits(s + t)
    ensures Value(s + t) == Value(s) * Pow10(|t|) + Value(t)
  {
    if t == [] {
      assert s + t == s;
    } else {
      var u := t[..|t| - 1];
      assert (s + t)[..|s + t| - 1] == s + u;
      ValueAppend(s, u);
      calc {
        Value(s + t);
        10 * Value(s + u) + DigitValue(t[|t| - 1]);
        10 * (Value(s) * Pow10(|u|) + Value(u)) + DigitValue(t[|t| - 1]);
        { assert 10 * (Value(s) * Pow10(|u|)) == Value(s) * (10 * Pow10(|u|)); }
        Value(s) * Pow10(|t|) + Value(t);
      }
    }
  }

  /**
   * Positional notation, read from the most significant digit:
   * d[0] * 10^(n-1) + ... + d[n-1] * 10^0.
   */
  function PositionalValue(s: seq<char>): nat
    requires AllDigits(s)
  {
    if s == [] then 0 else DigitValue(s[0]) * Pow10(|s| - 1) + PositionalValue(s[1..])
  }

  /** The left-to-right accumulation computes the positional value of the digits. */
  lemma {:induction false} ValueIsPositional(s: seq<char>)
    requires AllDigits(s)
    ensures Value(s) == PositionalValue(s)
  {
    if s != [] {
      assert [s[0]] + s[1..] == s;
      assert [s[0]][..0] == [];
      ValueAppend([s[0]], s[1..]);
      ValueIsPositional(s[1..]);
    }
  }

  lemma {:induction false} AllZerosValue(z: seq<char>)
    requires AllZeros(z)
    ensures AllDigits(z) && Value(z) == 0
  {
    if z != [] {
      AllZerosValue(z[..|z| - 1]);
    }
  }

  /** Leading zeros change neither acceptance nor the value. */
  lemma LeadingZerosIgnored(z: seq<char>, s: seq<char>)
    requires AllZeros(z)
    ensures AllDigits(z + s) <==> AllDigits(s)
    ensures ParsedValue(z + s) == ParsedValue(s)
  {
    AllZerosValue(z);
    if AllDigits(s) {
      ValueAppend(z, s);
    } else {
      var i :| 0 <= i < |s| && !IsDigit(s[i]);
      assert (z + s)[|z| + i] == s[i];
    }
  }

  /**
   * The parser returns 0 exactly when the input is invalid or consists of
   * zeros only (the empty string included): a literal zero cannot be told
   * apart from a rejected string.
   */
  lemma ZeroMeansInvalidOrAllZeros(s: seq<char>)
    ensures ParsedValue(s) == 0 <==> !AllDigits(s) || AllZeros(s)
  {
    if AllZeros(s) {
      AllZerosValue(s);
    } else if AllDigits(s) {
      var i :| 0 <= i < |s| && s[i] != '0';
      NonZeroDigitPositive(s, i);
    }
  }

  /** One digit other than '0' anywhere makes the value positive. */
  lemma NonZeroDigitPositive(s: seq<char>, i: nat)
    requires AllDigits(s) && i < |s| && s[i] != '0'
    ensures Value(s) >= 1
  {
    var head, tail := s[..i], s[i..];
    assert head + tail == s;
    assert AllDigits(head) && AllDigits(tail) && tail[0] != '0';
    ValueAppend(head, tail);
    ValueLowerBound(tail);
  }

  /** A sign or a white-space character anywhere makes the whole string invalid. */
  lemma SignsAndWhitespaceRejected(s: seq<char>, i: nat)
    requires i < |s|
    requires s[i] == '+' || s[i] == '-' || IsSpace(s[i])
    ensures ParsedValue(s) == 0
  {
  }

  /** The largest value of a 32-bit C `int`. */
  const IntMax: int := 0x7FFF_FFFF

  /**
   * Up to nine characters the C accumulator cannot overflow: neither the
   * result nor any intermediate `10 * result + digit`, which is the value of
   * an all-digit prefix, reaches 10^9.
   */
  lemma NineDigitsFitInInt(s: seq<char>)
    requires |s| <= 9
    ensures ParsedValue(s) < 1_000_000_000 < IntMax
    ensures forall i :: 0 <= i <= |s| && AllDigits(s[..i]) ==> Value(s[..i]) < 1_000_000_000
  {
    assert Pow10(9) == 1_000_000_000;
    forall i | 0 <= i <= |s| && AllDigits(s[..i])
      ensures Value(s[..i]) < 1_000_000_000
    {
      ValueBound(s[..i]);
      Pow10Monotone(i, 9);
    }
    if AllDigits(s) {
      assert s[..|s|] == s;
    }
  }

  lemma {:induction false} Pow10Monotone(i: nat, j: nat)
    requires i <= j
    ensures Pow10(i) <= Pow10(j)
  {
    if i < j {
      Pow10Monotone(i, j - 1);
    }
  }

  /**
   * The canonical decimal spelling of a natural number: no leading zero
   * except for 0 itself.
   */
  function Decimal(n: nat): (s: seq<char>)
    ensures AllDigits(s) && s != []
    ensures s[0] == '0' <==> n == 0
  {
    if n < 10 then [DigitChar(n)] else Decimal(n / 10) + [DigitChar(n % 10)]
  }

  predicate Canonical(s: seq<char>) {
    AllDigits(s) && s != [] && (s[0] == '0' ==> |s| == 1)
  }

  /** Every natural number, spelled in decimal, parses back to itself. */
  lemma {:induction false} DecimalRoundTrip(n: nat)
    ensures Value(Decimal(n)) == n
    ensures ParsedValue(Decimal(n)) == n
  {
    var s := Decimal(n);
    if n < 10 {
      assert s[..0] == [];
    } else {
      assert s[..|s| - 1] == Decimal(n / 10);
      DecimalRoundTrip(n / 10);
    }
  }

  /** Appending a digit to a number and dividing by ten undo each other. */
  lemma DivModTen(q: nat, d: nat)
    requires d <= 9
    ensures (10 * q + d) / 10 == q && (10 * q + d) % 10 == d
  {
  }

  /** Every canonical digit string is the decimal spelling of its value. */
  lemma {:induction false} DecimalOfValue(s: seq<char>)
    requires Canonical(s)
    ensures Decimal(Value(s)) == s
  {
    var p, c := s[..|s| - 1], s[|s| - 1];
    var q, d := Value(p), DigitValue(c);
    assert s == p + [c];
    assert Value(s) == 10 * q + d;
    DigitRoundTrip(c);
    if p == [] {
      assert Decimal(d) == [DigitChar(d)];
    } else {
      assert Canonical(p) by {
        assert p[0] == s[0];
      }
      ValueLowerBound(p);
      DecimalOfValue(p);
      DecimalStep(q, d);
    }
  }

  /** Appending a digit to a positive number appends its character to the spelling. */
  lemma DecimalStep(q: nat, d: nat)
    requires q >= 1 && d <= 9
    ensures Decimal(10 * q + d) == Decimal(q) + [DigitChar(d)]
  {
    DivModTen(q, d);
  }
}
