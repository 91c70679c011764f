/**
 * The string rules the pages rely on: `localeCompare` on ISO date and timestamp
 * strings (modelled as ordinal comparison), `String(n)` for an integer `n`, and
 * `Number(text)` for text that is an optionally signed decimal integer.
 */
module Text {
  import opened Wrappers

  /** Three-way ordinal comparison, character code by character code; a proper prefix
      sorts first. Negative means `x` sorts before `y`. */
  function OrdinalCompare(x: string, y: string): (r: int)
    ensures -1 <= r <= 1
    ensures r == 0 <==> x == y
  {
    if x == [] then (if y == [] then 0 else -1)
    else if y == [] then 1
    else if x[0] < y[0] then -1
    else if y[0] < x[0] then 1
    else
      assert x == [x[0]] + x[1..] && y == [y[0]] + y[1..];
      OrdinalCompare(x[1..], y[1..])
  }

  /** Swapping the operands negates the comparison. */
  lemma {:induction false} OrdinalCompareFlip(x: string, y: string)
    ensures OrdinalCompare(y, x) == -OrdinalCompare(x, y)
  {
    if x != [] && y != [] && x[0] == y[0] {
      OrdinalCompareFlip(x[1..], y[1..]);
    }
  }

  /** "Sorts no later than" is transitive. */
  lemma {:induction false} OrdinalCompareTransitive(x: string, y: string, z: string)
    requires OrdinalCompare(x, y) <= 0 && OrdinalCompare(y, z) <= 0
    ensures OrdinalCompare(x, z) <= 0
  {
    if x != [] && y != [] && z != [] && x[0] == y[0] == z[0] {
      OrdinalCompareTransitive(x[1..], y[1..], z[1..]);
    }
  }

  /** A common prefix does not change the comparison. */
  lemma {:induction false} OrdinalCompareCommonPrefix(p: string, x: string, y: string)
    ensures OrdinalCompare(p + x, p + y) == OrdinalCompare(x, y)
  {
    if p != [] {
      assert (p + x)[0] == p[0] == (p + y)[0];
      assert (p + x)[1..] == p[1..] + x;
      assert (p + y)[1..] == p[1..] + y;
      OrdinalCompareCommonPrefix(p[1..], x, y);
    } else {
      assert p + x == x && p + y == y;
    }
  }

  /** Once two strings of equal length differ, whatever follows them does not matter. */
  lemma {:induction false} OrdinalCompareDecidedPrefix(x: string, y: string, u: string, v: string)
    requires |x| == |y| && x != y
    ensures OrdinalCompare(x + u, y + v) == OrdinalCompare(x, y)
  {
    if x[0] == y[0] {
      assert x == [x[0]] + x[1..] && y == [y[0]] + y[1..];
      assert (x + u)[1..] == x[1..] + u;
      assert (y + v)[1..] == y[1..] + v;
      OrdinalCompareDecidedPrefix(x[1..], y[1..], u, v);
    }
  }

  predicate IsDigit(c: char) {
    '0' <= c <= '9'
  }

  predicate AllDigits(s: string) {
    forall i :: 0 <= i < |s| ==> IsDigit(s[i])
  }

  function DigitChar(d: int): (c: char)
    requires 0 <= d < 10
    ensures IsDigit(c)
  {
    ('0' as int + d) as char
  }

  function DigitValue(c: char): (d: nat)
    requires IsDigit(c)
    ensures d < 10 && DigitChar(d) == c
  {
    c as int - '0' as int
  }

  /** The decimal digits of `n`, most significant first, with no leading zero. */
  function Digits(n: nat): (s: string)
    ensures 1 <= |s| && AllDigits(s)
    ensures (|s| == 1) == (n < 10)
  {
    if n < 10 then [DigitChar(n)] else Digits(n / 10) + [DigitChar(n % 10)]
  }

  /** `String(n)` for an integer `n`. */
  function IntToString(n: int): string {
    if n < 0 then "-" + Digits(-n) else Digits(n)
  }

  /** The number a non-empty run of decimal digits denotes. */
  function DigitsValue(s: string): nat
    requires 1 <= |s| && AllDigits(s)
  {
    if |s| == 1 then DigitValue(s[0])
    else DigitsValue(s[..|s| - 1]) * 10 + DigitValue(s[|s| - 1])
  }

  /** `Number(text)` where the text is an optionally signed run of decimal digits;
      `None` for every other text. */
  function ParseInteger(s: string): Option<int> {
    if 1 <= |s| && AllDigits(s) then Some(DigitsValue(s))
    else if 2 <= |s| && (s[0] == '-' || s[0] == '+') && AllDigits(s[1..]) then
      var magnitude: int := DigitsValue(s[1..]);
      Some(if s[0] == '-' then -magnitude else magnitude)
    else None
  }

  lemma {:induction false} DigitsValueOfDigits(n: nat)
    ensures DigitsValue(Digits(n)) == n
  {
    if n >= 10 {
      var s := Digits(n);
      assert s[..|s| - 1] == Digits(n / 10);
      DigitsValueOfDigits(n / 10);
    }
  }

  /** Reading back what `String(n)` wrote gives `n`. */
  lemma IntToStringRoundTrip(n: int)
    ensures ParseInteger(IntToString(n)) == Some(n)
  {
    if n < 0 {
      NegativeRoundTrip(n);
    } else {
      DigitsValueOfDigits(n);
    }
  }

  lemma NegativeRoundTrip(n: int)
    requires n < 0
    ensures ParseInteger("-" + Digits(-n)) == Some(n)
  {
    var s := "-" + Digits(-n);
    assert s[1..] == Digits(-n);
    assert !IsDigit(s[0]);
    DigitsValueOfDigits(-n);
  }

  /** `String` is one-to-one on integers. */
  lemma IntToStringInjective(m: int, n: int)
    requires IntToString(m) == IntToString(n)
    ensures m == n
  {
    IntToStringRoundTrip(m);
    IntToStringRoundTrip(n);
  }

  /** For numbers written with the same count of digits, the ordinal order of the
      text is the numeric order. */
  lemma {:induction false} DigitsOrdered(a: nat, b: nat)
    requires a < b && |Digits(a)| == |Digits(b)|
    ensures OrdinalCompare(Digits(a), Digits(b)) < 0
  {
    if 10 <= b {
      var ca, cb := [DigitChar(a % 10)], [DigitChar(b % 10)];
      assert Digits(a) == Digits(a / 10) + ca;
      assert Digits(b) == Digits(b / 10) + cb;
      if a / 10 < b / 10 {
        DigitsOrdered(a / 10, b / 10);
        OrdinalCompareDecidedPrefix(Digits(a / 10), Digits(b / 10), ca, cb);
      } else {
        OrdinalCompareCommonPrefix(Digits(a / 10), ca, cb);
      }
    }
  }

  /** Years 1000 to 9999 are written with four digits. */
  lemma FourDigits(n: nat)
    requires 1000 <= n <= 9999
    ensures |Digits(n)| == 4
  {
    assert |Digits(n / 1000)| == 1;
    assert |Digits(n / 100)| == 2 by { assert (n / 100) / 10 == n / 1000; }
    assert |Digits(n / 10)| == 3 by { assert (n / 10) / 10 == n / 100; }
  }
}
