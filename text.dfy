/** String helpers the repository relies on: case-insensitive substring
    search (the `ILIKE '%q%'` filters), two-digit zero padding and the
    lexical order the `"MM-DD"` strings are compared in, and the decimal
    rendering of an integer used in error messages. */
module Text {

  // ---------------------------------------------------------------------
  // Case-insensitive substring search

  /** Lower-cases ASCII letters; every other character is kept. */
  function LowerChar(c: char): char {
    if 'A' <= c <= 'Z' then (c as int - 'A' as int + 'a' as int) as char else c
  }

  function Lower(s: string): (r: string)
    ensures |r| == |s|
    ensures forall i :: 0 <= i < |s| ==> r[i] == LowerChar(s[i])
  {
    if s == [] then [] else [LowerChar(s[0])] + Lower(s[1..])
  }

  /** q occurs in s starting at position i. */
  predicate OccursAt(s: string, q: string, i: int) {
    0 <= i <= |s| - |q| && s[i..i + |q|] == q
  }

  /** q occurs in s as a contiguous block. */
  predicate Contains(s: string, q: string) {
    exists i :: 0 <= i <= |s| - |q| && OccursAt(s, q, i)
  }

  /** `s ILIKE '%q%'`, with ASCII case folding and without wildcards inside q. */
  predicate ContainsIgnoreCase(s: string, q: string) {
    Contains(Lower(s), Lower(q))
  }

  /** The empty pattern occurs in every string. */
  lemma EmptyPatternMatches(s: string)
    ensures ContainsIgnoreCase(s, "")
  {
    assert OccursAt(Lower(s), Lower(""), 0);
  }

  /** Searching ignores case on both sides. */
  lemma ContainsIgnoreCaseOfLower(s: string, q: string)
    ensures ContainsIgnoreCase(s, q) <==> ContainsIgnoreCase(Lower(s), Lower(q))
  {
    LowerIdempotent(s);
    LowerIdempotent(q);
  }

  lemma LowerIdempotent(s: string)
    ensures Lower(Lower(s)) == Lower(s)
  {
    var t := Lower(s);
    assert forall i :: 0 <= i < |t| ==> LowerChar(t[i]) == t[i];
  }

  // ---------------------------------------------------------------------
  // Two-digit zero padding and lexical order

  function DigitChar(n: int): char
    requires 0 <= n <= 9
  {
    ('0' as int + n) as char
  }

  /** `%02d`: n in two decimal digits, with a leading zero below 10. */
  function Pad2(n: int): (r: string)
    requires 0 <= n <= 99
    ensures |r| == 2
  {
    [DigitChar(n / 10), DigitChar(n % 10)]
  }

  /** Lexicographic order on character codes. */
  predicate LexLe(a: string, b: string) {
    a == [] || (b != [] && (a[0] < b[0] || (a[0] == b[0] && LexLe(a[1..], b[1..]))))
  }

  /** `"%02d-%02d"` of a month and a day. */
  function MonthDayText(m: int, d: int): (r: string)
    requires 0 <= m <= 99 && 0 <= d <= 99
    ensures |r| == 5 && r[2] == '-'
  {
    Pad2(m) + "-" + Pad2(d)
  }

  lemma LexLeCons(x: char, a: string, y: char, b: string)
    ensures LexLe([x] + a, [y] + b) <==> x < y || (x == y && LexLe(a, b))
  {
    assert ([x] + a)[1..] == a;
    assert ([y] + b)[1..] == b;
  }

  /** Comparing two padded numbers digit by digit is comparing the numbers. */
  lemma PadOrder(m1: int, m2: int)
    requires 0 <= m1 <= 99 && 0 <= m2 <= 99
    ensures m1 < m2 <==> m1 / 10 < m2 / 10 || (m1 / 10 == m2 / 10 && m1 % 10 < m2 % 10)
    ensures m1 == m2 <==> m1 / 10 == m2 / 10 && m1 % 10 == m2 % 10
  {
  }

  /** Lexical order of two-character strings. */
  lemma LexLe2(x0: char, x1: char, y0: char, y1: char, a: string, b: string)
    ensures LexLe([x0, x1] + a, [y0, y1] + b)
        <==> x0 < y0 || (x0 == y0 && (x1 < y1 || (x1 == y1 && LexLe(a, b))))
  {
    LexLeCons(x0, [x1] + a, y0, [y1] + b);
    LexLeCons(x1, a, y1, b);
    assert [x0, x1] + a == [x0] + ([x1] + a);
    assert [y0, y1] + b == [y0] + ([y1] + b);
  }

  /** Lexical order of zero-padded "MM-DD" strings is the order of (month, day) pairs. */
  lemma MonthDayTextOrder(m1: int, d1: int, m2: int, d2: int)
    requires 0 <= m1 <= 99 && 0 <= d1 <= 99 && 0 <= m2 <= 99 && 0 <= d2 <= 99
    ensures LexLe(MonthDayText(m1, d1), MonthDayText(m2, d2)) <==> m1 < m2 || (m1 == m2 && d1 <= d2)
  {
    var p, q := Pad2(d1), Pad2(d2);
    LexLe2(p[0], p[1], q[0], q[1], [], []);
    assert p == [p[0], p[1]] + [] && q == [q[0], q[1]] + [];
    LexLeCons('-', p, '-', q);
    var u, v := Pad2(m1), Pad2(m2);
    LexLe2(u[0], u[1], v[0], v[1], ['-'] + p, ['-'] + q);
    assert MonthDayText(m1, d1) == [u[0], u[1]] + (['-'] + p);
    assert MonthDayText(m2, d2) == [v[0], v[1]] + (['-'] + q);
    PadOrder(m1, m2);
    PadOrder(d1, d2);
  }

  // ---------------------------------------------------------------------
  // Decimal rendering of integers (`str(n)`, `f"{n}"`)

  predicate IsDigit(c: char) {
    '0' <= c <= '9'
  }

  function NatToString(n: nat): (r: string)
    ensures |r| >= 1 && forall i :: 0 <= i < |r| ==> IsDigit(r[i])
  {
    if n < 10 then [DigitChar(n)] else NatToString(n / 10) + [DigitChar(n % 10)]
  }

  function IntToString(n: int): string {
    if n < 0 then "-" + NatToString(-n) else NatToString(n)
  }

  /** The number a string of decimal digits denotes. */
  function DigitsValue(s: string): int
    requires forall i :: 0 <= i < |s| ==> IsDigit(s[i])
  {
    if s == [] then 0
    else DigitsValue(s[..|s| - 1]) * 10 + (s[|s| - 1] as int - '0' as int)
  }

  lemma {:induction false} DigitsValueOfNatToString(n: nat)
    ensures DigitsValue(NatToString(n)) == n
  {
    if n >= 10 {
      DigitsValueOfNatToString(n / 10);
      var s := NatToString(n);
      assert s[..|s| - 1] == NatToString(n / 10);
    }
  }

  /** A rendering starts with a minus sign exactly when the number is negative. */
  lemma IntToStringSign(n: int)
    ensures |IntToString(n)| >= 1
    ensures IntToString(n)[0] == '-' <==> n < 0
  {
    if n >= 0 {
      assert IsDigit(NatToString(n)[0]);
    }
  }

  /** Distinct integers are rendered as distinct strings. */
  lemma IntToStringInjective(a: int, b: int)
    requires IntToString(a) == IntToString(b)
    ensures a == b
  {
    IntToStringSign(a);
    IntToStringSign(b);
    var s := IntToString(a);
    if a < 0 {
      assert NatToString(-a) == s[1..] == NatToString(-b);
      DigitsValueOfNatToString(-a);
      DigitsValueOfNatToString(-b);
    } else {
      DigitsValueOfNatToString(a);
      DigitsValueOfNatToString(b);
    }
  }
}
