/** Small helpers shared by the whole model: an Option type, the JavaScript
    numeric operators the source relies on (Math.min, Math.max and the
    truncating remainder `%`), decimal rendering of numbers inside template
    strings, and the string operations used by the search box. */
module Common {

  datatype Option<T> = None | Some(value: T)

  /** A value `Math.random()` can return. */
  predicate IsRandom(r: real) { 0.0 <= r < 1.0 }

  /** JavaScript `Math.min` on two numbers. */
  function Min(a: real, b: real): (r: real)
    ensures r <= a && r <= b
    ensures r == a || r == b
  {
    if a <= b then a else b
  }

  /** JavaScript `Math.max` on two numbers. */
  function Max(a: real, b: real): (r: real)
    ensures r >= a && r >= b
    ensures r == a || r == b
  {
    if a >= b then a else b
  }

  /** `Math.max(lo, Math.min(hi, x))`, the clamp idiom of the source. */
  function Clamp(lo: real, hi: real, x: real): (r: real)
    requires lo <= hi
    ensures lo <= r <= hi
    ensures lo <= x <= hi ==> r == x
    ensures x < lo ==> r == lo
    ensures x > hi ==> r == hi
  {
    Max(lo, Min(hi, x))
  }

  /** Rounding toward zero, the quotient JavaScript's `%` is built on. */
  function Trunc(y: real): (q: int)
    ensures y >= 0.0 ==> q as real <= y < q as real + 1.0
    ensures y < 0.0 ==> q as real - 1.0 < y <= q as real
  {
    if y >= 0.0 then y.Floor else -((-y).Floor)
  }

  /** JavaScript's remainder `x % m` for a positive divisor: the result has
      the sign of the dividend, unlike Dafny's Euclidean `%`. */
  function JsRem(x: real, m: real): (r: real)
    requires m > 0.0
    ensures x >= 0.0 ==> 0.0 <= r < m
    ensures x < 0.0 ==> -m < r <= 0.0
    ensures -m < x < m ==> r == x
  {
    QuotientBounds(x, m);
    x - m * Trunc(x / m) as real
  }

  /** Where `x - m * trunc(x / m)` lies, by the sign of `x`. */
  lemma QuotientBounds(x: real, m: real)
    requires m > 0.0
    ensures var q := Trunc(x / m) as real;
      && (x >= 0.0 ==> q * m <= x < q * m + m)
      && (x < 0.0 ==> q * m - m < x <= q * m)
      && (-m < x < m ==> q == 0.0)
  {
    DivSign(x, m);
    var q := Trunc(x / m) as real;
    if x >= 0.0 {
      ScaledBelow(x, m, q);
    } else {
      ScaledAbove(x, m, q);
    }
  }

  lemma DivSign(x: real, m: real)
    requires m > 0.0
    ensures x >= 0.0 ==> x / m >= 0.0
    ensures x < 0.0 ==> x / m < 0.0
    ensures 0.0 <= x < m ==> x / m < 1.0
    ensures -m < x < 0.0 ==> x / m > -1.0
  {
    var y := x / m;
    assert x == y * m;
    if x >= 0.0 && y < 0.0 { MulLt(y, 0.0, m); }
    if x < 0.0 && y >= 0.0 { MulLe(0.0, y, m); }
    if x < m && y >= 1.0 { MulLe(1.0, y, m); }
    if -m < x && y <= -1.0 { MulLe(y, -1.0, m); }
  }

  lemma ScaledBelow(x: real, m: real, q: real)
    requires m > 0.0
    requires q <= x / m < q + 1.0
    ensures q * m <= x < q * m + m
  {
    BelowQuotient(q, x, m);
    AboveQuotient(x, q + 1.0, m);
    assert (q + 1.0) * m == q * m + m;
  }

  lemma ScaledAbove(x: real, m: real, q: real)
    requires m > 0.0
    requires q - 1.0 < x / m <= q
    ensures q * m - m < x <= q * m
  {
    BelowQuotient(q - 1.0, x, m);
    AboveQuotient(x, q, m);
    assert (q - 1.0) * m == q * m - m;
  }

  /** `a <= x / m` gives `a * m <= x`, strictly when `a < x / m`. */
  lemma BelowQuotient(a: real, x: real, m: real)
    requires m > 0.0 && a <= x / m
    ensures a * m <= x
    ensures a < x / m ==> a * m < x
  {
    var y := x / m;
    assert y * m == x;
    MulLe(a, y, m);
    if a < y { MulLt(a, y, m); }
  }

  /** `x / m <= b` gives `x <= b * m`, strictly when `x / m < b`. */
  lemma AboveQuotient(x: real, b: real, m: real)
    requires m > 0.0 && x / m <= b
    ensures x <= b * m
    ensures x / m < b ==> x < b * m
  {
    var y := x / m;
    assert y * m == x;
    MulLe(y, b, m);
    if y < b { MulLt(y, b, m); }
  }

  lemma MulLe(a: real, b: real, m: real)
    requires m > 0.0 && a <= b
    ensures a * m <= b * m
  {
  }

  lemma MulLt(a: real, b: real, m: real)
    requires m > 0.0 && a < b
    ensures a * m < b * m
  {
  }

  // ----- decimal rendering of non-negative integers (template literals) -----

  predicate IsDigit(c: char) { '0' <= c <= '9' }

  predicate AllDigits(s: string) { forall k :: 0 <= k < |s| ==> IsDigit(s[k]) }

  function DigitChar(d: nat): (c: char)
    requires d < 10
    ensures IsDigit(c)
  {
    ('0' as int + d) as char
  }

  function DigitValue(c: char): (d: nat)
    requires IsDigit(c)
    ensures d < 10
  {
    c as int - '0' as int
  }

  /** How JavaScript renders a non-negative integer in a template string:
      its decimal digits, most significant first, without leading zeros. */
  function DecimalString(n: nat): (s: string)
    ensures 1 <= |s| && AllDigits(s)
    ensures n < 10 <==> |s| == 1
  {
    if n < 10 then [DigitChar(n)] else DecimalString(n / 10) + [DigitChar(n % 10)]
  }

  /** Reads a string of decimal digits back as a number. */
  function DecimalValue(s: string): nat
    requires AllDigits(s)
  {
    if s == [] then 0 else DecimalValue(s[..|s| - 1]) * 10 + DigitValue(s[|s| - 1])
  }

  /** Rendering then reading gives the number back. */
  lemma {:induction false} DecimalRoundTrip(n: nat)
    ensures DecimalValue(DecimalString(n)) == n
  {
    if n >= 10 {
      var s := DecimalString(n);
      assert s[..|s| - 1] == DecimalString(n / 10);
      DecimalRoundTrip(n / 10);
    }
  }

  /** Two different numbers never render to the same string. */
  lemma DecimalStringInjective(m: nat, n: nat)
    requires m != n
    ensures DecimalString(m) != DecimalString(n)
  {
    DecimalRoundTrip(m);
    DecimalRoundTrip(n);
  }

  /** Prefixing the same text keeps distinct renderings distinct. */
  lemma PrefixedDecimalInjective(prefix: string, m: nat, n: nat)
    requires m != n
    ensures prefix + DecimalString(m) != prefix + DecimalString(n)
  {
    DecimalStringInjective(m, n);
    var a, b := prefix + DecimalString(m), prefix + DecimalString(n);
    assert a[|prefix|..] == DecimalString(m);
    assert b[|prefix|..] == DecimalString(n);
  }

  // ----- the string operations of the search filter -----

  /** `toLowerCase` on the ASCII letters. */
  function LowerChar(c: char): (l: char)
    ensures 'A' <= c <= 'Z' ==> l as int == c as int + 32
    ensures !('A' <= c <= 'Z') ==> l == c
    ensures !('A' <= l <= 'Z')
  {
    if 'A' <= c <= 'Z' then (c as int + 32) as char else c
  }

  function Lower(s: string): (l: string)
    ensures |l| == |s|
    ensures forall k :: 0 <= k < |s| ==> l[k] == LowerChar(s[k])
  {
    if s == [] then [] else [LowerChar(s[0])] + Lower(s[1..])
  }

  /** `sub` occurs in `s` starting at position `i`. */
  predicate OccursAt(s: string, sub: string, i: nat)
  {
    i + |sub| <= |s| && s[i..i + |sub|] == sub
  }

  /** JavaScript's `s.includes(sub)`: does `sub` occur anywhere in `s`? */
  function Includes(s: string, sub: string): (b: bool)
    ensures b <==> exists i: nat :: OccursAt(s, sub, i)
    decreases |s|
  {
    if |sub| > |s| then
      assert forall i: nat :: !OccursAt(s, sub, i);
      false
    else if s[..|sub|] == sub then
      assert OccursAt(s, sub, 0);
      true
    else
      var b := Includes(s[1..], sub);
      assert forall i: nat :: OccursAt(s[1..], sub, i) <==> OccursAt(s, sub, i + 1) by {
        forall i: nat ensures OccursAt(s[1..], sub, i) <==> OccursAt(s, sub, i + 1) {
          if i + |sub| <= |s| - 1 {
            assert s[1..][i..i + |sub|] == s[i + 1..i + 1 + |sub|];
          }
        }
      }
      assert !OccursAt(s, sub, 0);
      assert (exists i: nat :: OccursAt(s, sub, i)) ==> exists i: nat :: OccursAt(s[1..], sub, i) by {
        if exists i: nat :: OccursAt(s, sub, i) {
          var i: nat :| OccursAt(s, sub, i);
          assert i > 0;
          assert OccursAt(s[1..], sub, i - 1);
        }
      }
      b
  }
}
