/** The two pieces of JavaScript number semantics the components rely on:
    the remainder operator `%`, which truncates toward zero (its result has
    the sign of the dividend), and the conversion of a non-negative integer
    to its decimal text, as used when JSX renders `{count}`. */
module JsNumber {

  function Abs(x: int): (r: int)
    ensures r >= 0 && (r == x || r == -x)
  {
    if x < 0 then -x else x
  }

  lemma MulNonNegative(x: int, y: int)
    requires x >= 0 && y >= 0
    ensures x * y >= 0
  {
  }

  /** Dafny's (Euclidean) `%` is determined by any decomposition
      `x == n * q + r` with `0 <= r < n`. */
  lemma ModUnique(x: int, n: int, q: int, r: int)
    requires n > 0 && 0 <= r < n
    requires x == n * q + r
    ensures x % n == r
  {
    var d := q - x / n;
    assert n * q - n * (x / n) == n * d;
    if d >= 1 {
      MulNonNegative(n, d - 1);
    } else if d <= -1 {
      MulNonNegative(n, -d - 1);
    }
  }

  lemma MultipleMod(n: int, q: int)
    requires n != 0
    ensures (n * q) % n == 0
  {
    var m := n * q;
    var k := q - m / n;
    assert m % n == n * k;
    if n > 0 {
      if k >= 1 { MulNonNegative(n, k - 1); } else if k <= -1 { MulNonNegative(n, -k); }
    } else {
      if k >= 1 { MulNonNegative(-n, k); } else if k <= -1 { MulNonNegative(-n, -k - 1); }
    }
  }

  /** JavaScript `a % n` on integers: the remainder of the division truncated
      toward zero, so it has the sign of `a` and `-1 % 3 == -1`. Dafny's own
      `%` is Euclidean and never negative. The three postconditions are the
      ECMAScript definition and fix the result uniquely. */
  function Rem(a: int, n: int): (r: int)
    requires n != 0
    ensures a >= 0 ==> 0 <= r < Abs(n)
    ensures a < 0 ==> -Abs(n) < r <= 0
    ensures (a - r) % n == 0
  {
    if a >= 0 then
      MultipleMod(n, a / n);
      assert a - a % n == n * (a / n);
      a % n
    else
      var b := -a;
      MultipleMod(n, -(b / n));
      assert b == n * (b / n) + b % n;
      assert n * (-(b / n)) == -(n * (b / n));
      -(b % n)
  }

  /** On a non-negative dividend and a positive divisor the truncated and the
      Euclidean remainder agree. */
  lemma RemOfNonNegative(a: int, n: int)
    requires a >= 0 && n > 0
    ensures Rem(a, n) == a % n
  {
  }

  /** The remainder of a negative dividend is never a valid index:
      `Rem(-1, n)` is `-1` for every divisor greater than one. */
  lemma RemOfMinusOne(n: int)
    requires n > 1
    ensures Rem(-1, n) == -1
  {
    ModUnique(1, n, 0, 1);
  }

  /** The decimal digit character for `d < 10`. */
  function DigitChar(d: nat): (c: char)
    requires d < 10
    ensures '0' <= c <= '9'
    ensures c as int - '0' as int == d
  {
    (d + '0' as int) as char
  }

  predicate IsDigit(c: char) {
    '0' <= c <= '9'
  }

  predicate AllDigits(s: string) {
    forall k :: 0 <= k < |s| ==> IsDigit(s[k])
  }

  /** `String(n)` for a non-negative integer `n`: its shortest decimal
      text, with no sign and no leading zero. */
  function Decimal(n: nat): (s: string)
    ensures 0 < |s|
    ensures AllDigits(s)
    ensures s[0] == '0' ==> n == 0 && s == "0"
    decreases n
  {
    if n < 10 then [DigitChar(n)] else Decimal(n / 10) + [DigitChar(n % 10)]
  }

  /** The value a string of decimal digits denotes (most significant first). */
  function DecimalValue(s: string): nat
    requires AllDigits(s)
  {
    if s == [] then 0
    else DecimalValue(s[..|s| - 1]) * 10 + (s[|s| - 1] as int - '0' as int)
  }

  /** Reading back the decimal text of `n` gives `n`. */
  lemma {:induction false} DecimalRoundTrip(n: nat)
    ensures DecimalValue(Decimal(n)) == n
  {
    var s := Decimal(n);
    if n < 10 {
      assert s[..0] == [];
    } else {
      var init := Decimal(n / 10);
      assert s[..|s| - 1] == init;
      DecimalRoundTrip(n / 10);
    }
  }

  /** Different numbers are rendered as different texts. */
  lemma DecimalInjective(a: nat, b: nat)
    requires Decimal(a) == Decimal(b)
    ensures a == b
  {
    DecimalRoundTrip(a);
    DecimalRoundTrip(b);
  }
}
