/** Python string behaviour the pipeline relies on: the ordering of `str`
    values, decimal digit fields as `strftime`/`str` write them and
    `strptime` reads them, and `str.strip`. */
module Text {

  /** Python's `a < b` on `str`: code point by code point, and a proper
      prefix sorts before the longer string. */
  predicate Less(a: string, b: string)
    decreases |a|
  {
    if a == [] || b == [] then a == [] && b != []
    else if a[0] == b[0] then Less(a[1..], b[1..])
    else a[0] < b[0]
  }

  lemma {:induction false} LessIrreflexive(a: string)
    ensures !Less(a, a)
    decreases |a|
  {
    if a != [] {
      LessIrreflexive(a[1..]);
    }
  }

  lemma {:induction false} LessTransitive(a: string, b: string, c: string)
    requires Less(a, b) && Less(b, c)
    ensures Less(a, c)
    decreases |a|
  {
    if a != [] && a[0] == b[0] && b[0] == c[0] {
      LessTransitive(a[1..], b[1..], c[1..]);
    }
  }

  /** Any two different strings are ordered one way or the other. */
  lemma {:induction false} LessTotal(a: string, b: string)
    ensures a == b || Less(a, b) || Less(b, a)
    decreases |a|
  {
    if a != [] && b != [] && a[0] == b[0] {
      LessTotal(a[1..], b[1..]);
      if a[1..] == b[1..] {
        assert a == [a[0]] + a[1..] && b == [b[0]] + b[1..];
      }
    }
  }

  /** Comparing two strings that start with pieces of equal width compares
      those pieces first and the remainders only on a tie. */
  lemma {:induction false} LessConcat(p: string, q: string, l: string, m: string)
    requires |p| == |q|
    ensures Less(p + l, q + m) <==> Less(p, q) || (p == q && Less(l, m))
    decreases |p|
  {
    if p == [] {
      assert p + l == l && q + m == m;
    } else {
      assert (p + l)[0] == p[0] && (q + m)[0] == q[0];
      assert (p + l)[1..] == p[1..] + l && (q + m)[1..] == q[1..] + m;
      if p[0] == q[0] {
        LessConcat(p[1..], q[1..], l, m);
        assert p == [p[0]] + p[1..] && q == [q[0]] + q[1..];
      }
    }
  }

  lemma EqConcat(p: string, q: string, l: string, m: string)
    requires |p| == |q|
    ensures p + l == q + m <==> p == q && l == m
  {
    if p + l == q + m {
      assert p == (p + l)[..|p|] && q == (q + m)[..|q|];
      assert l == (p + l)[|p|..] && m == (q + m)[|q|..];
    }
  }

  // ---- decimal digits ----

  predicate IsDigit(c: char) {
    '0' <= c <= '9'
  }

  predicate AllDigits(s: string) {
    forall i :: 0 <= i < |s| ==> IsDigit(s[i])
  }

  function Digit(d: int): char
    requires 0 <= d < 10
  {
    ('0' as int + d) as char
  }

  function DigitValue(c: char): int
    requires IsDigit(c)
  {
    c as int - '0' as int
  }

  /** A zero-padded two-digit field, as `%m`, `%d`, `%H`, `%M`, `%S` write it. */
  function Pad2(n: int): string
    requires 0 <= n < 100
  {
    [Digit(n / 10), Digit(n % 10)]
  }

  /** A zero-padded four-digit field, as `%Y` writes years 1000 to 9999. */
  function Pad4(n: int): string
    requires 0 <= n < 10000
  {
    Pad2(n / 100) + Pad2(n % 100)
  }

  /** Python's `str(n)` for a non-negative int. */
  function DecimalString(n: nat): (r: string)
    ensures r != [] && AllDigits(r)
    ensures |r| > 1 ==> r[0] != '0'
  {
    if n < 10 then [Digit(n)] else DecimalString(n / 10) + [Digit(n % 10)]
  }

  /** The value of a two-digit field. */
  function Field2(s: string): int
    requires |s| == 2 && AllDigits(s)
  {
    10 * DigitValue(s[0]) + DigitValue(s[1])
  }

  /** The value of a four-digit field. */
  function Field4(s: string): int
    requires |s| == 4 && AllDigits(s)
  {
    100 * Field2(s[..2]) + Field2(s[2..])
  }

  lemma Pad2RoundTrip(n: int)
    requires 0 <= n < 100
    ensures |Pad2(n)| == 2 && AllDigits(Pad2(n)) && Field2(Pad2(n)) == n
  {
  }

  lemma Field2RoundTrip(s: string)
    requires |s| == 2 && AllDigits(s)
    ensures 0 <= Field2(s) < 100 && Pad2(Field2(s)) == s
  {
    var a, b := DigitValue(s[0]), DigitValue(s[1]);
    assert (10 * a + b) / 10 == a && (10 * a + b) % 10 == b;
  }

  lemma Pad4RoundTrip(n: int)
    requires 0 <= n < 10000
    ensures |Pad4(n)| == 4 && AllDigits(Pad4(n)) && Field4(Pad4(n)) == n
  {
    var s := Pad4(n);
    assert s[..2] == Pad2(n / 100) && s[2..] == Pad2(n % 100);
    Pad2RoundTrip(n / 100);
    Pad2RoundTrip(n % 100);
  }

  lemma Field4RoundTrip(s: string)
    requires |s| == 4 && AllDigits(s)
    ensures 0 <= Field4(s) < 10000 && Pad4(Field4(s)) == s
  {
    var hi, lo := Field2(s[..2]), Field2(s[2..]);
    Field2RoundTrip(s[..2]);
    Field2RoundTrip(s[2..]);
    assert (100 * hi + lo) / 100 == hi && (100 * hi + lo) % 100 == lo;
    assert s == s[..2] + s[2..];
  }

  lemma DigitOrder(x: int, y: int)
    requires 0 <= x < 10 && 0 <= y < 10
    ensures Digit(x) < Digit(y) <==> x < y
    ensures Digit(x) == Digit(y) <==> x == y
  {
  }

  /** Zero-padded two-digit fields compare as strings as their values do. */
  lemma Pad2Order(x: int, y: int)
    requires 0 <= x < 100 && 0 <= y < 100
    ensures Less(Pad2(x), Pad2(y)) <==> x < y
    ensures Pad2(x) == Pad2(y) <==> x == y
  {
    DigitOrder(x / 10, y / 10);
    DigitOrder(x % 10, y % 10);
    LessConcat([Digit(x / 10)], [Digit(y / 10)], [Digit(x % 10)], [Digit(y % 10)]);
    assert Pad2(x) == [Digit(x / 10)] + [Digit(x % 10)];
    assert Pad2(y) == [Digit(y / 10)] + [Digit(y % 10)];
    assert Less([Digit(x % 10)], [Digit(y % 10)]) <==> Digit(x % 10) < Digit(y % 10);
    assert Less([Digit(x / 10)], [Digit(y / 10)]) <==> Digit(x / 10) < Digit(y / 10);
    assert x == 10 * (x / 10) + x % 10 && y == 10 * (y / 10) + y % 10;
  }

  /** Zero-padded four-digit fields compare as strings as their values do. */
  lemma Pad4Order(x: int, y: int)
    requires 0 <= x < 10000 && 0 <= y < 10000
    ensures Less(Pad4(x), Pad4(y)) <==> x < y
    ensures Pad4(x) == Pad4(y) <==> x == y
  {
    Pad2Order(x / 100, y / 100);
    Pad2Order(x % 100, y % 100);
    LessConcat(Pad2(x / 100), Pad2(y / 100), Pad2(x % 100), Pad2(y % 100));
    EqConcat(Pad2(x / 100), Pad2(y / 100), Pad2(x % 100), Pad2(y % 100));
    assert x == 100 * (x / 100) + x % 100 && y == 100 * (y / 100) + y % 100;
  }

  /** For a four-digit number, `str(n)` and the zero-padded `%Y` field agree. */
  lemma DecimalStringOfFourDigits(n: int)
    requires 1000 <= n < 10000
    ensures DecimalString(n) == Pad4(n)
  {
    assert n / 10 / 10 / 10 == n / 100 / 10;
    assert n / 10 / 10 % 10 == n / 100 % 10;
    assert n / 10 % 10 == n % 100 / 10;
    assert n % 10 == n % 100 % 10;
    calc {
      DecimalString(n);
      DecimalString(n / 10) + [Digit(n % 10)];
      DecimalString(n / 10 / 10) + [Digit(n / 10 % 10)] + [Digit(n % 10)];
      [Digit(n / 10 / 10 / 10)] + [Digit(n / 10 / 10 % 10)] + [Digit(n / 10 % 10)] + [Digit(n % 10)];
    }
  }

  // ---- str.strip ----

  /** Python's `str.isspace` for one character. */
  predicate IsSpace(c: char) {
    var n := c as int;
    (9 <= n <= 13) || (28 <= n <= 32) || n == 0x85 || n == 0xA0 || n == 0x1680
    || (0x2000 <= n <= 0x200A) || n == 0x2028 || n == 0x2029 || n == 0x202F
    || n == 0x205F || n == 0x3000
  }

  /** `s` without its leading whitespace: a suffix of `s` that starts at its
      first non-whitespace character. */
  function StripStart(s: string): (r: string)
    ensures |r| <= |s| && r == s[|s| - |r|..]
    ensures forall i :: 0 <= i < |s| - |r| ==> IsSpace(s[i])
    ensures r != [] ==> !IsSpace(r[0])
  {
    if s != [] && IsSpace(s[0]) then StripStart(s[1..]) else s
  }

  /** `s` without its trailing whitespace: a prefix of `s` that ends at its
      last non-whitespace character. */
  function StripEnd(s: string): (r: string)
    ensures |r| <= |s| && r == s[..|r|]
    ensures forall i :: |r| <= i < |s| ==> IsSpace(s[i])
    ensures r != [] ==> !IsSpace(r[|r| - 1])
  {
    if s != [] && IsSpace(s[|s| - 1]) then StripEnd(s[..|s| - 1]) else s
  }

  /** Python's `str.strip()` with no argument: `StripStart` then
      `StripEnd`. */
  function Strip(s: string): (r: string)
    ensures |r| <= |s|
    ensures r != [] ==> !IsSpace(r[0]) && !IsSpace(r[|r| - 1])
  {
    StripEnd(StripStart(s))
  }
}
