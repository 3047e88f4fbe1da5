/**
  Binary and decimal numerals as the Go standard library writes and reads them
  (strconv.FormatInt, strconv.ParseInt, fmt's "%0<w>d"), and the powers they need.
 */
module Numerals {

  type byte = b: int | 0 <= b < 256

  function Pow2(n: nat): (p: nat)
    ensures p >= 1
  {
    if n == 0 then 1 else 2 * Pow2(n - 1)
  }

  function Pow10(n: nat): (p: nat)
    ensures p >= 1
  {
    if n == 0 then 1 else 10 * Pow10(n - 1)
  }

  // ---------------------------------------------------------------- binary

  predicate IsBinary(s: string) {
    forall i :: 0 <= i < |s| ==> s[i] == '0' || s[i] == '1'
  }

  /** The value of a string of binary digits, most significant first
      (strconv.ParseInt(s, 2, 64) on a string that holds only binary digits). */
  function ParseBinary(s: string): (v: nat)
    requires IsBinary(s)
    ensures v < Pow2(|s|)
  {
    if s == [] then 0
    else 2 * ParseBinary(s[..|s| - 1]) + (if s[|s| - 1] == '1' then 1 else 0)
  }

  /** The w-digit big-endian binary numeral of v. */
  function Binary(v: nat, w: nat): (s: string)
    requires v < Pow2(w)
    ensures |s| == w && IsBinary(s) && ParseBinary(s) == v
  {
    if w == 0 then []
    else
      var s := Binary(v / 2, w - 1) + [if v % 2 == 0 then '0' else '1'];
      assert s[..|s| - 1] == Binary(v / 2, w - 1);
      s
  }

  /** A w-digit binary string is the w-digit numeral of its own value. */
  lemma {:induction false} BinaryOfParse(s: string)
    requires IsBinary(s)
    ensures Binary(ParseBinary(s), |s|) == s
  {
    if s != [] {
      var init := s[..|s| - 1];
      var v := ParseBinary(s);
      assert v / 2 == ParseBinary(init) && (v % 2 == 0 <==> s[|s| - 1] == '0');
      BinaryOfParse(init);
      assert s == init + [s[|s| - 1]];
    }
  }

  /** A leading '0' does not change the value of a binary string. */
  lemma {:induction false} LeadingZeroBinary(s: string)
    requires IsBinary(s)
    ensures IsBinary("0" + s) && ParseBinary("0" + s) == ParseBinary(s)
  {
    if s != [] {
      var t := "0" + s;
      assert t[..|t| - 1] == "0" + s[..|s| - 1];
      LeadingZeroBinary(s[..|s| - 1]);
    }
  }

  function BinaryDigit(b: nat): char
    requires b < 2
  {
    if b == 0 then '0' else '1'
  }

  /** strconv.FormatInt(n, 2) for n >= 0: the shortest binary numeral of n. */
  function FormatBinary(n: nat): (s: string)
    ensures 1 <= |s| && IsBinary(s) && ParseBinary(s) == n
  {
    if n < 2 then [BinaryDigit(n)]
    else
      var s := FormatBinary(n / 2) + [BinaryDigit(n % 2)];
      assert s[..|s| - 1] == FormatBinary(n / 2);
      s
  }

  /** A value below 2^w needs at most w binary digits. */
  lemma {:induction false} FormatBinaryWidth(n: nat, w: nat)
    requires 1 <= w && n < Pow2(w)
    ensures |FormatBinary(n)| <= w
  {
    if n >= 2 {
      FormatBinaryWidth(n / 2, w - 1);
    }
  }

  // ---------------------------------------------------------------- decimal

  predicate IsDecimal(s: string) {
    forall i :: 0 <= i < |s| ==> '0' <= s[i] <= '9'
  }

  /** The value of a string of decimal digits, most significant first. */
  function ParseDecimal(s: string): (v: nat)
    requires IsDecimal(s)
    ensures v < Pow10(|s|)
  {
    if s == [] then 0
    else 10 * ParseDecimal(s[..|s| - 1]) + (s[|s| - 1] as int - '0' as int)
  }

  function DecimalDigit(d: nat): (c: char)
    requires d < 10
    ensures '0' <= c <= '9' && c as int - '0' as int == d
  {
    ('0' as int + d) as char
  }

  /** strconv.Itoa(n), and fmt's "%d", for n >= 0: the shortest decimal numeral of n. */
  function FormatDecimal(n: nat): string {
    if n < 10 then [DecimalDigit(n)] else FormatDecimal(n / 10) + [DecimalDigit(n % 10)]
  }

  /** The numeral is made of decimal digits and reads back as n. */
  lemma {:induction false} FormatDecimalValue(n: nat)
    ensures var s := FormatDecimal(n); 1 <= |s| && IsDecimal(s) && ParseDecimal(s) == n
  {
    var s := FormatDecimal(n);
    if n >= 10 {
      FormatDecimalValue(n / 10);
      assert s[..|s| - 1] == FormatDecimal(n / 10);
    }
  }

  /** A value below 10^w needs at most w decimal digits. */
  lemma {:induction false} FormatDecimalWidth(n: nat, w: nat)
    requires 1 <= w && n < Pow10(w)
    ensures |FormatDecimal(n)| <= w
  {
    if n >= 10 {
      FormatDecimalWidth(n / 10, w - 1);
    }
  }

  function Zeros(k: nat): (z: string)
    ensures |z| == k && IsDecimal(z) && IsBinary(z)
  {
    seq(k, _ => '0')
  }

  /** Leading zeros do not change the value of a decimal string. */
  lemma {:induction false} LeadingZerosDecimal(k: nat, s: string)
    requires IsDecimal(s)
    ensures IsDecimal(Zeros(k) + s) && ParseDecimal(Zeros(k) + s) == ParseDecimal(s)
  {
    if s != [] {
      var t := Zeros(k) + s;
      assert t[..|t| - 1] == Zeros(k) + s[..|s| - 1];
      LeadingZerosDecimal(k, s[..|s| - 1]);
    } else if k > 0 {
      assert Zeros(k) + s == Zeros(k - 1) + "0";
      LeadingZerosDecimal(k - 1, s);
      assert (Zeros(k - 1) + "0")[..k - 1] == Zeros(k - 1) + s;
    }
  }

  /** fmt.Sprintf("%0<w>d", n) for n >= 0 and w >= 1: the decimal numeral of n,
      left-padded with zeros to w characters; a longer numeral is not cut. */
  function ZeroPadded(n: nat, w: nat): string {
    var digits := FormatDecimal(n);
    if |digits| < w then Zeros(w - |digits|) + digits else digits
  }

  /** The padded numeral reads back as n and is w characters long unless n needs more. */
  lemma ZeroPaddedValue(n: nat, w: nat)
    ensures var s := ZeroPadded(n, w);
      && IsDecimal(s) && ParseDecimal(s) == n
      && |s| == if |FormatDecimal(n)| < w then w else |FormatDecimal(n)|
  {
    var digits := FormatDecimal(n);
    FormatDecimalValue(n);
    if |digits| < w {
      LeadingZerosDecimal(w - |digits|, digits);
    }
  }

  /** Below 10^w, the padded numeral has exactly w digits, and reading it back gives n. */
  lemma ZeroPaddedWidth(n: nat, w: nat)
    requires 1 <= w && n < Pow10(w)
    ensures |ZeroPadded(n, w)| == w && IsDecimal(ZeroPadded(n, w))
    ensures ParseDecimal(ZeroPadded(n, w)) == n
  {
    FormatDecimalWidth(n, w);
    ZeroPaddedValue(n, w);
  }

  /** Pow10 grows with its exponent. */
  lemma {:induction false} Pow10Monotone(a: nat, b: nat)
    requires a <= b
    ensures Pow10(a) <= Pow10(b)
  {
    if a < b {
      Pow10Monotone(a, b - 1);
    }
  }

  // ---------------------------------------------------------------- Go integers

  /** The unsigned big-endian value of a byte string. */
  function BigEndian(s: seq<byte>): nat {
    if s == [] then 0 else 256 * BigEndian(s[..|s| - 1]) + s[|s| - 1]
  }

  function Abs(x: int): nat {
    if x < 0 then -x else x
  }

  /** Go's integer division, which truncates toward zero. */
  function Quot(a: int, b: int): (q: int)
    requires b != 0
    ensures 0 <= a && 0 < b ==> q == a / b
  {
    if (a < 0) == (b < 0) then Abs(a) / Abs(b) else -(Abs(a) / Abs(b))
  }

  /** Go's remainder, whose sign is that of the dividend. */
  function Rem(a: int, b: int): (r: int)
    requires b != 0
    ensures 0 <= a ==> r == a % Abs(b)
  {
    a - b * Quot(a, b)
  }

  /** Euclidean division is determined by its quotient and remainder. */
  lemma DivMod(x: int, m: int, q: int, r: int)
    requires 0 <= r < m && x == m * q + r
    ensures x / m == q && x % m == r
  {
    var d := q - x / m;
    assert m * d == x % m - r;
    MultipleBounds(m, d);
  }

  lemma MultipleBounds(m: int, d: int)
    requires m > 0
    ensures d >= 1 ==> m * d >= m
    ensures d <= -1 ==> m * d <= -m
  {
  }

  const TwoTo63: int := 0x8000_0000_0000_0000
  const TwoTo64: int := 0x1_0000_0000_0000_0000

  /** The value of a mathematical integer as Go's 64-bit int holds it: its two's-complement
      wrap-around into [-2^63, 2^63). */
  function Wrap64(x: int): (w: int)
    ensures -TwoTo63 <= w < TwoTo63
    ensures -TwoTo63 <= x < TwoTo63 ==> w == x
  {
    (x + TwoTo63) % TwoTo64 - TwoTo63
  }

  /** Multiplying in 64-bit arithmetic step by step wraps the same way as the exact product. */
  lemma Wrap64Times10(x: int)
    ensures Wrap64(Wrap64(x) * 10) == Wrap64(x * 10)
  {
    var k := (x + TwoTo63) / TwoTo64;
    assert Wrap64(x) == x - k * TwoTo64;
    assert Wrap64(x) * 10 + TwoTo63 == x * 10 + TwoTo63 - (10 * k) * TwoTo64;
    ModuloShift(x * 10 + TwoTo63, 10 * k);
  }

  lemma ModuloShift(a: int, j: int)
    ensures (a - j * TwoTo64) % TwoTo64 == a % TwoTo64
  {
    var q := a / TwoTo64;
    var r := a % TwoTo64;
    assert a - j * TwoTo64 == (q - j) * TwoTo64 + r;
  }
}
