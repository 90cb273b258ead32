/** Decimal numbers in text, and 64-bit arithmetic. */
module Numbers {
  import opened Base

  const PLUS: Byte := 43
  const MINUS: Byte := 45
  const MAX_INT: int := 0x7fff_ffff_ffff_ffff

  /** What is left of a number in 64 bits, two's complement. */
  function Wrap64(n: int): (r: int)
    ensures -MAX_INT - 1 <= r <= MAX_INT
    ensures -MAX_INT - 1 <= n <= MAX_INT ==> r == n
  {
    (n + MAX_INT + 1) % (2 * (MAX_INT + 1)) - MAX_INT - 1
  }

  lemma WrapAgain(a: int, b: int)
    ensures Wrap64(Wrap64(a) + b) == Wrap64(a + b)
  {
    var m := 2 * (MAX_INT + 1);
    var q := (a + MAX_INT + 1) / m;
    assert Wrap64(a) == a - q * m;
    SameRemainder(a + b + MAX_INT + 1, q, m);
  }

  lemma SameRemainder(x: int, q: int, m: int)
    requires m > 0
    ensures (x - q * m) % m == x % m
  {
    var p := x / m;
    assert x - q * m == (p - q) * m + x % m;
    RemainderIs(x - q * m, p - q, x % m, m);
  }

  lemma RemainderIs(x: int, p: int, r: int, m: int)
    requires m > 0 && 0 <= r < m && x == p * m + r
    ensures x % m == r
  {
    var d := x / m - p;
    assert x == (x / m) * m + x % m;
    assert d * m == r - x % m;
    MultipleIsFar(d, m);
  }

  lemma MultipleIsFar(d: int, m: int)
    requires m > 0
    ensures (d >= 1 ==> d * m >= m) && (d <= -1 ==> d * m <= -m)
  {
    if d >= 1 { assert d * m == (d - 1) * m + m; }
    if d <= -1 { assert d * m == (d + 1) * m - m; }
  }

  function Decimal(n: nat): (s: Bytes)
    ensures s != [] && AllDigits(s)
  {
    if n < 10 then [48 + n as Byte] else Decimal(n / 10) + [48 + (n % 10) as Byte]
  }

  function Itoa(n: int): Bytes {
    if n < 0 then [MINUS] + Decimal(-n) else Decimal(n)
  }

  predicate AllDigits(s: Bytes) {
    forall i :: 0 <= i < |s| ==> 48 <= s[i] <= 57
  }

  function Value(s: Bytes): (n: nat)
    requires AllDigits(s)
  {
    if s == [] then 0 else 10 * Value(s[..|s| - 1]) + (s[|s| - 1] - 48) as nat
  }

  /** A decimal number with an optional sign that fits 64 bits, or nothing. */
  function Atoi(s: Bytes): Option<int> {
    var digits := if s != [] && (s[0] == MINUS || s[0] == PLUS) then s[1..] else s;
    if digits == [] || !AllDigits(digits) then None
    else
      var v: int := Value(digits);
      var n := if s[0] == MINUS then -v else v;
      if -MAX_INT - 1 <= n <= MAX_INT then Some(n) else None
  }

  lemma {:induction false} DecimalValue(n: nat)
    ensures Value(Decimal(n)) == n
  {
    if n >= 10 {
      DecimalValue(n / 10);
      var s := Decimal(n);
      assert s[..|s| - 1] == Decimal(n / 10);
    } else {
      assert Decimal(n)[..0] == [];
    }
  }

  lemma AtoiItoa(n: int)
    requires -MAX_INT - 1 <= n <= MAX_INT
    ensures Atoi(Itoa(n)) == Some(n)
  {
    DecimalValue(if n < 0 then -n else n);
    if n < 0 { assert Itoa(n)[1..] == Decimal(-n); }
  }

  /** Written decimally: the last digit is the remainder by ten, and the others are the quotient. */
  lemma DigitsMean(n: nat)
    ensures n < 10 ==> Decimal(n) == ['0' as int as Byte + n as Byte]
    ensures n >= 10 ==> Decimal(n) == Decimal(n / 10) + ['0' as int as Byte + (n % 10) as Byte]
    ensures n > 0 ==> Itoa(0 - n) == ['-' as int as Byte] + Itoa(n)
  {}
}
