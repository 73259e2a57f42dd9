/** Printing and reading decimal numbers. */
module Decimals {
  import opened Bytes
  import opened Bits

  const MINUS: Byte := 45
  const PLUS: Byte := 43

  predicate IsDigit(c: Byte) {
    48 <= c <= 57
  }

  predicate IsSpace(c: Byte) {
    c == 32 || 9 <= c <= 13
  }

  function DigitValue(c: Byte): nat
    requires IsDigit(c)
  {
    c as int - 48
  }

  function DigitOf(d: nat): (c: Byte)
    requires d < 10
    ensures IsDigit(c) && DigitValue(c) == d
  {
    (48 + d) as Byte
  }

  /** The decimal digits of a number. */
  function Digits(n: nat): (s: Bytes)
    ensures s != []
    ensures forall i :: 0 <= i < |s| ==> IsDigit(s[i])
  {
    if n < 10 then [DigitOf(n)] else Digits(n / 10) + [DigitOf(n % 10)]
  }

  /** What `%ld` prints. */
  function Decimal(n: int): (s: Bytes)
    ensures s != []
    ensures forall i :: 0 <= i < |s| ==> IsDigit(s[i]) || s[i] == MINUS
  {
    if n < 0 then [MINUS] + Digits(-n) else Digits(n)
  }

  /** The number the leading digits stand for, after those already read. */
  function DigitsFrom(acc: nat, s: Bytes): nat
    decreases |s|
  {
    if s == [] || !IsDigit(s[0]) then acc else DigitsFrom(10 * acc + DigitValue(s[0]), s[1..])
  }

  /** atol: leading white space, a sign, and then digits up to the first other byte. */
  function Atol(s: Bytes): int
    decreases |s|
  {
    if s != [] && IsSpace(s[0]) then Atol(s[1..])
    else if s != [] && s[0] == MINUS then -1 * DigitsFrom(0, s[1..])
    else if s != [] && s[0] == PLUS then DigitsFrom(0, s[1..])
    else DigitsFrom(0, s)
  }

  lemma {:induction false} DigitsFromJoin(acc: nat, a: Bytes, b: Bytes)
    requires forall i :: 0 <= i < |a| ==> IsDigit(a[i])
    ensures DigitsFrom(acc, a + b) == DigitsFrom(DigitsFrom(acc, a), b)
    decreases |a|
  {
    if a == [] {
      assert a + b == b;
    } else {
      assert (a + b)[1..] == a[1..] + b;
      DigitsFromJoin(10 * acc + DigitValue(a[0]), a[1..], b);
    }
  }

  lemma {:induction false} ReadDigits(n: nat)
    ensures DigitsFrom(0, Digits(n)) == n
  {
    if n >= 10 {
      ReadDigits(n / 10);
      DigitsFromJoin(0, Digits(n / 10), [DigitOf(n % 10)]);
      ReadOne(n / 10, DigitOf(n % 10));
    } else {
      ReadOne(0, DigitOf(n));
    }
  }

  lemma ReadOne(acc: nat, c: Byte)
    requires IsDigit(c)
    ensures DigitsFrom(acc, [c]) == 10 * acc + DigitValue(c)
  {
    assert [c][1..] == [];
  }

  /** Reading back a printed number, whatever non-digit follows it. */
  lemma AtolDecimal(n: int, rest: Bytes)
    requires rest == [] || !IsDigit(rest[0])
    ensures Atol(Decimal(n) + rest) == n
  {
    hide Atol, DigitsFrom, Digits;
    var m := if n < 0 then -n else n;
    ReadDigits(m);
    DigitsFromJoin(0, Digits(m), rest);
    ReadNothing(m, rest);
    if n < 0 {
      AtolMinus(Digits(m) + rest);
      assert Decimal(n) + rest == [MINUS] + (Digits(m) + rest);
    } else {
      AtolPlain(Digits(m) + rest);
    }
  }

  lemma ReadNothing(acc: nat, rest: Bytes)
    requires rest == [] || !IsDigit(rest[0])
    ensures DigitsFrom(acc, rest) == acc
  {
  }

  lemma AtolMinus(s: Bytes)
    ensures Atol([MINUS] + s) == -1 * DigitsFrom(0, s)
  {
    assert ([MINUS] + s)[1..] == s;
  }

  lemma AtolPlain(s: Bytes)
    requires s != [] && IsDigit(s[0])
    ensures Atol(s) == DigitsFrom(0, s)
  {
  }

  function Pow10(k: nat): (p: nat)
    ensures p >= 1
  {
    if k == 0 then 1 else 10 * Pow10(k - 1)
  }

  lemma {:induction false} DigitsShort(n: nat, k: nat)
    requires n < Pow10(k) && k >= 1
    ensures |Digits(n)| <= k
  {
    assert Pow10(k) == 10 * Pow10(k - 1);
    if n >= 10 {
      DigitsShort(n / 10, k - 1);
    }
  }

  lemma {:induction false} Pow10Next5(k: nat)
    ensures Pow10(k + 5) == 100_000 * Pow10(k)
  {
    assert Pow10(k + 1) == 10 * Pow10(k);
    assert Pow10(k + 2) == 100 * Pow10(k);
    assert Pow10(k + 3) == 1000 * Pow10(k);
    assert Pow10(k + 4) == 10000 * Pow10(k);
  }

  /** A printed `long` takes at most 21 characters. */
  lemma DecimalShort(n: int)
    requires LONG_MIN <= n <= LONG_MAX
    ensures |Decimal(n)| <= 21
  {
    Pow10Next5(0);
    Pow10Next5(5);
    Pow10Next5(10);
    Pow10Next5(15);
    DigitsShort(if n < 0 then -n else n, 20);
  }

  /** Printed numbers, digit by digit: '0' is character 48, and '-' is 45. */
  lemma DecimalLaw(n: nat, d: nat)
    requires d < 10
    ensures Decimal(d) == [48 + d as Byte]
    ensures n > 0 ==> Decimal(10 * n + d) == Decimal(n) + [48 + d as Byte]
    ensures n > 0 ==> Decimal(-1 * n) == [45] + Decimal(n)
  {
    assert (10 * n + d) / 10 == n && (10 * n + d) % 10 == d;
  }
}
