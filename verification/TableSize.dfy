/** Choosing a prime table size (dbz.c). */
module TableSize {
  import opened Arith

  const DEFSIZE := 120011
  const QUICK: seq<nat> := [2, 3, 5, 7, 11, 13, 17, 19, 23, 29, 31, 37]

  predicate Divides(d: nat, x: nat)
    requires d >= 1
  {
    x % d == 0
  }

  ghost predicate Prime(x: nat) {
    x >= 2 && forall d :: 2 <= d < x ==> !Divides(d, x)
  }

  /** What `isprime` answers for numbers from 2 up: tables of 37 slots or fewer are refused. */
  ghost predicate GoodSize(x: nat) {
    Prime(x) && x > 37
  }

  lemma DividesBy(d: nat, q: nat, x: nat)
    requires d >= 1 && x == d * q
    ensures Divides(d, x)
  {
    MultipleMod(d, q);
  }

  lemma DividesTrans(p: nat, d: nat, x: nat)
    requires p >= 1 && d >= 1 && Divides(p, d) && Divides(d, x)
    ensures Divides(p, x)
  {
    var a, b := d / p, x / d;
    assert x == p * (a * b);
    DividesBy(p, a * b, x);
  }

  /** Every number from 2 to 37 has one of the quick divisors. */
  lemma QuickCovers(d: nat) returns (p: nat)
    requires 2 <= d <= 37
    ensures p in QUICK && p >= 1 && Divides(p, d)
  {
    if d % 2 == 0 {
      p := 2;
    } else if d % 3 == 0 {
      p := 3;
    } else if d % 5 == 0 {
      p := 5;
    } else {
      p := d;
    }
  }

  /** A number with a divisor has one up to its square root. */
  lemma SmallDivisor(d: nat, x: nat) returns (e: nat)
    requires 2 <= d < x && Divides(d, x)
    ensures 2 <= e && e * e <= x && Divides(e, x)
  {
    if d * d <= x {
      return d;
    }
    e := x / d;
    assert x == d * e;
    if e >= d {
      TimesMonotone(d, e, d);
    }
    if e < 2 {
      TimesMonotone(e, 1, d);
    }
    TimesMonotone(e, d, e);
    DividesBy(e, d, x);
  }

  /** A number with no divisor up to its square root is prime. */
  lemma NoSmallDivisor(x: nat)
    requires x >= 2
    requires forall d :: 2 <= d && d * d <= x ==> !Divides(d, x)
    ensures Prime(x)
  {
    forall d | 2 <= d < x
      ensures !Divides(d, x)
    {
      if Divides(d, x) {
        var e := SmallDivisor(d, x);
      }
    }
  }

  lemma OddDivisors(d: nat, x: nat)
    requires d >= 1 && x % 2 == 1 && Divides(d, x)
    ensures d % 2 == 1
  {
    if Divides(2, d) {
      DividesTrans(2, d, x);
    }
  }

  /** The halving loop of `isprime`: a power-of-two approximation from below. */
  method HalvedRoot(x: nat) returns (stop: nat)
    requires x >= 2
    ensures stop >= 1 && stop * stop <= x < (2 * stop + 1) * (2 * stop + 1)
  {
    stop := x;
    while x / stop < stop
      invariant stop >= 1 && (stop == x || x < (2 * stop + 1) * (2 * stop + 1))
      decreases stop
    {
      HalvedStep(x, stop);
      stop := stop / 2;
    }
    FloorSquare(x, stop);
  }

  lemma HalvedStep(x: nat, s: nat)
    requires x >= 2 && s >= 1 && x / s < s
    ensures s / 2 >= 1 && x < (2 * (s / 2) + 1) * (2 * (s / 2) + 1)
  {
    assert x == s * (x / s) + x % s;
    TimesMonotone(x / s, s - 1, s);
    assert s * (s - 1) == s * s - s;
    var t := 2 * (s / 2) + 1;
    TimesMonotone(s, t, s);
    TimesMonotone(s, t, t);
  }

  lemma FloorSquare(x: nat, s: nat)
    requires s >= 1 && x / s >= s
    ensures s * s <= x
  {
    assert x == s * (x / s) + x % s;
    TimesMonotone(s, x / s, s);
  }

  /** isprime: exact from 2 up, despite the approximate root; it also accepts 1. */
  method IsPrime(x: nat) returns (r: bool)
    ensures x >= 2 ==> (r <==> GoodSize(x))
    ensures x == 0 ==> !r
    ensures x == 1 ==> r
  {
    for i := 0 to |QUICK|
      invariant forall k :: 0 <= k < i ==> !Divides(QUICK[k], x)
    {
      if x % QUICK[i] == 0 {
        QuickDivisor(QUICK[i], x);
        return false;
      }
    }
    assert !Divides(QUICK[0], x);
    if x < 2 {
      return true;
    }
    NoDivisorTo37(x);
    r := OddTrial(x);
  }

  /** The trial divisions of `isprime`, by odd numbers from the last quick one. */
  method OddTrial(x: nat) returns (r: bool)
    requires x >= 2 && x % 2 == 1 && forall d :: 2 <= d <= 37 ==> !Divides(d, x)
    ensures r <==> GoodSize(x)
  {
    hide Divides, GoodSize;
    var stop := HalvedRoot(x);
    ghost var root := stop;
    stop := stop * 2;
    var div: int := 37;
    while div < stop
      invariant div % 2 == 1 && div >= 37
      invariant forall d :: 2 <= d < div ==> !Divides(d, x)
      decreases stop - div
    {
      if x % div == 0 {
        BelowSquare(root, x);
        Composite(div, x);
        return false;
      }
      DividesIs(div, x);
      OneMoreOdd(x, div);
      div := div + 2;
    }
    LeftNoDivisor(x, root, div);
    r := true;
  }

  lemma DividesIs(d: nat, x: nat)
    requires d >= 1
    ensures Divides(d, x) <==> x % d == 0
  {
  }

  lemma Composite(d: nat, x: nat)
    requires 2 <= d < x && x % d == 0
    ensures !GoodSize(x)
  {
    assert Divides(d, x);
  }

  lemma OneMoreOdd(x: nat, div: nat)
    requires x % 2 == 1 && div % 2 == 1 && !Divides(div, x)
    requires forall d :: 2 <= d < div ==> !Divides(d, x)
    ensures forall d :: 2 <= d < div + 2 ==> !Divides(d, x)
  {
    forall d | 2 <= d < div + 2
      ensures !Divides(d, x)
    {
      if Divides(d, x) {
        OddDivisors(d, x);
      }
    }
  }

  lemma QuickDivisor(p: nat, x: nat)
    requires p in QUICK && Divides(p, x)
    ensures !GoodSize(x) && x != 1
  {
  }

  lemma NoDivisorTo37(x: nat)
    requires x >= 1 && forall k :: 0 <= k < |QUICK| ==> !Divides(QUICK[k], x)
    ensures x % 2 == 1
    ensures forall d :: 2 <= d <= 37 ==> !Divides(d, x)
  {
    assert !Divides(QUICK[0], x);
    forall d | 2 <= d <= 37
      ensures !Divides(d, x)
    {
      if Divides(d, x) {
        var p := QuickCovers(d);
        DividesTrans(p, d, x);
      }
    }
  }

  lemma BelowSquare(stop: nat, x: nat)
    requires stop >= 2 && stop * stop <= x
    ensures 2 * stop <= x
  {
  }

  lemma LeftNoDivisor(x: nat, stop: nat, div: nat)
    requires x >= 2 && x % 2 == 1 && x < (2 * stop + 1) * (2 * stop + 1) && div >= 2 * stop
    requires forall d :: 2 <= d < div || 2 <= d <= 37 ==> !Divides(d, x)
    ensures GoodSize(x)
  {
    forall d | 2 <= d && d * d <= x
      ensures !Divides(d, x)
    {
      if d >= 2 * stop + 1 {
        TimesMonotone(2 * stop + 1, d, d);
        TimesMonotone(2 * stop + 1, d, 2 * stop + 1);
      }
      if d == 2 * stop && Divides(d, x) {
        OddDivisors(d, x);
      }
    }
    NoSmallDivisor(x);
    assert Divides(x, x);
  }

  // ---- there is always a prime to find ------------------------------------

  function Factorial(n: nat): (f: nat)
    ensures f >= 1
  {
    if n == 0 then 1 else n * Factorial(n - 1)
  }

  lemma {:induction false} FactorialDivisible(n: nat, d: nat)
    requires 1 <= d <= n
    ensures Divides(d, Factorial(n))
  {
    if d == n {
      DividesBy(d, Factorial(n - 1), Factorial(n));
    } else {
      FactorialDivisible(n - 1, d);
      var q := Factorial(n - 1) / d;
      assert Factorial(n) == d * (n * q);
      DividesBy(d, n * q, Factorial(n));
    }
  }

  /** Every number from 2 up has a prime divisor. */
  lemma {:induction false} PrimeDivisor(x: nat) returns (p: nat)
    requires x >= 2
    ensures Prime(p) && p <= x && Divides(p, x)
    decreases x
  {
    if Prime(x) {
      p := x;
    } else {
      var d :| 2 <= d < x && Divides(d, x);
      p := PrimeDivisor(d);
      DividesTrans(p, d, x);
    }
  }

  /** Euclid: there is a prime above every number. */
  lemma PrimeAbove(n: nat) returns (p: nat)
    ensures Prime(p) && p > n
  {
    var f := Factorial(n);
    p := PrimeDivisor(f + 1);
    if p <= n {
      FactorialDivisible(n, p);
      NextNotDivisible(p, f);
    }
  }

  lemma NextNotDivisible(p: nat, f: nat)
    requires p >= 2 && Divides(p, f)
    ensures !Divides(p, f + 1)
  {
    assert f == p * (f / p);
    DivModUnique(f + 1, p, f / p, 1);
  }

  /** dbzsize: the default for a default inquiry, otherwise the first good size from one
      and a half times the contents up. For a single entry the answer is 1. */
  method DbzSize(contents: int) returns (n: nat)
    ensures contents <= 0 ==> n == 120011
    ensures contents == 1 ==> n == 1
    ensures contents >= 2 ==> GoodSize(n) && n >= 3 * (contents / 2)
    ensures contents >= 2 ==> NoneGood(3 * (contents / 2), n)
  {
    if contents <= 0 {
      return DEFSIZE;
    }
    n := (contents / 2) * 3;
    if n % 2 == 0 {
      NoneGoodEven(n);
      n := n + 1;
    }
    n := NextGood(contents / 2 * 3, n);
  }

  /** The loop of `dbzsize`: it ends, because there is always a prime ahead. */
  method NextGood(start: nat, from: nat) returns (n: nat)
    requires start <= from && from % 2 == 1 && NoneGood(start, from)
    ensures from == 1 ==> n == 1
    ensures from >= 2 ==> GoodSize(n) && n >= start && NoneGood(start, n)
  {
    n := from;
    ghost var p := PrimeAbove(n + 38);
    GoodIsOdd(p);
    hide GoodSize, NoneGood;
    var good := IsPrime(n);
    while !good
      invariant n % 2 == 1 && from <= n <= p && (from == 1 ==> n == 1 && good)
      invariant n >= 2 ==> (good <==> GoodSize(n))
      invariant NoneGood(start, n)
      decreases p - n
    {
      NoneGoodNext(start, n);
      n := n + 2;
      good := IsPrime(n);
    }
  }

  ghost predicate NoneGood(a: nat, b: nat) {
    forall m :: a <= m < b ==> !GoodSize(m)
  }

  lemma NoneGoodNext(start: nat, n: nat)
    requires n % 2 == 1 && NoneGood(start, n) && !GoodSize(n)
    ensures NoneGood(start, n + 2)
  {
    NoneGoodEven(n + 1);
  }

  lemma NoneGoodEven(n: nat)
    requires n % 2 == 0
    ensures !GoodSize(n)
  {
    if GoodSize(n) {
      GoodIsOdd(n);
    }
  }

  lemma GoodIsOdd(p: nat)
    requires GoodSize(p)
    ensures p % 2 == 1
  {
    assert !Divides(2, p);
  }
}
