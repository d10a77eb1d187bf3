/** The C/C++ numeric conversions the source relies on, written out over
    unbounded integers and exact reals: conversion of a floating value to
    `int` (truncation toward zero), `floor`, `fmod`, `fabs`, and the
    modulo-256 conversion of an `int` to `unsigned char`. */
module CNum {
  import opened Common

  /** `M_PI`. */
  const Pi: real := 3.14159265358979323846

  /** Conversion of a floating value to `int`: truncation toward zero. */
  function Trunc(x: real): (n: int)
    ensures 0.0 <= x ==> 0 <= n && n as real <= x < n as real + 1.0
    ensures x < 0.0 ==> n <= 0 && x <= n as real < x + 1.0
  {
    if x >= 0.0 then x.Floor else -((-x).Floor)
  }

  lemma TruncOfInt(n: int)
    ensures Trunc(n as real) == n
  {
  }

  lemma TruncMonotone(a: real, b: real)
    requires a <= b
    ensures Trunc(a) <= Trunc(b)
  {
    if a >= 0.0 {
      assert a.Floor as real <= a <= b < b.Floor as real + 1.0;
    } else if b < 0.0 {
      assert (-b).Floor as real <= -b <= -a < (-a).Floor as real + 1.0;
    }
  }

  lemma MulLe(a: real, b: real, y: real)
    requires y > 0.0 && a <= b
    ensures a * y <= b * y
  {
  }

  lemma MulLt(a: real, b: real, y: real)
    requires y > 0.0 && a < b
    ensures a * y < b * y
  {
  }

  /** The remainder left by a truncated quotient lies in `[0, y)` for a
      non-negative dividend and in `(-y, 0]` for a negative one. */
  lemma TruncRemainder(x: real, y: real)
    requires y > 0.0
    ensures 0.0 <= x ==> 0.0 <= x - Trunc(x / y) as real * y < y
    ensures x < 0.0 ==> -y < x - Trunc(x / y) as real * y <= 0.0
  {
    var q := x / y;
    assert q * y == x;
    if x >= 0.0 {
      assert 0.0 <= q by {
        if q < 0.0 { MulLt(q, 0.0, y); }
      }
      RemainderBelow(x, q, Trunc(q), y);
    } else {
      assert q < 0.0 by {
        if q >= 0.0 { MulLe(0.0, q, y); }
      }
      RemainderBelow(-x, -q, -Trunc(q), y);
    }
  }

  /** If `n` is the integer part of `q = x / y`, then `x - n*y` is in `[0, y)`. */
  lemma RemainderBelow(x: real, q: real, n: int, y: real)
    requires y > 0.0 && q * y == x
    requires n as real <= q < n as real + 1.0
    ensures 0.0 <= x - n as real * y < y
  {
    var d := q - n as real;
    assert x - n as real * y == d * y;
    assert 0.0 <= d * y by { MulLe(0.0, d, y); }
    assert d * y < y by { MulLt(d, 1.0, y); }
  }

  /** A share of a positive whole lies in `[0, 1]` and is 1 only for the whole. */
  lemma DivUnit(v: real, m: real)
    requires 0.0 <= v <= m && 0.0 < m
    ensures 0.0 <= v / m <= 1.0
    ensures v / m == 1.0 <==> v == m
  {
  }

  /** `fmod(x, y)` for a positive divisor: `x` minus `y` times the truncated
      quotient; the result keeps the sign of `x` and is smaller than `y`. */
  function Fmod(x: real, y: real): (r: real)
    requires y > 0.0
    ensures 0.0 <= x ==> 0.0 <= r < y
    ensures x < 0.0 ==> -y < r <= 0.0
  {
    TruncRemainder(x, y);
    x - Trunc(x / y) as real * y
  }

  /** When `x` lies in the k-th period `[k*y, (k+1)*y)`, `fmod` subtracts
      exactly k periods. */
  lemma FmodInPeriod(x: real, y: real, k: nat)
    requires y > 0.0
    requires k as real * y <= x < (k as real + 1.0) * y
    ensures Fmod(x, y) == x - k as real * y
  {
    var q := x / y;
    assert q * y == x;
    assert k as real <= q by {
      if q < k as real { MulLt(q, k as real, y); }
    }
    assert q < k as real + 1.0 by {
      if q >= k as real + 1.0 { MulLe(k as real + 1.0, q, y); }
    }
    assert Trunc(q) == k;
  }

  function Abs(x: real): (r: real)
    ensures 0.0 <= r && (r == x || r == -x)
  {
    if x < 0.0 then -x else x
  }

  /** Conversion of an `int` to `unsigned char`: reduction modulo 256. */
  function ToUChar(n: int): (r: byte)
    ensures 0 <= n < 256 ==> r as int == n
    ensures (n - r as int) % 256 == 0
  {
    (n % 256) as byte
  }
}
