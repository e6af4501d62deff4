/** 17.14 fixed-point arithmetic on 32-bit integers, as used by the
    multi-level feedback scheduler (threads/fixed_point.h). Values are
    int32; C's truncating `/` and the wrap-around of the int64 -> int32
    casts are written out, and signed int32 overflow, which C leaves
    undefined, is excluded by preconditions. */
module FixedPoint {

  const INT32_MIN: int := -0x8000_0000
  const INT32_MAX: int := 0x7FFF_FFFF

  type int32 = x: int | INT32_MIN <= x <= INT32_MAX

  predicate IsInt32(x: int) { INT32_MIN <= x <= INT32_MAX }

  function Pow2(n: nat): (r: nat)
    ensures r >= 1
  {
    if n == 0 then 1 else 2 * Pow2(n - 1)
  }

  /** FP32_SIZE, FP32_P and FP32_Q: 1 sign bit, 17 integer bits, 14 fraction bits. */
  const SIZE: nat := 32
  const P: nat := 17
  const Q: nat := SIZE - P - 1
  /** FP32_F = 1 << FP32_Q */
  const F: int := 16384

  lemma FIs2To14()
    ensures Q == 14 && F == Pow2(Q)
  {
    assert Pow2(0) == 1;
    assert Pow2(4) == 16;
    assert Pow2(8) == 256;
    assert Pow2(12) == 4096;
    assert Pow2(14) == 16384;
  }

  /** C99 integer division: the quotient is truncated toward zero. */
  function CDiv(a: int, b: int): int
    requires b != 0
  {
    if a >= 0 then
      (if b > 0 then a / b else -(a / -b))
    else
      (if b > 0 then -((-a) / b) else (-a) / (-b))
  }

  /** What C99 6.5.5 promises of `/`: a == q * b + r with |r| < |b| and
      r zero or of the sign of a. */
  lemma CDivTruncates(a: int, b: int)
    requires b != 0
    ensures RemainderOk(a, b, CDiv(a, b))
  {
    var n: nat := if a >= 0 then a else -a;
    var d: nat := if b > 0 then b else -b;
    var q0, r0 := n / d, n % d;
    NatDivMod(n, d);
    var q := CDiv(a, b);
    assert q == if (a >= 0) == (b > 0) then q0 else -q0;
    SignedProduct(q, b, q0, d);
    assert a - q * b == if a >= 0 then r0 else -r0;
  }

  /** The product of two numbers equal to q0 and d up to sign is q0 * d
      up to the product of the signs. */
  lemma SignedProduct(q: int, b: int, q0: int, d: int)
    requires (q == q0 || q == -q0) && (b == d || b == -d)
    ensures q * b == if (q == q0) == (b == d) then q0 * d else -(q0 * d)
  {
  }

  /** Euclidean division of naturals. */
  lemma NatDivMod(n: nat, d: nat)
    requires d > 0
    ensures n == (n / d) * d + n % d && 0 <= n % d < d
  {
  }

  /** The quotient is unique: any q whose remainder is as C requires is CDiv. */
  lemma CDivUnique(a: int, b: int, q: int)
    requires b != 0
    requires RemainderOk(a, b, q)
    ensures CDiv(a, b) == q
  {
    CDivTruncates(a, b);
    QuotientUnique(a, b, q, CDiv(a, b));
  }

  lemma QuotientUnique(a: int, b: int, q1: int, q2: int)
    requires b != 0
    requires RemainderOk(a, b, q1) && RemainderOk(a, b, q2)
    ensures q1 == q2
  {
    var r1, r2 := a - q1 * b, a - q2 * b;
    var d := q1 - q2;
    assert d * b == r2 - r1;
    MulAbsAtLeast(d, b);
  }

  /** q is a C quotient of a by b: the remainder is smaller than |b| and
      zero or of the sign of a. */
  predicate RemainderOk(a: int, b: int, q: int)
  {
    var r := a - q * b;
    (if b > 0 then -b < r < b else b < r < -b) && (r == 0 || (r > 0 <==> a > 0))
  }

  lemma MulAbsAtLeast(d: int, b: int)
    requires b != 0
    ensures d != 0 ==> (if d * b > 0 then d * b else -(d * b)) >= (if b > 0 then b else -b)
  {
    if d >= 1 && b > 0 {
      assert d * b == (d - 1) * b + b;
    } else if d >= 1 {
      assert d * b == (d - 1) * b + b;
    } else if d <= -1 && b > 0 {
      assert d * b == (d + 1) * b - b;
    } else if d <= -1 {
      assert d * b == (d + 1) * b - b;
    }
  }

  lemma MulStrictMono(x: int, y: int, k: int)
    requires x < y && k > 0
    ensures x * k < y * k
  {
    assert y * k - x * k == (y - x) * k;
  }

  /** Scaling dividend and divisor by the same positive k keeps the quotient. */
  lemma ScaleRemainder(a: int, b: int, q: int, k: int)
    requires b != 0 && k > 0
    requires RemainderOk(a, b, q)
    ensures RemainderOk(a * k, b * k, q)
  {
    var r := a - q * b;
    assert a * k - q * (b * k) == r * k;
    if b > 0 {
      MulStrictMono(-b, r, k);
      MulStrictMono(r, b, k);
      MulStrictMono(0, b, k);
    } else {
      MulStrictMono(b, r, k);
      MulStrictMono(r, -b, k);
      MulStrictMono(b, 0, k);
    }
    if r > 0 { MulStrictMono(0, r, k); }
    if r < 0 { MulStrictMono(r, 0, k); }
    if a > 0 { MulStrictMono(0, a, k); }
    if a < 0 { MulStrictMono(a, 0, k); }
  }

  /** The (fp32_t) cast of an int64 value: wrap modulo 2^32 into int32. */
  function Wrap32(x: int): (r: int32)
    ensures IsInt32(x) ==> r == x
    ensures (r - x) % 0x1_0000_0000 == 0
  {
    var m := x % 0x1_0000_0000;
    if m <= INT32_MAX then m else m - 0x1_0000_0000
  }

  /** int_to_fp32: n * F; the product must not overflow int32. The result
      has no fraction bits and n as its integer part. */
  function IntToFp32(n: int32): (r: int32)
    requires IsInt32(n * F)
    ensures r % F == 0 && r / F == n
  {
    n * F
  }

  /** fp32_to_int_0: x / F in C, rounding toward zero. */
  function Fp32ToInt0(x: int32): (r: int32)
    ensures x >= 0 ==> r * F <= x < (r + 1) * F
    ensures x < 0 ==> (r - 1) * F < x <= r * F
  {
    FIs2To14();
    CDivTruncates(x, F);
    CDiv(x, F)
  }

  /** fp32_to_int: round to nearest, halves away from zero. The +/- F/2
      must not overflow int32. */
  function Fp32ToInt(x: int32): (r: int32)
    requires x > 0 ==> IsInt32(x + F / 2)
    requires x <= 0 ==> IsInt32(x - F / 2)
    ensures -(F / 2) <= x - r * F <= F / 2
    ensures x - r * F == F / 2 ==> x <= 0
    ensures x - r * F == -(F / 2) ==> x > 0
  {
    FIs2To14();
    if x > 0 then Fp32ToInt0(x + F / 2) else Fp32ToInt0(x - F / 2)
  }

  function Abs(x: int): nat { if x < 0 then -x else x }

  /** The magnitude of a C quotient is the quotient of the magnitudes. */
  lemma CDivAbs(a: int, b: int)
    requires b != 0
    ensures Abs(CDiv(a, b)) == Abs(a) / Abs(b)
  {
    if a >= 0 && b > 0 {
      CDivAbsCase(a, b, a, b);
    } else if a >= 0 {
      CDivAbsCase(a, b, a, -b);
    } else if b > 0 {
      CDivAbsCase(a, b, -a, b);
    } else {
      CDivAbsCase(a, b, -a, -b);
    }
  }

  lemma CDivAbsCase(a: int, b: int, na: nat, nb: nat)
    requires b != 0 && na == Abs(a) && nb == Abs(b)
    requires CDiv(a, b) == na / nb || CDiv(a, b) == -(na / nb)
    ensures Abs(CDiv(a, b)) == Abs(a) / Abs(b)
  {
    assert na / nb >= 0;
  }

  lemma MulMono(x: int, y: int, k: int)
    requires k >= 0
    ensures x <= y ==> x * k <= y * k
  {
    assert y * k - x * k == (y - x) * k;
  }

  lemma QuotientBelow(n: nat, d: nat, m: nat)
    requires d > 0 && n < m * d
    ensures n / d < m
  {
    assert (n / d) * d <= n;
    MulMono(m, n / d, d);
  }

  /** When the exact quotient a / b fits in 31 bits of magnitude, the
      truncated quotient fits in int32, so the (fp32_t) cast does not wrap. */
  lemma QuotientFits(a: int, b: int)
    requires b != 0 && Abs(a) < 0x8000_0000 * Abs(b)
    ensures IsInt32(CDiv(a, b))
  {
    CDivAbs(a, b);
    QuotientBelow(Abs(a), Abs(b), 0x8000_0000);
  }

  /** fp32_mul: the product is formed in int64, divided (truncating) by F
      and cast back to int32. */
  function Fp32Mul(x: int32, y: int32): (r: int32)
    ensures IsInt32(CDiv(x * y, F)) ==> r == CDiv(x * y, F)
    ensures (r - CDiv(x * y, F)) % 0x1_0000_0000 == 0
  {
    FIs2To14();
    Wrap32(CDiv(x * y, F))
  }

  /** fp32_mul_int: x * n; the product must not overflow int32. It is
      fp32_mul by n converted to fixed point. */
  function Fp32MulInt(x: int32, n: int32): (r: int32)
    requires IsInt32(x * n)
    ensures IsInt32(n * F) ==> r == Fp32Mul(x, IntToFp32(n))
  {
    FIs2To14();
    assert x * (n * F) == (x * n) * F;
    MulDivCancel(x * n, F);
    x * n
  }

  /** fp32_div: x * F formed in int64, divided (truncating) by y. */
  function Fp32Div(x: int32, y: int32): (r: int32)
    requires y != 0
    ensures IsInt32(CDiv(x * F, y)) ==> r == CDiv(x * F, y)
    ensures (r - CDiv(x * F, y)) % 0x1_0000_0000 == 0
  {
    Wrap32(CDiv(x * F, y))
  }

  /** fp32_div_int: x / n in C; n == 0 and INT32_MIN / -1 are undefined. */
  function Fp32DivInt(x: int32, n: int32): (r: int32)
    requires n != 0 && !(x == INT32_MIN && n == -1)
    ensures RemainderOk(x, n, r)
  {
    CDivTruncates(x, n);
    CDiv(x, n)
  }

  // ---------------------------------------------------------------------
  // Properties

  lemma MulDivCancel(n: int, d: int)
    requires d > 0
    ensures CDiv(n * d, d) == n
  {
    CDivUnique(n * d, d, n);
  }

  /** Converting an int to fixed point and back (truncating) is the identity. */
  lemma IntRoundTrip(n: int32)
    requires IsInt32(n * F)
    ensures Fp32ToInt0(IntToFp32(n)) == n
  {
    FIs2To14();
    MulDivCancel(n, F);
  }

  /** Rounding to nearest also gives back the integer that was converted. */
  lemma IntRoundTripNearest(n: int32)
    requires IsInt32(n * F + F / 2) && IsInt32(n * F - F / 2)
    ensures Fp32ToInt(IntToFp32(n)) == n
  {
    FIs2To14();
    var x := n * F;
    var r := Fp32ToInt(x);
    assert -(F / 2) <= (n - r) * F <= F / 2;
    assert n - r >= 1 ==> (n - r) * F >= F;
    assert n - r <= -1 ==> (n - r) * F <= -F;
  }

  /** When the exact product fits, fp32_mul is the product truncated toward zero. */
  lemma MulTruncates(x: int32, y: int32)
    requires Abs(x * y) < 0x8000_0000 * F
    ensures RemainderOk(x * y, F, Fp32Mul(x, y))
  {
    QuotientFits(x * y, F);
    CDivTruncates(x * y, F);
  }

  /** When the exact quotient fits, fp32_div is the quotient truncated toward zero. */
  lemma DivTruncates(x: int32, y: int32)
    requires y != 0 && Abs(x * F) < 0x8000_0000 * Abs(y)
    ensures RemainderOk(x * F, y, Fp32Div(x, y))
  {
    QuotientFits(x * F, y);
    CDivTruncates(x * F, y);
  }

  /** Multiplying by one (F in fixed point) is the identity. */
  lemma MulByOne(x: int32)
    ensures Fp32Mul(x, F) == x
  {
    FIs2To14();
    MulDivCancel(x, F);
  }

  /** Dividing by one (F in fixed point) is the identity. */
  lemma DivByOne(x: int32)
    ensures Fp32Div(x, F) == x
  {
    FIs2To14();
    MulDivCancel(x, F);
  }

  /** Multiplying by an int equals multiplying by its fixed-point form. */
  lemma MulIntAgreesWithMul(x: int32, n: int32)
    requires IsInt32(n * F) && IsInt32(x * n)
    ensures Fp32MulInt(x, n) == Fp32Mul(x, IntToFp32(n))
  {
    FIs2To14();
    assert x * (n * F) == (x * n) * F;
    MulDivCancel(x * n, F);
  }

  /** Dividing by an int equals dividing by its fixed-point form. */
  lemma DivIntAgreesWithDiv(x: int32, n: int32)
    requires n != 0 && !(x == INT32_MIN && n == -1) && IsInt32(n * F)
    ensures Fp32DivInt(x, n) == Fp32Div(x, IntToFp32(n))
  {
    var q := Fp32DivInt(x, n);
    ScaleRemainder(x, n, q, F);
    CDivUnique(x * F, n * F, q);
  }
}
