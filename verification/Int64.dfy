/** Wrapping 64-bit signed arithmetic as the shell's `$(( ))` uses it. */
module Int64 {
  const TWO63: int := 0x8000_0000_0000_0000
  const TWO64: int := 0x1_0000_0000_0000_0000

  type I64 = x: int | -0x8000_0000_0000_0000 <= x < 0x8000_0000_0000_0000

  function Wrap(x: int): (r: I64)
    ensures -TWO63 <= x < TWO63 ==> r == x
  {
    (x + TWO63) % TWO64 - TWO63
  }

  /** Congruent numbers wrap to the same value. */
  lemma WrapIgnoresMultiples(x: int, k: int)
    ensures Wrap(x + k * TWO64) == Wrap(x)
  {
  }

  lemma WrapIsCongruent(x: int) returns (k: int)
    ensures Wrap(x) == x + k * TWO64
  {
    k := -((x + TWO63) / TWO64);
  }

  lemma WrapMul(x: int, y: int)
    ensures Wrap(Wrap(x) * y) == Wrap(x * y)
  {
    var k := WrapIsCongruent(x);
    assert (x + k * TWO64) * y == x * y + (k * y) * TWO64;
    WrapIgnoresMultiples(x * y, k * y);
  }

  function Power(b: int, e: nat): int {
    if e == 0 then 1 else b * Power(b, e - 1)
  }

  function Pow2(k: nat): (r: int)
    ensures r > 0
  {
    if k == 0 then 1 else 2 * Pow2(k - 1)
  }

  // ----- exponentiation -----

  lemma {:induction false} PowerOfSquare(b: int, k: nat)
    ensures Power(b, 2 * k) == Power(b * b, k)
    decreases k
  {
    if k > 0 {
      PowerOfSquare(b, k - 1);
      assert Power(b, 2 * k) == b * (b * Power(b, 2 * k - 2));
    }
  }

  lemma Swap(x: int, y: int, z: int)
    ensures (x * y) * z == y * (x * z) && x * (y * z) == (x * y) * z
  {
  }

  /** Wrapping the base changes nothing once the result is wrapped. */
  lemma {:induction false} WrapPower(b: int, e: nat, f: int)
    ensures Wrap(f * Power(Wrap(b), e)) == Wrap(f * Power(b, e))
    decreases e
  {
    if e > 0 {
      var w, q := Wrap(b), Power(b, e - 1);
      WrapPower(b, e - 1, f * w);
      Swap(f, w, Power(w, e - 1));
      Swap(f, w, q);
      WrapMul(b, f * q);
      Swap(f, b, q);
    }
  }

  lemma OddPower(r: int, b: int, half: nat)
    ensures r * Power(b, 2 * half + 1) == (r * b) * Power(b * b, half)
  {
    PowerOfSquare(b, half);
    Swap(r, b, Power(b * b, half));
  }

  lemma OddStep(r: int, b: int, half: nat)
    ensures Wrap(Wrap(r * b) * Power(Wrap(b * b), half)) == Wrap(r * Power(b, 2 * half + 1))
  {
    WrapMul(r * b, Power(Wrap(b * b), half));
    WrapPower(b * b, half, r * b);
    OddPower(r, b, half);
  }

  lemma EvenStep(r: int, b: int, half: nat)
    ensures Wrap(r * Power(Wrap(b * b), half)) == Wrap(r * Power(b, 2 * half))
  {
    WrapPower(b * b, half, r);
    PowerOfSquare(b, half);
  }

  function PowSpec(base: I64, exp: I64): (r: I64) {
    if exp < 0 then 0 else Wrap(Power(base, exp))
  }

  /** Binary exponentiation gives the wrapped mathematical power. */
  method WrappingPow(base: I64, exponent: I64) returns (result: I64)
    ensures result == PowSpec(base, exponent)
  {
    if exponent < 0 { return 0; }
    var exp: nat := exponent;
    result := 1;
    var b: I64 := base;
    while exp > 0
      invariant Wrap(result * Power(b, exp)) == Wrap(Power(base, exponent))
    {
      if exp % 2 == 0 { EvenStep(result, b, exp / 2); }
      if exp % 2 == 1 {
        OddStep(result, b, exp / 2);
        result := Wrap(result * b);
      }
      b := Wrap(b * b);
      exp := exp / 2;
    }
    assert result * Power(b, 0) == result;
  }

  // ----- division, shifts -----

  function Abs(x: int): nat { if x < 0 then -x else x }

  /** Division rounding toward zero. */
  function TruncDiv(a: int, b: int): (q: int)
    requires b != 0
  {
    if (a < 0) == (b < 0) then Abs(a) / Abs(b) else -(Abs(a) / Abs(b))
  }

  function TruncRem(a: int, b: int): (r: int)
    requires b != 0
  {
    a - b * TruncDiv(a, b)
  }

  /** The remainder takes the dividend's sign and is smaller than the divisor. */
  lemma TruncRemRange(a: int, b: int)
    requires b != 0
    ensures Abs(TruncRem(a, b)) < Abs(b)
    ensures TruncRem(a, b) == 0 || (TruncRem(a, b) < 0) == (a < 0)
  {
    var q, m := Abs(a) / Abs(b), Abs(a) % Abs(b);
    assert Abs(a) == Abs(b) * q + m;
    assert b * TruncDiv(a, b) == if a < 0 then -(Abs(b) * q) else Abs(b) * q;
  }

  function ShiftLeft(a: I64, n: I64): (r: I64) {
    Wrap(a * Pow2(n % 64))
  }

  /** Arithmetic shift: division by a power of two, rounding down. */
  function ShiftRight(a: I64, n: I64): (r: I64) {
    var p := Pow2(n % 64);
    QuotientShrinks(a, p);
    a / p
  }

  lemma QuotientShrinks(a: int, p: int)
    requires p > 0
    ensures a >= 0 ==> 0 <= a / p <= a
    ensures a < 0 ==> a <= a / p < 0
  {
    Floor(a, p);
    FloorRange(a, p, a / p);
  }

  lemma FloorRange(a: int, p: int, q: int)
    requires p > 0 && q * p <= a < q * p + p
    ensures a >= 0 ==> 0 <= q <= a
    ensures a < 0 ==> a <= q < 0
  {
    if q < 0 {
      MulOrder(q, -1, p);
      MulOrder(q + 1, 0, p - 1);
      assert q * p + p == (q + 1) * p == (q + 1) * (p - 1) + q + 1;
    } else {
      MulOrder(0, q, p);
      MulOrder(1, p, q);
    }
  }

  lemma Floor(a: int, p: int)
    requires p > 0
    ensures (a / p) * p <= a < (a / p) * p + p
  {
  }

  lemma MulOrder(x: int, y: int, z: int)
    requires x <= y && z >= 0
    ensures x * z <= y * z
  {
  }

  // ----- bitwise operators, on two's complement -----

  datatype BitOp = And | Or | Xor

  predicate OnBits(op: BitOp, x: bool, y: bool) {
    match op
    case And => x && y
    case Or => x || y
    case Xor => x != y
  }

  /** `op` on the `width` low bits and the sign of `a` and `b`. */
  function Bitwise(op: BitOp, a: int, b: int, width: nat): (r: int)
    ensures -Pow2(width) <= r < Pow2(width)
    decreases width
  {
    if width == 0 then if OnBits(op, a < 0, b < 0) then -1 else 0
    else 2 * Bitwise(op, a / 2, b / 2, width - 1) + if OnBits(op, a % 2 == 1, b % 2 == 1) then 1 else 0
  }

  predicate Bit(a: int, i: nat)
    decreases i
  {
    if i == 0 then a % 2 == 1 else Bit(a / 2, i - 1)
  }

  lemma {:induction false} BitwiseActsOnEachBit(op: BitOp, a: int, b: int, width: nat, i: nat)
    requires i < width
    ensures Bit(Bitwise(op, a, b, width), i) <==> OnBits(op, Bit(a, i), Bit(b, i))
    decreases i
  {
    var r := Bitwise(op, a, b, width);
    if i > 0 {
      assert r / 2 == Bitwise(op, a / 2, b / 2, width - 1);
      BitwiseActsOnEachBit(op, a / 2, b / 2, width - 1, i - 1);
    }
  }

  lemma {:induction false} Pow2Of63()
    ensures Pow2(63) == TWO63
  {
    assert Pow2(7) == 0x80;
    Pow2Sum(7, 7);
    Pow2Sum(14, 7);
    Pow2Sum(21, 21);
    Pow2Sum(42, 21);
  }

  lemma {:induction false} Pow2Sum(m: nat, n: nat)
    ensures Pow2(m + n) == Pow2(m) * Pow2(n)
    decreases m
  {
    if m > 0 { Pow2Sum(m - 1, n); }
  }

  function BitwiseI64(op: BitOp, a: I64, b: I64): (r: I64) {
    Pow2Of63();
    Bitwise(op, a, b, 63)
  }
}
