/**
 * The few operations of java.math.BigInteger that the bit helpers in Util
 * use, on Dafny's unbounded integers. BigInteger behaves as an infinite
 * two's-complement bit string: a non-negative number has infinitely many
 * leading 0 bits, a negative one infinitely many leading 1 bits. Dividing by
 * two with Dafny's Euclidean `/` and `%` is exactly an arithmetic right shift
 * and the lowest bit, so the bitwise operations below recurse on `x / 2` and
 * `x % 2` until both operands are all-0 (0) or all-1 (-1).
 */
module BigInteger {

  function Pow2(n: nat): (r: int)
    ensures r >= 1
  {
    if n == 0 then 1 else 2 * Pow2(n - 1)
  }

  /** True of 0 and -1, the two numbers whose bits are all equal. */
  predicate IsSignFill(x: int)
  {
    x == 0 || x == -1
  }

  /** A measure that shrinks as `x` is shifted right, until `x` is 0 or -1. */
  function Size(x: int): nat
  {
    if x >= 0 then x else -x - 1
  }

  lemma HalfIsSmaller(x: int)
    ensures Size(x / 2) <= Size(x)
    ensures !IsSignFill(x) ==> Size(x / 2) < Size(x)
  {
  }

  /** BigInteger.not: the bitwise complement, -x - 1 in two's complement. */
  function Not(x: int): (r: int)
    ensures r < 0 <==> x >= 0
  {
    -x - 1
  }

  /** BigInteger.and, bit by bit from the lowest. */
  function And(a: int, b: int): (r: int)
    ensures r < 0 <==> a < 0 && b < 0
    ensures a >= 0 ==> 0 <= r <= a
    ensures b >= 0 ==> 0 <= r <= b
    decreases Size(a) + Size(b)
  {
    if IsSignFill(a) && IsSignFill(b) then
      (if a == -1 && b == -1 then -1 else 0)
    else
      HalfIsSmaller(a); HalfIsSmaller(b);
      2 * And(a / 2, b / 2) + (if a % 2 == 1 && b % 2 == 1 then 1 else 0)
  }

  /** BigInteger.or, bit by bit from the lowest. */
  function Or(a: int, b: int): (r: int)
    ensures r < 0 <==> a < 0 || b < 0
    ensures a >= 0 && b >= 0 ==> a <= r && b <= r
    decreases Size(a) + Size(b)
  {
    if IsSignFill(a) && IsSignFill(b) then
      (if a == -1 || b == -1 then -1 else 0)
    else
      HalfIsSmaller(a); HalfIsSmaller(b);
      2 * Or(a / 2, b / 2) + (if a % 2 == 1 || b % 2 == 1 then 1 else 0)
  }

  /**
   * BigInteger.shiftLeft: a negative distance shifts right, which is
   * floor division by a power of two.
   */
  function ShiftLeft(x: int, n: int): (r: int)
    ensures n >= 0 ==> r / Pow2(n) == x && r % Pow2(n) == 0
    ensures n < 0 ==> Pow2(-n) * r <= x < Pow2(-n) * (r + 1)
  {
    if n >= 0 then
      DivModUnique(x * Pow2(n), Pow2(n), x, 0);
      x * Pow2(n)
    else
      x / Pow2(-n)
  }

  /** BigInteger.testBit for a bit index that is not negative. */
  function TestBit(x: int, n: nat): (r: bool)
    ensures r <==> x % Pow2(n + 1) >= Pow2(n)
  {
    var p, q := Pow2(n), x / Pow2(n);
    DivModUnique(x, 2 * p, q / 2, p * (q % 2) + x % p);
    q % 2 == 1
  }

  /** Euclidean division is determined by its defining equation. */
  lemma DivModUnique(a: int, d: int, q: int, r: int)
    requires d > 0 && a == d * q + r && 0 <= r < d
    ensures a / d == q && a % d == r
  {
    var q', r' := a / d, a % d;
    var k := q - q';
    assert d * k == r' - r by {
      assert d * q + r == d * q' + r';
      assert d * q - d * q' == d * k;
    }
    if k >= 1 {
      MulAtLeast(d, k);
    } else if k <= -1 {
      MulAtLeast(d, -k);
    }
  }

  lemma MulAtLeast(d: int, k: int)
    requires d > 0 && k >= 1
    ensures d * k >= d
  {
  }

  /** Taking the low n + 1 bits: the lowest bit, then the low n bits of the rest. */
  lemma ModDoublePow(a: int, n: nat)
    ensures a % Pow2(n + 1) == 2 * ((a / 2) % Pow2(n)) + a % 2
  {
    var p := Pow2(n);
    var h, b := a / 2, a % 2;
    var k, r := h / p, h % p;
    assert a == 2 * h + b;
    assert h == p * k + r;
    assert a == (2 * p) * k + (2 * r + b);
    DivModUnique(a, 2 * p, k, 2 * r + b);
  }

  lemma {:induction false} AndZero(a: int)
    ensures And(a, 0) == 0
    decreases Size(a)
  {
    if !IsSignFill(a) {
      HalfIsSmaller(a);
      AndZero(a / 2);
    }
  }

  /** And with a mask of all 1 bits changes nothing. */
  lemma {:induction false} AndAllOnes(a: int)
    ensures And(a, -1) == a
    decreases Size(a)
  {
    if !IsSignFill(a) {
      HalfIsSmaller(a);
      AndAllOnes(a / 2);
    }
  }

  /** Or with 0 changes nothing. */
  lemma {:induction false} OrZero(a: int)
    ensures Or(a, 0) == a
    decreases Size(a)
  {
    if !IsSignFill(a) {
      HalfIsSmaller(a);
      OrZero(a / 2);
    }
  }

  /** Not flips every bit. */
  lemma NotFlipsBits(x: int, n: nat)
    ensures TestBit(Not(x), n) <==> !TestBit(x, n)
  {
    var p := Pow2(n);
    var q := x / p;
    DivModUnique(Not(x), p, -q - 1, p - 1 - x % p);
    DivModUnique(-q - 1, 2, -(q / 2) - 1, 1 - q % 2);
  }

  /** And with 2^n - 1 (n low 1 bits) keeps the residue modulo 2^n. */
  lemma {:induction false} AndLowOnes(a: int, n: nat)
    ensures And(a, Pow2(n) - 1) == a % Pow2(n)
    decreases n
  {
    if n == 0 {
      AndZero(a);
    } else {
      var m := Pow2(n) - 1;
      assert m / 2 == Pow2(n - 1) - 1 && m % 2 == 1;
      assert And(a, m) == 2 * And(a / 2, m / 2) + a % 2;
      AndLowOnes(a / 2, n - 1);
      ModDoublePow(a, n - 1);
    }
  }

  /**
   * Or with -2^n (every bit from n upwards set) of a number below 2^n
   * subtracts 2^n: it sign-extends bit n - 1 upwards.
   */
  lemma {:induction false} OrHighOnes(r: int, n: nat)
    requires 0 <= r < Pow2(n)
    ensures Or(r, -Pow2(n)) == r - Pow2(n)
  {
    if n > 0 {
      var p := Pow2(n - 1);
      assert -Pow2(n) == 2 * (-p);
      DivModUnique(-Pow2(n), 2, -p, 0);
      OrHighOnes(r / 2, n - 1);
    }
  }

  /** Bit n of a number in [0, 2^(n+1)) is set exactly when it is at least 2^n. */
  lemma TestBitTop(r: int, n: nat)
    requires 0 <= r < Pow2(n + 1)
    ensures TestBit(r, n) <==> r >= Pow2(n)
  {
    var p := Pow2(n);
    if r >= p {
      DivModUnique(r, p, 1, r - p);
    } else {
      DivModUnique(r, p, 0, r);
    }
  }

  /** 1 shifted by a negative distance is 0. */
  lemma ShiftOneRight(n: int)
    requires n < 0
    ensures ShiftLeft(1, n) == 0
  {
    assert Pow2(-n) == 2 * Pow2(-n - 1);
    DivModUnique(1, Pow2(-n), 0, 1);
  }
}
