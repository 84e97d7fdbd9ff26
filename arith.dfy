/**
 * Integer helpers shared by the solvers: absolute value, powers,
 * factorials, decimal digit counts and the truncating division and
 * remainder of Rust's `/` and `%` on signed integers (Dafny's own `/`
 * and `%` are Euclidean).
 */
module Arith {

  function Abs(x: int): nat
  {
    if x < 0 then -x else x
  }

  /** Sign of an integer, as Rust's `signum`. */
  function Signum(x: int): (r: int)
    ensures r in {-1, 0, 1}
    ensures (r == 0) == (x == 0) && (r < 0) == (x < 0)
  {
    if x < 0 then -1 else if x == 0 then 0 else 1
  }

  function Pow(b: int, e: nat): int
  {
    if e == 0 then 1 else b * Pow(b, e - 1)
  }

  lemma {:induction false} PowPositive(b: int, e: nat)
    requires b > 0
    ensures Pow(b, e) > 0
  {
    if e > 0 {
      PowPositive(b, e - 1);
      MulPositive(b, Pow(b, e - 1));
    }
  }

  lemma {:induction false} PowNonNegative(b: nat, e: nat)
    ensures Pow(b, e) >= 0
  {
    if e > 0 {
      PowNonNegative(b, e - 1);
      MulMonotone(b + 1, 0, Pow(b, e - 1));
      assert b * Pow(b, e - 1) >= 0;
    }
  }

  lemma {:induction false} PowAdd(b: int, e1: nat, e2: nat)
    ensures Pow(b, e1 + e2) == Pow(b, e1) * Pow(b, e2)
  {
    if e1 > 0 {
      PowAdd(b, e1 - 1, e2);
      assert Pow(b, e1 + e2) == b * Pow(b, e1 - 1 + e2);
      MulAssoc(b, Pow(b, e1 - 1), Pow(b, e2));
    }
  }

  lemma {:induction false} PowMonotone(b: int, e1: nat, e2: nat)
    requires b >= 1 && e1 <= e2
    ensures Pow(b, e1) <= Pow(b, e2)
    decreases e2
  {
    if e1 < e2 {
      PowMonotone(b, e1, e2 - 1);
      PowPositive(b, e2 - 1);
      MulMonotone(Pow(b, e2 - 1), 1, b);
    }
  }

  function Fact(n: nat): (r: nat)
    ensures r >= 1
  {
    if n == 0 then 1 else MulPositive(n, Fact(n - 1)); n * Fact(n - 1)
  }

  lemma MulPositive(a: int, b: int)
    requires a > 0 && b > 0
    ensures a * b > 0
  {
  }

  lemma MulNonNegative(a: int, b: int)
    requires a >= 0 && b >= 0
    ensures a * b >= 0
  {
  }

  lemma MulAssoc(a: int, b: int, c: int)
    ensures a * (b * c) == (a * b) * c
  {
  }

  /** `q` and `r` are the Euclidean quotient and remainder of `x` by `d`. */
  lemma DivUnique(x: int, d: int, q: int, r: int)
    requires d > 0 && x == d * q + r && 0 <= r < d
    ensures x / d == q && x % d == r
  {
    var q0, r0 := x / d, x % d;
    assert x == d * q0 + r0;
    if q0 > q {
      assert d * (q0 - q) == r - r0;
      MulMonotone(d, 1, q0 - q);
    } else if q0 < q {
      assert d * (q - q0) == r0 - r;
      MulMonotone(d, 1, q - q0);
    }
  }

  lemma ExactDiv(x: int, e: int)
    requires e > 0 && x % e == 0
    ensures x == e * (x / e)
  {
  }

  lemma MultipleSum(e: int, kx: int, ky: int, q: int)
    requires e > 0
    ensures (e * kx + (e * ky) * q) % e == 0
  {
    MulAssoc(e, ky, q);
    Distrib(e, kx, ky * q);
    DivUnique(e * kx + (e * ky) * q, e, kx + ky * q, 0);
  }

  lemma Distrib(a: int, b: int, c: int)
    ensures a * (b + c) == a * b + a * c
  {
  }

  lemma NegMul(a: int, b: int)
    ensures -(a * b) == a * -b == -a * b
  {
  }

  lemma MulMonotone(d: int, a: int, b: int)
    requires d > 0 && a <= b
    ensures d * a <= d * b
  {
  }

  /** Dividing twice is dividing by the product. */
  lemma DivDiv(x: nat, a: nat, b: nat)
    requires a > 0 && b > 0
    ensures x / (a * b) == (x / a) / b
  {
    var q, r := x / a, x % a;
    var q2, r2 := q / b, q % b;
    assert x == a * (b * q2 + r2) + r;
    MulAssoc(a, b, q2);
    assert x == (a * b) * q2 + (a * r2 + r);
    MulMonotone(a, r2, b - 1);
    MulPositive(a, b);
    DivUnique(x, a * b, q2, a * r2 + r);
  }

  /** Rust's `/` on signed integers: truncates toward zero. */
  function DivT(x: int, d: int): (q: int)
    requires d != 0
  {
    var q0 := Abs(x) / Abs(d);
    if (x < 0) == (d < 0) then q0 else -q0
  }

  /** Rust's `%` on signed integers: the remainder takes the sign of `x`. */
  function RemT(x: int, d: int): (r: int)
    requires d != 0
    ensures x == d * DivT(x, d) + r
    ensures Abs(r) < Abs(d)
    ensures r != 0 ==> ((r < 0) == (x < 0))
  {
    var q0 := Abs(x) / Abs(d);
    var r0 := Abs(x) % Abs(d);
    assert Abs(x) == Abs(d) * q0 + r0;
    assert DivT(x, d) == if (x < 0) == (d < 0) then q0 else -q0;
    if x < 0 then -r0 else r0
  }

  /** `d` divides `x`, with 0 dividing only 0. */
  predicate Divides(d: int, x: int)
  {
    if d == 0 then x == 0 else x % Abs(d) == 0
  }

  /** Number of decimal digits of a positive number; it stands in for `floor(log10 n) + 1`. */
  function DigitCount(n: nat): (r: nat)
    ensures n > 0 ==> r >= 1 && Pow(10, r - 1) <= n < Pow(10, r)
  {
    if n < 10 then (if n == 0 then 0 else 1) else 1 + DigitCount(n / 10)
  }

  lemma DividesLinear(d: int, x: int, y: int, q: int)
    requires Divides(d, x) && Divides(d, y)
    ensures Divides(d, x + y * q)
  {
    if d != 0 {
      var e := Abs(d);
      ExactDiv(x, e);
      ExactDiv(y, e);
      MultipleSum(e, x / e, y / e, q);
    }
  }

  /** One step of Euclid's algorithm keeps the common divisors. */
  lemma EuclidStep(a: int, b: int, d: int)
    requires b != 0
    ensures Divides(d, a) && Divides(d, b) <==> Divides(d, b) && Divides(d, RemT(a, b))
  {
    var q := DivT(a, b);
    assert RemT(a, b) == a + b * -q;
    assert a == RemT(a, b) + b * q;
    if Divides(d, a) && Divides(d, b) {
      DividesLinear(d, a, b, -q);
    }
    if Divides(d, b) && Divides(d, RemT(a, b)) {
      DividesLinear(d, RemT(a, b), b, q);
    }
  }

  /** Truncating division by an exact divisor undoes the multiplication. */
  lemma DivTExact(x: int, g: int)
    requires g != 0 && Divides(g, x)
    ensures x == g * DivT(x, g)
  {
    var e := Abs(g);
    var k := x / e;
    ExactDiv(x, e);
    var q0 := Abs(x) / e;
    if x < 0 {
      NegMul(e, k);
      DivUnique(-x, e, -k, 0);
      assert q0 == -k;
    } else {
      assert q0 == k;
    }
    assert DivT(x, g) == if (x < 0) == (g < 0) then q0 else -q0;
    assert Abs(x) == e * q0;
    if g < 0 {
      NegMul(g, q0);
    }
  }
  /** Bitwise exclusive or of two naturals, bit by bit from the lowest. */
  function Xor(x: nat, y: nat): nat
    decreases x + y
  {
    if x == 0 then y
    else if y == 0 then x
    else 2 * Xor(x / 2, y / 2) + (if x % 2 == y % 2 then 0 else 1)
  }

  /** Bit `i` of a number. */
  function Bit(x: nat, i: nat): nat
  {
    PowPositive(2, i);
    (x / Pow(2, i)) % 2
  }

  /** Each bit of `Xor(x, y)` is set exactly when the bits of `x` and `y` differ. */
  lemma {:induction false} XorBit(x: nat, y: nat, i: nat)
    ensures Bit(Xor(x, y), i) == if Bit(x, i) == Bit(y, i) then 0 else 1
    decreases i
  {
    if i > 0 {
      XorHalf(x, y);
      XorBit(x / 2, y / 2, i - 1);
      BitHalf(x, i);
      BitHalf(y, i);
      BitHalf(Xor(x, y), i);
    }
  }

  /** Bit `i` of `x` is bit `i` - 1 of `x / 2`. */
  lemma BitHalf(x: nat, i: nat)
    requires i > 0
    ensures Bit(x, i) == Bit(x / 2, i - 1)
  {
    PowPositive(2, i - 1);
    DivDiv(x, 2, Pow(2, i - 1));
  }

  /** Halving commutes with exclusive or. */
  lemma XorHalf(x: nat, y: nat)
    ensures Xor(x, y) / 2 == Xor(x / 2, y / 2)
  {
    if x != 0 && y == 0 && x / 2 != 0 {
      assert Xor(x / 2, 0) == x / 2;
    }
  }

  /** Bitwise or of two naturals. */
  function Or(x: nat, y: nat): nat
    decreases x + y
  {
    if x == 0 then y
    else if y == 0 then x
    else 2 * Or(x / 2, y / 2) + (if x % 2 == 1 || y % 2 == 1 then 1 else 0)
  }

  /** Each bit of `Or(x, y)` is set exactly when a bit of `x` or of `y` is. */
  lemma {:induction false} OrBit(x: nat, y: nat, i: nat)
    ensures Bit(Or(x, y), i) == if Bit(x, i) == 1 || Bit(y, i) == 1 then 1 else 0
    decreases i
  {
    if i > 0 {
      OrHalf(x, y);
      OrBit(x / 2, y / 2, i - 1);
      BitHalf(x, i);
      BitHalf(y, i);
      BitHalf(Or(x, y), i);
    }
  }

  /** Halving commutes with bitwise or. */
  lemma OrHalf(x: nat, y: nat)
    ensures Or(x, y) / 2 == Or(x / 2, y / 2)
  {
    if x != 0 && y == 0 && x / 2 != 0 {
      assert Or(x / 2, 0) == x / 2;
    }
  }
}
