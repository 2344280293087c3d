/**
 * Integer arithmetic shared by the two MathHelper files: C#'s truncating `%` and `/`,
 * divisibility, and a reference Euclid on natural numbers that the helpers are proved against.
 */
module Euclid {

  function Abs(x: int): nat { if x < 0 then -x else x }

  lemma {:induction false} MulNonnegative(a: int, b: int)
    requires a >= 0 && b >= 0
    ensures a * b >= 0
  {
  }

  lemma {:induction false} MulMonotone(a: int, b: int, d: int)
    requires a <= b && d >= 0
    ensures a * d <= b * d
  {
    MulNonnegative(b - a, d);
    assert (b - a) * d == b * d - a * d;
  }

  /** Division with remainder is unique (Dafny's `/` and `%` on a positive divisor). */
  lemma {:induction false} DivModUnique(x: int, d: int, q: int, r: int)
    requires d > 0 && x == q * d + r && 0 <= r < d
    ensures x / d == q && x % d == r
  {
    var q', r' := x / d, x % d;
    assert x == q' * d + r';
    if q > q' {
      MulMonotone(q' + 1, q, d);
      assert false;
    } else if q < q' {
      MulMonotone(q + 1, q', d);
      assert false;
    }
  }

  /** C#'s `%` on integers: the quotient is truncated toward zero, so a non-zero remainder has the sign of the dividend. */
  function TruncRem(x: int, y: int): (r: int)
    requires y != 0
    ensures Abs(r) == Abs(x) % Abs(y)
    ensures r == 0 || (r < 0 <==> x < 0)
  {
    if x >= 0 then x % Abs(y) else -((-x) % Abs(y))
  }

  /** C#'s `/` on integers: truncated toward zero. */
  function TruncDiv(x: int, y: int): int
    requires y != 0
  {
    if (x < 0) == (y < 0) then Abs(x) / Abs(y) else -(Abs(x) / Abs(y))
  }

  /** C#'s `/` and `%` split the dividend as `x == (x / y) * y + x % y`. */
  lemma {:induction false} TruncDivRem(x: int, y: int)
    requires y != 0
    ensures x == TruncDiv(x, y) * y + TruncRem(x, y)
  {
    var a: int, b: int := Abs(x), Abs(y);
    var qa: int, ra: int := a / b, a % b;
    assert a == qa * b + ra;
    var d, r := TruncDiv(x, y), TruncRem(x, y);
    NegTimes(qa, b);
    if x >= 0 && y > 0 {
      SameProduct(d, y, qa, b);
    } else if x >= 0 {
      SameProduct(d, y, -qa, -b);
    } else if y > 0 {
      SameProduct(d, y, -qa, b);
    } else {
      SameProduct(d, y, qa, -b);
    }
  }

  lemma {:induction false} SameProduct(d: int, y: int, d': int, y': int)
    requires d == d' && y == y'
    ensures d * y == d' * y'
  {
  }

  lemma {:induction false} NegTimes(a: int, b: int)
    ensures (-a) * b == -(a * b) && a * (-b) == -(a * b) && (-a) * (-b) == a * b
  {
  }

  /** On a non-negative dividend and a positive divisor C# and Dafny agree. */
  lemma {:induction false} TruncRemNatural(x: int, y: int)
    requires x >= 0 && y > 0
    ensures TruncRem(x, y) == x % y && TruncDiv(x, y) == x / y
  {
  }

  lemma {:induction false} AbsProduct(x: int, y: int)
    ensures Abs(x * y) == Abs(x) * Abs(y)
  {
    if x < 0 && y < 0 {
      assert x * y == (-x) * (-y);
    } else if x < 0 {
      assert -(x * y) == (-x) * y;
    } else if y < 0 {
      assert -(x * y) == x * (-y);
    }
  }

  /** Multiplying by a positive number is injective. */
  lemma {:induction false} MulCancel(g: int, a: int, b: int)
    requires g > 0 && g * a == g * b
    ensures a == b
  {
    if a < b {
      MulMonotone(a + 1, b, g);
      assert false;
    } else if b < a {
      MulMonotone(b + 1, a, g);
      assert false;
    }
  }

  /** C#'s `/` is exact on a multiple of the divisor. */
  lemma {:induction false} TruncDivExact(n: int, g: int, q: int)
    requires g != 0 && n == q * g
    ensures TruncDiv(n, g) == q
  {
    AbsProduct(q, g);
    DivModUnique(Abs(n), Abs(g), Abs(q), 0);
    if q != 0 {
      MulMonotone(1, Abs(q), Abs(g));
      assert n != 0;
      if q > 0 && g < 0 {
        MulNonnegative(q, -g);
        assert n == -(q * -g);
      } else if q < 0 && g > 0 {
        MulNonnegative(-q, g);
        assert n == -((-q) * g);
      } else if q < 0 {
        MulNonnegative(-q, -g);
        assert n == (-q) * (-g);
      } else {
        MulNonnegative(q, g);
      }
    }
  }

  /** A magnitude that is a multiple of another's makes a signed multiple. */
  lemma {:induction false} SignedMultiple(x: int, g: int, i: nat) returns (k: int)
    requires Abs(x) == Abs(g) * i
    ensures x == g * k
  {
    if (x < 0) == (g < 0) {
      k := i;
      if x < 0 {
        assert -x == (-g) * i;
      }
    } else {
      k := -(i as int);
      if x < 0 {
        assert -x == g * i;
      } else {
        assert x == (-g) * i;
      }
    }
  }

  /** `d` divides `n`; zero divides only zero. */
  predicate Divides(d: nat, n: nat)
  {
    if d == 0 then n == 0 else n % d == 0
  }

  /** Divisibility is witnessed by a multiple. */
  lemma {:induction false} DividesMultiple(d: nat, k: nat)
    ensures Divides(d, d * k)
  {
    if d > 0 {
      DivModUnique(d * k, d, k, 0);
    }
  }

  /** Divisibility gives the multiple back. */
  lemma {:induction false} DividesWitness(d: nat, n: nat) returns (k: nat)
    requires Divides(d, n)
    ensures n == d * k
  {
    if d == 0 {
      k := 0;
    } else {
      k := n / d;
    }
  }

  /** A common divisor of `x` and `y` divides `q * y + x`. */
  lemma {:induction false} DividesCombination(d: nat, x: nat, y: nat, q: nat)
    requires Divides(d, x) && Divides(d, y)
    ensures Divides(d, q * y + x)
  {
    var i := DividesWitness(d, x);
    var j := DividesWitness(d, y);
    assert q * y + x == d * (q * j + i);
    DividesMultiple(d, q * j + i);
  }

  /** A common divisor of `x` and `y` divides `x - q * y` when that is a natural number. */
  lemma {:induction false} DividesDifference(d: nat, x: nat, y: nat, q: nat)
    requires Divides(d, x) && Divides(d, y) && q * y <= x
    ensures Divides(d, x - q * y)
  {
    if d > 0 {
      var i := DividesWitness(d, x);
      var j := DividesWitness(d, y);
      assert x == d * i && q * y == d * (q * j);
      assert q * j <= i by {
        if q * j > i {
          MulMonotone(i + 1, q * j, d);
          assert false;
        }
      }
      assert x - q * y == d * (i - q * j);
      DividesMultiple(d, i - q * j);
    }
  }

  /** Euclid's algorithm on natural numbers, the reference the C# loops are proved against. */
  function GcdSpec(a: nat, b: nat): nat
    decreases b
  {
    if b == 0 then a else GcdSpec(b, a % b)
  }

  /** The reference gcd divides both arguments. */
  lemma {:induction false} GcdDividesBoth(a: nat, b: nat)
    ensures Divides(GcdSpec(a, b), a) && Divides(GcdSpec(a, b), b)
    decreases b
  {
    if b == 0 {
      DividesMultiple(a, 0);
      DividesMultiple(a, 1);
    } else {
      GcdDividesBoth(b, a % b);
      assert a == (a / b) * b + a % b;
      DividesCombination(GcdSpec(a, b), a % b, b, a / b);
    }
  }

  /** Every common divisor of the arguments divides the reference gcd: it is the greatest. */
  lemma {:induction false} GcdGreatest(a: nat, b: nat, d: nat)
    requires Divides(d, a) && Divides(d, b)
    ensures Divides(d, GcdSpec(a, b))
    decreases b
  {
    if b > 0 {
      assert a % b == a - (a / b) * b;
      DividesDifference(d, a, b, a / b);
      GcdGreatest(b, a % b, d);
    }
  }

  /** The reference gcd is positive unless both arguments are zero. */
  lemma {:induction false} GcdPositive(a: nat, b: nat)
    requires a > 0 || b > 0
    ensures GcdSpec(a, b) > 0
    decreases b
  {
    if b > 0 {
      GcdPositive(b, a % b);
    }
  }

  /** The reference gcd does not depend on the order of its arguments. */
  lemma {:induction false} GcdSymmetric(a: nat, b: nat)
    ensures GcdSpec(a, b) == GcdSpec(b, a)
  {
    if a > 0 && b > 0 {
      if a < b {
        DivModUnique(a, b, 0, a);
      } else if b < a {
        DivModUnique(b, a, 0, b);
      }
    }
  }

  /** Scaling both arguments scales the reference gcd. */
  lemma {:induction false} GcdScale(k: nat, a: nat, b: nat)
    requires k > 0
    ensures GcdSpec(k * a, k * b) == k * GcdSpec(a, b)
    decreases b
  {
    if b > 0 {
      ScaledMod(k, a, b);
      GcdScale(k, b, a % b);
    }
  }

  /** Scaling both operands scales the remainder. */
  lemma {:induction false} ScaledMod(k: nat, a: nat, b: nat)
    requires k > 0 && b > 0
    ensures k * b > 0 && (k * a) % (k * b) == k * (a % b)
  {
    var q, r := a / b, a % b;
    ScaledEquation(k, a, b, q, r);
    MulMonotone(r + 1, b, k);
    MulMonotone(1, b, k);
    DivModUnique(k * a, k * b, q, k * r);
  }

  lemma {:induction false} ScaledEquation(k: int, a: int, b: int, q: int, r: int)
    requires a == q * b + r
    ensures k * a == q * (k * b) + k * r
    ensures (r + 1) * k == k * r + k && b * k == k * b && 1 * k == k
  {
  }

  lemma {:induction false} MulCancelOne(g: int, h: int)
    requires g > 0 && g * h == g
    ensures h == 1
  {
    if h <= 0 {
      MulMonotone(h, 0, g);
      assert false;
    } else if h > 1 {
      MulMonotone(2, h, g);
      assert false;
    }
  }

  lemma {:induction false} QuotientOfMultiple(n: int, g: int, i: int)
    requires g > 0 && n == g * i
    ensures n / g == i
  {
    DivModUnique(n, g, i, 0);
  }

  lemma {:induction false} CoprimeAfterScale(g: nat, i: nat, j: nat)
    requires g > 0 && GcdSpec(g * i, g * j) == g
    ensures GcdSpec(i, j) == 1
  {
    GcdScale(g, i, j);
    MulCancelOne(g, GcdSpec(i, j));
  }

  /** The cofactors left after dividing both arguments by their gcd are coprime. */
  lemma {:induction false} GcdCofactors(a: nat, b: nat) returns (i: nat, j: nat)
    requires a > 0 || b > 0
    ensures GcdSpec(a, b) > 0
    ensures a == GcdSpec(a, b) * i && b == GcdSpec(a, b) * j
    ensures GcdSpec(i, j) == 1
  {
    GcdPositive(a, b);
    GcdDividesBoth(a, b);
    var g := GcdSpec(a, b);
    i := DividesWitness(g, a);
    j := DividesWitness(g, b);
    CoprimeAfterScale(g, i, j);
  }

  /**
   * The loop both MathHelper.GCD methods run once their divisor is non-zero:
   * take the C# remainder; stop with the divisor when it is zero, otherwise shift.
   */
  function EuclidLoop(x: int, y: int): int
    requires y != 0
    decreases Abs(y)
  {
    var r := TruncRem(x, y);
    if r == 0 then y else EuclidLoop(y, r)
  }

  /** Up to sign, the loop computes the gcd of the magnitudes, whatever the signs of its inputs. */
  lemma {:induction false} EuclidLoopGcd(x: int, y: int)
    requires y != 0
    ensures Abs(EuclidLoop(x, y)) == GcdSpec(Abs(x), Abs(y))
    decreases Abs(y)
  {
    var r := TruncRem(x, y);
    if r != 0 {
      EuclidLoopGcd(y, r);
    }
  }

  /** On a non-negative dividend and a positive divisor the loop returns the (positive) gcd itself. */
  lemma {:induction false} EuclidLoopNatural(x: int, y: int)
    requires x >= 0 && y > 0
    ensures EuclidLoop(x, y) == GcdSpec(x, y)
    decreases y
  {
    var r := TruncRem(x, y);
    if r != 0 {
      EuclidLoopNatural(y, r);
    }
  }
}
