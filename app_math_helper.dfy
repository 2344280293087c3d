/**
 * The application's own `TJA_Supporter.Lib.Math.MathHelper`: Euclid's gcd without the initial
 * swap and the lcm built on it. Its `ToComplexString` is the same four-case code as the library's
 * and is modelled once, by `LibMathHelper.ToComplexString`.
 */
module AppMathHelper {
  import opened Wrappers
  import opened Euclid
  import LibMathHelper

  /**
   * What `GCD(x, y)` returns or raises: the loop starts on `(x, y)` as given, so `x % y` raises
   * exactly when `y` is zero. The result is, up to sign, the gcd of the magnitudes.
   */
  function GcdResult(x: int, y: int): (r: Result<int>)
    ensures r.Failure? <==> y == 0
    ensures r.Failure? ==> r.error == DivideByZero
    ensures r.Success? ==> r.value != 0 && Abs(r.value) == GcdSpec(Abs(x), Abs(y))
  {
    if y == 0 then Failure(DivideByZero)
    else
      EuclidLoopGcd(x, y);
      GcdPositive(Abs(x), Abs(y));
      Success(EuclidLoop(x, y))
  }

  /** `GCD(x, y)`: replace `(x, y)` by `(y, x % y)` until the remainder is zero. */
  method Gcd(x0: int, y0: int) returns (r: Result<int>)
    ensures r == GcdResult(x0, y0)
  {
    var x, y := x0, y0;
    while true
      invariant y != 0 ==> GcdResult(x0, y0) == Success(EuclidLoop(x, y))
      invariant y == 0 ==> x == x0 && y == y0
      decreases Abs(y)
    {
      if y == 0 {
        return Failure(DivideByZero);
      }
      var remainder := TruncRem(x, y);
      if remainder == 0 {
        return Success(y);
      }
      x, y := y, remainder;
    }
  }

  /**
   * Without the swap the loop still finds the gcd: when `x < y` the first remainder is `x` itself,
   * which exchanges the two. On positive arguments both helpers agree.
   */
  lemma {:induction false} GcdAgreesWithSwapping(x: int, y: int)
    requires x > 0 && y > 0
    ensures GcdResult(x, y) == LibMathHelper.GcdResult(x, y)
    ensures GcdResult(x, y) == Success(GcdSpec(x, y))
  {
    EuclidLoopNatural(x, y);
    LibMathHelper.GcdPositiveArguments(x, y);
  }

  /** With a positive divisor and a positive first argument the result divides both and is the greatest such. */
  lemma {:induction false} GcdDivides(x: int, y: int)
    requires x > 0 && y > 0
    ensures GcdResult(x, y).Success? && GcdResult(x, y).value > 0
    ensures Divides(GcdResult(x, y).value, x) && Divides(GcdResult(x, y).value, y)
    ensures forall d: nat :: Divides(d, x) && Divides(d, y) ==> Divides(d, GcdResult(x, y).value)
  {
    GcdAgreesWithSwapping(x, y);
    LibMathHelper.GcdDivides(x, y);
  }

  /** Unlike the swapping helper, a zero first argument returns the second at once. */
  lemma {:induction false} GcdOfZero(y: int)
    requires y != 0
    ensures GcdResult(0, y) == Success(y)
    ensures y > 0 ==> LibMathHelper.GcdResult(0, y) == Failure(DivideByZero)
  {
  }

  /** The first remainder is the first argument when it is the smaller: the two are exchanged. */
  lemma {:induction false} GcdSmallerFirst(x: int, y: int)
    requires 0 < x < y
    ensures GcdResult(x, y) == GcdResult(y, x)
  {
    DivModUnique(x, y, 0, x);
    assert TruncRem(x, y) == x;
  }

  /** `LCM(x, y)`: `(x * y) / GCD(x, y)`, with the exception of the gcd when it raises one. */
  function LcmResult(x: int, y: int): (r: Result<int>)
    ensures r.Failure? <==> y == 0
    ensures r.Success? ==> r.value * GcdResult(x, y).value == x * y
  {
    match GcdResult(x, y)
    case Failure(e) => Failure(e)
    case Success(g) =>
      LibMathHelper.LcmExact(x, y, g);
      Success(TruncDiv(x * y, g))
  }

  /** For positive arguments the lcm is the library's: a positive common multiple, and gcd times lcm is the product. */
  lemma {:induction false} LcmCommonMultiple(x: int, y: int)
    requires x > 0 && y > 0
    ensures LcmResult(x, y) == LibMathHelper.LcmResult(x, y)
    ensures LcmResult(x, y).Success? && LcmResult(x, y).value > 0
    ensures Divides(x, LcmResult(x, y).value) && Divides(y, LcmResult(x, y).value)
  {
    GcdAgreesWithSwapping(x, y);
    LibMathHelper.LcmCommonMultiple(x, y);
  }

  lemma {:induction false} GcdExamples()
    ensures GcdResult(2, 3) == Success(1) && GcdResult(4, 6) == Success(2)
    ensures GcdResult(145, 120) == Success(5) && GcdResult(608, 532) == Success(76)
    ensures GcdResult(0, 7) == Success(7) && GcdResult(7, 0) == Failure(DivideByZero)
  {
    GcdAgreesWithSwapping(2, 3);
    GcdAgreesWithSwapping(4, 6);
    GcdAgreesWithSwapping(145, 120);
    GcdAgreesWithSwapping(608, 532);
    LibMathHelper.GcdExamples();
  }
}
