/** `TJA_Supporter.Lib.Math.Fraction`: a numerator and a denominator, as stored. */
module Fractions {
  import opened Wrappers
  import opened Euclid
  import opened NumberText
  import AppMathHelper

  /** A struct: every copy is an independent value. Nothing is reduced on construction. */
  datatype Fraction = Fraction(numerator: int, denominator: int)

  /** `Value`: the numerator divided by the denominator (a zero denominator gives no finite value). */
  function Value(f: Fraction): (v: real)
    requires f.denominator != 0
    ensures v * f.denominator as real == f.numerator as real
  {
    f.numerator as real / f.denominator as real
  }

  /**
   * `Reduce`: both terms of a copy divided by `GCD(numerator, denominator)` (the application's
   * gcd, without the swap); a zero denominator makes that gcd raise.
   */
  function Reduce(f: Fraction): (r: Result<Fraction>)
    ensures r.Failure? <==> f.denominator == 0
    ensures r.Failure? ==> r.error == DivideByZero
  {
    match AppMathHelper.GcdResult(f.numerator, f.denominator)
    case Failure(e) => Failure(e)
    case Success(g) => Success(Fraction(TruncDiv(f.numerator, g), TruncDiv(f.denominator, g)))
  }

  /** The gcd splits both terms into exact signed multiples of it. */
  lemma {:induction false} ReduceCofactors(f: Fraction) returns (g: int)
    requires f.denominator != 0
    ensures g != 0 && AppMathHelper.GcdResult(f.numerator, f.denominator) == Success(g)
    ensures f.numerator == g * Reduce(f).value.numerator
    ensures f.denominator == g * Reduce(f).value.denominator
  {
    g := AppMathHelper.GcdResult(f.numerator, f.denominator).value;
    GcdDividesBoth(Abs(f.numerator), Abs(f.denominator));
    var i := DividesWitness(Abs(g), Abs(f.numerator));
    var j := DividesWitness(Abs(g), Abs(f.denominator));
    var n := SignedMultiple(f.numerator, g, i);
    var d := SignedMultiple(f.denominator, g, j);
    TruncDivExact(f.numerator, g, n);
    TruncDivExact(f.denominator, g, d);
  }

  /** Reducing keeps the ratio: cross products agree, the new denominator is not zero, and so the value is kept. */
  lemma {:induction false} ReducePreservesRatio(f: Fraction)
    requires f.denominator != 0
    ensures Reduce(f).Success? && Reduce(f).value.denominator != 0
    ensures Reduce(f).value.numerator * f.denominator == f.numerator * Reduce(f).value.denominator
    ensures Value(Reduce(f).value) == Value(f)
  {
    var g := ReduceCofactors(f);
    CommonFactor(f.numerator, f.denominator, Reduce(f).value.numerator, Reduce(f).value.denominator, g);
  }

  /** Terms that are the same multiple of two others have the same cross products and the same ratio. */
  lemma {:induction false} CommonFactor(a: int, b: int, n: int, d: int, g: int)
    requires g != 0 && b != 0 && a == g * n && b == g * d
    ensures d != 0 && n * b == a * d
    ensures n as real / d as real == a as real / b as real
  {
    assert n * (g * d) == (g * n) * d;
    assert b as real == g as real * d as real;
    assert a as real == g as real * n as real;
  }

  /** With positive terms the reduced terms are positive and coprime. */
  lemma {:induction false} ReduceCoprime(f: Fraction)
    requires f.numerator > 0 && f.denominator > 0
    ensures Reduce(f).Success? && Reduce(f).value.numerator > 0 && Reduce(f).value.denominator > 0
    ensures GcdSpec(Reduce(f).value.numerator, Reduce(f).value.denominator) == 1
  {
    AppMathHelper.GcdAgreesWithSwapping(f.numerator, f.denominator);
    var g := ReduceCofactors(f);
    var n, d := Reduce(f).value.numerator, Reduce(f).value.denominator;
    PositiveCofactor(g, n, f.numerator);
    PositiveCofactor(g, d, f.denominator);
    CoprimeAfterScale(g, n, d);
  }

  lemma {:induction false} PositiveCofactor(g: int, i: int, a: int)
    requires g > 0 && a > 0 && a == g * i
    ensures i > 0
  {
    if i <= 0 {
      MulMonotone(i, 0, g);
      assert false;
    }
  }

  /** With a non-negative numerator and a positive denominator, reducing a second time changes nothing. */
  lemma {:induction false} ReduceIdempotent(f: Fraction)
    requires f.numerator >= 0 && f.denominator > 0
    ensures Reduce(f).Success? && Reduce(Reduce(f).value) == Reduce(f)
  {
    if f.numerator == 0 {
      ReduceZero(f.denominator);
      ReduceZero(1);
    } else {
      ReduceCoprime(f);
      var r := Reduce(f).value;
      AppMathHelper.GcdAgreesWithSwapping(r.numerator, r.denominator);
      TruncDivExact(r.numerator, 1, r.numerator);
      TruncDivExact(r.denominator, 1, r.denominator);
    }
  }

  /** A zero numerator reduces to `0/1`: `GCD(0, d)` is `d`. */
  lemma {:induction false} ReduceZero(d: int)
    requires d != 0
    ensures Reduce(Fraction(0, d)) == Success(Fraction(0, 1))
  {
    AppMathHelper.GcdOfZero(d);
    TruncDivExact(d, d, 1);
    TruncDivExact(0, d, 0);
  }

  lemma {:induction false} ReduceExamples()
    ensures Reduce(Fraction(6, 8)) == Success(Fraction(3, 4))
    ensures Reduce(Fraction(4, 4)) == Success(Fraction(1, 1))
    ensures Reduce(Fraction(3, 0)) == Failure(DivideByZero)
  {
    AppMathHelper.GcdAgreesWithSwapping(6, 8);
    AppMathHelper.GcdAgreesWithSwapping(4, 4);
    TruncDivExact(6, 2, 3);
    TruncDivExact(8, 2, 4);
    TruncDivExact(4, 4, 1);
  }

  /** `ToString`: `"{Numerator}/{Denominator}"` of the stored, unreduced terms. */
  function ToString(f: Fraction): (s: string)
    ensures '/' in s
  {
    IntText(f.numerator) + "/" + IntText(f.denominator)
  }

  /** Different fractions, even of equal value, have different texts: the text gives both terms back. */
  lemma {:induction false} ToStringInjective(f: Fraction, h: Fraction)
    requires ToString(f) == ToString(h)
    ensures f == h
  {
    var a, b := IntText(f.numerator), IntText(f.denominator);
    var c, d := IntText(h.numerator), IntText(h.denominator);
    SplitAtSlash(a, b, c, d);
    IntTextInjective(f.numerator, h.numerator);
    IntTextInjective(f.denominator, h.denominator);
  }

  /** A text holding no slash, a slash and the rest: the first slash tells where the parts meet. */
  lemma {:induction false} SplitAtSlash(a: string, b: string, c: string, d: string)
    requires '/' !in a && '/' !in c
    requires a + "/" + b == c + "/" + d
    ensures a == c && b == d
  {
    var s := a + "/" + b;
    FirstSlash(a, b);
    FirstSlash(c, d);
    assert |a| == |c|;
    assert a == s[..|a|];
    assert c == s[..|c|];
    assert b == s[|a| + 1..];
    assert d == s[|c| + 1..];
  }

  /** In `a + "/" + b` with no slash in `a`, the first slash is the one after `a`. */
  lemma {:induction false} FirstSlash(a: string, b: string)
    requires '/' !in a
    ensures (a + "/" + b)[|a|] == '/'
    ensures forall k :: 0 <= k < |a| ==> (a + "/" + b)[k] != '/'
  {
    forall k | 0 <= k < |a| ensures (a + "/" + b)[k] != '/' {
      assert (a + "/" + b)[k] == a[k];
    }
  }

  lemma {:induction false} ToStringExamples()
    ensures ToString(Fraction(4, 4)) == "4/4" && ToString(Fraction(-3, 8)) == "-3/8"
  {
    assert NatText(4) == "4" && NatText(3) == "3" && NatText(8) == "8";
  }
}
