/**
 * `TJA_Supporter.Lib.Math.MathHelper`: Euclid's gcd with the initial swap, the lcm built on it,
 * the text of a complex scroll value, and the parser of that text.
 */
module LibMathHelper {
  import opened Wrappers
  import opened Euclid
  import opened NumberText
  import opened Complexes

  /** The pair the swap leaves: the larger argument first. */
  function Ordered(x: int, y: int): (int, int)
  {
    if x < y then (y, x) else (x, y)
  }

  /**
   * What `GCD(x, y)` returns or raises: after the swap, `x % y` raises when the smaller argument
   * is zero; otherwise the loop runs. The result is, up to sign, the gcd of the magnitudes.
   */
  function GcdResult(x: int, y: int): (r: Result<int>)
    ensures r.Failure? <==> (if x < y then x else y) == 0
    ensures r.Failure? ==> r.error == DivideByZero
    ensures r.Success? ==> r.value != 0 && Abs(r.value) == GcdSpec(Abs(x), Abs(y))
  {
    var (a, b) := Ordered(x, y);
    if b == 0 then Failure(DivideByZero)
    else
      EuclidLoopGcd(a, b);
      GcdPositive(Abs(a), Abs(b));
      GcdSymmetric(Abs(x), Abs(y));
      Success(EuclidLoop(a, b))
  }

  /** `GCD(x, y)`: swap, then replace `(x, y)` by `(y, x % y)` until the remainder is zero. */
  method Gcd(x0: int, y0: int) returns (r: Result<int>)
    ensures r == GcdResult(x0, y0)
  {
    var x, y := x0, y0;
    if x < y {
      x, y := y, x;
    }
    while true
      invariant (x, y) == Ordered(x0, y0) || (y != 0 && Ordered(x0, y0).1 != 0)
      invariant y != 0 ==> GcdResult(x0, y0) == Success(EuclidLoop(x, y))
      invariant y == 0 ==> GcdResult(x0, y0) == Failure(DivideByZero)
      decreases Abs(y)
    {
      if y == 0 {
        return Failure(DivideByZero);
      }
      var remainder := TruncRem(x, y);
      if remainder == 0 {
        return Success(y);
      }
      x, y := y, remainder;
    }
  }

  /** For positive arguments the swap and the loop give the greatest common divisor itself. */
  lemma {:induction false} GcdPositiveArguments(x: int, y: int)
    requires x > 0 && y > 0
    ensures GcdResult(x, y) == Success(GcdSpec(x, y))
  {
    var (a, b) := Ordered(x, y);
    EuclidLoopNatural(a, b);
    GcdSymmetric(x, y);
  }

  /** The result divides both positive arguments, and every common divisor divides it. */
  lemma {:induction false} GcdDivides(x: int, y: int)
    requires x > 0 && y > 0
    ensures GcdResult(x, y).Success? && GcdResult(x, y).value > 0
    ensures Divides(GcdResult(x, y).value, x) && Divides(GcdResult(x, y).value, y)
    ensures forall d: nat :: Divides(d, x) && Divides(d, y) ==> Divides(d, GcdResult(x, y).value)
  {
    GcdPositiveArguments(x, y);
    GcdDividesBoth(x, y);
    forall d: nat | Divides(d, x) && Divides(d, y) ensures Divides(d, GcdSpec(x, y)) {
      GcdGreatest(x, y, d);
    }
  }

  /** The order of the arguments does not matter. */
  lemma {:induction false} GcdCommutes(x: int, y: int)
    requires x > 0 && y > 0
    ensures GcdResult(x, y) == GcdResult(y, x)
  {
    GcdPositiveArguments(x, y);
    GcdPositiveArguments(y, x);
    GcdSymmetric(x, y);
  }

  /** A zero argument among non-negative ones reaches `x % 0`. */
  lemma {:induction false} GcdOfZero(x: int, y: int)
    requires x >= 0 && y >= 0 && (x == 0 || y == 0)
    ensures GcdResult(x, y) == Failure(DivideByZero)
  {
  }

  lemma {:induction false} GcdExamples()
    ensures GcdResult(2, 3) == Success(1) && GcdResult(5, 4) == Success(1)
    ensures GcdResult(4, 6) == Success(2) && GcdResult(145, 120) == Success(5)
    ensures GcdResult(608, 532) == Success(76)
  {
    GcdPositiveArguments(2, 3);
    GcdPositiveArguments(5, 4);
    GcdPositiveArguments(4, 6);
    GcdPositiveArguments(145, 120);
    GcdPositiveArguments(608, 532);
  }

  /** `LCM(x, y)`: `(x * y) / GCD(x, y)`, with the exception of the gcd when it raises one. */
  function LcmResult(x: int, y: int): (r: Result<int>)
    ensures r.Failure? <==> GcdResult(x, y).Failure?
    ensures r.Success? ==> r.value * GcdResult(x, y).value == x * y
  {
    match GcdResult(x, y)
    case Failure(e) => Failure(e)
    case Success(g) =>
      LcmExact(x, y, g);
      Success(TruncDiv(x * y, g))
  }

  /** The gcd divides the product exactly, so C#'s `/` loses nothing. */
  lemma {:induction false} LcmExact(x: int, y: int, g: int)
    requires g != 0 && Abs(g) == GcdSpec(Abs(x), Abs(y))
    ensures TruncDiv(x * y, g) * g == x * y
  {
    GcdDividesBoth(Abs(x), Abs(y));
    var i := DividesWitness(Abs(g), Abs(x));
    var k := SignedMultiple(x, g, i);
    assert x * y == (k * y) * g;
    TruncDivExact(x * y, g, k * y);
  }

  /** For positive arguments the lcm is a positive common multiple, and gcd times lcm is the product. */
  lemma {:induction false} LcmCommonMultiple(x: int, y: int)
    requires x > 0 && y > 0
    ensures LcmResult(x, y).Success? && LcmResult(x, y).value > 0
    ensures GcdSpec(x, y) * LcmResult(x, y).value == x * y
    ensures Divides(x, LcmResult(x, y).value) && Divides(y, LcmResult(x, y).value)
  {
    GcdPositiveArguments(x, y);
    var g := GcdSpec(x, y);
    var l := LcmResult(x, y).value;
    GcdDividesBoth(x, y);
    var i := DividesWitness(g, x);
    var j := DividesWitness(g, y);
    CofactorMultiple(g, l, x, y, i);
    CofactorMultiple(g, l, y, x, j);
    DividesMultiple(y, i);
    DividesMultiple(x, j);
  }

  /** From `l * g == a * b` and `a == g * i`: `l == b * i`, positive when `b` and `i` are. */
  lemma {:induction false} CofactorMultiple(g: int, l: int, a: int, b: int, i: int)
    requires g > 0 && b > 0 && a > 0 && l * g == a * b && a == g * i
    ensures l == b * i && l > 0 && g * l == a * b
  {
    assert g * l == g * (b * i);
    MulCancel(g, l, b * i);
    if i <= 0 {
      MulMonotone(i, 0, g);
      assert false;
    }
    MulNonnegative(b - 1, i);
  }

  lemma {:induction false} LcmExamples()
    ensures LcmResult(2, 3) == Success(6) && LcmResult(12, 8) == Success(24)
    ensures LcmResult(16, 12) == Success(48) && LcmResult(13, 17) == Success(221)
  {
    GcdPositiveArguments(2, 3);
    GcdPositiveArguments(12, 8);
    GcdPositiveArguments(16, 12);
    GcdPositiveArguments(13, 17);
  }

  /**
   * `ToComplexString`: `0` for zero, the text of the one non-zero part (with `i` after an
   * imaginary one), or both parts with a `+` between them only before a positive imaginary part.
   */
  function ToComplexString(c: Complex): (s: string)
    ensures |s| > 0
    ensures '+' in s <==> c.re != 0.0 && c.im > 0.0
    ensures s[|s| - 1] == 'i' <==> c.im != 0.0
  {
    if c.re == 0.0 && c.im == 0.0 then "0"
    else if c.im == 0.0 then RealAlone(c.re)
    else if c.re == 0.0 then RealText(c.im) + "i"
    else BothParts(c.re, c.im)
  }

  /** A real part, a `+` before a positive imaginary part, the imaginary part and `i`. */
  function BothParts(re: real, im: real): string
  {
    RealText(re) + (PlusSign(im) + (RealText(im) + "i"))
  }

  /** The text of a real part standing alone; it has neither a `+` nor an `i`. */
  function RealAlone(x: real): (s: string)
    ensures |s| > 0 && '+' !in s && s[|s| - 1] != 'i'
  {
    var s := RealText(x);
    assert s[|s| - 1] in s;
    s
  }

  function PlusSign(im: real): string
  {
    if im > 0.0 then "+" else ""
  }

  /** The groups the pattern `((?<real>-?\d+\.?\d*))?\+?((?<imaginary>-?\d+\.?\d*)i)?` captures. */
  datatype ComplexGroups = ComplexGroups(realGroup: Option<Scanned>, imaginaryGroup: Option<Scanned>)

  /**
   * The first match of the pattern, at position 0: the real group taken greedily, then an optional
   * `+`, then the imaginary group, which only counts when an `i` ends it. Every piece is optional and
   * a greedy piece that is followed by the wrong character cannot be rescued by a shorter match, so
   * backtracking never changes the groups, and the match always succeeds.
   */
  function MatchComplex(s: string): (m: Option<ComplexGroups>)
    ensures m.Some?
  {
    var re := ScanAt(s, 0);
    var imaginary := ScanAt(s, ImaginaryStart(s));
    if EndsWithI(s, imaginary) then
      Some(ComplexGroups(re, imaginary))
    else
      Some(ComplexGroups(re, None))
  }

  /** Where the imaginary group is tried: after the real group and an optional `+`. */
  function ImaginaryStart(s: string): (q: nat)
    ensures q <= |s|
  {
    var re := ScanAt(s, 0);
    var p := if re.Some? then re.value.end else 0;
    if p < |s| && s[p] == '+' then p + 1 else p
  }

  /** A scanned number that an `i` follows. */
  predicate EndsWithI(s: string, g: Option<Scanned>)
  {
    g.Some? && g.value.end < |s| && s[g.value.end] == 'i'
  }

  /** A missing group reads as 0; a matched one as the exact value of its text. */
  function GroupValue(g: Option<Scanned>): real
  {
    if g.Some? then ScannedValue(g.value) else 0.0
  }

  /** `ParseToComplex`: the parts the pattern captures; the `ArgumentException` is for a text the pattern does not match. */
  function ParseToComplex(s: string): (r: Result<Complex>)
    ensures r.Success?
  {
    match MatchComplex(s)
    case Some(g) => Success(Complex(GroupValue(g.realGroup), GroupValue(g.imaginaryGroup)))
    case None => Failure(Argument)
  }

  /** A text that starts with neither a digit nor a sign has no number where the pattern looks, and parses to 0. */
  lemma {:induction false} ParseWithoutNumber(s: string)
    requires s == [] || !(IsDigit(s[0]) || s[0] == '-' || s[0] == '+')
    ensures ParseToComplex(s) == Success(Zero)
  {
  }

  /** The groups, given where the imaginary group is tried and whether an `i` ends it. */
  lemma {:induction false} MatchWithImaginary(s: string, q: nat)
    requires q == ImaginaryStart(s) && EndsWithI(s, ScanAt(s, q))
    ensures MatchComplex(s) == Some(ComplexGroups(ScanAt(s, 0), ScanAt(s, q)))
  {
  }

  lemma {:induction false} MatchWithoutImaginary(s: string, q: nat)
    requires q == ImaginaryStart(s) && !EndsWithI(s, ScanAt(s, q))
    ensures MatchComplex(s) == Some(ComplexGroups(ScanAt(s, 0), None))
  {
  }

  /** The real group reads a leading real text up to a character that is neither a digit nor a point. */
  lemma {:induction false} ScanLeadingPart(x: real, rest: string)
    requires IsShortDecimal(x)
    requires rest == [] || !(IsDigit(rest[0]) || rest[0] == '.')
    ensures ScanAt(RealText(x) + rest, 0).Some?
    ensures ScanAt(RealText(x) + rest, 0).value.end == |RealText(x)|
    ensures ScannedValue(ScanAt(RealText(x) + rest, 0).value) == x
  {
    PlacedFront(RealText(x), rest);
    ScanRealText(RealText(x) + rest, 0, x);
  }

  /** The real group reads a real text that stands alone to its end. */
  lemma {:induction false} ScanAlone(x: real)
    requires IsShortDecimal(x)
    ensures ScanAt(RealText(x), 0).Some? && ScanAt(RealText(x), 0).value.end == |RealText(x)|
    ensures ScannedValue(ScanAt(RealText(x), 0).value) == x
  {
    PlacedWhole(RealText(x));
    ScanRealText(RealText(x), 0, x);
  }

  /** Formatting a real part alone, then parsing, gives the number back with no imaginary part. */
  lemma {:induction false} ParseRealAlone(x: real)
    requires IsShortDecimal(x) && PlainNotation(x)
    ensures ParseToComplex(RealText(x)) == Success(Complex(x, 0.0))
  {
    var s := RealText(x);
    ScanAlone(x);
    MatchWithoutImaginary(s, ImaginaryStart(s));
  }

  /** A number followed by `i` with nothing before it is taken by the real group. */
  lemma {:induction false} ParseImaginaryAlone(x: real)
    requires IsShortDecimal(x)
    ensures ParseToComplex(RealText(x) + "i") == Success(Complex(x, 0.0))
  {
    var s := RealText(x) + "i";
    ScanLeadingPart(x, "i");
    assert s[|RealText(x)|] == 'i';
    MatchWithoutImaginary(s, ImaginaryStart(s));
  }

  /** The character after the real text of both parts: a `+` exactly when the imaginary part is positive. */
  lemma {:induction false} SecondPartStart(re: real, im: real)
    requires im != 0.0
    ensures var s := BothParts(re, im);
      |RealText(re)| < |s| && (s[|RealText(re)|] == '+' <==> im > 0.0)
      && (s[|RealText(re)|] == '+' || s[|RealText(re)|] == '-')
  {
    var a, plus, b := RealText(re), PlusSign(im), RealText(im);
    var s := a + (plus + (b + "i"));
    assert s[|a|] == (plus + (b + "i"))[0];
    if im <= 0.0 {
      assert (plus + (b + "i"))[0] == b[0];
    }
  }

  /** Where the real group ends at a sign, the imaginary group is tried after a `+` and at a `-`. */
  lemma {:induction false} ImaginaryStartAfter(s: string, p: nat)
    requires ScanAt(s, 0).Some? && ScanAt(s, 0).value.end == p
    requires p < |s| && (s[p] == '+' || s[p] == '-')
    ensures ImaginaryStart(s) == if s[p] == '+' then p + 1 else p
  {
  }

  /** The parsed value, given what both groups read and that an `i` ends the second. */
  lemma {:induction false} ParseFromGroups(s: string, q: nat, e: nat, re: real, im: real)
    requires ScanAt(s, 0).Some? && ScannedValue(ScanAt(s, 0).value) == re
    requires q == ImaginaryStart(s) && ScanAt(s, q).Some?
    requires ScanAt(s, q).value.end == e && e < |s| && s[e] == 'i'
    requires ScannedValue(ScanAt(s, q).value) == im
    ensures ParseToComplex(s) == Success(Complex(re, im))
  {
    MatchWithImaginary(s, q);
  }

  /** In the text of both parts, the real group reads the real text. */
  lemma {:induction false} RealGroupOfBoth(re: real, im: real, s: string)
    requires IsShortDecimal(re) && im != 0.0 && s == BothParts(re, im)
    ensures ScanAt(s, 0).Some? && ScannedValue(ScanAt(s, 0).value) == re
  {
    SecondPartStart(re, im);
    ScanLeadingPart(re, PlusSign(im) + (RealText(im) + "i"));
  }

  /** In the text of both parts, the imaginary group is tried right after the real text and its `+`. */
  lemma {:induction false} ImaginaryStartOfBoth(re: real, im: real, s: string, q: nat)
    requires IsShortDecimal(re) && im != 0.0 && s == BothParts(re, im)
    requires q == |RealText(re)| + |PlusSign(im)|
    ensures q == ImaginaryStart(s)
  {
    ScanLeadingPart(re, PlusSign(im) + (RealText(im) + "i"));
    SecondPartStart(re, im);
    ImaginaryStartAfter(s, |RealText(re)|);
  }

  /** After the `+` of a positive imaginary part, the group reads the imaginary text, which an `i` ends. */
  lemma {:induction false} ImaginaryAfterSign(im: real, v: string, k: nat, e: nat)
    requires IsShortDecimal(im) && v == PlusSign(im) + (RealText(im) + "i")
    requires k == |PlusSign(im)| && e == k + |RealText(im)|
    ensures e < |v| && ScanAt(v, k).Some? && ScanAt(v, k).value.end == e && v[e] == 'i'
    ensures ScannedValue(ScanAt(v, k).value) == im
  {
    var u := RealText(im) + "i";
    ScanLeadingPart(im, "i");
    ScanAfter(PlusSign(im), u, v, 0, k);
    assert v[e] == u[|RealText(im)|];
  }

  /** A group that an `i` ends, read after a prefix, is read shifted past the prefix and is still ended by that `i`. */
  lemma {:induction false} GroupAfterPrefix(a: string, v: string, s: string, k: nat, q: nat, e: nat, x: real)
    requires s == a + v && q == |a| + k
    requires k <= |v| && ScanAt(v, k).Some? && ScanAt(v, k).value.end + |a| == e
    requires e < |s| && v[e - |a|] == 'i' && ScannedValue(ScanAt(v, k).value) == x
    ensures q <= |s| && ScanAt(s, q).Some?
    ensures ScanAt(s, q).value.end == e && s[e] == 'i'
    ensures ScannedValue(ScanAt(s, q).value) == x
  {
    ScanAfter(a, v, s, k, q);
    assert s[e] == v[e - |a|];
  }

  /** In the text of both parts, the group tried after the real text and its `+` reads the imaginary text, which an `i` ends. */
  lemma {:induction false} ImaginaryGroupOfBoth(re: real, im: real, s: string, q: nat, e: nat)
    requires IsShortDecimal(im) && s == BothParts(re, im)
    requires q == |RealText(re)| + |PlusSign(im)| && e == q + |RealText(im)|
    ensures q <= |s| && ScanAt(s, q).Some?
    ensures ScanAt(s, q).value.end == e && e < |s| && s[e] == 'i'
    ensures ScannedValue(ScanAt(s, q).value) == im
  {
    var v := PlusSign(im) + (RealText(im) + "i");
    var k := |PlusSign(im)|;
    ImaginaryAfterSign(im, v, k, k + |RealText(im)|);
    GroupAfterPrefix(RealText(re), v, s, k, q, e, im);
  }

  /** The text of both parts, where its imaginary group is tried, and what both groups read there. */
  lemma {:induction false} BothPartsGroups(re: real, im: real) returns (s: string, q: nat, e: nat)
    requires IsShortDecimal(re) && IsShortDecimal(im) && im != 0.0
    ensures s == BothParts(re, im)
    ensures ScanAt(s, 0).Some? && ScannedValue(ScanAt(s, 0).value) == re
    ensures q == ImaginaryStart(s) && ScanAt(s, q).Some?
    ensures ScanAt(s, q).value.end == e && e < |s| && s[e] == 'i'
    ensures ScannedValue(ScanAt(s, q).value) == im
  {
    s, q := BothParts(re, im), |RealText(re)| + |PlusSign(im)|;
    e := q + |RealText(im)|;
    RealGroupOfBoth(re, im, s);
    ImaginaryStartOfBoth(re, im, s, q);
    ImaginaryGroupOfBoth(re, im, s, q, e);
  }

  /** Both parts written, then parsed, come back: the real group stops at the sign of the imaginary part. */
  lemma {:induction false} ParseBothParts(c: Complex)
    requires IsShortDecimal(c.re) && IsShortDecimal(c.im) && c.im != 0.0
    requires PlainNotation(c.re) && PlainNotation(c.im)
    ensures ParseToComplex(BothParts(c.re, c.im)) == Success(c)
  {
    var s, q, e := BothPartsGroups(c.re, c.im);
    ParseFromGroups(s, q, e, c.re, c.im);
  }

  /**
   * Formatting then parsing gives the value back exactly when it is not a bare imaginary number;
   * a bare imaginary `x i` comes back as the real number `x`.
   */
  lemma {:induction false} FormatThenParse(c: Complex)
    requires IsShortDecimal(c.re) && IsShortDecimal(c.im)
    requires PlainNotation(c.re) && PlainNotation(c.im)
    ensures ParseToComplex(ToComplexString(c)) == Success(c) <==> !(c.re == 0.0 && c.im != 0.0)
    ensures c.re == 0.0 && c.im != 0.0 ==> ParseToComplex(ToComplexString(c)) == Success(Complex(c.im, 0.0))
  {
    if c.re == 0.0 && c.im == 0.0 {
      RealTextZero();
      ParseRealAlone(0.0);
    } else if c.im == 0.0 {
      ParseRealAlone(c.re);
    } else if c.re == 0.0 {
      ParseImaginaryAlone(c.im);
    } else {
      ParseBothParts(c);
    }
  }

  /** The texts of the values a chart uses as scroll speeds: whole parts, one of them zero. */
  lemma {:induction false} ComplexStringExamples()
    ensures ToComplexString(Zero) == "0" && ToComplexString(One) == "1"
    ensures ToComplexString(Complex(0.0, 1.0)) == "1i"
    ensures ToComplexString(Complex(-1.0, 0.0)) == "-1" && ToComplexString(Complex(0.0, -1.0)) == "-1i"
  {
    assert RealText(1.0) == "1" by { WholeText(1.0, 1); assert NatText(1) == "1"; }
    assert RealText(-1.0) == "-1" by { WholeText(-1.0, 1); assert NatText(1) == "1"; }
  }

  /** The texts of values with both parts: a `+` only before a positive imaginary part. */
  lemma {:induction false} ComplexStringBothExamples()
    ensures ToComplexString(Complex(1.0, 1.0)) == "1+1i"
    ensures ToComplexString(Complex(-2.0, -2.0)) == "-2-2i"
  {
    assert RealText(1.0) == "1" by { WholeText(1.0, 1); assert NatText(1) == "1"; }
    assert RealText(-2.0) == "-2" by { WholeText(-2.0, 2); assert NatText(2) == "2"; }
    ComplexTextOf(Complex(1.0, 1.0), "1", "1");
    ComplexTextOf(Complex(-2.0, -2.0), "-2", "-2");
  }

  lemma {:induction false} ComplexStringDecimalExample(c: Complex)
    requires c == Complex(3.5, 4.1)
    ensures ToComplexString(c) == "3.5+4.1i"
  {
    assert RealText(3.5) == "3.5" by { TenthsText(3.5, 3, 5); assert NatText(3) == "3"; }
    assert RealText(4.1) == "4.1" by { TenthsText(4.1, 4, 1); assert NatText(4) == "4"; }
    ComplexTextOf(c, "3.5", "4.1");
  }

  /** The text of a value with both parts, from the texts of the parts. */
  lemma {:induction false} ComplexTextOf(c: Complex, a: string, b: string)
    requires c.re != 0.0 && c.im != 0.0 && RealText(c.re) == a && RealText(c.im) == b
    ensures ToComplexString(c) == a + (PlusSign(c.im) + (b + "i"))
  {
  }

  /** Whole parts written alone: a text without an imaginary part reads as a real number. */
  lemma {:induction false} ParseRealExamples(s: string, t: string, u: string)
    requires s == "0" && t == "1" && u == "-1"
    ensures ParseToComplex(s) == Success(Zero) && ParseToComplex(t) == Success(One)
    ensures ParseToComplex(u) == Success(Complex(-1.0, 0.0))
  {
    WholeTexts();
    ParseRealAlone(0.0);
    ParseRealAlone(1.0);
    ParseRealAlone(-1.0);
  }

  /** A zero real part written out, then a positive imaginary part after a `+`. */
  lemma {:induction false} ParseUnitExample(s: string)
    requires s == "0+1i"
    ensures ParseToComplex(s) == Success(Complex(0.0, 1.0))
  {
    WholeTexts();
    ParseBothOf(0.0, 1.0, "0", "+", "1", s);
  }

  lemma {:induction false} ParseBothExample(s: string)
    requires s == "1+1i"
    ensures ParseToComplex(s) == Success(Complex(1.0, 1.0))
  {
    WholeTexts();
    ParseBothOf(1.0, 1.0, "1", "+", "1", s);
  }

  /** A negative imaginary part brings its own sign. */
  lemma {:induction false} ParseNegativeUnitExample(s: string)
    requires s == "0-1i"
    ensures ParseToComplex(s) == Success(Complex(0.0, -1.0))
  {
    WholeTexts();
    ParseBothOf(0.0, -1.0, "0", "", "-1", s);
  }

  lemma {:induction false} ParseNegativeBothExample(s: string)
    requires s == "-1-1i"
    ensures ParseToComplex(s) == Success(Complex(-1.0, -1.0))
  {
    WholeTexts();
    ParseBothOf(-1.0, -1.0, "-1", "", "-1", s);
  }

  lemma {:induction false} ParseTenthsExample(s: string)
    requires s == "0.5+0.8i"
    ensures ParseToComplex(s) == Success(Complex(0.5, 0.8))
  {
    assert IsShortDecimal(0.5) && RealText(0.5) == "0.5" by { TenthsText(0.5, 0, 5); assert NatText(0) == "0"; }
    assert IsShortDecimal(0.8) && RealText(0.8) == "0.8" by { TenthsText(0.8, 0, 8); assert NatText(0) == "0"; }
    ParseBothOf(0.5, 0.8, "0.5", "+", "0.8", s);
  }

  lemma {:induction false} ParseThousandthsExample(s: string)
    requires s == "-1.414+1.414i"
    ensures ParseToComplex(s) == Success(Complex(-1.414, 1.414))
  {
    ThousandthsTexts();
    ParseBothOf(-1.414, 1.414, "-1.414", "+", "1.414", s);
  }

  lemma {:induction false} ThousandthsTexts()
    ensures IsShortDecimal(1.414) && RealText(1.414) == "1.414"
    ensures IsShortDecimal(-1.414) && RealText(-1.414) == "-1.414"
  {
    ThousandthsText(1.414);
    ThousandthsText(-1.414);
    assert NatText(1) == "1";
  }

  lemma {:induction false} WholeTexts()
    ensures IsShortDecimal(0.0) && RealText(0.0) == "0"
    ensures IsShortDecimal(1.0) && RealText(1.0) == "1"
    ensures IsShortDecimal(-1.0) && RealText(-1.0) == "-1"
  {
    WholeText(0.0, 0);
    WholeText(1.0, 1);
    WholeText(-1.0, 1);
    assert NatText(0) == "0" && NatText(1) == "1";
  }

  /**
   * A text made of the written real part, the sign `ToComplexString` puts between the parts, and
   * the written non-zero imaginary part with an `i`, reads as those two parts.
   */
  lemma {:induction false} ParseBothOf(re: real, im: real, a: string, sign: string, b: string, s: string)
    requires im != 0.0 && sign == PlusSign(im) && s == a + (sign + (b + "i"))
    requires IsShortDecimal(re) && RealText(re) == a && IsShortDecimal(im) && RealText(im) == b
    requires PlainNotation(re) && PlainNotation(im)
    ensures ParseToComplex(s) == Success(Complex(re, im))
  {
    ParseBothParts(Complex(re, im));
  }

  /** The bare imaginary unit is written `1i` and read back as the real number 1. */
  lemma {:induction false} ImaginaryUnitMisread()
    ensures ToComplexString(Complex(0.0, 1.0)) == "1i"
    ensures ParseToComplex("1i") == Success(One)
  {
    RealTextOne();
    ParseImaginaryAlone(1.0);
  }

  lemma {:induction false} RealTextOne()
    ensures RealText(1.0) == "1" && IsShortDecimal(1.0)
  {
    assert Scale(1.0) == 0;
    assert FractionAt(1.0, 0) == "";
    assert NatText(1) == "1";
  }

  /**
   * The parser as the format needs it: a leading number that an `i` ends is the imaginary part.
   * Every other text is read as before.
   */
  function MatchComplexFixed(s: string): ComplexGroups
  {
    var lead := ScanAt(s, 0);
    if EndsWithI(s, lead) then
      ComplexGroups(None, lead)
    else
      MatchComplex(s).value
  }

  function ParseToComplexFixed(s: string): Complex
  {
    var g := MatchComplexFixed(s);
    Complex(GroupValue(g.realGroup), GroupValue(g.imaginaryGroup))
  }

  /** The corrected parser inverts the format on every value whose parts it writes exactly. */
  lemma {:induction false} FormatThenParseFixed(c: Complex)
    requires IsShortDecimal(c.re) && IsShortDecimal(c.im)
    requires PlainNotation(c.re) && PlainNotation(c.im)
    ensures ParseToComplexFixed(ToComplexString(c)) == c
  {
    var s := ToComplexString(c);
    if c.re == 0.0 && c.im != 0.0 {
      ScanLeadingPart(c.im, "i");
      assert s[|RealText(c.im)|] == 'i';
    } else {
      FormatThenParse(c);
      FormatLeadNotImaginary(c);
    }
  }

  /** Unless the value is a bare imaginary number, its text never has an `i` right after its leading number. */
  lemma {:induction false} FormatLeadNotImaginary(c: Complex)
    requires IsShortDecimal(c.re) && IsShortDecimal(c.im)
    requires !(c.re == 0.0 && c.im != 0.0)
    ensures !EndsWithI(ToComplexString(c), ScanAt(ToComplexString(c), 0))
  {
    if c.im == 0.0 {
      if c.re == 0.0 {
        RealTextZero();
      }
      ScanAlone(c.re);
    } else {
      ScanLeadingPart(c.re, PlusSign(c.im) + (RealText(c.im) + "i"));
      SecondPartStart(c.re, c.im);
    }
  }

  /** Where no `i` follows the leading number, the corrected parser reads what the original reads. */
  lemma {:induction false} FixedAgrees(s: string)
    requires !EndsWithI(s, ScanAt(s, 0))
    ensures ParseToComplex(s) == Success(ParseToComplexFixed(s))
  {
  }
}
