/**
 * Text of numbers as the core produces and reads it: `long.ToString()`, `double.ToString()`
 * in positional notation, and the numeric group `-?\d+\.?\d*` of the complex-number pattern
 * with the exact value of the digits it matches.
 */
module NumberText {
  import opened Wrappers
  import opened Euclid

  predicate IsDigit(c: char) { '0' <= c <= '9' }

  predicate AllDigits(s: string) { forall i :: 0 <= i < |s| ==> IsDigit(s[i]) }

  function DigitChar(d: nat): (c: char)
    requires d < 10
    ensures IsDigit(c)
  {
    ('0' as int + d) as char
  }

  /** The value of a digit character (not used on other characters). */
  function DigitValue(c: char): nat
  {
    if IsDigit(c) then c as int - '0' as int else 0
  }

  function Pow10(k: nat): (p: nat)
    ensures p > 0
  {
    if k == 0 then 1 else 10 * Pow10(k - 1)
  }

  /** The natural number that a string of decimal digits denotes. */
  function DigitsValue(s: string): nat
  {
    if s == [] then 0 else DigitsValue(s[..|s| - 1]) * 10 + DigitValue(s[|s| - 1])
  }

  /** The decimal text of a natural number, without leading zeros. */
  function NatText(n: nat): (s: string)
    ensures |s| > 0 && AllDigits(s)
    decreases n
  {
    (if n < 10 then "" else NatText(n / 10)) + [DigitChar(n % 10)]
  }

  /** Reading the text of `n` gives `n` back. */
  lemma {:induction false} NatTextValue(n: nat)
    ensures DigitsValue(NatText(n)) == n
    decreases n
  {
    var s := NatText(n);
    assert s[..|s| - 1] == if n < 10 then "" else NatText(n / 10);
    if n >= 10 {
      NatTextValue(n / 10);
    }
  }

  /** `long.ToString()`: a minus sign for negative numbers, then the digits. */
  function IntText(i: int): (s: string)
    ensures |s| > 0
    ensures s[0] == '-' <==> i < 0
    ensures forall c :: c in s ==> IsDigit(c) || c == '-'
  {
    if i < 0 then "-" + NatText(-i) else NatText(i)
  }

  /** Different integers have different texts. */
  lemma {:induction false} IntTextInjective(i: int, j: int)
    requires IntText(i) == IntText(j)
    ensures i == j
  {
    NatTextValue(Abs(i));
    NatTextValue(Abs(j));
    if i < 0 {
      assert j < 0;
      assert NatText(-i) == IntText(i)[1..];
      assert NatText(-j) == IntText(j)[1..];
    } else {
      assert j >= 0;
    }
  }

  /** How many fractional digits `double.ToString()` is modelled to write at most. */
  const MaxFractionDigits: nat := 15

  function Magnitude(x: real): (m: real)
    ensures m >= 0.0 && (m == x || m == -x)
  {
    if x < 0.0 then -x else x
  }

  predicate IsIntegral(x: real) { x.Floor as real == x }

  /** `m` with its point moved `k` places to the right: `m * 10^k`. */
  function Shifted(m: real, k: nat): real
  {
    if k == 0 then m else Shifted(m, k - 1) * 10.0
  }

  /** `v` with its point moved `k` places to the left: `v / 10^k`. */
  function Unshifted(v: real, k: nat): real
    decreases k
  {
    if k == 0 then v else Unshifted(v / 10.0, k - 1)
  }

  /** Moving the point of a whole number keeps it whole: `n * 10^k`. */
  lemma {:induction false} ShiftedWhole(n: int, k: nat)
    ensures Shifted(n as real, k) == (n * Pow10(k)) as real
  {
    if k > 0 {
      ShiftedWhole(n, k - 1);
      assert n * Pow10(k) == (n * Pow10(k - 1)) * 10;
    }
  }

  /** Moving the point distributes over a difference. */
  lemma {:induction false} ShiftedDifference(a: real, b: real, k: nat)
    ensures Shifted(a - b, k) == Shifted(a, k) - Shifted(b, k)
  {
    if k > 0 {
      ShiftedDifference(a, b, k - 1);
    }
  }

  /** Moving the point of a number in `[0, 1)` gives a number in `[0, 10^k)`. */
  lemma {:induction false} ShiftedBounds(f: real, k: nat)
    requires 0.0 <= f < 1.0
    ensures 0.0 <= Shifted(f, k) < Pow10(k) as real
  {
    if k > 0 {
      ShiftedBounds(f, k - 1);
    }
  }

  /** Moving the point back undoes moving it. */
  lemma {:induction false} ShiftBack(f: real, k: nat)
    ensures Unshifted(Shifted(f, k), k) == f
  {
    if k > 0 {
      ShiftedFirst(f, k);
      ShiftBack(f, k - 1);
    }
  }

  lemma {:induction false} ShiftedFirst(f: real, k: nat)
    requires k > 0
    ensures Shifted(f, k) / 10.0 == Shifted(f, k - 1)
  {
  }

  /** The fewest fractional digits, from `k` up to the maximum, that write `m` exactly. */
  function ScaleFrom(m: real, k: nat): (r: nat)
    requires k <= MaxFractionDigits
    ensures k <= r <= MaxFractionDigits
    decreases MaxFractionDigits - k
  {
    if IsIntegral(Shifted(m, k)) || k == MaxFractionDigits then k else ScaleFrom(m, k + 1)
  }

  /** The number of fractional digits `RealText(x)` writes. */
  function Scale(x: real): nat
  {
    ScaleFrom(Magnitude(x), 0)
  }

  /**
   * `double.ToString()` writes `x` in positional notation, which `RealText` models: zero, or a
   * magnitude from 0.0001 up to but not including 10^15. Outside that range it writes an exponent,
   * such as `1E-05`, which `RealText` does not model.
   */
  predicate PlainNotation(x: real)
  {
    x == 0.0 || 0.0001 <= Magnitude(x) < 1000000000000000.0
  }

  /** `x` is written exactly: its decimal expansion ends within `MaxFractionDigits` digits. */
  predicate IsShortDecimal(x: real)
  {
    IsIntegral(Shifted(Magnitude(x), Scale(x)))
  }

  /** `k` digits for the low part of `r`, with leading zeros. */
  function FixedDigits(r: nat, k: nat): (s: string)
    ensures |s| == k && AllDigits(s)
  {
    if k == 0 then "" else FixedDigits(r / 10, k - 1) + [DigitChar(r % 10)]
  }

  /** A number below `10^k` is written exactly by its `k` digits. */
  lemma {:induction false} FixedDigitsValue(r: nat, k: nat)
    requires r < Pow10(k)
    ensures DigitsValue(FixedDigits(r, k)) == r
  {
    if k > 0 {
      var s := FixedDigits(r, k);
      assert s[..k - 1] == FixedDigits(r / 10, k - 1);
      QuotientBelow(r, k);
      FixedDigitsValue(r / 10, k - 1);
      DigitCharValue(r % 10);
    }
  }

  lemma {:induction false} QuotientBelow(r: nat, k: nat)
    requires k > 0 && r < Pow10(k)
    ensures r / 10 < Pow10(k - 1)
  {
  }

  lemma {:induction false} DigitCharValue(d: nat)
    requires d < 10
    ensures DigitValue(DigitChar(d)) == d
  {
  }

  /** The part of `m` after the point, scaled by `10^k` and cut to a whole number. */
  function ScaledFraction(m: real, k: nat): (r: nat)
    requires m >= 0.0
    ensures r < Pow10(k)
  {
    FractionBounds(m - m.Floor as real, k);
    Shifted(m - m.Floor as real, k).Floor
  }

  lemma {:induction false} FractionBounds(f: real, k: nat)
    requires 0.0 <= f < 1.0
    ensures 0 <= Shifted(f, k).Floor < Pow10(k)
  {
    ShiftedBounds(f, k);
  }

  /** The digits before the point. */
  function WholePart(m: real): nat
    requires m >= 0.0
  {
    m.Floor
  }

  /** The `k` digits after the point when `m` is written with `k` fractional digits. */
  function FractionAt(m: real, k: nat): (f: string)
    requires m >= 0.0
    ensures |f| == k && AllDigits(f)
  {
    FixedDigits(ScaledFraction(m, k), k)
  }

  /** A sign, whole digits, and a point with fractional digits unless there are none. */
  function DecimalText(negative: bool, whole: nat, fraction: string): (s: string)
    requires AllDigits(fraction)
    ensures |s| > 0
    ensures s[0] == '-' <==> negative
  {
    SignText(negative) + NatText(whole) + PointText(fraction)
  }

  /** The characters of a number written out: digits, a minus sign and a point. */
  predicate NumberChar(c: char) { IsDigit(c) || c == '-' || c == '.' }

  lemma {:induction false} DecimalTextChars(negative: bool, whole: nat, fraction: string)
    requires AllDigits(fraction)
    ensures forall c :: c in DecimalText(negative, whole, fraction) ==> NumberChar(c)
  {
    var t := PointText(fraction);
    assert forall c :: c in t ==> IsDigit(c) || c == '.';
  }

  function SignText(negative: bool): string
  {
    if negative then "-" else ""
  }

  function PointText(fraction: string): string
  {
    if fraction == "" then "" else "." + fraction
  }

  /** The value a sign, whole part and fractional digits denote. */
  function DecimalValue(negative: bool, whole: nat, fraction: string): real
  {
    var m := whole as real + Unshifted(DigitsValue(fraction) as real, |fraction|);
    if negative then -m else m
  }

  /**
   * `double.ToString()` in positional notation: a minus sign for negative numbers, the whole
   * part, and when the number is not whole a point and the fewest fractional digits that write it
   * (cut after `MaxFractionDigits` digits).
   */
  function RealText(x: real): (s: string)
    ensures |s| > 0
    ensures s[0] == '-' <==> x < 0.0
  {
    DecimalText(x < 0.0, WholePart(Magnitude(x)), FractionAt(Magnitude(x), Scale(x)))
  }

  /** A real number is written with digits, a minus sign and a point only. */
  lemma {:induction false} RealTextChars(x: real)
    ensures forall c :: c in RealText(x) ==> NumberChar(c)
  {
    DecimalTextChars(x < 0.0, WholePart(Magnitude(x)), FractionAt(Magnitude(x), Scale(x)));
  }

  /** Moving the point keeps the part after the point whole when it keeps the number whole. */
  lemma {:induction false} FractionExact(m: real, k: nat)
    requires m >= 0.0 && IsIntegral(Shifted(m, k))
    ensures IsIntegral(Shifted(m - m.Floor as real, k))
  {
    var w := m.Floor;
    ShiftedDifference(m, w as real, k);
    ShiftedWhole(w, k);
    var n := Shifted(m, k).Floor - w * Pow10(k);
    assert Shifted(m - m.Floor as real, k) == n as real;
  }

  /** A whole part and the digits of the scaled fraction denote the number they were taken from. */
  lemma {:induction false} DecimalOfParts(m: real, f: string, r: nat, k: nat)
    requires m >= 0.0 && |f| == k && DigitsValue(f) == r
    requires r as real == Shifted(m - m.Floor as real, k)
    ensures DecimalValue(false, WholePart(m), f) == m
  {
    ShiftBack(m - m.Floor as real, k);
  }

  /** Written with enough fractional digits, the digits denote the magnitude exactly. */
  lemma {:induction false} DenotesAt(m: real, k: nat)
    requires m >= 0.0 && IsIntegral(Shifted(m, k))
    ensures DecimalValue(false, WholePart(m), FractionAt(m, k)) == m
  {
    FractionExact(m, k);
    ScaledFractionExact(m, k);
    FixedDigitsValue(ScaledFraction(m, k), k);
    DecimalOfParts(m, FractionAt(m, k), ScaledFraction(m, k), k);
  }

  /** The scaled fraction is exact when moving the point makes the fraction whole. */
  lemma {:induction false} ScaledFractionExact(m: real, k: nat)
    requires m >= 0.0 && IsIntegral(Shifted(m - m.Floor as real, k))
    ensures ScaledFraction(m, k) as real == Shifted(m - m.Floor as real, k)
  {
  }

  /** The digits `RealText` writes denote the number exactly when it is a short decimal. */
  lemma {:induction false} RealTextDenotes(x: real)
    requires IsShortDecimal(x)
    ensures DecimalValue(x < 0.0, WholePart(Magnitude(x)), FractionAt(Magnitude(x), Scale(x))) == x
  {
    DenotesAt(Magnitude(x), Scale(x));
  }

  /** How many digits follow position `i` of `s`. */
  function DigitsFrom(s: string, i: nat): (n: nat)
    requires i <= |s|
    ensures i + n <= |s|
    decreases |s| - i
  {
    if i < |s| && IsDigit(s[i]) then 1 + DigitsFrom(s, i + 1) else 0
  }

  /** A run of exactly `k` digits at `i` is read to its end. */
  lemma {:induction false} DigitsFromOf(s: string, i: nat, k: nat)
    requires i + k <= |s|
    requires forall j :: i <= j < i + k ==> IsDigit(s[j])
    requires i + k == |s| || !IsDigit(s[i + k])
    ensures DigitsFrom(s, i) == k
    decreases k
  {
    if k > 0 {
      DigitsFromOf(s, i + 1, k - 1);
    }
  }

  /** What the number group of the pattern matched: its sign, its digits either side of the point, and where it ends. */
  datatype Scanned = Scanned(negative: bool, whole: string, fraction: string, end: nat)

  /** The exact value of the matched text (`double.Parse` of it). */
  function ScannedValue(sc: Scanned): real
  {
    DecimalValue(sc.negative, DigitsValue(sc.whole), sc.fraction)
  }

  /** Whether position `i` of `s` holds the digit, or the minus sign and digit, that the group needs. */
  predicate StartsNumberAt(s: string, i: nat)
    requires i <= |s|
  {
    (i < |s| && IsDigit(s[i])) || (i + 1 < |s| && s[i] == '-' && IsDigit(s[i + 1]))
  }

  /** Where the optional point at position `p` leaves the scan. */
  function AfterPoint(s: string, p: nat): (q: nat)
    requires p <= |s|
    ensures q <= |s|
  {
    if p < |s| && s[p] == '.' then p + 1 else p
  }

  /**
   * The group `-?\d+\.?\d*` matched greedily from position `i` of `s`. `None` when no digit
   * follows the optional minus sign.
   */
  function ScanAt(s: string, i: nat): (r: Option<Scanned>)
    requires i <= |s|
    ensures r.Some? <==> StartsNumberAt(s, i)
    ensures r.Some? ==> i < r.value.end <= |s| && |r.value.whole| > 0
  {
    var start := if i < |s| && s[i] == '-' then i + 1 else i;
    var intLen := DigitsFrom(s, start);
    if intLen == 0 then None
    else
      var p := start + intLen;
      var q := AfterPoint(s, p);
      var fracLen := DigitsFrom(s, q);
      Some(Scanned(start > i, s[start..p], s[q..q + fracLen], q + fracLen))
  }

  /** What the group yields, given where its pieces lie and what they hold. */
  lemma {:induction false} ScanAtPieces(s: string, i: nat, start: nat, p: nat, q: nat, e: nat, negative: bool, w: string, fraction: string)
    requires i <= |s| && start == if i < |s| && s[i] == '-' then i + 1 else i
    requires (start > i) == negative
    requires |w| > 0 && p == start + |w| && p <= |s| && DigitsFrom(s, start) == |w| && s[start..p] == w
    requires q == AfterPoint(s, p) && e == q + |fraction| && e <= |s|
    requires DigitsFrom(s, q) == |fraction| && s[q..e] == fraction
    ensures ScanAt(s, i) == Some(Scanned(negative, w, fraction, e))
  {
  }

  /** The characters of a text written at position `i` of `s`. */
  predicate PlacedAt(s: string, i: nat, t: string)
  {
    i + |t| <= |s| && forall j :: i <= j < i + |t| ==> s[j] == t[j - i]
  }

  /** Position `e` of `s` ends a number: the text ends there, or a character that is neither a digit nor a point follows. */
  predicate EndsNumber(s: string, e: nat)
  {
    e <= |s| && (e == |s| || !(IsDigit(s[e]) || s[e] == '.'))
  }

  lemma {:induction false} PlacedChar(s: string, i: nat, t: string, k: nat)
    requires PlacedAt(s, i, t) && k < |t|
    ensures s[i + k] == t[k]
  {
  }

  /** The characters of a placed digit string are digits. */
  lemma {:induction false} PlacedDigits(s: string, i: nat, t: string)
    requires PlacedAt(s, i, t) && AllDigits(t)
    ensures forall j :: i <= j < i + |t| ==> IsDigit(s[j])
  {
    forall j | i <= j < i + |t| ensures IsDigit(s[j]) {
      PlacedChar(s, i, t, j - i);
    }
  }

  /** The slice of `s` holding a placed text is that text. */
  lemma {:induction false} PlacedSlice(s: string, i: nat, t: string)
    requires PlacedAt(s, i, t)
    ensures s[i..i + |t|] == t
  {
  }

  /** A placed concatenation places both of its parts. */
  lemma {:induction false} PlacedSplit(s: string, i: nat, a: string, b: string)
    requires PlacedAt(s, i, a + b)
    ensures PlacedAt(s, i, a) && PlacedAt(s, i + |a|, b)
  {
    forall k | 0 <= k < |a| ensures s[i + k] == a[k] {
      PlacedChar(s, i, a + b, k);
    }
    forall k | 0 <= k < |b| ensures s[i + |a| + k] == b[k] {
      PlacedChar(s, i, a + b, |a| + k);
    }
  }

  /** A placed run of digits that nothing else continues is read to its end, and the slice holding it is that run. */
  lemma {:induction false} DigitsPlaced(s: string, i: nat, d: string, e: nat)
    requires PlacedAt(s, i, d) && AllDigits(d)
    requires e == i + |d| && (e == |s| || !IsDigit(s[e]))
    ensures DigitsFrom(s, i) == |d| && s[i..e] == d
  {
    PlacedDigits(s, i, d);
    DigitsFromOf(s, i, |d|);
    PlacedSlice(s, i, d);
  }

  /** The fraction of a number placed at `p`: the point is skipped and its digits are read to their end. */
  lemma {:induction false} ScanFraction(s: string, p: nat, fraction: string, e: nat)
    requires AllDigits(fraction)
    requires e == p + |PointText(fraction)|
    requires PlacedAt(s, p, PointText(fraction)) && EndsNumber(s, e)
    ensures AfterPoint(s, p) + |fraction| == e
    ensures DigitsFrom(s, AfterPoint(s, p)) == |fraction|
    ensures s[AfterPoint(s, p)..e] == fraction
  {
    if fraction != "" {
      PointPlaced(s, p, fraction);
      DigitsPlaced(s, p + 1, fraction, e);
    } else {
      DigitsFromOf(s, p, 0);
    }
  }

  /** A placed point is skipped, and what follows it is placed right after it. */
  lemma {:induction false} PointPlaced(s: string, p: nat, fraction: string)
    requires fraction != "" && PlacedAt(s, p, PointText(fraction))
    ensures AfterPoint(s, p) == p + 1 && PlacedAt(s, p + 1, fraction)
  {
    PlacedChar(s, p, PointText(fraction), 0);
    PlacedSplit(s, p, ".", fraction);
  }

  /** The three parts of a placed concatenation are placed one after the other, at `i`, `j` and `k`. */
  lemma {:induction false} PlacedThree(s: string, i: nat, j: nat, k: nat, a: string, b: string, c: string)
    requires j == i + |a| && k == j + |b|
    requires PlacedAt(s, i, a + b + c)
    ensures PlacedAt(s, i, a) && PlacedAt(s, j, b) && PlacedAt(s, k, c)
  {
    PlacedSplit(s, i, a + b, c);
    PlacedSplit(s, i, a, b);
  }

  /** The group skips a written minus sign, and only a written one, before digits. */
  lemma {:induction false} SignPlaced(s: string, i: nat, start: nat, negative: bool, w: string)
    requires |w| > 0 && IsDigit(w[0])
    requires start == i + |SignText(negative)|
    requires PlacedAt(s, i, SignText(negative)) && PlacedAt(s, start, w)
    ensures start == if i < |s| && s[i] == '-' then i + 1 else i
  {
    PlacedChar(s, start, w, 0);
    if negative {
      PlacedChar(s, i, SignText(negative), 0);
    }
  }

  /** What follows the whole digits of a number is not a digit. */
  lemma {:induction false} WholeEnds(s: string, p: nat, fraction: string, e: nat)
    requires e == p + |PointText(fraction)|
    requires PlacedAt(s, p, PointText(fraction)) && EndsNumber(s, e)
    ensures p == |s| || !IsDigit(s[p])
  {
    if fraction != "" {
      PlacedChar(s, p, PointText(fraction), 0);
    }
  }

  /** The sign and the whole digits of a number written at position `i`. */
  lemma {:induction false} WholePlaced(s: string, i: nat, start: nat, p: nat, e: nat, negative: bool, w: string, fraction: string)
    requires AllDigits(w) && |w| > 0
    requires start == i + |SignText(negative)| && p == start + |w| && e == p + |PointText(fraction)|
    requires PlacedAt(s, i, SignText(negative)) && PlacedAt(s, start, w)
    requires PlacedAt(s, p, PointText(fraction)) && EndsNumber(s, e)
    ensures start == (if i < |s| && s[i] == '-' then i + 1 else i)
    ensures p <= |s| && DigitsFrom(s, start) == |w| && s[start..p] == w
  {
    SignPlaced(s, i, start, negative, w);
    WholeEnds(s, p, fraction, e);
    DigitsPlaced(s, start, w, p);
  }

  /** A number written at position `i` and not followed by a digit or a point is read to its end. */
  lemma {:induction false} ScanPlaced(s: string, i: nat, start: nat, p: nat, e: nat, negative: bool, w: string, fraction: string)
    requires AllDigits(w) && |w| > 0 && AllDigits(fraction)
    requires start == i + |SignText(negative)| && p == start + |w| && e == p + |PointText(fraction)|
    requires PlacedAt(s, i, SignText(negative)) && PlacedAt(s, start, w)
    requires PlacedAt(s, p, PointText(fraction)) && EndsNumber(s, e)
    ensures ScanAt(s, i) == Some(Scanned(negative, w, fraction, e))
  {
    WholePlaced(s, i, start, p, e, negative, w, fraction);
    ScanFraction(s, p, fraction, e);
    ScanAtPieces(s, i, start, p, AfterPoint(s, p), e, negative, w, fraction);
  }

  /** A number text placed at `i` and not continued is read to its end. */
  lemma {:induction false} ScanTextAt(s: string, i: nat, t: string, negative: bool, w: string, fraction: string)
    requires AllDigits(w) && |w| > 0 && AllDigits(fraction)
    requires t == SignText(negative) + w + PointText(fraction)
    requires PlacedAt(s, i, t) && EndsNumber(s, i + |t|)
    ensures ScanAt(s, i).Some? && ScanAt(s, i).value.end == i + |t|
    ensures ScannedValue(ScanAt(s, i).value) == DecimalValue(negative, DigitsValue(w), fraction)
  {
    var start := i + |SignText(negative)|;
    var p := start + |w|;
    var e := i + |t|;
    PlacedThree(s, i, start, p, SignText(negative), w, PointText(fraction));
    ScanPlaced(s, i, start, p, e, negative, w, fraction);
  }

  /** Reading back the text of a short decimal gives the number, and the group stops where the text does. */
  lemma {:induction false} ScanRealText(s: string, i: nat, x: real)
    requires IsShortDecimal(x)
    requires PlacedAt(s, i, RealText(x)) && EndsNumber(s, i + |RealText(x)|)
    ensures ScanAt(s, i).Some? && ScanAt(s, i).value.end == i + |RealText(x)|
    ensures ScannedValue(ScanAt(s, i).value) == x
  {
    var negative, whole, fraction := x < 0.0, WholePart(Magnitude(x)), FractionAt(Magnitude(x), Scale(x));
    ScanTextAt(s, i, RealText(x), negative, NatText(whole), fraction);
    NatTextValue(whole);
    RealTextDenotes(x);
  }

  /** A text is placed at the start of anything it begins, and a number there ends where the next character allows. */
  lemma {:induction false} PlacedFront(t: string, z: string)
    requires z == [] || !(IsDigit(z[0]) || z[0] == '.')
    ensures PlacedAt(t + z, 0, t) && EndsNumber(t + z, |t|)
  {
    if z != [] {
      assert (t + z)[|t|] == z[0];
    }
  }

  /** A text is placed at the start of itself, and ends there. */
  lemma {:induction false} PlacedWhole(t: string)
    ensures PlacedAt(t, 0, t) && EndsNumber(t, |t|)
  {
  }

  /** The digits counted after a prefix are those counted in what follows it. */
  lemma {:induction false} DigitsAfter(a: string, u: string, s: string, j: nat)
    requires s == a + u && j <= |u|
    ensures DigitsFrom(s, |a| + j) == DigitsFrom(u, j)
    decreases |u| - j
  {
    if j < |u| {
      assert s[|a| + j] == u[j];
      DigitsAfter(a, u, s, j + 1);
    }
  }

  /** After a prefix, the group starts its digits where it would without the prefix, shifted. */
  lemma {:induction false} StartAfter(a: string, u: string, s: string, k: nat, i: nat)
    requires s == a + u && k <= |u| && i == |a| + k
    ensures StartsNumberAt(s, i) == StartsNumberAt(u, k)
    ensures (if i < |s| && s[i] == '-' then i + 1 else i) == |a| + (if k < |u| && u[k] == '-' then k + 1 else k)
  {
    if k < |u| {
      assert s[i] == u[k];
    }
    if k + 1 < |u| {
      assert s[i + 1] == u[k + 1];
    }
  }

  /** After a prefix, the optional point is skipped where it would be without the prefix, shifted. */
  lemma {:induction false} PointAfter(a: string, u: string, s: string, p: nat)
    requires s == a + u && p <= |u|
    ensures AfterPoint(s, |a| + p) == |a| + AfterPoint(u, p)
  {
    if p < |u| {
      assert s[|a| + p] == u[p];
    }
  }

  /** A slice after a prefix is the same slice of what follows the prefix. */
  lemma {:induction false} SliceAfter(a: string, u: string, s: string, i: nat, j: nat)
    requires s == a + u && i <= j <= |u|
    ensures s[|a| + i..|a| + j] == u[i..j]
  {
    forall n | 0 <= n < j - i
      ensures s[|a| + i..|a| + j][n] == u[i..j][n]
    {
      assert s[|a| + i + n] == u[i + n];
    }
  }

  /** A group read at `k` of `u`, from its pieces, is read at `|a| + k` of `a + u` too, shifted. */
  lemma {:induction false} ScanShifted(a: string, u: string, s: string, k: nat, i: nat, start: nat, p: nat, q: nat, e: nat)
    requires s == a + u && i == |a| + k
    requires k <= |u| && start == if k < |u| && u[k] == '-' then k + 1 else k
    requires p == start + DigitsFrom(u, start) && p > start
    requires q == AfterPoint(u, p) && e == q + DigitsFrom(u, q)
    ensures ScanAt(s, i) == Some(Scanned(start > k, u[start..p], u[q..e], |a| + e))
  {
    StartAfter(a, u, s, k, i);
    DigitsAfter(a, u, s, start);
    PointAfter(a, u, s, p);
    DigitsAfter(a, u, s, q);
    SliceAfter(a, u, s, start, p);
    SliceAfter(a, u, s, q, e);
    ScanAtPieces(s, i, |a| + start, |a| + p, |a| + q, |a| + e, start > k, u[start..p], u[q..e]);
  }

  /** The group looks only forward: read after a prefix, it reads what it reads without the prefix, shifted. */
  lemma {:induction false} ScanAfter(a: string, u: string, s: string, k: nat, i: nat)
    requires s == a + u && k <= |u| && i == |a| + k
    ensures ScanAt(s, i).Some? == ScanAt(u, k).Some?
    ensures ScanAt(u, k).Some? ==> ScanAt(s, i).value.end == |a| + ScanAt(u, k).value.end
    ensures ScanAt(u, k).Some? ==> ScannedValue(ScanAt(s, i).value) == ScannedValue(ScanAt(u, k).value)
  {
    StartAfter(a, u, s, k, i);
    if ScanAt(u, k).Some? {
      var start := if k < |u| && u[k] == '-' then k + 1 else k;
      var p := start + DigitsFrom(u, start);
      var q := AfterPoint(u, p);
      var e := q + DigitsFrom(u, q);
      ScanAtPieces(u, k, start, p, q, e, start > k, u[start..p], u[q..e]);
      ScanShifted(a, u, s, k, i, start, p, q, e);
    }
  }

  /** Zero is written `0`. */
  lemma {:induction false} RealTextZero()
    ensures RealText(0.0) == "0"
  {
    assert Scale(0.0) == 0;
    assert FractionAt(0.0, 0) == "";
    assert NatText(0) == "0";
  }
  /** A whole number is written without a point: its sign and its digits. */
  lemma {:induction false} WholeText(x: real, n: nat)
    requires Magnitude(x) == n as real
    ensures Scale(x) == 0 && IsShortDecimal(x)
    ensures RealText(x) == SignText(x < 0.0) + NatText(n)
  {
    assert IsIntegral(Shifted(n as real, 0));
    assert FractionAt(n as real, 0) == "";
  }

  /** A number with one decimal place is written with one fractional digit. */
  lemma {:induction false} TenthsText(x: real, n: nat, d: nat)
    requires 0 < d < 10 && Magnitude(x) == n as real + d as real / 10.0
    ensures Scale(x) == 1 && IsShortDecimal(x)
    ensures RealText(x) == SignText(x < 0.0) + NatText(n) + "." + [DigitChar(d)]
  {
    var m := Magnitude(x);
    assert m.Floor == n;
    assert !IsIntegral(Shifted(m, 0));
    assert Shifted(m, 1) == (10 * n + d) as real;
    assert ScaleFrom(m, 1) == 1;
    assert ScaledFraction(m, 1) == d by {
      assert Shifted(m - m.Floor as real, 1) == d as real;
    }
    assert FractionAt(m, 1) == [DigitChar(d)];
  }
  /** 1.414, with either sign, is written with its three fractional digits. */
  lemma {:induction false} ThousandthsText(x: real)
    requires x == 1.414 || x == -1.414
    ensures Scale(x) == 3 && IsShortDecimal(x)
    ensures RealText(x) == SignText(x < 0.0) + NatText(1) + ".414"
  {
    var m := Magnitude(x);
    assert m == 1.414 && m.Floor == 1;
    assert Shifted(m, 1) == 14.14 && Shifted(m, 2) == 141.4 && Shifted(m, 3) == 1414.0;
    assert !IsIntegral(Shifted(m, 0)) && !IsIntegral(Shifted(m, 1)) && !IsIntegral(Shifted(m, 2));
    assert ScaleFrom(m, 3) == 3;
    assert ScaledFraction(m, 3) == 414 by {
      assert Shifted(m - m.Floor as real, 1) == 4.14;
      assert Shifted(m - m.Floor as real, 2) == 41.4;
      assert Shifted(m - m.Floor as real, 3) == 414.0;
    }
    assert FixedDigits(414, 3) == "414" by {
      assert FixedDigits(4, 1) == "4" && FixedDigits(41, 2) == "41";
    }
  }
}
