/**
 * `TJA_Supporter.Lib.Score`: a chart as a list of measures that grows at its end, its combo and
 * length, and its text, in which each measure's line is preceded by the BPM and beat directives
 * that change at it.
 */
module Scores {
  import opened Wrappers
  import opened Complexes
  import opened NumberText
  import opened Fractions
  import opened Notes
  import opened Measures
  import LibMathHelper

  // ---------------------------------------------------------------- sums

  /** `Combo`: the measures' combos added up. */
  function ComboSum(ms: seq<Measure>): nat
    decreases |ms|
  {
    if |ms| == 0 then 0 else ComboSum(ms[..|ms| - 1]) + ComboOf(ms[|ms| - 1].notes)
  }

  /** Every measure has a finite length. */
  predicate AllTimed(ms: seq<Measure>)
  {
    forall i :: 0 <= i < |ms| ==> Timed(ms[i])
  }

  /** `Length`: the measures' lengths added up. */
  function LengthSum(ms: seq<Measure>): real
    requires AllTimed(ms)
    decreases |ms|
  {
    if |ms| == 0 then 0.0 else LengthSum(ms[..|ms| - 1]) + Length(ms[|ms| - 1])
  }

  /** The sums of some measures and one more. */
  lemma {:induction false} SumsUnfold(ms: seq<Measure>, p: seq<Measure>, last: Measure)
    requires ms == p + [last]
    ensures ComboSum(ms) == ComboSum(p) + ComboOf(last.notes)
    ensures AllTimed(ms) ==> AllTimed(p) && Timed(last) && LengthSum(ms) == LengthSum(p) + Length(last)
  {
    assert ms[..|ms| - 1] == p && ms[|ms| - 1] == last;
    if AllTimed(ms) {
      assert forall i :: 0 <= i < |p| ==> p[i] == ms[i];
    }
  }

  /** The combo and the length of a list split in two are those of the parts added up. */
  lemma {:induction false} SumsAppend(a: seq<Measure>, b: seq<Measure>, ab: seq<Measure>)
    requires ab == a + b
    ensures ComboSum(ab) == ComboSum(a) + ComboSum(b)
    ensures AllTimed(ab) ==> AllTimed(a) && AllTimed(b) && LengthSum(ab) == LengthSum(a) + LengthSum(b)
    decreases |b|
  {
    if |b| == 0 {
      assert ab == a;
    } else {
      var b' := b[..|b| - 1];
      var last := b[|b| - 1];
      var ab' := a + b';
      assert ab == ab' + [last] && b == b' + [last];
      SumsUnfold(ab, ab', last);
      SumsUnfold(b, b', last);
      SumsAppend(a, b', ab');
      if AllTimed(ab) {
        assert forall i :: 0 <= i < |b| ==> b[i] == ab[|a| + i];
      }
    }
  }

  /** The combo of a list never exceeds the number of its notes, counted measure by measure. */
  lemma {:induction false} ComboSumBound(ms: seq<Measure>, counts: seq<nat>)
    requires |counts| == |ms| && forall i :: 0 <= i < |ms| ==> counts[i] == |ms[i].notes|
    ensures ComboSum(ms) <= NatSum(counts)
    decreases |ms|
  {
    if |ms| > 0 {
      ComboSumBound(ms[..|ms| - 1], counts[..|counts| - 1]);
    }
  }

  /** The sum of some counts. */
  function NatSum(counts: seq<nat>): nat
    decreases |counts|
  {
    if |counts| == 0 then 0 else NatSum(counts[..|counts| - 1]) + counts[|counts| - 1]
  }

  // ---------------------------------------------------------------- text

  /** Every beat has a finite value, so that `ToString` can compare them. */
  predicate BeatsDefined(ms: seq<Measure>)
  {
    forall i :: 0 <= i < |ms| ==> ms[i].beat.denominator != 0
  }

  /** The BPM `ToString` holds when it reaches measure `i`: none (negative infinity) at the first, else the previous measure's. */
  function BpmBefore(ms: seq<Measure>, i: nat): Option<real>
    requires i <= |ms|
  {
    if i == 0 then Option.None else Some(ms[i - 1].bpm)
  }

  /** The beat value `ToString` holds when it reaches measure `i`: that of `0/1` at the first, else the previous measure's. */
  function BeatBefore(ms: seq<Measure>, i: nat): real
    requires i <= |ms| && BeatsDefined(ms)
  {
    if i == 0 then Value(Fraction(0, 1)) else Value(ms[i - 1].beat)
  }

  /** The scroll `ToString` carries into measure `i`: 0 at the first, else the last scroll of the previous measure. */
  function ScrollBefore(ms: seq<Measure>, i: nat): Complex
    requires i <= |ms|
  {
    if i == 0 then Zero else TrackedAfter(ms[i - 1].notes, Zero)
  }

  /** A line `ToString` appends: a BPM directive, a beat directive, or a measure's own line with the scroll carried into it. */
  datatype Line = BpmChange(bpm: real) | BeatChange(beat: Fraction) | Bar(notes: seq<NoteValue>, carry: Complex)

  /**
   * The text `AppendLine` writes for a line: the directive, or the measure's text as
   * `Measure.ToString(beforeScroll)` writes it, and a line break.
   */
  function LineText(l: Line): (s: string)
    ensures |s| > 0 && s[|s| - 1] == '\n'
  {
    match l
    case BpmChange(b) => "#BPMCHANGE " + RealText(b) + NewLine
    case BeatChange(f) => "#MEASURE " + Fractions.ToString(f) + NewLine
    case Bar(ns, c) => WrittenText(ns, c) + NewLine
  }

  /** The text of a list of lines: their texts one after the other. */
  function Render(ls: seq<Line>): string
    decreases |ls|
  {
    if |ls| == 0 then "" else Render(ls[..|ls| - 1]) + LineText(ls[|ls| - 1])
  }

  /** The lines `ToString` appends for measure `i`: the directives that change there, then the measure's line. */
  function BlockLines(ms: seq<Measure>, i: nat): (ls: seq<Line>)
    requires i < |ms| && BeatsDefined(ms)
    ensures 1 <= |ls| <= 3 && ls[|ls| - 1] == Bar(ms[i].notes, ScrollBefore(ms, i))
  {
    Part(BpmBefore(ms, i) != Some(ms[i].bpm), BpmChange(ms[i].bpm))
      + Part(BeatBefore(ms, i) != Value(ms[i].beat), BeatChange(ms[i].beat))
      + [Bar(ms[i].notes, ScrollBefore(ms, i))]
  }

  /** A line written only when `c` holds. */
  function Part(c: bool, l: Line): seq<Line>
  {
    if c then [l] else []
  }

  /** Appending a line written only when `c` holds appends its text only when `c` holds. */
  lemma {:induction false} RenderPart(ls: seq<Line>, c: bool, l: Line)
    ensures Render(ls + Part(c, l)) == Render(ls) + (if c then LineText(l) else "")
  {
    if c {
      RenderUnfold(ls + [l], ls, l);
    } else {
      assert ls + [] == ls;
    }
  }

  /**
   * The lines of `ToString()`: the blocks of the measures in order; reaching the end of a measure
   * with no notes makes `Notes.Last()` raise.
   */
  function ScoreLines(ms: seq<Measure>): (r: Result<seq<Line>>)
    requires BeatsDefined(ms)
    ensures r.Failure? ==> r.error == InvalidOperation
    decreases |ms|
  {
    if |ms| == 0 then Success([])
    else
      var p := ms[..|ms| - 1];
      assert BeatsDefined(p) by {
        assert forall i :: 0 <= i < |p| ==> p[i] == ms[i];
      }
      match ScoreLines(p)
      case Failure(e) => Failure(e)
      case Success(ls) =>
        if |ms[|ms| - 1].notes| == 0 then Failure(InvalidOperation) else Success(ls + BlockLines(ms, |ms| - 1))
  }

  /** `ToString()`: the text of its lines. */
  function ScoreText(ms: seq<Measure>): (r: Result<string>)
    requires BeatsDefined(ms)
    ensures r.Failure? <==> ScoreLines(ms).Failure?
    ensures r.Failure? ==> r.error == InvalidOperation
  {
    match ScoreLines(ms)
    case Failure(e) => Failure(e)
    case Success(ls) => Success(Render(ls))
  }

  /** The blocks of the measures before `k` are the blocks of the prefix. */
  lemma {:induction false} BlockOfPrefix(ms: seq<Measure>, p: seq<Measure>, i: nat)
    requires BeatsDefined(ms) && |p| <= |ms| && p == ms[..|p|] && i < |p|
    ensures BeatsDefined(p)
    ensures BlockLines(p, i) == BlockLines(ms, i)
  {
    assert forall j :: 0 <= j < |p| ==> p[j] == ms[j];
  }

  /** The lines of some measures and one more: the new measure's block after the lines of the others. */
  lemma {:induction false} ScoreLinesUnfold(ms: seq<Measure>, p: seq<Measure>)
    requires |ms| > 0 && p == ms[..|ms| - 1] && BeatsDefined(ms)
    ensures BeatsDefined(p)
    ensures ScoreLines(ms) == if ScoreLines(p).Success? && |ms[|ms| - 1].notes| > 0
      then Success(ScoreLines(p).value + BlockLines(ms, |p|)) else Failure(InvalidOperation)
  {
    assert forall j :: 0 <= j < |p| ==> p[j] == ms[j];
  }

  /** The text succeeds exactly when every measure has a note. */
  lemma {:induction false} ScoreLinesSucceed(ms: seq<Measure>)
    requires BeatsDefined(ms)
    ensures ScoreLines(ms).Success? <==> forall i :: 0 <= i < |ms| ==> |ms[i].notes| > 0
    decreases |ms|
  {
    if |ms| > 0 {
      var p := ms[..|ms| - 1];
      SucceedUnfold(ms, p);
      ScoreLinesSucceed(p);
      assert forall j :: 0 <= j < |p| ==> p[j] == ms[j];
    }
  }

  lemma {:induction false} SucceedUnfold(ms: seq<Measure>, p: seq<Measure>)
    requires |ms| > 0 && p == ms[..|ms| - 1] && BeatsDefined(ms)
    ensures BeatsDefined(p)
    ensures ScoreLines(ms).Success? <==> ScoreLines(p).Success? && |ms[|ms| - 1].notes| > 0
  {
    ScoreLinesUnfold(ms, p);
  }

  /**
   * The measures are written in order, each once: the lines of the first `k + 1` measures are
   * those of the first `k` and then the block of measure `k`, and they begin the lines of the whole list.
   */
  lemma {:induction false} ScoreLinesPrefix(ms: seq<Measure>, k: nat)
    requires BeatsDefined(ms) && k < |ms| && ScoreLines(ms).Success?
    ensures BeatsDefined(ms[..k]) && BeatsDefined(ms[..k + 1])
    ensures ScoreLines(ms[..k]).Success? && ScoreLines(ms[..k + 1]).Success?
    ensures ScoreLines(ms[..k + 1]).value == ScoreLines(ms[..k]).value + BlockLines(ms, k)
    ensures ScoreLines(ms[..k + 1]).value <= ScoreLines(ms).value
    decreases |ms|
  {
    var p := ms[..|ms| - 1];
    ScoreLinesUnfold(ms, p);
    if k == |ms| - 1 {
      assert ms[..k + 1] == ms && ms[..k] == p;
    } else {
      ScoreLinesPrefix(p, k);
      SliceOfPrefix(ms, p, k);
      BlockOfPrefix(ms, p, k);
      PrefixExtend(ScoreLines(ms[..k + 1]).value, ScoreLines(p).value, BlockLines(ms, |p|));
    }
  }

  /** Slicing the measures before the last is slicing the whole list. */
  lemma {:induction false} SliceOfPrefix<T>(ms: seq<T>, p: seq<T>, k: nat)
    requires |ms| > 0 && p == ms[..|ms| - 1] && k < |p|
    ensures p[..k] == ms[..k] && p[..k + 1] == ms[..k + 1]
  {
  }

  /** A prefix of a list is a prefix of the list with more after it. */
  lemma {:induction false} PrefixExtend<T>(a: seq<T>, b: seq<T>, c: seq<T>)
    requires a <= b
    ensures a <= b + c
  {
    assert (b + c)[..|a|] == b[..|a|];
  }

  /** Every block after the first starts with a BPM directive exactly when the BPM differs from the previous measure's; the first always does. */
  lemma {:induction false} BlockBpmChange(ms: seq<Measure>, i: nat)
    requires BeatsDefined(ms) && i < |ms|
    ensures BlockLines(ms, i)[0].BpmChange? <==> i == 0 || ms[i].bpm != ms[i - 1].bpm
    ensures BlockLines(ms, i)[0].BpmChange? ==> BlockLines(ms, i)[0] == BpmChange(ms[i].bpm)
    ensures forall j :: 0 < j < |BlockLines(ms, i)| ==> !BlockLines(ms, i)[j].BpmChange?
  {
  }

  /** A block holds a beat directive, of its own beat, exactly when the beat's value differs from the previous one (`0/1` before the first). */
  lemma {:induction false} BlockBeatChange(ms: seq<Measure>, i: nat)
    requires BeatsDefined(ms) && i < |ms|
    ensures (exists j :: 0 <= j < |BlockLines(ms, i)| && BlockLines(ms, i)[j].BeatChange?)
      <==> Value(ms[i].beat) != (if i == 0 then 0.0 else Value(ms[i - 1].beat))
    ensures forall j :: 0 <= j < |BlockLines(ms, i)| && BlockLines(ms, i)[j].BeatChange? ==> BlockLines(ms, i)[j] == BeatChange(ms[i].beat)
  {
    var ls := BlockLines(ms, i);
    assert Value(Fraction(0, 1)) == 0.0;
    if Value(ms[i].beat) != BeatBefore(ms, i) {
      assert ls[|ls| - 2].BeatChange?;
    }
  }

  /** The scroll carried into a measure after the first is the scroll of the previous measure's last note. */
  lemma {:induction false} BlockCarry(ms: seq<Measure>, i: nat)
    requires BeatsDefined(ms) && i < |ms|
    ensures i == 0 ==> BlockLines(ms, i)[|BlockLines(ms, i)| - 1] == Bar(ms[0].notes, Zero)
    ensures 0 < i && |ms[i - 1].notes| > 0 ==>
      BlockLines(ms, i)[|BlockLines(ms, i)| - 1] == Bar(ms[i].notes, ms[i - 1].notes[|ms[i - 1].notes| - 1].scroll)
  {
  }

  /** The measure lines of a list of lines, in order. */
  function Bars(ls: seq<Line>): (bs: seq<Line>)
    ensures |bs| <= |ls| && forall j :: 0 <= j < |bs| ==> bs[j].Bar?
    decreases |ls|
  {
    if |ls| == 0 then [] else Bars(ls[..|ls| - 1]) + (if ls[|ls| - 1].Bar? then [ls[|ls| - 1]] else [])
  }

  lemma {:induction false} BarsAppend(a: seq<Line>, b: seq<Line>, ab: seq<Line>)
    requires ab == a + b
    ensures Bars(ab) == Bars(a) + Bars(b)
    decreases |b|
  {
    if |b| == 0 {
      assert ab == a;
    } else {
      var b' := b[..|b| - 1];
      var ab' := a + b';
      assert ab[..|ab| - 1] == ab' && ab[|ab| - 1] == b[|b| - 1];
      BarsAppend(a, b', ab');
    }
  }

  /** A block holds one measure line, its own. */
  lemma {:induction false} BlockBars(ms: seq<Measure>, i: nat)
    requires BeatsDefined(ms) && i < |ms|
    ensures Bars(BlockLines(ms, i)) == [Bar(ms[i].notes, ScrollBefore(ms, i))]
  {
    var ls := BlockLines(ms, i);
    var bar := Bar(ms[i].notes, ScrollBefore(ms, i));
    var dirs := ls[..|ls| - 1];
    assert ls == dirs + [bar];
    assert forall j :: 0 <= j < |dirs| ==> !dirs[j].Bar?;
    NoBars(dirs);
    BarsAppend(dirs, [bar], ls);
    assert [bar][..0] == [];
  }

  lemma {:induction false} NoBars(ls: seq<Line>)
    requires forall j :: 0 <= j < |ls| ==> !ls[j].Bar?
    ensures Bars(ls) == []
    decreases |ls|
  {
    if |ls| > 0 {
      NoBars(ls[..|ls| - 1]);
    }
  }

  /** Each measure's own line appears once, in list order, written with the scroll carried into it. */
  lemma {:induction false} ScoreBars(ms: seq<Measure>)
    requires BeatsDefined(ms) && ScoreLines(ms).Success?
    ensures |Bars(ScoreLines(ms).value)| == |ms|
    ensures forall k :: 0 <= k < |ms| ==> Bars(ScoreLines(ms).value)[k] == Bar(ms[k].notes, ScrollBefore(ms, k))
    decreases |ms|
  {
    if |ms| > 0 {
      var p := ms[..|ms| - 1];
      ScoreLinesUnfold(ms, p);
      ScoreBars(p);
      var a, ab := ScoreLines(p).value, ScoreLines(ms).value;
      var bar := Bar(ms[|p|].notes, ScrollBefore(ms, |p|));
      BarsAppend(a, BlockLines(ms, |p|), ab);
      BlockBars(ms, |p|);
      BarsStep(ms, p, Bars(a), Bars(ab));
    }
  }

  /** The measure lines of some measures and then the line of one more are the measure lines of all of them. */
  lemma {:induction false} BarsStep(ms: seq<Measure>, p: seq<Measure>, before: seq<Line>, bars: seq<Line>)
    requires |ms| > 0 && p == ms[..|ms| - 1]
    requires |before| == |p| && forall k :: 0 <= k < |p| ==> before[k] == Bar(p[k].notes, ScrollBefore(p, k))
    requires bars == before + [Bar(ms[|p|].notes, ScrollBefore(ms, |p|))]
    ensures |bars| == |ms| && forall k :: 0 <= k < |ms| ==> bars[k] == Bar(ms[k].notes, ScrollBefore(ms, k))
  {
    forall k | 0 <= k < |ms|
      ensures bars[k] == Bar(ms[k].notes, ScrollBefore(ms, k))
    {
      if k < |p| {
        assert bars[k] == before[k];
        ScrollOfPrefix(ms, p, k);
      }
    }
  }

  /** The scroll carried into a measure depends only on the measures before it. */
  lemma {:induction false} ScrollOfPrefix(ms: seq<Measure>, p: seq<Measure>, k: nat)
    requires |p| <= |ms| && p == ms[..|p|] && k < |p|
    ensures p[k] == ms[k] && ScrollBefore(p, k) == ScrollBefore(ms, k)
  {
    if k > 0 {
      assert p[k - 1] == ms[k - 1];
    }
  }

  /** Adding a measure that has notes extends the text: the old text, then the new measure's block. */
  lemma {:induction false} ScoreTextAppend(ms: seq<Measure>, m: Measure, all: seq<Measure>)
    requires all == ms + [m] && BeatsDefined(all) && |m.notes| > 0
    ensures BeatsDefined(ms)
    ensures ScoreText(all).Success? <==> ScoreText(ms).Success?
    ensures ScoreText(all).Success? ==> ScoreText(all).value == ScoreText(ms).value + Render(BlockLines(all, |ms|))
  {
    assert all[..|all| - 1] == ms;
    ScoreLinesUnfold(all, ms);
    if ScoreLines(ms).Success? {
      RenderAppend(ScoreLines(ms).value, BlockLines(all, |ms|), ScoreLines(all).value);
    }
  }

  /** A non-empty chart's text starts with the BPM directive of its first measure, whatever the BPM, since none is held before it. */
  lemma {:induction false} ScoreTextStartsWithBpm(ms: seq<Measure>)
    requires BeatsDefined(ms) && |ms| > 0 && ScoreText(ms).Success?
    ensures "#BPMCHANGE " + RealText(ms[0].bpm) + NewLine <= ScoreText(ms).value
  {
    ScoreLinesPrefix(ms, 0);
    assert ms[..0] == [];
    var ls := ScoreLines(ms).value;
    var first := BlockLines(ms, 0);
    assert ScoreLines(ms[..1]).value == first;
    var rest := ls[|first|..];
    PrefixSplit(first, ls);
    RenderAppend(first, rest, ls);
    BlockBpmChange(ms, 0);
    var head := BpmChange(ms[0].bpm);
    var tail := first[1..];
    PrefixSplit([head], first);
    RenderAppend([head], tail, first);
    RenderOne(head);
    AppendAssociates(LineText(head), Render(tail), Render(rest));
    PrefixOfAppend(LineText(head), Render(tail) + Render(rest), Render(ls));
  }

  /** A prefix and the rest make up the whole. */
  lemma {:induction false} PrefixSplit<T>(a: seq<T>, b: seq<T>)
    requires a <= b
    ensures b == a + b[|a|..]
  {
    assert b[..|a|] == a;
  }

  lemma {:induction false} PrefixOfAppend(a: string, b: string, ab: string)
    requires ab == a + b
    ensures a <= ab
  {
    assert ab[..|a|] == a;
  }

  /** The text of one line. */
  lemma {:induction false} RenderOne(l: Line)
    ensures Render([l]) == LineText(l)
  {
    assert [l][..0] == [];
  }

  /** The text of some lines and one more. */
  lemma {:induction false} RenderUnfold(ls: seq<Line>, p: seq<Line>, last: Line)
    requires ls == p + [last]
    ensures Render(ls) == Render(p) + LineText(last)
  {
    assert ls[..|ls| - 1] == p;
  }

  /** The text of two lists of lines is their texts one after the other. */
  lemma {:induction false} RenderAppend(a: seq<Line>, b: seq<Line>, ab: seq<Line>)
    requires ab == a + b
    ensures Render(ab) == Render(a) + Render(b)
    decreases |b|
  {
    if |b| == 0 {
      assert ab == a;
    } else {
      var b' := b[..|b| - 1];
      var ab' := a + b';
      var last := b[|b| - 1];
      assert ab == ab' + [last];
      RenderAppend(a, b', ab');
      RenderUnfold(ab, ab', last);
      AppendAssociates(Render(a), Render(b'), LineText(last));
    }
  }

  /**
   * The kinds of line are told apart by their text: a BPM directive starts `#B`, a beat directive
   * `#M`, and a measure's line with no `#` at all, but with an enum name or a line break.
   */
  lemma {:induction false} LineTextStart(l: Line)
    ensures |LineText(l)| >= 2
    ensures l.BpmChange? ==> LineText(l)[..2] == "#B"
    ensures l.BeatChange? ==> LineText(l)[..2] == "#M"
    ensures l.Bar? ==> LineText(l)[0] == '\n' || 'A' <= LineText(l)[0] <= 'Z'
  {
    match l
    case BpmChange(b) =>
      StartOfAppend("#BPMCHANGE ", RealText(b) + NewLine, LineText(l));
    case BeatChange(f) =>
      StartOfAppend("#MEASURE ", Fractions.ToString(f) + NewLine, LineText(l));
    case Bar(ns, c) =>
      WrittenTextShape(ns, c);
      StartOfAppend(WrittenText(ns, c), NewLine, LineText(l));
  }

  /** The first two characters of a concatenation whose first part has two. */
  lemma {:induction false} StartOfAppend(a: string, b: string, ab: string)
    requires ab == a + b && |a| >= 2
    ensures ab[..2] == a[..2]
  {
  }

  /** Beats of equal value, such as `4/8` after `2/4`, write no second `#MEASURE`. */
  lemma {:induction false} EqualBeatsExample(a: Measure, b: Measure)
    requires a.beat == Fraction(2, 4) && b.beat == Fraction(4, 8) && a.bpm == b.bpm
    ensures BeatsDefined([a, b]) && BlockLines([a, b], 1) == [Bar(b.notes, TrackedAfter(a.notes, Zero))]
    ensures BlockLines([a, b], 0) == [BpmChange(a.bpm), BeatChange(a.beat), Bar(a.notes, Zero)]
  {
    var ms := [a, b];
    assert BeatsDefined(ms);
    assert Value(Fraction(2, 4)) == 0.5 && Value(Fraction(4, 8)) == 0.5;
    assert Value(Fraction(0, 1)) == 0.0;
    assert BpmBefore(ms, 1) == Some(b.bpm) && BeatBefore(ms, 1) == Value(b.beat);
    assert BlockLines(ms, 1) == [] + [] + [Bar(b.notes, ScrollBefore(ms, 1))];
    assert BpmBefore(ms, 0) != Some(a.bpm) && BeatBefore(ms, 0) != Value(a.beat);
    assert BlockLines(ms, 0) == [BpmChange(a.bpm)] + [BeatChange(a.beat)] + [Bar(a.notes, Zero)];
  }

  /** A chart of one measure with notes: the BPM directive, the beat directive and the bar against scroll 0. */
  lemma {:induction false} OneMeasureText(m: Measure)
    requires m.beat.denominator != 0 && Value(m.beat) != 0.0 && |m.notes| > 0
    ensures BeatsDefined([m])
    ensures ScoreText([m]) == Success(LineText(BpmChange(m.bpm)) + LineText(BeatChange(m.beat)) + LineText(Bar(m.notes, Zero)))
  {
    var ms := [m];
    assert ms[..0] == [] && ms[..1] == ms;
    assert ScoreText(ms[..0]) == Success("");
    ScoreTextStep(ms, 0, "");
    var bpmLine, beatLine, bar := BpmChange(m.bpm), BeatChange(m.beat), Bar(m.notes, Zero);
    assert Written(BpmBefore(ms, 0) != Some(m.bpm), bpmLine) == LineText(bpmLine);
    assert Written(BeatBefore(ms, 0) != Value(m.beat), beatLine) == LineText(beatLine) by {
      assert Value(Fraction(0, 1)) == 0.0;
    }
    assert ScrollBefore(ms, 0) == Zero;
    EmptyLeft(LineText(bpmLine));
  }

  lemma {:induction false} EmptyLeft<T>(s: seq<T>)
    ensures [] + s == s
  {
  }

  /**
   * As written, a chart of one Dong at scroll 1 loses its note: the scroll carried into the first
   * measure is 0, so the note is replaced by the `#SCROLL 1` directive and the bar is a bare comma.
   */
  lemma {:induction false} ScoreDropsFirstNote(m: Measure, bpmLine: string, beatLine: string, bar: string)
    requires m == Measure([NoteValue(Dong, One)], 120.0, Fraction(4, 4))
    requires bpmLine == "#BPMCHANGE 120\n" && beatLine == "#MEASURE 4/4\n" && bar == "\n#SCROLL 1\n,\n"
    ensures BeatsDefined([m]) && ScoreText([m]) == Success(bpmLine + beatLine + bar)
  {
    assert Value(m.beat) == 1.0;
    OneMeasureText(m);
    BpmLineExample(bpmLine);
    BeatLineExample(beatLine);
    DroppedBarExample(m.notes, bar);
  }

  lemma {:induction false} BpmLineExample(t: string)
    requires t == "#BPMCHANGE 120\n"
    ensures LineText(BpmChange(120.0)) == t
  {
    WholeText(120.0, 120);
    assert NatText(120) == "120";
  }

  lemma {:induction false} BeatLineExample(t: string)
    requires t == "#MEASURE 4/4\n"
    ensures LineText(BeatChange(Fraction(4, 4))) == t
  {
    Fractions.ToStringExamples();
  }

  lemma {:induction false} DroppedBarExample(ns: seq<NoteValue>, t: string)
    requires ns == [NoteValue(Dong, One)] && t == "\n#SCROLL 1\n,\n"
    ensures LineText(Bar(ns, Zero)) == t
  {
    assert LibMathHelper.ToComplexString(One) == "1" by {
      LibMathHelper.ComplexStringExamples();
    }
    var line := ScrollLine(One);
    assert line == "\n#SCROLL 1\n";
    WrittenDropsNote(One, Zero);
    assert LineText(Bar(ns, Zero)) == line + "," + NewLine;
  }

  // ---------------------------------------------------------------- the score object

  /** The measure `AddBlankMeasure` appends after `last`: rests in its BPM and beat, or in the defaults on an empty chart. */
  function BlankAfter(last: Option<Measure>, count: nat, defaultBpm: real, defaultBeat: Fraction): (m: Measure)
    ensures |m.notes| == count && forall i :: 0 <= i < count ==> m.notes[i] == DefaultNote(NoteType.None)
    ensures last.Some? ==> m.bpm == last.value.bpm && m.beat == last.value.beat
    ensures !last.Some? ==> m.bpm == defaultBpm && m.beat == defaultBeat
  {
    match last
    case Some(previous) => CreateBlank(previous.bpm, previous.beat, count).value
    case None => CreateBlank(defaultBpm, defaultBeat, count).value
  }

  /** `Score`: the list of measures, appended to in place. */
  class Score {
    var measures: seq<Measure>

    /** `Score(measures)`. */
    constructor (ms: seq<Measure>)
      ensures measures == ms
    {
      measures := ms;
    }

    /** The indexer `this[index]`: `ElementAt` raises outside the list. */
    function At(index: int): (r: Result<Measure>)
      reads this
      ensures r.Failure? <==> !(0 <= index < |measures|)
      ensures r.Failure? ==> r.error == ArgumentOutOfRange
      ensures r.Success? ==> r.value in measures && r.value == measures[index]
    {
      if 0 <= index < |measures| then Success(measures[index]) else Failure(ArgumentOutOfRange)
    }

    /** `FirstMeasure`: `null` exactly when there are no measures. */
    function FirstMeasure(): (r: Option<Measure>)
      reads this
      ensures r.Some? <==> |measures| > 0
      ensures r.Some? ==> At(0) == Success(r.value)
    {
      if |measures| > 0 then Some(measures[0]) else Option.None
    }

    /** `LastMeasure`: `null` exactly when there are no measures. */
    function LastMeasure(): (r: Option<Measure>)
      reads this
      ensures r.Some? <==> |measures| > 0
      ensures r.Some? ==> At(|measures| - 1) == Success(r.value)
    {
      if |measures| > 0 then Some(measures[|measures| - 1]) else Option.None
    }

    /** `MeasureCount`. */
    function MeasureCount(): nat
      reads this
    {
      |measures|
    }

    /** `Combo`. */
    function Combo(): nat
      reads this
    {
      ComboSum(measures)
    }

    /** `Length`. */
    function Length(): real
      reads this
      requires AllTimed(measures)
    {
      LengthSum(measures)
    }

    /** `AddMeasure(measure)`: appended at the end; the earlier measures stay as they were. */
    method AddMeasure(m: Measure)
      modifies this
      ensures measures == old(measures) + [m]
      ensures MeasureCount() == old(MeasureCount()) + 1 && LastMeasure() == Some(m)
      ensures Combo() == old(Combo()) + ComboOf(m.notes)
      ensures old(FirstMeasure()).Some? ==> FirstMeasure() == old(FirstMeasure())
    {
      SumsUnfold(measures + [m], measures, m);
      measures := measures + [m];
    }

    /** `AddMeasure(getMeasure)`: the function is given the current last measure, and what it returns is appended. */
    method AddMeasureFrom(getMeasure: Option<Measure> -> Measure)
      modifies this
      ensures measures == old(measures) + [getMeasure(old(LastMeasure()))]
    {
      AddMeasure(getMeasure(LastMeasure()));
    }

    /**
     * `AddBlankMeasure(notesCount, defaultBPM, defaultBeatNumerator, defaultBeatDenominator)`:
     * rests in the last measure's BPM and beat, or in the defaults on an empty chart; a negative
     * count raises inside the function, before anything is appended.
     */
    method AddBlankMeasure(count: int, defaultBpm: real := 120.0, defaultNumerator: int := 4, defaultDenominator: int := 4)
      returns (r: Outcome)
      modifies this
      ensures r.Fail? <==> count < 0
      ensures r.Fail? ==> r.error == ArgumentOutOfRange && measures == old(measures)
      ensures r.Pass? ==>
        measures == old(measures) + [BlankAfter(old(LastMeasure()), count, defaultBpm, Fraction(defaultNumerator, defaultDenominator))]
    {
      if count < 0 {
        return Fail(ArgumentOutOfRange);
      }
      var k: nat := count;
      var beat := Fraction(defaultNumerator, defaultDenominator);
      AddMeasureFrom(last => BlankAfter(last, k, defaultBpm, beat));
      r := Pass;
    }

    /**
     * `ToString()`: one pass over the measures, holding the BPM, the beat and the scroll of the
     * previous measure; each measure is written as its line after the directives that change.
     */
    method ToString() returns (r: Result<string>)
      requires BeatsDefined(measures)
      ensures r == ScoreText(measures)
    {
      var ms := measures;
      var text := "";
      var beforeScroll := Zero;
      var bpm: Option<real> := Option.None;
      var meas := Fraction(0, 1);
      assert ms[..0] == [];
      for i := 0 to |ms|
        invariant BeatsDefined(ms[..i]) && ScoreText(ms[..i]) == Success(text)
        invariant bpm == BpmBefore(ms, i)
        invariant meas.denominator != 0 && Value(meas) == BeatBefore(ms, i)
        invariant beforeScroll == ScrollBefore(ms, i)
      {
        var m := ms[i];
        ghost var before := text;
        ghost var bpmText := Written(BpmBefore(ms, i) != Some(m.bpm), BpmChange(m.bpm));
        ghost var beatText := Written(BeatBefore(ms, i) != Value(m.beat), BeatChange(m.beat));
        ScoreTextStep(ms, i, before);
        if bpm != Some(m.bpm) {
          text := text + LineText(BpmChange(m.bpm));
          bpm := Some(m.bpm);
        } else {
          EmptyRight(text);
        }
        assert text == before + bpmText;
        if Value(meas) != Value(m.beat) {
          text := text + LineText(BeatChange(m.beat));
          meas := m.beat;
        } else {
          EmptyRight(text);
        }
        assert text == before + bpmText + beatText;
        var line := ToStringAsWritten(m, beforeScroll);
        text := text + (line + NewLine);
        if |m.notes| == 0 {
          ScoreTextStop(ms, i + 1);
          return Failure(InvalidOperation);
        }
        beforeScroll := m.notes[|m.notes| - 1].scroll;
      }
      assert ms[..|ms|] == ms;
      r := Success(text);
    }
  }

  /** The text after one more measure: the directives that change and its line, or a failure when it has no note. */
  lemma {:induction false} ScoreTextStep(ms: seq<Measure>, i: nat, text: string)
    requires i < |ms| && BeatsDefined(ms) && BeatsDefined(ms[..i]) && ScoreText(ms[..i]) == Success(text)
    ensures BeatsDefined(ms[..i + 1])
    ensures ScoreText(ms[..i + 1]) == if |ms[i].notes| == 0 then Failure(InvalidOperation)
      else Success(text
        + Written(BpmBefore(ms, i) != Some(ms[i].bpm), BpmChange(ms[i].bpm))
        + Written(BeatBefore(ms, i) != Value(ms[i].beat), BeatChange(ms[i].beat))
        + LineText(Bar(ms[i].notes, ScrollBefore(ms, i))))
  {
    var before := ScoreLines(ms[..i]).value;
    ScoreStep(ms, i, before);
    BlockRender(before, ms, i);
  }

  /** Once the text of some first measures fails, so does the text of the whole list. */
  lemma {:induction false} ScoreTextStop(ms: seq<Measure>, k: nat)
    requires BeatsDefined(ms) && k <= |ms|
    requires BeatsDefined(ms[..k]) && ScoreText(ms[..k]).Failure?
    ensures ScoreText(ms) == Failure(InvalidOperation)
  {
    ScoreLinesStop(ms, k);
  }

  /** The text of a line written only when `c` holds. */
  function Written(c: bool, l: Line): string
  {
    if c then LineText(l) else ""
  }

  /** The text of a block after some lines: each directive that changes, then the measure's line. */
  lemma {:induction false} BlockRender(before: seq<Line>, ms: seq<Measure>, i: nat)
    requires i < |ms| && BeatsDefined(ms)
    ensures Render(before + BlockLines(ms, i))
      == Render(before)
        + Written(BpmBefore(ms, i) != Some(ms[i].bpm), BpmChange(ms[i].bpm))
        + Written(BeatBefore(ms, i) != Value(ms[i].beat), BeatChange(ms[i].beat))
        + LineText(Bar(ms[i].notes, ScrollBefore(ms, i)))
  {
    var bpmLine := Part(BpmBefore(ms, i) != Some(ms[i].bpm), BpmChange(ms[i].bpm));
    var beatLine := Part(BeatBefore(ms, i) != Value(ms[i].beat), BeatChange(ms[i].beat));
    var bar := Bar(ms[i].notes, ScrollBefore(ms, i));
    RenderPart(before, BpmBefore(ms, i) != Some(ms[i].bpm), BpmChange(ms[i].bpm));
    RenderPart(before + bpmLine, BeatBefore(ms, i) != Value(ms[i].beat), BeatChange(ms[i].beat));
    RenderUnfold(before + bpmLine + beatLine + [bar], before + bpmLine + beatLine, bar);
    AppendAssociates(before, bpmLine, beatLine);
    AppendAssociates(before, bpmLine + beatLine, [bar]);
  }

  /** One more measure: its block is added to the lines, unless it has no note. */
  lemma {:induction false} ScoreStep(ms: seq<Measure>, i: nat, before: seq<Line>)
    requires i < |ms| && BeatsDefined(ms) && BeatsDefined(ms[..i]) && ScoreLines(ms[..i]) == Success(before)
    ensures BeatsDefined(ms[..i + 1])
    ensures ScoreLines(ms[..i + 1])
      == if |ms[i].notes| == 0 then Failure(InvalidOperation) else Success(before + BlockLines(ms, i))
  {
    assert ms[..i + 1][..i] == ms[..i];
    ScoreLinesUnfold(ms[..i + 1], ms[..i]);
    BlockOfPrefix(ms, ms[..i + 1], i);
  }

  lemma {:induction false} EmptyRight<T>(s: seq<T>)
    ensures s + [] == s
  {
  }

  /** Once the lines of some first measures fail, so do the lines of the whole list. */
  lemma {:induction false} ScoreLinesStop(ms: seq<Measure>, k: nat)
    requires BeatsDefined(ms) && k <= |ms|
    ensures BeatsDefined(ms[..k])
    ensures ScoreLines(ms[..k]).Failure? ==> ScoreLines(ms).Failure?
  {
    assert forall j :: 0 <= j < k ==> ms[..k][j] == ms[j];
    ScoreLinesSucceed(ms);
    ScoreLinesSucceed(ms[..k]);
  }
}
