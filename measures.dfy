/**
 * `TJA_Supporter.Lib.Measure`: one bar of a chart, as its notes in order, a BPM and a beat
 * fraction; how long it lasts, how it is padded, where a hit time falls in it, and its text.
 */
module Measures {
  import opened Wrappers
  import opened Complexes
  import opened NumberText
  import opened Fractions
  import opened Notes
  import LibMathHelper

  /** A struct: the notes are held as the values they have, in order. */
  datatype Measure = Measure(notes: seq<NoteValue>, bpm: real, beat: Fraction)

  // ---------------------------------------------------------------- parsing

  /** The notes `Parse` collects from `s`: one default note per digit, in order; every other character is skipped. */
  function ParseNotes(s: string): (ns: seq<NoteValue>)
    ensures |ns| <= |s|
    decreases |s|
  {
    if |s| == 0 then []
    else
      var rest := ParseNotes(s[..|s| - 1]);
      match ParseValue(s[|s| - 1])
      case Some(n) => rest + [n]
      case None => rest
  }

  /** The digit characters of `s`, in order. */
  function Digits(s: string): (d: string)
    ensures |d| <= |s|
    decreases |s|
  {
    if |s| == 0 then []
    else Digits(s[..|s| - 1]) + (if IsDigit(s[|s| - 1]) then [s[|s| - 1]] else [])
  }

  /** `Measure.Parse(notesStr, bpm, beat)`: each character goes through `Note.Parse`; the notes it returns are kept. */
  method Parse(s: string, bpm: real, beat: Fraction) returns (m: Measure)
    ensures m == Measure(ParseNotes(s), bpm, beat)
  {
    var notes: seq<NoteValue> := [];
    for i := 0 to |s|
      invariant notes == ParseNotes(s[..i])
    {
      assert s[..i + 1][..i] == s[..i];
      var n := Note.Parse(s[i]);
      if n != null {
        notes := notes + [n.Value()];
      }
    }
    assert s[..|s|] == s;
    m := Measure(notes, bpm, beat);
  }

  /** `ToNotesString`: the texts of the notes (their digits) joined with nothing between them. */
  function NotesText(ns: seq<NoteValue>): (s: string)
    ensures |s| == |ns|
    decreases |ns|
  {
    if |ns| == 0 then "" else NotesText(ns[..|ns| - 1]) + DigitText(ns[|ns| - 1].kind)
  }

  /** Parsing keeps exactly the digits: as many notes as digits, their texts are the digits in order, each with the default scroll. */
  lemma {:induction false} ParseNotesText(s: string)
    ensures |ParseNotes(s)| == |Digits(s)|
    ensures NotesText(ParseNotes(s)) == Digits(s)
    ensures forall i :: 0 <= i < |ParseNotes(s)| ==> ParseNotes(s)[i].scroll == One
    decreases |s|
  {
    if |s| > 0 {
      var p := s[..|s| - 1];
      ParseNotesText(p);
      var c := s[|s| - 1];
      if IsDigit(c) {
        ParseDigit(c);
        var ns := ParseNotes(s);
        assert ns[..|ns| - 1] == ParseNotes(p);
      }
    }
  }

  /** The notes of a text and one more character. */
  lemma {:induction false} ParseUnfold(s: string, p: string, c: char)
    requires s == p + [c]
    ensures ParseNotes(s) == ParseNotes(p) + ParsedOne(c)
  {
    assert s[..|s| - 1] == p && s[|s| - 1] == c;
  }

  /** The notes one character gives: its note, or none. */
  function ParsedOne(c: char): (ns: seq<NoteValue>)
    ensures |ns| <= 1
  {
    if ParseValue(c).Some? then [ParseValue(c).value] else []
  }

  /** Parsing a concatenation parses each part. */
  lemma {:induction false} ParseAppend(a: string, b: string, ab: string)
    requires ab == a + b
    ensures ParseNotes(ab) == ParseNotes(a) + ParseNotes(b)
    decreases |b|
  {
    if |b| == 0 {
      assert ab == a;
    } else {
      var b' := b[..|b| - 1];
      var c := b[|b| - 1];
      var ab' := a + b';
      assert ab == ab' + [c] && b == b' + [c];
      ParseAppend(a, b', ab');
      ParseUnfold(ab, ab', c);
      ParseUnfold(b, b', c);
      AppendAssociates(ParseNotes(a), ParseNotes(b'), ParsedOne(c));
    }
  }

  /** The notes with their kinds only: what a note's text keeps of it. */
  function Defaulted(ns: seq<NoteValue>): (ds: seq<NoteValue>)
    ensures |ds| == |ns|
    ensures forall i :: 0 <= i < |ns| ==> ds[i] == DefaultNote(ns[i].kind)
  {
    seq(|ns|, i requires 0 <= i < |ns| => DefaultNote(ns[i].kind))
  }

  /** Parsing the notes' text gives the same kinds back, in order, with the default scroll: the text keeps the kinds. */
  lemma {:induction false} TextThenParse(ns: seq<NoteValue>)
    ensures ParseNotes(NotesText(ns)) == Defaulted(ns)
    decreases |ns|
  {
    if |ns| > 0 {
      var p := ns[..|ns| - 1];
      var t := ns[|ns| - 1].kind;
      var d := DigitText(t);
      TextThenParse(p);
      assert NotesText(ns) == NotesText(p) + d;
      ParseAppend(NotesText(p), d, NotesText(ns));
      ParseOneDigit(t, d);
      DefaultedUnfold(ns, p);
    }
  }

  /** A kind's digit parses to the default note of that kind. */
  lemma {:induction false} ParseOneDigit(t: NoteType, d: string)
    requires d == DigitText(t)
    ensures ParseNotes(d) == [DefaultNote(t)]
  {
    DigitTextParses(t);
    assert d == [] + [d[0]];
    ParseUnfold(d, [], d[0]);
  }

  /** The kinds of some notes and one more. */
  lemma {:induction false} DefaultedUnfold(ns: seq<NoteValue>, p: seq<NoteValue>)
    requires |ns| > 0 && p == ns[..|ns| - 1]
    ensures Defaulted(ns) == Defaulted(p) + [DefaultNote(ns[|ns| - 1].kind)]
  {
    var r := Defaulted(p) + [DefaultNote(ns[|ns| - 1].kind)];
    forall i | 0 <= i < |ns| ensures Defaulted(ns)[i] == r[i] {
      if i < |p| {
        assert p[i] == ns[i];
      }
    }
  }

  /** A text of digits only is its own digits. */
  lemma {:induction false} DigitsOfDigits(s: string)
    requires forall i :: 0 <= i < |s| ==> IsDigit(s[i])
    ensures Digits(s) == s
    decreases |s|
  {
    if |s| > 0 {
      DigitsOfDigits(s[..|s| - 1]);
    }
  }

  /** A text of digits only is the text of the notes parsed from it. */
  lemma {:induction false} DigitsText(s: string)
    requires forall i :: 0 <= i < |s| ==> IsDigit(s[i])
    ensures NotesText(ParseNotes(s)) == s
  {
    ParseNotesText(s);
    DigitsOfDigits(s);
  }

  /** The measures of the parse tests: `"1111"` has four notes and `"10201020"` eight. */
  lemma {:induction false} ParseExamples(s: string, t: string)
    requires s == "1111" && t == "10201020"
    ensures |ParseNotes(s)| == 4 && |ParseNotes(t)| == 8
  {
    assert |ParseNotes(s)| == 4 by {
      DigitsText(s);
    }
    assert |ParseNotes(t)| == 8 by {
      DigitsText(t);
    }
  }

  /** A comma between digits adds no note. */
  lemma {:induction false} ParseSkipExample(s: string)
    requires s == "1,2"
    ensures ParseNotes(s) == [DefaultNote(Dong), DefaultNote(Ka)]
  {
    var s1, s2 := s[..1], s[..2];
    ParseUnfold(s1, [], '1');
    ParseUnfold(s2, s1, ',');
    ParseUnfold(s, s2, '2');
  }

  // ---------------------------------------------------------------- length and combo

  /** A measure whose `Length` is a finite number: a non-zero BPM and a non-zero denominator. */
  predicate Timed(m: Measure)
  {
    m.bpm != 0.0 && m.beat.denominator != 0
  }

  /** `Length`: seconds per beat times four crotchets times the beat value; the notes play no part. */
  function Length(m: Measure): (l: real)
    requires Timed(m)
    ensures l * m.bpm == 240.0 * Value(m.beat)
  {
    (60.0 / m.bpm) * 4.0 * Value(m.beat)
  }

  lemma {:induction false} LengthExamples(ns: seq<NoteValue>)
    ensures Length(Measure(ns, 120.0, Fraction(4, 4))) == 2.0
    ensures Length(Measure(ns, 120.0, Fraction(3, 4))) == 1.5
    ensures Length(Measure(ns, 120.0, Fraction(8, 4))) == 4.0
  {
  }

  /** The kinds a player hits for combo: `Dong`, `Ka` and their large forms. */
  predicate IsComboKind(t: NoteType)
  {
    t.Dong? || t.Ka? || t.LargeDong? || t.LargeKa?
  }

  /** `Combo`: how many of the notes are of a combo kind. */
  function ComboOf(ns: seq<NoteValue>): (c: nat)
    ensures c <= |ns|
    decreases |ns|
  {
    if |ns| == 0 then 0
    else ComboOf(ns[..|ns| - 1]) + (if IsComboKind(ns[|ns| - 1].kind) then 1 else 0)
  }

  /** The combo of some notes and one more. */
  lemma {:induction false} ComboUnfold(ns: seq<NoteValue>, p: seq<NoteValue>, last: NoteValue)
    requires ns == p + [last]
    ensures ComboOf(ns) == ComboOf(p) + (if IsComboKind(last.kind) then 1 else 0)
  {
    assert ns[..|ns| - 1] == p;
  }

  /** The combo of a concatenation is the sum of the combos. */
  lemma {:induction false} ComboAppend(a: seq<NoteValue>, b: seq<NoteValue>, ab: seq<NoteValue>)
    requires ab == a + b
    ensures ComboOf(ab) == ComboOf(a) + ComboOf(b)
    decreases |b|
  {
    if |b| == 0 {
      assert ab == a;
    } else {
      var b' := b[..|b| - 1];
      var last := b[|b| - 1];
      var ab' := a + b';
      assert ab == ab' + [last] && b == b' + [last];
      ComboAppend(a, b', ab');
      ComboUnfold(ab, ab', last);
      ComboUnfold(b, b', last);
    }
  }

  /** How many of the characters are `'1'` to `'4'`. */
  function HitDigits(s: string): nat
    decreases |s|
  {
    if |s| == 0 then 0
    else HitDigits(s[..|s| - 1]) + (if '1' <= s[|s| - 1] <= '4' then 1 else 0)
  }

  /** The combo of a parsed measure counts the characters `'1'` to `'4'` of its text. */
  lemma {:induction false} ComboOfParse(s: string)
    ensures ComboOf(ParseNotes(s)) == HitDigits(s)
    decreases |s|
  {
    if |s| > 0 {
      var p := s[..|s| - 1];
      var c := s[|s| - 1];
      ComboOfParse(p);
      assert s == p + [c];
      ParseUnfold(s, p, c);
      if ParseValue(c).Some? {
        ComboUnfold(ParseNotes(s), ParseNotes(p), ParseValue(c).value);
      } else {
        assert ParseNotes(s) == ParseNotes(p);
      }
    }
  }

  /** `count` copies of one note of kind `t` with the default scroll: `Enumerable.Repeat(new Note(t), count)`. */
  function Rests(t: NoteType, count: nat): (ns: seq<NoteValue>)
    ensures |ns| == count
    ensures forall i :: 0 <= i < count ==> ns[i] == DefaultNote(t)
  {
    seq(count, _ => DefaultNote(t))
  }

  /** Rests count for no combo. */
  lemma {:induction false} ComboOfRests(count: nat)
    ensures ComboOf(Rests(NoteType.None, count)) == 0
    decreases count
  {
    if count > 0 {
      assert Rests(NoteType.None, count)[..count - 1] == Rests(NoteType.None, count - 1);
      ComboOfRests(count - 1);
    }
  }

  /**
   * `CreateBlank(bpm, measure, notesCount)`: `notesCount` rests with the given BPM and beat;
   * a negative count makes `Enumerable.Repeat` raise.
   */
  function CreateBlank(bpm: real, beat: Fraction, count: int): (r: Result<Measure>)
    ensures r.Failure? <==> count < 0
    ensures r.Failure? ==> r.error == ArgumentOutOfRange
    ensures r.Success? ==> |r.value.notes| == count && r.value.bpm == bpm && r.value.beat == beat
    ensures r.Success? ==> ComboOf(r.value.notes) == 0
    ensures r.Success? ==> forall i :: 0 <= i < count ==> r.value.notes[i] == DefaultNote(NoteType.None)
  {
    if count < 0 then Failure(ArgumentOutOfRange)
    else
      ComboOfRests(count);
      Success(Measure(Rests(NoteType.None, count), bpm, beat))
  }

  // ---------------------------------------------------------------- padding

  /** `Notes.SelectMany(n => paddingNotes.Prepend(n))`: every note followed by the padding notes. */
  function PadNotes(ns: seq<NoteValue>, pad: seq<NoteValue>): (r: seq<NoteValue>)
    ensures |r| == |ns| * (|pad| + 1)
    decreases |ns|
  {
    if |ns| == 0 then []
    else
      var r := PadNotes(ns[..|ns| - 1], pad) + ([ns[|ns| - 1]] + pad);
      assert |r| == (|ns| - 1) * (|pad| + 1) + (|pad| + 1);
      r
  }

  /**
   * Where each note lands: note `i` at index `i * (k + 1)`, followed by the `k` padding notes.
   */
  lemma {:induction false} PadNotesAt(ns: seq<NoteValue>, pad: seq<NoteValue>, i: nat, j: nat)
    requires i < |ns| && j <= |pad|
    ensures i * (|pad| + 1) + j < |PadNotes(ns, pad)|
    ensures PadNotes(ns, pad)[i * (|pad| + 1) + j] == if j == 0 then ns[i] else pad[j - 1]
    decreases |ns|
  {
    var k := |pad| + 1;
    var p := ns[..|ns| - 1];
    var chunk := [ns[|ns| - 1]] + pad;
    assert PadNotes(ns, pad) == PadNotes(p, pad) + chunk;
    if i == |ns| - 1 {
      assert i * k + j == |PadNotes(p, pad)| + j;
      assert chunk[j] == if j == 0 then ns[i] else pad[j - 1];
    } else {
      RowBefore(i, j, |p|, k);
      PadNotesAt(p, pad, i, j);
    }
  }

  /** A cell of row `i < n` of a table with `k`-wide rows comes before row `n`. */
  lemma {:induction false} RowBefore(i: nat, j: nat, n: nat, k: nat)
    requires i < n && j < k
    ensures i * k + j < n * k
  {
    Euclid.MulMonotone(i + 1, n, k);
  }

  /** `Padding(paddingNotes)`: a new measure with the padded notes and the same BPM and beat; the receiver is a value and is not changed. */
  function Padding(m: Measure, pad: seq<NoteValue>): (r: Measure)
    ensures |r.notes| == |m.notes| * (|pad| + 1)
    ensures r.bpm == m.bpm && r.beat == m.beat
  {
    Measure(PadNotes(m.notes, pad), m.bpm, m.beat)
  }

  /** `Padding(noteType, paddingSize)`: `paddingSize` notes of the kind after each note; a negative size makes `Enumerable.Repeat` raise. */
  function PaddingWith(m: Measure, t: NoteType, size: int): (r: Result<Measure>)
    ensures r.Failure? <==> size < 0
    ensures r.Failure? ==> r.error == ArgumentOutOfRange
    ensures r.Success? ==> |r.value.notes| == |m.notes| * (size + 1)
    ensures r.Success? ==> r.value.bpm == m.bpm && r.value.beat == m.beat
  {
    if size < 0 then Failure(ArgumentOutOfRange) else Success(Padding(m, Rests(t, size)))
  }

  /** `Padding(paddingSize)`: rests after each note. */
  function PaddingRests(m: Measure, size: int): (r: Result<Measure>)
    ensures r.Failure? <==> size < 0
    ensures r.Failure? ==> r.error == ArgumentOutOfRange
    ensures r.Success? ==> |r.value.notes| == |m.notes| * (size + 1)
    ensures r.Success? ==> ComboOf(r.value.notes) == ComboOf(m.notes)
    ensures r.Success? ==> r.value.bpm == m.bpm && r.value.beat == m.beat
  {
    if size >= 0 then
      PaddingRestsCombo(m.notes, size);
      PaddingWith(m, NoteType.None, size)
    else PaddingWith(m, NoteType.None, size)
  }

  /** Each original note is at index `i * (k + 1)` and followed by `k` rests. */
  lemma {:induction false} PaddingRestsAt(m: Measure, size: nat, i: nat, j: nat)
    requires i < |m.notes| && j <= size
    ensures PaddingRests(m, size).Success?
    ensures i * (size + 1) + j < |PaddingRests(m, size).value.notes|
    ensures PaddingRests(m, size).value.notes[i * (size + 1) + j] == if j == 0 then m.notes[i] else DefaultNote(NoteType.None)
  {
    PadNotesAt(m.notes, Rests(NoteType.None, size), i, j);
  }

  /** Padding with rests keeps the combo. */
  lemma {:induction false} PaddingRestsCombo(ns: seq<NoteValue>, size: nat)
    ensures ComboOf(PadNotes(ns, Rests(NoteType.None, size))) == ComboOf(ns)
    decreases |ns|
  {
    if |ns| > 0 {
      var p := ns[..|ns| - 1];
      var last := [ns[|ns| - 1]];
      var pad := Rests(NoteType.None, size);
      PaddingRestsCombo(p, size);
      ComboAppend(PadNotes(p, pad), last + pad, PadNotes(ns, pad));
      ComboAppend(last, pad, last + pad);
      ComboOfRests(size);
      ComboUnfold(ns, p, ns[|ns| - 1]);
      ComboUnfold(last, [], ns[|ns| - 1]);
    }
  }

  /** `Padding(noteStr)`: the notes parsed from the text, with this measure's BPM and beat; its own notes are dropped. */
  function PaddingText(m: Measure, s: string): (r: Measure)
    ensures r.notes == ParseNotes(s) && r.bpm == m.bpm && r.beat == m.beat
  {
    Measure(ParseNotes(s), m.bpm, m.beat)
  }

  /** `k` rest digits. */
  function Zeros(k: nat): (z: string)
    ensures |z| == k && forall i :: 0 <= i < k ==> z[i] == '0'
  {
    seq(k, _ => '0')
  }

  /** A text with `k` rest digits after each of its characters. */
  function PadDigits(s: string, k: nat): (r: string)
    ensures |r| == |s| * (k + 1)
    decreases |s|
  {
    if |s| == 0 then ""
    else
      var r := PadDigits(s[..|s| - 1], k) + ([s[|s| - 1]] + Zeros(k));
      assert |r| == (|s| - 1) * (k + 1) + (k + 1);
      r
  }

  /** The text of `k` rests is `k` zeros. */
  lemma {:induction false} RestsText(k: nat)
    ensures NotesText(Rests(NoteType.None, k)) == Zeros(k)
  {
    NotesTextOf(Rests(NoteType.None, k), Zeros(k));
  }

  /** The text of a measure padded with `k` rests is its text with `k` zeros after each digit. */
  lemma {:induction false} PaddingRestsText(ns: seq<NoteValue>, k: nat)
    ensures NotesText(PadNotes(ns, Rests(NoteType.None, k))) == PadDigits(NotesText(ns), k)
    decreases |ns|
  {
    if |ns| > 0 {
      var p := ns[..|ns| - 1];
      var last := ns[|ns| - 1];
      var pad := Rests(NoteType.None, k);
      var chunk := [last] + pad;
      PaddingRestsText(p, k);
      NotesTextAppend(PadNotes(p, pad), chunk, PadNotes(ns, pad));
      NotesTextAppend([last], pad, chunk);
      NotesTextOne(last);
      RestsText(k);
      var t := NotesText(ns);
      assert t == NotesText(p) + DigitText(last.kind);
      assert t[..|t| - 1] == NotesText(p);
    }
  }

  /** The padding tests: `"1010"` padded by one is `"10001000"`, and `"11221"` padded by two is `"100100200200100"`. */
  lemma {:induction false} PaddingExamples(s: string, t: string)
    requires s == "1010" && t == "11221"
    ensures PaddingRests(Measure(ParseNotes(s), 120.0, Fraction(4, 4)), 1).Success?
    ensures NotesText(PaddingRests(Measure(ParseNotes(s), 120.0, Fraction(4, 4)), 1).value.notes) == "10001000"
    ensures NotesText(PaddingRests(Measure(ParseNotes(t), 120.0, Fraction(4, 4)), 2).value.notes) == "100100200200100"
  {
    PaddingExampleOne(s);
    PaddingExampleTwo(t);
  }

  /** The text of a measure of digits padded with `k` rests is the digits with `k` zeros after each. */
  lemma {:induction false} PaddedDigits(s: string, k: nat)
    requires forall i :: 0 <= i < |s| ==> IsDigit(s[i])
    ensures NotesText(PadNotes(ParseNotes(s), Rests(NoteType.None, k))) == PadDigits(s, k)
  {
    DigitsText(s);
    PaddingRestsText(ParseNotes(s), k);
  }

  lemma {:induction false} PaddingExampleOne(s: string)
    requires s == "1010"
    ensures NotesText(PadNotes(ParseNotes(s), Rests(NoteType.None, 1))) == "10001000"
  {
    PaddedDigits(s, 1);
    PadDigitsOne(s);
  }

  lemma {:induction false} PadDigitsOne(s: string)
    requires s == "1010"
    ensures PadDigits(s, 1) == "10001000"
  {
    var z := Zeros(1);
    assert z == "0";
    var s1, s2, s3 := s[..1], s[..2], s[..3];
    assert s1 == "1" && s2 == "10" && s3 == "101";
    PadDigitsUnfold(s1, [], '1', 1);
    assert PadDigits(s1, 1) == "10";
    PadDigitsUnfold(s2, s1, '0', 1);
    assert PadDigits(s2, 1) == "1000";
    PadDigitsUnfold(s3, s2, '1', 1);
    assert PadDigits(s3, 1) == "100010";
    PadDigitsUnfold(s, s3, '0', 1);
  }

  lemma {:induction false} PaddingExampleTwo(s: string)
    requires s == "11221"
    ensures NotesText(PadNotes(ParseNotes(s), Rests(NoteType.None, 2))) == "100100200200100"
  {
    PaddedDigits(s, 2);
    PadDigitsTwo(s);
  }

  lemma {:induction false} PadDigitsTwo(s: string)
    requires s == "11221"
    ensures PadDigits(s, 2) == "100100200200100"
  {
    var z := Zeros(2);
    assert z == "00";
    var s1, s2, s3, s4 := s[..1], s[..2], s[..3], s[..4];
    assert s1 == "1" && s2 == "11" && s3 == "112" && s4 == "1122";
    PadDigitsUnfold(s1, [], '1', 2);
    assert PadDigits(s1, 2) == "100";
    PadDigitsUnfold(s2, s1, '1', 2);
    assert PadDigits(s2, 2) == "100100";
    PadDigitsUnfold(s3, s2, '2', 2);
    assert PadDigits(s3, 2) == "100100200";
    PadDigitsUnfold(s4, s3, '2', 2);
    assert PadDigits(s4, 2) == "100100200200";
    PadDigitsUnfold(s, s4, '1', 2);
  }

  lemma {:induction false} PadDigitsUnfold(s: string, p: string, c: char, k: nat)
    requires s == p + [c]
    ensures PadDigits(s, k) == PadDigits(p, k) + ([c] + Zeros(k))
  {
    assert s[..|s| - 1] == p && s[|s| - 1] == c;
  }

  /** Character `i` of the notes' text is the digit of note `i`. */
  lemma {:induction false} NotesTextAt(ns: seq<NoteValue>, i: nat)
    requires i < |ns|
    ensures NotesText(ns)[i] == DigitText(ns[i].kind)[0]
    decreases |ns|
  {
    if i < |ns| - 1 {
      NotesTextAt(ns[..|ns| - 1], i);
    }
  }

  /** The notes' text is the text whose every character is the corresponding note's digit. */
  lemma {:induction false} NotesTextOf(ns: seq<NoteValue>, t: string)
    requires |ns| == |t|
    requires forall i :: 0 <= i < |ns| ==> DigitText(ns[i].kind) == [t[i]]
    ensures NotesText(ns) == t
  {
    forall i | 0 <= i < |ns| ensures NotesText(ns)[i] == t[i] {
      NotesTextAt(ns, i);
    }
  }

  // ---------------------------------------------------------------- timing

  /** `GetLengthUntil(noteCount)`: the fraction `noteCount / NotesCount` of the measure's length. */
  function LengthUntil(m: Measure, count: int): (r: real)
    requires Timed(m) && |m.notes| > 0
    ensures r * |m.notes| as real == count as real * Length(m)
  {
    (count as real / |m.notes| as real) * Length(m)
  }

  /** From nothing at the first note to the whole length after the last, growing with the count when the length is not negative. */
  lemma {:induction false} LengthUntilBounds(m: Measure, j: int, k: int)
    requires Timed(m) && |m.notes| > 0
    ensures LengthUntil(m, 0) == 0.0
    ensures LengthUntil(m, |m.notes|) == Length(m)
    ensures Length(m) >= 0.0 && j <= k ==> LengthUntil(m, j) <= LengthUntil(m, k)
  {
    var n := |m.notes| as real;
    assert n / n == 1.0;
    if Length(m) >= 0.0 && j <= k {
      assert j as real / n <= k as real / n;
      RealMulMonotone(j as real / n, k as real / n, Length(m));
    }
  }

  /** The `(int)` cast of a `double`: toward zero. */
  function Truncate(x: real): int
  {
    if x >= 0.0 then x.Floor else -((-x).Floor)
  }

  /** The cast drops the fraction: a non-negative value lies between its truncation and the next integer, a negative one between the integer before and its truncation. */
  lemma {:induction false} TruncateBounds(x: real)
    ensures x >= 0.0 ==> 0 <= Truncate(x) && Truncate(x) as real <= x < Truncate(x) as real + 1.0
    ensures x < 0.0 ==> Truncate(x) <= 0 && Truncate(x) as real - 1.0 < x <= Truncate(x) as real
  {
  }

  /** `(MeasureOffset, Index)`: how many whole measures the hit lies beyond the start, and its slot. */
  datatype Located = Located(offset: int, index: int)

  /**
   * `GetNearIndex(measureStartTime, noteHitTime)` as written, for a measure of length `l` with
   * `n` notes: a hit before the start raises; the time past the start, measured in measures and
   * truncated, is the offset; when the offset is positive the time is divided by it; the slot is
   * the time over the note interval `l / n`, truncated.
   */
  function Locate(l: real, n: nat, start: real, hit: real): (r: Result<Located>)
    requires l != 0.0 && n > 0
    ensures r.Failure? <==> start > hit
    ensures r.Failure? ==> r.error == Argument
  {
    if start > hit then Failure(Argument)
    else
      var relative := hit - start;
      var offset := Truncate(relative / l);
      var folded := if offset > 0 then relative / offset as real else relative;
      Success(Located(offset, Truncate(folded / (l / n as real))))
  }

  /** `GetNearIndex` of a measure: the locator of its length and its note count. */
  function NearIndex(m: Measure, start: real, hit: real): (r: Result<Located>)
    requires Timed(m) && |m.notes| > 0 && Length(m) != 0.0
    ensures r.Failure? <==> start > hit
    ensures r.Failure? ==> r.error == Argument
    ensures r.Success? ==> r.value.offset == Truncate((hit - start) / Length(m))
  {
    Locate(Length(m), |m.notes|, start, hit)
  }

  /** With a positive length the offset counts the whole measures between the start and the hit. */
  lemma {:induction false} LocateOffset(l: real, n: nat, start: real, hit: real)
    requires l > 0.0 && n > 0 && start <= hit
    ensures Locate(l, n, start, hit).Success?
    ensures Locate(l, n, start, hit).value.offset >= 0
    ensures Locate(l, n, start, hit).value.offset as real * l <= hit - start
    ensures hit - start < (Locate(l, n, start, hit).value.offset + 1) as real * l
  {
    var offset := Truncate((hit - start) / l);
    TruncateBounds((hit - start) / l);
    QuotientBounds(hit - start, l, offset as real);
  }

  lemma {:induction false} RealMulMonotone(a: real, b: real, c: real)
    requires a <= b && c >= 0.0
    ensures a * c <= b * c
  {
    assert b * c - a * c == (b - a) * c;
  }

  lemma {:induction false} RealMulStrict(a: real, b: real, c: real)
    requires a < b && c > 0.0
    ensures a * c < b * c
  {
    assert b * c - a * c == (b - a) * c;
  }

  /** `q <= a / b < q + 1` with a positive `b` bounds `a` by multiples of `b`. */
  lemma {:induction false} QuotientBounds(a: real, b: real, q: real)
    requires b > 0.0 && q <= a / b < q + 1.0
    ensures q * b <= a < (q + 1.0) * b
  {
    QuotientLower(a, b, q);
    QuotientUpper(a, b, q + 1.0);
  }

  lemma {:induction false} QuotientLower(a: real, b: real, q: real)
    requires b > 0.0 && q <= a / b
    ensures q * b <= a
  {
    RealMulMonotone(q, a / b, b);
    assert a / b * b == a;
  }

  lemma {:induction false} QuotientUpper(a: real, b: real, u: real)
    requires b > 0.0 && a / b < u
    ensures a < u * b
  {
    RealMulStrict(a / b, u, b);
    assert a / b * b == a;
  }

  /** The converse: `lo * b <= a < hi * b` with a positive `b` bounds the quotient. */
  lemma {:induction false} BoundsQuotient(a: real, b: real, lo: real, hi: real)
    requires b > 0.0 && lo * b <= a < hi * b
    ensures lo <= a / b < hi
  {
    assert a / b * b == a;
    if a / b < lo {
      RealMulStrict(a / b, lo, b);
    }
    if a / b >= hi {
      RealMulMonotone(hi, a / b, b);
    }
  }

  /** Slots of a time within one measure: `0 <= t < length` lies in slot `Truncate(t / (length / n))`, between `0` and `n`. */
  lemma {:induction false} SlotOf(t: real, length: real, n: nat)
    requires length > 0.0 && n > 0 && 0.0 <= t < length
    ensures 0 <= Truncate(t / (length / n as real)) < n
    ensures Truncate(t / (length / n as real)) as real * (length / n as real) <= t
    ensures t < (Truncate(t / (length / n as real)) + 1) as real * (length / n as real)
  {
    var interval := length / n as real;
    assert n as real * interval == length;
    assert 0.0 * interval == 0.0;
    BoundsQuotient(t, interval, 0.0, n as real);
    TruncateBounds(t / interval);
    QuotientBounds(t, interval, Truncate(t / interval) as real);
  }

  /** A hit within one length after the start has offset 0 and a slot among the measure's notes. */
  lemma {:induction false} LocateWithin(l: real, n: nat, start: real, hit: real)
    requires l > 0.0 && n > 0 && start <= hit < start + l
    ensures Locate(l, n, start, hit).Success?
    ensures Locate(l, n, start, hit).value.offset == 0
    ensures 0 <= Locate(l, n, start, hit).value.index < n
  {
    assert 0.0 * l == 0.0 && 1.0 * l == l;
    BoundsQuotient(hit - start, l, 0.0, 1.0);
    SlotOf(hit - start, l, n);
  }

  /**
   * As written, a hit one or more measures past the start is not brought back into the measure:
   * dividing by the offset leaves the time between one and two lengths, so the slot is between
   * `NotesCount` and twice that.
   */
  lemma {:induction false} LocateBeyond(l: real, n: nat, start: real, hit: real)
    requires l > 0.0 && n > 0 && start + l <= hit
    ensures Locate(l, n, start, hit).Success?
    ensures Locate(l, n, start, hit).value.offset >= 1
    ensures n <= Locate(l, n, start, hit).value.index < 2 * n
  {
    var relative := hit - start;
    LocateOffset(l, n, start, hit);
    var k := Locate(l, n, start, hit).value.offset;
    assert k >= 1 by {
      if k <= 0 {
        RealMulMonotone(k as real + 1.0, 1.0, l);
      }
    }
    var interval := l / n as real;
    FoldedBetween(relative, l, k as real);
    assert n as real * interval == l;
    BoundsQuotient(relative / k as real, interval, n as real, 2.0 * n as real);
  }

  /** A time of `k >= 1` to `k + 1` lengths, divided by `k`, lies between one and two lengths. */
  lemma {:induction false} FoldedBetween(relative: real, l: real, k: real)
    requires l > 0.0 && k >= 1.0 && k * l <= relative < (k + 1.0) * l
    ensures l <= relative / k < 2.0 * l
  {
    RealMulMonotone(1.0, k, l);
    assert l * k == k * l && 2.0 * l * k == 2.0 * (k * l);
    BoundsQuotient(relative, k, l, 2.0 * l);
  }

  /**
   * At 120 BPM in 4/4 with four notes, a hit three seconds after the start reports offset 1 and
   * slot 6, past the last slot 3; the static overload reports the same.
   */
  lemma {:induction false} NearIndexExample()
    ensures NearIndex(Measure(Rests(NoteType.None, 4), 120.0, Fraction(4, 4)), 0.0, 3.0) == Success(Located(1, 6))
    ensures NearIndexOfShape(120.0, Fraction(4, 4), 4, 0.0, 3.0) == Success(Located(1, 6))
  {
    var m := Measure(Rests(NoteType.None, 4), 120.0, Fraction(4, 4));
    assert CreateBlank(120.0, Fraction(4, 4), 4) == Success(m);
    assert Length(m) == 2.0;
    assert 3.0 / 2.0 == 1.5 && 3.0 / (2.0 / 4.0) == 6.0;
    assert Truncate(1.5) == 1 && Truncate(6.0) == 6;
  }

  /**
   * `GetNearIndex` as the comment above its offset describes it: the whole measures are taken off
   * the time before the slot is computed, so the slot always lies within the measure.
   */
  function LocateFolded(l: real, n: nat, start: real, hit: real): (r: Result<Located>)
    requires l != 0.0 && n > 0
    ensures r.Failure? <==> start > hit
    ensures r.Failure? ==> r.error == Argument
  {
    if start > hit then Failure(Argument)
    else
      var relative := hit - start;
      var offset := Truncate(relative / l);
      Success(Located(offset, FoldedIndex(relative, l, n, offset)))
  }

  /**
   * A time past the start lies in the located place: at least `offset` lengths and `index` note
   * intervals, and less than one interval more.
   */
  predicate InSlot(relative: real, l: real, n: nat, r: Located)
    requires n > 0
  {
    var interval := l / n as real;
    r.offset as real * l + r.index as real * interval <= relative < r.offset as real * l + (r.index + 1) as real * interval
  }

  /** The slot of a time once `offset` whole lengths are taken off it. */
  function FoldedIndex(relative: real, l: real, n: nat, offset: int): int
    requires l != 0.0 && n > 0
  {
    Truncate((relative - offset as real * l) / (l / n as real))
  }

  /**
   * The corrected locator finds the measure and the slot of the hit: the hit lies `offset` whole
   * measures and `index` whole intervals past the start, less than one interval further, and the
   * slot is one of the measure's notes. Within the first measure it agrees with the code as written.
   */
  lemma {:induction false} LocateFoldedSlot(l: real, n: nat, start: real, hit: real)
    requires l > 0.0 && n > 0 && start <= hit
    ensures LocateFolded(l, n, start, hit).Success?
    ensures LocateFolded(l, n, start, hit).value.offset == Locate(l, n, start, hit).value.offset >= 0
    ensures 0 <= LocateFolded(l, n, start, hit).value.index < n
    ensures InSlot(hit - start, l, n, LocateFolded(l, n, start, hit).value)
    ensures hit < start + l ==> LocateFolded(l, n, start, hit) == Locate(l, n, start, hit)
  {
    LocateOffset(l, n, start, hit);
    var r := LocateFolded(l, n, start, hit).value;
    assert r.offset == Locate(l, n, start, hit).value.offset;
    var relative := hit - start;
    assert r.index == FoldedIndex(relative, l, n, r.offset);
    FoldedSlot(relative, l, n, r.offset, r.index);
    if hit < start + l {
      LocateWithin(l, n, start, hit);
    }
  }

  /** Taking `k` whole lengths off a time of `k` to `k + 1` lengths leaves a slot within the measure. */
  lemma {:induction false} FoldedSlot(relative: real, l: real, n: nat, k: int, i: int)
    requires l > 0.0 && n > 0 && k as real * l <= relative < (k + 1) as real * l
    requires i == FoldedIndex(relative, l, n, k)
    ensures 0 <= i < n
    ensures InSlot(relative, l, n, Located(k, i))
    ensures k == 0 ==> relative - k as real * l == relative
  {
    assert (k + 1) as real * l == k as real * l + l;
    SlotOf(relative - k as real * l, l, n);
  }

  /**
   * The static `GetNearIndex(bpm, measure, notesCount, start, hit)`: the instance locator, as
   * written, of a blank measure of that shape; a negative count raises in `CreateBlank` first.
   */
  function NearIndexOfShape(bpm: real, beat: Fraction, count: int, start: real, hit: real): (r: Result<Located>)
    requires bpm != 0.0 && beat.denominator != 0 && Value(beat) != 0.0 && count != 0
    ensures count < 0 ==> r == Failure(ArgumentOutOfRange)
    ensures count > 0 ==> (r.Failure? <==> start > hit) && (r.Failure? ==> r.error == Argument)
  {
    match CreateBlank(bpm, beat, count)
    case Failure(e) => Failure(e)
    case Success(blank) =>
      LengthNonZero(blank);
      NearIndex(blank, start, hit)
  }

  lemma {:induction false} LengthNonZero(m: Measure)
    requires Timed(m) && Value(m.beat) != 0.0
    ensures Length(m) != 0.0
  {
  }

  /** The static locator gives what any measure of the same BPM, beat and note count gives: the notes themselves play no part. */
  lemma {:induction false} NearIndexOfShapeAgrees(m: Measure, start: real, hit: real)
    requires Timed(m) && |m.notes| > 0 && Value(m.beat) != 0.0
    ensures Length(m) != 0.0
    ensures NearIndexOfShape(m.bpm, m.beat, |m.notes|, start, hit) == NearIndex(m, start, hit)
  {
    LengthNonZero(m);
    var blank := CreateBlank(m.bpm, m.beat, |m.notes|).value;
    assert CreateBlank(m.bpm, m.beat, |m.notes|) == Success(blank);
    assert Length(blank) == Length(m);
  }

  // ---------------------------------------------------------------- text

  /** The line break `AppendLine` writes; taken as a line feed. */
  const NewLine: string := "\n"

  /** The break and directive a change of scroll writes: `AppendLine()` then `AppendLine("#SCROLL ...")`. */
  function ScrollLine(c: Complex): string
  {
    NewLine + "#SCROLL " + LibMathHelper.ToComplexString(c) + NewLine
  }

  /** The scroll the loop compares the next note with, after the notes `ns`: the last note's scroll, or the carried-in value. */
  function TrackedAfter(ns: seq<NoteValue>, carry: Complex): Complex
  {
    if |ns| == 0 then carry else ns[|ns| - 1].scroll
  }

  /**
   * What `ToString(beforeScrollSpeed)` appends for the notes `ns` as written: the enum name of a
   * note whose scroll is the tracked one, and only the scroll directive for a note whose scroll differs.
   */
  function WrittenBody(ns: seq<NoteValue>, carry: Complex): string
    decreases |ns|
  {
    if |ns| == 0 then ""
    else
      var p := ns[..|ns| - 1];
      var n := ns[|ns| - 1];
      WrittenBody(p, carry) + (if n.scroll == TrackedAfter(p, carry) then Name(n.kind) else ScrollLine(n.scroll))
  }

  /** The text as written: the appended text and a comma, or `"None,"` when nothing was appended. */
  function WrittenText(ns: seq<NoteValue>, carry: Complex): string
  {
    var body := WrittenBody(ns, carry);
    if |body| > 0 then body + "," else Name(NoteType.None) + ","
  }

  /** `ToString(beforeScrollSpeed)` as written: one pass over the notes, tracking the last scroll seen. */
  method ToStringAsWritten(m: Measure, beforeScrollSpeed: Complex) returns (s: string)
    ensures s == WrittenText(m.notes, beforeScrollSpeed)
  {
    var tracked := beforeScrollSpeed;
    var notes := "";
    for i := 0 to |m.notes|
      invariant notes == WrittenBody(m.notes[..i], beforeScrollSpeed)
      invariant tracked == TrackedAfter(m.notes[..i], beforeScrollSpeed)
    {
      var note := m.notes[i];
      WrittenStep(m.notes, i, beforeScrollSpeed);
      if note.scroll == tracked {
        notes := notes + Name(note.kind);
      } else {
        notes := notes + ScrollLine(note.scroll);
        tracked := note.scroll;
      }
    }
    assert m.notes[..|m.notes|] == m.notes;
    if |notes| > 0 {
      s := notes + ",";
    } else {
      s := Name(NoteType.None) + ",";
    }
  }

  /** `ToString()`: the text with the scroll 1 carried in. */
  method ToStringDefault(m: Measure) returns (s: string)
    ensures s == WrittenText(m.notes, One)
  {
    s := ToStringAsWritten(m, One);
  }

  /**
   * As written the text ends in a comma; the empty measure is `"None,"`, and any other measure is
   * its appended text and a comma. It starts with the capital of an enum name or with the line
   * break before a scroll directive, never with a `#`.
   */
  lemma {:induction false} WrittenTextShape(ns: seq<NoteValue>, carry: Complex)
    ensures |WrittenText(ns, carry)| > 1 && WrittenText(ns, carry)[|WrittenText(ns, carry)| - 1] == ','
    ensures |ns| == 0 ==> WrittenText(ns, carry) == "None,"
    ensures |ns| > 0 ==> WrittenText(ns, carry) == WrittenBody(ns, carry) + ","
    ensures WrittenText(ns, carry)[0] == '\n' || 'A' <= WrittenText(ns, carry)[0] <= 'Z'
  {
    if |ns| > 0 {
      WrittenBodyStart(ns, carry);
    }
  }

  /** The appended text of some notes starts with the first note's piece: an enum name or a line break. */
  lemma {:induction false} WrittenBodyStart(ns: seq<NoteValue>, carry: Complex)
    requires |ns| > 0
    ensures |WrittenBody(ns, carry)| > 0
    ensures WrittenBody(ns, carry)[0] == '\n' || 'A' <= WrittenBody(ns, carry)[0] <= 'Z'
    decreases |ns|
  {
    var p := ns[..|ns| - 1];
    var n := ns[|ns| - 1];
    var before := WrittenBody(p, carry);
    var piece := if n.scroll == TrackedAfter(p, carry) then Name(n.kind) else ScrollLine(n.scroll);
    WrittenUnfold(ns, p, n, carry);
    assert |piece| > 0 && (piece[0] == '\n' || 'A' <= piece[0] <= 'Z');
    if |p| > 0 {
      WrittenBodyStart(p, carry);
      FirstOfAppend(before, piece, WrittenBody(ns, carry));
    } else {
      assert before == "";
      FirstOfAppend(piece, "", WrittenBody(ns, carry));
    }
  }

  lemma {:induction false} FirstOfAppend(a: string, b: string, ab: string)
    requires ab == a + b && |a| > 0
    ensures |ab| > 0 && ab[0] == a[0]
  {
  }

  /** As written, a note under the same scroll is written by name: one `Dong` is `"Dong,"`, not `"1,"`. */
  lemma {:induction false} WrittenNames()
    ensures WrittenText([NoteValue(Dong, One)], One) == "Dong,"
    ensures MeasureText([NoteValue(Dong, One)], One) == "1,"
  {
    var n := NoteValue(Dong, One);
    WrittenUnfold([n], [], n, One);
    assert WrittenBody([n], One) == "Dong";
    BodyUnfold([n], [], n, One);
    assert Body([n], One) == "1";
  }

  /** The text as written of some notes and one more. */
  lemma {:induction false} WrittenUnfold(ns: seq<NoteValue>, p: seq<NoteValue>, last: NoteValue, carry: Complex)
    requires ns == p + [last]
    ensures WrittenBody(ns, carry) == WrittenBody(p, carry)
      + (if last.scroll == TrackedAfter(p, carry) then Name(last.kind) else ScrollLine(last.scroll))
  {
    assert ns[..|ns| - 1] == p;
  }

  /** The text as written of the first `i + 1` notes, and the scroll tracked after them. */
  lemma {:induction false} WrittenStep(ns: seq<NoteValue>, i: nat, carry: Complex)
    requires i < |ns|
    ensures TrackedAfter(ns[..i + 1], carry) == ns[i].scroll
    ensures WrittenBody(ns[..i + 1], carry) == WrittenBody(ns[..i], carry)
      + (if ns[i].scroll == TrackedAfter(ns[..i], carry) then Name(ns[i].kind) else ScrollLine(ns[i].scroll))
  {
    WrittenUnfold(ns[..i + 1], ns[..i], ns[i], carry);
  }

  /** As written, a note whose scroll changes is replaced by the directive: two measures of different kinds write the same text. */
  lemma {:induction false} WrittenDropsNote(c: Complex, carry: Complex)
    requires c != carry
    ensures WrittenText([NoteValue(Dong, c)], carry) == WrittenText([NoteValue(Ka, c)], carry) == ScrollLine(c) + ","
  {
    var d, k := NoteValue(Dong, c), NoteValue(Ka, c);
    WrittenUnfold([d], [], d, carry);
    WrittenUnfold([k], [], k, carry);
    assert WrittenBody([d], carry) == ScrollLine(c) == WrittenBody([k], carry);
    assert |ScrollLine(c)| > 0;
  }

  /** What the corrected loop appends for one note: the directive when its scroll changes, then always its digit. */
  function Piece(n: NoteValue, tracked: Complex): string
  {
    (if n.scroll == tracked then "" else ScrollLine(n.scroll)) + DigitText(n.kind)
  }

  /** The corrected appended text: each note's piece against the scroll tracked before it. */
  function Body(ns: seq<NoteValue>, carry: Complex): string
    decreases |ns|
  {
    if |ns| == 0 then ""
    else
      var p := ns[..|ns| - 1];
      Body(p, carry) + Piece(ns[|ns| - 1], TrackedAfter(p, carry))
  }

  /**
   * `ToString(beforeScrollSpeed)` as the chart format needs it: the notes' digits, a scroll directive
   * before each note whose scroll differs from the one before it, and a closing comma; a measure with
   * no notes is a single rest, `"0,"`.
   */
  function MeasureText(ns: seq<NoteValue>, carry: Complex): (s: string)
    ensures |s| > 0 && s[|s| - 1] == ','
    ensures |ns| == 0 ==> s == "0,"
  {
    if |ns| > 0 then Body(ns, carry) + "," else DigitText(NoteType.None) + ","
  }

  /** The scroll tracked after a concatenation is the one the second part leaves, starting from what the first leaves. */
  lemma {:induction false} TrackedAppend(a: seq<NoteValue>, b: seq<NoteValue>, ab: seq<NoteValue>, carry: Complex)
    requires ab == a + b
    ensures TrackedAfter(ab, carry) == TrackedAfter(b, TrackedAfter(a, carry))
  {
    if |b| > 0 {
      assert ab[|ab| - 1] == b[|b| - 1];
    } else {
      assert ab == a;
    }
  }

  /** The text of a concatenation: the second part is written against the scroll the first part leaves. */
  lemma {:induction false} BodyAppend(a: seq<NoteValue>, b: seq<NoteValue>, ab: seq<NoteValue>, carry: Complex)
    requires ab == a + b
    ensures Body(ab, carry) == Body(a, carry) + Body(b, TrackedAfter(a, carry))
    decreases |b|
  {
    if |b| == 0 {
      assert ab == a;
    } else {
      var b' := b[..|b| - 1];
      var ab' := a + b';
      var last := b[|b| - 1];
      assert ab == ab' + [last] && b == b' + [last];
      TrackedAppend(a, b', ab', carry);
      BodyAppend(a, b', ab', carry);
      var t := TrackedAfter(a, carry);
      BodyUnfold(ab, ab', last, carry);
      BodyUnfold(b, b', last, t);
      AppendAssociates(Body(a, carry), Body(b', t), Piece(last, TrackedAfter(b', t)));
    }
  }

  /** The text of some notes and one more: the last note's piece is written against the scroll the others leave. */
  lemma {:induction false} BodyUnfold(ns: seq<NoteValue>, p: seq<NoteValue>, last: NoteValue, carry: Complex)
    requires ns == p + [last]
    ensures Body(ns, carry) == Body(p, carry) + Piece(last, TrackedAfter(p, carry))
  {
    assert ns[..|ns| - 1] == p;
  }

  lemma {:induction false} AppendAssociates<T>(x: seq<T>, y: seq<T>, z: seq<T>)
    ensures (x + y) + z == x + (y + z)
  {
  }

  /** Notes that all keep the carried scroll are written as their digits alone. */
  lemma {:induction false} BodySameScroll(ns: seq<NoteValue>, carry: Complex)
    requires forall i :: 0 <= i < |ns| ==> ns[i].scroll == carry
    ensures Body(ns, carry) == NotesText(ns)
    decreases |ns|
  {
    if |ns| > 0 {
      BodySameScroll(ns[..|ns| - 1], carry);
    }
  }

  /**
   * One change of scroll: notes at the carried scroll, then notes at another, are their digits,
   * one directive for the new scroll, and the rest of the digits.
   */
  lemma {:induction false} BodyScrollChange(a: seq<NoteValue>, b: seq<NoteValue>, ab: seq<NoteValue>, carry: Complex, c: Complex)
    requires ab == a + b && c != carry && |b| > 0
    requires forall i :: 0 <= i < |a| ==> a[i].scroll == carry
    requires forall i :: 0 <= i < |b| ==> b[i].scroll == c
    ensures Body(ab, carry) == NotesText(a) + (ScrollLine(c) + NotesText(b))
  {
    BodyAppend(a, b, ab, carry);
    BodySameScroll(a, carry);
    assert TrackedAfter(a, carry) == carry;
    var first := b[0];
    var rest := b[1..];
    assert b == [first] + rest;
    BodyAppend([first], rest, b, carry);
    BodyUnfold([first], [], first, carry);
    BodySameScroll(rest, c);
    NotesTextAppend([first], rest, b);
    NotesTextOne(first);
    var d := DigitText(first.kind);
    assert Body([first], carry) == ScrollLine(c) + d;
    AppendAssociates(ScrollLine(c), d, NotesText(rest));
  }

  lemma {:induction false} NotesTextOne(n: NoteValue)
    ensures NotesText([n]) == DigitText(n.kind)
  {
    assert [n][..0] == [];
  }

  /** The digits of a concatenation are the digits of the parts. */
  lemma {:induction false} NotesTextAppend(a: seq<NoteValue>, b: seq<NoteValue>, ab: seq<NoteValue>)
    requires ab == a + b
    ensures NotesText(ab) == NotesText(a) + NotesText(b)
    decreases |b|
  {
    if |b| == 0 {
      assert ab == a;
    } else {
      var b' := b[..|b| - 1];
      var ab' := a + b';
      var last := b[|b| - 1];
      assert ab == ab' + [last] && b == b' + [last];
      assert ab[..|ab| - 1] == ab' && b[..|b| - 1] == b';
      NotesTextAppend(a, b', ab');
      AppendAssociates(NotesText(a), NotesText(b'), DigitText(last.kind));
    }
  }

  /** The corrected text of a parsed measure, with the default scroll carried in, is its digits and a comma. */
  lemma {:induction false} MeasureTextOfParse(s: string)
    requires |Digits(s)| > 0
    ensures MeasureText(ParseNotes(s), One) == Digits(s) + ","
  {
    ParseNotesText(s);
    BodySameScroll(ParseNotes(s), One);
  }

  /** Corrected, a note whose scroll changes keeps its digit after the directive. */
  lemma {:induction false} MeasureTextKeepsNote(n: NoteValue, carry: Complex)
    requires n.scroll != carry
    ensures MeasureText([n], carry) == ScrollLine(n.scroll) + DigitText(n.kind) + ","
  {
    BodyUnfold([n], [], n, carry);
  }
}
