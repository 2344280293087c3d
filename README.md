# TJA-Supporter chart model in Dafny

This project models the in-memory chart of TJA-Supporter, a tool for the TJA text format of
taiko-style rhythm-game charts. Four kinds of object are modelled:

- **Notes.** A note has one of ten kinds, coded `0` to `9`, and a complex scroll speed. The library's
  `Note` is a mutable object; the application's older `Note` is a value struct.
- **Measures.** A measure is one bar: its notes in order, a BPM and a beat fraction. The model covers
  how long a measure lasts, how it is padded with rests, where a hit time falls in it, and its line
  of chart text.
- **Scores.** A score is the list of measures, which grows at its end. Its text writes `#BPMCHANGE`
  and `#MEASURE` directives where the values change, and carries the scroll speed from one measure
  to the next.
- **Arithmetic and text helpers.** These are both variants of Euclid's gcd, the lcm, fraction
  reduction, and the writing and reading of complex scroll speeds.

Module layout:

| module | file | what it models |
|---|---|---|
| `Notes` | `notes.dfy` | the note kinds, the `Note` class and `Note.Parse` |
| `AppNotes` | `app_notes.dfy` | the application's `Note` struct |
| `Measures` | `measures.dfy` | `Measure` |
| `Scores` | `scores.dfy` | `Score`, as a class over a `seq` of measures |
| `LibMathHelper` | `lib_math_helper.dfy` | the library's `MathHelper` |
| `AppMathHelper` | `app_math_helper.dfy` | the application's `MathHelper` |
| `Fractions` | `fractions.dfy` | `Fraction` |

Supporting modules:

- `Wrappers` holds `Option`, `Result` and the exception kinds.
- `Complexes` holds the complex value.
- `Euclid` holds the gcd specification and C#'s truncating `/` and `%`.
- `NumberText` writes integers and decimals and scans the number pattern.

Modelling conventions:

- An exception is a `Failure` result carrying its kind, and `null` is `None`.
- `double` is `real`, exactly.
- `long` and `int` are unbounded `int`.
- `Environment.NewLine` is `"\n"`.

The loops of the source are methods proved against functions:

- `Measure.Parse`, as `Measures.Parse`.
- `Measure.ToString(Complex)`, as `Measures.ToStringAsWritten`.
- `Score.ToString`, as `Scores.Score.ToString`, which calls `Measures.ToStringAsWritten` for each bar.
- Both `GCD`s, as `LibMathHelper.Gcd` and `AppMathHelper.Gcd`.

The lemmas are stated about those functions.

## Model

| member | source | states |
|---|---|---|
| Notes.CodeBijective | TJA-Supporter.Lib/Note.cs:13-55 | the ten kinds have distinct codes 0 to 9, and the code gives the kind back |
| Notes.NameInjective | TJA-Supporter.Lib/Note.cs:13-55 | different kinds have different enum names |
| Notes.KindOf | TJA-Supporter.Lib/Note.cs:113-134 | a character yields a kind exactly when it is one of `'0'`..`'9'` |
| Notes.ParseDigit | TJA-Supporter.Lib/Note.cs:115-130 | a digit parses to the kind whose code is the digit's value, and that kind's text is the digit again |
| Notes.DigitTextParses | TJA-Supporter.Lib/Note.cs:83-86 | every kind's one-character text parses back to the same kind |
| Notes.ParseExamples | TJA-Supporter.Test/NoteTest.cs:38-48 | `'\0'`, `' '`, `'A'` and `'#'` give no note; `'0'`, `'1'` and `'9'` give None, Dong and Potato |
| Notes.DefaultNote | TJA-Supporter.Lib/Note.cs:79 | a note built from a kind alone has that kind and scroll 1 |
| Notes.ParseValue | TJA-Supporter.Lib/Note.cs:113-134 | the note a character gives is present exactly for a digit, and has the digit's kind and scroll 1 |
| Notes.Note.constructor | TJA-Supporter.Lib/Note.cs:73-77 | the new note holds exactly the given kind and scroll |
| Notes.Note.OfType | TJA-Supporter.Lib/Note.cs:79 | the new note holds the kind and the default scroll 1 |
| Notes.Note.ToString | TJA-Supporter.Lib/Note.cs:83-86 | the text is one character, the digit whose value is the kind's code, and `Note.Parse` reads it back as the same kind; the scroll is not written |
| Notes.Note.ChangeType | TJA-Supporter.Lib/Note.cs:92-95 | the kind is replaced and the scroll is unchanged |
| Notes.Note.ChangeScroll | TJA-Supporter.Lib/Note.cs:101-104 | the scroll is replaced and the kind is unchanged |
| Notes.Note.Parse | TJA-Supporter.Lib/Note.cs:113-134 | the result is null exactly for a non-digit; otherwise it is a fresh note of the digit's kind with scroll 1 |
| Notes.ParseThenChange | TJA-Supporter.Lib/Note.cs:92-104 | after parsing a digit, changing the kind and then the scroll leaves exactly the two new values |
| AppNotes.Make | TJA-Supporter/Lib/Note.cs:73-77 | the struct holds exactly the given kind and speed |
| AppNotes.OfType | TJA-Supporter/Lib/Note.cs:79 | the speed defaults to 1 |
| AppNotes.ToString | TJA-Supporter/Lib/Note.cs:83-86 | the text is the kind's enum name, a capitalised word of at least two letters, never a digit |
| AppNotes.ToStringKind | TJA-Supporter/Lib/Note.cs:83-86 | two structs have the same text exactly when they have the same kind; the scroll is ignored |
| AppNotes.ToStringNotDigit | TJA-Supporter/Lib/Note.cs:83-86 | the struct's text, the enum name, is never the digit the library's note writes |
| AppNotes.ToStringExamples | TJA-Supporter/Lib/Note.cs:83-86 | Dong, Balloon and None are written `"Dong"`, `"Balloon"` and `"None"` |
| Measures.ParseNotes | TJA-Supporter.Lib/Measure.cs:209-219 | parsing never yields more notes than characters |
| Measures.Parse | TJA-Supporter.Lib/Measure.cs:209-219 | the loop's measure has exactly the specified parsed notes and the given BPM and beat |
| Measures.ParseNotesText | TJA-Supporter.Lib/Measure.cs:114-117 | the note count is the number of digits, `ToNotesString` of the parse is the input with non-digits removed, and every parsed note has scroll 1 |
| Measures.ParseAppend | TJA-Supporter.Lib/Measure.cs:213-217 | parsing keeps order: the parse of a concatenation is the concatenation of the parses |
| Measures.TextThenParse | TJA-Supporter.Lib/Measure.cs:114-117 | parsing the notes' text gives back the same kinds, each with the default scroll |
| Measures.DigitsText | TJA-Supporter.Lib/Measure.cs:209-219 | a string of digits is given back exactly by parse then `ToNotesString` |
| Measures.ParseExamples | TJA-Supporter.Test/MeasureUnitTest.cs:17-27 | `"1111"` has 4 notes and `"10201020"` has 8 |
| Measures.ParseSkipExample | TJA-Supporter.Lib/Measure.cs:213-217 | a non-digit between two digits is skipped |
| Measures.NotesText | TJA-Supporter.Lib/Measure.cs:114-117 | the notes' text has one character per note |
| Measures.NotesTextAt | TJA-Supporter.Lib/Measure.cs:114-117 | character `i` of the text is the digit of note `i` |
| Measures.Length | TJA-Supporter.Lib/Measure.cs:40 | the length times the BPM is 240 times the beat's value, whatever the notes |
| Measures.LengthExamples | TJA-Supporter.Test/MeasureUnitTest.cs:17-27 | at 120 BPM, 4/4 lasts 2, 3/4 lasts 1.5 and 8/4 lasts 4 |
| Measures.ComboOf | TJA-Supporter.Lib/Measure.cs:45-48 | the combo never exceeds the note count |
| Measures.ComboAppend | TJA-Supporter.Lib/Measure.cs:45-48 | the combo of a concatenation is the sum of the parts' combos |
| Measures.ComboOfParse | TJA-Supporter.Lib/Measure.cs:45-48 | the combo of a parsed measure counts exactly the characters `'1'` to `'4'` |
| Measures.Rests | TJA-Supporter.Lib/Measure.cs:230 | a run of `count` repeated notes of one kind with scroll 1 |
| Measures.ComboOfRests | TJA-Supporter.Lib/Measure.cs:45-48 | rests add nothing to the combo |
| Measures.CreateBlank | TJA-Supporter.Lib/Measure.cs:228-231 | a negative count raises ArgumentOutOfRange; otherwise the measure has `count` rests, combo 0, and the given BPM and beat |
| Measures.PadNotes | TJA-Supporter.Lib/Measure.cs:124-128 | padding each of `n` notes with `k` notes gives `n*(k+1)` notes |
| Measures.PadNotesAt | TJA-Supporter.Lib/Measure.cs:124-128 | index `i*(k+1)` holds original note `i` and the next `k` indices hold the padding in order |
| Measures.Padding | TJA-Supporter.Lib/Measure.cs:124-128 | `Padding(paddingNotes)` gives `n*(k+1)` notes for `n` notes and `k` padding notes, and keeps the BPM and beat |
| Measures.PaddingWith | TJA-Supporter.Lib/Measure.cs:147-151 | a negative size raises ArgumentOutOfRange; otherwise the length is `n*(size+1)` and the BPM and beat are kept |
| Measures.PaddingRests | TJA-Supporter.Lib/Measure.cs:158-161 | `Padding(size)` raises ArgumentOutOfRange exactly for a negative size; otherwise it gives `n*(size+1)` notes, keeps the combo, and keeps the BPM and beat |
| Measures.PaddingRestsAt | TJA-Supporter.Lib/Measure.cs:158-161 | `Padding(size)` puts note `i` at `i*(size+1)`, followed by `size` rests |
| Measures.PaddingRestsCombo | TJA-Supporter.Lib/Measure.cs:158-161 | padding with rests keeps the combo |
| Measures.PaddingText | TJA-Supporter.Lib/Measure.cs:135-139 | `Padding(string)` gives exactly the parsed notes with this measure's BPM and beat; the old notes are dropped |
| Measures.PaddingRestsText | TJA-Supporter.Lib/Measure.cs:158-161 | the padded text is the original text with `k` zeros after each digit |
| Measures.PaddingExamples | TJA-Supporter.Test/MeasureUnitTest.cs:29-37 | `"1010"` padded by 1 is `"10001000"`, and `"11221"` padded by 2 is `"100100200200100"` |
| Measures.LengthUntil | TJA-Supporter.Lib/Measure.cs:169-172 | the time until note `k`, times the note count, is `k` times the measure's length |
| Measures.LengthUntilBounds | TJA-Supporter.Lib/Measure.cs:169-172 | the time until note 0 is 0, the time until the last note is the length, and for a non-negative length it grows with the count |
| Measures.TruncateBounds | TJA-Supporter.Lib/Measure.cs:189 | the `(int)` cast truncates toward zero |
| Measures.Locate | TJA-Supporter.Lib/Measure.cs:180-198 | the locator raises Argument exactly when the start is after the hit |
| Measures.NearIndex | TJA-Supporter.Lib/Measure.cs:180-198 | the instance `GetNearIndex` raises Argument exactly when the start is after the hit; otherwise its offset is the truncated number of measure lengths between them |
| Measures.LocateOffset | TJA-Supporter.Lib/Measure.cs:186-189 | the offset is a non-negative count of whole measures that lie between the start and the hit |
| Measures.LocateWithin | TJA-Supporter.Lib/Measure.cs:186-195 | a hit within the first measure has offset 0 and an index below the note count |
| Measures.LocateBeyond | TJA-Supporter.Lib/Measure.cs:189-195 | a hit one measure or more past the start has an index in `[n, 2n)`: it lies outside the measure |
| Measures.NearIndexExample | TJA-Supporter.Lib/Measure.cs:189-195 | in a 4-note 4/4 measure at 120 BPM, a hit 3 seconds after the start is located at `(1, 6)`, by the instance method and by the static overload |
| Measures.LocateFoldedSlot | TJA-Supporter.Lib/Measure.cs:180-198 | the corrected locator keeps the offset, puts the index in `[0, n)`, places the hit in that slot of that measure, and agrees with the code inside the first measure |
| Measures.NearIndexOfShape | TJA-Supporter.Lib/Measure.cs:242-246 | the static overload raises ArgumentOutOfRange for a negative note count; for a positive count it raises Argument exactly when the start is after the hit |
| Measures.NearIndexOfShapeAgrees | TJA-Supporter.Lib/Measure.cs:242-246 | the static overload equals the instance `GetNearIndex`, as written, of any measure with that BPM, beat and note count |
| Measures.ToStringAsWritten | TJA-Supporter.Lib/Measure.cs:81-103 | the loop yields the as-written text of the notes against the carried-in scroll |
| Measures.ToStringDefault | TJA-Supporter.Lib/Measure.cs:105-108 | `ToString()` is `ToString(1)` |
| Measures.WrittenTextShape | TJA-Supporter.Lib/Measure.cs:81-103 | the as-written text ends in `','`; it is `"None,"` for no notes and the appended text plus `","` otherwise; it starts with the capital of an enum name or with a line break |
| Measures.WrittenStep | TJA-Supporter.Lib/Measure.cs:85-97 | each note appends its enum name when its scroll is the tracked one, and otherwise only a scroll directive, after which it is the tracked scroll |
| Measures.WrittenNames | TJA-Supporter.Lib/Measure.cs:90 | one Dong at the carried scroll is written `"Dong,"` as written and `"1,"` corrected |
| Measures.WrittenDropsNote | TJA-Supporter.Lib/Measure.cs:92-97 | as written, a Dong and a Ka at a new scroll produce the same text: the note is lost |
| Measures.MeasureText | TJA-Supporter.Lib/Measure.cs:81-103 | the corrected text always ends in `','` and is `"0,"` for a measure with no notes |
| Measures.MeasureTextOfParse | TJA-Supporter.Lib/Measure.cs:85-100 | the corrected text, with every scroll equal to the carry, is the digits followed by `","` |
| Measures.MeasureTextKeepsNote | TJA-Supporter.Lib/Measure.cs:92-97 | a note at a new scroll is written as the scroll directive followed by its digit |
| Measures.BodySameScroll | TJA-Supporter.Lib/Measure.cs:87-91 | in the corrected text, notes that share the tracked scroll are written as their digits only |
| Measures.BodyScrollChange | TJA-Supporter.Lib/Measure.cs:92-97 | in the corrected text, a change of scroll in the middle writes one directive, and then the rest of the digits |
| Measures.TrackedAppend | TJA-Supporter.Lib/Measure.cs:96 | the tracked scroll after a concatenation continues from that after the first part |
| Scores.Score.constructor | TJA-Supporter.Lib/Score.cs:81-84 | the score holds exactly the given measures |
| Scores.Score.At | TJA-Supporter.Lib/Score.cs:27-30 | the indexer raises ArgumentOutOfRange exactly outside the list, and otherwise gives that measure |
| Scores.Score.FirstMeasure | TJA-Supporter.Lib/Score.cs:35-44 | null exactly for an empty score, and otherwise measure 0 |
| Scores.Score.LastMeasure | TJA-Supporter.Lib/Score.cs:49-58 | null exactly for an empty score, and otherwise the measure at count − 1 |
| Scores.Score.AddMeasure | TJA-Supporter.Lib/Score.cs:92-95 | the measure is appended at the end; the count grows by one, it becomes the last measure, the combo grows by its combo, and the first measure is kept |
| Scores.Score.AddMeasureFrom | TJA-Supporter.Lib/Score.cs:101-104 | what the function returns for the current last measure is appended |
| Scores.Score.AddBlankMeasure | TJA-Supporter.Lib/Score.cs:113-126 | a negative count raises ArgumentOutOfRange and leaves the list; otherwise a blank measure is appended that takes the last measure's BPM and beat, or 120 and 4/4 when the score is empty |
| Scores.BlankAfter | TJA-Supporter.Lib/Score.cs:115-124 | the blank has `count` rests; its BPM and beat come from the last measure if there is one and from the defaults if not |
| Scores.SumsAppend | TJA-Supporter.Lib/Score.cs:63-73 | the combo and the length of a split list are the sums over its parts |
| Scores.ComboSumBound | TJA-Supporter.Lib/Score.cs:68 | the score's combo never exceeds its total note count |
| Scores.Score.ToString | TJA-Supporter.Lib/Score.cs:132-155 | the loop, which writes each measure with `Measures.ToStringAsWritten` against the carried scroll, gives exactly the specified chart text, or InvalidOperation |
| Scores.ScoreText | TJA-Supporter.Lib/Score.cs:132-155 | the chart text, whose bars are the measures' as-written texts, fails exactly when its lines fail, and then with InvalidOperation |
| Scores.ScoreLinesSucceed | TJA-Supporter.Lib/Score.cs:151-152 | the text exists exactly when every measure has a note (`Last()` raises on an empty one) |
| Scores.ScoreLinesPrefix | TJA-Supporter.Lib/Score.cs:138-153 | measures are written in list order, each once: the lines of the first `k+1` are those of the first `k` and then block `k`, and they begin the whole text |
| Scores.ScoreTextAppend | TJA-Supporter.Lib/Score.cs:138-153 | appending a measure that has notes appends exactly its block to the text: the directives that change and its as-written bar |
| Scores.ScoreTextStartsWithBpm | TJA-Supporter.Lib/Score.cs:136-144 | the text begins with `#BPMCHANGE` and the first measure's BPM |
| Scores.BlockBpmChange | TJA-Supporter.Lib/Score.cs:140-144 | a block starts with a BPM change exactly for the first measure or when the BPM differs from the previous measure's |
| Scores.BlockBeatChange | TJA-Supporter.Lib/Score.cs:145-149 | a block has a `#MEASURE` line exactly when the beat's value differs from the previous measure's, or from 0 at the first |
| Scores.EqualBeatsExample | TJA-Supporter.Lib/Score.cs:137-149 | 2/4 followed by 4/8 at the same BPM writes no second directive, while the first measure gets both |
| Scores.BlockCarry | TJA-Supporter.Lib/Score.cs:135-152 | the first measure is written against scroll 0 and every other against the scroll of the previous measure's last note |
| Scores.ScoreBars | TJA-Supporter.Lib/Score.cs:151-152 | the text holds one measure line per measure, in order, each the measure's as-written text against its carried scroll |
| Scores.ScoreTextStep | TJA-Supporter.Lib/Score.cs:138-153 | one turn of the loop extends the text of a prefix by that measure's directives and its as-written line |
| Scores.ScoreDropsFirstNote | TJA-Supporter.Lib/Score.cs:135-151 | a chart of one Dong at scroll 1, 120 BPM, 4/4 is written `"#BPMCHANGE 120\n#MEASURE 4/4\n\n#SCROLL 1\n,\n"`: the carried scroll 0 differs from 1, so the note is lost |
| LibMathHelper.GcdResult | TJA-Supporter.Lib/Math/MathHelper.cs:23-42 | after the swap a zero smaller argument raises DivideByZero; otherwise the result is, up to sign, the gcd of the magnitudes |
| LibMathHelper.Gcd | TJA-Supporter.Lib/Math/MathHelper.cs:23-42 | the swap and the loop compute the specified result |
| LibMathHelper.GcdPositiveArguments | TJA-Supporter.Lib/Math/MathHelper.cs:23-42 | for positive arguments the result is exactly the greatest common divisor |
| LibMathHelper.GcdDivides | TJA-Supporter.Lib/Math/MathHelper.cs:26-41 | the result divides both arguments, and every common divisor divides it |
| LibMathHelper.GcdCommutes | TJA-Supporter.Lib/Math/MathHelper.cs:26-32 | for positive arguments the order does not matter |
| LibMathHelper.GcdOfZero | TJA-Supporter.Lib/Math/MathHelper.cs:26-35 | among non-negative arguments, a zero one reaches `x % 0` after the swap |
| LibMathHelper.GcdExamples | TJA-Supporter.Test/Math/MathTest.cs:12-22 | (2,3)→1, (5,4)→1, (4,6)→2, (145,120)→5 and (608,532)→76 |
| LibMathHelper.LcmResult | TJA-Supporter.Lib/Math/MathHelper.cs:52-56 | the lcm raises when the gcd does, and the lcm times the gcd is `x*y` |
| LibMathHelper.LcmCommonMultiple | TJA-Supporter.Lib/Math/MathHelper.cs:52-56 | for positive arguments the lcm is positive, gcd times lcm is `x*y`, and both arguments divide it |
| LibMathHelper.LcmExamples | TJA-Supporter.Test/Math/MathTest.cs:24-33 | (2,3)→6, (12,8)→24, (16,12)→48 and (13,17)→221 |
| LibMathHelper.ToComplexString | TJA-Supporter.Lib/Math/MathHelper.cs:60-77 | a `+` appears exactly when the real part is not zero and the imaginary part is positive, and the text ends in `i` exactly when the imaginary part is not zero; the application's copy, TJA-Supporter/Lib/Math/MathHelper.cs:52-69, is the same code |
| LibMathHelper.ComplexStringExamples | TJA-Supporter.Test/Math/ComplexTest.cs:13-26 | 0, 1, i, −1 and −i are written `"0"`, `"1"`, `"1i"`, `"-1"` and `"-1i"` |
| LibMathHelper.ComplexStringBothExamples | TJA-Supporter.Test/Math/ComplexTest.cs:13-26 | 1+i is `"1+1i"` and −2−2i is `"-2-2i"` |
| LibMathHelper.ComplexStringDecimalExample | TJA-Supporter.Test/Math/ComplexTest.cs:13-26 | 3.5+4.1i is `"3.5+4.1i"` |
| LibMathHelper.MatchComplex | TJA-Supporter.Lib/Math/MathHelper.cs:88 | the pattern, every piece of which is optional, always matches at position 0 |
| LibMathHelper.ParseToComplex | TJA-Supporter.Lib/Math/MathHelper.cs:86-104 | the match always succeeds, so the ArgumentException at line 103 is unreachable |
| LibMathHelper.ParseWithoutNumber | TJA-Supporter.Lib/Math/MathHelper.cs:88-99 | a text that is empty or whose first character is neither a digit nor a sign parses to 0 |
| LibMathHelper.ParseRealAlone | TJA-Supporter.Lib/Math/MathHelper.cs:88-99 | a real number written without an exponent parses to itself with imaginary part 0 |
| LibMathHelper.ParseBothParts | TJA-Supporter.Lib/Math/MathHelper.cs:88-99 | a real part, sign and imaginary part with `i`, both written without an exponent, parse to both parts |
| LibMathHelper.ParseRealExamples | TJA-Supporter.Test/Math/ComplexTest.cs:28-42 | `"0"`, `"1"` and `"-1"` parse to 0, 1 and −1 |
| LibMathHelper.ParseUnitExample | TJA-Supporter.Test/Math/ComplexTest.cs:28-42 | `"0+1i"` parses to i |
| LibMathHelper.ParseBothExample | TJA-Supporter.Test/Math/ComplexTest.cs:28-42 | `"1+1i"` parses to 1+i |
| LibMathHelper.ParseNegativeUnitExample | TJA-Supporter.Test/Math/ComplexTest.cs:28-42 | `"0-1i"` parses to −i |
| LibMathHelper.ParseNegativeBothExample | TJA-Supporter.Test/Math/ComplexTest.cs:28-42 | `"-1-1i"` parses to −1−i |
| LibMathHelper.ParseTenthsExample | TJA-Supporter.Test/Math/ComplexTest.cs:28-42 | `"0.5+0.8i"` parses to 0.5+0.8i |
| LibMathHelper.ParseThousandthsExample | TJA-Supporter.Test/Math/ComplexTest.cs:28-42 | `"-1.414+1.414i"` parses to −1.414+1.414i |
| LibMathHelper.FormatThenParse | TJA-Supporter.Lib/Math/MathHelper.cs:60-104 | for parts written without an exponent, writing then reading gives the value back exactly when it is not a bare imaginary number, which comes back as a real one |
| LibMathHelper.ImaginaryUnitMisread | TJA-Supporter.Lib/Math/MathHelper.cs:88 | i is written `"1i"` and read back as the real number 1 |
| LibMathHelper.FormatThenParseFixed | TJA-Supporter.Lib/Math/MathHelper.cs:88 | with the imaginary group tried first, writing then reading gives back every value whose parts are written without an exponent |
| LibMathHelper.FixedAgrees | TJA-Supporter.Lib/Math/MathHelper.cs:86-104 | the corrected reader agrees with the code on every text whose leading number has no `i` |
| AppMathHelper.GcdResult | TJA-Supporter/Lib/Math/MathHelper.cs:22-34 | `y = 0` raises DivideByZero; otherwise the result is, up to sign, the gcd of the magnitudes |
| AppMathHelper.Gcd | TJA-Supporter/Lib/Math/MathHelper.cs:22-34 | the loop computes the specified result |
| AppMathHelper.GcdAgreesWithSwapping | TJA-Supporter/Lib/Math/MathHelper.cs:22-34 | for positive arguments it agrees with the swapping gcd and is the greatest common divisor |
| AppMathHelper.GcdDivides | TJA-Supporter/Lib/Math/MathHelper.cs:25-33 | the result divides both positive inputs, and every common divisor divides it |
| AppMathHelper.GcdOfZero | TJA-Supporter/Lib/Math/MathHelper.cs:27-29 | `GCD(0, y)` returns `y`, where the swapping version raises |
| AppMathHelper.GcdSmallerFirst | TJA-Supporter/Lib/Math/MathHelper.cs:25-33 | with `x < y` the first step exchanges the arguments |
| AppMathHelper.LcmResult | TJA-Supporter/Lib/Math/MathHelper.cs:44-48 | the lcm raises exactly when `y = 0`, and the lcm times the gcd is `x*y` |
| AppMathHelper.LcmCommonMultiple | TJA-Supporter/Lib/Math/MathHelper.cs:44-48 | for positive arguments the lcm equals the library's, is positive, and is a common multiple |
| AppMathHelper.GcdExamples | TJA-Supporter/Lib/Math/MathHelper.cs:22-34 | (2,3)→1, (4,6)→2, (145,120)→5 and (608,532)→76, and also `GCD(0, 7) = 7` and a DivideByZero for `GCD(7, 0)` |
| Fractions.Value | TJA-Supporter/Lib/Math/Fraction.cs:27 | the value times the denominator is the numerator |
| Fractions.Reduce | TJA-Supporter/Lib/Math/Fraction.cs:47-56 | reducing raises DivideByZero exactly for a zero denominator |
| Fractions.ReduceCofactors | TJA-Supporter/Lib/Math/Fraction.cs:47-56 | both stored terms are the gcd times the reduced terms |
| Fractions.ReducePreservesRatio | TJA-Supporter/Lib/Math/Fraction.cs:47-56 | for a non-zero denominator `n'*d = n*d'`, the new denominator is not zero, and the value is kept |
| Fractions.ReduceCoprime | TJA-Supporter/Lib/Math/Fraction.cs:51-53 | with positive terms the reduced terms are positive and coprime |
| Fractions.ReduceIdempotent | TJA-Supporter/Lib/Math/Fraction.cs:51-53 | with a non-negative numerator and a positive denominator, reducing twice equals reducing once |
| Fractions.ReduceZero | TJA-Supporter/Lib/Math/Fraction.cs:51-53 | a zero numerator reduces to `0/1` |
| Fractions.ReduceExamples | TJA-Supporter/Lib/Math/Fraction.cs:47-56 | 6/8 → 3/4, 4/4 → 1/1, and 3/0 raises |
| Fractions.ToString | TJA-Supporter/Lib/Math/Fraction.cs:62-65 | the text holds a slash |
| Fractions.ToStringInjective | TJA-Supporter/Lib/Math/Fraction.cs:62-65 | the text gives both stored terms back, so equal-valued fractions such as 2/4 and 4/8 are written differently |
| Fractions.ToStringExamples | TJA-Supporter/Lib/Math/Fraction.cs:62-65 | 4/4 is `"4/4"` and −3/8 is `"-3/8"` |

## Left out

- Floating point: `double` is modelled as an exact `real`. Rounding, NaN and infinity are not modelled.
  - Where the source would divide by zero, a precondition stands instead: a zero BPM, a zero beat value, or no notes in `GetLengthUntil` and `GetNearIndex`. These are `Timed`, `|m.notes| > 0` and `Length(m) != 0.0`.
  - `Score.Length` requires every measure to be timed (`AllTimed`).
  - `Score.ToString` requires every beat to have a non-zero denominator (`BeatsDefined`), because `Fraction.Value` is compared.
- Number text: `double.ToString` is modelled by `NumberText.RealText`. It writes the exact decimal expansion, with at most `MaxFractionDigits` fractional digits and no exponent. That agrees with .NET only for the values in `NumberText.PlainNotation`. Culture settings are not modelled.
  - `double.Parse` is exact.
  - The round-trip lemmas require `IsShortDecimal`, which says `RealText` writes the value exactly, and `NumberText.PlainNotation`, which says `double.ToString()` writes it without an exponent.
- LibMathHelper.ParseRealAlone, LibMathHelper.ParseBothParts, LibMathHelper.FormatThenParse and LibMathHelper.FormatThenParseFixed: the round trip is proved only for parts that are 0 or have a magnitude from 0.0001 up to 10^15. Outside that range .NET writes an exponent, for example `1E-05`, which `RealText` does not model. The pattern then reads the `1` and stops at the `E`, so the round trip fails there.
- LibMathHelper.MatchComplex, LibMathHelper.ParseToComplex and LibMathHelper.ParseWithoutNumber: `\d` is read as an ASCII digit. The pattern is built without `RegexOptions.ECMAScript` (TextHelper.cs:30), so .NET's `\d` matches any Unicode decimal digit, such as `٣`. `double.Parse` then throws FormatException at MathHelper.cs:94. The model's scanner stops at such a digit, so a text that starts with one parses to 0 and that FormatException is not modelled.
- Integer width: `long` and `int` are unbounded. The overflow of `x * y` in both `LCM`s, and the `long` range of `GCD`, are not modelled.
- `Environment.NewLine` is taken to be `"\n"`.
- Scores.Score.ToString: the `-∞` starting BPM is modelled as no BPM, `None`. This gives the same comparisons for every finite BPM.
- Scores.ScoreText writes each bar as the program does, with the as-written `Measures.WrittenText`: enum names, and the note dropped at a scroll change. A chart text built on the corrected `Measures.MeasureText` is not modelled; the corrected measure text is stated measure by measure.
- Scores.Score.constructor, Scores.Score.AddMeasure, Scores.Score.AddMeasureFrom and Scores.Score.AddBlankMeasure: the score holds its own copy of the measures, as a `seq`. The source keeps the caller's `IList` itself (Score.cs:83) and exposes it through `Measures`, so an add is seen by every holder of that list and outside changes to it are seen by the score; this sharing is not modelled. The NotSupportedException that `Add` raises on a fixed-size or read-only list, such as a `Measure[]`, is not modelled either: every add succeeds.
- Aliasing: `CreateBlank` and `Padding(type, size)` repeat one shared `Note` object. The notes of a measure are modelled as values, so writing through one slot is not seen to change the others.
- `IEnumerable` laziness and re-enumeration are not modelled: `Notes` is a `seq` and `Measures` is a `seq` field.
- Measure.cs:215 tests `n.HasValue` on the class-typed `Note`. As C# this does not compile. It is modelled as the evident null check of `Note.Parse`'s result.
- The `Measure` indexer (Measure.cs:55-58) and `LastNote` (Measure.cs:63) are plain sequence reads. They have no member of their own; the score's indexer is `Scores.Score.At`.
- Scores.Score.MeasureCount, Scores.Score.Combo and Scores.Score.Length are plain reads of the list length and the two sums. What they promise is stated by Scores.Score.AddMeasure, Scores.SumsAppend and Scores.ComboSumBound.
- `ScoreHelper.NearMerge` is not part of this model. It calls `Score.GetLengthUntil` and `Measure.EnumerateNotesAndLength`, which do not exist in the files it builds on, and it relies on `Math.Round` on doubles.
- `StringHelper.PullOut` is not part of this model. It is a thin wrapper over .NET regular expressions; the one pattern `ParseToComplex` uses is modelled as the scanner `LibMathHelper.MatchComplex`.
- `EnumerableEx.Just` is not part of this model. It is a one-element iterator.
- No chart text parser (`Score.Parse`) exists in these files, so none is modelled.

## Findings

| source | as written | input that shows it | evidently intended | confidence | as-written member | corrected member |
|---|---|---|---|---|---|---|
| TJA-Supporter.Lib/Measure.cs:90 | appends `note.Type.ToString()`, the enum name | one Dong at the carried scroll gives `"Dong,"` | the kind's digit, as `Note.ToString()` and the TJA format use, giving `"1,"` | not executed | Measures.WrittenNames | Measures.MeasureTextOfParse |
| TJA-Supporter.Lib/Measure.cs:92-97 | the scroll-change branch writes the directive but not the note | a Dong and a Ka at a new scroll give the same text; a chart whose first note is at scroll 1 loses it (`Scores.ScoreDropsFirstNote`) | the directive followed by the note's digit | not executed | Measures.WrittenDropsNote | Measures.MeasureTextKeepsNote |
| TJA-Supporter.Lib/Measure.cs:189-195 | the relative time is divided by the offset instead of reduced by whole measures | 4 notes, 4/4 at 120 BPM, start 0, hit 3.0: located at `(1, 6)`, beyond the 4 slots | the time less `offset` lengths, so the index is a slot of the measure | not executed | Measures.LocateBeyond | Measures.LocateFoldedSlot |
| TJA-Supporter.Lib/Math/MathHelper.cs:88 | the greedy real group takes the number that the imaginary group needed | `ToComplexString` of i is `"1i"`, which parses to 1 | a pure imaginary text reads as imaginary, so that writing then reading is the identity | not executed | LibMathHelper.ImaginaryUnitMisread | LibMathHelper.FormatThenParseFixed |
