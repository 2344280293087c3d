/** `TJA_Supporter.Lib.Note`: the ten note kinds, the mutable `Note` object, and `Note.Parse`. */
module Notes {
  import opened Wrappers
  import opened Complexes
  import opened NumberText

  /** `NoteType`: the kinds of note a chart line writes, in the order of their codes. */
  datatype NoteType =
    | None | Dong | Ka | LargeDong | LargeKa
    | Consecutive | LargeConsecutive | Balloon | ConsecutiveEnd | Potato

  /** The integer each kind is declared with: `(int)type`. */
  function Code(t: NoteType): (n: nat)
    ensures n < 10
  {
    match t
    case None => 0
    case Dong => 1
    case Ka => 2
    case LargeDong => 3
    case LargeKa => 4
    case Consecutive => 5
    case LargeConsecutive => 6
    case Balloon => 7
    case ConsecutiveEnd => 8
    case Potato => 9
  }

  /** The kind declared with code `n`. */
  function OfCode(n: nat): (t: NoteType)
    requires n < 10
    ensures Code(t) == n
  {
    if n == 0 then NoteType.None
    else if n == 1 then Dong
    else if n == 2 then Ka
    else if n == 3 then LargeDong
    else if n == 4 then LargeKa
    else if n == 5 then Consecutive
    else if n == 6 then LargeConsecutive
    else if n == 7 then Balloon
    else if n == 8 then ConsecutiveEnd
    else Potato
  }

  /** The codes are one-to-one: the ten kinds are exactly the codes 0 to 9. */
  lemma {:induction false} CodeBijective(t: NoteType, u: NoteType)
    ensures OfCode(Code(t)) == t
    ensures Code(t) == Code(u) <==> t == u
  {
  }

  /** The enum member's name, as `NoteType.ToString()` writes it. */
  function Name(t: NoteType): (s: string)
    ensures |s| > 1 && 'A' <= s[0] <= 'Z'
  {
    match t
    case None => "None"
    case Dong => "Dong"
    case Ka => "Ka"
    case LargeDong => "LargeDong"
    case LargeKa => "LargeKa"
    case Consecutive => "Consecutive"
    case LargeConsecutive => "LargeConsecutive"
    case Balloon => "Balloon"
    case ConsecutiveEnd => "ConsecutiveEnd"
    case Potato => "Potato"
  }

  /** Different kinds have different names. */
  lemma {:induction false} NameInjective(t: NoteType, u: NoteType)
    requires Name(t) == Name(u)
    ensures t == u
  {
    // The first letter and the length already tell the ten names apart.
    assert Name(t)[0] == Name(u)[0] && |Name(t)| == |Name(u)|;
  }

  /** `Note.ToString()`: the code of the kind as a decimal digit. */
  function DigitText(t: NoteType): string
  {
    [DigitChar(Code(t))]
  }

  /**
   * The kind `Note.Parse` gives a character: one per digit `'0'`..`'9'`, none (a `null` note)
   * for any other character.
   */
  function KindOf(c: char): (r: Option<NoteType>)
    ensures r.Some? <==> '0' <= c <= '9'
  {
    if '0' <= c <= '9' then
      Some(match c
        case '0' => NoteType.None
        case '1' => Dong
        case '2' => Ka
        case '3' => LargeDong
        case '4' => LargeKa
        case '5' => Consecutive
        case '6' => LargeConsecutive
        case '7' => Balloon
        case '8' => ConsecutiveEnd
        case '9' => Potato
        case _ => NoteType.None)
    else Option.None
  }

  /** A digit is parsed to the kind whose code is its value, and that kind's text is the digit again. */
  lemma {:induction false} ParseDigit(c: char)
    requires '0' <= c <= '9'
    ensures KindOf(c).Some?
    ensures Code(KindOf(c).value) == c as int - '0' as int
    ensures DigitText(KindOf(c).value) == [c]
  {
  }

  /** The text of every kind parses back to that kind. */
  lemma {:induction false} DigitTextParses(t: NoteType)
    ensures |DigitText(t)| == 1 && KindOf(DigitText(t)[0]) == Some(t)
  {
  }

  lemma {:induction false} ParseExamples()
    ensures KindOf('\0') == Option.None && KindOf(' ') == Option.None
    ensures KindOf('A') == Option.None && KindOf('#') == Option.None
    ensures KindOf('0') == Some(NoteType.None) && KindOf('1') == Some(Dong) && KindOf('9') == Some(Potato)
  {
  }

  /** What a `Note` object holds at one moment: the value the measures keep. */
  datatype NoteValue = NoteValue(kind: NoteType, scroll: Complex)

  /** `Note(type)`, the note every parse and every blank measure makes: the default scroll 1. */
  function DefaultNote(t: NoteType): (n: NoteValue)
    ensures n.kind == t && n.scroll == One
  {
    NoteValue(t, One)
  }

  /** The note a character gives to `Measure.Parse`. */
  function ParseValue(c: char): (r: Option<NoteValue>)
    ensures r.Some? <==> '0' <= c <= '9'
    ensures r.Some? ==> r.value.kind == KindOf(c).value && r.value.scroll == One
  {
    if KindOf(c).Some? then Some(DefaultNote(KindOf(c).value)) else Option.None
  }

  /** `Note`: a kind and a scroll speed, each replaced in place by its own method. */
  class Note {
    var kind: NoteType
    var scroll: Complex

    /** `Note(type, speed)`. */
    constructor (t: NoteType, speed: Complex)
      ensures kind == t && scroll == speed
    {
      kind := t;
      scroll := speed;
    }

    /** `Note(type)`: the scroll defaults to 1. */
    constructor OfType(t: NoteType)
      ensures kind == t && scroll == One
    {
      kind := t;
      scroll := One;
    }

    function Value(): NoteValue
      reads this
    {
      NoteValue(kind, scroll)
    }

    /** `ToString()`: the digit of the kind, which reads back as the kind; the scroll is not written. */
    function ToString(): (s: string)
      reads this
      ensures |s| == 1 && KindOf(s[0]) == Some(kind)
      ensures s[0] as int - '0' as int == Code(kind)
    {
      DigitTextParses(kind);
      DigitText(kind)
    }

    /** `ChangeType`: the kind is replaced, the scroll kept. */
    method ChangeType(t: NoteType)
      modifies this
      ensures kind == t && scroll == old(scroll)
    {
      kind := t;
    }

    /** `ChangeScroll`: the scroll is replaced, the kind kept. */
    method ChangeScroll(c: Complex)
      modifies this
      ensures scroll == c && kind == old(kind)
    {
      scroll := c;
    }

    /** `Note.Parse(c)`: a new note of the digit's kind with the default scroll, or `null` when `c` is not a digit. */
    static method Parse(c: char) returns (n: Note?)
      ensures n == null <==> !KindOf(c).Some?
      ensures n != null ==> fresh(n) && n.Value() == ParseValue(c).value
    {
      if KindOf(c).Some? {
        n := new Note.OfType(KindOf(c).value);
      } else {
        n := null;
      }
    }
  }

  /** Changing the kind then the scroll of a parsed note leaves exactly those two values. */
  method ParseThenChange(c: char, t: NoteType, s: Complex) returns (n: Note?)
    ensures n == null <==> !('0' <= c <= '9')
    ensures n != null ==> fresh(n) && n.Value() == NoteValue(t, s)
  {
    n := Note.Parse(c);
    if n != null {
      n.ChangeType(t);
      n.ChangeScroll(s);
    }
  }
}
