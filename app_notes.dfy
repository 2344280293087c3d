/**
 * The application's own `TJA_Supporter.Lib.Note`: a struct holding the same ten kinds and a scroll,
 * written out by the name of its kind rather than by its code.
 */
module AppNotes {
  import opened Complexes
  import opened Notes

  /** A struct: a value, copied on assignment. */
  datatype AppNote = AppNote(kind: NoteType, scroll: Complex)

  /** `Note(type, speed)`. */
  function Make(t: NoteType, speed: Complex): (n: AppNote)
    ensures n.kind == t && n.scroll == speed
  {
    AppNote(t, speed)
  }

  /** `Note(type)`: the scroll defaults to 1. */
  function OfType(t: NoteType): (n: AppNote)
    ensures n.kind == t && n.scroll == One
  {
    Make(t, One)
  }

  /** `ToString()`: the name of the kind, a capitalised word of more than one letter; the scroll is not written. */
  function ToString(n: AppNote): (s: string)
    ensures |s| > 1 && 'A' <= s[0] <= 'Z'
  {
    Name(n.kind)
  }

  /** The text gives the kind back, and ignores the scroll. */
  lemma {:induction false} ToStringKind(n: AppNote, m: AppNote)
    ensures ToString(n) == ToString(m) <==> n.kind == m.kind
  {
    if ToString(n) == ToString(m) {
      NameInjective(n.kind, m.kind);
    }
  }

  /** The struct's text is never the digit the library's `Note` writes for the same kind. */
  lemma {:induction false} ToStringNotDigit(n: AppNote)
    ensures |ToString(n)| > 1 && |DigitText(n.kind)| == 1
    ensures ToString(n) != DigitText(n.kind)
  {
  }

  lemma {:induction false} ToStringExamples()
    ensures ToString(OfType(Dong)) == "Dong" && ToString(Make(Balloon, Zero)) == "Balloon"
    ensures ToString(OfType(NoteType.None)) == "None"
  {
  }
}
