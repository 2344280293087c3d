/** `System.Numerics.Complex` as the core uses it: a pair of parts compared by equality. */
module Complexes {

  datatype Complex = Complex(re: real, im: real)

  /** The implicit conversion of the integer 1 (the default scroll speed). */
  const One := Complex(1.0, 0.0)

  /** The implicit conversion of the integer 0 (the scroll carried into a chart's first measure). */
  const Zero := Complex(0.0, 0.0)
}
