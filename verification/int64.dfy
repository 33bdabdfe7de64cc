/** Signed 64-bit integers, the element and index type of the search. */
module Int64 {

  const MIN: int := -0x8000_0000_0000_0000
  const MAX: int := 0x7fff_ffff_ffff_ffff

  /** Go's `int64`: every value lies in [-2^63, 2^63). Comparisons on this
      type are the full-width signed comparisons of the mathematical integers. */
  newtype int64 = x: int | MIN <= x <= MAX
}
