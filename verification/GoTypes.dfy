/** Types of the source language that several modules share. */
module GoTypes {

  const MAX_INT64 := 0x7fff_ffff_ffff_ffff

  /** The 64-bit int of the source. */
  type GoInt = i: int | -MAX_INT64 - 1 <= i <= MAX_INT64

  /** A pointer or a map lookup that may yield nothing. */
  datatype Option<+T> = None | Some(value: T)
}
