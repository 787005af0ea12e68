/** Shared vocabulary: optional values and the Go integer widths the model keeps. */
module Common {

  /** A value that may be absent (Go's nil pointer, nil map, missing value). */
  datatype Option<+T> = None | Some(value: T)

  /** Go's `byte`. */
  type byte = x: int | 0 <= x < 0x100

  /** Go's `uint32`. */
  type uint32 = x: int | 0 <= x < 0x1_0000_0000

  /** Go's `int32`. */
  type int32 = x: int | -0x8000_0000 <= x < 0x8000_0000

  /** True when no element of `s` equals `c`. */
  predicate AbsentFrom(c: char, s: string)
  {
    forall i :: 0 <= i < |s| ==> s[i] != c
  }
}
