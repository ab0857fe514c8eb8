/** NUL-terminated C strings and nullable pointers to them.

A `CString` holds the characters before the terminating NUL, so it contains none itself, and it is
short enough to be indexed, terminator included, by a `size_t`. */
module CStrings {

  datatype Option<+T> = None | Some(value: T)

  /** The largest value of a 64-bit `size_t`. */
  const SIZE_MAX: nat := 0xFFFF_FFFF_FFFF_FFFF

  type CString = s: string | '\0' !in s && |s| < SIZE_MAX witness ""

  /** What `s[i]` reads in C for `0 <= i <= strlen(s)`: the terminator is part of the string. */
  function At(s: string, i: nat): char
    requires i <= |s|
  {
    if i < |s| then s[i] else '\0'
  }
}
