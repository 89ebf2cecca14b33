/** Substring occurrence, shared by the entry pattern and string replacement. */
module Strings {
  /** `t` occurs in `s` starting at position `i`. */
  predicate OccursAt(s: string, i: int, t: string)
  {
    0 <= i && i + |t| <= |s| && s[i..i + |t|] == t
  }

  /** `t` occurs nowhere in `s`. */
  ghost predicate Free(s: string, t: string)
  {
    forall i :: !OccursAt(s, i, t)
  }
}
