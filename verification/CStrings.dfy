/** Contents of NUL-terminated strings. */
module CStrings {

  const NUL: char := '\0'

  predicate NulFree(s: string) {
    forall i :: 0 <= i < |s| ==> s[i] != NUL
  }
}
