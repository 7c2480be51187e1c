/** What several structures ask of their sequences. */
module Sequences {

  /** No value occurs twice. */
  ghost predicate Distinct<E>(s: seq<E>)
  {
    forall i, j :: 0 <= i < j < |s| ==> s[i] != s[j]
  }
}
