/** Sequences without repeated entries: the minterm lists the solver is
    given and the rows the greedy cover picks. */
module Seqs {

  /** No value occurs twice in s. */
  predicate Distinct(s: seq<nat>)
  {
    forall i, j :: 0 <= i < j < |s| ==> s[i] != s[j]
  }
}
