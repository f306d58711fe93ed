/** Counting the occurrences of a value in a prefix of a sequence, one entry
    at a time as the loops over adjacency lists do. */
module Tally {

  /** How often u occurs among row[0 .. i - 1]. */
  function CountIn(row: seq<nat>, i: nat, u: nat): nat
    requires i <= |row|
  {
    if i == 0 then 0 else CountIn(row, i - 1, u) + if row[i - 1] == u then 1 else 0
  }

  lemma {:induction false} CountInPositive(row: seq<nat>, i: nat, u: nat)
    requires i <= |row|
    ensures CountIn(row, i, u) > 0 <==> exists k :: 0 <= k < i && row[k] == u
  {
    if i > 0 {
      CountInPositive(row, i - 1, u);
    }
  }

  lemma {:induction false} CountInGrows(row: seq<nat>, i: nat, j: nat, u: nat)
    requires i <= j <= |row|
    ensures CountIn(row, i, u) <= CountIn(row, j, u)
  {
    if i < j {
      CountInGrows(row, i, j - 1, u);
    }
  }

  /** Counting the whole sequence gives its multiset multiplicity. */
  lemma {:induction false} CountInMultiset(row: seq<nat>, i: nat, u: nat)
    requires i <= |row|
    ensures CountIn(row, i, u) == multiset(row[..i])[u]
  {
    if i > 0 {
      CountInMultiset(row, i - 1, u);
      assert row[..i] == row[..i - 1] + [row[i - 1]];
    }
  }
}
