/** The std::sort at the end of Tabular::solve: the answer indices, sorted
    ascending. Only the result matters to the model, so the sort is an
    insertion sort on a sequence; its result is the unique sorted
    rearrangement of the input. */
module Sorting {
  import opened Implicants
  import opened Seqs

  /** x inserted before the first element that is not smaller. */
  function Insert(r: seq<nat>, x: nat): seq<nat>
  {
    if r == [] || x <= r[0] then [x] + r else [r[0]] + Insert(r[1..], x)
  }

  /** Insertion adds x to the contents and nothing else. */
  lemma {:induction false} InsertContents(r: seq<nat>, x: nat)
    ensures multiset(Insert(r, x)) == multiset(r) + multiset{x}
  {
    if r != [] && x > r[0] {
      InsertContents(r[1..], x);
      assert r == [r[0]] + r[1..];
    }
  }

  /** Every element of Insert(r, x) is x or an element of r. */
  lemma InsertMember(r: seq<nat>, x: nat, y: nat)
    requires y in Insert(r, x)
    ensures y == x || y in r
  {
    InsertContents(r, x);
    assert y in multiset(Insert(r, x));
  }

  /** Insertion keeps a sorted list sorted. */
  lemma {:induction false} InsertSorted(r: seq<nat>, x: nat)
    requires Sorted(r)
    ensures Sorted(Insert(r, x))
  {
    if r == [] || x <= r[0] {
      SortedCons(x, r);
    } else {
      var t := Insert(r[1..], x);
      InsertSorted(r[1..], x);
      forall y | y in t
        ensures r[0] <= y
      {
        InsertMember(r[1..], x, y);
      }
      SortedCons(r[0], t);
    }
  }

  /** Insertion of a new element keeps an ascending list ascending. */
  lemma {:induction false} InsertIncreasing(r: seq<nat>, x: nat)
    requires Increasing(r) && x !in r
    ensures Increasing(Insert(r, x))
  {
    if r == [] || x <= r[0] {
      IncreasingCons(x, r);
    } else {
      var t := Insert(r[1..], x);
      assert r == [r[0]] + r[1..];
      InsertIncreasing(r[1..], x);
      forall y | y in t
        ensures r[0] < y
      {
        InsertMember(r[1..], x, y);
      }
      IncreasingCons(r[0], t);
    }
  }

  /** sort: a sorted rearrangement of s, ascending when s has no repeats. */
  method Sort(s: seq<nat>) returns (r: seq<nat>)
    ensures Sorted(r) && multiset(r) == multiset(s)
    ensures Distinct(s) ==> Increasing(r)
  {
    r := [];
    ghost var distinct := Distinct(s);
    for i := 0 to |s|
      invariant Sorted(r) && multiset(r) == multiset(s[..i])
      invariant distinct ==> Increasing(r)
    {
      assert s[..i + 1] == s[..i] + [s[i]];
      InsertContents(r, s[i]);
      InsertSorted(r, s[i]);
      if distinct {
        assert s[i] !in s[..i];
        assert s[i] !in multiset(r);
        InsertIncreasing(r, s[i]);
      }
      r := Insert(r, s[i]);
    }
    assert s[..|s|] == s;
  }
}
