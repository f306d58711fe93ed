/** The coordinate compression getEPI and buildGraph share: the distinct
    values of a std::set are numbered 0, 1, ... in ascending order. */
module Compression {

  /** The number a value of S gets: how many values of S are smaller. */
  function Rank(S: set<nat>, x: nat): nat
  {
    |set y | y in S && y < x|
  }

  /** The least value of a non-empty set exists: what *positions.begin() reads. */
  lemma {:induction false} MinExists(S: set<nat>) returns (m: nat)
    requires S != {}
    ensures m in S && forall y :: y in S ==> m <= y
    decreases |S|
  {
    var x :| x in S;
    if S - {x} == {} {
      m := x;
      forall y | y in S
        ensures m <= y
      {
        assert y !in S - {x};
      }
    } else {
      var m' := MinExists(S - {x});
      m := if x < m' then x else m';
      forall y | y in S
        ensures m <= y
      {
        if y != x {
          assert y in S - {x};
        }
      }
    }
  }

  /** The ranks of a set are strictly monotone, so distinct values get
      distinct numbers, in ascending order. */
  lemma RankMonotone(S: set<nat>, x: nat, y: nat)
    requires x in S && y in S && x < y
    ensures Rank(S, x) < Rank(S, y)
  {
    var below, belowY := set z | z in S && z < x, set z | z in S && z < y;
    assert belowY == below + (belowY - below);
    assert x in belowY - below;
    assert |belowY - below| >= 1;
  }

  /** A value of S gets a number below |S|. */
  lemma RankBound(S: set<nat>, x: nat)
    requires x in S
    ensures Rank(S, x) < |S|
  {
    var below := set z | z in S && z < x;
    assert S == below + (S - below);
    assert x in S - below;
    assert |S - below| >= 1;
  }

  /** Every number below |S| is the rank of some value of S. */
  lemma {:induction false} RankOnto(S: set<nat>, k: nat) returns (x: nat)
    requires k < |S|
    ensures x in S && Rank(S, x) == k
    decreases |S|
  {
    var m := MinExists(S);
    var S' := S - {m};
    assert (set z | z in S && z < m) == {};
    if k == 0 {
      x := m;
    } else {
      x := RankOnto(S', k - 1);
      var below, below' := set z | z in S && z < x, set z | z in S' && z < x;
      assert below == below' + {m};
    }
  }

  /** The least value not yet numbered has as many smaller values as have been
      numbered. */
  lemma NextRank(positions: set<nat>, done: set<nat>, rest: set<nat>, m: nat)
    requires done + rest == positions && done !! rest
    requires forall d, r :: d in done && r in rest ==> d < r
    requires m in rest && forall y :: y in rest ==> m <= y
    ensures Rank(positions, m) == |done|
  {
    var below := set y | y in positions && y < m;
    forall y
      ensures y in below <==> y in done
    {
      if y in done {
        assert y < m;
      }
    }
    assert below == done;
  }

  /** Moving the least remaining value to the numbered ones keeps the split of
      the set and its order. */
  lemma Advance(positions: set<nat>, done: set<nat>, rest: set<nat>, m: nat)
    requires done + rest == positions && done !! rest
    requires forall d, r :: d in done && r in rest ==> d < r
    requires m in rest && forall y :: y in rest ==> m <= y
    ensures (done + {m}) + (rest - {m}) == positions && (done + {m}) !! (rest - {m})
    ensures forall d, r :: d in done + {m} && r in rest - {m} ==> d < r
    ensures |done + {m}| == |done| + 1 && |rest - {m}| < |rest|
  {
    forall d, r | d in done + {m} && r in rest - {m}
      ensures d < r
    {
      if d == m {
        assert m <= r && r != m;
      }
    }
    assert m !in done;
  }

  /** The numbering loop: walks the set in ascending order, giving each value
      the next number. */
  method Compress(positions: set<nat>) returns (comp: map<nat, nat>, n: nat)
    ensures n == |positions| && comp.Keys == positions
    ensures forall x :: x in positions ==> comp[x] == Rank(positions, x)
  {
    comp, n := map[], 0;
    var rest, done: set<nat> := positions, {};
    while rest != {}
      invariant done + rest == positions && done !! rest
      invariant forall d, r :: d in done && r in rest ==> d < r
      invariant (forall x :: x in comp <==> x in done) && n == |done|
      invariant forall x :: x in done ==> comp[x] == Rank(positions, x)
      decreases |rest|
    {
      ghost var m0 := MinExists(rest);
      var m :| m in rest && forall y :: y in rest ==> m <= y;
      NextRank(positions, done, rest, m);
      Advance(positions, done, rest, m);
      comp := comp[m := n];
      n := n + 1;
      rest, done := rest - {m}, done + {m};
    }
    assert comp.Keys == positions;
  }
}
