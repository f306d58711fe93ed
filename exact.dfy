/** Tabular::bruteForce: an exclude-first branch and bound over the rows of the
    cover graph that finds a smallest set of rows covering every right-side
    vertex. selected[u] counts the chosen rows holding u, and is undone on the
    way back. */
module Exact {
  import opened Implicants
  import opened Tally

  /** The best cover a search finds: none, or one with `size` rows. */
  datatype Best = NoCover | Cover(size: nat)

  /** The smaller of two outcomes; the first on ties. */
  function Better(a: Best, b: Best): (r: Best)
    ensures r == a || r == b
    ensures a.Cover? || b.Cover? ==> r.Cover?
    ensures r.Cover? && a.Cover? ==> r.size <= a.size
    ensures r.Cover? && b.Cover? ==> r.size <= b.size
  {
    match (a, b)
    case (NoCover, _) => b
    case (_, NoCover) => a
    case (Cover(x), Cover(y)) => if y < x then b else a
  }

  function Plus1(b: Best): Best
  {
    match b
    case NoCover => NoCover
    case Cover(k) => Cover(k + 1)
  }

  /** Every vertex 0 .. N - 1 is in C. */
  ghost predicate Full(C: set<nat>, N: nat)
  {
    forall u :: 0 <= u < N ==> u in C
  }

  /** The row holds a vertex that C lacks: cnt > 0 in bruteForce. */
  predicate Adds(row: seq<nat>, C: set<nat>)
  {
    exists u :: u in row && u !in C
  }

  function Elements(row: seq<nat>): set<nat>
  {
    set u | u in row
  }

  /** The outcome of the search from row idx on, with C covered already: skip
      row idx, or take it when it adds a vertex, stopping as soon as all N
      vertices are covered. */
  ghost function Search(G: seq<seq<nat>>, C: set<nat>, N: nat, idx: nat): Best
    requires idx <= |G|
    decreases |G| - idx
  {
    if idx == |G| then NoCover
    else
      var C' := C + Elements(G[idx]);
      var take :=
        if !Adds(G[idx], C) then NoCover
        else if Full(C', N) then Cover(1)
        else Plus1(Search(G, C', N, idx + 1));
      Better(Search(G, C, N, idx + 1), take)
  }

  /** The branch of Search that takes row idx. */
  ghost function Take(G: seq<seq<nat>>, C: set<nat>, N: nat, idx: nat): Best
    requires idx < |G|
  {
    var C' := C + Elements(G[idx]);
    if !Adds(G[idx], C) then NoCover
    else if Full(C', N) then Cover(1)
    else Plus1(Search(G, C', N, idx + 1))
  }

  /** The rows T, together with C, cover every vertex below N. */
  ghost predicate CoversWith(G: seq<seq<nat>>, C: set<nat>, T: set<nat>, N: nat)
  {
    forall u :: 0 <= u < N ==> u in C || exists t :: t in T && t < |G| && u in G[t]
  }

  /** The search is exact: whenever some set T of rows from idx on completes
      the cover, it finds a cover with at most |T| rows. */
  lemma {:induction false} SearchOptimal(G: seq<seq<nat>>, C: set<nat>, N: nat, idx: nat, T: set<nat>)
    requires idx <= |G| && forall t :: t in T ==> idx <= t < |G|
    requires !Full(C, N) && CoversWith(G, C, T, N)
    ensures Search(G, C, N, idx).Cover? && Search(G, C, N, idx).size <= |T|
    decreases |G| - idx
  {
    if idx == |G| {
      assert false;
    } else if idx !in T {
      SearchOptimal(G, C, N, idx + 1, T);
    } else {
      var T' := T - {idx};
      var C' := C + Elements(G[idx]);
      assert |T'| == |T| - 1;
      assert CoversWith(G, C', T', N) by {
        forall u | 0 <= u < N && u !in C'
          ensures exists t :: t in T' && t < |G| && u in G[t]
        {
          var t :| t in T && t < |G| && u in G[t];
          assert t != idx;
        }
      }
      if !Adds(G[idx], C) {
        assert C' == C;
        SearchOptimal(G, C, N, idx + 1, T');
      } else if !Full(C', N) {
        SearchOptimal(G, C', N, idx + 1, T');
      }
    }
  }

  /** The vertices the rows S hold. */
  function Union(G: seq<seq<nat>>, S: seq<nat>): set<nat>
    requires forall k :: 0 <= k < |S| ==> S[k] < |G|
  {
    if S == [] then {} else Elements(G[S[0]]) + Union(G, S[1..])
  }

  lemma {:induction false} UnionMember(G: seq<seq<nat>>, S: seq<nat>, u: nat)
    requires forall k :: 0 <= k < |S| ==> S[k] < |G|
    ensures u in Union(G, S) <==> exists k :: 0 <= k < |S| && u in G[S[k]]
  {
    if S != [] {
      UnionMember(G, S[1..], u);
      if exists k :: 0 <= k < |S| && u in G[S[k]] {
        var k :| 0 <= k < |S| && u in G[S[k]];
        if k > 0 {
          assert S[1..][k - 1] == S[k];
        }
      }
    }
  }

  /** Rows picked in ascending order from idx on. */
  predicate Picks(S: seq<nat>, idx: nat, n: nat)
  {
    Increasing(S) && forall k :: 0 <= k < |S| ==> idx <= S[k] < n
  }

  /** What a call does to minCost: it takes cost plus the size of the best
      cover found below, when that is smaller (-1 meaning none yet). */
  function Improve(minCost: int, cost: nat, b: Best): (r: int)
    ensures minCost != -1 ==> r <= minCost
    ensures minCost >= -1 ==> r >= -1
  {
    match b
    case NoCover => minCost
    case Cover(k) => if minCost == -1 || minCost > cost + k then cost + k else minCost
  }

  lemma ImproveTwice(m: int, cost: nat, a: Best, b: Best)
    ensures Improve(Improve(m, cost, a), cost, b) == Improve(m, cost, Better(a, b))
  {
  }

  /** The vertices u with selected[u] > 0. */
  function Covered(selected: seq<nat>): set<nat>
  {
    set u | 0 <= u < |selected| && selected[u] > 0
  }

  /** selected with the counts of a row added. */
  function Bump(selected: seq<nat>, row: seq<nat>): (r: seq<nat>)
    ensures |r| == |selected|
  {
    seq(|selected|, u requires 0 <= u < |selected| => selected[u] + CountIn(row, |row|, u))
  }

  /** The vertices 0 .. n - 1. */
  function Range(n: nat): set<nat>
  {
    if n == 0 then {} else Range(n - 1) + {n - 1}
  }

  lemma {:induction false} RangeSize(n: nat)
    ensures forall u: nat :: u in Range(n) <==> u < n
    ensures |Range(n)| == n
  {
    if n > 0 {
      RangeSize(n - 1);
      assert n - 1 !in Range(n - 1);
      assert |Range(n - 1) + {n - 1}| == |Range(n - 1)| + 1;
    }
  }

  /** All |selected| vertices are covered exactly when as many are counted. */
  lemma FullCount(selected: seq<nat>)
    ensures |Covered(selected)| == |selected| <==> Full(Covered(selected), |selected|)
  {
    var all := Range(|selected|);
    var C := Covered(selected);
    RangeSize(|selected|);
    assert C <= all;
    assert all == C + (all - C);
    if !Full(C, |selected|) {
      var u :| 0 <= u < |selected| && u !in C;
      assert u in all - C;
    } else {
      assert all == C;
    }
  }

  /** The counting loop of bruteForce over row G[idx]: every entry bumps its
      vertex, and cnt counts the vertices that were uncovered. */
  method Include(selected: seq<nat>, row: seq<nat>, selCnt: nat) returns (selected': seq<nat>, cnt: nat)
    requires forall k :: 0 <= k < |row| ==> row[k] < |selected|
    requires selCnt == |Covered(selected)|
    ensures selected' == Bump(selected, row)
    ensures Covered(selected') == Covered(selected) + Elements(row)
    ensures selCnt + cnt == |Covered(selected')|
    ensures cnt > 0 <==> Adds(row, Covered(selected))
  {
    selected', cnt := selected, 0;
    for i := 0 to |row|
      invariant Counting(selected, row, i, selCnt, selected', cnt)
    {
      var u := row[i];
      CountingStep(selected, row, i, selCnt, selected', cnt);
      if selected'[u] == 0 {
        cnt := cnt + 1;
      }
      selected' := selected'[u := selected'[u] + 1];
    }
    CountingDone(selected, row, selCnt, selected', cnt);
  }

  /** The state of the counting loop after row[0 .. i - 1]. */
  ghost predicate Counting(selected: seq<nat>, row: seq<nat>, i: nat, selCnt: nat, selected': seq<nat>, cnt: nat)
  {
    && i <= |row|
    && |selected'| == |selected|
    && (forall w :: 0 <= w < |selected| ==> selected'[w] == selected[w] + CountIn(row, i, w))
    && selCnt + cnt == |Covered(selected')|
    && (cnt > 0 <==> exists k :: 0 <= k < i && row[k] !in Covered(selected))
  }

  lemma CountingStep(selected: seq<nat>, row: seq<nat>, i: nat, selCnt: nat, selected': seq<nat>, cnt: nat)
    requires Counting(selected, row, i, selCnt, selected', cnt) && i < |row| && row[i] < |selected|
    ensures var u := row[i];
      Counting(selected, row, i + 1, selCnt, selected'[u := selected'[u] + 1], if selected'[u] == 0 then cnt + 1 else cnt)
  {
    var u := row[i];
    CoveredBump(selected', u);
    CountInPositive(row, i, u);
  }

  lemma CountingDone(selected: seq<nat>, row: seq<nat>, selCnt: nat, selected': seq<nat>, cnt: nat)
    requires Counting(selected, row, |row|, selCnt, selected', cnt)
    requires forall k :: 0 <= k < |row| ==> row[k] < |selected|
    ensures selected' == Bump(selected, row)
    ensures Covered(selected') == Covered(selected) + Elements(row)
    ensures selCnt + cnt == |Covered(selected')|
    ensures cnt > 0 <==> Adds(row, Covered(selected))
  {
    forall w: nat
      ensures w in Covered(selected') <==> w in Covered(selected) + Elements(row)
    {
      if w < |selected| {
        CountInPositive(row, |row|, w);
      }
    }
  }

  /** Bumping u adds u to the covered vertices, and grows their number exactly
      when u was uncovered. */
  lemma CoveredBump(selected: seq<nat>, u: nat)
    requires u < |selected|
    ensures Covered(selected[u := selected[u] + 1]) == Covered(selected) + {u}
    ensures selected[u] == 0 <==> u !in Covered(selected)
    ensures |Covered(selected[u := selected[u] + 1])| == |Covered(selected)| + if selected[u] == 0 then 1 else 0
  {
    var C := Covered(selected);
    assert Covered(selected[u := selected[u] + 1]) == C + {u};
    if selected[u] == 0 {
      assert C * {u} == {};
      assert |C + {u}| == |C| + 1;
    } else {
      assert C + {u} == C;
    }
  }

  /** The undo loop of bruteForce over row G[idx]: every entry takes its
      count back down. */
  method Exclude(selected: seq<nat>, row: seq<nat>, ghost base: seq<nat>) returns (selected': seq<nat>)
    requires forall k :: 0 <= k < |row| ==> row[k] < |selected|
    requires selected == Bump(base, row)
    ensures selected' == base
  {
    selected' := selected;
    for i := 0 to |row|
      invariant |selected'| == |base|
      invariant forall w :: 0 <= w < |base| ==> selected'[w] + CountIn(row, i, w) == base[w] + CountIn(row, |row|, w)
    {
      var u := row[i];
      CountInGrows(row, i + 1, |row|, u);
      selected' := selected'[u := selected'[u] - 1];
    }
  }

  /** A cover the search recorded: minCase extends nowCase by rows picked in
      ascending order from idx on, which together with the vertices already
      covered cover all of them, and minCost is cost plus their number. */
  ghost predicate Found(G: seq<seq<nat>>, selected: seq<nat>, nowCase: seq<nat>, idx: nat, cost: nat, minCase: seq<nat>, minCost: int)
  {
    && |nowCase| <= |minCase|
    && minCase[..|nowCase|] == nowCase
    && Picks(minCase[|nowCase|..], idx, |G|)
    && Full(Covered(selected) + Union(G, minCase[|nowCase|..]), |selected|)
    && minCost == cost + |minCase| - |nowCase|
  }

  lemma FoundWiden(G: seq<seq<nat>>, selected: seq<nat>, nowCase: seq<nat>, idx: nat, cost: nat, minCase: seq<nat>, minCost: int)
    requires Found(G, selected, nowCase, idx + 1, cost, minCase, minCost)
    ensures Found(G, selected, nowCase, idx, cost, minCase, minCost)
  {
  }

  lemma FoundTake(G: seq<seq<nat>>, selected: seq<nat>, nowCase: seq<nat>, idx: nat, cost: nat)
    requires idx < |G|
    requires Full(Covered(selected) + Elements(G[idx]), |selected|)
    ensures Found(G, selected, nowCase, idx, cost, nowCase + [idx], cost + 1)
  {
    var mc := nowCase + [idx];
    assert mc[..|nowCase|] == nowCase;
    assert mc[|nowCase|..] == [idx];
    assert [idx][1..] == [];
    assert Union(G, [idx]) == Elements(G[idx]);
  }

  lemma FoundDeeper(G: seq<seq<nat>>, selected: seq<nat>, selected': seq<nat>, nowCase: seq<nat>, idx: nat, cost: nat, minCase: seq<nat>, minCost: int)
    requires idx < |G| && |selected'| == |selected|
    requires Covered(selected') == Covered(selected) + Elements(G[idx])
    requires Found(G, selected', nowCase + [idx], idx + 1, cost + 1, minCase, minCost)
    ensures Found(G, selected, nowCase, idx, cost, minCase, minCost)
  {
    var n := |nowCase|;
    var S' := minCase[n + 1..];
    assert minCase[..n + 1] == nowCase + [idx];
    assert minCase[..n] == minCase[..n + 1][..n];
    assert minCase[n..] == [idx] + S';
    IncreasingCons(idx, S');
    assert ([idx] + S')[1..] == S';
    assert Union(G, minCase[n..]) == Elements(G[idx]) + Union(G, S');
    assert Covered(selected) + Union(G, minCase[n..]) == Covered(selected') + Union(G, S');
  }

  lemma PicksSnoc(nowCase: seq<nat>, idx: nat)
    requires Picks(nowCase, 0, idx)
    ensures Picks(nowCase + [idx], 0, idx + 1)
  {
  }

  lemma ImprovePlus1(m: int, cost: nat, b: Best)
    ensures Improve(m, cost + 1, b) == Improve(m, cost, Plus1(b))
  {
  }

  /** bruteForce: skip row idx, then take it (TakeRow); selected and
      nowCase are restored on return. */
  method BruteForce(G: seq<seq<nat>>, selected: seq<nat>, nowCase: seq<nat>, minCase: seq<nat>,
                    selCnt: nat, idx: nat, cost: nat, minCost: int)
    returns (selected': seq<nat>, nowCase': seq<nat>, minCase': seq<nat>, minCost': int)
    requires idx <= |G|
    requires forall v, k :: 0 <= v < |G| && 0 <= k < |G[v]| ==> G[v][k] < |selected|
    requires selCnt == |Covered(selected)|
    requires minCost >= -1
    requires Picks(nowCase, 0, idx)
    ensures selected' == selected && nowCase' == nowCase
    ensures minCost' == Improve(minCost, cost, Search(G, Covered(selected), |selected|, idx))
    ensures minCost' == minCost ==> minCase' == minCase
    ensures minCost' != minCost ==> Found(G, selected, nowCase, idx, cost, minCase', minCost')
    decreases |G| - idx, 1
  {
    if idx == |G| || (minCost != -1 && minCost <= cost) {
      return selected, nowCase, minCase, minCost;
    }
    ghost var C, N := Covered(selected), |selected|;
    selected', nowCase', minCase', minCost' := BruteForce(G, selected, nowCase, minCase, selCnt, idx + 1, cost, minCost);
    if minCost' != minCost {
      FoundWiden(G, selected, nowCase, idx, cost, minCase', minCost');
    }
    ImproveTwice(minCost, cost, Search(G, C, N, idx + 1), Take(G, C, N, idx));
    selected', nowCase', minCase', minCost' := TakeRow(G, selected', nowCase', minCase', selCnt, idx, cost, minCost');
  }

  /** The second half of bruteForce: take row idx when it covers something
      new, record a complete cover when it beats minCost and search on
      otherwise, then restore selected and nowCase. */
  method TakeRow(G: seq<seq<nat>>, selected: seq<nat>, nowCase: seq<nat>, minCase: seq<nat>,
                 selCnt: nat, idx: nat, cost: nat, minCost: int)
    returns (selected': seq<nat>, nowCase': seq<nat>, minCase': seq<nat>, minCost': int)
    requires idx < |G|
    requires forall v, k :: 0 <= v < |G| && 0 <= k < |G[v]| ==> G[v][k] < |selected|
    requires selCnt == |Covered(selected)|
    requires minCost >= -1
    requires Picks(nowCase, 0, idx)
    ensures selected' == selected && nowCase' == nowCase
    ensures minCost' == Improve(minCost, cost, Take(G, Covered(selected), |selected|, idx))
    ensures minCost' == minCost ==> minCase' == minCase
    ensures minCost' != minCost ==> Found(G, selected, nowCase, idx, cost, minCase', minCost')
    decreases |G| - idx, 0
  {
    ghost var C, N := Covered(selected), |selected|;
    ghost var C' := C + Elements(G[idx]);
    var cnt;
    selected', cnt := Include(selected, G[idx], selCnt);
    PicksSnoc(nowCase, idx);
    nowCase', minCase', minCost' := nowCase + [idx], minCase, minCost;
    FullCount(selected');
    if cnt > 0 {
      if selCnt + cnt == |selected'| {
        if minCost == -1 || minCost > cost + 1 {
          minCost' := cost + 1;
          minCase' := nowCase';
          FoundTake(G, selected, nowCase, idx, cost);
        }
      } else {
        ImprovePlus1(minCost, cost, Search(G, C', N, idx + 1));
        selected', nowCase', minCase', minCost' := BruteForce(G, selected', nowCase', minCase, selCnt + cnt, idx + 1, cost + 1, minCost);
        if minCost' != minCost {
          FoundDeeper(G, selected, Bump(selected, G[idx]), nowCase, idx, cost, minCase', minCost');
        }
      }
    }
    selected' := Exclude(selected', G[idx], selected);
    assert (nowCase + [idx])[..|nowCase|] == nowCase;
    nowCase' := nowCase'[..|nowCase'| - 1];
  }
}
