/** Tabular::greedy: the approximate set cover. A max segment tree over the
    left vertices holds, for every row v, the number of its entries not yet
    covered; the row with the most (the last one on ties) is taken, its new
    vertices are marked, and every row holding such a vertex loses one per
    occurrence, until all right vertices are covered. */
module Greedy {
  import opened Tally
  import opened Segment
  import opened Exact
  import opened Seqs

  /** The entries of a row not in C, counted with repetition. */
  function Live(row: seq<nat>, C: set<nat>): nat
  {
    if row == [] then 0 else Live(row[..|row| - 1], C) + if row[|row| - 1] in C then 0 else 1
  }

  lemma {:induction false} LiveNone(row: seq<nat>)
    ensures Live(row, {}) == |row|
  {
    if row != [] {
      LiveNone(row[..|row| - 1]);
    }
  }

  /** Covering u takes one off a row's count for each time u occurs in it. */
  lemma {:induction false} LiveCover(row: seq<nat>, C: set<nat>, u: nat)
    requires u !in C
    ensures Live(row, C) == Live(row, C + {u}) + multiset(row)[u]
  {
    if row != [] {
      var n := |row|;
      LiveCover(row[..n - 1], C, u);
      assert row == row[..n - 1] + [row[n - 1]];
    }
  }

  /** A row counts something exactly when it holds an uncovered vertex. */
  lemma {:induction false} LivePositive(row: seq<nat>, C: set<nat>)
    ensures Live(row, C) > 0 <==> Adds(row, C)
  {
    if row != [] {
      var n := |row|;
      LivePositive(row[..n - 1], C);
      assert row == row[..n - 1] + [row[n - 1]];
      assert forall x :: x in row <==> x in row[..n - 1] || x == row[n - 1];
    }
  }

  lemma UnionSnoc(G: seq<seq<nat>>, S: seq<nat>, v: nat)
    requires (forall k :: 0 <= k < |S| ==> S[k] < |G|) && v < |G|
    ensures Union(G, S + [v]) == Union(G, S) + Elements(G[v])
  {
    var S' := S + [v];
    forall u: nat
      ensures u in Union(G, S') <==> u in Union(G, S) + Elements(G[v])
    {
      UnionMember(G, S', u);
      UnionMember(G, S, u);
      if u in Union(G, S) {
        var k :| 0 <= k < |S| && u in G[S[k]];
        assert S'[k] == S[k];
      }
      if u in G[v] {
        assert S'[|S|] == v;
      }
    }
  }

  /** The two sides of a bipartite graph in adjacency lists: entries in range,
      and v listed under u as often as u under v. */
  ghost predicate Bipartite(GL: seq<seq<nat>>, GR: seq<seq<nat>>)
  {
    && (forall v, i :: 0 <= v < |GL| && 0 <= i < |GL[v]| ==> GL[v][i] < |GR|)
    && (forall u, j :: 0 <= u < |GR| && 0 <= j < |GR[u]| ==> GR[u][j] < |GL|)
    && (forall u, v :: 0 <= u < |GR| && 0 <= v < |GL| ==> multiset(GR[u])[v] == multiset(GL[v])[u])
  }

  /** Row v is a greedy choice once C is covered: no row counts more uncovered
      entries, and every later row counts fewer. */
  ghost predicate Best(GL: seq<seq<nat>>, C: set<nat>, v: nat)
  {
    && v < |GL|
    && (forall w :: 0 <= w < |GL| ==> Live(GL[w], C) <= Live(GL[v], C))
    && (forall w :: v < w < |GL| ==> Live(GL[w], C) < Live(GL[v], C))
  }

  /** Every pick was a greedy choice given the picks before it. */
  ghost predicate Choices(GL: seq<seq<nat>>, picks: seq<nat>)
    requires forall k :: 0 <= k < |picks| ==> picks[k] < |GL|
  {
    picks == [] ||
      var n := |picks|;
      Choices(GL, picks[..n - 1]) && Best(GL, Union(GL, picks[..n - 1]), picks[n - 1])
  }

  /** The state greedy keeps between steps: selected marks C, count is its
      size, and leaf v of the tree is (uncovered entries of row v, v). */
  ghost predicate Synced(seg: seq<SegNode>, lv: seq<SegNode>, GL: seq<seq<nat>>, GR: seq<seq<nat>>,
                         selected: seq<nat>, C: set<nat>, count: nat)
  {
    && |selected| == |GR|
    && (forall u :: 0 <= u < |selected| ==> selected[u] == if u in C then 1 else 0)
    && (forall x :: x in C ==> x < |GR|)
    && count == |C|
    && |lv| == |GL|
    && (forall v :: 0 <= v < |GL| ==> lv[v] == SegNode(Live(GL[v], C), v))
    && (|GL| > 0 ==> Shape(|seg|, 0, 0, |GL| - 1) && Holds(seg, lv, 0, 0, |GL| - 1))
  }

  /** A set of vertices below N has at most N of them, and all N when it has
      N. */
  lemma {:induction false} BelowCount(C: set<nat>, N: nat)
    requires forall x :: x in C ==> x < N
    ensures |C| <= N
    ensures |C| >= N ==> forall u :: 0 <= u < N ==> u in C
    ensures |C| < N ==> exists u :: 0 <= u < N && u !in C
  {
    RangeSize(N);
    assert Range(N) == C + (Range(N) - C);
    if |C| >= N {
      forall u | 0 <= u < N
        ensures u in C
      {
        if u !in C {
          assert false;
        }
      }
    } else {
      var u :| u in Range(N) - C;
    }
  }

  /** The inner loop of greedy over GR[u]: leaf v loses one for every time it
      is listed. */
  method CoverColumn(t: MaxSegment, col: seq<nat>, nL: nat, ghost lv: seq<SegNode>) returns (ghost lv': seq<SegNode>)
    requires nL == |lv| > 0 && Shape(t.seg.Length, 0, 0, nL - 1) && Holds(t.seg[..], lv, 0, 0, nL - 1)
    requires forall j :: 0 <= j < |col| ==> col[j] < nL
    modifies t.seg
    ensures |lv'| == nL && Holds(t.seg[..], lv', 0, 0, nL - 1)
    ensures forall w :: 0 <= w < nL ==> lv'[w] == SegNode(lv[w].value - CountIn(col, |col|, w), lv[w].idx)
  {
    lv' := lv;
    for j := 0 to |col|
      invariant |lv'| == nL && Holds(t.seg[..], lv', 0, 0, nL - 1)
      invariant forall w :: 0 <= w < nL ==> lv'[w] == SegNode(lv[w].value - CountIn(col, j, w), lv[w].idx)
    {
      var v := col[j];
      t.Update(0, v, 0, nL - 1, SegNode(-1, 0), lv');
      lv' := PutAdd(lv', v, SegNode(-1, 0));
    }
  }

  /** After the column of a newly covered u, every leaf again counts the
      uncovered entries of its row. */
  lemma Discounted(GL: seq<seq<nat>>, GR: seq<seq<nat>>, C: set<nat>, u: nat, lv: seq<SegNode>, lv': seq<SegNode>)
    requires Bipartite(GL, GR) && u < |GR| && u !in C
    requires |lv| == |lv'| == |GL|
    requires forall v :: 0 <= v < |GL| ==> lv[v] == SegNode(Live(GL[v], C), v)
    requires forall w :: 0 <= w < |GL| ==> lv'[w] == SegNode(lv[w].value - CountIn(GR[u], |GR[u]|, w), lv[w].idx)
    ensures forall v :: 0 <= v < |GL| ==> lv'[v] == SegNode(Live(GL[v], C + {u}), v)
  {
    forall v | 0 <= v < |GL|
      ensures lv'[v] == SegNode(Live(GL[v], C + {u}), v)
    {
      CountInMultiset(GR[u], |GR[u]|, v);
      assert GR[u][..|GR[u]|] == GR[u];
      LiveCover(GL[v], C, u);
    }
  }

  /** One new vertex u: it is selected and counted, and its column
      discounted. */
  method Select(t: MaxSegment, GL: seq<seq<nat>>, GR: seq<seq<nat>>, u: nat, selected: seq<nat>, count: nat,
                ghost C: set<nat>, ghost lv: seq<SegNode>)
    returns (selected': seq<nat>, count': nat, ghost lv': seq<SegNode>)
    requires Bipartite(GL, GR) && u < |GR| && u !in C
    requires Synced(t.seg[..], lv, GL, GR, selected, C, count)
    modifies t.seg
    ensures Synced(t.seg[..], lv', GL, GR, selected', C + {u}, count')
    ensures count' == count + 1
  {
    selected' := selected[u := 1];
    count' := count + 1;
    if |GL| > 0 {
      lv' := CoverColumn(t, GR[u], |GL|, lv);
      Discounted(GL, GR, C, u, lv, lv');
    } else {
      lv' := lv;
    }
    assert |C + {u}| == |C| + 1;
  }

  /** The loop of greedy over the chosen row: each of its vertices not yet
      selected is selected and counted, and its column discounted. */
  method TakeRow(t: MaxSegment, GL: seq<seq<nat>>, GR: seq<seq<nat>>, k: nat, selected: seq<nat>, count: nat,
                 ghost C: set<nat>, ghost lv: seq<SegNode>)
    returns (selected': seq<nat>, count': nat, ghost C': set<nat>, ghost lv': seq<SegNode>)
    requires Bipartite(GL, GR) && k < |GL|
    requires Synced(t.seg[..], lv, GL, GR, selected, C, count)
    modifies t.seg
    ensures Synced(t.seg[..], lv', GL, GR, selected', C', count')
    ensures C' == C + Elements(GL[k])
    ensures Adds(GL[k], C) ==> count' > count
  {
    var row := GL[k];
    selected', count', C', lv' := selected, count, C, lv;
    for i := 0 to |row|
      invariant Synced(t.seg[..], lv', GL, GR, selected', C', count')
      invariant forall x :: x in C' <==> x in C || exists i' :: 0 <= i' < i && row[i'] == x
      invariant C' == C || count' > count
    {
      var u := row[i];
      if selected'[u] != 0 {
        continue;
      }
      selected', count', lv' := Select(t, GL, GR, u, selected', count', C', lv');
      C' := C' + {u};
    }
    RowCovered(row, C, C');
  }

  lemma RowCovered(row: seq<nat>, C: set<nat>, C': set<nat>)
    requires forall x :: x in C' <==> x in C || exists i' :: 0 <= i' < |row| && row[i'] == x
    requires C' == C || |C'| > |C|
    ensures C' == C + Elements(row)
    ensures Adds(row, C) ==> |C'| > |C|
  {
    forall x
      ensures x in C' <==> x in C + Elements(row)
    {
      if x in row {
        var i' :| 0 <= i' < |row| && row[i'] == x;
      }
    }
    if Adds(row, C) {
      var x :| x in row && x !in C;
      assert x in C';
    }
  }

  /** While some right vertex is uncovered, some row counts it. */
  lemma SomeLive(GL: seq<seq<nat>>, GR: seq<seq<nat>>, C: set<nat>) returns (v: nat)
    requires Bipartite(GL, GR) && forall u :: 0 <= u < |GR| ==> GR[u] != []
    requires (forall x :: x in C ==> x < |GR|) && |C| < |GR|
    ensures v < |GL| && Live(GL[v], C) > 0
  {
    BelowCount(C, |GR|);
    var u :| 0 <= u < |GR| && u !in C;
    v := GR[u][0];
    assert multiset(GR[u])[v] > 0;
    assert u in GL[v];
    LivePositive(GL[v], C);
  }

  /** The leaf a query of the whole tree answers with names a greedy choice
      that still counts something, when some row does. */
  lemma Chosen(GL: seq<seq<nat>>, C: set<nat>, lv: seq<SegNode>, k: nat, v0: nat)
    requires |lv| == |GL| && forall v :: 0 <= v < |GL| ==> lv[v] == SegNode(Live(GL[v], C), v)
    requires Peak(lv, 0, |GL| - 1, k)
    requires v0 < |GL| && Live(GL[v0], C) > 0
    ensures lv[k].idx == k && Best(GL, C, k)
    ensures Live(GL[k], C) > 0 && Adds(GL[k], C)
  {
    LivePositive(GL[k], C);
  }

  /** Taking a greedy choice that still counts something keeps the picks
      greedy and distinct. */
  lemma PickStep(GL: seq<seq<nat>>, picks: seq<nat>, C: set<nat>, k: nat)
    requires forall j :: 0 <= j < |picks| ==> picks[j] < |GL|
    requires C == Union(GL, picks) && Choices(GL, picks) && Distinct(picks)
    requires Best(GL, C, k) && Live(GL[k], C) > 0
    ensures Choices(GL, picks + [k]) && Distinct(picks + [k])
    ensures Union(GL, picks + [k]) == C + Elements(GL[k])
  {
    LivePositive(GL[k], C);
    forall j | 0 <= j < |picks|
      ensures picks[j] != k
    {
      if picks[j] == k {
        var x :| x in GL[k] && x !in C;
        UnionMember(GL, picks, x);
      }
    }
    assert (picks + [k])[..|picks|] == picks;
    UnionSnoc(GL, picks, k);
  }

  /** The first loop of greedy: leaf v starts as (|GL[v]|, v). */
  method FillLeaves(t: MaxSegment, GL: seq<seq<nat>>) returns (ghost lv: seq<SegNode>)
    requires |GL| > 0 && t.seg.Length == 4 * |GL|
    requires Shape(t.seg.Length, 0, 0, |GL| - 1) && Holds(t.seg[..], seq(|GL|, _ => Default), 0, 0, |GL| - 1)
    modifies t.seg
    ensures |lv| == |GL| && Holds(t.seg[..], lv, 0, 0, |GL| - 1)
    ensures forall v :: 0 <= v < |GL| ==> lv[v] == SegNode(|GL[v]|, v)
  {
    var nL := |GL|;
    lv := seq(nL, _ => Default);
    for v := 0 to nL
      invariant |lv| == nL && Holds(t.seg[..], lv, 0, 0, nL - 1)
      invariant forall w :: 0 <= w < v ==> lv[w] == SegNode(|GL[w]|, w)
    {
      t.SetValue(0, v, 0, nL - 1, SegNode(|GL[v]|, v), lv);
      lv := Put(lv, v, SegNode(|GL[v]|, v));
    }
  }

  /** What greedy keeps between picks: the state is synced with the covered
      vertices C, which are those of the picks, and the picks are distinct
      greedy choices, no more of them than vertices covered. */
  ghost predicate Picked(seg: seq<SegNode>, lv: seq<SegNode>, GL: seq<seq<nat>>, GR: seq<seq<nat>>,
                         selected: seq<nat>, C: set<nat>, count: nat, minCase: seq<nat>)
  {
    && Synced(seg, lv, GL, GR, selected, C, count)
    && (forall j :: 0 <= j < |minCase| ==> minCase[j] < |GL|)
    && C == Union(GL, minCase)
    && Choices(GL, minCase)
    && Distinct(minCase)
    && |minCase| <= count
  }

  /** The query of greedy's main loop: the root of the tree names a greedy
      choice, which still counts an uncovered vertex. */
  method Choose(t: MaxSegment, GL: seq<seq<nat>>, GR: seq<seq<nat>>, selected: seq<nat>, count: nat,
                ghost C: set<nat>, ghost lv: seq<SegNode>) returns (picked: nat)
    requires Bipartite(GL, GR) && forall u :: 0 <= u < |GR| ==> GR[u] != []
    requires count < |GR| && t.seg.Length == 4 * |GL|
    requires Synced(t.seg[..], lv, GL, GR, selected, C, count)
    ensures Best(GL, C, picked) && Live(GL[picked], C) > 0 && Adds(GL[picked], C)
  {
    var nL := |GL|;
    ghost var v0 := SomeLive(GL, GR, C);
    var maxnode := t.Query(0, 0, nL - 1, 0, nL - 1);
    ghost var k := t.QueryMax(lv, 0, 0, nL - 1, 0, nL - 1);
    Chosen(GL, C, lv, k, v0);
    picked := maxnode.idx;
  }

  /** One round of the main loop of greedy: query the tree for the best row,
      record it, and take its vertices. */
  method Pick(t: MaxSegment, GL: seq<seq<nat>>, GR: seq<seq<nat>>, selected: seq<nat>, count: nat, minCase: seq<nat>,
              ghost C: set<nat>, ghost lv: seq<SegNode>)
    returns (picked: nat, selected': seq<nat>, count': nat, minCase': seq<nat>, ghost C': set<nat>, ghost lv': seq<SegNode>)
    requires Bipartite(GL, GR) && forall u :: 0 <= u < |GR| ==> GR[u] != []
    requires count < |GR| && t.seg.Length == 4 * |GL|
    requires Picked(t.seg[..], lv, GL, GR, selected, C, count, minCase)
    modifies t.seg
    ensures Best(GL, C, picked) && Adds(GL[picked], C)
    ensures minCase' == minCase + [picked] && C' == C + Elements(GL[picked])
    ensures Picked(t.seg[..], lv', GL, GR, selected', C', count', minCase')
    ensures count < count' <= |GR|
  {
    picked := Choose(t, GL, GR, selected, count, C, lv);
    PickStep(GL, minCase, C, picked);
    minCase' := minCase + [picked];
    selected', count', C', lv' := TakeRow(t, GL, GR, picked, selected, count, C, lv);
    BelowCount(C', |GR|);
  }

  /** greedy: picks rows until every right vertex is selected. Every pick is
      a greedy choice, picks are distinct, together they cover every right
      vertex, and there are at most as many as right vertices. */
  method Greedy(GL: seq<seq<nat>>, GR: seq<seq<nat>>, selected: seq<nat>) returns (selected': seq<nat>, minCase: seq<nat>)
    requires Bipartite(GL, GR)
    requires forall u :: 0 <= u < |GR| ==> GR[u] != []
    requires |selected| == |GR| && forall u :: 0 <= u < |selected| ==> selected[u] == 0
    ensures |selected'| == |GR| && forall u :: 0 <= u < |GR| ==> selected'[u] == 1
    ensures forall j :: 0 <= j < |minCase| ==> minCase[j] < |GL|
    ensures Full(Union(GL, minCase), |GR|)
    ensures Choices(GL, minCase)
    ensures Distinct(minCase)
    ensures |minCase| <= |GR|
  {
    var nL, N := |GL|, |GR|;
    var t := new MaxSegment(nL);
    ghost var lv: seq<SegNode> := [];
    if nL > 0 {
      lv := FillLeaves(t, GL);
      forall v | 0 <= v < nL
        ensures lv[v] == SegNode(Live(GL[v], {}), v)
      {
        LiveNone(GL[v]);
      }
    }
    var count := 0;
    selected', minCase := selected, [];
    ghost var C: set<nat> := {};
    while count < N
      invariant fresh(t.seg) && t.seg.Length == 4 * nL
      invariant Picked(t.seg[..], lv, GL, GR, selected', C, count, minCase)
      decreases N - count
    {
      var picked;
      picked, selected', count, minCase, C, lv := Pick(t, GL, GR, selected', count, minCase, C, lv);
    }
    BelowCount(C, N);
  }
}
