/** The steps of main.cpp's Tabular::solve that differ from the header's
    getEPI and buildGraph: the elimination loop also collects the terms of
    every newly flagged prime implicant in sat, and the graph is built with
    one side only (biG), the flagged indices going straight into ans. */
module InlineSolve {
  import opened Implicants
  import opened Compression
  import opened Essential
  import opened Graph
  import opened Exact
  import opened Answers

  /** x is a term of a prime implicant that pis' flags and pis does not. */
  ghost predicate NewlyCovered(pis: seq<Impcnt>, pis': seq<Impcnt>, x: nat)
  {
    exists i :: 0 <= i < |pis| && i < |pis'| && !pis[i].isEPI && pis'[i].isEPI && x in pis[i].terms
  }

  /** Flagging pis'[l] adds exactly its terms to the newly covered ones. */
  lemma NewlyStep(pis: seq<Impcnt>, pis': seq<Impcnt>, l: nat, x: nat)
    requires |pis'| == |pis| && l < |pis| && !pis[l].isEPI && !pis'[l].isEPI
    ensures NewlyCovered(pis, pis'[l := pis'[l].(isEPI := true)], x) <==> NewlyCovered(pis, pis', x) || x in pis[l].terms
  {
    var next := pis'[l := pis'[l].(isEPI := true)];
    if NewlyCovered(pis, next, x) {
      var i :| 0 <= i < |pis| && i < |next| && !pis[i].isEPI && next[i].isEPI && x in pis[i].terms;
      if i != l {
        assert pis'[i].isEPI;
      }
    }
    if x in pis[l].terms {
      assert next[l].isEPI;
    }
    if NewlyCovered(pis, pis', x) {
      var i :| 0 <= i < |pis| && i < |pis'| && !pis[i].isEPI && pis'[i].isEPI && x in pis[i].terms;
      assert next[i].isEPI;
    }
  }

  /** When nothing was flagged before, the newly covered terms are those of
      every flagged prime implicant. */
  lemma NewlyAll(pis: seq<Impcnt>, pis': seq<Impcnt>, x: nat)
    requires |pis'| == |pis|
    requires forall i :: 0 <= i < |pis| ==> !pis[i].isEPI && pis'[i].terms == pis[i].terms
    ensures NewlyCovered(pis, pis', x) <==> EPICovers(pis', x)
  {
    if EPICovers(pis', x) {
      var i :| 0 <= i < |pis'| && pis'[i].isEPI && x in pis'[i].terms;
      assert x in pis[i].terms;
    }
  }

  /** The inner loop that inserts the terms of a newly flagged prime
      implicant into sat. */
  method InsertTerms(sat: set<nat>, terms: seq<nat>) returns (sat': set<nat>)
    ensures forall x :: x in sat' <==> x in sat || x in terms
  {
    sat' := sat;
    for j := 0 to |terms|
      invariant forall x :: x in sat' <==> x in sat || x in terms[..j]
    {
      assert terms[..j + 1] == terms[..j] + [terms[j]];
      sat' := sat' + {terms[j]};
    }
    assert terms[..|terms|] == terms;
  }

  /** What the elimination loop has done after the first m minterms: the
      sole coverers of those minterms are flagged, tot counts the new flags
      and sat holds the terms of every newly flagged prime implicant. */
  ghost predicate Marked(pis: seq<Impcnt>, minterms: seq<nat>, m: nat, pis': seq<Impcnt>, tot: nat, sat: set<nat>)
    requires m <= |minterms|
  {
    && |pis'| == |pis|
    && (forall i :: 0 <= i < |pis| ==> pis'[i] == pis[i].(isEPI := pis[i].isEPI || SoleFor(pis, minterms[..m], i)))
    && CountEPI(pis') == CountEPI(pis) + tot
    && (forall x :: x in sat <==> NewlyCovered(pis, pis', x))
  }

  /** The elimination loop of solve: getEPI's loop, which also puts the terms
      of every prime implicant it flags into sat. */
  method MarkCollect(pis: seq<Impcnt>, minterms: seq<nat>, comp: map<nat, nat>, cnt: seq<nat>, last: seq<int>)
    returns (pis': seq<Impcnt>, tot: nat, sat: set<nat>)
    requires forall x :: x in minterms ==>
      && x in comp && comp[x] < |cnt| && comp[x] < |last|
      && cnt[comp[x]] == Occ(pis, x, |pis|) && last[comp[x]] == LastCover(pis, x, |pis|)
    ensures |pis'| == |pis|
    ensures forall i :: 0 <= i < |pis| ==> pis'[i] == pis[i].(isEPI := pis[i].isEPI || SoleFor(pis, minterms, i))
    ensures CountEPI(pis') == CountEPI(pis) + tot
    ensures forall x :: x in sat <==> NewlyCovered(pis, pis', x)
  {
    pis', tot, sat := pis, 0, {};
    for m := 0 to |minterms|
      invariant Marked(pis, minterms, m, pis', tot, sat)
    {
      pis', tot, sat := MarkOne(pis, minterms, comp, cnt, last, m, pis', tot, sat);
    }
    assert minterms[..|minterms|] == minterms;
  }

  /** One pass of the elimination loop, for minterm m. */
  method MarkOne(pis: seq<Impcnt>, minterms: seq<nat>, comp: map<nat, nat>, cnt: seq<nat>, last: seq<int>,
                 m: nat, pis0: seq<Impcnt>, tot0: nat, sat0: set<nat>)
    returns (pis': seq<Impcnt>, tot: nat, sat: set<nat>)
    requires forall x :: x in minterms ==>
      && x in comp && comp[x] < |cnt| && comp[x] < |last|
      && cnt[comp[x]] == Occ(pis, x, |pis|) && last[comp[x]] == LastCover(pis, x, |pis|)
    requires m < |minterms| && Marked(pis, minterms, m, pis0, tot0, sat0)
    ensures Marked(pis, minterms, m + 1, pis', tot, sat)
  {
    pis', tot, sat := pis0, tot0, sat0;
    var x := minterms[m];
    var compPos := comp[x];
    OccLast(pis, x, |pis|);
    if cnt[compPos] == 1 {
      var l := last[compPos];
      if pis'[l].isEPI {
        MarkedKeep(pis, minterms, m, pis0, tot0, sat0);
        return;
      }
      sat := InsertTerms(sat, pis'[l].terms);
      MarkedFlag(pis, minterms, m, pis0, tot0, sat0, l, sat);
      pis' := pis'[l := pis'[l].(isEPI := true)];
      tot := tot + 1;
    } else {
      MarkedKeep(pis, minterms, m, pis0, tot0, sat0);
    }
  }

  /** SoleFor over one more minterm. */
  lemma SoleForSnoc(pis: seq<Impcnt>, minterms: seq<nat>, m: nat, i: nat)
    requires m < |minterms|
    ensures SoleFor(pis, minterms[..m + 1], i) <==>
      SoleFor(pis, minterms[..m], i) || (Occ(pis, minterms[m], |pis|) == 1 && LastCover(pis, minterms[m], |pis|) == i)
  {
    assert minterms[..m + 1][..m] == minterms[..m];
  }

  /** A minterm with no sole coverer, or whose sole coverer is already
      flagged, changes nothing. */
  lemma MarkedKeep(pis: seq<Impcnt>, minterms: seq<nat>, m: nat, pis0: seq<Impcnt>, tot0: nat, sat0: set<nat>)
    requires m < |minterms| && Marked(pis, minterms, m, pis0, tot0, sat0)
    requires Occ(pis, minterms[m], |pis|) == 1 ==>
      0 <= LastCover(pis, minterms[m], |pis|) < |pis| && pis0[LastCover(pis, minterms[m], |pis|)].isEPI
    ensures Marked(pis, minterms, m + 1, pis0, tot0, sat0)
  {
    forall i | 0 <= i < |pis|
      ensures pis0[i] == pis[i].(isEPI := pis[i].isEPI || SoleFor(pis, minterms[..m + 1], i))
    {
      SoleForSnoc(pis, minterms, m, i);
    }
  }

  /** A minterm whose sole coverer l is not yet flagged flags it, counts it
      and adds its terms to sat. */
  lemma MarkedFlag(pis: seq<Impcnt>, minterms: seq<nat>, m: nat, pis0: seq<Impcnt>, tot0: nat, sat0: set<nat>,
                   l: nat, sat: set<nat>)
    requires m < |minterms| && Marked(pis, minterms, m, pis0, tot0, sat0)
    requires Occ(pis, minterms[m], |pis|) == 1 && LastCover(pis, minterms[m], |pis|) == l
    requires l < |pis| && !pis0[l].isEPI
    requires forall y :: y in sat <==> y in sat0 || y in pis0[l].terms
    ensures Marked(pis, minterms, m + 1, pis0[l := pis0[l].(isEPI := true)], tot0 + 1, sat)
  {
    var p' := pis0[l := pis0[l].(isEPI := true)];
    CountEPISet(pis0, l);
    forall i | 0 <= i < |pis|
      ensures p'[i] == pis[i].(isEPI := pis[i].isEPI || SoleFor(pis, minterms[..m + 1], i))
    {
      SoleForSnoc(pis, minterms, m, i);
    }
    forall y | true
      ensures y in sat <==> NewlyCovered(pis, p', y)
    {
      NewlyStep(pis, pis0, l, y);
    }
  }

  /** The loop over the terms of one unflagged prime implicant: the numbers
      of its remaining terms, in term order. */
  method LeftRow(terms: seq<nat>, comp: map<nat, nat>, ghost R: set<nat>) returns (row: seq<nat>)
    requires comp.Keys == R && forall x :: x in R ==> comp[x] == Rank(R, x)
    ensures row == RowOf(terms, R)
  {
    row := [];
    assert terms[..0] == [];
    for j := 0 to |terms|
      invariant row == RowOf(terms[..j], R)
    {
      assert terms[..j + 1][..j] == terms[..j];
      var term := terms[j];
      if term in comp {
        row := row + [comp[term]];
      }
    }
    assert terms[..|terms|] == terms;
  }

  /** The graph loop of solve: a flagged prime implicant goes into ans, an
      unflagged one into rev with its row in biG. */
  method BiGraph(pis: seq<Impcnt>, comp: map<nat, nat>, ghost R: set<nat>, nA: nat)
    returns (biG: seq<seq<nat>>, rev: seq<nat>, ans: seq<nat>)
    requires comp.Keys == R && forall x :: x in R ==> comp[x] == Rank(R, x)
    requires nA == |NonEPI(pis, |pis|)|
    ensures rev == NonEPI(pis, |pis|) && |biG| == |rev|
    ensures forall v :: 0 <= v < |biG| ==> biG[v] == RowOf(pis[rev[v]].terms, R)
    ensures ans == EPIList(pis, |pis|)
  {
    biG, rev, ans := seq(nA, _ => []), [], [];
    for i := 0 to |pis|
      invariant rev == NonEPI(pis, i) && |rev| <= nA && |biG| == nA
      invariant forall k :: 0 <= k < |rev| ==> biG[k] == RowOf(pis[rev[k]].terms, R)
      invariant ans == EPIList(pis, i)
    {
      NonEPIGrows(pis, i + 1, |pis|);
      if pis[i].isEPI {
        ans := ans + [i];
        continue;
      }
      rev := rev + [i];
      var row := LeftRow(pis[i].terms, comp, R);
      biG := biG[|rev| - 1 := row];
    }
  }

  /** The first half of solve, run on unflagged prime implicants: getEPI's
      loops collecting sat, then the terms in sat erased from the positions.
      What is left are the minterms no flagged prime implicant holds. */
  method Eliminate(pis: seq<Impcnt>, minterms: seq<nat>) returns (pis': seq<Impcnt>, tot: nat, positions: set<nat>)
    requires forall i :: 0 <= i < |pis| ==> !pis[i].isEPI
    ensures |pis'| == |pis|
    ensures forall i :: 0 <= i < |pis| ==> pis'[i] == pis[i].(isEPI := SoleFor(pis, minterms, i))
    ensures CountEPI(pis') == CountEPI(pis) + tot
    ensures positions == Remaining(pis', minterms)
  {
    positions := MintermSet(minterms);
    var comp, n := Compress(positions);
    CompressedRange(positions, comp, n);
    var cnt, last := CountCovers(pis, comp, n);
    var sat;
    pis', tot, sat := MarkCollect(pis, minterms, comp, cnt, last);
    forall x | true
      ensures x in sat <==> EPICovers(pis', x)
    {
      NewlyAll(pis, pis', x);
    }
    positions := EraseAll(positions, sat);
  }

  /** The second half of solve: the remaining minterms renumbered, the
      one-sided graph with the flagged prime implicants in ans, bruteForce
      with nothing selected, and the picks mapped back through rev. */
  method GraphSearch(pis: seq<Impcnt>, minterms: seq<nat>, tot: nat, positions: set<nat>) returns (eps: seq<nat>, tail: seq<nat>)
    requires CountEPI(pis) == tot && positions == Remaining(pis, minterms)
    ensures eps == EPIList(pis, |pis|) && ExactResult(pis, minterms, tail)
  {
    var comp, n := Compress(positions);
    NonEPIMeaning(pis, |pis|);
    assert pis[..|pis|] == pis;
    var biG, rev;
    biG, rev, eps := BiGraph(pis, comp, positions, |pis| - tot);
    var selected := seq(n, _ => 0);
    RowsBound(pis, minterms, biG, rev);
    assert Covered(selected) == {};
    var selected', nowCase, solCase, minCost := BruteForce(biG, selected, [], [], 0, 0, 0, -1);
    ExactCover(pis, minterms, biG, rev, selected, solCase, minCost);
    tail := MapBack(rev, solCase);
  }
}
