/** Tabular::buildGraph: the minterms that no essential prime implicant covers
    are numbered densely in ascending order, and a bipartite graph joins every
    prime implicant not flagged essential (left side, GL) to the remaining
    minterms it covers (right side, GR). */
module Graph {
  import opened Implicants
  import opened Compression
  import opened Essential

  /** x is a term of some prime implicant flagged essential. */
  predicate EPICovers(pis: seq<Impcnt>, x: nat)
  {
    exists i :: 0 <= i < |pis| && pis[i].isEPI && x in pis[i].terms
  }

  /** The minterms left for the cover search. */
  function Remaining(pis: seq<Impcnt>, minterms: seq<nat>): set<nat>
  {
    set x | x in minterms && !EPICovers(pis, x)
  }

  /** The loop that fills sat with the terms of every essential prime implicant. */
  method EPITerms(pis: seq<Impcnt>) returns (sat: set<nat>)
    ensures forall x :: x in sat <==> EPICovers(pis, x)
  {
    sat := {};
    for i := 0 to |pis|
      invariant forall x :: x in sat <==> exists k :: 0 <= k < i && pis[k].isEPI && x in pis[k].terms
    {
      if !pis[i].isEPI {
        continue;
      }
      var terms := pis[i].terms;
      for j := 0 to |terms|
        invariant forall x :: x in sat <==> (exists k :: 0 <= k < i && pis[k].isEPI && x in pis[k].terms) || x in terms[..j]
      {
        assert terms[..j + 1] == terms[..j] + [terms[j]];
        sat := sat + {terms[j]};
      }
      assert terms[..|terms|] == terms;
    }
  }

  /** The loop that erases sat from positions, smallest element first. */
  method EraseAll(positions: set<nat>, sat: set<nat>) returns (positions': set<nat>)
    ensures positions' == positions - sat
  {
    positions' := positions;
    var rest := sat;
    while rest != {}
      invariant rest <= sat && positions' == positions - (sat - rest)
      decreases |rest|
    {
      ghost var m0 := MinExists(rest);
      var m :| m in rest && forall y :: y in rest ==> m <= y;
      rest := rest - {m};
      positions' := positions' - {m};
    }
  }

  // ---------------------------------------------------------------------------
  // The left side.

  /** The indices of pis[0 .. n - 1] that are not flagged essential: rev. */
  function NonEPI(pis: seq<Impcnt>, n: nat): (r: seq<nat>)
    requires n <= |pis|
    ensures forall k :: 0 <= k < |r| ==> r[k] < n
  {
    if n == 0 then [] else NonEPI(pis, n - 1) + (if pis[n - 1].isEPI then [] else [n - 1])
  }

  /** rev is ascending, lists exactly the unflagged prime implicants, and has
      as many entries as the flags leave. */
  lemma NonEPIMeaning(pis: seq<Impcnt>, n: nat)
    requires n <= |pis|
    ensures Increasing(NonEPI(pis, n))
    ensures forall k: nat :: k in NonEPI(pis, n) <==> k < n && !pis[k].isEPI
    ensures |NonEPI(pis, n)| + CountEPI(pis[..n]) == n
  {
    NonEPIMembers(pis, n);
    NonEPICount(pis, n);
  }

  lemma {:induction false} NonEPIMembers(pis: seq<Impcnt>, n: nat)
    requires n <= |pis|
    ensures Increasing(NonEPI(pis, n))
    ensures forall k: nat :: k in NonEPI(pis, n) <==> k < n && !pis[k].isEPI
  {
    if n > 0 {
      NonEPIMembers(pis, n - 1);
    }
  }

  lemma {:induction false} NonEPICount(pis: seq<Impcnt>, n: nat)
    requires n <= |pis|
    ensures |NonEPI(pis, n)| + CountEPI(pis[..n]) == n
  {
    if n > 0 {
      NonEPICount(pis, n - 1);
      assert pis[..n][..n - 1] == pis[..n - 1];
    }
  }

  lemma {:induction false} NonEPIGrows(pis: seq<Impcnt>, i: nat, n: nat)
    requires i <= n <= |pis|
    ensures |NonEPI(pis, i)| <= |NonEPI(pis, n)|
  {
    if i < n {
      NonEPIGrows(pis, i, n - 1);
    }
  }

  /** The row of a prime implicant: the numbers of its remaining terms, in term
      order. */
  function RowOf(terms: seq<nat>, R: set<nat>): seq<nat>
  {
    if terms == [] then []
    else
      var t := terms[|terms| - 1];
      RowOf(terms[..|terms| - 1], R) + (if t in R then [Rank(R, t)] else [])
  }

  /** u is in the row of a prime implicant exactly when u numbers one of its
      remaining terms. */
  lemma {:induction false} RowOfMeaning(terms: seq<nat>, R: set<nat>, u: nat)
    ensures u in RowOf(terms, R) <==> exists x :: x in terms && x in R && Rank(R, x) == u
  {
    if terms != [] {
      var init, t := terms[..|terms| - 1], terms[|terms| - 1];
      RowOfMeaning(init, R, u);
      assert terms == init + [t];
      if exists x :: x in terms && x in R && Rank(R, x) == u {
        var x :| x in terms && x in R && Rank(R, x) == u;
        if x != t {
          assert x in init;
        }
      }
    }
  }

  // ---------------------------------------------------------------------------
  // The right side.

  /** v once for every entry u of a row: what the column of u gains from row v. */
  function Hits(row: seq<nat>, u: nat, v: nat): seq<nat>
  {
    if row == [] then [] else Hits(row[..|row| - 1], u, v) + (if row[|row| - 1] == u then [v] else [])
  }

  /** The column of u built from the rows in order. */
  function Col(rows: seq<seq<nat>>, u: nat): seq<nat>
  {
    if rows == [] then [] else Col(rows[..|rows| - 1], u) + Hits(rows[|rows| - 1], u, |rows| - 1)
  }

  lemma {:induction false} HitsCount(row: seq<nat>, u: nat, v: nat, v': nat)
    ensures multiset(Hits(row, u, v))[v'] == if v' == v then multiset(row)[u] else 0
  {
    if row != [] {
      HitsCount(row[..|row| - 1], u, v, v');
      assert row == row[..|row| - 1] + [row[|row| - 1]];
    }
  }

  /** v appears in the column of u as often as u appears in row v. */
  lemma {:induction false} ColCount(rows: seq<seq<nat>>, u: nat, v: nat)
    ensures multiset(Col(rows, u))[v] == if v < |rows| then multiset(rows[v])[u] else 0
  {
    if rows != [] {
      var n := |rows|;
      ColCount(rows[..n - 1], u, v);
      HitsCount(rows[n - 1], u, n - 1, v);
      if v < n - 1 {
        assert rows[..n - 1][v] == rows[v];
      }
    }
  }

  /** The two sides of the graph agree: v is in column u exactly when u is in
      row v. */
  lemma GraphMeaning(rows: seq<seq<nat>>, u: nat, v: nat)
    requires v < |rows|
    ensures v in Col(rows, u) <==> u in rows[v]
  {
    ColCount(rows, u, v);
  }

  // ---------------------------------------------------------------------------
  // buildGraph.

  /** What buildGraph leaves in GL, GR and rev. */
  predicate GraphOf(pis: seq<Impcnt>, minterms: seq<nat>, GL: seq<seq<nat>>, GR: seq<seq<nat>>, rev: seq<nat>)
  {
    && rev == NonEPI(pis, |pis|)
    && |GL| == |rev|
    && (forall v :: 0 <= v < |GL| ==> GL[v] == RowOf(pis[rev[v]].terms, Remaining(pis, minterms)))
    && |GR| == |Remaining(pis, minterms)|
    && (forall u :: 0 <= u < |GR| ==> GR[u] == Col(GL, u))
  }

  /** The inner loop of buildGraph over the terms of one prime implicant: a
      remaining term adds its number to row v and v to its column. */
  method AddRow(terms: seq<nat>, comp: map<nat, nat>, ghost R: set<nat>, v: nat, GL: seq<seq<nat>>, GR: seq<seq<nat>>)
    returns (GL': seq<seq<nat>>, GR': seq<seq<nat>>)
    requires comp.Keys == R && forall x :: x in R ==> comp[x] == Rank(R, x) && comp[x] < |GR|
    requires v < |GL|
    ensures |GL'| == |GL| && GL'[v] == GL[v] + RowOf(terms, R)
    ensures forall k :: 0 <= k < |GL| && k != v ==> GL'[k] == GL[k]
    ensures |GR'| == |GR| && forall u :: 0 <= u < |GR| ==> GR'[u] == GR[u] + Hits(RowOf(terms, R), u, v)
  {
    GL', GR' := GL, GR;
    assert terms[..0] == [];
    assert forall s: seq<nat> :: s + [] == s;
    for j := 0 to |terms|
      invariant |GL'| == |GL| && GL'[v] == GL[v] + RowOf(terms[..j], R)
      invariant forall k :: 0 <= k < |GL| && k != v ==> GL'[k] == GL[k]
      invariant |GR'| == |GR| && forall u :: 0 <= u < |GR| ==> GR'[u] == GR[u] + Hits(RowOf(terms[..j], R), u, v)
    {
      assert terms[..j + 1][..j] == terms[..j];
      var term := terms[j];
      ghost var row := RowOf(terms[..j], R);
      if term in comp {
        var u := comp[term];
        assert RowOf(terms[..j + 1], R) == row + [u];
        assert (row + [u])[..|row|] == row;
        assert GL'[v] + [u] == GL[v] + (row + [u]);
        GL' := GL'[v := GL'[v] + [u]];
        GR' := GR'[u := GR'[u] + [v]];
      } else {
        assert RowOf(terms[..j + 1], R) == row;
      }
    }
    assert terms[..|terms|] == terms;
  }

  /** buildGraph: remove what the essential prime implicants cover, number the
      rest, and join every unflagged prime implicant to the numbers of its
      remaining terms. */
  method BuildGraph(pis: seq<Impcnt>, minterms: seq<nat>, tot: nat) returns (GL: seq<seq<nat>>, GR: seq<seq<nat>>, rev: seq<nat>)
    requires tot == CountEPI(pis)
    ensures GraphOf(pis, minterms, GL, GR, rev)
  {
    var positions := MintermSet(minterms);
    var sat := EPITerms(pis);
    positions := EraseAll(positions, sat);
    ghost var R := Remaining(pis, minterms);
    assert positions == R;
    var comp, n := Compress(positions);
    CompressedRange(positions, comp, n);
    NonEPIMeaning(pis, |pis|);
    assert pis[..|pis|] == pis;
    GL, GR, rev := BuildRows(pis, comp, R, |pis| - tot, n);
  }

  /** The loop of buildGraph over the prime implicants: an unflagged one gets
      the next row and is recorded in rev. */
  method BuildRows(pis: seq<Impcnt>, comp: map<nat, nat>, ghost R: set<nat>, nA: nat, n: nat)
    returns (GL: seq<seq<nat>>, GR: seq<seq<nat>>, rev: seq<nat>)
    requires comp.Keys == R && n == |R| && forall x :: x in R ==> comp[x] == Rank(R, x) && comp[x] < n
    requires nA == |NonEPI(pis, |pis|)|
    ensures rev == NonEPI(pis, |pis|) && |GL| == |rev| && |GR| == n
    ensures forall v :: 0 <= v < |GL| ==> GL[v] == RowOf(pis[rev[v]].terms, R)
    ensures forall u :: 0 <= u < n ==> GR[u] == Col(GL, u)
  {
    GL, GR, rev := seq(nA, _ => []), seq(n, _ => []), [];
    var v := 0;
    for i := 0 to |pis|
      invariant rev == NonEPI(pis, i) && v == |rev| && v <= nA
      invariant |GL| == nA && |GR| == n
      invariant forall k :: 0 <= k < v ==> GL[k] == RowOf(pis[rev[k]].terms, R)
      invariant forall k :: v <= k < nA ==> GL[k] == []
      invariant forall u :: 0 <= u < n ==> GR[u] == Col(GL[..v], u)
    {
      NonEPIGrows(pis, i + 1, |pis|);
      if pis[i].isEPI {
        continue;
      }
      rev := rev + [i];
      ghost var before := GL;
      GL, GR := AddRow(pis[i].terms, comp, R, v, GL, GR);
      ColStep(before, GL, v);
      v := v + 1;
    }
    assert GL[..v] == GL;
  }

  /** Filling row v leaves the columns of rows 0 .. v - 1 and adds the hits of
      row v. */
  lemma ColStep(before: seq<seq<nat>>, after: seq<seq<nat>>, v: nat)
    requires |before| == |after| && v < |after|
    requires forall k :: 0 <= k < |after| && k != v ==> after[k] == before[k]
    ensures forall u :: Col(after[..v + 1], u) == Col(before[..v], u) + Hits(after[v], u, v)
  {
    assert after[..v + 1][..v] == before[..v];
  }

  /** Every remaining minterm is covered by some unflagged prime implicant, so
      no column of the graph is empty, when every minterm is a term of some
      prime implicant. */
  lemma ColumnsNonEmpty(pis: seq<Impcnt>, minterms: seq<nat>, GL: seq<seq<nat>>, GR: seq<seq<nat>>, rev: seq<nat>, u: nat)
    requires GraphOf(pis, minterms, GL, GR, rev)
    requires forall x :: x in minterms ==> exists i :: 0 <= i < |pis| && x in pis[i].terms
    requires u < |GR|
    ensures GR[u] != []
  {
    var R := Remaining(pis, minterms);
    var x := RankOnto(R, u);
    var i :| 0 <= i < |pis| && x in pis[i].terms;
    assert !pis[i].isEPI;
    NonEPIMeaning(pis, |pis|);
    assert i in rev;
    var v :| 0 <= v < |rev| && rev[v] == i;
    RowOfMeaning(pis[i].terms, R, u);
    assert u in GL[v];
    GraphMeaning(GL, u, v);
  }
}
