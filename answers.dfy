/** What the solvers of Tabular promise, stated over prime implicant indices
    rather than graph vertices: trueSolver returns a smallest set of
    unflagged prime implicants that, with the essential ones, covers every
    minterm; approximationSolver returns some such set; and the essential
    ones plus either answer cover every minterm, the exact one with as few
    prime implicants as any cover at all. */
module Answers {
  import opened Implicants
  import opened Compression
  import opened Essential
  import opened Graph
  import opened Exact
  import Greedy
  import Seqs

  /** Every minterm is a term of some prime implicant: what getPI leaves. */
  ghost predicate Coverable(pis: seq<Impcnt>, minterms: seq<nat>)
  {
    forall x :: x in minterms ==> exists i :: 0 <= i < |pis| && x in pis[i].terms
  }

  /** The prime implicants with indices in S hold every minterm. */
  ghost predicate CoverSet(pis: seq<Impcnt>, minterms: seq<nat>, S: set<nat>)
  {
    && (forall i :: i in S ==> i < |pis|)
    && forall x :: x in minterms ==> exists i :: i in S && x in pis[i].terms
  }

  /** T is a set of unflagged prime implicants that covers every minterm no
      flagged one covers: a candidate answer of the solvers. */
  ghost predicate Completes(pis: seq<Impcnt>, minterms: seq<nat>, T: set<nat>)
  {
    && (forall i :: i in T ==> i < |pis| && !pis[i].isEPI)
    && forall x :: x in minterms && !EPICovers(pis, x) ==> exists i :: i in T && x in pis[i].terms
  }

  /** The rows of the cover graph, without the columns: what main.cpp's biG
      holds and the left half of what buildGraph builds. */
  ghost predicate Rows(pis: seq<Impcnt>, minterms: seq<nat>, GL: seq<seq<nat>>, rev: seq<nat>)
  {
    && rev == NonEPI(pis, |pis|)
    && |GL| == |rev|
    && forall v :: 0 <= v < |GL| ==> GL[v] == RowOf(pis[rev[v]].terms, Remaining(pis, minterms))
  }

  /** Rows picked in the graph, as prime implicant indices: rev[solCase[i]]. */
  function Translate(rev: seq<nat>, picks: seq<nat>): (r: seq<nat>)
    requires forall k :: 0 <= k < |picks| ==> picks[k] < |rev|
    ensures |r| == |picks|
  {
    seq(|picks|, k requires 0 <= k < |picks| => rev[picks[k]])
  }

  /** What trueSolver returns: ascending unflagged prime implicants that
      complete the cover whenever one exists, and no more of them than any
      candidate answer. */
  ghost predicate ExactResult(pis: seq<Impcnt>, minterms: seq<nat>, sol: seq<nat>)
  {
    && Increasing(sol)
    && (forall k :: 0 <= k < |sol| ==> sol[k] < |pis| && !pis[sol[k]].isEPI)
    && (Coverable(pis, minterms) ==> Completes(pis, minterms, Elements(sol)))
    && forall T :: Completes(pis, minterms, T) ==> |sol| <= |T|
  }

  /** What approximationSolver returns: distinct unflagged prime implicants
      that complete the cover, no more of them than remaining minterms. */
  ghost predicate ApproxResult(pis: seq<Impcnt>, minterms: seq<nat>, sol: seq<nat>)
  {
    && Seqs.Distinct(sol)
    && (forall k :: 0 <= k < |sol| ==> sol[k] < |pis| && !pis[sol[k]].isEPI)
    && Completes(pis, minterms, Elements(sol))
    && |sol| <= |Remaining(pis, minterms)|
  }

  // ---------------------------------------------------------------------------
  // Reading the rows.

  /** Every entry of a row numbers a remaining minterm. */
  lemma RowsBound(pis: seq<Impcnt>, minterms: seq<nat>, GL: seq<seq<nat>>, rev: seq<nat>)
    requires Rows(pis, minterms, GL, rev)
    ensures forall v, k :: 0 <= v < |GL| && 0 <= k < |GL[v]| ==> GL[v][k] < |Remaining(pis, minterms)|
  {
    var R := Remaining(pis, minterms);
    forall v, k | 0 <= v < |GL| && 0 <= k < |GL[v]|
      ensures GL[v][k] < |R|
    {
      var u := GL[v][k];
      RowOfMeaning(pis[rev[v]].terms, R, u);
      var x :| x in pis[rev[v]].terms && x in R && Rank(R, x) == u;
      RankBound(R, x);
    }
  }

  /** Row v holds the number of a remaining minterm x exactly when prime
      implicant rev[v] covers x. */
  lemma RowHolds(pis: seq<Impcnt>, minterms: seq<nat>, GL: seq<seq<nat>>, rev: seq<nat>, v: nat, x: nat)
    requires Rows(pis, minterms, GL, rev) && v < |GL|
    requires x in Remaining(pis, minterms)
    ensures Rank(Remaining(pis, minterms), x) in GL[v] <==> x in pis[rev[v]].terms
  {
    var R := Remaining(pis, minterms);
    RowOfMeaning(pis[rev[v]].terms, R, Rank(R, x));
    if Rank(R, x) in GL[v] {
      var y :| y in pis[rev[v]].terms && y in R && Rank(R, y) == Rank(R, x);
      if y < x {
        RankMonotone(R, y, x);
      } else if x < y {
        RankMonotone(R, x, y);
      }
    }
  }

  /** The rows whose prime implicants are in T. */
  function Preimage(rev: seq<nat>, T: set<nat>): set<nat>
  {
    set v | 0 <= v < |rev| && rev[v] in T
  }

  /** An ascending rev maps at most one row to each prime implicant. */
  lemma {:induction false} PreimageSize(rev: seq<nat>, T: set<nat>)
    requires Increasing(rev)
    ensures |Preimage(rev, T)| <= |T|
    decreases |T|
  {
    if T != {} {
      var t :| t in T;
      var P := Preimage(rev, T - {t});
      PreimageSize(rev, T - {t});
      if v :| 0 <= v < |rev| && rev[v] == t {
        assert Preimage(rev, T) == P + {v};
        assert v !in P;
      } else {
        assert Preimage(rev, T) == P;
      }
    } else {
      assert Preimage(rev, T) == {};
    }
  }

  /** Rows picked from rev are unflagged prime implicants, ascending when the
      picks are and distinct when the picks are. */
  lemma TranslateProperties(pis: seq<Impcnt>, rev: seq<nat>, picks: seq<nat>)
    requires rev == NonEPI(pis, |pis|)
    requires forall k :: 0 <= k < |picks| ==> picks[k] < |rev|
    ensures forall k :: 0 <= k < |picks| ==> Translate(rev, picks)[k] < |pis| && !pis[Translate(rev, picks)[k]].isEPI
    ensures Increasing(picks) ==> Increasing(Translate(rev, picks))
    ensures Seqs.Distinct(picks) ==> Seqs.Distinct(Translate(rev, picks))
  {
    var t := Translate(rev, picks);
    NonEPIMembers(pis, |pis|);
    forall k | 0 <= k < |picks|
      ensures t[k] < |pis| && !pis[t[k]].isEPI
    {
      assert t[k] == rev[picks[k]] && rev[picks[k]] in rev;
    }
    if Increasing(picks) {
      forall i, j | 0 <= i < j < |t|
        ensures t[i] < t[j]
      {
        assert picks[i] < picks[j];
      }
    }
    if Seqs.Distinct(picks) {
      forall i, j | 0 <= i < j < |t|
        ensures t[i] != t[j]
      {
        assert picks[i] != picks[j];
        if picks[i] < picks[j] {
          assert rev[picks[i]] < rev[picks[j]];
        } else {
          assert rev[picks[j]] < rev[picks[i]];
        }
      }
    }
  }

  // ---------------------------------------------------------------------------
  // From graph covers to prime implicant covers.

  /** Rows whose union holds every vertex give prime implicants that complete
      the cover. */
  lemma CoverFromFull(pis: seq<Impcnt>, minterms: seq<nat>, GL: seq<seq<nat>>, rev: seq<nat>, picks: seq<nat>)
    requires Rows(pis, minterms, GL, rev)
    requires forall k :: 0 <= k < |picks| ==> picks[k] < |GL|
    requires Full(Union(GL, picks), |Remaining(pis, minterms)|)
    ensures Completes(pis, minterms, Elements(Translate(rev, picks)))
  {
    var R := Remaining(pis, minterms);
    var sol := Translate(rev, picks);
    TranslateProperties(pis, rev, picks);
    forall x | x in minterms && !EPICovers(pis, x)
      ensures exists i :: i in Elements(sol) && x in pis[i].terms
    {
      assert x in R;
      RankBound(R, x);
      UnionMember(GL, picks, Rank(R, x));
      var k :| 0 <= k < |picks| && Rank(R, x) in GL[picks[k]];
      RowHolds(pis, minterms, GL, rev, picks[k], x);
      assert sol[k] in Elements(sol);
    }
  }

  /** The unflagged prime implicants complete the cover whenever every minterm
      is a term of some prime implicant. */
  lemma AllComplete(pis: seq<Impcnt>, minterms: seq<nat>)
    requires Coverable(pis, minterms)
    ensures Completes(pis, minterms, set i | 0 <= i < |pis| && !pis[i].isEPI)
  {
  }

  /** A candidate answer T yields a cover of the graph by at most |T| rows, so
      the search finds one. */
  lemma SearchBound(pis: seq<Impcnt>, minterms: seq<nat>, GL: seq<seq<nat>>, rev: seq<nat>, T: set<nat>)
    requires Rows(pis, minterms, GL, rev) && Completes(pis, minterms, T)
    requires |Remaining(pis, minterms)| > 0
    ensures Search(GL, {}, |Remaining(pis, minterms)|, 0).Cover?
    ensures Search(GL, {}, |Remaining(pis, minterms)|, 0).size <= |T|
  {
    var R := Remaining(pis, minterms);
    var N := |R|;
    var P := Preimage(rev, T);
    NonEPIMembers(pis, |pis|);
    PreimageSize(rev, T);
    var none: set<nat> := {};
    forall u | 0 <= u < N
      ensures u in none || exists t :: t in P && t < |GL| && u in GL[t]
    {
      RowFor(pis, minterms, GL, rev, T, u);
    }
    EmptyNotFull(N);
    SearchOptimal(GL, none, N, 0, P);
  }

  /** Some row of P holds u. */
  ghost predicate InSomeRow(GL: seq<seq<nat>>, P: set<nat>, u: nat)
  {
    exists t :: t in P && t < |GL| && u in GL[t]
  }

  /** A remaining minterm numbered u lies in the row of a prime implicant of
      any candidate answer T. */
  lemma RowFor(pis: seq<Impcnt>, minterms: seq<nat>, GL: seq<seq<nat>>, rev: seq<nat>, T: set<nat>, u: nat)
    requires Rows(pis, minterms, GL, rev) && Completes(pis, minterms, T)
    requires u < |Remaining(pis, minterms)|
    ensures InSomeRow(GL, Preimage(rev, T), u)
  {
    var R := Remaining(pis, minterms);
    var x := RankOnto(R, u);
    var i :| i in T && x in pis[i].terms;
    NonEPIMeaning(pis, |pis|);
    assert i in rev;
    var v :| 0 <= v < |rev| && rev[v] == i;
    RowHolds(pis, minterms, GL, rev, v, x);
    assert v in Preimage(rev, T);
  }

  lemma EmptyNotFull(N: nat)
    requires N > 0
    ensures !Full({}, N)
  {
    var none: set<nat> := {};
    assert 0 !in none;
  }

  /** With nothing remaining, every row is empty. */
  lemma {:induction false} RowOfNone(terms: seq<nat>)
    ensures RowOf(terms, {}) == []
  {
    if terms != [] {
      RowOfNone(terms[..|terms| - 1]);
    }
  }

  /** With no remaining minterm every row is empty and the search finds
      nothing. */
  lemma {:induction false} SearchNone(G: seq<seq<nat>>, C: set<nat>, N: nat, idx: nat)
    requires idx <= |G| && forall v :: idx <= v < |G| ==> G[v] == []
    ensures Search(G, C, N, idx) == NoCover
    decreases |G| - idx
  {
    if idx < |G| {
      SearchNone(G, C, N, idx + 1);
    }
  }

  /** trueSolver's answer: what bruteForce leaves from its first call,
      translated through rev, is an exact answer. */
  lemma ExactCover(pis: seq<Impcnt>, minterms: seq<nat>, GL: seq<seq<nat>>, rev: seq<nat>,
                   selected: seq<nat>, minCase: seq<nat>, minCost: int)
    requires Rows(pis, minterms, GL, rev)
    requires |selected| == |Remaining(pis, minterms)| && Covered(selected) == {}
    requires minCost == Improve(-1, 0, Search(GL, {}, |selected|, 0))
    requires minCost == -1 ==> minCase == []
    requires minCost != -1 ==> Found(GL, selected, [], 0, 0, minCase, minCost)
    ensures forall k :: 0 <= k < |minCase| ==> minCase[k] < |rev|
    ensures ExactResult(pis, minterms, Translate(rev, minCase))
  {
    if minCost != -1 {
      assert minCase[0..] == minCase;
    }
    TranslateProperties(pis, rev, minCase);
    if |selected| == 0 {
      ExactNone(pis, minterms, GL, rev);
    } else {
      ExactSome(pis, minterms, GL, rev, selected, minCase, minCost);
    }
  }

  /** With no remaining minterm, the search finds nothing, the flagged prime
      implicants cover every minterm, and the empty answer is exact. */
  lemma ExactNone(pis: seq<Impcnt>, minterms: seq<nat>, GL: seq<seq<nat>>, rev: seq<nat>)
    requires Rows(pis, minterms, GL, rev) && Remaining(pis, minterms) == {}
    ensures Search(GL, {}, 0, 0) == NoCover
    ensures Completes(pis, minterms, {})
  {
    forall v | 0 <= v < |GL|
      ensures GL[v] == []
    {
      RowOfNone(pis[rev[v]].terms);
    }
    SearchNone(GL, {}, 0, 0);
    var R := Remaining(pis, minterms);
    forall x | x in minterms && !EPICovers(pis, x)
      ensures x in R
    {
    }
  }

  /** With some remaining minterm, the recorded cover has no more rows than
      any candidate answer has prime implicants, and it exists when every
      minterm is coverable. */
  lemma ExactSome(pis: seq<Impcnt>, minterms: seq<nat>, GL: seq<seq<nat>>, rev: seq<nat>,
                  selected: seq<nat>, minCase: seq<nat>, minCost: int)
    requires Rows(pis, minterms, GL, rev)
    requires |selected| == |Remaining(pis, minterms)| > 0 && Covered(selected) == {}
    requires minCost == Improve(-1, 0, Search(GL, {}, |selected|, 0))
    requires minCost == -1 ==> minCase == []
    requires minCost != -1 ==> Found(GL, selected, [], 0, 0, minCase, minCost) && minCase[0..] == minCase
    requires forall k :: 0 <= k < |minCase| ==> minCase[k] < |rev|
    ensures forall T :: Completes(pis, minterms, T) ==> |minCase| <= |T|
    ensures Coverable(pis, minterms) ==> Completes(pis, minterms, Elements(Translate(rev, minCase)))
  {
    forall T | Completes(pis, minterms, T)
      ensures |minCase| <= |T|
    {
      SearchBound(pis, minterms, GL, rev, T);
    }
    if Coverable(pis, minterms) {
      AllComplete(pis, minterms);
      SearchBound(pis, minterms, GL, rev, set i | 0 <= i < |pis| && !pis[i].isEPI);
      CoverFromFull(pis, minterms, GL, rev, minCase);
    }
  }

  // ---------------------------------------------------------------------------
  // The greedy side.

  /** buildGraph's two sides agree, as greedy needs. */
  lemma GraphBipartite(pis: seq<Impcnt>, minterms: seq<nat>, GL: seq<seq<nat>>, GR: seq<seq<nat>>, rev: seq<nat>)
    requires GraphOf(pis, minterms, GL, GR, rev)
    ensures Greedy.Bipartite(GL, GR)
  {
    RowsBound(pis, minterms, GL, rev);
    forall u, j | 0 <= u < |GR| && 0 <= j < |GR[u]|
      ensures GR[u][j] < |GL|
    {
      ColCount(GL, u, GR[u][j]);
    }
    forall u, v | 0 <= u < |GR| && 0 <= v < |GL|
      ensures multiset(GR[u])[v] == multiset(GL[v])[u]
    {
      ColCount(GL, u, v);
    }
  }

  /** approximationSolver's answer: greedy's picks translated through rev. */
  lemma ApproxCover(pis: seq<Impcnt>, minterms: seq<nat>, GL: seq<seq<nat>>, rev: seq<nat>, picks: seq<nat>)
    requires Rows(pis, minterms, GL, rev)
    requires forall k :: 0 <= k < |picks| ==> picks[k] < |GL|
    requires Full(Union(GL, picks), |Remaining(pis, minterms)|)
    requires Seqs.Distinct(picks) && |picks| <= |Remaining(pis, minterms)|
    ensures ApproxResult(pis, minterms, Translate(rev, picks))
  {
    TranslateProperties(pis, rev, picks);
    CoverFromFull(pis, minterms, GL, rev, picks);
  }

  // ---------------------------------------------------------------------------
  // Adding the essential prime implicants.

  /** The indices of pis[0 .. n - 1] that are flagged essential, ascending. */
  function EPIList(pis: seq<Impcnt>, n: nat): (r: seq<nat>)
    requires n <= |pis|
    ensures forall k :: 0 <= k < |r| ==> r[k] < n
  {
    if n == 0 then [] else EPIList(pis, n - 1) + (if pis[n - 1].isEPI then [n - 1] else [])
  }

  /** The flagged indices below n. */
  function EPISet(pis: seq<Impcnt>, n: nat): set<nat>
    requires n <= |pis|
  {
    set i | 0 <= i < n && pis[i].isEPI
  }

  /** EPIList lists the flagged prime implicants, ascending, once each. */
  lemma EPIListMeaning(pis: seq<Impcnt>, n: nat)
    requires n <= |pis|
    ensures Increasing(EPIList(pis, n))
    ensures Elements(EPIList(pis, n)) == EPISet(pis, n)
    ensures |EPIList(pis, n)| == |EPISet(pis, n)|
  {
    EPIListMembers(pis, n);
    EPIListSize(pis, n);
  }

  lemma {:induction false} EPIListMembers(pis: seq<Impcnt>, n: nat)
    requires n <= |pis|
    ensures Increasing(EPIList(pis, n))
    ensures Elements(EPIList(pis, n)) == EPISet(pis, n)
  {
    if n > 0 {
      EPIListMembers(pis, n - 1);
      var L := EPIList(pis, n - 1);
      if pis[n - 1].isEPI {
        assert Elements(L + [n - 1]) == Elements(L) + {n - 1};
        assert EPISet(pis, n) == EPISet(pis, n - 1) + {n - 1};
      } else {
        assert L + [] == L;
        assert EPISet(pis, n) == EPISet(pis, n - 1);
      }
    } else {
      assert EPISet(pis, n) == {};
    }
  }

  lemma {:induction false} EPIListSize(pis: seq<Impcnt>, n: nat)
    requires n <= |pis|
    ensures |EPIList(pis, n)| == |EPISet(pis, n)|
  {
    if n > 0 {
      EPIListSize(pis, n - 1);
      if pis[n - 1].isEPI {
        assert EPISet(pis, n) == EPISet(pis, n - 1) + {n - 1};
        assert n - 1 !in EPISet(pis, n - 1);
      } else {
        assert EPISet(pis, n) == EPISet(pis, n - 1);
      }
    } else {
      assert EPISet(pis, n) == {};
    }
  }

  /** The loop of solve that appends the flagged prime implicants. */
  method AddEssentials(pis: seq<Impcnt>, ans: seq<nat>) returns (ans': seq<nat>)
    ensures ans' == ans + EPIList(pis, |pis|)
  {
    ans' := ans;
    for i := 0 to |pis|
      invariant ans' == ans + EPIList(pis, i)
    {
      if pis[i].isEPI {
        ans' := ans' + [i];
      }
    }
  }

  /** The loop that maps solver picks back to prime implicants through rev. */
  method MapBack(rev: seq<nat>, picks: seq<nat>) returns (ans: seq<nat>)
    requires forall k :: 0 <= k < |picks| ==> picks[k] < |rev|
    ensures ans == Translate(rev, picks)
  {
    ans := [];
    for i := 0 to |picks|
      invariant ans == Translate(rev, picks[..i])
    {
      ans := ans + [rev[picks[i]]];
    }
    assert picks[..|picks|] == picks;
  }

  /** The flagged prime implicants together with a completing answer cover
      every minterm. */
  lemma WholeCover(pis: seq<Impcnt>, minterms: seq<nat>, sol: seq<nat>)
    requires Completes(pis, minterms, Elements(sol))
    ensures CoverSet(pis, minterms, Elements(EPIList(pis, |pis|) + sol))
  {
    EPIListMeaning(pis, |pis|);
    var all := Elements(EPIList(pis, |pis|) + sol);
    forall x | x in minterms
      ensures exists i :: i in all && i < |pis| && x in pis[i].terms
    {
      if EPICovers(pis, x) {
        var i :| 0 <= i < |pis| && pis[i].isEPI && x in pis[i].terms;
        assert i in EPISet(pis, |pis|);
      } else {
        var i :| i in Elements(sol) && i < |pis| && x in pis[i].terms;
      }
    }
  }

  /** The flags getEPI sets on prime implicants that had none. */
  ghost predicate FlaggedFrom(pis0: seq<Impcnt>, minterms: seq<nat>, pis: seq<Impcnt>)
  {
    && |pis| == |pis0|
    && forall i :: 0 <= i < |pis0| ==> !pis0[i].isEPI && pis[i] == pis0[i].(isEPI := SoleFor(pis0, minterms, i))
  }

  /** Every cover holds every essential prime implicant: each is the only one
      covering some minterm. */
  lemma EssentialInEveryCover(pis0: seq<Impcnt>, minterms: seq<nat>, pis: seq<Impcnt>, S: set<nat>, i: nat)
    requires FlaggedFrom(pis0, minterms, pis) && AscendingTerms(pis0)
    requires CoverSet(pis, minterms, S)
    requires i < |pis| && pis[i].isEPI
    ensures i in S
  {
    SoleForMeaning(pis0, minterms, i);
    var x :| x in minterms && SoleCover(pis0, x, i);
    var k :| k in S && x in pis[k].terms;
    assert k < |pis0| && x in pis0[k].terms;
  }

  /** The exact answer plus the essential prime implicants is a smallest
      cover: no set of prime implicants covering every minterm is smaller. */
  lemma MinimumCover(pis0: seq<Impcnt>, minterms: seq<nat>, pis: seq<Impcnt>, sol: seq<nat>, S: set<nat>)
    requires FlaggedFrom(pis0, minterms, pis) && AscendingTerms(pis0)
    requires ExactResult(pis, minterms, sol)
    requires CoverSet(pis, minterms, S)
    ensures |EPIList(pis, |pis|) + sol| <= |S|
  {
    var E := EPISet(pis, |pis|);
    EPIListMeaning(pis, |pis|);
    var T := OutsideEssentials(pis0, minterms, pis, S);
    assert S == E + T;
  }

  /** Taking the essential prime implicants out of a cover leaves a candidate
      answer, and takes out all of them. */
  lemma OutsideEssentials(pis0: seq<Impcnt>, minterms: seq<nat>, pis: seq<Impcnt>, S: set<nat>) returns (T: set<nat>)
    requires FlaggedFrom(pis0, minterms, pis) && AscendingTerms(pis0)
    requires CoverSet(pis, minterms, S)
    ensures EPISet(pis, |pis|) <= S && T == S - EPISet(pis, |pis|)
    ensures Completes(pis, minterms, T)
  {
    var E := EPISet(pis, |pis|);
    forall i | i in E
      ensures i in S
    {
      EssentialInEveryCover(pis0, minterms, pis, S, i);
    }
    T := S - E;
    forall x | x in minterms && !EPICovers(pis, x)
      ensures exists i :: i in T && x in pis[i].terms
    {
      var i :| i in S && x in pis[i].terms;
      assert i !in E;
    }
  }
}
