/** The Tabular class: the minterms and don't-cares it is given, the number of
    inputs they need, and the prime implicants with their essential flags.
    solve runs getPI, getEPI and one of the two cover solvers, and answers
    with prime implicant indices. */
module Solver {
  import opened Bits
  import opened Implicants
  import opened Primes
  import opened Levels
  import opened PrimeImplicants
  import opened Compression
  import opened Essential
  import opened Graph
  import opened Exact
  import Greedy
  import Seqs
  import opened Answers
  import opened Sorting
  import opened InlineSolve

  /** The number of inputs addMin and addDon settle on: the largest bit length
      among the values, 0 when there are none. */
  function InputWidth(vals: seq<nat>): nat
  {
    if vals == [] then 0
    else
      var w, b := InputWidth(vals[..|vals| - 1]), BitLength(vals[|vals| - 1]);
      if w < b then b else w
  }

  lemma FitsWider(vals: seq<nat>, w: nat, w': nat)
    requires Fits(vals, w) && w <= w'
    ensures Fits(vals, w')
  {
    Pow2Monotone(w, w');
  }

  /** The parts of a list that fits in w bits fit too. */
  lemma FitsSplit(a: seq<nat>, b: seq<nat>, w: nat)
    requires Fits(a + b, w)
    ensures Fits(a, w) && Fits(b, w)
  {
    forall k | 0 <= k < |a|
      ensures a[k] < Pow2(w)
    {
      assert a[k] == (a + b)[k];
    }
    forall k | 0 <= k < |b|
      ensures b[k] < Pow2(w)
    {
      assert b[k] == (a + b)[|a| + k];
    }
  }

  /** Every value fits in InputWidth(vals) bits. */
  lemma {:induction false} InputWidthFits(vals: seq<nat>)
    ensures Fits(vals, InputWidth(vals))
  {
    if vals != [] {
      var init, x := vals[..|vals| - 1], vals[|vals| - 1];
      InputWidthFits(init);
      FitsWider(init, InputWidth(init), InputWidth(vals));
      BitLengthBounds(x);
      Pow2Monotone(BitLength(x), InputWidth(vals));
    }
  }

  /** A value below 2^w has at most w binary digits. */
  lemma BitLengthLeast(x: nat, w: nat)
    requires x < Pow2(w)
    ensures BitLength(x) <= w
  {
    BitLengthBounds(x);
    var k := if BitLength(x) > w then BitLength(x) - 1 else w;
    Pow2Monotone(w, k);
  }

  /** No narrower width fits every value. */
  lemma {:induction false} InputWidthLeast(vals: seq<nat>, w: nat)
    requires Fits(vals, w)
    ensures InputWidth(vals) <= w
  {
    if vals != [] {
      var init, x := vals[..|vals| - 1], vals[|vals| - 1];
      InputWidthLeast(init, w);
      BitLengthLeast(x, w);
    }
  }

  /** No prime implicant is flagged. */
  lemma {:induction false} NoFlags(pis: seq<Impcnt>)
    requires forall i :: 0 <= i < |pis| ==> !pis[i].isEPI
    ensures CountEPI(pis) == 0
  {
    if pis != [] {
      NoFlags(pis[..|pis| - 1]);
    }
  }

  /** What getPI leaves for getEPI and the solvers: unflagged prime
      implicants with ascending terms that cover every minterm. */
  lemma FreshPIs(w: nat, minterms: seq<nat>, dontcares: seq<nat>, pis: Bucket, lists: seq<Level>)
    requires Fits(minterms, w) && Fits(dontcares, w)
    requires GetPIResult(w, minterms, dontcares, pis, lists)
    ensures forall i :: 0 <= i < |pis| ==> !pis[i].isEPI
    ensures AscendingTerms(pis) && CountEPI(pis) == 0 && Coverable(pis, minterms)
  {
    forall i | 0 <= i < |pis|
      ensures !pis[i].isEPI && Increasing(pis[i].terms)
    {
      PIsImplicant(w, minterms, dontcares, pis, lists, pis[i]);
    }
    forall x | x in minterms
      ensures exists i :: 0 <= i < |pis| && x in pis[i].terms
    {
      var c := PIsCover(w, minterms, dontcares, pis, lists, x);
      var i :| 0 <= i < |pis| && pis[i] == c;
    }
    NoFlags(pis);
  }

  /** Flagging changes no terms, so whatever was coverable stays so. */
  lemma FlaggedCoverable(pis0: seq<Impcnt>, minterms: seq<nat>, pis: seq<Impcnt>)
    requires FlaggedFrom(pis0, minterms, pis) && Coverable(pis0, minterms)
    ensures Coverable(pis, minterms)
  {
    forall x | x in minterms
      ensures exists i :: 0 <= i < |pis| && x in pis[i].terms
    {
      var i :| 0 <= i < |pis0| && x in pis0[i].terms;
      assert x in pis[i].terms;
    }
  }

  /** getEPI's flags mean what the method promises: a prime implicant is
      flagged exactly when it is the only one holding some minterm. */
  ghost predicate Essentials(pis: seq<Impcnt>, minterms: seq<nat>)
  {
    forall i :: 0 <= i < |pis| ==> (pis[i].isEPI <==> exists x :: x in minterms && SoleCover(pis, x, i))
  }

  lemma FlagsMeaning(pis0: seq<Impcnt>, minterms: seq<nat>, pis: seq<Impcnt>)
    requires FlaggedFrom(pis0, minterms, pis) && AscendingTerms(pis0)
    ensures Essentials(pis, minterms)
  {
    forall i | 0 <= i < |pis|
      ensures pis[i].isEPI <==> exists x :: x in minterms && SoleCover(pis, x, i)
    {
      SoleForMeaning(pis0, minterms, i);
      if pis[i].isEPI {
        var x :| x in minterms && SoleCover(pis0, x, i);
        assert SoleCover(pis, x, i);
      }
      if exists x :: x in minterms && SoleCover(pis, x, i) {
        var x :| x in minterms && SoleCover(pis, x, i);
        assert SoleCover(pis0, x, i);
      }
    }
  }

  /** What solve promises about its answer: distinct prime implicants that
      hold every minterm and include every essential one; with the exact
      solver, no set of prime implicants holding every minterm is smaller. */
  ghost predicate Solution(pis: seq<Impcnt>, minterms: seq<nat>, ans: seq<nat>, exact: bool)
  {
    && (forall k :: 0 <= k < |ans| ==> ans[k] < |pis|)
    && Seqs.Distinct(ans)
    && (forall i :: 0 <= i < |pis| && pis[i].isEPI ==> i in ans)
    && CoverSet(pis, minterms, Elements(ans))
    && (exact ==> forall S :: CoverSet(pis, minterms, S) ==> |ans| <= |S|)
  }

  /** A list without repeats has as many elements as entries. */
  lemma {:induction false} DistinctSize(s: seq<nat>)
    requires Seqs.Distinct(s)
    ensures |Elements(s)| == |s|
  {
    if s != [] {
      var init, x := s[..|s| - 1], s[|s| - 1];
      DistinctSize(init);
      assert s == init + [x];
      assert Elements(s) == Elements(init) + {x};
      assert x !in Elements(init);
    }
  }

  /** The exact answer is never longer than the greedy one: what solveTest
      is used to compare. */
  lemma ExactNoLarger(pis: seq<Impcnt>, minterms: seq<nat>, exact: seq<nat>, approx: seq<nat>)
    requires Solution(pis, minterms, exact, true) && Solution(pis, minterms, approx, false)
    ensures |exact| <= |approx|
  {
    DistinctSize(approx);
  }

  /** A solver's answer with the flagged prime implicants appended, as solve
      and solveTest build it, is a solution. */
  lemma AppendEssentials(pis0: seq<Impcnt>, minterms: seq<nat>, pis: seq<Impcnt>, sol: seq<nat>, exact: bool)
    requires FlaggedFrom(pis0, minterms, pis) && AscendingTerms(pis0)
    requires forall k :: 0 <= k < |sol| ==> sol[k] < |pis| && !pis[sol[k]].isEPI
    requires Seqs.Distinct(sol)
    requires Completes(pis, minterms, Elements(sol))
    requires exact ==> ExactResult(pis, minterms, sol)
    ensures Solution(pis, minterms, sol + EPIList(pis, |pis|), exact)
  {
    var E := EPIList(pis, |pis|);
    var ans := sol + E;
    EPIListMeaning(pis, |pis|);
    forall i, j | 0 <= i < j < |ans|
      ensures ans[i] != ans[j]
    {
      if j >= |sol| && i < |sol| {
        assert ans[j] in Elements(E);
      }
    }
    forall i | 0 <= i < |pis| && pis[i].isEPI
      ensures i in ans
    {
      assert i in Elements(E);
    }
    WholeCover(pis, minterms, sol);
    assert Elements(E + sol) == Elements(ans);
    if exact {
      forall S | CoverSet(pis, minterms, S)
        ensures |ans| <= |S|
      {
        MinimumCover(pis0, minterms, pis, sol, S);
      }
    }
  }

  /** Sorting keeps a solution a solution. */
  lemma SortedSolution(pis: seq<Impcnt>, minterms: seq<nat>, ans: seq<nat>, sorted: seq<nat>, exact: bool)
    requires Solution(pis, minterms, ans, exact)
    requires multiset(sorted) == multiset(ans) && Increasing(sorted)
    ensures Solution(pis, minterms, sorted, exact)
  {
    assert |sorted| == |multiset(sorted)| == |ans|;
    forall k | 0 <= k < |sorted|
      ensures sorted[k] in ans
    {
      assert sorted[k] in multiset(ans);
    }
    forall i | i in ans
      ensures i in sorted
    {
      assert i in multiset(sorted);
    }
    assert Elements(sorted) == Elements(ans);
  }

  class Tabular {
    var minterms: seq<nat>
    var dontcares: seq<nat>
    var PIs: seq<Impcnt>
    var numberOfInputs: nat
    var totNumberOfEPI: nat

    /** Every minterm and don't-care fits in numberOfInputs bits. */
    ghost predicate Valid()
      reads this
    {
      Fits(minterms, numberOfInputs) && Fits(dontcares, numberOfInputs)
    }

    constructor ()
      ensures minterms == [] && dontcares == [] && PIs == [] && numberOfInputs == 0
      ensures Valid()
    {
      minterms, dontcares, PIs := [], [], [];
      numberOfInputs, totNumberOfEPI := 0, 0;
    }

    /** Tabular(mins, donts): every minterm, then every don't-care, through
        addMin and addDon; the width is the least that fits them all. */
    constructor FromInputs(mins: seq<nat>, donts: seq<nat>)
      ensures minterms == mins && dontcares == donts && PIs == []
      ensures numberOfInputs == InputWidth(mins + donts)
      ensures Valid()
    {
      minterms, dontcares, PIs := [], [], [];
      numberOfInputs, totNumberOfEPI := 0, 0;
      new;
      for i := 0 to |mins|
        invariant minterms == mins[..i] && dontcares == [] && PIs == []
        invariant numberOfInputs == InputWidth(mins[..i])
      {
        assert mins[..i + 1][..i] == mins[..i];
        AddMin(mins[i]);
      }
      assert mins[..|mins|] == mins + donts[..0];
      for j := 0 to |donts|
        invariant minterms == mins && dontcares == donts[..j] && PIs == []
        invariant numberOfInputs == InputWidth(mins + donts[..j])
      {
        assert (mins + donts[..j + 1])[..|mins| + j] == mins + donts[..j];
        AddDon(donts[j]);
      }
      assert donts[..|donts|] == donts;
      InputWidthFits(mins + donts);
      FitsSplit(mins, donts, numberOfInputs);
    }

    /** addMin: record a minterm and widen to its bit length. */
    method AddMin(m: nat)
      modifies this
      ensures minterms == old(minterms) + [m] && dontcares == old(dontcares)
      ensures PIs == old(PIs) && totNumberOfEPI == old(totNumberOfEPI)
      ensures numberOfInputs == if old(numberOfInputs) < BitLength(m) then BitLength(m) else old(numberOfInputs)
      ensures old(Valid()) ==> Valid()
    {
      var w := if numberOfInputs < BitLength(m) then BitLength(m) else numberOfInputs;
      if Valid() {
        FitsWider(minterms, numberOfInputs, w);
        FitsWider(dontcares, numberOfInputs, w);
        BitLengthBounds(m);
        Pow2Monotone(BitLength(m), w);
      }
      minterms, numberOfInputs := minterms + [m], w;
    }

    /** addDon: record a don't-care and widen to its bit length. */
    method AddDon(d: nat)
      modifies this
      ensures dontcares == old(dontcares) + [d] && minterms == old(minterms)
      ensures PIs == old(PIs) && totNumberOfEPI == old(totNumberOfEPI)
      ensures numberOfInputs == if old(numberOfInputs) < BitLength(d) then BitLength(d) else old(numberOfInputs)
      ensures old(Valid()) ==> Valid()
    {
      var w := if numberOfInputs < BitLength(d) then BitLength(d) else numberOfInputs;
      if Valid() {
        FitsWider(minterms, numberOfInputs, w);
        FitsWider(dontcares, numberOfInputs, w);
        BitLengthBounds(d);
        Pow2Monotone(BitLength(d), w);
      }
      dontcares, numberOfInputs := dontcares + [d], w;
    }

    /** getPI: PIs becomes the prime implicants of the inputs. */
    method GetPI() returns (ghost lists: seq<Level>)
      requires Valid()
      modifies this
      ensures GetPIResult(numberOfInputs, minterms, dontcares, PIs, lists)
      ensures minterms == old(minterms) && dontcares == old(dontcares)
      ensures numberOfInputs == old(numberOfInputs) && totNumberOfEPI == old(totNumberOfEPI)
    {
      var pis;
      pis, lists := PrimeImplicants.GetPI(numberOfInputs, minterms, dontcares);
      PIs := pis;
    }

    /** getEPI: flags the sole coverers and counts the new flags in
        totNumberOfEPI. */
    method GetEPI()
      modifies this
      ensures |PIs| == |old(PIs)|
      ensures forall i :: 0 <= i < |PIs| ==> PIs[i] == old(PIs[i]).(isEPI := old(PIs[i]).isEPI || SoleFor(old(PIs), minterms, i))
      ensures CountEPI(PIs) == CountEPI(old(PIs)) + totNumberOfEPI
      ensures minterms == old(minterms) && dontcares == old(dontcares) && numberOfInputs == old(numberOfInputs)
    {
      var pis, tot := Essential.GetEPI(PIs, minterms);
      PIs, totNumberOfEPI := pis, tot;
    }

    /** trueSolver: buildGraph, bruteForce from the first row with nothing
        selected, then the picks mapped back through rev. */
    method TrueSolver() returns (ans: seq<nat>)
      requires totNumberOfEPI == CountEPI(PIs)
      ensures ExactResult(PIs, minterms, ans)
    {
      var GL, GR, rev := BuildGraph(PIs, minterms, totNumberOfEPI);
      var selected := seq(|GR|, _ => 0);
      RowsBound(PIs, minterms, GL, rev);
      assert Covered(selected) == {};
      var selected', nowCase, solCase, minCost := BruteForce(GL, selected, [], [], 0, 0, 0, -1);
      ExactCover(PIs, minterms, GL, rev, selected, solCase, minCost);
      ans := MapBack(rev, solCase);
    }

    /** approximationSolver: buildGraph, greedy with nothing selected, then
        the picks mapped back through rev. Every pick is a greedy choice on
        the graph. */
    method ApproximationSolver() returns (ans: seq<nat>, ghost GL: seq<seq<nat>>, ghost rev: seq<nat>, ghost picks: seq<nat>)
      requires totNumberOfEPI == CountEPI(PIs)
      requires Coverable(PIs, minterms)
      ensures ApproxResult(PIs, minterms, ans)
      ensures Rows(PIs, minterms, GL, rev) && forall k :: 0 <= k < |picks| ==> picks[k] < |GL|
      ensures ans == Translate(rev, picks) && Greedy.Choices(GL, picks)
    {
      var GL', GR, rev' := BuildGraph(PIs, minterms, totNumberOfEPI);
      GraphBipartite(PIs, minterms, GL', GR, rev');
      forall u | 0 <= u < |GR|
        ensures GR[u] != []
      {
        ColumnsNonEmpty(PIs, minterms, GL', GR, rev', u);
      }
      var selected := seq(|GR|, _ => 0);
      var selected', solCase := Greedy.Greedy(GL', GR, selected);
      ApproxCover(PIs, minterms, GL', rev', solCase);
      ans := MapBack(rev', solCase);
      GL, rev, picks := GL', rev', solCase;
    }

    /** The steps solve and solveTest share: getPI, getEPI, a solver, and the
        flagged prime implicants appended to its answer. */
    method Pipeline(approx: bool) returns (ans: seq<nat>, ghost pis0: seq<Impcnt>, ghost lists: seq<Level>)
      requires Valid()
      modifies this
      ensures minterms == old(minterms) && dontcares == old(dontcares) && numberOfInputs == old(numberOfInputs)
      ensures GetPIResult(numberOfInputs, minterms, dontcares, pis0, lists) && FlaggedFrom(pis0, minterms, PIs)
      ensures totNumberOfEPI == CountEPI(PIs) && Essentials(PIs, minterms)
      ensures Solution(PIs, minterms, ans, !approx)
    {
      lists := GetPI();
      pis0 := PIs;
      FreshPIs(numberOfInputs, minterms, dontcares, PIs, lists);
      GetEPI();
      FlagsMeaning(pis0, minterms, PIs);
      FlaggedCoverable(pis0, minterms, PIs);
      var sol;
      if approx {
        ghost var GL, rev, picks;
        sol, GL, rev, picks := ApproximationSolver();
      } else {
        sol := TrueSolver();
      }
      AppendEssentials(pis0, minterms, PIs, sol, !approx);
      ans := AddEssentials(PIs, sol);
    }

    /** solve: the answer of Pipeline, sorted ascending. */
    method Solve(approx: bool) returns (ans: seq<nat>, ghost pis0: seq<Impcnt>, ghost lists: seq<Level>)
      requires Valid()
      modifies this
      ensures minterms == old(minterms) && dontcares == old(dontcares) && numberOfInputs == old(numberOfInputs)
      ensures GetPIResult(numberOfInputs, minterms, dontcares, pis0, lists) && FlaggedFrom(pis0, minterms, PIs)
      ensures totNumberOfEPI == CountEPI(PIs) && Essentials(PIs, minterms)
      ensures Increasing(ans) && Solution(PIs, minterms, ans, !approx)
    {
      var unsorted;
      unsorted, pis0, lists := Pipeline(approx);
      ans := Sort(unsorted);
      SortedSolution(PIs, minterms, unsorted, ans, !approx);
    }

    /** solveTest: the size of Pipeline's answer. */
    method SolveTest(approx: bool) returns (n: nat, ghost ans: seq<nat>, ghost pis0: seq<Impcnt>, ghost lists: seq<Level>)
      requires Valid()
      modifies this
      ensures minterms == old(minterms) && dontcares == old(dontcares) && numberOfInputs == old(numberOfInputs)
      ensures GetPIResult(numberOfInputs, minterms, dontcares, pis0, lists) && FlaggedFrom(pis0, minterms, PIs)
      ensures totNumberOfEPI == CountEPI(PIs) && Essentials(PIs, minterms)
      ensures n == |ans| && Solution(PIs, minterms, ans, !approx)
    {
      var a;
      a, pis0, lists := Pipeline(approx);
      n, ans := |a|, a;
    }

    /** main.cpp's solve, run on the result of getPI: getEPI's loops that
        also collect sat, erasure and renumbering, the one-sided graph with
        the flagged prime implicants in ans, bruteForce, and the picks
        appended through rev. */
    method SolveInline() returns (ans: seq<nat>, ghost sol: seq<nat>)
      requires forall i :: 0 <= i < |PIs| ==> !PIs[i].isEPI
      modifies this
      ensures minterms == old(minterms) && dontcares == old(dontcares) && numberOfInputs == old(numberOfInputs)
      ensures totNumberOfEPI == old(totNumberOfEPI)
      ensures FlaggedFrom(old(PIs), minterms, PIs)
      ensures ans == EPIList(PIs, |PIs|) + sol && ExactResult(PIs, minterms, sol)
    {
      var pis, tot, positions := Eliminate(PIs, minterms);
      NoFlags(PIs);
      var eps, tail := GraphSearch(pis, minterms, tot, positions);
      PIs := pis;
      ans, sol := eps + tail, tail;
    }
  }
}
