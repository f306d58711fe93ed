/** Tabular::getEPI: the minterms are numbered densely, every prime implicant
    covering a numbered minterm is counted against it, and a prime implicant
    that is the only one covering some minterm is flagged essential. */
module Essential {
  import opened Implicants
  import opened Compression

  /** The first loop of getEPI and buildGraph: the minterms as a std::set. */
  method MintermSet(minterms: seq<nat>) returns (positions: set<nat>)
    ensures positions == set x | x in minterms
  {
    positions := {};
    for i := 0 to |minterms|
      invariant positions == set x | x in minterms[..i]
    {
      assert minterms[..i + 1] == minterms[..i] + [minterms[i]];
      positions := positions + {minterms[i]};
    }
    assert minterms[..|minterms|] == minterms;
  }

  // ---------------------------------------------------------------------------
  // What cnt and last record.

  /** How often x occurs in the term lists of pis[0 .. n - 1]: cnt[comp[x]]. */
  function Occ(pis: seq<Impcnt>, x: nat, n: nat): nat
    requires n <= |pis|
  {
    if n == 0 then 0 else Occ(pis, x, n - 1) + multiset(pis[n - 1].terms)[x]
  }

  /** The last of pis[0 .. n - 1] whose terms hold x, or -1: last[comp[x]]. */
  function LastCover(pis: seq<Impcnt>, x: nat, n: nat): int
    requires n <= |pis|
  {
    if n == 0 then -1 else if x in pis[n - 1].terms then n - 1 else LastCover(pis, x, n - 1)
  }

  /** A counted minterm has a last coverer, and it does hold the minterm. */
  lemma {:induction false} OccLast(pis: seq<Impcnt>, x: nat, n: nat)
    requires n <= |pis|
    ensures Occ(pis, x, n) == 0 <==> LastCover(pis, x, n) == -1
    ensures Occ(pis, x, n) > 0 ==> 0 <= LastCover(pis, x, n) < n && x in pis[LastCover(pis, x, n)].terms
  {
    if n > 0 {
      OccLast(pis, x, n - 1);
    }
  }

  /** x is counted zero times exactly when no prime implicant below n holds it. */
  lemma {:induction false} OccZero(pis: seq<Impcnt>, x: nat, n: nat)
    requires n <= |pis|
    ensures Occ(pis, x, n) == 0 <==> forall k :: 0 <= k < n ==> x !in pis[k].terms
  {
    if n > 0 {
      OccZero(pis, x, n - 1);
    }
  }

  /** An ascending term list holds each value at most once. */
  lemma {:induction false} IncreasingOnce(s: seq<nat>, x: nat)
    requires Increasing(s)
    ensures multiset(s)[x] <= 1
  {
    if s != [] {
      assert s == [s[0]] + s[1..];
      IncreasingOnce(s[1..], x);
      if s[0] == x {
        assert x !in s[1..];
      }
    }
  }

  /** Every prime implicant's term list is ascending, as getPI builds them. */
  predicate AscendingTerms(pis: seq<Impcnt>)
  {
    forall i :: 0 <= i < |pis| ==> Increasing(pis[i].terms)
  }

  /** pis[i] is the only prime implicant whose terms hold x. */
  predicate SoleCover(pis: seq<Impcnt>, x: nat, i: nat)
  {
    && i < |pis|
    && x in pis[i].terms
    && forall k :: 0 <= k < |pis| && k != i ==> x !in pis[k].terms
  }

  /** cnt == 1 and last == i, over pis[0 .. n - 1], say that pis[i] is the only
      one of them holding x. */
  lemma {:induction false} SoleCoverer(pis: seq<Impcnt>, x: nat, n: nat, i: nat)
    requires n <= |pis| && AscendingTerms(pis)
    ensures (Occ(pis, x, n) == 1 && LastCover(pis, x, n) == i)
        <==> (i < n && x in pis[i].terms && forall k :: 0 <= k < n && k != i ==> x !in pis[k].terms)
  {
    if n > 0 {
      SoleCoverer(pis, x, n - 1, i);
      OccLast(pis, x, n - 1);
      OccZero(pis, x, n - 1);
      IncreasingOnce(pis[n - 1].terms, x);
    }
  }

  // ---------------------------------------------------------------------------
  // The elimination loop.

  /** Some minterm of ms has count 1 and last coverer i: the loop over ms flags
      pis[i]. */
  predicate SoleFor(pis: seq<Impcnt>, ms: seq<nat>, i: nat)
  {
    if ms == [] then false
    else
      var x := ms[|ms| - 1];
      SoleFor(pis, ms[..|ms| - 1], i) || (Occ(pis, x, |pis|) == 1 && LastCover(pis, x, |pis|) == i)
  }

  /** With ascending term lists, getEPI flags pis[i] exactly when it is the sole
      prime implicant covering some minterm. */
  lemma {:induction false} SoleForMeaning(pis: seq<Impcnt>, ms: seq<nat>, i: nat)
    requires AscendingTerms(pis)
    ensures SoleFor(pis, ms, i) <==> exists x :: x in ms && SoleCover(pis, x, i)
  {
    if ms != [] {
      var x, init := ms[|ms| - 1], ms[..|ms| - 1];
      SoleForMeaning(pis, init, i);
      SoleCoverer(pis, x, |pis|, i);
      assert ms == init + [x];
      if SoleFor(pis, ms, i) {
        if SoleFor(pis, init, i) {
          var y :| y in init && SoleCover(pis, y, i);
          assert y in ms;
        } else {
          assert x in ms && SoleCover(pis, x, i);
        }
      }
      if exists y :: y in ms && SoleCover(pis, y, i) {
        var y :| y in ms && SoleCover(pis, y, i);
        if y != x {
          assert y in init;
        }
      }
    }
  }

  /** The number of prime implicants flagged essential. */
  function CountEPI(pis: seq<Impcnt>): nat
  {
    if pis == [] then 0 else CountEPI(pis[..|pis| - 1]) + (if pis[|pis| - 1].isEPI then 1 else 0)
  }

  /** Flagging an unflagged prime implicant adds one to the count. */
  lemma {:induction false} CountEPISet(pis: seq<Impcnt>, l: nat)
    requires l < |pis| && !pis[l].isEPI
    ensures CountEPI(pis[l := pis[l].(isEPI := true)]) == CountEPI(pis) + 1
  {
    var n := |pis|;
    var p' := pis[l := pis[l].(isEPI := true)];
    if l == n - 1 {
      assert p'[..n - 1] == pis[..n - 1];
    } else {
      assert p'[..n - 1] == pis[..n - 1][l := pis[l].(isEPI := true)];
      CountEPISet(pis[..n - 1], l);
    }
  }

  /** The counting loops of getEPI over every prime implicant's terms. */
  method CountCovers(pis: seq<Impcnt>, comp: map<nat, nat>, n: nat) returns (cnt: seq<nat>, last: seq<int>)
    requires forall x :: x in comp ==> comp[x] < n
    requires forall x, y :: x in comp && y in comp && x != y ==> comp[x] != comp[y]
    ensures |cnt| == n && |last| == n
    ensures forall x :: x in comp ==> cnt[comp[x]] == Occ(pis, x, |pis|) && last[comp[x]] == LastCover(pis, x, |pis|)
  {
    cnt, last := seq(n, _ => 0), seq(n, _ => -1);
    for i := 0 to |pis|
      invariant |cnt| == n && |last| == n
      invariant forall x :: x in comp ==> cnt[comp[x]] == Occ(pis, x, i) && last[comp[x]] == LastCover(pis, x, i)
    {
      cnt, last := CountRow(pis, i, comp, n, cnt, last);
    }
  }

  /** The inner loop over the terms of pis[i]: a term that has a number bumps its
      count and records i as its last coverer; other terms are skipped. */
  method CountRow(pis: seq<Impcnt>, i: nat, comp: map<nat, nat>, n: nat, cnt: seq<nat>, last: seq<int>)
    returns (cnt': seq<nat>, last': seq<int>)
    requires i < |pis| && |cnt| == n && |last| == n
    requires forall x :: x in comp ==> comp[x] < n
    requires forall x, y :: x in comp && y in comp && x != y ==> comp[x] != comp[y]
    requires forall x :: x in comp ==> cnt[comp[x]] == Occ(pis, x, i) && last[comp[x]] == LastCover(pis, x, i)
    ensures |cnt'| == n && |last'| == n
    ensures forall x :: x in comp ==> cnt'[comp[x]] == Occ(pis, x, i + 1) && last'[comp[x]] == LastCover(pis, x, i + 1)
  {
    var terms := pis[i].terms;
    cnt', last' := cnt, last;
    for j := 0 to |terms|
      invariant |cnt'| == n && |last'| == n
      invariant forall x :: x in comp ==>
        && cnt'[comp[x]] == Occ(pis, x, i) + multiset(terms[..j])[x]
        && last'[comp[x]] == if x in terms[..j] then i else LastCover(pis, x, i)
    {
      assert terms[..j + 1] == terms[..j] + [terms[j]];
      var term := terms[j];
      if term in comp {
        var compPos := comp[term];
        cnt' := cnt'[compPos := cnt'[compPos] + 1];
        last' := last'[compPos := i];
      }
    }
    assert terms[..|terms|] == terms;
  }

  /** getEPI's loop over the minterms: a minterm counted once flags its last
      coverer, unless that one is flagged already; tot counts the new flags. */
  method MarkEssential(pis: seq<Impcnt>, minterms: seq<nat>, comp: map<nat, nat>, cnt: seq<nat>, last: seq<int>)
    returns (pis': seq<Impcnt>, tot: nat)
    requires forall x :: x in minterms ==>
      && x in comp && comp[x] < |cnt| && comp[x] < |last|
      && cnt[comp[x]] == Occ(pis, x, |pis|) && last[comp[x]] == LastCover(pis, x, |pis|)
    ensures |pis'| == |pis|
    ensures forall i :: 0 <= i < |pis| ==> pis'[i] == pis[i].(isEPI := pis[i].isEPI || SoleFor(pis, minterms, i))
    ensures CountEPI(pis') == CountEPI(pis) + tot
  {
    pis', tot := pis, 0;
    for m := 0 to |minterms|
      invariant |pis'| == |pis|
      invariant forall i :: 0 <= i < |pis| ==> pis'[i] == pis[i].(isEPI := pis[i].isEPI || SoleFor(pis, minterms[..m], i))
      invariant CountEPI(pis') == CountEPI(pis) + tot
    {
      var x := minterms[m];
      assert minterms[..m + 1][..m] == minterms[..m];
      var compPos := comp[x];
      if cnt[compPos] == 1 {
        OccLast(pis, x, |pis|);
        var l := last[compPos];
        if pis'[l].isEPI {
          continue;
        }
        CountEPISet(pis', l);
        pis' := pis'[l := pis'[l].(isEPI := true)];
        tot := tot + 1;
      }
    }
    assert minterms[..|minterms|] == minterms;
  }

  /** The numbering comp that Compress returns is one-to-one and below n. */
  lemma CompressedRange(positions: set<nat>, comp: map<nat, nat>, n: nat)
    requires n == |positions| && comp.Keys == positions
    requires forall x :: x in positions ==> comp[x] == Rank(positions, x)
    ensures forall x :: x in comp ==> comp[x] < n
    ensures forall x, y :: x in comp && y in comp && x != y ==> comp[x] != comp[y]
  {
    forall x | x in comp
      ensures comp[x] < n
    {
      RankBound(positions, x);
    }
    forall x, y | x in comp && y in comp && x != y
      ensures comp[x] != comp[y]
    {
      if x < y {
        RankMonotone(positions, x, y);
      } else {
        RankMonotone(positions, y, x);
      }
    }
  }

  /** getEPI: compression, counting, then the elimination loop. */
  method GetEPI(pis: seq<Impcnt>, minterms: seq<nat>) returns (pis': seq<Impcnt>, tot: nat)
    ensures |pis'| == |pis|
    ensures forall i :: 0 <= i < |pis| ==> pis'[i] == pis[i].(isEPI := pis[i].isEPI || SoleFor(pis, minterms, i))
    ensures CountEPI(pis') == CountEPI(pis) + tot
  {
    var positions := MintermSet(minterms);
    var comp, n := Compress(positions);
    CompressedRange(positions, comp, n);
    var cnt, last := CountCovers(pis, comp, n);
    pis', tot := MarkEssential(pis, minterms, comp, cnt, last);
  }
}
