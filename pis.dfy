/** Tabular::getPI end to end, and what its result promises: every prime
    implicant is a well-formed cube of the inputs, none can be merged with an
    implicant of its own level, and together they cover every minterm and
    every don't-care. */
module PrimeImplicants {
  import opened Bits
  import opened Ternary
  import opened Implicants
  import opened Primes
  import opened Levels
  import opened Collect

  /** What getPI leaves behind: its levels are the rounds over the first
      level, and PIs holds their unflagged implicants. */
  ghost predicate GetPIResult(w: nat, minterms: seq<nat>, dontcares: seq<nat>, pis: Bucket, lists: seq<Level>)
  {
    && Rounds(First(w, minterms, dontcares), lists)
    && LevelSizes(lists, w)
    && pis == AllPIs(lists, w, |lists|)
  }

  /** getPI: build the levels, then collect the prime implicants. */
  method GetPI(w: nat, minterms: seq<nat>, dontcares: seq<nat>) returns (pis: Bucket, lists: seq<Level>)
    requires Fits(minterms, w) && Fits(dontcares, w)
    ensures GetPIResult(w, minterms, dontcares, pis, lists)
  {
    lists := BuildLevels(w, minterms, dontcares);
    FirstShape(w, minterms, dontcares);
    RoundsSizes(First(w, minterms, dontcares), w, lists);
    pis := CollectPIs(lists, w);
  }

  // ---------------------------------------------------------------------------
  // Reading the levels.

  lemma {:induction false} FlaggedAt(first: Level, n: nat, i: nat)
    requires i < n
    ensures Flagged(first, n)[i] == FlaggedLevel(Raw(first, i))
  {
    if i < n - 1 {
      FlaggedAt(first, n - 1, i);
    }
  }

  lemma RoundsSizes(first: Level, w: nat, lists: seq<Level>)
    requires LevelShape(first, w, 0) && Rounds(first, lists)
    ensures LevelSizes(lists, w)
  {
    forall i | 0 <= i < |lists|
      ensures |lists[i]| == w + 1
    {
      FlaggedAt(first, |lists|, i);
      RawWidth(first, w, i);
    }
  }

  /** Implicant k of bucket j of level i is the one round i built, flagged
      exactly when getPI's merge test finds it a neighbour. */
  lemma ElementAt(first: Level, w: nat, lists: seq<Level>, i: nat, j: nat)
    requires LevelShape(first, w, 0) && Rounds(first, lists)
    requires i < |lists| && j <= w
    ensures |lists[i]| == |Raw(first, i)| == w + 1
    ensures |lists[i][j]| == |Raw(first, i)[j]|
    ensures forall k :: 0 <= k < |lists[i][j]| ==>
      var e := Raw(first, i)[j][k];
      lists[i][j][k] == e.(check := HasNeighbour(Raw(first, i), j, e.bits)) && WellFormed(e, w, i, j) && !e.check
  {
    var lv: Level := Raw(first, i);
    FlaggedAt(first, |lists|, i);
    RawShape(first, w, i);
    FlaggedUpToAt(lv, |lv|, j);
    forall k | 0 <= k < |lv[j]|
      ensures FlagRow(lv, j)[k] == lv[j][k].(check := HasNeighbour(lv, j, lv[j][k].bits))
    {
      FlagRowElement(lv, j, k);
    }
  }

  /** In every list getPI builds after the first, no two implicants of a
      bucket print the same pattern. */
  lemma ListsDistinct(w: nat, minterms: seq<nat>, dontcares: seq<nat>, pis: Bucket, lists: seq<Level>, i: nat, j: nat)
    requires Fits(minterms, w) && Fits(dontcares, w)
    requires GetPIResult(w, minterms, dontcares, pis, lists)
    requires 1 <= i < |lists| && j <= w
    ensures j < |lists[i]| && DistinctRenders(lists[i][j])
  {
    var first := First(w, minterms, dontcares);
    FirstShape(w, minterms, dontcares);
    ElementAt(first, w, lists, i, j);
    RawWidth(first, w, i - 1);
    LevelDistinct(first, i, j);
  }

  // ---------------------------------------------------------------------------
  // Every term of every implicant is an input.

  /** Every term of every implicant of a level is one of the values. */
  ghost predicate Within(lv: Level, vals: seq<nat>)
  {
    forall j, k, x :: 0 <= j < |lv| && 0 <= k < |lv[j]| && x in lv[j][k].terms ==> x in vals
  }

  lemma FirstWithin(w: nat, minterms: seq<nat>, dontcares: seq<nat>)
    requires Fits(minterms, w) && Fits(dontcares, w)
    ensures Within(First(w, minterms, dontcares), minterms + dontcares)
  {
    var lv: Level := First(w, minterms, dontcares);
    forall j: nat, k: nat, x: nat | j < |lv| && k < |lv[j]| && x in lv[j][k].terms
      ensures x in minterms + dontcares
    {
      var A, B := Singles(w, minterms, j), Singles(w, dontcares, j);
      SinglesShape(w, minterms, j);
      SinglesShape(w, dontcares, j);
      assert lv[j] == A + B;
      if k < |A| {
        assert lv[j][k] == A[k];
      } else {
        assert lv[j][k] == B[k - |A|];
      }
    }
  }

  lemma MergedWithin(lv: Level, w: nat, i: nat, vals: seq<nat>)
    requires LevelShape(lv, w, i) && Within(lv, vals)
    ensures Within(MergedLevel(lv), vals)
  {
    var nx: Level := MergedLevel(lv);
    LevelsTop(lv);
    forall j: nat, k: nat, x: nat | j < |nx| && k < |nx[j]| && x in nx[j][k].terms
      ensures x in vals
    {
      LevelsTop(lv);
      assert j < w;
      LevelsAt(lv, j);
      var L, R := lv[j], lv[j + 1];
      DedupProperties(Pairs(L, R, |L|));
      var a, b := PairsSource(L, R, |L|, nx[j][k]);
      CombineWellFormed(L[a], R[b], w, i, j);
    }
  }

  lemma {:induction false} RawWithin(w: nat, minterms: seq<nat>, dontcares: seq<nat>, i: nat)
    requires Fits(minterms, w) && Fits(dontcares, w)
    ensures Within(Raw(First(w, minterms, dontcares), i), minterms + dontcares)
  {
    var first := First(w, minterms, dontcares);
    if i > 0 {
      RawWithin(w, minterms, dontcares, i - 1);
      FirstShape(w, minterms, dontcares);
      RawShape(first, w, i - 1);
      MergedWithin(Raw(first, i - 1), w, i - 1, minterms + dontcares);
    } else {
      FirstWithin(w, minterms, dontcares);
    }
  }

  // ---------------------------------------------------------------------------
  // What the prime implicants promise.

  /** An implicant at distance 1 from a pattern of bucket j sits in bucket
      j - 1 or j + 1, so getPI's merge test finds it. */
  lemma AdjacentIsNeighbour(lv: Level, w: nat, i: nat, j: nat, b: ImcntBits, j2: nat, k2: nat)
    requires LevelShape(lv, w, i) && j <= w && |b.ask| == w && Canonical(b) && Popcount(b.bits) == j
    requires j2 <= w && k2 < |lv[j2]|
    ensures Distance(b, lv[j2][k2].bits) == 1 ==> HasNeighbour(lv, j, b)
  {
    var x := lv[j2][k2].bits;
    if Distance(b, x) == 1 {
      var d := DistanceOneAt(b, x);
      AdjacentPopcount(b, x, d);
      if j2 == j + 1 {
        assert Adjacent(b, lv[j + 1][k2].bits);
      } else {
        DistanceSymmetric(b, x);
        assert Adjacent(lv[j - 1][k2].bits, b);
      }
    }
  }

  /** A prime implicant is an implicant that level i built, and no implicant
      of level i is at distance 1 from it, so no round could merge it. */
  lemma PIsPrime(w: nat, minterms: seq<nat>, dontcares: seq<nat>, pis: Bucket, lists: seq<Level>, c: Impcnt)
    returns (i: nat, j: nat)
    requires Fits(minterms, w) && Fits(dontcares, w)
    requires GetPIResult(w, minterms, dontcares, pis, lists) && c in pis
    ensures i < |lists| && |Raw(First(w, minterms, dontcares), i)| == w + 1 && j <= w
    ensures c in Raw(First(w, minterms, dontcares), i)[j] && WellFormed(c, w, i, j) && !c.check
    ensures forall j2, k2 :: 0 <= j2 <= w && 0 <= k2 < |Raw(First(w, minterms, dontcares), i)[j2]| ==>
      Distance(c.bits, Raw(First(w, minterms, dontcares), i)[j2][k2].bits) != 1
  {
    var first := First(w, minterms, dontcares);
    FirstShape(w, minterms, dontcares);
    i, j := AllPIsSource(lists, w, c);
    ElementAt(first, w, lists, i, j);
    var lv: Level := Raw(first, i);
    var k :| 0 <= k < |lists[i][j]| && lists[i][j][k] == c;
    assert c == lv[j][k];
    RawShape(first, w, i);
    forall j2, k2 | 0 <= j2 <= w && 0 <= k2 < |lv[j2]|
      ensures Distance(c.bits, lv[j2][k2].bits) != 1
    {
      AdjacentIsNeighbour(lv, w, i, j, c.bits, j2, k2);
    }
  }

  /** A prime implicant is a well-formed cube whose terms are inputs: the
      minterms and don't-cares it matches are exactly its terms. */
  lemma PIsImplicant(w: nat, minterms: seq<nat>, dontcares: seq<nat>, pis: Bucket, lists: seq<Level>, c: Impcnt)
    requires Fits(minterms, w) && Fits(dontcares, w)
    requires GetPIResult(w, minterms, dontcares, pis, lists) && c in pis
    ensures WellFormed(c, w, MaskCount(c.bits.ask), Popcount(c.bits.bits)) && !c.check
    ensures forall x :: x in c.terms ==> x in minterms || x in dontcares
  {
    var i, j := PIsPrime(w, minterms, dontcares, pis, lists, c);
    RawWithin(w, minterms, dontcares, i);
    var lv := Raw(First(w, minterms, dontcares), i);
    var k :| 0 <= k < |lv[j]| && lv[j][k] == c;
    forall x | x in c.terms
      ensures x in minterms || x in dontcares
    {
      assert x in minterms + dontcares;
    }
  }

  // ---------------------------------------------------------------------------
  // The prime implicants cover every input.

  /** Deduplication keeps, for every merged implicant, one with the same terms. */
  lemma DedupKeeps(P: Bucket, p: Impcnt, w: nat, level: nat, bucket: nat) returns (t: nat)
    requires p in P && forall q :: q in P ==> WellFormed(q, w, level, bucket)
    ensures t < |Dedup(P)| && Dedup(P)[t].terms == p.terms
  {
    DedupProperties(P);
    var h := Render(p.bits);
    RendersMember(P, h);
    RendersMember(Dedup(P), h);
    t :| 0 <= t < |Dedup(P)| && Render(Dedup(P)[t].bits) == h;
    var d := Dedup(P)[t];
    assert d in Dedup(P);
    RenderInjective(d.bits, p.bits);
    SamePatternSameTerms(d, p, w, level, bucket);
  }

  /** Every element of the merges of buckets j and j + 1 is well-formed one
      level up, in bucket j. */
  lemma PairsWellFormed(lv: Level, w: nat, i: nat, j: nat, L: Bucket, R: Bucket)
    requires LevelShape(lv, w, i) && j < w && L == lv[j] && R == lv[j + 1]
    ensures forall q :: q in Pairs(L, R, |L|) ==> WellFormed(q, w, i + 1, j)
  {
    forall q | q in Pairs(L, R, |L|)
      ensures WellFormed(q, w, i + 1, j)
    {
      var a, b := PairsSource(L, R, |L|, q);
      CombineWellFormed(L[a], R[b], w, i, j);
    }
  }

  /** The merge of a distance-1 pair of buckets j and j + 1 reaches bucket j of
      the next level, up to deduplication. */
  lemma PromotePair(lv: Level, w: nat, i: nat, j: nat, a: nat, m: nat, x: nat) returns (k: nat)
    requires LevelShape(lv, w, i) && j < w && a < |lv[j]| && m < |lv[j + 1]|
    requires Adjacent(lv[j][a].bits, lv[j + 1][m].bits)
    requires x in lv[j][a].terms || x in lv[j + 1][m].terms
    ensures j < |MergedLevel(lv)| && k < |MergedLevel(lv)[j]| && x in MergedLevel(lv)[j][k].terms
  {
    var L, R := lv[j], lv[j + 1];
    PairsComplete(L, R, |L|, a, m);
    CombineWellFormed(L[a], R[m], w, i, j);
    PairsWellFormed(lv, w, i, j, L, R);
    k := DedupKeeps(Pairs(L, R, |L|), Combine(L[a], R[m]), w, i + 1, j);
    LevelsAt(lv, j);
  }

  /** A term of a flagged implicant is a term of some implicant of the next
      level: the merge with its neighbour, or the one deduplication kept. */
  lemma Promote(lv: Level, w: nat, i: nat, j: nat, k: nat, x: nat) returns (j2: nat, k2: nat)
    requires LevelShape(lv, w, i) && j <= w && k < |lv[j]| && x in lv[j][k].terms
    requires HasNeighbour(lv, j, lv[j][k].bits)
    ensures j2 < |MergedLevel(lv)| && k2 < |MergedLevel(lv)[j2]| && x in MergedLevel(lv)[j2][k2].terms
  {
    var b := lv[j][k].bits;
    if j > 0 && PartnerIn(lv[j - 1], |lv[j - 1]|, b) {
      var n :| 0 <= n < |lv[j - 1]| && Adjacent(lv[j - 1][n].bits, b);
      j2 := j - 1;
      k2 := PromotePair(lv, w, i, j2, n, k, x);
    } else {
      var n :| 0 <= n < |lv[j + 1]| && Adjacent(b, lv[j + 1][n].bits);
      j2 := j;
      k2 := PromotePair(lv, w, i, j2, k, n, x);
    }
  }

  /** A term of any implicant of any level is a term of some prime implicant:
      follow the implicant up the levels until it is no longer flagged. */
  lemma {:induction false} Cover(first: Level, w: nat, lists: seq<Level>, i: nat, j: nat, k: nat, x: nat)
    returns (c: Impcnt)
    requires LevelShape(first, w, 0) && Rounds(first, lists) && LevelSizes(lists, w)
    requires i < |lists| && j < |Raw(first, i)| && k < |Raw(first, i)[j]| && x in Raw(first, i)[j][k].terms
    ensures c in AllPIs(lists, w, |lists|) && x in c.terms
    decreases |lists| - i
  {
    var lv: Level := Raw(first, i);
    RawShape(first, w, i);
    ElementAt(first, w, lists, i, j);
    if !HasNeighbour(lv, j, lv[j][k].bits) {
      ShapeRoom(lv, w, i, j);
      c := lists[i][j][k];
      AllPIsComplete(lists, w, i, j, c);
    } else {
      var j2, k2 := Promote(lv, w, i, j, k, x);
      RawNext(first, i);
      assert i + 1 < |lists|;
      RawWidth(first, w, i + 1);
      c := Cover(first, w, lists, i + 1, j2, k2, x);
    }
  }

  /** Every minterm and every don't-care is a term of some prime implicant. */
  lemma PIsCover(w: nat, minterms: seq<nat>, dontcares: seq<nat>, pis: Bucket, lists: seq<Level>, x: nat)
    returns (c: Impcnt)
    requires Fits(minterms, w) && Fits(dontcares, w)
    requires GetPIResult(w, minterms, dontcares, pis, lists)
    requires x in minterms || x in dontcares
    ensures c in pis && x in c.terms
  {
    var first := First(w, minterms, dontcares);
    FirstShape(w, minterms, dontcares);
    if x in minterms {
      var t :| 0 <= t < |minterms| && minterms[t] == x;
    } else {
      var t :| 0 <= t < |dontcares| && dontcares[t] == x;
    }
    SingleWellFormed(w, x);
    var p := Popcount(x);
    var A, B := Singles(w, minterms, p), Singles(w, dontcares, p);
    assert first[p] == A + B;
    var k;
    if x in minterms {
      k := SinglesComplete(w, minterms, x);
      assert first[p][k] == Single(w, x);
    } else {
      var n := SinglesComplete(w, dontcares, x);
      k := |A| + n;
      assert first[p][k] == Single(w, x);
    }
    assert Raw(first, 0) == first;
    c := Cover(first, w, lists, 0, p, k, x);
  }
}
