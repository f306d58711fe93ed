/** Tabular::getPI: prime-implicant generation. The level vectors of the source
    (lists, lList, nList, firstList) are values here; a method that fills or flags
    one of them takes the old value and returns the new one. */
module Primes {
  import opened Bits
  import opened Ternary
  import opened Implicants
  import opened Seqs

  /** One popcount bucket: lists[i][j] of the source. */
  type Bucket = seq<Impcnt>
  /** One level, indexed by popcount 0 .. numberOfInputs: lists[i]. */
  type Level = seq<Bucket>

  /** Two patterns of one width that hammingDist puts at distance 1. */
  predicate Adjacent(a: ImcntBits, b: ImcntBits)
  {
    |a.ask| == |b.ask| && Distance(a, b) == 1
  }

  // ---------------------------------------------------------------------------
  // Level 0: the input values, bucketed by bit count.

  /** The single-row implicants of those values of `vals` with `j` one bits, in
      the order of `vals`: what the bucketing loop pushes into firstList[j]. */
  function Singles(w: nat, vals: seq<nat>, j: nat): Bucket
  {
    if vals == [] then []
    else
      var init := Singles(w, vals[..|vals| - 1], j);
      var x := vals[|vals| - 1];
      if Popcount(x) == j then init + [Single(w, x)] else init
  }

  /** The values of the table: every input is below 2^w. */
  predicate Fits(vals: seq<nat>, w: nat)
  {
    forall i :: 0 <= i < |vals| ==> vals[i] < Pow2(w)
  }

  /** The first loop of getPI: one bucket per bit count, minterms first, then
      don't-cares, each in input order. */
  method BucketByPopcount(w: nat, minterms: seq<nat>, dontcares: seq<nat>) returns (first: Level)
    requires Fits(minterms, w) && Fits(dontcares, w)
    ensures |first| == w + 1
    ensures forall j :: 0 <= j <= w ==> first[j] == Singles(w, minterms, j) + Singles(w, dontcares, j)
  {
    first := seq(w + 1, _ => []);
    for i := 0 to |minterms|
      invariant |first| == w + 1
      invariant forall j :: 0 <= j <= w ==> first[j] == Singles(w, minterms[..i], j)
    {
      assert minterms[..i + 1][..i] == minterms[..i];
      var c := CountBit(minterms[i]);
      SingleWellFormed(w, minterms[i]);
      first := first[c := first[c] + [Single(w, minterms[i])]];
    }
    assert minterms[..|minterms|] == minterms;
    for i := 0 to |dontcares|
      invariant |first| == w + 1
      invariant forall j :: 0 <= j <= w ==> first[j] == Singles(w, minterms, j) + Singles(w, dontcares[..i], j)
    {
      assert dontcares[..i + 1][..i] == dontcares[..i];
      var c := CountBit(dontcares[i]);
      SingleWellFormed(w, dontcares[i]);
      first := first[c := first[c] + [Single(w, dontcares[i])]];
    }
    assert dontcares[..|dontcares|] == dontcares;
  }

  /** Bucketing the minterms and then the don't-cares is bucketing their
      concatenation. */
  lemma {:induction false} SinglesAppend(w: nat, xs: seq<nat>, ys: seq<nat>, j: nat)
    ensures Singles(w, xs, j) + Singles(w, ys, j) == Singles(w, xs + ys, j)
    decreases |ys|
  {
    if ys == [] {
      assert xs + ys == xs;
    } else {
      var ys' := ys[..|ys| - 1];
      assert (xs + ys)[..|xs + ys| - 1] == xs + ys';
      SinglesAppend(w, xs, ys', j);
    }
  }

  /** Every level-0 implicant is the single row of an input value with `j` one
      bits, and it is well-formed for level 0, bucket j. */
  lemma {:induction false} SinglesShape(w: nat, vals: seq<nat>, j: nat)
    requires Fits(vals, w)
    ensures forall k :: 0 <= k < |Singles(w, vals, j)| ==>
      WellFormed(Singles(w, vals, j)[k], w, 0, j) && Singles(w, vals, j)[k].terms[0] in vals &&
      Singles(w, vals, j)[k] == Single(w, Singles(w, vals, j)[k].terms[0])
  {
    if vals != [] {
      var vs := vals[..|vals| - 1];
      assert Fits(vs, w);
      SinglesShape(w, vs, j);
      var x := vals[|vals| - 1];
      SingleWellFormed(w, x);
    }
  }

  /** Every value of `vals` has its single-row implicant in the bucket of its bit
      count. */
  lemma {:induction false} SinglesComplete(w: nat, vals: seq<nat>, x: nat) returns (k: nat)
    requires x in vals
    ensures k < |Singles(w, vals, Popcount(x))| && Singles(w, vals, Popcount(x))[k] == Single(w, x)
  {
    var vs := vals[..|vals| - 1];
    if x == vals[|vals| - 1] {
      k := |Singles(w, vs, Popcount(x))|;
    } else {
      assert vals == vs + [vals[|vals| - 1]];
      k := SinglesComplete(w, vs, x);
    }
  }

  /** Pairwise distinct inputs give pairwise distinct renderings in a level-0
      bucket. */
  lemma {:induction false} SinglesDistinct(w: nat, vals: seq<nat>, j: nat)
    requires Fits(vals, w) && Distinct(vals)
    ensures DistinctRenders(Singles(w, vals, j))
  {
    if vals != [] {
      var vs := vals[..|vals| - 1];
      var x := vals[|vals| - 1];
      assert Fits(vs, w) && Distinct(vs);
      SinglesDistinct(w, vs, j);
      SinglesShape(w, vs, j);
      var s := Singles(w, vs, j);
      if Popcount(x) == j {
        SingleWellFormed(w, x);
        var r := s + [Single(w, x)];
        forall a, b | 0 <= a < b < |r|
          ensures Render(r[a].bits) != Render(r[b].bits)
        {
          if b == |s| {
            var y := s[a].terms[0];
            assert y in s[a].terms;
            assert y in vs;
            assert y != x;
            assert Matches(s[a].bits, y);
            assert !Matches(Exact(w, x), y);
            RenderInjective(s[a].bits, Exact(w, x));
          }
        }
      }
    }
  }

  // ---------------------------------------------------------------------------
  // Merging two adjacent buckets.

  /** No two implicants of a bucket render alike. */
  predicate DistinctRenders(s: Bucket)
  {
    forall a, b :: 0 <= a < b < |s| ==> Render(s[a].bits) != Render(s[b].bits)
  }

  /** The strings of a bucket's patterns: the `duplicates` set of getPI. */
  function Renders(s: Bucket): set<string>
  {
    if s == [] then {} else Renders(s[..|s| - 1]) + {Render(s[|s| - 1].bits)}
  }

  /** The first implicant of each rendering, in order. */
  function Dedup(s: Bucket): Bucket
  {
    if s == [] then []
    else
      var d := Dedup(s[..|s| - 1]);
      if Render(s[|s| - 1].bits) in Renders(d) then d else d + [s[|s| - 1]]
  }

  /** The merges of `a` with its distance-1 partners among R[..n], in order. */
  function RowPairs(a: Impcnt, R: Bucket, n: nat): Bucket
    requires n <= |R|
  {
    if n == 0 then []
    else RowPairs(a, R, n - 1) + (if Adjacent(a.bits, R[n - 1].bits) then [Combine(a, R[n - 1])] else [])
  }

  /** The merges of every distance-1 pair with its left member among L[..l], in the
      row-major order of the l/n loops. */
  function Pairs(L: Bucket, R: Bucket, l: nat): Bucket
    requires l <= |L|
  {
    if l == 0 then [] else Pairs(L, R, l - 1) + RowPairs(L[l - 1], R, |R|)
  }

  /** Some R[..n] is a distance-1 partner of pattern b. */
  ghost predicate PartnerAmong(b: ImcntBits, R: Bucket, n: nat)
    requires n <= |R|
  {
    exists m :: 0 <= m < n && Adjacent(b, R[m].bits)
  }

  /** Some L[..l] has pattern b as a distance-1 partner. */
  ghost predicate PartnerIn(L: Bucket, l: nat, b: ImcntBits)
    requires l <= |L|
  {
    exists m :: 0 <= m < l && Adjacent(L[m].bits, b)
  }

  lemma RendersSnoc(d: Bucket, c: Impcnt)
    ensures Renders(d + [c]) == Renders(d) + {Render(c.bits)}
  {
    assert (d + [c])[..|d|] == d;
  }

  lemma DedupSnoc(s: Bucket, c: Impcnt)
    ensures Dedup(s + [c]) == if Render(c.bits) in Renders(Dedup(s)) then Dedup(s) else Dedup(s) + [c]
  {
    assert (s + [c])[..|s|] == s;
  }

  lemma {:induction false} RendersMember(s: Bucket, h: string)
    ensures h in Renders(s) <==> exists k :: 0 <= k < |s| && Render(s[k].bits) == h
  {
    if s != [] {
      var s' := s[..|s| - 1];
      RendersMember(s', h);
      if h in Renders(s') {
        var k :| 0 <= k < |s'| && Render(s'[k].bits) == h;
        assert s[k] == s'[k];
      }
      if exists k :: 0 <= k < |s| && Render(s[k].bits) == h {
        var k :| 0 <= k < |s| && Render(s[k].bits) == h;
        if k < |s'| {
          assert s'[k] == s[k];
        }
      }
    }
  }

  /** Dedup keeps only elements of its argument, one per rendering, and loses no
      rendering. */
  lemma {:induction false} DedupProperties(s: Bucket)
    ensures forall c :: c in Dedup(s) ==> c in s
    ensures DistinctRenders(Dedup(s))
    ensures Renders(Dedup(s)) == Renders(s)
  {
    if s != [] {
      var s' := s[..|s| - 1];
      var c := s[|s| - 1];
      assert s == s' + [c];
      DedupProperties(s');
      DedupSnoc(s', c);
      RendersSnoc(s', c);
      var d := Dedup(s');
      if Render(c.bits) !in Renders(d) {
        RendersSnoc(d, c);
        var r := d + [c];
        forall a, b | 0 <= a < b < |r|
          ensures Render(r[a].bits) != Render(r[b].bits)
        {
          if b == |d| {
            RendersMember(d, Render(c.bits));
          }
        }
      }
    }
  }

  /** Every element of Pairs is the merge of a distance-1 pair L[a], R[b]. */
  lemma PairsSource(L: Bucket, R: Bucket, l: nat, c: Impcnt) returns (a: nat, b: nat)
    requires l <= |L| && c in Pairs(L, R, l)
    ensures a < l && b < |R| && Adjacent(L[a].bits, R[b].bits) && c == Combine(L[a], R[b])
  {
    var k :| 0 <= k < |Pairs(L, R, l)| && Pairs(L, R, l)[k] == c;
    a, b := PairAt(L, R, l, k);
  }

  /** Entry k of Pairs is the merge of a distance-1 pair L[a], R[b]. */
  lemma {:induction false} PairAt(L: Bucket, R: Bucket, l: nat, k: nat) returns (a: nat, b: nat)
    requires l <= |L| && k < |Pairs(L, R, l)|
    ensures a < l && b < |R| && Adjacent(L[a].bits, R[b].bits) && Pairs(L, R, l)[k] == Combine(L[a], R[b])
  {
    var P, Q := Pairs(L, R, l - 1), RowPairs(L[l - 1], R, |R|);
    if k < |P| {
      a, b := PairAt(L, R, l - 1, k);
    } else {
      a := l - 1;
      b := RowPairAt(L[a], R, |R|, k - |P|);
    }
  }

  /** Entry k of RowPairs is the merge of x with a distance-1 partner R[b]. */
  lemma {:induction false} RowPairAt(x: Impcnt, R: Bucket, n: nat, k: nat) returns (b: nat)
    requires n <= |R| && k < |RowPairs(x, R, n)|
    ensures b < n && Adjacent(x.bits, R[b].bits) && RowPairs(x, R, n)[k] == Combine(x, R[b])
  {
    if k < |RowPairs(x, R, n - 1)| {
      b := RowPairAt(x, R, n - 1, k);
    } else {
      b := n - 1;
    }
  }

  /** The merge of every distance-1 pair L[a], R[b] is an element of Pairs. */
  lemma {:induction false} PairsComplete(L: Bucket, R: Bucket, l: nat, a: nat, b: nat)
    requires a < l <= |L| && b < |R| && Adjacent(L[a].bits, R[b].bits)
    ensures Combine(L[a], R[b]) in Pairs(L, R, l)
  {
    if a < l - 1 {
      PairsComplete(L, R, l - 1, a, b);
      InLeft(Combine(L[a], R[b]), Pairs(L, R, l - 1), RowPairs(L[l - 1], R, |R|));
    } else {
      RowPairsComplete(L[a], R, |R|, b);
      InRight(Combine(L[a], R[b]), Pairs(L, R, l - 1), RowPairs(L[l - 1], R, |R|));
    }
  }

  lemma InLeft(c: Impcnt, P: Bucket, Q: Bucket)
    requires c in P
    ensures c in P + Q
  {
  }

  lemma InRight(c: Impcnt, P: Bucket, Q: Bucket)
    requires c in Q
    ensures c in P + Q
  {
  }

  lemma {:induction false} RowPairsComplete(x: Impcnt, R: Bucket, n: nat, b: nat)
    requires b < n <= |R| && Adjacent(x.bits, R[b].bits)
    ensures Combine(x, R[b]) in RowPairs(x, R, n)
  {
    if b < n - 1 {
      RowPairsComplete(x, R, n - 1, b);
    }
  }

  lemma PartnerAmongStep(b: ImcntBits, R: Bucket, n: nat)
    requires n < |R|
    ensures PartnerAmong(b, R, n + 1) <==> PartnerAmong(b, R, n) || Adjacent(b, R[n].bits)
  {
    if PartnerAmong(b, R, n + 1) && !Adjacent(b, R[n].bits) {
      var m :| 0 <= m < n + 1 && Adjacent(b, R[m].bits);
      assert m < n;
    }
  }

  lemma PartnerInStep(L: Bucket, l: nat, b: ImcntBits)
    requires l < |L|
    ensures PartnerIn(L, l + 1, b) <==> PartnerIn(L, l, b) || Adjacent(L[l].bits, b)
  {
    if PartnerIn(L, l + 1, b) && !Adjacent(L[l].bits, b) {
      var m :| 0 <= m < l + 1 && Adjacent(L[m].bits, b);
      assert m < l;
    }
  }

  /** Every pattern of the bucket has `w` inputs. */
  predicate Width(s: Bucket, w: nat)
  {
    forall k :: 0 <= k < |s| ==> |s[k].bits.ask| == w
  }

  /** Rcur with the implicants R[..n] at distance 1 from pattern b flagged. */
  ghost function MarkPrefix(Rcur: Bucket, b: ImcntBits, R: Bucket, n: nat): Bucket
    requires n <= |R| == |Rcur|
  {
    seq(|Rcur|, m requires 0 <= m < |Rcur| => if m < n then Rcur[m].(check := Rcur[m].check || Adjacent(b, R[m].bits)) else Rcur[m])
  }

  lemma MarkPrefixStep(Rcur: Bucket, b: ImcntBits, R: Bucket, n: nat)
    requires n < |R| == |Rcur|
    ensures MarkPrefix(Rcur, b, R, 0) == Rcur
    ensures MarkPrefix(Rcur, b, R, n + 1) ==
      if Adjacent(b, R[n].bits) then MarkPrefix(Rcur, b, R, n)[n := Rcur[n].(check := true)] else MarkPrefix(Rcur, b, R, n)
  {
  }

  /** What one pass of getPI's n loop over R[..n] has done for the left operand
      `a`: `a` and each R[..n] at distance 1 from it are flagged, and `merged` is
      `done` followed by the new merges, without repeated renderings. */
  ghost predicate RowInvariant(a: Impcnt, R: Bucket, Rcur: Bucket, done: Bucket, n: nat,
                               a': Impcnt, R': Bucket, merged': Bucket, duplicates': set<string>)
    requires n <= |R| == |Rcur|
  {
    && a' == a.(check := a.check || PartnerAmong(a.bits, R, n))
    && R' == MarkPrefix(Rcur, a.bits, R, n)
    && merged' == Dedup(done + RowPairs(a, R, n)) && duplicates' == Renders(merged')
  }

  /** One pass of getPI's n loop for the left operand `a`: each R[n] at distance 1
      from `a` flags both, and its merge joins `merged` unless its rendering is
      already in `duplicates`. `Rcur` is the right bucket as flagged so far. */
  method MergeRow(a: Impcnt, R: Bucket, Rcur: Bucket, ghost done: Bucket, merged: Bucket, duplicates: set<string>, ghost w: nat)
    returns (a': Impcnt, R': Bucket, merged': Bucket, duplicates': set<string>)
    requires |a.bits.ask| == w && Width(R, w) && |Rcur| == |R|
    requires merged == Dedup(done) && duplicates == Renders(merged)
    ensures a' == a.(check := a.check || PartnerAmong(a.bits, R, |R|))
    ensures R' == MarkPrefix(Rcur, a.bits, R, |R|)
    ensures merged' == Dedup(done + RowPairs(a, R, |R|)) && duplicates' == Renders(merged')
  {
    a', R', merged', duplicates' := a, Rcur, merged, duplicates;
    RowStart(a, R, Rcur, done, merged, duplicates);
    for n := 0 to |R|
      invariant RowInvariant(a, R, Rcur, done, n, a', R', merged', duplicates')
    {
      a', R', merged', duplicates' := MergeStep(a, R, Rcur, done, n, a', R', merged', duplicates', w);
    }
  }

  /** Before the n loop nothing is flagged or merged. */
  lemma RowStart(a: Impcnt, R: Bucket, Rcur: Bucket, done: Bucket, merged: Bucket, duplicates: set<string>)
    requires |Rcur| == |R| && merged == Dedup(done) && duplicates == Renders(merged)
    ensures RowInvariant(a, R, Rcur, done, 0, a, Rcur, merged, duplicates)
  {
    assert done + RowPairs(a, R, 0) == done;
    if |R| > 0 {
      MarkPrefixStep(Rcur, a.bits, R, 0);
    } else {
      assert Rcur == MarkPrefix(Rcur, a.bits, R, 0);
    }
  }

  /** One iteration of the n loop: compare `a` with R[n] and, at distance 1,
      flag both and offer their merge to the duplicate filter. */
  method MergeStep(a: Impcnt, R: Bucket, Rcur: Bucket, ghost done: Bucket, n: nat,
                   a0: Impcnt, R0: Bucket, merged0: Bucket, duplicates0: set<string>, ghost w: nat)
    returns (a': Impcnt, R': Bucket, merged': Bucket, duplicates': set<string>)
    requires |a.bits.ask| == w && Width(R, w) && n < |R| == |Rcur|
    requires RowInvariant(a, R, Rcur, done, n, a0, R0, merged0, duplicates0)
    ensures RowInvariant(a, R, Rcur, done, n + 1, a', R', merged', duplicates')
  {
    a', R', merged', duplicates' := a0, R0, merged0, duplicates0;
    PartnerAmongStep(a.bits, R, n);
    MarkPrefixStep(Rcur, a.bits, R, n);
    var dist := HammingDist(a.bits, R[n].bits);
    assert R'[n] == Rcur[n];
    if dist == 1 {
      assert Adjacent(a.bits, R[n].bits);
      a' := a'.(check := true);
      R' := R'[n := R'[n].(check := true)];
      var newCircle := Implicants.ReturnCombined(a, R[n]);
      DedupStep(done, a, R, n, merged', newCircle);
      merged', duplicates' := AddUnique(merged', duplicates', newCircle);
    } else {
      assert !Adjacent(a.bits, R[n].bits);
      assert done + RowPairs(a, R, n + 1) == done + RowPairs(a, R, n);
    }
  }

  /** The duplicate filter of getPI: c joins the bucket only when no implicant
      there renders as c does. */
  method AddUnique(merged: Bucket, duplicates: set<string>, c: Impcnt) returns (merged': Bucket, duplicates': set<string>)
    requires duplicates == Renders(merged)
    ensures merged' == if Render(c.bits) in Renders(merged) then merged else merged + [c]
    ensures duplicates' == Renders(merged')
  {
    merged', duplicates' := merged, duplicates;
    var hash := ToString(c.bits);
    if hash !in duplicates {
      RendersSnoc(merged, c);
      duplicates' := duplicates + {hash};
      merged' := merged + [c];
    }
  }

  /** One step of the n loop in terms of Dedup: a merge whose rendering is new is
      appended, any other is dropped. */
  lemma DedupStep(done: Bucket, a: Impcnt, R: Bucket, n: nat, merged: Bucket, c: Impcnt)
    requires n < |R| && Adjacent(a.bits, R[n].bits) && c == Combine(a, R[n])
    requires merged == Dedup(done + RowPairs(a, R, n))
    ensures Dedup(done + RowPairs(a, R, n + 1)) == if Render(c.bits) in Renders(merged) then merged else merged + [c]
  {
    assert done + RowPairs(a, R, n + 1) == (done + RowPairs(a, R, n)) + [c];
    DedupSnoc(done + RowPairs(a, R, n), c);
  }

  /** The left bucket with L[..l] flagged when they have a partner in R. */
  ghost function MarkAbove(L: Bucket, R: Bucket, l: nat): Bucket
    requires l <= |L|
  {
    seq(|L|, i requires 0 <= i < |L| => if i < l then L[i].(check := L[i].check || PartnerAmong(L[i].bits, R, |R|)) else L[i])
  }

  /** The right bucket with each implicant flagged when it has a partner in L[..l]. */
  ghost function MarkBelow(L: Bucket, R: Bucket, l: nat): Bucket
    requires l <= |L|
  {
    seq(|R|, m requires 0 <= m < |R| => R[m].(check := R[m].check || PartnerIn(L, l, R[m].bits)))
  }

  lemma MarkStep(L: Bucket, R: Bucket, l: nat)
    requires l < |L|
    ensures MarkAbove(L, R, l + 1) == MarkAbove(L, R, l)[l := L[l].(check := L[l].check || PartnerAmong(L[l].bits, R, |R|))]
    ensures MarkPrefix(MarkBelow(L, R, l), L[l].bits, R, |R|) == MarkBelow(L, R, l + 1)
  {
    forall m | 0 <= m < |R|
      ensures MarkPrefix(MarkBelow(L, R, l), L[l].bits, R, |R|)[m] == MarkBelow(L, R, l + 1)[m]
    {
      PartnerInStep(L, l, R[m].bits);
    }
  }

  lemma MarkNone(L: Bucket, R: Bucket)
    ensures MarkAbove(L, R, 0) == L && MarkBelow(L, R, 0) == R
  {
  }

  /** The body of getPI's j loop for buckets L = lList[j] and R = lList[j + 1]:
      every pair at distance 1 flags both operands as merged, even when the
      merge is a duplicate, and contributes its merge to nList[j] unless an
      equally rendered one is already there. */
  method MergeBuckets(L: Bucket, R: Bucket, ghost w: nat) returns (L': Bucket, R': Bucket, merged: Bucket)
    requires Width(L, w) && Width(R, w)
    ensures L' == MarkAbove(L, R, |L|) && R' == MarkBelow(L, R, |L|)
    ensures merged == Dedup(Pairs(L, R, |L|))
  {
    L', R', merged := L, R, [];
    var duplicates: set<string> := {};
    MarkNone(L, R);
    for l := 0 to |L|
      invariant L' == MarkAbove(L, R, l) && R' == MarkBelow(L, R, l)
      invariant merged == Dedup(Pairs(L, R, l)) && duplicates == Renders(merged)
    {
      L', R', merged, duplicates := MergeLeft(L, R, l, L', R', merged, duplicates, w);
    }
  }

  /** One pass of the l loop: L[l] against every element of R. */
  method MergeLeft(L: Bucket, R: Bucket, l: nat, Lcur: Bucket, Rcur: Bucket, merged: Bucket, duplicates: set<string>, ghost w: nat)
    returns (L': Bucket, R': Bucket, merged': Bucket, duplicates': set<string>)
    requires Width(L, w) && Width(R, w) && l < |L|
    requires Lcur == MarkAbove(L, R, l) && Rcur == MarkBelow(L, R, l)
    requires merged == Dedup(Pairs(L, R, l)) && duplicates == Renders(merged)
    ensures L' == MarkAbove(L, R, l + 1) && R' == MarkBelow(L, R, l + 1)
    ensures merged' == Dedup(Pairs(L, R, l + 1)) && duplicates' == Renders(merged')
  {
    MarkStep(L, R, l);
    ghost var done := Pairs(L, R, l);
    assert |Rcur| == |R|;
    var a;
    a, R', merged', duplicates' := MergeRow(L[l], R, Rcur, done, merged, duplicates, w);
    RowDone(L, R, l, Lcur, a);
    L' := Lcur[l := a];
  }

  /** After the n loop for L[l], the left bucket is flagged one row further and
      the merges of that row follow those of the rows before it. */
  lemma RowDone(L: Bucket, R: Bucket, l: nat, Lcur: Bucket, a: Impcnt)
    requires l < |L| && Lcur == MarkAbove(L, R, l)
    requires a == L[l].(check := L[l].check || PartnerAmong(L[l].bits, R, |R|))
    ensures Lcur[l := a] == MarkAbove(L, R, l + 1)
    ensures Pairs(L, R, l + 1) == Pairs(L, R, l) + RowPairs(L[l], R, |R|)
  {
    MarkStep(L, R, l);
  }

  /** A and B differ at most in their flags. */
  predicate SameCore(A: Bucket, B: Bucket)
  {
    |A| == |B| && forall k :: 0 <= k < |A| ==> A[k].terms == B[k].terms && A[k].bits == B[k].bits
  }

  lemma {:induction false} PairsSameCore(A: Bucket, B: Bucket, R: Bucket, l: nat)
    requires SameCore(A, B) && l <= |A|
    ensures Pairs(A, R, l) == Pairs(B, R, l)
  {
    if l > 0 {
      PairsSameCore(A, B, R, l - 1);
      RowPairsSameCore(A[l - 1], B[l - 1], R, |R|);
    }
  }

  lemma {:induction false} RowPairsSameCore(a: Impcnt, b: Impcnt, R: Bucket, n: nat)
    requires a.terms == b.terms && a.bits == b.bits && n <= |R|
    ensures RowPairs(a, R, n) == RowPairs(b, R, n)
  {
    if n > 0 {
      RowPairsSameCore(a, b, R, n - 1);
    }
  }

  lemma PartnerInSameCore(A: Bucket, B: Bucket, b: ImcntBits)
    requires SameCore(A, B)
    ensures PartnerIn(A, |A|, b) == PartnerIn(B, |B|, b)
  {
    if PartnerIn(A, |A|, b) {
      var m :| 0 <= m < |A| && Adjacent(A[m].bits, b);
      assert Adjacent(B[m].bits, b);
    }
    if PartnerIn(B, |B|, b) {
      var m :| 0 <= m < |B| && Adjacent(B[m].bits, b);
      assert Adjacent(A[m].bits, b);
    }
  }

  lemma MarkBelowSameCore(A: Bucket, B: Bucket, R: Bucket)
    requires SameCore(A, B)
    ensures MarkBelow(A, R, |A|) == MarkBelow(B, R, |B|)
  {
    forall m | 0 <= m < |R|
      ensures MarkBelow(A, R, |A|)[m] == MarkBelow(B, R, |B|)[m]
    {
      PartnerInSameCore(A, B, R[m].bits);
    }
  }

  /** getPI's merge test for an implicant with pattern b in bucket j of a level:
      some implicant of bucket j - 1 or of bucket j + 1 is at distance 1. */
  ghost predicate HasNeighbour(lv: Level, j: nat, b: ImcntBits)
    requires j < |lv|
  {
    || (j > 0 && PartnerIn(lv[j - 1], |lv[j - 1]|, b))
    || (j + 1 < |lv| && PartnerAmong(b, lv[j + 1], |lv[j + 1]|))
  }

  /** Bucket j once the pass over buckets j - 1 and j has flagged it. */
  ghost function FlagBelow(lv: Level, j: nat): Bucket
    requires j < |lv|
  {
    if j == 0 then lv[0] else MarkBelow(lv[j - 1], lv[j], |lv[j - 1]|)
  }

  /** Bucket j at the end of a round: flagged from below, then from above. */
  ghost function FlagRow(lv: Level, j: nat): Bucket
    requires j < |lv|
  {
    if j + 1 < |lv| then MarkAbove(FlagBelow(lv, j), lv[j + 1], |lv[j]|) else FlagBelow(lv, j)
  }

  /** At the end of a round an implicant is flagged exactly when it was flagged
      before or has a neighbour; nothing else about it changes. */
  lemma FlagRowElement(lv: Level, j: nat, k: nat)
    requires j < |lv| && k < |lv[j]|
    ensures |FlagRow(lv, j)| == |lv[j]|
    ensures FlagRow(lv, j)[k] == lv[j][k].(check := lv[j][k].check || HasNeighbour(lv, j, lv[j][k].bits))
  {
  }

  /** Every bucket of a level at the end of a round. */
  ghost function FlaggedLevel(last: Level): Level
  {
    FlaggedUpTo(last, |last|)
  }

  /** Buckets 0 .. n - 1 of a level at the end of a round. */
  ghost function FlaggedUpTo(last: Level, n: nat): (r: Level)
    requires n <= |last|
    ensures |r| == n
  {
    if n == 0 then [] else FlaggedUpTo(last, n - 1) + [FlagRow(last, n - 1)]
  }

  /** The next level a round builds: bucket j holds the deduplicated merges of
      buckets j and j + 1, and the top bucket stays empty. */
  ghost function MergedLevel(last: Level): Level
  {
    MergedUpTo(last, |last|)
  }

  /** Buckets 0 .. n - 1 of the next level. */
  ghost function MergedUpTo(last: Level, n: nat): (r: Level)
    requires n <= |last|
    ensures |r| == n
  {
    if n == 0 then [] else MergedUpTo(last, n - 1) + [MergedBucket(last, n - 1)]
  }

  /** Bucket i of the next level. */
  ghost function MergedBucket(last: Level, i: nat): Bucket
    requires i < |last|
  {
    if i + 1 < |last| then Dedup(Pairs(last[i], last[i + 1], |last[i]|)) else []
  }

  /** The state of a round after its first j passes: buckets below j are final,
      bucket j is flagged from below, the rest are untouched, and next[..j]
      holds the merged buckets. `rows` and `merges` are the final level and the
      next level. */
  ghost predicate RoundInvariant(last: Level, j: nat, marked: Level, next: Level, changed: bool, rows: Level, merges: Level)
    requires j < |last|
  {
    && |marked| == |last| && |next| == |last| && |rows| == |last| && |merges| == |last|
    && (forall i :: 0 <= i < j ==> marked[i] == rows[i])
    && marked[j] == FlagBelow(last, j)
    && (forall i :: j < i < |last| ==> marked[i] == last[i])
    && (forall i :: 0 <= i < j ==> next[i] == merges[i])
    && (forall i :: j <= i < |last| ==> next[i] == [])
    && (changed <==> exists i :: 0 <= i < j && next[i] != [])
  }

  /** One round of getPI (its j loop) over the level lList = `last`: every
      implicant with a neighbour is flagged, and bucket j of the next level nList
      receives the deduplicated merges of buckets j and j + 1. */
  method NextLevel(last: Level, w: nat) returns (marked: Level, next: Level, changed: bool)
    requires |last| == w + 1 && forall j :: 0 <= j <= w ==> Width(last[j], w)
    ensures marked == FlaggedLevel(last) && next == MergedLevel(last)
    ensures changed <==> exists j :: 0 <= j <= w && next[j] != []
  {
    ghost var rows, merges := FlaggedLevel(last), MergedLevel(last);
    marked, next, changed := last, seq(w + 1, _ => []), false;
    for j := 0 to w
      invariant RoundInvariant(last, j, marked, next, changed, rows, merges)
    {
      marked, next, changed := Round(last, w, j, marked, next, changed, rows, merges);
    }
    RoundEnd(last, marked, next, changed, rows, merges);
  }

  /** One pass of getPI's j loop: buckets j and j + 1 of lList merged into
      bucket j of nList, and `changed` set when the merge is not empty. */
  method Round(last: Level, w: nat, j: nat, marked: Level, next: Level, changed: bool, ghost rows: Level, ghost merges: Level)
    returns (marked': Level, next': Level, changed': bool)
    requires |last| == w + 1 && forall i :: 0 <= i <= w ==> Width(last[i], w)
    requires j < w && rows == FlaggedLevel(last) && merges == MergedLevel(last)
    requires RoundInvariant(last, j, marked, next, changed, rows, merges)
    ensures RoundInvariant(last, j + 1, marked', next', changed', rows, merges)
  {
    FlagBelowCore(last, j, w);
    var lower, upper, merged := MergeBuckets(marked[j], marked[j + 1], w);
    PassResult(last, j, marked[j], marked[j + 1], lower, upper, merged);
    RoundStep(last, j, marked, next, changed, rows, merges, lower, upper, merged);
    marked' := marked[j := lower][j + 1 := upper];
    next' := next[j := merged];
    changed' := changed || merged != [];
  }

  /** The pass over buckets j and j + 1, applied to bucket j as flagged from
      below and to the untouched bucket j + 1, gives bucket j its final flags,
      flags bucket j + 1 from below and builds bucket j of the next level. */
  lemma PassResult(last: Level, j: nat, Lj: Bucket, Rj: Bucket, lower: Bucket, upper: Bucket, merged: Bucket)
    requires j + 1 < |last| && Lj == FlagBelow(last, j) && Rj == last[j + 1]
    requires lower == MarkAbove(Lj, Rj, |Lj|) && upper == MarkBelow(Lj, Rj, |Lj|)
    requires merged == Dedup(Pairs(Lj, Rj, |Lj|))
    ensures lower == FlaggedLevel(last)[j] && upper == FlagBelow(last, j + 1)
    ensures merged == MergedLevel(last)[j]
  {
    FlagBelowCore(last, j, 0);
    PairsSameCore(Lj, last[j], Rj, |last[j]|);
    MarkBelowSameCore(Lj, last[j], Rj);
    LevelsAt(last, j);
  }

  lemma LevelsAt(last: Level, j: nat)
    requires j + 1 < |last|
    ensures FlaggedLevel(last)[j] == FlagRow(last, j)
    ensures MergedLevel(last)[j] == Dedup(Pairs(last[j], last[j + 1], |last[j]|))
  {
    FlaggedUpToAt(last, |last|, j);
    MergedUpToAt(last, |last|, j);
  }

  lemma {:induction false} FlaggedUpToAt(last: Level, n: nat, j: nat)
    requires j < n <= |last|
    ensures FlaggedUpTo(last, n)[j] == FlagRow(last, j)
  {
    if j < n - 1 {
      FlaggedUpToAt(last, n - 1, j);
    }
  }

  lemma {:induction false} MergedUpToAt(last: Level, n: nat, j: nat)
    requires j < n <= |last|
    ensures MergedUpTo(last, n)[j] == MergedBucket(last, j)
  {
    var front := MergedUpTo(last, n - 1);
    var top := MergedBucket(last, n - 1);
    assert MergedUpTo(last, n) == front + [top];
    if j < n - 1 {
      MergedUpToAt(last, n - 1, j);
      assert (front + [top])[j] == front[j];
      assert front[j] == MergedBucket(last, j);
    } else {
      assert j == n - 1;
      assert (front + [top])[j] == top;
      assert top == MergedBucket(last, j);
    }
  }

  /** A round keeps the number of buckets and leaves the top bucket of the next
      level empty. */
  lemma LevelsTop(last: Level)
    requires |last| > 0
    ensures |FlaggedLevel(last)| == |last| && |MergedLevel(last)| == |last|
    ensures MergedLevel(last)[|last| - 1] == []
  {
    MergedUpToAt(last, |last|, |last| - 1);
  }

  /** Storing the results of pass j advances the round invariant to j + 1. */
  lemma RoundStep(last: Level, j: nat, marked: Level, next: Level, changed: bool, rows: Level, merges: Level,
                  lower: Bucket, upper: Bucket, merged: Bucket)
    requires j + 1 < |last| && RoundInvariant(last, j, marked, next, changed, rows, merges)
    requires lower == rows[j] && upper == FlagBelow(last, j + 1) && merged == merges[j]
    ensures RoundInvariant(last, j + 1, marked[j := lower][j + 1 := upper], next[j := merged], changed || merged != [], rows, merges)
  {
    var marked', next' := marked[j := lower][j + 1 := upper], next[j := merged];
    assert forall i :: 0 <= i < j ==> marked'[i] == marked[i] && next'[i] == next[i];
    assert forall i :: j + 1 < i < |last| ==> marked'[i] == marked[i] && next'[i] == next[i];
    if merged != [] {
      assert next'[j] != [];
    }
  }

  /** After the last pass the round invariant gives the finished level. */
  lemma RoundEnd(last: Level, marked: Level, next: Level, changed: bool, rows: Level, merges: Level)
    requires |last| > 0 && RoundInvariant(last, |last| - 1, marked, next, changed, rows, merges)
    requires rows == FlaggedLevel(last) && merges == MergedLevel(last)
    ensures marked == rows && next == merges
    ensures changed <==> exists i :: 0 <= i < |last| && next[i] != []
  {
    assert marked[|last| - 1] == rows[|last| - 1];
    assert next[|last| - 1] == merges[|last| - 1];
  }

  /** Flagging from below keeps patterns, terms and widths. */
  lemma FlagBelowCore(lv: Level, j: nat, w: nat)
    requires j < |lv|
    ensures SameCore(FlagBelow(lv, j), lv[j])
    ensures Width(lv[j], w) ==> Width(FlagBelow(lv, j), w)
  {
  }
}
