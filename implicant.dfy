/** Impcnt: an implicant, i.e. the ascending list of truth-table rows it covers,
    its ternary pattern and the two one-way flags of the tabular method. */
module Implicants {
  import opened Bits
  import opened Ternary

  /** `check` is set once the implicant has been merged into a larger one (it is
      then not prime); `isEPI` once it is known to be essential. */
  datatype Impcnt = Impcnt(terms: seq<nat>, bits: ImcntBits, check: bool, isEPI: bool)

  /** The Impcnt(numberOfInputs, term) constructor: a single row, nothing masked. */
  function Single(w: nat, term: nat): Impcnt
  {
    Impcnt([term], Exact(w, term), false, false)
  }

  predicate Sorted(s: seq<nat>)
  {
    forall i, j :: 0 <= i < j < |s| ==> s[i] <= s[j]
  }

  predicate Increasing(s: seq<nat>)
  {
    forall i, j :: 0 <= i < j < |s| ==> s[i] < s[j]
  }

  /** The ordered two-pointer merge: on equal heads the receiver's element is
      taken first. */
  function Merge(xs: seq<nat>, ys: seq<nat>): (r: seq<nat>)
    ensures |r| == |xs| + |ys|
    ensures multiset(r) == multiset(xs) + multiset(ys)
    decreases |xs| + |ys|
  {
    if xs == [] then ys
    else if ys == [] then xs
    else if xs[0] > ys[0] then
      assert ys == [ys[0]] + ys[1..];
      [ys[0]] + Merge(xs, ys[1..])
    else
      assert xs == [xs[0]] + xs[1..];
      [xs[0]] + Merge(xs[1..], ys)
  }

  /** What Impcnt::returnCombined builds: the merged term list, the merged
      pattern, and both flags cleared. */
  function Combine(p: Impcnt, q: Impcnt): Impcnt
  {
    Impcnt(Merge(p.terms, q.terms), Combined(p.bits, q.bits), false, false)
  }

  /** Impcnt::returnCombined: the two-pointer loop over both term lists. */
  method ReturnCombined(p: Impcnt, q: Impcnt) returns (ret: Impcnt)
    ensures ret == Combine(p, q)
    ensures |ret.terms| == |p.terms| + |q.terms|
    ensures multiset(ret.terms) == multiset(p.terms) + multiset(q.terms)
    ensures Sorted(p.terms) && Sorted(q.terms) ==> Sorted(ret.terms)
  {
    ghost var xs, ys := p.terms, q.terms;
    var terms: seq<nat> := [];
    var i, j := 0, 0;
    assert xs[0..] == xs && ys[0..] == ys;
    while i < |p.terms| || j < |q.terms|
      invariant 0 <= i <= |xs| && 0 <= j <= |ys|
      invariant terms + Merge(xs[i..], ys[j..]) == Merge(xs, ys)
      decreases |xs| - i + |ys| - j
    {
      if i < |p.terms| && (j == |q.terms| || p.terms[i] <= q.terms[j]) {
        MergeAdvanceLeft(terms, xs, ys, i, j);
        terms := terms + [p.terms[i]];
        i := i + 1;
      } else {
        MergeAdvanceRight(terms, xs, ys, i, j);
        terms := terms + [q.terms[j]];
        j := j + 1;
      }
    }
    assert xs[i..] == [] && ys[j..] == [];
    var b := Ternary.ReturnCombined(p.bits, q.bits);
    ret := Impcnt(terms, b, false, false);
    if Sorted(p.terms) && Sorted(q.terms) {
      MergeSorted(p.terms, q.terms);
    }
  }

  /** One step of the loop above taking the left head. */
  lemma MergeAdvanceLeft(acc: seq<nat>, xs: seq<nat>, ys: seq<nat>, i: nat, j: nat)
    requires i < |xs| && j <= |ys| && (j == |ys| || xs[i] <= ys[j])
    ensures acc + Merge(xs[i..], ys[j..]) == (acc + [xs[i]]) + Merge(xs[i + 1..], ys[j..])
  {
    MergeTakeLeft(xs[i..], ys[j..]);
    assert xs[i..][1..] == xs[i + 1..];
  }

  /** One step of the loop above taking the right head. */
  lemma MergeAdvanceRight(acc: seq<nat>, xs: seq<nat>, ys: seq<nat>, i: nat, j: nat)
    requires i <= |xs| && j < |ys| && (i == |xs| || xs[i] > ys[j])
    ensures acc + Merge(xs[i..], ys[j..]) == (acc + [ys[j]]) + Merge(xs[i..], ys[j + 1..])
  {
    MergeTakeRight(xs[i..], ys[j..]);
    assert ys[j..][1..] == ys[j + 1..];
  }

  lemma MergeTakeLeft(xs: seq<nat>, ys: seq<nat>)
    requires xs != [] && (ys == [] || xs[0] <= ys[0])
    ensures Merge(xs, ys) == [xs[0]] + Merge(xs[1..], ys)
  {
  }

  lemma MergeTakeRight(xs: seq<nat>, ys: seq<nat>)
    requires ys != [] && (xs == [] || xs[0] > ys[0])
    ensures Merge(xs, ys) == [ys[0]] + Merge(xs, ys[1..])
  {
  }

  /** Prepending an element no larger than the head keeps a list ascending. */
  lemma SortedCons(h: nat, t: seq<nat>)
    requires Sorted(t) && (t != [] ==> h <= t[0])
    ensures Sorted([h] + t)
  {
    var r := [h] + t;
    forall a, b | 0 <= a < b < |r|
      ensures r[a] <= r[b]
    {
      if a == 0 {
        assert r[b] == t[b - 1] && t[0] <= t[b - 1];
      }
    }
  }

  lemma IncreasingCons(h: nat, t: seq<nat>)
    requires Increasing(t) && (t != [] ==> h < t[0])
    ensures Increasing([h] + t)
  {
    var r := [h] + t;
    forall a, b | 0 <= a < b < |r|
      ensures r[a] < r[b]
    {
      if a == 0 && b > 1 {
        assert r[b] == t[b - 1] && t[0] < t[b - 1];
      }
    }
  }

  /** Merging two ascending lists gives an ascending list. */
  lemma {:induction false} MergeSorted(xs: seq<nat>, ys: seq<nat>)
    requires Sorted(xs) && Sorted(ys)
    ensures Sorted(Merge(xs, ys))
    decreases |xs| + |ys|
  {
    if xs != [] && ys != [] {
      if xs[0] > ys[0] {
        var t := Merge(xs, ys[1..]);
        MergeSorted(xs, ys[1..]);
        assert ys[1..] != [] ==> ys[0] <= ys[1];
        SortedCons(ys[0], t);
      } else {
        var t := Merge(xs[1..], ys);
        MergeSorted(xs[1..], ys);
        assert xs[1..] != [] ==> xs[0] <= xs[1];
        SortedCons(xs[0], t);
      }
    }
  }

  /** Merging two strictly ascending lists with no common element gives a
      strictly ascending list. */
  lemma {:induction false} MergeIncreasing(xs: seq<nat>, ys: seq<nat>)
    requires Increasing(xs) && Increasing(ys)
    requires forall e :: e in xs ==> e !in ys
    ensures Increasing(Merge(xs, ys))
    decreases |xs| + |ys|
  {
    if xs != [] && ys != [] {
      if xs[0] > ys[0] {
        var t := Merge(xs, ys[1..]);
        forall e | e in xs
          ensures e !in ys[1..]
        {
          assert e !in ys;
        }
        MergeIncreasing(xs, ys[1..]);
        assert ys[1..] != [] ==> ys[0] < ys[1];
        IncreasingCons(ys[0], t);
      } else {
        var t := Merge(xs[1..], ys);
        assert xs[0] in xs;
        assert xs[0] != ys[0];
        forall e | e in xs[1..]
          ensures e !in ys
        {
          assert e in xs;
        }
        MergeIncreasing(xs[1..], ys);
        assert xs[1..] != [] ==> xs[0] < xs[1];
        IncreasingCons(xs[0], t);
      }
    }
  }

  /** A strictly ascending list is determined by its elements. */
  lemma {:induction false} IncreasingUnique(s: seq<nat>, t: seq<nat>)
    requires Increasing(s) && Increasing(t)
    requires forall x :: x in s <==> x in t
    ensures s == t
  {
    if s != [] {
      assert s[0] in t;
    }
    if t != [] {
      assert t[0] in s;
    }
    if s != [] && t != [] {
      HeadsEqual(s, t);
      forall x
        ensures x in s[1..] <==> x in t[1..]
      {
        if x in s[1..] {
          TailMember(s, t, x);
        }
        if x in t[1..] {
          TailMember(t, s, x);
        }
      }
      IncreasingUnique(s[1..], t[1..]);
      assert s == [s[0]] + s[1..] && t == [t[0]] + t[1..];
    }
  }

  /** Two ascending lists holding each other's first element start alike. */
  lemma HeadsEqual(s: seq<nat>, t: seq<nat>)
    requires Increasing(s) && Increasing(t) && s != [] && t != []
    requires s[0] in t && t[0] in s
    ensures s[0] == t[0]
  {
    var a :| 0 <= a < |t| && t[a] == s[0];
    var b :| 0 <= b < |s| && s[b] == t[0];
    assert s[0] <= s[b] && t[0] <= t[a];
  }

  /** A later element of s that t holds is a later element of t. */
  lemma TailMember(s: seq<nat>, t: seq<nat>, x: nat)
    requires Increasing(s) && Increasing(t) && s != [] && t != [] && s[0] == t[0]
    requires x in s[1..] && x in t
    ensures x in t[1..]
  {
    var c :| 0 <= c < |s[1..]| && s[1..][c] == x;
    assert s[0] < s[c + 1];
    var d :| 0 <= d < |t| && t[d] == x;
    assert d > 0;
    assert t[1..][d - 1] == x;
  }

  /** The shape of every implicant in bucket `bucket` of level `level` during
      prime-implicant generation: a canonical pattern with `bucket` ones and
      `level` don't-cares, whose terms are, in ascending order, exactly the
      2^level rows obtained by filling in the don't-care positions. */
  ghost predicate WellFormed(imp: Impcnt, w: nat, level: nat, bucket: nat)
  {
    && |imp.bits.ask| == w
    && Canonical(imp.bits)
    && Popcount(imp.bits.bits) == bucket
    && MaskCount(imp.bits.ask) == level
    && Increasing(imp.terms)
    && |imp.terms| == Pow2(level)
    && (forall x :: x in imp.terms <==> Matches(imp.bits, x))
    && !imp.isEPI
  }

  lemma {:induction false} MaskCountNone(w: nat)
    ensures MaskCount(seq(w, _ => false)) == 0
  {
    if w > 0 {
      assert seq(w, _ => false)[1..] == seq(w - 1, _ => false);
      MaskCountNone(w - 1);
    }
  }

  /** Level 0: a row below 2^w on its own is a well-formed implicant in the
      bucket of its bit count. */
  lemma SingleWellFormed(w: nat, x: nat)
    requires x < Pow2(w)
    ensures WellFormed(Single(w, x), w, 0, Popcount(x))
    ensures Popcount(x) <= w
  {
    var s := Single(w, x);
    MaskCountNone(w);
    forall y
      ensures y in s.terms <==> Matches(s.bits, y)
    {
      if Matches(s.bits, y) {
        BitsDetermine(x, y, w);
      }
    }
    PopcountIsBitSum(x, w);
    BitSumBound(x, w);
  }

  /** Merging well-formed implicants of adjacent buckets at distance 1 gives a
      well-formed implicant of the next level, in the lower bucket. */
  lemma CombineWellFormed(p: Impcnt, q: Impcnt, w: nat, level: nat, bucket: nat)
    requires WellFormed(p, w, level, bucket) && WellFormed(q, w, level, bucket + 1)
    requires Distance(p.bits, q.bits) == 1
    ensures WellFormed(Combine(p, q), w, level + 1, bucket)
    ensures forall x :: x in Combine(p, q).terms <==> x in p.terms || x in q.terms
  {
    var c := Combine(p, q);
    CombinedCanonical(p.bits, q.bits);
    var k := DistanceOneAt(p.bits, q.bits);
    forall e | e in p.terms
      ensures e !in q.terms
    {
      assert Matches(p.bits, e);
      assert Bit(e, k) == Bit(p.bits.bits, k) != Bit(q.bits.bits, k);
      assert !Matches(q.bits, e);
    }
    MergeIncreasing(p.terms, q.terms);
    forall x
      ensures x in c.terms <==> x in p.terms || x in q.terms
    {
      assert x in c.terms <==> x in multiset(c.terms);
    }
    forall x
      ensures x in c.terms <==> Matches(c.bits, x)
    {
      CombinedMatches(p.bits, q.bits, x);
    }
  }

  /** Two well-formed implicants with the same pattern have the same terms. */
  lemma SamePatternSameTerms(p: Impcnt, q: Impcnt, w: nat, level: nat, bucket: nat)
    requires WellFormed(p, w, level, bucket) && WellFormed(q, w, level, bucket)
    requires p.bits == q.bits
    ensures p.terms == q.terms
  {
    IncreasingUnique(p.terms, q.terms);
  }
}
