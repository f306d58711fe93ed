/** Tabular::getPI as a whole: the rounds that build the levels, and the
    collection of the implicants no round could merge (the prime implicants). */
module Levels {
  import opened Bits
  import opened Ternary
  import opened Implicants
  import opened Primes

  /** firstList: bucket j holds the single rows of the minterms, then of the
      don't-cares, with j one bits. */
  function First(w: nat, minterms: seq<nat>, dontcares: seq<nat>): Level
  {
    seq(w + 1, j requires 0 <= j <= w => Singles(w, minterms, j) + Singles(w, dontcares, j))
  }

  /** lists[i] as round i leaves it, before round i + 1 flags it. */
  ghost function Raw(first: Level, i: nat): Level
  {
    if i == 0 then first else MergedLevel(Raw(first, i - 1))
  }

  predicate Empty(lv: Level)
  {
    forall j :: 0 <= j < |lv| ==> lv[j] == []
  }

  /** Every implicant in bucket j of level i is well-formed for (i, j) and not yet
      flagged. */
  ghost predicate LevelShape(lv: Level, w: nat, i: nat)
  {
    && |lv| == w + 1
    && forall j, k :: 0 <= j <= w && 0 <= k < |lv[j]| ==> WellFormed(lv[j][k], w, i, j) && !lv[j][k].check
  }

  /** Levels 0 .. n - 1, each with the flags the round after it sets. */
  ghost function Flagged(first: Level, n: nat): (r: seq<Level>)
    ensures |r| == n
  {
    if n == 0 then [] else Flagged(first, n - 1) + [FlaggedLevel(Raw(first, n - 1))]
  }

  /** Every level from 1 to n - 1 holds some implicant. */
  ghost predicate Grown(first: Level, n: nat)
  {
    n <= 1 || (Grown(first, n - 1) && !Empty(Raw(first, n - 1)))
  }

  /** What getPI's rounds compute: lists[i] is level i with its flags, every level
      after the first holds some implicant, and the last round merged nothing. */
  ghost predicate Rounds(first: Level, lists: seq<Level>)
  {
    && 1 <= |lists| <= |first|
    && lists == Flagged(first, |lists|)
    && Grown(first, |lists|)
    && Empty(MergedLevel(Raw(first, |lists| - 1)))
  }

  // ---------------------------------------------------------------------------
  // The shape of every level.

  lemma FirstShape(w: nat, minterms: seq<nat>, dontcares: seq<nat>)
    requires Fits(minterms, w) && Fits(dontcares, w)
    ensures LevelShape(First(w, minterms, dontcares), w, 0)
  {
    var lv := First(w, minterms, dontcares);
    forall j, k | 0 <= j <= w && 0 <= k < |lv[j]|
      ensures WellFormed(lv[j][k], w, 0, j) && !lv[j][k].check
    {
      var A, B := Singles(w, minterms, j), Singles(w, dontcares, j);
      SinglesShape(w, minterms, j);
      SinglesShape(w, dontcares, j);
      assert lv[j] == A + B;
      if k < |A| {
        assert lv[j][k] == A[k];
      } else {
        assert lv[j][k] == B[k - |A|];
      }
    }
  }

  /** An element of the merged bucket j comes from a distance-1 pair of buckets j
      and j + 1, so it is well-formed one level up. */
  lemma MergedShape(lv: Level, w: nat, i: nat)
    requires LevelShape(lv, w, i)
    ensures LevelShape(MergedLevel(lv), w, i + 1)
  {
    var nx := MergedLevel(lv);
    LevelsTop(lv);
    forall j, k | 0 <= j <= w && 0 <= k < |nx[j]|
      ensures WellFormed(nx[j][k], w, i + 1, j) && !nx[j][k].check
    {
      LevelsTop(lv);
      assert j < w;
      LevelsAt(lv, j);
      var L, R := lv[j], lv[j + 1];
      var c := nx[j][k];
      DedupProperties(Pairs(L, R, |L|));
      assert c in Pairs(L, R, |L|);
      var a, b := PairsSource(L, R, |L|, c);
      CombineWellFormed(L[a], R[b], w, i, j);
    }
  }

  lemma {:induction false} RawShape(first: Level, w: nat, i: nat)
    requires LevelShape(first, w, 0)
    ensures LevelShape(Raw(first, i), w, i)
  {
    if i > 0 {
      RawShape(first, w, i - 1);
      RawStep(first, w, i - 1);
    } else {
      assert Raw(first, 0) == first;
    }
  }

  lemma RawStep(first: Level, w: nat, i: nat)
    requires LevelShape(Raw(first, i), w, i)
    ensures LevelShape(Raw(first, i + 1), w, i + 1)
  {
    MergedShape(Raw(first, i), w, i);
  }

  /** A non-empty bucket j of level i has i masked and j set positions among w. */
  lemma ShapeRoom(lv: Level, w: nat, i: nat, j: nat)
    requires LevelShape(lv, w, i) && j <= w && lv[j] != []
    ensures i + j <= w
  {
    PopcountRoom(lv[j][0].bits);
  }

  // ---------------------------------------------------------------------------
  // The rounds.

  /** The levels before a round: every level but the last is flagged, the last
      is as the previous round built it, and every level after the first holds
      some implicant. */
  ghost predicate Built(first: Level, lists: seq<Level>)
  {
    && 1 <= |lists| <= |first|
    && lists == Flagged(first, |lists| - 1) + [Raw(first, |lists| - 1)]
    && Grown(first, |lists|)
  }

  /** getPI up to the collection of the prime implicants: level 0 is bucketed,
      then rounds flag the last level and build the next one until a round
      merges nothing. `lists` is the source's vector of levels. */
  method BuildLevels(w: nat, minterms: seq<nat>, dontcares: seq<nat>) returns (lists: seq<Level>)
    requires Fits(minterms, w) && Fits(dontcares, w)
    ensures Rounds(First(w, minterms, dontcares), lists)
  {
    var first := BucketByPopcount(w, minterms, dontcares);
    assert first == First(w, minterms, dontcares);
    FirstShape(w, minterms, dontcares);
    assert first == Raw(first, 0);
    lists := [first];
    while true
      invariant Built(first, lists)
      invariant LevelShape(first, w, 0)
      decreases w + 1 - |lists|
    {
      RawWidth(first, w, |lists| - 1);
      var marked, next, changed := NextLevel(lists[|lists| - 1], w);
      if !changed {
        RoundsStop(first, lists, marked, next);
        lists := lists[|lists| - 1 := marked];
        break;
      }
      RoundsGrow(first, w, lists, marked, next);
      lists := lists[|lists| - 1 := marked] + [next];
    }
  }

  /** A round that merged nothing ends getPI's loop with the flagged last level. */
  lemma {:induction false} RoundsStop(first: Level, lists: seq<Level>, marked: Level, next: Level)
    requires Built(first, lists)
    requires marked == FlaggedLevel(lists[|lists| - 1]) && next == MergedLevel(lists[|lists| - 1]) && Empty(next)
    ensures Rounds(first, lists[|lists| - 1 := marked])
  {
    var K := |lists|;
    ReplaceLast(lists, Flagged(first, K - 1), Raw(first, K - 1), marked);
  }

  /** A round that merged something appends a non-empty level, which fits below
      index w + 1. */
  lemma {:induction false} RoundsGrow(first: Level, w: nat, lists: seq<Level>, marked: Level, next: Level)
    requires LevelShape(first, w, 0)
    requires Built(first, lists)
    requires marked == FlaggedLevel(lists[|lists| - 1]) && next == MergedLevel(lists[|lists| - 1]) && !Empty(next)
    ensures |lists| <= w
    ensures Built(first, lists[|lists| - 1 := marked] + [next])
  {
    var K := |lists|;
    RawNext(first, K - 1);
    NonEmptyRoom(first, w, K);
    BuiltAppend(first, lists, marked, next);
  }

  lemma RawNext(first: Level, i: nat)
    ensures Raw(first, i + 1) == MergedLevel(Raw(first, i))
  {
  }

  /** Every bucket of a merged level holds each pattern once: a merge whose
      rendering is already among the duplicates is not stored again. */
  lemma LevelDistinct(first: Level, i: nat, j: nat)
    requires 1 <= i && j < |Raw(first, i - 1)|
    ensures j < |Raw(first, i)| && DistinctRenders(Raw(first, i)[j])
  {
    var last := Raw(first, i - 1);
    RawNext(first, i - 1);
    LevelsTop(last);
    if j + 1 < |last| {
      LevelsAt(last, j);
      DedupProperties(Pairs(last[j], last[j + 1], |last[j]|));
    }
  }

  lemma {:induction false} BuiltAppend(first: Level, lists: seq<Level>, marked: Level, next: Level)
    requires Built(first, lists) && |lists| < |first|
    requires marked == FlaggedLevel(Raw(first, |lists| - 1))
    requires next == Raw(first, |lists|) && !Empty(next)
    ensures Built(first, lists[|lists| - 1 := marked] + [next])
  {
    var K := |lists|;
    ReplaceLast(lists, Flagged(first, K - 1), Raw(first, K - 1), marked);
    assert Flagged(first, K) == Flagged(first, K - 1) + [marked];
  }

  lemma ReplaceLast<T>(s: seq<T>, p: seq<T>, x: T, y: T)
    requires s == p + [x]
    ensures s[|s| - 1 := y] == p + [y]
  {
  }

  /** A level that holds an implicant has at most w don't-cares per pattern, so
      its index is at most w. */
  lemma NonEmptyRoom(first: Level, w: nat, i: nat)
    requires LevelShape(first, w, 0)
    requires !Empty(Raw(first, i))
    ensures i <= w
  {
    var lv := Raw(first, i);
    RawShape(first, w, i);
    var j :| 0 <= j < |lv| && lv[j] != [];
    ShapeRoom(lv, w, i, j);
  }

  lemma RawWidth(first: Level, w: nat, i: nat)
    requires LevelShape(first, w, 0)
    ensures |Raw(first, i)| == w + 1
    ensures forall j :: 0 <= j <= w ==> Width(Raw(first, i)[j], w)
  {
    RawShape(first, w, i);
  }
}
