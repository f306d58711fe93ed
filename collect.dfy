/** The last step of Tabular::getPI: every implicant that no round flagged,
    level by level and bucket by bucket, is a prime implicant. */
module Collect {
  import opened Implicants
  import opened Primes

  /** The implicants of a bucket that are not flagged, in bucket order. */
  function Unchecked(b: Bucket): (r: Bucket)
    ensures |r| <= |b|
    ensures forall c :: c in r <==> c in b && !c.check
  {
    if b == [] then []
    else
      var init := Unchecked(b[..|b| - 1]);
      assert forall c :: c in b <==> c in b[..|b| - 1] || c == b[|b| - 1];
      if b[|b| - 1].check then init else init + [b[|b| - 1]]
  }

  /** The unflagged implicants of buckets 0 .. n - 1 of a level. */
  function LevelPIs(lv: Level, n: nat): Bucket
    requires n <= |lv|
  {
    if n == 0 then [] else LevelPIs(lv, n - 1) + Unchecked(lv[n - 1])
  }

  /** Level i has the buckets 0 .. w - i that can hold an implicant with i
      don't-care positions among w. */
  predicate LevelSizes(lists: seq<Level>, w: nat)
  {
    |lists| <= w + 1 && forall i :: 0 <= i < |lists| ==> |lists[i]| == w + 1
  }

  /** The prime implicants of levels 0 .. n - 1, in the order getPI collects them. */
  function AllPIs(lists: seq<Level>, w: nat, n: nat): Bucket
    requires LevelSizes(lists, w) && n <= |lists|
  {
    if n == 0 then [] else AllPIs(lists, w, n - 1) + Contributed(lists, w, n - 1)
  }

  /** What level i contributes: the unflagged implicants of its buckets 0 .. w - i. */
  function Contributed(lists: seq<Level>, w: nat, i: nat): Bucket
    requires LevelSizes(lists, w) && i < |lists|
  {
    LevelPIs(lists[i], w - i + 1)
  }

  /** c is collected from level i exactly when it is unflagged in one of the
      first n buckets. */
  lemma {:induction false} LevelPIsMember(lv: Level, n: nat, c: Impcnt)
    requires n <= |lv|
    ensures c in LevelPIs(lv, n) <==> !c.check && exists j :: 0 <= j < n && c in lv[j]
  {
    if n > 0 {
      LevelPIsMember(lv, n - 1, c);
      assert c in LevelPIs(lv, n) <==> c in LevelPIs(lv, n - 1) || c in Unchecked(lv[n - 1]);
      if !c.check && c in lv[n - 1] {
        assert c in Unchecked(lv[n - 1]);
      }
    }
  }

  /** c is collected from the first n levels exactly when some level i < n
      contributes it. */
  lemma {:induction false} AllPIsLevels(lists: seq<Level>, w: nat, n: nat, c: Impcnt)
    requires LevelSizes(lists, w) && n <= |lists|
    ensures c in AllPIs(lists, w, n) <==> exists i :: 0 <= i < n && c in Contributed(lists, w, i)
  {
    if n > 0 {
      AllPIsLevels(lists, w, n - 1, c);
      assert c in AllPIs(lists, w, n) <==> c in AllPIs(lists, w, n - 1) || c in Contributed(lists, w, n - 1);
    }
  }

  /** A prime implicant comes from some level i, in a bucket j <= w - i, where
      it is unflagged. */
  lemma AllPIsSource(lists: seq<Level>, w: nat, c: Impcnt) returns (i: nat, j: nat)
    requires LevelSizes(lists, w) && c in AllPIs(lists, w, |lists|)
    ensures i < |lists| && j <= w - i && c in lists[i][j] && !c.check
  {
    AllPIsLevels(lists, w, |lists|, c);
    i :| 0 <= i < |lists| && c in Contributed(lists, w, i);
    LevelPIsMember(lists[i], w - i + 1, c);
    j :| 0 <= j < w - i + 1 && c in lists[i][j];
  }

  /** Every unflagged implicant of a bucket j <= w - i of a level i is collected. */
  lemma AllPIsComplete(lists: seq<Level>, w: nat, i: nat, j: nat, c: Impcnt)
    requires LevelSizes(lists, w) && i < |lists| && j <= w - i && c in lists[i][j] && !c.check
    ensures c in AllPIs(lists, w, |lists|)
  {
    LevelPIsMember(lists[i], w - i + 1, c);
    assert c in Contributed(lists, w, i);
    AllPIsLevels(lists, w, |lists|, c);
  }

  /** The loop over one bucket: appends its unflagged implicants. */
  method CollectBucket(b: Bucket, pis: Bucket) returns (pis': Bucket)
    ensures pis' == pis + Unchecked(b)
  {
    pis' := pis;
    for k := 0 to |b|
      invariant pis' == pis + Unchecked(b[..k])
    {
      assert b[..k + 1][..k] == b[..k];
      if !b[k].check {
        pis' := pis' + [b[k]];
      }
    }
    assert b[..|b|] == b;
  }

  /** The loop over the buckets 0 .. n - 1 of one level. */
  method CollectLevel(lv: Level, n: nat, pis: Bucket) returns (pis': Bucket)
    requires n <= |lv|
    ensures pis' == pis + LevelPIs(lv, n)
  {
    pis' := pis;
    for j := 0 to n
      invariant pis' == pis + LevelPIs(lv, j)
    {
      pis' := CollectBucket(lv[j], pis');
    }
  }

  /** getPI's final loops: PIs is cleared, then every level i contributes the
      unflagged implicants of its buckets 0 .. w - i. */
  method CollectPIs(lists: seq<Level>, w: nat) returns (pis: Bucket)
    requires LevelSizes(lists, w)
    ensures pis == AllPIs(lists, w, |lists|)
  {
    pis := [];
    for i := 0 to |lists|
      invariant pis == AllPIs(lists, w, i)
    {
      pis := CollectLevel(lists[i], w - i + 1, pis);
    }
  }
}
