/** ImcntBits: a ternary pattern (product term) over a fixed number of inputs,
    stored as a base value and a don't-care mask. */
module Ternary {
  import opened Bits

  /** Position i is a don't-care ('-') when ask[i]; otherwise the pattern fixes
      input i to bit i of `bits`. The width (numberOfInputs) is |ask|. */
  datatype ImcntBits = ImcntBits(bits: nat, ask: seq<bool>)

  /** The ImcntBits(numberOfInputs, bits) constructor: no position masked. */
  function Exact(w: nat, bits: nat): ImcntBits
  {
    ImcntBits(bits, seq(w, _ => false))
  }

  /** The base value fits the width and is 0 under every don't-care position.
      Every pattern the generator builds has this shape. */
  ghost predicate Canonical(p: ImcntBits)
  {
    && p.bits < Pow2(|p.ask|)
    && forall i :: 0 <= i < |p.ask| && p.ask[i] ==> Bit(p.bits, i) == 0
  }

  /** x is one of the truth-table rows the pattern stands for. */
  ghost predicate Matches(p: ImcntBits, x: nat)
  {
    && x < Pow2(|p.ask|)
    && forall i :: 0 <= i < |p.ask| && !p.ask[i] ==> Bit(x, i) == Bit(p.bits, i)
  }

  /** Number of don't-care positions. */
  function MaskCount(ask: seq<bool>): nat
  {
    if ask == [] then 0 else (if ask[0] then 1 else 0) + MaskCount(ask[1..])
  }

  /** Positions below n, unmasked in a, where the base values of a and b differ. */
  function DifferingBelow(a: ImcntBits, b: ImcntBits, n: nat): set<nat>
  {
    set i: nat | i < n && i < |a.ask| && !a.ask[i] && Bit(a.bits, i) != Bit(b.bits, i)
  }

  function Differing(a: ImcntBits, b: ImcntBits): set<nat>
  {
    DifferingBelow(a, b, |a.ask|)
  }

  /** The value hammingDist promises: -1 when the masks differ, otherwise the
      number of unmasked positions whose base bits differ. */
  function Distance(a: ImcntBits, b: ImcntBits): int
  {
    if a.ask != b.ask then -1 else |Differing(a, b)|
  }

  /** The pattern returnCombined builds: the receiver's width and base value, and
      the receiver's mask widened by every position where the base values differ. */
  function Combined(a: ImcntBits, b: ImcntBits): ImcntBits
  {
    ImcntBits(a.bits, seq(|a.ask|, i requires 0 <= i < |a.ask| => a.ask[i] || Bit(a.bits, i) != Bit(b.bits, i)))
  }

  /** The character toString writes for input i. */
  function CharAt(p: ImcntBits, i: nat): char
    requires i < |p.ask|
  {
    if p.ask[i] then '-' else if Bit(p.bits, i) == 1 then '1' else '0'
  }

  /** The string toString returns: most significant input first. */
  function Render(p: ImcntBits): string
  {
    seq(|p.ask|, r requires 0 <= r < |p.ask| => CharAt(p, |p.ask| - 1 - r))
  }

  function Digit(b: nat): char
  {
    if b == 1 then '1' else '0'
  }

  // ---------------------------------------------------------------------------
  // The source's loops, each proved against the function above.

  /** hammingDist: scans the positions upwards, giving up with -1 at the first
      mask mismatch, and counts the low bit of the shifted xor otherwise. The
      xor of the two base values is kept as the two shifted operands. */
  method HammingDist(a: ImcntBits, b: ImcntBits) returns (dist: int)
    requires |a.ask| == |b.ask|
    ensures dist == Distance(a, b) && dist == Distance(b, a)
    ensures -1 <= dist <= |a.ask|
    ensures dist == -1 <==> exists i :: 0 <= i < |a.ask| && a.ask[i] != b.ask[i]
  {
    assert Differing(a, b) == Differing(b, a) || a.ask != b.ask;
    dist := 0;
    var ta, tb := a.bits, b.bits;
    var i := 0;
    while i < |a.ask|
      invariant 0 <= i <= |a.ask|
      invariant ta == Shr(a.bits, i) && tb == Shr(b.bits, i)
      invariant forall k :: 0 <= k < i ==> a.ask[k] == b.ask[k]
      invariant dist == |DifferingBelow(a, b, i)| && dist <= i
    {
      if a.ask[i] != b.ask[i] {
        return -1;
      }
      DifferingStep(a, b, i);
      if !a.ask[i] && ta % 2 != tb % 2 {
        dist := dist + 1;
      }
      ShrStep(a.bits, i);
      ShrStep(b.bits, i);
      ta, tb := ta / 2, tb / 2;
      i := i + 1;
    }
    assert a.ask == b.ask;
  }

  /** Scanning position n adds it to the differing set exactly when it is
      unmasked in a and the base bits there differ. */
  lemma DifferingStep(a: ImcntBits, b: ImcntBits, n: nat)
    requires n < |a.ask|
    ensures |DifferingBelow(a, b, n + 1)| ==
      |DifferingBelow(a, b, n)| + (if !a.ask[n] && Bit(a.bits, n) != Bit(b.bits, n) then 1 else 0)
  {
    var below, above := DifferingBelow(a, b, n), DifferingBelow(a, b, n + 1);
    var extra: set<nat> := if !a.ask[n] && Bit(a.bits, n) != Bit(b.bits, n) then {n} else {};
    forall i: nat
      ensures i in above <==> i in below + extra
    {
    }
    assert above == below + extra;
    assert n !in below;
  }

  /** ImcntBits::returnCombined. */
  method ReturnCombined(a: ImcntBits, b: ImcntBits) returns (ret: ImcntBits)
    ensures ret == Combined(a, b)
    ensures ret.bits == a.bits && |ret.ask| == |a.ask|
    ensures forall i :: 0 <= i < |a.ask| ==> (ret.ask[i] <==> a.ask[i] || Bit(a.bits, i) != Bit(b.bits, i))
  {
    ret := Exact(|a.ask|, a.bits);
    var diffA, diffB := a.bits, b.bits;
    var i := 0;
    while i < |a.ask|
      invariant 0 <= i <= |a.ask| && |ret.ask| == |a.ask| && ret.bits == a.bits
      invariant diffA == Shr(a.bits, i) && diffB == Shr(b.bits, i)
      invariant forall k :: 0 <= k < i ==> ret.ask[k] == Combined(a, b).ask[k]
    {
      var m := a.ask[i];
      if diffA % 2 != diffB % 2 {
        m := true;
      }
      ret := ret.(ask := ret.ask[i := m]);
      ShrStep(a.bits, i);
      ShrStep(b.bits, i);
      diffA, diffB := diffA / 2, diffB / 2;
      i := i + 1;
    }
  }

  /** ImcntBits::toString: pushes one character per input, lowest first, onto a
      stack, then pops the stack into the string. */
  method ToString(p: ImcntBits) returns (str: string)
    ensures str == Render(p)
    ensures |str| == |p.ask|
    ensures forall r :: 0 <= r < |p.ask| ==> str[r] == CharAt(p, |p.ask| - 1 - r)
  {
    var stk: seq<char> := [];
    var t := p.bits;
    var i := 0;
    while i < |p.ask|
      invariant 0 <= i <= |p.ask| && |stk| == i && t == Shr(p.bits, i)
      invariant forall k :: 0 <= k < i ==> stk[k] == CharAt(p, k)
    {
      if p.ask[i] {
        stk := stk + ['-'];
      } else {
        stk := stk + [if t % 2 == 1 then '1' else '0'];
      }
      ShrStep(p.bits, i);
      t := t / 2;
      i := i + 1;
    }
    str := "";
    while stk != []
      invariant |str| + |stk| == |p.ask|
      invariant forall k :: 0 <= k < |stk| ==> stk[k] == CharAt(p, k)
      invariant forall r :: 0 <= r < |str| ==> str[r] == CharAt(p, |p.ask| - 1 - r)
    {
      str := str + [stk[|stk| - 1]];
      stk := stk[..|stk| - 1];
    }
  }

  // ---------------------------------------------------------------------------
  // Properties of the pattern operations.

  /** Distance 1 singles out exactly one unmasked position k where the base
      values differ, and the masks agree. */
  lemma DistanceOneAt(a: ImcntBits, b: ImcntBits) returns (k: nat)
    requires |a.ask| == |b.ask| && Distance(a, b) == 1
    ensures a.ask == b.ask
    ensures k < |a.ask| && !a.ask[k] && Bit(a.bits, k) != Bit(b.bits, k)
    ensures forall i :: 0 <= i < |a.ask| && i != k && !a.ask[i] ==> Bit(a.bits, i) == Bit(b.bits, i)
    ensures Differing(a, b) == {k}
  {
    var d := Differing(a, b);
    k :| k in d;
    assert |d - {k}| == 0;
    assert d == {k};
    forall i | 0 <= i < |a.ask| && i != k && !a.ask[i]
      ensures Bit(a.bits, i) == Bit(b.bits, i)
    {
      assert i !in d;
    }
  }

  /** hammingDist does not depend on the order of its operands. */
  lemma DistanceSymmetric(a: ImcntBits, b: ImcntBits)
    requires |a.ask| == |b.ask|
    ensures Distance(a, b) == Distance(b, a)
  {
    if a.ask == b.ask {
      forall i: nat
        ensures i in Differing(a, b) <==> i in Differing(b, a)
      {
      }
      assert Differing(a, b) == Differing(b, a);
    }
  }

  /** A masked position of the combined pattern is a masked position of the
      receiver or the one differing position; with distance 1 exactly one
      position is added. */
  lemma CombinedShape(a: ImcntBits, b: ImcntBits, k: nat)
    requires |a.ask| == |b.ask| && a.ask == b.ask
    requires k < |a.ask| && Differing(a, b) == {k}
    ensures Combined(a, b).ask == a.ask[k := true]
    ensures MaskCount(Combined(a, b).ask) == MaskCount(a.ask) + 1
  {
    var c := Combined(a, b).ask;
    forall i | 0 <= i < |a.ask|
      ensures c[i] == a.ask[k := true][i]
    {
      if i != k && !a.ask[i] {
        assert i !in Differing(a, b);
      }
    }
    assert k in Differing(a, b);
    MaskCountSet(a.ask, k);
  }

  lemma {:induction false} MaskCountSet(ask: seq<bool>, k: nat)
    requires k < |ask| && !ask[k]
    ensures MaskCount(ask[k := true]) == MaskCount(ask) + 1
  {
    if k > 0 {
      assert ask[k := true][1..] == ask[1..][k - 1 := true];
      MaskCountSet(ask[1..], k - 1);
    }
  }

  lemma {:induction false} MaskCountBound(ask: seq<bool>)
    ensures MaskCount(ask) <= |ask|
  {
    if ask != [] {
      MaskCountBound(ask[1..]);
    }
  }

  /** Merging two patterns at distance 1 yields the pattern that stands for
      exactly the rows of the two operands together. */
  lemma CombinedMatches(a: ImcntBits, b: ImcntBits, x: nat)
    requires |a.ask| == |b.ask| && Distance(a, b) == 1
    ensures Matches(Combined(a, b), x) <==> Matches(a, x) || Matches(b, x)
  {
    var k := DistanceOneAt(a, b);
    CombinedShape(a, b, k);
    var c := Combined(a, b);
    if Matches(c, x) && !Matches(a, x) {
      assert Bit(x, k) != Bit(a.bits, k);
      forall i | 0 <= i < |b.ask| && !b.ask[i]
        ensures Bit(x, i) == Bit(b.bits, i)
      {
        if i != k {
          assert !c.ask[i];
        }
      }
    }
  }

  /** For canonical patterns at distance 1, the bit counts differ by one and the
      pattern with fewer ones has a 0 at the differing position. */
  lemma AdjacentPopcount(a: ImcntBits, b: ImcntBits, k: nat)
    requires |a.ask| == |b.ask| && a.ask == b.ask && Canonical(a) && Canonical(b)
    requires k < |a.ask| && Differing(a, b) == {k}
    ensures Popcount(b.bits) + Bit(a.bits, k) == Popcount(a.bits) + Bit(b.bits, k)
    ensures Popcount(b.bits) == Popcount(a.bits) + 1 || Popcount(a.bits) == Popcount(b.bits) + 1
  {
    var w := |a.ask|;
    forall i | 0 <= i < w && i != k
      ensures Bit(a.bits, i) == Bit(b.bits, i)
    {
      if !a.ask[i] {
        assert i !in Differing(a, b);
      }
    }
    BitSumOneDiff(a.bits, b.bits, w, k);
    PopcountIsBitSum(a.bits, w);
    PopcountIsBitSum(b.bits, w);
    assert k in Differing(a, b);
  }

  /** Merging a canonical pattern with its distance-1 partner holding one more
      bit keeps the result canonical. */
  lemma CombinedCanonical(a: ImcntBits, b: ImcntBits)
    requires |a.ask| == |b.ask| && Canonical(a) && Canonical(b)
    requires Distance(a, b) == 1 && Popcount(b.bits) == Popcount(a.bits) + 1
    ensures Canonical(Combined(a, b))
    ensures MaskCount(Combined(a, b).ask) == MaskCount(a.ask) + 1
    ensures Popcount(Combined(a, b).bits) == Popcount(a.bits)
  {
    var k := DistanceOneAt(a, b);
    CombinedShape(a, b, k);
    AdjacentPopcount(a, b, k);
  }

  /** For canonical patterns, the popcount counts unmasked ones only, so it
      leaves room for the masked positions. */
  lemma {:induction false} PopcountRoom(p: ImcntBits)
    requires Canonical(p)
    ensures Popcount(p.bits) + MaskCount(p.ask) <= |p.ask|
  {
    PopcountIsBitSum(p.bits, |p.ask|);
    MaskedBitSum(p.bits, p.ask);
  }

  lemma {:induction false} MaskedBitSum(x: nat, ask: seq<bool>)
    requires forall i :: 0 <= i < |ask| && ask[i] ==> Bit(x, i) == 0
    ensures BitSum(x, |ask|) + MaskCount(ask) <= |ask|
  {
    if ask != [] {
      forall i | 0 <= i < |ask| - 1 && ask[1..][i]
        ensures Bit(x / 2, i) == 0
      {
        BitHalf(x, i);
      }
      MaskedBitSum(x / 2, ask[1..]);
      assert Bit(x, 0) == x % 2;
    }
  }

  /** For canonical patterns the rendered string is a faithful key: two patterns
      of one width render alike exactly when base value and mask coincide. */
  lemma RenderInjective(a: ImcntBits, b: ImcntBits)
    requires |a.ask| == |b.ask| && Canonical(a) && Canonical(b)
    ensures Render(a) == Render(b) <==> a == b
  {
    var w := |a.ask|;
    if Render(a) == Render(b) {
      forall i | 0 <= i < w
        ensures a.ask[i] == b.ask[i] && Bit(a.bits, i) == Bit(b.bits, i)
      {
        assert Render(a)[w - 1 - i] == CharAt(a, i);
        assert Render(b)[w - 1 - i] == CharAt(b, i);
      }
      BitsDetermine(a.bits, b.bits, w);
      assert a.ask == b.ask;
    }
  }

  /** The rendered string gives back the rows a pattern stands for: a row
      matches exactly when each rendered character is '-' or its own digit. */
  lemma RenderMatches(p: ImcntBits, x: nat)
    requires x < Pow2(|p.ask|)
    ensures Matches(p, x) <==>
      forall r :: 0 <= r < |p.ask| ==> Render(p)[r] == '-' || Render(p)[r] == Digit(Bit(x, |p.ask| - 1 - r))
  {
    var w := |p.ask|;
    if forall r :: 0 <= r < w ==> Render(p)[r] == '-' || Render(p)[r] == Digit(Bit(x, w - 1 - r)) {
      forall i | 0 <= i < w && !p.ask[i]
        ensures Bit(x, i) == Bit(p.bits, i)
      {
        assert Render(p)[w - 1 - i] == CharAt(p, i);
      }
    }
    if Matches(p, x) {
      forall r | 0 <= r < w
        ensures Render(p)[r] == '-' || Render(p)[r] == Digit(Bit(x, w - 1 - r))
      {
        assert Render(p)[r] == CharAt(p, w - 1 - r);
      }
    }
  }

  /** The merge is symmetric up to rendering: both argument orders give the same
      ternary term (the base values may differ, but only under the new mask). */
  lemma CombinedSymmetric(a: ImcntBits, b: ImcntBits)
    requires |a.ask| == |b.ask| && Distance(a, b) == 1
    ensures Render(Combined(a, b)) == Render(Combined(b, a))
    ensures Combined(a, b).ask == Combined(b, a).ask
  {
    var k := DistanceOneAt(a, b);
    assert Differing(b, a) == Differing(a, b);
    CombinedShape(a, b, k);
    CombinedShape(b, a, k);
    var w := |a.ask|;
    forall r | 0 <= r < w
      ensures Render(Combined(a, b))[r] == Render(Combined(b, a))[r]
    {
      var i := w - 1 - r;
      assert Render(Combined(a, b))[r] == CharAt(Combined(a, b), i);
      assert Render(Combined(b, a))[r] == CharAt(Combined(b, a), i);
      if i != k && !a.ask[i] {
        assert i !in Differing(a, b);
      }
    }
  }
}
