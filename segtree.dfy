/** MaxSegment: a segment tree kept in one array, node i having children
    2i + 1 and 2i + 2, in which every inner node holds the larger of its two
    children (the right one on ties). Leaves are described by a ghost
    sequence: Holds says the array is the tree of those leaves. */
module Segment {

  /** segNode: a value and the vertex it belongs to; default-constructed as
      (-1, -1). */
  datatype SegNode = SegNode(value: int, idx: int)

  const Default := SegNode(-1, -1)

  /** segNode's operator+: the values add up, the left operand's idx stays. */
  function Add(a: SegNode, b: SegNode): SegNode
  {
    SegNode(a.value + b.value, a.idx)
  }

  /** max: a when its value is strictly larger, b otherwise. */
  function Max(a: SegNode, b: SegNode): (r: SegNode)
    ensures r == a || r == b
    ensures r.value >= a.value && r.value >= b.value
    ensures a.value == b.value ==> r == b
  {
    if a.value > b.value then a else b
  }

  function LeftChild(i: nat): (r: nat)
    ensures r > i && (r - 1) / 2 == i
  {
    (i + 1) * 2 - 1
  }

  function RightChild(i: nat): (r: nat)
    ensures r == LeftChild(i) + 1 && (r - 1) / 2 == i
  {
    (i + 1) * 2
  }

  /** isRange: the query range s .. e meets the node range ns .. ne. */
  predicate IsRange(s: int, e: int, ns: int, ne: int)
  {
    !(ns > e || ne < s)
  }

  lemma IsRangeMeaning(s: int, e: int, ns: int, ne: int)
    requires s <= e && ns <= ne
    ensures IsRange(s, e, ns, ne) <==> (if s < ns then ns else s) <= (if e < ne then e else ne)
  {
  }

  /** Every node of the subtree at node over leaves ns .. ne lies inside an
      array of length len. */
  predicate Shape(len: nat, node: nat, ns: nat, ne: nat)
    requires ns <= ne
    decreases ne - ns
  {
    && node < len
    && (ns < ne ==>
          var mid := (ns + ne) / 2;
          Shape(len, LeftChild(node), ns, mid) && Shape(len, RightChild(node), mid + 1, ne))
  }

  /** The subtree at node over leaves ns .. ne is the max tree of lv: every
      leaf holds its entry of lv, every inner node the max of its children. */
  ghost predicate Holds(s: seq<SegNode>, lv: seq<SegNode>, node: nat, ns: nat, ne: nat)
    requires ns <= ne < |lv| && Shape(|s|, node, ns, ne)
    decreases ne - ns
  {
    if ns == ne then s[node] == lv[ns]
    else
      var mid := (ns + ne) / 2;
      && Holds(s, lv, LeftChild(node), ns, mid)
      && Holds(s, lv, RightChild(node), mid + 1, ne)
      && s[node] == Max(s[LeftChild(node)], s[RightChild(node)])
  }

  /** lv with leaf s set to x; a leaf outside lv changes nothing. */
  ghost function Put(lv: seq<SegNode>, s: int, x: SegNode): seq<SegNode>
  {
    if 0 <= s < |lv| then lv[s := x] else lv
  }

  /** lv with x added to leaf s; a leaf outside lv changes nothing. */
  ghost function PutAdd(lv: seq<SegNode>, s: int, x: SegNode): seq<SegNode>
  {
    if 0 <= s < |lv| then lv[s := Add(lv[s], x)] else lv
  }

  /** k is node or lies below it: walking up from k through parents (k - 1) / 2
      reaches node. */
  predicate InTree(k: nat, node: nat)
    decreases k
  {
    k == node || (k > node && InTree((k - 1) / 2, node))
  }

  lemma {:induction false} InTreeAbove(k: nat, node: nat)
    requires InTree(k, node)
    ensures node <= k
  {
  }

  lemma {:induction false} InTreeChild(k: nat, node: nat)
    ensures InTree(k, LeftChild(node)) ==> InTree(k, node)
    ensures InTree(k, RightChild(node)) ==> InTree(k, node)
    decreases k
  {
    if k > LeftChild(node) {
      InTreeChild((k - 1) / 2, node);
    }
  }

  /** Two nodes above the same k lie on one path. */
  lemma {:induction false} InTreeChain(k: nat, a: nat, b: nat)
    requires InTree(k, a) && InTree(k, b) && a <= b
    ensures InTree(b, a)
    decreases k
  {
    if k != b {
      InTreeChain((k - 1) / 2, a, b);
    }
  }

  /** The two subtrees of a node share no node, and neither holds the node. */
  lemma ChildrenApart(k: nat, node: nat)
    ensures !(InTree(k, LeftChild(node)) && InTree(k, RightChild(node)))
    ensures !InTree(node, LeftChild(node)) && !InTree(node, RightChild(node))
  {
    if InTree(k, LeftChild(node)) && InTree(k, RightChild(node)) {
      InTreeChain(k, LeftChild(node), RightChild(node));
      assert false;
    }
  }

  /** Holds reads only the nodes of the subtree. */
  lemma {:induction false} HoldsFrame(s: seq<SegNode>, s': seq<SegNode>, lv: seq<SegNode>, node: nat, ns: nat, ne: nat)
    requires ns <= ne < |lv| && |s'| == |s| && Shape(|s|, node, ns, ne)
    requires forall k :: 0 <= k < |s| && InTree(k, node) ==> s'[k] == s[k]
    requires Holds(s, lv, node, ns, ne)
    ensures Holds(s', lv, node, ns, ne)
    decreases ne - ns
  {
    if ns < ne {
      var mid := (ns + ne) / 2;
      forall k | 0 <= k < |s| && (InTree(k, LeftChild(node)) || InTree(k, RightChild(node)))
        ensures s'[k] == s[k]
      {
        InTreeChild(k, node);
      }
      HoldsFrame(s, s', lv, LeftChild(node), ns, mid);
      HoldsFrame(s, s', lv, RightChild(node), mid + 1, ne);
    }
  }

  /** Holds reads only the leaves ns .. ne. */
  lemma {:induction false} HoldsLeaves(s: seq<SegNode>, lv: seq<SegNode>, lv': seq<SegNode>, node: nat, ns: nat, ne: nat)
    requires ns <= ne < |lv| && |lv'| == |lv| && Shape(|s|, node, ns, ne)
    requires forall k :: ns <= k <= ne ==> lv'[k] == lv[k]
    requires Holds(s, lv, node, ns, ne)
    ensures Holds(s, lv', node, ns, ne)
    decreases ne - ns
  {
    if ns < ne {
      var mid := (ns + ne) / 2;
      HoldsLeaves(s, lv, lv', LeftChild(node), ns, mid);
      HoldsLeaves(s, lv, lv', RightChild(node), mid + 1, ne);
    }
  }

  lemma MulLe(a: nat, b: nat, c: nat)
    requires a <= b
    ensures a * c <= b * c
  {
  }

  /** Halving a range at twice the span costs no more than the whole range. */
  lemma HalfSpan(h: nat, d: nat, span: nat)
    requires 2 * h <= d
    ensures h * (2 * span) <= d * span
  {
    assert h * (2 * span) == (2 * h) * span;
    MulLe(2 * h, d, span);
  }

  /** The array of 4 * size nodes is large enough: at depth d (span = 2^d)
      node is below 2 * span - 1, and a node exists there only while
      span < 2 * size. */
  lemma {:induction false} ShapeFits(size: nat, node: nat, ns: nat, ne: nat, span: nat)
    requires ns <= ne < size
    requires span >= 1 && node + 1 < 2 * span
    requires (ne - ns) * span < size && (span == 1 || span < 2 * size)
    ensures Shape(4 * size, node, ns, ne)
    decreases ne - ns
  {
    if ns < ne {
      var mid := (ns + ne) / 2;
      var d := ne - ns;
      HalfSpan(mid - ns, d, span);
      HalfSpan(ne - mid - 1, d, span);
      MulLe(1, d, span);
      ShapeFits(size, LeftChild(node), ns, mid, 2 * span);
      ShapeFits(size, RightChild(node), mid + 1, ne, 2 * span);
    }
  }

  /** A tree of default nodes is the max tree of default leaves. */
  lemma {:induction false} DefaultHolds(s: seq<SegNode>, lv: seq<SegNode>, node: nat, ns: nat, ne: nat)
    requires ns <= ne < |lv| && Shape(|s|, node, ns, ne)
    requires forall k :: 0 <= k < |s| ==> s[k] == Default
    requires forall k :: 0 <= k < |lv| ==> lv[k] == Default
    ensures Holds(s, lv, node, ns, ne)
    decreases ne - ns
  {
    if ns < ne {
      var mid := (ns + ne) / 2;
      DefaultHolds(s, lv, LeftChild(node), ns, mid);
      DefaultHolds(s, lv, RightChild(node), mid + 1, ne);
    }
  }

  function Larger(a: int, b: int): int
  {
    if a < b then b else a
  }

  function Smaller(a: int, b: int): int
  {
    if a < b then a else b
  }

  /** Leaf k has the largest value of lo .. hi, and every later leaf of the
      range a smaller one. */
  ghost predicate Peak(lv: seq<SegNode>, lo: int, hi: int, k: int)
  {
    && lo <= k <= hi && 0 <= k < |lv|
    && (forall j :: lo <= j <= hi && 0 <= j < |lv| ==> lv[j].value <= lv[k].value)
    && (forall j :: k < j <= hi && 0 <= j < |lv| ==> lv[j].value < lv[k].value)
  }

  /** The peaks of two adjacent ranges give the peak of both: max keeps the
      right one unless the left one is strictly larger. */
  lemma PeakJoin(lv: seq<SegNode>, lo: int, mid: int, hi: int, kL: int, kR: int) returns (k: int)
    requires Peak(lv, lo, mid, kL) && Peak(lv, mid + 1, hi, kR)
    ensures Peak(lv, lo, hi, k) && lv[k] == Max(lv[kL], lv[kR])
  {
    k := if lv[kL].value > lv[kR].value then kL else kR;
  }

  class MaxSegment {
    var seg: array<SegNode>

    /** MaxSegment(size): 4 * size default nodes, which is the max tree of
        size default leaves. */
    constructor (size: nat)
      ensures fresh(seg) && seg.Length == 4 * size
      ensures forall k :: 0 <= k < seg.Length ==> seg[k] == Default
      ensures size > 0 ==> Shape(seg.Length, 0, 0, size - 1)
      ensures size > 0 ==> Holds(seg[..], seq(size, _ => Default), 0, 0, size - 1)
    {
      seg := new SegNode[4 * size](_ => Default);
      new;
      if size > 0 {
        ShapeFits(size, 0, 0, size - 1, 1);
        DefaultHolds(seg[..], seq(size, _ => Default), 0, 0, size - 1);
      }
    }

    /** The subtrees of node's children take the new root value without
        change. */
    lemma Relink(s: seq<SegNode>, lv: seq<SegNode>, node: nat, ns: nat, ne: nat)
      requires ns < ne < |lv| && Shape(|s|, node, ns, ne)
      requires Holds(s, lv, LeftChild(node), ns, (ns + ne) / 2)
      requires Holds(s, lv, RightChild(node), (ns + ne) / 2 + 1, ne)
      ensures Holds(s[node := Max(s[LeftChild(node)], s[RightChild(node)])], lv, node, ns, ne)
    {
      var mid := (ns + ne) / 2;
      var s' := s[node := Max(s[LeftChild(node)], s[RightChild(node)])];
      forall k | 0 <= k < |s|
        ensures InTree(k, LeftChild(node)) ==> s'[k] == s[k]
        ensures InTree(k, RightChild(node)) ==> s'[k] == s[k]
      {
        ChildrenApart(k, node);
      }
      HoldsFrame(s, s', lv, LeftChild(node), ns, mid);
      HoldsFrame(s, s', lv, RightChild(node), mid + 1, ne);
    }

    /** What a call on the left subtree leaves of the right one, and the
        reverse. */
    lemma Sibling(s: seq<SegNode>, s': seq<SegNode>, lv: seq<SegNode>, node: nat, changed: nat, kept: nat, ns: nat, ne: nat)
      requires (changed == LeftChild(node) && kept == RightChild(node)) || (changed == RightChild(node) && kept == LeftChild(node))
      requires ns <= ne < |lv| && |s'| == |s| && Shape(|s|, kept, ns, ne)
      requires forall k :: 0 <= k < |s| && !InTree(k, changed) ==> s'[k] == s[k]
      requires Holds(s, lv, kept, ns, ne)
      ensures Holds(s', lv, kept, ns, ne)
      ensures forall k :: 0 <= k < |s| && !InTree(k, node) ==> s'[k] == s[k]
    {
      forall k | 0 <= k < |s| && InTree(k, kept)
        ensures s'[k] == s[k]
      {
        ChildrenApart(k, node);
      }
      forall k | 0 <= k < |s| && InTree(k, changed)
        ensures InTree(k, node)
      {
        InTreeChild(k, node);
      }
      HoldsFrame(s, s', lv, kept, ns, ne);
    }

    /** setValue: leaf s of the subtree becomes v, and the max tree is
        restored on the way up; nodes outside the subtree stay. */
    method SetValue(idx: nat, s: int, ns: nat, ne: nat, v: SegNode, ghost lv: seq<SegNode>)
      requires ns <= ne < |lv| && Shape(seg.Length, idx, ns, ne)
      requires Holds(seg[..], lv, idx, ns, ne)
      modifies seg
      ensures Holds(seg[..], Put(lv, s, v), idx, ns, ne)
      ensures forall k :: 0 <= k < seg.Length && !InTree(k, idx) ==> seg[k] == old(seg[k])
      decreases ne - ns, 1
    {
      if s < ns || s > ne {
        HoldsLeaves(seg[..], lv, Put(lv, s, v), idx, ns, ne);
      } else if ns == ne {
        seg[idx] := v;
      } else {
        SetValueInner(idx, s, ns, ne, v, lv);
      }
    }

    /** SetValue at an inner node whose range holds leaf s: both children in
        turn, then the node takes the max of the two. */
    method SetValueInner(idx: nat, s: int, ns: nat, ne: nat, v: SegNode, ghost lv: seq<SegNode>)
      requires ns < ne < |lv| && Shape(seg.Length, idx, ns, ne)
      requires Holds(seg[..], lv, idx, ns, ne)
      modifies seg
      ensures Holds(seg[..], Put(lv, s, v), idx, ns, ne)
      ensures forall k :: 0 <= k < seg.Length && !InTree(k, idx) ==> seg[k] == old(seg[k])
      decreases ne - ns, 0
    {
      var mid := (ns + ne) / 2;
      ghost var lv' := Put(lv, s, v);
      ghost var s0 := seg[..];
      SetValue(LeftChild(idx), s, ns, mid, v, lv);
      Sibling(s0, seg[..], lv, idx, LeftChild(idx), RightChild(idx), mid + 1, ne);
      ghost var s1 := seg[..];
      SetValue(RightChild(idx), s, mid + 1, ne, v, lv);
      Sibling(s1, seg[..], lv', idx, RightChild(idx), LeftChild(idx), ns, mid);
      Relink(seg[..], lv', idx, ns, ne);
      seg[idx] := Max(seg[LeftChild(idx)], seg[RightChild(idx)]);
    }

    /** update: v is added to leaf s of the subtree (its idx kept), and the
        max tree is restored on the way up; nodes outside the subtree stay. */
    method Update(idx: nat, s: int, ns: nat, ne: nat, v: SegNode, ghost lv: seq<SegNode>)
      requires ns <= ne < |lv| && Shape(seg.Length, idx, ns, ne)
      requires Holds(seg[..], lv, idx, ns, ne)
      modifies seg
      ensures Holds(seg[..], PutAdd(lv, s, v), idx, ns, ne)
      ensures forall k :: 0 <= k < seg.Length && !InTree(k, idx) ==> seg[k] == old(seg[k])
      decreases ne - ns, 1
    {
      if s < ns || s > ne {
        HoldsLeaves(seg[..], lv, PutAdd(lv, s, v), idx, ns, ne);
      } else if ns == ne {
        seg[idx] := Add(seg[idx], v);
      } else {
        UpdateInner(idx, s, ns, ne, v, lv);
      }
    }

    /** Update at an inner node whose range holds leaf s: both children in
        turn, then the node takes the max of the two. */
    method UpdateInner(idx: nat, s: int, ns: nat, ne: nat, v: SegNode, ghost lv: seq<SegNode>)
      requires ns < ne < |lv| && Shape(seg.Length, idx, ns, ne)
      requires Holds(seg[..], lv, idx, ns, ne)
      modifies seg
      ensures Holds(seg[..], PutAdd(lv, s, v), idx, ns, ne)
      ensures forall k :: 0 <= k < seg.Length && !InTree(k, idx) ==> seg[k] == old(seg[k])
      decreases ne - ns, 0
    {
      var mid := (ns + ne) / 2;
      ghost var lv' := PutAdd(lv, s, v);
      ghost var s0 := seg[..];
      Update(LeftChild(idx), s, ns, mid, v, lv);
      Sibling(s0, seg[..], lv, idx, LeftChild(idx), RightChild(idx), mid + 1, ne);
      ghost var s1 := seg[..];
      Update(RightChild(idx), s, mid + 1, ne, v, lv);
      Sibling(s1, seg[..], lv', idx, RightChild(idx), LeftChild(idx), ns, mid);
      Relink(seg[..], lv', idx, ns, ne);
      seg[idx] := Max(seg[LeftChild(idx)], seg[RightChild(idx)]);
    }

    /** query: the max of the nodes covering s .. e inside ns .. ne, taken
        left to right. */
    function Query(idx: nat, s: int, e: int, ns: nat, ne: nat): SegNode
      reads this, seg
      requires s <= e && ns <= ne && Shape(seg.Length, idx, ns, ne) && IsRange(s, e, ns, ne)
      decreases ne - ns
    {
      if s <= ns && ne <= e then seg[idx]
      else
        var mid := (ns + ne) / 2;
        if IsRange(s, e, ns, mid) then
          var ret := Query(LeftChild(idx), s, e, ns, mid);
          if IsRange(s, e, mid + 1, ne) then Max(ret, Query(RightChild(idx), s, e, mid + 1, ne)) else ret
        else
          Query(RightChild(idx), s, e, mid + 1, ne)
    }

    /** A query answers with the leaf k of s .. e (clipped to ns .. ne) that
        has the largest value, the rightmost one among equals. */
    lemma {:induction false} QueryMax(lv: seq<SegNode>, idx: nat, s: int, e: int, ns: nat, ne: nat) returns (k: nat)
      requires s <= e && ns <= ne < |lv| && Shape(seg.Length, idx, ns, ne) && IsRange(s, e, ns, ne)
      requires Holds(seg[..], lv, idx, ns, ne)
      ensures Peak(lv, Larger(s, ns), Smaller(e, ne), k)
      ensures Query(idx, s, e, ns, ne) == lv[k]
      decreases ne - ns, 1
    {
      if ns == ne {
        k := ns;
        return;
      }
      var mid := (ns + ne) / 2;
      var inL, inR := IsRange(s, e, ns, mid), IsRange(s, e, mid + 1, ne);
      if inL && inR {
        k := QueryBoth(lv, idx, s, e, ns, ne);
      } else if inL {
        k := QueryMax(lv, LeftChild(idx), s, e, ns, mid);
      } else {
        k := QueryMax(lv, RightChild(idx), s, e, mid + 1, ne);
      }
    }

    /** QueryMax when s .. e meets both halves of ns .. ne. */
    lemma {:induction false} QueryBoth(lv: seq<SegNode>, idx: nat, s: int, e: int, ns: nat, ne: nat) returns (k: nat)
      requires s <= e && ns < ne < |lv| && Shape(seg.Length, idx, ns, ne)
      requires IsRange(s, e, ns, (ns + ne) / 2) && IsRange(s, e, (ns + ne) / 2 + 1, ne)
      requires Holds(seg[..], lv, idx, ns, ne)
      ensures Peak(lv, Larger(s, ns), Smaller(e, ne), k)
      ensures Query(idx, s, e, ns, ne) == lv[k]
      decreases ne - ns, 0
    {
      var mid := (ns + ne) / 2;
      var L, R := LeftChild(idx), RightChild(idx);
      var kL := QueryMax(lv, L, s, e, ns, mid);
      var kR := QueryMax(lv, R, s, e, mid + 1, ne);
      if s <= ns && ne <= e {
        assert Query(L, s, e, ns, mid) == seg[L];
        assert Query(R, s, e, mid + 1, ne) == seg[R];
      }
      k := PeakJoin(lv, Larger(s, ns), mid, Smaller(e, ne), kL, kR);
    }
  }
}
