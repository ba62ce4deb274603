/**
  The view engine: per-dimension transforms for an index (`Pick`) and a
  range (`Range`) selector, and their left-to-right fold over a selector
  list.  Each transform rewrites one extent and one stride of the new
  descriptor `ns` from the source descriptor `os` and returns its
  contribution to the new base offset; the fold returns the summed
  contribution and sets neither `start` nor `size` of `ns`.
*/
module Slicing {
  import opened Options
  import opened Arith
  import opened Geometry
  import opened Selectors

  /** Number of positions a range keeps in a dimension of extent `e`. */
  function RangeExtent(s: Slice, e: nat): nat
    requires s.length.None? ==> s.stride > 0 && s.start <= e
  {
    match s.length
    case Some(l) => l
    case None => (e - s.start + s.stride - 1) / s.stride
  }

  /** Source position of the `t`-th position kept by a range. */
  function SourcePos(s: Slice, t: nat): nat
  {
    s.start + s.stride * t
  }

  /**
    The ceiling division keeps exactly the positions reachable from `start`
    in steps of `stride` that stay below the extent.
  */
  lemma RangeToEnd(s: Slice, e: nat)
    requires s.length.None? && s.stride > 0 && s.start <= e
    ensures forall t: nat :: t < RangeExtent(s, e) <==> SourcePos(s, t) < e
  {
    forall t: nat
      ensures t < RangeExtent(s, e) <==> SourcePos(s, t) < e
    {
      CeilStep(e - s.start, s.stride, t);
    }
  }

  lemma CeilStep(d: nat, st: nat, t: nat)
    requires st > 0
    ensures t < (d + st - 1) / st <==> st * t < d
  {
    var q := (d + st - 1) / st;
    var r := (d + st - 1) % st;
    assert d + st - 1 == st * q + r && 0 <= r < st;
    if t < q {
      assert st * (t + 1) <= st * q by { MulLeftMono(st, t + 1, q); }
    } else {
      assert st * q <= st * t by { MulLeftMono(st, q, t); }
    }
  }

  /** The selector can be applied to dimension `i` of `os`: `matrix_impl.hpp` has an overload and divides safely. */
  predicate Applicable(os: MatrixSlice, sel: Selector, i: nat)
    requires i < os.Rank()
  {
    match sel
    case Pick(_) => true
    case Range(s) => s.length.None? ==> s.stride > 0 && s.start <= os.extents[i]
    case Unsupported => false
  }

  /** The extent a selector gives dimension `i`: a pick keeps one position. */
  function NewExtent(os: MatrixSlice, sel: Selector, i: nat): nat
    requires i < os.Rank() && Applicable(os, sel, i)
  {
    match sel
    case Pick(_) => 1
    case Range(s) => RangeExtent(s, os.extents[i])
  }

  /** The stride a selector gives dimension `i`: a pick keeps the source stride. */
  function NewStride(os: MatrixSlice, sel: Selector, i: nat): nat
    requires os.WellFormed() && i < os.Rank() && Applicable(os, sel, i)
  {
    match sel
    case Pick(_) => os.strides[i]
    case Range(s) => s.stride * os.strides[i]
  }

  /** First source position a selector addresses in its dimension. */
  function Origin(sel: Selector): nat
  {
    match sel
    case Pick(v) => v
    case Range(s) => s.start
    case Unsupported => 0
  }

  function Origins(sels: seq<Selector>): seq<nat>
  {
    seq(|sels|, k requires 0 <= k < |sels| => Origin(sels[k]))
  }

  predicate SameRank(os: MatrixSlice, ns: MatrixSlice)
  {
    os.WellFormed() && ns.WellFormed() && ns.Rank() == os.Rank()
  }

  lemma Distrib(a: nat, b: nat, t: nat, S: nat)
    ensures a * S + t * (b * S) == (a + b * t) * S
  {
    calc {
      (a + b * t) * S;
      a * S + (b * t) * S;
      a * S + t * (b * S);
    }
  }

  /**
    `do_slice_dim`: applies one selector to dimension `N - NRest`.  A pick
    keeps the rank, sets that extent to 1 and keeps the stride; a range
    scales the stride by its step and keeps `length` positions, or every
    reachable one when the length is open.  The returned contribution plus
    `t` new strides addresses the source position the `t`-th kept position
    stands for; nothing else in `ns` changes.
  */
  function DoSliceDim(os: MatrixSlice, ns: MatrixSlice, sel: Selector, NRest: nat): (r: (MatrixSlice, nat))
    requires SameRank(os, ns)
    requires 1 <= NRest <= os.Rank()
    requires Applicable(os, sel, os.Rank() - NRest)
    ensures SameRank(os, r.0)
    ensures r.0.start == ns.start && r.0.size == ns.size
    ensures forall k :: 0 <= k < os.Rank() && k != os.Rank() - NRest ==>
              r.0.extents[k] == ns.extents[k] && r.0.strides[k] == ns.strides[k]
    ensures r.0.extents[os.Rank() - NRest] == NewExtent(os, sel, os.Rank() - NRest)
    ensures r.0.strides[os.Rank() - NRest] == NewStride(os, sel, os.Rank() - NRest)
    ensures r.1 == Origin(sel) * os.strides[os.Rank() - NRest]
    ensures sel.Range? ==>
              forall t :: 0 <= t < r.0.extents[os.Rank() - NRest] ==>
                r.1 + t * r.0.strides[os.Rank() - NRest] == SourcePos(sel.slice, t) * os.strides[os.Rank() - NRest]
    ensures sel.Range? && sel.slice.length.None? ==>
              forall t: nat :: t < r.0.extents[os.Rank() - NRest] <==> SourcePos(sel.slice, t) < os.extents[os.Rank() - NRest]
  {
    var i := os.Rank() - NRest;
    match sel
    case Pick(s) =>
      var ns' := ns.(strides := ns.strides[i := os.strides[i]], extents := ns.extents[i := 1]);
      (ns', s * ns'.strides[i])
    case Range(s) =>
      RangeAddressing(os, s, i);
      var ns' := ns.(strides := ns.strides[i := s.stride * os.strides[i]],
                     extents := ns.extents[i := RangeExtent(s, os.extents[i])]);
      (ns', s.start * os.strides[i])
  }

  lemma RangeAddressing(os: MatrixSlice, s: Slice, i: nat)
    requires os.WellFormed() && i < os.Rank()
    requires s.length.None? ==> s.stride > 0 && s.start <= os.extents[i]
    ensures forall t :: 0 <= t < RangeExtent(s, os.extents[i]) ==>
              s.start * os.strides[i] + t * (s.stride * os.strides[i]) == SourcePos(s, t) * os.strides[i]
    ensures s.length.None? ==> forall t: nat :: t < RangeExtent(s, os.extents[i]) <==> SourcePos(s, t) < os.extents[i]
  {
    forall t | 0 <= t < RangeExtent(s, os.extents[i])
      ensures s.start * os.strides[i] + t * (s.stride * os.strides[i]) == SourcePos(s, t) * os.strides[i]
    {
      Distrib(s.start, s.stride, t, os.strides[i]);
    }
    if s.length.None? {
      RangeToEnd(s, os.extents[i]);
    }
  }

  /**
    `do_slice_dim2`: the range transform with the remaining-selector count
    given at run time; it agrees with the range case of `DoSliceDim`.
  */
  function DoSliceDim2(os: MatrixSlice, ns: MatrixSlice, s: Slice, NRest: nat): (r: (MatrixSlice, nat))
    requires SameRank(os, ns)
    requires 1 <= NRest <= os.Rank()
    requires s.length.None? ==> s.stride > 0 && s.start <= os.extents[os.Rank() - NRest]
    ensures r == DoSliceDim(os, ns, Range(s), NRest)
  {
    var i := os.Rank() - NRest;
    var ns' := ns.(strides := ns.strides[i := s.stride * os.strides[i]],
                   extents := ns.extents[i := match s.length
                                             case Some(l) => l
                                             case None => (os.extents[i] - s.start + s.stride - 1) / s.stride]);
    (ns', s.start * os.strides[i])
  }

  /** Every selector of the list applies to the dimension the fold assigns it. */
  predicate AllApplicable(os: MatrixSlice, sels: seq<Selector>)
    requires |sels| <= os.Rank()
  {
    forall j :: 0 <= j < |sels| ==> Applicable(os, sels[j], os.Rank() - |sels| + j)
  }

  /**
    `do_slice`: folds the selectors left to right, selector `j` of `K`
    writing dimension `N - K + j`; with `K < N` the leading dimensions keep
    the values of `ns`.  Returns the sum of the contributions, which is the
    dot product of the selectors' first positions with the strides of the
    dimensions they select; `start` and `size` of `ns` are not set.
  */
  function DoSlice(os: MatrixSlice, ns: MatrixSlice, sels: seq<Selector>): (r: (MatrixSlice, nat))
    requires SameRank(os, ns)
    requires |sels| <= os.Rank()
    requires AllApplicable(os, sels)
    ensures SameRank(os, r.0)
    ensures r.0.start == ns.start && r.0.size == ns.size
    ensures Kept(ns, r.0, os.Rank() - |sels|)
    ensures Written(os, sels, r.0)
    ensures r.1 == Dot(Origins(sels), os.strides[os.Rank() - |sels|..])
    decreases |sels|
  {
    if |sels| == 0 then
      (ns, 0)
    else
      var N := os.Rank();
      var K := |sels|;
      assert Applicable(os, sels[0], N - K + 0);
      var step := DoSliceDim(os, ns, sels[0], K);
      assert AllApplicable(os, sels[1..]) by {
        forall j | 0 <= j < K - 1
          ensures Applicable(os, sels[1..][j], N - (K - 1) + j)
        {
          assert sels[1..][j] == sels[j + 1];
          assert Applicable(os, sels[j + 1], N - K + (j + 1));
        }
      }
      var rest := DoSlice(os, step.0, sels[1..]);
      FoldDims(os, ns, sels, step.0, rest.0);
      FoldSum(os, sels, step.1, rest.1);
      (rest.0, step.1 + rest.1)
  }

  /** Dimensions below `b` of `v` are those of `ns`. */
  predicate Kept(ns: MatrixSlice, v: MatrixSlice, b: nat)
    requires ns.WellFormed() && v.WellFormed() && b <= ns.Rank() <= v.Rank()
  {
    forall k :: 0 <= k < b ==> v.extents[k] == ns.extents[k] && v.strides[k] == ns.strides[k]
  }

  /** Of `K` selectors, selector `j` alone determines dimension `N - K + j` of `v`. */
  predicate Written(os: MatrixSlice, sels: seq<Selector>, v: MatrixSlice)
    requires SameRank(os, v) && |sels| <= os.Rank() && AllApplicable(os, sels)
  {
    forall j :: 0 <= j < |sels| ==>
      v.extents[os.Rank() - |sels| + j] == NewExtent(os, sels[j], os.Rank() - |sels| + j) &&
      v.strides[os.Rank() - |sels| + j] == NewStride(os, sels[j], os.Rank() - |sels| + j)
  }

  /** One step of the fold keeps the per-dimension outcome of `DoSlice`. */
  lemma FoldDims(os: MatrixSlice, ns: MatrixSlice, sels: seq<Selector>, mid: MatrixSlice, last: MatrixSlice)
    requires SameRank(os, ns) && SameRank(os, mid) && SameRank(os, last)
    requires 0 < |sels| <= os.Rank() && AllApplicable(os, sels)
    requires forall k :: 0 <= k < os.Rank() && k != os.Rank() - |sels| ==>
               mid.extents[k] == ns.extents[k] && mid.strides[k] == ns.strides[k]
    requires mid.extents[os.Rank() - |sels|] == NewExtent(os, sels[0], os.Rank() - |sels|)
    requires mid.strides[os.Rank() - |sels|] == NewStride(os, sels[0], os.Rank() - |sels|)
    requires Kept(mid, last, os.Rank() - (|sels| - 1))
    requires AllApplicable(os, sels[1..]) && Written(os, sels[1..], last)
    ensures Kept(ns, last, os.Rank() - |sels|)
    ensures Written(os, sels, last)
  {
  }

  /** One step of the fold adds the head selector's term to the dot product of the rest. */
  lemma FoldSum(os: MatrixSlice, sels: seq<Selector>, m: nat, n: nat)
    requires os.WellFormed() && 0 < |sels| <= os.Rank()
    requires m == Origin(sels[0]) * os.strides[os.Rank() - |sels|]
    requires n == Dot(Origins(sels[1..]), os.strides[os.Rank() - (|sels| - 1)..])
    ensures m + n == Dot(Origins(sels), os.strides[os.Rank() - |sels|..])
  {
    var b := os.Rank() - |sels|;
    assert Origins(sels)[1..] == Origins(sels[1..]);
    assert os.strides[b..][1..] == os.strides[b + 1..];
  }

  /** With one selector per dimension, selector `k` alone determines dimension `k`. */
  lemma DoSliceFull(os: MatrixSlice, ns: MatrixSlice, sels: seq<Selector>)
    requires SameRank(os, ns) && |sels| == os.Rank() && AllApplicable(os, sels)
    ensures forall k :: 0 <= k < |sels| ==> Applicable(os, sels[k], k)
    ensures forall k :: 0 <= k < |sels| ==>
              DoSlice(os, ns, sels).0.extents[k] == NewExtent(os, sels[k], k) &&
              DoSlice(os, ns, sels).0.strides[k] == NewStride(os, sels[k], k)
    ensures DoSlice(os, ns, sels).1 == Dot(Origins(sels), os.strides)
  {
  }

  /** Source coordinate addressed by view coordinate `t`: a pick's index, or a range's `t`-th position. */
  function SourceCoord(sel: Selector, t: nat): nat
  {
    match sel
    case Pick(v) => v
    case Range(s) => SourcePos(s, t)
    case Unsupported => 0
  }

  function SourceIndex(sels: seq<Selector>, idx: seq<nat>): (src: seq<nat>)
    requires |idx| == |sels|
    ensures |src| == |sels|
  {
    seq(|sels|, k requires 0 <= k < |sels| => SourceCoord(sels[k], idx[k]))
  }

  /**
    With one selector per dimension, the view's base offset plus its
    strides address, for every index inside the view's extents, the source
    element at `SourceIndex`.
  */
  lemma SliceAddressing(os: MatrixSlice, ns: MatrixSlice, sels: seq<Selector>, idx: seq<nat>)
    requires SameRank(os, ns) && |sels| == os.Rank() && AllApplicable(os, sels)
    requires InBounds(idx, DoSlice(os, ns, sels).0.extents)
    ensures os.start + DoSlice(os, ns, sels).1 + Dot(idx, DoSlice(os, ns, sels).0.strides)
            == Offset(os, SourceIndex(sels, idx))
  {
    var r := DoSlice(os, ns, sels);
    DoSliceFull(os, ns, sels);
    var src := SourceIndex(sels, idx);
    var org := Origins(sels);
    forall k | 0 <= k < |sels|
      ensures TermsCombine(org, idx, src, os.strides, r.0.strides, k)
    {
      DimAddressing(os, sels[k], k, idx[k], r.0.strides[k]);
    }
    DotCombine(org, idx, src, os.strides, r.0.strides);
  }

  /** One dimension of `SliceAddressing`: origin term plus `t` new strides is the source term. */
  lemma DimAddressing(os: MatrixSlice, sel: Selector, k: nat, t: nat, stride: nat)
    requires os.WellFormed() && k < os.Rank() && Applicable(os, sel, k)
    requires t < NewExtent(os, sel, k) && stride == NewStride(os, sel, k)
    ensures Origin(sel) * os.strides[k] + t * stride == SourceCoord(sel, t) * os.strides[k]
  {
    match sel
    case Pick(v) =>
      assert t == 0;
    case Range(s) =>
      Distrib(s.start, s.stride, t, os.strides[k]);
  }

  /** The selector stays inside dimension `i` of `os` for every position it keeps. */
  predicate Fits(os: MatrixSlice, sel: Selector, i: nat)
    requires i < os.Rank()
  {
    match sel
    case Pick(v) => v < os.extents[i]
    case Range(s) =>
      (match s.length
       case None => s.stride > 0 && s.start <= os.extents[i]
       case Some(l) => l == 0 || SourcePos(s, l - 1) < os.extents[i])
    case Unsupported => false
  }

  /** Selectors that fit can be applied. */
  lemma FitsApplicable(os: MatrixSlice, sels: seq<Selector>)
    requires |sels| == os.Rank()
    requires forall k :: 0 <= k < |sels| ==> Fits(os, sels[k], k)
    ensures AllApplicable(os, sels)
  {
    var N := |sels|;
    forall j | 0 <= j < N
      ensures Applicable(os, sels[j], N - N + j)
    {
      assert Fits(os, sels[j], j);
    }
  }

  /** When every selector fits, every index inside the view maps to an index inside the source. */
  lemma SliceInBounds(os: MatrixSlice, ns: MatrixSlice, sels: seq<Selector>, idx: seq<nat>)
    requires SameRank(os, ns) && |sels| == os.Rank()
    requires forall k :: 0 <= k < |sels| ==> Fits(os, sels[k], k)
    ensures AllApplicable(os, sels)
    ensures InBounds(idx, DoSlice(os, ns, sels).0.extents) ==> InBounds(SourceIndex(sels, idx), os.extents)
  {
    FitsApplicable(os, sels);
    var r := DoSlice(os, ns, sels);
    DoSliceFull(os, ns, sels);
    if InBounds(idx, r.0.extents) {
      var src := SourceIndex(sels, idx);
      forall k | 0 <= k < |sels|
        ensures src[k] < os.extents[k]
      {
        DimInBounds(os, sels[k], k, idx[k]);
      }
    }
  }

  /** One dimension of `SliceInBounds`. */
  lemma DimInBounds(os: MatrixSlice, sel: Selector, k: nat, t: nat)
    requires os.WellFormed() && k < os.Rank() && Fits(os, sel, k)
    requires t < NewExtent(os, sel, k)
    ensures SourceCoord(sel, t) < os.extents[k]
  {
    match sel
    case Pick(v) =>
    case Range(s) =>
      match s.length
      case None =>
        RangeToEnd(s, os.extents[k]);
      case Some(l) =>
        MulLeftMono(s.stride, t, l - 1);
  }

  /**
    Picking every dimension yields the source's own offset of the picked
    indices, a view of extent 1 everywhere with the source strides.
  */
  lemma AllPicks(os: MatrixSlice, ns: MatrixSlice, sels: seq<Selector>)
    requires SameRank(os, ns) && |sels| == os.Rank() && RequestingElement(sels)
    ensures AllApplicable(os, sels)
    ensures os.start + DoSlice(os, ns, sels).1 == Offset(os, Origins(sels))
    ensures forall k :: 0 <= k < os.Rank() ==>
              DoSlice(os, ns, sels).0.extents[k] == 1 && DoSlice(os, ns, sels).0.strides[k] == os.strides[k]
  {
    var N := |sels|;
    assert AllApplicable(os, sels) by {
      forall j | 0 <= j < N
        ensures Applicable(os, sels[j], N - N + j)
      {
        assert sels[j].Pick?;
      }
    }
    DoSliceFull(os, ns, sels);
  }

  /** The selector that keeps a whole dimension unchanged. */
  const FullRange: Selector := Range(Slice(0, 1, None))

  /** A full range keeps the extent and stride of its dimension. */
  lemma FullRangeDim(os: MatrixSlice, k: nat)
    requires os.WellFormed() && k < os.Rank()
    ensures Applicable(os, FullRange, k)
    ensures NewExtent(os, FullRange, k) == os.extents[k]
    ensures NewStride(os, FullRange, k) == os.strides[k]
  {
  }

  /**
    Full ranges on every dimension leave the extents and strides of the
    source and contribute nothing to the offset.
  */
  lemma FullRangeIdentity(os: MatrixSlice, ns: MatrixSlice, sels: seq<Selector>)
    requires SameRank(os, ns) && |sels| == os.Rank()
    requires forall k :: 0 <= k < |sels| ==> sels[k] == FullRange
    ensures AllApplicable(os, sels)
    ensures DoSlice(os, ns, sels) == (ns.(extents := os.extents, strides := os.strides), 0)
  {
    var N := |sels|;
    assert AllApplicable(os, sels) by {
      forall j | 0 <= j < N
        ensures Applicable(os, sels[j], N - N + j)
      {
        FullRangeDim(os, j);
      }
    }
    DoSliceFull(os, ns, sels);
    assert Origins(sels) == seq(N, _ => 0);
    DotZeros(os.strides);
    var r := DoSlice(os, ns, sels);
    forall k | 0 <= k < N
      ensures r.0.extents[k] == os.extents[k] && r.0.strides[k] == os.strides[k]
    {
      FullRangeDim(os, k);
    }
    assert r.0.extents == os.extents;
    assert r.0.strides == os.strides;
  }

  /** Applied to the source itself, full ranges give back the source unchanged. */
  lemma FullRangeSelf(os: MatrixSlice, sels: seq<Selector>)
    requires os.WellFormed() && |sels| == os.Rank()
    requires forall k :: 0 <= k < |sels| ==> sels[k] == FullRange
    ensures AllApplicable(os, sels)
    ensures DoSlice(os, os, sels) == (os, 0)
  {
    FullRangeIdentity(os, os, sels);
  }

  /**
    Picking `v` in dimension `I` and keeping every other dimension whole
    gives the same base offset and, with the picked dimension removed, the
    same extents and strides in the same order as the row `SliceDim(I, v)`.
  */
  lemma PickMatchesRow(os: MatrixSlice, ns: MatrixSlice, sels: seq<Selector>, I: nat, v: nat)
    requires SameRank(os, ns) && |sels| == os.Rank() && I < os.Rank()
    requires sels[I] == Pick(v)
    requires forall k :: 0 <= k < |sels| && k != I ==> sels[k] == FullRange
    ensures AllApplicable(os, sels)
    ensures DoSlice(os, ns, sels).1 == os.strides[I] * v
    ensures DoSlice(os, ns, sels).0.extents[I] == 1
    ensures Without(DoSlice(os, ns, sels).0.extents, I) == Without(os.extents, I)
    ensures Without(DoSlice(os, ns, sels).0.strides, I) == Without(os.strides, I)
  {
    var N := |sels|;
    PickRowApplicable(os, sels, I, v);
    DoSliceFull(os, ns, sels);
    PickRowOrigins(sels, I, v);
    DotSingle(Origins(sels), os.strides, I, v);
    var r := DoSlice(os, ns, sels);
    forall k | 0 <= k < N && k != I
      ensures r.0.extents[k] == os.extents[k] && r.0.strides[k] == os.strides[k]
    {
      FullRangeDim(os, k);
    }
    WithoutAgree(r.0.extents, os.extents, I);
    WithoutAgree(r.0.strides, os.strides, I);
  }

  lemma WithoutAgree(a: seq<nat>, b: seq<nat>, I: nat)
    requires |a| == |b| && I < |a|
    requires forall k :: 0 <= k < |a| && k != I ==> a[k] == b[k]
    ensures Without(a, I) == Without(b, I)
  {
    assert a[..I] == b[..I];
    assert a[I + 1..] == b[I + 1..];
  }

  lemma PickRowApplicable(os: MatrixSlice, sels: seq<Selector>, I: nat, v: nat)
    requires os.WellFormed() && |sels| == os.Rank() && I < os.Rank()
    requires sels[I] == Pick(v)
    requires forall k :: 0 <= k < |sels| && k != I ==> sels[k] == FullRange
    ensures AllApplicable(os, sels)
  {
    var N := |sels|;
    forall j | 0 <= j < N
      ensures Applicable(os, sels[j], N - N + j)
    {
      if j != I { FullRangeDim(os, j); }
    }
  }

  lemma PickRowOrigins(sels: seq<Selector>, I: nat, v: nat)
    requires I < |sels| && sels[I] == Pick(v)
    requires forall k :: 0 <= k < |sels| && k != I ==> sels[k] == FullRange
    ensures |Origins(sels)| == |sels|
    ensures forall k :: 0 <= k < |sels| ==> Origins(sels)[k] == if k == I then v else 0
  {
  }

  /** A dot product with a single non-zero entry `v` at `I`. */
  lemma {:induction false} DotSingle(a: seq<nat>, b: seq<nat>, I: nat, v: nat)
    requires |a| == |b| && I < |b|
    requires forall k :: 0 <= k < |a| ==> a[k] == if k == I then v else 0
    ensures Dot(a, b) == v * b[I]
  {
    if I == 0 {
      assert a[1..] == seq(|b[1..]|, _ => 0);
      DotZeros(b[1..]);
    } else {
      DotSingle(a[1..], b[1..], I - 1, v);
    }
  }

  /** A step of 2 from 0 over an extent of 5 keeps positions 0, 2 and 4. */
  lemma StepTwoExample()
    ensures RangeExtent(Slice(0, 2, None), 5) == 3
  {
  }

  /**
    On the 2x3 root geometry, keeping all rows and columns 1..2 gives
    extents [2, 2], strides [3, 1] and base offset 1.
  */
  lemma TwoByThreeExample()
    ensures Root([2, 3]) == MatrixSlice(0, 6, [2, 3], [3, 1])
    ensures DoSlice(Root([2, 3]), Root([2, 3]), [FullRange, Range(Slice(1, 1, Some(2)))])
            == (MatrixSlice(0, 6, [2, 2], [3, 1]), 1)
  {
    var g := Root([2, 3]);
    assert [2, 3][1..] == [3];
    assert [3][1..] == [];
    assert g == MatrixSlice(0, 6, [2, 3], [3, 1]);
    var sels := [FullRange, Range(Slice(1, 1, Some(2)))];
    assert Origins(sels) == [0, 1];
    assert g.strides[0..] == [3, 1];
    assert Dot([0, 1], [3, 1]) == 1 by {
      assert [0, 1][1..] == [1] && [3, 1][1..] == [1];
      assert [1][1..] == [];
    }
    var r := DoSlice(g, g, sels);
    assert r.0.extents == [2, 2];
    assert r.0.strides == [3, 1];
  }
}
