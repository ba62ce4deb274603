/**
  Flattening of nested literals into a linear buffer: leaves are emitted
  depth-first, left to right.  `InsertFlat` appends to a growing vector,
  `CopyFlat` writes through an output position into an existing buffer.
*/
module Flatten {
  import opened Arith
  import opened Geometry
  import opened Nested

  /** Reference order: a leaf's run of elements, or the children's flattenings concatenated. */
  function Flatten<T>(n: Nested<T>): seq<T>
    decreases n, 1
  {
    match n
    case Leaf(xs) => xs
    case Node(cs) => FlattenAll(n, |cs|)
  }

  /** Concatenated flattenings of the first `k` children of node `n`. */
  function FlattenAll<T>(n: Nested<T>, k: nat): seq<T>
    requires n.Node? && k <= |n.children|
    decreases n, 0, k
  {
    if k == 0 then [] else FlattenAll(n, k - 1) + Flatten(n.children[k - 1])
  }

  /** `idx` has one coordinate per level of `n`, each inside the list it selects from. */
  predicate ValidIndex<T>(n: Nested<T>, idx: seq<nat>)
  {
    match n
    case Leaf(xs) => |idx| == 1 && idx[0] < |xs|
    case Node(cs) => |idx| >= 1 && idx[0] < |cs| && ValidIndex(cs[idx[0]], idx[1..])
  }

  /** The element at multi-index `idx`, following one coordinate per level. */
  function Elem<T>(n: Nested<T>, idx: seq<nat>): T
    requires ValidIndex(n, idx)
  {
    match n
    case Leaf(xs) => xs[idx[0]]
    case Node(cs) => Elem(cs[idx[0]], idx[1..])
  }

  /**
    `add_list`/`insert_flat`: appends the leaves of `list` to `vec` in
    depth-first, left-to-right order; what `vec` held before is untouched.
  */
  method InsertFlat<T>(list: Nested<T>, vec: seq<T>) returns (r: seq<T>)
    ensures r == vec + Flatten(list)
    ensures |r| == |vec| + |Flatten(list)| && r[..|vec|] == vec
    decreases list
  {
    match list
    case Leaf(xs) =>
      r := vec + xs;
    case Node(cs) =>
      r := vec;
      var i := 0;
      while i < |cs|
        invariant 0 <= i <= |cs|
        invariant r == vec + FlattenAll(list, i)
      {
        r := InsertFlat(cs[i], r);
        i := i + 1;
      }
    assert r[..|vec|] == vec;
  }

  /**
    `copy_list`/`copy_flat`: writes the leaves of `list`, in the same order,
    into `buf` from position `it` on and returns the position after the last
    one written; everything outside that window is untouched.  The output
    range must be large enough, as for `std::copy`.
  */
  method CopyFlat<T>(list: Nested<T>, buf: seq<T>, it: nat) returns (out: seq<T>, it': nat)
    requires it + |Flatten(list)| <= |buf|
    ensures it' == it + |Flatten(list)|
    ensures |out| == |buf|
    ensures out[..it] == buf[..it]
    ensures out[it..it'] == Flatten(list)
    ensures out[it'..] == buf[it'..]
    decreases list
  {
    match list
    case Leaf(xs) =>
      out := buf[..it] + xs + buf[it + |xs|..];
      it' := it + |xs|;
    case Node(cs) =>
      out := buf;
      it' := it;
      var i := 0;
      while i < |cs|
        invariant 0 <= i <= |cs|
        invariant it' == it + |FlattenAll(list, i)|
        invariant |out| == |buf|
        invariant it + |FlattenAll(list, |cs|)| <= |buf|
        invariant it' <= |buf|
        invariant out[..it] == buf[..it]
        invariant out[it..it'] == FlattenAll(list, i)
        invariant out[it'..] == buf[it'..]
      {
        FlattenAllMono(list, i + 1, |cs|);
        var prev := out;
        var mid := it';
        out, it' := CopyFlat(cs[i], out, it');
        assert out[it..it'] == prev[it..mid] + out[mid..it'];
        assert out[..it] == prev[..mid][..it];
        i := i + 1;
      }
  }

  lemma {:induction false} FlattenAllMono<T>(n: Nested<T>, i: nat, k: nat)
    requires n.Node? && i <= k <= |n.children|
    ensures |FlattenAll(n, i)| <= |FlattenAll(n, k)|
    decreases k
  {
    if i < k {
      FlattenAllMono(n, i, k - 1);
    }
  }

  /**
    Children of equal flattened length `P` are laid out in consecutive
    blocks: block `i` of the concatenation is child `i`'s flattening.
  */
  lemma {:induction false} FlattenAllBlocks<T>(n: Nested<T>, k: nat, P: nat, i: nat, off: nat)
    requires n.Node? && k <= |n.children|
    requires forall j :: 0 <= j < k ==> |Flatten(n.children[j])| == P
    requires i < k && off < P
    ensures |FlattenAll(n, k)| == k * P
    ensures i * P + off < k * P
    ensures FlattenAll(n, k)[i * P + off] == Flatten(n.children[i])[off]
    decreases k
  {
    FlattenAllLength(n, k - 1, P);
    if i < k - 1 {
      FlattenAllBlocks(n, k - 1, P, i, off);
    }
    assert i * P + off < (i + 1) * P <= k * P by {
      MulLeftMono(P, i + 1, k);
    }
  }

  lemma {:induction false} FlattenAllLength<T>(n: Nested<T>, k: nat, P: nat)
    requires n.Node? && k <= |n.children|
    requires forall j :: 0 <= j < k ==> |Flatten(n.children[j])| == P
    ensures |FlattenAll(n, k)| == k * P
    decreases k
  {
    if k > 0 {
      FlattenAllLength(n, k - 1, P);
    }
  }

  /** The number of elements emitted for a full box is the product of its extents. */
  lemma {:induction false} FlattenLength<T>(n: Nested<T>, E: seq<nat>)
    requires HasShape(n, E)
    ensures |Flatten(n)| == Product(E)
  {
    match n
    case Leaf(xs) =>
      assert E[1..] == [];
    case Node(cs) =>
      forall j | 0 <= j < |cs|
        ensures |Flatten(cs[j])| == Product(E[1..])
      {
        FlattenLength(cs[j], E[1..]);
      }
      FlattenAllLength(n, |cs|, Product(E[1..]));
  }

  /**
    Row-major placement: in a full box of shape `E`, the element at
    multi-index `idx` is emitted at flat position `Σ idx[k] * strides[k]`
    for the canonical strides of `E`.
  */
  lemma {:induction false} FlattenPosition<T>(n: Nested<T>, E: seq<nat>, idx: seq<nat>)
    requires HasShape(n, E) && InBounds(idx, E)
    ensures |RowMajorStrides(E)| == |E|
    ensures ValidIndex(n, idx)
    ensures Dot(idx, RowMajorStrides(E)) < |Flatten(n)|
    ensures Flatten(n)[Dot(idx, RowMajorStrides(E))] == Elem(n, idx)
  {
    RowMajorLength(E);
    FlattenLength(n, E);
    match n
    case Leaf(xs) =>
      assert idx[1..] == [] && E[1..] == [];
    case Node(cs) =>
      var P := Product(E[1..]);
      var i := idx[0];
      assert InBounds(idx[1..], E[1..]);
      FlattenPosition(cs[i], E[1..], idx[1..]);
      forall j | 0 <= j < |cs|
        ensures |Flatten(cs[j])| == P
      {
        FlattenLength(cs[j], E[1..]);
      }
      var off := Dot(idx[1..], RowMajorStrides(E[1..]));
      FlattenAllBlocks(n, |cs|, P, i, off);
  }

  /**
    A rectangular literal: `InsertFlat` emits as many elements as the
    product of the derived extents, each at its row-major position.
  */
  lemma RectangularFlatten<T>(n: Nested<T>, idx: seq<nat>)
    requires Rectangular(n) && InBounds(idx, DeriveExtents(n))
    ensures |Flatten(n)| == Product(DeriveExtents(n))
    ensures |RowMajorStrides(DeriveExtents(n))| == |idx|
    ensures ValidIndex(n, idx)
    ensures Dot(idx, RowMajorStrides(DeriveExtents(n))) < |Flatten(n)|
    ensures Flatten(n)[Dot(idx, RowMajorStrides(DeriveExtents(n)))] == Elem(n, idx)
  {
    RectangularHasShape(n);
    FlattenLength(n, DeriveExtents(n));
    FlattenPosition(n, DeriveExtents(n), idx);
  }
}
