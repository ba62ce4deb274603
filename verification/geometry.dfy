/**
  The matrix-slice descriptor and the stride, size, row and bounds
  computations of `matrix_impl`.
*/
module Geometry {
  import opened Arith

  /**
    A rank-N view into a flat buffer: base offset, element count, and one
    extent and one stride per dimension.  The rank is the length of
    `extents`; `matrix_impl.hpp`'s `std::array<size_t, N>` fields always agree in
    length, which `WellFormed` states.
  */
  datatype MatrixSlice = MatrixSlice(start: nat, size: nat, extents: seq<nat>, strides: seq<nat>)
  {
    function Rank(): nat
    {
      |extents|
    }

    predicate WellFormed()
    {
      |extents| == |strides|
    }
  }

  /** Flat buffer position of a multi-index: base offset plus the stride-weighted indices. */
  function Offset(g: MatrixSlice, idx: seq<nat>): nat
    requires g.WellFormed() && |idx| == g.Rank()
  {
    g.start + Dot(idx, g.strides)
  }

  /** Every coordinate of `idx` is below the matching extent. */
  predicate InBounds(idx: seq<nat>, extents: seq<nat>)
  {
    |idx| == |extents| && forall k :: 0 <= k < |idx| ==> idx[k] < extents[k]
  }

  /** Canonical row-major strides: dimension k advances by the product of the extents after it. */
  function RowMajorStrides(extents: seq<nat>): seq<nat>
  {
    if |extents| == 0 then [] else [Product(extents[1..])] + RowMajorStrides(extents[1..])
  }

  /** The root geometry built over a freshly flattened buffer. */
  function Root(extents: seq<nat>): MatrixSlice
  {
    MatrixSlice(0, Product(extents), extents, RowMajorStrides(extents))
  }

  lemma {:induction false} RowMajorStridesAt(extents: seq<nat>, k: nat)
    requires k < |extents|
    ensures |RowMajorStrides(extents)| == |extents|
    ensures RowMajorStrides(extents)[k] == Product(extents[k + 1..])
  {
    if k == 0 {
      RowMajorLength(extents[1..]);
    } else {
      RowMajorStridesAt(extents[1..], k - 1);
      assert extents[1..][k..] == extents[k + 1..];
    }
  }

  lemma {:induction false} RowMajorLength(extents: seq<nat>)
    ensures |RowMajorStrides(extents)| == |extents|
  {
    if |extents| > 0 {
      RowMajorLength(extents[1..]);
    }
  }

  /**
    Walks the dimensions from last to first: each stride is the number of
    elements spanned by the dimensions after it, and the running product
    ends as the element count.
  */
  method ComputeStrides(extents: seq<nat>) returns (strides: seq<nat>, size: nat)
    ensures |strides| == |extents|
    ensures |extents| > 0 ==> strides[|extents| - 1] == 1
    ensures forall i :: 0 <= i < |extents| - 1 ==> strides[i] == strides[i + 1] * extents[i + 1]
    ensures strides == RowMajorStrides(extents)
    ensures size == Product(extents)
  {
    var n := |extents|;
    strides := seq(n, _ => 0);
    size := 1;
    var i := n;
    while i > 0
      invariant 0 <= i <= n
      invariant |strides| == n
      invariant size == Product(extents[i..])
      invariant forall k :: i <= k < n ==> strides[k] == Product(extents[k + 1..])
    {
      i := i - 1;
      strides := strides[i := size];
      ProductAt(extents, i);
      size := size * extents[i];
    }
    assert extents[0..] == extents;
    forall i | 0 <= i < n - 1
      ensures strides[i] == strides[i + 1] * extents[i + 1]
    {
      ProductAt(extents, i + 1);
    }
    if n > 0 {
      assert extents[n..] == [];
    }
    RowMajorLength(extents);
    forall k | 0 <= k < n
      ensures strides[k] == RowMajorStrides(extents)[k]
    {
      RowMajorStridesAt(extents, k);
    }
  }

  /**
    Left fold of the extents under multiplication starting from 1, as
    `std::accumulate` does; zero exactly when some dimension is empty.
  */
  method ComputeSize(extents: seq<nat>) returns (size: nat)
    ensures size == Product(extents)
    ensures size == 0 <==> exists k :: 0 <= k < |extents| && extents[k] == 0
  {
    size := 1;
    var i := 0;
    while i < |extents|
      invariant 0 <= i <= |extents|
      invariant size == Product(extents[..i])
    {
      assert extents[..i + 1] == extents[..i] + [extents[i]];
      ProductSnoc(extents[..i], extents[i]);
      size := size * extents[i];
      i := i + 1;
    }
    assert extents[..i] == extents;
    ProductZero(extents);
  }

  /**
    For the root geometry the all-zero index addresses the first element
    and the all-maximal index the last one.
  */
  lemma {:induction false} RootCorners(extents: seq<nat>)
    requires forall k :: 0 <= k < |extents| ==> extents[k] > 0
    ensures RowMajorStrides(extents) == Root(extents).strides
    ensures |RowMajorStrides(extents)| == |extents|
    ensures Offset(Root(extents), seq(|extents|, _ => 0)) == 0
    ensures Product(extents) > 0
    ensures Offset(Root(extents), seq(|extents|, k requires 0 <= k < |extents| => extents[k] - 1)) == Product(extents) - 1
  {
    RowMajorLength(extents);
    DotZeros(RowMajorStrides(extents));
    DotMax(extents);
  }

  lemma {:induction false} DotMax(extents: seq<nat>)
    requires forall k :: 0 <= k < |extents| ==> extents[k] > 0
    ensures |RowMajorStrides(extents)| == |extents|
    ensures Product(extents) > 0
    ensures Dot(seq(|extents|, k requires 0 <= k < |extents| => extents[k] - 1), RowMajorStrides(extents)) == Product(extents) - 1
  {
    RowMajorLength(extents);
    if |extents| > 0 {
      var top := seq(|extents|, k requires 0 <= k < |extents| => extents[k] - 1);
      var rest := extents[1..];
      DotMax(rest);
      assert top[1..] == seq(|rest|, k requires 0 <= k < |rest| => rest[k] - 1);
      var p := Product(rest);
      assert Dot(top, RowMajorStrides(extents)) == (extents[0] - 1) * p + (p - 1);
      assert (extents[0] - 1) * p + (p - 1) == extents[0] * p - 1;
    }
  }

  /**
    Drops dimension `I` of `desc` at position `offset`: the base offset
    moves by `offset` strides of that dimension, the other extents and
    strides are copied in their original order, and the size is recomputed
    from the remaining extents.  Nothing checks `offset` against the extent.
  */
  method SliceDim(I: nat, offset: nat, desc: MatrixSlice) returns (row: MatrixSlice)
    requires desc.WellFormed() && I < desc.Rank()
    ensures row.WellFormed() && row.Rank() == desc.Rank() - 1
    ensures row.start == desc.start + desc.strides[I] * offset
    ensures forall k :: 0 <= k < row.Rank() ==>
              row.extents[k] == desc.extents[if k < I then k else k + 1] &&
              row.strides[k] == desc.strides[if k < I then k else k + 1]
    ensures row.extents == Without(desc.extents, I) && row.strides == Without(desc.strides, I)
    ensures row.size == Product(row.extents)
  {
    var n := desc.Rank();
    var start := desc.start;
    var extents: seq<nat> := seq(n - 1, _ => 0);
    var strides: seq<nat> := seq(n - 1, _ => 0);
    var j := n - 1;  // one past the next slot of `row` to fill
    var i := n;      // one past the next dimension of `desc` to visit
    while i > 0
      invariant 0 <= i <= n
      invariant j == if I < i then i - 1 else i
      invariant |extents| == n - 1 && |strides| == n - 1
      invariant start == desc.start + if I >= i then desc.strides[I] * offset else 0
      invariant forall k :: j <= k < n - 1 ==>
                  extents[k] == desc.extents[if k < I then k else k + 1] &&
                  strides[k] == desc.strides[if k < I then k else k + 1]
    {
      i := i - 1;
      if i == I {
        start := start + desc.strides[i] * offset;
      } else {
        j := j - 1;
        extents := extents[j := desc.extents[i]];
        strides := strides[j := desc.strides[i]];
      }
    }
    var size := ComputeSize(extents);
    row := MatrixSlice(start, size, extents, strides);
  }

  /**
    A row produced by `SliceDim` addresses exactly the elements of its
    parent with `offset` inserted at dimension `I`.
  */
  lemma RowAddressing(desc: MatrixSlice, I: nat, offset: nat, row: MatrixSlice, idx: seq<nat>)
    requires desc.WellFormed() && I < desc.Rank()
    requires row.WellFormed() && row.Rank() == desc.Rank() - 1
    requires row.start == desc.start + desc.strides[I] * offset
    requires row.strides == Without(desc.strides, I)
    requires |idx| == row.Rank()
    ensures |Insert(idx, I, offset)| == desc.Rank()
    ensures Offset(row, idx) == Offset(desc, Insert(idx, I, offset))
  {
    DotInsert(idx, desc.strides, I, offset);
  }

  /** An index lies inside the row exactly when, with `offset` inserted at `I`, it lies inside the parent. */
  lemma RowBounds(desc: MatrixSlice, I: nat, offset: nat, row: MatrixSlice, idx: seq<nat>)
    requires desc.WellFormed() && I < desc.Rank()
    requires row.WellFormed() && row.Rank() == desc.Rank() - 1
    requires row.extents == Without(desc.extents, I)
    requires |idx| == row.Rank()
    ensures InBounds(idx, row.extents) && offset < desc.extents[I] <==> InBounds(Insert(idx, I, offset), desc.extents)
  {
    var full := Insert(idx, I, offset);
    if InBounds(full, desc.extents) {
      assert full[I] == offset;
      forall k | 0 <= k < |idx|
        ensures idx[k] < row.extents[k]
      {
        if k < I { assert full[k] == idx[k]; } else { assert full[k + 1] == idx[k]; }
      }
    }
    if InBounds(idx, row.extents) && offset < desc.extents[I] {
      forall k | 0 <= k < |full|
        ensures full[k] < desc.extents[k]
      {
        if k < I { assert full[k] == idx[k]; }
        else if k > I { assert full[k] == idx[k - 1]; }
      }
    }
  }

  /** The element count of a consistent descriptor factors through any row. */
  lemma RowSize(desc: MatrixSlice, I: nat, row: MatrixSlice)
    requires desc.WellFormed() && I < desc.Rank()
    requires desc.size == Product(desc.extents)
    requires row.extents == Without(desc.extents, I)
    requires row.size == Product(row.extents)
    ensures desc.size == desc.extents[I] * row.size
  {
    ProductWithout(desc.extents, I);
  }

  /**
    `check_bounds`: the given indices fill the first slots of an N-slot
    array whose remaining slots are zero, and every slot must be below its
    extent.
  */
  method CheckBounds(ms: MatrixSlice, dims: seq<nat>) returns (ok: bool)
    requires |dims| <= ms.Rank()
    ensures ok <==> (forall k :: 0 <= k < |dims| ==> dims[k] < ms.extents[k]) &&
                    (forall k :: |dims| <= k < ms.Rank() ==> 0 < ms.extents[k])
    ensures |dims| == ms.Rank() ==> (ok <==> InBounds(dims, ms.extents))
  {
    var n := ms.Rank();
    var indexes := dims + seq(n - |dims|, _ => 0);
    var k := 0;
    while k < n
      invariant 0 <= k <= n
      invariant forall m :: 0 <= m < k ==> indexes[m] < ms.extents[m]
    {
      if !(indexes[k] < ms.extents[k]) {
        if k >= |dims| {
          assert ms.extents[k] == 0;
        }
        return false;
      }
      k := k + 1;
    }
    ok := true;
    forall m | 0 <= m < |dims|
      ensures dims[m] < ms.extents[m]
    {
      assert indexes[m] == dims[m];
    }
    forall m | |dims| <= m < n
      ensures 0 < ms.extents[m]
    {
      assert indexes[m] == 0;
    }
  }
}
