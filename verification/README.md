# N-dimensional matrix geometry core, in Dafny

This project models the geometry core of a dense, arbitrary-rank matrix
(`include/matrix_impl.hpp`, namespace `matrix_impl`): the descriptor of a
view into a flat buffer (base offset, element count, extents, strides), the
computation of row-major strides and sizes, shape derivation and the
rectangularity check over nested initializer lists, flattening of those
lists into the buffer, extraction of a lower-rank row, and the
per-dimension index/range transforms that slicing folds over a selector
list.

Modules, one per component:

- `Arith` (`arith.dfy`): products, dot products, order-preserving removal
  and insertion of one position, and lemmas about them.
- `Geometry` (`geometry.dfy`): the `MatrixSlice` descriptor,
  `ComputeStrides`, `ComputeSize`, `SliceDim` (a row) and `CheckBounds`,
  plus `Offset`, the addressing formula `start + Σ idx[k]·strides[k]`, used
  as the reference meaning of a descriptor.
- `Nested` (`nested.dfy`): nested literals as `Leaf(seq<T>) | Node(seq<Nested<T>>)`
  (a leaf is rank 1), `DeriveExtents`, `CheckNonJagged`, and the
  independent reference shape predicate `HasShape`.
- `Flatten` (`flatten.dfy`): `InsertFlat` (append to a vector) and
  `CopyFlat` (write through an output position), against the reference
  depth-first order `Flatten`.
- `Selectors` (`selectors.dfy`): the slice descriptor, the selector sum
  type and the `Requesting_element` / `Requesting_slice` classifications.
- `Slicing` (`slicing.dfy`): `DoSliceDim` (both overloads), `DoSliceDim2`
  and the fold `DoSlice`, with the addressing theorem for the resulting view.
- `Options` (`options.dfy`): `Option`, standing for the `size_t(-1)`
  "to the end" length.

The model follows the code in these points, some of which a reader of a
matrix library might not expect:

- A pick in `do_slice_dim` keeps the rank and sets that extent to 1; it
  does not drop the dimension.
- `do_slice` sets neither `start` nor `size` of the new descriptor; it
  returns only the offset contribution.
- No transform in `matrix_impl.hpp` calls `check_bounds`, and nothing checks a
  zero step or the selector count.
  The division-by-zero and unsigned-underflow hazards become `requires`
  (`Applicable`), and `Fits` states when a selector stays in bounds.
- With fewer selectors than dimensions, `do_slice` writes the last ones,
  because selector `j` of `K` goes to dimension `N - K + j`. The model keeps
  this general form.
- `check_bounds` zero-fills the index slots it is not given.
  `CheckBounds` models that too.

## Model

| member | source | states |
|---|---|---|
| Geometry.ComputeStrides | include/matrix_impl.hpp:16-24 | the last stride is 1 and each stride is the next stride times the next extent; the result is the canonical row-major strides, and the returned value is the product of all extents |
| Geometry.ComputeSize | include/matrix_impl.hpp:26-29 | the left fold of the extents under multiplication from 1 is their product, and it is zero exactly when some extent is zero |
| Geometry.RootCorners | include/matrix_impl.hpp:16-24 | with canonical strides and positive extents, the all-zero index addresses offset 0 and the all-maximal index addresses offset size - 1 |
| Geometry.SliceDim | include/matrix_impl.hpp:99-116 | the row's start is the source start plus `strides[I] * offset`; its extents and strides are the source's with dimension I removed (position k takes source position k below I and k+1 from I on, so the original order is kept); its size is the product of its extents |
| Geometry.RowAddressing | include/matrix_impl.hpp:99-116 | addressing the row at an index equals addressing the source at that index with `offset` inserted at dimension I |
| Geometry.RowBounds | include/matrix_impl.hpp:99-116 | an index is inside the row and `offset` inside dimension I exactly when the index with `offset` inserted is inside the source |
| Geometry.RowSize | include/matrix_impl.hpp:115 | a source whose size is the product of its extents has `extents[I]` times the row's size |
| Geometry.CheckBounds | include/matrix_impl.hpp:127-132 | true exactly when every given index is below its extent and every zero-filled slot has a positive extent; with N indices, exactly when the index is in bounds |
| Nested.DeriveExtentsFirstPath | include/matrix_impl.hpp:44-65 | entry k of the derived extents is the length of the depth-k list reached by following first children |
| Nested.RectangularHasShape | include/matrix_impl.hpp:44-76 | a literal that passes every non-jagged check is a full box of its derived extents: every list at depth k has length `extents[k]` |
| Nested.ShapeIsRectangular | include/matrix_impl.hpp:44-76 | conversely, a full box with non-empty outer lists passes every check and derives exactly its shape |
| Nested.CheckNonJaggedSameShape | include/matrix_impl.hpp:68-76 | for rectangular siblings, the check holds exactly when every sibling has the full shape derived from the first sibling |
| Nested.RectangularHasRank | include/matrix_impl.hpp:59-65 | a rectangular literal has uniform depth equal to the number of derived extents |
| Flatten.InsertFlat | include/matrix_impl.hpp:78-94 | the vector afterwards is its old contents followed by the leaves in depth-first, left-to-right order; the old elements are unchanged |
| Flatten.CopyFlat | include/matrix_impl.hpp:180-195 | the leaves are written in the same order into the window starting at the output position; the new position is just past them; the buffer outside the window is unchanged |
| Flatten.FlattenLength | include/matrix_impl.hpp:78-94 | a full box of shape E yields exactly Product(E) elements |
| Flatten.FlattenPosition | include/matrix_impl.hpp:78-94 | in a full box of shape E, the element at multi-index idx is emitted at position `Σ idx[k]·strides[k]` for the canonical strides of E |
| Flatten.RectangularFlatten | include/matrix_impl.hpp:78-94 | for a rectangular literal, the count is the product of the derived extents and each element lands at its row-major offset |
| Selectors.Classification | include/matrix_impl.hpp:118-125 | the element and slice classifications never hold together; if every argument is an index or a slice, exactly one holds; an unsupported argument defeats both |
| Slicing.DoSliceDim | include/matrix_impl.hpp:134-152 | dimension `N - NRest` only: a pick sets extent 1, keeps the stride and contributes `index * stride`; a range scales the stride by its step; the contribution plus t new strides addresses source position `start + step*t`; with an open length the kept positions are exactly those below the extent |
| Slicing.RangeToEnd | include/matrix_impl.hpp:148-150 | the ceiling division `(extent - start + step - 1) / step` keeps t exactly when `start + step*t < extent` |
| Slicing.DoSliceDim2 | include/matrix_impl.hpp:154-163 | the run-time-index range transform agrees with the range overload of `do_slice_dim` |
| Slicing.DoSlice | include/matrix_impl.hpp:165-178 | of K selectors, selector j alone determines dimension N-K+j; the leading dimensions, start and size of `ns` are untouched; the returned sum is the dot product of the selectors' first positions with the strides of their dimensions |
| Slicing.DoSliceFull | include/matrix_impl.hpp:165-178 | with exactly N selectors, dimension k is written from selector k, and the returned offset is `Σ origin[k]·strides[k]` |
| Slicing.SliceAddressing | include/matrix_impl.hpp:165-178 | for every index inside the sliced view, the view's offset equals the source's offset of the mapped source index: the pick index, or `start + step*t` for a range |
| Slicing.SliceInBounds | include/matrix_impl.hpp:134-152 | when every selector fits its dimension, every index inside the view maps to an index inside the source |
| Slicing.AllPicks | include/matrix_impl.hpp:134-141 | picking every dimension gives the source's own offset of the picked indices, with every extent 1 and the source strides |
| Slicing.FullRangeIdentity | include/matrix_impl.hpp:143-152 | full ranges (start 0, step 1, to the end) keep every extent and stride of the source and contribute offset 0 |
| Slicing.FullRangeSelf | include/matrix_impl.hpp:143-152 | full ranges applied to the source itself give back the source unchanged |
| Slicing.PickMatchesRow | include/matrix_impl.hpp:134-141 | a pick at dimension I with full ranges elsewhere gives the row's offset, and with dimension I removed the row's extents and strides in the same order |
| Slicing.StepTwoExample | include/matrix_impl.hpp:148-150 | step 2 from 0 over extent 5 keeps 3 positions |
| Slicing.TwoByThreeExample | include/matrix_impl.hpp:165-178 | on the 2x3 root geometry, all rows by columns 1..2 give extents [2, 2], strides [3, 1] and offset 1 |

## Left out

- The template machinery is not modelled. This covers the `MatrixInit` type recursion, the deliberately undefined rank-0 case, `Enable_if` dispatch, and `Convertible`/`Same`/`All`/`Some` from `traits.hpp`, which is not part of this model. Static rank is the predicate `HasRank`; a leaf is rank 1, so rank 0 cannot occur. Overload choice becomes the `Selector` sum type, where `Unsupported` marks an argument with no overload.
- Fixed-width integers are not modelled. All values are unbounded naturals. This leaves out the `int` accumulator of `std::accumulate` in `compute_size` and wrap-around in `row.start += ...` and in products.
- The `size_t(-1)` length sentinel is `None`.
- Unsigned underflow of `extent - start` is excluded by requiring `start <= extent`. This requirement applies only when the length is open, since only then is the division evaluated.
- A selector count above N would make `N - NRest` wrap; `DoSlice` requires at most N selectors.
- The `assert` in `add_extents` (with assertions enabled) and dereferencing the first element of an empty list abort or are undefined. They become the precondition `Rectangular` (every list at a non-leaf depth is non-empty and passes `CheckNonJagged`), not error results. With `NDEBUG` defined the assert is compiled out, and a jagged literal with a non-empty first path gets its first-path extents unchecked. That behaviour is not modelled: `DeriveExtents` is only defined on rectangular literals.
- `std::copy` past the end of the output range is excluded by a precondition on `CopyFlat`.
- Container and iterator mechanics (`vec.insert`, `std::copy`, pointer ranges) are sequence concatenation and slicing.
- Flatten.InsertFlat: at rank 2 and above, `insert_flat` as written does not compile. `list.begin()` yields a `const std::initializer_list<U>*`, which the nested `add_list` overload (taking a non-const `std::initializer_list<T>*`) cannot accept, so the leaf overload is chosen, and its `vec.insert` would insert `initializer_list`s into a vector of `U`. `copy_list` has the `const` that `add_list` lacks. The model uses the depth-first walk that `copy_list` performs, which is the evident intent.
- `MatrixSlice` and `slice` are defined in `matrix_slice.hpp`, `slice.hpp` and `matrix_fwd.hpp`, which are not part of this model. Only the fields used here are modelled: `start`, `size`, `extents`, `strides`, and the slice's `start`, `stride` and `length`. The `ignore` helper is left out.
- Element arithmetic, storage ownership and aliasing between views are not modelled. The element type `T` is opaque.
- Slicing.DoSlice: the model assumes `os` and `ns` are different objects; it takes them as two separate values. `do_slice_dim` and `do_slice_dim2` take both by reference, so when a caller passes the same descriptor for both, the range overload writes `ns.strides[i]` before it reads `os.strides[i]` for the returned contribution, and a step other than 1 then changes the result. `DoSliceDim`, `DoSliceDim2` and `FullRangeSelf` (whose step is 1) carry the same assumption.
- `Offset` and `InBounds` are reference definitions of what a descriptor addresses. The element-access operator that would use them is not part of this model.
