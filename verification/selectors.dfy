/**
  Selectors passed to a slicing call, one per dimension: a single index
  (`Pick`), a slice descriptor (`Range`), or an argument convertible to
  neither (`Unsupported`), for which no per-dimension overload exists.
*/
module Selectors {
  import opened Options

  /**
    A 1-D slice descriptor: every `stride`-th position from `start`, for
    `length` positions, or up to the end of the dimension when `length` is
    `None` (`matrix_impl.hpp`'s `size_t(-1)` sentinel).
  */
  datatype Slice = Slice(start: nat, stride: nat, length: Option<nat>)

  datatype Selector = Pick(index: nat) | Range(slice: Slice) | Unsupported

  /** `Requesting_element`: every argument is an index. */
  predicate RequestingElement(sels: seq<Selector>)
  {
    forall k :: 0 <= k < |sels| ==> sels[k].Pick?
  }

  /** `Requesting_slice`: every argument is an index or a slice, and some argument is a slice. */
  predicate RequestingSlice(sels: seq<Selector>)
  {
    && (forall k :: 0 <= k < |sels| ==> sels[k].Pick? || sels[k].Range?)
    && (exists k :: 0 <= k < |sels| && sels[k].Range?)
  }

  /**
    The two classifications never hold together; when every argument is an
    index or a slice, exactly one of them holds, and an empty argument list
    counts as an element request.
  */
  lemma Classification(sels: seq<Selector>)
    ensures !(RequestingElement(sels) && RequestingSlice(sels))
    ensures (forall k :: 0 <= k < |sels| ==> !sels[k].Unsupported?) ==>
              (RequestingElement(sels) || RequestingSlice(sels))
    ensures |sels| == 0 ==> RequestingElement(sels)
    ensures (exists k :: 0 <= k < |sels| && sels[k].Unsupported?) ==>
              !RequestingElement(sels) && !RequestingSlice(sels)
  {
  }
}
