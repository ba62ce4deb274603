/**
  Nested literal data of rank N >= 1: a `Leaf` is the innermost run of
  elements (rank 1), a `Node` is a list of nested literals one rank lower.
  Shape derivation follows the first child at each depth; the
  rectangularity check compares every sibling with the first one.
*/
module Nested {

  datatype Nested<T> = Leaf(elems: seq<T>) | Node(children: seq<Nested<T>>)
  {
    /** Number of entries at this level: elements of a leaf, children of a node. */
    function Width(): nat
    {
      match this
      case Leaf(xs) => |xs|
      case Node(cs) => |cs|
    }
  }

  /** Every path from `n` has exactly `N` levels: the literal's static rank. */
  predicate HasRank<T>(n: Nested<T>, N: nat)
  {
    match n
    case Leaf(_) => N == 1
    case Node(cs) => N >= 2 && forall j :: 0 <= j < |cs| ==> HasRank(cs[j], N - 1)
  }

  /**
    Reference definition of "n is a full box of shape E": a leaf of length
    E[0] at the bottom, otherwise exactly E[0] children, each of shape E[1..].
  */
  predicate HasShape<T>(n: Nested<T>, E: seq<nat>)
  {
    match n
    case Leaf(xs) => E == [|xs|]
    case Node(cs) => |E| >= 2 && |cs| == E[0] && forall j :: 0 <= j < |cs| ==> HasShape(cs[j], E[1..])
  }

  /**
    The condition under which deriving extents succeeds: every node is
    non-empty (the first child is dereferenced) and passes
    `CheckNonJagged`, which the derivation asserts at every node it visits,
    siblings included.
  */
  predicate Rectangular<T>(n: Nested<T>)
    decreases n, 1
  {
    match n
    case Leaf(_) => true
    case Node(cs) =>
      && |cs| > 0
      && (forall j :: 0 <= j < |cs| ==> Rectangular(cs[j]))
      && CheckNonJagged(n)
  }

  /** `check_non_jagged`: every later sibling derives the same extents as the first. */
  predicate CheckNonJagged<T>(list: Nested<T>)
    requires list.Node? && |list.children| > 0
    requires forall j :: 0 <= j < |list.children| ==> Rectangular(list.children[j])
    decreases list, 0
  {
    var cs := list.children;
    forall j :: 1 <= j < |cs| ==> DeriveExtents(cs[j]) == DeriveExtents(cs[0])
  }

  /** `derive_extents`: the width at each depth along the first-child path. */
  function DeriveExtents<T>(n: Nested<T>): seq<nat>
    requires Rectangular(n)
    decreases n, 2
  {
    match n
    case Leaf(xs) => [|xs|]
    case Node(cs) => [|cs|] + DeriveExtents(cs[0])
  }

  /** The sub-literal reached by following the first child `k` times. */
  function FirstPath<T>(n: Nested<T>, k: nat): Nested<T>
    requires Rectangular(n) && k < Depth(n)
    decreases k
  {
    if k == 0 then n else FirstPath(n.children[0], k - 1)
  }

  /** Node count along the first-child path of a rectangular literal, i.e. its rank. */
  function Depth<T>(n: Nested<T>): nat
    requires Rectangular(n)
  {
    match n
    case Leaf(_) => 1
    case Node(cs) => 1 + Depth(cs[0])
  }

  /** Entry k of the derived extents is the width of the depth-k list on the first-child path. */
  lemma {:induction false} DeriveExtentsFirstPath<T>(n: Nested<T>, k: nat)
    requires Rectangular(n) && k < Depth(n)
    ensures |DeriveExtents(n)| == Depth(n)
    ensures DeriveExtents(n)[k] == FirstPath(n, k).Width()
  {
    DeriveExtentsLength(n);
    if k > 0 {
      DeriveExtentsFirstPath(n.children[0], k - 1);
    }
  }

  lemma {:induction false} DeriveExtentsLength<T>(n: Nested<T>)
    requires Rectangular(n)
    ensures |DeriveExtents(n)| == Depth(n)
  {
    if n.Node? {
      DeriveExtentsLength(n.children[0]);
    }
  }

  /** A rectangular literal is a full box of its derived extents. */
  lemma {:induction false} RectangularHasShape<T>(n: Nested<T>)
    requires Rectangular(n)
    ensures HasShape(n, DeriveExtents(n))
  {
    match n
    case Leaf(xs) =>
    case Node(cs) =>
      var E := DeriveExtents(n);
      assert E[1..] == DeriveExtents(cs[0]);
      forall j | 0 <= j < |cs|
        ensures HasShape(cs[j], E[1..])
      {
        RectangularHasShape(cs[j]);
      }
      DeriveExtentsLength(cs[0]);
  }

  /**
    Conversely a full box whose outer extents are positive is rectangular
    and derives exactly its shape.
  */
  lemma {:induction false} ShapeIsRectangular<T>(n: Nested<T>, E: seq<nat>)
    requires HasShape(n, E)
    requires forall k :: 0 <= k < |E| - 1 ==> E[k] > 0
    ensures Rectangular(n) && DeriveExtents(n) == E
  {
    match n
    case Leaf(xs) =>
    case Node(cs) =>
      forall j | 0 <= j < |cs|
        ensures Rectangular(cs[j]) && DeriveExtents(cs[j]) == E[1..]
      {
        ShapeIsRectangular(cs[j], E[1..]);
      }
      assert E[0] > 0;
  }

  /**
    Given rectangular siblings, `CheckNonJagged` holds exactly when every
    sibling has the full shape derived from the first one.
  */
  lemma CheckNonJaggedSameShape<T>(list: Nested<T>)
    requires list.Node? && |list.children| > 0
    requires forall j :: 0 <= j < |list.children| ==> Rectangular(list.children[j])
    ensures CheckNonJagged(list) <==>
              forall j :: 0 <= j < |list.children| ==> HasShape(list.children[j], DeriveExtents(list.children[0]))
  {
    var cs := list.children;
    var E := DeriveExtents(cs[0]);
    forall j | 0 <= j < |cs|
      ensures HasShape(cs[j], DeriveExtents(cs[j]))
    {
      RectangularHasShape(cs[j]);
    }
    if forall j :: 0 <= j < |cs| ==> HasShape(cs[j], E) {
      forall j | 1 <= j < |cs|
        ensures DeriveExtents(cs[j]) == E
      {
        ShapeUnique(cs[j], DeriveExtents(cs[j]), E);
      }
    }
  }

  /** A rectangular literal has exactly one shape. */
  lemma {:induction false} ShapeUnique<T>(n: Nested<T>, E: seq<nat>, F: seq<nat>)
    requires Rectangular(n) && HasShape(n, E) && HasShape(n, F)
    ensures E == F
  {
    match n
    case Leaf(_) =>
    case Node(cs) =>
      ShapeUnique(cs[0], E[1..], F[1..]);
      assert E == [E[0]] + E[1..] && F == [F[0]] + F[1..];
  }

  /** The static rank of a rectangular literal is the length of its derived extents. */
  lemma {:induction false} RectangularHasRank<T>(n: Nested<T>)
    requires Rectangular(n)
    ensures HasRank(n, |DeriveExtents(n)|)
  {
    RectangularHasShape(n);
    ShapeHasRank(n, DeriveExtents(n));
  }

  lemma {:induction false} ShapeHasRank<T>(n: Nested<T>, E: seq<nat>)
    requires HasShape(n, E)
    ensures HasRank(n, |E|)
  {
    match n
    case Leaf(_) =>
    case Node(cs) =>
      forall j | 0 <= j < |cs|
        ensures HasRank(cs[j], |E| - 1)
      {
        ShapeHasRank(cs[j], E[1..]);
      }
  }
}
