/**
  Arithmetic on small sequences of naturals: products of extents, dot
  products of indices with strides, and the order-preserving removal and
  insertion of one position.
*/
module Arith {

  /** Product of all entries; the empty product is 1. */
  function Product(s: seq<nat>): nat
  {
    if |s| == 0 then 1 else s[0] * Product(s[1..])
  }

  /** Sum of `a[k] * b[k]` over all positions. */
  function Dot(a: seq<nat>, b: seq<nat>): nat
    requires |a| == |b|
  {
    if |a| == 0 then 0 else a[0] * b[0] + Dot(a[1..], b[1..])
  }

  /** `s` with position `i` removed, the rest kept in order. */
  function Without<X>(s: seq<X>, i: nat): seq<X>
    requires i < |s|
  {
    s[..i] + s[i + 1..]
  }

  /** `s` with `v` inserted so that it lands at position `i`. */
  function Insert<X>(s: seq<X>, i: nat, v: X): seq<X>
    requires i <= |s|
  {
    s[..i] + [v] + s[i..]
  }

  /** The product of a suffix unfolds at any interior position. */
  lemma ProductAt(s: seq<nat>, i: nat)
    requires i < |s|
    ensures Product(s[i..]) == s[i] * Product(s[i + 1..])
  {
    assert s[i..][1..] == s[i + 1..];
  }

  /** The product of a sequence extended at the back (a left fold step). */
  lemma {:induction false} ProductSnoc(s: seq<nat>, x: nat)
    ensures Product(s + [x]) == Product(s) * x
  {
    if |s| == 0 {
      assert s + [x] == [x];
      assert [x][1..] == [];
    } else {
      assert (s + [x])[1..] == s[1..] + [x];
      ProductSnoc(s[1..], x);
    }
  }

  /** A product is zero exactly when some factor is zero. */
  lemma {:induction false} ProductZero(s: seq<nat>)
    ensures Product(s) == 0 <==> exists k :: 0 <= k < |s| && s[k] == 0
  {
    if |s| > 0 {
      ProductZero(s[1..]);
      if Product(s[1..]) == 0 {
        var k :| 0 <= k < |s[1..]| && s[1..][k] == 0;
        assert s[k + 1] == 0;
      }
      if exists k :: 0 <= k < |s| && s[k] == 0 {
        var k :| 0 <= k < |s| && s[k] == 0;
        if k > 0 {
          assert s[1..][k - 1] == 0;
        }
      }
    }
  }

  /** Removing one factor divides it out of the product. */
  lemma {:induction false} ProductWithout(s: seq<nat>, i: nat)
    requires i < |s|
    ensures Product(s) == s[i] * Product(Without(s, i))
  {
    if i == 0 {
      assert Without(s, 0) == s[1..];
    } else {
      assert Without(s, i)[0] == s[0];
      assert Without(s, i)[1..] == Without(s[1..], i - 1);
      ProductWithout(s[1..], i - 1);
      calc {
        Product(s);
        s[0] * Product(s[1..]);
        s[0] * (s[i] * Product(Without(s[1..], i - 1)));
        s[i] * (s[0] * Product(Without(s, i)[1..]));
        s[i] * Product(Without(s, i));
      }
    }
  }

  /**
    Inserting an index at position `i` adds exactly its stride term: the
    dot product over the shorter sequences plus `v * b[i]`.
  */
  lemma {:induction false} DotInsert(a: seq<nat>, b: seq<nat>, i: nat, v: nat)
    requires |a| + 1 == |b| && i < |b|
    ensures |Insert(a, i, v)| == |b|
    ensures Dot(Insert(a, i, v), b) == Dot(a, Without(b, i)) + v * b[i]
  {
    if i == 0 {
      assert Insert(a, 0, v) == [v] + a;
      assert ([v] + a)[1..] == a;
      assert Without(b, 0) == b[1..];
    } else {
      var a' := Insert(a, i, v);
      assert a'[0] == a[0];
      assert a'[1..] == Insert(a[1..], i - 1, v);
      assert Without(b, i)[0] == b[0];
      assert Without(b, i)[1..] == Without(b[1..], i - 1);
      DotInsert(a[1..], b[1..], i - 1, v);
    }
  }

  /**
    Termwise `a[k]*x[k] + b[k]*y[k] == c[k]*x[k]` sums to the same equation
    over whole dot products.
  */
  lemma {:induction false} DotCombine(a: seq<nat>, b: seq<nat>, c: seq<nat>, x: seq<nat>, y: seq<nat>)
    requires |a| == |b| == |c| == |x| == |y|
    requires forall k :: 0 <= k < |a| ==> TermsCombine(a, b, c, x, y, k)
    ensures Dot(a, x) + Dot(b, y) == Dot(c, x)
  {
    if |a| > 0 {
      assert TermsCombine(a, b, c, x, y, 0);
      forall k | 0 <= k < |a| - 1
        ensures TermsCombine(a[1..], b[1..], c[1..], x[1..], y[1..], k)
      {
        assert TermsCombine(a, b, c, x, y, k + 1);
      }
      DotCombine(a[1..], b[1..], c[1..], x[1..], y[1..]);
    }
  }

  /** Position `k` of the termwise equation behind `DotCombine`. */
  predicate TermsCombine(a: seq<nat>, b: seq<nat>, c: seq<nat>, x: seq<nat>, y: seq<nat>, k: nat)
    requires |a| == |b| == |c| == |x| == |y| && k < |a|
  {
    a[k] * x[k] + b[k] * y[k] == c[k] * x[k]
  }

  /** Multiplying by the same factor, on either side, keeps order. */
  lemma MulLeftMono(a: nat, b: nat, c: nat)
    requires b <= c
    ensures a * b <= a * c
    ensures b * a <= c * a
  {
  }

  /** The all-zero vector has dot product 0 with anything. */
  lemma {:induction false} DotZeros(b: seq<nat>)
    ensures Dot(seq(|b|, _ => 0), b) == 0
  {
    if |b| > 0 {
      assert seq(|b|, _ => 0)[1..] == seq(|b[1..]|, _ => 0);
      DotZeros(b[1..]);
    }
  }
}
