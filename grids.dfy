/**
 * N-dimensional arrays stored flat in row-major (C) order, the order in which
 * numpy's `nonzero()` and boolean-mask indexing visit elements.
 * A shape is a sequence of extents; a coordinate is a sequence of indices.
 */
module Grids {

  /** Number of elements of an array of the given shape (one for the empty shape). */
  function Product(dims: seq<nat>): nat
  {
    if |dims| == 0 then 1 else Product(dims[..|dims| - 1]) * dims[|dims| - 1]
  }

  /** `c` is a coordinate inside an array of shape `dims`. */
  predicate InBounds(c: seq<nat>, dims: seq<nat>)
  {
    |c| == |dims| && forall i :: 0 <= i < |c| ==> c[i] < dims[i]
  }

  /** Row-major flat index of coordinate `c`. */
  function Ravel(c: seq<nat>, dims: seq<nat>): nat
    requires |c| == |dims|
  {
    if |dims| == 0 then 0
    else Ravel(c[..|c| - 1], dims[..|dims| - 1]) * dims[|dims| - 1] + c[|c| - 1]
  }

  /** Distance in the flat order between neighbours along `axis`. */
  function Stride(dims: seq<nat>, axis: nat): nat
    requires axis < |dims|
  {
    Product(dims[axis + 1..])
  }

  /** Shape of the `[:-1]` slice along `axis` (numpy leaves an empty axis empty). */
  function Reduced(dims: seq<nat>, axis: nat): (r: seq<nat>)
    requires axis < |dims|
    ensures |r| == |dims| && r[axis] + 1 >= dims[axis]
    ensures forall i :: 0 <= i < |dims| && i != axis ==> r[i] == dims[i]
    ensures dims[axis] > 0 ==> r[axis] + 1 == dims[axis]
  {
    dims[axis := if dims[axis] == 0 then 0 else dims[axis] - 1]
  }

  lemma MulLeftMono(a: nat, b: nat, d: nat)
    requires a <= b
    ensures a * d <= b * d
  {
  }

  lemma {:induction false} RavelBound(c: seq<nat>, dims: seq<nat>)
    requires InBounds(c, dims)
    ensures Ravel(c, dims) < Product(dims)
  {
    if |dims| > 0 {
      var n := |dims| - 1;
      assert InBounds(c[..n], dims[..n]);
      RavelBound(c[..n], dims[..n]);
      var r, d := Ravel(c[..n], dims[..n]), dims[n];
      assert r * d + c[n] < (r + 1) * d;
      MulLeftMono(r + 1, Product(dims[..n]), d);
    }
  }

  lemma DivBelow(q: nat, d: nat, p: nat)
    requires q < p * d
    ensures d > 0 && q / d < p
  {
    if q / d >= p {
      MulLeftMono(p, q / d, d);
    }
  }

  /** Coordinate of the element at flat index `q`: the inverse of `Ravel`. */
  function Unravel(q: nat, dims: seq<nat>): (c: seq<nat>)
    requires q < Product(dims)
    ensures InBounds(c, dims) && Ravel(c, dims) == q
    decreases |dims|
  {
    if |dims| == 0 then []
    else
      var n := |dims| - 1;
      var d := dims[n];
      DivBelow(q, d, Product(dims[..n]));
      DivMod(q, d);
      var rest := Unravel(q / d, dims[..n]);
      var c := rest + [q % d];
      assert c[..n] == rest && c[n] == q % d;
      assert Ravel(c, dims) == Ravel(rest, dims[..n]) * d + q % d;
      c
  }

  lemma DivMod(q: nat, d: nat)
    requires d > 0
    ensures q == (q / d) * d + q % d && q % d < d
  {
  }

  lemma Distrib(a: nat, b: nat, d: nat)
    ensures (a + b) * d == a * d + b * d
  {
  }

  lemma DivModOfRavelStep(r: nat, d: nat, x: nat)
    requires x < d
    ensures (r * d + x) / d == r && (r * d + x) % d == x
  {
    var y := r * d + x;
    DivMod(y, d);
    var q := y / d;
    if q > r {
      MulLeftMono(r + 1, q, d);
      Distrib(r, 1, d);
    }
    if q < r {
      MulLeftMono(q + 1, r, d);
      Distrib(q, 1, d);
    }
  }

  /** Ravel is injective on coordinates inside the array. */
  lemma {:induction false} RavelInjective(c: seq<nat>, c': seq<nat>, dims: seq<nat>)
    requires InBounds(c, dims) && InBounds(c', dims)
    requires Ravel(c, dims) == Ravel(c', dims)
    ensures c == c'
  {
    if |dims| > 0 {
      var n := |dims| - 1;
      assert InBounds(c[..n], dims[..n]) && InBounds(c'[..n], dims[..n]);
      var r, r', d := Ravel(c[..n], dims[..n]), Ravel(c'[..n], dims[..n]), dims[n];
      DivModOfRavelStep(r, d, c[n]);
      DivModOfRavelStep(r', d, c'[n]);
      RavelInjective(c[..n], c'[..n], dims[..n]);
      assert c == c[..n] + [c[n]] && c' == c'[..n] + [c'[n]];
    }
  }

  /** Unravel undoes Ravel. */
  lemma UnravelRavel(c: seq<nat>, dims: seq<nat>)
    requires InBounds(c, dims)
    ensures Ravel(c, dims) < Product(dims)
    ensures Unravel(Ravel(c, dims), dims) == c
  {
    RavelBound(c, dims);
    RavelInjective(Unravel(Ravel(c, dims), dims), c, dims);
  }

  lemma ProductSplitLast(dims: seq<nat>, a: nat)
    requires a < |dims| - 1
    ensures dims[a + 1..][..|dims[a + 1..]| - 1] == dims[..|dims| - 1][a + 1..]
    ensures Stride(dims, a) == Stride(dims[..|dims| - 1], a) * dims[|dims| - 1]
  {
    var n := |dims| - 1;
    assert dims[a + 1..][..|dims[a + 1..]| - 1] == dims[..n][a + 1..];
  }

  /** Moving one step along `axis` moves the flat index forward by the stride. */
  lemma {:induction false} RavelStep(c: seq<nat>, dims: seq<nat>, axis: nat)
    requires InBounds(c, dims) && axis < |dims| && c[axis] + 1 < dims[axis]
    ensures InBounds(c[axis := c[axis] + 1], dims)
    ensures Ravel(c[axis := c[axis] + 1], dims) == Ravel(c, dims) + Stride(dims, axis)
  {
    var n := |dims| - 1;
    var c' := c[axis := c[axis] + 1];
    if axis == n {
      assert c'[..n] == c[..n];
      assert dims[axis + 1..] == [];
    } else {
      assert c'[..n] == c[..n][axis := c[axis] + 1];
      assert InBounds(c[..n], dims[..n]);
      RavelStep(c[..n], dims[..n], axis);
      ProductSplitLast(dims, axis);
      Distrib(Ravel(c[..n], dims[..n]), Stride(dims[..n], axis), dims[n]);
    }
  }

  /** Flat index of the voxel just before (left of) the mask position `q`. */
  function LeftIndex(dims: seq<nat>, axis: nat, q: nat): (p: nat)
    requires axis < |dims| && q < Product(Reduced(dims, axis))
    ensures p + Stride(dims, axis) < Product(dims)
  {
    var c := Unravel(q, Reduced(dims, axis));
    assert InBounds(c, dims);
    RavelStep(c, dims, axis);
    RavelBound(c[axis := c[axis] + 1], dims);
    Ravel(c, dims)
  }
}
