/**
 * Per-axis boundary detection of a label volume (ilastikrag/util.py,
 * `edge_mask_for_axis` and `edge_ids_for_axis`).
 *
 * The volume is a shape plus its labels in row-major order. Along an axis the
 * "left" view is the `[:-1]` slice and the "right" view the `[1:]` slice; the
 * mask has the shape of the left view and is true wherever the two views differ.
 */
module EdgeExtraction {
  import opened Grids
  import opened Wrappers

  /** A pair of superpixel ids: (left, right) when raw, (smaller, larger) when canonical. */
  datatype EdgeId = EdgeId(sp1: nat, sp2: nat)

  /** A boolean array of shape `shape`, flattened in row-major order. */
  datatype EdgeMask = EdgeMask(shape: seq<nat>, bits: seq<bool>)

  /** Label of the voxel at coordinate `c`. */
  function LabelAt(shape: seq<nat>, data: seq<nat>, c: seq<nat>): nat
    requires |data| == Product(shape) && InBounds(c, shape)
  {
    RavelBound(c, shape);
    data[Ravel(c, shape)]
  }

  /** `np.count_nonzero` of a mask. */
  function CountTrue(bits: seq<bool>): nat
  {
    if |bits| == 0 then 0
    else CountTrue(bits[..|bits| - 1]) + (if bits[|bits| - 1] then 1 else 0)
  }

  /** Flat indices of the true entries of a mask in scan order: `mask.nonzero()`. */
  function TruePositions(bits: seq<bool>): (ps: seq<nat>)
    ensures |ps| == CountTrue(bits)
    ensures forall k :: 0 <= k < |ps| ==> ps[k] < |bits| && bits[ps[k]]
    ensures forall k, l :: 0 <= k < l < |ps| ==> ps[k] < ps[l]
    ensures forall q :: 0 <= q < |bits| && bits[q] ==> q in ps
  {
    if |bits| == 0 then []
    else
      var n := |bits| - 1;
      var ps := TruePositions(bits[..n]);
      if bits[n] then ps + [n] else ps
  }

  // ---------------------------------------------------------------------------
  // Which axis a (possibly negative) `axis` argument selects.

  /** The axis whose extent is tested against 1, and the axis the slices run along. */
  datatype AxisUse = AxisUse(extentAxis: nat, sliceAxis: nat)

  /**
   * Axis selection as util.py:41-50 writes it: a negative axis gets `ndim` added
   * once; `assert ndim > axis` rejects only the too-large ones; `shape[axis]`
   * then indexes from the end for a negative value, while
   * `(slice(None),) * axis` is the empty tuple, so the slice runs along axis 0.
   * `None` is a raised exception.
   */
  function AxisUseAsWritten(axis: int, ndim: nat): (r: Option<AxisUse>)
    ensures r.Some? <==> -2 * (ndim as int) <= axis < ndim
    ensures r.Some? ==> r.value.extentAxis < ndim && (r.value.extentAxis as int - axis) % (ndim as int) == 0
    ensures r.Some? && -(ndim as int) <= axis ==> r.value.sliceAxis == r.value.extentAxis
    ensures r.Some? && axis < -(ndim as int) ==> r.value.sliceAxis == 0
  {
    var n := ndim as int;
    var a := if axis < 0 then axis + n else axis;
    if a >= n then None
    else if a >= 0 then Some(AxisUse(a, a))
    else if a >= -n then Some(AxisUse(a + n, 0))
    else None
  }

  /** On a 2-D volume, axis -3 is accepted: the extent of axis 1 is tested, axis 0 is sliced. */
  lemma AxisUseAsWrittenMismatch()
    ensures AxisUseAsWritten(-3, 2) == Some(AxisUse(1, 0))
  {
  }

  /** Axis selection as intended: every axis in `[-ndim, ndim)` names one axis, every other is rejected. */
  function NormaliseAxis(axis: int, ndim: nat): (r: Option<nat>)
    ensures r.Some? <==> -(ndim as int) <= axis < ndim
    ensures r.Some? ==> r.value < ndim && r.value % ndim == axis % ndim
  {
    if -(ndim as int) <= axis < ndim then Some(if axis < 0 then axis + ndim else axis) else None
  }

  /**
   * The written code and the intended one agree on `[-ndim, ndim)`; outside it the
   * written code either rejects too or tests one axis while slicing another.
   */
  lemma NormaliseAxisVersusAsWritten(axis: int, ndim: nat)
    ensures NormaliseAxis(axis, ndim).Some? ==>
      AxisUseAsWritten(axis, ndim) == Some(AxisUse(NormaliseAxis(axis, ndim).value, NormaliseAxis(axis, ndim).value))
    ensures NormaliseAxis(axis, ndim).None? && AxisUseAsWritten(axis, ndim).Some? ==>
      AxisUseAsWritten(axis, ndim).value.sliceAxis == 0 && AxisUseAsWritten(axis, ndim).value.extentAxis == axis + 2 * ndim
  {
  }

  // ---------------------------------------------------------------------------
  // edge_mask_for_axis

  /** The boundary mask along an axis already normalised to `[0, ndim)`. */
  function MaskAlongAxis(shape: seq<nat>, data: seq<nat>, axis: nat): (m: EdgeMask)
    requires |data| == Product(shape) && axis < |shape|
    ensures |m.bits| == Product(m.shape)
    ensures shape[axis] == 1 ==> m.shape == shape && forall q :: 0 <= q < |m.bits| ==> !m.bits[q]
    ensures shape[axis] != 1 ==> m.shape == Reduced(shape, axis)
  {
    if shape[axis] == 1 then
      EdgeMask(shape, seq(|data|, q => false))
    else
      var r := Reduced(shape, axis);
      var s := Stride(shape, axis);
      EdgeMask(r, seq(Product(r), q requires 0 <= q < Product(r) =>
        data[LeftIndex(shape, axis, q)] != data[LeftIndex(shape, axis, q) + s]))
  }

  /** `edge_mask_for_axis(label_img, axis)`; `None` when the axis is rejected. */
  function EdgeMaskForAxis(shape: seq<nat>, data: seq<nat>, axis: int): (r: Option<EdgeMask>)
    requires |data| == Product(shape)
    ensures r.Some? <==> -|shape| <= axis < |shape|
    ensures r.Some? ==> r == Some(MaskAlongAxis(shape, data, NormaliseAxis(axis, |shape|).value))
  {
    match NormaliseAxis(axis, |shape|)
    case None => None
    case Some(a) => Some(MaskAlongAxis(shape, data, a))
  }

  /** The mask position of left-view coordinate `c` sits over the voxel at `c`. */
  lemma LeftIndexAt(shape: seq<nat>, axis: nat, c: seq<nat>)
    requires axis < |shape| && InBounds(c, Reduced(shape, axis))
    ensures InBounds(c, shape) && InBounds(c[axis := c[axis] + 1], shape)
    ensures Ravel(c, Reduced(shape, axis)) < Product(Reduced(shape, axis))
    ensures LeftIndex(shape, axis, Ravel(c, Reduced(shape, axis))) == Ravel(c, shape)
    ensures LeftIndex(shape, axis, Ravel(c, Reduced(shape, axis))) + Stride(shape, axis)
      == Ravel(c[axis := c[axis] + 1], shape)
  {
    UnravelRavel(c, Reduced(shape, axis));
    assert InBounds(c, shape);
    RavelStep(c, shape, axis);
  }

  /** The labels of the voxel at left-view coordinate `c` and of its successor along `axis`, in that order. */
  function VoxelPair(shape: seq<nat>, data: seq<nat>, axis: nat, c: seq<nat>): EdgeId
    requires |data| == Product(shape) && axis < |shape| && InBounds(c, Reduced(shape, axis))
  {
    LeftIndexAt(shape, axis, c);
    EdgeId(LabelAt(shape, data, c), LabelAt(shape, data, c[axis := c[axis] + 1]))
  }

  /** Both labels of a voxel pair occur in the volume. */
  lemma VoxelPairOccurs(shape: seq<nat>, data: seq<nat>, axis: nat, c: seq<nat>)
    requires |data| == Product(shape) && axis < |shape| && InBounds(c, Reduced(shape, axis))
    ensures VoxelPair(shape, data, axis, c).sp1 in data && VoxelPair(shape, data, axis, c).sp2 in data
  {
    LeftIndexAt(shape, axis, c);
    RavelBound(c, shape);
    RavelBound(c[axis := c[axis] + 1], shape);
  }

  /** Coordinate of the `k`-th true entry of a mask, in scan order. */
  function MaskCoordinate(mask: EdgeMask, k: nat): (c: seq<nat>)
    requires |mask.bits| == Product(mask.shape) && k < CountTrue(mask.bits)
    ensures InBounds(c, mask.shape)
  {
    Unravel(TruePositions(mask.bits)[k], mask.shape)
  }

  /**
   * The mask is true at a left-view coordinate `c` exactly when the voxel at `c`
   * and its successor along `axis` carry different labels.
   */
  lemma EdgeMaskAt(shape: seq<nat>, data: seq<nat>, axis: nat, c: seq<nat>)
    requires |data| == Product(shape) && axis < |shape| && shape[axis] != 1
    requires InBounds(c, Reduced(shape, axis))
    ensures InBounds(c, shape) && InBounds(c[axis := c[axis] + 1], shape)
    ensures Ravel(c, Reduced(shape, axis)) < |MaskAlongAxis(shape, data, axis).bits|
    ensures MaskAlongAxis(shape, data, axis).bits[Ravel(c, Reduced(shape, axis))]
        == (LabelAt(shape, data, c) != LabelAt(shape, data, c[axis := c[axis] + 1]))
  {
    LeftIndexAt(shape, axis, c);
    var m := MaskAlongAxis(shape, data, axis);
    var q := Ravel(c, Reduced(shape, axis));
    assert m.bits[q] == (data[LeftIndex(shape, axis, q)] != data[LeftIndex(shape, axis, q) + Stride(shape, axis)]);
  }

  // ---------------------------------------------------------------------------
  // edge_ids_for_axis

  /** Left and right labels of every true mask position, in scan order, along a normalised axis. */
  function PairsAlongAxis(shape: seq<nat>, data: seq<nat>, mask: EdgeMask, axis: nat): (ids: seq<EdgeId>)
    requires |data| == Product(shape) && axis < |shape|
    requires shape[axis] != 1 ==> mask.shape == Reduced(shape, axis) && |mask.bits| == Product(mask.shape)
    ensures shape[axis] == 1 ==> ids == []
    ensures shape[axis] != 1 ==> |ids| == CountTrue(mask.bits)
  {
    if shape[axis] == 1 then []
    else
      seq(CountTrue(mask.bits), k requires 0 <= k < CountTrue(mask.bits) =>
        VoxelPair(shape, data, axis, MaskCoordinate(mask, k)))
  }

  /** `edge_ids_for_axis(label_img, edge_mask, axis)`; `None` when the axis is rejected. */
  function EdgeIdsForAxis(shape: seq<nat>, data: seq<nat>, mask: EdgeMask, axis: int): (r: Option<seq<EdgeId>>)
    requires |data| == Product(shape)
    requires forall a :: 0 <= a < |shape| && shape[a] != 1 && NormaliseAxis(axis, |shape|) == Some(a) ==>
      mask.shape == Reduced(shape, a) && |mask.bits| == Product(mask.shape)
    ensures r.Some? <==> -|shape| <= axis < |shape|
    ensures r.Some? ==> r.value == PairsAlongAxis(shape, data, mask, NormaliseAxis(axis, |shape|).value)
  {
    match NormaliseAxis(axis, |shape|)
    case None => None
    case Some(a) => Some(PairsAlongAxis(shape, data, mask, a))
  }

  /**
   * Row `k` holds the label of the voxel at the `k`-th true mask coordinate and the
   * label of its successor along `axis`, in that (left-to-right) order.
   */
  lemma PairsAt(shape: seq<nat>, data: seq<nat>, mask: EdgeMask, axis: nat, k: nat)
    requires |data| == Product(shape) && axis < |shape| && shape[axis] != 1
    requires mask.shape == Reduced(shape, axis) && |mask.bits| == Product(mask.shape)
    requires k < CountTrue(mask.bits)
    ensures var c := MaskCoordinate(mask, k);
      && Ravel(c, mask.shape) < |mask.bits| && mask.bits[Ravel(c, mask.shape)]
      && PairsAlongAxis(shape, data, mask, axis)[k] == VoxelPair(shape, data, axis, c)
  {
    MaskCoordinateAt(mask, k);
  }

  /** The flat index of the `k`-th mask coordinate is the `k`-th true position. */
  lemma MaskCoordinateAt(mask: EdgeMask, k: nat)
    requires |mask.bits| == Product(mask.shape) && k < CountTrue(mask.bits)
    ensures Ravel(MaskCoordinate(mask, k), mask.shape) == TruePositions(mask.bits)[k]
    ensures TruePositions(mask.bits)[k] < |mask.bits| && mask.bits[TruePositions(mask.bits)[k]]
  {
  }

  /** Along the volume's own mask, every row joins two different labels. */
  lemma PairsJoinDifferentLabels(shape: seq<nat>, data: seq<nat>, axis: nat)
    requires |data| == Product(shape) && axis < |shape|
    ensures forall k :: 0 <= k < |PairsAlongAxis(shape, data, MaskAlongAxis(shape, data, axis), axis)| ==>
      PairsAlongAxis(shape, data, MaskAlongAxis(shape, data, axis), axis)[k].sp1
      != PairsAlongAxis(shape, data, MaskAlongAxis(shape, data, axis), axis)[k].sp2
  {
    var mask := MaskAlongAxis(shape, data, axis);
    var ids := PairsAlongAxis(shape, data, mask, axis);
    forall k | 0 <= k < |ids|
      ensures ids[k].sp1 != ids[k].sp2
    {
      var c := MaskCoordinate(mask, k);
      PairsAt(shape, data, mask, axis, k);
      EdgeMaskAt(shape, data, axis, c);
    }
  }
}
