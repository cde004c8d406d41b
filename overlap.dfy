/**
 * Overlap statistics between two label volumes of the same size
 * (ilastikrag/util.py, `contingency_table` and `label_vol_mapping`).
 * Volumes are given flat; only the voxel-by-voxel pairing matters here.
 */
module Overlap {
  import opened Wrappers

  datatype OverlapError =
    | EmptyVolume      // `vol.max()` of an empty volume
    | LengthMismatch   // the two flattened index arrays have different lengths
    | LabelOutOfRange  // a label exceeds the given `maxlabels`

  /** Number of positions `p` with `v1[p] == i` and `v2[p] == j`. */
  function Count(v1: seq<nat>, v2: seq<nat>, i: nat, j: nat): nat
    requires |v1| == |v2|
  {
    if |v1| == 0 then 0
    else
      var n := |v1| - 1;
      Count(v1[..n], v2[..n], i, j) + (if v1[n] == i && v2[n] == j then 1 else 0)
  }

  /** Number of positions of `v` holding label `i`. */
  function CountLabel(v: seq<nat>, i: nat): nat
  {
    if |v| == 0 then 0
    else CountLabel(v[..|v| - 1], i) + (if v[|v| - 1] == i then 1 else 0)
  }

  /** `vol.max()` of a non-empty volume. */
  function MaxLabel(v: seq<nat>): (m: nat)
    requires |v| > 0
    ensures m in v
    ensures forall p :: 0 <= p < |v| ==> v[p] <= m
  {
    if |v| == 1 then v[0]
    else
      var m := MaxLabel(v[..|v| - 1]);
      assert forall p :: 0 <= p < |v| - 1 ==> v[p] == v[..|v| - 1][p];
      if v[|v| - 1] > m then v[|v| - 1] else m
  }

  predicate AllBelow(v: seq<nat>, bound: nat)
  {
    forall p :: 0 <= p < |v| ==> v[p] < bound
  }

  /**
   * The table dimensions `contingency_table` allocates, or the error it raises:
   * `maxlabels` defaults to the two maxima; every pair of labels must then index
   * into the table.
   */
  function ContingencyShape(v1: seq<nat>, v2: seq<nat>, maxlabels: Option<(nat, nat)>): (r: Result<(nat, nat), OverlapError>)
    ensures r.Ok? <==>
      |v1| == |v2| && (maxlabels.None? ==> |v1| > 0) &&
      (maxlabels.Some? ==> AllBelow(v1, maxlabels.value.0 + 1) && AllBelow(v2, maxlabels.value.1 + 1))
    ensures r.Ok? && maxlabels.Some? ==> r.value == (maxlabels.value.0 + 1, maxlabels.value.1 + 1)
    ensures r.Ok? && maxlabels.None? ==> r.value == (MaxLabel(v1) + 1, MaxLabel(v2) + 1)
    ensures r.Ok? ==> r.value.0 > 0 && r.value.1 > 0 && AllBelow(v1, r.value.0) && AllBelow(v2, r.value.1)
    ensures r.Err? && maxlabels.None? ==> r.error != LabelOutOfRange
  {
    var dims :=
      match maxlabels
      case Some(m) => Ok((m.0 + 1, m.1 + 1))
      case None =>
        if |v1| == 0 || |v2| == 0 then Err(EmptyVolume) else Ok((MaxLabel(v1) + 1, MaxLabel(v2) + 1));
    if dims.Err? then Err(dims.error)
    else if |v1| != |v2| then Err(LengthMismatch)
    else if !(AllBelow(v1, dims.value.0) && AllBelow(v2, dims.value.1)) then Err(LabelOutOfRange)
    else dims
  }

  /**
   * `contingency_table(vol1, vol2, maxlabels)`: a zeroed table of the chosen
   * dimensions, incremented once at `(vol1[p], vol2[p])` for every position `p`.
   */
  method ContingencyTable(vol1: seq<nat>, vol2: seq<nat>, maxlabels: Option<(nat, nat)>)
    returns (r: Result<array2<nat>, OverlapError>)
    ensures r.Err? <==> ContingencyShape(vol1, vol2, maxlabels).Err?
    ensures r.Err? ==> r.error == ContingencyShape(vol1, vol2, maxlabels).error
    ensures r.Ok? ==> fresh(r.value)
    ensures r.Ok? ==> (r.value.Length0, r.value.Length1) == ContingencyShape(vol1, vol2, maxlabels).value
    ensures r.Ok? ==> forall i, j :: 0 <= i < r.value.Length0 && 0 <= j < r.value.Length1 ==>
      r.value[i, j] == Count(vol1, vol2, i, j)
  {
    var dims := ContingencyShape(vol1, vol2, maxlabels);
    if dims.Err? {
      return Err(dims.error);
    }
    var table := new nat[dims.value.0, dims.value.1]((i, j) => 0);
    for p := 0 to |vol1|
      invariant forall i, j :: 0 <= i < table.Length0 && 0 <= j < table.Length1 ==>
        table[i, j] == Count(vol1[..p], vol2[..p], i, j)
    {
      assert vol1[..p + 1][..p] == vol1[..p] && vol2[..p + 1][..p] == vol2[..p];
      table[vol1[p], vol2[p]] := table[vol1[p], vol2[p]] + 1;
    }
    assert vol1[..|vol1|] == vol1 && vol2[..|vol2|] == vol2;
    return Ok(table);
  }

  // ---------------------------------------------------------------------------
  // Marginals of the table

  /** Sum of row `i` of the table over its first `cols` columns. */
  function RowSum(v1: seq<nat>, v2: seq<nat>, i: nat, cols: nat): nat
    requires |v1| == |v2|
  {
    if cols == 0 then 0 else RowSum(v1, v2, i, cols - 1) + Count(v1, v2, i, cols - 1)
  }

  /** Sum of the first `rows` rows of the table, each over its first `cols` columns. */
  function TableSum(v1: seq<nat>, v2: seq<nat>, rows: nat, cols: nat): nat
    requires |v1| == |v2|
  {
    if rows == 0 then 0 else TableSum(v1, v2, rows - 1, cols) + RowSum(v1, v2, rows - 1, cols)
  }

  /** Sum of the label counts of `v` for the labels below `rows`. */
  function LabelCountSum(v: seq<nat>, rows: nat): nat
  {
    if rows == 0 then 0 else LabelCountSum(v, rows - 1) + CountLabel(v, rows - 1)
  }

  lemma {:induction false} RowSumSnoc(v1: seq<nat>, v2: seq<nat>, a: nat, b: nat, i: nat, cols: nat)
    requires |v1| == |v2|
    ensures RowSum(v1 + [a], v2 + [b], i, cols) == RowSum(v1, v2, i, cols) + (if a == i && b < cols then 1 else 0)
  {
    assert (v1 + [a])[..|v1|] == v1 && (v2 + [b])[..|v2|] == v2;
    if cols > 0 {
      RowSumSnoc(v1, v2, a, b, i, cols - 1);
    }
  }

  /** A row of the table sums to the number of voxels of `v1` with that label. */
  lemma {:induction false} RowMarginal(v1: seq<nat>, v2: seq<nat>, i: nat, cols: nat)
    requires |v1| == |v2| && AllBelow(v2, cols)
    ensures RowSum(v1, v2, i, cols) == CountLabel(v1, i)
  {
    if |v1| > 0 {
      var n := |v1| - 1;
      assert AllBelow(v2[..n], cols);
      RowMarginal(v1[..n], v2[..n], i, cols);
      assert v1 == v1[..n] + [v1[n]] && v2 == v2[..n] + [v2[n]];
      RowSumSnoc(v1[..n], v2[..n], v1[n], v2[n], i, cols);
    } else {
      RowSumEmpty(v1, v2, i, cols);
    }
  }

  lemma {:induction false} RowSumEmpty(v1: seq<nat>, v2: seq<nat>, i: nat, cols: nat)
    requires |v1| == |v2| == 0
    ensures RowSum(v1, v2, i, cols) == 0
  {
    if cols > 0 {
      RowSumEmpty(v1, v2, i, cols - 1);
    }
  }

  lemma {:induction false} LabelCountSumSnoc(v: seq<nat>, a: nat, rows: nat)
    ensures LabelCountSum(v + [a], rows) == LabelCountSum(v, rows) + (if a < rows then 1 else 0)
  {
    assert (v + [a])[..|v|] == v;
    if rows > 0 {
      LabelCountSumSnoc(v, a, rows - 1);
    }
  }

  lemma {:induction false} LabelCountSumEmpty(v: seq<nat>, rows: nat)
    requires |v| == 0
    ensures LabelCountSum(v, rows) == 0
  {
    if rows > 0 {
      LabelCountSumEmpty(v, rows - 1);
    }
  }

  /** When every label is below `rows`, the label counts add up to the voxel count. */
  lemma {:induction false} LabelCountsCover(v: seq<nat>, rows: nat)
    requires AllBelow(v, rows)
    ensures LabelCountSum(v, rows) == |v|
  {
    if |v| > 0 {
      var n := |v| - 1;
      assert AllBelow(v[..n], rows);
      LabelCountsCover(v[..n], rows);
      assert v == v[..n] + [v[n]];
      LabelCountSumSnoc(v[..n], v[n], rows);
    } else {
      LabelCountSumEmpty(v, rows);
    }
  }

  lemma {:induction false} TableSumByRows(v1: seq<nat>, v2: seq<nat>, rows: nat, cols: nat)
    requires |v1| == |v2| && AllBelow(v2, cols)
    ensures TableSum(v1, v2, rows, cols) == LabelCountSum(v1, rows)
  {
    if rows > 0 {
      TableSumByRows(v1, v2, rows - 1, cols);
      RowMarginal(v1, v2, rows - 1, cols);
    }
  }

  /** The entries of a successfully built table add up to the number of voxels. */
  lemma ContingencyTotal(v1: seq<nat>, v2: seq<nat>, maxlabels: Option<(nat, nat)>)
    requires ContingencyShape(v1, v2, maxlabels).Ok?
    ensures var (rows, cols) := ContingencyShape(v1, v2, maxlabels).value;
      TableSum(v1, v2, rows, cols) == |v1|
  {
    var (rows, cols) := ContingencyShape(v1, v2, maxlabels).value;
    TableSumByRows(v1, v2, rows, cols);
    LabelCountsCover(v1, rows);
  }

  // ---------------------------------------------------------------------------
  // label_vol_mapping

  /** `np.argmax` of a non-empty row: the first index holding the maximum. */
  function ArgMax(row: seq<nat>): (j: nat)
    requires |row| > 0
    ensures j < |row|
    ensures forall k :: 0 <= k < |row| ==> row[k] <= row[j]
    ensures forall k :: 0 <= k < j ==> row[k] < row[j]
  {
    if |row| == 1 then 0
    else
      var n := |row| - 1;
      var j := ArgMax(row[..n]);
      assert forall k :: 0 <= k < n ==> row[..n][k] == row[k];
      if row[n] > row[j] then n else j
  }

  /** Row `i` of the default-sized table of `vFrom` against `vTo`. */
  function OverlapRow(vFrom: seq<nat>, vTo: seq<nat>, i: nat): (row: seq<nat>)
    requires |vFrom| == |vTo| && |vTo| > 0
    ensures |row| == MaxLabel(vTo) + 1
    ensures forall j :: 0 <= j < |row| ==> row[j] == Count(vFrom, vTo, i, j)
  {
    seq(MaxLabel(vTo) + 1, j requires 0 <= j <= MaxLabel(vTo) => Count(vFrom, vTo, i, j))
  }

  /**
   * `label_vol_mapping(vol_from, vol_to)`: for every label `i` of `vol_from`
   * up to its maximum, the label of `vol_to` it overlaps most, the smallest on a tie.
   */
  function LabelVolMapping(vFrom: seq<nat>, vTo: seq<nat>): (r: Result<seq<nat>, OverlapError>)
    ensures r.Err? <==> ContingencyShape(vFrom, vTo, None).Err?
    ensures r.Err? ==> r.error == ContingencyShape(vFrom, vTo, None).error
    ensures r.Ok? ==> |r.value| == MaxLabel(vFrom) + 1
    ensures r.Ok? ==> forall i :: 0 <= i < |r.value| ==>
      r.value[i] <= MaxLabel(vTo)
      && (forall j :: 0 <= j <= MaxLabel(vTo) ==> Count(vFrom, vTo, i, j) <= Count(vFrom, vTo, i, r.value[i]))
      && (forall j :: 0 <= j < r.value[i] ==> Count(vFrom, vTo, i, j) < Count(vFrom, vTo, i, r.value[i]))
  {
    var shape := ContingencyShape(vFrom, vTo, None);
    if shape.Err? then Err(shape.error)
    else Ok(seq(MaxLabel(vFrom) + 1, i requires 0 <= i <= MaxLabel(vFrom) => ArgMax(OverlapRow(vFrom, vTo, i))))
  }

  /** A label of `vol_from` that never occurs overlaps nothing and maps to 0. */
  lemma {:induction false} AbsentLabelMapsToZero(vFrom: seq<nat>, vTo: seq<nat>, i: nat)
    requires LabelVolMapping(vFrom, vTo).Ok? && i < |LabelVolMapping(vFrom, vTo).value|
    requires CountLabel(vFrom, i) == 0
    ensures LabelVolMapping(vFrom, vTo).value[i] == 0
  {
    var shape := ContingencyShape(vFrom, vTo, None);
    RowMarginal(vFrom, vTo, i, shape.value.1);
    var m := LabelVolMapping(vFrom, vTo).value[i];
    RowSumBoundsEntry(vFrom, vTo, i, shape.value.1, m);
    assert Count(vFrom, vTo, i, m) == 0;
    var atZero := Count(vFrom, vTo, i, 0);
  }

  lemma {:induction false} RowSumBoundsEntry(v1: seq<nat>, v2: seq<nat>, i: nat, cols: nat, j: nat)
    requires |v1| == |v2| && j < cols
    ensures Count(v1, v2, i, j) <= RowSum(v1, v2, i, cols)
  {
    if j < cols - 1 {
      RowSumBoundsEntry(v1, v2, i, cols - 1, j);
    }
  }

  /** Overlapping a volume with itself counts a label only against itself. */
  lemma {:induction false} SelfOverlap(v: seq<nat>, i: nat, j: nat)
    ensures Count(v, v, i, j) == (if i == j then CountLabel(v, i) else 0)
  {
    if |v| > 0 {
      SelfOverlap(v[..|v| - 1], i, j);
    }
  }

  /** A label that occurs is counted at least once. */
  lemma {:induction false} OccurringLabelCounted(v: seq<nat>, i: nat)
    requires i in v
    ensures CountLabel(v, i) > 0
  {
    var n := |v| - 1;
    if v[n] != i {
      assert i in v[..n] by {
        var p :| 0 <= p < |v| && v[p] == i;
        assert v[..n][p] == i;
      }
      OccurringLabelCounted(v[..n], i);
    }
  }

  /** Against a constant reference volume, every label overlaps only that constant. */
  lemma {:induction false} ConstantOverlap(v: seq<nat>, gt: seq<nat>, g: nat, i: nat, j: nat)
    requires |v| == |gt| && forall p :: 0 <= p < |gt| ==> gt[p] == g
    ensures Count(v, gt, i, j) == (if j == g then CountLabel(v, i) else 0)
  {
    if |v| > 0 {
      var n := |v| - 1;
      assert forall p :: 0 <= p < n ==> gt[..n][p] == gt[p];
      ConstantOverlap(v[..n], gt[..n], g, i, j);
    }
  }

  /** Mapping a volume onto itself sends every occurring label to itself. */
  lemma IdentityMapping(v: seq<nat>)
    requires |v| > 0
    ensures LabelVolMapping(v, v).Ok?
    ensures forall i :: i in v ==> i < |LabelVolMapping(v, v).value| && LabelVolMapping(v, v).value[i] == i
  {
    var m := LabelVolMapping(v, v).value;
    forall i | i in v ensures i < |m| && m[i] == i {
      OccurringLabelCounted(v, i);
      SelfOverlap(v, i, i);
      SelfOverlap(v, i, m[i]);
    }
  }

  /** Mapping onto a constant reference volume sends every occurring label to that constant. */
  lemma ConstantMapping(v: seq<nat>, gt: seq<nat>, g: nat)
    requires |v| > 0 && |v| == |gt| && forall p :: 0 <= p < |gt| ==> gt[p] == g
    ensures LabelVolMapping(v, gt).Ok?
    ensures forall i :: i in v ==> i < |LabelVolMapping(v, gt).value| && LabelVolMapping(v, gt).value[i] == g
  {
    var m := LabelVolMapping(v, gt).value;
    assert MaxLabel(gt) == g;
    forall i | i in v ensures i < |m| && m[i] == g {
      OccurringLabelCounted(v, i);
      ConstantOverlap(v, gt, g, i, g);
      ConstantOverlap(v, gt, g, i, m[i]);
    }
  }
}
