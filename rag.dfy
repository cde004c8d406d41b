/**
 * The region adjacency graph of a label volume (ilastikrag/rag.py, class `Rag`):
 * per-axis boundary faces, the edge catalogue, one table of faces per axis,
 * the superpixel ids, and the two graph operations built on top of them
 * (edge decisions from a reference segmentation, and the segmentation
 * induced by a set of edge decisions).
 */
module RagModel {
  import opened Wrappers
  import opened Grids
  import opened EdgeExtraction
  import opened EdgeCatalogue
  import opened Overlap
  import opened Components

  // ---------------------------------------------------------------------------
  // The label volume

  datatype DType = UInt32 | OtherDType

  /**
   * A label image: its shape, the vigra axis keys (`None` for an array without
   * `axistags`), its dtype, and its labels in row-major order.
   */
  datatype LabelVolume = LabelVolume(shape: seq<nat>, axisKeys: Option<seq<char>>, dtype: DType, data: seq<nat>)

  predicate DistinctKeys(keys: seq<char>)
  {
    forall i, j :: 0 <= i < j < |keys| ==> keys[i] != keys[j]
  }

  /** The labels fill the shape; a vigra array carries one distinct key per axis. */
  predicate WellFormed(v: LabelVolume)
  {
    |v.data| == Product(v.shape)
    && (v.axisKeys.Some? ==> |v.axisKeys.value| == |v.shape| && DistinctKeys(v.axisKeys.value))
  }

  /** Every key is one of `z`, `y`, `x`. */
  predicate SpatialKeys(keys: seq<char>)
  {
    forall i :: 0 <= i < |keys| ==> keys[i] == 'z' || keys[i] == 'y' || keys[i] == 'x'
  }

  datatype RagError =
    | NoAxistags      // the image is not a VigraArray
    | NonSpatialAxes  // an axis other than z, y, x
    | NotUInt32       // the dtype is not uint32
    | NoAxes          // a 0-D image: `pd.concat` of no tables
    | NoEdges         // no boundary face at all: `max()` of the empty `sp_ids`

  /** The exception `Rag(label_img)` raises, if any, in the order the code meets them. */
  function Rejection(v: LabelVolume): (r: Option<RagError>)
    requires WellFormed(v)
    ensures r == Some(NoAxistags) <==> v.axisKeys.None?
    ensures r == Some(NonSpatialAxes) <==> v.axisKeys.Some? && !SpatialKeys(v.axisKeys.value)
    ensures r == Some(NotUInt32) <==> v.axisKeys.Some? && SpatialKeys(v.axisKeys.value) && v.dtype != UInt32
    ensures r == Some(NoAxes) <==> v.axisKeys.Some? && SpatialKeys(v.axisKeys.value) && v.dtype == UInt32 && |v.shape| == 0
    ensures r.None? <==>
      (v.axisKeys.Some? && SpatialKeys(v.axisKeys.value) && v.dtype == UInt32 && |v.shape| > 0
       && exists a :: 0 <= a < |v.shape| && CountTrue(MaskAlongAxis(v.shape, v.data, a).bits) > 0)
  {
    if v.axisKeys.None? then Some(NoAxistags)
    else if !SpatialKeys(v.axisKeys.value) then Some(NonSpatialAxes)
    else if v.dtype != UInt32 then Some(NotUInt32)
    else if |v.shape| == 0 then Some(NoAxes)
    else
      CatalogueEmptyIffNoFaces(v);
      if |VolumeCatalogue(v.shape, v.data).value| == 0 then Some(NoEdges) else None
  }

  /** The catalogue is empty exactly when no axis has a boundary face. */
  lemma CatalogueEmptyIffNoFaces(v: LabelVolume)
    requires WellFormed(v) && |v.shape| > 0
    ensures |VolumeCatalogue(v.shape, v.data).value| == 0
      <==> forall a :: 0 <= a < |v.shape| ==> CountTrue(MaskAlongAxis(v.shape, v.data, a).bits) == 0
  {
    var all := VolumePairs(v.shape, v.data);
    var cat := VolumeCatalogue(v.shape, v.data).value;
    if |cat| == 0 {
      forall a | 0 <= a < |v.shape| ensures CountTrue(MaskAlongAxis(v.shape, v.data, a).bits) == 0 {
        FacesOfAxis(v, a);
        if |all[a]| > 0 {
          assert all[a][0] in all[a];
          assert InSome(all, all[a][0]);
          assert false;
        }
      }
    } else {
      var e := PairsOf(cat)[0];
      assert e in PairsOf(cat);
      var a :| 0 <= a < |all| && e in all[a];
      FacesOfAxis(v, a);
    }
  }

  /** An accepted image has at most three axes, because its keys are distinct letters among z, y, x. */
  lemma AtMostThreeAxes(v: LabelVolume)
    requires WellFormed(v) && v.axisKeys.Some? && SpatialKeys(v.axisKeys.value)
    ensures |v.shape| <= 3
  {
    FirstFourKeys(v.axisKeys.value);
  }

  lemma FirstFourKeys(keys: seq<char>)
    ensures |keys| >= 4 ==> keys[..4] == [keys[0], keys[1], keys[2], keys[3]]
  {
  }

  // ---------------------------------------------------------------------------
  // Face coordinates and their storage width

  /** Bits per stored coordinate: 16 when every extent is below 2^16, else 32. */
  function CoordWidth(shape: seq<nat>): (w: nat)
    ensures w == 16 <==> forall d :: 0 <= d < |shape| ==> shape[d] < 0x1_0000
    ensures w == 16 || w == 32
  {
    if forall d :: 0 <= d < |shape| ==> shape[d] < 0x1_0000 then 16 else 32
  }

  function Modulus(w: nat): nat
  {
    if w == 16 then 0x1_0000 else 0x1_0000_0000
  }

  /** `astype(np.uint16)` or `astype(np.uint32)` of one coordinate. */
  function Cast(x: nat, w: nat): nat
  {
    x % Modulus(w)
  }

  /** `nonzero_coord_array(mask).transpose()`: one column per mask axis, one entry per true position. */
  function MaskCoords(mask: EdgeMask): (cols: seq<seq<nat>>)
    requires |mask.bits| == Product(mask.shape)
    ensures |cols| == |mask.shape|
    ensures forall d :: 0 <= d < |cols| ==> |cols[d]| == CountTrue(mask.bits)
  {
    var ps := TruePositions(mask.bits);
    seq(|mask.shape|, d requires 0 <= d < |mask.shape| =>
      seq(|ps|, k requires 0 <= k < |ps| => Unravel(ps[k], mask.shape)[d]))
  }

  function CastCoords(cols: seq<seq<nat>>, w: nat): (r: seq<seq<nat>>)
    ensures |r| == |cols|
    ensures forall d :: 0 <= d < |cols| ==> |r[d]| == |cols[d]|
    ensures forall d, k :: 0 <= d < |cols| && 0 <= k < |cols[d]| ==> r[d][k] == Cast(cols[d][k], w)
  {
    seq(|cols|, d requires 0 <= d < |cols| =>
      seq(|cols[d]|, k requires 0 <= k < |cols[d]| => Cast(cols[d][k], w)))
  }

  // ---------------------------------------------------------------------------
  // Per-axis edge data

  /** One entry of `edge_datas`: coordinate columns, sorted pairs and forwardness, all in scan order. */
  datatype EdgeData = EdgeData(coords: seq<seq<nat>>, edgeIds: seq<EdgeId>, forwardness: seq<bool>)

  predicate WellShaped(ed: EdgeData, ndim: nat)
  {
    |ed.coords| == ndim && |ed.forwardness| == |ed.edgeIds|
    && forall d :: 0 <= d < ndim ==> |ed.coords[d]| == |ed.edgeIds|
  }

  /** A mask with no true entry has no true position. */
  lemma NoTruePositions(bits: seq<bool>)
    requires forall q :: 0 <= q < |bits| ==> !bits[q]
    ensures CountTrue(bits) == 0
  {
    HeadIsElement(TruePositions(bits));
  }

  /** Along any axis, the volume's own mask has one true position per raw pair. */
  lemma FacesOfAxis(v: LabelVolume, axis: nat)
    requires WellFormed(v) && axis < |v.shape|
    ensures var mask := MaskAlongAxis(v.shape, v.data, axis);
      |PairsAlongAxis(v.shape, v.data, mask, axis)| == CountTrue(mask.bits)
  {
    if v.shape[axis] == 1 {
      NoTruePositions(MaskAlongAxis(v.shape, v.data, axis).bits);
    }
  }

  /** What one iteration of the axis loop of `Rag.__init__` appends to `edge_datas`. */
  function AxisEdgeData(v: LabelVolume, axis: nat): (ed: EdgeData)
    requires WellFormed(v) && axis < |v.shape|
    ensures WellShaped(ed, |v.shape|)
    ensures |ed.edgeIds| == CountTrue(MaskAlongAxis(v.shape, v.data, axis).bits)
  {
    var mask := MaskAlongAxis(v.shape, v.data, axis);
    var raw := PairsAlongAxis(v.shape, v.data, mask, axis);
    FacesOfAxis(v, axis);
    EdgeData(CastCoords(MaskCoords(mask), CoordWidth(v.shape)),
             CanonicalPairsAlongAxis(v.shape, v.data, axis),
             seq(|raw|, k requires 0 <= k < |raw| => raw[k].sp1 < raw[k].sp2))
  }

  function AllEdgeData(v: LabelVolume): (eds: seq<EdgeData>)
    requires WellFormed(v)
    ensures |eds| == |v.shape|
  {
    seq(|v.shape|, a requires 0 <= a < |v.shape| => AxisEdgeData(v, a))
  }

  /** The `edge_ids` of every axis, as `_init_final_edge_label_lookup_df` passes them on. */
  function EdgeIdsOf(eds: seq<EdgeData>): (all: seq<seq<EdgeId>>)
    ensures |all| == |eds| && forall i :: 0 <= i < |eds| ==> all[i] == eds[i].edgeIds
  {
    seq(|eds|, i requires 0 <= i < |eds| => eds[i].edgeIds)
  }

  /** The catalogue built from the edge data is the volume's catalogue. */
  lemma EdgeDataCatalogue(v: LabelVolume)
    requires WellFormed(v)
    ensures UniqueEdgeLabelsSpec(EdgeIdsOf(AllEdgeData(v))) == VolumeCatalogue(v.shape, v.data)
  {
    assert EdgeIdsOf(AllEdgeData(v)) == VolumePairs(v.shape, v.data);
  }

  // ---------------------------------------------------------------------------
  // Axial face tables

  /** One row of an axial table: columns `sp1`, `sp2`, `forwardness`, `edge_label`, then `mask_coord`. */
  datatype FaceRow = FaceRow(sp1: nat, sp2: nat, forwardness: bool, edgeLabel: Option<nat>, maskCoord: seq<nat>)

  datatype AxialEdgeTable = AxialEdgeTable(coordKeys: seq<char>, rows: seq<FaceRow>)

  /** Catalogue row `row` holds pair `e`. */
  predicate Holds(row: EdgeRow, e: EdgeId)
  {
    row.sp1 == e.sp1 && row.sp2 == e.sp2
  }

  /** The label of the first catalogue row at or after `from` holding pair `e`; `None` (NaN) if none does. */
  function FindLabel(lookup: seq<EdgeRow>, e: EdgeId, from: nat): (r: Option<nat>)
    ensures r.None? <==> forall i :: from <= i < |lookup| ==> !Holds(lookup[i], e)
    ensures r.Some? ==> exists i ::
      (from <= i < |lookup| && Holds(lookup[i], e) && lookup[i].edgeLabel == r.value
       && forall j :: from <= j < i ==> !Holds(lookup[j], e))
    decreases |lookup| - from
  {
    if from >= |lookup| then None
    else if lookup[from].sp1 == e.sp1 && lookup[from].sp2 == e.sp2 then Some(lookup[from].edgeLabel)
    else FindLabel(lookup, e, from + 1)
  }

  /** The `edge_label` the left join attaches to a face with pair `e`. */
  function JoinLabel(lookup: seq<EdgeRow>, e: EdgeId): (r: Option<nat>)
    ensures r.None? <==> forall i :: 0 <= i < |lookup| ==> !Holds(lookup[i], e)
    ensures r.Some? ==> exists i :: 0 <= i < |lookup| && Holds(lookup[i], e) && lookup[i].edgeLabel == r.value
  {
    FindLabel(lookup, e, 0)
  }

  /** A pair at catalogue position `l`, not found before `from <= l`, is found with label `l`. */
  lemma {:induction false} FindLabelAt(lookup: seq<EdgeRow>, e: EdgeId, from: nat, l: nat)
    requires from <= l < |lookup| && PairsOf(lookup)[l] == e
    requires StrictlySorted(PairsOf(lookup))
    requires forall i :: 0 <= i < |lookup| ==> lookup[i].edgeLabel == i
    ensures FindLabel(lookup, e, from) == Some(l)
    decreases l - from
  {
    var ps := PairsOf(lookup);
    if from < l {
      assert LexLt(ps[from], ps[l]);
      FindLabelAt(lookup, e, from + 1, l);
    }
  }

  /** In the catalogue every pair joins to the label of its own row. */
  lemma JoinFindsRow(lookup: seq<EdgeRow>, e: EdgeId)
    requires StrictlySorted(PairsOf(lookup))
    requires forall i :: 0 <= i < |lookup| ==> lookup[i].edgeLabel == i
    requires e in PairsOf(lookup)
    ensures JoinLabel(lookup, e).Some?
    ensures JoinLabel(lookup, e).value < |lookup|
    ensures lookup[JoinLabel(lookup, e).value] == EdgeRow(e.sp1, e.sp2, JoinLabel(lookup, e).value)
  {
    var l :| 0 <= l < |PairsOf(lookup)| && PairsOf(lookup)[l] == e;
    FindLabelAt(lookup, e, 0, l);
  }

  /** `_init_axial_edge_dfs` for one axis: the faces in scan order, joined with the catalogue. */
  function AxialTable(keys: seq<char>, lookup: seq<EdgeRow>, ed: EdgeData): (t: AxialEdgeTable)
    requires WellShaped(ed, |keys|)
    ensures t.coordKeys == keys && |t.rows| == |ed.edgeIds|
  {
    AxialEdgeTable(keys, seq(|ed.edgeIds|, k requires 0 <= k < |ed.edgeIds| =>
      FaceRow(ed.edgeIds[k].sp1, ed.edgeIds[k].sp2, ed.forwardness[k], JoinLabel(lookup, ed.edgeIds[k]),
              seq(|keys|, d requires 0 <= d < |keys| => ed.coords[d][k]))))
  }

  /** An image the axial tables can be built for: well formed, with axis keys and at least one axis. */
  predicate HasTables(v: LabelVolume)
  {
    WellFormed(v) && v.axisKeys.Some? && |v.shape| > 0
  }

  /** One axial table per entry of `edgeDatas`, all joined with the same catalogue. */
  function TablesOf(keys: seq<char>, lookup: seq<EdgeRow>, edgeDatas: seq<EdgeData>): (ts: seq<AxialEdgeTable>)
    requires forall i :: 0 <= i < |edgeDatas| ==> WellShaped(edgeDatas[i], |keys|)
    ensures |ts| == |edgeDatas|
    ensures forall i :: 0 <= i < |edgeDatas| ==> ts[i] == AxialTable(keys, lookup, edgeDatas[i])
  {
    seq(|edgeDatas|, i requires 0 <= i < |edgeDatas| => AxialTable(keys, lookup, edgeDatas[i]))
  }

  /** The axial tables of an image. */
  function AxialTables(v: LabelVolume): (ts: seq<AxialEdgeTable>)
    requires HasTables(v)
    ensures |ts| == |v.shape|
  {
    TablesOf(v.axisKeys.value, VolumeCatalogue(v.shape, v.data).value, AllEdgeData(v))
  }

  // ---------------------------------------------------------------------------
  // Faces and their rows

  /** Mask coordinate of the `k`-th face along `axis`, in scan order. */
  function FaceCoordinate(v: LabelVolume, axis: nat, k: nat): (c: seq<nat>)
    requires WellFormed(v) && axis < |v.shape|
    requires k < CountTrue(MaskAlongAxis(v.shape, v.data, axis).bits)
    ensures InBounds(c, MaskAlongAxis(v.shape, v.data, axis).shape)
  {
    MaskCoordinate(MaskAlongAxis(v.shape, v.data, axis), k)
  }

  /** `c` is the left voxel of a boundary face along `axis`: it and its successor carry different labels. */
  predicate IsFace(v: LabelVolume, axis: nat, c: seq<nat>)
    requires WellFormed(v) && axis < |v.shape|
  {
    v.shape[axis] != 1 && InBounds(c, Reduced(v.shape, axis))
    && VoxelPair(v.shape, v.data, axis, c).sp1 != VoxelPair(v.shape, v.data, axis, c).sp2
  }

  /** Row `k` of the data of `axis` belongs to the face at `c`. */
  predicate RowOfFace(v: LabelVolume, axis: nat, k: nat, c: seq<nat>)
    requires WellFormed(v) && axis < |v.shape|
  {
    k < CountTrue(MaskAlongAxis(v.shape, v.data, axis).bits) && FaceCoordinate(v, axis, k) == c
  }

  /** Every face along `axis` is the coordinate of exactly one row of that axis's data. */
  lemma EveryFaceHasOneRow(v: LabelVolume, axis: nat, c: seq<nat>)
    requires WellFormed(v) && axis < |v.shape| && IsFace(v, axis, c)
    ensures exists k :: RowOfFace(v, axis, k, c)
    ensures forall k, k' :: RowOfFace(v, axis, k, c) && RowOfFace(v, axis, k', c) ==> k == k'
  {
    var mask := MaskAlongAxis(v.shape, v.data, axis);
    var ps := TruePositions(mask.bits);
    EdgeMaskAt(v.shape, v.data, axis, c);
    var q := Ravel(c, mask.shape);
    assert q in ps;
    var k :| 0 <= k < |ps| && ps[k] == q;
    UnravelRavel(c, mask.shape);
    assert RowOfFace(v, axis, k, c);
    forall k1, k2 | RowOfFace(v, axis, k1, c) && RowOfFace(v, axis, k2, c)
      ensures k1 == k2
    {
      RowsHaveDistinctFaces(v, axis, k1, k2);
    }
  }

  /** Different rows of one axis lie at different mask coordinates. */
  lemma RowsHaveDistinctFaces(v: LabelVolume, axis: nat, k1: nat, k2: nat)
    requires WellFormed(v) && axis < |v.shape|
    requires k1 < CountTrue(MaskAlongAxis(v.shape, v.data, axis).bits)
    requires k2 < CountTrue(MaskAlongAxis(v.shape, v.data, axis).bits)
    requires FaceCoordinate(v, axis, k1) == FaceCoordinate(v, axis, k2)
    ensures k1 == k2
  {
    var mask := MaskAlongAxis(v.shape, v.data, axis);
    var ps := TruePositions(mask.bits);
    assert ps[k1] == Ravel(FaceCoordinate(v, axis, k1), mask.shape);
    assert ps[k2] == Ravel(FaceCoordinate(v, axis, k2), mask.shape);
  }

  /** Every row's mask coordinate is a face. */
  lemma EveryRowIsAFace(v: LabelVolume, axis: nat, k: nat)
    requires WellFormed(v) && axis < |v.shape| && k < CountTrue(MaskAlongAxis(v.shape, v.data, axis).bits)
    ensures IsFace(v, axis, FaceCoordinate(v, axis, k))
  {
    var mask := MaskAlongAxis(v.shape, v.data, axis);
    FacesOfAxis(v, axis);
    if v.shape[axis] == 1 {
      NoTruePositions(mask.bits);
    } else {
      RowPairAt(v, axis, k);
      PairsJoinDifferentLabels(v.shape, v.data, axis);
    }
  }

  /** The raw pair of row `k` is the pair of labels at its face. */
  lemma RowPairAt(v: LabelVolume, axis: nat, k: nat)
    requires WellFormed(v) && axis < |v.shape| && v.shape[axis] != 1
    requires k < CountTrue(MaskAlongAxis(v.shape, v.data, axis).bits)
    ensures k < |PairsAlongAxis(v.shape, v.data, MaskAlongAxis(v.shape, v.data, axis), axis)|
    ensures VoxelPair(v.shape, v.data, axis, FaceCoordinate(v, axis, k))
      == PairsAlongAxis(v.shape, v.data, MaskAlongAxis(v.shape, v.data, axis), axis)[k]
  {
    PairsAt(v.shape, v.data, MaskAlongAxis(v.shape, v.data, axis), axis, k);
  }

  /** Row `k` of the table of `axis`, spelt out field by field from that axis's edge data. */
  lemma TableRowAt(v: LabelVolume, axis: nat, k: nat)
    requires HasTables(v) && axis < |v.shape|
    requires k < CountTrue(MaskAlongAxis(v.shape, v.data, axis).bits)
    ensures |AxialTables(v)[axis].rows| == CountTrue(MaskAlongAxis(v.shape, v.data, axis).bits)
    ensures AxialTables(v)[axis].rows[k].sp1 == AxisEdgeData(v, axis).edgeIds[k].sp1
    ensures AxialTables(v)[axis].rows[k].sp2 == AxisEdgeData(v, axis).edgeIds[k].sp2
    ensures AxialTables(v)[axis].rows[k].forwardness == AxisEdgeData(v, axis).forwardness[k]
    ensures AxialTables(v)[axis].rows[k].edgeLabel
      == JoinLabel(VolumeCatalogue(v.shape, v.data).value, AxisEdgeData(v, axis).edgeIds[k])
    ensures |AxialTables(v)[axis].rows[k].maskCoord| == |v.shape|
    ensures forall d :: 0 <= d < |v.shape| ==>
      AxialTables(v)[axis].rows[k].maskCoord[d] == AxisEdgeData(v, axis).coords[d][k]
  {
    var eds := AllEdgeData(v);
    assert eds[axis] == AxisEdgeData(v, axis);
    TableRowOf(v.axisKeys.value, VolumeCatalogue(v.shape, v.data).value, eds, axis, k);
  }

  /** Row `k` of table `axis` among the tables built from `edgeDatas`. */
  lemma TableRowOf(keys: seq<char>, lookup: seq<EdgeRow>, edgeDatas: seq<EdgeData>, axis: nat, k: nat)
    requires forall i :: 0 <= i < |edgeDatas| ==> WellShaped(edgeDatas[i], |keys|)
    requires axis < |edgeDatas| && k < |edgeDatas[axis].edgeIds|
    ensures |TablesOf(keys, lookup, edgeDatas)[axis].rows| == |edgeDatas[axis].edgeIds|
    ensures TablesOf(keys, lookup, edgeDatas)[axis].rows[k]
      == FaceRow(edgeDatas[axis].edgeIds[k].sp1, edgeDatas[axis].edgeIds[k].sp2, edgeDatas[axis].forwardness[k],
                 JoinLabel(lookup, edgeDatas[axis].edgeIds[k]), TablesOf(keys, lookup, edgeDatas)[axis].rows[k].maskCoord)
    ensures |TablesOf(keys, lookup, edgeDatas)[axis].rows[k].maskCoord| == |keys|
    ensures forall d :: 0 <= d < |keys| ==>
      TablesOf(keys, lookup, edgeDatas)[axis].rows[k].maskCoord[d] == edgeDatas[axis].coords[d][k]
  {
  }

  /**
   * Row `k` of the axial table of `axis` describes the `k`-th face: its pair of
   * labels sorted and strictly ordered, whether the left label is the smaller one,
   * and the label of the catalogue row holding that pair.
   */
  lemma FaceRowAt(v: LabelVolume, axis: nat, k: nat)
    requires HasTables(v) && axis < |v.shape|
    requires k < |AxialTables(v)[axis].rows|
    ensures k < CountTrue(MaskAlongAxis(v.shape, v.data, axis).bits)
    ensures IsFace(v, axis, FaceCoordinate(v, axis, k))
    ensures var pair := VoxelPair(v.shape, v.data, axis, FaceCoordinate(v, axis, k));
      var row := AxialTables(v)[axis].rows[k];
      var lookup := VolumeCatalogue(v.shape, v.data).value;
      row.sp1 < row.sp2
      && EdgeId(row.sp1, row.sp2) == Canonical(pair)
      && row.forwardness == (pair.sp1 < pair.sp2)
      && row.edgeLabel.Some? && row.edgeLabel.value < |lookup|
      && lookup[row.edgeLabel.value] == EdgeRow(row.sp1, row.sp2, row.edgeLabel.value)
  {
    var mask := MaskAlongAxis(v.shape, v.data, axis);
    TableRowsAreFaces(v, axis);
    EveryRowIsAFace(v, axis, k);
    TableRowAt(v, axis, k);
    RowPairAt(v, axis, k);
    var e := CanonicalPairsAlongAxis(v.shape, v.data, axis)[k];
    CataloguedPair(v, axis, k);
    JoinFindsRow(VolumeCatalogue(v.shape, v.data).value, e);
  }

  /** The table rows of `axis` are as many as its faces. */
  lemma TableRowsAreFaces(v: LabelVolume, axis: nat)
    requires HasTables(v) && axis < |v.shape|
    ensures |AxialTables(v)[axis].rows| == CountTrue(MaskAlongAxis(v.shape, v.data, axis).bits)
  {
  }

  /** The sorted pair of row `k` of `axis` is a catalogue pair. */
  lemma CataloguedPair(v: LabelVolume, axis: nat, k: nat)
    requires WellFormed(v) && axis < |v.shape|
    requires k < CountTrue(MaskAlongAxis(v.shape, v.data, axis).bits)
    ensures k < |CanonicalPairsAlongAxis(v.shape, v.data, axis)|
    ensures StrictlySorted(PairsOf(VolumeCatalogue(v.shape, v.data).value))
    ensures forall i :: 0 <= i < |VolumeCatalogue(v.shape, v.data).value| ==>
      VolumeCatalogue(v.shape, v.data).value[i].edgeLabel == i
    ensures CanonicalPairsAlongAxis(v.shape, v.data, axis)[k] in PairsOf(VolumeCatalogue(v.shape, v.data).value)
  {
    FacesOfAxis(v, axis);
    var direct := VolumePairs(v.shape, v.data);
    var e := direct[axis][k];
    assert e in direct[axis];
    assert InSome(direct, e);
  }

  /** Row `k` of the table of `axis` stores the `k`-th face's coordinate, cast to the storage width. */
  lemma FaceRowCoords(v: LabelVolume, axis: nat, k: nat)
    requires HasTables(v) && axis < |v.shape|
    requires k < |AxialTables(v)[axis].rows|
    ensures k < CountTrue(MaskAlongAxis(v.shape, v.data, axis).bits)
    ensures |AxialTables(v)[axis].rows[k].maskCoord| == |v.shape|
    ensures forall d :: 0 <= d < |v.shape| ==>
      AxialTables(v)[axis].rows[k].maskCoord[d] == Cast(FaceCoordinate(v, axis, k)[d], CoordWidth(v.shape))
  {
    var mask := MaskAlongAxis(v.shape, v.data, axis);
    TableRowsAreFaces(v, axis);
    TableRowAt(v, axis, k);
    var c := FaceCoordinate(v, axis, k);
    var ed := AxisEdgeData(v, axis);
    var row := AxialTables(v)[axis].rows[k];
    forall d | 0 <= d < |v.shape| ensures row.maskCoord[d] == Cast(c[d], CoordWidth(v.shape)) {
      assert row.maskCoord[d] == ed.coords[d][k];
      assert MaskCoords(mask)[d][k] == c[d];
    }
  }

  /** The stored coordinates lose nothing once every extent fits in 32 bits. */
  lemma CoordsLossless(v: LabelVolume, axis: nat, k: nat)
    requires HasTables(v) && axis < |v.shape|
    requires forall d :: 0 <= d < |v.shape| ==> v.shape[d] <= 0x1_0000_0000
    requires k < |AxialTables(v)[axis].rows|
    ensures k < CountTrue(MaskAlongAxis(v.shape, v.data, axis).bits)
    ensures AxialTables(v)[axis].rows[k].maskCoord == FaceCoordinate(v, axis, k)
  {
    FaceRowCoords(v, axis, k);
    FaceCoordinateInVolume(v, axis, k);
    CastLossless(AxialTables(v)[axis].rows[k].maskCoord, FaceCoordinate(v, axis, k), v.shape);
  }

  /** Casting a coordinate of an array whose extents fit in 32 bits to the storage width loses nothing. */
  lemma CastLossless(stored: seq<nat>, c: seq<nat>, shape: seq<nat>)
    requires InBounds(c, shape) && forall d :: 0 <= d < |shape| ==> shape[d] <= 0x1_0000_0000
    requires |stored| == |shape| && forall d :: 0 <= d < |shape| ==> stored[d] == Cast(c[d], CoordWidth(shape))
    ensures stored == c
  {
    var w := CoordWidth(shape);
    forall d | 0 <= d < |shape| ensures stored[d] == c[d] {
      assert c[d] < Modulus(w);
      CastSmall(c[d], w);
    }
  }

  /** A value below the modulus survives the cast unchanged. */
  lemma CastSmall(x: nat, w: nat)
    requires x < Modulus(w)
    ensures Cast(x, w) == x
  {
  }

  /** A face coordinate is a coordinate of the volume. */
  lemma FaceCoordinateInVolume(v: LabelVolume, axis: nat, k: nat)
    requires WellFormed(v) && axis < |v.shape|
    requires k < CountTrue(MaskAlongAxis(v.shape, v.data, axis).bits)
    ensures InBounds(FaceCoordinate(v, axis, k), v.shape)
  {
    var mask := MaskAlongAxis(v.shape, v.data, axis);
    var c := FaceCoordinate(v, axis, k);
    forall d | 0 <= d < |c| ensures c[d] < v.shape[d] {
      assert c[d] < mask.shape[d];
    }
  }

  /** Total number of rows over the first `n` axial tables. */
  function RowTotal(ts: seq<AxialEdgeTable>, n: nat): nat
    requires n <= |ts|
  {
    if n == 0 then 0 else RowTotal(ts, n - 1) + |ts[n - 1].rows|
  }

  /** Total number of boundary faces along the first `n` axes. */
  function FaceTotal(v: LabelVolume, n: nat): nat
    requires WellFormed(v) && n <= |v.shape|
  {
    if n == 0 then 0 else FaceTotal(v, n - 1) + CountTrue(MaskAlongAxis(v.shape, v.data, n - 1).bits)
  }

  /** The axial tables together hold one row per boundary face of the volume. */
  lemma {:induction false} RowsAddUpToFaces(v: LabelVolume, n: nat)
    requires HasTables(v) && n <= |v.shape|
    ensures RowTotal(AxialTables(v), n) == FaceTotal(v, n)
  {
    var ts := AxialTables(v);
    forall i | 0 <= i < n
      ensures |ts[i].rows| == CountTrue(MaskAlongAxis(v.shape, v.data, i).bits)
    {
      TableRowsAreFaces(v, i);
    }
    RowTotalMatches(v, ts, n);
  }

  /** Tables whose sizes match the face counts axis by axis have matching totals. */
  lemma {:induction false} RowTotalMatches(v: LabelVolume, ts: seq<AxialEdgeTable>, n: nat)
    requires WellFormed(v) && n <= |ts| && n <= |v.shape|
    requires forall i :: 0 <= i < n ==> |ts[i].rows| == CountTrue(MaskAlongAxis(v.shape, v.data, i).bits)
    ensures RowTotal(ts, n) == FaceTotal(v, n)
  {
    if n > 0 {
      RowTotalMatches(v, ts, n - 1);
    }
  }

  /** The sorted pair of the `k`-th face along axis `a` is strictly ordered and made of labels of the volume. */
  lemma FacePairOccurs(v: LabelVolume, a: nat, k: nat)
    requires WellFormed(v) && a < |v.shape| && k < |CanonicalPairsAlongAxis(v.shape, v.data, a)|
    ensures var e := CanonicalPairsAlongAxis(v.shape, v.data, a)[k];
      e.sp1 < e.sp2 && e.sp1 in v.data && e.sp2 in v.data
  {
    FacesOfAxis(v, a);
    PairsJoinDifferentLabels(v.shape, v.data, a);
    if v.shape[a] != 1 {
      RowPairAt(v, a, k);
      VoxelPairOccurs(v.shape, v.data, a, FaceCoordinate(v, a, k));
    }
  }

  /** Every catalogue pair is strictly ordered and made of labels that occur in the volume. */
  lemma CatalogueLabelsOccur(v: LabelVolume)
    requires WellFormed(v) && |v.shape| > 0
    ensures forall i :: 0 <= i < |VolumeCatalogue(v.shape, v.data).value| ==>
      VolumeCatalogue(v.shape, v.data).value[i].sp1 < VolumeCatalogue(v.shape, v.data).value[i].sp2
      && VolumeCatalogue(v.shape, v.data).value[i].sp1 in v.data
      && VolumeCatalogue(v.shape, v.data).value[i].sp2 in v.data
  {
    var lookup := VolumeCatalogue(v.shape, v.data).value;
    var direct := VolumePairs(v.shape, v.data);
    forall i | 0 <= i < |lookup|
      ensures lookup[i].sp1 < lookup[i].sp2 && lookup[i].sp1 in v.data && lookup[i].sp2 in v.data
    {
      var e := PairsOf(lookup)[i];
      assert e in PairsOf(lookup);
      assert InSome(direct, e);
      var a :| 0 <= a < |direct| && e in direct[a];
      var k :| 0 <= k < |direct[a]| && direct[a][k] == e;
      FacePairOccurs(v, a, k);
    }
  }

  // ---------------------------------------------------------------------------
  // Superpixel ids

  function Sp1Column(lookup: seq<EdgeRow>): (s: seq<nat>)
    ensures |s| == |lookup| && forall i :: 0 <= i < |lookup| ==> s[i] == lookup[i].sp1
  {
    seq(|lookup|, i requires 0 <= i < |lookup| => lookup[i].sp1)
  }

  function Sp2Column(lookup: seq<EdgeRow>): (s: seq<nat>)
    ensures |s| == |lookup| && forall i :: 0 <= i < |lookup| ==> s[i] == lookup[i].sp2
  {
    seq(|lookup|, i requires 0 <= i < |lookup| => lookup[i].sp2)
  }

  predicate Ascending(s: seq<nat>)
  {
    forall i, j :: 0 <= i < j < |s| ==> s[i] <= s[j]
  }

  predicate StrictlyAscending(s: seq<nat>)
  {
    forall i, j :: 0 <= i < j < |s| ==> s[i] < s[j]
  }

  function InsertNat(x: nat, s: seq<nat>): (r: seq<nat>)
    ensures multiset(r) == multiset(s) + multiset{x}
  {
    if |s| == 0 then [x]
    else if x <= s[0] then [x] + s
    else
      assert s == [s[0]] + s[1..];
      [s[0]] + InsertNat(x, s[1..])
  }

  lemma {:induction false} InsertNatAscending(x: nat, s: seq<nat>)
    requires Ascending(s)
    ensures Ascending(InsertNat(x, s))
  {
    if |s| > 0 && x > s[0] {
      var t := InsertNat(x, s[1..]);
      InsertNatAscending(x, s[1..]);
      forall j | 0 <= j < |t| ensures s[0] <= t[j] {
        assert t[j] in multiset(t);
        if t[j] != x {
          assert t[j] in multiset(s[1..]);
          var i :| 0 <= i < |s[1..]| && s[1..][i] == t[j];
          assert s[i + 1] == t[j];
        }
      }
    }
  }

  /** `ndarray.sort()` of a vector of ids. */
  function SortNats(s: seq<nat>): (r: seq<nat>)
    ensures multiset(r) == multiset(s)
  {
    if |s| == 0 then []
    else
      assert s == [s[0]] + s[1..];
      InsertNat(s[0], SortNats(s[1..]))
  }

  lemma {:induction false} SortNatsAscending(s: seq<nat>)
    ensures Ascending(SortNats(s))
  {
    if |s| > 0 {
      SortNatsAscending(s[1..]);
      InsertNatAscending(s[0], SortNats(s[1..]));
    }
  }

  /** `_init_sp_attributes`: the unique ids of `sp1`, then of `sp2`, made unique together and sorted. */
  function SpIdsOf(lookup: seq<EdgeRow>): (r: seq<nat>)
    ensures StrictlyAscending(r)
    ensures forall x :: x in r <==> x in Sp1Column(lookup) || x in Sp2Column(lookup)
  {
    var u := Dedup(Dedup(Sp1Column(lookup)) + Dedup(Sp2Column(lookup)));
    SortDistinct(u);
    SortNats(u)
  }

  /** `x` is an endpoint of some catalogue row. */
  ghost predicate Endpoint(lookup: seq<EdgeRow>, x: nat)
  {
    exists i :: 0 <= i < |lookup| && (lookup[i].sp1 == x || lookup[i].sp2 == x)
  }

  /** `sp_ids` is strictly increasing and holds exactly the endpoints of the catalogue rows. */
  lemma SpIdsExact(lookup: seq<EdgeRow>)
    ensures StrictlyAscending(SpIdsOf(lookup))
    ensures forall x :: x in SpIdsOf(lookup) <==> Endpoint(lookup, x)
    ensures |lookup| > 0 ==> |SpIdsOf(lookup)| > 0
  {
    forall x ensures x in SpIdsOf(lookup) <==> Endpoint(lookup, x) {
      EndpointInColumns(lookup, x);
    }
    if |lookup| > 0 {
      EndpointInColumns(lookup, lookup[0].sp1);
      assert lookup[0].sp1 in SpIdsOf(lookup);
    }
  }

  /** Sorting a duplicate-free vector gives a strictly increasing one with the same elements. */
  lemma SortDistinct(u: seq<nat>)
    requires NoDuplicates(u)
    ensures StrictlyAscending(SortNats(u))
    ensures forall x :: x in SortNats(u) <==> x in u
  {
    var r := SortNats(u);
    SortNatsAscending(u);
    NoDuplicatesByMultiset(u);
    NoDuplicatesByMultiset(r);
    assert forall x :: x in r <==> x in multiset(r);
    assert forall x :: x in u <==> x in multiset(u);
    forall i, j | 0 <= i < j < |r| ensures r[i] < r[j] {
      assert r[i] <= r[j];
    }
  }

  /** `x` is an endpoint exactly when it occurs in the `sp1` or the `sp2` column. */
  lemma EndpointInColumns(lookup: seq<EdgeRow>, x: nat)
    ensures Endpoint(lookup, x) <==> x in Sp1Column(lookup) || x in Sp2Column(lookup)
  {
    if x in Sp1Column(lookup) { var i :| 0 <= i < |lookup| && Sp1Column(lookup)[i] == x; }
    else if x in Sp2Column(lookup) { var i :| 0 <= i < |lookup| && Sp2Column(lookup)[i] == x; }
    if Endpoint(lookup, x) {
      var i :| 0 <= i < |lookup| && (lookup[i].sp1 == x || lookup[i].sp2 == x);
      if lookup[i].sp1 == x { assert x in Sp1Column(lookup); } else { assert x in Sp2Column(lookup); }
    }
  }

  /** A strictly increasing sequence of naturals has at least `k` smaller entries below its `k`-th. */
  lemma {:induction false} AscendingAtLeastIndex(s: seq<nat>, k: nat)
    requires StrictlyAscending(s) && k < |s|
    ensures s[k] >= k
  {
    if k > 0 {
      AscendingAtLeastIndex(s, k - 1);
    }
  }

  /** `num_sp <= max_sp + 1`: ids need not be consecutive, but they are distinct. */
  lemma NumSpAtMostMaxSpPlusOne(s: seq<nat>)
    requires StrictlyAscending(s) && |s| > 0
    ensures |s| <= MaxLabel(s) + 1
  {
    AscendingAtLeastIndex(s, |s| - 1);
  }

  // ---------------------------------------------------------------------------
  // Decisions and partitions

  /** `edge_ids[np.nonzero(np.logical_not(edge_decisions))]`: the inactive edges, in order. */
  function InactiveEdges(ids: seq<EdgeId>, decisions: seq<bool>): (r: seq<EdgeId>)
    requires |ids| == |decisions|
    ensures |r| <= |ids|
    ensures forall e :: e in r <==> exists k :: 0 <= k < |ids| && ids[k] == e && !decisions[k]
  {
    if |ids| == 0 then []
    else
      var n := |ids| - 1;
      var r := InactiveEdges(ids[..n], decisions[..n]);
      assert forall k :: 0 <= k < n ==> ids[..n][k] == ids[k] && decisions[..n][k] == decisions[k];
      r + (if decisions[n] then [] else [ids[n]])
  }

  /** With every edge active, no superpixel is joined to another. */
  lemma AllActiveKeepsSuperpixels(ids: seq<EdgeId>, decisions: seq<bool>)
    requires |ids| == |decisions| && forall k :: 0 <= k < |decisions| ==> decisions[k]
    ensures forall x, y :: Connected(InactiveEdges(ids, decisions), x, y) <==> x == y
  {
    var r := InactiveEdges(ids, decisions);
    HeadIsElement(r);
    assert r == [];
    forall x, y ensures Connected(r, x, y) <==> x == y {
      ConnectedNoEdges(x, y);
    }
  }

  /** With every edge inactive, all catalogue edges join their superpixels. */
  lemma AllInactiveJoinsEveryEdge(ids: seq<EdgeId>, decisions: seq<bool>)
    requires |ids| == |decisions| && forall k :: 0 <= k < |decisions| ==> !decisions[k]
    ensures forall k :: 0 <= k < |ids| ==> Connected(InactiveEdges(ids, decisions), ids[k].sp1, ids[k].sp2)
  {
    var r := InactiveEdges(ids, decisions);
    forall k | 0 <= k < |ids| ensures Connected(r, ids[k].sp1, ids[k].sp2) {
      assert ids[k] in r;
      var i :| 0 <= i < |r| && r[i] == ids[k];
      LinkedConnected(r, ids[k].sp1, ids[k].sp2);
    }
  }

  datatype SegmentationError =
    | DecisionsShapeMismatch  // `edge_decisions.shape != (num_edges,)`
    | UnmappedLabel           // a voxel label has no entry in the mapping

  /** `vigra.analysis.applyMapping(label_img, mapping)`: every voxel replaced by its mapped value. */
  function ApplyMapping(data: seq<nat>, mapping: map<nat, nat>): (r: Result<seq<nat>, SegmentationError>)
    ensures r.Ok? <==> forall p :: 0 <= p < |data| ==> data[p] in mapping
    ensures r.Err? ==> r.error == UnmappedLabel
    ensures r.Ok? ==> |r.value| == |data| && forall p :: 0 <= p < |data| ==> r.value[p] == mapping[data[p]]
  {
    if forall p :: 0 <= p < |data| ==> data[p] in mapping then
      Ok(seq(|data|, p requires 0 <= p < |data| => mapping[data[p]]))
    else Err(UnmappedLabel)
  }

  /** `dict(izip(keys, values))`: later keys overwrite earlier ones. */
  function ZipToMap<K(==), V>(keys: seq<K>, values: seq<V>): (m: map<K, V>)
    requires |keys| == |values|
    ensures m.Keys == set k | k in keys
  {
    if |keys| == 0 then map[]
    else
      var n := |keys| - 1;
      assert keys == keys[..n] + [keys[n]];
      ZipToMap(keys[..n], values[..n])[keys[n] := values[n]]
  }

  /** With distinct keys, each key maps to the value beside it. */
  lemma {:induction false} ZipToMapAt<K, V>(keys: seq<K>, values: seq<V>, k: nat)
    requires |keys| == |values| && NoDuplicates(keys) && k < |keys|
    ensures ZipToMap(keys, values)[keys[k]] == values[k]
  {
    var n := |keys| - 1;
    if k < n {
      assert NoDuplicates(keys[..n]) by {
        forall i, j | 0 <= i < j < n ensures keys[..n][i] != keys[..n][j] {
          assert keys[..n][i] == keys[i] && keys[..n][j] == keys[j];
        }
      }
      assert keys[k] != keys[n];
      assert keys[..n][k] == keys[k] && values[..n][k] == values[k];
      ZipToMapAt(keys[..n], values[..n], k);
    }
  }

  /** With the catalogue's pairs as edges, the graph's nodes are exactly the superpixel ids. */
  lemma GraphNodesAreSuperpixels(lookup: seq<EdgeRow>, decisions: seq<bool>)
    requires |decisions| == |lookup|
    ensures forall x :: x in GraphNodes(InactiveEdges(PairsOf(lookup), decisions), SpIdsOf(lookup)) <==> x in SpIdsOf(lookup)
  {
    SpIdsExact(lookup);
    var inactive := InactiveEdges(PairsOf(lookup), decisions);
    forall x | x in GraphNodes(inactive, SpIdsOf(lookup))
      ensures x in SpIdsOf(lookup)
    {
      if x !in SpIdsOf(lookup) {
        var k :| 0 <= k < |inactive| && (inactive[k].sp1 == x || inactive[k].sp2 == x);
        InactiveEdgeIsCatalogued(lookup, decisions, k);
      }
    }
  }

  /** Every inactive edge is the pair of some catalogue row. */
  lemma InactiveEdgeIsCatalogued(lookup: seq<EdgeRow>, decisions: seq<bool>, k: nat)
    requires |decisions| == |lookup| && k < |InactiveEdges(PairsOf(lookup), decisions)|
    ensures Endpoint(lookup, InactiveEdges(PairsOf(lookup), decisions)[k].sp1)
    ensures Endpoint(lookup, InactiveEdges(PairsOf(lookup), decisions)[k].sp2)
  {
    var ids := PairsOf(lookup);
    var e := InactiveEdges(ids, decisions)[k];
    assert e in InactiveEdges(ids, decisions);
    var j :| 0 <= j < |ids| && ids[j] == e && !decisions[j];
    assert lookup[j].sp1 == e.sp1 && lookup[j].sp2 == e.sp2;
  }

  /** The axis loop of `Rag.__init__`: the edge data of every axis, in axis order. */
  method ComputeEdgeDatas(v: LabelVolume) returns (edgeDatas: seq<EdgeData>)
    requires WellFormed(v)
    ensures edgeDatas == AllEdgeData(v)
  {
    edgeDatas := [];
    for axis := 0 to |v.shape|
      invariant |edgeDatas| == axis
      invariant forall a :: 0 <= a < axis ==> edgeDatas[a] == AxisEdgeData(v, a)
    {
      var ed := ComputeAxisEdgeData(v, axis);
      edgeDatas := edgeDatas + [ed];
    }
  }

  /** One iteration of that loop: mask, raw pairs, forwardness, the in-place sort, and the narrowed coordinates. */
  method ComputeAxisEdgeData(v: LabelVolume, axis: nat) returns (ed: EdgeData)
    requires WellFormed(v) && axis < |v.shape|
    ensures ed == AxisEdgeData(v, axis)
  {
    var mask := EdgeMaskForAxis(v.shape, v.data, axis).value;
    assert mask == MaskAlongAxis(v.shape, v.data, axis);
    var ids := EdgeIdsForAxis(v.shape, v.data, mask, axis).value;
    assert ids == PairsAlongAxis(v.shape, v.data, mask, axis);
    var forwardness := seq(|ids|, k requires 0 <= k < |ids| => ids[k].sp1 < ids[k].sp2);
    ids := seq(|ids|, k requires 0 <= k < |ids| => Canonical(ids[k]));
    assert ids == CanonicalPairsAlongAxis(v.shape, v.data, axis);
    var coords := MaskCoords(mask);
    coords := CastCoords(coords, CoordWidth(v.shape));
    ed := EdgeData(coords, ids, forwardness);
  }

  /** Every pair is made of labels no larger than the largest label of `data`. */
  predicate PairsWithin(data: seq<nat>, ids: seq<EdgeId>)
  {
    |data| > 0 && forall k :: 0 <= k < |ids| ==> ids[k].sp1 <= MaxLabel(data) && ids[k].sp2 <= MaxLabel(data)
  }

  /** The catalogue of an accepted image is made of its own labels. */
  lemma CatalogueWithin(v: LabelVolume)
    requires WellFormed(v) && Rejection(v).None?
    ensures PairsWithin(v.data, PairsOf(VolumeCatalogue(v.shape, v.data).value))
  {
    var lookup := VolumeCatalogue(v.shape, v.data).value;
    var ids := PairsOf(lookup);
    CatalogueLabelsOccur(v);
    assert lookup[0].sp1 in v.data;
    forall k | 0 <= k < |ids| ensures ids[k].sp1 <= MaxLabel(v.data) && ids[k].sp2 <= MaxLabel(v.data) {
      var p :| 0 <= p < |v.data| && v.data[p] == lookup[k].sp1;
      var q :| 0 <= q < |v.data| && v.data[q] == lookup[k].sp2;
    }
  }

  /**
   * The decisions `edge_decisions_from_groundtruth` derives for the edges `ids` of
   * image `data`: an edge is ON exactly when its two superpixels overlap most with
   * different labels of the reference volume.
   */
  function EdgeDecisions(data: seq<nat>, ids: seq<EdgeId>, groundtruth: seq<nat>): (r: Result<seq<bool>, OverlapError>)
    requires PairsWithin(data, ids)
    ensures r.Err? <==> |groundtruth| != |data|
    ensures r.Err? ==> r.error == (if |groundtruth| == 0 then EmptyVolume else LengthMismatch)
    ensures r.Ok? ==> LabelVolMapping(data, groundtruth).Ok? && |r.value| == |ids|
    ensures r.Ok? ==> forall k :: 0 <= k < |ids| ==>
      var m := LabelVolMapping(data, groundtruth).value;
      ids[k].sp1 < |m| && ids[k].sp2 < |m| && (r.value[k] <==> m[ids[k].sp1] != m[ids[k].sp2])
  {
    var mapping := LabelVolMapping(data, groundtruth);
    if mapping.Err? then Err(mapping.error)
    else
      var m := mapping.value;
      Ok(seq(|ids|, k requires 0 <= k < |ids| => m[ids[k].sp1] != m[ids[k].sp2]))
  }

  /**
   * The segmentation `naive_segmentation_from_edge_decisions` builds for image `data`
   * and catalogue `lookup`: superpixels joined by a path of inactive edges share an
   * output label, all others get distinct ones, every label is at least 1, and each
   * voxel takes the label of its superpixel.
   */
  method NaiveSegmentation(data: seq<nat>, lookup: seq<EdgeRow>, decisions: seq<bool>) returns (r: Result<seq<nat>, SegmentationError>)
    ensures r.Err? <==> |decisions| != |lookup| || exists p :: 0 <= p < |data| && data[p] !in SpIdsOf(lookup)
    ensures r.Err? && |decisions| != |lookup| ==> r.error == DecisionsShapeMismatch
    ensures r.Ok? ==> |r.value| == |data| && forall p :: 0 <= p < |r.value| ==> r.value[p] >= 1
    ensures r.Ok? ==> |decisions| == |lookup| && forall p, q :: 0 <= p < |r.value| && 0 <= q < |r.value| ==>
      (r.value[p] == r.value[q] <==> Connected(InactiveEdges(PairsOf(lookup), decisions), data[p], data[q]))
  {
    if |decisions| != |lookup| {
      return Err(DecisionsShapeMismatch);
    }
    var inactive := InactiveEdges(PairsOf(lookup), decisions);
    var spMapping, count := ConnectedComponents(inactive, SpIdsOf(lookup));
    GraphNodesAreSuperpixels(lookup, decisions);
    r := ApplyMapping(data, spMapping);
  }

  // ---------------------------------------------------------------------------
  // The graph object

  class Rag {
    var labelImg: LabelVolume
    var finalEdgeLabelLookup: seq<EdgeRow>
    var edgeIds: seq<EdgeId>
    var axialEdgeTables: seq<AxialEdgeTable>
    var spIds: seq<nat>
    var numSp: nat
    var maxSp: nat

    /** Every attribute is the one the construction derives from `labelImg`. */
    ghost predicate Valid()
      reads this
    {
      WellFormed(labelImg) && Rejection(labelImg).None?
      && finalEdgeLabelLookup == VolumeCatalogue(labelImg.shape, labelImg.data).value
      && edgeIds == PairsOf(finalEdgeLabelLookup)
      && axialEdgeTables == AxialTables(labelImg)
      && spIds == SpIdsOf(finalEdgeLabelLookup)
      && |spIds| > 0 && numSp == |spIds| && maxSp == MaxLabel(spIds)
      && PairsWithin(labelImg.data, edgeIds) && StrictlySorted(edgeIds)
    }

    /**
     * `Rag(label_img)` on an image it accepts: the per-axis edge data, then the
     * catalogue, the edge ids, the axial tables and the superpixel attributes.
     */
    constructor (v: LabelVolume)
      requires WellFormed(v) && Rejection(v).None?
      ensures Valid() && labelImg == v
    {
      labelImg := v;
      new;
      var edgeDatas := ComputeEdgeDatas(v);
      EdgeDataCatalogue(v);
      InitFinalEdgeLabelLookup(edgeDatas);
      InitFinalEdgeIds();
      InitAxialEdgeTables(edgeDatas);
      InitSpAttributes();
      CatalogueWithin(v);
    }

    /** `Rag(label_img)` with its checks: the graph, or the exception the code raises. */
    static method Create(v: LabelVolume) returns (r: Result<Rag, RagError>)
      requires WellFormed(v)
      ensures r.Err? <==> Rejection(v).Some?
      ensures r.Err? ==> r.error == Rejection(v).value
      ensures r.Ok? ==> fresh(r.value) && r.value.Valid() && r.value.labelImg == v
    {
      var rejection := Rejection(v);
      if rejection.Some? {
        return Err(rejection.value);
      }
      var rag := new Rag(v);
      return Ok(rag);
    }

    /** `_init_final_edge_label_lookup_df`: the catalogue of the per-axis sorted pairs. */
    method InitFinalEdgeLabelLookup(edgeDatas: seq<EdgeData>)
      requires |edgeDatas| > 0
      modifies this
      ensures finalEdgeLabelLookup == UniqueEdgeLabelsSpec(EdgeIdsOf(edgeDatas)).value
      ensures labelImg == old(labelImg) && edgeIds == old(edgeIds) && axialEdgeTables == old(axialEdgeTables)
      ensures spIds == old(spIds) && numSp == old(numSp) && maxSp == old(maxSp)
    {
      var lookup := UniqueEdgeLabels(EdgeIdsOf(edgeDatas));
      finalEdgeLabelLookup := lookup.value;
    }

    /**
     * `_init_final_edge_ids`: caches the pair columns as `edge_ids` and rebuilds the
     * catalogue from them and the old labels, which leaves it unchanged.
     */
    method InitFinalEdgeIds()
      modifies this
      ensures edgeIds == PairsOf(old(finalEdgeLabelLookup))
      ensures finalEdgeLabelLookup == old(finalEdgeLabelLookup)
      ensures labelImg == old(labelImg) && axialEdgeTables == old(axialEdgeTables)
      ensures spIds == old(spIds) && numSp == old(numSp) && maxSp == old(maxSp)
    {
      var lookup := finalEdgeLabelLookup;
      var ids := PairsOf(lookup);
      var labels := seq(|lookup|, i requires 0 <= i < |lookup| => lookup[i].edgeLabel);
      edgeIds := ids;
      finalEdgeLabelLookup := seq(|ids|, i requires 0 <= i < |ids| => EdgeRow(ids[i].sp1, ids[i].sp2, labels[i]));
      assert finalEdgeLabelLookup == old(finalEdgeLabelLookup);
    }

    /** `_init_axial_edge_dfs`: one table per axis, built from that axis's edge data. */
    method InitAxialEdgeTables(edgeDatas: seq<EdgeData>)
      requires labelImg.axisKeys.Some?
      requires forall i :: 0 <= i < |edgeDatas| ==> WellShaped(edgeDatas[i], |labelImg.axisKeys.value|)
      modifies this
      ensures labelImg == old(labelImg) && finalEdgeLabelLookup == old(finalEdgeLabelLookup) && edgeIds == old(edgeIds)
      ensures axialEdgeTables == TablesOf(labelImg.axisKeys.value, finalEdgeLabelLookup, edgeDatas)
      ensures spIds == old(spIds) && numSp == old(numSp) && maxSp == old(maxSp)
    {
      var keys := labelImg.axisKeys.value;
      var lookup := finalEdgeLabelLookup;
      var tables: seq<AxialEdgeTable> := [];
      for i := 0 to |edgeDatas|
        invariant |tables| == i
        invariant forall j :: 0 <= j < i ==> tables[j] == AxialTable(keys, lookup, edgeDatas[j])
      {
        tables := tables + [AxialTable(keys, lookup, edgeDatas[i])];
      }
      axialEdgeTables := tables;
    }

    /** `_init_sp_attributes`: `sp_ids`, `num_sp` and `max_sp` from the catalogue's pair columns. */
    method InitSpAttributes()
      requires |finalEdgeLabelLookup| > 0
      modifies this
      ensures spIds == SpIdsOf(old(finalEdgeLabelLookup)) && |spIds| > 0
      ensures numSp == |spIds| && maxSp == MaxLabel(spIds)
      ensures labelImg == old(labelImg) && finalEdgeLabelLookup == old(finalEdgeLabelLookup)
      ensures edgeIds == old(edgeIds) && axialEdgeTables == old(axialEdgeTables)
    {
      var uniqueLeft := Dedup(Sp1Column(finalEdgeLabelLookup));
      var uniqueRight := Dedup(Sp2Column(finalEdgeLabelLookup));
      var ids := Dedup(uniqueLeft + uniqueRight);
      ids := SortNats(ids);
      SpIdsExact(finalEdgeLabelLookup);
      spIds := ids;
      numSp := |ids|;
      maxSp := MaxLabel(ids);
    }

    /** The catalogue pairs are strictly ordered pairs of labels of the image, which is not empty. */
    lemma EdgeIdsOccur()
      requires Valid()
      ensures |labelImg.data| > 0
      ensures forall k :: 0 <= k < |edgeIds| ==>
        edgeIds[k].sp1 < edgeIds[k].sp2 && edgeIds[k].sp1 in labelImg.data && edgeIds[k].sp2 in labelImg.data
    {
      CatalogueLabelsOccur(labelImg);
      PairsOccur(labelImg.data, finalEdgeLabelLookup);
    }

    /** `edge_decisions_from_groundtruth(groundtruth_vol)` on this graph's image and edges. */
    function EdgeDecisionsFromGroundtruth(groundtruth: seq<nat>): (r: Result<seq<bool>, OverlapError>)
      reads this
      requires Valid()
      ensures r == EdgeDecisions(labelImg.data, edgeIds, groundtruth)
    {
      EdgeDecisions(labelImg.data, edgeIds, groundtruth)
    }

    /** `edge_decisions_from_groundtruth(groundtruth_vol, asdict=True)`: the decisions keyed by pair. */
    function EdgeDecisionsAsDict(groundtruth: seq<nat>): (r: Result<map<EdgeId, bool>, OverlapError>)
      reads this
      requires Valid()
      ensures r.Err? <==> |groundtruth| != |labelImg.data|
      ensures r.Ok? ==> r.value.Keys == set e | e in edgeIds
      ensures r.Ok? ==> forall k :: 0 <= k < |edgeIds| ==>
        r.value[edgeIds[k]] == EdgeDecisionsFromGroundtruth(groundtruth).value[k]
    {
      var decisions := EdgeDecisionsFromGroundtruth(groundtruth);
      if decisions.Err? then Err(decisions.error)
      else
        ZipDecisions(edgeIds, decisions.value);
        Ok(ZipToMap(edgeIds, decisions.value))
    }

    /** Compared with the image itself, every edge separates two different labels, so all are ON. */
    lemma IdentityGroundtruth()
      requires Valid()
      ensures EdgeDecisionsFromGroundtruth(labelImg.data).Ok?
      ensures forall k :: 0 <= k < |edgeIds| ==> EdgeDecisionsFromGroundtruth(labelImg.data).value[k]
    {
      EdgeIdsOccur();
      IdentityMapping(labelImg.data);
    }

    /** Compared with a constant reference, every superpixel maps to the constant, so all edges are OFF. */
    lemma ConstantGroundtruth(groundtruth: seq<nat>, g: nat)
      requires Valid()
      requires |groundtruth| == |labelImg.data| && forall p :: 0 <= p < |groundtruth| ==> groundtruth[p] == g
      ensures EdgeDecisionsFromGroundtruth(groundtruth).Ok?
      ensures forall k :: 0 <= k < |edgeIds| ==> !EdgeDecisionsFromGroundtruth(groundtruth).value[k]
    {
      EdgeIdsOccur();
      ConstantMapping(labelImg.data, groundtruth, g);
    }

    /** `naive_segmentation_from_edge_decisions(edge_decisions)` on this graph's image and catalogue. */
    method NaiveSegmentationFromEdgeDecisions(edgeDecisions: seq<bool>) returns (r: Result<seq<nat>, SegmentationError>)
      requires Valid()
      ensures r.Err? <==> |edgeDecisions| != |edgeIds| || exists p :: 0 <= p < |labelImg.data| && labelImg.data[p] !in spIds
      ensures r.Err? && |edgeDecisions| != |edgeIds| ==> r.error == DecisionsShapeMismatch
      ensures r.Ok? ==> |r.value| == |labelImg.data| && forall p :: 0 <= p < |r.value| ==> r.value[p] >= 1
      ensures r.Ok? ==> forall p, q :: 0 <= p < |r.value| && 0 <= q < |r.value| ==>
        (r.value[p] == r.value[q] <==> Connected(InactiveEdges(edgeIds, edgeDecisions), labelImg.data[p], labelImg.data[q]))
    {
      r := NaiveSegmentation(labelImg.data, finalEdgeLabelLookup, edgeDecisions);
    }
  }

  /** The pairs of catalogue rows made of ordered labels of `data` are themselves such pairs. */
  lemma PairsOccur(data: seq<nat>, lookup: seq<EdgeRow>)
    requires forall i :: 0 <= i < |lookup| ==> lookup[i].sp1 < lookup[i].sp2 && lookup[i].sp1 in data && lookup[i].sp2 in data
    ensures forall k :: 0 <= k < |PairsOf(lookup)| ==>
      PairsOf(lookup)[k].sp1 < PairsOf(lookup)[k].sp2 && PairsOf(lookup)[k].sp1 in data && PairsOf(lookup)[k].sp2 in data
  {
  }

  /** The decisions keyed by pair give back, for every catalogue pair, its own decision. */
  lemma ZipDecisions(ids: seq<EdgeId>, decisions: seq<bool>)
    requires |ids| == |decisions| && StrictlySorted(ids)
    ensures forall k :: 0 <= k < |ids| ==> ZipToMap(ids, decisions)[ids[k]] == decisions[k]
  {
    forall k | 0 <= k < |ids| ensures ZipToMap(ids, decisions)[ids[k]] == decisions[k] {
      ZipToMapAt(ids, decisions, k);
    }
  }
}
