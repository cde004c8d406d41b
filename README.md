# ilastikrag region adjacency graph, modelled in Dafny

This project models the graph-construction core of ilastikrag, a region
adjacency graph (RAG) library for label volumes of superpixels.

- **Volume and grid.** A label volume is a shape plus its labels in row-major
  order (`Grids`, `RagModel.LabelVolume`).
- **Boundary faces.** Along each axis, a boolean mask marks every voxel whose
  right-hand neighbour has a different label. The left and right labels of each
  marked voxel form a raw edge pair, in scan order (`EdgeExtraction`,
  `util.edge_mask_for_axis` and `util.edge_ids_for_axis`).
- **Edge catalogue.** The per-axis pairs are sorted, deduplicated per axis and
  across axes, sorted lexicographically and labelled `0..N-1`
  (`EdgeCatalogue`, `util.unique_edge_labels`, `util.get_edge_ids`).
- **The graph object.** The `Rag` class checks its input image. It then builds,
  in the order of `Rag.__init__`:
  - the per-axis edge data (coordinate columns of the 16- or 32-bit width,
    sorted pairs, forwardness);
  - the catalogue;
  - the edge ids;
  - one axial table per axis, holding one row per boundary face, left-joined
    with the catalogue;
  - the superpixel ids, their count and their maximum (`RagModel.Rag`).
- **Overlap and decisions.** A contingency table and the maximum-overlap label
  mapping feed edge decisions from a reference segmentation (`Overlap`,
  `util.contingency_table`, `util.label_vol_mapping`,
  `Rag.edge_decisions_from_groundtruth`).
- **Naive segmentation.** Edge decisions give a segmentation: superpixels joined
  by an inactive edge merge, with components numbered from 1 (`Components`,
  `Rag.naive_segmentation_from_edge_decisions`).
- **Feature names.** The feature-name validation and splitting that opens
  `Rag.compute_features` (`FeatureNames`).

The main results proved are these:

- **Boundary faces.**
  - A mask entry is set exactly where the two labels across the face differ.
  - The k-th raw pair is the pair of labels at the k-th set mask position.
- **Catalogue.**
  - It is strictly sorted and duplicate-free.
  - It holds exactly the sorted pairs seen along some axis.
  - Its labels are the row indices.
  - It depends only on the set of pairs.
  - Every catalogue pair is ordered `sp1 < sp2`, and both of its labels occur in
    the volume.
- **Axial tables.**
  - Each boundary face has exactly one row, and each row is a face.
  - Each row carries the face's sorted pair, its forwardness and the label of
    its catalogue row; the left join never misses.
  - Stored coordinates are the face coordinates without loss.
- **Superpixel ids.** They are strictly ascending and are exactly the endpoints
  of catalogue edges.
- **Label mapping.** The mapping picks the first label of maximal overlap.
  - A label mapped onto itself gives all-active decisions.
  - A constant reference gives all-inactive decisions.
- **Segmentation.** Two voxels get the same output label exactly when their
  superpixels are connected by inactive edges.

The axis loops and the construction are imperative in the source. They are
`method`s here, with loop invariants: `GetEdgeIds`, `UniqueEdgeLabels`,
`ComputeEdgeDatas`, the `Rag` constructor and its initialisers, the contingency
table over an `array2`, and the union-find style component merge behind
`naive_segmentation_from_edge_decisions`. Each is proved against a
specification function. The list- and array-expression code is modelled by
functions.

Dafny files:

- `wrappers.dfy`: `Option` and `Result`.
- `grids.dfy`: row-major indexing.
- `edge_extraction.dfy`: the per-axis mask and raw pairs.
- `edge_catalogue.dfy`: deduplication, sorting and labelling.
- `overlap.dfy`: the contingency table and label mapping.
- `components.dfy`: connectivity and component numbering.
- `feature_names.dfy`: the feature-name handling.
- `rag.dfy`: the `Rag` class and its tables.

Where the library's documented design and its code differ, the model follows
the code:

- The per-face `edge_label` is attached by a *left* join (`how='left'`,
  ilastikrag/rag.py:259), so it is modelled as `Option<nat>`. The model then
  proves that it is always present.
- `sp_ids` is taken from the catalogue's `sp1`/`sp2` columns
  (ilastikrag/rag.py:277-279), not from the volume. A label with no boundary
  face is therefore not a superpixel of the graph.
- A feature name is only checked for its `edge_`/`sp_` prefix
  (ilastikrag/rag.py:328-332). Statistic and quantile suffixes are not checked
  at that point.
- `unique_edge_labels` does not sort the pairs it receives. Callers sort them
  first (ilastikrag/rag.py:169, ilastikrag/util.py:160).

## Model

| member | source | states |
|---|---|---|
| Grids.Reduced | ilastikrag/util.py:48-51 | the left/right slices have the shape of the volume with the chosen axis one shorter; every other extent is unchanged |
| Grids.RavelBound | ilastikrag/util.py:166-181 | an in-bounds coordinate has a flat index inside the volume |
| Grids.Unravel | ilastikrag/util.py:166-181 | every flat index inside the volume decodes to an in-bounds coordinate whose row-major index is that flat index |
| Grids.RavelInjective | ilastikrag/util.py:166-181 | two in-bounds coordinates with the same flat index are equal |
| Grids.UnravelRavel | ilastikrag/util.py:166-181 | decoding the flat index of an in-bounds coordinate gives that coordinate back |
| Grids.RavelStep | ilastikrag/util.py:48-51 | the right-hand neighbour along an axis is in bounds and sits exactly one stride of that axis further in row-major order |
| Grids.LeftIndex | ilastikrag/util.py:48-51 | a position of the reduced (left) view maps to a voxel whose right-hand neighbour is still inside the volume |
| EdgeExtraction.TruePositions | ilastikrag/util.py:166-181 | the set positions of a mask, like `nonzero()`: one per set entry, strictly increasing, each set, none missed |
| EdgeExtraction.AxisUseAsWritten | ilastikrag/util.py:41-51 | the axis handling as written: accepted exactly on [-2·ndim, ndim); the extent tested is that of the axis congruent to the argument; on [-ndim, ndim) that same axis is sliced, below it axis 0 |
| EdgeExtraction.AxisUseAsWrittenMismatch | ilastikrag/util.py:41-50 | under the written axis handling, axis -3 on a 2-D volume passes the assertion, tests the extent of axis 1 and slices axis 0 |
| EdgeExtraction.NormaliseAxis | ilastikrag/util.py:41-43 | an axis is accepted exactly when it lies in [-ndim, ndim), and it then names the axis congruent to it modulo ndim |
| EdgeExtraction.NormaliseAxisVersusAsWritten | ilastikrag/util.py:41-50 | on [-ndim, ndim) the written and the intended axis handling agree; below that range the written code, when it accepts, tests axis `axis + 2*ndim` and slices axis 0 |
| EdgeExtraction.MaskAlongAxis | ilastikrag/util.py:45-51 | extent 1 along the axis gives an all-false mask of the volume's shape; otherwise the mask has the reduced shape and one entry per left-view position |
| EdgeExtraction.EdgeMaskForAxis | ilastikrag/util.py:34-52 | `edge_mask_for_axis` with the corrected axis check: it succeeds exactly for axes in [-ndim, ndim) and gives the mask along the normalised axis; the source also accepts [-2·ndim, -ndim) (see Findings) |
| EdgeExtraction.LeftIndexAt | ilastikrag/util.py:48-51 | a position of the left view indexes the voxel with the same coordinate, and one stride further the voxel one step along the axis |
| EdgeExtraction.VoxelPairOccurs | ilastikrag/util.py:78-81 | both labels of a left/right voxel pair occur in the volume |
| EdgeExtraction.EdgeMaskAt | ilastikrag/util.py:48-51 | the mask entry at a left-view coordinate is set exactly when the labels at that coordinate and one step along the axis differ |
| EdgeExtraction.PairsAlongAxis | ilastikrag/util.py:72-81 | extent 1 gives no pairs; otherwise there is one pair per set mask entry |
| EdgeExtraction.EdgeIdsForAxis | ilastikrag/util.py:54-86 | `edge_ids_for_axis` with the corrected axis check: it succeeds exactly for axes in [-ndim, ndim) and gives the raw pairs along the normalised axis; the source also accepts [-2·ndim, -ndim) (see Findings) |
| EdgeExtraction.PairsAt | ilastikrag/util.py:78-81 | the k-th raw pair is (left label, right label) at the k-th set mask position, in scan order |
| EdgeExtraction.PairsJoinDifferentLabels | ilastikrag/util.py:48-81 | no raw pair joins a label to itself |
| EdgeCatalogue.Dedup | ilastikrag/util.py:102 | `drop_duplicates` leaves no duplicate, loses no element, adds none |
| EdgeCatalogue.Concat | ilastikrag/util.py:105-109 | the concatenation holds exactly the pairs of some input table |
| EdgeCatalogue.Insert | ilastikrag/util.py:113 | one insertion step of the sort adds exactly the element (multiset) |
| EdgeCatalogue.InsertSorted | ilastikrag/util.py:113 | inserting into a lexicographically sorted list keeps it sorted |
| EdgeCatalogue.SortEdgeIds | ilastikrag/util.py:113 | the sort by `(sp1, sp2)` is a permutation |
| EdgeCatalogue.SortEdgeIdsSorted | ilastikrag/util.py:113 | the sort's output is lexicographically sorted |
| EdgeCatalogue.SortKeepsNoDuplicates | ilastikrag/util.py:105-113 | sorting a duplicate-free list gives a strictly sorted list with the same elements |
| EdgeCatalogue.StrictlySortedUnique | ilastikrag/util.py:113 | two strictly sorted lists with the same elements are equal, so the sorted catalogue is determined by its pair set |
| EdgeCatalogue.Labelled | ilastikrag/util.py:117 | `edge_label` of row i is i, and the pair is kept |
| EdgeCatalogue.PairsOf | ilastikrag/rag.py:229 | the `[['sp1','sp2']]` columns of a table, row for row |
| EdgeCatalogue.UniqueEdgeLabelsSpec | ilastikrag/util.py:88-118 | defined exactly for a non-empty list of tables; strictly sorted, labels dense from 0, pairs exactly those of some input table |
| EdgeCatalogue.CatalogueDependsOnlyOnPairSet | ilastikrag/util.py:88-118 | two inputs with the same union of pairs give the same catalogue, whatever the duplicates, table split or order |
| EdgeCatalogue.UniqueEdgeLabels | ilastikrag/util.py:88-118 | the per-table loop and merge compute the specified catalogue; it fails exactly on an empty list (`pd.concat([])`), otherwise it is strictly sorted and densely labelled |
| EdgeCatalogue.SingleTableCatalogue | ilastikrag/util.py:105-106 | the catalogue of a single table holds exactly that table's pairs |
| EdgeCatalogue.PairwiseSameElements | ilastikrag/util.py:157-162 | replacing each table by one with the same elements keeps the union of pairs |
| EdgeCatalogue.Canonical | ilastikrag/util.py:160 | `sort(axis=1)` of one pair: ordered, and the same two labels |
| EdgeCatalogue.CanonicalPairsAlongAxis | ilastikrag/util.py:157-160 | one sorted pair per raw pair of the axis, position for position |
| EdgeCatalogue.VolumePairs | ilastikrag/util.py:157-162 | one list of sorted pairs per axis |
| EdgeCatalogue.VolumeCatalogue | ilastikrag/util.py:151-164 | the catalogue exists exactly when the volume has at least one axis |
| EdgeCatalogue.GetEdgeIds | ilastikrag/util.py:151-164 | the axis loop of `get_edge_ids`, with its per-axis `unique_edge_labels` round, computes the volume's catalogue |
| Overlap.MaxLabel | ilastikrag/util.py:11 | `vol.max()`: an element of the volume that no voxel exceeds |
| Overlap.ContingencyShape | ilastikrag/util.py:11-15 | the table shape is `maxlabels + 1` (given or from the volumes), and it fails exactly on unequal sizes, empty volumes with no `maxlabels`, or labels beyond a given `maxlabels` |
| Overlap.ContingencyTable | ilastikrag/util.py:5-16 | on success, a fresh table of that shape whose entry (i, j) is the number of voxels labelled i in the first and j in the second volume; otherwise the same error as the shape |
| Overlap.RowMarginal | ilastikrag/util.py:12-15 | a row of the table sums to the voxel count of its label, when every second label fits a column |
| Overlap.LabelCountsCover | ilastikrag/util.py:12-15 | when all labels fit the rows, the label counts add up to the voxel count |
| Overlap.TableSumByRows | ilastikrag/util.py:12-15 | the table total is the sum of the first volume's label counts |
| Overlap.ContingencyTotal | ilastikrag/util.py:12-15 | every voxel lands in exactly one cell: the table sums to the volume size |
| Overlap.RowSumBoundsEntry | ilastikrag/util.py:15 | no cell exceeds its row sum |
| Overlap.SelfOverlap | ilastikrag/util.py:15 | a volume against itself counts only on the diagonal, with the label counts |
| Overlap.OccurringLabelCounted | ilastikrag/util.py:15 | a label that occurs has a positive count |
| Overlap.ConstantOverlap | ilastikrag/util.py:15 | against a constant volume only the column of that constant is non-zero |
| Overlap.ArgMax | ilastikrag/util.py:31 | `np.argmax` of a row: an index of a maximum, and the first such index |
| Overlap.OverlapRow | ilastikrag/util.py:30-31 | row i of the table, with one column per label up to the second volume's maximum |
| Overlap.LabelVolMapping | ilastikrag/util.py:18-32 | fails exactly as the table does; otherwise one entry per label up to the first maximum, each the first label of maximal overlap |
| Overlap.AbsentLabelMapsToZero | ilastikrag/util.py:30-31 | a label that does not occur maps to 0 (argmax of a zero row) |
| Overlap.IdentityMapping | ilastikrag/util.py:18-32 | mapping a volume onto itself sends every occurring label to itself |
| Overlap.ConstantMapping | ilastikrag/util.py:18-32 | mapping onto a constant volume sends every occurring label to that constant |
| Components.ConnectedRefl | ilastikrag/rag.py:421 | every node is connected to itself |
| Components.LinkedConnected | ilastikrag/rag.py:421 | an edge connects its endpoints |
| Components.ConnectedSym | ilastikrag/rag.py:421 | the graph is undirected: connectivity is symmetric |
| Components.ConnectedTrans | ilastikrag/rag.py:421 | connectivity is transitive |
| Components.ConnectedSnocMono | ilastikrag/rag.py:421 | adding an edge keeps existing connections |
| Components.ConnectedNoEdges | ilastikrag/rag.py:421 | with no edge, only equal nodes are connected |
| Components.PathSplit | ilastikrag/rag.py:421 | a path in a graph with one more edge either avoids it or passes through its endpoints |
| Components.ConnectedSnoc | ilastikrag/rag.py:421 | connectivity after adding edge (u, v) is connectivity before it, or reaching u and v from the two ends |
| Components.Union | ilastikrag/rag.py:429 | merging two classes keeps the set of nodes |
| Components.UnionPair | ilastikrag/rag.py:429 | after merging the ends of a new edge, two nodes share a representative exactly when they are connected in the graph with that edge |
| Components.UnionStep | ilastikrag/rag.py:429 | merging the ends of an edge keeps the representative map exact for the extended edge list |
| Components.GraphNodes | ilastikrag/rag.py:421-426 | the nodes of `nx.Graph(edges)` plus `add_nodes_from(extra)`: every edge endpoint and every extra node, and nothing else |
| Components.OneTo | ilastikrag/rag.py:429 | the component numbers `1..count` of `enumerate(..., start=1)` |
| Components.MergeComponents | ilastikrag/rag.py:421-429 | the loop over the edges yields a map in which two nodes share a representative exactly when they are connected |
| Components.NumberComponents | ilastikrag/rag.py:428-431 | every node gets a number; the numbers used are exactly 1..count; two nodes share a number exactly when they share a representative |
| Components.ConnectedComponents | ilastikrag/rag.py:421-431 | `sp_mapping` is defined on exactly the graph's nodes, numbers components 1..count densely, and gives two nodes the same number exactly when they are connected |
| FeatureNames.Lower | ilastikrag/rag.py:327 | `str.lower` keeps the length and lowers each character |
| FeatureNames.PrefixesDisjoint | ilastikrag/rag.py:334-338 | no name starts with both `edge_` and `sp_` |
| FeatureNames.Stats | ilastikrag/rag.py:334-338 | one statistic name per name selecting the prefix |
| FeatureNames.InvalidNames | ilastikrag/rag.py:328-329 | the invalid names are at most the given names |
| FeatureNames.SplitFeatureNames | ilastikrag/rag.py:327-338 | rejects exactly when some lowered name has neither prefix, and the error carries the whole lowered name list, as the assertion message does; otherwise the result is the `edge_` group and the `sp_` group (their contents are stated by StatsInOrder), and every name lands in one of them |
| FeatureNames.InvalidNamesExact | ilastikrag/rag.py:328-332 | the invalid list is empty exactly when every lowered name has one of the prefixes |
| FeatureNames.SplitCounts | ilastikrag/rag.py:334-338 | with no invalid name, the two groups together are as long as the input |
| FeatureNames.Positions | ilastikrag/rag.py:334 | the positions selected by a filter lie inside the input |
| FeatureNames.StatsInOrder | ilastikrag/rag.py:334-338 | each group is the stripped lowered names at exactly the positions selecting its prefix, in input order |
| FeatureNames.PositionsIncreasing | ilastikrag/rag.py:334-338 | `filter` keeps input order |
| FeatureNames.StatsAtPositions | ilastikrag/rag.py:334-338 | the k-th statistic is the k-th selected name with the prefix cut off |
| FeatureNames.PositionsComplete | ilastikrag/rag.py:334-338 | `filter` misses no name that starts with the prefix |
| FeatureNames.RestorePrefix | ilastikrag/rag.py:335 | putting the prefix back on a statistic gives the lowered name it came from |
| RagModel.Rejection | ilastikrag/rag.py:155-184 | the exception `Rag(label_img)` raises, in code order: no axistags, an axis other than z/y/x, a dtype other than uint32, no axis at all (`pd.concat([])`), no boundary face along any axis (`max()` of the empty `sp_ids`); none exactly when every check passes and some axis has a face |
| RagModel.CatalogueEmptyIffNoFaces | ilastikrag/rag.py:181-185 | the edge catalogue is empty exactly when no axis has a boundary face |
| RagModel.AtMostThreeAxes | ilastikrag/rag.py:157-158 | an accepted image has at most three axes |
| RagModel.CoordWidth | ilastikrag/rag.py:174-177 | 16 bits exactly when every extent is below 2^16, otherwise 32 |
| RagModel.MaskCoords | ilastikrag/rag.py:171 | one coordinate column per mask axis, one entry per set mask position |
| RagModel.CastCoords | ilastikrag/rag.py:174-177 | `astype` keeps the column layout and reduces each coordinate modulo 2^width |
| RagModel.FacesOfAxis | ilastikrag/rag.py:166-167 | the raw pairs of an axis number the set entries of its mask |
| RagModel.AxisEdgeData | ilastikrag/rag.py:165-179 | one tuple per axis with well-shaped columns and one entry per boundary face |
| RagModel.EdgeIdsOf | ilastikrag/rag.py:219 | the `edge_ids` of every tuple, in axis order |
| RagModel.EdgeDataCatalogue | ilastikrag/rag.py:215-220 | the catalogue built from the constructor's edge data is the volume's catalogue (the same as `get_edge_ids`) |
| RagModel.FindLabel | ilastikrag/rag.py:259 | the label the merge finds scanning from a row on: NaN exactly when no row from there holds the pair, otherwise the label of the first row that does |
| RagModel.JoinLabel | ilastikrag/rag.py:259 | the `how='left'` merge of one face: NaN exactly when no catalogue row holds its pair, otherwise the label of a row holding it |
| RagModel.FindLabelAt | ilastikrag/rag.py:259 | in a strictly sorted, densely labelled catalogue, the join finds the row holding the pair |
| RagModel.JoinFindsRow | ilastikrag/rag.py:259 | the left join of a catalogued pair is never NaN, and it yields the label of that pair's row |
| RagModel.AxialTable | ilastikrag/rag.py:249-263 | one row per entry of the edge data, with the image's axis keys as coordinate columns |
| RagModel.TablesOf | ilastikrag/rag.py:244-270 | one axial table per edge-data tuple, each joined with the same catalogue |
| RagModel.AxialTables | ilastikrag/rag.py:239-270 | one axial table per axis |
| RagModel.FaceCoordinate | ilastikrag/rag.py:171 | the k-th face coordinate lies in the mask |
| RagModel.EveryFaceHasOneRow | ilastikrag/rag.py:164-179 | each boundary face (differing labels across it) has exactly one row of its axis's table |
| RagModel.RowsHaveDistinctFaces | ilastikrag/rag.py:171 | different rows of a table have different coordinates |
| RagModel.EveryRowIsAFace | ilastikrag/rag.py:166-171 | every row's coordinate is a boundary face |
| RagModel.RowPairAt | ilastikrag/rag.py:166-171 | the raw pair of row k is the pair of labels at row k's coordinate and its neighbour |
| RagModel.TableRowAt | ilastikrag/rag.py:252-263 | row k of an axial table holds the k-th sorted pair, its forwardness, the joined label and the k-th stored coordinates |
| RagModel.TableRowOf | ilastikrag/rag.py:249-263 | row k of a table built from any edge data carries that data's k-th pair, forwardness, joined label and coordinates |
| RagModel.FaceRowAt | ilastikrag/rag.py:252-259 | each row has sp1 < sp2 and holds the sorted pair of its face; `forwardness` is whether the left label was smaller; `edge_label` points at the catalogue row of that pair |
| RagModel.TableRowsAreFaces | ilastikrag/rag.py:249-256 | a table has as many rows as its axis has boundary faces |
| RagModel.CataloguedPair | ilastikrag/rag.py:259 | every sorted per-face pair is a catalogue pair, and the catalogue is strictly sorted and densely labelled |
| RagModel.FaceRowCoords | ilastikrag/rag.py:171-177 | the stored coordinates of a row are its face coordinates cast to the chosen width |
| RagModel.CoordsLossless | ilastikrag/rag.py:173-177 | for extents up to 2^32 the stored coordinates equal the face coordinates: the narrowing is lossless |
| RagModel.CastLossless | ilastikrag/rag.py:174-177 | the chosen width represents every in-bounds coordinate exactly |
| RagModel.CastSmall | ilastikrag/rag.py:175-177 | the cast does not change a value below 2^width |
| RagModel.FaceCoordinateInVolume | ilastikrag/rag.py:171 | a face coordinate is a voxel of the image |
| RagModel.RowsAddUpToFaces | ilastikrag/rag.py:244-270 | the tables together hold one row per boundary face of the volume |
| RagModel.RowTotalMatches | ilastikrag/rag.py:244-270 | tables whose sizes match the per-axis face counts have matching totals |
| RagModel.FacePairOccurs | ilastikrag/rag.py:166-169 | each sorted per-face pair is strictly ordered and made of labels of the image |
| RagModel.CatalogueLabelsOccur | ilastikrag/rag.py:181 | every catalogue pair is strictly ordered and made of labels of the image |
| RagModel.Sp1Column | ilastikrag/rag.py:277 | the `sp1` column of the catalogue |
| RagModel.Sp2Column | ilastikrag/rag.py:278 | the `sp2` column of the catalogue |
| RagModel.InsertNat | ilastikrag/rag.py:280 | one insertion step of the numeric sort adds exactly the element |
| RagModel.InsertNatAscending | ilastikrag/rag.py:280 | inserting into an ascending list keeps it ascending |
| RagModel.SortNats | ilastikrag/rag.py:280 | the numeric sort is a permutation |
| RagModel.SortNatsAscending | ilastikrag/rag.py:280 | the numeric sort's output is ascending |
| RagModel.SpIdsOf | ilastikrag/rag.py:277-280 | `sp_ids`: strictly ascending, holding exactly the labels found in the `sp1` or `sp2` column |
| RagModel.SpIdsExact | ilastikrag/rag.py:277-280 | `sp_ids` is strictly ascending and holds exactly the labels that are an endpoint of some catalogue edge |
| RagModel.SortDistinct | ilastikrag/rag.py:279-280 | sorting the unique ids gives a strictly ascending list of the same ids |
| RagModel.EndpointInColumns | ilastikrag/rag.py:277-279 | a label is an edge endpoint exactly when it appears in the `sp1` or the `sp2` column |
| RagModel.AscendingAtLeastIndex | ilastikrag/rag.py:284-285 | in strictly ascending ids, the k-th is at least k |
| RagModel.NumSpAtMostMaxSpPlusOne | ilastikrag/rag.py:284-285 | `num_sp <= max_sp + 1` |
| RagModel.InactiveEdges | ilastikrag/rag.py:418 | exactly the edges whose decision is false |
| RagModel.AllActiveKeepsSuperpixels | ilastikrag/rag.py:418-431 | with every decision active, no two distinct superpixels are joined |
| RagModel.AllInactiveJoinsEveryEdge | ilastikrag/rag.py:418-431 | with every decision inactive, the two ends of every edge are joined |
| RagModel.ApplyMapping | ilastikrag/rag.py:434 | `applyMapping` succeeds exactly when every voxel's label is mapped, and then replaces each voxel by its image |
| RagModel.ZipToMap | ilastikrag/rag.py:393 | `dict(izip(keys, values))` has exactly the given keys |
| RagModel.ZipToMapAt | ilastikrag/rag.py:393 | with distinct keys, each key maps to its own value |
| RagModel.GraphNodesAreSuperpixels | ilastikrag/rag.py:421-426 | the graph's nodes are exactly the superpixel ids |
| RagModel.InactiveEdgeIsCatalogued | ilastikrag/rag.py:418-421 | both ends of an inactive edge are edge endpoints, so superpixels |
| RagModel.ComputeEdgeDatas | ilastikrag/rag.py:164-179 | the constructor's axis loop yields the per-axis edge data of the image |
| RagModel.ComputeAxisEdgeData | ilastikrag/rag.py:166-179 | one iteration of that loop (mask, raw pairs, forwardness taken before the in-place sort, narrowed coordinates) yields that axis's edge data |
| RagModel.CatalogueWithin | ilastikrag/rag.py:387-390 | every catalogue label lies inside the mapping built from the image, so the indexing at line 390 is in range |
| RagModel.EdgeDecisions | ilastikrag/rag.py:387-390 | fails exactly when the reference volume's size differs from the image's (empty or mismatched; a one-voxel reference, which the source broadcasts, is an error here, see Left out); otherwise one decision per edge, true exactly when the two ends map to different reference labels |
| RagModel.NaiveSegmentation | ilastikrag/rag.py:416-434 | fails exactly on a wrong number of decisions or a voxel without a superpixel; otherwise labels start at 1, and two voxels share a label exactly when their superpixels are joined by inactive edges |
| RagModel.Rag.constructor | ilastikrag/rag.py:141-184 | constructing on an accepted image yields every attribute derived from it (`Valid`) |
| RagModel.Rag.Create | ilastikrag/rag.py:155-184 | `Rag(label_img)` raises exactly one of the checked errors, in the order the code meets them, or yields a valid graph of that image |
| RagModel.Rag.InitFinalEdgeLabelLookup | ilastikrag/rag.py:215-220 | the lookup table becomes the catalogue of the edge data's pairs; nothing else changes |
| RagModel.Rag.InitFinalEdgeIds | ilastikrag/rag.py:222-237 | `edge_ids` becomes the lookup's pair columns; the rebuilt lookup is unchanged in content |
| RagModel.Rag.InitAxialEdgeTables | ilastikrag/rag.py:239-270 | the axial tables become the join of every edge-data tuple with the lookup; nothing else changes |
| RagModel.Rag.InitSpAttributes | ilastikrag/rag.py:272-285 | `sp_ids`, `num_sp` and `max_sp` become the sorted unique endpoints, their count and their maximum |
| RagModel.Rag.EdgeIdsOccur | ilastikrag/rag.py:206-208 | every edge id is strictly ordered and made of labels of the image |
| RagModel.Rag.EdgeDecisionsFromGroundtruth | ilastikrag/rag.py:376-394 | the decisions for the graph's own edge ids |
| RagModel.Rag.EdgeDecisionsAsDict | ilastikrag/rag.py:392-393 | with `asdict=True`: keyed by exactly the edge ids, each key holding its own edge's decision |
| RagModel.Rag.IdentityGroundtruth | ilastikrag/rag.py:387-390 | the image as its own reference makes every edge active |
| RagModel.Rag.ConstantGroundtruth | ilastikrag/rag.py:387-390 | a constant reference makes every edge inactive |
| RagModel.Rag.NaiveSegmentationFromEdgeDecisions | ilastikrag/rag.py:396-434 | fails exactly on a wrong number of decisions (or a voxel without a superpixel); otherwise two voxels share an output label exactly when their superpixels are joined by inactive edges |
| RagModel.PairsOccur | ilastikrag/rag.py:229 | the facts about the catalogue rows carry over to the extracted edge ids |
| RagModel.ZipDecisions | ilastikrag/rag.py:393 | with sorted (so distinct) edge ids, the dict holds each edge's own decision |

## Left out

- Dtypes and integer widths: labels and counts are unbounded naturals. The
  `uint32` dtype is a flag that is checked (`RagModel.Rejection`).
- Overlap.ContingencyTable: does not model the wrap-around of the `uint32` cell
  counts, because a count above 2^32 - 1 needs more voxels than the library can
  hold in memory.
- Overlap.ContingencyShape: does not model numpy broadcasting of a one-voxel
  volume on either side in `np.add.at`. Here every size mismatch is an error, because
  that call is only meant for aligned volumes.
- RagModel.EdgeDecisions: accepts the reference volume as a flat label list.
  Volumes of different shape but equal size are therefore accepted, as
  `reshape(-1)` accepts them. A one-voxel reference for a larger image is an
  error (`LengthMismatch`) here. In the source, `np.add.at` (util.py:15)
  broadcasts it, `label_vol_mapping` succeeds and every decision is false.
- EdgeExtraction.EdgeMaskForAxis, EdgeExtraction.EdgeIdsForAxis: use the
  corrected axis check, so axes in [-2·ndim, -ndim), which the source accepts,
  are errors here. The written behaviour is `EdgeExtraction.AxisUseAsWritten`
  (see Findings). The source's only callers (rag.py:165-167, util.py:157-158)
  pass the axes 0..ndim-1, where the two checks agree.
- Components.ConnectedComponents: numbers components in the order their first
  node appears. networkx's own `connected_components` order is not modelled,
  because that order is not part of networkx's contract. The contract states
  only what the source relies on: numbers are dense from 1, and a voxel pair
  shares a number exactly when its superpixels are connected.
- RagModel.Rag.NaiveSegmentationFromEdgeDecisions: keeps the `UnmappedLabel`
  error of `applyMapping` as a modelled outcome. The model does not prove that
  every label of an accepted image lies on some boundary.
- The `out` parameter of `naive_segmentation_from_edge_decisions`
  (rag.py:410-414) is left out. It only chooses the output buffer and its
  dtype.
- `compute_features` beyond its feature-name handling is left out. That covers
  the vigra edge and superpixel accumulators, block processing and the pandas
  result frame. The feature statistics come from a native library that is not
  part of this model.
- `extract_edge_values_for_axis` is left out, since it only serves feature
  computation.
- Serialisation is left out: `serialize_hdf5`, `deserialize_hdf5` and the
  `'__will_deserialize__'` path of the constructor (rag.py:152-153).
- The pandas layout of the axial tables is left out: the uint32 index and the
  MultiIndex column names (rag.py:248-249, 265-268). A table keeps its
  coordinate keys and its rows.
- `generate_random_voronoi` and the logging are left out. They are test helpers
  and I/O.
- `nonzero_coord_array` is modelled by its result, the coordinates of the set
  mask entries in scan order. Its view-chain trick for vigra arrays is a memory
  optimisation.

## Findings

| source | as written | input that shows it | evidently intended | confidence | as-written member | corrected member |
|---|---|---|---|---|---|---|
| ilastikrag/util.py:41-51 | a negative axis gets `ndim` added once and only `ndim > axis` is asserted, so an axis in [-2·ndim, -ndim) passes; `shape[axis]` then indexes from the end while `(slice(None),) * axis` is empty, so the extent of one axis is tested and axis 0 is sliced (the same code is at util.py:68-76) | `edge_mask_for_axis` on a 2-D volume with axis -3: the extent test reads axis 1, the mask is taken along axis 0 | reject every axis outside [-ndim, ndim), like numpy's own axis handling | not executed | EdgeExtraction.AxisUseAsWrittenMismatch | EdgeExtraction.NormaliseAxis |

The corrected axis handling `EdgeExtraction.NormaliseAxis` is the one
`EdgeMaskForAxis` and `EdgeIdsForAxis` use. `EdgeExtraction.AxisUseAsWritten`
models the written code, and `EdgeExtraction.NormaliseAxisVersusAsWritten`
proves that the two agree on [-ndim, ndim).
