# Mesh cleaning and rescaling in `MeshProcessor`

A Dafny model of the mesh-preprocessing core of `MeshProcessor` in
`src/grasp_selection/mesh_processor.py`:

- **Triangle validation** (`remove_bad_tris`). A triangle is kept only if
  its three vertex indices lie in `[0, num_v)` and are pairwise distinct.
- **Vertex compaction** (`remove_unreferenced_vertices`).
  - Vertices used by some triangle are marked.
  - The marked positions are selected as `np.where` does.
  - A remap table is built as `np.cumsum(mask) - 1`.
  - Vertices and normals are filtered by numpy row indexing.
  - Triangle indices are rewritten through the table.
- **The first two stages of `clean`**: validation followed by compaction,
  composed as written.
- **The sign rule of `standardize_pose`.** For each principal axis the
  non-negative projections onto it are compared with the negative ones,
  giving a 0/1 indicator per axis. The fixed target frame (Z+, Y+, X+) is
  then blended with the indicator vector (line 120). numpy broadcasts that
  vector along the columns, so row `a` of the frame is kept or negated by
  the indicator of axis `2 - a`, not of axis `a` (see Findings). The model
  has both the rule as written and the row-by-row rule.
- **`rescale_vertices`** for the MIN, MAX and ABSOLUTE policies, MIN being
  the default (line 135).
  - Extents are measured per axis as max minus min.
  - A reference length is picked by policy.
  - Every coordinate is multiplied by `scale / reference`.

A mesh is an immutable value: vertices and normals are sequences of real
triples, and triangles are integer triples. Normals are optional, as
Python's `None`. An operation that returns `False` is modelled with a
`false` flag. An operation that raises is modelled as `None`. One example
is `rescale_vertices` on an empty vertex list, where `np.min` raises
`ValueError` (line 146).

Modules:

- `MeshTypes`: data model and structural predicates.
- `Selection`: mask counting, `np.where`, and row indexing with its
  `IndexError` cases.
- `TriangleValidation`, `VertexCompaction`, `Cleaning`, `PoseSign`,
  `Rescaling`: one module per operation.

Behaviour worth calling out, modelled as the code has it:

- **Ties in the sign rule.** No comment in the program says how a tie is
  resolved. The comparison at line 115 is strict, so a tie clears the
  indicator and negates the row it decides
  (`PoseSign.TieNegatesAsWritten`, `PoseSign.TieNegates`).
- **Compaction failure.** No comment in the program says what a failed
  compaction leaves behind. A caller would expect a `False` return to leave
  the mesh consistent. Yet a failure while indexing the normals comes after
  the vertex list has already been replaced at line 81 (see Findings).
  `CleanTopology` keeps that behaviour. `CleanTopologyAtomic` is the
  composition with the failure made atomic.
- **Sign broadcast.** The docstring at lines 97-98 promises principal axes
  aligned with Z, Y and X. The comment at line 110 counts vertices on
  either side of each principal axis. The comment at line 119 pairs the
  rows with Z+, Y+ and X+. Read together, each principal axis should be
  oriented by its own counts (`PoseSign.SignedTargets`). The code signs
  row `a` by the counts of axis `2 - a` (`PoseSign.SignedTargetsAsWritten`).
  Only the middle axis is unaffected.

Under MIN and MAX the lemmas state that the chosen extent becomes `|scale|`.
That is `scale` itself for the positive sizes the source is called with; a
negative `scale` mirrors the mesh, and the extent is then `-scale`.

## Model

| member | source | states |
|---|---|---|
| Selection.SelectIndices | src/grasp_selection/mesh_processor.py:76-77 | the kept positions are ascending, each one is marked, and there are exactly as many as there are marks |
| Selection.SelectedAtRank | src/grasp_selection/mesh_processor.py:76-78 | a marked position appears in the selection, at the index given by the number of marks before it |
| Selection.RankOfSelected | src/grasp_selection/mesh_processor.py:76-78 | inverse direction: the k-th selected position has exactly k marks before it |
| Selection.SelectIndicesComplete | src/grasp_selection/mesh_processor.py:76-77 | every marked position is selected |
| Selection.RowsSelectsMarked | src/grasp_selection/mesh_processor.py:76-81 | indexing the rows at `np.where(mask)[0]` yields exactly the marked rows in their original order (an independent element-by-element filter); it raises only when the array is empty |
| Selection.GatherSelectIsFilter | src/grasp_selection/mesh_processor.py:76-81 | gathering at the selected positions equals filtering by the mask |
| TriangleValidation.ValidTriangles | src/grasp_selection/mesh_processor.py:52-57 | the filter's output holds only valid triangles and is no longer than its input |
| TriangleValidation.ValidTrianglesCounts | src/grasp_selection/mesh_processor.py:54-57 | each valid triangle keeps all of its occurrences, and each invalid one loses all of them |
| TriangleValidation.ValidTrianglesInOrder | src/grasp_selection/mesh_processor.py:54-57 | the output is the input gathered at the ascending positions of its valid triangles, so it is an order-preserving subsequence |
| TriangleValidation.RemoveBadTris | src/grasp_selection/mesh_processor.py:52-59 | the loop, with its six comparisons, computes exactly the reference filter |
| TriangleValidation.RemoveBadTrisMesh | src/grasp_selection/mesh_processor.py:50-60 | only the triangle list changes, to exactly the valid triangles of the old list against the current vertex count; vertices and normals are untouched |
| TriangleValidation.ValidTrianglesFixpoint | src/grasp_selection/mesh_processor.py:55-57 | validation returns its input unchanged if and only if every triangle is already valid |
| TriangleValidation.ValidTrianglesIdempotent | src/grasp_selection/mesh_processor.py:52-60 | validating twice with the same vertex count equals validating once |
| TriangleValidation.DropsRepeatedIndex | src/grasp_selection/mesh_processor.py:55-56 | a triangle that repeats an index is dropped and in-range distinct ones are kept |
| VertexCompaction.MarkReferenced | src/grasp_selection/mesh_processor.py:68-73 | vertex i is marked if and only if some triangle passing the upper-bound test uses it |
| VertexCompaction.CumSum | src/grasp_selection/mesh_processor.py:78 | entry i is the number of marks up to and including position i |
| VertexCompaction.RemapTable | src/grasp_selection/mesh_processor.py:78 | a marked vertex's new index is the number of marked vertices before it; these indices are strictly increasing and below the number kept |
| VertexCompaction.ReferencedIndices | src/grasp_selection/mesh_processor.py:68-77 | the kept indices are ascending, in range, all referenced, and include every referenced vertex |
| VertexCompaction.RemoveUnreferencedVertices | src/grasp_selection/mesh_processor.py:62-93 | succeeds if and only if there are vertices and the normals reach every referenced vertex (row indexing raises `IndexError` otherwise); the vertices always become the referenced ones in order; on success normals are filtered the same way, absent normals stay absent, every new index is in range, and reading each new index back through the kept list gives the old index; on failure triangles and normals are untouched |
| VertexCompaction.RemapMapsBack | src/grasp_selection/mesh_processor.py:76-91 | remapped triangles are in range for the kept vertices, and reading them back through the kept list restores the original triangles |
| VertexCompaction.TableFindsKeptVertex | src/grasp_selection/mesh_processor.py:76-78 | the table sends a referenced vertex to its own position in the kept list |
| VertexCompaction.TableInvertsKept | src/grasp_selection/mesh_processor.py:76-78 | the table sends the vertex kept at position p back to p |
| VertexCompaction.RemapKeepsCorners | src/grasp_selection/mesh_processor.py:88-92 | after remapping, every corner of every triangle lands on the same point as before, in the same order |
| VertexCompaction.RemapPreservesPositions | src/grasp_selection/mesh_processor.py:80-93 | on success the triangle count and order are kept, every index is in range, and every corner lands on the same point |
| VertexCompaction.RemapLeavesNoOrphans | src/grasp_selection/mesh_processor.py:68-78 | every kept vertex is used by some remapped triangle |
| VertexCompaction.CompactionLeavesNoOrphans | src/grasp_selection/mesh_processor.py:62-93 | on success no vertex is unreferenced |
| VertexCompaction.RemapBackKeepsDistinct | src/grasp_selection/mesh_processor.py:88-91 | triangles whose read-back is non-degenerate are non-degenerate themselves |
| VertexCompaction.CompactionKeepsValidity | src/grasp_selection/mesh_processor.py:80-93 | on success triangles stay non-degenerate, and normals are one per vertex |
| VertexCompaction.FailedCompactionLeavesDanglingIndex | src/grasp_selection/mesh_processor.py:80-86 | as written: on a normals failure, with an unused vertex and the last vertex used, some triangle index points past the end of the vertex list |
| VertexCompaction.DanglingIndexExample | src/grasp_selection/mesh_processor.py:80-86 | the concrete input from the Findings table: the result is `False`, with three vertices and the triangle (1, 2, 3) |
| VertexCompaction.RemoveUnreferencedVerticesAtomic | src/grasp_selection/mesh_processor.py:80-93 | corrected: on success it is exactly the as-written compaction, on failure the mesh is returned unchanged, and every triangle index is in range in every outcome |
| VertexCompaction.EverythingKept | src/grasp_selection/mesh_processor.py:68-78 | when every vertex is used, every vertex is kept and the table is the identity |
| VertexCompaction.CompactionFixesOrphanFreeMesh | src/grasp_selection/mesh_processor.py:62-93 | an orphan-free mesh with aligned normals is a fixed point, and compaction succeeds on it exactly when it has vertices |
| Cleaning.CleanTopology | src/grasp_selection/mesh_processor.py:44-47 | as written: succeeds if and only if compaction can; on success the mesh is clean (valid triangles, no orphans, aligned normals) and shows the same surface as the validated triangles; on failure the triangles and normals are the validated ones while the vertices are already reduced to the referenced ones |
| Cleaning.CleanTopologyAtomic | src/grasp_selection/mesh_processor.py:44-47 | corrected: the same success condition and guarantees, and on failure exactly the validated mesh, whose triangles are all valid |
| Cleaning.CleanTopologyAgreesOnSuccess | src/grasp_selection/mesh_processor.py:46-47 | the two compositions fail on the same meshes and give the same mesh whenever they succeed |
| Cleaning.CleanTopologyIdempotent | src/grasp_selection/mesh_processor.py:44-47 | cleaning a cleaned mesh changes nothing, and succeeds exactly when it has vertices |
| PoseSign.CountsPartition | src/grasp_selection/mesh_processor.py:113-114 | the non-negative and negative counts add up to the number of projections |
| PoseSign.NegateCounts | src/grasp_selection/mesh_processor.py:113-114 | flipping an axis swaps non-negative for non-positive and negative for positive counts |
| PoseSign.Indicators | src/grasp_selection/mesh_processor.py:113-115 | the indicator of axis j is set if and only if the non-negative projections onto it are a strict majority |
| PoseSign.BroadcastTargets | src/grasp_selection/mesh_processor.py:119-120 | blending the frame with the indicator vector column by column keeps or negates row a according to the indicator of axis 2 - a |
| PoseSign.RowwiseTargets | src/grasp_selection/mesh_processor.py:119-120 | corrected blend: row a is kept or negated according to the indicator of axis a |
| PoseSign.SignedTargetsAsWritten | src/grasp_selection/mesh_processor.py:113-120 | as written: row a is kept if and only if non-negatives are a strict majority on axis 2 - a, and negated if and only if they are not |
| PoseSign.SignedTargets | src/grasp_selection/mesh_processor.py:113-120 | corrected: row a is kept if and only if non-negatives are a strict majority on axis a itself, and negated if and only if they are not |
| PoseSign.MiddleAxisAgrees | src/grasp_selection/mesh_processor.py:119-120 | both rules give the same row for the middle axis |
| PoseSign.TieNegates | src/grasp_selection/mesh_processor.py:113-116 | corrected rule: equal counts on axis a negate row a |
| PoseSign.TieNegatesAsWritten | src/grasp_selection/mesh_processor.py:113-120 | as written: equal counts on axis 2 - a negate row a |
| PoseSign.OrientedMajority | src/grasp_selection/mesh_processor.py:113-120 | after the corrected sign rule, non-negative projections are at least as many as negative ones on every axis |
| PoseSign.CountsConcat | src/grasp_selection/mesh_processor.py:113-114 | the per-axis counts add over concatenation of projection lists |
| PoseSign.ExampleColumns | src/grasp_selection/mesh_processor.py:112-114 | the counts of the Findings example, a centred, uncorrelated projection set as principal-component analysis produces: six of eight non-negative (and six positive) on axis 0, six of eight on axis 1, an exact four-four tie on axis 2 |
| PoseSign.AsWrittenSwapsFirstAndLastSigns | src/grasp_selection/mesh_processor.py:113-120 | on that example the source yields Z-, Y+, X+ where the row-by-row rule yields Z+, Y+, X-, and axis 0 ends up with more negative than non-negative projections |
| Rescaling.MinCoordIsLeast | src/grasp_selection/mesh_processor.py:146 | the per-axis minimum bounds every coordinate from below and is attained |
| Rescaling.MaxCoordIsGreatest | src/grasp_selection/mesh_processor.py:147 | the per-axis maximum bounds every coordinate from above and is attained |
| Rescaling.Extents | src/grasp_selection/mesh_processor.py:146-148 | every extent is non-negative |
| Rescaling.FirstAxisEqual | src/grasp_selection/mesh_processor.py:152-159 | it returns an axis whose extent equals the value, and no earlier axis has that extent |
| Rescaling.ReferenceLength | src/grasp_selection/mesh_processor.py:150-161 | MIN picks the smallest extent, MAX the largest, ABSOLUTE 1 |
| Rescaling.RescaleVertices | src/grasp_selection/mesh_processor.py:145-169 | fails (`ValueError`) exactly with no vertices; triangles and normals are unchanged; every vertex is scaled by one common factor that takes the policy's reference length to `scale`, so it is exactly `scale` under ABSOLUTE |
| Rescaling.ExtentsOfNonDecreasingMap | src/grasp_selection/mesh_processor.py:146-148 | under an order-preserving coordinate map, each extent is the mapped max minus the mapped min |
| Rescaling.ExtentsOfNonIncreasingMap | src/grasp_selection/mesh_processor.py:146-148 | under an order-reversing map, the ends of each interval swap places |
| Rescaling.ExtentsOfScaled | src/grasp_selection/mesh_processor.py:146-148 | the extents after multiplying by f, for either sign of f |
| Rescaling.SmallestScaledExtent | src/grasp_selection/mesh_processor.py:152-153 | the arithmetic step: with `f = scale / min extent`, the smallest scaled extent is `abs(scale)` |
| Rescaling.LargestScaledExtent | src/grasp_selection/mesh_processor.py:158-159 | the arithmetic step: with `f = scale / max extent`, the largest scaled extent is `abs(scale)` |
| Rescaling.RescaleMinExtentHitsScale | src/grasp_selection/mesh_processor.py:151-168 | under MIN, the smallest axis extent of the rescaled vertices is `abs(scale)` |
| Rescaling.RescaleMaxExtentHitsScale | src/grasp_selection/mesh_processor.py:157-168 | under MAX, the largest axis extent of the rescaled vertices is `abs(scale)` |

## Left out

- Centering, PCA, the solve for the rotation, and applying it to vertices
  and normals in `standardize_pose` (lines 103-109 and 121-133). These are
  floating-point linear algebra in foreign libraries, and the centering
  methods belong to the `mesh` module. That module is not part of this
  model. The projections are taken as input.
- The third stage of `clean` (line 48). It is also left out that `clean`
  carries on after compaction returns `False`.
- The MED policy (line 155). It calls `np.med`, which does not exist.
- The DIAG policy (lines 162-164). It needs a Euclidean norm, that is, a
  square root.
- An unknown `rescaling_type`, which leaves `relative_scale` unbound. The
  policy is an enumeration instead.
- Rescaling.RescaleVertices: requires a non-zero reference length. Where
  numpy divides by zero and yields `inf` (line 167), this model has a
  precondition.
- VertexCompaction.RemoveUnreferencedVertices: requires every triangle index
  to be in range. The marking loop checks only the upper bound (line 70).
  Python wraps negative indices. The remap at line 91 raises outside the
  `try`. Compaction always runs after validation here, which establishes
  this.
- VertexCompaction.MarkReferenced: requires non-negative indices, for the
  same reason.
- Floating-point rounding. Coordinates are exact reals, so the MIN and MAX
  results are exact equalities.
- `convert_sdf`, `stable_poses`, `extract_shot` and `convex_pieces` (lines
  171-261). They are shell-outs to external binaries and file I/O.
- The constructor and property getters (lines 31-42), and the rest of the
  repository.

## Findings

| source | as written | input that shows it | evidently intended | confidence | as-written member | corrected member |
|---|---|---|---|---|---|---|
| src/grasp_selection/mesh_processor.py:80-92 | The vertex list is replaced before the normals are indexed. An `IndexError` on the normals returns `False` and keeps the compacted vertices next to the old, unremapped triangles. | Vertices `[p0, p1, p2, p3]`, triangles `[(1, 2, 3)]`, normals `[n0]`. The result has three vertices, but the triangle still names index 3. | A failed compaction leaves the mesh consistent, as it was before the call. | not executed | VertexCompaction.FailedCompactionLeavesDanglingIndex | VertexCompaction.RemoveUnreferencedVerticesAtomic |
| src/grasp_selection/mesh_processor.py:115-120 | `target_array * pos_oriented` multiplies a 3x3 array by a length-3 vector, which numpy broadcasts along the columns. Row `a` has its one non-zero entry in column `2 - a`, so it takes the sign decided by axis `2 - a`. | Projections `(1, 2, 0.5)`, `(1, -2, 0.5)`, `(1, 0, 0.5)`, `(-3, 0, -1.5)`, `(1, 2, -0.5)`, `(1, -2, -0.5)`, `(1, 0, -0.5)`, `(-3, 0, 1.5)`. They are centred and uncorrelated, with decreasing variance, as a PCA output is. The source yields rows Z-, Y+, X+, and axis 0, mostly non-negative, is flipped to mostly negative. | Each row is signed by its own principal axis, giving Z+, Y+, X-. | not executed | PoseSign.AsWrittenSwapsFirstAndLastSigns | PoseSign.OrientedMajority |
