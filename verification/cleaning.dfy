/** The topological part of `MeshProcessor.clean`: triangle validation
    followed by vertex compaction. `CleanTopology` composes the two stages
    as written, so a failure while indexing the normals leaves compacted
    vertices next to triangles that still use the old numbering;
    `CleanTopologyAtomic` composes validation with the atomic compaction,
    which hands back the validated mesh instead. */
module Cleaning {
  import opened MeshTypes
  import opened TriangleValidation
  import opened Selection
  import opened VertexCompaction

  /** Validation, then compaction, as the source runs them. On success the
      mesh satisfies the cleaned invariant (indices in range, no repeated
      index, no orphan vertex, normals one per vertex) and describes the
      same surface as the validated triangles did. On failure the triangles
      and normals are those left by validation while the vertices have
      already been reduced to the referenced ones. */
  function CleanTopology(m: Mesh): (r: Compaction)
    ensures r.ok <==> |m.vertices| > 0 && NormalsCoverReferenced(RemoveBadTrisMesh(m))
    ensures r.ok ==> Clean(r.mesh)
    ensures r.ok ==> SamePositions(m.vertices, ValidTriangles(m.triangles, |m.vertices|),
                                   r.mesh.vertices, r.mesh.triangles)
    ensures !r.ok ==> r.mesh.triangles == ValidTriangles(m.triangles, |m.vertices|)
                      && r.mesh.normals == m.normals
                      && r.mesh.vertices == Gather(m.vertices, ReferencedIndices(r.mesh.triangles, |m.vertices|))
  {
    var validated := RemoveBadTrisMesh(m);
    RemapPreservesPositions(validated);
    CompactionLeavesNoOrphans(validated);
    CompactionKeepsValidity(validated);
    RemoveUnreferencedVertices(validated)
  }

  /** Validation, then the atomic compaction: the same outcome as
      `CleanTopology` on success, and the validated mesh, unchanged, on
      failure. */
  function CleanTopologyAtomic(m: Mesh): (r: Compaction)
    ensures r.ok <==> |m.vertices| > 0 && NormalsCoverReferenced(RemoveBadTrisMesh(m))
    ensures r.ok ==> Clean(r.mesh)
    ensures r.ok ==> SamePositions(m.vertices, ValidTriangles(m.triangles, |m.vertices|),
                                   r.mesh.vertices, r.mesh.triangles)
    ensures !r.ok ==> r.mesh == RemoveBadTrisMesh(m) && AllValid(r.mesh.triangles, |r.mesh.vertices|)
  {
    var validated := RemoveBadTrisMesh(m);
    RemapPreservesPositions(validated);
    CompactionLeavesNoOrphans(validated);
    CompactionKeepsValidity(validated);
    RemoveUnreferencedVerticesAtomic(validated)
  }

  /** The two compositions fail on the same meshes and agree whenever they
      succeed. */
  lemma CleanTopologyAgreesOnSuccess(m: Mesh)
    ensures CleanTopologyAtomic(m).ok == CleanTopology(m).ok
    ensures CleanTopology(m).ok ==> CleanTopologyAtomic(m) == CleanTopology(m)
  {
  }

  /** Cleaning a cleaned mesh again changes nothing. It succeeds again
      unless the first run removed every vertex (a mesh with vertices but no
      triangles), in which case indexing the now empty vertex list fails. */
  lemma CleanTopologyIdempotent(m: Mesh)
    ensures var r := CleanTopology(m);
            r.ok ==> CleanTopology(r.mesh).mesh == r.mesh
                     && (CleanTopology(r.mesh).ok <==> |r.mesh.vertices| > 0)
  {
    var r := CleanTopology(m);
    if r.ok {
      var c := r.mesh;
      ValidTrianglesFixpoint(c.triangles, |c.vertices|);
      assert RemoveBadTrisMesh(c) == c;
      CompactionFixesOrphanFreeMesh(c);
    }
  }
}
