/** Stage 1 of cleaning, `MeshProcessor.remove_bad_tris`: drop every
    triangle that addresses a vertex outside `[0, num_v)` or repeats an
    index. Dropping is silent data cleaning, not an error. */
module TriangleValidation {
  import opened MeshTypes
  import opened Selection

  /** The triangles of `ts` that pass the validity test, in input order.
      This is the reference filter the source loop is checked against. */
  function ValidTriangles(ts: seq<Tri>, n: int): (r: seq<Tri>)
    ensures AllValid(r, n)
    ensures |r| <= |ts|
  {
    if |ts| == 0 then []
    else
      var init := ts[..|ts| - 1];
      var t := ts[|ts| - 1];
      if Valid(t, n) then ValidTriangles(init, n) + [t] else ValidTriangles(init, n)
  }

  /** Each valid triangle keeps all its occurrences and each invalid one
      loses all of them. */
  lemma {:induction false} ValidTrianglesCounts(ts: seq<Tri>, n: int)
    ensures forall t :: multiset(ValidTriangles(ts, n))[t] == if Valid(t, n) then multiset(ts)[t] else 0
  {
    if |ts| > 0 {
      var init := ts[..|ts| - 1];
      ValidTrianglesCounts(init, n);
      assert ts == init + [ts[|ts| - 1]];
    }
  }

  /** Extending the input by one triangle extends the filter's output by
      that triangle exactly when it is valid. */
  lemma ValidTrianglesStep(ts: seq<Tri>, n: int, i: nat)
    requires i < |ts|
    ensures ValidTriangles(ts[..i + 1], n)
         == ValidTriangles(ts[..i], n) + (if Valid(ts[i], n) then [ts[i]] else [])
  {
    var p := ts[..i + 1];
    assert p[..|p| - 1] == ts[..i];
    assert p[|p| - 1] == ts[i];
  }

  /** The loop of `remove_bad_tris`, testing each bound and each pair of
      indices exactly as the source writes them. */
  method RemoveBadTris(ts: seq<Tri>, numV: int) returns (newTris: seq<Tri>)
    ensures newTris == ValidTriangles(ts, numV)
  {
    newTris := [];
    for i := 0 to |ts|
      invariant newTris == ValidTriangles(ts[..i], numV)
    {
      var t := ts[i];
      ValidTrianglesStep(ts, numV, i);
      if t.a >= 0 && t.a < numV && t.b >= 0 && t.b < numV && t.c >= 0 && t.c < numV
         && t.a != t.b && t.a != t.c && t.b != t.c
      {
        newTris := newTris + [t];
      }
    }
    assert ts[..|ts|] == ts;
  }

  /** The mesh-level stage: only the triangle list is replaced, by the
      valid triangles of the old one against the current vertex count. */
  function RemoveBadTrisMesh(m: Mesh): (r: Mesh)
    ensures r.vertices == m.vertices && r.normals == m.normals
    ensures r.triangles == ValidTriangles(m.triangles, |m.vertices|)
    ensures AllValid(r.triangles, |r.vertices|)
    ensures |r.triangles| <= |m.triangles|
  {
    m.(triangles := ValidTriangles(m.triangles, |m.vertices|))
  }

  /** The mask of valid positions of `ts`. */
  function ValidityMask(ts: seq<Tri>, n: int): seq<bool> {
    seq(|ts|, k requires 0 <= k < |ts| => Valid(ts[k], n))
  }

  /** The filter keeps exactly the valid triangles and keeps them in their
      input order: it is `ts` gathered at the ascending positions of the
      valid triangles. */
  lemma {:induction false} ValidTrianglesInOrder(ts: seq<Tri>, n: int)
    ensures ValidTriangles(ts, n) == Gather(ts, SelectIndices(ValidityMask(ts, n)))
  {
    if |ts| > 0 {
      var init := ts[..|ts| - 1];
      var mask := ValidityMask(ts, n);
      assert mask[..|mask| - 1] == ValidityMask(init, n);
      ValidTrianglesInOrder(init, n);
      var prev := SelectIndices(ValidityMask(init, n));
      assert Gather(ts, prev) == Gather(init, prev);
    }
  }

  /** Validation changes a triangle list exactly when some triangle in it is
      invalid; on an already valid list it is the identity. */
  lemma {:induction false} ValidTrianglesFixpoint(ts: seq<Tri>, n: int)
    ensures ValidTriangles(ts, n) == ts <==> AllValid(ts, n)
  {
    if |ts| > 0 && AllValid(ts, n) {
      var init := ts[..|ts| - 1];
      ValidTrianglesFixpoint(init, n);
      assert ts == init + [ts[|ts| - 1]];
    }
  }

  /** Running validation on its own output, with the same vertex count,
      returns that output unchanged. */
  lemma ValidTrianglesIdempotent(ts: seq<Tri>, n: int)
    ensures ValidTriangles(ValidTriangles(ts, n), n) == ValidTriangles(ts, n)
  {
    ValidTrianglesFixpoint(ValidTriangles(ts, n), n);
  }

  /** Four vertices, and the triangles (0,1,2), (0,1,3), (0,0,1): only the
      last one, which repeats index 0, is dropped. */
  lemma DropsRepeatedIndex()
    ensures ValidTriangles([Tri(0, 1, 2), Tri(0, 1, 3), Tri(0, 0, 1)], 4)
         == [Tri(0, 1, 2), Tri(0, 1, 3)]
  {
    var ts := [Tri(0, 1, 2), Tri(0, 1, 3), Tri(0, 0, 1)];
    assert ts[..2] == [Tri(0, 1, 2), Tri(0, 1, 3)];
    assert ts[..2][..1] == [Tri(0, 1, 2)];
    assert ts[..2][..1][..0] == [];
  }
}
