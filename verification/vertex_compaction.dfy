/** Stage 2 of cleaning, `MeshProcessor.remove_unreferenced_vertices`:
    mark the vertices some triangle uses, keep only those (and the matching
    normals), and rewrite triangle indices through a prefix-count table. */
module VertexCompaction {
  import opened MeshTypes
  import opened Selection

  /** Outcome of compaction: the mesh as the source leaves it, and the
      boolean the source returns. */
  datatype Compaction = Compaction(mesh: Mesh, ok: bool)

  predicate NonNegative(ts: seq<Tri>) {
    forall k :: 0 <= k < |ts| ==> ts[k].a >= 0 && ts[k].b >= 0 && ts[k].c >= 0
  }

  /** The upper-bound test the marking loop applies before marking. */
  predicate Below(t: Tri, n: int) {
    t.a < n && t.b < n && t.c < n
  }

  /** The marking loop: start from all zeros and, for each triangle whose
      three indices pass the upper-bound test, mark its three vertices. */
  function MarkReferenced(ts: seq<Tri>, n: nat): (marks: seq<bool>)
    requires NonNegative(ts)
    ensures |marks| == n
    ensures forall i :: 0 <= i < n ==>
              (marks[i] <==> exists k :: 0 <= k < |ts| && Below(ts[k], n) && Mentions(ts[k], i))
  {
    if |ts| == 0 then seq(n, i => false)
    else
      var init := ts[..|ts| - 1];
      var t := ts[|ts| - 1];
      var prev := MarkReferenced(init, n);
      var marks := if Below(t, n) then prev[t.a := true][t.b := true][t.c := true] else prev;
      assert forall i :: 0 <= i < n && marks[i] ==>
               exists k :: 0 <= k < |ts| && Below(ts[k], n) && Mentions(ts[k], i) by {
        forall i | 0 <= i < n && marks[i]
          ensures exists k :: 0 <= k < |ts| && Below(ts[k], n) && Mentions(ts[k], i)
        {
          if !prev[i] {
            assert Below(ts[|ts| - 1], n) && Mentions(ts[|ts| - 1], i);
          } else {
            var k :| 0 <= k < |init| && Below(init[k], n) && Mentions(init[k], i);
            assert ts[k] == init[k];
          }
        }
      }
      assert forall i :: 0 <= i < n && (exists k :: 0 <= k < |ts| && Below(ts[k], n) && Mentions(ts[k], i))
               ==> marks[i] by {
        forall i | 0 <= i < n && exists k :: 0 <= k < |ts| && Below(ts[k], n) && Mentions(ts[k], i)
          ensures marks[i]
        {
          var k :| 0 <= k < |ts| && Below(ts[k], n) && Mentions(ts[k], i);
          if k < |init| {
            assert init[k] == ts[k];
          }
        }
      }
      marks
  }

  /** `np.cumsum(mask)`: the running count of marks up to and including each
      position, accumulated left to right. */
  function CumSum(marks: seq<bool>): (c: seq<nat>)
    ensures |c| == |marks|
    ensures forall i :: 0 <= i < |marks| ==> c[i] == CountTrue(marks[..i + 1])
  {
    if |marks| == 0 then []
    else
      var init := marks[..|marks| - 1];
      var prev := CumSum(init);
      var last := if |prev| == 0 then 0 else prev[|prev| - 1];
      assert |prev| > 0 ==> init[..|prev|] == init;
      assert marks[..|marks|] == marks;
      forall i | 1 <= i <= |init|
        ensures CountTrue(marks[..i]) == CountTrue(init[..i])
      {
        assert marks[..i] == init[..i];
      }
      prev + [last + (if marks[|marks| - 1] then 1 else 0)]
  }

  lemma PrefixCountStep(marks: seq<bool>, i: nat)
    requires i < |marks|
    ensures CountTrue(marks[..i + 1]) == CountTrue(marks[..i]) + (if marks[i] then 1 else 0)
  {
    assert marks[..i + 1][..i] == marks[..i];
  }

  /** Marked positions have strictly increasing counts of marks before them. */
  lemma RankIncreases(marks: seq<bool>, i: nat, j: nat)
    requires i < j < |marks| && marks[i] && marks[j]
    ensures CountTrue(marks[..i]) < CountTrue(marks[..j])
  {
    SelectedAtRank(marks, i);
    SelectedAtRank(marks, j);
    var idx := SelectIndices(marks);
    assert idx[CountTrue(marks[..i])] < idx[CountTrue(marks[..j])];
  }

  /** The rank of a marked position (marks strictly before it) is below the
      total, and ranks grow with position. */
  lemma RanksOfMarked(marks: seq<bool>)
    ensures forall i, j :: 0 <= i < j < |marks| && marks[i] && marks[j] ==>
              CountTrue(marks[..i]) < CountTrue(marks[..j])
    ensures forall i :: 0 <= i < |marks| && marks[i] ==> CountTrue(marks[..i]) < CountTrue(marks)
  {
    forall i, j | 0 <= i < j < |marks| && marks[i] && marks[j]
      ensures CountTrue(marks[..i]) < CountTrue(marks[..j])
    {
      RankIncreases(marks, i, j);
    }
    forall i | 0 <= i < |marks| && marks[i]
      ensures CountTrue(marks[..i]) < CountTrue(marks)
    {
      SelectedAtRank(marks, i);
    }
  }

  /** `np.cumsum(mask) - 1`: the new index of every referenced vertex. */
  function RemapTable(marks: seq<bool>): (table: seq<int>)
    ensures |table| == |marks|
    ensures forall i :: 0 <= i < |marks| && marks[i] ==> table[i] == CountTrue(marks[..i])
    ensures forall i, j :: 0 <= i < j < |marks| && marks[i] && marks[j] ==> 0 <= table[i] < table[j]
    ensures forall i :: 0 <= i < |marks| && marks[i] ==> table[i] < CountTrue(marks)
  {
    var c := CumSum(marks);
    var table: seq<int> := seq(|marks|, i requires 0 <= i < |marks| => c[i] as int - 1);
    assert forall i :: 0 <= i < |marks| && marks[i] ==> table[i] == CountTrue(marks[..i]) by {
      forall i | 0 <= i < |marks| && marks[i]
        ensures table[i] == CountTrue(marks[..i])
      {
        PrefixCountStep(marks, i);
      }
    }
    RanksOfMarked(marks);
    table
  }

  /** Rewrites one triangle's indices through the table, keeping winding. */
  function RemapTri(t: Tri, table: seq<int>): Tri
    requires InRange(t, |table|)
  {
    Tri(table[t.a], table[t.b], table[t.c])
  }

  /** Rewrites every triangle through the table. */
  function RemapAll(ts: seq<Tri>, table: seq<int>): (r: seq<Tri>)
    requires AllInRange(ts, |table|)
    ensures |r| == |ts|
  {
    seq(|ts|, k requires 0 <= k < |ts| => RemapTri(ts[k], table))
  }

  /** The vertex indices some triangle uses, ascending: `np.where` of the
      marks. */
  function ReferencedIndices(ts: seq<Tri>, n: nat): (idx: seq<nat>)
    requires AllInRange(ts, n)
    ensures StrictlyIncreasing(idx)
    ensures forall k :: 0 <= k < |idx| ==> idx[k] < n && Referenced(ts, idx[k])
    ensures forall i :: 0 <= i < n && Referenced(ts, i) ==> i in idx
  {
    var marks := MarkReferenced(ts, n);
    SelectIndicesComplete(marks);
    SelectIndices(marks)
  }

  /** The source's condition for the normals to be indexable by the kept
      vertex indices: absent, or a non-empty list reaching every referenced
      vertex. */
  predicate NormalsCoverReferenced(m: Mesh) {
    m.normals.Some? ==>
      |m.normals.value| > 0
      && forall i :: 0 <= i < |m.vertices| && Referenced(m.triangles, i) ==> i < |m.normals.value|
  }

  /** Rewriting through the table renumbers every corner to its position in
      the kept list, so reading the new triangles through the kept list
      gives back the old ones. */
  lemma RemapMapsBack(ts: seq<Tri>, n: nat)
    requires AllInRange(ts, n)
    ensures var kept := ReferencedIndices(ts, n);
            var nt := RemapAll(ts, RemapTable(MarkReferenced(ts, n)));
            AllInRange(nt, |kept|) && RemapAll(nt, kept) == ts
  {
    var table := RemapTable(MarkReferenced(ts, n));
    var kept := ReferencedIndices(ts, n);
    var nt := RemapAll(ts, table);
    forall k | 0 <= k < |ts|
      ensures InRange(nt[k], |kept|)
      ensures kept[nt[k].a] == ts[k].a && kept[nt[k].b] == ts[k].b && kept[nt[k].c] == ts[k].c
    {
      var t := ts[k];
      assert Mentions(t, t.a) && Mentions(t, t.b) && Mentions(t, t.c);
      TableFindsKeptVertex(ts, n, t.a);
      TableFindsKeptVertex(ts, n, t.b);
      TableFindsKeptVertex(ts, n, t.c);
      assert nt[k] == Tri(table[t.a], table[t.b], table[t.c]);
    }
    ReadBack(ts, nt, kept);
  }

  /** If every corner of `nt` indexes `kept` at the matching corner of `ts`,
      rewriting `nt` through `kept` yields `ts`. */
  lemma ReadBack(ts: seq<Tri>, nt: seq<Tri>, kept: seq<nat>)
    requires |nt| == |ts| && AllInRange(nt, |kept|)
    requires forall k :: 0 <= k < |ts| ==>
               kept[nt[k].a] == ts[k].a && kept[nt[k].b] == ts[k].b && kept[nt[k].c] == ts[k].c
    ensures RemapAll(nt, kept) == ts
  {
    assert forall k :: 0 <= k < |ts| ==> RemapAll(nt, kept)[k] == ts[k];
  }

  /** `remove_unreferenced_vertices` as written. Vertices are replaced first;
      if indexing the normals then raises, the function returns `False`
      with the new vertices in place and the triangles not yet remapped.
      With no vertices at all the vertex indexing itself raises and nothing
      changes. */
  function RemoveUnreferencedVertices(m: Mesh): (r: Compaction)
    requires AllInRange(m.triangles, |m.vertices|)
    ensures r.ok <==> |m.vertices| > 0 && NormalsCoverReferenced(m)
    ensures r.mesh.vertices == Gather(m.vertices, ReferencedIndices(m.triangles, |m.vertices|))
    ensures r.ok && m.normals.Some? ==>
              r.mesh.normals.Some?
              && r.mesh.normals.value == Gather(m.normals.value, ReferencedIndices(m.triangles, |m.vertices|))
    ensures r.ok && m.normals.None? ==> r.mesh.normals.None?
    ensures r.ok ==> var kept := ReferencedIndices(m.triangles, |m.vertices|);
                     AllInRange(r.mesh.triangles, |kept|) && RemapAll(r.mesh.triangles, kept) == m.triangles
    ensures !r.ok ==> r.mesh.triangles == m.triangles && r.mesh.normals == m.normals
  {
    var ts := m.triangles;
    var marks := MarkReferenced(ts, |m.vertices|);
    var kept := ReferencedIndices(ts, |m.vertices|);
    var table := RemapTable(marks);
    match Rows(m.vertices, kept)
    case None => Compaction(m, false)
    case Some(vs) =>
      var m1 := m.(vertices := vs);
      var normals := if m.normals.None? then Some(None) else
        match Rows(m.normals.value, kept)
        case None => None
        case Some(ns) => Some(Some(ns));
      if normals.None? then Compaction(m1, false)
      else
        RemapMapsBack(ts, |m.vertices|);
        Compaction(m1.(normals := normals.value, triangles := RemapAll(ts, table)), true)
  }

  /** The table sends a referenced vertex to the position it occupies in
      the kept list. */
  lemma {:induction false} TableFindsKeptVertex(ts: seq<Tri>, n: nat, i: int)
    requires AllInRange(ts, n)
    requires 0 <= i < n && Referenced(ts, i)
    ensures var table := RemapTable(MarkReferenced(ts, n));
            var kept := ReferencedIndices(ts, n);
            0 <= table[i] < |kept| && kept[table[i]] == i
  {
    var marks := MarkReferenced(ts, n);
    var k :| 0 <= k < |ts| && Mentions(ts[k], i);
    assert Below(ts[k], n);
    assert marks[i];
    SelectedAtRank(marks, i);
  }

  /** The table sends the vertex kept at position `p` back to `p`. */
  lemma {:induction false} TableInvertsKept(ts: seq<Tri>, n: nat, p: nat)
    requires AllInRange(ts, n)
    requires p < |ReferencedIndices(ts, n)|
    ensures RemapTable(MarkReferenced(ts, n))[ReferencedIndices(ts, n)[p]] == p
  {
    RankOfSelected(MarkReferenced(ts, n), p);
  }

  /** A referenced vertex, looked up through the table in the kept list,
      is the same point. */
  lemma RemapCorner(vs: seq<Vec3>, ts: seq<Tri>, i: int)
    requires AllInRange(ts, |vs|)
    requires 0 <= i < |vs| && Referenced(ts, i)
    ensures var table := RemapTable(MarkReferenced(ts, |vs|));
            var kept := ReferencedIndices(ts, |vs|);
            0 <= table[i] < |kept| && Gather(vs, kept)[table[i]] == vs[i]
  {
    TableFindsKeptVertex(ts, |vs|, i);
  }

  /** Remapping sends every corner of every triangle to the kept copy of
      the same vertex. */
  lemma RemapKeepsCorners(vs: seq<Vec3>, ts: seq<Tri>, nv: seq<Vec3>, nt: seq<Tri>)
    requires AllInRange(ts, |vs|)
    requires nv == Gather(vs, ReferencedIndices(ts, |vs|))
    requires nt == RemapAll(ts, RemapTable(MarkReferenced(ts, |vs|)))
    ensures SamePositions(vs, ts, nv, nt)
  {
    var n := |vs|;
    var table := RemapTable(MarkReferenced(ts, n));
    forall k | 0 <= k < |ts|
      ensures InRange(nt[k], |nv|)
      ensures nv[nt[k].a] == vs[ts[k].a] && nv[nt[k].b] == vs[ts[k].b] && nv[nt[k].c] == vs[ts[k].c]
    {
      var t := ts[k];
      assert Mentions(t, t.a) && Mentions(t, t.b) && Mentions(t, t.c);
      RemapCorner(vs, ts, t.a);
      RemapCorner(vs, ts, t.b);
      RemapCorner(vs, ts, t.c);
      assert nt[k] == Tri(table[t.a], table[t.b], table[t.c]);
    }
  }

  /** On success the triangle list keeps its length and order, every index
      is in range for the compacted vertices, and every corner of every
      triangle still lands on the same point. */
  lemma RemapPreservesPositions(m: Mesh)
    requires AllInRange(m.triangles, |m.vertices|)
    ensures var r := RemoveUnreferencedVertices(m);
            r.ok ==> SamePositions(m.vertices, m.triangles, r.mesh.vertices, r.mesh.triangles)
  {
    var r := RemoveUnreferencedVertices(m);
    if r.ok {
      RemapKeepsCorners(m.vertices, m.triangles, r.mesh.vertices, r.mesh.triangles);
    }
  }

  /** Every kept vertex is used by some remapped triangle. */
  lemma RemapLeavesNoOrphans(ts: seq<Tri>, n: nat)
    requires AllInRange(ts, n)
    ensures forall p :: 0 <= p < |ReferencedIndices(ts, n)| ==>
              Referenced(RemapAll(ts, RemapTable(MarkReferenced(ts, n))), p)
  {
    var table := RemapTable(MarkReferenced(ts, n));
    var kept := ReferencedIndices(ts, n);
    forall p | 0 <= p < |kept|
      ensures Referenced(RemapAll(ts, table), p)
    {
      assert kept[p] < n && Referenced(ts, kept[p]);
      var k :| 0 <= k < |ts| && Mentions(ts[k], kept[p]);
      TableInvertsKept(ts, n, p);
      assert RemapAll(ts, table)[k] == RemapTri(ts[k], table);
    }
  }

  /** On success every compacted vertex is used by some triangle. */
  lemma CompactionLeavesNoOrphans(m: Mesh)
    requires AllInRange(m.triangles, |m.vertices|)
    ensures var r := RemoveUnreferencedVertices(m);
            r.ok ==> NoOrphans(r.mesh)
  {
    RemapLeavesNoOrphans(m.triangles, |m.vertices|);
  }

  /** On success a triangle that repeated no index still repeats none, and
      normals that were present are one per compacted vertex. */
  lemma CompactionKeepsValidity(m: Mesh)
    requires AllInRange(m.triangles, |m.vertices|)
    ensures var r := RemoveUnreferencedVertices(m);
            r.ok ==> (AllDistinct(m.triangles) ==> AllDistinct(r.mesh.triangles)) && NormalsAligned(r.mesh)
  {
    var r := RemoveUnreferencedVertices(m);
    if r.ok {
      RemapBackKeepsDistinct(m.triangles, r.mesh.triangles, ReferencedIndices(m.triangles, |m.vertices|));
    }
  }

  /** Triangles that read back as distinct triangles through the kept list
      are distinct themselves. */
  lemma RemapBackKeepsDistinct(ts: seq<Tri>, nt: seq<Tri>, kept: seq<nat>)
    requires AllInRange(nt, |kept|) && RemapAll(nt, kept) == ts
    ensures AllDistinct(ts) ==> AllDistinct(nt)
  {
    forall k | 0 <= k < |nt| && Distinct(ts[k])
      ensures Distinct(nt[k])
    {
      assert ts[k] == RemapTri(nt[k], kept);
    }
  }

  /** As written, a failure while indexing the normals leaves the compacted
      vertices next to the old, unremapped triangles: when some vertex is
      unused and the last vertex is used, a triangle index now points past
      the end of the vertex list. */
  lemma FailedCompactionLeavesDanglingIndex(m: Mesh, orphan: nat)
    requires AllInRange(m.triangles, |m.vertices|)
    requires |m.vertices| > 0 && !NormalsCoverReferenced(m)
    requires orphan < |m.vertices| && !Referenced(m.triangles, orphan)
    requires Referenced(m.triangles, |m.vertices| - 1)
    ensures var r := RemoveUnreferencedVertices(m);
            !r.ok && !AllInRange(r.mesh.triangles, |r.mesh.vertices|)
  {
    var ts, n := m.triangles, |m.vertices|;
    var marks := MarkReferenced(ts, n);
    assert !marks[orphan];
    CountTrueBelowLength(marks, orphan);
    var k :| 0 <= k < |ts| && Mentions(ts[k], n - 1);
    assert !InRange(ts[k], |RemoveUnreferencedVertices(m).mesh.vertices|);
  }

  /** Four vertices, one triangle (1, 2, 3) and a single normal: vertex 0
      is dropped, indexing the one normal at 1 raises, and the triangle
      still names index 3 of what is now a three-vertex list. */
  lemma DanglingIndexExample(p0: Vec3, p1: Vec3, p2: Vec3, p3: Vec3, n0: Vec3)
    ensures var r := RemoveUnreferencedVertices(Mesh([p0, p1, p2, p3], [Tri(1, 2, 3)], Some([n0])));
            !r.ok && |r.mesh.vertices| == 3 && r.mesh.triangles == [Tri(1, 2, 3)]
            && !InRange(r.mesh.triangles[0], |r.mesh.vertices|)
  {
    var m := Mesh([p0, p1, p2, p3], [Tri(1, 2, 3)], Some([n0]));
    assert Mentions(m.triangles[0], 1) && Mentions(m.triangles[0], 2) && Mentions(m.triangles[0], 3);
    assert Referenced(m.triangles, 1);
    assert !NormalsCoverReferenced(m);
    var marks := MarkReferenced(m.triangles, 4);
    assert marks == [false, true, true, true];
    assert marks[..3] == [false, true, true] && marks[..3][..2] == [false, true];
    assert marks[..3][..2][..1] == [false] && marks[..3][..2][..1][..0] == [];
    assert SelectIndices(marks[..3][..2][..1]) == [];
    assert SelectIndices(marks[..3][..2]) == [1];
    assert SelectIndices(marks[..3]) == [1, 2];
    assert SelectIndices(marks) == [1, 2, 3];
  }

  /** Compaction with the failure made atomic: a success is the compaction
      itself, and when the normals cannot be indexed the mesh is handed back
      exactly as it came in. Whatever the outcome, every triangle index is
      in range for the vertex list. */
  function RemoveUnreferencedVerticesAtomic(m: Mesh): (r: Compaction)
    requires AllInRange(m.triangles, |m.vertices|)
    ensures r.ok <==> |m.vertices| > 0 && NormalsCoverReferenced(m)
    ensures r.ok ==> r == RemoveUnreferencedVertices(m)
    ensures !r.ok ==> r.mesh == m
    ensures AllInRange(r.mesh.triangles, |r.mesh.vertices|)
  {
    var r := RemoveUnreferencedVertices(m);
    RemapPreservesPositions(m);
    if r.ok then r else Compaction(m, false)
  }

  /** With every mark set, each position has exactly its own index of marks
      before it. */
  lemma {:induction false} AllMarkedCount(marks: seq<bool>, i: nat)
    requires i <= |marks|
    requires forall j :: 0 <= j < |marks| ==> marks[j]
    ensures CountTrue(marks[..i]) == i
  {
    if i > 0 {
      AllMarkedCount(marks, i - 1);
      PrefixCountStep(marks, i - 1);
    }
  }

  /** When every vertex is used, nothing is dropped and no index moves. */
  lemma {:induction false} EverythingKept(ts: seq<Tri>, n: nat)
    requires AllInRange(ts, n)
    requires forall i :: 0 <= i < n ==> Referenced(ts, i)
    ensures |ReferencedIndices(ts, n)| == n
    ensures forall i :: 0 <= i < n ==> ReferencedIndices(ts, n)[i] == i
    ensures forall i :: 0 <= i < n ==> RemapTable(MarkReferenced(ts, n))[i] == i
  {
    var marks := MarkReferenced(ts, n);
    forall i | 0 <= i < n
      ensures marks[i]
    {
      assert Referenced(ts, i);
      var k :| 0 <= k < |ts| && Mentions(ts[k], i);
      assert Below(ts[k], n);
    }
    forall i | 0 <= i < n
      ensures CountTrue(marks[..i]) == i && i < |SelectIndices(marks)| && SelectIndices(marks)[i] == i
    {
      AllMarkedCount(marks, i);
      SelectedAtRank(marks, i);
    }
    AllMarkedCount(marks, n);
    assert marks[..n] == marks;
  }

  /** Gathering at every position in order gives the list back. */
  lemma GatherAll<T>(a: seq<T>, idx: seq<nat>)
    requires |idx| == |a| && forall i :: 0 <= i < |idx| ==> idx[i] == i
    ensures Gather(a, idx) == a
  {
  }

  /** Remapping through the identity table changes no triangle. */
  lemma RemapIdentity(ts: seq<Tri>, table: seq<int>)
    requires AllInRange(ts, |table|)
    requires forall i :: 0 <= i < |table| ==> table[i] == i
    ensures RemapAll(ts, table) == ts
  {
    forall k | 0 <= k < |ts|
      ensures RemapAll(ts, table)[k] == ts[k]
    {
      assert InRange(ts[k], |table|);
    }
  }

  /** A mesh with no orphan vertices and aligned normals is a fixed point of
      compaction; it reports success exactly when there are vertices. */
  lemma CompactionFixesOrphanFreeMesh(m: Mesh)
    requires AllInRange(m.triangles, |m.vertices|)
    requires NoOrphans(m) && NormalsAligned(m)
    ensures var r := RemoveUnreferencedVertices(m);
            r.mesh == m && (r.ok <==> |m.vertices| > 0)
  {
    var ts, n := m.triangles, |m.vertices|;
    var kept := ReferencedIndices(ts, n);
    var table := RemapTable(MarkReferenced(ts, n));
    assert Gather(m.vertices, kept) == m.vertices
        && (m.normals.Some? ==> Gather(m.normals.value, kept) == m.normals.value)
        && RemapAll(ts, table) == ts by {
      EverythingKept(ts, n);
      GatherAll(m.vertices, kept);
      if m.normals.Some? {
        GatherAll(m.normals.value, kept);
      }
      RemapIdentity(ts, table);
    }
    if n > 0 {
      assert Rows(m.vertices, kept) == Some(m.vertices);
      if m.normals.Some? {
        assert Rows(m.normals.value, kept) == Some(m.normals.value);
      }
      assert NormalsCoverReferenced(m);
    }
  }
}
