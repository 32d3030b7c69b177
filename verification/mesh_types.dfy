/** The mesh value the cleaning pipeline operates on, and the structural
    predicates every stage is stated against. */
module MeshTypes {

  /** An optional value; `None` stands for Python's `None` (absent normals)
      and for an operation that raised. */
  datatype Option<+T> = None | Some(value: T)

  /** A triple of reals: a vertex position, a normal direction, a per-axis
      extent or one row of the target frame. */
  datatype Vec3 = Vec3(x: real, y: real, z: real)

  /** Component `axis` of a triple, as numpy indexes column `axis`. */
  function Coord(v: Vec3, axis: nat): real
    requires axis < 3
  {
    if axis == 0 then v.x else if axis == 1 then v.y else v.z
  }

  /** A triangle: three vertex indices in winding order. The indices are
      integers because raw input may hold negative values, which validation
      drops. */
  datatype Tri = Tri(a: int, b: int, c: int)

  /** Vertices, triangles and optional per-vertex normals. */
  datatype Mesh = Mesh(vertices: seq<Vec3>, triangles: seq<Tri>, normals: Option<seq<Vec3>>)

  /** All three indices address one of `n` vertices. */
  predicate InRange(t: Tri, n: int) {
    0 <= t.a < n && 0 <= t.b < n && 0 <= t.c < n
  }

  /** No index is repeated inside the triangle (it is not degenerate). */
  predicate Distinct(t: Tri) {
    t.a != t.b && t.a != t.c && t.b != t.c
  }

  /** The validity test of triangle validation. */
  predicate Valid(t: Tri, n: int) {
    InRange(t, n) && Distinct(t)
  }

  /** The triangle uses vertex `i` at one of its corners. */
  predicate Mentions(t: Tri, i: int) {
    t.a == i || t.b == i || t.c == i
  }

  predicate AllInRange(ts: seq<Tri>, n: int) {
    forall k :: 0 <= k < |ts| ==> InRange(ts[k], n)
  }

  predicate AllDistinct(ts: seq<Tri>) {
    forall k :: 0 <= k < |ts| ==> Distinct(ts[k])
  }

  predicate AllValid(ts: seq<Tri>, n: int) {
    forall k :: 0 <= k < |ts| ==> Valid(ts[k], n)
  }

  /** Some triangle uses vertex `i`. */
  predicate Referenced(ts: seq<Tri>, i: int) {
    exists k :: 0 <= k < |ts| && Mentions(ts[k], i)
  }

  /** Every vertex is used by at least one triangle. */
  predicate NoOrphans(m: Mesh) {
    forall i :: 0 <= i < |m.vertices| ==> Referenced(m.triangles, i)
  }

  /** Normals, when present, are one per vertex. */
  predicate NormalsAligned(m: Mesh) {
    m.normals.Some? ==> |m.normals.value| == |m.vertices|
  }

  /** The invariant a cleaned mesh satisfies. */
  predicate Clean(m: Mesh) {
    AllValid(m.triangles, |m.vertices|) && NoOrphans(m) && NormalsAligned(m)
  }

  /** Triangle list `nt` over `nv` describes the same surface as `ot` over
      `ov`: same number and order of triangles, and every corner of every
      triangle still lands on the same point. */
  predicate SamePositions(ov: seq<Vec3>, ot: seq<Tri>, nv: seq<Vec3>, nt: seq<Tri>) {
    && |ot| == |nt|
    && AllInRange(ot, |ov|)
    && AllInRange(nt, |nv|)
    && forall k :: 0 <= k < |ot| ==>
         && nv[nt[k].a] == ov[ot[k].a]
         && nv[nt[k].b] == ov[ot[k].b]
         && nv[nt[k].c] == ov[ot[k].c]
  }
}
