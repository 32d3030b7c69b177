/** `MeshProcessor.rescale_vertices` for the MIN, MAX and ABSOLUTE
    policies: measure the per-axis extent of the vertices, pick a reference
    length by policy, and multiply every coordinate by
    `scale / reference`. Triangles and normals are not touched. */
module Rescaling {
  import opened MeshTypes

  /** The supported policies. The source encodes them as the integers
      `RescalingTypeMin = 0`, `RescalingTypeMax = 2` and
      `RescalingTypeAbsolute = 3`. */
  datatype RescalingType = MinExtent | MaxExtent | Absolute

  function Abs(x: real): real {
    if x < 0.0 then -x else x
  }

  /** `np.min(vertices, axis=0)[axis]`, folded from the front. */
  function MinCoord(vs: seq<Vec3>, axis: nat): real
    requires |vs| > 0 && axis < 3
  {
    if |vs| == 1 then Coord(vs[0], axis)
    else
      var m := MinCoord(vs[..|vs| - 1], axis);
      var c := Coord(vs[|vs| - 1], axis);
      if c < m then c else m
  }

  /** `np.max(vertices, axis=0)[axis]`, folded from the front. */
  function MaxCoord(vs: seq<Vec3>, axis: nat): real
    requires |vs| > 0 && axis < 3
  {
    if |vs| == 1 then Coord(vs[0], axis)
    else
      var m := MaxCoord(vs[..|vs| - 1], axis);
      var c := Coord(vs[|vs| - 1], axis);
      if c > m then c else m
  }

  /** The fold computes the least coordinate: a lower bound of every vertex's
      coordinate that some vertex attains. */
  lemma {:induction false} MinCoordIsLeast(vs: seq<Vec3>, axis: nat)
    requires |vs| > 0 && axis < 3
    ensures forall k :: 0 <= k < |vs| ==> MinCoord(vs, axis) <= Coord(vs[k], axis)
    ensures exists k :: 0 <= k < |vs| && MinCoord(vs, axis) == Coord(vs[k], axis)
  {
    if |vs| > 1 {
      var init := vs[..|vs| - 1];
      MinCoordIsLeast(init, axis);
      var w :| 0 <= w < |init| && MinCoord(init, axis) == Coord(init[w], axis);
      forall k | 0 <= k < |vs|
        ensures MinCoord(vs, axis) <= Coord(vs[k], axis)
      {
        if k < |init| {
          assert vs[k] == init[k];
        }
      }
      if Coord(vs[|vs| - 1], axis) < MinCoord(init, axis) {
        assert MinCoord(vs, axis) == Coord(vs[|vs| - 1], axis);
      } else {
        assert vs[w] == init[w];
        assert MinCoord(vs, axis) == Coord(vs[w], axis);
      }
    } else {
      assert MinCoord(vs, axis) == Coord(vs[0], axis);
    }
  }

  /** The fold computes the greatest coordinate: an upper bound of every
      vertex's coordinate that some vertex attains. */
  lemma {:induction false} MaxCoordIsGreatest(vs: seq<Vec3>, axis: nat)
    requires |vs| > 0 && axis < 3
    ensures forall k :: 0 <= k < |vs| ==> Coord(vs[k], axis) <= MaxCoord(vs, axis)
    ensures exists k :: 0 <= k < |vs| && MaxCoord(vs, axis) == Coord(vs[k], axis)
  {
    if |vs| > 1 {
      var init := vs[..|vs| - 1];
      MaxCoordIsGreatest(init, axis);
      var w :| 0 <= w < |init| && MaxCoord(init, axis) == Coord(init[w], axis);
      forall k | 0 <= k < |vs|
        ensures Coord(vs[k], axis) <= MaxCoord(vs, axis)
      {
        if k < |init| {
          assert vs[k] == init[k];
        }
      }
      if Coord(vs[|vs| - 1], axis) > MaxCoord(init, axis) {
        assert MaxCoord(vs, axis) == Coord(vs[|vs| - 1], axis);
      } else {
        assert vs[w] == init[w];
        assert MaxCoord(vs, axis) == Coord(vs[w], axis);
      }
    } else {
      assert MaxCoord(vs, axis) == Coord(vs[0], axis);
    }
  }

  /** A lower bound that is attained is the minimum. */
  lemma MinCoordUnique(vs: seq<Vec3>, axis: nat, r: real, w: nat)
    requires |vs| > 0 && axis < 3
    requires forall k :: 0 <= k < |vs| ==> r <= Coord(vs[k], axis)
    requires w < |vs| && r == Coord(vs[w], axis)
    ensures r == MinCoord(vs, axis)
  {
    MinCoordIsLeast(vs, axis);
  }

  /** An upper bound that is attained is the maximum. */
  lemma MaxCoordUnique(vs: seq<Vec3>, axis: nat, r: real, w: nat)
    requires |vs| > 0 && axis < 3
    requires forall k :: 0 <= k < |vs| ==> Coord(vs[k], axis) <= r
    requires w < |vs| && r == Coord(vs[w], axis)
    ensures r == MaxCoord(vs, axis)
  {
    MaxCoordIsGreatest(vs, axis);
  }

  /** The extent on one axis, greatest minus least coordinate. */
  function AxisExtent(vs: seq<Vec3>, axis: nat): (d: real)
    requires |vs| > 0 && axis < 3
    ensures d >= 0.0
  {
    MinCoordIsLeast(vs, axis);
    MaxCoordIsGreatest(vs, axis);
    assert MinCoord(vs, axis) <= Coord(vs[0], axis) <= MaxCoord(vs, axis);
    MaxCoord(vs, axis) - MinCoord(vs, axis)
  }

  /** `np.max(vertices, axis=0) - np.min(vertices, axis=0)`. */
  function Extents(vs: seq<Vec3>): (e: Vec3)
    requires |vs| > 0
    ensures e.x >= 0.0 && e.y >= 0.0 && e.z >= 0.0
  {
    Vec3(AxisExtent(vs, 0), AxisExtent(vs, 1), AxisExtent(vs, 2))
  }

  /** `np.min` of the three extents. */
  function Min3(e: Vec3): (r: real)
    ensures r <= e.x && r <= e.y && r <= e.z
    ensures r == e.x || r == e.y || r == e.z
  {
    if e.x <= e.y && e.x <= e.z then e.x else if e.y <= e.z then e.y else e.z
  }

  /** `np.max` of the three extents. */
  function Max3(e: Vec3): (r: real)
    ensures r >= e.x && r >= e.y && r >= e.z
    ensures r == e.x || r == e.y || r == e.z
  {
    if e.x >= e.y && e.x >= e.z then e.x else if e.y >= e.z then e.y else e.z
  }

  /** `np.where(e == v)[0][0]`: the first axis whose extent equals `v`. */
  function FirstAxisEqual(e: Vec3, v: real): (axis: nat)
    requires e.x == v || e.y == v || e.z == v
    ensures axis < 3 && Coord(e, axis) == v
    ensures forall b :: 0 <= b < axis ==> Coord(e, b) != v
  {
    if e.x == v then 0 else if e.y == v then 1 else 2
  }

  /** The length that the policy scales to `scale`: the extent on the first
      axis attaining the smallest (MIN) or largest (MAX) extent, or 1
      (ABSOLUTE). */
  function ReferenceLength(e: Vec3, policy: RescalingType): (ref: real)
    ensures policy == MinExtent ==> ref == Min3(e)
    ensures policy == MaxExtent ==> ref == Max3(e)
    ensures policy == Absolute ==> ref == 1.0
  {
    match policy
    case MinExtent => Coord(e, FirstAxisEqual(e, Min3(e)))
    case MaxExtent => Coord(e, FirstAxisEqual(e, Max3(e)))
    case Absolute => 1.0
  }

  function ScaleVertex(v: Vec3, f: real): Vec3 {
    Vec3(f * v.x, f * v.y, f * v.z)
  }

  /** `scale_factor * vertex_array`. */
  function ScaleAll(vs: seq<Vec3>, f: real): (r: seq<Vec3>)
    ensures |r| == |vs|
  {
    seq(|vs|, k requires 0 <= k < |vs| => ScaleVertex(vs[k], f))
  }

  /** `rescale_vertices`. With no vertices `np.min` raises, modelled as
      `None`. Otherwise only the vertex list is replaced, each vertex by
      itself times one common factor; under ABSOLUTE that factor is exactly
      `scale`. */
  function RescaleVertices(m: Mesh, scale: real, policy: RescalingType): (r: Option<Mesh>)
    requires |m.vertices| > 0 ==> ReferenceLength(Extents(m.vertices), policy) != 0.0
    ensures r.Some? <==> |m.vertices| > 0
    ensures r.Some? ==> r.value.triangles == m.triangles && r.value.normals == m.normals
    ensures r.Some? ==> |r.value.vertices| == |m.vertices|
    ensures r.Some? ==> exists f: real :: f * ReferenceLength(Extents(m.vertices), policy) == scale
                                          && r.value.vertices == ScaleAll(m.vertices, f)
    ensures r.Some? && policy == Absolute ==>
              forall k :: 0 <= k < |m.vertices| ==>
                r.value.vertices[k] == ScaleVertex(m.vertices[k], scale)
  {
    if |m.vertices| == 0 then None
    else
      var ref := ReferenceLength(Extents(m.vertices), policy);
      var factor := scale / ref;
      QuotientRestores(scale, ref);
      assert policy == Absolute ==> factor == scale;
      Some(m.(vertices := ScaleAll(m.vertices, factor)))
  }

  /** Dividing by a non-zero reference and multiplying back is exact. */
  lemma QuotientRestores(scale: real, ref: real)
    requires ref != 0.0
    ensures (scale / ref) * ref == scale
  {
  }

  lemma MulMonotone(f: real, x: real, y: real)
    requires f >= 0.0 && x <= y
    ensures f * x <= f * y
  {
  }

  lemma MulAntitone(f: real, x: real, y: real)
    requires f < 0.0 && x <= y
    ensures f * y <= f * x
  {
  }

  /** Applies `g` to every coordinate of every vertex. */
  function MapCoords(vs: seq<Vec3>, g: real -> real): (r: seq<Vec3>)
    ensures |r| == |vs|
  {
    seq(|vs|, k requires 0 <= k < |vs| => Vec3(g(vs[k].x), g(vs[k].y), g(vs[k].z)))
  }

  ghost predicate NonDecreasing(g: real -> real) {
    forall x, y :: x <= y ==> g(x) <= g(y)
  }

  ghost predicate NonIncreasing(g: real -> real) {
    forall x, y :: x <= y ==> g(y) <= g(x)
  }

  /** A map that multiplies by `f`. */
  ghost predicate MultipliesBy(g: real -> real, f: real) {
    forall x :: g(x) == f * x
  }

  lemma MapCoord(vs: seq<Vec3>, g: real -> real, axis: nat, k: nat)
    requires axis < 3 && k < |vs|
    ensures Coord(MapCoords(vs, g)[k], axis) == g(Coord(vs[k], axis))
  {
  }

  /** An order-preserving map of the coordinates sends the least coordinate
      to the least. */
  lemma MapNonDecreasingMin(vs: seq<Vec3>, g: real -> real, axis: nat)
    requires |vs| > 0 && axis < 3 && NonDecreasing(g)
    ensures MinCoord(MapCoords(vs, g), axis) == g(MinCoord(vs, axis))
  {
    var s := MapCoords(vs, g);
    var lo := MinCoord(vs, axis);
    MinCoordIsLeast(vs, axis);
    forall k | 0 <= k < |s|
      ensures g(lo) <= Coord(s[k], axis)
    {
      MapCoord(vs, g, axis, k);
      assert lo <= Coord(vs[k], axis);
    }
    var w :| 0 <= w < |vs| && lo == Coord(vs[w], axis);
    MapCoord(vs, g, axis, w);
    MinCoordUnique(s, axis, g(lo), w);
  }

  /** ... and the greatest to the greatest. */
  lemma MapNonDecreasingMax(vs: seq<Vec3>, g: real -> real, axis: nat)
    requires |vs| > 0 && axis < 3 && NonDecreasing(g)
    ensures MaxCoord(MapCoords(vs, g), axis) == g(MaxCoord(vs, axis))
  {
    var s := MapCoords(vs, g);
    var hi := MaxCoord(vs, axis);
    MaxCoordIsGreatest(vs, axis);
    forall k | 0 <= k < |s|
      ensures Coord(s[k], axis) <= g(hi)
    {
      MapCoord(vs, g, axis, k);
      assert Coord(vs[k], axis) <= hi;
    }
    var w :| 0 <= w < |vs| && hi == Coord(vs[w], axis);
    MapCoord(vs, g, axis, w);
    MaxCoordUnique(s, axis, g(hi), w);
  }

  /** An order-reversing map sends the greatest coordinate to the least. */
  lemma MapNonIncreasingMin(vs: seq<Vec3>, g: real -> real, axis: nat)
    requires |vs| > 0 && axis < 3 && NonIncreasing(g)
    ensures MinCoord(MapCoords(vs, g), axis) == g(MaxCoord(vs, axis))
  {
    var s := MapCoords(vs, g);
    var hi := MaxCoord(vs, axis);
    MaxCoordIsGreatest(vs, axis);
    forall k | 0 <= k < |s|
      ensures g(hi) <= Coord(s[k], axis)
    {
      MapCoord(vs, g, axis, k);
      assert Coord(vs[k], axis) <= hi;
    }
    var w :| 0 <= w < |vs| && hi == Coord(vs[w], axis);
    MapCoord(vs, g, axis, w);
    MinCoordUnique(s, axis, g(hi), w);
  }

  /** ... and the least to the greatest. */
  lemma MapNonIncreasingMax(vs: seq<Vec3>, g: real -> real, axis: nat)
    requires |vs| > 0 && axis < 3 && NonIncreasing(g)
    ensures MaxCoord(MapCoords(vs, g), axis) == g(MinCoord(vs, axis))
  {
    var s := MapCoords(vs, g);
    var lo := MinCoord(vs, axis);
    MinCoordIsLeast(vs, axis);
    forall k | 0 <= k < |s|
      ensures Coord(s[k], axis) <= g(lo)
    {
      MapCoord(vs, g, axis, k);
      assert lo <= Coord(vs[k], axis);
    }
    var w :| 0 <= w < |vs| && lo == Coord(vs[w], axis);
    MapCoord(vs, g, axis, w);
    MaxCoordUnique(s, axis, g(lo), w);
  }

  /** Uniform scaling is the coordinate map that multiplies by `f`. */
  lemma ScaleIsMap(vs: seq<Vec3>, f: real, g: real -> real)
    requires MultipliesBy(g, f)
    ensures ScaleAll(vs, f) == MapCoords(vs, g)
  {
  }

  /** Multiplying by `f >= 0` preserves order ... */
  lemma ScaleNonDecreasing(f: real, g: real -> real)
    requires f >= 0.0 && MultipliesBy(g, f)
    ensures NonDecreasing(g)
  {
    forall x, y | x <= y
      ensures g(x) <= g(y)
    {
      MulMonotone(f, x, y);
    }
  }

  /** ... and multiplying by `f < 0` reverses it. */
  lemma ScaleNonIncreasing(f: real, g: real -> real)
    requires f < 0.0 && MultipliesBy(g, f)
    ensures NonIncreasing(g)
  {
    forall x, y | x <= y
      ensures g(y) <= g(x)
    {
      MulAntitone(f, x, y);
    }
  }

  /** The extent on one axis after an order-preserving coordinate map. */
  lemma ExtentOfNonDecreasingMap(vs: seq<Vec3>, g: real -> real, axis: nat)
    requires |vs| > 0 && axis < 3 && NonDecreasing(g)
    ensures AxisExtent(MapCoords(vs, g), axis) == g(MaxCoord(vs, axis)) - g(MinCoord(vs, axis))
  {
    MapNonDecreasingMin(vs, g, axis);
    MapNonDecreasingMax(vs, g, axis);
  }

  /** The extent on one axis after an order-reversing coordinate map. */
  lemma ExtentOfNonIncreasingMap(vs: seq<Vec3>, g: real -> real, axis: nat)
    requires |vs| > 0 && axis < 3 && NonIncreasing(g)
    ensures AxisExtent(MapCoords(vs, g), axis) == g(MinCoord(vs, axis)) - g(MaxCoord(vs, axis))
  {
    MapNonIncreasingMin(vs, g, axis);
    MapNonIncreasingMax(vs, g, axis);
  }

  /** All three extents after an order-preserving coordinate map: the map
      applied to the greatest coordinate minus the map applied to the least. */
  lemma ExtentsOfNonDecreasingMap(vs: seq<Vec3>, g: real -> real)
    requires |vs| > 0 && NonDecreasing(g)
    ensures Extents(MapCoords(vs, g))
         == Vec3(g(MaxCoord(vs, 0)) - g(MinCoord(vs, 0)),
                 g(MaxCoord(vs, 1)) - g(MinCoord(vs, 1)),
                 g(MaxCoord(vs, 2)) - g(MinCoord(vs, 2)))
  {
    var s := MapCoords(vs, g);
    assert Extents(s) == Vec3(AxisExtent(s, 0), AxisExtent(s, 1), AxisExtent(s, 2));
    ExtentOfNonDecreasingMap(vs, g, 0);
    ExtentOfNonDecreasingMap(vs, g, 1);
    ExtentOfNonDecreasingMap(vs, g, 2);
  }

  /** All three extents after an order-reversing coordinate map, where the
      ends of each interval change places. */
  lemma ExtentsOfNonIncreasingMap(vs: seq<Vec3>, g: real -> real)
    requires |vs| > 0 && NonIncreasing(g)
    ensures Extents(MapCoords(vs, g))
         == Vec3(g(MinCoord(vs, 0)) - g(MaxCoord(vs, 0)),
                 g(MinCoord(vs, 1)) - g(MaxCoord(vs, 1)),
                 g(MinCoord(vs, 2)) - g(MaxCoord(vs, 2)))
  {
    var s := MapCoords(vs, g);
    assert Extents(s) == Vec3(AxisExtent(s, 0), AxisExtent(s, 1), AxisExtent(s, 2));
    ExtentOfNonIncreasingMap(vs, g, 0);
    ExtentOfNonIncreasingMap(vs, g, 1);
    ExtentOfNonIncreasingMap(vs, g, 2);
  }

  /** Scaling all three extents by `c >= 0` scales the smallest by `c`. */
  lemma Min3Scales(e: Vec3, c: real, r: real)
    requires c >= 0.0 && r == Min3(e)
    ensures Min3(ScaleVertex(e, c)) == c * r
  {
    var s := ScaleVertex(e, c);
    if e.x <= e.y && e.x <= e.z {
      ScaledPair(c, e.x, e.y, s.x, s.y);
      ScaledPair(c, e.x, e.z, s.x, s.z);
      LeastIsMin3(s, s.x);
    } else if e.y <= e.z {
      ScaledPair(c, e.y, e.x, s.y, s.x);
      ScaledPair(c, e.y, e.z, s.y, s.z);
      LeastIsMin3(s, s.y);
    } else {
      ScaledPair(c, e.z, e.x, s.z, s.x);
      ScaledPair(c, e.z, e.y, s.z, s.y);
      LeastIsMin3(s, s.z);
    }
  }

  /** Two components keep their order when both are scaled by the same
      non-negative factor. */
  lemma ScaledPair(c: real, x: real, y: real, cx: real, cy: real)
    requires c >= 0.0 && x <= y && cx == c * x && cy == c * y
    ensures cx <= cy
  {
    MulMonotone(c, x, y);
  }

  /** A component no larger than the other two is the minimum. */
  lemma LeastIsMin3(e: Vec3, v: real)
    requires v <= e.x && v <= e.y && v <= e.z
    requires v == e.x || v == e.y || v == e.z
    ensures Min3(e) == v
  {
  }

  lemma Max3Scales(e: Vec3, c: real, r: real)
    requires c >= 0.0 && r == Max3(e)
    ensures Max3(ScaleVertex(e, c)) == c * r
  {
    var s := ScaleVertex(e, c);
    if e.x >= e.y && e.x >= e.z {
      ScaledPair(c, e.y, e.x, s.y, s.x);
      ScaledPair(c, e.z, e.x, s.z, s.x);
      GreatestIsMax3(s, s.x);
    } else if e.y >= e.z {
      ScaledPair(c, e.x, e.y, s.x, s.y);
      ScaledPair(c, e.z, e.y, s.z, s.y);
      GreatestIsMax3(s, s.y);
    } else {
      ScaledPair(c, e.x, e.z, s.x, s.z);
      ScaledPair(c, e.y, e.z, s.y, s.z);
      GreatestIsMax3(s, s.z);
    }
  }

  /** A component no smaller than the other two is the maximum. */
  lemma GreatestIsMax3(e: Vec3, v: real)
    requires v >= e.x && v >= e.y && v >= e.z
    requires v == e.x || v == e.y || v == e.z
    ensures Max3(e) == v
  {
  }


  /** The factor `f = scale / ref` brings a positive reference length to
      `|scale|`: `f * ref` when `f >= 0`, `-f * ref` when `f < 0`. */
  lemma QuotientTimesReference(scale: real, ref: real, f: real)
    requires ref > 0.0 && f == scale / ref
    ensures f >= 0.0 ==> f * ref == Abs(scale)
    ensures f < 0.0 ==> (-f) * ref == Abs(scale)
  {
  }

  /** Mapping the ends of three intervals by `x => f * x` scales their
      lengths by `f`, or by `-f` read with the ends swapped. */
  lemma MappedLengths(f: real, g: real -> real,
                      lo0: real, hi0: real, lo1: real, hi1: real, lo2: real, hi2: real)
    requires MultipliesBy(g, f)
    ensures Vec3(g(hi0) - g(lo0), g(hi1) - g(lo1), g(hi2) - g(lo2))
         == ScaleVertex(Vec3(hi0 - lo0, hi1 - lo1, hi2 - lo2), f)
    ensures Vec3(g(lo0) - g(hi0), g(lo1) - g(hi1), g(lo2) - g(hi2))
         == ScaleVertex(Vec3(hi0 - lo0, hi1 - lo1, hi2 - lo2), -f)
  {
    assert g(lo0) == f * lo0 && g(hi0) == f * hi0 && g(lo1) == f * lo1;
    assert g(hi1) == f * hi1 && g(lo2) == f * lo2 && g(hi2) == f * hi2;
  }

  /** The extents of a uniformly scaled vertex list, read through the
      scaling map `g`: each axis interval's ends are mapped, and swap places
      when `f` is negative. */
  lemma ExtentsOfScaled(vs: seq<Vec3>, f: real, g: real -> real)
    requires |vs| > 0 && MultipliesBy(g, f)
    ensures f >= 0.0 ==> Extents(ScaleAll(vs, f))
                         == Vec3(g(MaxCoord(vs, 0)) - g(MinCoord(vs, 0)),
                                 g(MaxCoord(vs, 1)) - g(MinCoord(vs, 1)),
                                 g(MaxCoord(vs, 2)) - g(MinCoord(vs, 2)))
    ensures f < 0.0 ==> Extents(ScaleAll(vs, f))
                        == Vec3(g(MinCoord(vs, 0)) - g(MaxCoord(vs, 0)),
                                g(MinCoord(vs, 1)) - g(MaxCoord(vs, 1)),
                                g(MinCoord(vs, 2)) - g(MaxCoord(vs, 2)))
  {
    ScaleIsMap(vs, f, g);
    if f >= 0.0 {
      ScaleNonDecreasing(f, g);
      ExtentsOfNonDecreasingMap(vs, g);
    } else {
      ScaleNonIncreasing(f, g);
      ExtentsOfNonIncreasingMap(vs, g);
    }
  }

  /** The arithmetic core of the MIN policy: with `f = scale / ref`, `g`
      multiplying by `f`, and `ref` the smallest of the three extents
      `hi - lo`, the smallest of the scaled extents is `|scale|`. */
  lemma SmallestScaledExtent(scale: real, ref: real, f: real, g: real -> real,
                        lo0: real, hi0: real, lo1: real, hi1: real, lo2: real, hi2: real)
    requires ref == Min3(Vec3(hi0 - lo0, hi1 - lo1, hi2 - lo2)) && ref > 0.0
    requires f == scale / ref && MultipliesBy(g, f)
    ensures f >= 0.0 ==> Min3(Vec3(g(hi0) - g(lo0), g(hi1) - g(lo1), g(hi2) - g(lo2))) == Abs(scale)
    ensures f < 0.0 ==> Min3(Vec3(g(lo0) - g(hi0), g(lo1) - g(hi1), g(lo2) - g(hi2))) == Abs(scale)
  {
    var e := Vec3(hi0 - lo0, hi1 - lo1, hi2 - lo2);
    MappedLengths(f, g, lo0, hi0, lo1, hi1, lo2, hi2);
    QuotientTimesReference(scale, ref, f);
    if f >= 0.0 {
      Min3Scales(e, f, ref);
    } else {
      Min3Scales(e, -f, ref);
    }
  }

  /** The arithmetic core of the MAX policy: with `f = scale / ref`, `g`
      multiplying by `f`, and `ref` the largest of the three extents
      `hi - lo`, the largest of the scaled extents is `|scale|`. */
  lemma LargestScaledExtent(scale: real, ref: real, f: real, g: real -> real,
                        lo0: real, hi0: real, lo1: real, hi1: real, lo2: real, hi2: real)
    requires ref == Max3(Vec3(hi0 - lo0, hi1 - lo1, hi2 - lo2)) && ref > 0.0
    requires f == scale / ref && MultipliesBy(g, f)
    ensures f >= 0.0 ==> Max3(Vec3(g(hi0) - g(lo0), g(hi1) - g(lo1), g(hi2) - g(lo2))) == Abs(scale)
    ensures f < 0.0 ==> Max3(Vec3(g(lo0) - g(hi0), g(lo1) - g(hi1), g(lo2) - g(hi2))) == Abs(scale)
  {
    var e := Vec3(hi0 - lo0, hi1 - lo1, hi2 - lo2);
    MappedLengths(f, g, lo0, hi0, lo1, hi1, lo2, hi2);
    QuotientTimesReference(scale, ref, f);
    if f >= 0.0 {
      Max3Scales(e, f, ref);
    } else {
      Max3Scales(e, -f, ref);
    }
  }

  /** Under MIN the smallest axis extent of the result is `|scale|`, that is
      `scale` itself for a positive target size. */
  lemma RescaleMinExtentHitsScale(m: Mesh, scale: real)
    requires |m.vertices| > 0
    requires ReferenceLength(Extents(m.vertices), MinExtent) != 0.0
    ensures Min3(Extents(RescaleVertices(m, scale, MinExtent).value.vertices)) == Abs(scale)
  {
    var vs := m.vertices;
    var ref := ReferenceLength(Extents(vs), MinExtent);
    var f := scale / ref;
    var g := x => f * x;
    assert MultipliesBy(g, f);
    assert RescaleVertices(m, scale, MinExtent).value.vertices == ScaleAll(vs, f);
    ExtentsOfScaled(vs, f, g);
    assert Extents(vs) == Vec3(MaxCoord(vs, 0) - MinCoord(vs, 0), MaxCoord(vs, 1) - MinCoord(vs, 1),
                               MaxCoord(vs, 2) - MinCoord(vs, 2));
    SmallestScaledExtent(scale, ref, f, g, MinCoord(vs, 0), MaxCoord(vs, 0), MinCoord(vs, 1), MaxCoord(vs, 1),
                    MinCoord(vs, 2), MaxCoord(vs, 2));
  }

  /** Under MAX the largest axis extent of the result is `|scale|`, that is
      `scale` itself for a positive target size. */
  lemma RescaleMaxExtentHitsScale(m: Mesh, scale: real)
    requires |m.vertices| > 0
    requires ReferenceLength(Extents(m.vertices), MaxExtent) != 0.0
    ensures Max3(Extents(RescaleVertices(m, scale, MaxExtent).value.vertices)) == Abs(scale)
  {
    var vs := m.vertices;
    var ref := ReferenceLength(Extents(vs), MaxExtent);
    var f := scale / ref;
    var g := x => f * x;
    assert MultipliesBy(g, f);
    assert RescaleVertices(m, scale, MaxExtent).value.vertices == ScaleAll(vs, f);
    ExtentsOfScaled(vs, f, g);
    assert Extents(vs) == Vec3(MaxCoord(vs, 0) - MinCoord(vs, 0), MaxCoord(vs, 1) - MinCoord(vs, 1),
                               MaxCoord(vs, 2) - MinCoord(vs, 2));
    LargestScaledExtent(scale, ref, f, g, MinCoord(vs, 0), MaxCoord(vs, 0), MinCoord(vs, 1), MaxCoord(vs, 1),
                    MinCoord(vs, 2), MaxCoord(vs, 2));
  }
}
