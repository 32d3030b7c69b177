/** The sign-disambiguation rule of `MeshProcessor.standardize_pose`.
    Principal axes carry no sign; for each one the rule compares how many
    vertex projections onto it are non-negative against how many are
    negative, and keeps or negates a row of the fixed target frame
    (Z+, Y+, X+) accordingly. As written, the indicator vector is
    broadcast across columns, so the row for principal axis `a` is decided
    by axis `2 - a`; `SignedTargetsAsWritten` models that and
    `SignedTargets` the row-by-row rule the orientation step is meant to
    apply. The projections themselves are taken as input. */
module PoseSign {
  import opened MeshTypes

  /** Number of projections that are `>= 0`. */
  function CountNonNeg(p: seq<real>): (c: nat)
    ensures c <= |p|
  {
    if |p| == 0 then 0
    else CountNonNeg(p[..|p| - 1]) + (if p[|p| - 1] >= 0.0 then 1 else 0)
  }

  /** Number of projections that are `< 0`. */
  function CountNeg(p: seq<real>): (c: nat)
    ensures c <= |p|
  {
    if |p| == 0 then 0
    else CountNeg(p[..|p| - 1]) + (if p[|p| - 1] < 0.0 then 1 else 0)
  }

  /** Number of projections that are `> 0`. */
  function CountPos(p: seq<real>): (c: nat)
    ensures c <= CountNonNeg(p)
  {
    if |p| == 0 then 0
    else CountPos(p[..|p| - 1]) + (if p[|p| - 1] > 0.0 then 1 else 0)
  }

  /** Number of projections that are `<= 0`. */
  function CountNonPos(p: seq<real>): (c: nat)
    ensures c >= CountNeg(p)
  {
    if |p| == 0 then 0
    else CountNonPos(p[..|p| - 1]) + (if p[|p| - 1] <= 0.0 then 1 else 0)
  }

  /** Every projection is counted on exactly one side. */
  lemma {:induction false} CountsPartition(p: seq<real>)
    ensures CountNonNeg(p) + CountNeg(p) == |p|
  {
    if |p| > 0 {
      CountsPartition(p[..|p| - 1]);
    }
  }

  function Negate(p: seq<real>): (q: seq<real>)
    ensures |q| == |p|
  {
    seq(|p|, i requires 0 <= i < |p| => -p[i])
  }

  /** Flipping the axis turns the non-negative projections into the
      non-positive ones and the negative ones into the positive ones. */
  lemma {:induction false} NegateCounts(p: seq<real>)
    ensures CountNonNeg(Negate(p)) == CountNonPos(p)
    ensures CountNeg(Negate(p)) == CountPos(p)
  {
    if |p| > 0 {
      var init := p[..|p| - 1];
      NegateCounts(init);
      assert Negate(p)[..|p| - 1] == Negate(init);
    }
  }

  /** The projections of the vertices onto principal axis `axis`: column
      `axis` of the projection matrix. */
  function Column(proj: seq<Vec3>, axis: nat): (p: seq<real>)
    requires axis < 3
    ensures |p| == |proj|
  {
    seq(|proj|, k requires 0 <= k < |proj| => Coord(proj[k], axis))
  }

  /** The fixed target frame: principal axis 0 goes to +Z, 1 to +Y, 2 to +X. */
  function TargetAxis(axis: nat): Vec3
    requires axis < 3
  {
    if axis == 0 then Vec3(0.0, 0.0, 1.0)
    else if axis == 1 then Vec3(0.0, 1.0, 0.0)
    else Vec3(1.0, 0.0, 0.0)
  }

  function Neg(v: Vec3): Vec3 {
    Vec3(-v.x, -v.y, -v.z)
  }

  /** An entry times a 0/1 integer, the integer given as the boolean it was
      made from (`1 * mask`): the entry is kept or zeroed. */
  function Times01(t: real, b: bool): real {
    if b then t else 0.0
  }

  /** One entry of `target * pos + -1 * target * neg`, where `neg` is
      `1 - pos`. */
  function Weigh(t: real, pos: bool): real {
    Times01(t, pos) - Times01(t, !pos)
  }

  /** The boolean mask behind `pos_oriented`, one component per principal
      axis. */
  datatype Mask3 = Mask3(x: bool, y: bool, z: bool)

  function MaskAt(m: Mask3, axis: nat): bool
    requires axis < 3
  {
    if axis == 0 then m.x else if axis == 1 then m.y else m.z
  }

  /** `same_aligned > opposite_aligned`: component `j` holds when the
      projections onto principal axis `j` that are non-negative strictly
      outnumber the negative ones. */
  function Indicators(proj: seq<Vec3>): (pos: Mask3)
    ensures forall j :: 0 <= j < 3 ==> (MaskAt(pos, j) <==> 2 * CountNonNeg(Column(proj, j)) > |proj|)
  {
    CountsPartition(Column(proj, 0));
    CountsPartition(Column(proj, 1));
    CountsPartition(Column(proj, 2));
    Mask3(CountNonNeg(Column(proj, 0)) > CountNeg(Column(proj, 0)),
          CountNonNeg(Column(proj, 1)) > CountNeg(Column(proj, 1)),
          CountNonNeg(Column(proj, 2)) > CountNeg(Column(proj, 2)))
  }

  /** `+1` for a kept row, `-1` for a negated one. */
  function Sign(keep: bool): real {
    if keep then 1.0 else -1.0
  }

  /** Row `a` of the fixed frame kept or negated, written out entry by
      entry (see `OrientedDecides`). */
  function Oriented(a: nat, keep: bool): Vec3
    requires a < 3
  {
    if a == 0 then Vec3(0.0, 0.0, Sign(keep))
    else if a == 1 then Vec3(0.0, Sign(keep), 0.0)
    else Vec3(Sign(keep), 0.0, 0.0)
  }

  /** One row of `target * pos + -1 * target * neg` for a 3x3 `target` and
      a length-3 indicator `pos`: numpy broadcasts the vector along the
      last axis, so component `j` of every row is weighted by `pos[j]`. */
  function BroadcastBlend(t: Vec3, pos: Mask3): Vec3 {
    Vec3(Weigh(t.x, pos.x), Weigh(t.y, pos.y), Weigh(t.z, pos.z))
  }

  /** Line 120 as written: the whole fixed frame blended with the indicator
      vector. Row `a` has its single non-zero entry in column `2 - a`, so
      it is kept or negated by the indicator of axis `2 - a`. */
  function BroadcastTargets(pos: Mask3): (rows: seq<Vec3>)
    ensures |rows| == 3
    ensures forall a :: 0 <= a < 3 ==> rows[a] == Oriented(a, MaskAt(pos, 2 - a))
  {
    [BroadcastBlend(TargetAxis(0), pos), BroadcastBlend(TargetAxis(1), pos),
     BroadcastBlend(TargetAxis(2), pos)]
  }

  /** `t * pos + -1 * t * neg` with one indicator for the whole row. */
  function Blend(t: Vec3, pos: bool): Vec3 {
    Vec3(Weigh(t.x, pos), Weigh(t.y, pos), Weigh(t.z, pos))
  }

  /** The blend the orientation step intends: row `a` of the fixed frame
      weighted by the indicator of its own principal axis, as
      `target * pos[:, None]` would compute it. */
  function RowwiseTargets(pos: Mask3): (rows: seq<Vec3>)
    ensures |rows| == 3
    ensures forall a :: 0 <= a < 3 ==> rows[a] == Oriented(a, MaskAt(pos, a))
  {
    [Blend(TargetAxis(0), pos.x), Blend(TargetAxis(1), pos.y), Blend(TargetAxis(2), pos.z)]
  }

  /** `Oriented` is the target row itself when kept and its negation
      otherwise. */
  lemma OrientedDecides(a: nat, keep: bool)
    requires a < 3
    ensures Oriented(a, keep) == TargetAxis(a) <==> keep
    ensures Oriented(a, keep) == Neg(TargetAxis(a)) <==> !keep
  {
  }

  /** The signed target array as the source computes it (one row per
      principal axis). Because of the column-wise broadcast, row `a` is kept
      exactly when a strict majority of the projections onto axis `2 - a`
      are non-negative: the rows for the first and last principal axes take
      each other's sign, and only the middle one is decided by its own
      projections. */
  function SignedTargetsAsWritten(proj: seq<Vec3>): (rows: seq<Vec3>)
    ensures |rows| == 3
    ensures forall a :: 0 <= a < 3 ==>
              (rows[a] == TargetAxis(a) <==> 2 * CountNonNeg(Column(proj, 2 - a)) > |proj|)
    ensures forall a :: 0 <= a < 3 ==>
              (rows[a] == Neg(TargetAxis(a)) <==> 2 * CountNonNeg(Column(proj, 2 - a)) <= |proj|)
  {
    var rows := BroadcastTargets(Indicators(proj));
    assert forall a :: 0 <= a < 3 ==>
             (rows[a] == TargetAxis(a) <==> 2 * CountNonNeg(Column(proj, 2 - a)) > |proj|) &&
             (rows[a] == Neg(TargetAxis(a)) <==> 2 * CountNonNeg(Column(proj, 2 - a)) <= |proj|) by {
      forall a | 0 <= a < 3 {
        OrientedDecides(a, MaskAt(Indicators(proj), 2 - a));
      }
    }
    rows
  }

  /** The signed target array with each row decided by its own principal
      axis: the fixed target direction, kept exactly when a strict majority
      of the projections onto that axis are non-negative, and negated
      otherwise, ties included. */
  function SignedTargets(proj: seq<Vec3>): (rows: seq<Vec3>)
    ensures |rows| == 3
    ensures forall a :: 0 <= a < 3 ==>
              (rows[a] == TargetAxis(a) <==> 2 * CountNonNeg(Column(proj, a)) > |proj|)
    ensures forall a :: 0 <= a < 3 ==>
              (rows[a] == Neg(TargetAxis(a)) <==> 2 * CountNonNeg(Column(proj, a)) <= |proj|)
  {
    var rows := RowwiseTargets(Indicators(proj));
    assert forall a :: 0 <= a < 3 ==>
             (rows[a] == TargetAxis(a) <==> 2 * CountNonNeg(Column(proj, a)) > |proj|) &&
             (rows[a] == Neg(TargetAxis(a)) <==> 2 * CountNonNeg(Column(proj, a)) <= |proj|) by {
      forall a | 0 <= a < 3 {
        OrientedDecides(a, MaskAt(Indicators(proj), a));
      }
    }
    rows
  }

  /** Both arrays agree on the middle axis, whose target row is its own
      mirror. */
  lemma MiddleAxisAgrees(proj: seq<Vec3>)
    ensures SignedTargetsAsWritten(proj)[1] == SignedTargets(proj)[1]
  {
    var pos := Indicators(proj);
    assert SignedTargetsAsWritten(proj)[1] == Oriented(1, pos.y);
  }

  /** With as many non-negative as negative projections, the row is negated. */
  lemma TieNegates(proj: seq<Vec3>, a: nat)
    requires a < 3
    requires CountNonNeg(Column(proj, a)) == CountNeg(Column(proj, a))
    ensures SignedTargets(proj)[a] == Neg(TargetAxis(a))
  {
    CountsPartition(Column(proj, a));
  }

  /** As written, a tie on axis `2 - a` negates row `a`. */
  lemma TieNegatesAsWritten(proj: seq<Vec3>, a: nat)
    requires a < 3
    requires CountNonNeg(Column(proj, 2 - a)) == CountNeg(Column(proj, 2 - a))
    ensures SignedTargetsAsWritten(proj)[a] == Neg(TargetAxis(a))
  {
    CountsPartition(Column(proj, 2 - a));
  }

  /** The projections onto principal axis `a` after it has been given the
      sign its target row carries. */
  function OrientedColumn(proj: seq<Vec3>, a: nat): seq<real>
    requires a < 3
  {
    if SignedTargets(proj)[a] == TargetAxis(a) then Column(proj, a) else Negate(Column(proj, a))
  }

  /** After sign correction, the non-negative projections onto every axis
      are at least as many as the negative ones. */
  lemma OrientedMajority(proj: seq<Vec3>, a: nat)
    requires a < 3
    ensures CountNonNeg(OrientedColumn(proj, a)) >= CountNeg(OrientedColumn(proj, a))
  {
    var p := Column(proj, a);
    CountsPartition(p);
    if SignedTargets(proj)[a] == TargetAxis(a) {
      assert OrientedColumn(proj, a) == p;
    } else {
      assert OrientedColumn(proj, a) == Negate(p);
      assert 2 * CountNonNeg(p) <= |p|;
      NegateCounts(p);
    }
  }

  /** Principal axis `a` after the as-written rule has given it the sign
      of its target row. */
  function OrientedColumnAsWritten(proj: seq<Vec3>, a: nat): seq<real>
    requires a < 3
  {
    if SignedTargetsAsWritten(proj)[a] == TargetAxis(a) then Column(proj, a) else Negate(Column(proj, a))
  }

  /** The counts add over concatenation. */
  lemma {:induction false} CountsConcat(p: seq<real>, q: seq<real>)
    ensures CountNonNeg(p + q) == CountNonNeg(p) + CountNonNeg(q)
    ensures CountPos(p + q) == CountPos(p) + CountPos(q)
    ensures CountNonPos(p + q) == CountNonPos(p) + CountNonPos(q)
  {
    if |q| > 0 {
      var init := q[..|q| - 1];
      CountsConcat(p, init);
      assert (p + q)[..|p + q| - 1] == p + init;
      assert (p + q)[|p + q| - 1] == q[|q| - 1];
    } else {
      assert p + q == p;
    }
  }

  /** The counts of the four-entry blocks the example's columns are made of. */
  lemma ExampleBlockCounts()
    ensures CountNonNeg([1.0, 1.0, 1.0, -3.0]) == 3
    ensures CountPos([1.0, 1.0, 1.0, -3.0]) == 3
    ensures CountNonPos([1.0, 1.0, 1.0, -3.0]) == 1
    ensures CountNonNeg([2.0, -2.0, 0.0, 0.0]) == 3
    ensures CountNonNeg([0.5, 0.5, 0.5, -1.5]) == 3
    ensures CountNonNeg([-0.5, -0.5, -0.5, 1.5]) == 1
  {
    assert [1.0][..0] == [] && [1.0, 1.0][..1] == [1.0] && [1.0, 1.0, 1.0][..2] == [1.0, 1.0];
    assert [1.0, 1.0, 1.0, -3.0][..3] == [1.0, 1.0, 1.0];
    assert CountNonNeg([1.0]) == 1 && CountPos([1.0]) == 1 && CountNonPos([1.0]) == 0;
    assert CountNonNeg([1.0, 1.0]) == 2 && CountPos([1.0, 1.0]) == 2 && CountNonPos([1.0, 1.0]) == 0;
    assert CountNonNeg([1.0, 1.0, 1.0]) == 3 && CountPos([1.0, 1.0, 1.0]) == 3 && CountNonPos([1.0, 1.0, 1.0]) == 0;
    assert [2.0][..0] == [] && [2.0, -2.0][..1] == [2.0] && [2.0, -2.0, 0.0][..2] == [2.0, -2.0];
    assert [2.0, -2.0, 0.0, 0.0][..3] == [2.0, -2.0, 0.0];
    assert CountNonNeg([2.0]) == 1;
    assert CountNonNeg([2.0, -2.0]) == 1;
    assert CountNonNeg([2.0, -2.0, 0.0]) == 2;
    assert [0.5][..0] == [] && [0.5, 0.5][..1] == [0.5] && [0.5, 0.5, 0.5][..2] == [0.5, 0.5];
    assert [0.5, 0.5, 0.5, -1.5][..3] == [0.5, 0.5, 0.5];
    assert CountNonNeg([0.5]) == 1;
    assert CountNonNeg([0.5, 0.5]) == 2;
    assert CountNonNeg([0.5, 0.5, 0.5]) == 3;
    assert [-0.5][..0] == [] && [-0.5, -0.5][..1] == [-0.5] && [-0.5, -0.5, -0.5][..2] == [-0.5, -0.5];
    assert [-0.5, -0.5, -0.5, 1.5][..3] == [-0.5, -0.5, -0.5];
    assert CountNonNeg([-0.5]) == 0;
    assert CountNonNeg([-0.5, -0.5]) == 0;
    assert CountNonNeg([-0.5, -0.5, -0.5]) == 0;
  }

  /** The counts of the eight-vertex example below: axes 0 and 1 have a
      strict non-negative majority and axis 2 an exact tie. */
  predicate ExampleShape(proj: seq<Vec3>) {
    |proj| == 8
    && CountNonNeg(Column(proj, 0)) == 6 && CountPos(Column(proj, 0)) == 6 && CountNonPos(Column(proj, 0)) == 2
    && CountNonNeg(Column(proj, 1)) == 6
    && CountNonNeg(Column(proj, 2)) == 4
  }

  /** Eight projections that principal-component analysis can produce:
      every column sums to zero, the columns are pairwise orthogonal, and
      their sums of squares decrease (24, 16, 6). They have that shape. */
  lemma ExampleColumns(proj: seq<Vec3>)
    requires proj == [Vec3(1.0, 2.0, 0.5), Vec3(1.0, -2.0, 0.5), Vec3(1.0, 0.0, 0.5), Vec3(-3.0, 0.0, -1.5),
                      Vec3(1.0, 2.0, -0.5), Vec3(1.0, -2.0, -0.5), Vec3(1.0, 0.0, -0.5), Vec3(-3.0, 0.0, 1.5)]
    ensures ExampleShape(proj)
  {
    assert Column(proj, 0) == [1.0, 1.0, 1.0, -3.0] + [1.0, 1.0, 1.0, -3.0];
    assert Column(proj, 1) == [2.0, -2.0, 0.0, 0.0] + [2.0, -2.0, 0.0, 0.0];
    assert Column(proj, 2) == [0.5, 0.5, 0.5, -1.5] + [-0.5, -0.5, -0.5, 1.5];
    ExampleBlockCounts();
    CountsConcat([1.0, 1.0, 1.0, -3.0], [1.0, 1.0, 1.0, -3.0]);
    CountsConcat([2.0, -2.0, 0.0, 0.0], [2.0, -2.0, 0.0, 0.0]);
    CountsConcat([0.5, 0.5, 0.5, -1.5], [-0.5, -0.5, -0.5, 1.5]);
  }

  /** Projections of the shape of `ExampleColumns`: axis 0 is mostly
      non-negative and axis 2 is tied, so the intended frame is
      Z+, Y+, X-; as written the rows come out Z-, Y+, X+, and axis 0 ends
      up with more negative than non-negative projections, against the
      majority that `OrientedMajority` proves for the intended rule. */
  lemma AsWrittenSwapsFirstAndLastSigns(proj: seq<Vec3>)
    requires ExampleShape(proj)
    ensures SignedTargetsAsWritten(proj) == [Neg(TargetAxis(0)), TargetAxis(1), TargetAxis(2)]
    ensures SignedTargets(proj) == [TargetAxis(0), TargetAxis(1), Neg(TargetAxis(2))]
    ensures CountNonNeg(OrientedColumnAsWritten(proj, 0)) < CountNeg(OrientedColumnAsWritten(proj, 0))
  {
    var pos := Indicators(proj);
    assert MaskAt(pos, 0) && MaskAt(pos, 1) && !MaskAt(pos, 2);
    assert pos == Mask3(true, true, false);
    assert BroadcastTargets(pos) == [Neg(TargetAxis(0)), TargetAxis(1), TargetAxis(2)];
    assert RowwiseTargets(pos) == [TargetAxis(0), TargetAxis(1), Neg(TargetAxis(2))];
    assert OrientedColumnAsWritten(proj, 0) == Negate(Column(proj, 0));
    NegateCounts(Column(proj, 0));
  }
}
