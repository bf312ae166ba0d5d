/**
 * The 3-vector helpers, the bounding box `model_extreme_points` and the
 * `face` record of volInt. Coordinates are reals; the square root, the arc
 * cosine and `atan2` of the C library are unknown functions of which only
 * what is stated here is used.
 */
module Geometry {

  /** A point or direction: `std::vector<double>` of size 3, indexed by axis. */
  type Vec = s: seq<real> | |s| == 3 witness [0.0, 0.0, 0.0]

  /** An axis index: VOLINT_X = 0, VOLINT_Y = 1, VOLINT_Z = 2. */
  type Axis = i: int | 0 <= i < 3

  type PositiveReal = r: real | r > 0.0 witness 1.0

  /** `std::sqrt` on positive arguments: all the model knows is that the result is positive. */
  const SqrtPositive: real -> PositiveReal

  /** `std::sqrt` on a non-negative argument: 0 exactly at 0. */
  function Sqrt(x: real): (r: real)
    requires x >= 0.0
    ensures r == 0.0 <==> x == 0.0
    ensures r >= 0.0
  {
    if x == 0.0 then 0.0 else SqrtPositive(x)
  }
  const Acos: real -> real
  const Atan2: (real, real) -> real

  /** `std::numeric_limits<double>::max()`. */
  const DblMax: real := 179769313486231570814527423731704356798070567525844996598917476803157260780028538760589558632766878171540458953514382464234321326889464182768467546703537516986049910576551282076245490090389328944075868508455133942304583236903222948165808559332123348274797826204144723168738177180919299881250404026184124858368.0
  /** `M_PI`. */
  const Pi: real := 3.141592653589793

  // Constants of volInt.hpp, which is not part of this model.
  const DistinctDistance: real
  const SqrDistinctDistance: real
  const VectorScaleVal: real
  /** The result of `std::acos` on the NaN that `0/0` yields in `vector_angle`. */
  const NanAngle: real

  const Zero: Vec := [0.0, 0.0, 0.0]

  function Abs(x: real): (r: real)
    ensures r >= 0.0 && (r == x || r == -x)
  {
    if x < 0.0 then -x else x
  }

  function Invert(v: Vec): (r: Vec)
    ensures forall i :: 0 <= i < 3 ==> r[i] == -v[i]
  {
    [-v[0], -v[1], -v[2]]
  }

  function Plus(a: Vec, b: Vec): (r: Vec)
    ensures forall i :: 0 <= i < 3 ==> r[i] == a[i] + b[i]
  {
    [a[0] + b[0], a[1] + b[1], a[2] + b[2]]
  }

  function Minus(a: Vec, b: Vec): (r: Vec)
    ensures forall i :: 0 <= i < 3 ==> r[i] == a[i] - b[i]
  {
    [a[0] - b[0], a[1] - b[1], a[2] - b[2]]
  }

  /** `vector_multiply(vec, num)`. */
  function Scale(v: Vec, num: real): (r: Vec)
    ensures forall i :: 0 <= i < 3 ==> r[i] == v[i] * num
  {
    [v[0] * num, v[1] * num, v[2] * num]
  }

  /** `vector_divide(vec, num)`; the model only divides by non-zero numbers. */
  function DivideBy(v: Vec, num: real): (r: Vec)
    requires num != 0.0
    ensures forall i :: 0 <= i < 3 ==> r[i] * num == v[i]
  {
    [v[0] / num, v[1] / num, v[2] / num]
  }

  /** One coordinate product; kept as a named term so that the sign lemmas below apply. */
  function Mul(a: real, b: real): real
  {
    a * b
  }

  function Dot(a: Vec, b: Vec): real
  {
    Mul(a[0], b[0]) + Mul(a[1], b[1]) + Mul(a[2], b[2])
  }

  function Cross(a: Vec, b: Vec): (r: Vec)
    ensures Dot(r, a) == 0.0 && Dot(r, b) == 0.0
  {
    [a[1] * b[2] - a[2] * b[1], a[2] * b[0] - a[0] * b[2], a[0] * b[1] - a[1] * b[0]]
  }

  /** Vectors are equal when their three coordinates are. */
  lemma VecExt(a: Vec, b: Vec)
    requires a[0] == b[0] && a[1] == b[1] && a[2] == b[2]
    ensures a == b
  {
    assert a == [a[0], a[1], a[2]] && b == [b[0], b[1], b[2]];
  }

  lemma PlusZero(a: Vec)
    ensures Plus(a, Zero) == a && Plus(Zero, a) == a
  {
    VecExt(Plus(a, Zero), a);
    VecExt(Plus(Zero, a), a);
  }

  lemma PlusAssoc(a: Vec, b: Vec, c: Vec)
    ensures Plus(Plus(a, b), c) == Plus(a, Plus(b, c))
  {
    VecExt(Plus(Plus(a, b), c), Plus(a, Plus(b, c)));
  }

  lemma PlusInvert(a: Vec, b: Vec)
    ensures Plus(Invert(a), Invert(b)) == Invert(Plus(a, b))
  {
    VecExt(Plus(Invert(a), Invert(b)), Invert(Plus(a, b)));
  }

  lemma InvertInvert(a: Vec)
    ensures Invert(Invert(a)) == a
  {
    VecExt(Invert(Invert(a)), a);
  }

  /** `vector_length`. */
  function Length(v: Vec): (r: real)
    ensures r == 0.0 <==> v == Zero
  {
    DotSelfZero(v);
    Sqrt(Dot(v, v))
  }

  lemma DotSelfZero(v: Vec)
    ensures Dot(v, v) >= 0.0
    ensures Dot(v, v) == 0.0 <==> v == Zero
  {
    SquareSign(v[0]);
    SquareSign(v[1]);
    SquareSign(v[2]);
    if v[0] == 0.0 && v[1] == 0.0 && v[2] == 0.0 {
      assert v == [v[0], v[1], v[2]];
    }
  }

  lemma SquareSign(x: real)
    ensures Mul(x, x) >= 0.0
    ensures x != 0.0 ==> Mul(x, x) > 0.0
  {
    if x > 0.0 {
      PositiveProduct(x, x);
    } else if x < 0.0 {
      PositiveProduct(-x, -x);
      assert Mul(x, x) == Mul(-x, -x);
    }
  }

  lemma PositiveProduct(a: real, b: real)
    requires a > 0.0 && b > 0.0
    ensures Mul(a, b) > 0.0
  {
  }

  /** `vector_equal`: every coordinate closer than `distinct_distance`. */
  predicate VectorEqual(a: Vec, b: Vec)
  {
    Abs(a[0] - b[0]) < DistinctDistance && Abs(a[1] - b[1]) < DistinctDistance
    && Abs(a[2] - b[2]) < DistinctDistance
  }

  lemma VectorEqualSymmetric(a: Vec, b: Vec)
    ensures VectorEqual(a, b) <==> VectorEqual(b, a)
  {
    assert Abs(a[0] - b[0]) == Abs(b[0] - a[0]);
    assert Abs(a[1] - b[1]) == Abs(b[1] - a[1]);
    assert Abs(a[2] - b[2]) == Abs(b[2] - a[2]);
  }

  /**
   * `vector_scale(norm, vec)`: `vec` stretched to length `norm`, or the zero
   * vector when `vec` has length 0.
   */
  function VectorScale(norm: real, v: Vec): (r: Vec)
    ensures v == Zero ==> r == Zero
    ensures v != Zero && norm != 0.0 ==> r != Zero
    ensures exists s: real :: r == Scale(v, s) && (norm > 0.0 ==> s >= 0.0)
  {
    var len := Length(v);
    var s := if len == 0.0 then 0.0 else norm / len;
    ScaleKeepsNonZero(v, s);
    Scale(v, s)
  }

  lemma ScaleKeepsNonZero(v: Vec, s: real)
    ensures v != Zero && s != 0.0 ==> Scale(v, s) != Zero
  {
    if v == Zero || s == 0.0 { return; }
    if v[0] != 0.0 { assert Scale(v, s)[0] != 0.0; }
    else if v[1] != 0.0 { assert Scale(v, s)[1] != 0.0; }
    else {
      assert v == [v[0], v[1], v[2]];
      assert Scale(v, s)[2] != 0.0;
    }
  }

  /** Scaling a vector and its negation to the same length gives opposite results. */
  lemma VectorScaleInvert(norm: real, v: Vec)
    ensures VectorScale(norm, Invert(v)) == Invert(VectorScale(norm, v))
  {
    assert Dot(Invert(v), Invert(v)) == Dot(v, v);
    var len := Length(v);
    var s := if len == 0.0 then 0.0 else norm / len;
    ScaleInvert(v, s);
  }

  lemma ScaleInvert(v: Vec, s: real)
    ensures Scale(Invert(v), s) == Invert(Scale(v, s))
  {
    var l, r := Scale(Invert(v), s), Invert(Scale(v, s));
    assert l[0] == r[0] && l[1] == r[1] && l[2] == r[2];
    assert l == [l[0], l[1], l[2]] && r == [r[0], r[1], r[2]];
  }

  /**
   * `vector_angle`: the angle between two directions; 0 or pi when rounding
   * pushes the cosine out of [-1, 1].
   */
  function VectorAngle(a: Vec, b: Vec): real
  {
    var length := Length(a) * Length(b);
    var dotProduct := Dot(a, b);
    if length == 0.0 then NanAngle
    else
      var cosine := dotProduct / length;
      if Abs(cosine) >= 1.0 then (if dotProduct >= 0.0 then 0.0 else Pi)
      else Acos(cosine)
  }

  lemma VectorAngleSymmetric(a: Vec, b: Vec)
    ensures VectorAngle(a, b) == VectorAngle(b, a)
  {
    assert Dot(a, b) == Dot(b, a);
    assert Length(a) * Length(b) == Length(b) * Length(a);
  }

  // ---------------------------------------------------------------------
  // model_extreme_points

  /** The pair (max, min) of per-axis extremes. */
  datatype ExtremePoints = ExtremePoints(max: Vec, min: Vec)

  /** The default constructor: max at -DBL_MAX and min at +DBL_MAX on every axis. */
  const DefaultExtremePoints: ExtremePoints :=
    ExtremePoints([-DblMax, -DblMax, -DblMax], [DblMax, DblMax, DblMax])

  /** `get_most_extreme_cmp_cur(point)`: widens the box to contain `p`. */
  function CmpCurPoint(e: ExtremePoints, p: Vec): (r: ExtremePoints)
    ensures forall i :: 0 <= i < 3 ==>
      r.min[i] <= p[i] <= r.max[i]
      && e.max[i] <= r.max[i] && r.min[i] <= e.min[i]
      && (r.max[i] == e.max[i] || r.max[i] == p[i])
      && (r.min[i] == e.min[i] || r.min[i] == p[i])
  {
    ExtremePoints(
      seq(3, i requires 0 <= i < 3 => if e.max[i] < p[i] then p[i] else e.max[i]),
      seq(3, i requires 0 <= i < 3 => if e.min[i] > p[i] then p[i] else e.min[i]))
  }

  /** `get_most_extreme_cmp_cur(other)`: the smallest box around both boxes' corners. */
  function CmpCurBox(e: ExtremePoints, o: ExtremePoints): (r: ExtremePoints)
    ensures forall i :: 0 <= i < 3 ==>
      e.max[i] <= r.max[i] && o.max[i] <= r.max[i]
      && r.min[i] <= e.min[i] && r.min[i] <= o.min[i]
      && (r.max[i] == e.max[i] || r.max[i] == o.max[i])
      && (r.min[i] == e.min[i] || r.min[i] == o.min[i])
  {
    ExtremePoints(
      seq(3, i requires 0 <= i < 3 => if e.max[i] < o.max[i] then o.max[i] else e.max[i]),
      seq(3, i requires 0 <= i < 3 => if e.min[i] > o.min[i] then o.min[i] else e.min[i]))
  }

  /** `get_center`: the middle of the box. */
  function Center(e: ExtremePoints): (r: Vec)
    ensures forall i :: 0 <= i < 3 ==> r[i] - e.min[i] == e.max[i] - r[i]
    ensures forall i :: 0 <= i < 3 && e.min[i] <= e.max[i] ==> e.min[i] <= r[i] <= e.max[i]
  {
    Plus(DivideBy(Minus(e.max, e.min), 2.0), e.min)
  }

  /** Each point lies in the box on every axis. */
  ghost predicate Contains(e: ExtremePoints, points: seq<Vec>)
  {
    forall j, i :: 0 <= j < |points| && 0 <= i < 3 ==> e.min[i] <= points[j][i] <= e.max[i]
  }

  /** Each bound is reached by some point. */
  ghost predicate Tight(e: ExtremePoints, points: seq<Vec>)
  {
    forall i :: 0 <= i < 3 ==>
      (exists j :: 0 <= j < |points| && points[j][i] == e.max[i])
      && (exists j :: 0 <= j < |points| && points[j][i] == e.min[i])
  }

  /**
   * `get_most_extreme(points)`: per axis, `std::minmax_element`. On an empty
   * list the source dereferences the end iterator, so the list is non-empty.
   */
  method MostExtreme(points: seq<Vec>) returns (e: ExtremePoints)
    requires |points| > 0
    ensures Contains(e, points) && Tight(e, points)
  {
    var mx: seq<real> := [];
    var mn: seq<real> := [];
    for axis := 0 to 3
      invariant |mx| == axis && |mn| == axis
      invariant forall i, j :: 0 <= i < axis && 0 <= j < |points| ==> mn[i] <= points[j][i] <= mx[i]
      invariant forall i :: 0 <= i < axis ==>
        (exists j :: 0 <= j < |points| && points[j][i] == mx[i])
        && (exists j :: 0 <= j < |points| && points[j][i] == mn[i])
    {
      var lo, hi := 0, 0;
      for k := 1 to |points|
        invariant 0 <= lo < k && 0 <= hi < k
        invariant forall j :: 0 <= j < k ==> points[lo][axis] <= points[j][axis] <= points[hi][axis]
      {
        if points[k][axis] < points[lo][axis] {
          lo := k;
        }
        if !(points[k][axis] < points[hi][axis]) {
          hi := k;
        }
      }
      mx := mx + [points[hi][axis]];
      mn := mn + [points[lo][axis]];
    }
    e := ExtremePoints(mx, mn);
  }

  /** Folding points one by one into a box (the loop shape of the callers). */
  function FoldPoints(e: ExtremePoints, points: seq<Vec>): ExtremePoints
  {
    if points == [] then e else CmpCurPoint(FoldPoints(e, points[..|points| - 1]), points[|points| - 1])
  }

  /** A folded box contains every folded point and never shrinks. */
  lemma {:induction false} FoldPointsContains(e: ExtremePoints, points: seq<Vec>)
    ensures Contains(FoldPoints(e, points), points)
    ensures forall i :: 0 <= i < 3 ==>
      e.max[i] <= FoldPoints(e, points).max[i] && FoldPoints(e, points).min[i] <= e.min[i]
  {
    if points != [] {
      var init := points[..|points| - 1];
      FoldPointsContains(e, init);
      var f := FoldPoints(e, init);
      var r := CmpCurPoint(f, points[|points| - 1]);
      forall j, i | 0 <= j < |points| && 0 <= i < 3
        ensures r.min[i] <= points[j][i] <= r.max[i]
      {
        if j < |points| - 1 {
          assert points[j] == init[j];
        }
      }
    }
  }

  /**
   * Starting from the default box, a fold over points inside (-DBL_MAX, DBL_MAX)
   * is the tight box `MostExtreme` computes.
   */
  lemma {:induction false} FoldFromDefaultTight(points: seq<Vec>)
    requires |points| > 0
    requires forall j, i :: 0 <= j < |points| && 0 <= i < 3 ==> -DblMax < points[j][i] < DblMax
    ensures Tight(FoldPoints(DefaultExtremePoints, points), points)
  {
    var init := points[..|points| - 1];
    var last := points[|points| - 1];
    var f := FoldPoints(DefaultExtremePoints, init);
    var r := CmpCurPoint(f, last);
    if |points| == 1 {
      assert f == DefaultExtremePoints;
      forall i | 0 <= i < 3
        ensures points[0][i] == r.max[i] && points[0][i] == r.min[i]
      {
      }
    } else {
      FoldFromDefaultTight(init);
      forall i | 0 <= i < 3
        ensures (exists j :: 0 <= j < |points| && points[j][i] == r.max[i])
          && (exists j :: 0 <= j < |points| && points[j][i] == r.min[i])
      {
        var jm :| 0 <= jm < |init| && init[jm][i] == f.max[i];
        var jn :| 0 <= jn < |init| && init[jn][i] == f.min[i];
        assert points[jm] == init[jm] && points[jn] == init[jn];
        if r.max[i] == f.max[i] { assert points[jm][i] == r.max[i]; }
        else { assert last[i] == r.max[i]; }
        if r.min[i] == f.min[i] { assert points[jn][i] == r.min[i]; }
        else { assert last[i] == r.min[i]; }
      }
    }
  }

  // ---------------------------------------------------------------------
  // face

  /**
   * `volInt::face`. Vertex and normal indices point into the owning
   * polyhedron's `verts` and `vertNorms`. The converter's two directions read
   * different tag fields: `wheel_weapon_id` (volInt.cpp, m3d to OBJ) and
   * `wheel_id` / `weapon_id` (OBJ to m3d); the record carries all three.
   */
  datatype Face = Face(
    numVerts: int,
    colorId: nat,
    wheelWeaponId: int,
    wheelId: int,
    weaponId: int,
    norm: Vec,
    w: real,
    verts: seq<int>,
    vertNorms: seq<int>)

  /** `face(numVerts)`: color 0, no wheel or weapon, zero normal, indices -1. */
  function NewFace(numVerts: nat): (f: Face)
    ensures f.numVerts == |f.verts| == |f.vertNorms| == numVerts
    ensures forall k :: 0 <= k < numVerts ==> f.verts[k] == -1 && f.vertNorms[k] == -1
  {
    Face(numVerts, 0, -1, -1, -1, Zero, 0.0, seq(numVerts, _ => -1), seq(numVerts, _ => -1))
  }

  /** `f` and `g` agree on everything but their index lists. */
  predicate SameTags(f: Face, g: Face)
  {
    f.numVerts == g.numVerts && f.colorId == g.colorId && f.wheelWeaponId == g.wheelWeaponId
    && f.wheelId == g.wheelId && f.weaponId == g.weaponId && f.norm == g.norm && f.w == g.w
  }

  /** The first `numVerts` slots of `f` exist and name vertices among `vertexCount`. */
  predicate IndexesVertices(f: Face, vertexCount: int)
  {
    0 <= f.numVerts <= |f.verts|
    && forall k :: 0 <= k < f.numVerts ==> 0 <= f.verts[k] < vertexCount
  }

  /** All vertex indices of the listed faces, without duplicates (`get_vertices_by_polygons`). */
  function VerticesOfFaces(faces: seq<Face>): (ids: set<int>)
    ensures forall f, k :: 0 <= f < |faces| && 0 <= k < |faces[f].verts| ==> faces[f].verts[k] in ids
    ensures forall v :: v in ids ==> exists f, k :: 0 <= f < |faces| && 0 <= k < |faces[f].verts| && faces[f].verts[k] == v
  {
    set f, k | 0 <= f < |faces| && 0 <= k < |faces[f].verts| :: faces[f].verts[k]
  }
}
