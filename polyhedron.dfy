/**
 * The `volInt::polyhedron` class: the mesh with its counts and derived mass
 * properties, and the member functions that update it in place.
 */
module Polyhedra {
  import opened Common
  import opened Geometry
  import opened Mirtich
  import opened VolInt
  import opened VertNormals
  import opened RefPoints
  import opened MassProperties

  /** The largest distance of a point from the origin, 0 for no points: an upper bound of every distance. */
  function MaxLength(points: seq<Vec>): (r: real)
    ensures r >= 0.0
    ensures forall i :: 0 <= i < |points| ==> Length(points[i]) <= r
  {
    if |points| == 0 then 0.0
    else
      var init := points[..|points| - 1];
      var m := MaxLength(init);
      var l := Length(points[|points| - 1]);
      assert forall i :: 0 <= i < |init| ==> init[i] == points[i];
      if m < l then l else m
  }

  /** Unless it is 0, `MaxLength` is the distance of one of the points, so it is the least upper bound. */
  lemma {:induction false} MaxLengthAttained(points: seq<Vec>)
    ensures MaxLength(points) == 0.0 || exists i :: 0 <= i < |points| && Length(points[i]) == MaxLength(points)
  {
    if |points| > 0 {
      var init := points[..|points| - 1];
      MaxLengthAttained(init);
      if MaxLength(points) != Length(points[|points| - 1]) && MaxLength(points) != 0.0 {
        var i :| 0 <= i < |init| && Length(init[i]) == MaxLength(init);
        assert points[i] == init[i];
      }
    }
  }

  /** The loop of `calculate_rmax`: a strict `<` against the running maximum, which starts at 0. */
  method Rmax(points: seq<Vec>) returns (rmax: real)
    ensures rmax == MaxLength(points)
  {
    rmax := 0.0;
    for i := 0 to |points|
      invariant rmax == MaxLength(points[..i])
    {
      var curVertLength := Length(points[i]);
      if rmax < curVertLength {
        rmax := curVertLength;
      }
      assert points[..i + 1][..i] == points[..i];
    }
    assert points[..|points|] == points;
  }

  /**
   * `volInt::polyhedron`. Faces are values holding vertex and normal indices;
   * the reference vertices are kept as (face, slot) index pairs instead of
   * addresses into `verts`.
   */
  class Polyhedron {
    var numVerts: int
    var numVertNorms: int
    var numFaces: int
    var numVertTotal: int
    var numVertsPerPoly: int
    var verts: seq<Vec>
    var vertNorms: seq<Vec>
    var faces: seq<Face>

    var extremePoints: ExtremePoints
    var offset: Vec
    var rmax: real
    var volume: real
    var rcm: Vec
    var J: Matrix
    var bodyColorOffset: int
    var bodyColorShift: int

    var refVertOneInd: (int, int)
    var refVertTwoInd: (int, int)
    var refVertThreeInd: (int, int)
    var refVertTwoRelToOne: Vec
    var refVertThreeRelToOne: Vec
    var refAngle: real

    var wheels: set<int>
    var wheelsSteer: set<int>
    var wheelsNonSteer: set<int>
    var wheelsGhost: set<int>
    var wheelsNonGhost: set<int>
    var wheelId: int
    var volumeOverwritten: bool
    var rcmOverwritten: bool
    var jOverwritten: bool

    /** The fields every constructor starts from. */
    predicate Fresh()
      reads this
    {
      extremePoints == DefaultExtremePoints && offset == Zero && rmax == 0.0 && volume == 0.0
      && rcm == Zero && J == ZeroMatrix && bodyColorOffset == -1 && bodyColorShift == -1
      && refVertOneInd == (-1, -1) && refVertTwoInd == (-1, -1) && refVertThreeInd == (-1, -1)
      && refAngle == 0.0 && wheels == {} && wheelsSteer == {} && wheelsNonSteer == {}
      && wheelsGhost == {} && wheelsNonGhost == {} && wheelId == -1
      && !volumeOverwritten && !rcmOverwritten && !jOverwritten
    }

    /** `polyhedron()`: no vertices, normals or faces. */
    constructor Empty()
      ensures Fresh()
      ensures numVerts == numVertNorms == numFaces == numVertTotal == numVertsPerPoly == 0
      ensures verts == [] && vertNorms == [] && faces == []
    {
      numVerts, numVertNorms, numFaces, numVertTotal, numVertsPerPoly := 0, 0, 0, 0, 0;
      verts, vertNorms, faces := [], [], [];
      extremePoints, offset, rmax, volume, rcm, J := DefaultExtremePoints, Zero, 0.0, 0.0, Zero, ZeroMatrix;
      bodyColorOffset, bodyColorShift := -1, -1;
      refVertOneInd, refVertTwoInd, refVertThreeInd := (-1, -1), (-1, -1), (-1, -1);
      refVertTwoRelToOne, refVertThreeRelToOne, refAngle := Zero, Zero, 0.0;
      wheels, wheelsSteer, wheelsNonSteer, wheelsGhost, wheelsNonGhost := {}, {}, {}, {}, {};
      wheelId := -1;
      volumeOverwritten, rcmOverwritten, jOverwritten := false, false, false;
    }

    /**
     * `polyhedron(numVerts, numVertNorms, numFaces, verts_per_poly)`: zero
     * vertices and normals, and `numFaces` copies of `face(verts_per_poly)`.
     */
    constructor(numVertsArg: nat, numVertNormsArg: nat, numFacesArg: nat, vertsPerPolyArg: nat)
      ensures Fresh()
      ensures numVerts == numVertsArg && numVertNorms == numVertNormsArg && numFaces == numFacesArg
      ensures numVertTotal == numFacesArg * vertsPerPolyArg && numVertsPerPoly == vertsPerPolyArg
      ensures verts == seq(numVertsArg, _ => Zero) && vertNorms == seq(numVertNormsArg, _ => Zero)
      ensures faces == seq(numFacesArg, _ => NewFace(vertsPerPolyArg))
    {
      numVerts, numVertNorms, numFaces := numVertsArg, numVertNormsArg, numFacesArg;
      numVertTotal, numVertsPerPoly := numFacesArg * vertsPerPolyArg, vertsPerPolyArg;
      verts := seq(numVertsArg, _ => Zero);
      vertNorms := seq(numVertNormsArg, _ => Zero);
      faces := seq(numFacesArg, _ => NewFace(vertsPerPolyArg));
      extremePoints, offset, rmax, volume, rcm, J := DefaultExtremePoints, Zero, 0.0, 0.0, Zero, ZeroMatrix;
      bodyColorOffset, bodyColorShift := -1, -1;
      refVertOneInd, refVertTwoInd, refVertThreeInd := (-1, -1), (-1, -1), (-1, -1);
      refVertTwoRelToOne, refVertThreeRelToOne, refAngle := Zero, Zero, 0.0;
      wheels, wheelsSteer, wheelsNonSteer, wheelsGhost, wheelsNonGhost := {}, {}, {}, {}, {};
      wheelId := -1;
      volumeOverwritten, rcmOverwritten, jOverwritten := false, false, false;
    }

    /** `invertVertNorms`: every vertex normal negated; applying it twice is the identity (`InvertAllTwice`). */
    method InvertVertNorms()
      modifies this`vertNorms
      ensures vertNorms == InvertAll(old(vertNorms))
    {
      for i := 0 to |vertNorms|
        invariant |vertNorms| == |old(vertNorms)|
        invariant forall j :: 0 <= j < i ==> vertNorms[j] == Invert(old(vertNorms)[j])
        invariant forall j :: i <= j < |vertNorms| ==> vertNorms[j] == old(vertNorms)[j]
      {
        vertNorms := vertNorms[i := Invert(vertNorms[i])];
      }
    }

    /**
     * `reverse_polygons_orientation`: the first `numVertsPerPoly` vertex and
     * normal slots of each of the first `numFaces` faces reversed, through the
     * temporary arrays `newVerts` / `newVertNorms`. Twice is the identity
     * (`ReverseAllTwice`).
     */
    method ReversePolygonsOrientation()
      requires 0 <= numFaces <= |faces| && numVertsPerPoly >= 0
      requires forall i :: 0 <= i < numFaces ==>
        numVertsPerPoly <= |faces[i].verts| && numVertsPerPoly <= |faces[i].vertNorms|
      modifies this`faces
      ensures faces == ReverseAll(old(faces), numFaces, numVertsPerPoly)
    {
      var n := numVertsPerPoly;
      for curPoly := 0 to numFaces
        invariant |faces| == |old(faces)|
        invariant forall i :: 0 <= i < curPoly ==> faces[i] == ReverseFace(old(faces)[i], n)
        invariant forall i :: curPoly <= i < |faces| ==> faces[i] == old(faces)[i]
      {
        var g := ReverseFaceSlots(faces[curPoly], n);
        faces := faces[curPoly := g];
      }
    }

    /** `face_calc_normal`: the Newell sum over the face's first `numVertsPerPoly` vertices. */
    method FaceCalcNormal(faceInd: int) returns (normal: Vec)
      requires 0 <= faceInd < |faces| && SlotsIndex(faces[faceInd], numVertsPerPoly, |verts|)
      ensures normal == Newell(Ring(verts, faces[faceInd], numVertsPerPoly))
    {
      normal := FaceNormal(verts, faces[faceInd], numVertsPerPoly);
    }

    /** `face_calc_offset_w`: the plane through the face's first vertex with the face's stored normal. */
    function FaceCalcOffsetW(faceInd: int): (w: real)
      reads this
      requires 0 <= faceInd < |faces| && SlotsIndex(faces[faceInd], 1, |verts|)
      ensures Dot(faces[faceInd].norm, verts[faces[faceInd].verts[0]]) + w == 0.0
    {
      var f := faces[faceInd];
      PlaneOffset(f.norm, verts[f.verts[0]])
    }

    /**
     * `faces_calc_params`: every face gets its scaled Newell normal and the
     * offset through its first vertex; the faces whose normal has length 0
     * are erased, the others keep their order; the counts follow.
     */
    method FacesCalcParams()
      requires numVertsPerPoly >= 1 && AllSlotsIndex(faces, numVertsPerPoly, |verts|)
      modifies this`faces, this`numFaces, this`numVertTotal
      ensures faces == CalcParams(verts, old(faces), numVertsPerPoly)
      ensures numFaces == |faces| && numVertTotal == numFaces * numVertsPerPoly
    {
      var kept := PlanesAndErase(verts, faces, numVertsPerPoly);
      faces := kept;
      numFaces := |kept|;
      numVertTotal := numFaces * numVertsPerPoly;
    }

    /**
     * `faces_calc_params_inv_neg_vol`: the planes, and when `check_volume`
     * is then negative, the vertex normals inverted, the windings reversed
     * and the planes recomputed.
     */
    method FacesCalcParamsInvNegVol()
      requires numVertsPerPoly >= 1 && UniformFaces(faces, numVertsPerPoly, |verts|)
      modifies this`faces, this`numFaces, this`numVertTotal, this`vertNorms
      ensures faces == CalcParamsInvNegVol(verts, old(faces), numVertsPerPoly)
      ensures vertNorms == if FirstPassNegative(verts, old(faces), numVertsPerPoly)
        then InvertAll(old(vertNorms)) else old(vertNorms)
      ensures numFaces == |faces| && numVertTotal == numFaces * numVertsPerPoly
    {
      ghost var vs, vpp, f0, n0 := verts, numVertsPerPoly, faces, vertNorms;
      InvNegVolCases(vs, f0, vpp);
      UniformSlots(f0, vpp, |vs|);
      FacesCalcParams();
      ghost var first := faces;
      assert faces[..numFaces] == faces;
      var volume := CheckVolume();
      if volume < 0.0 {
        RepairOrientation();
      }
      InvNegVolOutcome(vs, f0, vpp, first, volume, faces, n0, vertNorms);
    }

    /** The branch of `faces_calc_params_inv_neg_vol` taken on a negative volume. */
    method RepairOrientation()
      requires numVertsPerPoly >= 1 && UniformFaces(faces, numVertsPerPoly, |verts|)
      requires numFaces == |faces|
      modifies this`faces, this`numFaces, this`numVertTotal, this`vertNorms
      ensures faces == RepairPass(verts, old(faces), numVertsPerPoly)
      ensures vertNorms == InvertAll(old(vertNorms))
      ensures numFaces == |faces| && numVertTotal == numFaces * numVertsPerPoly
    {
      InvertVertNorms();
      ReverseAllShape(faces, numVertsPerPoly, |verts|);
      UniformSlots(faces, numVertsPerPoly, |verts|);
      ReversePolygonsOrientation();
      UniformSlots(faces, numVertsPerPoly, |verts|);
      FacesCalcParams();
    }

    /** The first `numFaces` faces can be integrated: valid vertex indices and non-zero normals. */
    predicate CanIntegrate()
      reads this
    {
      0 <= numFaces <= |faces| && Integrable(verts, faces[..numFaces])
    }

    /** `check_volume`: T0 of `compVolumeIntegrals`, the signed volume of the first `numFaces` faces. */
    method CheckVolume() returns (t0: real)
      requires CanIntegrate()
      ensures t0 == VolumeIntegrals(verts, faces[..numFaces]).t0
    {
      var t := CompVolumeIntegrals(verts, faces[..numFaces]);
      t0 := t.t0;
    }

    /**
     * `recalc_vertNorms`: smoothed vertex normals for every slot, merged into
     * one normal per group of equal ones; `grouping` stands for
     * `get_groups_of_connected_items` over `vector_equal`.
     */
    method RecalcVertNorms(maxSmoothAngle: real, grouping: seq<Vec> -> seq<seq<int>>)
      requires numVertsPerPoly >= 1 && UniformFaces(faces, numVertsPerPoly, |verts|) && 0 <= numVerts
      requires numFaces == |faces|
      requires IsPartition(grouping(SlotNormalsOf(verts, faces, numVertsPerPoly, numVerts, maxSmoothAngle)),
                           |faces| * numVertsPerPoly)
      modifies this`faces, this`vertNorms, this`numVertNorms
      ensures var groups := grouping(SlotNormalsOf(verts, old(faces), numVertsPerPoly, numVerts, maxSmoothAngle));
        numVertNorms == |vertNorms| == |groups|
        && (forall g :: 0 <= g < |groups| ==>
              vertNorms[g] == Average(SlotNormalsOf(verts, old(faces), numVertsPerPoly, numVerts, maxSmoothAngle), groups[g]))
        && |faces| == |old(faces)|
        && forall i :: 0 <= i < |faces| ==>
             Merged(NumberedFace(old(faces)[i], i, numVertsPerPoly), faces[i], groups, |faces| * numVertsPerPoly)
    {
      var newFaces, newNorms := RecalcVertNormsOf(verts, faces, numVertsPerPoly, numVerts, maxSmoothAngle, grouping);
      faces, vertNorms, numVertNorms := newFaces, newNorms, |newNorms|;
    }

    /**
     * `find_ref_points`: the search for a first vertex, a second one far
     * enough from it and a third one not collinear with both, over the
     * slots of the first `numFaces` faces in order, stopping at the first
     * complete triple (the `goto`); then the offsets of the second and third
     * vertex from the first and the rotation angle around y. It reports
     * success when the first and second slots are set, which can happen
     * without a complete triple.
     */
    method FindRefPoints() returns (found: bool)
      requires 1 <= |faces| && numFaces == |faces| && SearchArea(verts, faces, numFaces, faces[0].numVerts)
      requires RefSlot(refVertOneInd, numFaces, faces[0].numVerts) && RefSlot(refVertTwoInd, numFaces, faces[0].numVerts)
      requires RefSlot(refVertThreeInd, numFaces, faces[0].numVerts)
      modifies this`refVertOneInd, this`refVertTwoInd, this`refVertThreeInd
      modifies this`refVertTwoRelToOne, this`refVertThreeRelToOne, this`refAngle
      ensures RefSearch(verts, faces, numFaces, faces[0].numVerts,
                        old(RefState(refVertOneInd, refVertTwoInd, refVertThreeInd, refVertTwoRelToOne, refVertThreeRelToOne, refAngle)),
                        RefState(refVertOneInd, refVertTwoInd, refVertThreeInd, refVertTwoRelToOne, refVertThreeRelToOne, refAngle),
                        found)
    {
      var r;
      found, r := FindRefPointsOf(verts, faces, numFaces, faces[0].numVerts,
                                  RefState(refVertOneInd, refVertTwoInd, refVertThreeInd, refVertTwoRelToOne, refVertThreeRelToOne, refAngle));
      refVertOneInd, refVertTwoInd, refVertThreeInd := r.one, r.two, r.three;
      refVertTwoRelToOne, refVertThreeRelToOne, refAngle := r.twoRel, r.threeRel, r.angle;
    }

    /** `get_extreme_points()`: the bounding box of all vertices. */
    method GetExtremePoints()
      requires |verts| > 0
      modifies this`extremePoints
      ensures Contains(extremePoints, verts) && Tight(extremePoints, verts)
    {
      extremePoints := MostExtreme(verts);
    }

    /** `calculate_rmax`: the largest distance of a vertex from the origin. */
    method CalculateRmax()
      modifies this`rmax
      ensures rmax == MaxLength(verts)
    {
      rmax := Rmax(verts);
    }

    /**
     * `calculate_c3d_properties`: the bounding box and `rmax` of the
     * vertices, the volume integrals of the first `numFaces` faces, the
     * volume checks (an exception in the source, an error value here, after
     * the box and `rmax` are already set), and then volume, centre of mass
     * and inertia tensor, each unless overwritten from the configuration.
     */
    method CalculateC3dProperties() returns (error: Option<C3dError>, ghost t: VolumeInts)
      requires |verts| > 0 && CanIntegrate()
      modifies this`extremePoints, this`rmax, this`volume, this`rcm, this`J
      ensures Contains(extremePoints, verts) && Tight(extremePoints, verts)
      ensures rmax == MaxLength(verts)
      ensures t == VolumeIntegrals(verts, faces[..numFaces])
      ensures error == VolumeCheck(t.t0, wheelId)
      ensures error.Some? ==> volume == old(volume) && rcm == old(rcm) && J == old(J)
      ensures error.None? ==>
        MassProps(volume, rcm, J)
          == Computed(t, MassProps(old(volume), old(rcm), old(J)), volumeOverwritten, rcmOverwritten, jOverwritten)
    {
      var integrals := CompVolumeIntegrals(verts, faces[..numFaces]);
      t := integrals;
      extremePoints := MostExtreme(verts);
      rmax := Rmax(verts);
      error := VolumeCheck(integrals.t0, wheelId);
      if error == None {
        StoreMassProperties(integrals);
      }
    }

    /**
     * The assignments of `calculate_c3d_properties` after the checks: the
     * volume, the centre of mass and the inertia tensor from the integrals
     * `t`, each unless overwritten from the configuration.
     */
    method StoreMassProperties(t: VolumeInts)
      modifies this`volume, this`rcm, this`J
      ensures MassProps(volume, rcm, J)
        == Computed(t, MassProps(old(volume), old(rcm), old(J)), volumeOverwritten, rcmOverwritten, jOverwritten)
    {
      var props := Computed(t, MassProps(volume, rcm, J), volumeOverwritten, rcmOverwritten, jOverwritten);
      volume, rcm, J := props.volume, props.rcm, props.j;
    }
  }
}
