/**
 * The m3d side of m3d_to_wavefront_obj_operations.cpp: recolouring a model,
 * reading a c3d block back into a polyhedron, reading the weapon slots,
 * appending one model to another, and `mark_wheels`. The bytes themselves
 * are decoded by `raw_bytes_to_num`, which is not part of this model: the
 * readers take the decoded numbers.
 */
module M3dToObj {
  import opened Common
  import opened Geometry
  import opened VolInt
  import opened Polyhedra
  import opened ObjToM3d
  import opened WheelGroups
  import opened MarkWheels

  // Constants of the c3d/m3d headers, which are not part of this model.
  /** `c3d::version_req`. */
  const VersionReq: int
  /** `c3d::color::string_to_id::max_colors_ids` and `::body`. */
  const MaxColorsIds: nat
  const BodyColor: nat
  /** `c3d::bound_model_vertices_per_polygon`; the regular count is `RegularVerticesPerPolygon`. */
  const BoundVerticesPerPolygon: nat := 3
  /** `wavefront_obj::normalize_val`. */
  const NormalizeVal: real

  /** `normalize_self`, which is not part of this model. */
  const NormalizeSelf: (real, Vec) -> Vec
  /** `sicher_angle_to_radians` on the stored integer angle, which is not part of this model. */
  const SicherAngleToRadians: int -> real

  // ---------------------------------------------------------------------
  // `set_color_id`

  /** One face after `set_color_id`: non-standard colours are kept, the wheel/weapon id always set. */
  function Recolor(f: Face, newColorId: nat, newWheelWeaponNum: int): (r: Face)
    ensures r.colorId == if f.colorId < MaxColorsIds then newColorId else f.colorId
    ensures r.wheelWeaponId == newWheelWeaponNum
    ensures r.verts == f.verts && r.vertNorms == f.vertNorms && r.numVerts == f.numVerts
    ensures r.norm == f.norm && r.w == f.w && r.wheelId == f.wheelId && r.weaponId == f.weaponId
  {
    if f.colorId < MaxColorsIds then f.(colorId := newColorId, wheelWeaponId := newWheelWeaponNum)
    else f.(wheelWeaponId := newWheelWeaponNum)
  }

  /** `set_color_id` on every face of `model`. */
  method SetColorId(model: Polyhedron, newColorId: nat, newWheelWeaponNum: int)
    modifies model`faces
    ensures |model.faces| == |old(model.faces)|
    ensures forall i :: 0 <= i < |model.faces| ==>
      model.faces[i] == Recolor(old(model.faces)[i], newColorId, newWheelWeaponNum)
  {
    for i := 0 to |model.faces|
      invariant |model.faces| == |old(model.faces)|
      invariant forall j :: 0 <= j < i ==>
        model.faces[j] == Recolor(old(model.faces)[j], newColorId, newWheelWeaponNum)
      invariant forall j :: i <= j < |model.faces| ==> model.faces[j] == old(model.faces)[j]
    {
      model.faces := model.faces[i := Recolor(model.faces[i], newColorId, newWheelWeaponNum)];
    }
  }

  /**
   * Recolouring twice with the same arguments is recolouring once, as long
   * as the new colour is a standard one.
   */
  lemma RecolorIdempotent(f: Face, newColorId: nat, newWheelWeaponNum: int)
    requires newColorId < MaxColorsIds
    ensures Recolor(Recolor(f, newColorId, newWheelWeaponNum), newColorId, newWheelWeaponNum)
      == Recolor(f, newColorId, newWheelWeaponNum)
  {
  }

  /** A second recolouring only sees the first one's colour when that was a standard one. */
  lemma RecolorTwice(f: Face, c1: nat, c2: nat, n1: int, n2: int)
    requires f.colorId < MaxColorsIds
    ensures Recolor(Recolor(f, c1, n1), c2, n2).colorId == if c1 < MaxColorsIds then c2 else c1
    ensures Recolor(Recolor(f, c1, n1), c2, n2).wheelWeaponId == n2
  {
  }

  // ---------------------------------------------------------------------
  // `read_c3d`

  /** `c3d::c3d_type`. */
  datatype C3dType = Regular | Bound

  function ExpectedVerticesPerPoly(t: C3dType): nat
  {
    if t == Regular then RegularVerticesPerPolygon else BoundVerticesPerPolygon
  }

  datatype ReadError =
    | UnexpectedVersion(version: int)
    | UnexpectedVertexCount(poly: nat, count: int)

  /** The colour `read_c3d` stores: ids from `max_colors_ids` on become `body`. */
  function ClampColor(colorId: nat): (r: nat)
    ensures colorId < MaxColorsIds ==> r == colorId
    ensures colorId >= MaxColorsIds ==> r == BodyColor
  {
    if colorId >= MaxColorsIds then BodyColor else colorId
  }

  /**
   * The face `read_c3d` builds from one polygon record: a `face(expected)`
   * with the clamped colour, and slot `k` taken from pair `expected - 1 - k`
   * (the file lists the pairs from the last slot to the first).
   */
  function FaceOfRecord(rec: PolygonRecord, expected: nat): (f: Face)
    requires |rec.pairs| == expected
    ensures f.numVerts == |f.verts| == |f.vertNorms| == expected
    ensures f.colorId == ClampColor(rec.colorId)
    ensures forall k :: 0 <= k < expected ==>
      f.verts[k] == rec.pairs[expected - 1 - k].0 && f.vertNorms[k] == rec.pairs[expected - 1 - k].1
  {
    NewFace(expected).(
      colorId := ClampColor(rec.colorId),
      verts := seq(expected, k requires 0 <= k < expected => rec.pairs[expected - 1 - k].0),
      vertNorms := seq(expected, k requires 0 <= k < expected => rec.pairs[expected - 1 - k].1))
  }

  /** Each record that has the expected vertex count carries that many index pairs. */
  predicate RecordsDecoded(records: seq<PolygonRecord>, expected: nat)
  {
    forall p :: 0 <= p < |records| && records[p].numVerts == expected ==> |records[p].pairs| == expected
  }

  /** The first `p` records all have the expected vertex count. */
  predicate CountsAsExpected(records: seq<PolygonRecord>, expected: nat, p: nat)
    requires p <= |records|
  {
    forall q :: 0 <= q < p ==> records[q].numVerts == expected
  }

  /**
   * The polygon loop of `read_c3d`: the first record with an unexpected
   * vertex count stops the read; otherwise every record becomes its face.
   */
  method ReadPolygons(records: seq<PolygonRecord>, expected: nat) returns (r: Result<seq<Face>, ReadError>)
    requires RecordsDecoded(records, expected)
    ensures r.Err? <==> !CountsAsExpected(records, expected, |records|)
    ensures r.Err? ==> (r.error.UnexpectedVertexCount? && r.error.poly < |records|
      && r.error.count == records[r.error.poly].numVerts != expected
      && CountsAsExpected(records, expected, r.error.poly))
    ensures r.Ok? ==> r.value == FacesOfRecords(records, expected)
  {
    var faces: seq<Face> := [];
    for curPoly := 0 to |records|
      invariant CountsAsExpected(records, expected, curPoly)
      invariant |faces| == curPoly
      invariant forall p :: 0 <= p < curPoly ==> faces[p] == FaceOfRecord(records[p], expected)
    {
      var rec := records[curPoly];
      if rec.numVerts != expected {
        return Err(UnexpectedVertexCount(curPoly, rec.numVerts));
      }
      faces := faces + [FaceOfRecord(rec, expected)];
    }
    return Ok(faces);
  }

  /** Every record as its face, in order. */
  function FacesOfRecords(records: seq<PolygonRecord>, expected: nat): (r: seq<Face>)
    requires RecordsDecoded(records, expected) && CountsAsExpected(records, expected, |records|)
    ensures |r| == |records| && forall p :: 0 <= p < |records| ==> r[p] == FaceOfRecord(records[p], expected)
  {
    seq(|records|, p requires 0 <= p < |records| => FaceOfRecord(records[p], expected))
  }

  /**
   * Reading back what `write_polygon` wrote gives the face's own slots in
   * their own order, and its colour when that is a standard one.
   */
  lemma ReadWritePolygon(f: Face, mediumVert: Vec, rec: PolygonRecord)
    requires 0 <= f.numVerts <= |f.verts| && f.numVerts <= |f.vertNorms|
    requires rec.numVerts == f.numVerts && rec.colorId == f.colorId && |rec.pairs| == f.numVerts
    requires forall i :: 0 <= i < f.numVerts ==>
      rec.pairs[i] == (f.verts[f.numVerts - 1 - i], f.vertNorms[f.numVerts - 1 - i])
    ensures FaceOfRecord(rec, f.numVerts).verts == f.verts[..f.numVerts]
    ensures FaceOfRecord(rec, f.numVerts).vertNorms == f.vertNorms[..f.numVerts]
    ensures f.colorId < MaxColorsIds ==> FaceOfRecord(rec, f.numVerts).colorId == f.colorId
  {
    var n := f.numVerts;
    var g := FaceOfRecord(rec, n);
    forall k | 0 <= k < n
      ensures g.verts[k] == f.verts[k] && g.vertNorms[k] == f.vertNorms[k]
    {
      assert rec.pairs[n - 1 - k] == (f.verts[n - 1 - (n - 1 - k)], f.vertNorms[n - 1 - (n - 1 - k)]);
    }
  }

  /** The numbers of a c3d block as `raw_bytes_to_num` decodes them, before scaling. */
  datatype C3dRecord = C3dRecord(
    version: int,
    offset: Vec,
    volume: real,
    rcm: Vec,
    j: Matrix,
    verts: seq<Vec>,
    vertNorms: seq<Vec>,
    polygons: seq<PolygonRecord>)

  /** `std::pow` with a natural exponent. */
  function Pow(x: real, n: nat): real
  {
    if n == 0 then 1.0 else x * Pow(x, n - 1)
  }

  function ScaleMatrix(m: Matrix, s: real): (r: Matrix)
    ensures forall i :: 0 <= i < 3 ==> r[i] == Scale(m[i], s)
  {
    [Scale(m[0], s), Scale(m[1], s), Scale(m[2], s)]
  }

  /** Every file vertex index of a record with the expected count names one of `vertexCount` vertices. */
  predicate RecordIndicesInRange(records: seq<PolygonRecord>, expected: nat, vertexCount: nat)
  {
    forall p, i :: 0 <= p < |records| && records[p].numVerts == expected && 0 <= i < |records[p].pairs| ==>
      0 <= records[p].pairs[i].0 < vertexCount
  }

  // ---------------------------------------------------------------------
  // `merge_helper_move_model_into_main`

  /** A face with its vertex indices moved up by `dv` and its normal indices by `dn`. */
  function OffsetFace(f: Face, dv: int, dn: int): (r: Face)
    ensures SameTags(r, f) && |r.verts| == |f.verts| && |r.vertNorms| == |f.vertNorms|
    ensures forall k :: 0 <= k < |f.verts| ==> r.verts[k] == f.verts[k] + dv
    ensures forall k :: 0 <= k < |f.vertNorms| ==> r.vertNorms[k] == f.vertNorms[k] + dn
  {
    f.(verts := seq(|f.verts|, k requires 0 <= k < |f.verts| => f.verts[k] + dv),
       vertNorms := seq(|f.vertNorms|, k requires 0 <= k < |f.vertNorms| => f.vertNorms[k] + dn))
  }

  /** The index loops of the merge over one face, in place. */
  method OffsetIndices(f: Face, dv: int, dn: int) returns (r: Face)
    ensures r == OffsetFace(f, dv, dn)
  {
    r := f;
    for k := 0 to |r.verts|
      invariant r.vertNorms == f.vertNorms && SameTags(r, f) && |r.verts| == |f.verts|
      invariant forall j :: 0 <= j < |f.verts| ==> r.verts[j] == f.verts[j] + (if j < k then dv else 0)
    {
      r := r.(verts := r.verts[k := r.verts[k] + dv]);
    }
    for k := 0 to |r.vertNorms|
      invariant r.verts == OffsetFace(f, dv, dn).verts && SameTags(r, f) && |r.vertNorms| == |f.vertNorms|
      invariant forall j :: 0 <= j < |f.vertNorms| ==> r.vertNorms[j] == f.vertNorms[j] + (if j < k then dn else 0)
    {
      r := r.(vertNorms := r.vertNorms[k := r.vertNorms[k] + dn]);
    }
  }

  /**
   * `merge_helper_move_model_into_main` from the point where `moved` is in
   * place: its face indices are shifted by the main model's counts, then
   * its vertices, normals and faces are appended to the main model's and
   * the counts added.
   */
  method MoveModelIntoMain(main: Polyhedron, moved: Polyhedron)
    requires main != moved
    modifies moved`faces
    modifies main`verts, main`vertNorms, main`faces, main`numVerts, main`numVertNorms, main`numFaces
    ensures |moved.faces| == |old(moved.faces)|
    ensures forall i :: 0 <= i < |moved.faces| ==>
      moved.faces[i] == OffsetFace(old(moved.faces)[i], old(main.numVerts), old(main.numVertNorms))
    ensures main.verts == old(main.verts) + old(moved.verts)
    ensures main.vertNorms == old(main.vertNorms) + old(moved.vertNorms)
    ensures main.faces == old(main.faces) + moved.faces
    ensures main.numVerts == old(main.numVerts) + old(moved.numVerts)
    ensures main.numVertNorms == old(main.numVertNorms) + old(moved.numVertNorms)
    ensures main.numFaces == old(main.numFaces) + old(moved.numFaces)
  {
    for i := 0 to |moved.faces|
      invariant unchanged(main)
      invariant |moved.faces| == |old(moved.faces)|
      invariant forall j :: 0 <= j < i ==>
        moved.faces[j] == OffsetFace(old(moved.faces)[j], main.numVerts, main.numVertNorms)
      invariant forall j :: i <= j < |moved.faces| ==> moved.faces[j] == old(moved.faces)[j]
    {
      var f := OffsetIndices(moved.faces[i], main.numVerts, main.numVertNorms);
      moved.faces := moved.faces[i := f];
    }
    main.verts := main.verts + moved.verts;
    main.vertNorms := main.vertNorms + moved.vertNorms;
    main.faces := main.faces + moved.faces;
    main.numVerts := main.numVerts + moved.numVerts;
    main.numVertNorms := main.numVertNorms + moved.numVertNorms;
    main.numFaces := main.numFaces + moved.numFaces;
  }

  /**
   * When the main model's counts match its lists, every shifted index of a
   * moved face names, in the merged lists, the vertex or normal it named in
   * the moved model, and the main model's own faces keep theirs.
   */
  lemma MergedIndicesSame(mainVerts: seq<Vec>, mainNorms: seq<Vec>, movedVerts: seq<Vec>, movedNorms: seq<Vec>,
                          f: Face)
    requires forall k :: 0 <= k < |f.verts| ==> 0 <= f.verts[k] < |movedVerts|
    requires forall k :: 0 <= k < |f.vertNorms| ==> 0 <= f.vertNorms[k] < |movedNorms|
    ensures var g := OffsetFace(f, |mainVerts|, |mainNorms|);
      (forall k :: 0 <= k < |g.verts| ==>
         |mainVerts| <= g.verts[k] < |mainVerts + movedVerts|
         && (mainVerts + movedVerts)[g.verts[k]] == movedVerts[f.verts[k]])
      && (forall k :: 0 <= k < |g.vertNorms| ==>
         |mainNorms| <= g.vertNorms[k] < |mainNorms + movedNorms|
         && (mainNorms + movedNorms)[g.vertNorms[k]] == movedNorms[f.vertNorms[k]])
  {
    var g := OffsetFace(f, |mainVerts|, |mainNorms|);
    forall k | 0 <= k < |g.verts|
      ensures (mainVerts + movedVerts)[g.verts[k]] == movedVerts[f.verts[k]]
    {
      assert g.verts[k] == f.verts[k] + |mainVerts|;
    }
    forall k | 0 <= k < |g.vertNorms|
      ensures (mainNorms + movedNorms)[g.vertNorms[k]] == movedNorms[f.vertNorms[k]]
    {
      assert g.vertNorms[k] == f.vertNorms[k] + |mainNorms|;
    }
  }

  /** Indices valid in the main model stay valid, and name the same vertices, after the append. */
  lemma MainIndicesSame(mainVerts: seq<Vec>, movedVerts: seq<Vec>, v: int)
    requires 0 <= v < |mainVerts|
    ensures (mainVerts + movedVerts)[v] == mainVerts[v]
  {
  }

  // ---------------------------------------------------------------------
  // `read_m3d_weapon_slots`

  /** `weapon_slot_data`. */
  datatype WeaponSlotData = WeaponSlotData(rSlots: Vec, locationAngle: real, slotExists: bool)

  /** One slot's numbers as decoded: the integer position and the integer angle. */
  datatype SlotRecord = SlotRecord(rSlots: Vec, angle: int)

  /** `exists` of each slot as read from the mask. */
  function SlotFlags(mask: bv32): (r: seq<bool>)
    ensures |r| == MaxSlots && forall k :: 0 <= k < MaxSlots ==> r[k] == BitSet(mask, k as bv5)
  {
    seq(MaxSlots, k requires 0 <= k < MaxSlots => BitSet(mask, k as bv5))
  }

  /**
   * The slot flags `get_weapons_data` packs into the mask are exactly the
   * ones `read_m3d_weapon_slots` unpacks, and the mask is non-zero exactly
   * when some slot exists.
   */
  lemma SlotFlagsRoundTrip(slots: seq<bool>)
    requires |slots| == MaxSlots
    ensures SlotFlags(SlotMaskOf(slots)) == slots
    ensures SlotMaskOf(slots) != 0 <==> exists k :: 0 <= k < MaxSlots && slots[k]
  {
    forall k | 0 <= k < MaxSlots
      ensures SlotFlags(SlotMaskOf(slots))[k] == slots[k]
    {
      SlotMaskBits(slots, k as bv5);
    }
    SlotMaskZero(slots);
  }

  /** Weapon slot `k` as `read_m3d_weapon_slots` stores it. */
  function SlotOf(rec: SlotRecord, scaleSize: real, mask: bv32, k: nat): (r: WeaponSlotData)
    requires k < MaxSlots
    ensures r.slotExists <==> BitSet(mask, k as bv5)
    ensures r.rSlots == Scale(rec.rSlots, scaleSize) && r.locationAngle == SicherAngleToRadians(rec.angle)
  {
    WeaponSlotData(Scale(rec.rSlots, scaleSize), SicherAngleToRadians(rec.angle), BitSet(mask, k as bv5))
  }

  // ---------------------------------------------------------------------
  // The converter object

  /** The fields of `m3d_to_wavefront_obj_model` these steps read and write. */
  class M3dToObjModel {
    var scaleSize: real
    var m3dDataCurPos: int
    var weaponSlotsExistence: bv32
    var curWeaponSlotData: seq<WeaponSlotData>
    var curWheelData: seq<WheelData>
    var nonSteerGhostWheelsNum: nat

    /**
     * `read_c3d`: the version is checked, the header values are scaled
     * (offsets and `rcm` by `scale_size`, volume by its cube, J by its
     * fifth power), the vertices are scaled, the normals normalised, the
     * polygons read with their vertex count checked, and finally the faces
     * get their planes with one orientation repair if the volume is
     * negative.
     */
    method ReadC3d(data: C3dRecord, c3dType: C3dType) returns (r: Result<Polyhedron, ReadError>)
      requires RecordsDecoded(data.polygons, ExpectedVerticesPerPoly(c3dType))
      requires RecordIndicesInRange(data.polygons, ExpectedVerticesPerPoly(c3dType), |data.verts|)
      ensures r.Err? <==> (data.version != VersionReq
        || !CountsAsExpected(data.polygons, ExpectedVerticesPerPoly(c3dType), |data.polygons|))
      ensures r.Err? && data.version != VersionReq ==> r.error == UnexpectedVersion(data.version)
      ensures r.Err? && data.version == VersionReq ==> r.error.UnexpectedVertexCount?
      ensures r.Ok? ==> fresh(r.value)
      ensures r.Ok? ==> (CountsAsExpected(data.polygons, ExpectedVerticesPerPoly(c3dType), |data.polygons|)
        && ReadOutcome(data, ExpectedVerticesPerPoly(c3dType), scaleSize, r.value))
    {
      var expected := ExpectedVerticesPerPoly(c3dType);
      if data.version != VersionReq {
        return Err(UnexpectedVersion(data.version));
      }
      var faces := ReadPolygons(data.polygons, expected);
      if faces.Err? {
        return Err(faces.error);
      }
      ReadFacesUniform(data.polygons, expected, |data.verts|, faces.value);
      var model := BuildModel(data, expected, scaleSize, faces.value);
      return Ok(model);
    }

    /**
     * `mark_wheels`: the wheels are split into steering and non-steering;
     * the wheel-coloured polygons are grouped into wheels; each group is
     * matched with the closest non-steering wheel, its faces tagged with
     * that wheel, its vertices moved from the group's centre onto the wheel,
     * and the wheel marked non-ghost; the planes are recomputed; finally
     * every wheel gets its ghost flag. `ok` is false where `.at` throws: a
     * steering wheel whose model index is out of range.
     */
    method MarkWheels(mainModel: Polyhedron, steerModelFaces: seq<int>)
      returns (ok: bool, ghost groups: seq<seq<nat>>, ghost centers: seq<Vec>, ghost matched: seq<nat>)
      requires RegularMain(mainModel)
      requires WheelPolygonsOf(mainModel.faces, mainModel.numFaces) != [] ==> |curWheelData| > 0
      modifies this`curWheelData, this`nonSteerGhostWheelsNum
      modifies mainModel`faces, mainModel`verts, mainModel`numFaces, mainModel`numVertTotal
      modifies mainModel`wheelsSteer, mainModel`wheelsNonSteer, mainModel`wheelsGhost, mainModel`wheelsNonGhost
      ensures mainModel.wheelsSteer == old(mainModel.wheelsSteer) + SteerIds(old(curWheelData))
      ensures mainModel.wheelsNonSteer == old(mainModel.wheelsNonSteer) + NonSteerIds(old(curWheelData))
      ensures old(VertsInRange(mainModel.faces, |mainModel.verts|))
      ensures Matched(old(mainModel.faces), old(mainModel.numFaces), old(mainModel.verts), old(curWheelData),
                      groups, centers, matched, mainModel.faces, mainModel.verts)
      ensures mainModel.numFaces == |mainModel.faces|
        && mainModel.numVertTotal == mainModel.numFaces * RegularVerticesPerPolygon
      ensures var wheels := ClearGhost(old(curWheelData), matched);
        var nonGhost := old(mainModel.wheelsNonGhost) + MatchedIds(matched);
        && (ok <==> SteerModelsKnown(wheels, steerModelFaces))
        && (ok ==> GhostsMarked(wheels, steerModelFaces, old(mainModel.wheelsGhost), nonGhost,
                                curWheelData, mainModel.wheelsGhost, mainModel.wheelsNonGhost, nonSteerGhostWheelsNum))
    {
      RegularVertsInRange(mainModel.faces, |mainModel.verts|);
      var faces0, numFaces0, verts0, wheels0 := mainModel.faces, mainModel.numFaces, mainModel.verts, curWheelData;
      var steer0, nonSteer0 := mainModel.wheelsSteer, mainModel.wheelsNonSteer;
      var ghosts0, nonGhost0 := mainModel.wheelsGhost, mainModel.wheelsNonGhost;
      var steer, nonSteer := SplitSteer(wheels0, steer0, nonSteer0);
      var faces1, verts1, wheels1, closest, wheelsGroups, wheelsCenters :=
        MatchAndPlane(faces0, numFaces0, verts0, wheels0);
      groups, centers, matched := wheelsGroups, wheelsCenters, closest;
      var nonGhost1 := nonGhost0 + MatchedIds(closest);
      var wheels2, ghosts2, nonGhost2, ghostNum;
      ok, wheels2, ghosts2, nonGhost2, ghostNum := MarkGhosts(wheels1, steerModelFaces, ghosts0, nonGhost1);
      if ok {
        StoreMarked(mainModel, faces1, verts1, steer, nonSteer, wheels2, ghosts2, nonGhost2, ghostNum);
      } else {
        StoreMarked(mainModel, faces1, verts1, steer, nonSteer, wheels1, ghosts0, nonGhost1, nonSteerGhostWheelsNum);
      }
    }

    /** Writes what `mark_wheels` computed back into the main model and the wheel list. */
    method StoreMarked(mainModel: Polyhedron, faces: seq<Face>, verts: seq<Vec>, steer: set<int>, nonSteer: set<int>,
                       wheels: seq<WheelData>, ghosts: set<int>, nonGhost: set<int>, ghostNum: nat)
      modifies this`curWheelData, this`nonSteerGhostWheelsNum
      modifies mainModel`faces, mainModel`verts, mainModel`numFaces, mainModel`numVertTotal
      modifies mainModel`wheelsSteer, mainModel`wheelsNonSteer, mainModel`wheelsGhost, mainModel`wheelsNonGhost
      ensures mainModel.faces == faces && mainModel.verts == verts
      ensures mainModel.numFaces == |faces| && mainModel.numVertTotal == |faces| * RegularVerticesPerPolygon
      ensures mainModel.wheelsSteer == steer && mainModel.wheelsNonSteer == nonSteer
      ensures mainModel.wheelsGhost == ghosts && mainModel.wheelsNonGhost == nonGhost
      ensures curWheelData == wheels && nonSteerGhostWheelsNum == ghostNum
    {
      mainModel.faces, mainModel.verts := faces, verts;
      mainModel.numFaces, mainModel.numVertTotal := |faces|, |faces| * RegularVerticesPerPolygon;
      mainModel.wheelsSteer, mainModel.wheelsNonSteer := steer, nonSteer;
      mainModel.wheelsGhost, mainModel.wheelsNonGhost := ghosts, nonGhost;
      curWheelData, nonSteerGhostWheelsNum := wheels, ghostNum;
    }

    /**
     * `read_m3d_weapon_slots`: the mask is stored and the cursor moves past
     * it; only when the mask is non-zero are the three slots read, each
     * with its scaled position, its angle and its bit of the mask.
     */
    method ReadM3dWeaponSlots(mask: bv32, slots: seq<SlotRecord>)
      requires |slots| == MaxSlots
      modifies this`weaponSlotsExistence, this`m3dDataCurPos, this`curWeaponSlotData
      ensures weaponSlotsExistence == mask
      ensures m3dDataCurPos == old(m3dDataCurPos) + SlotsExistenceSize
        + (if mask != 0 then MaxSlots * SlotDataSize else 0)
      ensures mask == 0 ==> curWeaponSlotData == old(curWeaponSlotData)
      ensures mask != 0 ==> (|curWeaponSlotData| == MaxSlots
        && forall k :: 0 <= k < MaxSlots ==> curWeaponSlotData[k] == SlotOf(slots[k], scaleSize, mask, k))
    {
      weaponSlotsExistence := mask;
      m3dDataCurPos := m3dDataCurPos + SlotsExistenceSize;
      if weaponSlotsExistence != 0 {
        curWeaponSlotData := seq(MaxSlots, _ => WeaponSlotData(Zero, 0.0, false));
        for curWeaponSlot := 0 to MaxSlots
          invariant weaponSlotsExistence == mask && |curWeaponSlotData| == MaxSlots
          invariant m3dDataCurPos == old(m3dDataCurPos) + SlotsExistenceSize + curWeaponSlot * SlotDataSize
          invariant forall k :: 0 <= k < curWeaponSlot ==>
            curWeaponSlotData[k] == SlotOf(slots[k], scaleSize, mask, k)
        {
          var rSlots := Scale(slots[curWeaponSlot].rSlots, scaleSize);
          var angle := SicherAngleToRadians(slots[curWeaponSlot].angle);
          m3dDataCurPos := m3dDataCurPos + SlotDataSize;
          var slotExists := BitSet(weaponSlotsExistence, curWeaponSlot as bv5);
          curWeaponSlotData := curWeaponSlotData[curWeaponSlot := WeaponSlotData(rSlots, angle, slotExists)];
        }
      }
    }
  }

  /** Faces of four vertices each, every one of them in range. */
  ghost predicate RegularFaces(faces: seq<Face>, vertexCount: nat)
  {
    forall i :: 0 <= i < |faces| ==>
      |faces[i].verts| == RegularVerticesPerPolygon && SlotsIndex(faces[i], RegularVerticesPerPolygon, vertexCount)
  }

  /** The main model `mark_wheels` works on: all of its faces counted, each with four vertices in range. */
  ghost predicate RegularMain(m: Polyhedron)
    reads m
  {
    m.numVertsPerPoly == RegularVerticesPerPolygon && m.numFaces == |m.faces| && RegularFaces(m.faces, |m.verts|)
  }

  /** Regular faces name vertices in range only. */
  lemma RegularVertsInRange(faces: seq<Face>, vertexCount: nat)
    requires RegularFaces(faces, vertexCount)
    ensures VertsInRange(faces, vertexCount)
  {
    forall i, k | 0 <= i < |faces| && 0 <= k < |faces[i].verts|
      ensures 0 <= faces[i].verts[k] < vertexCount
    {
      assert SlotsIndex(faces[i], RegularVerticesPerPolygon, vertexCount);
    }
  }

  /** The wheel polygons' vertex lists, in face order. */
  ghost function WheelPolys(faces: seq<Face>, numFaces: nat): seq<seq<int>>
    requires numFaces <= |faces|
  {
    WheelPolygonsExact(faces, numFaces);
    PolygonVerts(faces, WheelPolygonsOf(faces, numFaces))
  }

  /** The wheel polygons of faces whose vertex indices are in range have theirs in range too. */
  lemma WheelPolysInRange(faces: seq<Face>, numFaces: nat, vertexCount: nat)
    requires numFaces <= |faces| && VertsInRange(faces, vertexCount)
    ensures |WheelPolys(faces, numFaces)| == |WheelPolygonsOf(faces, numFaces)|
    ensures forall p, k :: 0 <= p < |WheelPolys(faces, numFaces)| && 0 <= k < |WheelPolys(faces, numFaces)[p]| ==>
      0 <= WheelPolys(faces, numFaces)[p][k] < vertexCount
  {
    WheelPolygonsExact(faces, numFaces);
  }

  /**
   * How `mark_wheels` pairs groups with wheels: the groups partition the
   * wheel polygons, polygons sharing a vertex are together, each centre is
   * its group's, and each group goes to the nearest non-steering wheel.
   */
  ghost predicate Matching(faces: seq<Face>, numFaces: nat, verts: seq<Vec>, wheels: seq<WheelData>,
                           groups: seq<seq<nat>>, centers: seq<Vec>, matched: seq<nat>)
    requires numFaces <= |faces| && VertsInRange(faces, |verts|)
  {
    WheelPolysInRange(faces, numFaces, |verts|);
    var polys := WheelPolys(faces, numFaces);
    Partition(groups, |polys|) && SharersTogether(polys, groups)
    && |centers| == |groups| == |matched|
    && (forall a :: 0 <= a < |groups| ==> centers[a] == GroupCenter(verts, polys, groups[a]))
    && (forall g :: 0 <= g < |groups| ==> matched[g] == Closest(wheels, centers[g]) < |wheels|)
  }

  /** The faces with every group tagged with its wheel; nothing but wheel ids changes. */
  ghost function TaggedFaces(faces: seq<Face>, numFaces: nat, groups: seq<seq<nat>>, matched: seq<nat>): (r: seq<Face>)
    requires numFaces <= |faces| && |groups| <= |matched|
    ensures |r| == |faces| && forall i :: 0 <= i < |faces| ==> r[i] == faces[i].(wheelWeaponId := r[i].wheelWeaponId)
  {
    TagAllOnlyIds(faces, WheelPolygonsOf(faces, numFaces), groups, matched, |groups|);
    TagAll(faces, WheelPolygonsOf(faces, numFaces), groups, matched, |groups|)
  }

  /** The vertices with every group moved from its centre onto its wheel. */
  ghost function MovedVerts(faces: seq<Face>, numFaces: nat, verts: seq<Vec>, wheels: seq<WheelData>,
                            groups: seq<seq<nat>>, centers: seq<Vec>, matched: seq<nat>): (r: seq<Vec>)
    requires numFaces <= |faces| && VertsInRange(faces, |verts|)
    requires Matching(faces, numFaces, verts, wheels, groups, centers, matched)
    ensures |r| == |verts|
  {
    MoveAll(verts, WheelPolys(faces, numFaces), groups, Shifts(wheels, centers, matched), |groups|)
  }

  /** Tagging keeps regular faces regular. */
  lemma TaggedRegular(faces: seq<Face>, numFaces: nat, groups: seq<seq<nat>>, matched: seq<nat>, vertexCount: nat)
    requires numFaces <= |faces| && |groups| <= |matched| && RegularFaces(faces, vertexCount)
    ensures AllSlotsIndex(TaggedFaces(faces, numFaces, groups, matched), RegularVerticesPerPolygon, vertexCount)
  {
    var tagged := TaggedFaces(faces, numFaces, groups, matched);
    forall i | 0 <= i < |tagged|
      ensures SlotsIndex(tagged[i], RegularVerticesPerPolygon, vertexCount)
    {
      assert tagged[i].verts == faces[i].verts;
      assert SlotsIndex(faces[i], RegularVerticesPerPolygon, vertexCount);
    }
  }

  /**
   * The faces and vertices after the matching loop and `faces_calc_params`:
   * each group tagged with its wheel and moved onto it, then the planes.
   */
  ghost predicate Matched(faces: seq<Face>, numFaces: nat, verts: seq<Vec>, wheels: seq<WheelData>,
                          groups: seq<seq<nat>>, centers: seq<Vec>, matched: seq<nat>,
                          faces': seq<Face>, verts': seq<Vec>)
    requires numFaces <= |faces| && RegularFaces(faces, |verts|) && VertsInRange(faces, |verts|)
  {
    && Matching(faces, numFaces, verts, wheels, groups, centers, matched)
    && (TaggedRegular(faces, numFaces, groups, matched, |verts|);
        && verts' == MovedVerts(faces, numFaces, verts, wheels, groups, centers, matched)
        && faces' == CalcParams(verts', TaggedFaces(faces, numFaces, groups, matched), RegularVerticesPerPolygon))
  }

  /**
   * The values `mark_wheels` computes before `faces_calc_params`: the wheel
   * polygons grouped, each group matched with its nearest non-steering
   * wheel, tagged and moved onto it, and the matched wheels' ghost flag
   * cleared.
   */
  method MatchWheelGroupsValues(faces: seq<Face>, numFaces: nat, verts: seq<Vec>, wheels: seq<WheelData>)
    returns (faces': seq<Face>, verts': seq<Vec>, wheels': seq<WheelData>, matched: seq<nat>,
             groups: seq<seq<nat>>, centers: seq<Vec>)
    requires numFaces <= |faces| && RegularFaces(faces, |verts|) && VertsInRange(faces, |verts|)
    requires WheelPolygonsOf(faces, numFaces) != [] ==> |wheels| > 0
    ensures Matching(faces, numFaces, verts, wheels, groups, centers, matched)
    ensures faces' == TaggedFaces(faces, numFaces, groups, matched)
    ensures verts' == MovedVerts(faces, numFaces, verts, wheels, groups, centers, matched)
    ensures wheels' == ClearGhost(wheels, matched)
  {
    var polygons := GetPolygons(faces, numFaces);
    WheelPolygonsExact(faces, numFaces);
    var polys := PolygonVerts(faces, polygons);
    var nonEmptyGroupsNum;
    groups, nonEmptyGroupsNum, centers := GetWheels(verts, polys);
    if |groups| > 0 {
      assert groups[0][0] < |polys|;
    }
    faces', verts', wheels', matched := MatchGroups(faces, verts, wheels, polygons, polys, groups, centers);
  }

  /**
   * The grouping and the matching loop of `mark_wheels` followed by its
   * `faces_calc_params`, whose planes on a regular model use four vertices.
   */
  method MatchAndPlane(faces: seq<Face>, numFaces: nat, verts: seq<Vec>, wheels: seq<WheelData>)
    returns (faces': seq<Face>, verts': seq<Vec>, wheels': seq<WheelData>, matched: seq<nat>,
             groups: seq<seq<nat>>, centers: seq<Vec>)
    requires numFaces <= |faces| && RegularFaces(faces, |verts|) && VertsInRange(faces, |verts|)
    requires WheelPolygonsOf(faces, numFaces) != [] ==> |wheels| > 0
    ensures Matched(faces, numFaces, verts, wheels, groups, centers, matched, faces', verts')
    ensures wheels' == ClearGhost(wheels, matched)
  {
    var tagged;
    tagged, verts', wheels', matched, groups, centers := MatchWheelGroupsValues(faces, numFaces, verts, wheels);
    TaggedRegular(faces, numFaces, groups, matched, |verts|);
    faces' := PlanesAndErase(verts', tagged, RegularVerticesPerPolygon);
  }

  /** The wheels, ghost sets and count after the last loop of `mark_wheels`. */
  ghost predicate GhostsMarked(wheels: seq<WheelData>, steerModelFaces: seq<int>, ghosts: set<int>, nonGhost: set<int>,
                               wheels': seq<WheelData>, ghosts': set<int>, nonGhost': set<int>, ghostNum: nat)
    requires SteerModelsKnown(wheels, steerModelFaces)
  {
    |wheels'| == |wheels|
    && (forall i :: 0 <= i < |wheels| ==>
          wheels'[i] == wheels[i].(isGhost := GhostFlag(wheels, steerModelFaces, nonGhost, i)))
    && ghosts' == ghosts + HollowSteer(wheels, steerModelFaces, |wheels|) + Unmatched(wheels, nonGhost, |wheels|)
    && nonGhost' == nonGhost + SolidSteer(wheels, steerModelFaces, |wheels|)
    && ghostNum == |Unmatched(wheels, nonGhost, |wheels|)|
  }

  /**
   * The model `read_c3d` builds once the version and every polygon's
   * vertex count passed: `polyhedron(vert_num, norm_num, poly_num,
   * expected)` filled in, then `faces_calc_params` with the orientation
   * repair.
   */
  method BuildModel(data: C3dRecord, expected: nat, scaleSize: real, faces: seq<Face>) returns (model: Polyhedron)
    requires expected >= 1 && UniformFaces(faces, expected, |data.verts|)
    ensures fresh(model)
    ensures Built(data, expected, scaleSize, faces, model)
  {
    model := FillModel(data, expected, scaleSize, faces);
    ghost var verts, norms := model.verts, model.vertNorms;
    model.FacesCalcParamsInvNegVol();
    assert model.verts == verts && model.numVertsPerPoly == expected;
  }

  /** The model before its faces get their planes: the header scaled, the vertices scaled, the normals normalised. */
  method FillModel(data: C3dRecord, expected: nat, scaleSize: real, faces: seq<Face>) returns (model: Polyhedron)
    ensures fresh(model)
    ensures model.numVerts == |data.verts| && model.numVertNorms == |data.vertNorms| && model.numVertsPerPoly == expected
    ensures model.offset == Scale(data.offset, scaleSize) && model.rcm == Scale(data.rcm, scaleSize)
    ensures model.volume == data.volume * Pow(scaleSize, 3)
    ensures model.J == ScaleMatrix(data.j, Pow(scaleSize, 5))
    ensures model.verts == ScaledVerts(data.verts, scaleSize)
    ensures model.vertNorms == NormalizedNorms(data.vertNorms)
    ensures model.faces == faces
  {
    model := new Polyhedron(|data.verts|, |data.vertNorms|, |data.polygons|, expected);
    StoreBlock(model, data, scaleSize, faces);
  }

  /**
   * A c3d block stored in the model: the header scaled by `scale_size` to
   * the power each quantity needs, the vertices scaled, the normals
   * normalised, and the faces.
   */
  method StoreBlock(model: Polyhedron, data: C3dRecord, scaleSize: real, faces: seq<Face>)
    modifies model`offset, model`volume, model`rcm, model`J, model`verts, model`vertNorms, model`faces
    ensures model.offset == Scale(data.offset, scaleSize) && model.rcm == Scale(data.rcm, scaleSize)
    ensures model.volume == data.volume * Pow(scaleSize, 3)
    ensures model.J == ScaleMatrix(data.j, Pow(scaleSize, 5))
    ensures model.verts == ScaledVerts(data.verts, scaleSize)
    ensures model.vertNorms == NormalizedNorms(data.vertNorms)
    ensures model.faces == faces
  {
    model.offset := Scale(data.offset, scaleSize);
    model.volume := data.volume * Pow(scaleSize, 3);
    model.rcm := Scale(data.rcm, scaleSize);
    model.J := ScaleMatrix(data.j, Pow(scaleSize, 5));
    model.verts := ScaledVerts(data.verts, scaleSize);
    model.vertNorms := NormalizedNorms(data.vertNorms);
    model.faces := faces;
  }

  /** The vertices of a c3d block scaled by `scale_size`. */
  function ScaledVerts(verts: seq<Vec>, scaleSize: real): (r: seq<Vec>)
    ensures |r| == |verts| && forall i :: 0 <= i < |verts| ==> r[i] == Scale(verts[i], scaleSize)
  {
    seq(|verts|, i requires 0 <= i < |verts| => Scale(verts[i], scaleSize))
  }

  /** The normals of a c3d block normalised to `normalize_val`. */
  function NormalizedNorms(norms: seq<Vec>): (r: seq<Vec>)
    ensures |r| == |norms| && forall i :: 0 <= i < |norms| ==> r[i] == NormalizeSelf(NormalizeVal, norms[i])
  {
    seq(|norms|, i requires 0 <= i < |norms| => NormalizeSelf(NormalizeVal, norms[i]))
  }

  /** The faces read from well-formed records meet the demands of `faces_calc_params_inv_neg_vol`. */
  lemma ReadFacesUniform(records: seq<PolygonRecord>, expected: nat, vertexCount: nat, faces: seq<Face>)
    requires RecordsDecoded(records, expected) && CountsAsExpected(records, expected, |records|)
    requires RecordIndicesInRange(records, expected, vertexCount)
    requires faces == FacesOfRecords(records, expected)
    ensures UniformFaces(faces, expected, vertexCount)
  {
    forall p | 0 <= p < |faces|
      ensures FaceShape(faces[p], expected, vertexCount)
    {
      forall k | 0 <= k < expected
        ensures 0 <= faces[p].verts[k] < vertexCount
      {
        assert faces[p].verts[k] == records[p].pairs[expected - 1 - k].0;
      }
    }
  }

  /** The model `read_c3d` returns for a block whose version and counts are as expected. */
  ghost predicate ReadOutcome(data: C3dRecord, expected: nat, scaleSize: real, m: Polyhedron)
    requires expected >= 1
    requires RecordsDecoded(data.polygons, expected) && CountsAsExpected(data.polygons, expected, |data.polygons|)
    requires RecordIndicesInRange(data.polygons, expected, |data.verts|)
    reads m
  {
    var faces := FacesOfRecords(data.polygons, expected);
    ReadFacesUniform(data.polygons, expected, |data.verts|, faces);
    Built(data, expected, scaleSize, faces, m)
  }

  /** The model built from a c3d block and its faces, the faces with their planes and the orientation repaired. */
  ghost predicate Built(data: C3dRecord, expected: nat, scaleSize: real, faces: seq<Face>, m: Polyhedron)
    requires expected >= 1 && UniformFaces(faces, expected, |data.verts|)
    reads m
  {
    var verts := ScaledVerts(data.verts, scaleSize);
    var norms := NormalizedNorms(data.vertNorms);
    m.numVerts == |data.verts| && m.numVertNorms == |data.vertNorms| && m.numVertsPerPoly == expected
    && m.offset == Scale(data.offset, scaleSize) && m.rcm == Scale(data.rcm, scaleSize)
    && m.volume == data.volume * Pow(scaleSize, 3)
    && m.J == ScaleMatrix(data.j, Pow(scaleSize, 5))
    && m.verts == verts
    && m.faces == CalcParamsInvNegVol(verts, faces, expected)
    && m.vertNorms == (if FirstPassNegative(verts, faces, expected) then InvertAll(norms) else norms)
    && m.numFaces == |m.faces| && m.numVertTotal == m.numFaces * expected
  }
}
