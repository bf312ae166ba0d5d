/**
 * The `wavefront_obj_to_m3d_model` steps that assemble an m3d file from
 * OBJ meshes: wheel data from bounding boxes, the weapon-slot bitmask, the
 * debris count, the inertia-tensor and volume overrides of the per-file
 * config, the file-size arithmetic and the vertex order of a written
 * polygon. `remove_polygons` and `get_wheels_steer` have modules of their
 * own; the class method below runs the first on a `Polyhedron`.
 */
module ObjToM3d {
  import opened Common
  import opened Geometry
  import opened VolInt
  import opened Polyhedra
  import opened RemovePolygons

  // ---------------------------------------------------------------------
  // Header constants. Their values live in headers that are not part of
  // this model; only `max_slots` is fixed (three weapon slots per model).

  const C3dHeaderSize: nat
  const C3dVertexSize: nat
  const C3dNormalSize: nat
  const PolygonGeneralInfoSize: nat
  const PolygonSizePerVertex: nat
  const PolygonSortInfoSize: nat
  const M3dHeaderSize: nat
  const M3dWheelSize: nat
  const SlotsExistenceSize: nat
  const SlotDataSize: nat
  const A3dHeaderSize: nat

  /** `m3d::weapon_slot::max_slots`. */
  const MaxSlots: nat := 3

  /** `J_cfg_num_of_values`: a 3x3 tensor is given as 9 numbers. */
  const JCfgNumOfValues: nat := 9

  /** `c3d::polygon::default_sort_info` and `default_color_shift`. */
  const DefaultSortInfo: int
  const DefaultColorShift: nat

  // ---------------------------------------------------------------------
  // Wheel data (`get_wheels_data`)

  /** `wheel_data`: the m3d record of one wheel. */
  datatype WheelData = WheelData(wheelModelIndex: int, steer: int, isGhost: int, r: Vec, width: real, radius: real)

  /** Every vertex index of every face names one of `vertexCount` vertices. */
  predicate VertsInRange(faces: seq<Face>, vertexCount: nat)
  {
    forall i, k :: 0 <= i < |faces| && 0 <= k < |faces[i].verts| ==> 0 <= faces[i].verts[k] < vertexCount
  }

  /** The coordinates the indices `ids` name, in order. */
  function FacePoints(verts: seq<Vec>, ids: seq<int>): (r: seq<Vec>)
    requires forall k :: 0 <= k < |ids| ==> 0 <= ids[k] < |verts|
    ensures |r| == |ids| && forall k :: 0 <= k < |ids| ==> r[k] == verts[ids[k]]
  {
    seq(|ids|, k requires 0 <= k < |ids| => verts[ids[k]])
  }

  /**
   * The points `get_wheels_data` folds into the box of wheel `n`: the
   * vertices of the faces of that wheel, face by face, provided the wheel
   * is one of the model's `wheels`.
   */
  function WheelPoints(verts: seq<Vec>, faces: seq<Face>, wheels: set<int>, n: int): seq<Vec>
    requires VertsInRange(faces, |verts|)
  {
    if faces == [] then []
    else
      var init := faces[..|faces| - 1];
      var last := faces[|faces| - 1];
      assert VertsInRange(init, |verts|) by {
        forall i, k | 0 <= i < |init| && 0 <= k < |init[i].verts| ensures 0 <= init[i].verts[k] < |verts| {
          assert init[i] == faces[i];
        }
      }
      WheelPoints(verts, init, wheels, n) + (if last.wheelId == n && n in wheels then FacePoints(verts, last.verts) else [])
  }

  /** The bounding box of wheel `n`, folded from the default box. */
  function WheelBox(verts: seq<Vec>, faces: seq<Face>, wheels: set<int>, n: int): ExtremePoints
    requires VertsInRange(faces, |verts|)
  {
    FoldPoints(DefaultExtremePoints, WheelPoints(verts, faces, wheels, n))
  }

  /** The record of wheel `n` read off its box: centre, x extent as width, half the z extent as radius. */
  function WheelDataOf(n: int, box: ExtremePoints, wheelsSteer: set<int>, wheelsGhost: set<int>): WheelData
  {
    WheelData(n, if n in wheelsSteer then 1 else 0, if n in wheelsGhost then 1 else 0,
              Center(box), box.max[0] - box.min[0], (box.max[2] - box.min[2]) / 2.0)
  }

  /** Folding two lists is folding the first, then the second. */
  lemma {:induction false} FoldAppend(e: ExtremePoints, a: seq<Vec>, b: seq<Vec>)
    ensures FoldPoints(e, a + b) == FoldPoints(FoldPoints(e, a), b)
  {
    if b == [] {
      assert a + b == a;
    } else {
      var b' := b[..|b| - 1];
      var last := b[|b| - 1];
      FoldAppend(e, a, b');
      assert (a + b)[..|a + b| - 1] == a + b';
      assert (a + b)[|a + b| - 1] == last;
      calc {
        FoldPoints(e, a + b);
        CmpCurPoint(FoldPoints(e, a + b'), last);
        CmpCurPoint(FoldPoints(FoldPoints(e, a), b'), last);
        FoldPoints(FoldPoints(e, a), b);
      }
    }
  }

  /** One more face adds its points to the list of its wheel only. */
  lemma WheelPointsStep(verts: seq<Vec>, faces: seq<Face>, wheels: set<int>, n: int, i: nat)
    requires VertsInRange(faces, |verts|) && i < |faces|
    ensures VertsInRange(faces[..i], |verts|) && VertsInRange(faces[..i + 1], |verts|)
    ensures WheelPoints(verts, faces[..i + 1], wheels, n)
      == WheelPoints(verts, faces[..i], wheels, n)
         + (if faces[i].wheelId == n && n in wheels then FacePoints(verts, faces[i].verts) else [])
  {
    assert faces[..i + 1][..i] == faces[..i];
  }

  /** The inner loop of `get_wheels_data`: `get_most_extreme_cmp_cur` on each vertex of one face. */
  method FoldFace(box: ExtremePoints, verts: seq<Vec>, ids: seq<int>) returns (r: ExtremePoints)
    requires forall k :: 0 <= k < |ids| ==> 0 <= ids[k] < |verts|
    ensures r == FoldPoints(box, FacePoints(verts, ids))
  {
    r := box;
    for k := 0 to |ids|
      invariant r == FoldPoints(box, FacePoints(verts, ids[..k]))
    {
      assert FacePoints(verts, ids[..k + 1]) == FacePoints(verts, ids[..k]) + [verts[ids[k]]];
      r := CmpCurPoint(r, verts[ids[k]]);
    }
    assert ids[..|ids|] == ids;
  }

  /** The faces before `i` index vertices in range too. */
  lemma PrefixInRange(verts: seq<Vec>, faces: seq<Face>, i: nat)
    requires VertsInRange(faces, |verts|) && i <= |faces|
    ensures VertsInRange(faces[..i], |verts|)
  {
    forall j, k | 0 <= j < i && 0 <= k < |faces[..i][j].verts| ensures 0 <= faces[..i][j].verts[k] < |verts| {
      assert faces[..i][j] == faces[j];
    }
  }

  /** `boxes` holds the box of every wheel number below `|boxes|` over the faces before `i`. */
  ghost predicate BoxesAt(verts: seq<Vec>, faces: seq<Face>, wheels: set<int>, boxes: seq<ExtremePoints>, i: nat)
    requires VertsInRange(faces, |verts|) && i <= |faces|
  {
    PrefixInRange(verts, faces, i);
    forall n :: 0 <= n < |boxes| ==> boxes[n] == WheelBox(verts, faces[..i], wheels, n)
  }

  /** Folding face `i` into the box of its wheel, if that box is kept, moves the boxes on by one face. */
  lemma BoxesStep(verts: seq<Vec>, faces: seq<Face>, wheels: set<int>, boxes: seq<ExtremePoints>, i: nat,
                  next: seq<ExtremePoints>)
    requires VertsInRange(faces, |verts|) && i < |faces|
    requires BoxesAt(verts, faces, wheels, boxes, i)
    requires var f := faces[i];
      if f.wheelId in wheels && 0 <= f.wheelId < |boxes|
      then next == boxes[f.wheelId := FoldPoints(boxes[f.wheelId], FacePoints(verts, f.verts))]
      else next == boxes
    ensures BoxesAt(verts, faces, wheels, next, i + 1)
  {
    var f := faces[i];
    forall n | 0 <= n < |next|
      ensures next[n] == WheelBox(verts, faces[..i + 1], wheels, n)
    {
      WheelPointsStep(verts, faces, wheels, n, i);
      var before := WheelPoints(verts, faces[..i], wheels, n);
      if f.wheelId == n && n in wheels {
        FoldAppend(DefaultExtremePoints, before, FacePoints(verts, f.verts));
        assert next[n] == FoldPoints(boxes[n], FacePoints(verts, f.verts));
      } else {
        assert before + [] == before;
        assert next[n] == boxes[n];
      }
    }
  }

  /** The face loop of `get_wheels_data`: one box per wheel number below `count`. */
  method WheelBoxes(verts: seq<Vec>, faces: seq<Face>, wheels: set<int>, count: nat) returns (boxes: seq<ExtremePoints>)
    requires VertsInRange(faces, |verts|)
    ensures |boxes| == count
    ensures forall n :: 0 <= n < count ==> boxes[n] == WheelBox(verts, faces, wheels, n)
  {
    boxes := seq(count, _ => DefaultExtremePoints);
    for i := 0 to |faces|
      invariant |boxes| == count
      invariant BoxesAt(verts, faces, wheels, boxes, i)
    {
      var f := faces[i];
      var next := boxes;
      if f.wheelId in wheels && 0 <= f.wheelId < count {
        var box := FoldFace(boxes[f.wheelId], verts, f.verts);
        next := boxes[f.wheelId := box];
      }
      BoxesStep(verts, faces, wheels, boxes, i, next);
      boxes := next;
    }
    assert faces[..|faces|] == faces;
  }

  /** Each vertex of each face of wheel `n` is among the points of that wheel. */
  lemma {:induction false} WheelPointsHas(verts: seq<Vec>, faces: seq<Face>, wheels: set<int>, n: int, i: nat, k: nat)
    requires VertsInRange(faces, |verts|)
    requires i < |faces| && k < |faces[i].verts| && faces[i].wheelId == n && n in wheels
    ensures verts[faces[i].verts[k]] in WheelPoints(verts, faces, wheels, n)
  {
    var init := faces[..|faces| - 1];
    WheelPointsStep(verts, faces, wheels, n, |faces| - 1);
    assert faces[..|faces|] == faces;
    if i < |faces| - 1 {
      assert init[i] == faces[i];
      WheelPointsHas(verts, init, wheels, n, i, k);
    } else {
      assert FacePoints(verts, faces[i].verts)[k] == verts[faces[i].verts[k]];
    }
  }

  /**
   * The record of a wheel encloses the wheel: every vertex of its faces lies
   * within half the width of the centre along x and within the radius along
   * z, and both are non-negative once the wheel has a face.
   */
  lemma WheelDataEnclosesWheel(verts: seq<Vec>, faces: seq<Face>, wheels: set<int>, n: int,
                               wheelsSteer: set<int>, wheelsGhost: set<int>)
    requires VertsInRange(faces, |verts|)
    ensures var d := WheelDataOf(n, WheelBox(verts, faces, wheels, n), wheelsSteer, wheelsGhost);
      d.wheelModelIndex == n
      && (d.steer == 1 <==> n in wheelsSteer) && (d.steer == 0 <==> n !in wheelsSteer)
      && (d.isGhost == 1 <==> n in wheelsGhost) && (d.isGhost == 0 <==> n !in wheelsGhost)
      && forall i, k :: 0 <= i < |faces| && 0 <= k < |faces[i].verts| && faces[i].wheelId == n && n in wheels ==>
        d.width >= 0.0 && d.radius >= 0.0
        && -d.width / 2.0 <= verts[faces[i].verts[k]][0] - d.r[0] <= d.width / 2.0
        && -d.radius <= verts[faces[i].verts[k]][2] - d.r[2] <= d.radius
  {
    var points := WheelPoints(verts, faces, wheels, n);
    var box := WheelBox(verts, faces, wheels, n);
    FoldPointsContains(DefaultExtremePoints, points);
    var d := WheelDataOf(n, box, wheelsSteer, wheelsGhost);
    forall i, k | 0 <= i < |faces| && 0 <= k < |faces[i].verts| && faces[i].wheelId == n && n in wheels
      ensures d.width >= 0.0 && d.radius >= 0.0
      ensures -d.width / 2.0 <= verts[faces[i].verts[k]][0] - d.r[0] <= d.width / 2.0
      ensures -d.radius <= verts[faces[i].verts[k]][2] - d.r[2] <= d.radius
    {
      WheelPointsHas(verts, faces, wheels, n, i, k);
      var p := verts[faces[i].verts[k]];
      var j :| 0 <= j < |points| && points[j] == p;
      assert box.min[0] <= p[0] <= box.max[0] && box.min[2] <= p[2] <= box.max[2];
    }
  }

  // ---------------------------------------------------------------------
  // Debris (`get_debris_data`)

  /**
   * The number of debris pieces written: all found debris models, but no
   * more than the bound models when those are present.
   */
  function DebrisNum(debrisCount: nat, boundCount: Option<nat>): (n: nat)
    ensures n <= debrisCount
    ensures boundCount.Some? ==> n <= boundCount.value
    ensures n == debrisCount || (boundCount.Some? && n == boundCount.value)
  {
    if boundCount.Some? && debrisCount > boundCount.value then boundCount.value else debrisCount
  }

  // ---------------------------------------------------------------------
  // Weapon slots (`get_weapons_data`)

  /** Bit `k` of the 32-bit mask is set. */
  predicate BitSet(mask: bv32, k: bv5)
  {
    mask & ((1 as bv32) << k) != 0
  }

  /** Setting bit `slot` of a mask adds that bit and keeps the others. */
  lemma SetBit(mask: bv32, slot: bv5, k: bv5)
    ensures BitSet(mask | ((1 as bv32) << slot), k) <==> BitSet(mask, k) || k == slot
    ensures mask | ((1 as bv32) << slot) != 0
  {
  }

  /** The mask with bit `k` set for every slot `k` marked in `slots` (`weapon_slots_existence`). */
  function SlotMaskOf(slots: seq<bool>): bv32
    requires |slots| <= 32
  {
    if slots == [] then 0
    else
      var init := SlotMaskOf(slots[..|slots| - 1]);
      if slots[|slots| - 1] then init | ((1 as bv32) << ((|slots| - 1) as bv5)) else init
  }

  /** One more unmarked slot leaves the mask as it is. */
  lemma SlotMaskPrefix(slots: seq<bool>, slot: nat)
    requires slot < |slots| <= 32 && !slots[slot]
    ensures SlotMaskOf(slots[..slot + 1]) == SlotMaskOf(slots[..slot])
  {
    assert slots[..slot + 1][..slot] == slots[..slot];
  }

  /** Marking slot `slot` after the first `slot` slots sets its bit. */
  lemma SlotMaskMark(slots: seq<bool>, slot: nat)
    requires slot < |slots| <= 32
    ensures SlotMaskOf(slots[slot := true][..slot + 1]) == SlotMaskOf(slots[..slot]) | ((1 as bv32) << (slot as bv5))
  {
    assert slots[slot := true][..slot + 1][..slot] == slots[..slot];
  }

  /** Bit `k` of the mask is set exactly when slot `k` is marked. */
  lemma {:induction false} SlotMaskBits(slots: seq<bool>, k: bv5)
    requires |slots| <= 32
    ensures BitSet(SlotMaskOf(slots), k) <==> (k as int) < |slots| && slots[k as int]
  {
    if slots != [] {
      var init := slots[..|slots| - 1];
      SlotMaskBits(init, k);
      if slots[|slots| - 1] {
        SetBit(SlotMaskOf(init), (|slots| - 1) as bv5, k);
      }
    }
  }

  /** The mask is 0 exactly when no slot is marked. */
  lemma {:induction false} SlotMaskZero(slots: seq<bool>)
    requires |slots| <= 32
    ensures SlotMaskOf(slots) == 0 <==> forall k :: 0 <= k < |slots| ==> !slots[k]
  {
    if slots != [] {
      var init := slots[..|slots| - 1];
      SlotMaskZero(init);
      if slots[|slots| - 1] {
        SetBit(SlotMaskOf(init), (|slots| - 1) as bv5, 0);
      } else {
        assert forall k :: 0 <= k < |init| ==> init[k] == slots[k];
      }
    }
  }

  // ---------------------------------------------------------------------
  // Inertia tensor override (`read_file_cfg_helper_overwrite_J`)

  /** Nine numbers as a 3x3 matrix, row by row. */
  function RowMajor(values: seq<real>): (m: Matrix)
    requires |values| >= 9
    ensures forall r, c :: 0 <= r < 3 && 0 <= c < 3 ==> m[r][c] == values[3 * r + c]
  {
    [values[0..3], values[3..6], values[6..9]]
  }

  /** A 3x3 matrix as nine numbers, row by row. */
  function Flat(m: Matrix): (values: seq<real>)
    ensures |values| == 9
    ensures forall r, c :: 0 <= r < 3 && 0 <= c < 3 ==> values[3 * r + c] == m[r][c]
  {
    var first: seq<real> := m[0];
    first + m[1] + m[2]
  }

  /** Reading nine numbers into a matrix and flattening it back gives the numbers again, and conversely. */
  lemma RowMajorRoundTrip(values: seq<real>, m: Matrix)
    ensures |values| == 9 ==> Flat(RowMajor(values)) == values
    ensures RowMajor(Flat(m)) == m
  {
    if |values| == 9 {
      var f := Flat(RowMajor(values));
      forall i | 0 <= i < 9 ensures f[i] == values[i] {
        assert i == 3 * (i / 3) + i % 3;
      }
    }
    var g := RowMajor(Flat(m));
    forall r | 0 <= r < 3 ensures g[r] == m[r] {
      VecExt(g[r], m[r]);
    }
  }

  // ---------------------------------------------------------------------
  // File sizes (`get_c3d_file_size`, `get_m3d_file_size`, `get_a3d_file_size`)

  /** The four counts of a polyhedron that its c3d size depends on. */
  datatype Counts = Counts(numVerts: int, numVertNorms: int, numFaces: int, numVertsPerPoly: int)

  /** The counts of `model`. */
  function CountsOf(model: Polyhedron): Counts
    reads model
  {
    Counts(model.numVerts, model.numVertNorms, model.numFaces, model.numVertsPerPoly)
  }

  /** The bytes of one polygon record with `vpp` vertices. */
  function PolygonSize(vpp: int): int
  {
    PolygonGeneralInfoSize + vpp * PolygonSizePerVertex + PolygonSortInfoSize
  }

  /** The bytes of a c3d block: header, vertices, normals and polygon records. */
  function C3dFileSize(c: Counts): int
  {
    C3dHeaderSize + c.numVerts * C3dVertexSize + c.numVertNorms * C3dNormalSize + c.numFaces * PolygonSize(c.numVertsPerPoly)
  }

  /** One more face costs one polygon record; one more vertex or normal costs one record of its own. */
  lemma C3dFileSizeGrows(c: Counts)
    ensures C3dFileSize(c.(numFaces := c.numFaces + 1)) == C3dFileSize(c) + PolygonSize(c.numVertsPerPoly)
    ensures C3dFileSize(c.(numVerts := c.numVerts + 1)) == C3dFileSize(c) + C3dVertexSize
    ensures C3dFileSize(c.(numVertNorms := c.numVertNorms + 1)) == C3dFileSize(c) + C3dNormalSize
  {
    calc {
      C3dFileSize(c.(numFaces := c.numFaces + 1));
      C3dHeaderSize + c.numVerts * C3dVertexSize + c.numVertNorms * C3dNormalSize
        + (c.numFaces + 1) * PolygonSize(c.numVertsPerPoly);
      C3dFileSize(c) + PolygonSize(c.numVertsPerPoly);
    }
  }

  /** The c3d sizes of the first models, added up. */
  function SumSizes(models: seq<Counts>): int
  {
    if models == [] then 0 else SumSizes(models[..|models| - 1]) + C3dFileSize(models[|models| - 1])
  }

  /** Every c3d block is at least a header, so `n` blocks of counts `>= 0` take `n` headers. */
  lemma {:induction false} SumSizesAtLeastHeaders(models: seq<Counts>)
    requires forall i :: 0 <= i < |models| ==>
      models[i].numVerts >= 0 && models[i].numVertNorms >= 0 && models[i].numFaces >= 0 && models[i].numVertsPerPoly >= 0
    ensures SumSizes(models) >= |models| * C3dHeaderSize
  {
    if models != [] {
      var init := models[..|models| - 1];
      SumSizesAtLeastHeaders(init);
      var c := models[|models| - 1];
      assert c.numVerts * C3dVertexSize >= 0 && c.numVertNorms * C3dNormalSize >= 0;
      assert PolygonSize(c.numVertsPerPoly) >= 0 && c.numFaces * PolygonSize(c.numVertsPerPoly) >= 0;
    }
  }

  /**
   * The c3d sizes of the steering wheels among the first `n` wheel records,
   * or `None` when one of them has no model (`unordered_map::at` throws).
   */
  function SteerWheelsSize(n: nat, wheelData: seq<WheelData>, models: map<int, Counts>): Option<int>
    requires n <= |wheelData|
  {
    if n == 0 then Some(0)
    else
      var prev := SteerWheelsSize(n - 1, wheelData, models);
      if wheelData[n - 1].steer == 0 then prev
      else if n - 1 !in models || prev.None? then None
      else Some(prev.value + C3dFileSize(models[n - 1]))
  }

  /** The wheel sizes are missing exactly when some steering wheel has no model. */
  lemma {:induction false} SteerWheelsSizeMissing(n: nat, wheelData: seq<WheelData>, models: map<int, Counts>)
    requires n <= |wheelData|
    ensures SteerWheelsSize(n, wheelData, models).None?
      <==> exists i :: 0 <= i < n && wheelData[i].steer != 0 && i !in models
  {
    if n > 0 {
      SteerWheelsSizeMissing(n - 1, wheelData, models);
      if SteerWheelsSize(n, wheelData, models).None? && SteerWheelsSize(n - 1, wheelData, models).Some? {
        assert wheelData[n - 1].steer != 0 && n - 1 !in models;
      }
    }
  }

  /** The models of the non-steering wheels do not count. */
  lemma {:induction false} SteerWheelsSizeNonSteer(n: nat, wheelData: seq<WheelData>, models: map<int, Counts>, models': map<int, Counts>)
    requires n <= |wheelData|
    requires forall i :: 0 <= i < n && wheelData[i].steer != 0 ==> (i in models <==> i in models') && (i in models ==> models[i] == models'[i])
    ensures SteerWheelsSize(n, wheelData, models) == SteerWheelsSize(n, wheelData, models')
  {
    if n > 0 {
      SteerWheelsSizeNonSteer(n - 1, wheelData, models, models');
    }
  }

  /** The bytes of an m3d file, or `None` when a steering wheel model is missing. */
  function M3dSize(nWheels: nat, mask: bv32, wheelData: seq<WheelData>, main: Counts, mainBound: Option<Counts>,
                   wheelsModels: Option<map<int, Counts>>, nDebris: nat,
                   debris: Option<seq<Counts>>, debrisBound: Option<seq<Counts>>): Option<int>
    requires nWheels <= |wheelData|
    requires nDebris > 0 && debris.Some? ==> nDebris <= |debris.value|
    requires nDebris > 0 && debrisBound.Some? ==> nDebris <= |debrisBound.value|
  {
    var wheels := if nWheels > 0 && wheelsModels.Some? then SteerWheelsSize(nWheels, wheelData, wheelsModels.value) else Some(0);
    if wheels.None? then None
    else Some(FixedSize(nWheels, mask, main, mainBound) + wheels.value
              + DebrisSize(nDebris, debris) + DebrisSize(nDebris, debrisBound))
  }

  /** The part of an m3d file that does not depend on other models: header, wheel records, slots, main model and bound. */
  function FixedSize(nWheels: nat, mask: bv32, main: Counts, mainBound: Option<Counts>): int
  {
    M3dHeaderSize + nWheels * M3dWheelSize + SlotsExistenceSize
      + (if mask != 0 then MaxSlots * SlotDataSize else 0)
      + C3dFileSize(main) + (if mainBound.Some? then C3dFileSize(mainBound.value) else 0)
  }

  /** The c3d blocks of the first `nDebris` debris pieces, when the pieces are there. */
  function DebrisSize(nDebris: nat, pieces: Option<seq<Counts>>): int
    requires nDebris > 0 && pieces.Some? ==> nDebris <= |pieces.value|
  {
    if nDebris > 0 && pieces.Some? then SumSizes(pieces.value[..nDebris]) else 0
  }

  /** The slot data is present exactly when some slot exists, and then takes `max_slots` records. */
  lemma M3dSizeSlotData(nWheels: nat, mask: bv32, wheelData: seq<WheelData>, main: Counts, mainBound: Option<Counts>,
                        wheelsModels: Option<map<int, Counts>>, nDebris: nat,
                        debris: Option<seq<Counts>>, debrisBound: Option<seq<Counts>>)
    requires nWheels <= |wheelData|
    requires nDebris > 0 && debris.Some? ==> nDebris <= |debris.value|
    requires nDebris > 0 && debrisBound.Some? ==> nDebris <= |debrisBound.value|
    requires mask != 0
    ensures var withSlots := M3dSize(nWheels, mask, wheelData, main, mainBound, wheelsModels, nDebris, debris, debrisBound);
      var without := M3dSize(nWheels, 0, wheelData, main, mainBound, wheelsModels, nDebris, debris, debrisBound);
      withSlots.Some? == without.Some? && (withSlots.Some? ==> withSlots.value == without.value + MaxSlots * SlotDataSize)
  {
  }

  /** The loop over the wheel records of `get_m3d_file_size`. */
  method SteerWheelsSizeOf(n: nat, wheelData: seq<WheelData>, models: map<int, Counts>) returns (r: Option<int>)
    requires n <= |wheelData|
    ensures r == SteerWheelsSize(n, wheelData, models)
  {
    var size := 0;
    for i := 0 to n
      invariant SteerWheelsSize(i, wheelData, models) == Some(size)
    {
      if wheelData[i].steer != 0 {
        if i !in models {
          SteerWheelsSizeMissing(n, wheelData, models);
          return None;
        }
        size := size + C3dFileSize(models[i]);
      }
    }
    return Some(size);
  }

  /** The loops over the debris pieces (and their bounds) of `get_m3d_file_size`. */
  method PiecesSize(pieces: seq<Counts>, n: nat) returns (size: int)
    requires n <= |pieces|
    ensures size == SumSizes(pieces[..n])
  {
    size := 0;
    for i := 0 to n
      invariant size == SumSizes(pieces[..i])
    {
      assert pieces[..i + 1][..i] == pieces[..i];
      size := size + C3dFileSize(pieces[i]);
    }
  }

  /** The a3d size: the header and the c3d blocks of the first `nModels` models. */
  function A3dSize(nModels: nat, models: seq<Counts>): int
    requires nModels <= |models|
  {
    A3dHeaderSize + SumSizes(models[..nModels])
  }

  /** One more animation frame adds its c3d block. */
  lemma A3dSizeStep(nModels: nat, models: seq<Counts>)
    requires nModels < |models|
    ensures A3dSize(nModels + 1, models) == A3dSize(nModels, models) + C3dFileSize(models[nModels])
  {
    assert models[..nModels + 1][..nModels] == models[..nModels];
  }

  // ---------------------------------------------------------------------
  // Polygon records (`write_polygon`)

  /** A c3d polygon record: header fields and the (vertex, normal) index pairs as written. */
  datatype PolygonRecord = PolygonRecord(numVerts: int, sortInfo: int, colorId: nat, colorShift: nat,
                                         norm: Vec, mediumVert: Vec, pairs: seq<(int, int)>)

  /**
   * `write_polygon`: the header fields, then the index pairs from the last
   * slot to the first. The medium vertex is computed by `get_medium_vert`,
   * which is not part of this model, and comes in as `mediumVert`.
   */
  method WritePolygon(poly: Face, mediumVert: Vec) returns (rec: PolygonRecord)
    requires 0 <= poly.numVerts <= |poly.verts| && poly.numVerts <= |poly.vertNorms|
    ensures rec.numVerts == poly.numVerts && rec.sortInfo == DefaultSortInfo && rec.colorId == poly.colorId
    ensures rec.colorShift == DefaultColorShift && rec.norm == poly.norm && rec.mediumVert == mediumVert
    ensures |rec.pairs| == poly.numVerts
    ensures forall i :: 0 <= i < poly.numVerts ==>
      rec.pairs[i] == (poly.verts[poly.numVerts - 1 - i], poly.vertNorms[poly.numVerts - 1 - i])
  {
    var pairs: seq<(int, int)> := [];
    var r := poly.numVerts - 1;
    for i := 0 to poly.numVerts
      invariant r == poly.numVerts - 1 - i
      invariant |pairs| == i
      invariant forall j :: 0 <= j < i ==> pairs[j] == (poly.verts[poly.numVerts - 1 - j], poly.vertNorms[poly.numVerts - 1 - j])
    {
      pairs := pairs + [(poly.verts[r], poly.vertNorms[r])];
      r := r - 1;
    }
    rec := PolygonRecord(poly.numVerts, DefaultSortInfo, poly.colorId, DefaultColorShift, poly.norm, mediumVert, pairs);
  }

  // ---------------------------------------------------------------------
  // The converter object

  /** The fields of `wavefront_obj_to_m3d_model` these steps fill in. */
  class ObjToM3dModel {
    var nWheels: nat
    var nDebris: nat
    var nModels: nat
    var curWheelData: seq<WheelData>
    var weaponSlotsExistence: bv32
    var slotExists: seq<bool>

    /**
     * `remove_polygons`: the erased faces go, the vertices and normals no
     * face uses any more go, every index is shifted to the compacted lists
     * and the counts follow. The new `faces[0]` is read, so one face must
     * survive.
     */
    method RemovePolygons(model: Polyhedron, modelType: RemovePolygonsModel)
      modifies model`faces, model`verts, model`vertNorms, model`numFaces, model`numVerts
      modifies model`numVertNorms, model`numVertTotal
      requires model.numVerts == |model.verts| && model.numVertNorms == |model.vertNorms| && model.numVertsPerPoly >= 0
      requires Indexed(model.faces, model.numVertsPerPoly, |model.verts|, |model.vertNorms|)
      requires Count(model.faces, Survives(modelType, model.wheelsSteer, model.wheelsGhost)) > 0
      ensures MeshRemoved(old(model.verts), old(model.vertNorms), old(model.faces), model.numVertsPerPoly,
                          modelType, model.wheelsSteer, model.wheelsGhost, model.verts, model.vertNorms, model.faces)
      ensures |model.faces| > 0 && model.numFaces == |model.faces|
      ensures model.numVerts == |model.verts| && model.numVertNorms == |model.vertNorms|
      ensures model.numVertTotal == model.numFaces * model.faces[0].numVerts
    {
      var verts, vertNorms, faces, vpp := model.verts, model.vertNorms, model.faces, model.numVertsPerPoly;
      var steer, ghosts := model.wheelsSteer, model.wheelsGhost;
      var newVerts, newNorms, newFaces := RemovePolygonsOf(verts, vertNorms, faces, vpp, modelType, steer, ghosts);
      StoreMesh(model, newVerts, newNorms, newFaces);
    }

    /** The compacted mesh written back into the model, with the counts that follow from it. */
    method StoreMesh(model: Polyhedron, verts: seq<Vec>, vertNorms: seq<Vec>, faces: seq<Face>)
      requires |faces| > 0
      modifies model`faces, model`verts, model`vertNorms, model`numFaces, model`numVerts
      modifies model`numVertNorms, model`numVertTotal
      ensures model.verts == verts && model.vertNorms == vertNorms && model.faces == faces
      ensures model.numFaces == |faces| && model.numVerts == |verts| && model.numVertNorms == |vertNorms|
      ensures model.numVertTotal == |faces| * faces[0].numVerts
    {
      model.faces, model.numFaces := faces, |faces|;
      model.verts, model.vertNorms := verts, vertNorms;
      model.numVerts, model.numVertNorms := |verts|, |vertNorms|;
      model.numVertTotal := |faces| * faces[0].numVerts;
    }

    /**
     * `get_wheels_data`: one record per wheel number below the number of
     * wheels, read off the box of that wheel's vertices.
     */
    method GetWheelsData(mainModel: Polyhedron)
      modifies this`nWheels, this`curWheelData
      requires VertsInRange(mainModel.faces, |mainModel.verts|)
      ensures nWheels == |mainModel.wheels| && |curWheelData| == nWheels
      ensures forall n :: 0 <= n < nWheels ==>
        curWheelData[n] == WheelDataOf(n, WheelBox(mainModel.verts, mainModel.faces, mainModel.wheels, n),
                                       mainModel.wheelsSteer, mainModel.wheelsGhost)
    {
      var count := |mainModel.wheels|;
      var steer, ghosts := mainModel.wheelsSteer, mainModel.wheelsGhost;
      var boxes := WheelBoxes(mainModel.verts, mainModel.faces, mainModel.wheels, count);
      nWheels := count;
      curWheelData := seq(count, n requires 0 <= n < count => WheelDataOf(n, boxes[n], steer, ghosts));
    }

    /** `get_debris_data`: the number of debris pieces written. */
    method GetDebrisData(debrisCount: nat, boundCount: Option<nat>)
      modifies this`nDebris
      ensures nDebris == DebrisNum(debrisCount, boundCount)
    {
      var debrisNum := debrisCount;
      if boundCount.Some? {
        if debrisNum > boundCount.value {
          debrisNum := boundCount.value;
        }
      }
      nDebris := debrisNum;
    }

    /**
     * `get_weapons_data`, bitmask part. Without an attachment point model no
     * slot exists. Otherwise slot `k` exists when `get_ref_points_for_part_of_model`
     * found its three reference points (`found[k]`); such a slot must also
     * pass the rotation checks (`unrotated[k]`, computed with `atan2` and
     * rotations that are not part of this model), else the step throws and
     * `ok` is false.
     */
    method GetWeaponsData(hasAttachmentPoint: bool, found: seq<bool>, unrotated: seq<bool>) returns (ok: bool)
      modifies this`weaponSlotsExistence, this`slotExists
      requires |found| == MaxSlots && |unrotated| == MaxSlots
      ensures ok <==> !hasAttachmentPoint || forall k :: 0 <= k < MaxSlots && found[k] ==> unrotated[k]
      ensures ok ==> |slotExists| == MaxSlots && weaponSlotsExistence == SlotMaskOf(slotExists)
      ensures ok ==> forall k :: 0 <= k < MaxSlots ==> (slotExists[k] <==> hasAttachmentPoint && found[k])
    {
      var mask: bv32, slots := 0, seq(MaxSlots, _ => false);
      ok := true;
      if !hasAttachmentPoint {
        SlotMaskZero(slots);
      } else {
        for slot := 0 to MaxSlots
          invariant |slots| == MaxSlots
          invariant forall k :: 0 <= k < MaxSlots ==> (slots[k] <==> k < slot && found[k])
          invariant mask == SlotMaskOf(slots[..slot])
          invariant ok <==> forall k :: 0 <= k < slot && found[k] ==> unrotated[k]
        {
          SlotMaskPrefix(slots, slot);
          if found[slot] {
            SlotMaskMark(slots, slot);
            mask := mask | ((1 as bv32) << (slot as bv5));
            slots := slots[slot := true];
            if !unrotated[slot] {
              ok := false;
              break;
            }
          }
        }
        assert ok ==> slots[..MaxSlots] == slots;
      }
      weaponSlotsExistence, slotExists := mask, slots;
    }

    /** `read_file_cfg_helper_overwrite_volume`: a volume from the config, marked as such. */
    method OverwriteVolume(model: Polyhedron, customVolume: real)
      modifies model`volume, model`volumeOverwritten
      ensures model.volume == customVolume && model.volumeOverwritten
    {
      model.volumeOverwritten := true;
      model.volume := customVolume;
    }

    /** `read_file_cfg_helper_overwrite_J`: the tensor filled row by row from the first nine values. */
    method OverwriteJ(model: Polyhedron, customJ: seq<real>)
      modifies model`J, model`jOverwritten
      requires |customJ| >= JCfgNumOfValues
      ensures model.J == RowMajor(customJ) && model.jOverwritten
    {
      model.jOverwritten := true;
      var curCustomJEl := 0;
      for row := 0 to 3
        invariant curCustomJEl == 3 * row && model.jOverwritten
        invariant forall r, c :: 0 <= r < row && 0 <= c < 3 ==> model.J[r][c] == customJ[3 * r + c]
      {
        for el := 0 to 3
          invariant curCustomJEl == 3 * row + el && model.jOverwritten
          invariant forall r, c :: 0 <= r < row && 0 <= c < 3 ==> model.J[r][c] == customJ[3 * r + c]
          invariant forall c :: 0 <= c < el ==> model.J[row][c] == customJ[3 * row + c]
        {
          model.J := model.J[row := model.J[row][el := customJ[curCustomJEl]]];
          curCustomJEl := curCustomJEl + 1;
        }
      }
      var m := RowMajor(customJ);
      forall r | 0 <= r < 3 ensures model.J[r] == m[r] {
        VecExt(model.J[r], m[r]);
      }
    }

    /**
     * The caller's rule in `read_file_cfg_m3d`: the tensor is overridden only
     * when exactly nine values were given; otherwise a message is printed and
     * nothing changes.
     */
    method ApplyCustomJ(model: Polyhedron, values: seq<real>)
      modifies model`J, model`jOverwritten
      ensures |values| == JCfgNumOfValues ==> model.J == RowMajor(values) && model.jOverwritten
      ensures |values| != JCfgNumOfValues ==> model.J == old(model.J) && model.jOverwritten == old(model.jOverwritten)
    {
      if |values| == JCfgNumOfValues {
        OverwriteJ(model, values);
      }
    }

    /**
     * `get_m3d_file_size`: header, wheel records, slot data when a slot
     * exists, the main model and its bound, one c3d per steering wheel and
     * the debris pieces with their bounds. `None` when a steering wheel has
     * no model.
     */
    method M3dFileSize(main: Counts, mainBound: Option<Counts>, wheelsModels: Option<map<int, Counts>>,
                       debris: Option<seq<Counts>>, debrisBound: Option<seq<Counts>>) returns (r: Option<int>)
      requires nWheels <= |curWheelData|
      requires nDebris > 0 && debris.Some? ==> nDebris <= |debris.value|
      requires nDebris > 0 && debrisBound.Some? ==> nDebris <= |debrisBound.value|
      ensures r == M3dSize(nWheels, weaponSlotsExistence, curWheelData, main, mainBound, wheelsModels, nDebris, debris, debrisBound)
    {
      var fixed := FixedSize(nWheels, weaponSlotsExistence, main, mainBound);
      var wheels := Some(0);
      if nWheels > 0 && wheelsModels.Some? {
        wheels := SteerWheelsSizeOf(nWheels, curWheelData, wheelsModels.value);
      }
      var piecesSize := 0;
      if nDebris > 0 && debris.Some? {
        piecesSize := PiecesSize(debris.value, nDebris);
      }
      assert piecesSize == DebrisSize(nDebris, debris);
      var boundsSize := 0;
      if nDebris > 0 && debrisBound.Some? {
        boundsSize := PiecesSize(debrisBound.value, nDebris);
      }
      assert boundsSize == DebrisSize(nDebris, debrisBound);
      if wheels.None? {
        return None;
      }
      return Some(fixed + wheels.value + piecesSize + boundsSize);
    }

    /** `get_a3d_file_size`: the header and one c3d block per animation frame. */
    method A3dFileSize(models: seq<Counts>) returns (size: int)
      requires nModels <= |models|
      ensures size == A3dSize(nModels, models)
    {
      size := A3dHeaderSize;
      for curModel := 0 to nModels
        invariant size == A3dSize(curModel, models)
      {
        A3dSizeStep(curModel, models);
        size := size + C3dFileSize(models[curModel]);
      }
    }
  }
}
