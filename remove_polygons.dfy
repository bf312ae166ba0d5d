/**
 * `wavefront_obj_to_m3d_model::remove_polygons` and its helpers: the faces
 * the game does not draw as part of a model (attachment point, centre of
 * mass, weapons, ghost and, for mechos, steering wheels) are erased, then
 * the vertices and normals no remaining face uses are dropped and every
 * face index is shifted down through a prefix-count map.
 */
module RemovePolygons {
  import opened Common
  import opened Geometry

  /** `c3d::color::string_to_id::attachment_point`, a header constant that is not part of this model. */
  const AttachmentPointColor: nat
  /** `c3d::color::string_to_id::center_of_mass`, a header constant that is not part of this model. */
  const CenterOfMassColor: nat
  /** `volInt::invalid::weapon_id`, a header constant that is not part of this model. */
  const InvalidWeaponId: int

  /** `remove_polygons_model`: the main mechos model, or any other model. */
  datatype RemovePolygonsModel = Mechos | NonMechos

  // ---------------------------------------------------------------------
  // Face erasure

  /**
   * The `remove_if` predicates of `remove_polygons_helper_erase_mechos` and
   * `remove_polygons_helper_erase_non_mechos`: only the first also erases
   * steering wheels.
   */
  predicate Erased(f: Face, modelType: RemovePolygonsModel, wheelsSteer: set<int>, wheelsGhost: set<int>)
  {
    f.colorId == AttachmentPointColor
    || f.colorId == CenterOfMassColor
    || f.weaponId != InvalidWeaponId
    || (modelType == Mechos && f.wheelId in wheelsSteer)
    || f.wheelId in wheelsGhost
  }

  /** The faces `remove_if` keeps. */
  function Survives(modelType: RemovePolygonsModel, wheelsSteer: set<int>, wheelsGhost: set<int>): Face -> bool
  {
    f => !Erased(f, modelType, wheelsSteer, wheelsGhost)
  }

  /**
   * `faces.erase(remove_if(...))`: exactly the faces that are not erased
   * survive, in their original order.
   */
  method EraseFaces(faces: seq<Face>, modelType: RemovePolygonsModel, wheelsSteer: set<int>, wheelsGhost: set<int>)
    returns (kept: seq<Face>)
    ensures kept == Filter(faces, Survives(modelType, wheelsSteer, wheelsGhost))
    ensures forall f :: f in kept <==> f in faces && !Erased(f, modelType, wheelsSteer, wheelsGhost)
  {
    var p := Survives(modelType, wheelsSteer, wheelsGhost);
    kept := [];
    for i := 0 to |faces|
      invariant kept == Filter(faces[..i], p)
    {
      FilterStep(faces, p, i);
      if !Erased(faces[i], modelType, wheelsSteer, wheelsGhost) {
        kept := kept + [faces[i]];
      }
    }
    assert faces[..|faces|] == faces;
    forall f
      ensures f in kept <==> f in faces && !Erased(f, modelType, wheelsSteer, wheelsGhost)
    {
      FilterMembers(faces, p, f);
    }
  }

  // ---------------------------------------------------------------------
  // Index compaction

  /** Number of indices below `n` that are not in `keep`. */
  function Skipped(keep: set<int>, n: nat): (c: nat)
    ensures c <= n
  {
    if n == 0 then 0 else Skipped(keep, n - 1) + (if n - 1 in keep then 0 else 1)
  }

  /** Number of indices below `n` that are in `keep`. */
  function KeptBelow(keep: set<int>, n: nat): nat
  {
    if n == 0 then 0 else KeptBelow(keep, n - 1) + (if n - 1 in keep then 1 else 0)
  }

  /** Every index below `n` is either kept or skipped. */
  lemma {:induction false} KeptPlusSkipped(keep: set<int>, n: nat)
    ensures KeptBelow(keep, n) + Skipped(keep, n) == n
  {
    if n > 0 {
      KeptPlusSkipped(keep, n - 1);
    }
  }

  /** The skip count never decreases. */
  lemma {:induction false} SkippedMonotone(keep: set<int>, m: nat, n: nat)
    requires m <= n
    ensures Skipped(keep, m) <= Skipped(keep, n)
  {
    if m < n {
      SkippedMonotone(keep, m, n - 1);
    }
  }

  /**
   * `remove_polygons_helper_create_ind_change_map`: entry `i` counts the
   * indices up to and including `i` that are not kept. The map never
   * decreases, and a kept index minus its entry is the number of kept
   * indices below it, which is its position after compaction.
   */
  method IndChangeMap(size: nat, keep: set<int>) returns (ret: seq<nat>)
    ensures |ret| == size
    ensures forall i :: 0 <= i < size ==> ret[i] == Skipped(keep, i + 1)
    ensures forall i, j :: 0 <= i <= j < size ==> ret[i] <= ret[j]
    ensures forall i :: 0 <= i < size && i in keep ==> i - ret[i] == KeptBelow(keep, i)
  {
    ret := seq(size, _ => 0);
    var numberSkip := 0;
    for curVert := 0 to size
      invariant |ret| == size && numberSkip == Skipped(keep, curVert)
      invariant forall i :: 0 <= i < curVert ==> ret[i] == Skipped(keep, i + 1)
    {
      if curVert !in keep {
        numberSkip := numberSkip + 1;
      }
      ret := ret[curVert := numberSkip];
    }
    forall i, j | 0 <= i <= j < size
      ensures ret[i] <= ret[j]
    {
      SkippedMonotone(keep, i + 1, j + 1);
    }
    forall i | 0 <= i < size && i in keep
      ensures i - ret[i] == KeptBelow(keep, i)
    {
      KeptPlusSkipped(keep, i);
    }
  }

  /** The elements of `s` whose index is in `keep`, in their original order. */
  function Compact<T>(s: seq<T>, keep: set<int>): (r: seq<T>)
    ensures |r| == |s| - Skipped(keep, |s|)
  {
    if s == [] then []
    else Compact(s[..|s| - 1], keep) + (if |s| - 1 in keep then [s[|s| - 1]] else [])
  }

  /** Compacting a prefix gives a prefix of the compacted sequence. */
  lemma {:induction false} CompactPrefix<T>(s: seq<T>, keep: set<int>, m: nat)
    requires m <= |s|
    ensures Compact(s[..m], keep) <= Compact(s, keep)
  {
    if m < |s| {
      var init := s[..|s| - 1];
      CompactPrefix(init, keep, m);
      assert init[..m] == s[..m];
    } else {
      assert s[..m] == s;
    }
  }

  /** A kept element moves down by the number of skipped indices below it. */
  lemma CompactAt<T>(s: seq<T>, keep: set<int>, i: nat)
    requires i < |s| && i in keep
    ensures i - Skipped(keep, i) < |Compact(s, keep)|
    ensures Compact(s, keep)[i - Skipped(keep, i)] == s[i]
  {
    var pre := s[..i + 1];
    assert pre[..i] == s[..i];
    assert Compact(pre, keep) == Compact(s[..i], keep) + [s[i]];
    CompactPrefix(s, keep, i + 1);
  }

  /** Every position of the compacted sequence holds some kept element. */
  lemma {:induction false} CompactOnto<T>(s: seq<T>, keep: set<int>, j: nat)
    requires j < |Compact(s, keep)|
    ensures exists i :: 0 <= i < |s| && i in keep && i - Skipped(keep, i) == j
  {
    var n := |s| - 1;
    var init := s[..n];
    if j < |Compact(init, keep)| {
      CompactOnto(init, keep, j);
      var i :| 0 <= i < |init| && i in keep && i - Skipped(keep, i) == j;
      assert i < |s|;
    } else {
      assert n in keep && n - Skipped(keep, n) == j;
    }
  }

  /**
   * `verts.erase(remove_if(...))` with the running counter: the elements whose
   * index is kept, in order.
   */
  method CompactOf<T>(s: seq<T>, keep: set<int>) returns (r: seq<T>)
    ensures r == Compact(s, keep)
  {
    r := [];
    for curN := 0 to |s|
      invariant r == Compact(s[..curN], keep)
    {
      assert s[..curN + 1][..curN] == s[..curN];
      if curN in keep {
        r := r + [s[curN]];
      }
    }
    assert s[..|s|] == s;
  }

  // ---------------------------------------------------------------------
  // remove_polygons

  /** Every normal index any slot of any face holds. */
  function NormalsOfFaces(faces: seq<Face>): (ids: set<int>)
    ensures forall f, k :: 0 <= f < |faces| && 0 <= k < |faces[f].vertNorms| ==> faces[f].vertNorms[k] in ids
    ensures forall v :: v in ids ==>
      exists f, k :: 0 <= f < |faces| && 0 <= k < |faces[f].vertNorms| && faces[f].vertNorms[k] == v
  {
    set f, k | 0 <= f < |faces| && 0 <= k < |faces[f].vertNorms| :: faces[f].vertNorms[k]
  }

  /**
   * What `remove_polygons` assumes of its model: every face has
   * `numVertsPerPoly` vertex and normal slots, naming existing vertices and
   * normals.
   */
  predicate Indexed(faces: seq<Face>, vpp: nat, vertexCount: nat, normalCount: nat)
  {
    forall i :: 0 <= i < |faces| ==>
      |faces[i].verts| == vpp && |faces[i].vertNorms| == vpp
      && (forall k :: 0 <= k < vpp ==> 0 <= faces[i].verts[k] < vertexCount)
      && (forall k :: 0 <= k < vpp ==> 0 <= faces[i].vertNorms[k] < normalCount)
  }

  /** Erasing faces keeps the rest indexed. */
  lemma KeptIndexed(faces: seq<Face>, p: Face -> bool, vpp: nat, vertexCount: nat, normalCount: nat)
    requires Indexed(faces, vpp, vertexCount, normalCount)
    ensures Indexed(Filter(faces, p), vpp, vertexCount, normalCount)
  {
    var kept := Filter(faces, p);
    forall i | 0 <= i < |kept|
      ensures kept[i] in faces
    {
      FilterMembers(faces, p, kept[i]);
    }
  }

  /** The loop that fills `verts_to_keep` and `norms_to_keep`. */
  method KeepSets(faces: seq<Face>, vpp: nat) returns (vertsToKeep: set<int>, normsToKeep: set<int>)
    requires forall i :: 0 <= i < |faces| ==> |faces[i].verts| == vpp && |faces[i].vertNorms| == vpp
    ensures vertsToKeep == VerticesOfFaces(faces) && normsToKeep == NormalsOfFaces(faces)
  {
    vertsToKeep, normsToKeep := {}, {};
    for curPoly := 0 to |faces|
      invariant vertsToKeep == VerticesOfFaces(faces[..curPoly])
      invariant normsToKeep == NormalsOfFaces(faces[..curPoly])
    {
      var f := faces[curPoly];
      ghost var vs, ns := vertsToKeep, normsToKeep;
      for curVert := 0 to vpp
        invariant vertsToKeep == vs + set k | 0 <= k < curVert :: f.verts[k]
        invariant normsToKeep == ns + set k | 0 <= k < curVert :: f.vertNorms[k]
      {
        vertsToKeep := vertsToKeep + {f.verts[curVert]};
        normsToKeep := normsToKeep + {f.vertNorms[curVert]};
      }
      AddFaceIndices(faces, curPoly, vpp);
    }
    assert faces[..|faces|] == faces;
  }

  /** The indices of one more face join the sets. */
  lemma AddFaceIndices(faces: seq<Face>, p: nat, vpp: nat)
    requires p < |faces| && |faces[p].verts| == vpp && |faces[p].vertNorms| == vpp
    ensures VerticesOfFaces(faces[..p + 1]) == VerticesOfFaces(faces[..p]) + set k | 0 <= k < vpp :: faces[p].verts[k]
    ensures NormalsOfFaces(faces[..p + 1]) == NormalsOfFaces(faces[..p]) + set k | 0 <= k < vpp :: faces[p].vertNorms[k]
  {
    var pre, pre1 := faces[..p], faces[..p + 1];
    assert forall f :: 0 <= f < p ==> pre1[f] == pre[f];
    assert pre1[p] == faces[p];
    forall v | v in VerticesOfFaces(pre1)
      ensures v in VerticesOfFaces(pre) || v in set k | 0 <= k < vpp :: faces[p].verts[k]
    {
      var f, k :| 0 <= f < |pre1| && 0 <= k < |pre1[f].verts| && pre1[f].verts[k] == v;
      if f < p {
        assert pre[f].verts[k] == v;
      }
    }
  }

  /** `vert_ind -= change_map[vert_ind]` over one index list. */
  method ShiftIndices(ids: seq<int>, changeMap: seq<nat>) returns (r: seq<int>)
    requires forall k :: 0 <= k < |ids| ==> 0 <= ids[k] < |changeMap|
    ensures |r| == |ids|
    ensures forall k :: 0 <= k < |ids| ==> r[k] == ids[k] - changeMap[ids[k]]
  {
    r := ids;
    for k := 0 to |ids|
      invariant |r| == |ids|
      invariant forall m :: 0 <= m < k ==> r[m] == ids[m] - changeMap[ids[m]]
      invariant forall m :: k <= m < |ids| ==> r[m] == ids[m]
    {
      r := r[k := r[k] - changeMap[r[k]]];
    }
  }

  /** A shifted index of a kept element names the same element of the compacted sequence. */
  lemma ShiftedTarget<T>(s: seq<T>, keep: set<int>, changeMap: seq<nat>, i: int)
    requires |changeMap| == |s| && forall m :: 0 <= m < |s| ==> changeMap[m] == Skipped(keep, m + 1)
    requires 0 <= i < |s| && i in keep
    ensures 0 <= i - changeMap[i] < |Compact(s, keep)|
    ensures Compact(s, keep)[i - changeMap[i]] == s[i]
  {
    CompactAt(s, keep, i);
  }

  /**
   * `face` after `remove_polygons`, against the face `before` it came from:
   * the same tags, and every vertex and normal slot naming a slot of the new
   * arrays that holds the same coordinates as before.
   */
  ghost predicate SameFaceAt(verts: seq<Vec>, vertNorms: seq<Vec>, before: Face, vpp: nat,
                             newVerts: seq<Vec>, newNorms: seq<Vec>, face: Face)
    requires |before.verts| == vpp && |before.vertNorms| == vpp
    requires forall k :: 0 <= k < vpp ==> 0 <= before.verts[k] < |verts| && 0 <= before.vertNorms[k] < |vertNorms|
  {
    SameTags(face, before)
    && |face.verts| == vpp && |face.vertNorms| == vpp
    && (forall k :: 0 <= k < vpp ==>
          0 <= face.verts[k] < |newVerts| && newVerts[face.verts[k]] == verts[before.verts[k]])
    && (forall k :: 0 <= k < vpp ==>
          0 <= face.vertNorms[k] < |newNorms| && newNorms[face.vertNorms[k]] == vertNorms[before.vertNorms[k]])
  }

  /**
   * The outcome of `remove_polygons` on the values of a model: the surviving
   * faces, in order, each pointing at its old coordinates through new
   * indices; the vertices and normals in use, in their old order; and no
   * vertex or normal that no face refers to.
   */
  ghost predicate Removed(verts: seq<Vec>, vertNorms: seq<Vec>, faces: seq<Face>, vpp: nat,
                          modelType: RemovePolygonsModel, wheelsSteer: set<int>, wheelsGhost: set<int>,
                          newVerts: seq<Vec>, newNorms: seq<Vec>, newFaces: seq<Face>)
    requires Indexed(faces, vpp, |verts|, |vertNorms|)
  {
    var kept := Filter(faces, Survives(modelType, wheelsSteer, wheelsGhost));
    KeptIndexed(faces, Survives(modelType, wheelsSteer, wheelsGhost), vpp, |verts|, |vertNorms|);
    |newFaces| == |kept|
    && (forall i :: 0 <= i < |kept| ==> SameFaceAt(verts, vertNorms, kept[i], vpp, newVerts, newNorms, newFaces[i]))
    && newVerts == Compact(verts, VerticesOfFaces(kept))
    && newNorms == Compact(vertNorms, NormalsOfFaces(kept))
    && (forall j :: 0 <= j < |newVerts| ==> j in VerticesOfFaces(newFaces))
    && (forall j :: 0 <= j < |newNorms| ==> j in NormalsOfFaces(newFaces))
  }

  /** `newIds` is `ids` with every index shifted down through `changeMap`. */
  predicate SlotsShifted(ids: seq<int>, newIds: seq<int>, changeMap: seq<nat>)
  {
    |newIds| == |ids|
    && forall k :: 0 <= k < |ids| ==> 0 <= ids[k] < |changeMap| && newIds[k] == ids[k] - changeMap[ids[k]]
  }

  /** `g` is `f` with every slot shifted down through the change maps (the last loop of `remove_polygons`). */
  predicate ShiftedBy(f: Face, g: Face, vpp: nat, vertsMap: seq<nat>, normsMap: seq<nat>)
  {
    SameTags(g, f)
    && |f.verts| == vpp && |f.vertNorms| == vpp
    && SlotsShifted(f.verts, g.verts, vertsMap) && SlotsShifted(f.vertNorms, g.vertNorms, normsMap)
  }

  /** `ShiftIndices` on both index lists of a face. */
  method ShiftFace(f: Face, vpp: nat, vertsMap: seq<nat>, normsMap: seq<nat>) returns (g: Face)
    requires |f.verts| == vpp && |f.vertNorms| == vpp
    requires forall k :: 0 <= k < vpp ==> 0 <= f.verts[k] < |vertsMap| && 0 <= f.vertNorms[k] < |normsMap|
    ensures ShiftedBy(f, g, vpp, vertsMap, normsMap)
  {
    var vs := ShiftIndices(f.verts, vertsMap);
    var ns := ShiftIndices(f.vertNorms, normsMap);
    g := f.(verts := vs, vertNorms := ns);
  }

  /** The shifted faces point at their old coordinates in the compacted arrays. */
  lemma ShiftedFacesSame(verts: seq<Vec>, vertNorms: seq<Vec>, kept: seq<Face>, vpp: nat,
                         vkeep: set<int>, nkeep: set<int>, vertsMap: seq<nat>, normsMap: seq<nat>, newFaces: seq<Face>)
    requires Indexed(kept, vpp, |verts|, |vertNorms|)
    requires vkeep == VerticesOfFaces(kept) && nkeep == NormalsOfFaces(kept)
    requires |vertsMap| == |verts| && forall m :: 0 <= m < |verts| ==> vertsMap[m] == Skipped(vkeep, m + 1)
    requires |normsMap| == |vertNorms| && forall m :: 0 <= m < |vertNorms| ==> normsMap[m] == Skipped(nkeep, m + 1)
    requires |newFaces| == |kept| && forall i :: 0 <= i < |kept| ==> ShiftedBy(kept[i], newFaces[i], vpp, vertsMap, normsMap)
    ensures forall i :: 0 <= i < |kept| ==>
      SameFaceAt(verts, vertNorms, kept[i], vpp, Compact(verts, vkeep), Compact(vertNorms, nkeep), newFaces[i])
  {
    forall i, k | 0 <= i < |kept| && 0 <= k < vpp
      ensures 0 <= newFaces[i].verts[k] < |Compact(verts, vkeep)|
      ensures Compact(verts, vkeep)[newFaces[i].verts[k]] == verts[kept[i].verts[k]]
      ensures 0 <= newFaces[i].vertNorms[k] < |Compact(vertNorms, nkeep)|
      ensures Compact(vertNorms, nkeep)[newFaces[i].vertNorms[k]] == vertNorms[kept[i].vertNorms[k]]
    {
      assert kept[i].verts[k] in vkeep && kept[i].vertNorms[k] in nkeep;
      ShiftedTarget(verts, vkeep, vertsMap, kept[i].verts[k]);
      ShiftedTarget(vertNorms, nkeep, normsMap, kept[i].vertNorms[k]);
    }
  }

  /** Every vertex left after compaction is used by a shifted face. */
  lemma ShiftedVertsUsed(verts: seq<Vec>, kept: seq<Face>, vkeep: set<int>, vertsMap: seq<nat>, newFaces: seq<Face>)
    requires vkeep == VerticesOfFaces(kept)
    requires |vertsMap| == |verts| && forall m :: 0 <= m < |verts| ==> vertsMap[m] == Skipped(vkeep, m + 1)
    requires |newFaces| == |kept| && forall i :: 0 <= i < |kept| ==> SlotsShifted(kept[i].verts, newFaces[i].verts, vertsMap)
    ensures forall j :: 0 <= j < |Compact(verts, vkeep)| ==> j in VerticesOfFaces(newFaces)
  {
    forall j | 0 <= j < |Compact(verts, vkeep)|
      ensures j in VerticesOfFaces(newFaces)
    {
      CompactOnto(verts, vkeep, j);
      var i :| 0 <= i < |verts| && i in vkeep && i - Skipped(vkeep, i) == j;
      var f, k :| 0 <= f < |kept| && 0 <= k < |kept[f].verts| && kept[f].verts[k] == i;
      assert newFaces[f].verts[k] == j;
    }
  }

  /** Every normal left after compaction is used by a shifted face. */
  lemma ShiftedNormsUsed(vertNorms: seq<Vec>, kept: seq<Face>, nkeep: set<int>, normsMap: seq<nat>, newFaces: seq<Face>)
    requires nkeep == NormalsOfFaces(kept)
    requires |normsMap| == |vertNorms| && forall m :: 0 <= m < |vertNorms| ==> normsMap[m] == Skipped(nkeep, m + 1)
    requires |newFaces| == |kept| && forall i :: 0 <= i < |kept| ==> SlotsShifted(kept[i].vertNorms, newFaces[i].vertNorms, normsMap)
    ensures forall j :: 0 <= j < |Compact(vertNorms, nkeep)| ==> j in NormalsOfFaces(newFaces)
  {
    forall j | 0 <= j < |Compact(vertNorms, nkeep)|
      ensures j in NormalsOfFaces(newFaces)
    {
      CompactOnto(vertNorms, nkeep, j);
      var i :| 0 <= i < |vertNorms| && i in nkeep && i - Skipped(nkeep, i) == j;
      var f, k :| 0 <= f < |kept| && 0 <= k < |kept[f].vertNorms| && kept[f].vertNorms[k] == i;
      assert newFaces[f].vertNorms[k] == j;
    }
  }

  /** The facts the steps of `remove_polygons` establish make up `Removed`. */
  lemma RemovedIntro(verts: seq<Vec>, vertNorms: seq<Vec>, faces: seq<Face>, vpp: nat,
                     modelType: RemovePolygonsModel, wheelsSteer: set<int>, wheelsGhost: set<int>,
                     kept: seq<Face>, newVerts: seq<Vec>, newNorms: seq<Vec>, newFaces: seq<Face>)
    requires Indexed(faces, vpp, |verts|, |vertNorms|)
    requires kept == Filter(faces, Survives(modelType, wheelsSteer, wheelsGhost))
    requires Indexed(kept, vpp, |verts|, |vertNorms|)
    requires newVerts == Compact(verts, VerticesOfFaces(kept)) && newNorms == Compact(vertNorms, NormalsOfFaces(kept))
    requires |newFaces| == |kept|
    requires forall i :: 0 <= i < |kept| ==> SameFaceAt(verts, vertNorms, kept[i], vpp, newVerts, newNorms, newFaces[i])
    requires forall j :: 0 <= j < |newVerts| ==> j in VerticesOfFaces(newFaces)
    requires forall j :: 0 <= j < |newNorms| ==> j in NormalsOfFaces(newFaces)
    ensures Indexed(newFaces, vpp, |newVerts|, |newNorms|)
    ensures Removed(verts, vertNorms, faces, vpp, modelType, wheelsSteer, wheelsGhost, newVerts, newNorms, newFaces)
  {
  }

  /** `remove_polygons` took the mesh `verts`, `vertNorms`, `faces` to the indexed mesh `newVerts`, `newNorms`, `newFaces`. */
  ghost predicate MeshRemoved(verts: seq<Vec>, vertNorms: seq<Vec>, faces: seq<Face>, vpp: nat,
                              modelType: RemovePolygonsModel, wheelsSteer: set<int>, wheelsGhost: set<int>,
                              newVerts: seq<Vec>, newNorms: seq<Vec>, newFaces: seq<Face>)
  {
    Indexed(faces, vpp, |verts|, |vertNorms|)
    && Indexed(newFaces, vpp, |newVerts|, |newNorms|)
    && Removed(verts, vertNorms, faces, vpp, modelType, wheelsSteer, wheelsGhost, newVerts, newNorms, newFaces)
  }

  /** `remove_polygons` on the vertex, normal and face lists of a model. */
  method RemovePolygonsOf(verts: seq<Vec>, vertNorms: seq<Vec>, faces: seq<Face>, vpp: nat,
                          modelType: RemovePolygonsModel, wheelsSteer: set<int>, wheelsGhost: set<int>)
    returns (newVerts: seq<Vec>, newNorms: seq<Vec>, newFaces: seq<Face>)
    requires Indexed(faces, vpp, |verts|, |vertNorms|)
    ensures MeshRemoved(verts, vertNorms, faces, vpp, modelType, wheelsSteer, wheelsGhost, newVerts, newNorms, newFaces)
    ensures |newFaces| == Count(faces, Survives(modelType, wheelsSteer, wheelsGhost))
  {
    var kept := EraseFaces(faces, modelType, wheelsSteer, wheelsGhost);
    KeptIndexed(faces, Survives(modelType, wheelsSteer, wheelsGhost), vpp, |verts|, |vertNorms|);
    var vertsToKeep, normsToKeep := KeepSets(kept, vpp);
    newVerts := CompactOf(verts, vertsToKeep);
    newNorms := CompactOf(vertNorms, normsToKeep);
    var vertsMap := IndChangeMap(|verts|, vertsToKeep);
    var normsMap := IndChangeMap(|vertNorms|, normsToKeep);
    newFaces := [];
    for p := 0 to |kept|
      invariant |newFaces| == p
      invariant forall i :: 0 <= i < p ==> ShiftedBy(kept[i], newFaces[i], vpp, vertsMap, normsMap)
    {
      var g := ShiftFace(kept[p], vpp, vertsMap, normsMap);
      newFaces := newFaces + [g];
    }
    ShiftedFacesSame(verts, vertNorms, kept, vpp, vertsToKeep, normsToKeep, vertsMap, normsMap, newFaces);
    ShiftedVertsUsed(verts, kept, vertsToKeep, vertsMap, newFaces);
    ShiftedNormsUsed(vertNorms, kept, normsToKeep, normsMap, newFaces);
    RemovedIntro(verts, vertNorms, faces, vpp, modelType, wheelsSteer, wheelsGhost, kept, newVerts, newNorms, newFaces);
  }
}
