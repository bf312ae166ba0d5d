/**
 * `wavefront_obj_to_m3d_model::get_wheels_steer`: every steering wheel that
 * is not a ghost becomes a model of its own, holding the wheel's faces with
 * their vertex and normal indices renumbered densely, 0 .. n - 1, in the
 * order each index is first met.
 */
module WheelsSteer {
  import opened Common
  import opened Geometry
  import opened RemovePolygons

  /** The index lists one after another. */
  function Flatten(lists: seq<seq<int>>): seq<int>
  {
    if lists == [] then [] else Flatten(lists[..|lists| - 1]) + lists[|lists| - 1]
  }

  /** An index is in the flattened lists exactly when one of the lists holds it. */
  lemma {:induction false} FlattenMembers(lists: seq<seq<int>>, x: int)
    ensures x in Flatten(lists) <==> exists i, k :: 0 <= i < |lists| && 0 <= k < |lists[i]| && lists[i][k] == x
  {
    if lists != [] {
      var init := lists[..|lists| - 1];
      FlattenMembers(init, x);
      if x in Flatten(init) {
        var i, k :| 0 <= i < |init| && 0 <= k < |init[i]| && init[i][k] == x;
        assert lists[i][k] == x;
      }
      if exists i, k :: 0 <= i < |lists| && 0 <= k < |lists[i]| && lists[i][k] == x {
        var i, k :| 0 <= i < |lists| && 0 <= k < |lists[i]| && lists[i][k] == x;
        if i < |init| {
          assert init[i][k] == x;
        }
      }
    }
  }

  /** `x` added at the end of `order` unless it is there already. */
  function Note(order: seq<int>, x: int): seq<int>
  {
    if x in order then order else order + [x]
  }

  /** The distinct indices of `ids`, in the order of their first occurrence. */
  function FirstSeen(ids: seq<int>): seq<int>
  {
    if ids == [] then [] else Note(FirstSeen(ids[..|ids| - 1]), ids[|ids| - 1])
  }

  /** `FirstSeen` holds exactly the indices of `ids`. */
  lemma {:induction false} FirstSeenMembers(ids: seq<int>, x: int)
    ensures x in FirstSeen(ids) <==> x in ids
  {
    if ids != [] {
      var init := ids[..|ids| - 1];
      FirstSeenMembers(init, x);
      assert ids == init + [ids[|ids| - 1]];
    }
  }

  /** `FirstSeen` holds each index once. */
  lemma {:induction false} FirstSeenDistinct(ids: seq<int>)
    ensures forall a, b :: 0 <= a < b < |FirstSeen(ids)| ==> FirstSeen(ids)[a] != FirstSeen(ids)[b]
  {
    if ids != [] {
      FirstSeenDistinct(ids[..|ids| - 1]);
    }
  }

  /** Occurrences after the first change nothing: the order only grows at its end. */
  lemma FirstSeenExtends(prev: seq<int>, ids: seq<int>)
    ensures FirstSeen(prev) <= FirstSeen(prev + ids)
    decreases |ids|
  {
    if ids != [] {
      var init := ids[..|ids| - 1];
      FirstSeenExtends(prev, init);
      assert (prev + ids)[..|prev + ids| - 1] == prev + init;
    } else {
      assert prev + ids == prev;
    }
  }

  /** `m` maps each index of `order` to its position, and holds nothing else. */
  ghost predicate MapMatches(m: map<int, int>, order: seq<int>)
  {
    (forall x :: x in m ==> 0 <= m[x] < |order| && order[m[x]] == x)
    && (forall j :: 0 <= j < |order| ==> order[j] in m)
  }

  /**
   * One index of the inner loop of `get_wheels_steer`: an index already in
   * the map takes its value; a new one takes the next number and joins the map.
   */
  method RenumberId(x: int, m: map<int, int>, count: nat, ghost order: seq<int>)
    returns (id: int, m': map<int, int>, count': nat, ghost order': seq<int>)
    requires MapMatches(m, order) && count == |order|
    ensures order' == Note(order, x) && MapMatches(m', order') && count' == |order'|
    ensures 0 <= id < |order'| && order'[id] == x
  {
    if x in m {
      id, m', count', order' := m[x], m, count, order;
    } else {
      forall j | 0 <= j < |order|
        ensures order[j] != x
      {
        assert order[j] in m;
      }
      id, m', count', order' := count, m[x := count], count + 1, order + [x];
      forall j | 0 <= j < |order'|
        ensures order'[j] in m'
      {
        if j < |order| {
          assert order'[j] == order[j];
        }
      }
    }
  }

  /**
   * The inner loop of `get_wheels_steer` over one index list of a face: an
   * index already in the map takes its value; a new one takes the next
   * number and joins the map.
   */
  method RenumberIds(ids: seq<int>, m: map<int, int>, count: nat, ghost order: seq<int>, ghost prev: seq<int>)
    returns (newIds: seq<int>, m': map<int, int>, count': nat, ghost order': seq<int>)
    requires order == FirstSeen(prev) && MapMatches(m, order) && count == |order|
    ensures order' == FirstSeen(prev + ids) && MapMatches(m', order') && count' == |order'|
    ensures order <= order'
    ensures |newIds| == |ids|
    ensures forall k :: 0 <= k < |ids| ==> 0 <= newIds[k] < |order'| && order'[newIds[k]] == ids[k]
  {
    newIds, m', count', order' := ids, m, count, order;
    assert prev + ids[..0] == prev;
    for k := 0 to |ids|
      invariant order' == FirstSeen(prev + ids[..k]) && MapMatches(m', order') && count' == |order'|
      invariant order <= order'
      invariant |newIds| == |ids|
      invariant forall j :: 0 <= j < k ==> 0 <= newIds[j] < |order'| && order'[newIds[j]] == ids[j]
    {
      assert (prev + ids[..k + 1])[..|prev + ids[..k + 1]| - 1] == prev + ids[..k];
      var id;
      id, m', count', order' := RenumberId(ids[k], m', count', order');
      newIds := newIds[k := id];
    }
    assert ids[..|ids|] == ids;
  }

  /**
   * The copying loops of `get_wheels_steer`: every map entry `(old, new)`
   * puts `points[old]` at `new`, so position `j` holds the point of the
   * `j`-th index first met. The entries are visited by increasing key; each
   * writes its own position, so the order of the visit does not matter.
   */
  method CopyByMap(points: seq<Vec>, m: map<int, int>, count: nat, ghost order: seq<int>) returns (newPoints: seq<Vec>)
    requires MapMatches(m, order) && count == |order|
    requires forall a, b :: 0 <= a < b < |order| ==> order[a] != order[b]
    requires forall j :: 0 <= j < |order| ==> 0 <= order[j] < |points|
    ensures |newPoints| == |order|
    ensures forall j :: 0 <= j < |order| ==> newPoints[j] == points[order[j]]
  {
    newPoints := seq(count, _ => Zero);
    for key := 0 to |points|
      invariant |newPoints| == |order|
      invariant forall x :: 0 <= x < key && x in m ==> newPoints[m[x]] == points[x]
    {
      if key in m {
        newPoints := newPoints[m[key] := points[key]];
      }
    }
    forall j | 0 <= j < |order|
      ensures newPoints[j] == points[order[j]]
    {
      var x := order[j];
      assert order[m[x]] == x;
    }
  }

  /** The vertex index lists of the faces. */
  function VertLists(faces: seq<Face>): (r: seq<seq<int>>)
    ensures |r| == |faces| && forall i :: 0 <= i < |faces| ==> r[i] == faces[i].verts
  {
    seq(|faces|, i requires 0 <= i < |faces| => faces[i].verts)
  }

  /** The normal index lists of the faces. */
  function NormLists(faces: seq<Face>): (r: seq<seq<int>>)
    ensures |r| == |faces| && forall i :: 0 <= i < |faces| ==> r[i] == faces[i].vertNorms
  {
    seq(|faces|, i requires 0 <= i < |faces| => faces[i].vertNorms)
  }

  /** One more face appends its index lists. */
  lemma FlattenAppend(faces: seq<Face>, f: Face)
    ensures Flatten(VertLists(faces + [f])) == Flatten(VertLists(faces)) + f.verts
    ensures Flatten(NormLists(faces + [f])) == Flatten(NormLists(faces)) + f.vertNorms
  {
    assert VertLists(faces + [f])[..|faces|] == VertLists(faces);
    assert NormLists(faces + [f])[..|faces|] == NormLists(faces);
  }

  /** Every index of indexed faces, in first-occurrence order, names an existing vertex and normal. */
  lemma OrderInRange(faces: seq<Face>, vpp: nat, vertexCount: nat, normalCount: nat)
    requires Indexed(faces, vpp, vertexCount, normalCount)
    ensures forall j :: 0 <= j < |FirstSeen(Flatten(VertLists(faces)))| ==>
      0 <= FirstSeen(Flatten(VertLists(faces)))[j] < vertexCount
    ensures forall j :: 0 <= j < |FirstSeen(Flatten(NormLists(faces)))| ==>
      0 <= FirstSeen(Flatten(NormLists(faces)))[j] < normalCount
  {
    var vo, no := FirstSeen(Flatten(VertLists(faces))), FirstSeen(Flatten(NormLists(faces)));
    forall j | 0 <= j < |vo|
      ensures 0 <= vo[j] < vertexCount
    {
      FirstSeenMembers(Flatten(VertLists(faces)), vo[j]);
      FlattenMembers(VertLists(faces), vo[j]);
    }
    forall j | 0 <= j < |no|
      ensures 0 <= no[j] < normalCount
    {
      FirstSeenMembers(Flatten(NormLists(faces)), no[j]);
      FlattenMembers(NormLists(faces), no[j]);
    }
  }

  /** A wheel model as `get_wheels_steer` builds it: counts, vertices, normals, faces and `wheel_id`. */
  datatype WheelModel = WheelModel(
    numVerts: int, numVertNorms: int, numFaces: int, numVertTotal: int, numVertsPerPoly: int,
    verts: seq<Vec>, vertNorms: seq<Vec>, faces: seq<Face>, wheelId: int)

  /** `volInt::polyhedron()`, what a ghost steering wheel is left with. */
  const EmptyWheelModel := WheelModel(0, 0, 0, 0, 0, [], [], [], -1)

  /** The faces of one wheel. */
  function OfWheel(w: int): Face -> bool
  {
    (f: Face) => f.wheelId == w
  }

  /** `g` is `f` with every slot renumbered: the order lists give back the old index. */
  predicate Renumbered(f: Face, g: Face, vpp: nat, vertOrder: seq<int>, normOrder: seq<int>)
  {
    g == f.(verts := g.verts, vertNorms := g.vertNorms)
    && |f.verts| == |g.verts| == vpp && |f.vertNorms| == |g.vertNorms| == vpp
    && (forall k :: 0 <= k < vpp ==> 0 <= g.verts[k] < |vertOrder| && vertOrder[g.verts[k]] == f.verts[k])
    && (forall k :: 0 <= k < vpp ==> 0 <= g.vertNorms[k] < |normOrder| && normOrder[g.vertNorms[k]] == f.vertNorms[k])
  }

  /**
   * `m` is the model of the faces `sel` of wheel `w` under the numberings
   * `vertOrder` and `normOrder` (new index to old): the counts, the copied
   * vertices and normals, and the renumbered faces in their order.
   */
  ghost predicate Assembled(verts: seq<Vec>, vertNorms: seq<Vec>, sel: seq<Face>, vpp: nat, w: int,
                            vertOrder: seq<int>, normOrder: seq<int>, m: WheelModel)
    requires forall j :: 0 <= j < |vertOrder| ==> 0 <= vertOrder[j] < |verts|
    requires forall j :: 0 <= j < |normOrder| ==> 0 <= normOrder[j] < |vertNorms|
  {
    m.wheelId == w && m.numVertsPerPoly == vpp
    && m.numVerts == |m.verts| == |vertOrder| && m.numVertNorms == |m.vertNorms| == |normOrder|
    && m.numFaces == |m.faces| == |sel| && m.numVertTotal == |sel| * vpp
    && (forall j :: 0 <= j < |vertOrder| ==> m.verts[j] == verts[vertOrder[j]])
    && (forall j :: 0 <= j < |normOrder| ==> m.vertNorms[j] == vertNorms[normOrder[j]])
    && forall i :: 0 <= i < |sel| ==> Renumbered(sel[i], m.faces[i], vpp, vertOrder, normOrder)
  }

  /**
   * The model `get_wheels_steer` builds for wheel `w`: the wheel's faces in
   * their order, renumbered by first occurrence, with the vertices and normals
   * they name in that order, and the counts that go with them.
   */
  ghost predicate Extracted(verts: seq<Vec>, vertNorms: seq<Vec>, faces: seq<Face>, vpp: nat, w: int, m: WheelModel)
    requires Indexed(faces, vpp, |verts|, |vertNorms|)
  {
    var sel := Filter(faces, OfWheel(w));
    KeptIndexed(faces, OfWheel(w), vpp, |verts|, |vertNorms|);
    OrderInRange(sel, vpp, |verts|, |vertNorms|);
    Assembled(verts, vertNorms, sel, vpp, w, FirstSeen(Flatten(VertLists(sel))), FirstSeen(Flatten(NormLists(sel))), m)
  }

  /** The invariant of the face loop of `get_wheels_steer` once the faces `sel` of the wheel are copied. */
  ghost predicate Numbering(sel: seq<Face>, wheelFaces: seq<Face>, vpp: nat,
                            vertsMap: map<int, int>, curVertNum: nat, vertOrder: seq<int>,
                            normsMap: map<int, int>, curNormNum: nat, normOrder: seq<int>)
  {
    |wheelFaces| == |sel|
    && vertOrder == FirstSeen(Flatten(VertLists(sel))) && MapMatches(vertsMap, vertOrder) && curVertNum == |vertOrder|
    && normOrder == FirstSeen(Flatten(NormLists(sel))) && MapMatches(normsMap, normOrder) && curNormNum == |normOrder|
    && forall i :: 0 <= i < |sel| ==> Renumbered(sel[i], wheelFaces[i], vpp, vertOrder, normOrder)
  }

  /** Faces renumbered against shorter orders stay renumbered when the orders grow. */
  lemma RenumberedExtends(sel: seq<Face>, wheelFaces: seq<Face>, vpp: nat,
                          vertOrder: seq<int>, normOrder: seq<int>, vertOrder': seq<int>, normOrder': seq<int>)
    requires |wheelFaces| == |sel| && vertOrder <= vertOrder' && normOrder <= normOrder'
    requires forall i :: 0 <= i < |sel| ==> Renumbered(sel[i], wheelFaces[i], vpp, vertOrder, normOrder)
    ensures forall i :: 0 <= i < |sel| ==> Renumbered(sel[i], wheelFaces[i], vpp, vertOrder', normOrder')
  {
  }

  /** The invariant after one more face, from its parts. */
  lemma NumberingStep(sel: seq<Face>, wheelFaces: seq<Face>, vpp: nat, curPoly: Face, g: Face,
                      vertsMap: map<int, int>, curVertNum: nat, vertOrder: seq<int>,
                      normsMap: map<int, int>, curNormNum: nat, normOrder: seq<int>)
    requires |wheelFaces| == |sel|
    requires vertOrder == FirstSeen(Flatten(VertLists(sel)) + curPoly.verts) && MapMatches(vertsMap, vertOrder) && curVertNum == |vertOrder|
    requires normOrder == FirstSeen(Flatten(NormLists(sel)) + curPoly.vertNorms) && MapMatches(normsMap, normOrder) && curNormNum == |normOrder|
    requires forall i :: 0 <= i < |sel| ==> Renumbered(sel[i], wheelFaces[i], vpp, vertOrder, normOrder)
    requires Renumbered(curPoly, g, vpp, vertOrder, normOrder)
    ensures Numbering(sel + [curPoly], wheelFaces + [g], vpp, vertsMap, curVertNum, vertOrder, normsMap, curNormNum, normOrder)
  {
    FlattenAppend(sel, curPoly);
    var sel', wheelFaces' := sel + [curPoly], wheelFaces + [g];
    forall i | 0 <= i < |sel'|
      ensures Renumbered(sel'[i], wheelFaces'[i], vpp, vertOrder, normOrder)
    {
      if i < |sel| {
        assert sel'[i] == sel[i] && wheelFaces'[i] == wheelFaces[i];
      }
    }
  }

  /** The body of the face loop for a face of the wheel: its copy, renumbered. */
  method AddWheelFace(curPoly: Face, vpp: nat, ghost sel: seq<Face>, wheelFaces: seq<Face>,
                      vertsMap: map<int, int>, curVertNum: nat, ghost vertOrder: seq<int>,
                      normsMap: map<int, int>, curNormNum: nat, ghost normOrder: seq<int>)
    returns (wheelFaces': seq<Face>, vertsMap': map<int, int>, curVertNum': nat, ghost vertOrder': seq<int>,
             normsMap': map<int, int>, curNormNum': nat, ghost normOrder': seq<int>)
    requires |curPoly.verts| == vpp && |curPoly.vertNorms| == vpp
    requires Numbering(sel, wheelFaces, vpp, vertsMap, curVertNum, vertOrder, normsMap, curNormNum, normOrder)
    ensures Numbering(sel + [curPoly], wheelFaces', vpp, vertsMap', curVertNum', vertOrder', normsMap', curNormNum', normOrder')
  {
    var vs, ns;
    vs, vertsMap', curVertNum', vertOrder' := RenumberIds(curPoly.verts, vertsMap, curVertNum, vertOrder, Flatten(VertLists(sel)));
    ns, normsMap', curNormNum', normOrder' := RenumberIds(curPoly.vertNorms, normsMap, curNormNum, normOrder, Flatten(NormLists(sel)));
    var g := curPoly.(verts := vs, vertNorms := ns);
    RenumberedExtends(sel, wheelFaces, vpp, vertOrder, normOrder, vertOrder', normOrder');
    assert Renumbered(curPoly, g, vpp, vertOrder', normOrder');
    NumberingStep(sel, wheelFaces, vpp, curPoly, g, vertsMap', curVertNum', vertOrder', normsMap', curNormNum', normOrder');
    wheelFaces' := wheelFaces + [g];
  }

  /** `get_wheels_steer` for one wheel `w`. */
  method ExtractWheel(verts: seq<Vec>, vertNorms: seq<Vec>, faces: seq<Face>, vpp: nat, w: int) returns (m: WheelModel)
    requires Indexed(faces, vpp, |verts|, |vertNorms|)
    ensures Extracted(verts, vertNorms, faces, vpp, w, m)
  {
    var vertsMap: map<int, int>, normsMap: map<int, int> := map[], map[];
    var curVertNum, curNormNum: nat := 0, 0;
    ghost var sel: seq<Face> := [];
    ghost var vertOrder: seq<int>, normOrder: seq<int> := [], [];
    var wheelFaces: seq<Face> := [];
    for polyInd := 0 to |faces|
      invariant sel == Filter(faces[..polyInd], OfWheel(w))
      invariant Numbering(sel, wheelFaces, vpp, vertsMap, curVertNum, vertOrder, normsMap, curNormNum, normOrder)
    {
      FilterStep(faces, OfWheel(w), polyInd);
      var curPoly := faces[polyInd];
      if curPoly.wheelId == w {
        wheelFaces, vertsMap, curVertNum, vertOrder, normsMap, curNormNum, normOrder :=
          AddWheelFace(curPoly, vpp, sel, wheelFaces, vertsMap, curVertNum, vertOrder, normsMap, curNormNum, normOrder);
        sel := sel + [curPoly];
      }
    }
    assert faces[..|faces|] == faces;
    KeptIndexed(faces, OfWheel(w), vpp, |verts|, |vertNorms|);
    OrderInRange(sel, vpp, |verts|, |vertNorms|);
    FirstSeenDistinct(Flatten(VertLists(sel)));
    FirstSeenDistinct(Flatten(NormLists(sel)));
    var wheelVerts := CopyByMap(verts, vertsMap, curVertNum, vertOrder);
    var wheelNorms := CopyByMap(vertNorms, normsMap, curNormNum, normOrder);
    m := WheelModel(curVertNum, curNormNum, |wheelFaces|, |wheelFaces| * vpp, vpp,
                    wheelVerts, wheelNorms, wheelFaces, w);
  }

  /** In an assembled model every slot names the coordinates the original slot named. */
  lemma AssembledSameCoordinates(verts: seq<Vec>, vertNorms: seq<Vec>, sel: seq<Face>, vpp: nat, w: int,
                                 vertOrder: seq<int>, normOrder: seq<int>, m: WheelModel)
    requires forall j :: 0 <= j < |vertOrder| ==> 0 <= vertOrder[j] < |verts|
    requires forall j :: 0 <= j < |normOrder| ==> 0 <= normOrder[j] < |vertNorms|
    requires Assembled(verts, vertNorms, sel, vpp, w, vertOrder, normOrder, m)
    ensures |m.faces| == |sel| && Indexed(m.faces, vpp, |m.verts|, |m.vertNorms|)
    ensures forall i, k :: 0 <= i < |sel| && 0 <= k < vpp ==>
      m.verts[m.faces[i].verts[k]] == verts[sel[i].verts[k]]
      && m.vertNorms[m.faces[i].vertNorms[k]] == vertNorms[sel[i].vertNorms[k]]
  {
    forall i, k | 0 <= i < |sel| && 0 <= k < vpp
      ensures m.verts[m.faces[i].verts[k]] == verts[sel[i].verts[k]]
      ensures m.vertNorms[m.faces[i].vertNorms[k]] == vertNorms[sel[i].vertNorms[k]]
    {
      assert Renumbered(sel[i], m.faces[i], vpp, vertOrder, normOrder);
    }
  }

  /**
   * Lists `renamed` are `lists` renumbered through the injective `order`:
   * every position of `order` whose old index occurs in `lists` occurs in `renamed`.
   */
  lemma {:induction false} SlotUsed(lists: seq<seq<int>>, renamed: seq<seq<int>>, order: seq<int>, j: int)
    requires |renamed| == |lists|
    requires forall i :: 0 <= i < |lists| ==> |renamed[i]| == |lists[i]|
    requires forall i, k :: 0 <= i < |lists| && 0 <= k < |lists[i]| ==>
      0 <= renamed[i][k] < |order| && order[renamed[i][k]] == lists[i][k]
    requires forall a, b :: 0 <= a < b < |order| ==> order[a] != order[b]
    requires 0 <= j < |order| && order[j] in Flatten(lists)
    ensures j in Flatten(renamed)
  {
    FlattenMembers(lists, order[j]);
    var i, k :| 0 <= i < |lists| && 0 <= k < |lists[i]| && lists[i][k] == order[j];
    assert order[renamed[i][k]] == order[j];
    assert renamed[i][k] == j;
    FlattenMembers(renamed, j);
  }

  /** An index in the flattened vertex lists of `faces` is a vertex of `faces`. */
  lemma FlatVertex(faces: seq<Face>, x: int)
    requires x in Flatten(VertLists(faces))
    ensures x in VerticesOfFaces(faces)
  {
    FlattenMembers(VertLists(faces), x);
  }

  /** An index in the flattened normal lists of `faces` is a normal of `faces`. */
  lemma FlatNormal(faces: seq<Face>, x: int)
    requires x in Flatten(NormLists(faces))
    ensures x in NormalsOfFaces(faces)
  {
    FlattenMembers(NormLists(faces), x);
  }

  /**
   * With the first-occurrence numberings the model is dense: every vertex
   * and normal it holds is used by one of its faces.
   */
  lemma AssembledDense(verts: seq<Vec>, vertNorms: seq<Vec>, sel: seq<Face>, vpp: nat, w: int,
                       vertOrder: seq<int>, normOrder: seq<int>, m: WheelModel)
    requires vertOrder == FirstSeen(Flatten(VertLists(sel))) && normOrder == FirstSeen(Flatten(NormLists(sel)))
    requires forall j :: 0 <= j < |vertOrder| ==> 0 <= vertOrder[j] < |verts|
    requires forall j :: 0 <= j < |normOrder| ==> 0 <= normOrder[j] < |vertNorms|
    requires Assembled(verts, vertNorms, sel, vpp, w, vertOrder, normOrder, m)
    ensures forall j :: 0 <= j < |m.verts| ==> j in VerticesOfFaces(m.faces)
    ensures forall j :: 0 <= j < |m.vertNorms| ==> j in NormalsOfFaces(m.faces)
  {
    var lists, renamed := VertLists(sel), VertLists(m.faces);
    var nlists, nrenamed := NormLists(sel), NormLists(m.faces);
    assert forall i :: 0 <= i < |sel| ==> Renumbered(sel[i], m.faces[i], vpp, vertOrder, normOrder);
    FirstSeenDistinct(Flatten(lists));
    FirstSeenDistinct(Flatten(nlists));
    forall j | 0 <= j < |m.verts|
      ensures j in VerticesOfFaces(m.faces)
    {
      FirstSeenMembers(Flatten(lists), vertOrder[j]);
      SlotUsed(lists, renamed, vertOrder, j);
      FlatVertex(m.faces, j);
    }
    forall j | 0 <= j < |m.vertNorms|
      ensures j in NormalsOfFaces(m.faces)
    {
      FirstSeenMembers(Flatten(nlists), normOrder[j]);
      SlotUsed(nlists, nrenamed, normOrder, j);
      FlatNormal(m.faces, j);
    }
  }

  /**
   * `get_wheels_steer`: one model per steering wheel, visited in
   * `steerOrder` (the iteration order of the `unordered_set`); a ghost
   * steering wheel gets an empty model.
   */
  method GetWheelsSteerOf(verts: seq<Vec>, vertNorms: seq<Vec>, faces: seq<Face>,
                          wheelsSteer: set<int>, wheelsNonGhost: set<int>, steerOrder: seq<int>)
    returns (models: map<int, WheelModel>)
    requires |faces| > 0 && faces[0].numVerts >= 0
    requires Indexed(faces, faces[0].numVerts, |verts|, |vertNorms|)
    requires forall w :: w in steerOrder <==> w in wheelsSteer
    ensures models.Keys == wheelsSteer
    ensures forall w :: w in wheelsSteer && w in wheelsNonGhost ==>
      Extracted(verts, vertNorms, faces, faces[0].numVerts, w, models[w])
    ensures forall w :: w in wheelsSteer && w !in wheelsNonGhost ==> models[w] == EmptyWheelModel
  {
    var vPerPoly := faces[0].numVerts;
    models := map[];
    for i := 0 to |steerOrder|
      invariant forall w :: w in models <==> w in steerOrder[..i]
      invariant forall w :: w in models && w in wheelsNonGhost ==> Extracted(verts, vertNorms, faces, vPerPoly, w, models[w])
      invariant forall w :: w in models && w !in wheelsNonGhost ==> models[w] == EmptyWheelModel
    {
      var wheelSteerNum := steerOrder[i];
      assert steerOrder[..i + 1] == steerOrder[..i] + [wheelSteerNum];
      if wheelSteerNum in wheelsNonGhost {
        var m := ExtractWheel(verts, vertNorms, faces, vPerPoly, wheelSteerNum);
        models := models[wheelSteerNum := m];
      } else {
        models := models[wheelSteerNum := EmptyWheelModel];
      }
    }
    assert steerOrder[..|steerOrder|] == steerOrder;
    assert forall w :: w in models.Keys <==> w in wheelsSteer;
  }
}
