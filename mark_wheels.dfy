/**
 * The value-level steps of `mark_wheels` in m3d_to_wavefront_obj_operations.cpp:
 * picking the wheel-coloured polygons, matching each wheel group with the
 * nearest non-steering wheel, moving the group onto that wheel, tagging its
 * faces, and classifying the wheels as ghost or non-ghost.
 */
module MarkWheels {
  import opened Geometry
  import opened ObjToM3d
  import opened WheelGroups

  /** `c3d::color::string_to_id::wheel`; its value is in a header that is not part of this model. */
  const WheelColor: nat

  /*
   * `mark_wheels_helper_get_polygons`
   */

  /** Positions of the wheel-coloured faces among the first `numFaces`, in order. */
  function WheelPolygonsOf(faces: seq<Face>, numFaces: nat): seq<nat>
    requires numFaces <= |faces|
  {
    if numFaces == 0 then []
    else (WheelPolygonsOf(faces, numFaces - 1)
      + (if faces[numFaces - 1].colorId == WheelColor then [numFaces - 1] else []))
  }

  /** The selection holds exactly the wheel-coloured faces, each once, in increasing order. */
  lemma {:induction false} WheelPolygonsExact(faces: seq<Face>, numFaces: nat)
    requires numFaces <= |faces|
    ensures forall x :: 0 <= x < |WheelPolygonsOf(faces, numFaces)| ==>
      WheelPolygonsOf(faces, numFaces)[x] < numFaces
      && faces[WheelPolygonsOf(faces, numFaces)[x]].colorId == WheelColor
    ensures forall x, y :: 0 <= x < y < |WheelPolygonsOf(faces, numFaces)| ==>
      WheelPolygonsOf(faces, numFaces)[x] < WheelPolygonsOf(faces, numFaces)[y]
    ensures forall i :: 0 <= i < numFaces && faces[i].colorId == WheelColor ==>
      i in WheelPolygonsOf(faces, numFaces)
  {
    if numFaces > 0 {
      var k := numFaces - 1;
      WheelPolygonsExact(faces, k);
      var init := WheelPolygonsOf(faces, k);
      assert forall x :: 0 <= x < |init| ==> WheelPolygonsOf(faces, numFaces)[x] == init[x];
    }
  }

  method GetPolygons(faces: seq<Face>, numFaces: nat) returns (polygons: seq<nat>)
    requires numFaces <= |faces|
    ensures polygons == WheelPolygonsOf(faces, numFaces)
  {
    polygons := [];
    for curPoly := 0 to numFaces
      invariant polygons == WheelPolygonsOf(faces, curPoly)
    {
      if faces[curPoly].colorId == WheelColor {
        polygons := polygons + [curPoly];
      }
    }
  }

  /** The vertex index lists of the selected faces. */
  function PolygonVerts(faces: seq<Face>, polygons: seq<nat>): (r: seq<seq<int>>)
    requires forall x :: 0 <= x < |polygons| ==> polygons[x] < |faces|
    ensures |r| == |polygons| && forall x :: 0 <= x < |polygons| ==> r[x] == faces[polygons[x]].verts
  {
    seq(|polygons|, x requires 0 <= x < |polygons| => faces[polygons[x]].verts)
  }

  /*
   * Nearest non-steering wheel
   */

  /** The summed squared coordinate differences of `mark_wheels`. */
  function SqDist(a: Vec, b: Vec): real
  {
    Dot(Minus(a, b), Minus(a, b))
  }

  /**
   * The scan over the first `k` wheels: starting from wheel 0 at distance
   * `DBL_MAX`, a non-steering wheel strictly closer than the best so far
   * replaces it.
   */
  function ClosestScan(wheels: seq<WheelData>, c: Vec, k: nat): (nat, real)
    requires k <= |wheels|
  {
    if k == 0 then (0, DblMax)
    else
      var prev := ClosestScan(wheels, c, k - 1);
      var dist := SqDist(c, wheels[k - 1].r);
      if wheels[k - 1].steer == 0 && dist < prev.1 then (k - 1, dist) else prev
  }

  /** `closest_wheel_data_num` for centre `c`. */
  function Closest(wheels: seq<WheelData>, c: Vec): nat
  {
    ClosestScan(wheels, c, |wheels|).0
  }

  lemma {:induction false} ClosestScanMinimal(wheels: seq<WheelData>, c: Vec, k: nat)
    requires k <= |wheels|
    ensures ClosestScan(wheels, c, k).1 <= DblMax
    ensures ClosestScan(wheels, c, k).1 < DblMax ==>
      ClosestScan(wheels, c, k).0 < k && wheels[ClosestScan(wheels, c, k).0].steer == 0
      && ClosestScan(wheels, c, k).1 == SqDist(c, wheels[ClosestScan(wheels, c, k).0].r)
    ensures ClosestScan(wheels, c, k).1 == DblMax ==> ClosestScan(wheels, c, k).0 == 0
    ensures forall w :: 0 <= w < k && wheels[w].steer == 0 ==>
      ClosestScan(wheels, c, k).1 <= SqDist(c, wheels[w].r)
    ensures forall w :: 0 <= w < ClosestScan(wheels, c, k).0 && wheels[w].steer == 0 ==>
      ClosestScan(wheels, c, k).1 < SqDist(c, wheels[w].r)
  {
    if k > 0 {
      var j := k - 1;
      ClosestScanMinimal(wheels, c, j);
    }
  }

  /**
   * When some non-steering wheel is nearer than `DBL_MAX`, the match is a
   * non-steering wheel at the least distance, and the first of them: every
   * wheel before it is strictly farther.
   */
  lemma ClosestIsNearest(wheels: seq<WheelData>, c: Vec, w0: nat)
    requires w0 < |wheels| && wheels[w0].steer == 0 && SqDist(c, wheels[w0].r) < DblMax
    ensures Closest(wheels, c) < |wheels| && wheels[Closest(wheels, c)].steer == 0
    ensures forall w :: 0 <= w < |wheels| && wheels[w].steer == 0 ==>
      SqDist(c, wheels[Closest(wheels, c)].r) <= SqDist(c, wheels[w].r)
    ensures forall w :: 0 <= w < Closest(wheels, c) && wheels[w].steer == 0 ==>
      SqDist(c, wheels[Closest(wheels, c)].r) < SqDist(c, wheels[w].r)
  {
    ClosestScanMinimal(wheels, c, |wheels|);
  }

  /** With no non-steering wheel nearer than `DBL_MAX`, the match stays wheel 0. */
  lemma ClosestFallback(wheels: seq<WheelData>, c: Vec)
    requires forall w :: 0 <= w < |wheels| && wheels[w].steer == 0 ==> SqDist(c, wheels[w].r) >= DblMax
    ensures Closest(wheels, c) == 0
  {
    ClosestScanMinimal(wheels, c, |wheels|);
  }

  /** The match depends on the steer flags and positions only. */
  lemma {:induction false} ClosestScanSameGeometry(wheels: seq<WheelData>, other: seq<WheelData>, c: Vec, k: nat)
    requires k <= |wheels| == |other|
    requires forall i :: 0 <= i < |wheels| ==> wheels[i].steer == other[i].steer && wheels[i].r == other[i].r
    ensures ClosestScan(wheels, c, k) == ClosestScan(other, c, k)
  {
    if k > 0 {
      var j := k - 1;
      ClosestScanSameGeometry(wheels, other, c, j);
    }
  }

  method ClosestWheel(wheels: seq<WheelData>, c: Vec) returns (closest: nat)
    ensures closest == Closest(wheels, c)
  {
    closest := 0;
    var closestDistance := DblMax;
    for curWheelNum := 0 to |wheels|
      invariant (closest, closestDistance) == ClosestScan(wheels, c, curWheelNum)
    {
      if wheels[curWheelNum].steer == 0 {
        var distance := SqDist(c, wheels[curWheelNum].r);
        if distance < closestDistance {
          closest := curWheelNum;
          closestDistance := distance;
        }
      }
    }
  }

  /*
   * `mark_helper_move_non_steering_wheel_to_center`
   */

  /** Vertex `v` is a vertex of some polygon of `group`. */
  ghost predicate InGroupVerts(polys: seq<seq<int>>, group: seq<nat>, v: int)
  {
    exists x, k :: 0 <= x < |group| && group[x] < |polys| && 0 <= k < |polys[group[x]]|
      && polys[group[x]][k] == v
  }

  /** Every vertex of the group moved by `offset`, every other vertex where it was. */
  ghost function ShiftGroup(verts: seq<Vec>, polys: seq<seq<int>>, group: seq<nat>, offset: Vec): (r: seq<Vec>)
    ensures |r| == |verts|
    ensures forall v :: 0 <= v < |verts| ==>
      r[v] == if InGroupVerts(polys, group, v) then Plus(verts[v], offset) else verts[v]
  {
    seq(|verts|, v requires 0 <= v < |verts| =>
      if InGroupVerts(polys, group, v) then Plus(verts[v], offset) else verts[v])
  }

  lemma InGroupVertsStep(polys: seq<seq<int>>, group: seq<nat>, x: nat, v: int)
    requires x < |group| && group[x] < |polys|
    ensures InGroupVerts(polys, group[..x + 1], v) <==> InGroupVerts(polys, group[..x], v) || v in polys[group[x]]
  {
    var g := group[..x + 1];
    if InGroupVerts(polys, g, v) {
      var y, k :| 0 <= y < |g| && g[y] < |polys| && 0 <= k < |polys[g[y]]| && polys[g[y]][k] == v;
      if y < x {
        assert group[..x][y] == g[y];
      }
    }
    if InGroupVerts(polys, group[..x], v) {
      var y, k :| 0 <= y < x && group[..x][y] < |polys| && 0 <= k < |polys[group[..x][y]]|
        && polys[group[..x][y]][k] == v;
      assert g[y] == group[..x][y];
    }
    if v in polys[group[x]] {
      var k :| 0 <= k < |polys[group[x]]| && polys[group[x]][k] == v;
      assert g[x] == group[x];
    }
  }

  /** The `unordered_set` of the group's vertex ids: each id once. */
  method GroupVertexIds(polys: seq<seq<int>>, group: seq<nat>) returns (ids: seq<int>)
    requires forall x :: 0 <= x < |group| ==> group[x] < |polys|
    ensures forall a, b :: 0 <= a < b < |ids| ==> ids[a] != ids[b]
    ensures forall v :: v in ids <==> InGroupVerts(polys, group, v)
  {
    ids := [];
    for x := 0 to |group|
      invariant forall a, b :: 0 <= a < b < |ids| ==> ids[a] != ids[b]
      invariant forall v :: v in ids <==> InGroupVerts(polys, group[..x], v)
    {
      var poly := polys[group[x]];
      for k := 0 to |poly|
        invariant forall a, b :: 0 <= a < b < |ids| ==> ids[a] != ids[b]
        invariant forall v :: v in ids <==> InGroupVerts(polys, group[..x], v) || v in poly[..k]
      {
        assert poly[..k + 1] == poly[..k] + [poly[k]];
        if poly[k] !in ids {
          ids := ids + [poly[k]];
        }
      }
      assert poly[..|poly|] == poly;
      forall v
        ensures v in ids <==> InGroupVerts(polys, group[..x + 1], v)
      {
        InGroupVertsStep(polys, group, x, v);
      }
    }
    assert group[..|group|] == group;
  }

  /** Adding `offset` to each listed vertex once. */
  method ShiftVertices(verts: seq<Vec>, ids: seq<int>, offset: Vec) returns (moved: seq<Vec>)
    requires forall a :: 0 <= a < |ids| ==> 0 <= ids[a] < |verts|
    requires forall a, b :: 0 <= a < b < |ids| ==> ids[a] != ids[b]
    ensures |moved| == |verts|
    ensures forall v :: 0 <= v < |verts| ==> moved[v] == if v in ids then Plus(verts[v], offset) else verts[v]
  {
    moved := verts;
    for a := 0 to |ids|
      invariant |moved| == |verts|
      invariant forall v :: 0 <= v < |verts| ==>
        moved[v] == if v in ids[..a] then Plus(verts[v], offset) else verts[v]
    {
      assert ids[..a + 1] == ids[..a] + [ids[a]];
      assert ids[a] !in ids[..a];
      moved := moved[ids[a] := Plus(moved[ids[a]], offset)];
    }
    assert ids[..|ids|] == ids;
  }

  /** `mark_helper_move_non_steering_wheel_to_center`: the group moved by `endPos - startPos`. */
  method MoveNonSteeringWheelToCenter(verts: seq<Vec>, polys: seq<seq<int>>, group: seq<nat>,
                                      startPos: Vec, endPos: Vec)
    returns (moved: seq<Vec>)
    requires forall x :: 0 <= x < |group| ==> group[x] < |polys|
    requires forall p, k :: 0 <= p < |polys| && 0 <= k < |polys[p]| ==> 0 <= polys[p][k] < |verts|
    ensures moved == ShiftGroup(verts, polys, group, Minus(endPos, startPos))
  {
    var moveBy := Minus(endPos, startPos);
    var ids := GroupVertexIds(polys, group);
    forall a | 0 <= a < |ids|
      ensures 0 <= ids[a] < |verts|
    {
      assert InGroupVerts(polys, group, ids[a]);
    }
    moved := ShiftVertices(verts, ids, moveBy);
  }

  /*
   * Tagging the faces of a group with the matched wheel
   */

  /** Face `i` is one of the group's polygons. */
  ghost predicate InGroupFaces(polygons: seq<nat>, group: seq<nat>, i: int)
  {
    exists x :: 0 <= x < |group| && group[x] < |polygons| && polygons[group[x]] == i
  }

  ghost function TagGroup(faces: seq<Face>, polygons: seq<nat>, group: seq<nat>, id: int): (r: seq<Face>)
    ensures |r| == |faces|
    ensures forall i :: 0 <= i < |faces| ==>
      r[i] == if InGroupFaces(polygons, group, i) then faces[i].(wheelWeaponId := id) else faces[i]
  {
    seq(|faces|, i requires 0 <= i < |faces| =>
      if InGroupFaces(polygons, group, i) then faces[i].(wheelWeaponId := id) else faces[i])
  }

  /** The loop setting `wheel_weapon_id` on each polygon of the group. */
  method SetGroupWheelId(faces: seq<Face>, polygons: seq<nat>, group: seq<nat>, id: int)
    returns (tagged: seq<Face>)
    requires forall x :: 0 <= x < |group| ==> group[x] < |polygons|
    requires forall x :: 0 <= x < |polygons| ==> polygons[x] < |faces|
    ensures tagged == TagGroup(faces, polygons, group, id)
  {
    tagged := faces;
    for x := 0 to |group|
      invariant |tagged| == |faces|
      invariant forall i :: 0 <= i < |faces| ==>
        tagged[i] == if InGroupFaces(polygons, group[..x], i) then faces[i].(wheelWeaponId := id) else faces[i]
    {
      var p := polygons[group[x]];
      forall i | 0 <= i < |faces|
        ensures InGroupFaces(polygons, group[..x + 1], i) <==> InGroupFaces(polygons, group[..x], i) || i == p
      {
        var g := group[..x + 1];
        if InGroupFaces(polygons, g, i) {
          var y :| 0 <= y < |g| && g[y] < |polygons| && polygons[g[y]] == i;
          if y < x {
            assert group[..x][y] == g[y];
          }
        }
        if InGroupFaces(polygons, group[..x], i) {
          var y :| 0 <= y < x && group[..x][y] < |polygons| && polygons[group[..x][y]] == i;
          assert g[y] == group[..x][y];
        }
        if i == p {
          assert g[x] == group[x];
        }
      }
      tagged := tagged[p := tagged[p].(wheelWeaponId := id)];
    }
    assert group[..|group|] == group;
  }

  /*
   * All groups: tags and moves applied group after group
   */

  ghost function TagAll(faces: seq<Face>, polygons: seq<nat>, groups: seq<seq<nat>>, matched: seq<nat>,
                        g: nat): (r: seq<Face>)
    requires g <= |groups| && g <= |matched|
    ensures |r| == |faces|
  {
    if g == 0 then faces
    else TagGroup(TagAll(faces, polygons, groups, matched, g - 1), polygons, groups[g - 1], matched[g - 1])
  }

  ghost function MoveAll(verts: seq<Vec>, polys: seq<seq<int>>, groups: seq<seq<nat>>, shifts: seq<Vec>,
                         g: nat): (r: seq<Vec>)
    requires g <= |groups| && g <= |shifts|
    ensures |r| == |verts|
  {
    if g == 0 then verts
    else ShiftGroup(MoveAll(verts, polys, groups, shifts, g - 1), polys, groups[g - 1], shifts[g - 1])
  }

  /** Tagging changes no face in anything but its wheel id, whatever the groups. */
  lemma {:induction false} TagAllOnlyIds(faces: seq<Face>, polygons: seq<nat>, groups: seq<seq<nat>>,
                                         matched: seq<nat>, g: nat)
    requires g <= |groups| && g <= |matched|
    ensures forall i :: 0 <= i < |faces| ==>
      TagAll(faces, polygons, groups, matched, g)[i]
        == faces[i].(wheelWeaponId := TagAll(faces, polygons, groups, matched, g)[i].wheelWeaponId)
  {
    if g > 0 {
      TagAllOnlyIds(faces, polygons, groups, matched, g - 1);
    }
  }

  /** Each polygon position of the groups names one face, and distinct positions distinct faces. */
  ghost predicate DistinctPolygons(polygons: seq<nat>)
  {
    forall x, y :: 0 <= x < y < |polygons| ==> polygons[x] < polygons[y]
  }

  /** Two groups with a common vertex are the same group. */
  lemma GroupVertsDisjoint(polys: seq<seq<int>>, groups: seq<seq<nat>>, g: nat, h: nat, v: int)
    requires Partition(groups, |polys|) && SharersTogether(polys, groups)
    requires g < |groups| && h < |groups|
    requires InGroupVerts(polys, groups[g], v) && InGroupVerts(polys, groups[h], v)
    ensures g == h
  {
    var x, k :| 0 <= x < |groups[g]| && groups[g][x] < |polys| && 0 <= k < |polys[groups[g][x]]|
      && polys[groups[g][x]][k] == v;
    var y, k' :| 0 <= y < |groups[h]| && groups[h][y] < |polys| && 0 <= k' < |polys[groups[h][y]]|
      && polys[groups[h][y]][k'] == v;
    var p, q := groups[g][x], groups[h][y];
    assert polys[q][k'] in polys[p];
    assert Shares(polys[p], polys[q]);
    var a :| 0 <= a < |groups| && p in groups[a] && q in groups[a];
    var x' :| 0 <= x' < |groups[a]| && groups[a][x'] == p;
    var y' :| 0 <= y' < |groups[a]| && groups[a][y'] == q;
  }

  /** Two groups holding the same face are the same group. */
  lemma GroupFacesDisjoint(polygons: seq<nat>, groups: seq<seq<nat>>, g: nat, h: nat, i: int)
    requires Partition(groups, |polygons|) && DistinctPolygons(polygons)
    requires g < |groups| && h < |groups|
    requires InGroupFaces(polygons, groups[g], i) && InGroupFaces(polygons, groups[h], i)
    ensures g == h
  {
    var x :| 0 <= x < |groups[g]| && groups[g][x] < |polygons| && polygons[groups[g][x]] == i;
    var y :| 0 <= y < |groups[h]| && groups[h][y] < |polygons| && polygons[groups[h][y]] == i;
    var p, q := groups[g][x], groups[h][y];
  }

  /**
   * After all groups are moved, each vertex of group `g` has moved by
   * `shifts[g]` exactly once and every vertex outside the groups is where it
   * was: the groups' vertex sets are disjoint.
   */
  lemma {:induction false} MoveAllExactlyOnce(verts: seq<Vec>, polys: seq<seq<int>>, groups: seq<seq<nat>>,
                                              shifts: seq<Vec>, n: nat)
    requires Partition(groups, |polys|) && SharersTogether(polys, groups)
    requires n <= |groups| && n <= |shifts|
    ensures |MoveAll(verts, polys, groups, shifts, n)| == |verts|
    ensures forall g, v :: 0 <= g < n && 0 <= v < |verts| && InGroupVerts(polys, groups[g], v) ==>
      MoveAll(verts, polys, groups, shifts, n)[v] == Plus(verts[v], shifts[g])
    ensures forall v :: 0 <= v < |verts| && (forall g :: 0 <= g < n ==> !InGroupVerts(polys, groups[g], v)) ==>
      MoveAll(verts, polys, groups, shifts, n)[v] == verts[v]
  {
    if n > 0 {
      var m := n - 1;
      MoveAllExactlyOnce(verts, polys, groups, shifts, m);
      forall g, v | 0 <= g < m && 0 <= v < |verts| && InGroupVerts(polys, groups[g], v)
        ensures !InGroupVerts(polys, groups[m], v)
      {
        if InGroupVerts(polys, groups[m], v) {
          GroupVertsDisjoint(polys, groups, g, m, v);
        }
      }
    }
  }

  /**
   * After all groups are tagged, each face of group `g` carries
   * `matched[g]` as its wheel id, no other face changed, and no face changed
   * in anything but its wheel id.
   */
  lemma {:induction false} TagAllOnce(faces: seq<Face>, polygons: seq<nat>, groups: seq<seq<nat>>,
                                      matched: seq<nat>, n: nat)
    requires Partition(groups, |polygons|) && DistinctPolygons(polygons)
    requires n <= |groups| && n <= |matched|
    ensures |TagAll(faces, polygons, groups, matched, n)| == |faces|
    ensures forall g, i :: 0 <= g < n && 0 <= i < |faces| && InGroupFaces(polygons, groups[g], i) ==>
      TagAll(faces, polygons, groups, matched, n)[i] == faces[i].(wheelWeaponId := matched[g])
    ensures forall i :: 0 <= i < |faces| && (forall g :: 0 <= g < n ==> !InGroupFaces(polygons, groups[g], i)) ==>
      TagAll(faces, polygons, groups, matched, n)[i] == faces[i]
  {
    if n > 0 {
      var m := n - 1;
      TagAllOnce(faces, polygons, groups, matched, m);
      forall g, i | 0 <= g < m && 0 <= i < |faces| && InGroupFaces(polygons, groups[g], i)
        ensures !InGroupFaces(polygons, groups[m], i)
      {
        if InGroupFaces(polygons, groups[m], i) {
          GroupFacesDisjoint(polygons, groups, g, m, i);
        }
      }
    }
  }

  /** The wheels with their ghost flag cleared at the matched positions. */
  function ClearGhost(wheels: seq<WheelData>, matched: seq<nat>): (r: seq<WheelData>)
    ensures |r| == |wheels|
    ensures forall i :: 0 <= i < |wheels| ==>
      r[i] == if i in matched then wheels[i].(isGhost := 0) else wheels[i]
  {
    seq(|wheels|, i requires 0 <= i < |wheels| =>
      if i in matched then wheels[i].(isGhost := 0) else wheels[i])
  }

  /** The offset that carries group `g`'s centre onto its matched wheel. */
  function Shifts(wheels: seq<WheelData>, centers: seq<Vec>, matched: seq<nat>): (r: seq<Vec>)
    requires |matched| == |centers|
    requires forall g :: 0 <= g < |matched| ==> matched[g] < |wheels|
    ensures |r| == |centers|
    ensures forall g :: 0 <= g < |centers| ==> r[g] == Minus(wheels[matched[g]].r, centers[g])
  {
    seq(|centers|, g requires 0 <= g < |centers| => Minus(wheels[matched[g]].r, centers[g]))
  }

  /**
   * The loop of `mark_wheels` over the wheel centres: each group is matched
   * with the closest non-steering wheel, its faces tagged with that wheel,
   * its vertices moved from the centre onto the wheel, and the wheel marked
   * as non-ghost.
   */
  method MatchGroups(faces: seq<Face>, verts: seq<Vec>, wheels: seq<WheelData>, polygons: seq<nat>,
                     polys: seq<seq<int>>, groups: seq<seq<nat>>, centers: seq<Vec>)
    returns (faces': seq<Face>, verts': seq<Vec>, wheels': seq<WheelData>, matched: seq<nat>)
    requires |groups| == |centers| && (|groups| > 0 ==> |wheels| > 0)
    requires forall a, x :: 0 <= a < |groups| && 0 <= x < |groups[a]| ==> groups[a][x] < |polys|
    requires |polys| == |polygons| && forall x :: 0 <= x < |polygons| ==> polygons[x] < |faces|
    requires forall p, k :: 0 <= p < |polys| && 0 <= k < |polys[p]| ==> 0 <= polys[p][k] < |verts|
    ensures |matched| == |groups|
    ensures forall g :: 0 <= g < |groups| ==> matched[g] == Closest(wheels, centers[g]) < |wheels|
    ensures faces' == TagAll(faces, polygons, groups, matched, |groups|)
    ensures verts' == MoveAll(verts, polys, groups, Shifts(wheels, centers, matched), |groups|)
    ensures wheels' == ClearGhost(wheels, matched)
  {
    faces', verts', wheels', matched := faces, verts, wheels, [];
    ghost var shifts: seq<Vec> := [];
    for g := 0 to |centers|
      invariant MatchedUpTo(faces, verts, wheels, polygons, polys, groups, centers, g,
                            faces', verts', wheels', matched, shifts)
    {
      ClosestScanSameGeometry(wheels', wheels, centers[g], |wheels|);
      var closest;
      ghost var prevFaces, prevVerts, prevWheels := faces', verts', wheels';
      faces', verts', wheels', closest := MatchGroup(faces', verts', wheels', polygons, polys, groups[g], centers[g]);
      MatchedNext(faces, verts, wheels, polygons, polys, groups, centers, g,
                  prevFaces, prevVerts, prevWheels, matched, shifts, closest);
      matched := matched + [closest];
      shifts := shifts + [Minus(wheels[closest].r, centers[g])];
    }
    assert shifts == Shifts(wheels, centers, matched);
  }

  /** The state of the loop over the centres after `g` groups. */
  ghost predicate MatchedUpTo(faces: seq<Face>, verts: seq<Vec>, wheels: seq<WheelData>, polygons: seq<nat>,
                              polys: seq<seq<int>>, groups: seq<seq<nat>>, centers: seq<Vec>, g: nat,
                              faces': seq<Face>, verts': seq<Vec>, wheels': seq<WheelData>,
                              matched: seq<nat>, shifts: seq<Vec>)
  {
    g <= |groups| && g <= |centers| && |matched| == g == |shifts|
    && (forall h :: 0 <= h < g ==> matched[h] == Closest(wheels, centers[h]) < |wheels|)
    && (forall h :: 0 <= h < g ==> shifts[h] == Minus(wheels[matched[h]].r, centers[h]))
    && faces' == TagAll(faces, polygons, groups, matched, g)
    && verts' == MoveAll(verts, polys, groups, shifts, g)
    && wheels' == ClearGhost(wheels, matched)
  }

  lemma MatchedNext(faces: seq<Face>, verts: seq<Vec>, wheels: seq<WheelData>, polygons: seq<nat>,
                    polys: seq<seq<int>>, groups: seq<seq<nat>>, centers: seq<Vec>, g: nat,
                    faces': seq<Face>, verts': seq<Vec>, wheels': seq<WheelData>,
                    matched: seq<nat>, shifts: seq<Vec>, closest: nat)
    requires MatchedUpTo(faces, verts, wheels, polygons, polys, groups, centers, g,
                         faces', verts', wheels', matched, shifts)
    requires g < |groups| && g < |centers|
    requires closest == Closest(wheels, centers[g]) < |wheels|
    ensures MatchedUpTo(faces, verts, wheels, polygons, polys, groups, centers, g + 1,
                        TagGroup(faces', polygons, groups[g], closest),
                        ShiftGroup(verts', polys, groups[g], Minus(wheels[closest].r, centers[g])),
                        wheels'[closest := wheels'[closest].(isGhost := 0)],
                        matched + [closest], shifts + [Minus(wheels[closest].r, centers[g])])
  {
    var offset := Minus(wheels[closest].r, centers[g]);
    var matched', shifts' := matched + [closest], shifts + [offset];
    forall h | 0 <= h < g + 1
      ensures matched'[h] == Closest(wheels, centers[h]) < |wheels|
      ensures shifts'[h] == Minus(wheels[matched'[h]].r, centers[h])
    {
      if h < g {
        assert matched'[h] == matched[h] && shifts'[h] == shifts[h];
      }
    }
    TagAllPrefix(faces, polygons, groups, matched, closest, g);
    assert TagAll(faces, polygons, groups, matched', g + 1) == TagGroup(faces', polygons, groups[g], closest);
    MoveAllPrefix(verts, polys, groups, shifts, offset, g);
    assert MoveAll(verts, polys, groups, shifts', g + 1) == ShiftGroup(verts', polys, groups[g], offset);
    ClearGhostAppend(wheels, matched, closest);
  }

  /** One pass of the loop over the centres: match, tag, move, mark. */
  method MatchGroup(faces: seq<Face>, verts: seq<Vec>, wheels: seq<WheelData>, polygons: seq<nat>,
                    polys: seq<seq<int>>, group: seq<nat>, center: Vec)
    returns (faces': seq<Face>, verts': seq<Vec>, wheels': seq<WheelData>, closest: nat)
    requires |wheels| > 0
    requires forall x :: 0 <= x < |group| ==> group[x] < |polys|
    requires |polys| == |polygons| && forall x :: 0 <= x < |polygons| ==> polygons[x] < |faces|
    requires forall p, k :: 0 <= p < |polys| && 0 <= k < |polys[p]| ==> 0 <= polys[p][k] < |verts|
    ensures closest == Closest(wheels, center) < |wheels|
    ensures faces' == TagGroup(faces, polygons, group, closest)
    ensures verts' == ShiftGroup(verts, polys, group, Minus(wheels[closest].r, center))
    ensures wheels' == wheels[closest := wheels[closest].(isGhost := 0)]
  {
    ClosestScanMinimal(wheels, center, |wheels|);
    closest := ClosestWheel(wheels, center);
    faces' := SetGroupWheelId(faces, polygons, group, closest);
    verts' := MoveNonSteeringWheelToCenter(verts, polys, group, center, wheels[closest].r);
    wheels' := wheels[closest := wheels[closest].(isGhost := 0)];
  }

  lemma ClearGhostAppend(wheels: seq<WheelData>, matched: seq<nat>, id: nat)
    requires id < |wheels|
    ensures ClearGhost(wheels, matched + [id])
      == ClearGhost(wheels, matched)[id := ClearGhost(wheels, matched)[id].(isGhost := 0)]
  {
    var l := ClearGhost(wheels, matched + [id]);
    var r := ClearGhost(wheels, matched)[id := ClearGhost(wheels, matched)[id].(isGhost := 0)];
    forall i | 0 <= i < |wheels|
      ensures l[i] == r[i]
    {
      assert i in matched + [id] <==> i in matched || i == id;
    }
  }

  lemma {:induction false} TagAllPrefix(faces: seq<Face>, polygons: seq<nat>, groups: seq<seq<nat>>,
                                        matched: seq<nat>, id: nat, g: nat)
    requires g <= |groups| && g <= |matched|
    ensures TagAll(faces, polygons, groups, matched + [id], g) == TagAll(faces, polygons, groups, matched, g)
  {
    if g > 0 {
      TagAllPrefix(faces, polygons, groups, matched, id, g - 1);
    }
  }

  lemma {:induction false} MoveAllPrefix(verts: seq<Vec>, polys: seq<seq<int>>, groups: seq<seq<nat>>,
                                         shifts: seq<Vec>, offset: Vec, g: nat)
    requires g <= |groups| && g <= |shifts|
    ensures MoveAll(verts, polys, groups, shifts + [offset], g) == MoveAll(verts, polys, groups, shifts, g)
  {
    if g > 0 {
      MoveAllPrefix(verts, polys, groups, shifts, offset, g - 1);
    }
  }

  /*
   * Ghost classification
   */

  /** Every steering wheel names one of the steering wheel models (else `.at` throws). */
  predicate SteerModelsKnown(wheels: seq<WheelData>, steerModelFaces: seq<int>)
  {
    forall i :: 0 <= i < |wheels| && wheels[i].steer != 0 ==>
      0 <= wheels[i].wheelModelIndex < |steerModelFaces|
  }

  function SteerIds(wheels: seq<WheelData>): set<int>
  {
    set i | 0 <= i < |wheels| && wheels[i].steer != 0
  }

  function NonSteerIds(wheels: seq<WheelData>): set<int>
  {
    set i | 0 <= i < |wheels| && wheels[i].steer == 0
  }

  /** Steering wheels among the first `k` whose model has no faces. */
  function HollowSteer(wheels: seq<WheelData>, steerModelFaces: seq<int>, k: nat): set<int>
    requires k <= |wheels| && SteerModelsKnown(wheels, steerModelFaces)
  {
    set i | 0 <= i < k && wheels[i].steer != 0 && steerModelFaces[wheels[i].wheelModelIndex] == 0
  }

  /** Steering wheels among the first `k` whose model has faces. */
  function SolidSteer(wheels: seq<WheelData>, steerModelFaces: seq<int>, k: nat): set<int>
    requires k <= |wheels| && SteerModelsKnown(wheels, steerModelFaces)
  {
    set i | 0 <= i < k && wheels[i].steer != 0 && steerModelFaces[wheels[i].wheelModelIndex] != 0
  }

  /** Non-steering wheels among the first `k` that no group was matched with. */
  function Unmatched(wheels: seq<WheelData>, nonGhost: set<int>, k: nat): set<int>
    requires k <= |wheels|
  {
    set i | 0 <= i < k && wheels[i].steer == 0 && i !in nonGhost
  }

  /** The wheels some group was matched with: those the matching loop inserts into `wheels_non_ghost`. */
  function MatchedIds(matched: seq<nat>): (r: set<int>)
    ensures forall i :: i in r <==> i in matched
  {
    set i | i in matched
  }

  /** The ghost flag the last loop of `mark_wheels` leaves on wheel `i`. */
  function GhostFlag(wheels: seq<WheelData>, steerModelFaces: seq<int>, nonGhost: set<int>, i: nat): int
    requires i < |wheels| && SteerModelsKnown(wheels, steerModelFaces)
  {
    if wheels[i].steer != 0 then (if steerModelFaces[wheels[i].wheelModelIndex] == 0 then 1 else 0)
    else if i in nonGhost then wheels[i].isGhost
    else 1
  }

  /**
   * The last loop of `mark_wheels`: steering wheels are ghosts exactly when
   * their model has no faces; non-steering wheels that no group was matched
   * with are ghosts and counted. Throws (`ok` false) at a steering wheel
   * whose model index is out of range.
   */
  method MarkGhosts(wheels: seq<WheelData>, steerModelFaces: seq<int>, ghosts: set<int>, nonGhost: set<int>)
    returns (ok: bool, wheels': seq<WheelData>, ghosts': set<int>, nonGhost': set<int>, ghostNum: nat)
    ensures ok <==> SteerModelsKnown(wheels, steerModelFaces)
    ensures ok ==> |wheels'| == |wheels|
    ensures ok ==> forall i :: 0 <= i < |wheels| ==>
      wheels'[i] == wheels[i].(isGhost := GhostFlag(wheels, steerModelFaces, nonGhost, i))
    ensures ok ==> ghosts' == ghosts + HollowSteer(wheels, steerModelFaces, |wheels|)
                                     + Unmatched(wheels, nonGhost, |wheels|)
    ensures ok ==> nonGhost' == nonGhost + SolidSteer(wheels, steerModelFaces, |wheels|)
    ensures ok ==> ghostNum == |Unmatched(wheels, nonGhost, |wheels|)|
  {
    ok := SteerModelsKnown(wheels, steerModelFaces);
    wheels', ghosts', nonGhost', ghostNum := wheels, ghosts, nonGhost, 0;
    if !ok {
      return;
    }
    assert HollowSteer(wheels, steerModelFaces, |wheels|) + Unmatched(wheels, nonGhost, |wheels|)
      == NewGhosts(wheels, steerModelFaces, nonGhost, |wheels|);
    for i := 0 to |wheels|
      invariant GhostsUpTo(wheels, steerModelFaces, ghosts, nonGhost, i, wheels', ghosts', nonGhost', ghostNum)
    {
      GhostSetsStep(wheels, steerModelFaces, nonGhost, i);
      ghost var prevWheels, prevGhosts, prevNonGhost, prevNum := wheels', ghosts', nonGhost', ghostNum;
      assert wheels'[i] == wheels[i] && (i in nonGhost' <==> i in nonGhost);
      if wheels'[i].steer != 0 {
        if steerModelFaces[wheels'[i].wheelModelIndex] == 0 {
          wheels' := wheels'[i := wheels'[i].(isGhost := 1)];
          ghosts' := ghosts' + {i};
        } else {
          wheels' := wheels'[i := wheels'[i].(isGhost := 0)];
          nonGhost' := nonGhost' + {i};
        }
      } else if i !in nonGhost' {
        wheels' := wheels'[i := wheels'[i].(isGhost := 1)];
        ghosts' := ghosts' + {i};
        ghostNum := ghostNum + 1;
      }
      GhostsNext(wheels, steerModelFaces, ghosts, nonGhost, i, prevWheels, prevGhosts, prevNonGhost, prevNum,
                 wheels', ghosts', nonGhost', ghostNum);
    }
  }

  /** The loop state after wheel `i` is classified. */
  lemma GhostsNext(wheels: seq<WheelData>, steerModelFaces: seq<int>, ghosts: set<int>, nonGhost: set<int>,
                   i: nat, wheels': seq<WheelData>, ghosts': set<int>, nonGhost': set<int>, ghostNum: nat,
                   wheels'': seq<WheelData>, ghosts'': set<int>, nonGhost'': set<int>, ghostNum': nat)
    requires SteerModelsKnown(wheels, steerModelFaces) && i < |wheels|
    requires GhostsUpTo(wheels, steerModelFaces, ghosts, nonGhost, i, wheels', ghosts', nonGhost', ghostNum)
    requires wheels[i].steer != 0 && steerModelFaces[wheels[i].wheelModelIndex] == 0 ==>
      wheels'' == wheels'[i := wheels'[i].(isGhost := 1)] && ghosts'' == ghosts' + {i}
      && nonGhost'' == nonGhost' && ghostNum' == ghostNum
    requires wheels[i].steer != 0 && steerModelFaces[wheels[i].wheelModelIndex] != 0 ==>
      wheels'' == wheels'[i := wheels'[i].(isGhost := 0)] && ghosts'' == ghosts'
      && nonGhost'' == nonGhost' + {i} && ghostNum' == ghostNum
    requires wheels[i].steer == 0 && i !in nonGhost ==>
      wheels'' == wheels'[i := wheels'[i].(isGhost := 1)] && ghosts'' == ghosts' + {i}
      && nonGhost'' == nonGhost' && ghostNum' == ghostNum + 1
    requires wheels[i].steer == 0 && i in nonGhost ==>
      wheels'' == wheels' && ghosts'' == ghosts' && nonGhost'' == nonGhost' && ghostNum' == ghostNum
    ensures GhostsUpTo(wheels, steerModelFaces, ghosts, nonGhost, i + 1, wheels'', ghosts'', nonGhost'', ghostNum')
  {
    GhostSetsNext(wheels, steerModelFaces, ghosts, nonGhost, i, ghosts', nonGhost', ghostNum,
                  ghosts'', nonGhost'', ghostNum');
    forall j | 0 <= j < i + 1
      ensures wheels''[j] == wheels[j].(isGhost := GhostFlag(wheels, steerModelFaces, nonGhost, j))
    {
      if j == i {
        assert wheels'[i] == wheels[i];
      }
    }
  }

  lemma GhostSetsNext(wheels: seq<WheelData>, steerModelFaces: seq<int>, ghosts: set<int>, nonGhost: set<int>,
                      i: nat, ghosts': set<int>, nonGhost': set<int>, ghostNum: nat,
                      ghosts'': set<int>, nonGhost'': set<int>, ghostNum': nat)
    requires SteerModelsKnown(wheels, steerModelFaces) && i < |wheels|
    requires ghosts' == ghosts + NewGhosts(wheels, steerModelFaces, nonGhost, i)
    requires nonGhost' == nonGhost + SolidSteer(wheels, steerModelFaces, i)
    requires ghostNum == |Unmatched(wheels, nonGhost, i)|
    requires wheels[i].steer != 0 && steerModelFaces[wheels[i].wheelModelIndex] == 0 ==>
      ghosts'' == ghosts' + {i} && nonGhost'' == nonGhost' && ghostNum' == ghostNum
    requires wheels[i].steer != 0 && steerModelFaces[wheels[i].wheelModelIndex] != 0 ==>
      ghosts'' == ghosts' && nonGhost'' == nonGhost' + {i} && ghostNum' == ghostNum
    requires wheels[i].steer == 0 && i !in nonGhost ==>
      ghosts'' == ghosts' + {i} && nonGhost'' == nonGhost' && ghostNum' == ghostNum + 1
    requires wheels[i].steer == 0 && i in nonGhost ==>
      ghosts'' == ghosts' && nonGhost'' == nonGhost' && ghostNum' == ghostNum
    ensures ghosts'' == ghosts + NewGhosts(wheels, steerModelFaces, nonGhost, i + 1)
    ensures nonGhost'' == nonGhost + SolidSteer(wheels, steerModelFaces, i + 1)
    ensures ghostNum' == |Unmatched(wheels, nonGhost, i + 1)|
  {
    var isGhost := (wheels[i].steer != 0 && steerModelFaces[wheels[i].wheelModelIndex] == 0)
      || (wheels[i].steer == 0 && i !in nonGhost);
    NewGhostsNext(wheels, steerModelFaces, nonGhost, i);
    StepUnion(ghosts, NewGhosts(wheels, steerModelFaces, nonGhost, i), NewGhosts(wheels, steerModelFaces, nonGhost, i + 1),
              i, isGhost, ghosts', ghosts'');
    var isSolid := wheels[i].steer != 0 && steerModelFaces[wheels[i].wheelModelIndex] != 0;
    SolidSteerNext(wheels, steerModelFaces, i);
    StepUnion(nonGhost, SolidSteer(wheels, steerModelFaces, i), SolidSteer(wheels, steerModelFaces, i + 1),
              i, isSolid, nonGhost', nonGhost'');
    UnmatchedNext(wheels, nonGhost, i);
  }

  /** A union that grows by `{i}` exactly when its running copy does. */
  lemma StepUnion(base: set<int>, part: set<int>, part': set<int>, i: int, grows: bool, acc: set<int>, acc': set<int>)
    requires part' == (if grows then part + {i} else part)
    requires acc == base + part && acc' == (if grows then acc + {i} else acc)
    ensures acc' == base + part'
  {
  }

  lemma NewGhostsNext(wheels: seq<WheelData>, steerModelFaces: seq<int>, nonGhost: set<int>, i: nat)
    requires SteerModelsKnown(wheels, steerModelFaces) && i < |wheels|
    ensures NewGhosts(wheels, steerModelFaces, nonGhost, i + 1)
      == if (wheels[i].steer != 0 && steerModelFaces[wheels[i].wheelModelIndex] == 0)
            || (wheels[i].steer == 0 && i !in nonGhost)
         then NewGhosts(wheels, steerModelFaces, nonGhost, i) + {i}
         else NewGhosts(wheels, steerModelFaces, nonGhost, i)
  {
  }

  lemma SolidSteerNext(wheels: seq<WheelData>, steerModelFaces: seq<int>, i: nat)
    requires SteerModelsKnown(wheels, steerModelFaces) && i < |wheels|
    ensures SolidSteer(wheels, steerModelFaces, i + 1)
      == if wheels[i].steer != 0 && steerModelFaces[wheels[i].wheelModelIndex] != 0
         then SolidSteer(wheels, steerModelFaces, i) + {i}
         else SolidSteer(wheels, steerModelFaces, i)
  {
  }

  lemma UnmatchedNext(wheels: seq<WheelData>, nonGhost: set<int>, i: nat)
    requires i < |wheels|
    ensures |Unmatched(wheels, nonGhost, i + 1)|
      == |Unmatched(wheels, nonGhost, i)| + (if wheels[i].steer == 0 && i !in nonGhost then 1 else 0)
  {
    var before, after := Unmatched(wheels, nonGhost, i), Unmatched(wheels, nonGhost, i + 1);
    if wheels[i].steer == 0 && i !in nonGhost {
      assert i !in before;
      assert after == before + {i} by {
        forall x ensures x in after <==> x in before + {i} {}
      }
    } else {
      assert after == before by {
        forall x ensures x in after <==> x in before {}
      }
    }
  }

  /** The state of the last loop of `mark_wheels` after `i` wheels. */
  ghost predicate GhostsUpTo(wheels: seq<WheelData>, steerModelFaces: seq<int>, ghosts: set<int>,
                             nonGhost: set<int>, i: nat,
                             wheels': seq<WheelData>, ghosts': set<int>, nonGhost': set<int>, ghostNum: nat)
    requires SteerModelsKnown(wheels, steerModelFaces)
  {
    i <= |wheels| && |wheels'| == |wheels|
    && (forall j :: 0 <= j < i ==>
          wheels'[j] == wheels[j].(isGhost := GhostFlag(wheels, steerModelFaces, nonGhost, j)))
    && (forall j :: i <= j < |wheels| ==> wheels'[j] == wheels[j])
    && ghosts' == ghosts + NewGhosts(wheels, steerModelFaces, nonGhost, i)
    && nonGhost' == nonGhost + SolidSteer(wheels, steerModelFaces, i)
    && ghostNum == |Unmatched(wheels, nonGhost, i)|
  }

  /** How the classified sets grow by wheel `i`. */
  lemma GhostSetsStep(wheels: seq<WheelData>, steerModelFaces: seq<int>, nonGhost: set<int>, i: nat)
    requires SteerModelsKnown(wheels, steerModelFaces) && i < |wheels|
    ensures i !in HollowSteer(wheels, steerModelFaces, i) && i !in SolidSteer(wheels, steerModelFaces, i)
    ensures i !in Unmatched(wheels, nonGhost, i)
    ensures HollowSteer(wheels, steerModelFaces, i + 1) == HollowSteer(wheels, steerModelFaces, i)
      + (if wheels[i].steer != 0 && steerModelFaces[wheels[i].wheelModelIndex] == 0 then {i} else {})
    ensures SolidSteer(wheels, steerModelFaces, i + 1) == SolidSteer(wheels, steerModelFaces, i)
      + (if wheels[i].steer != 0 && steerModelFaces[wheels[i].wheelModelIndex] != 0 then {i} else {})
    ensures Unmatched(wheels, nonGhost, i + 1) == Unmatched(wheels, nonGhost, i)
      + (if wheels[i].steer == 0 && i !in nonGhost then {i} else {})
    ensures NewGhosts(wheels, steerModelFaces, nonGhost, i + 1) == NewGhosts(wheels, steerModelFaces, nonGhost, i)
      + (if GhostFlag(wheels, steerModelFaces, nonGhost, i) == 1 && !(wheels[i].steer == 0 && i in nonGhost)
         then {i} else {})
  {
  }

  /** The wheels among the first `k` that the last loop adds to the ghost set. */
  function NewGhosts(wheels: seq<WheelData>, steerModelFaces: seq<int>, nonGhost: set<int>, k: nat): set<int>
    requires k <= |wheels| && SteerModelsKnown(wheels, steerModelFaces)
  {
    set j | 0 <= j < k && ((wheels[j].steer != 0 && steerModelFaces[wheels[j].wheelModelIndex] == 0)
                           || (wheels[j].steer == 0 && j !in nonGhost))
  }

  /** The first loop of `mark_wheels`: every wheel goes to the steering or the non-steering set. */
  method SplitSteer(wheels: seq<WheelData>, steer: set<int>, nonSteer: set<int>)
    returns (steer': set<int>, nonSteer': set<int>)
    ensures steer' == steer + SteerIds(wheels) && nonSteer' == nonSteer + NonSteerIds(wheels)
  {
    steer', nonSteer' := steer, nonSteer;
    for i := 0 to |wheels|
      invariant steer' == steer + set j | 0 <= j < i && wheels[j].steer != 0
      invariant nonSteer' == nonSteer + set j | 0 <= j < i && wheels[j].steer == 0
    {
      if wheels[i].steer != 0 {
        steer' := steer' + {i};
      } else {
        nonSteer' := nonSteer' + {i};
      }
    }
  }

  /** `s` holds exactly the wheel indices `0..n-1`. */
  ghost predicate AllIds(s: set<int>, n: nat)
  {
    forall i :: i in s <==> 0 <= i < n
  }

  /** Starting from empty sets, the steering and non-steering sets split the wheels. */
  lemma SteerSplit(wheels: seq<WheelData>)
    ensures SteerIds(wheels) * NonSteerIds(wheels) == {}
    ensures AllIds(SteerIds(wheels) + NonSteerIds(wheels), |wheels|)
  {
  }

  /**
   * Starting from empty ghost and non-ghost sets, when every group was
   * matched with a non-steering wheel, every wheel ends in exactly one of
   * the two sets, and its ghost flag says which.
   */
  lemma GhostSplit(wheels: seq<WheelData>, steerModelFaces: seq<int>, matched: seq<nat>)
    requires SteerModelsKnown(wheels, steerModelFaces)
    requires forall g :: 0 <= g < |matched| ==> matched[g] < |wheels| && wheels[matched[g]].steer == 0
    ensures var cleared := ClearGhost(wheels, matched);
      var nonGhost := MatchedIds(matched);
      var ghosts' := HollowSteer(cleared, steerModelFaces, |wheels|) + Unmatched(cleared, nonGhost, |wheels|);
      var nonGhost' := nonGhost + SolidSteer(cleared, steerModelFaces, |wheels|);
      ghosts' * nonGhost' == {} && AllIds(ghosts' + nonGhost', |wheels|)
      && forall i :: 0 <= i < |wheels| ==>
           (GhostFlag(cleared, steerModelFaces, nonGhost, i) == 1 <==> i in ghosts')
  {
    var cleared := ClearGhost(wheels, matched);
    var nonGhost := MatchedIds(matched);
    assert SteerModelsKnown(cleared, steerModelFaces);
    forall i | i in nonGhost
      ensures 0 <= i < |wheels| && wheels[i].steer == 0 && i in matched
    {
      var g :| 0 <= g < |matched| && matched[g] == i;
    }
    forall i | 0 <= i < |wheels| && i in nonGhost
      ensures cleared[i].isGhost == 0
    {
    }
  }

  /**
   * When no non-steering wheel is near a group, the group falls back to
   * wheel 0; if that is a steering wheel whose model has no faces, it ends
   * in both the ghost and the non-ghost set.
   */
  lemma GhostOverlapOnFallback(wheels: seq<WheelData>, steerModelFaces: seq<int>, matched: seq<nat>)
    requires SteerModelsKnown(wheels, steerModelFaces) && |wheels| > 0
    requires wheels[0].steer != 0 && steerModelFaces[wheels[0].wheelModelIndex] == 0
    requires |matched| > 0 && matched[0] == 0
    ensures var cleared := ClearGhost(wheels, matched);
      var nonGhost := MatchedIds(matched);
      0 in HollowSteer(cleared, steerModelFaces, |wheels|) && 0 in nonGhost
  {
    var cleared := ClearGhost(wheels, matched);
    assert cleared[0].steer == wheels[0].steer && cleared[0].wheelModelIndex == wheels[0].wheelModelIndex;
  }
}
