/**
 * The `volInt::polyhedron` mesh of the converter: winding reversal, Newell
 * face normals and plane offsets, removal of degenerate faces, the
 * negative-volume repair, vertex-normal smoothing, the reference-point search
 * and the mass properties written into c3d files.
 */
module VolInt {
  import opened Common
  import opened Geometry
  import opened Mirtich

  // ---------------------------------------------------------------------
  // Faces as index lists

  /** Slots 0 .. n - 1 of `f` exist and name vertices among `vertexCount`. */
  predicate SlotsIndex(f: Face, n: int, vertexCount: int)
  {
    0 <= n <= |f.verts| && forall k :: 0 <= k < n ==> 0 <= f.verts[k] < vertexCount
  }

  /** The positions of the face's first `n` vertices, in winding order. */
  function Ring(verts: seq<Vec>, f: Face, n: int): (q: seq<Vec>)
    requires SlotsIndex(f, n, |verts|)
    ensures |q| == n && forall k :: 0 <= k < n ==> q[k] == verts[f.verts[k]]
  {
    seq(n, k requires 0 <= k < n => verts[f.verts[k]])
  }

  /** `s` with its first `n` entries in reverse order and the rest untouched. */
  function ReversePrefix(s: seq<int>, n: nat): (r: seq<int>)
    requires n <= |s|
    ensures |r| == |s|
    ensures forall k :: 0 <= k < n ==> r[k] == s[n - 1 - k]
    ensures forall k :: n <= k < |s| ==> r[k] == s[k]
  {
    Reverse(s[..n]) + s[n..]
  }

  lemma ReversePrefixTwice(s: seq<int>, n: nat)
    requires n <= |s|
    ensures ReversePrefix(ReversePrefix(s, n), n) == s
  {
    var r := ReversePrefix(ReversePrefix(s, n), n);
    assert forall k :: 0 <= k < |s| ==> r[k] == s[k];
  }

  /** What `reverse_polygons_orientation` does to one face: its first `n` vertex and normal slots reversed. */
  function ReverseFace(f: Face, n: nat): (g: Face)
    requires n <= |f.verts| && n <= |f.vertNorms|
    ensures g.numVerts == f.numVerts && g.colorId == f.colorId && g.norm == f.norm && g.w == f.w
    ensures |g.verts| == |f.verts| && |g.vertNorms| == |f.vertNorms|
  {
    f.(verts := ReversePrefix(f.verts, n), vertNorms := ReversePrefix(f.vertNorms, n))
  }

  /** Reversing a face's winding twice restores it. */
  lemma ReverseFaceTwice(f: Face, n: nat)
    requires n <= |f.verts| && n <= |f.vertNorms|
    ensures ReverseFace(ReverseFace(f, n), n) == f
  {
    ReversePrefixTwice(f.verts, n);
    ReversePrefixTwice(f.vertNorms, n);
  }

  /** A reversed face with `numVerts == n` lists its vertices backwards, as the volume integrals see it. */
  lemma ReverseFaceReversedVerts(f: Face, n: nat)
    requires n <= |f.verts| && n <= |f.vertNorms| && f.numVerts == n
    ensures ReversedVerts(f, ReverseFace(f, n))
  {
  }

  lemma ReverseFaceRing(verts: seq<Vec>, f: Face, n: nat)
    requires SlotsIndex(f, n, |verts|) && n <= |f.vertNorms|
    ensures SlotsIndex(ReverseFace(f, n), n, |verts|)
    ensures Ring(verts, ReverseFace(f, n), n) == Reverse(Ring(verts, f, n))
  {
  }

  // ---------------------------------------------------------------------
  // Newell normal

  /** The contribution of the edge `cur` -> `next` in `face_calc_normal`. */
  function NewellTerm(cur: Vec, next: Vec): Vec
  {
    [Mul(cur[1] - next[1], cur[2] + next[2]),
     Mul(cur[2] - next[2], cur[0] + next[0]),
     Mul(cur[0] - next[0], cur[1] + next[1])]
  }

  /** The Newell sum over the first `i` edges of the closed polygon `q`. */
  function NewellSum(q: seq<Vec>, i: nat): Vec
    requires i <= |q|
  {
    if i == 0 then Zero else Plus(NewellSum(q, i - 1), NewellTerm(q[i - 1], q[i % |q|]))
  }

  /** The (unnormalised) Newell normal of the closed polygon `q`. */
  function Newell(q: seq<Vec>): Vec
  {
    NewellSum(q, |q|)
  }

  /** Running an edge backwards negates its Newell term. */
  lemma NewellTermAntisymmetric(p: Vec, q: Vec)
    ensures NewellTerm(q, p) == Invert(NewellTerm(p, q))
  {
    MulNegLeft(p[1] - q[1], p[2] + q[2]);
    MulNegLeft(p[2] - q[2], p[0] + q[0]);
    MulNegLeft(p[0] - q[0], p[1] + q[1]);
    assert q[1] - p[1] == -(p[1] - q[1]) && q[2] + p[2] == p[2] + q[2];
    assert q[2] - p[2] == -(p[2] - q[2]) && q[0] + p[0] == p[0] + q[0];
    assert q[0] - p[0] == -(p[0] - q[0]) && q[1] + p[1] == p[1] + q[1];
    VecExt(NewellTerm(q, p), Invert(NewellTerm(p, q)));
  }

  /** The Newell terms along the open chain q[0], ..., q[|q| - 1]. */
  function NewellChain(q: seq<Vec>): Vec
  {
    if |q| <= 1 then Zero else Plus(NewellChain(q[..|q| - 1]), NewellTerm(q[|q| - 2], q[|q| - 1]))
  }

  lemma {:induction false} NewellSumIsChain(q: seq<Vec>, i: nat)
    requires i < |q|
    ensures NewellSum(q, i) == NewellChain(q[..i + 1])
  {
    if i > 0 {
      assert i % |q| == i;
      NewellSumIsChain(q, i - 1);
      var c := q[..i + 1];
      assert c[..i] == q[..i] && c[i - 1] == q[i - 1] && c[i] == q[i];
    }
  }

  lemma {:induction false} NewellChainCons(x: Vec, s: seq<Vec>)
    requires |s| >= 1
    ensures NewellChain([x] + s) == Plus(NewellTerm(x, s[0]), NewellChain(s))
  {
    if |s| > 1 {
      NewellChainCons(x, s[..|s| - 1]);
      assert ([x] + s)[..|s|] == [x] + s[..|s| - 1];
      PlusAssoc(NewellTerm(x, s[0]), NewellChain(s[..|s| - 1]), NewellTerm(s[|s| - 2], s[|s| - 1]));
    } else {
      assert ([x] + s)[..1] == [x];
      PlusZero(NewellTerm(x, s[0]));
    }
  }

  lemma {:induction false} NewellChainReverse(q: seq<Vec>)
    ensures NewellChain(Reverse(q)) == Invert(NewellChain(q))
  {
    if |q| <= 1 {
      VecExt(Invert(Zero), Zero);
    } else {
      var n := |q|;
      var init := q[..n - 1];
      NewellChainReverse(init);
      assert Reverse(q) == [q[n - 1]] + Reverse(init);
      NewellChainCons(q[n - 1], Reverse(init));
      NewellTermAntisymmetric(q[n - 2], q[n - 1]);
      PlusInvert(NewellTerm(q[n - 2], q[n - 1]), NewellChain(init));
      VecExt(Plus(NewellTerm(q[n - 1], q[n - 2]), NewellChain(Reverse(init))),
             Plus(NewellChain(Reverse(init)), NewellTerm(q[n - 1], q[n - 2])));
      PlusInvert(NewellChain(init), NewellTerm(q[n - 2], q[n - 1]));
    }
  }

  /** A closed polygon's Newell sum is its open chain plus the closing edge. */
  lemma NewellClosed(q: seq<Vec>)
    requires |q| > 0
    ensures Newell(q) == Plus(NewellChain(q), NewellTerm(q[|q| - 1], q[0]))
  {
    var k := |q| - 1;
    NewellSumIsChain(q, k);
    assert q[..k + 1] == q;
    var open := NewellSum(q, k);
    assert open == NewellChain(q);
    NewellLastEdge(q);
  }

  /** The last edge of the Newell sum closes the polygon back to `q[0]`. */
  lemma NewellLastEdge(q: seq<Vec>)
    requires |q| > 0
    ensures Newell(q) == Plus(NewellSum(q, |q| - 1), NewellTerm(q[|q| - 1], q[0]))
  {
    var n := |q|;
    assert n % n == 0;
    assert NewellSum(q, n) == Plus(NewellSum(q, n - 1), NewellTerm(q[n - 1], q[n % n]));
  }

  /** Over the reals, the Newell normal of the reversed polygon is the exact negation. */
  lemma NewellReverse(q: seq<Vec>)
    ensures Newell(Reverse(q)) == Invert(Newell(q))
  {
    if |q| == 0 {
      VecExt(Invert(Zero), Zero);
    } else {
      NonEmptyNewellReverse(q);
    }
  }

  lemma NonEmptyNewellReverse(q: seq<Vec>)
    requires |q| > 0
    ensures Newell(Reverse(q)) == Invert(Newell(q))
  {
    var n, r := |q|, Reverse(q);
    NewellClosed(q);
    NewellClosed(r);
    NewellChainReverse(q);
    NewellTermAntisymmetric(q[n - 1], q[0]);
    PlusInvert(NewellChain(q), NewellTerm(q[n - 1], q[0]));
  }

  // ---------------------------------------------------------------------
  // Plane of a face

  /** `face_calc_offset_w` for normal `n` and first vertex `v0`. */
  function PlaneOffset(n: Vec, v0: Vec): (w: real)
    ensures Dot(n, v0) + w == 0.0
  {
    -Mul(n[0], v0[0]) - Mul(n[1], v0[1]) - Mul(n[2], v0[2])
  }

  /** Negating the normal negates the offset through the same vertex. */
  lemma PlaneOffsetInvert(n: Vec, v0: Vec)
    ensures PlaneOffset(Invert(n), v0) == -PlaneOffset(n, v0)
  {
    MulNegLeft(n[0], v0[0]);
    MulNegLeft(n[1], v0[1]);
    MulNegLeft(n[2], v0[2]);
  }

  /** What `faces_calc_params` writes into one face: the scaled Newell normal and the offset through slot 0. */
  function FaceParams(verts: seq<Vec>, f: Face, vpp: int): (g: Face)
    requires vpp >= 1 && SlotsIndex(f, vpp, |verts|)
    ensures g.(norm := f.norm, w := f.w) == f
    ensures g.norm == VectorScale(VectorScaleVal, Newell(Ring(verts, f, vpp)))
    ensures Dot(g.norm, verts[f.verts[0]]) + g.w == 0.0
  {
    var n := VectorScale(VectorScaleVal, Newell(Ring(verts, f, vpp)));
    f.(norm := n, w := PlaneOffset(n, verts[f.verts[0]]))
  }

  /** The face keeps a normal of non-zero length. */
  predicate HasNormal(f: Face)
  {
    Length(f.norm) != 0.0
  }

  /** Every face has `vpp` slots naming vertices among `vertexCount`. */
  predicate AllSlotsIndex(faces: seq<Face>, vpp: int, vertexCount: int)
  {
    forall i :: 0 <= i < |faces| ==> SlotsIndex(faces[i], vpp, vertexCount)
  }

  /** Every face with its plane recomputed, before any is dropped. */
  function ParamsAll(verts: seq<Vec>, faces: seq<Face>, vpp: int): (r: seq<Face>)
    requires vpp >= 1 && AllSlotsIndex(faces, vpp, |verts|)
    ensures |r| == |faces| && forall i :: 0 <= i < |faces| ==> r[i] == FaceParams(verts, faces[i], vpp)
  {
    seq(|faces|, i requires 0 <= i < |faces| => FaceParams(verts, faces[i], vpp))
  }

  /** The faces after `faces_calc_params`: planes recomputed, faces without a normal dropped, order kept. */
  function CalcParams(verts: seq<Vec>, faces: seq<Face>, vpp: int): seq<Face>
    requires vpp >= 1 && AllSlotsIndex(faces, vpp, |verts|)
  {
    Survivors(ParamsAll(verts, faces, vpp))
  }

  /** The faces of `s` that have a normal, in their original order. */
  function Survivors(s: seq<Face>): seq<Face>
  {
    if s == [] then [] else Survivors(s[..|s| - 1]) + (if HasNormal(s[|s| - 1]) then [s[|s| - 1]] else [])
  }

  /** A face is kept exactly when it is in `s` and has a normal. */
  lemma {:induction false} SurvivorsMembers(s: seq<Face>, x: Face)
    ensures x in Survivors(s) <==> x in s && HasNormal(x)
  {
    if s != [] {
      SurvivorsMembers(s[..|s| - 1], x);
      assert s == s[..|s| - 1] + [s[|s| - 1]];
    }
  }

  /** Nothing is removed when every face has a normal. */
  lemma {:induction false} SurvivorsAll(s: seq<Face>)
    requires forall i :: 0 <= i < |s| ==> HasNormal(s[i])
    ensures Survivors(s) == s
  {
    if s != [] {
      SurvivorsAll(s[..|s| - 1]);
      assert s == s[..|s| - 1] + [s[|s| - 1]];
    }
  }

  lemma SurvivorsStep(s: seq<Face>, j: nat)
    requires j < |s|
    ensures Survivors(s[..j + 1]) == Survivors(s[..j]) + (if HasNormal(s[j]) then [s[j]] else [])
  {
    assert s[..j + 1][..j] == s[..j];
  }

  /**
   * A face survives `faces_calc_params` exactly when it is one of the
   * recomputed faces and its normal is not zero.
   */
  lemma CalcParamsKeeps(verts: seq<Vec>, faces: seq<Face>, vpp: int, g: Face)
    requires vpp >= 1 && AllSlotsIndex(faces, vpp, |verts|)
    ensures g in CalcParams(verts, faces, vpp) <==> g in ParamsAll(verts, faces, vpp) && g.norm != Zero
  {
    SurvivorsMembers(ParamsAll(verts, faces, vpp), g);
  }

  /** Every surviving face has a non-zero normal, lies on its plane and keeps its slots. */
  lemma CalcParamsSound(verts: seq<Vec>, faces: seq<Face>, vpp: int)
    requires vpp >= 1 && AllSlotsIndex(faces, vpp, |verts|)
    ensures AllSlotsIndex(CalcParams(verts, faces, vpp), vpp, |verts|)
    ensures forall j :: 0 <= j < |CalcParams(verts, faces, vpp)| ==>
      CalcParams(verts, faces, vpp)[j].norm != Zero
      && Dot(CalcParams(verts, faces, vpp)[j].norm, verts[CalcParams(verts, faces, vpp)[j].verts[0]])
         + CalcParams(verts, faces, vpp)[j].w == 0.0
  {
    var r := CalcParams(verts, faces, vpp);
    forall j | 0 <= j < |r|
      ensures SlotsIndex(r[j], vpp, |verts|) && r[j].norm != Zero
      ensures Dot(r[j].norm, verts[r[j].verts[0]]) + r[j].w == 0.0
    {
      SurvivorSound(verts, faces, vpp, r[j]);
    }
  }

  lemma SurvivorSound(verts: seq<Vec>, faces: seq<Face>, vpp: int, g: Face)
    requires vpp >= 1 && AllSlotsIndex(faces, vpp, |verts|)
    requires g in CalcParams(verts, faces, vpp)
    ensures SlotsIndex(g, vpp, |verts|) && g.norm != Zero
    ensures Dot(g.norm, verts[g.verts[0]]) + g.w == 0.0
  {
    var all := ParamsAll(verts, faces, vpp);
    CalcParamsKeeps(verts, faces, vpp, g);
    var i :| 0 <= i < |all| && all[i] == g;
    assert g == FaceParams(verts, faces[i], vpp);
    assert g.verts == faces[i].verts;
  }

  /** A face as the polyhedron constructors build it: `vpp` vertices, `vpp` vertex and normal slots. */
  predicate FaceShape(f: Face, vpp: int, vertexCount: int)
  {
    f.numVerts == vpp && SlotsIndex(f, vpp, vertexCount) && vpp <= |f.vertNorms|
  }

  predicate UniformFaces(faces: seq<Face>, vpp: int, vertexCount: int)
  {
    forall i :: 0 <= i < |faces| ==> FaceShape(faces[i], vpp, vertexCount)
  }

  /** Uniform faces meet the demands of `faces_calc_params` and `reverse_polygons_orientation`. */
  lemma UniformSlots(faces: seq<Face>, vpp: int, vertexCount: int)
    requires UniformFaces(faces, vpp, vertexCount)
    ensures AllSlotsIndex(faces, vpp, vertexCount)
    ensures forall i :: 0 <= i < |faces| ==> vpp <= |faces[i].verts| && vpp <= |faces[i].vertNorms|
  {
  }

  /** The stored normal is the scaled Newell normal of the face's own vertices. */
  predicate NormalIsNewell(verts: seq<Vec>, g: Face, vpp: int)
    requires SlotsIndex(g, vpp, |verts|)
  {
    g.norm == VectorScale(VectorScaleVal, Newell(Ring(verts, g, vpp)))
  }

  /** Every vertex of the face lies on the plane `norm . x + w == 0`. */
  predicate OnPlane(verts: seq<Vec>, g: Face, vpp: int)
    requires SlotsIndex(g, vpp, |verts|)
  {
    forall k :: 0 <= k < vpp ==> Dot(g.norm, verts[g.verts[k]]) + g.w == 0.0
  }

  lemma SurvivorShape(verts: seq<Vec>, faces: seq<Face>, vpp: int, g: Face)
    requires vpp >= 1 && UniformFaces(faces, vpp, |verts|)
    requires g in CalcParams(verts, faces, vpp)
    ensures FaceShape(g, vpp, |verts|) && g.norm != Zero && NormalIsNewell(verts, g, vpp)
  {
    var all := ParamsAll(verts, faces, vpp);
    CalcParamsKeeps(verts, faces, vpp, g);
    var i :| 0 <= i < |all| && all[i] == g;
    assert g == FaceParams(verts, faces[i], vpp);
    assert g.verts == faces[i].verts;
    assert Ring(verts, g, vpp) == Ring(verts, faces[i], vpp);
  }

  /** The faces `faces_calc_params` keeps are well shaped, have Newell normals and can be integrated. */
  lemma CalcParamsShape(verts: seq<Vec>, faces: seq<Face>, vpp: int)
    requires vpp >= 1 && UniformFaces(faces, vpp, |verts|)
    ensures UniformFaces(CalcParams(verts, faces, vpp), vpp, |verts|)
    ensures Integrable(verts, CalcParams(verts, faces, vpp))
    ensures forall j :: 0 <= j < |CalcParams(verts, faces, vpp)| ==>
      NormalIsNewell(verts, CalcParams(verts, faces, vpp)[j], vpp)
  {
    var r := CalcParams(verts, faces, vpp);
    forall j | 0 <= j < |r|
      ensures FaceShape(r[j], vpp, |verts|) && r[j].norm != Zero && NormalIsNewell(verts, r[j], vpp)
    {
      SurvivorShape(verts, faces, vpp, r[j]);
    }
  }

  /** The faces after `reverse_polygons_orientation` on the first `numFaces` faces. */
  function ReverseAll(faces: seq<Face>, numFaces: int, vpp: nat): (r: seq<Face>)
    requires 0 <= numFaces <= |faces|
    requires forall i :: 0 <= i < numFaces ==> vpp <= |faces[i].verts| && vpp <= |faces[i].vertNorms|
    ensures |r| == |faces|
    ensures forall i :: 0 <= i < numFaces ==> r[i] == ReverseFace(faces[i], vpp)
    ensures forall i :: numFaces <= i < |faces| ==> r[i] == faces[i]
  {
    seq(|faces|, i requires 0 <= i < |faces| => if i < numFaces then ReverseFace(faces[i], vpp) else faces[i])
  }

  /** Reversing all faces twice restores them. */
  lemma ReverseAllTwice(faces: seq<Face>, numFaces: int, vpp: nat)
    requires 0 <= numFaces <= |faces|
    requires forall i :: 0 <= i < numFaces ==> vpp <= |faces[i].verts| && vpp <= |faces[i].vertNorms|
    ensures ReverseAll(ReverseAll(faces, numFaces, vpp), numFaces, vpp) == faces
  {
    var r := ReverseAll(ReverseAll(faces, numFaces, vpp), numFaces, vpp);
    forall i | 0 <= i < numFaces
      ensures r[i] == faces[i]
    {
      ReverseFaceTwice(faces[i], vpp);
    }
  }

  lemma ReverseAllShape(faces: seq<Face>, vpp: nat, vertexCount: int)
    requires UniformFaces(faces, vpp, vertexCount)
    ensures UniformFaces(ReverseAll(faces, |faces|, vpp), vpp, vertexCount)
  {
    var r := ReverseAll(faces, |faces|, vpp);
    forall i | 0 <= i < |r|
      ensures FaceShape(r[i], vpp, vertexCount)
    {
      assert r[i] == ReverseFace(faces[i], vpp);
      assert forall k :: 0 <= k < vpp ==> r[i].verts[k] == faces[i].verts[vpp - 1 - k];
    }
  }

  // ---------------------------------------------------------------------
  // Negative-volume repair

  /**
   * Recomputing the plane of a reversed face that lies on its own plane gives
   * the opposite normal and offset, and the reversed vertex order.
   */
  lemma FlipFace(verts: seq<Vec>, f: Face, vpp: int)
    requires vpp >= 1 && FaceShape(f, vpp, |verts|)
    requires NormalIsNewell(verts, f, vpp) && OnPlane(verts, f, vpp)
    ensures SlotsIndex(ReverseFace(f, vpp), vpp, |verts|)
    ensures Flipped(f, FaceParams(verts, ReverseFace(f, vpp), vpp))
  {
    var r := ReverseFace(f, vpp);
    ReverseFaceRing(verts, f, vpp);
    var q := Ring(verts, f, vpp);
    NewellReverse(q);
    VectorScaleInvert(VectorScaleVal, Newell(q));
    var g := FaceParams(verts, r, vpp);
    assert g.norm == Invert(f.norm);
    var last := verts[f.verts[vpp - 1]];
    assert r.verts[0] == f.verts[vpp - 1];
    PlaneOffsetInvert(f.norm, last);
    assert PlaneOffset(f.norm, last) == f.w;
    ReverseFaceReversedVerts(f, vpp);
  }

  lemma InvertNonZero(v: Vec)
    requires v != Zero
    ensures Invert(v) != Zero
  {
    InvertInvert(v);
    VecExt(Invert(Zero), Zero);
  }

  /** Every face lies on its own plane. */
  predicate AllOnPlane(verts: seq<Vec>, faces: seq<Face>, vpp: int)
    requires UniformFaces(faces, vpp, |verts|)
  {
    forall j :: 0 <= j < |faces| ==> OnPlane(verts, faces[j], vpp)
  }

  /** The faces left by `faces_calc_params` all lie on their planes. */
  predicate PlanarAfterParams(verts: seq<Vec>, faces: seq<Face>, vpp: int)
    requires vpp >= 1 && UniformFaces(faces, vpp, |verts|)
  {
    CalcParamsShape(verts, faces, vpp);
    AllOnPlane(verts, CalcParams(verts, faces, vpp), vpp)
  }

  /** The repair pass of `faces_calc_params_inv_neg_vol`: reverse every face, recompute the planes. */
  function RepairPass(verts: seq<Vec>, first: seq<Face>, vpp: int): seq<Face>
    requires vpp >= 1 && UniformFaces(first, vpp, |verts|)
  {
    ReverseAllShape(first, vpp, |verts|);
    CalcParams(verts, ReverseAll(first, |first|, vpp), vpp)
  }

  /** The repair pass keeps every reversed face, each the flip of its first-pass face. */
  lemma RepairPassFlips(verts: seq<Vec>, first: seq<Face>, vpp: int)
    requires vpp >= 1 && UniformFaces(first, vpp, |verts|)
    requires forall j :: 0 <= j < |first| ==> first[j].norm != Zero && NormalIsNewell(verts, first[j], vpp)
    requires AllOnPlane(verts, first, vpp)
    ensures |RepairPass(verts, first, vpp)| == |first|
    ensures forall j :: 0 <= j < |first| ==> Flipped(first[j], RepairPass(verts, first, vpp)[j])
  {
    ReverseAllShape(first, vpp, |verts|);
    var rev := ReverseAll(first, |first|, vpp);
    var all := ParamsAll(verts, rev, vpp);
    forall j | 0 <= j < |first|
      ensures Flipped(first[j], all[j]) && HasNormal(all[j])
    {
      FlipFace(verts, first[j], vpp);
      InvertNonZero(first[j].norm);
    }
    SurvivorsAll(all);
  }

  /**
   * When every face left by the first `faces_calc_params` lies on its plane,
   * the repair pass negates all volume integrals.
   */
  lemma RepairNegatesVolume(verts: seq<Vec>, faces: seq<Face>, vpp: int)
    requires vpp >= 1 && UniformFaces(faces, vpp, |verts|)
    requires PlanarAfterParams(verts, faces, vpp)
    ensures UniformFaces(CalcParams(verts, faces, vpp), vpp, |verts|)
    ensures Integrable(verts, CalcParams(verts, faces, vpp))
    ensures Integrable(verts, RepairPass(verts, CalcParams(verts, faces, vpp), vpp))
    ensures VolumeIntegrals(verts, RepairPass(verts, CalcParams(verts, faces, vpp), vpp))
         == NegVolume(VolumeIntegrals(verts, CalcParams(verts, faces, vpp)))
  {
    var first := CalcParams(verts, faces, vpp);
    CalcParamsShape(verts, faces, vpp);
    RepairPassFlips(verts, first, vpp);
    VolumeIntegralsFlipped(verts, first, RepairPass(verts, first, vpp));
  }

  /** Whether `check_volume` finds the faces left by the first `faces_calc_params` of negative volume. */
  predicate FirstPassNegative(verts: seq<Vec>, faces: seq<Face>, vpp: int)
    requires vpp >= 1 && UniformFaces(faces, vpp, |verts|)
  {
    CalcParamsShape(verts, faces, vpp);
    VolumeIntegrals(verts, CalcParams(verts, faces, vpp)).t0 < 0.0
  }

  /** The faces after `faces_calc_params_inv_neg_vol`. */
  function CalcParamsInvNegVol(verts: seq<Vec>, faces: seq<Face>, vpp: int): seq<Face>
    requires vpp >= 1 && UniformFaces(faces, vpp, |verts|)
  {
    CalcParamsShape(verts, faces, vpp);
    var first := CalcParams(verts, faces, vpp);
    if FirstPassNegative(verts, faces, vpp) then RepairPass(verts, first, vpp) else first
  }

  lemma InvNegVolCases(verts: seq<Vec>, faces: seq<Face>, vpp: int)
    requires vpp >= 1 && UniformFaces(faces, vpp, |verts|)
    ensures UniformFaces(CalcParams(verts, faces, vpp), vpp, |verts|)
    ensures Integrable(verts, CalcParams(verts, faces, vpp))
    ensures FirstPassNegative(verts, faces, vpp) <==> VolumeIntegrals(verts, CalcParams(verts, faces, vpp)).t0 < 0.0
    ensures CalcParamsInvNegVol(verts, faces, vpp) ==
      if FirstPassNegative(verts, faces, vpp) then RepairPass(verts, CalcParams(verts, faces, vpp), vpp)
      else CalcParams(verts, faces, vpp)
  {
    CalcParamsShape(verts, faces, vpp);
  }

  /** The two paths of `faces_calc_params_inv_neg_vol` end in its specification. */
  lemma InvNegVolOutcome(verts: seq<Vec>, faces: seq<Face>, vpp: int, first: seq<Face>, volume: real,
                         final: seq<Face>, norms: seq<Vec>, finalNorms: seq<Vec>)
    requires vpp >= 1 && UniformFaces(faces, vpp, |verts|)
    requires first == CalcParams(verts, faces, vpp) && UniformFaces(first, vpp, |verts|)
    requires Integrable(verts, first) && volume == VolumeIntegrals(verts, first).t0
    requires volume < 0.0 ==> final == RepairPass(verts, first, vpp) && finalNorms == InvertAll(norms)
    requires volume >= 0.0 ==> final == first && finalNorms == norms
    ensures final == CalcParamsInvNegVol(verts, faces, vpp)
    ensures finalNorms == if FirstPassNegative(verts, faces, vpp) then InvertAll(norms) else norms
  {
  }

  /** With planar faces, `faces_calc_params_inv_neg_vol` leaves a non-negative signed volume. */
  lemma InvNegVolNonNegative(verts: seq<Vec>, faces: seq<Face>, vpp: int)
    requires vpp >= 1 && UniformFaces(faces, vpp, |verts|)
    requires PlanarAfterParams(verts, faces, vpp)
    ensures Integrable(verts, CalcParamsInvNegVol(verts, faces, vpp))
    ensures VolumeIntegrals(verts, CalcParamsInvNegVol(verts, faces, vpp)).t0 >= 0.0
  {
    RepairNegatesVolume(verts, faces, vpp);
  }

  /** Every vertex normal negated (`invertVertNorms`). */
  function InvertAll(ns: seq<Vec>): (r: seq<Vec>)
    ensures |r| == |ns| && forall i :: 0 <= i < |ns| ==> r[i] == Invert(ns[i])
  {
    seq(|ns|, i requires 0 <= i < |ns| => Invert(ns[i]))
  }

  lemma InvertAllTwice(ns: seq<Vec>)
    ensures InvertAll(InvertAll(ns)) == ns
  {
    var r := InvertAll(InvertAll(ns));
    forall i | 0 <= i < |ns|
      ensures r[i] == ns[i]
    {
      InvertInvert(ns[i]);
    }
  }

  /** A 3 x 3 matrix such as the inertia tensor J, by rows. */
  type Matrix = m: seq<Vec> | |m| == 3 witness [Zero, Zero, Zero]

  const ZeroMatrix: Matrix := [Zero, Zero, Zero]


  /**
   * The body of `reverse_polygons_orientation` for one face: the first `n`
   * vertex and normal indices copied back to front into `newVerts` and
   * `newVertNorms`, which then replace them.
   */
  method ReverseFaceSlots(f: Face, n: nat) returns (g: Face)
    requires n <= |f.verts| && n <= |f.vertNorms|
    ensures g == ReverseFace(f, n)
  {
    var newVerts := seq(n, _ => 0);
    var newVertNorms := seq(n, _ => 0);
    var curNew := n - 1;
    for curOrig := 0 to n
      invariant curNew == n - 1 - curOrig
      invariant |newVerts| == n && |newVertNorms| == n
      invariant forall k :: n - curOrig <= k < n ==> newVerts[k] == f.verts[n - 1 - k]
      invariant forall k :: n - curOrig <= k < n ==> newVertNorms[k] == f.vertNorms[n - 1 - k]
    {
      newVerts := newVerts[curNew := f.verts[curOrig]];
      newVertNorms := newVertNorms[curNew := f.vertNorms[curOrig]];
      curNew := curNew - 1;
    }
    assert newVerts + f.verts[n..] == ReversePrefix(f.verts, n);
    assert newVertNorms + f.vertNorms[n..] == ReversePrefix(f.vertNorms, n);
    g := f.(verts := newVerts + f.verts[n..], vertNorms := newVertNorms + f.vertNorms[n..]);
  }

  /** The loop of `face_calc_normal`: the Newell sum over the first `n` vertices of `f`. */
  method FaceNormal(verts: seq<Vec>, f: Face, n: int) returns (normal: Vec)
    requires SlotsIndex(f, n, |verts|)
    ensures normal == Newell(Ring(verts, f, n))
  {
    ghost var q := Ring(verts, f, n);
    normal := Zero;
    for curVert := 0 to n
      invariant normal == NewellSum(q, curVert)
    {
      var current := verts[f.verts[curVert]];
      var next := verts[f.verts[(curVert + 1) % n]];
      normal := Plus(normal, NewellTerm(current, next));
    }
  }

  /** One step of the first loop of `faces_calc_params`: the scaled normal, then the offset through slot 0. */
  method FacePlane(verts: seq<Vec>, f: Face, vpp: int) returns (g: Face)
    requires vpp >= 1 && SlotsIndex(f, vpp, |verts|)
    ensures g == FaceParams(verts, f, vpp)
  {
    var normal := FaceNormal(verts, f, vpp);
    g := f.(norm := VectorScale(VectorScaleVal, normal));
    var w := PlaneOffset(g.norm, verts[g.verts[0]]);
    g := g.(w := w);
  }

  /**
   * The first loop of `faces_calc_params`, on the face list: each face's
   * plane in turn (normal first, then the offset from that normal), and the
   * set of faces left without a normal.
   */
  method RecomputePlanes(verts: seq<Vec>, faces: seq<Face>, vpp: int) returns (planes: seq<Face>, badPolygons: set<int>)
    requires vpp >= 1 && AllSlotsIndex(faces, vpp, |verts|)
    ensures planes == ParamsAll(verts, faces, vpp)
    ensures MarksExactly(planes, badPolygons)
  {
    planes := faces;
    badPolygons := {};
    for faceInd := 0 to |faces|
      invariant |planes| == |faces|
      invariant forall j :: 0 <= j < faceInd ==> planes[j] == FaceParams(verts, faces[j], vpp)
      invariant forall j :: 0 <= j < faceInd ==> (j in badPolygons <==> !HasNormal(planes[j]))
      invariant forall j :: j in badPolygons ==> j < faceInd
    {
      var g := FacePlane(verts, faces[faceInd], vpp);
      planes := planes[faceInd := g];
      if Length(g.norm) == 0.0 {
        badPolygons := badPolygons + {faceInd};
      }
    }
  }

  /** Both loops of `faces_calc_params` on the face list. */
  method PlanesAndErase(verts: seq<Vec>, faces: seq<Face>, vpp: int) returns (kept: seq<Face>)
    requires vpp >= 1 && AllSlotsIndex(faces, vpp, |verts|)
    ensures kept == CalcParams(verts, faces, vpp)
  {
    var planes, badPolygons := RecomputePlanes(verts, faces, vpp);
    kept := EraseMarked(planes, badPolygons);
  }

  /** `badPolygons` holds exactly the indices of the faces without a normal. */
  predicate MarksExactly(faces: seq<Face>, badPolygons: set<int>)
  {
    forall j :: 0 <= j < |faces| ==> (j in badPolygons <==> !HasNormal(faces[j]))
  }

  /** The `erase(remove_if(...))` of `faces_calc_params`: drops the faces whose index is marked. */
  method EraseMarked(faces: seq<Face>, badPolygons: set<int>) returns (kept: seq<Face>)
    requires MarksExactly(faces, badPolygons)
    ensures kept == Survivors(faces)
  {
    kept := [];
    for curFN := 0 to |faces|
      invariant kept == Survivors(faces[..curFN])
    {
      SurvivorsStep(faces, curFN);
      if curFN !in badPolygons {
        kept := kept + [faces[curFN]];
      }
    }
    assert faces[..|faces|] == faces;
  }
}
