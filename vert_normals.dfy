/**
 * `polyhedron::recalc_vertNorms`: one normal per (face, slot), smoothed over
 * the neighbouring faces whose normals are close enough in angle, normalised,
 * merged into groups of equal normals and renumbered.
 *
 * Every stage is a method whose loop is proved against a function of its
 * inputs; the lemmas at the end state what the stages promise together.
 */
module VertNormals {
  import opened Common
  import opened Geometry
  import opened VolInt

  // ---------------------------------------------------------------------
  // Slot numbering

  /** Slot `k` of face `f` gets normal index `f * vpp + k`. */
  function SlotId(f: int, k: int, vpp: int): int
  {
    f * vpp + k
  }

  /** Face `i` with normal slots 0 .. vpp - 1 numbered `i * vpp + k`, the other slots kept. */
  function NumberedFace(f: Face, i: int, vpp: nat): (g: Face)
    requires vpp <= |f.vertNorms|
  {
    f.(vertNorms := seq(vpp, k => SlotId(i, k, vpp)) + f.vertNorms[vpp..])
  }

  /** Every slot of every face numbered. */
  predicate Numbered(faces: seq<Face>, vpp: nat)
  {
    forall i, k :: 0 <= i < |faces| && 0 <= k < vpp ==>
      k < |faces[i].vertNorms| && faces[i].vertNorms[k] == SlotId(i, k, vpp)
  }

  lemma MulMonotone(a: int, b: int, n: nat)
    requires a <= b
    ensures a * n <= b * n
  {
  }

  /** The slot ids are distinct: two slots share an id exactly when they are the same slot. */
  lemma SlotIdsDistinct(vpp: nat, i1: int, k1: int, i2: int, k2: int)
    requires 0 <= k1 < vpp && 0 <= k2 < vpp
    ensures SlotId(i1, k1, vpp) == SlotId(i2, k2, vpp) <==> i1 == i2 && k1 == k2
  {
    if i1 < i2 {
      MulMonotone(i1 + 1, i2, vpp);
    } else if i2 < i1 {
      MulMonotone(i2 + 1, i1, vpp);
    }
  }

  /** The slot ids of `numFaces` faces are exactly 0 .. numFaces * vpp - 1. */
  lemma SlotIdRange(vpp: nat, numFaces: int, i: int, k: int)
    requires 0 <= i < numFaces && 0 <= k < vpp
    ensures 0 <= SlotId(i, k, vpp) < numFaces * vpp
  {
    MulMonotone(0, i, vpp);
    MulMonotone(i + 1, numFaces, vpp);
  }

  /** A slot id names its face and slot back: `x / vpp` and `x % vpp`. */
  lemma SlotIdDivMod(vpp: nat, i: int, k: int)
    requires 0 <= i && 0 <= k < vpp
    ensures SlotId(i, k, vpp) / vpp == i && SlotId(i, k, vpp) % vpp == k
  {
    var x := SlotId(i, k, vpp);
    var q, r := x / vpp, x % vpp;
    assert x == q * vpp + r;
    SlotIdsDistinct(vpp, q, r, i, k);
  }

  /** The first loop of `recalc_vertNorms`: numbers the normal slots of every face in order. */
  method NumberSlots(faces: seq<Face>, vpp: nat) returns (r: seq<Face>)
    requires forall i :: 0 <= i < |faces| ==> vpp <= |faces[i].vertNorms|
    ensures |r| == |faces|
    ensures forall i :: 0 <= i < |faces| ==> r[i] == NumberedFace(faces[i], i, vpp)
    ensures Numbered(r, vpp)
    ensures forall i :: 0 <= i < |faces| ==>
      r[i].(vertNorms := faces[i].vertNorms) == faces[i] && |r[i].vertNorms| == |faces[i].vertNorms|
  {
    r := faces;
    var normInd := 0;
    for faceInd := 0 to |faces|
      invariant |r| == |faces| && normInd == faceInd * vpp
      invariant forall i :: 0 <= i < faceInd ==> r[i] == NumberedFace(faces[i], i, vpp)
      invariant forall i :: faceInd <= i < |faces| ==> r[i] == faces[i]
    {
      var ns := faces[faceInd].vertNorms;
      for normFInd := 0 to vpp
        invariant |ns| == |faces[faceInd].vertNorms|
        invariant normInd == SlotId(faceInd, normFInd, vpp)
        invariant forall k :: 0 <= k < normFInd ==> ns[k] == SlotId(faceInd, k, vpp)
        invariant forall k :: normFInd <= k < |ns| ==> ns[k] == faces[faceInd].vertNorms[k]
      {
        ns := ns[normFInd := normInd];
        normInd := normInd + 1;
      }
      assert ns == seq(vpp, k => SlotId(faceInd, k, vpp)) + faces[faceInd].vertNorms[vpp..];
      r := r[faceInd := faces[faceInd].(vertNorms := ns)];
    }
  }

  // ---------------------------------------------------------------------
  // Raw face normals and vertex angles

  /** The Newell normal of every face, before any scaling (`raw_face_norms`). */
  function RawFaceNorms(verts: seq<Vec>, faces: seq<Face>, vpp: int): (r: seq<Vec>)
    requires AllSlotsIndex(faces, vpp, |verts|)
    ensures |r| == |faces|
  {
    seq(|faces|, i requires 0 <= i < |faces| => Newell(Ring(verts, faces[i], vpp)))
  }

  /** The second loop of `recalc_vertNorms`: `face_calc_normal` of every face. */
  method CalcRawFaceNorms(verts: seq<Vec>, faces: seq<Face>, vpp: int) returns (r: seq<Vec>)
    requires AllSlotsIndex(faces, vpp, |verts|)
    ensures r == RawFaceNorms(verts, faces, vpp)
  {
    r := [];
    for faceInd := 0 to |faces|
      invariant |r| == faceInd
      invariant forall i :: 0 <= i < faceInd ==> r[i] == Newell(Ring(verts, faces[i], vpp))
    {
      var normal := FaceNormal(verts, faces[faceInd], vpp);
      r := r + [normal];
    }
  }

  /** The slots before and after slot `k` around a face of `n` vertices, wrapping at both ends. */
  function PrevSlot(k: int, n: int): int
    requires n >= 1
  {
    (k - 1 + n) % n
  }

  function NextSlot(k: int, n: int): int
    requires n >= 1
  {
    (k + 1) % n
  }

  lemma ModBelow(x: int, n: int)
    requires 0 <= x < n
    ensures x % n == x
  {
  }

  lemma ModOnce(x: int, n: int)
    requires n <= x < 2 * n
    ensures x % n == x - n
  {
    var q, r := x / n, x % n;
    assert x == q * n + r;
    if q > 1 {
      MulMonotone(2, q, n);
    }
  }

  /** `PrevSlot` and `NextSlot` are the ring neighbours of `k`, and inverse to each other. */
  lemma SlotNeighbours(k: int, n: int)
    requires n >= 1 && 0 <= k < n
    ensures PrevSlot(k, n) == if k == 0 then n - 1 else k - 1
    ensures NextSlot(k, n) == if k == n - 1 then 0 else k + 1
    ensures NextSlot(PrevSlot(k, n), n) == k && PrevSlot(NextSlot(k, n), n) == k
  {
    if k == 0 {
      ModBelow(n - 1, n);
    } else {
      ModOnce(k - 1 + n, n);
    }
    if k == n - 1 {
      ModOnce(n, n);
    } else {
      ModBelow(k + 1, n);
    }
    var p, q := PrevSlot(k, n), NextSlot(k, n);
    if p == n - 1 {
      ModOnce(n, n);
    } else {
      ModBelow(p + 1, n);
    }
    if q == 0 {
      ModBelow(n - 1, n);
    } else {
      ModOnce(q - 1 + n, n);
    }
  }

  /** A face whose `numVerts` slots name vertices. */
  predicate Polygon(verts: seq<Vec>, f: Face)
  {
    f.numVerts >= 1 && SlotsIndex(f, f.numVerts, |verts|)
  }

  /**
   * `get_vertex_angle`: the angle at slot `k` between the edges to the
   * previous and to the next vertex, around the face's `numVerts` vertices.
   */
  function VertexAngle(verts: seq<Vec>, f: Face, k: int): real
    requires Polygon(verts, f) && 0 <= k < f.numVerts
  {
    var n := f.numVerts;
    var cur := verts[f.verts[k]];
    VectorAngle(Minus(cur, verts[f.verts[PrevSlot(k, n)]]), Minus(cur, verts[f.verts[NextSlot(k, n)]]))
  }

  /** Reading the ring backwards gives the same angle at every vertex. */
  lemma VertexAngleReversed(verts: seq<Vec>, f: Face, k: int)
    requires Polygon(verts, f) && 0 <= k < f.numVerts && f.numVerts <= |f.vertNorms|
    ensures Polygon(verts, ReverseFace(f, f.numVerts))
    ensures VertexAngle(verts, ReverseFace(f, f.numVerts), f.numVerts - 1 - k) == VertexAngle(verts, f, k)
  {
    var n := f.numVerts;
    var g := ReverseFace(f, n);
    var j := n - 1 - k;
    SlotNeighbours(k, n);
    SlotNeighbours(j, n);
    assert g.verts[j] == f.verts[k];
    assert g.verts[PrevSlot(j, n)] == f.verts[NextSlot(k, n)];
    assert g.verts[NextSlot(j, n)] == f.verts[PrevSlot(k, n)];
    var cur := verts[f.verts[k]];
    VectorAngleSymmetric(Minus(cur, verts[f.verts[PrevSlot(k, n)]]), Minus(cur, verts[f.verts[NextSlot(k, n)]]));
  }

  // ---------------------------------------------------------------------
  // Faces around a vertex

  /** Every face has at least `vpp` vertex slots. */
  predicate HasSlots(faces: seq<Face>, vpp: int)
  {
    0 <= vpp && forall i :: 0 <= i < |faces| ==> vpp <= |faces[i].verts|
  }

  /** Vertex `v` is among the first `vpp` vertices of `f`. */
  predicate HasVertex(f: Face, v: int, vpp: int)
    requires 0 <= vpp <= |f.verts|
  {
    v in f.verts[..vpp]
  }

  /** The faces containing vertex `v`: `vert_to_faces_map[v]`, empty for a vertex no face uses. */
  function FacesAt(faces: seq<Face>, vpp: int, v: int): set<int>
    requires HasSlots(faces, vpp)
  {
    set i | 0 <= i < |faces| && HasVertex(faces[i], v, vpp)
  }

  /**
   * The last of the first `n` slots of `f` holding vertex `v`, or -1: the
   * slot `vert_to_faces_map_with_vert_f_num[v][f]` ends with, since a later
   * slot overwrites an earlier one.
   */
  function LastSlot(f: Face, v: int, n: int): (k: int)
    requires 0 <= n <= |f.verts|
    ensures -1 <= k < n
    ensures k >= 0 ==> f.verts[k] == v
    ensures forall j :: k < j < n ==> f.verts[j] != v
    ensures k == -1 <==> !HasVertex(f, v, n)
  {
    if n == 0 then -1
    else if f.verts[n - 1] == v then n - 1
    else
      var k := LastSlot(f, v, n - 1);
      assert f.verts[..n] == f.verts[..n - 1] + [f.verts[n - 1]];
      k
  }

  /** The looked-up set of a `vert_to_faces_map`, with `operator[]`'s empty default. */
  function SetAt(m: map<int, set<int>>, v: int): set<int>
  {
    if v in m then m[v] else {}
  }

  /**
   * The third loop of `recalc_vertNorms`: for every slot of every face,
   * the face is added to the vertex's set and the slot recorded against
   * the (vertex, face) pair.
   */
  method VertToFaces(faces: seq<Face>, vpp: int) returns (vertFaces: map<int, set<int>>, vertSlot: map<(int, int), int>)
    requires HasSlots(faces, vpp)
    ensures forall v, i {:trigger i in SetAt(vertFaces, v)} :: i in SetAt(vertFaces, v) ==> 0 <= i < |faces| && HasVertex(faces[i], v, vpp)
    ensures forall v, i :: 0 <= i < |faces| && HasVertex(faces[i], v, vpp) ==> i in SetAt(vertFaces, v)
    ensures forall v, i :: (v, i) in vertSlot ==> 0 <= i < |faces| && HasVertex(faces[i], v, vpp)
    ensures forall v, i :: 0 <= i < |faces| && HasVertex(faces[i], v, vpp) ==> (v, i) in vertSlot
    ensures forall v, i :: (v, i) in vertSlot ==> vertSlot[(v, i)] == LastSlot(faces[i], v, vpp)
  {
    vertFaces, vertSlot := map[], map[];
    var faceInd := 0;
    while faceInd < |faces|
      invariant 0 <= faceInd <= |faces|
      invariant forall v, i {:trigger i in SetAt(vertFaces, v)} :: i in SetAt(vertFaces, v) ==> 0 <= i < faceInd && HasVertex(faces[i], v, vpp)
      invariant forall v, i :: 0 <= i < faceInd && HasVertex(faces[i], v, vpp) ==> i in SetAt(vertFaces, v)
      invariant forall v, i :: (v, i) in vertSlot ==> 0 <= i < faceInd && HasVertex(faces[i], v, vpp)
      invariant forall v, i :: 0 <= i < faceInd && HasVertex(faces[i], v, vpp) ==> (v, i) in vertSlot
      invariant forall v, i :: (v, i) in vertSlot ==> vertSlot[(v, i)] == LastSlot(faces[i], v, vpp)
    {
      vertFaces, vertSlot := AddFace(vertFaces, vertSlot, faces[faceInd], faceInd, vpp);
      faceInd := faceInd + 1;
    }
  }

  /** The inner loop of `VertToFaces`, over the slots of face `faceInd`. */
  method AddFace(vertFaces: map<int, set<int>>, vertSlot: map<(int, int), int>, f: Face, faceInd: int, vpp: int)
    returns (vf: map<int, set<int>>, vs: map<(int, int), int>)
    requires 0 <= vpp <= |f.verts|
    ensures forall v, i :: i in SetAt(vf, v) <==> i in SetAt(vertFaces, v) || (i == faceInd && HasVertex(f, v, vpp))
    ensures forall v :: faceInd in SetAt(vf, v) <==> faceInd in SetAt(vertFaces, v) || HasVertex(f, v, vpp)
    ensures forall v, i :: (v, i) in vs <==> (v, i) in vertSlot || (i == faceInd && HasVertex(f, v, vpp))
    ensures forall v :: (v, faceInd) in vs <==> (v, faceInd) in vertSlot || HasVertex(f, v, vpp)
    ensures forall v, i :: (v, i) in vs && i != faceInd ==> vs[(v, i)] == vertSlot[(v, i)]
    ensures forall v :: (v, faceInd) in vs && HasVertex(f, v, vpp) ==> vs[(v, faceInd)] == LastSlot(f, v, vpp)
  {
    vf, vs := vertFaces, vertSlot;
    for vertFInd := 0 to vpp
      invariant forall v, i :: i in SetAt(vf, v) <==> i in SetAt(vertFaces, v) || (i == faceInd && HasVertex(f, v, vertFInd))
      invariant forall v, i :: (v, i) in vs <==> (v, i) in vertSlot || (i == faceInd && HasVertex(f, v, vertFInd))
      invariant forall v, i :: (v, i) in vs && i != faceInd ==> vs[(v, i)] == vertSlot[(v, i)]
      invariant forall v :: (v, faceInd) in vs && HasVertex(f, v, vertFInd) ==> vs[(v, faceInd)] == LastSlot(f, v, vertFInd)
    {
      var vertInd := f.verts[vertFInd];
      assert f.verts[..vertFInd + 1] == f.verts[..vertFInd] + [vertInd];
      vf := vf[vertInd := SetAt(vf, vertInd) + {faceInd}];
      vs := vs[(vertInd, faceInd) := vertFInd];
    }
  }

  // ---------------------------------------------------------------------
  // Angles between faces

  /** Faces `a` and `b` share one of the vertices 0 .. u - 1. */
  predicate ShareVertexBelow(faces: seq<Face>, vpp: int, a: int, b: int, u: int)
    requires HasSlots(faces, vpp) && 0 <= a < |faces| && 0 <= b < |faces|
  {
    exists w :: 0 <= w < u && HasVertex(faces[a], w, vpp) && HasVertex(faces[b], w, vpp)
  }

  /** `(a, b)` is a key of `angles_between_faces` once the vertices 0 .. u - 1 are done. */
  predicate PairedBelow(faces: seq<Face>, vpp: int, u: int, a: int, b: int)
    requires HasSlots(faces, vpp)
  {
    0 <= a < |faces| && 0 <= b < |faces| && a != b && ShareVertexBelow(faces, vpp, a, b, u)
  }

  /** One more vertex adds exactly the pairs of distinct faces through it. */
  lemma PairedBelowStep(faces: seq<Face>, vpp: int, u: int, a: int, b: int)
    requires HasSlots(faces, vpp) && 0 <= u
    ensures PairedBelow(faces, vpp, u + 1, a, b) <==> (PairedBelow(faces, vpp, u, a, b)
      || (0 <= a < |faces| && 0 <= b < |faces| && a != b && HasVertex(faces[a], u, vpp) && HasVertex(faces[b], u, vpp)))
  {
    if 0 <= a < |faces| && 0 <= b < |faces| && a != b && HasVertex(faces[a], u, vpp) && HasVertex(faces[b], u, vpp) {
      assert 0 <= u < u + 1;
    }
  }

  /** The angle between the stored normals of faces `a` and `b`. */
  function FaceAngle(faces: seq<Face>, a: int, b: int): real
    requires 0 <= a < |faces| && 0 <= b < |faces|
  {
    VectorAngle(faces[a].norm, faces[b].norm)
  }

  /** An angle map holding, for each key, the angle between the two faces it names. */
  ghost predicate AnglesOfFaces(faces: seq<Face>, angles: map<(int, int), real>)
  {
    forall x, y :: (x, y) in angles ==> 0 <= x < |faces| && 0 <= y < |faces| && angles[(x, y)] == FaceAngle(faces, x, y)
  }

  /** A key set closed under swapping the two faces. */
  ghost predicate SymmetricKeys(angles: map<(int, int), real>)
  {
    forall x, y :: (x, y) in angles ==> (y, x) in angles
  }

  /**
   * The fourth loop of `recalc_vertNorms`: for every vertex below
   * `numVerts`, every ordered pair of distinct faces through it gets the
   * angle between their normals, under both orders, unless already there.
   */
  method AnglesBetweenFaces(faces: seq<Face>, vpp: int, numVerts: int, vertFaces: map<int, set<int>>)
    returns (angles: map<(int, int), real>)
    requires HasSlots(faces, vpp) && 0 <= numVerts
    requires forall v, i {:trigger i in SetAt(vertFaces, v)} :: i in SetAt(vertFaces, v) ==> 0 <= i < |faces| && HasVertex(faces[i], v, vpp)
    requires forall v, i :: 0 <= i < |faces| && HasVertex(faces[i], v, vpp) ==> i in SetAt(vertFaces, v)
    ensures forall a, b :: (a, b) in angles <==> PairedBelow(faces, vpp, numVerts, a, b)
    ensures AnglesOfFaces(faces, angles)
  {
    angles := map[];
    for vertInd := 0 to numVerts
      invariant forall a, b :: (a, b) in angles <==> PairedBelow(faces, vpp, vertInd, a, b)
      invariant AnglesOfFaces(faces, angles)
    {
      var star := SetAt(vertFaces, vertInd);
      angles := AnglesAtVertex(faces, star, angles);
      forall a, b
        ensures (a, b) in angles <==> PairedBelow(faces, vpp, vertInd + 1, a, b)
      {
        PairedBelowStep(faces, vpp, vertInd, a, b);
      }
    }
  }

  lemma HasMember(s: set<int>)
    requires s != {}
    ensures exists x :: x in s
  {
    if forall x :: x !in s {
      assert false;
    }
  }

  /**
   * The loops over `vert_to_faces_map[vert_ind]` for one vertex, whose faces
   * are `star`: every ordered pair of distinct faces of `star` is keyed.
   */
  method AnglesAtVertex(faces: seq<Face>, star: set<int>, angles0: map<(int, int), real>)
    returns (angles: map<(int, int), real>)
    requires forall i :: i in star ==> 0 <= i < |faces|
    requires AnglesOfFaces(faces, angles0) && SymmetricKeys(angles0)
    ensures forall x, y :: (x, y) in angles <==> (x, y) in angles0 || (x != y && x in star && y in star)
    ensures AnglesOfFaces(faces, angles)
  {
    angles := angles0;
    var outer := star;
    while outer != {}
      invariant outer <= star
      invariant forall x, y :: (x, y) in angles <==>
        (x, y) in angles0 || (x != y && x in star && y in star && (x !in outer || y !in outer))
      invariant AnglesOfFaces(faces, angles)
      decreases |outer|
    {
      HasMember(outer);
      var a :| a in outer;
      angles := AnglesWithFace(faces, a, star, angles);
      outer := outer - {a};
    }
  }

  /**
   * The inner loop for face `a`: every other face `b` of `star` gets the angle
   * between the two normals under the keys (a, b) and (b, a), unless (a, b)
   * is already there.
   */
  method AnglesWithFace(faces: seq<Face>, a: int, star: set<int>, angles0: map<(int, int), real>)
    returns (angles: map<(int, int), real>)
    requires 0 <= a < |faces| && forall i :: i in star ==> 0 <= i < |faces|
    requires AnglesOfFaces(faces, angles0) && SymmetricKeys(angles0)
    ensures forall x, y :: (x, y) in angles <==>
      (x, y) in angles0 || (x != y && ((x == a && y in star) || (y == a && x in star)))
    ensures AnglesOfFaces(faces, angles)
  {
    angles := angles0;
    var inner := star;
    while inner != {}
      invariant inner <= star
      invariant forall x, y :: (x, y) in angles <==>
        (x, y) in angles0 || (x != y && ((x == a && y in star && y !in inner) || (y == a && x in star && x !in inner)))
      invariant AnglesOfFaces(faces, angles)
      decreases |inner|
    {
      HasMember(inner);
      var b :| b in inner;
      if a != b && (a, b) !in angles {
        var angle := VectorAngle(faces[a].norm, faces[b].norm);
        VectorAngleSymmetric(faces[a].norm, faces[b].norm);
        angles := angles[(a, b) := angle][(b, a) := angle];
      }
      inner := inner - {b};
    }
  }

  /** The angle map is symmetric: both orders of a pair are keyed and carry the same angle. */
  lemma AnglesSymmetric(faces: seq<Face>, vpp: int, numVerts: int, angles: map<(int, int), real>, a: int, b: int)
    requires HasSlots(faces, vpp)
    requires forall x, y :: (x, y) in angles <==> PairedBelow(faces, vpp, numVerts, x, y)
    requires AnglesOfFaces(faces, angles)
    requires (a, b) in angles
    ensures (b, a) in angles && angles[(b, a)] == angles[(a, b)]
  {
    var w :| 0 <= w < numVerts && HasVertex(faces[a], w, vpp) && HasVertex(faces[b], w, vpp);
    assert PairedBelow(faces, vpp, numVerts, b, a);
    VectorAngleSymmetric(faces[a].norm, faces[b].norm);
  }

  // ---------------------------------------------------------------------
  // Smooth pairs

  /**
   * `smooth_faces`: the keyed face pairs whose angle exceeds
   * `max_smooth_angle` by less than `distinct_distance`.
   */
  function SmoothPairs(angles: map<(int, int), real>, maxSmoothAngle: real): set<(int, int)>
  {
    set p | p in angles && angles[p] - maxSmoothAngle < DistinctDistance
  }

  /** The fifth loop of `recalc_vertNorms`: every keyed pair is compared with the threshold. */
  method SmoothFaces(angles: map<(int, int), real>, maxSmoothAngle: real) returns (smooth: set<(int, int)>)
    ensures forall p :: p in smooth <==> p in angles && angles[p] - maxSmoothAngle < DistinctDistance
  {
    smooth := {};
    var todo := angles.Keys;
    while todo != {}
      invariant todo <= angles.Keys
      invariant forall p :: p in smooth <==>
        p in angles && p !in todo && angles[p] - maxSmoothAngle < DistinctDistance
      decreases |todo|
    {
      HasPairMember(todo);
      var p :| p in todo;
      if angles[p] - maxSmoothAngle < DistinctDistance {
        smooth := smooth + {p};
      }
      todo := todo - {p};
    }
  }

  lemma HasPairMember(s: set<(int, int)>)
    requires s != {}
    ensures exists x :: x in s
  {
    if forall x :: x !in s {
      assert false;
    }
  }

  /**
   * The smooth relation is symmetric, and it relates exactly the distinct
   * faces that share a vertex and meet at a small enough angle.
   */
  lemma SmoothSymmetric(faces: seq<Face>, vpp: int, numVerts: int, angles: map<(int, int), real>,
                        maxSmoothAngle: real, a: int, b: int)
    requires HasSlots(faces, vpp)
    requires forall x, y :: (x, y) in angles <==> PairedBelow(faces, vpp, numVerts, x, y)
    requires AnglesOfFaces(faces, angles)
    ensures (a, b) in SmoothPairs(angles, maxSmoothAngle) <==> (b, a) in SmoothPairs(angles, maxSmoothAngle)
    ensures (a, b) in SmoothPairs(angles, maxSmoothAngle) <==>
      PairedBelow(faces, vpp, numVerts, a, b) && FaceAngle(faces, a, b) - maxSmoothAngle < DistinctDistance
  {
    if (a, b) in angles {
      AnglesSymmetric(faces, vpp, numVerts, angles, a, b);
    }
    if (b, a) in angles {
      AnglesSymmetric(faces, vpp, numVerts, angles, b, a);
    }
  }

  // ---------------------------------------------------------------------
  // Vertex angles

  /** `vert_angles`: the angle at each of the first `vpp` slots of every face. */
  ghost predicate VertAnglesOf(verts: seq<Vec>, faces: seq<Face>, vpp: int, ang: seq<seq<real>>)
    requires vpp >= 1 && UniformFaces(faces, vpp, |verts|)
  {
    |ang| == |faces|
    && forall i :: 0 <= i < |faces| ==>
      |ang[i]| == vpp && forall k :: 0 <= k < vpp ==> ang[i][k] == VertexAngle(verts, faces[i], k)
  }

  /** The third loop of `recalc_vertNorms`: `get_vertex_angle` at every slot. */
  method CalcVertAngles(verts: seq<Vec>, faces: seq<Face>, vpp: int) returns (ang: seq<seq<real>>)
    requires vpp >= 1 && UniformFaces(faces, vpp, |verts|)
    ensures VertAnglesOf(verts, faces, vpp, ang)
  {
    ang := [];
    for faceInd := 0 to |faces|
      invariant |ang| == faceInd
      invariant forall i :: 0 <= i < faceInd ==>
        |ang[i]| == vpp && forall k :: 0 <= k < vpp ==> ang[i][k] == VertexAngle(verts, faces[i], k)
    {
      var row: seq<real> := [];
      for vertFInd := 0 to vpp
        invariant |row| == vertFInd
        invariant forall k :: 0 <= k < vertFInd ==> row[k] == VertexAngle(verts, faces[faceInd], k)
      {
        row := row + [VertexAngle(verts, faces[faceInd], vertFInd)];
      }
      ang := ang + [row];
    }
  }

  // ---------------------------------------------------------------------
  // Accumulated slot normals

  /** The per-face tables the accumulation reads. */
  predicate Tables(faces: seq<Face>, vpp: int, raw: seq<Vec>, ang: seq<seq<real>>)
  {
    HasSlots(faces, vpp) && |raw| == |faces| && |ang| == |faces|
    && forall i :: 0 <= i < |ang| ==> |ang[i]| == vpp
  }

  /** What face `g` adds at vertex `v`: its raw normal weighted by its angle at (the last slot holding) `v`. */
  function Contribution(faces: seq<Face>, vpp: int, raw: seq<Vec>, ang: seq<seq<real>>, g: int, v: int): Vec
    requires Tables(faces, vpp, raw, ang) && 0 <= g < |faces| && HasVertex(faces[g], v, vpp)
  {
    Scale(raw[g], ang[g][LastSlot(faces[g], v, vpp)])
  }

  /** Face `g` is a smooth neighbour of face `f` at vertex `v`. */
  predicate SmoothNeighbour(faces: seq<Face>, vpp: int, smooth: set<(int, int)>, f: int, v: int, g: int)
    requires HasSlots(faces, vpp) && 0 <= g < |faces|
  {
    g != f && HasVertex(faces[g], v, vpp) && (f, g) in smooth
  }

  /** The contributions of the smooth neighbours of `f` at `v` among faces 0 .. n - 1. */
  function NeighbourSum(faces: seq<Face>, vpp: int, raw: seq<Vec>, ang: seq<seq<real>>,
                        smooth: set<(int, int)>, f: int, v: int, n: nat): Vec
    requires Tables(faces, vpp, raw, ang) && n <= |faces|
  {
    if n == 0 then Zero
    else
      var s := NeighbourSum(faces, vpp, raw, ang, smooth, f, v, n - 1);
      if SmoothNeighbour(faces, vpp, smooth, f, v, n - 1)
      then Plus(s, Contribution(faces, vpp, raw, ang, n - 1, v)) else s
  }

  /** Without a smooth neighbour the sum is zero: a hard edge takes nothing from the other side. */
  lemma {:induction false} NoNeighbourSumZero(faces: seq<Face>, vpp: int, raw: seq<Vec>, ang: seq<seq<real>>,
                                              smooth: set<(int, int)>, f: int, v: int, n: nat)
    requires Tables(faces, vpp, raw, ang) && n <= |faces|
    requires forall g :: 0 <= g < n ==> !SmoothNeighbour(faces, vpp, smooth, f, v, g)
    ensures NeighbourSum(faces, vpp, raw, ang, smooth, f, v, n) == Zero
  {
    if n > 0 {
      NoNeighbourSumZero(faces, vpp, raw, ang, smooth, f, v, n - 1);
    }
  }

  /** Only the smooth neighbours count: two smooth relations that agree on them give the same sum. */
  lemma {:induction false} NeighbourSumDependsOnNeighbours(faces: seq<Face>, vpp: int, raw: seq<Vec>, ang: seq<seq<real>>,
                                                         s1: set<(int, int)>, s2: set<(int, int)>, f: int, v: int, n: nat)
    requires Tables(faces, vpp, raw, ang) && n <= |faces|
    requires forall g :: 0 <= g < n ==> (SmoothNeighbour(faces, vpp, s1, f, v, g) <==> SmoothNeighbour(faces, vpp, s2, f, v, g))
    ensures NeighbourSum(faces, vpp, raw, ang, s1, f, v, n) == NeighbourSum(faces, vpp, raw, ang, s2, f, v, n)
  {
    if n > 0 {
      NeighbourSumDependsOnNeighbours(faces, vpp, raw, ang, s1, s2, f, v, n - 1);
    }
  }

  /** The accumulated normal of slot `k` of face `f`, before normalisation. */
  function SlotNormal(faces: seq<Face>, vpp: int, raw: seq<Vec>, ang: seq<seq<real>>,
                      smooth: set<(int, int)>, f: int, k: int): Vec
    requires Tables(faces, vpp, raw, ang) && 0 <= f < |faces| && 0 <= k < vpp
  {
    Plus(Scale(raw[f], ang[f][k]), NeighbourSum(faces, vpp, raw, ang, smooth, f, faces[f].verts[k], |faces|))
  }

  /** A slot whose vertex has no smooth neighbouring face keeps its own weighted face normal. */
  lemma HardVertexKeepsFaceNormal(faces: seq<Face>, vpp: int, raw: seq<Vec>, ang: seq<seq<real>>,
                                  smooth: set<(int, int)>, f: int, k: int)
    requires Tables(faces, vpp, raw, ang) && 0 <= f < |faces| && 0 <= k < vpp
    requires forall g :: 0 <= g < |faces| ==> !SmoothNeighbour(faces, vpp, smooth, f, faces[f].verts[k], g)
    ensures SlotNormal(faces, vpp, raw, ang, smooth, f, k) == Scale(raw[f], ang[f][k])
  {
    NoNeighbourSumZero(faces, vpp, raw, ang, smooth, f, faces[f].verts[k], |faces|);
    PlusZero(Scale(raw[f], ang[f][k]));
  }

  /** The slot normals of faces 0 .. n - 1, in slot-id order. */
  function SlotNormals(faces: seq<Face>, vpp: int, raw: seq<Vec>, ang: seq<seq<real>>,
                       smooth: set<(int, int)>, n: nat): (r: seq<Vec>)
    requires Tables(faces, vpp, raw, ang) && n <= |faces|
    ensures |r| == n * vpp
  {
    if n == 0 then []
    else SlotNormals(faces, vpp, raw, ang, smooth, n - 1) + FaceRow(faces, vpp, raw, ang, smooth, n - 1)
  }

  /** Entry `f * vpp + k` of the slot normals is the normal of slot `k` of face `f`. */
  lemma {:induction false} SlotNormalsAt(faces: seq<Face>, vpp: int, raw: seq<Vec>, ang: seq<seq<real>>,
                                         smooth: set<(int, int)>, n: nat, f: int, k: int)
    requires Tables(faces, vpp, raw, ang) && n <= |faces| && 0 <= f < n && 0 <= k < vpp
    ensures 0 <= SlotId(f, k, vpp) < n * vpp
    ensures SlotNormals(faces, vpp, raw, ang, smooth, n)[SlotId(f, k, vpp)] == SlotNormal(faces, vpp, raw, ang, smooth, f, k)
  {
    SlotIdRange(vpp, n, f, k);
    var m := n - 1;
    if f < m {
      SlotNormalsAt(faces, vpp, raw, ang, smooth, m, f, k);
    } else {
      assert SlotId(f, k, vpp) == m * vpp + k;
    }
  }

  /** The slot normals of face `f`. */
  function FaceRow(faces: seq<Face>, vpp: int, raw: seq<Vec>, ang: seq<seq<real>>,
                   smooth: set<(int, int)>, f: int): (r: seq<Vec>)
    requires Tables(faces, vpp, raw, ang) && 0 <= f < |faces|
    ensures |r| == vpp
  {
    seq(vpp, k requires 0 <= k < vpp => SlotNormal(faces, vpp, raw, ang, smooth, f, k))
  }

  /** `vertFaces` and `vertSlot` are the two vertex-to-face maps built by `VertToFaces`. */
  ghost predicate Adjacency(faces: seq<Face>, vpp: int, vertFaces: map<int, set<int>>, vertSlot: map<(int, int), int>)
    requires HasSlots(faces, vpp)
  {
    (forall v, i :: 0 <= i < |faces| && HasVertex(faces[i], v, vpp) <==> i in SetAt(vertFaces, v))
    && (forall v, i :: 0 <= i < |faces| && HasVertex(faces[i], v, vpp) ==>
          (v, i) in vertSlot && vertSlot[(v, i)] == LastSlot(faces[i], v, vpp))
  }

  /**
   * The accumulation loop of `recalc_vertNorms`, writing into the slot's
   * numbered entry of `raw_vertNorms`; the neighbours of a vertex are visited
   * in increasing face order.
   */
  method AccumulateNormals(faces: seq<Face>, vpp: int, raw: seq<Vec>, ang: seq<seq<real>>,
                           smooth: set<(int, int)>, vertFaces: map<int, set<int>>, vertSlot: map<(int, int), int>)
    returns (rawVertNorms: seq<Vec>)
    requires Tables(faces, vpp, raw, ang) && Numbered(faces, vpp) && Adjacency(faces, vpp, vertFaces, vertSlot)
    ensures rawVertNorms == SlotNormals(faces, vpp, raw, ang, smooth, |faces|)
  {
    rawVertNorms := seq(|faces| * vpp, _ => Zero);
    for faceInd := 0 to |faces|
      invariant |rawVertNorms| == |faces| * vpp
      invariant rawVertNorms[..faceInd * vpp] == SlotNormals(faces, vpp, raw, ang, smooth, faceInd)
    {
      rawVertNorms := AccumulateFace(faces, vpp, raw, ang, smooth, vertFaces, vertSlot, faceInd, rawVertNorms);
      assert SlotNormals(faces, vpp, raw, ang, smooth, faceInd + 1)
          == SlotNormals(faces, vpp, raw, ang, smooth, faceInd) + FaceRow(faces, vpp, raw, ang, smooth, faceInd);
    }
    assert rawVertNorms[..|faces| * vpp] == rawVertNorms;
  }

  /** The slots of face `faceInd`: entries `faceInd * vpp` .. `faceInd * vpp + vpp - 1` written in turn. */
  method AccumulateFace(faces: seq<Face>, vpp: int, raw: seq<Vec>, ang: seq<seq<real>>,
                        smooth: set<(int, int)>, vertFaces: map<int, set<int>>, vertSlot: map<(int, int), int>,
                        faceInd: int, acc: seq<Vec>)
    returns (rawVertNorms: seq<Vec>)
    requires Tables(faces, vpp, raw, ang) && Numbered(faces, vpp) && Adjacency(faces, vpp, vertFaces, vertSlot)
    requires 0 <= faceInd < |faces| && |acc| == |faces| * vpp
    ensures |rawVertNorms| == |acc| && faceInd * vpp + vpp == (faceInd + 1) * vpp <= |acc|
    ensures rawVertNorms[..(faceInd + 1) * vpp] == acc[..faceInd * vpp] + FaceRow(faces, vpp, raw, ang, smooth, faceInd)
  {
    MulMonotone(0, faceInd, vpp);
    MulMonotone(faceInd + 1, |faces|, vpp);
    ghost var done := acc[..faceInd * vpp];
    ghost var row: seq<Vec> := [];
    ghost var normInd := faceInd * vpp;
    rawVertNorms := acc;
    for vertFInd := 0 to vpp
      invariant |rawVertNorms| == |acc| && normInd == SlotId(faceInd, vertFInd, vpp)
      invariant |row| == vertFInd
      invariant forall k :: 0 <= k < vertFInd ==> row[k] == SlotNormal(faces, vpp, raw, ang, smooth, faceInd, k)
      invariant rawVertNorms[..normInd] == done + row
    {
      SlotIdRange(vpp, |faces|, faceInd, vertFInd);
      var normIndHere := faces[faceInd].vertNorms[vertFInd];
      var curNorm := AccumulateSlot(faces, vpp, raw, ang, smooth, vertFaces, vertSlot, faceInd, vertFInd);
      ghost var before := rawVertNorms;
      rawVertNorms := rawVertNorms[normIndHere := curNorm];
      WriteAt(before, normInd, curNorm);
      AppendAssoc(done, row, curNorm);
      row := row + [curNorm];
      normInd := normInd + 1;
    }
    assert row == FaceRow(faces, vpp, raw, ang, smooth, faceInd);
  }

  /** Writing entry `i` extends the prefix before it by one element. */
  lemma WriteAt(s: seq<Vec>, i: int, x: Vec)
    requires 0 <= i < |s|
    ensures s[i := x][..i + 1] == s[..i] + [x]
  {
  }

  lemma AppendAssoc(a: seq<Vec>, b: seq<Vec>, x: Vec)
    ensures (a + b) + [x] == a + (b + [x])
  {
  }

  /** One slot of the accumulation loop: the own weighted normal plus the smooth neighbours' ones. */
  method AccumulateSlot(faces: seq<Face>, vpp: int, raw: seq<Vec>, ang: seq<seq<real>>,
                        smooth: set<(int, int)>, vertFaces: map<int, set<int>>, vertSlot: map<(int, int), int>,
                        faceInd: int, vertFInd: int)
    returns (curNorm: Vec)
    requires Tables(faces, vpp, raw, ang) && 0 <= faceInd < |faces| && 0 <= vertFInd < vpp
    requires Adjacency(faces, vpp, vertFaces, vertSlot)
    ensures curNorm == SlotNormal(faces, vpp, raw, ang, smooth, faceInd, vertFInd)
  {
    var vertInd := faces[faceInd].verts[vertFInd];
    curNorm := Scale(raw[faceInd], ang[faceInd][vertFInd]);
    var sum := NeighbourContributions(faces, vpp, raw, ang, smooth, vertFaces, vertSlot, faceInd, vertInd);
    curNorm := Plus(curNorm, sum);
  }

  /** The inner loop over `vert_to_faces_map[vert_ind]`: the sum of the smooth neighbours' contributions. */
  method NeighbourContributions(faces: seq<Face>, vpp: int, raw: seq<Vec>, ang: seq<seq<real>>,
                                smooth: set<(int, int)>, vertFaces: map<int, set<int>>, vertSlot: map<(int, int), int>,
                                faceInd: int, vertInd: int)
    returns (sum: Vec)
    requires Tables(faces, vpp, raw, ang)
    requires Adjacency(faces, vpp, vertFaces, vertSlot)
    ensures sum == NeighbourSum(faces, vpp, raw, ang, smooth, faceInd, vertInd, |faces|)
  {
    var star := SetAt(vertFaces, vertInd);
    sum := Zero;
    for faceToCmpInd := 0 to |faces|
      invariant sum == NeighbourSum(faces, vpp, raw, ang, smooth, faceInd, vertInd, faceToCmpInd)
    {
      if faceToCmpInd in star && faceInd != faceToCmpInd && (faceInd, faceToCmpInd) in smooth {
        var vertToCmpFInd := vertSlot[(vertInd, faceToCmpInd)];
        sum := Plus(sum, Scale(raw[faceToCmpInd], ang[faceToCmpInd][vertToCmpFInd]));
      }
    }
  }

  // ---------------------------------------------------------------------
  // Normalising and merging

  /** The normalising loop of `recalc_vertNorms`: `vector_scale_self(vector_scale_val, ·)` on every slot normal. */
  function Normalized(norms: seq<Vec>): (r: seq<Vec>)
    ensures |r| == |norms|
  {
    seq(|norms|, i requires 0 <= i < |norms| => VectorScale(VectorScaleVal, norms[i]))
  }

  /**
   * Normalising keeps each normal's direction: the result is a multiple of
   * the input, zero exactly when the input is, and on the same side when
   * the scale value is positive.
   */
  lemma NormalizedDirection(norms: seq<Vec>, i: int)
    requires 0 <= i < |norms| && VectorScaleVal != 0.0
    ensures Normalized(norms)[i] == Zero <==> norms[i] == Zero
    ensures exists s: real :: Normalized(norms)[i] == Scale(norms[i], s) && (VectorScaleVal > 0.0 ==> s >= 0.0)
  {
  }

  method NormalizeAll(norms: seq<Vec>) returns (r: seq<Vec>)
    ensures r == Normalized(norms)
  {
    r := norms;
    for i := 0 to |r|
      invariant |r| == |norms|
      invariant forall j :: 0 <= j < i ==> r[j] == VectorScale(VectorScaleVal, norms[j])
      invariant forall j :: i <= j < |r| ==> r[j] == norms[j]
    {
      r := r[i := VectorScale(VectorScaleVal, r[i])];
    }
  }

  /** Every id of every group is an index of `n` items, and no group is empty. */
  predicate GroupsIndex(groups: seq<seq<int>>, n: int)
  {
    forall g :: 0 <= g < |groups| ==> |groups[g]| > 0 && forall j :: 0 <= j < |groups[g]| ==> 0 <= groups[g][j] < n
  }

  /**
   * What `get_groups_of_connected_items` returns: the ids 0 .. n - 1 split
   * into non-empty groups, each id in exactly one of them.
   */
  ghost predicate IsPartition(groups: seq<seq<int>>, n: int)
  {
    GroupsIndex(groups, n)
    && (forall x :: 0 <= x < n ==> InSomeGroup(groups, x))
    && (forall g1, g2, x :: 0 <= g1 < |groups| && 0 <= g2 < |groups| && x in groups[g1] && x in groups[g2] ==> g1 == g2)
  }

  /** Id `x` belongs to one of the groups. */
  ghost predicate InSomeGroup(groups: seq<seq<int>>, x: int)
  {
    exists g :: 0 <= g < |groups| && x in groups[g]
  }

  /** The sum of the normals a group names, added in the group's order. */
  function SumOver(norms: seq<Vec>, ids: seq<int>): Vec
    requires forall j :: 0 <= j < |ids| ==> 0 <= ids[j] < |norms|
    decreases |ids|
  {
    if ids == [] then Zero else Plus(SumOver(norms, ids[..|ids| - 1]), norms[ids[|ids| - 1]])
  }

  /** The end normal of a group: the sum divided by the group's size. */
  function Average(norms: seq<Vec>, ids: seq<int>): Vec
    requires |ids| > 0 && forall j :: 0 <= j < |ids| ==> 0 <= ids[j] < |norms|
  {
    DivideBy(SumOver(norms, ids), |ids| as real)
  }

  /** A group of `m` copies of `v` sums to `m` times `v`. */
  lemma {:induction false} SumOverEqual(norms: seq<Vec>, ids: seq<int>, v: Vec)
    requires forall j :: 0 <= j < |ids| ==> 0 <= ids[j] < |norms| && norms[ids[j]] == v
    ensures SumOver(norms, ids) == Scale(v, |ids| as real)
    decreases |ids|
  {
    if ids == [] {
      VecExt(Zero, Scale(v, 0.0));
    } else {
      var front := ids[..|ids| - 1];
      assert forall j :: 0 <= j < |front| ==> front[j] == ids[j];
      SumOverEqual(norms, front, v);
      ScaleStep(v, |front| as real);
    }
  }

  lemma ScaleStep(v: Vec, m: real)
    ensures Plus(Scale(v, m), v) == Scale(v, m + 1.0)
  {
    VecExt(Plus(Scale(v, m), v), Scale(v, m + 1.0));
  }

  /** Averaging a group of equal normals gives that normal back. */
  lemma AverageOfEqual(norms: seq<Vec>, ids: seq<int>, v: Vec)
    requires |ids| > 0 && forall j :: 0 <= j < |ids| ==> 0 <= ids[j] < |norms| && norms[ids[j]] == v
    ensures Average(norms, ids) == v
  {
    SumOverEqual(norms, ids, v);
    VecExt(Average(norms, ids), v);
  }

  /** The averaging loop of `recalc_vertNorms`: end normal `g` is the average of group `g`. */
  method AverageGroups(norms: seq<Vec>, groups: seq<seq<int>>) returns (vertNorms: seq<Vec>)
    requires GroupsIndex(groups, |norms|)
    ensures |vertNorms| == |groups|
    ensures forall g :: 0 <= g < |groups| ==> vertNorms[g] == Average(norms, groups[g])
  {
    vertNorms := seq(|groups|, _ => Zero);
    for normInd := 0 to |groups|
      invariant |vertNorms| == |groups|
      invariant forall g :: 0 <= g < normInd ==> vertNorms[g] == Average(norms, groups[g])
    {
      var group := groups[normInd];
      var acc := Zero;
      for j := 0 to |group|
        invariant acc == SumOver(norms, group[..j])
      {
        assert group[..j + 1][..j] == group[..j];
        acc := Plus(acc, norms[group[j]]);
      }
      assert group[..|group|] == group;
      vertNorms := vertNorms[normInd := DivideBy(acc, |group| as real)];
    }
  }

  /**
   * The `raw_to_end_map` loop: every id of some group is mapped to a group
   * holding it, the last one when several do.
   */
  method RawToEndMap(groups: seq<seq<int>>) returns (m: map<int, int>)
    ensures forall x :: x in m <==> InSomeGroup(groups, x)
    ensures forall x :: x in m ==> 0 <= m[x] < |groups| && x in groups[m[x]]
    ensures forall x, h :: x in m && m[x] < h < |groups| ==> x !in groups[h]
  {
    m := map[];
    for normInd := 0 to |groups|
      invariant forall x :: x in m <==> exists g :: 0 <= g < normInd && x in groups[g]
      invariant forall x :: x in m ==> 0 <= m[x] < normInd && x in groups[m[x]]
      invariant forall x, h :: x in m && m[x] < h < normInd ==> x !in groups[h]
    {
      m := AddGroup(m, groups, normInd);
    }
  }

  /** The inner loop of `raw_to_end_map`: every id of group `g` now maps to `g`. */
  method AddGroup(m0: map<int, int>, groups: seq<seq<int>>, g: int) returns (m: map<int, int>)
    requires 0 <= g < |groups|
    requires forall x :: x in m0 <==> exists h :: 0 <= h < g && x in groups[h]
    requires forall x :: x in m0 ==> 0 <= m0[x] < g && x in groups[m0[x]]
    requires forall x, h :: x in m0 && m0[x] < h < g ==> x !in groups[h]
    ensures forall x :: x in m <==> exists h :: 0 <= h < g + 1 && x in groups[h]
    ensures forall x :: x in m ==> 0 <= m[x] < g + 1 && x in groups[m[x]]
    ensures forall x, h :: x in m && m[x] < h < g + 1 ==> x !in groups[h]
  {
    var group := groups[g];
    m := m0;
    for j := 0 to |group|
      invariant forall x :: x in m <==> x in m0 || x in group[..j]
      invariant forall x :: x in group[..j] ==> x in m && m[x] == g
      invariant forall x :: x in m && x !in group[..j] ==> x in m0 && m[x] == m0[x]
    {
      assert group[..j + 1] == group[..j] + [group[j]];
      m := m[group[j] := g];
    }
    assert group[..|group|] == group;
  }

  /** With a partition, an id below `n` maps to the one group holding it. */
  lemma RawToEndPartition(groups: seq<seq<int>>, n: int, m: map<int, int>, x: int)
    requires IsPartition(groups, n) && 0 <= x < n
    requires forall y :: y in m <==> InSomeGroup(groups, y)
    requires forall y :: y in m ==> 0 <= m[y] < |groups| && y in groups[m[y]]
    ensures x in m && 0 <= m[x] < |groups| && x in groups[m[x]]
    ensures forall g :: 0 <= g < |groups| && x in groups[g] ==> g == m[x]
  {
  }

  /** `raw_to_end_map[vertNorm]`: `operator[]` yields 0 for an id the map lacks. */
  function Lookup(m: map<int, int>, k: int): int
  {
    if k in m then m[k] else 0
  }

  /** The last loop of `recalc_vertNorms`: every normal index of the face sent through the map. */
  function RemapFace(f: Face, m: map<int, int>): (g: Face)
    ensures |g.vertNorms| == |f.vertNorms|
  {
    f.(vertNorms := seq(|f.vertNorms|, k requires 0 <= k < |f.vertNorms| => Lookup(m, f.vertNorms[k])))
  }

  method RemapFaces(faces: seq<Face>, m: map<int, int>) returns (r: seq<Face>)
    ensures |r| == |faces| && forall i :: 0 <= i < |faces| ==> r[i] == RemapFace(faces[i], m)
  {
    r := faces;
    for faceInd := 0 to |r|
      invariant |r| == |faces|
      invariant forall i :: 0 <= i < faceInd ==> r[i] == RemapFace(faces[i], m)
      invariant forall i :: faceInd <= i < |r| ==> r[i] == faces[i]
    {
      var f := r[faceInd];
      var vn := f.vertNorms;
      for k := 0 to |vn|
        invariant |vn| == |f.vertNorms|
        invariant forall j :: 0 <= j < k ==> vn[j] == Lookup(m, f.vertNorms[j])
        invariant forall j :: k <= j < |vn| ==> vn[j] == f.vertNorms[j]
      {
        vn := vn[k := Lookup(m, vn[k])];
      }
      r := r[faceInd := f.(vertNorms := vn)];
    }
  }

  // ---------------------------------------------------------------------
  // The whole of `recalc_vertNorms`

  /** The faces after the numbering loop. */
  function NumberedFaces(faces: seq<Face>, vpp: nat): (r: seq<Face>)
    requires forall i :: 0 <= i < |faces| ==> vpp <= |faces[i].vertNorms|
    ensures |r| == |faces|
  {
    seq(|faces|, i requires 0 <= i < |faces| => NumberedFace(faces[i], i, vpp))
  }

  /** Numbering touches the normal indices only, so the faces keep their shape. */
  lemma NumberedUniform(verts: seq<Vec>, faces: seq<Face>, vpp: nat)
    requires UniformFaces(faces, vpp, |verts|)
    ensures UniformFaces(NumberedFaces(faces, vpp), vpp, |verts|)
    ensures forall i :: 0 <= i < |faces| ==> NumberedFaces(faces, vpp)[i].verts == faces[i].verts
  {
    UniformSlots(faces, vpp, |verts|);
  }

  /** `vert_angles` as a table. */
  function VertAngles(verts: seq<Vec>, faces: seq<Face>, vpp: int): (ang: seq<seq<real>>)
    requires vpp >= 1 && UniformFaces(faces, vpp, |verts|)
    ensures |ang| == |faces|
  {
    seq(|faces|, i requires 0 <= i < |faces| =>
      seq(vpp, k requires 0 <= k < vpp => VertexAngle(verts, faces[i], k)))
  }

  lemma VertAnglesOfTable(verts: seq<Vec>, faces: seq<Face>, vpp: int, ang: seq<seq<real>>)
    requires vpp >= 1 && UniformFaces(faces, vpp, |verts|) && VertAnglesOf(verts, faces, vpp, ang)
    ensures ang == VertAngles(verts, faces, vpp)
  {
    var t := VertAngles(verts, faces, vpp);
    forall i | 0 <= i < |faces|
      ensures ang[i] == t[i]
    {
    }
  }

  /** The pairs of `smooth_faces`: distinct faces sharing a vertex below `numVerts`, at a small enough angle. */
  ghost function SmoothSet(faces: seq<Face>, vpp: int, numVerts: int, maxSmoothAngle: real): set<(int, int)>
    requires HasSlots(faces, vpp)
  {
    set a, b | 0 <= a < |faces| && 0 <= b < |faces| && PairedBelow(faces, vpp, numVerts, a, b)
      && FaceAngle(faces, a, b) - maxSmoothAngle < DistinctDistance :: (a, b)
  }

  lemma SmoothPairsIsSmoothSet(faces: seq<Face>, vpp: int, numVerts: int, angles: map<(int, int), real>,
                               maxSmoothAngle: real)
    requires HasSlots(faces, vpp)
    requires forall x, y :: (x, y) in angles <==> PairedBelow(faces, vpp, numVerts, x, y)
    requires AnglesOfFaces(faces, angles)
    ensures SmoothPairs(angles, maxSmoothAngle) == SmoothSet(faces, vpp, numVerts, maxSmoothAngle)
  {
    forall p | p in SmoothPairs(angles, maxSmoothAngle)
      ensures p in SmoothSet(faces, vpp, numVerts, maxSmoothAngle)
    {
      SmoothSymmetric(faces, vpp, numVerts, angles, maxSmoothAngle, p.0, p.1);
    }
    forall p | p in SmoothSet(faces, vpp, numVerts, maxSmoothAngle)
      ensures p in SmoothPairs(angles, maxSmoothAngle)
    {
      SmoothSymmetric(faces, vpp, numVerts, angles, maxSmoothAngle, p.0, p.1);
    }
  }

  /**
   * The normalised slot normals of `recalc_vertNorms`, indexed by slot id:
   * for each slot, the face's own Newell normal weighted by its angle at the
   * slot plus those of the smooth neighbours through the slot's vertex.
   */
  ghost function SlotNormalsOf(verts: seq<Vec>, faces: seq<Face>, vpp: int, numVerts: int, maxSmoothAngle: real): (r: seq<Vec>)
    requires vpp >= 1 && UniformFaces(faces, vpp, |verts|)
    ensures |r| == |faces| * vpp
  {
    UniformSlots(faces, vpp, |verts|);
    NumberedUniform(verts, faces, vpp);
    var nf := NumberedFaces(faces, vpp);
    UniformSlots(nf, vpp, |verts|);
    Normalized(SlotNormals(nf, vpp, RawFaceNorms(verts, nf, vpp), VertAngles(verts, nf, vpp),
                           SmoothSet(nf, vpp, numVerts, maxSmoothAngle), |nf|))
  }

  /**
   * The face's normal indices after the merge: an index naming a raw
   * normal (one below `n`) now names a group holding it, any other index
   * becomes 0; everything else about the face is kept.
   */
  ghost predicate Merged(f0: Face, f: Face, groups: seq<seq<int>>, n: int)
  {
    f == f0.(vertNorms := f.vertNorms) && |f.vertNorms| == |f0.vertNorms|
    && forall k :: 0 <= k < |f.vertNorms| ==>
      if 0 <= f0.vertNorms[k] < n then 0 <= f.vertNorms[k] < |groups| && f0.vertNorms[k] in groups[f.vertNorms[k]]
      else f.vertNorms[k] == 0
  }

  /**
   * `recalc_vertNorms`: the slots are numbered, their smoothed normals
   * accumulated and normalised, equal ones grouped by `grouping`, each
   * group averaged into one end normal, and the faces re-pointed to their
   * slot's group.
   */
  method RecalcVertNormsOf(verts: seq<Vec>, faces: seq<Face>, vpp: int, numVerts: int, maxSmoothAngle: real,
                           grouping: seq<Vec> -> seq<seq<int>>)
    returns (newFaces: seq<Face>, vertNorms: seq<Vec>)
    requires vpp >= 1 && UniformFaces(faces, vpp, |verts|) && 0 <= numVerts
    requires IsPartition(grouping(SlotNormalsOf(verts, faces, vpp, numVerts, maxSmoothAngle)), |faces| * vpp)
    ensures var groups := grouping(SlotNormalsOf(verts, faces, vpp, numVerts, maxSmoothAngle));
      |vertNorms| == |groups|
      && (forall g :: 0 <= g < |groups| ==>
            vertNorms[g] == Average(SlotNormalsOf(verts, faces, vpp, numVerts, maxSmoothAngle), groups[g]))
      && |newFaces| == |faces|
      && forall i :: 0 <= i < |faces| ==> Merged(NumberedFace(faces[i], i, vpp), newFaces[i], groups, |faces| * vpp)
  {
    var nf, rawVertNorms := SmoothedSlotNormals(verts, faces, vpp, numVerts, maxSmoothAngle);
    var groups := grouping(rawVertNorms);
    newFaces, vertNorms := MergeGroups(nf, vpp, rawVertNorms, groups);
  }

  /** The first part of `recalc_vertNorms`: slot numbering, then one smoothed, normalised normal per slot. */
  method SmoothedSlotNormals(verts: seq<Vec>, faces: seq<Face>, vpp: int, numVerts: int, maxSmoothAngle: real)
    returns (nf: seq<Face>, rawVertNorms: seq<Vec>)
    requires vpp >= 1 && UniformFaces(faces, vpp, |verts|) && 0 <= numVerts
    ensures nf == NumberedFaces(faces, vpp)
    ensures rawVertNorms == SlotNormalsOf(verts, faces, vpp, numVerts, maxSmoothAngle)
  {
    UniformSlots(faces, vpp, |verts|);
    NumberedUniform(verts, faces, vpp);
    nf := NumberSlots(faces, vpp);
    assert nf == NumberedFaces(faces, vpp);
    UniformSlots(nf, vpp, |verts|);
    var raw := CalcRawFaceNorms(verts, nf, vpp);
    var ang := CalcVertAngles(verts, nf, vpp);
    VertAnglesOfTable(verts, nf, vpp, ang);
    var vertFaces, vertSlot := VertToFaces(nf, vpp);
    var angles := AnglesBetweenFaces(nf, vpp, numVerts, vertFaces);
    var smooth := SmoothFaces(angles, maxSmoothAngle);
    assert smooth == SmoothPairs(angles, maxSmoothAngle);
    SmoothPairsIsSmoothSet(nf, vpp, numVerts, angles, maxSmoothAngle);
    rawVertNorms := AccumulateNormals(nf, vpp, raw, ang, smooth, vertFaces, vertSlot);
    rawVertNorms := NormalizeAll(rawVertNorms);
  }

  /**
   * The second part of `recalc_vertNorms`: one averaged normal per group of
   * slot normals, and every slot's normal index moved to its group.
   */
  method MergeGroups(nf: seq<Face>, vpp: int, rawVertNorms: seq<Vec>, groups: seq<seq<int>>)
    returns (newFaces: seq<Face>, vertNorms: seq<Vec>)
    requires IsPartition(groups, |nf| * vpp) && |rawVertNorms| == |nf| * vpp
    ensures |vertNorms| == |groups|
    ensures forall g :: 0 <= g < |groups| ==> vertNorms[g] == Average(rawVertNorms, groups[g])
    ensures |newFaces| == |nf|
    ensures forall i :: 0 <= i < |nf| ==> Merged(nf[i], newFaces[i], groups, |nf| * vpp)
  {
    vertNorms := AverageGroups(rawVertNorms, groups);
    var m := RawToEndMap(groups);
    newFaces := RemapFaces(nf, m);
    forall i | 0 <= i < |nf|
      ensures Merged(nf[i], newFaces[i], groups, |nf| * vpp)
    {
      forall k | 0 <= k < |nf[i].vertNorms| && 0 <= nf[i].vertNorms[k] < |nf| * vpp
        ensures 0 <= newFaces[i].vertNorms[k] < |groups| && nf[i].vertNorms[k] in groups[newFaces[i].vertNorms[k]]
      {
        RawToEndPartition(groups, |nf| * vpp, m, nf[i].vertNorms[k]);
      }
      forall k | 0 <= k < |nf[i].vertNorms| && !(0 <= nf[i].vertNorms[k] < |nf| * vpp)
        ensures newFaces[i].vertNorms[k] == 0
      {
        assert !InSomeGroup(groups, nf[i].vertNorms[k]);
      }
    }
  }


  /**
   * After the merge, slot `k` of face `i` points at an end normal, and that
   * normal is the average of a group holding the slot's own normal.
   */
  lemma SlotPointsAtItsGroup(faces: seq<Face>, vpp: nat, groups: seq<seq<int>>, newFaces: seq<Face>, i: int, k: int)
    requires forall j :: 0 <= j < |faces| ==> vpp <= |faces[j].vertNorms|
    requires |newFaces| == |faces| && 0 <= i < |faces| && 0 <= k < vpp
    requires forall j :: 0 <= j < |faces| ==> Merged(NumberedFace(faces[j], j, vpp), newFaces[j], groups, |faces| * vpp)
    ensures k < |newFaces[i].vertNorms|
    ensures 0 <= newFaces[i].vertNorms[k] < |groups| && SlotId(i, k, vpp) in groups[newFaces[i].vertNorms[k]]
  {
    assert Merged(NumberedFace(faces[i], i, vpp), newFaces[i], groups, |faces| * vpp);
    SlotIdRange(vpp, |faces|, i, k);
    assert NumberedFace(faces[i], i, vpp).vertNorms[k] == SlotId(i, k, vpp);
  }

  /**
   * When `grouping` only puts equal normals together, merging loses
   * nothing: every slot reads back exactly its own normalised normal.
   */
  lemma MergeLossless(norms: seq<Vec>, groups: seq<seq<int>>, vertNorms: seq<Vec>, x: int, g: int)
    requires GroupsIndex(groups, |norms|) && |vertNorms| == |groups|
    requires forall h :: 0 <= h < |groups| ==> vertNorms[h] == Average(norms, groups[h])
    requires forall h, j :: 0 <= h < |groups| && 0 <= j < |groups[h]| ==> norms[groups[h][j]] == norms[groups[h][0]]
    requires 0 <= g < |groups| && x in groups[g]
    ensures vertNorms[g] == norms[x]
  {
    AverageOfEqual(norms, groups[g], norms[groups[g][0]]);
  }
}
