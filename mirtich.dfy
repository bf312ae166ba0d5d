/**
 * Mirtich's polyhedral mass-property integrals (compProjectionIntegrals,
 * compFaceIntegrals, compVolumeIntegrals of volInt.cpp). The file-level
 * globals of the original (A, B, C, P1 ... Pbbb, Fa ... Fcca, T0, T1, T2, TP)
 * are returned as values here.
 */
module Mirtich {
  import opened Common
  import opened Geometry

  // ---------------------------------------------------------------------
  // Dominant axis

  /** The projection axes A, B and the dominant axis C of a face. */
  datatype AxisTriple = AxisTriple(a: Axis, b: Axis, c: Axis)
  type Axes = t: AxisTriple | t.a != t.b && t.b != t.c && t.a != t.c witness AxisTriple(1, 2, 0)

  /**
   * C is the axis of the largest |n| component, ties going to the later axis;
   * A follows C and B follows A cyclically.
   */
  function DominantAxes(n: Vec): (ax: Axes)
    ensures {ax.a, ax.b, ax.c} == {0, 1, 2}
    ensures ax.a == (ax.c + 1) % 3 && ax.b == (ax.a + 1) % 3
    ensures forall i :: 0 <= i < 3 ==> Abs(n[i]) <= Abs(n[ax.c])
    ensures forall i :: ax.c < i < 3 ==> Abs(n[i]) < Abs(n[ax.c])
  {
    var nx, ny, nz := Abs(n[0]), Abs(n[1]), Abs(n[2]);
    var c: Axis := if nx > ny && nx > nz then 0 else if ny > nz then 1 else 2;
    var a: Axis := (c + 1) % 3;
    var b: Axis := (a + 1) % 3;
    AxisTriple(a, b, c)
  }

  /** A non-zero normal has a non-zero dominant component, so `1 / n[C]` is defined. */
  lemma DominantComponentNonZero(n: Vec)
    requires n != Zero
    ensures n[DominantAxes(n).c] != 0.0
  {
  }

  /** The choice depends on |n| only, so a flipped normal keeps its axes. */
  lemma DominantAxesInvert(n: Vec)
    ensures DominantAxes(Invert(n)) == DominantAxes(n)
  {
    assert Abs(Invert(n)[0]) == Abs(n[0]);
    assert Abs(Invert(n)[1]) == Abs(n[1]);
    assert Abs(Invert(n)[2]) == Abs(n[2]);
  }

  // ---------------------------------------------------------------------
  // Projection integrals

  /** P1, Pa, Pb, Paa, Pab, Pbb, Paaa, Paab, Pabb, Pbbb. */
  datatype Proj = Proj(p1: real, pa: real, pb: real, paa: real, pab: real, pbb: real,
                       paaa: real, paab: real, pabb: real, pbbb: real)

  const ProjZero := Proj(0.0, 0.0, 0.0, 0.0, 0.0, 0.0, 0.0, 0.0, 0.0, 0.0)

  function AddProj(x: Proj, y: Proj): Proj
  {
    Proj(x.p1 + y.p1, x.pa + y.pa, x.pb + y.pb, x.paa + y.paa, x.pab + y.pab, x.pbb + y.pbb,
         x.paaa + y.paaa, x.paab + y.paab, x.pabb + y.pabb, x.pbbb + y.pbbb)
  }

  function NegProj(x: Proj): Proj
  {
    Proj(-x.p1, -x.pa, -x.pb, -x.paa, -x.pab, -x.pbb, -x.paaa, -x.paab, -x.pabb, -x.pbbb)
  }

  /** A vertex projected on the (A, B) plane. */
  datatype Point2 = Point2(a: real, b: real)

  /** The loop body of compProjectionIntegrals for the edge from `p` to `q`, before the final divisions. */
  function EdgeTerm(p: Point2, q: Point2): Proj
  {
    var a0, b0, a1, b1 := p.a, p.b, q.a, q.b;
    var da := a1 - a0;
    var db := b1 - b0;
    var a0_2 := a0 * a0; var a0_3 := a0_2 * a0; var a0_4 := a0_3 * a0;
    var b0_2 := b0 * b0; var b0_3 := b0_2 * b0; var b0_4 := b0_3 * b0;
    var a1_2 := a1 * a1; var a1_3 := a1_2 * a1;
    var b1_2 := b1 * b1; var b1_3 := b1_2 * b1;
    var c1 := a1 + a0;
    var ca := a1 * c1 + a0_2; var caa := a1 * ca + a0_3; var caaa := a1 * caa + a0_4;
    var cb := b1 * (b1 + b0) + b0_2; var cbb := b1 * cb + b0_3; var cbbb := b1 * cbb + b0_4;
    var cab := 3.0 * a1_2 + 2.0 * a1 * a0 + a0_2; var kab := a1_2 + 2.0 * a1 * a0 + 3.0 * a0_2;
    var caab := a0 * cab + 4.0 * a1_3; var kaab := a1 * kab + 4.0 * a0_3;
    var cabb := 4.0 * b1_3 + 3.0 * b1_2 * b0 + 2.0 * b1 * b0_2 + b0_3;
    var kabb := b1_3 + 2.0 * b1_2 * b0 + 3.0 * b1 * b0_2 + 4.0 * b0_3;
    Proj(db * c1, db * ca, da * cb, db * caa, db * (b1 * cab + b0 * kab), da * cbb,
         db * caaa, db * (b1 * caab + b0 * kaab), da * (a1 * cabb + a0 * kabb), da * cbbb)
  }

  /** Running an edge backwards negates every term: the integrals are oriented (Green's theorem). */
  lemma EdgeTermAntisymmetric(p: Point2, q: Point2)
    ensures EdgeTerm(q, p) == NegProj(EdgeTerm(p, q))
  {
  }

  lemma EdgeTermIsAntisymmetric()
    ensures Antisymmetric(EdgeTerm)
  {
    forall p, q ensures EdgeTerm(q, p) == NegProj(EdgeTerm(p, q)) {
      EdgeTermAntisymmetric(p, q);
    }
  }

  /** The final divisions of compProjectionIntegrals. */
  function Finish(s: Proj): Proj
  {
    Proj(s.p1 / 2.0, s.pa / 6.0, s.pb / -6.0, s.paa / 12.0, s.pab / 24.0, s.pbb / -12.0,
         s.paaa / 20.0, s.paab / 60.0, s.pabb / -60.0, s.pbbb / -20.0)
  }

  /** The face's first `numVerts` vertices on the (A, B) plane. */
  function Projected(verts: seq<Vec>, f: Face, ax: Axes): (q: seq<Point2>)
    requires IndexesVertices(f, |verts|)
    ensures |q| == f.numVerts
  {
    seq(f.numVerts, i requires 0 <= i < f.numVerts => Point2(verts[f.verts[i]][ax.a], verts[f.verts[i]][ax.b]))
  }

  /** The sum of `term` over the first `i` edges of the closed polygon `q`. */
  function EdgeSum(q: seq<Point2>, i: nat, term: (Point2, Point2) -> Proj): Proj
    requires i <= |q|
  {
    if i == 0 then ProjZero else AddProj(EdgeSum(q, i - 1, term), term(q[i - 1], q[i % |q|]))
  }

  function ProjectionIntegrals(verts: seq<Vec>, f: Face, ax: Axes): Proj
    requires IndexesVertices(f, |verts|)
  {
    var q := Projected(verts, f, ax);
    Finish(EdgeSum(q, |q|, EdgeTerm))
  }

  /** `compProjectionIntegrals`: the edge loop over the face's own vertex count. */
  method CompProjectionIntegrals(verts: seq<Vec>, f: Face, ax: Axes) returns (p: Proj)
    requires IndexesVertices(f, |verts|)
    ensures p == ProjectionIntegrals(verts, f, ax)
  {
    ghost var q := Projected(verts, f, ax);
    var sum := ProjZero;
    var i := 0;
    while i < f.numVerts
      invariant 0 <= i <= f.numVerts
      invariant sum == EdgeSum(q, i, EdgeTerm)
    {
      var v0 := verts[f.verts[i]];
      var v1 := verts[f.verts[(i + 1) % f.numVerts]];
      sum := AddProj(sum, EdgeTerm(Point2(v0[ax.a], v0[ax.b]), Point2(v1[ax.a], v1[ax.b])));
      i := i + 1;
    }
    p := Finish(sum);
  }

  // Orientation of the projection integrals.

  /** `term` along the open chain q[0], ..., q[|q| - 1]. */
  function Chain(q: seq<Point2>, term: (Point2, Point2) -> Proj): Proj
  {
    if |q| <= 1 then ProjZero else AddProj(Chain(q[..|q| - 1], term), term(q[|q| - 2], q[|q| - 1]))
  }

  /** Terms that change sign when their edge is run backwards. */
  ghost predicate Antisymmetric(term: (Point2, Point2) -> Proj)
  {
    forall p, q :: term(q, p) == NegProj(term(p, q))
  }

  lemma {:induction false} EdgeSumIsChain(q: seq<Point2>, i: nat, term: (Point2, Point2) -> Proj)
    requires i < |q|
    ensures EdgeSum(q, i, term) == Chain(q[..i + 1], term)
  {
    if i > 0 {
      assert i % |q| == i;
      EdgeSumIsChain(q, i - 1, term);
      var c := q[..i + 1];
      assert c[..i] == q[..i] && c[i - 1] == q[i - 1] && c[i] == q[i];
      assert Chain(c, term) == AddProj(Chain(q[..i], term), term(q[i - 1], q[i]));
    }
  }

  lemma {:induction false} ChainCons(x: Point2, s: seq<Point2>, term: (Point2, Point2) -> Proj)
    requires |s| >= 1
    ensures Chain([x] + s, term) == AddProj(term(x, s[0]), Chain(s, term))
  {
    if |s| > 1 {
      ChainCons(x, s[..|s| - 1], term);
      assert ([x] + s)[..|s|] == [x] + s[..|s| - 1];
    }
  }

  lemma {:induction false} ChainReverse(q: seq<Point2>, term: (Point2, Point2) -> Proj)
    requires Antisymmetric(term)
    ensures Chain(Reverse(q), term) == NegProj(Chain(q, term))
  {
    if |q| > 1 {
      var n := |q|;
      var init := q[..n - 1];
      ChainReverse(init, term);
      assert Reverse(q) == [q[n - 1]] + Reverse(init);
      ChainCons(q[n - 1], Reverse(init), term);
      assert term(q[n - 1], q[n - 2]) == NegProj(term(q[n - 2], q[n - 1]));
    }
  }

  /** Reversing a closed polygon negates the sum of an antisymmetric term around it. */
  lemma EdgeSumReverse(q: seq<Point2>, term: (Point2, Point2) -> Proj)
    requires Antisymmetric(term)
    ensures EdgeSum(Reverse(q), |q|, term) == NegProj(EdgeSum(q, |q|, term))
  {
    if |q| > 0 {
      NonEmptyEdgeSumReverse(q, term);
    }
  }

  lemma NonEmptyEdgeSumReverse(q: seq<Point2>, term: (Point2, Point2) -> Proj)
    requires Antisymmetric(term) && |q| > 0
    ensures EdgeSum(Reverse(q), |q|, term) == NegProj(EdgeSum(q, |q|, term))
  {
    var n, r := |q|, Reverse(q);
    ClosedEdgeSum(q, term);
    ClosedEdgeSum(r, term);
    ChainReverse(q, term);
    ClosingEdgeFlipped(EdgeSum(q, n, term), EdgeSum(r, n, term), Chain(q, term), Chain(r, term),
                       term, q[0], q[n - 1]);
  }

  /** Negated open chains and opposite closing edges give negated closed sums. */
  lemma ClosingEdgeFlipped(sq: Proj, sr: Proj, cq: Proj, cr: Proj, term: (Point2, Point2) -> Proj, x: Point2, y: Point2)
    requires Antisymmetric(term)
    requires sq == AddProj(cq, term(y, x)) && sr == AddProj(cr, term(x, y)) && cr == NegProj(cq)
    ensures sr == NegProj(sq)
  {
    assert term(x, y) == NegProj(term(y, x));
    NegAdd(cq, term(y, x));
  }

  /** A closed polygon's sum is its open chain plus the closing edge. */
  lemma ClosedEdgeSum(q: seq<Point2>, term: (Point2, Point2) -> Proj)
    requires |q| > 0
    ensures EdgeSum(q, |q|, term) == AddProj(Chain(q, term), term(q[|q| - 1], q[0]))
  {
    var n := |q|;
    EdgeSumIsChain(q, n - 1, term);
    assert q[..n] == q;
    assert n % n == 0;
  }

  /**
   * Negation distributes over the sum of projection integrals; kept as its own
   * lemma so that the edge-sum induction only sees this instance, not the
   * field arithmetic behind it.
   */
  lemma NegAdd(x: Proj, y: Proj)
    ensures NegProj(AddProj(x, y)) == AddProj(NegProj(x), NegProj(y))
  {
  }

  /** `g` lists the first `f.numVerts` vertices of `f` in reverse order. */
  predicate ReversedVerts(f: Face, g: Face)
  {
    g.numVerts == f.numVerts && 0 <= f.numVerts <= |f.verts| && f.numVerts <= |g.verts|
    && forall k :: 0 <= k < f.numVerts ==> g.verts[k] == f.verts[f.numVerts - 1 - k]
  }

  /** A reversed face has negated projection integrals. */
  lemma ProjectionIntegralsReversed(verts: seq<Vec>, f: Face, g: Face, ax: Axes)
    requires IndexesVertices(f, |verts|) && ReversedVerts(f, g)
    ensures IndexesVertices(g, |verts|)
    ensures ProjectionIntegrals(verts, g, ax) == NegProj(ProjectionIntegrals(verts, f, ax))
  {
    var q := Projected(verts, f, ax);
    ReversedProjection(verts, f, g, ax);
    EdgeTermIsAntisymmetric();
    EdgeSumReverse(q, EdgeTerm);
    FinishNegated(EdgeSum(q, |q|, EdgeTerm));
  }

  /** The projection of a reversed face is the reversed projection. */
  lemma ReversedProjection(verts: seq<Vec>, f: Face, g: Face, ax: Axes)
    requires IndexesVertices(f, |verts|) && ReversedVerts(f, g)
    ensures IndexesVertices(g, |verts|)
    ensures Projected(verts, g, ax) == Reverse(Projected(verts, f, ax))
  {
    assert forall k :: 0 <= k < g.numVerts ==> g.verts[k] == f.verts[f.numVerts - 1 - k];
  }

  /**
   * The final divisions of `comp_projection_integrals` commute with
   * negation; separate so the reversal lemma does not unfold `Finish`.
   */
  lemma FinishNegated(s: Proj)
    ensures Finish(NegProj(s)) == NegProj(Finish(s))
  {
  }

  // Area of the projection.

  /** The shoelace sum of twice the signed area of a closed polygon, over its first `i` edges. */
  function Shoelace(q: seq<Point2>, i: nat): real
    requires i <= |q|
  {
    if i == 0 then 0.0
    else Shoelace(q, i - 1) + Cross2(q[i - 1], q[i % |q|])
  }

  /** The 2D cross product p x q. */
  function Cross2(p: Point2, q: Point2): real
  {
    Mul(p.a, q.b) - Mul(q.a, p.b)
  }

  /** a * b at one vertex. */
  function Corner(p: Point2): real
  {
    Mul(p.a, p.b)
  }

  /** The part of the P1 edge sum that telescopes: sum of a(k+1)b(k+1) - a(k)b(k). */
  function Telescoping(q: seq<Point2>, i: nat): real
    requires i <= |q|
  {
    if i == 0 then 0.0
    else Telescoping(q, i - 1) + (Corner(q[i % |q|]) - Corner(q[i - 1]))
  }

  lemma {:induction false} P1Split(q: seq<Point2>, i: nat)
    requires i <= |q|
    ensures EdgeSum(q, i, EdgeTerm).p1 == Shoelace(q, i) + Telescoping(q, i)
  {
    if i > 0 {
      P1Split(q, i - 1);
      var p, p' := q[i - 1], q[i % |q|];
      EdgeTermP1(p, p');
      assert EdgeSum(q, i, EdgeTerm).p1 == EdgeSum(q, i - 1, EdgeTerm).p1 + EdgeTerm(p, p').p1;
    }
  }

  /** One edge's P1 term: a cross product plus a telescoping difference. */
  lemma EdgeTermP1(p: Point2, q: Point2)
    ensures EdgeTerm(p, q).p1 == Cross2(p, q) + (Corner(q) - Corner(p))
  {
  }

  lemma TelescopingPrefix(q: seq<Point2>, i: nat)
    requires 0 < i < |q|
    ensures Telescoping(q, i) == Corner(q[i]) - Corner(q[0])
  {
    var k := 1;
    TelescopingStep(q, 0);
    while k < i
      invariant 1 <= k <= i
      invariant Telescoping(q, k) == Corner(q[k]) - Corner(q[0])
    {
      TelescopingStep(q, k);
      k := k + 1;
    }
  }

  lemma TelescopingStep(q: seq<Point2>, k: nat)
    requires k + 1 < |q|
    ensures Telescoping(q, k + 1) == Telescoping(q, k) + (Corner(q[k + 1]) - Corner(q[k]))
  {
    assert (k + 1) % |q| == k + 1;
  }

  lemma TelescopingCycle(q: seq<Point2>)
    ensures Telescoping(q, |q|) == 0.0
  {
    if |q| > 1 {
      TelescopingPrefix(q, |q| - 1);
    }
  }

  /** P1 is the signed area of the face's projection on the (A, B) plane. */
  lemma P1IsSignedArea(verts: seq<Vec>, f: Face, ax: Axes)
    requires IndexesVertices(f, |verts|)
    ensures ProjectionIntegrals(verts, f, ax).p1 == Shoelace(Projected(verts, f, ax), f.numVerts) / 2.0
  {
    var q := Projected(verts, f, ax);
    P1Split(q, |q|);
    TelescopingCycle(q);
  }

  // ---------------------------------------------------------------------
  // Face integrals

  /** Fa, Fb, Fc, Faa, Fbb, Fcc, Faaa, Fbbb, Fccc, Faab, Fbbc, Fcca. */
  datatype FaceInts = FaceInts(fa: real, fb: real, fc: real, faa: real, fbb: real, fcc: real,
                               faaa: real, fbbb: real, fccc: real, faab: real, fbbc: real, fcca: real)

  /** k1 = 1 / n[C] and its powers k2, k3, k4. */
  datatype Powers = Powers(k1: real, k2: real, k3: real, k4: real)

  function ReciprocalPowers(c: real): Powers
    requires c != 0.0
  {
    var k1 := 1.0 / c;
    var k2 := k1 * k1;
    var k3 := k2 * k1;
    Powers(k1, k2, k3, k3 * k1)
  }

  /** The powers of 1 / -c are those of 1 / c with the odd ones negated. */
  lemma ReciprocalPowersNegate(c: real)
    requires c != 0.0
    ensures ReciprocalPowers(-c) == Powers(-ReciprocalPowers(c).k1, ReciprocalPowers(c).k2,
                                           -ReciprocalPowers(c).k3, ReciprocalPowers(c).k4)
  {
    PowersOfNegation(1.0 / -c, 1.0 / c);
  }

  /** The arithmetic of compFaceIntegrals after the projection integrals; `1 / n[C]` needs n[C] non-zero. */
  function FaceIntegralsOf(p: Proj, n: Vec, w: real, ax: Axes): FaceInts
    requires n[ax.c] != 0.0
  {
    FaceIntegralsWith(p, n[ax.a], n[ax.b], w, ReciprocalPowers(n[ax.c]))
  }

  /** The face integrals in terms of n[A], n[B], w and the powers of 1 / n[C]. */
  function FaceIntegralsWith(p: Proj, na: real, nb: real, w: real, k: Powers): FaceInts
  {
    FaceIntegralsFrom(p, na, nb, w, k, SquareTerm(p, na, nb, w), CubeTerm(p, na, nb, w), MixedTerm(p, na, nb, w))
  }

  /** The twelve face integrals once the brackets of Fcc, Fccc and Fcca are known. */
  function FaceIntegralsFrom(p: Proj, na: real, nb: real, w: real, k: Powers, s2: real, s3: real, sm: real): FaceInts
  {
    FaceInts(
      Mul(k.k1, p.pa),
      Mul(k.k1, p.pb),
      -Mul(k.k2, Mul(na, p.pa) + Mul(nb, p.pb) + Mul(w, p.p1)),
      Mul(k.k1, p.paa),
      Mul(k.k1, p.pbb),
      Mul(k.k3, s2),
      Mul(k.k1, p.paaa),
      Mul(k.k1, p.pbbb),
      -Mul(k.k4, s3),
      Mul(k.k1, p.paab),
      -Mul(k.k2, Mul(na, p.pabb) + Mul(nb, p.pbbb) + Mul(w, p.pbb)),
      Mul(k.k3, sm))
  }

  /** The bracket of Fcc. */
  function SquareTerm(p: Proj, na: real, nb: real, w: real): real
  {
    na * na * p.paa + 2.0 * na * nb * p.pab + nb * nb * p.pbb
    + w * (2.0 * (na * p.pa + nb * p.pb) + w * p.p1)
  }

  /** The bracket of Fccc. */
  function CubeTerm(p: Proj, na: real, nb: real, w: real): real
  {
    na * na * na * p.paaa + 3.0 * na * na * nb * p.paab
    + 3.0 * na * nb * nb * p.pabb + nb * nb * nb * p.pbbb
    + 3.0 * w * (na * na * p.paa + 2.0 * na * nb * p.pab + nb * nb * p.pbb)
    + w * w * (3.0 * (na * p.pa + nb * p.pb) + w * p.p1)
  }

  /** The bracket of Fcca. */
  function MixedTerm(p: Proj, na: real, nb: real, w: real): real
  {
    na * na * p.paaa + 2.0 * na * nb * p.paab + nb * nb * p.pabb
    + w * (2.0 * (na * p.paa + nb * p.pab) + w * p.pa)
  }

  lemma BracketsFlipped(p: Proj, na: real, nb: real, w: real)
    ensures SquareTerm(NegProj(p), -na, -nb, -w) == -SquareTerm(p, na, nb, w)
    ensures CubeTerm(NegProj(p), -na, -nb, -w) == CubeTerm(p, na, nb, w)
    ensures MixedTerm(NegProj(p), -na, -nb, -w) == -MixedTerm(p, na, nb, w)
  {
  }

  /** Negating the projection integrals, n[A], n[B], w and the odd powers of k together changes no face integral. */
  lemma FaceIntegralsWithFlipped(p: Proj, na: real, nb: real, w: real, k: Powers)
    ensures FaceIntegralsWith(NegProj(p), -na, -nb, -w, Powers(-k.k1, k.k2, -k.k3, k.k4))
         == FaceIntegralsWith(p, na, nb, w, k)
  {
    BracketsFlipped(p, na, nb, w);
    FaceIntegralsFromFlipped(p, na, nb, w, k, SquareTerm(p, na, nb, w), CubeTerm(p, na, nb, w), MixedTerm(p, na, nb, w));
  }

  lemma FaceIntegralsFromFlipped(p: Proj, na: real, nb: real, w: real, k: Powers, s2: real, s3: real, sm: real)
    ensures FaceIntegralsFrom(NegProj(p), -na, -nb, -w, Powers(-k.k1, k.k2, -k.k3, k.k4), -s2, s3, -sm)
         == FaceIntegralsFrom(p, na, nb, w, k, s2, s3, sm)
  {
    MulNegNeg(k.k1, p.pa); MulNegNeg(k.k1, p.pb); MulNegNeg(k.k1, p.paa); MulNegNeg(k.k1, p.pbb);
    MulNegNeg(k.k1, p.paaa); MulNegNeg(k.k1, p.pbbb); MulNegNeg(k.k1, p.paab);
    MulNegNeg(na, p.pa); MulNegNeg(nb, p.pb); MulNegNeg(w, p.p1);
    MulNegNeg(na, p.pabb); MulNegNeg(nb, p.pbbb); MulNegNeg(w, p.pbb);
    MulNegNeg(k.k3, s2); MulNegNeg(k.k3, sm);
  }

  /**
   * `Mul` of two negated factors. The flip lemma calls it term by term on the
   * twelve face-integral products, which keeps nonlinear reasoning out of its
   * large context.
   */
  lemma MulNegNeg(x: real, y: real)
    ensures Mul(-x, -y) == Mul(x, y)
  {
  }

  function FaceIntegrals(verts: seq<Vec>, f: Face, ax: Axes): FaceInts
    requires IndexesVertices(f, |verts|) && f.norm[ax.c] != 0.0
  {
    FaceIntegralsOf(ProjectionIntegrals(verts, f, ax), f.norm, f.w, ax)
  }

  /** `compFaceIntegrals`. */
  method CompFaceIntegrals(verts: seq<Vec>, f: Face, ax: Axes) returns (fi: FaceInts)
    requires IndexesVertices(f, |verts|) && f.norm[ax.c] != 0.0
    ensures fi == FaceIntegrals(verts, f, ax)
  {
    var p := CompProjectionIntegrals(verts, f, ax);
    fi := FaceIntegralsOf(p, f.norm, f.w, ax);
  }

  lemma PowersOfNegation(x: real, y: real)
    requires x == -y
    ensures x * x == y * y
    ensures (x * x) * x == -((y * y) * y)
    ensures ((x * x) * x) * x == ((y * y) * y) * y
  {
    assert x * x == (-y) * (-y);
  }

  /**
   * Negating the projection integrals, the normal and the plane offset
   * together leaves every face integral unchanged.
   */
  lemma FaceIntegralsOfFlipped(p: Proj, n: Vec, w: real, ax: Axes)
    requires n[ax.c] != 0.0
    ensures Invert(n)[ax.c] != 0.0
    ensures FaceIntegralsOf(NegProj(p), Invert(n), -w, ax) == FaceIntegralsOf(p, n, w, ax)
  {
    var m := Invert(n);
    ReciprocalPowersNegate(n[ax.c]);
    assert m[ax.c] == -n[ax.c] && m[ax.a] == -n[ax.a] && m[ax.b] == -n[ax.b];
    FaceIntegralsWithFlipped(p, n[ax.a], n[ax.b], w, ReciprocalPowers(n[ax.c]));
  }

  // ---------------------------------------------------------------------
  // Volume integrals

  /** T0, T1, T2, TP. */
  datatype VolumeInts = VolumeInts(t0: real, t1: Vec, t2: Vec, tp: Vec)

  const VolumeZero := VolumeInts(0.0, Zero, Zero, Zero)

  function NegVolume(t: VolumeInts): VolumeInts
  {
    VolumeInts(-t.t0, Invert(t.t1), Invert(t.t2), Invert(t.tp))
  }

  /** Adds `d` to coordinates a, b and c of `v` (three distinct axes). */
  function AddAt(v: Vec, ax: Axes, da: real, db: real, dc: real): (r: Vec)
    ensures r[ax.a] == v[ax.a] + da && r[ax.b] == v[ax.b] + db && r[ax.c] == v[ax.c] + dc
  {
    [v[0] + Pick(ax, 0, da, db, dc), v[1] + Pick(ax, 1, da, db, dc), v[2] + Pick(ax, 2, da, db, dc)]
  }

  /** The increment that axis `k` receives. */
  function Pick(ax: Axes, k: Axis, da: real, db: real, dc: real): real
  {
    if k == ax.a then da else if k == ax.b then db else dc
  }

  /** One face's contribution in the loop of compVolumeIntegrals. */
  function AddFace(t: VolumeInts, n: Vec, fi: FaceInts, ax: Axes): VolumeInts
  {
    VolumeInts(
      t.t0 + Mul(n[0], (if ax.a == 0 then fi.fa else if ax.b == 0 then fi.fb else fi.fc)),
      AddAt(t.t1, ax, Mul(n[ax.a], fi.faa), Mul(n[ax.b], fi.fbb), Mul(n[ax.c], fi.fcc)),
      AddAt(t.t2, ax, Mul(n[ax.a], fi.faaa), Mul(n[ax.b], fi.fbbb), Mul(n[ax.c], fi.fccc)),
      AddAt(t.tp, ax, Mul(n[ax.a], fi.faab), Mul(n[ax.b], fi.fbbc), Mul(n[ax.c], fi.fcca)))
  }

  /** Every face names existing vertices and has a non-zero normal. */
  predicate Integrable(verts: seq<Vec>, faces: seq<Face>)
  {
    forall i :: 0 <= i < |faces| ==> IndexesVertices(faces[i], |verts|) && faces[i].norm != Zero
  }

  function FaceContribution(verts: seq<Vec>, f: Face): (r: (FaceInts, Axes))
    requires IndexesVertices(f, |verts|) && f.norm != Zero
    ensures f.norm[r.1.c] != 0.0
  {
    var ax := DominantAxes(f.norm);
    DominantComponentNonZero(f.norm);
    (FaceIntegrals(verts, f, ax), ax)
  }

  /** Every face's integrals and dominant axes, in face order. */
  function Contributions(verts: seq<Vec>, faces: seq<Face>): (cs: seq<(FaceInts, Axes)>)
    requires Integrable(verts, faces)
    ensures |cs| == |faces|
  {
    seq(|faces|, j requires 0 <= j < |faces| => FaceContribution(verts, faces[j]))
  }

  /** The sums over the first `i` faces, before the final divisions; `cs[j]` is face j's contribution. */
  function VolumeSums(faces: seq<Face>, cs: seq<(FaceInts, Axes)>, i: nat): VolumeInts
    requires i <= |faces| == |cs|
  {
    if i == 0 then VolumeZero
    else AddFace(VolumeSums(faces, cs, i - 1), faces[i - 1].norm, cs[i - 1].0, cs[i - 1].1)
  }

  function FinishVolume(t: VolumeInts): VolumeInts
  {
    VolumeInts(t.t0, DivideBy(t.t1, 2.0), DivideBy(t.t2, 3.0), DivideBy(t.tp, 2.0))
  }

  function VolumeIntegrals(verts: seq<Vec>, faces: seq<Face>): VolumeInts
    requires Integrable(verts, faces)
  {
    FinishVolume(VolumeSums(faces, Contributions(verts, faces), |faces|))
  }

  /** `compVolumeIntegrals`: the face loop accumulating T0, T1, T2 and TP. */
  method CompVolumeIntegrals(verts: seq<Vec>, faces: seq<Face>) returns (t: VolumeInts)
    requires Integrable(verts, faces)
    ensures t == VolumeIntegrals(verts, faces)
  {
    ghost var cs := Contributions(verts, faces);
    t := VolumeZero;
    for i := 0 to |faces|
      invariant t == VolumeSums(faces, cs, i)
    {
      var f := faces[i];
      var ax := DominantAxes(f.norm);
      DominantComponentNonZero(f.norm);
      var fi := CompFaceIntegrals(verts, f, ax);
      assert cs[i] == (fi, ax);
      t := AddFace(t, f.norm, fi, ax);
    }
    t := FinishVolume(t);
  }

  // Orientation of the volume integrals.

  /** `g` is `f` with its winding reversed and its plane (normal and offset) negated. */
  predicate Flipped(f: Face, g: Face)
  {
    ReversedVerts(f, g) && g.norm == Invert(f.norm) && g.w == -f.w
  }

  lemma AddFaceFlipped(t: VolumeInts, n: Vec, fi: FaceInts, ax: Axes)
    ensures AddFace(NegVolume(t), Invert(n), fi, ax) == NegVolume(AddFace(t, n, fi, ax))
  {
    var l, r := AddFace(NegVolume(t), Invert(n), fi, ax), AddFace(t, n, fi, ax);
    VolumeFlipped(t, n, fi, ax);
    MomentsFlipped(t, n, fi, ax);
    assert l == VolumeInts(-r.t0, Invert(r.t1), Invert(r.t2), Invert(r.tp));
  }

  lemma VolumeFlipped(t: VolumeInts, n: Vec, fi: FaceInts, ax: Axes)
    ensures AddFace(NegVolume(t), Invert(n), fi, ax).t0 == -AddFace(t, n, fi, ax).t0
  {
    MulNegLeft(n[0], if ax.a == 0 then fi.fa else if ax.b == 0 then fi.fb else fi.fc);
  }

  lemma MomentsFlipped(t: VolumeInts, n: Vec, fi: FaceInts, ax: Axes)
    ensures AddFace(NegVolume(t), Invert(n), fi, ax).t1 == Invert(AddFace(t, n, fi, ax).t1)
    ensures AddFace(NegVolume(t), Invert(n), fi, ax).t2 == Invert(AddFace(t, n, fi, ax).t2)
    ensures AddFace(NegVolume(t), Invert(n), fi, ax).tp == Invert(AddFace(t, n, fi, ax).tp)
  {
    AddAtFlipped(t.t1, n, ax, fi.faa, fi.fbb, fi.fcc);
    AddAtFlipped(t.t2, n, ax, fi.faaa, fi.fbbb, fi.fccc);
    AddAtFlipped(t.tp, n, ax, fi.faab, fi.fbbc, fi.fcca);
  }

  /** One of the three moment updates of a face with a negated normal. */
  lemma AddAtFlipped(v: Vec, n: Vec, ax: Axes, x: real, y: real, z: real)
    ensures AddAt(Invert(v), ax, Mul(Invert(n)[ax.a], x), Mul(Invert(n)[ax.b], y), Mul(Invert(n)[ax.c], z))
         == Invert(AddAt(v, ax, Mul(n[ax.a], x), Mul(n[ax.b], y), Mul(n[ax.c], z)))
  {
    MulNegLeft(n[ax.a], x); MulNegLeft(n[ax.b], y); MulNegLeft(n[ax.c], z);
    AddAtNegated(v, ax, Mul(n[ax.a], x), Mul(n[ax.b], y), Mul(n[ax.c], z),
                 Mul(Invert(n)[ax.a], x), Mul(Invert(n)[ax.b], y), Mul(Invert(n)[ax.c], z));
  }

  /**
   * `Mul` with a negated left factor, instantiated per axis by the flipped
   * face contribution for the same reason as `MulNegNeg`.
   */
  lemma MulNegLeft(x: real, y: real)
    ensures Mul(-x, y) == -Mul(x, y)
  {
  }

  lemma AddAtNegated(v: Vec, ax: Axes, da: real, db: real, dc: real, ea: real, eb: real, ec: real)
    requires ea == -da && eb == -db && ec == -dc
    ensures AddAt(Invert(v), ax, ea, eb, ec) == Invert(AddAt(v, ax, da, db, dc))
  {
    var l, r := AddAt(Invert(v), ax, ea, eb, ec), Invert(AddAt(v, ax, da, db, dc));
    assert {ax.a, ax.b, ax.c} == {0, 1, 2};
    forall i | 0 <= i < 3
      ensures l[i] == r[i]
    {
      assert i == ax.a || i == ax.b || i == ax.c;
    }
    assert l == [l[0], l[1], l[2]] && r == [r[0], r[1], r[2]];
  }

  /** A flipped face contributes the same face integrals about the same axes. */
  lemma FaceContributionFlipped(verts: seq<Vec>, f: Face, g: Face)
    requires IndexesVertices(f, |verts|) && f.norm != Zero && Flipped(f, g)
    ensures IndexesVertices(g, |verts|) && g.norm != Zero
    ensures FaceContribution(verts, g) == FaceContribution(verts, f)
  {
    ScaleKeepsNonZero(f.norm, -1.0);
    assert Scale(f.norm, -1.0) == Invert(f.norm);
    DominantAxesInvert(f.norm);
    DominantComponentNonZero(f.norm);
    FaceIntegralsFlipped(verts, f, g, DominantAxes(f.norm));
  }

  lemma FaceIntegralsFlipped(verts: seq<Vec>, f: Face, g: Face, ax: Axes)
    requires IndexesVertices(f, |verts|) && f.norm[ax.c] != 0.0 && Flipped(f, g)
    ensures IndexesVertices(g, |verts|) && g.norm[ax.c] != 0.0
    ensures FaceIntegrals(verts, g, ax) == FaceIntegrals(verts, f, ax)
  {
    ProjectionIntegralsReversed(verts, f, g, ax);
    FaceIntegralsOfFlippedArgs(ProjectionIntegrals(verts, f, ax), ProjectionIntegrals(verts, g, ax),
                               f.norm, g.norm, f.w, g.w, ax);
  }

  lemma FaceIntegralsOfFlippedArgs(p: Proj, p': Proj, n: Vec, n': Vec, w: real, w': real, ax: Axes)
    requires n[ax.c] != 0.0 && p' == NegProj(p) && n' == Invert(n) && w' == -w
    ensures n'[ax.c] != 0.0
    ensures FaceIntegralsOf(p', n', w', ax) == FaceIntegralsOf(p, n, w, ax)
  {
    FaceIntegralsOfFlipped(p, n, w, ax);
  }

  /** The flipped faces are integrable and contribute exactly what the original faces do. */
  lemma FlippedContributions(verts: seq<Vec>, faces: seq<Face>, flipped: seq<Face>)
    requires Integrable(verts, faces) && |flipped| == |faces|
    requires forall j :: 0 <= j < |faces| ==> Flipped(faces[j], flipped[j])
    ensures Integrable(verts, flipped)
    ensures Contributions(verts, flipped) == Contributions(verts, faces)
  {
    forall j | 0 <= j < |flipped|
      ensures IndexesVertices(flipped[j], |verts|) && flipped[j].norm != Zero
    {
      FaceContributionFlipped(verts, faces[j], flipped[j]);
    }
    var l, r := Contributions(verts, flipped), Contributions(verts, faces);
    forall j | 0 <= j < |faces|
      ensures l[j] == r[j]
    {
      FaceContributionFlipped(verts, faces[j], flipped[j]);
    }
  }

  /** `flipped` is `faces` with every normal negated. */
  predicate NormsInverted(faces: seq<Face>, flipped: seq<Face>)
  {
    |flipped| == |faces| && forall j :: 0 <= j < |faces| ==> flipped[j].norm == Invert(faces[j].norm)
  }

  /** Negated normals with unchanged face integrals negate every partial sum. */
  lemma VolumeSumsFlipped(faces: seq<Face>, flipped: seq<Face>, cs: seq<(FaceInts, Axes)>, i: nat)
    requires NormsInverted(faces, flipped) && |cs| == |faces| && i <= |faces|
    ensures VolumeSums(flipped, cs, i) == NegVolume(VolumeSums(faces, cs, i))
  {
    var k := 0;
    while k < i
      invariant k <= i
      invariant VolumeSums(flipped, cs, k) == NegVolume(VolumeSums(faces, cs, k))
    {
      VolumeSumsFlippedStep(faces, flipped, cs, k);
      k := k + 1;
    }
  }

  lemma VolumeSumsFlippedStep(faces: seq<Face>, flipped: seq<Face>, cs: seq<(FaceInts, Axes)>, k: nat)
    requires NormsInverted(faces, flipped) && |cs| == |faces| && k < |faces|
    requires VolumeSums(flipped, cs, k) == NegVolume(VolumeSums(faces, cs, k))
    ensures VolumeSums(flipped, cs, k + 1) == NegVolume(VolumeSums(faces, cs, k + 1))
  {
    AddFaceFlipped(VolumeSums(faces, cs, k), faces[k].norm, cs[k].0, cs[k].1);
  }

  /**
   * Reversing every face and negating its plane negates all volume
   * integrals; in particular the signed volume T0 changes sign.
   */
  lemma VolumeIntegralsFlipped(verts: seq<Vec>, faces: seq<Face>, flipped: seq<Face>)
    requires Integrable(verts, faces) && |flipped| == |faces|
    requires forall j :: 0 <= j < |faces| ==> Flipped(faces[j], flipped[j])
    ensures Integrable(verts, flipped)
    ensures VolumeIntegrals(verts, flipped) == NegVolume(VolumeIntegrals(verts, faces))
  {
    FlippedContributions(verts, faces, flipped);
    var cs := Contributions(verts, faces);
    VolumeSumsFlipped(faces, flipped, cs, |faces|);
    var t := VolumeSums(faces, cs, |faces|);
    DivideInvert(t.t1, 2.0);
    DivideInvert(t.t2, 3.0);
    DivideInvert(t.tp, 2.0);
  }

  lemma DivideInvert(v: Vec, d: real)
    requires d != 0.0
    ensures DivideBy(Invert(v), d) == Invert(DivideBy(v, d))
  {
    var l, r := DivideBy(Invert(v), d), Invert(DivideBy(v, d));
    assert l[0] == r[0] && l[1] == r[1] && l[2] == r[2];
    assert l == [l[0], l[1], l[2]] && r == [r[0], r[1], r[2]];
  }
}
