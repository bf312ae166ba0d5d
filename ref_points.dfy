/**
 * The tests and the search order of `polyhedron::find_ref_points`. Slots are
 * numbered as in `recalc_vertNorms`: slot `k` of face `f` is `f * vpp + k`,
 * so the nested face / vertex loops visit the slot numbers in increasing
 * order.
 */
module RefPoints {
  import opened Common
  import opened Geometry
  import opened VolInt
  import opened VertNormals

  /** The second-vertex test: apart by more than `distinct_distance` in x or in z, and also in y. */
  predicate FarEnough(d: Vec)
  {
    (Abs(d[0]) > DistinctDistance || Abs(d[2]) > DistinctDistance) && Abs(d[1]) > DistinctDistance
  }

  /** The third-vertex test: some 2x2 minor of the two offsets reaches `sqr_distinct_distance`. */
  predicate NotCollinear(d1: Vec, d2: Vec)
  {
    !(Abs(Mul(d1[0], d2[1]) - Mul(d2[0], d1[1])) < SqrDistinctDistance
      && Abs(Mul(d1[0], d2[2]) - Mul(d2[0], d1[2])) < SqrDistinctDistance
      && Abs(Mul(d1[1], d2[2]) - Mul(d2[1], d1[2])) < SqrDistinctDistance)
  }

  /** The three minors are the components of the cross product, up to sign. */
  lemma NotCollinearIsCross(d1: Vec, d2: Vec)
    ensures NotCollinear(d1, d2) <==>
      Abs(Cross(d1, d2)[0]) >= SqrDistinctDistance || Abs(Cross(d1, d2)[1]) >= SqrDistinctDistance
      || Abs(Cross(d1, d2)[2]) >= SqrDistinctDistance
  {
    var c := Cross(d1, d2);
    assert c[0] == Mul(d1[1], d2[2]) - Mul(d2[1], d1[2]);
    assert c[1] == -(Mul(d1[0], d2[2]) - Mul(d2[0], d1[2]));
    assert c[2] == Mul(d1[0], d2[1]) - Mul(d2[0], d1[1]);
  }

  /** With a positive threshold, a third vertex that passes spans a plane with the first two: the cross product is not zero. */
  lemma NotCollinearSpans(d1: Vec, d2: Vec)
    requires SqrDistinctDistance > 0.0 && NotCollinear(d1, d2)
    ensures Cross(d1, d2) != Zero
  {
    NotCollinearIsCross(d1, d2);
  }

  /** With a non-negative threshold, a second vertex that passes is a different point. */
  lemma FarEnoughDistinct(d: Vec)
    requires DistinctDistance >= 0.0 && FarEnough(d)
    ensures d != Zero && d[1] != 0.0
  {
  }

  /** The faces searched: `n` faces of at least `vpp` vertices with valid vertex indices. */
  predicate SearchArea(verts: seq<Vec>, faces: seq<Face>, n: int, vpp: int)
  {
    1 <= vpp && 0 <= n <= |faces| && forall i :: 0 <= i < n ==> SlotsIndex(faces[i], vpp, |verts|)
  }

  /** The face and slot of slot number `s`. */
  function SlotOf(s: int, vpp: int): (p: (int, int))
    requires 1 <= vpp
  {
    (s / vpp, s % vpp)
  }

  lemma SlotOfRange(n: int, vpp: int, s: int)
    requires 1 <= vpp && 0 <= s < n * vpp
    ensures 0 <= s / vpp < n && 0 <= s % vpp < vpp
  {
    var q := s / vpp;
    if q >= n {
      MulMonotone(n, q, vpp);
    }
  }

  lemma SlotOfSlotId(vpp: int, f: int, k: int)
    requires 1 <= vpp && 0 <= f && 0 <= k < vpp
    ensures SlotOf(SlotId(f, k, vpp), vpp) == (f, k)
  {
    SlotIdDivMod(vpp, f, k);
  }

  /** The vertex at slot number `s`. */
  function SlotPoint(verts: seq<Vec>, faces: seq<Face>, n: int, vpp: int, s: int): Vec
    requires SearchArea(verts, faces, n, vpp) && 0 <= s < n * vpp
  {
    SlotOfRange(n, vpp, s);
    verts[faces[s / vpp].verts[s % vpp]]
  }

  /** Slot `b` passes the second-vertex test against slot `a`. */
  predicate TwoOk(verts: seq<Vec>, faces: seq<Face>, n: int, vpp: int, a: int, b: int)
    requires SearchArea(verts, faces, n, vpp) && 0 <= a < n * vpp && 0 <= b < n * vpp
  {
    FarEnough(Minus(SlotPoint(verts, faces, n, vpp, b), SlotPoint(verts, faces, n, vpp, a)))
  }

  /** Slot `c` passes the third-vertex test against slots `a` and `b`. */
  predicate ThreeOk(verts: seq<Vec>, faces: seq<Face>, n: int, vpp: int, a: int, b: int, c: int)
    requires SearchArea(verts, faces, n, vpp) && 0 <= a < n * vpp && 0 <= b < n * vpp && 0 <= c < n * vpp
  {
    var p := SlotPoint(verts, faces, n, vpp, a);
    NotCollinear(Minus(SlotPoint(verts, faces, n, vpp, b), p), Minus(SlotPoint(verts, faces, n, vpp, c), p))
  }

  /** The pair (a, b) passes and some slot completes it. */
  ghost predicate HasThird(verts: seq<Vec>, faces: seq<Face>, n: int, vpp: int, a: int, b: int)
    requires SearchArea(verts, faces, n, vpp) && 0 <= a < n * vpp && 0 <= b < n * vpp
  {
    TwoOk(verts, faces, n, vpp, a, b) && exists c :: 0 <= c < n * vpp && ThreeOk(verts, faces, n, vpp, a, b, c)
  }

  /** No pair before (a, b) in the search order is completed by a third slot. */
  ghost predicate NoTripleBefore(verts: seq<Vec>, faces: seq<Face>, n: int, vpp: int, a: int, b: int)
    requires SearchArea(verts, faces, n, vpp)
  {
    forall a', b' :: 0 <= a' < n * vpp && 0 <= b' < n * vpp && (a' < a || (a' == a && b' < b)) ==>
      !HasThird(verts, faces, n, vpp, a', b')
  }

  /**
   * The second slot of the last pair before (a, b), in the search order,
   * that passes the second-vertex test: what `ref_vert_two_ind` holds once
   * the search has reached (a, b) without finishing.
   */
  function LastTwo(verts: seq<Vec>, faces: seq<Face>, n: int, vpp: int, a: int, b: int): (r: Option<int>)
    requires SearchArea(verts, faces, n, vpp) && 0 <= a <= n * vpp && 0 <= b <= n * vpp && (a < n * vpp || b == 0)
    ensures r.Some? ==> 0 <= r.value < n * vpp
    decreases a, b
  {
    if b > 0 then
      if TwoOk(verts, faces, n, vpp, a, b - 1) then Some(b - 1) else LastTwo(verts, faces, n, vpp, a, b - 1)
    else if a > 0 then LastTwo(verts, faces, n, vpp, a - 1, n * vpp)
    else None
  }

  /** `LastTwo` is the last passing pair: a passing pair before (a, b) is never after it. */
  lemma {:induction false} LastTwoIsLast(verts: seq<Vec>, faces: seq<Face>, n: int, vpp: int, a: int, b: int, a': int, b': int)
    requires SearchArea(verts, faces, n, vpp) && 0 <= a <= n * vpp && 0 <= b <= n * vpp && (a < n * vpp || b == 0)
    requires 0 <= a' < n * vpp && 0 <= b' < n * vpp && (a' < a || (a' == a && b' < b))
    requires TwoOk(verts, faces, n, vpp, a', b')
    ensures LastTwo(verts, faces, n, vpp, a, b).Some?
    decreases a, b
  {
    if b > 0 {
      if !TwoOk(verts, faces, n, vpp, a, b - 1) {
        LastTwoIsLast(verts, faces, n, vpp, a, b - 1, a', b');
      }
    } else {
      LastTwoIsLast(verts, faces, n, vpp, a - 1, n * vpp, a', b');
    }
  }

  /** Where `ref_vert_two_ind` ends when the search reaches (a, b): the last passing pair's slot, or its value before. */
  function TwoAfter(verts: seq<Vec>, faces: seq<Face>, n: int, vpp: int, a: int, b: int, before: (int, int)): (int, int)
    requires SearchArea(verts, faces, n, vpp) && 0 <= a <= n * vpp && 0 <= b <= n * vpp && (a < n * vpp || b == 0)
  {
    match LastTwo(verts, faces, n, vpp, a, b)
    case Some(s) => SlotOf(s, vpp)
    case None => before
  }

  /** Slot `k` of face `f` has slot number `SlotId(f, k, vpp)`, and its vertex is the one the loops read. */
  lemma SlotPointAt(verts: seq<Vec>, faces: seq<Face>, n: int, vpp: int, f: int, k: int)
    requires SearchArea(verts, faces, n, vpp) && 0 <= f < n && 0 <= k < vpp
    ensures 0 <= SlotId(f, k, vpp) < n * vpp
    ensures SlotPoint(verts, faces, n, vpp, SlotId(f, k, vpp)) == verts[faces[f].verts[k]]
  {
    SlotIdRange(vpp, n, f, k);
    SlotOfSlotId(vpp, f, k);
  }

  /** The slot numbers of the faces before `f + 1` are those before face `f` and its `vpp` slots. */
  lemma NextFace(vpp: int, f: int)
    ensures SlotId(f, vpp, vpp) == (f + 1) * vpp
  {
  }

  /**
   * The innermost double loop: the first slot, in search order, that
   * passes the third-vertex test against slots `a` and `b`, or `n * vpp`
   * when none does.
   */
  method FindThird(verts: seq<Vec>, faces: seq<Face>, n: int, vpp: int, a: int, b: int) returns (c: int)
    requires SearchArea(verts, faces, n, vpp) && 0 <= a < n * vpp && 0 <= b < n * vpp
    ensures 0 <= c <= n * vpp
    ensures c < n * vpp ==> ThreeOk(verts, faces, n, vpp, a, b, c)
    ensures forall c' :: 0 <= c' < c ==> !ThreeOk(verts, faces, n, vpp, a, b, c')
  {
    var one := SlotPoint(verts, faces, n, vpp, a);
    var two := SlotPoint(verts, faces, n, vpp, b);
    for polyThree := 0 to n
      invariant forall c' :: 0 <= c' < n * vpp && c' < polyThree * vpp ==> !ThreeOk(verts, faces, n, vpp, a, b, c')
    {
      for vertThree := 0 to vpp
        invariant forall c' :: 0 <= c' < n * vpp && c' < SlotId(polyThree, vertThree, vpp) ==> !ThreeOk(verts, faces, n, vpp, a, b, c')
      {
        var cur := verts[faces[polyThree].verts[vertThree]];
        SlotPointAt(verts, faces, n, vpp, polyThree, vertThree);
        if NotCollinear(Minus(two, one), Minus(cur, one)) {
          return SlotId(polyThree, vertThree, vpp);
        }
      }
      NextFace(vpp, polyThree);
    }
    c := n * vpp;
  }

  /** A reference slot is unset (a negative face index) or names a searched slot. */
  predicate RefSlot(p: (int, int), n: int, vpp: int)
  {
    p.0 < 0 || (p.0 < n && 0 <= p.1 < vpp)
  }

  lemma TwoAfterSlot(verts: seq<Vec>, faces: seq<Face>, n: int, vpp: int, a: int, b: int, before: (int, int))
    requires SearchArea(verts, faces, n, vpp) && 0 <= a <= n * vpp && 0 <= b <= n * vpp && (a < n * vpp || b == 0)
    requires RefSlot(before, n, vpp)
    ensures RefSlot(TwoAfter(verts, faces, n, vpp, a, b, before), n, vpp)
  {
    var l := LastTwo(verts, faces, n, vpp, a, b);
    if l.Some? {
      SlotOfRange(n, vpp, l.value);
    }
  }

  /**
   * (a, b, c) is where the search stops: the first pair in search order
   * that some slot completes, and the first slot completing it.
   */
  ghost predicate FirstTriple(verts: seq<Vec>, faces: seq<Face>, n: int, vpp: int, a: int, b: int, c: int)
    requires SearchArea(verts, faces, n, vpp)
  {
    0 <= a < n * vpp && 0 <= b < n * vpp && 0 <= c < n * vpp
    && TwoOk(verts, faces, n, vpp, a, b) && ThreeOk(verts, faces, n, vpp, a, b, c)
    && (forall c' :: 0 <= c' < c ==> !ThreeOk(verts, faces, n, vpp, a, b, c'))
    && NoTripleBefore(verts, faces, n, vpp, a, b)
  }

  /**
   * The reference slots after the search: either the first complete
   * triple, or, when there is none, the last slot as the first vertex, the
   * last passing pair's second slot (or the earlier value) as the second,
   * and the third left as it was.
   */
  ghost predicate SearchOutcome(verts: seq<Vec>, faces: seq<Face>, n: int, vpp: int,
                                two0: (int, int), three0: (int, int), one: (int, int), two: (int, int), three: (int, int))
    requires SearchArea(verts, faces, n, vpp) && 1 <= n
  {
    (exists a, b, c :: FirstTriple(verts, faces, n, vpp, a, b, c)
       && one == SlotOf(a, vpp) && two == SlotOf(b, vpp) && three == SlotOf(c, vpp))
    || (NoTripleBefore(verts, faces, n, vpp, n * vpp, 0) && one == SlotOf(n * vpp - 1, vpp)
        && two == TwoAfter(verts, faces, n, vpp, n * vpp, 0, two0) && three == three0)
  }

  /** One step of the second-vertex loops. */
  lemma SearchStep(verts: seq<Vec>, faces: seq<Face>, n: int, vpp: int, a: int, b: int, before: (int, int))
    requires SearchArea(verts, faces, n, vpp) && 0 <= a < n * vpp && 0 <= b < n * vpp
    requires NoTripleBefore(verts, faces, n, vpp, a, b) && !HasThird(verts, faces, n, vpp, a, b)
    ensures NoTripleBefore(verts, faces, n, vpp, a, b + 1)
    ensures TwoAfter(verts, faces, n, vpp, a, b + 1, before) ==
      if TwoOk(verts, faces, n, vpp, a, b) then SlotOf(b, vpp) else TwoAfter(verts, faces, n, vpp, a, b, before)
  {
  }

  /** Moving to the next first vertex once every second vertex has been tried. */
  lemma SearchNextOne(verts: seq<Vec>, faces: seq<Face>, n: int, vpp: int, a: int, before: (int, int))
    requires SearchArea(verts, faces, n, vpp) && 0 <= a < n * vpp
    requires NoTripleBefore(verts, faces, n, vpp, a, n * vpp)
    ensures NoTripleBefore(verts, faces, n, vpp, a + 1, 0)
    ensures TwoAfter(verts, faces, n, vpp, a + 1, 0, before) == TwoAfter(verts, faces, n, vpp, a, n * vpp, before)
  {
  }

  /** The vertex a set reference slot names. */
  function RefPoint(verts: seq<Vec>, faces: seq<Face>, n: int, vpp: int, p: (int, int)): Vec
    requires SearchArea(verts, faces, n, vpp) && RefSlot(p, n, vpp) && 0 <= p.0
  {
    verts[faces[p.0].verts[p.1]]
  }

  /**
   * The second-vertex loops for first slot `a`: every slot `b` in order;
   * one passing the second-vertex test becomes `ref_vert_two_ind`, and the
   * third-vertex search runs; `done` is the `goto` out of the search.
   */
  method SearchSecond(verts: seq<Vec>, faces: seq<Face>, n: int, vpp: int, a: int, two0: (int, int), twoIn: (int, int))
    returns (two: (int, int), b: int, c: int, done: bool)
    requires SearchArea(verts, faces, n, vpp) && 0 <= a < n * vpp && RefSlot(two0, n, vpp)
    requires NoTripleBefore(verts, faces, n, vpp, a, 0) && twoIn == TwoAfter(verts, faces, n, vpp, a, 0, two0)
    ensures RefSlot(two, n, vpp)
    ensures done ==> FirstTriple(verts, faces, n, vpp, a, b, c) && two == SlotOf(b, vpp)
    ensures !done ==> NoTripleBefore(verts, faces, n, vpp, a, n * vpp) && two == TwoAfter(verts, faces, n, vpp, a, n * vpp, two0)
  {
    var one := SlotPoint(verts, faces, n, vpp, a);
    two, b, c, done := twoIn, 0, 0, false;
    TwoAfterSlot(verts, faces, n, vpp, a, 0, two0);
    for polyTwo := 0 to n
      invariant polyTwo * vpp <= n * vpp
      invariant NoTripleBefore(verts, faces, n, vpp, a, polyTwo * vpp)
      invariant two == TwoAfter(verts, faces, n, vpp, a, polyTwo * vpp, two0)
    {
      MulMonotone(polyTwo + 1, n, vpp);
      for vertTwo := 0 to vpp
        invariant NoTripleBefore(verts, faces, n, vpp, a, SlotId(polyTwo, vertTwo, vpp))
        invariant two == TwoAfter(verts, faces, n, vpp, a, SlotId(polyTwo, vertTwo, vpp), two0)
      {
        SlotPointAt(verts, faces, n, vpp, polyTwo, vertTwo);
        SlotOfSlotId(vpp, polyTwo, vertTwo);
        var cur := verts[faces[polyTwo].verts[vertTwo]];
        b := SlotId(polyTwo, vertTwo, vpp);
        if FarEnough(Minus(cur, one)) {
          two := (polyTwo, vertTwo);
          c := FindThird(verts, faces, n, vpp, a, b);
          if c < n * vpp {
            done := true;
            return;
          }
        }
        SearchStep(verts, faces, n, vpp, a, b, two0);
      }
      NextFace(vpp, polyTwo);
    }
    TwoAfterSlot(verts, faces, n, vpp, a, n * vpp, two0);
  }

  /**
   * The whole search of `find_ref_points` over the slots of the first `n`
   * faces: `one` is set at every first slot tried, `two` at every passing
   * second slot, `three` only at a complete triple, where the search stops.
   */
  method SearchRefSlots(verts: seq<Vec>, faces: seq<Face>, n: int, vpp: int,
                        one0: (int, int), two0: (int, int), three0: (int, int))
    returns (one: (int, int), two: (int, int), three: (int, int))
    requires SearchArea(verts, faces, n, vpp) && 1 <= n
    requires RefSlot(one0, n, vpp) && RefSlot(two0, n, vpp) && RefSlot(three0, n, vpp)
    ensures SearchOutcome(verts, faces, n, vpp, two0, three0, one, two, three)
    ensures RefSlot(one, n, vpp) && RefSlot(two, n, vpp) && RefSlot(three, n, vpp)
  {
    one, two, three := one0, two0, three0;
    TwoAfterSlot(verts, faces, n, vpp, 0, 0, two0);
    for polyOne := 0 to n
      invariant NoTripleBefore(verts, faces, n, vpp, polyOne * vpp, 0)
      invariant polyOne > 0 ==> one == (polyOne - 1, vpp - 1)
      invariant RefSlot(one, n, vpp) && RefSlot(two, n, vpp) && three == three0
      invariant two == TwoAfter(verts, faces, n, vpp, polyOne * vpp, 0, two0)
    {
      var a, b, c, done;
      one, two, a, b, c, done := SearchFace(verts, faces, n, vpp, polyOne, two0, two);
      if done {
        SlotOfRange(n, vpp, c);
        three := SlotOf(c, vpp);
        TripleOutcome(verts, faces, n, vpp, two0, three0, a, b, c, one, two, three);
        return;
      }
    }
    NoTripleOutcome(verts, faces, n, vpp, two0, three0, one, two, three);
  }

  lemma TripleOutcome(verts: seq<Vec>, faces: seq<Face>, n: int, vpp: int, two0: (int, int), three0: (int, int),
                      a: int, b: int, c: int, one: (int, int), two: (int, int), three: (int, int))
    requires SearchArea(verts, faces, n, vpp) && 1 <= n
    requires FirstTriple(verts, faces, n, vpp, a, b, c)
    requires one == SlotOf(a, vpp) && two == SlotOf(b, vpp) && three == SlotOf(c, vpp)
    ensures SearchOutcome(verts, faces, n, vpp, two0, three0, one, two, three)
  {
  }

  lemma NoTripleOutcome(verts: seq<Vec>, faces: seq<Face>, n: int, vpp: int, two0: (int, int), three0: (int, int),
                        one: (int, int), two: (int, int), three: (int, int))
    requires SearchArea(verts, faces, n, vpp) && 1 <= n
    requires NoTripleBefore(verts, faces, n, vpp, n * vpp, 0) && one == (n - 1, vpp - 1)
    requires two == TwoAfter(verts, faces, n, vpp, n * vpp, 0, two0) && three == three0
    ensures SearchOutcome(verts, faces, n, vpp, two0, three0, one, two, three)
  {
    SlotIdRange(vpp, n, n - 1, vpp - 1);
    SlotOfSlotId(vpp, n - 1, vpp - 1);
  }

  /**
   * The first-vertex loop over the slots of face `polyOne`: each becomes
   * `ref_vert_one_ind` in turn and the second-vertex loops run for it;
   * `done` is the `goto` out of the search, at the triple (a, b, c).
   */
  method SearchFace(verts: seq<Vec>, faces: seq<Face>, n: int, vpp: int, polyOne: int, two0: (int, int), twoIn: (int, int))
    returns (one: (int, int), two: (int, int), a: int, b: int, c: int, done: bool)
    requires SearchArea(verts, faces, n, vpp) && 0 <= polyOne < n && RefSlot(two0, n, vpp)
    requires NoTripleBefore(verts, faces, n, vpp, polyOne * vpp, 0)
    requires twoIn == TwoAfter(verts, faces, n, vpp, polyOne * vpp, 0, two0) && RefSlot(twoIn, n, vpp)
    ensures (polyOne + 1) * vpp <= n * vpp
    ensures RefSlot(one, n, vpp) && RefSlot(two, n, vpp)
    ensures done ==> FirstTriple(verts, faces, n, vpp, a, b, c) && one == SlotOf(a, vpp) && two == SlotOf(b, vpp)
    ensures !done ==>
      one == (polyOne, vpp - 1) && NoTripleBefore(verts, faces, n, vpp, (polyOne + 1) * vpp, 0)
      && two == TwoAfter(verts, faces, n, vpp, (polyOne + 1) * vpp, 0, two0)
  {
    MulMonotone(polyOne + 1, n, vpp);
    one, two, a, b, c, done := (polyOne, 0), twoIn, 0, 0, 0, false;
    for vertOne := 0 to vpp
      invariant NoTripleBefore(verts, faces, n, vpp, SlotId(polyOne, vertOne, vpp), 0)
      invariant vertOne > 0 ==> one == (polyOne, vertOne - 1)
      invariant RefSlot(one, n, vpp) && RefSlot(two, n, vpp)
      invariant two == TwoAfter(verts, faces, n, vpp, SlotId(polyOne, vertOne, vpp), 0, two0)
    {
      one := (polyOne, vertOne);
      SlotIdRange(vpp, n, polyOne, vertOne);
      SlotOfSlotId(vpp, polyOne, vertOne);
      a := SlotId(polyOne, vertOne, vpp);
      two, b, c, done := SearchSecond(verts, faces, n, vpp, a, two0, two);
      if done {
        return;
      }
      SearchNextOne(verts, faces, n, vpp, a, two0);
    }
    NextFace(vpp, polyOne);
  }


  /** The fields `find_ref_points` sets: the three reference slots, the two offsets from the first vertex and the angle. */
  datatype RefState = RefState(one: (int, int), two: (int, int), three: (int, int), twoRel: Vec, threeRel: Vec, angle: real)

  /**
   * What `find_ref_points` promises, from the state before to the state
   * after: the slots are those of the search; success is the first and
   * second slots being set; then the second (and, when set, the third)
   * offset from the first vertex and the angle of the second offset around
   * y; a field the source does not assign keeps its value.
   */
  ghost predicate RefSearch(verts: seq<Vec>, faces: seq<Face>, n: int, vpp: int, before: RefState, after: RefState, found: bool)
    requires SearchArea(verts, faces, n, vpp) && 1 <= n
  {
    SearchOutcome(verts, faces, n, vpp, before.two, before.three, after.one, after.two, after.three)
    && RefSlot(after.one, n, vpp) && RefSlot(after.two, n, vpp) && RefSlot(after.three, n, vpp)
    && found == (after.one.0 >= 0 && after.two.0 >= 0)
    && (found ==>
          after.twoRel == Minus(RefPoint(verts, faces, n, vpp, after.two), RefPoint(verts, faces, n, vpp, after.one))
          && after.angle == Atan2(after.twoRel[0], after.twoRel[2]))
    && (found && after.three.0 >= 0 ==>
          after.threeRel == Minus(RefPoint(verts, faces, n, vpp, after.three), RefPoint(verts, faces, n, vpp, after.one)))
    && (!(found && after.three.0 >= 0) ==> after.threeRel == before.threeRel)
    && (!found ==> after.twoRel == before.twoRel && after.angle == before.angle)
  }

  /** `find_ref_points` on the values of the fields it reads and writes. */
  method FindRefPointsOf(verts: seq<Vec>, faces: seq<Face>, n: int, vpp: int, before: RefState) returns (found: bool, after: RefState)
    requires SearchArea(verts, faces, n, vpp) && 1 <= n
    requires RefSlot(before.one, n, vpp) && RefSlot(before.two, n, vpp) && RefSlot(before.three, n, vpp)
    ensures RefSearch(verts, faces, n, vpp, before, after, found)
  {
    var one, two, three := SearchRefSlots(verts, faces, n, vpp, before.one, before.two, before.three);
    if one.0 < 0 || two.0 < 0 {
      return false, before.(one := one, two := two, three := three);
    }
    var p1 := verts[faces[one.0].verts[one.1]];
    var p2 := verts[faces[two.0].verts[two.1]];
    var twoRel := Minus(p2, p1);
    var threeRel := before.threeRel;
    if three.0 >= 0 {
      threeRel := Minus(verts[faces[three.0].verts[three.1]], p1);
    }
    var angle := Atan2(p2[0] - p1[0], p2[2] - p1[2]);
    return true, RefState(one, two, three, twoRel, threeRel, angle);
  }
}
