/**
 * The last steps of `polyhedron::calculate_c3d_properties`: the volume
 * checks, and the mass properties the c3d header stores (volume, centre of
 * mass, inertia tensor about the centre of mass), each of which a value
 * read from the configuration file can replace.
 */
module MassProperties {
  import opened Common
  import opened Geometry
  import opened Mirtich
  import opened VolInt

  /** `density`, a constant of the volume-integration header, which is not part of this model. */
  const Density: real
  /** What IEEE division by zero yields (an infinity or a NaN), which the reals do not have. */
  const DivByZero: real

  /** Double division, with the division by zero made explicit. */
  function Quot(x: real, y: real): real
  {
    if y != 0.0 then x / y else DivByZero
  }

  /** `exception::negative_volume` and `exception::zero_volume`. */
  datatype C3dError = NegativeVolume(t0: real) | ZeroVolume

  /**
   * The volume checks: a negative volume is refused for every model, a zero
   * volume only for a model that is not a wheel (`wheel_id < 0`).
   */
  function VolumeCheck(t0: real, wheelId: int): (r: Option<C3dError>)
    ensures r == Some(NegativeVolume(t0)) <==> t0 < 0.0
    ensures r == Some(ZeroVolume) <==> t0 == 0.0 && wheelId < 0
    ensures r == None <==> t0 > 0.0 || (t0 == 0.0 && wheelId >= 0)
  {
    if t0 < 0.0 then Some(NegativeVolume(t0))
    else if t0 == 0.0 && wheelId < 0 then Some(ZeroVolume)
    else None
  }

  /** The centre of mass: the first moments divided by the volume. */
  function CenterOfMass(t1: Vec, volume: real): (r: Vec)
    ensures volume != 0.0 ==> Scale(r, volume) == t1
  {
    ScaleQuotients(t1, volume);
    [Quot(t1[0], volume), Quot(t1[1], volume), Quot(t1[2], volume)]
  }

  lemma ScaleQuotients(t1: Vec, volume: real)
    ensures volume != 0.0 ==> Scale([Quot(t1[0], volume), Quot(t1[1], volume), Quot(t1[2], volume)], volume) == t1
  {
    if volume != 0.0 {
      VecExt(Scale([Quot(t1[0], volume), Quot(t1[1], volume), Quot(t1[2], volume)], volume), t1);
    }
  }

  /**
   * The inertia tensor: the products and second moments of the body about
   * the origin, times the density, moved to the centre of mass `rcm` with
   * the parallel-axis terms of a body of mass `mass`.
   */
  function Inertia(t: VolumeInts, mass: real, rcm: Vec): (j: Matrix)
    ensures forall r, c :: 0 <= r < 3 && 0 <= c < 3 ==> |j[r]| == 3 && j[r][c] == j[c][r]
  {
    var xx := Mul(Density, t.t2[1] + t.t2[2]) - Mul(mass, Mul(rcm[1], rcm[1]) + Mul(rcm[2], rcm[2]));
    var yy := Mul(Density, t.t2[2] + t.t2[0]) - Mul(mass, Mul(rcm[2], rcm[2]) + Mul(rcm[0], rcm[0]));
    var zz := Mul(Density, t.t2[0] + t.t2[1]) - Mul(mass, Mul(rcm[0], rcm[0]) + Mul(rcm[1], rcm[1]));
    var xy := -Mul(Density, t.tp[0]) + Mul(Mul(mass, rcm[0]), rcm[1]);
    var yz := -Mul(Density, t.tp[1]) + Mul(Mul(mass, rcm[1]), rcm[2]);
    var zx := -Mul(Density, t.tp[2]) + Mul(Mul(mass, rcm[2]), rcm[0]);
    [[xx, xy, zx], [xy, yy, yz], [zx, yz, zz]]
  }

  /** The parallel-axis term of a product of inertia, with the mass and centre computed from the moments. */
  lemma ParallelTerm(d: real, v: real, x: real, y: real)
    requires v != 0.0
    ensures Mul(Mul(Mul(d, v), Quot(x, v)), Quot(y, v)) == Mul(d, Quot(Mul(x, y), v))
  {
    var p, q := x / v, y / v;
    assert p * v == x;
    calc {
      Mul(Mul(Mul(d, v), Quot(x, v)), Quot(y, v));
      (d * v * p) * q;
      d * (p * v) * q;
      d * x * q;
      d * (x * y / v);
      Mul(d, Quot(Mul(x, y), v));
    }
  }

  /** One product of inertia, `-density * TP + mass * rcm_a * rcm_b`, with the computed mass and centre. */
  lemma CentralProduct(tp: real, v: real, x: real, y: real)
    requires v != 0.0
    ensures -Mul(Density, tp) + Mul(Mul(Mul(Density, v), Quot(x, v)), Quot(y, v)) == -Mul(Density, tp - Quot(Mul(x, y), v))
  {
    ParallelTerm(Density, v, x, y);
    assert -Mul(Density, tp) + Mul(Density, Quot(Mul(x, y), v)) == -Mul(Density, tp - Quot(Mul(x, y), v));
  }

  /** One moment of inertia, `density * (T2_a + T2_b) - mass * (rcm_a^2 + rcm_b^2)`, with the computed mass and centre. */
  lemma CentralMoment(a: real, b: real, v: real, x: real, y: real)
    requires v != 0.0
    ensures Mul(Density, a + b) - Mul(Mul(Density, v), Mul(Quot(x, v), Quot(x, v)) + Mul(Quot(y, v), Quot(y, v)))
      == Mul(Density, (a - Quot(Mul(x, x), v)) + (b - Quot(Mul(y, y), v)))
  {
    ParallelTerm(Density, v, x, x);
    ParallelTerm(Density, v, y, y);
    var m, p, q := Mul(Density, v), Quot(x, v), Quot(y, v);
    assert Mul(m, Mul(p, p) + Mul(q, q)) == Mul(Mul(m, p), p) + Mul(Mul(m, q), q);
  }

  /**
   * With the computed volume and centre of mass, the tensor is the one about
   * the centre of mass: each moment of inertia is `density` times the sum of
   * two central second moments `T2 - T1 T1 / T0`, and each product of
   * inertia is `-density` times the central product moment `TP - T1 T1 / T0`.
   */
  lemma InertiaAboutCenter(t: VolumeInts)
    requires t.t0 != 0.0
    ensures var j := Inertia(t, Mul(Density, t.t0), CenterOfMass(t.t1, t.t0));
      j[0][0] == Mul(Density, (t.t2[1] - Quot(Mul(t.t1[1], t.t1[1]), t.t0)) + (t.t2[2] - Quot(Mul(t.t1[2], t.t1[2]), t.t0)))
      && j[1][1] == Mul(Density, (t.t2[2] - Quot(Mul(t.t1[2], t.t1[2]), t.t0)) + (t.t2[0] - Quot(Mul(t.t1[0], t.t1[0]), t.t0)))
      && j[2][2] == Mul(Density, (t.t2[0] - Quot(Mul(t.t1[0], t.t1[0]), t.t0)) + (t.t2[1] - Quot(Mul(t.t1[1], t.t1[1]), t.t0)))
      && j[0][1] == -Mul(Density, t.tp[0] - Quot(Mul(t.t1[0], t.t1[1]), t.t0))
      && j[1][2] == -Mul(Density, t.tp[1] - Quot(Mul(t.t1[1], t.t1[2]), t.t0))
      && j[2][0] == -Mul(Density, t.tp[2] - Quot(Mul(t.t1[2], t.t1[0]), t.t0))
  {
    var rcm := CenterOfMass(t.t1, t.t0);
    var j := Inertia(t, Mul(Density, t.t0), rcm);
    CentralMoment(t.t2[1], t.t2[2], t.t0, t.t1[1], t.t1[2]);
    CentralMoment(t.t2[2], t.t2[0], t.t0, t.t1[2], t.t1[0]);
    CentralMoment(t.t2[0], t.t2[1], t.t0, t.t1[0], t.t1[1]);
    assert j[0][1] == -Mul(Density, t.tp[0] - Quot(Mul(t.t1[0], t.t1[1]), t.t0)) by {
      assert j[0][1] == -Mul(Density, t.tp[0]) + Mul(Mul(Mul(Density, t.t0), Quot(t.t1[0], t.t0)), Quot(t.t1[1], t.t0));
      CentralProduct(t.tp[0], t.t0, t.t1[0], t.t1[1]);
    }
    assert j[1][2] == -Mul(Density, t.tp[1] - Quot(Mul(t.t1[1], t.t1[2]), t.t0)) by {
      assert j[1][2] == -Mul(Density, t.tp[1]) + Mul(Mul(Mul(Density, t.t0), Quot(t.t1[1], t.t0)), Quot(t.t1[2], t.t0));
      CentralProduct(t.tp[1], t.t0, t.t1[1], t.t1[2]);
    }
    assert j[2][0] == -Mul(Density, t.tp[2] - Quot(Mul(t.t1[2], t.t1[0]), t.t0)) by {
      assert j[2][0] == -Mul(Density, t.tp[2]) + Mul(Mul(Mul(Density, t.t0), Quot(t.t1[2], t.t0)), Quot(t.t1[0], t.t0));
      CentralProduct(t.tp[2], t.t0, t.t1[2], t.t1[0]);
    }
  }

  /** Volume, centre of mass and inertia tensor as the c3d header stores them. */
  datatype MassProps = MassProps(volume: real, rcm: Vec, j: Matrix)

  /**
   * The properties after a successful check: each one computed from the
   * volume integrals unless its `*_overwritten` flag keeps the earlier
   * value; the centre of mass divides by the volume in force, and the
   * tensor uses the mass and centre of mass in force.
   */
  function Computed(t: VolumeInts, before: MassProps, volumeOverwritten: bool, rcmOverwritten: bool, jOverwritten: bool): (r: MassProps)
    ensures volumeOverwritten ==> r.volume == before.volume
    ensures !volumeOverwritten ==> r.volume == t.t0
    ensures rcmOverwritten ==> r.rcm == before.rcm
    ensures !rcmOverwritten && r.volume != 0.0 ==> Scale(r.rcm, r.volume) == t.t1
    ensures jOverwritten ==> r.j == before.j
    ensures forall a, b :: !jOverwritten && 0 <= a < 3 && 0 <= b < 3 ==> |r.j[a]| == 3 && r.j[a][b] == r.j[b][a]
  {
    var volume := if volumeOverwritten then before.volume else t.t0;
    var mass := Mul(Density, volume);
    var rcm := if rcmOverwritten then before.rcm else CenterOfMass(t.t1, volume);
    var tensor := if jOverwritten then before.j else Inertia(t, mass, rcm);
    MassProps(volume, rcm, tensor)
  }

  /** With nothing overwritten and a non-zero volume, the tensor is the central one of `InertiaAboutCenter`. */
  lemma ComputedIsCentral(t: VolumeInts, before: MassProps)
    requires t.t0 != 0.0
    ensures var r := Computed(t, before, false, false, false);
      r.j == Inertia(t, Mul(Density, t.t0), CenterOfMass(t.t1, t.t0))
      && r.j[0][1] == -Mul(Density, t.tp[0] - Quot(Mul(t.t1[0], t.t1[1]), t.t0))
  {
    var r := Computed(t, before, false, false, false);
    assert r.volume == t.t0 && r.rcm == CenterOfMass(t.t1, t.t0);
    assert r.j == Inertia(t, Mul(Density, r.volume), r.rcm);
    InertiaAboutCenter(t);
  }
}
