/** The row layouts that flow through the pipeline, the fixed-point scaling, and the
    float operations the model keeps abstract. */
module Rows {
  import opened Seqs

  /** One row of `pull_list`: frame, centre x, centre y, radius (pixels, floats). */
  datatype RawObs = RawObs(t: int, x: real, y: real, r: real)

  /** A candidate after `gdl * [1, 10, 10, 10000]` and `astype(int)`:
      x and y in tenths of a pixel, radius in ten-thousandths. Columns 0..3. */
  datatype Cand = Cand(t: int, x: int, y: int, r: int)

  /** Output of the stack-distance step, 9 columns: p = columns 0..3 (later frame),
      q = columns 4..7 (earlier frame), dist = column 8. */
  datatype DistRow = DistRow(p: Cand, q: Cand, dist: real)

  /** After the speed step, 10 columns: speed = column 9. */
  datatype SpeedRow = SpeedRow(p: Cand, q: Cand, dist: real, speed: real)

  /** A segment, 11 columns: t1 x1 y1 r1 | t2 x2 y2 r2 | distance speed bearing. */
  datatype Segment = Segment(p: Cand, q: Cand, dist: real, speed: real, bearing: real)

  /** A track, 22 columns: segment `a` in columns 0..10, segment `b` in 11..21.
      So t1..r1 = a.p, t2..r2 = a.q, t3..r3 = b.p, t4..r4 = b.q,
      column 8 = a.dist, 9 = a.speed, 10 = a.bearing, 19 = b.dist, 20 = b.speed, 21 = b.bearing. */
  datatype Track = Track(a: Segment, b: Segment)

  /** The floating-point routines the pipeline calls: `np.sqrt`, and the bearing
      `np.arctan(dy / dx) * 180 / pi` as a function of the integer displacements (dy, dx). */
  datatype FloatOps = FloatOps(sqrt: real -> real, bearing: (int, int) -> real)

  /** `f` is the non-negative square root on non-negative arguments. */
  ghost predicate IsRoot(f: real -> real)
  {
    forall v :: v >= 0.0 ==> f(v) >= 0.0 && f(v) * f(v) == v
  }

  /** Relative and absolute tolerances for radius, speed and angle closeness. */
  datatype Tolerances = Tolerances(radr: real, rada: real, sper: real, spea: real, angr: real, anga: real)

  /** The constructor's defaults: radr=10, rada=0.0, sper=.1, spea=1, angr=5e-2, anga=2e-5. */
  function DefaultTolerances(): (tol: Tolerances)
    ensures tol.spea > 0.0 && tol.anga > 0.0
  {
    Tolerances(10.0, 0.0, 0.1, 1.0, 0.05, 0.00002)
  }

  /** The constructor's default look-back `last=5`; the class stores it as `last + 2`. */
  const DEFAULT_LAST: int := 5

  /** `astype(int)`: truncation toward zero. */
  function Trunc(v: real): (r: int)
    ensures v >= 0.0 ==> r >= 0 && r as real <= v < r as real + 1.0
    ensures v < 0.0 ==> r <= 0 && r as real - 1.0 < v <= r as real
  {
    if v >= 0.0 then v.Floor else -((-v).Floor)
  }

  /** The fixed-point scaling of one row. */
  function Scale(o: RawObs): (c: Cand)
    ensures c.t == o.t
    ensures o.x >= 0.0 ==> c.x as real <= 10.0 * o.x < c.x as real + 1.0
    ensures o.y >= 0.0 ==> c.y as real <= 10.0 * o.y < c.y as real + 1.0
    ensures o.r >= 0.0 ==> c.r as real <= 10000.0 * o.r < c.r as real + 1.0
  {
    Cand(o.t, Trunc(o.x * 10.0), Trunc(o.y * 10.0), Trunc(o.r * 10000.0))
  }

  /** `np.sign` on integers. */
  function Sign(v: int): (s: int)
    ensures s == -1 || s == 0 || s == 1
    ensures (s > 0 <==> v > 0) && (s < 0 <==> v < 0)
  {
    if v > 0 then 1 else if v < 0 then -1 else 0
  }

  /** Lexicographic row order of `np.unique(..., axis=0)` on pull_list rows. */
  predicate LexLt4(a: RawObs, b: RawObs)
  {
    a.t < b.t
    || (a.t == b.t && (a.x < b.x
    || (a.x == b.x && (a.y < b.y
    || (a.y == b.y && a.r < b.r)))))
  }

  /** Lexicographic order of `np.unique(..., axis=0)` on (x, y) pairs. */
  predicate LexLt2(a: (int, int), b: (int, int))
  {
    a.0 < b.0 || (a.0 == b.0 && a.1 < b.1)
  }

  lemma LexLt4IsStrictOrder()
    ensures StrictOrder(LexLt4)
  {
  }

  lemma LexLt2IsStrictOrder()
    ensures StrictOrder(LexLt2)
  {
  }
}
