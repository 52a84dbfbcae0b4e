/** Pairing of candidates across two frames: the cross product (`combineperms`),
    the distance gate (`stackdistance`), and the speed and bearing columns
    (`getspeed`, `getdir`). */
module Pairing {
  import opened Seqs
  import opened Rows
  import opened Tolerance

  // ---------------------------------------------------------------------
  // combineperms: column_stack(repeat(in1, |in2|), tile(in2, |in1|))

  /** `np.repeat(s, n, axis=0)`: every row of `s` repeated `n` times in place. */
  function Repeat<T>(s: seq<T>, n: nat): (r: seq<T>)
    ensures |r| == |s| * n
  {
    if s == [] then []
    else
      var rest := Repeat(s[1..], n);
      assert |s| * n == n + (|s| - 1) * n;
      seq(n, _ => s[0]) + rest
  }

  /** `np.tile(s, (m, 1))`: `m` copies of `s` one after another. */
  function Tile<T>(s: seq<T>, m: nat): (r: seq<T>)
    ensures |r| == |s| * m
  {
    if m == 0 then []
    else
      assert |s| * m == |s| + |s| * (m - 1);
      s + Tile(s, m - 1)
  }

  /** `np.column_stack` of two tables with the same number of rows. */
  function Zip<A, B>(a: seq<A>, b: seq<B>): (r: seq<(A, B)>)
    requires |a| == |b|
    ensures |r| == |a|
    ensures forall k :: 0 <= k < |a| ==> r[k] == (a[k], b[k])
  {
    seq(|a|, k requires 0 <= k < |a| => (a[k], b[k]))
  }

  lemma {:induction false} RepeatAt<T>(s: seq<T>, n: nat, i: nat, j: nat)
    requires i < |s| && j < n
    ensures i * n + j < |Repeat(s, n)|
    ensures Repeat(s, n)[i * n + j] == s[i]
  {
    assert i * n + j < (i + 1) * n <= |s| * n;
    if i > 0 {
      RepeatAt(s[1..], n, i - 1, j);
      assert i * n + j == n + ((i - 1) * n + j);
    }
  }

  lemma {:induction false} TileAt<T>(s: seq<T>, m: nat, i: nat, j: nat)
    requires i < m && j < |s|
    ensures i * |s| + j < |Tile(s, m)|
    ensures Tile(s, m)[i * |s| + j] == s[j]
  {
    assert i * |s| + j < (i + 1) * |s| <= m * |s|;
    if i > 0 {
      TileAt(s, m - 1, i - 1, j);
      assert i * |s| + j == |s| + ((i - 1) * |s| + j);
    }
  }

  /** `combineperms(in1, in2)`: every row of `in1` against every row of `in2`. */
  function CombinePerms<A, B>(in1: seq<A>, in2: seq<B>): (r: seq<(A, B)>)
    ensures |r| == |in1| * |in2|
  {
    Zip(Repeat(in1, |in2|), Tile(in2, |in1|))
  }

  /** Row `i * |in2| + j` pairs `in1[i]` with `in2[j]`. */
  lemma CombinePermsAt<A, B>(in1: seq<A>, in2: seq<B>, i: nat, j: nat)
    requires i < |in1| && j < |in2|
    ensures i * |in2| + j < |CombinePerms(in1, in2)|
    ensures CombinePerms(in1, in2)[i * |in2| + j] == (in1[i], in2[j])
  {
    RepeatAt(in1, |in2|, i, j);
    TileAt(in2, |in1|, i, j);
  }

  lemma MulLessCancel(i: int, m: int, n: int)
    requires n > 0 && i * n < m * n
    ensures i < m
  {
    assert (m - i) * n > 0;
  }

  /** Row `k` is `in1[k / |in2|] ++ in2[k % |in2|]`. */
  lemma CombinePermsIndex<A, B>(in1: seq<A>, in2: seq<B>, k: int)
    requires 0 <= k < |in1| * |in2|
    ensures |in2| > 0 && k / |in2| < |in1|
    ensures CombinePerms(in1, in2)[k] == (in1[k / |in2|], in2[k % |in2|])
  {
    var n := |in2|;
    assert n > 0;
    var i, j := k / n, k % n;
    assert k == i * n + j;
    MulLessCancel(i, |in1|, n);
    CombinePermsAt(in1, in2, i, j);
  }

  /** A pair is in the cross product exactly when each side comes from its input. */
  lemma CombinePermsMembers<A, B>(in1: seq<A>, in2: seq<B>)
    ensures forall pr :: pr in CombinePerms(in1, in2) <==> pr.0 in in1 && pr.1 in in2
  {
    var r := CombinePerms(in1, in2);
    forall pr | pr in r ensures pr.0 in in1 && pr.1 in in2 {
      var k :| 0 <= k < |r| && r[k] == pr;
      CombinePermsIndex(in1, in2, k);
    }
    forall pr: (A, B) | pr.0 in in1 && pr.1 in in2 ensures pr in r {
      var i :| 0 <= i < |in1| && in1[i] == pr.0;
      var j :| 0 <= j < |in2| && in2[j] == pr.1;
      CombinePermsAt(in1, in2, i, j);
    }
  }

  // ---------------------------------------------------------------------
  // stackdistance

  /** Python's `&` on two non-negative integers. */
  function BitAnd(a: nat, b: nat): (r: nat)
    ensures r <= a && r <= b
  {
    if a == 0 || b == 0 then 0
    else 2 * BitAnd(a / 2, b / 2) + (if a % 2 == 1 && b % 2 == 1 then 1 else 0)
  }

  lemma {:induction false} BitAndSelf(a: nat)
    ensures BitAnd(a, a) == a
  {
    if a != 0 {
      BitAndSelf(a / 2);
    }
  }

  /** The default bounds `smin`, `smax`. The gate compares `col8 / 10` with them, and
      column 8 is already in pixels, so a pair is kept when its displacement lies
      strictly between 20 and 2000 pixels. */
  const SMIN: real := 2.0
  const SMAX: real := 200.0

  /** Squared displacement in scaled (tenth-of-a-pixel) units. */
  function SqDist(p: Cand, q: Cand): (d: int)
    ensures d >= 0
  {
    (p.x - q.x) * (p.x - q.x) + (p.y - q.y) * (p.y - q.y)
  }

  /** Column 8: `sqrt((x1 - x2)^2 + (y1 - y2)^2) / 10`. */
  function Distance(fl: FloatOps, p: Cand, q: Cand): real
  {
    fl.sqrt(SqDist(p, q) as real) / 10.0
  }

  function WithDistance(fl: FloatOps, pr: (Cand, Cand)): DistRow
  {
    DistRow(pr.0, pr.1, Distance(fl, pr.0, pr.1))
  }

  /** The row mask `(col8 / 10 > smin) & (col8 / 10 < smax)`. */
  predicate InSpeedRange(d: DistRow)
  {
    d.dist / 10.0 > SMIN && d.dist / 10.0 < SMAX
  }

  /** `stackdistance(in1, in2)`: gated cross product, or nothing when
      `|in1| & |in2|` is zero bitwise. */
  function StackDistance(in1: seq<Cand>, in2: seq<Cand>, fl: FloatOps): (out: seq<DistRow>)
    ensures BitAnd(|in1|, |in2|) == 0 ==> out == []
    ensures |out| <= |in1| * |in2|
    ensures forall d :: d in out ==>
      d.p in in1 && d.q in in2 && InSpeedRange(d) && d.dist == Distance(fl, d.p, d.q)
  {
    if BitAnd(|in1|, |in2|) != 0 then
      var pairs := CombinePerms(in1, in2);
      CombinePermsMembers(in1, in2);
      var rows := MapSeq(pairs, pr => WithDistance(fl, pr));
      assert forall d :: d in rows ==> d.p in in1 && d.q in in2 && d.dist == Distance(fl, d.p, d.q) by {
        forall d | d in rows ensures d.p in in1 && d.q in in2 && d.dist == Distance(fl, d.p, d.q) {
          var k :| 0 <= k < |rows| && rows[k] == d;
          assert pairs[k] in pairs;
        }
      }
      Filter(rows, InSpeedRange)
    else []
  }

  /** One candidate in frame n and two in frame n-1 never pair, because 1 & 2 == 0. */
  lemma StackDistanceOneAgainstTwo(in1: seq<Cand>, in2: seq<Cand>, fl: FloatOps)
    requires |in1| == 1 && |in2| == 2
    ensures StackDistance(in1, in2, fl) == []
  {
    assert BitAnd(1, 2) == 0;
  }

  /** Two non-empty inputs of equal size are always paired. */
  lemma StackDistanceEqualSizes(in1: seq<Cand>, in2: seq<Cand>, fl: FloatOps)
    requires |in1| == |in2| > 0
    ensures BitAnd(|in1|, |in2|) != 0
  {
    BitAndSelf(|in1|);
  }

  /** The scaled-integer form of the gate: 40000 < dx^2 + dy^2 < 400000000. */
  predicate InScaledGate(pr: (Cand, Cand))
  {
    40000 < SqDist(pr.0, pr.1) < 400000000
  }

  /** A true square root makes column 8 the Euclidean distance in pixels:
      100 * d^2 == dx^2 + dy^2 in scaled units. */
  lemma DistanceIsEuclidean(fl: FloatOps, p: Cand, q: Cand)
    requires IsRoot(fl.sqrt)
    ensures Distance(fl, p, q) >= 0.0
    ensures 100.0 * Distance(fl, p, q) * Distance(fl, p, q) == SqDist(p, q) as real
  {
    var v := SqDist(p, q) as real;
    assert fl.sqrt(v) >= 0.0 && fl.sqrt(v) * fl.sqrt(v) == v;
  }

  /** The float gate on column 8 is exactly the integer gate on the squared displacement. */
  lemma GateIsInteger(fl: FloatOps, pr: (Cand, Cand))
    requires IsRoot(fl.sqrt)
    ensures InSpeedRange(WithDistance(fl, pr)) <==> InScaledGate(pr)
  {
    var v := SqDist(pr.0, pr.1) as real;
    var s := fl.sqrt(v);
    assert s >= 0.0 && s * s == v;
    assert WithDistance(fl, pr).dist / 10.0 == s / 100.0;
    if s > 200.0 {
      assert s * s > 200.0 * s > 40000.0;
    } else {
      assert s * s <= 200.0 * s <= 40000.0;
    }
    if s < 20000.0 {
      assert s * s < 20000.0 * 20000.0;
    } else {
      assert s * s >= 20000.0 * s >= 400000000.0;
    }
  }

  /** With a true square root, `stackdistance` keeps exactly the cross-product rows
      with 40000 < dx^2 + dy^2 < 400000000, in cross-product order. */
  lemma StackDistanceKeepsGated(in1: seq<Cand>, in2: seq<Cand>, fl: FloatOps)
    requires IsRoot(fl.sqrt)
    requires BitAnd(|in1|, |in2|) != 0
    ensures StackDistance(in1, in2, fl)
         == MapSeq(Filter(CombinePerms(in1, in2), InScaledGate), pr => WithDistance(fl, pr))
  {
    var pairs := CombinePerms(in1, in2);
    var f := pr => WithDistance(fl, pr);
    forall pr | pr in pairs ensures InScaledGate(pr) == InSpeedRange(f(pr)) {
      GateIsInteger(fl, pr);
    }
    FilterMapSeq(pairs, f, InSpeedRange, InScaledGate);
  }

  // ---------------------------------------------------------------------
  // getspeed, getdir

  /** Column 9 of one row: `col8 / (col0 - col4)`. */
  function Speed(d: DistRow): (r: real)
    requires d.p.t != d.q.t
    ensures r * (d.p.t - d.q.t) as real == d.dist
  {
    d.dist / (d.p.t - d.q.t) as real
  }

  /** `getspeed`: appends the speed column; an empty table stays empty. */
  function GetSpeed(rows: seq<DistRow>): (out: seq<SpeedRow>)
    requires forall d :: d in rows ==> d.p.t != d.q.t
    ensures |out| == |rows|
    ensures forall k :: 0 <= k < |rows| ==>
      && out[k].p == rows[k].p && out[k].q == rows[k].q && out[k].dist == rows[k].dist
      && out[k].speed * (rows[k].p.t - rows[k].q.t) as real == rows[k].dist
  {
    seq(|rows|, k requires 0 <= k < |rows| =>
      SpeedRow(rows[k].p, rows[k].q, rows[k].dist, Speed(rows[k])))
  }

  /** Column 10 of one row: the bearing of (y1 - y2, x1 - x2). */
  function Bearing(fl: FloatOps, p: Cand, q: Cand): real
  {
    fl.bearing(p.y - q.y, p.x - q.x)
  }

  /** `getdir`: appends the bearing column; an empty table stays empty. */
  function GetDir(rows: seq<SpeedRow>, fl: FloatOps): (out: seq<Segment>)
    ensures |out| == |rows|
    ensures forall k :: 0 <= k < |rows| ==>
      && out[k].p == rows[k].p && out[k].q == rows[k].q
      && out[k].dist == rows[k].dist && out[k].speed == rows[k].speed
      && out[k].bearing == Bearing(fl, rows[k].p, rows[k].q)
  {
    MapSeq(rows, (r: SpeedRow) => Segment(r.p, r.q, r.dist, r.speed, Bearing(fl, r.p, r.q)))
  }

  /** The radius-consistency mask: `isclose(col3, col7, radr, rada)`. */
  predicate RadiusConsistent(tol: Tolerances, s: Segment)
  {
    IsClose(s.p.r as real, s.q.r as real, tol.radr, tol.rada)
  }

  function RadiusMatch(segs: seq<Segment>, tol: Tolerances): (out: seq<Segment>)
    ensures IsSubseq(out, segs)
    ensures forall s :: s in out <==> s in segs && RadiusConsistent(tol, s)
  {
    FilterIsSubseq(segs, s => RadiusConsistent(tol, s));
    Filter(segs, s => RadiusConsistent(tol, s))
  }
}
