/** The specification of `gauntlet`: per-frame selection and clean-up, the three
    frame pairings, the three joins into tracks, and the filter chain. */
module Gauntlet {
  import opened Seqs
  import opened Rows
  import opened Pairing
  import opened Candidates
  import opened TrackFilters

  /** Lines 318-320: scale to fixed point, then the radius window. */
  function Prepared(gdl: seq<RawObs>): (r: seq<Cand>)
    ensures forall c :: c in r <==> c in MapSeq(gdl, Scale) && RADII_MINIMUM <= c.r <= RADII_MAXIMUM
  {
    RadiusThresh(MapSeq(gdl, Scale))
  }

  function FrameMask(f: int): Cand -> bool { (c: Cand) => c.t == f }

  /** `gdl[np.equal(gdl[:, 0], f), :]` */
  function FrameRows(g: seq<Cand>, f: int): (r: seq<Cand>)
    ensures forall c :: c in r <==> c in g && c.t == f
  {
    Filter(g, FrameMask(f))
  }

  /** `ins[inslist[i]]`: the merged candidates of frame `pfs - i`. */
  function FrameCands(g: seq<Cand>, pfs: int, i: int): (r: seq<Cand>)
    ensures forall c :: c in r ==> c.t == pfs - i
  {
    DedupeFrame(FrameRows(g, pfs - i), pfs - i);
    Dedupe(FrameRows(g, pfs - i))
  }

  /** One `outs` entry: stackdistance, getspeed, getdir, then the radius test. */
  function PairStage(in1: seq<Cand>, in2: seq<Cand>, tol: Tolerances, fl: FloatOps): (out: seq<Segment>)
    requires forall c1, c2 :: c1 in in1 && c2 in in2 ==> c1.t != c2.t
  {
    var d := StackDistance(in1, in2, fl);
    RadiusMatch(GetDir(GetSpeed(d), fl), tol)
  }

  /** `outs[outslist[i]]`: segments from frame `pfs - i` back to frame `pfs - i - 1`. */
  function Segments(g: seq<Cand>, pfs: int, tol: Tolerances, fl: FloatOps, i: int): seq<Segment>
  {
    PairStage(FrameCands(g, pfs, i), FrameCands(g, pfs, i + 1), tol, fl)
  }

  function ToTrack(pr: (Segment, Segment)): Track { Track(pr.0, pr.1) }

  /** `combineperms` of two segment tables, read as 22-column tracks. */
  function Join(x: seq<Segment>, y: seq<Segment>): (r: seq<Track>)
    ensures |r| == |x| * |y|
    ensures forall tr: Track :: tr in r <==> tr.a in x && tr.b in y
  {
    var cp := CombinePerms(x, y);
    CombinePermsMembers(x, y);
    var r := MapSeq(cp, ToTrack);
    assert forall tr: Track :: tr.a in x && tr.b in y ==> tr in r by {
      forall tr: Track | tr.a in x && tr.b in y ensures tr in r {
        assert (tr.a, tr.b) in cp;
        var k :| 0 <= k < |cp| && cp[k] == (tr.a, tr.b);
        assert r[k] == tr;
      }
    }
    assert forall tr :: tr in r ==> tr.a in x && tr.b in y by {
      forall tr | tr in r ensures tr.a in x && tr.b in y {
        var k :| 0 <= k < |r| && r[k] == tr;
        assert cp[k] in cp;
      }
    }
    r
  }

  /** The stacked `fourlist`: (n,n-1)x(n-1,n-2), (n-1,n-2)x(n-2,n-3), (n,n-1)x(n-2,n-3). */
  function FourList(g: seq<Cand>, pfs: int, tol: Tolerances, fl: FloatOps): seq<Track>
  {
    var x := Segments(g, pfs, tol, fl, 0);
    var y := Segments(g, pfs, tol, fl, 1);
    var z := Segments(g, pfs, tol, fl, 2);
    Join(x, y) + Join(y, z) + Join(x, z)
  }

  /** What `gauntlet(gdl)` returns. */
  function GauntletResult(gdl: seq<RawObs>, pfs: int, tol: Tolerances, fl: FloatOps): seq<Track>
  {
    TrackChain(FourList(Prepared(gdl), pfs, tol, fl), tol)
  }

  /** Every row of a pairing joins a candidate of `in1` to one of `in2`, carries their
      distance, passes the speed gate and the radius test, and its speed is its distance
      over the frame gap. */
  lemma PairStageRows(in1: seq<Cand>, in2: seq<Cand>, tol: Tolerances, fl: FloatOps)
    requires forall c1, c2 :: c1 in in1 && c2 in in2 ==> c1.t != c2.t
    ensures forall s :: s in PairStage(in1, in2, tol, fl) ==>
      && s.p in in1 && s.q in in2
      && s.dist == Distance(fl, s.p, s.q)
      && InSpeedRange(DistRow(s.p, s.q, s.dist))
      && s.p.t != s.q.t && s.speed == Speed(DistRow(s.p, s.q, s.dist))
      && RadiusConsistent(tol, s)
  {
    var d := StackDistance(in1, in2, fl);
    var v := GetSpeed(d);
    var w := GetDir(v, fl);
    forall s | s in PairStage(in1, in2, tol, fl)
      ensures s.p in in1 && s.q in in2
      ensures s.dist == Distance(fl, s.p, s.q)
      ensures InSpeedRange(DistRow(s.p, s.q, s.dist))
      ensures s.p.t != s.q.t && s.speed == Speed(DistRow(s.p, s.q, s.dist))
    {
      assert s in w;
      var k :| 0 <= k < |w| && w[k] == s;
      assert d[k] in d;
      assert v[k].speed == Speed(d[k]);
    }
  }

  /** Conversely, every pair of the two frames that passes the speed gate and the
      radius test is a row of the pairing, once the `&` guard lets the frames through. */
  lemma PairStageComplete(in1: seq<Cand>, in2: seq<Cand>, tol: Tolerances, fl: FloatOps, p: Cand, q: Cand)
    requires forall c1, c2 :: c1 in in1 && c2 in in2 ==> c1.t != c2.t
    requires p in in1 && q in in2 && BitAnd(|in1|, |in2|) != 0
    requires InSpeedRange(WithDistance(fl, (p, q)))
    requires RadiusConsistent(tol, Segment(p, q, Distance(fl, p, q),
      Speed(WithDistance(fl, (p, q))), Bearing(fl, p, q)))
    ensures Segment(p, q, Distance(fl, p, q), Speed(WithDistance(fl, (p, q))), Bearing(fl, p, q))
      in PairStage(in1, in2, tol, fl)
  {
    var d := WithDistance(fl, (p, q));
    var pairs := CombinePerms(in1, in2);
    CombinePermsMembers(in1, in2);
    var k :| 0 <= k < |pairs| && pairs[k] == (p, q);
    var rows := MapSeq(pairs, pr => WithDistance(fl, pr));
    assert rows[k] == d;
    var sd := StackDistance(in1, in2, fl);
    assert sd == Filter(rows, InSpeedRange);
    assert d in sd;
    var j :| 0 <= j < |sd| && sd[j] == d;
    var v := GetSpeed(sd);
    assert v[j] == SpeedRow(p, q, d.dist, Speed(d));
    var w := GetDir(v, fl);
    assert w[j] in w;
  }

  lemma SpeedOfUnitGap(d: DistRow)
    requires d.p.t - d.q.t == 1
    ensures Speed(d) == d.dist
  {
  }

  /** Every segment of pairing `i` runs from frame `pfs - i` to frame `pfs - i - 1`,
      so `t1 - t2 == 1` and its speed equals its distance; its radii are consistent. */
  lemma SegmentsFrames(g: seq<Cand>, pfs: int, tol: Tolerances, fl: FloatOps, i: int)
    ensures forall s :: s in Segments(g, pfs, tol, fl, i) ==>
      && s.p.t == pfs - i && s.q.t == pfs - i - 1
      && s.p in FrameCands(g, pfs, i) && s.q in FrameCands(g, pfs, i + 1)
      && s.speed == s.dist
      && RadiusConsistent(tol, s)
  {
    var in1, in2 := FrameCands(g, pfs, i), FrameCands(g, pfs, i + 1);
    PairStageRows(in1, in2, tol, fl);
    forall s | s in PairStage(in1, in2, tol, fl) ensures s.speed == s.dist {
      SpeedOfUnitGap(DistRow(s.p, s.q, s.dist));
    }
  }

  /** With a true square root, the distance of a gated row is Euclidean and the gate
      is the integer bound 40000 < dx^2 + dy^2 < 400000000. */
  lemma GatedRowFacts(fl: FloatOps, s: Segment)
    requires IsRoot(fl.sqrt)
    requires s.dist == Distance(fl, s.p, s.q) && InSpeedRange(DistRow(s.p, s.q, s.dist))
    ensures 40000 < SqDist(s.p, s.q) < 400000000
    ensures s.dist >= 0.0 && 100.0 * s.dist * s.dist == SqDist(s.p, s.q) as real
  {
    GateIsInteger(fl, (s.p, s.q));
    assert WithDistance(fl, (s.p, s.q)) == DistRow(s.p, s.q, s.dist);
    DistanceIsEuclidean(fl, s.p, s.q);
  }

  /** With a true square root, every segment's distance is Euclidean and within the
      speed gate: 40000 < dx^2 + dy^2 < 400000000 in scaled units. */
  lemma SegmentsGate(g: seq<Cand>, pfs: int, tol: Tolerances, fl: FloatOps, i: int)
    requires IsRoot(fl.sqrt)
    ensures forall s :: s in Segments(g, pfs, tol, fl, i) ==>
      && 40000 < SqDist(s.p, s.q) < 400000000
      && s.dist >= 0.0 && 100.0 * s.dist * s.dist == SqDist(s.p, s.q) as real
  {
    var in1, in2 := FrameCands(g, pfs, i), FrameCands(g, pfs, i + 1);
    PairStageRows(in1, in2, tol, fl);
    forall s | s in PairStage(in1, in2, tol, fl)
      ensures 40000 < SqDist(s.p, s.q) < 400000000
      ensures s.dist >= 0.0 && 100.0 * s.dist * s.dist == SqDist(s.p, s.q) as real
    {
      GatedRowFacts(fl, s);
    }
  }

  /** The frame numbers (t1, t2, t3, t4) of a track. */
  function Frames(tr: Track): (int, int, int, int)
  {
    (tr.a.p.t, tr.a.q.t, tr.b.p.t, tr.b.q.t)
  }

  /** A continuous row of `fourlist` covers (pfs, pfs-1, pfs-1, pfs-2) or
      (pfs-1, pfs-2, pfs-2, pfs-3); the (n,n-1)x(n-2,n-3) join has t2 = pfs-1 and
      t3 = pfs-2, so none of its rows is continuous. */
  lemma FourListFrames(g: seq<Cand>, pfs: int, tol: Tolerances, fl: FloatOps)
    ensures forall tr :: tr in FourList(g, pfs, tol, fl) && Continuous(tr) ==>
      Frames(tr) == (pfs, pfs - 1, pfs - 1, pfs - 2) || Frames(tr) == (pfs - 1, pfs - 2, pfs - 2, pfs - 3)
    ensures forall tr :: tr in FourList(g, pfs, tol, fl) && Continuous(tr) && tr.a.p.t == pfs <==>
      tr.a in Segments(g, pfs, tol, fl, 0) && tr.b in Segments(g, pfs, tol, fl, 1) && Continuous(tr)
  {
    SegmentsFrames(g, pfs, tol, fl, 0);
    SegmentsFrames(g, pfs, tol, fl, 1);
    SegmentsFrames(g, pfs, tol, fl, 2);
    JoinFrames(Segments(g, pfs, tol, fl, 0), Segments(g, pfs, tol, fl, 1), Segments(g, pfs, tol, fl, 2), pfs);
  }

  /** The frame patterns of the three joins, for pairings of frames (n, n-1), (n-1, n-2)
      and (n-2, n-3). */
  lemma JoinFrames(x: seq<Segment>, y: seq<Segment>, z: seq<Segment>, n: int)
    requires forall s :: s in x ==> s.p.t == n && s.q.t == n - 1
    requires forall s :: s in y ==> s.p.t == n - 1 && s.q.t == n - 2
    requires forall s :: s in z ==> s.p.t == n - 2 && s.q.t == n - 3
    ensures forall tr :: tr in Join(x, y) + Join(y, z) + Join(x, z) && Continuous(tr) ==>
      Frames(tr) == (n, n - 1, n - 1, n - 2) || Frames(tr) == (n - 1, n - 2, n - 2, n - 3)
    ensures forall tr :: tr in Join(x, y) + Join(y, z) + Join(x, z) && Continuous(tr) && tr.a.p.t == n <==>
      tr.a in x && tr.b in y && Continuous(tr)
  {
    forall tr | tr in Join(x, y) + Join(y, z) + Join(x, z) && Continuous(tr)
      ensures Frames(tr) == (n, n - 1, n - 1, n - 2) || Frames(tr) == (n - 1, n - 2, n - 2, n - 3)
      ensures tr.a.p.t == n <==> tr.a in x && tr.b in y
    {
      assert tr in Join(x, y) || tr in Join(y, z) || tr in Join(x, z);
    }
  }

  /** Every surviving track satisfies every test of the chain and covers frames
      (pfs, pfs-1, pfs-1, pfs-2) or (pfs-1, pfs-2, pfs-2, pfs-3). */
  lemma GauntletFrames(gdl: seq<RawObs>, pfs: int, tol: Tolerances, fl: FloatOps)
    ensures forall tr :: tr in GauntletResult(gdl, pfs, tol, fl) ==>
      Accepts(tol, tr) &&
      (Frames(tr) == (pfs, pfs - 1, pfs - 1, pfs - 2) || Frames(tr) == (pfs - 1, pfs - 2, pfs - 2, pfs - 3))
  {
    var rows := FourList(Prepared(gdl), pfs, tol, fl);
    TrackChainExact(rows, tol);
    FourListFrames(Prepared(gdl), pfs, tol, fl);
  }

  /** The tracks whose first frame is `pfs` are exactly the accepted joins of
      pairing (pfs, pfs-1) with pairing (pfs-1, pfs-2). */
  lemma EmittedFromFirstJoin(gdl: seq<RawObs>, pfs: int, tol: Tolerances, fl: FloatOps)
    ensures forall tr :: tr in GauntletResult(gdl, pfs, tol, fl) && tr.a.p.t == pfs <==>
      && tr.a in Segments(Prepared(gdl), pfs, tol, fl, 0)
      && tr.b in Segments(Prepared(gdl), pfs, tol, fl, 1)
      && Accepts(tol, tr)
  {
    var rows := FourList(Prepared(gdl), pfs, tol, fl);
    TrackChainExact(rows, tol);
    FourListFrames(Prepared(gdl), pfs, tol, fl);
  }

  /** The emission filter `fourlist[:, 0] == pfs`. */
  function FromFrame(pfs: int): Track -> bool
  {
    (tr: Track) => tr.a.p.t == pfs
  }

  /** What `bird_range` emits for frame `pfs`: exactly the accepted joins of pairing
      (pfs, pfs-1) with pairing (pfs-1, pfs-2), all covering frames pfs, pfs-1, pfs-2. */
  function Emitted(gdl: seq<RawObs>, pfs: int, tol: Tolerances, fl: FloatOps): (r: seq<Track>)
    ensures forall tr :: tr in r <==>
      && tr.a in Segments(Prepared(gdl), pfs, tol, fl, 0)
      && tr.b in Segments(Prepared(gdl), pfs, tol, fl, 1)
      && Accepts(tol, tr)
    ensures forall tr :: tr in r ==> Frames(tr) == (pfs, pfs - 1, pfs - 1, pfs - 2)
  {
    EmittedFromFirstJoin(gdl, pfs, tol, fl);
    GauntletFrames(gdl, pfs, tol, fl);
    Filter(GauntletResult(gdl, pfs, tol, fl), FromFrame(pfs))
  }
}
