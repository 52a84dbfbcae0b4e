/** The boolean-mask filters of the gauntlet, applied to 22-column track rows.
    Column names follow the track layout in Rows: x1 = a.p.x, x2 = a.q.x,
    x3 = b.p.x, x4 = b.q.x (and likewise for t and y). */
module TrackFilters {
  import opened Seqs
  import opened Rows
  import opened Tolerance

  /** Columns 8 and 19 are close: `isclose(col8, col19, sper, spea)`. */
  predicate DistanceClose(tol: Tolerances, tr: Track)
  {
    IsClose(tr.a.dist, tr.b.dist, tol.sper, tol.spea)
  }

  /** Columns 10 and 21 are close: `isclose(col10, col21, angr, anga)`. */
  predicate BearingClose(tol: Tolerances, tr: Track)
  {
    IsClose(tr.a.bearing, tr.b.bearing, tol.angr, tol.anga)
  }

  function DistanceCloseMask(tol: Tolerances): Track -> bool { tr => DistanceClose(tol, tr) }
  function BearingCloseMask(tol: Tolerances): Track -> bool { tr => BearingClose(tol, tr) }

  /** `distdirtest`: distance test, then direction test. */
  function DistDirTest(rows: seq<Track>, tol: Tolerances): (r: seq<Track>)
    ensures forall tr :: tr in r <==> tr in rows && DistanceClose(tol, tr) && BearingClose(tol, tr)
  {
    Filter(Filter(rows, DistanceCloseMask(tol)), BearingCloseMask(tol))
  }

  lemma DistDirTestExact(rows: seq<Track>, tol: Tolerances)
    ensures IsSubseq(DistDirTest(rows, tol), rows)
    ensures forall tr :: tr in DistDirTest(rows, tol) <==>
      tr in rows && DistanceClose(tol, tr) && BearingClose(tol, tr)
  {
    var both := tr => DistanceClose(tol, tr) && BearingClose(tol, tr);
    FilterFuse(rows, DistanceCloseMask(tol), BearingCloseMask(tol), both);
    FilterIsSubseq(rows, both);
  }

  /** The direction-agreement score of `direction_cleanup`:
      |sign(x2-x1) + sign(x4-x3)| + |sign(y2-y1) + sign(y4-y3)|. */
  function SignScore(tr: Track): int
  {
    var sx := Sign(tr.a.q.x - tr.a.p.x) + Sign(tr.b.q.x - tr.b.p.x);
    var sy := Sign(tr.a.q.y - tr.a.p.y) + Sign(tr.b.q.y - tr.b.p.y);
    (if sx < 0 then -sx else sx) + (if sy < 0 then -sy else sy)
  }

  predicate SignsAgree(tr: Track) { SignScore(tr) == 4 }

  /** A score of 4 means both segments move the same, non-zero way on each axis. */
  lemma SignsAgreeMeaning(tr: Track)
    ensures SignsAgree(tr) <==>
      && Sign(tr.a.q.x - tr.a.p.x) == Sign(tr.b.q.x - tr.b.p.x) != 0
      && Sign(tr.a.q.y - tr.a.p.y) == Sign(tr.b.q.y - tr.b.p.y) != 0
  {
  }

  /** `direction_cleanup`: keep rows scoring 4; an empty table stays empty. */
  function DirectionCleanup(rows: seq<Track>): (r: seq<Track>)
    ensures forall tr :: tr in r <==> tr in rows && SignScore(tr) == 4
  {
    if |rows| > 0 then Filter(rows, SignsAgree) else []
  }

  lemma DirectionCleanupExact(rows: seq<Track>)
    ensures DirectionCleanup(rows) == Filter(rows, SignsAgree)
    ensures forall tr :: tr in DirectionCleanup(rows) <==>
      && tr in rows
      && Sign(tr.a.q.x - tr.a.p.x) == Sign(tr.b.q.x - tr.b.p.x) != 0
      && Sign(tr.a.q.y - tr.a.p.y) == Sign(tr.b.q.y - tr.b.p.y) != 0
  {
    forall tr ensures SignsAgree(tr) <==>
      && Sign(tr.a.q.x - tr.a.p.x) == Sign(tr.b.q.x - tr.b.p.x) != 0
      && Sign(tr.a.q.y - tr.a.p.y) == Sign(tr.b.q.y - tr.b.p.y) != 0
    {
      SignsAgreeMeaning(tr);
    }
  }

  /** A track with no motion on either axis in either segment is always dropped. */
  lemma DirectionCleanupDropsStill(rows: seq<Track>, tr: Track)
    requires tr.a.q.x == tr.a.p.x || tr.a.q.y == tr.a.p.y || tr.b.q.x == tr.b.p.x || tr.b.q.y == tr.b.p.y
    ensures tr !in DirectionCleanup(rows)
  {
    DirectionCleanupExact(rows);
  }

  /** The experimental speed ceiling `threshmax`. */
  const THRESHMAX: real := 450.0

  predicate FirstSlow(tr: Track) { tr.a.speed < THRESHMAX }
  predicate SecondSlow(tr: Track) { tr.b.speed < THRESHMAX }

  /** Columns 9 and 20 are close: `isclose(col9, col20, sper, spea)`. */
  predicate SpeedClose(tol: Tolerances, tr: Track)
  {
    IsClose(tr.a.speed, tr.b.speed, tol.sper, tol.spea)
  }

  function SpeedCloseMask(tol: Tolerances): Track -> bool { tr => SpeedClose(tol, tr) }

  /** `speedtest`: column 9 below the ceiling, column 20 below it, then the two close. */
  function SpeedTest(rows: seq<Track>, tol: Tolerances): (r: seq<Track>)
    ensures forall tr :: tr in r <==>
      tr in rows && tr.a.speed < THRESHMAX && tr.b.speed < THRESHMAX && SpeedClose(tol, tr)
  {
    Filter(Filter(Filter(rows, FirstSlow), SecondSlow), SpeedCloseMask(tol))
  }

  lemma SpeedTestExact(rows: seq<Track>, tol: Tolerances)
    ensures IsSubseq(SpeedTest(rows, tol), rows)
    ensures forall tr :: tr in SpeedTest(rows, tol) <==>
      tr in rows && tr.a.speed < 450.0 && tr.b.speed < 450.0 && SpeedClose(tol, tr)
  {
    var slow := tr => FirstSlow(tr) && SecondSlow(tr);
    var all := tr => slow(tr) && SpeedClose(tol, tr);
    FilterFuse(rows, FirstSlow, SecondSlow, slow);
    FilterFuse(rows, slow, SpeedCloseMask(tol), all);
    FilterIsSubseq(rows, all);
  }

  /** `gapinghole`: reshaping an empty table to 22 columns; on typed rows the identity. */
  function GapingHole(rows: seq<Track>): (r: seq<Track>)
    ensures r == rows
  {
    rows
  }

  predicate SameMiddleFrame(tr: Track) { tr.a.q.t == tr.b.p.t }
  predicate SameMiddleX(tr: Track) { tr.a.q.x == tr.b.p.x }
  predicate SameMiddleY(tr: Track) { tr.a.q.y == tr.b.p.y }

  /** `linear_jump`: columns 4, 5, 6 equal 11, 12, 13, tested one after another. */
  function LinearJump(rows: seq<Track>): (r: seq<Track>)
    ensures forall tr :: tr in r <==> tr in rows && Continuous(tr)
  {
    Filter(Filter(Filter(rows, SameMiddleFrame), SameMiddleX), SameMiddleY)
  }

  predicate Continuous(tr: Track)
  {
    (tr.a.q.t, tr.a.q.x, tr.a.q.y) == (tr.b.p.t, tr.b.p.x, tr.b.p.y)
  }

  /** `linear_jump` keeps a track exactly when (t2, x2, y2) == (t3, x3, y3), in order. */
  lemma LinearJumpExact(rows: seq<Track>)
    ensures LinearJump(rows) == Filter(rows, Continuous)
    ensures IsSubseq(LinearJump(rows), rows)
    ensures forall tr :: tr in LinearJump(rows) <==> tr in rows && Continuous(tr)
  {
    var tx := tr => SameMiddleFrame(tr) && SameMiddleX(tr);
    FilterFuse(rows, SameMiddleFrame, SameMiddleX, tx);
    FilterFuse(rows, tx, SameMiddleY, Continuous);
    FilterIsSubseq(rows, Continuous);
  }

  predicate NotReversed(tr: Track)
  {
    tr.a.p.x != tr.b.q.x && tr.a.p.y != tr.b.q.y
  }

  /** `reversal_check`: keep rows with col1 != col16 and col2 != col17. */
  function ReversalCheck(rows: seq<Track>): (r: seq<Track>)
    ensures forall tr :: tr in r <==> tr in rows && tr.a.p.x != tr.b.q.x && tr.a.p.y != tr.b.q.y
  {
    Filter(rows, NotReversed)
  }

  /** A track whose first and fourth positions share x or share y is rejected. */
  lemma ReversalCheckRejects(rows: seq<Track>, tr: Track)
    requires tr.a.p.x == tr.b.q.x || tr.a.p.y == tr.b.q.y
    ensures tr !in ReversalCheck(rows)
  {
  }

  /** `match_speed`: despite its name it compares columns 8 and 19, the distances. */
  function MatchSpeed(rows: seq<Track>, tol: Tolerances): (r: seq<Track>)
    ensures forall tr :: tr in r <==> tr in rows && IsClose(tr.a.dist, tr.b.dist, tol.sper, tol.spea)
  {
    Filter(rows, DistanceCloseMask(tol))
  }

  /** Every test of the gauntlet, as one predicate on a track. */
  predicate Accepts(tol: Tolerances, tr: Track)
  {
    && DistanceClose(tol, tr) && BearingClose(tol, tr)
    && SignsAgree(tr)
    && tr.a.speed < THRESHMAX && tr.b.speed < THRESHMAX && SpeedClose(tol, tr)
    && Continuous(tr)
    && NotReversed(tr)
  }

  function AcceptsMask(tol: Tolerances): Track -> bool { tr => Accepts(tol, tr) }

  /** The tests before `match_speed`, in the order the gauntlet applies them. */
  function BeforeMatchSpeed(rows: seq<Track>, tol: Tolerances): seq<Track>
  {
    ReversalCheck(LinearJump(SpeedTest(DirectionCleanup(DistDirTest(GapingHole(rows), tol)), tol)))
  }

  /** The whole filter chain of the gauntlet. */
  function TrackChain(rows: seq<Track>, tol: Tolerances): (r: seq<Track>)
    ensures forall tr :: tr in r <==> tr in rows && Accepts(tol, tr)
  {
    MatchSpeed(BeforeMatchSpeed(rows, tol), tol)
  }

  predicate PassesDistDir(tol: Tolerances, tr: Track)
  {
    DistanceClose(tol, tr) && BearingClose(tol, tr)
  }

  predicate PassesDirection(tol: Tolerances, tr: Track)
  {
    PassesDistDir(tol, tr) && SignsAgree(tr)
  }

  predicate PassesSpeed(tol: Tolerances, tr: Track)
  {
    PassesDirection(tol, tr) && FirstSlow(tr) && SecondSlow(tr) && SpeedClose(tol, tr)
  }

  function PassesDistDirMask(tol: Tolerances): Track -> bool { tr => PassesDistDir(tol, tr) }
  function PassesDirectionMask(tol: Tolerances): Track -> bool { tr => PassesDirection(tol, tr) }
  function PassesSpeedMask(tol: Tolerances): Track -> bool { tr => PassesSpeed(tol, tr) }

  lemma StageDistDir(rows: seq<Track>, tol: Tolerances)
    ensures DistDirTest(GapingHole(rows), tol) == Filter(rows, PassesDistDirMask(tol))
  {
    FilterFuse(rows, DistanceCloseMask(tol), BearingCloseMask(tol), PassesDistDirMask(tol));
  }

  lemma StageDirection(rows: seq<Track>, tol: Tolerances)
    ensures DirectionCleanup(Filter(rows, PassesDistDirMask(tol))) == Filter(rows, PassesDirectionMask(tol))
  {
    DirectionCleanupExact(Filter(rows, PassesDistDirMask(tol)));
    FilterFuse(rows, PassesDistDirMask(tol), SignsAgree, PassesDirectionMask(tol));
  }

  lemma StageSpeed(rows: seq<Track>, tol: Tolerances)
    ensures SpeedTest(Filter(rows, PassesDirectionMask(tol)), tol) == Filter(rows, PassesSpeedMask(tol))
  {
    var p2 := PassesDirectionMask(tol);
    var p3 := tr => p2(tr) && FirstSlow(tr);
    FilterFuse(rows, p2, FirstSlow, p3);
    var p4 := tr => p3(tr) && SecondSlow(tr);
    FilterFuse(rows, p3, SecondSlow, p4);
    FilterFuse(rows, p4, SpeedCloseMask(tol), PassesSpeedMask(tol));
  }

  lemma StageContinuity(rows: seq<Track>, tol: Tolerances)
    ensures ReversalCheck(LinearJump(Filter(rows, PassesSpeedMask(tol)))) == Filter(rows, AcceptsMask(tol))
  {
    var p5 := PassesSpeedMask(tol);
    LinearJumpExact(Filter(rows, p5));
    var p6 := tr => p5(tr) && Continuous(tr);
    FilterFuse(rows, p5, Continuous, p6);
    FilterFuse(rows, p6, NotReversed, AcceptsMask(tol));
  }

  /** The chain keeps exactly the tracks that pass every test, in their original order. */
  lemma BeforeMatchSpeedExact(rows: seq<Track>, tol: Tolerances)
    ensures BeforeMatchSpeed(rows, tol) == Filter(rows, AcceptsMask(tol))
  {
    StageDistDir(rows, tol);
    StageDirection(rows, tol);
    StageSpeed(rows, tol);
    StageContinuity(rows, tol);
  }

  /** `match_speed` after the rest of the chain removes nothing: it repeats the
      distance test of `distdirtest`. */
  lemma MatchSpeedRemovesNothing(rows: seq<Track>, tol: Tolerances)
    ensures TrackChain(rows, tol) == BeforeMatchSpeed(rows, tol)
  {
    BeforeMatchSpeedExact(rows, tol);
    FilterAll(BeforeMatchSpeed(rows, tol), DistanceCloseMask(tol));
  }

  lemma TrackChainExact(rows: seq<Track>, tol: Tolerances)
    ensures TrackChain(rows, tol) == Filter(rows, AcceptsMask(tol))
    ensures IsSubseq(TrackChain(rows, tol), rows)
    ensures forall tr :: tr in TrackChain(rows, tol) <==> tr in rows && Accepts(tol, tr)
  {
    MatchSpeedRemovesNothing(rows, tol);
    BeforeMatchSpeedExact(rows, tol);
    FilterIsSubseq(rows, AcceptsMask(tol));
  }

  /** Every filter of the gauntlet returns a subsequence of its input. */
  lemma EveryFilterIsSubsequence(rows: seq<Track>, tol: Tolerances)
    ensures IsSubseq(GapingHole(rows), rows)
    ensures IsSubseq(DistDirTest(rows, tol), rows)
    ensures IsSubseq(DirectionCleanup(rows), rows)
    ensures IsSubseq(SpeedTest(rows, tol), rows)
    ensures IsSubseq(LinearJump(rows), rows)
    ensures IsSubseq(ReversalCheck(rows), rows)
    ensures IsSubseq(MatchSpeed(rows, tol), rows)
  {
    FilterAll(rows, (tr: Track) => true);
    FilterIsSubseq(rows, (tr: Track) => true);
    DistDirTestExact(rows, tol);
    DirectionCleanupExact(rows);
    FilterIsSubseq(rows, SignsAgree);
    SpeedTestExact(rows, tol);
    LinearJumpExact(rows);
    FilterIsSubseq(rows, NotReversed);
    FilterIsSubseq(rows, DistanceCloseMask(tol));
  }
}
