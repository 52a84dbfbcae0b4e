/** The state of `RingBufferClass`: the rolling observation lists, the frame counter,
    the on-disk frame window, and the operations that drive them each frame. */
module RingBuffer {
  import opened Seqs
  import opened Rows
  import opened Pairing
  import opened Candidates
  import opened TrackFilters
  import opened Gauntlet
  import opened FrameWindow

  /** A contour as `cv2` measures it: `arcLength` and `minEnclosingCircle`. */
  datatype Contour = Contour(perimeter: real, cx: real, cy: real, radius: real)

  /** `get_centers` keeps contours with 8 < perimeter < 200. */
  predicate PerimeterOk(c: Contour)
  {
    8.0 < c.perimeter < 200.0
  }

  function ObservationAt(pfs: int): Contour -> RawObs
  {
    (c: Contour) => RawObs(pfs, c.cx, c.cy, c.radius)
  }

  /** The rows `get_centers` appends for frame `pfs`: one per contour it keeps, in order. */
  function NewObservations(contours: seq<Contour>, pfs: int): (r: seq<RawObs>)
    ensures |r| <= |contours|
    ensures forall o :: o in r ==> o.t == pfs
    ensures forall c :: c in contours && PerimeterOk(c) ==> RawObs(pfs, c.cx, c.cy, c.radius) in r
    ensures forall o :: o in r ==>
      exists c :: c in contours && PerimeterOk(c) && o == RawObs(pfs, c.cx, c.cy, c.radius)
  {
    var kept := Filter(contours, PerimeterOk);
    var r := MapSeq(kept, ObservationAt(pfs));
    assert forall c :: c in kept ==> RawObs(pfs, c.cx, c.cy, c.radius) in r by {
      forall c | c in kept ensures RawObs(pfs, c.cx, c.cy, c.radius) in r {
        var k :| 0 <= k < |kept| && kept[k] == c;
        assert r[k] == RawObs(pfs, c.cx, c.cy, c.radius);
      }
    }
    assert forall o :: o in r ==> exists c :: c in kept && o == RawObs(pfs, c.cx, c.cy, c.radius) by {
      forall o | o in r ensures exists c :: c in kept && o == RawObs(pfs, c.cx, c.cy, c.radius) {
        var k :| 0 <= k < |r| && r[k] == o;
        assert kept[k] in kept;
      }
    }
    r
  }

  /** `np.column_stack((tim, xxx, yyy, rad))`. */
  function Stack(t: seq<int>, x: seq<real>, y: seq<real>, r: seq<real>): (rows: seq<RawObs>)
    requires |t| == |x| == |y| == |r|
    ensures |rows| == |t|
    ensures forall i :: 0 <= i < |rows| ==> rows[i] == RawObs(t[i], x[i], y[i], r[i])
  {
    seq(|t|, i requires 0 <= i < |t| => RawObs(t[i], x[i], y[i], r[i]))
  }

  /** Appending one entry to each parallel list appends one row. */
  lemma StackAppend(t: seq<int>, x: seq<real>, y: seq<real>, r: seq<real>, o: RawObs)
    requires |t| == |x| == |y| == |r|
    ensures Stack(t + [o.t], x + [o.x], y + [o.y], r + [o.r]) == Stack(t, x, y, r) + [o]
  {
  }

  /** One iteration of the `get_centers` loop appends the row of contour `i` if it is kept. */
  lemma KeptStep(contours: seq<Contour>, i: int, f: Contour -> RawObs, rows: seq<RawObs>, before: seq<RawObs>)
    requires 0 <= i < |contours|
    requires before == rows + MapSeq(Filter(contours[..i], PerimeterOk), f)
    ensures rows + MapSeq(Filter(contours[..i + 1], PerimeterOk), f) ==
      before + (if PerimeterOk(contours[i]) then [f(contours[i])] else [])
  {
    var cnt := contours[i];
    assert contours[..i + 1] == contours[..i] + [cnt];
    FilterAppend(contours[..i], [cnt], PerimeterOk);
    MapSeqAppend(Filter(contours[..i], PerimeterOk), Filter([cnt], PerimeterOk), f);
    assert Filter([cnt], PerimeterOk) == if PerimeterOk(cnt) then [cnt] else [];
  }

  /** The `re_init` test `tim >= pfs - last`. */
  function KeepSince(since: int): RawObs -> bool
  {
    (o: RawObs) => o.t >= since
  }

  /** `re_init` keeps, in order, exactly the observations of frame `since` or later. */
  lemma Retained(rows: seq<RawObs>, since: int)
    ensures IsSubseq(Filter(rows, KeepSince(since)), rows)
    ensures forall o :: o in Filter(rows, KeepSince(since)) <==> o in rows && o.t >= since
  {
    FilterIsSubseq(rows, KeepSince(since));
  }

  /** A second `re_init` at the same frame removes nothing more. */
  lemma RetainedTwice(rows: seq<RawObs>, since: int)
    ensures Filter(Filter(rows, KeepSince(since)), KeepSince(since)) == Filter(rows, KeepSince(since))
  {
    FilterFuse(rows, KeepSince(since), KeepSince(since), KeepSince(since));
  }

  /** `np.unique(gdl, axis=0)`: the distinct rows in lexicographic order. */
  function UniqueRows(gdl: seq<RawObs>): (r: seq<RawObs>)
    ensures StrictlySorted(LexLt4, r)
    ensures forall o :: o in r <==> o in gdl
  {
    LexLt4IsStrictOrder();
    SortUnique(LexLt4, gdl)
  }

  /** Already sorted, duplicate-free input passes `np.unique` unchanged. */
  lemma UniqueRowsOfSorted(gdl: seq<RawObs>)
    requires StrictlySorted(LexLt4, gdl)
    ensures UniqueRows(gdl) == gdl
  {
    LexLt4IsStrictOrder();
    SortUniqueOfSorted(LexLt4, gdl);
  }

  /** Keys 0..n-1 of `m` hold `f(0)`, ..., `f(n-1)`: the `ins` and `outs` tables. */
  ghost predicate Tabulated<V>(m: map<int, V>, n: int, f: int -> V)
  {
    forall j :: 0 <= j < n ==> j in m && m[j] == f(j)
  }

  /** Storing `f(n)` under key `n` extends the table by one entry. */
  lemma TabulatedExtend<V>(m: map<int, V>, n: int, v: V, f: int -> V)
    requires Tabulated(m, n, f) && v == f(n)
    ensures Tabulated(m[n := v], n + 1, f)
  {
  }

  /** One iteration of the `ins` loop of `gauntlet`: the rows of frame `pfs - i`, merged by
      `interior_contours`. */
  method SelectFrame(g: seq<Cand>, pfs: int, i: int) returns (merged: seq<Cand>)
    ensures merged == FrameCands(g, pfs, i)
  {
    var rows := FrameRows(g, pfs - i);
    merged := InteriorContours(rows);
  }

  /** One iteration of the `outs` loop of `gauntlet`: stackdistance, getspeed, getdir,
      then the radius test. */
  method PairFrames(in1: seq<Cand>, in2: seq<Cand>, tol: Tolerances, fl: FloatOps) returns (segs: seq<Segment>)
    requires forall c1, c2 :: c1 in in1 && c2 in in2 ==> c1.t != c2.t
    ensures segs == PairStage(in1, in2, tol, fl)
  {
    var d := StackDistance(in1, in2, fl);
    var v := GetSpeed(d);
    segs := GetDir(v, fl);
    segs := RadiusMatch(segs, tol);
  }

  /** The exception `get_centers` raises at `contours[0]` on an empty list. */
  datatype Outcome = Done | IndexError

  /** The image `ringbuffer_process` returns: grey, or the three-channel copy
      `cvtColor(GRAY2BGR)` makes (every channel equal to `px`). */
  datatype Image = Gray(px: Frame) | Bgr(px: Frame)

  datatype Result<T> = Ok(value: T) | Err(error: WindowError)

  class RingBufferClass {
    const tol: Tolerances
    /** The look-back depth: the constructor's `last` plus 2. */
    const last: int
    var pfs: int
    var tim: seq<int>
    var xxx: seq<real>
    var yyy: seq<real>
    var rad: seq<real>
    /** `Frame_minus_<k>.npy` for each stored offset k. */
    var frames: Window
    /** `Frame_mixed.npy`, once written. */
    var mixed: Option<Frame>

    ghost predicate Valid()
      reads this
    {
      |tim| == |xxx| == |yyy| == |rad| && Offsets(frames)
    }

    constructor(tol: Tolerances, last: int)
      ensures Valid()
      ensures this.tol == tol && this.last == last + 2 && pfs == 0
      ensures tim == [] && xxx == [] && yyy == [] && rad == []
      ensures frames == map[] && mixed == None
    {
      this.tol := tol;
      this.last := last + 2;
      pfs := 0;
      tim, xxx, yyy, rad := [], [], [], [];
      frames := map[];
      mixed := None;
    }

    /** `pull_list`: the parallel lists as rows (tim, x, y, radius). */
    function PullList(): (rows: seq<RawObs>)
      reads this
      requires Valid()
      ensures |rows| == |tim|
      ensures forall i :: 0 <= i < |rows| ==>
        rows[i].t == tim[i] && rows[i].x == xxx[i] && rows[i].y == yyy[i] && rows[i].r == rad[i]
    {
      Stack(tim, xxx, yyy, rad)
    }

    /** `re_init`: keep the observations of frames `pfs - last` and later. */
    method ReInit()
      requires Valid()
      modifies this
      ensures Valid()
      ensures PullList() == Filter(old(PullList()), KeepSince(pfs - last))
      ensures pfs == old(pfs) && frames == old(frames) && mixed == old(mixed)
    {
      ghost var rows := PullList();
      var keep := KeepSince(pfs - last);
      var tempt, tempr, tempx, tempy := tim, rad, xxx, yyy;
      tim, rad, xxx, yyy := [], [], [], [];
      for i := 0 to |tempt|
        invariant |tim| == |xxx| == |yyy| == |rad|
        invariant pfs == old(pfs) && frames == old(frames) && mixed == old(mixed)
        invariant Stack(tim, xxx, yyy, rad) == Filter(rows[..i], keep)
      {
        FilterStep(rows, i, keep);
        if tempt[i] >= pfs - last {
          StackAppend(tim, xxx, yyy, rad, rows[i]);
          tim := tim + [tempt[i]];
          xxx := xxx + [tempx[i]];
          yyy := yyy + [tempy[i]];
          rad := rad + [tempr[i]];
        }
      }
      assert rows[..|tempt|] == rows;
    }

    /** `get_centers`: an empty list raises at `contours[0]`; otherwise one row at
        frame `pfs` is appended per contour with 8 < perimeter < 200. */
    method GetCenters(contours: seq<Contour>) returns (r: Outcome)
      requires Valid()
      modifies this
      ensures Valid()
      ensures contours == [] ==> r == IndexError && PullList() == old(PullList())
      ensures contours != [] ==> r == Done && PullList() == old(PullList()) + NewObservations(contours, pfs)
      ensures pfs == old(pfs) && frames == old(frames) && mixed == old(mixed)
    {
      if |contours| == 0 {
        return IndexError;
      }
      ghost var rows := PullList();
      var f := ObservationAt(pfs);
      for i := 0 to |contours|
        invariant Valid()
        invariant pfs == old(pfs) && frames == old(frames) && mixed == old(mixed)
        invariant PullList() == rows + MapSeq(Filter(contours[..i], PerimeterOk), f)
      {
        var cnt := contours[i];
        KeptStep(contours, i, f, rows, PullList());
        if PerimeterOk(cnt) {
          StackAppend(tim, xxx, yyy, rad, f(cnt));
          tim := tim + [pfs];
          rad := rad + [cnt.radius];
          xxx := xxx + [cnt.cx];
          yyy := yyy + [cnt.cy];
        }
      }
      assert contours[..|contours|] == contours;
      r := Done;
    }

    /** `set_pos_frame`. */
    method SetPosFrame(pfs: int)
      modifies this
      ensures this.pfs == pfs
      ensures tim == old(tim) && xxx == old(xxx) && yyy == old(yyy) && rad == old(rad)
      ensures frames == old(frames) && mixed == old(mixed)
    {
      this.pfs := pfs;
    }

    /** `ringbuffer_cycle`: store `img` at offset 0, then for i = last down to 1 copy
        offset i-2 to i-1 when pfs > 0, pfs - i + 1 >= 0 and offset i-2 exists. */
    method RingBufferCycle(img: Frame)
      requires Valid()
      modifies this
      ensures Valid()
      ensures frames == CycleWindow(old(frames), img, pfs, last)
      ensures pfs == old(pfs) && tim == old(tim) && xxx == old(xxx) && yyy == old(yyy) && rad == old(rad)
      ensures mixed == old(mixed)
    {
      ghost var n := CopyBound(pfs, last);
      var w := CopyDown(frames[0 := img], pfs, last);
      ShiftedOffsets(frames[0 := img], 1, n);
      frames := w;
    }

    /** `ringbuffer_process`. Offset 0 is read first, so a missing offset 0 raises.
        With pfs == 0 or pfs < last the input image is returned. Otherwise the loop
        accumulates into offset 0, and the result is the mask of the final sum. */
    method RingBufferProcess(img: Frame) returns (r: Result<Image>)
      requires Valid()
      modifies this
      ensures Valid()
      ensures pfs == old(pfs) && tim == old(tim) && xxx == old(xxx) && yyy == old(yyy) && rad == old(rad)
      ensures 0 !in old(frames) ==>
        r == Err(Missing(0)) && frames == old(frames) && mixed == old(mixed)
      ensures 0 in old(frames) && (pfs == 0 || pfs < last) ==>
        r == Ok(Gray(img)) && frames == old(frames) && mixed == old(mixed)
      ensures 0 in old(frames) && pfs != 0 && pfs >= last ==>
        var acc := Accum(old(frames), last, old(frames)[0]);
        && frames == old(frames)[0 := acc.sum]
        && (acc.error.Some? ==> r == Err(acc.error.value) && mixed == old(mixed))
        && (acc.error.None? ==>
              mixed == Some(Mask(acc.sum)) &&
              r == Ok(if |tim| > 0 then Bgr(Mask(acc.sum)) else Gray(Mask(acc.sum))))
    {
      if 0 !in frames {
        return Err(Missing(0));
      }
      var bbb := frames[0];
      if pfs == 0 || pfs < last {
        return Ok(Gray(img));
      }
      ghost var w := frames;
      var i := last;
      while i > 1
        invariant frames == w[0 := bbb]
        invariant Accum(w, i, bbb) == Accum(w, last, w[0])
        invariant pfs == old(pfs) && tim == old(tim) && xxx == old(xxx) && yyy == old(yyy) && rad == old(rad)
        invariant mixed == old(mixed)
        decreases i
      {
        if i - 2 !in frames {
          return Err(Missing(i - 2));
        }
        var aaa := frames[i - 2];
        if |aaa| != |bbb| {
          return Err(ShapeMismatch);
        }
        bbb := AddFrames(aaa, bbb);
        frames := frames[0 := bbb];
        i := i - 1;
      }
      var a := new Pixel[|bbb|](k requires 0 <= k < |bbb| => bbb[k]);
      assert a[..] == bbb;
      MaskInPlace(a);
      mixed := Some(a[..]);
      var b := new Pixel[a.Length](k requires 0 <= k < a.Length reads a => a[k]);
      assert b[..] == Mask(bbb);
      BrightenInPlace(b);
      BrightenMask(bbb);
      if |tim| > 0 {
        r := Ok(Bgr(b[..]));
      } else {
        r := Ok(Gray(b[..]));
      }
    }

    /** `gauntlet`: per-frame selection for frames pfs..pfs-3, the three pairings,
        the three joins and the filter chain. */
    method RunGauntlet(gdl: seq<RawObs>, fl: FloatOps) returns (fourlist: seq<Track>)
      ensures fourlist == GauntletResult(gdl, pfs, tol, fl)
    {
      var g := MapSeq(gdl, Scale);
      g := RadiusThresh(g);
      ghost var n, tl := pfs, tol;
      ghost var cands := (j: int) => FrameCands(g, n, j);
      ghost var pairs := (j: int) => Segments(g, n, tl, fl, j);
      var ins: map<int, seq<Cand>> := map[];
      for i := 0 to 4
        invariant Tabulated(ins, i, cands)
      {
        var merged := SelectFrame(g, pfs, i);
        TabulatedExtend(ins, i, merged, cands);
        ins := ins[i := merged];
      }
      var outs: map<int, seq<Segment>> := map[];
      for i := 0 to 3
        invariant Tabulated(outs, i, pairs)
      {
        assert ins[i] == cands(i) && ins[i + 1] == cands(i + 1);
        var segs := PairFrames(ins[i], ins[i + 1], tol, fl);
        TabulatedExtend(outs, i, segs, pairs);
        outs := outs[i := segs];
      }
      assert outs[0] == pairs(0) && outs[1] == pairs(1) && outs[2] == pairs(2);
      assert g == Prepared(gdl);
      fourlist := Join(outs[0], outs[1]) + Join(outs[1], outs[2]) + Join(outs[0], outs[2]);
      assert fourlist == FourList(g, pfs, tol, fl);
      fourlist := GapingHole(fourlist);
      fourlist := DistDirTest(fourlist, tol);
      fourlist := DirectionCleanup(fourlist);
      fourlist := SpeedTest(fourlist, tol);
      fourlist := LinearJump(fourlist);
      fourlist := ReversalCheck(fourlist);
      fourlist := MatchSpeed(fourlist, tol);
    }

    /** The track selection of `bird_range`: distinct rows, the gauntlet, and only the
        tracks that start at the current frame. These are exactly the accepted joins
        of pairing (pfs, pfs-1) with pairing (pfs-1, pfs-2). */
    method BirdRange(gdl: seq<RawObs>, fl: FloatOps) returns (emitted: seq<Track>)
      ensures emitted == Emitted(UniqueRows(gdl), pfs, tol, fl)
    {
      LexLt4IsStrictOrder();
      var rows := SortUnique(LexLt4, gdl);
      var fourlist := RunGauntlet(rows, fl);
      if |fourlist| == 0 {
        return [];
      }
      emitted := Filter(fourlist, FromFrame(pfs));
    }
  }
}
