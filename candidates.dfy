/** Per-frame candidate clean-up: the radius window (`radius_thresh`) and the
    merge of contours sharing a centre (`interior_contours`). */
module Candidates {
  import opened Seqs
  import opened Rows

  /** `radii_minimum` and `radii_maximum`, in the ×10000 radius units. */
  const RADII_MINIMUM: int := 2
  const RADII_MAXIMUM: int := 316000

  predicate BelowMax(c: Cand) { c.r <= RADII_MAXIMUM }
  predicate AboveMin(c: Cand) { c.r >= RADII_MINIMUM }
  predicate InRadiusRange(c: Cand) { RADII_MINIMUM <= c.r <= RADII_MAXIMUM }

  /** `radius_thresh`: drop radii above the maximum, then radii below the minimum. */
  function RadiusThresh(inout: seq<Cand>): (r: seq<Cand>)
    ensures forall c :: c in r <==> c in inout && RADII_MINIMUM <= c.r <= RADII_MAXIMUM
  {
    Filter(Filter(inout, BelowMax), AboveMin)
  }

  /** `radius_thresh` keeps exactly the rows with 2 <= radius <= 316000, in order. */
  lemma RadiusThreshExact(rows: seq<Cand>)
    ensures RadiusThresh(rows) == Filter(rows, InRadiusRange)
    ensures IsSubseq(RadiusThresh(rows), rows)
    ensures forall c :: c in RadiusThresh(rows) <==> c in rows && RADII_MINIMUM <= c.r <= RADII_MAXIMUM
  {
    FilterFuse(rows, BelowMax, AboveMin, InRadiusRange);
    FilterIsSubseq(rows, InRadiusRange);
  }

  /** Both ends of the window are inclusive. */
  lemma RadiusThreshBoundaries(c: Cand)
    ensures c.r == 2 || c.r == 316000 ==> RadiusThresh([c]) == [c]
    ensures c.r == 1 || c.r == 316001 ==> RadiusThresh([c]) == []
  {
    RadiusThreshExact([c]);
  }

  // ---------------------------------------------------------------------
  // interior_contours

  /** The (x, y) columns of a table. */
  function XYs(rows: seq<Cand>): (r: seq<(int, int)>)
    ensures |r| == |rows|
    ensures forall k :: 0 <= k < |rows| ==> r[k] == (rows[k].x, rows[k].y)
  {
    MapSeq(rows, (c: Cand) => (c.x, c.y))
  }

  /** The rows whose x column equals `x`: the x-only match `in1[:, 1:3] == i` then `[:, 0]`. */
  function WithX(rows: seq<Cand>, x: int): (r: seq<Cand>)
    ensures forall c :: c in r <==> c in rows && c.x == x
  {
    Filter(rows, (c: Cand) => c.x == x)
  }

  /** `np.amax` of the radius column. */
  function MaxRadius(rows: seq<Cand>): (m: int)
    requires rows != []
    ensures forall c :: c in rows ==> c.r <= m
    ensures exists c :: c in rows && c.r == m
  {
    if |rows| == 1 then rows[0].r
    else
      var m := MaxRadius(rows[1..]);
      assert forall c :: c in rows[1..] ==> c in rows;
      assert rows == [rows[0]] + rows[1..];
      if rows[0].r > m then rows[0].r else m
  }

  /** The output row for one unique point: frame of the first x-match, the point,
      and the largest radius among the x-matches. */
  function DedupeRow(in1: seq<Cand>, pt: (int, int)): Cand
    requires pt in XYs(in1)
  {
    var k :| 0 <= k < |in1| && XYs(in1)[k] == pt;
    assert in1[k] in WithX(in1, pt.0);
    var temp := WithX(in1, pt.0);
    Cand(temp[0].t, pt.0, pt.1, MaxRadius(temp))
  }

  /** The specification of `interior_contours`: one row per unique (x, y), in
      np.unique order. */
  function Dedupe(in1: seq<Cand>): (out: seq<Cand>)
    ensures in1 == [] <==> out == []
  {
    if |in1| == 0 then []
    else
      LexLt2IsStrictOrder();
      var points := SortUnique(LexLt2, XYs(in1));
      assert XYs(in1)[0] in points;
      seq(|points|, i requires 0 <= i < |points| => DedupeRow(in1, points[i]))
  }

  /** `interior_contours`: builds the table row by row, as the loop of `vstack` does. */
  method InteriorContours(in1: seq<Cand>) returns (out: seq<Cand>)
    ensures out == Dedupe(in1)
  {
    out := [];
    if |in1| != 0 {
      LexLt2IsStrictOrder();
      var points := SortUnique(LexLt2, XYs(in1));
      for i := 0 to |points|
        invariant |out| == i
        invariant forall k :: 0 <= k < i ==> out[k] == DedupeRow(in1, points[k])
      {
        var temp := WithX(in1, points[i].0);
        assert points[i] in points;
        ghost var k :| 0 <= k < |in1| && XYs(in1)[k] == points[i];
        assert in1[k] in temp;
        out := out + [Cand(temp[0].t, points[i].0, points[i].1, MaxRadius(temp))];
      }
    }
  }

  /** The (x, y) columns of the output are the sorted unique points of the input. */
  lemma DedupePoints(in1: seq<Cand>)
    ensures StrictOrder(LexLt2)
    ensures XYs(Dedupe(in1)) == SortUnique(LexLt2, XYs(in1))
  {
    LexLt2IsStrictOrder();
    var out := Dedupe(in1);
    var points := SortUnique(LexLt2, XYs(in1));
    if |in1| != 0 {
      assert |XYs(out)| == |points|;
      forall i | 0 <= i < |points| ensures XYs(out)[i] == points[i] {
        assert out[i] == DedupeRow(in1, points[i]);
      }
    }
  }

  /** One row per distinct (x, y), sorted lexicographically, nothing invented and
      nothing lost. */
  lemma DedupeUniquePoints(in1: seq<Cand>)
    ensures StrictlySorted(LexLt2, XYs(Dedupe(in1)))
    ensures forall pt :: pt in XYs(Dedupe(in1)) <==> pt in XYs(in1)
  {
    DedupePoints(in1);
  }

  /** Each output row carries the largest radius among all input rows with the same
      x (y is not compared), and the frame of one of them. */
  lemma DedupeRadius(in1: seq<Cand>)
    ensures forall c :: c in Dedupe(in1) ==>
      && (forall d :: d in in1 && d.x == c.x ==> d.r <= c.r)
      && (exists d :: d in in1 && d.x == c.x && d.r == c.r)
      && (exists d :: d in in1 && d.x == c.x && d.t == c.t)
  {
    var out := Dedupe(in1);
    if |in1| != 0 {
      LexLt2IsStrictOrder();
      var points := SortUnique(LexLt2, XYs(in1));
      forall c | c in out
        ensures forall d :: d in in1 && d.x == c.x ==> d.r <= c.r
        ensures exists d :: d in in1 && d.x == c.x && d.r == c.r
        ensures exists d :: d in in1 && d.x == c.x && d.t == c.t
      {
        var i :| 0 <= i < |out| && out[i] == c;
        assert c == DedupeRow(in1, points[i]);
        var temp := WithX(in1, points[i].0);
        assert temp[0] in temp;
      }
    }
  }

  /** Frame numbers are carried through: a single-frame input gives a single-frame output. */
  lemma DedupeFrame(in1: seq<Cand>, t: int)
    requires forall c :: c in in1 ==> c.t == t
    ensures forall c :: c in Dedupe(in1) ==> c.t == t
  {
    DedupeRadius(in1);
  }

  lemma MaxRadiusOfConstant(rows: seq<Cand>, m: int)
    requires rows != [] && forall c :: c in rows ==> c.r == m
    ensures MaxRadius(rows) == m
  {
  }

  /** On the rows of one frame, merging twice is merging once. */
  lemma DedupeIdempotent(in1: seq<Cand>)
    requires forall c :: c in in1 ==> c.t == in1[0].t
    ensures Dedupe(Dedupe(in1)) == Dedupe(in1)
  {
    if |in1| != 0 {
      var out := Dedupe(in1);
      LexLt2IsStrictOrder();
      var points := SortUnique(LexLt2, XYs(in1));
      DedupePoints(in1);
      SortUniqueOfSorted(LexLt2, points);
      assert SortUnique(LexLt2, XYs(out)) == points;
      var again := Dedupe(out);
      assert |again| == |points| == |out|;
      forall i | 0 <= i < |points| ensures again[i] == out[i] {
        assert again[i] == DedupeRow(out, points[i]);
        assert out[i] == DedupeRow(in1, points[i]);
        assert points[i] in points;
        DedupeRowStable(in1, points[i]);
      }
    }
  }

  /** Merging the merged rows of one frame again reproduces each row. */
  lemma DedupeRowStable(in1: seq<Cand>, pt: (int, int))
    requires in1 != [] && forall c :: c in in1 ==> c.t == in1[0].t
    requires pt in XYs(in1)
    ensures pt in XYs(Dedupe(in1))
    ensures DedupeRow(Dedupe(in1), pt) == DedupeRow(in1, pt)
  {
    var out := Dedupe(in1);
    DedupeUniquePoints(in1);
    var k :| 0 <= k < |out| && XYs(out)[k] == pt;
    assert out[k] in WithX(out, pt.0);
    var k2 :| 0 <= k2 < |in1| && XYs(in1)[k2] == pt;
    assert in1[k2] in WithX(in1, pt.0);
    DedupeMaxStable(in1, pt.0);
    DedupeFrame(in1, in1[0].t);
    var tempOut := WithX(out, pt.0);
    assert tempOut[0] in out;
    var tempIn := WithX(in1, pt.0);
    assert tempIn[0] in in1;
  }

  /** Every merged row with a given x carries the same largest radius as the input rows with
      that x. */
  lemma DedupeMaxStable(in1: seq<Cand>, x: int)
    requires WithX(in1, x) != [] && WithX(Dedupe(in1), x) != []
    ensures MaxRadius(WithX(Dedupe(in1), x)) == MaxRadius(WithX(in1, x))
  {
    var out := Dedupe(in1);
    LexLt2IsStrictOrder();
    var points := SortUnique(LexLt2, XYs(in1));
    var m := MaxRadius(WithX(in1, x));
    forall c | c in WithX(out, x) ensures c.r == m {
      var j :| 0 <= j < |out| && out[j] == c;
      assert c == DedupeRow(in1, points[j]);
      assert points[j].0 == x;
    }
    MaxRadiusOfConstant(WithX(out, x), m);
  }
}
