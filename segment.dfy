/**
 * segment.go: the version of the pipeline whose line packing never fails.
 * A column is dark when more than 0.65 of its pixels are; the scan itself is
 * module BarScan's and stitching is Canvas.Merge.
 */
module Segment {
  import opened Results
  import opened Score
  import opened Canvas
  import opened BarScan

  /** float64(blacks) > float64(height) * 0.65, with the fraction cleared. */
  predicate IsDark(blacks: int, height: int)
  {
    20 * blacks > 13 * height
  }

  /** The integer test agrees with the comparison against 0.65 of the height on the reals. */
  lemma IsDarkIsAbove65Percent(blacks: int, height: int)
    ensures IsDark(blacks, height) <==> (blacks as real) > (height as real) * 0.65
  {
  }

  /** The darkness verdict of every column of the canvas. */
  function DarkColumns(c: array2<Byte>): seq<bool>
    reads c
  {
    seq(c.Length0, x requires 0 <= x < c.Length0 reads c => IsDark(BlacksBelow(c, x, c.Length1), c.Length1))
  }

  /**
   * The column scan: counts the pixels darker than 25 in each column, and
   * runs the region rules on the verdicts; the result is the bars BarScan
   * specifies, each inside the canvas, and strictly left to right.
   */
  method DetectBars(c: array2<Byte>) returns (res: seq<Bar>)
    ensures res == BarsOf(DarkColumns(c))
    ensures forall i :: 0 <= i < |res| ==> 0 < res[i].StartPos <= res[i].EndPos < c.Length0
    ensures forall i, j :: 0 <= i < j < |res| ==> res[i].EndPos < res[j].StartPos
  {
    ghost var dark := DarkColumns(c);
    var first, last := -1, -1;
    res := [];
    var x := 0;
    while x < c.Length0
      invariant x <= c.Length0
      invariant ScanPrefix(dark, x) == ScanState(first, last, res)
    {
      var blacks := 0;
      var y := 0;
      while y < c.Length1
        invariant y <= c.Length1
        invariant blacks == BlacksBelow(c, x, y)
      {
        if c[x, y] < 25 {
          blacks := blacks + 1;
        }
        y := y + 1;
      }
      if IsDark(blacks, c.Length1) {
        if first < 0 {
          first, last := x, x;
        } else {
          last := x;
        }
      } else if first > 0 && first < x - Tol {
        res := res + [Bar(first, last)];
        first, last := -1, -1;
      }
      x := x + 1;
    }
    if first > 0 {
      res := res + [Bar(first, last)];
    }
    BarsAreGood(dark);
    BarsAreApart(dark);
  }

  /**
   * Pairs consecutive bars into measures.  Fails, reporting the count, when
   * fewer than two bars are found; otherwise measure i runs from bar i to
   * bar i + 1, the measures are laid out left to right, and the canvas size
   * is recorded.
   */
  method NewMeasures(c: array2<Byte>) returns (r: Result<Measures, MeasureError>)
    ensures var bars := BarsOf(DarkColumns(c));
      && (r.Err? <==> |bars| < 2)
      && (r.Err? ==> r.error == TooFewBars(|bars|))
      && (r.Ok? ==>
            && |r.value.measures| == |bars| - 1
            && (forall i :: 0 <= i < |bars| - 1 ==> r.value.measures[i] == Measure(bars[i], bars[i + 1]))
            && Ordered(r.value.measures)
            && r.value.width == c.Length0 && r.value.height == c.Length1)
  {
    var bars := DetectBars(c);
    if |bars| < 2 {
      return Err(TooFewBars(|bars|));
    }
    var m: seq<Measure> := [];
    var prev := bars[0];
    var i := 1;
    while i < |bars|
      invariant 1 <= i <= |bars| && prev == bars[i - 1] && |m| == i - 1
      invariant forall j :: 0 <= j < i - 1 ==> m[j] == Measure(bars[j], bars[j + 1])
    {
      m := m + [Measure(prev, bars[i])];
      prev := bars[i];
      i := i + 1;
    }
    PairedBarsOrdered(DarkColumns(c), m);
    return Ok(Measures(m, c.Length0, c.Length1));
  }

  /**
   * Greedy line packing without an error: the lines are the greedy packing's,
   * there is at least one, and they concatenate back to the measures in order.
   * The first line is empty exactly when there are no measures or the first
   * one alone reaches the bound.
   */
  method ComputeLines(mss: Measures, maxPixels: int) returns (r: seq<Line>)
    ensures r == Lines(Greedy(mss.measures, maxPixels))
    ensures |r| >= 1 && Flatten(r) == mss.measures
    ensures r[0] == [] <==> |mss.measures| == 0 || MeasureLength(mss.measures[0]) >= maxPixels
  {
    var ms := mss.measures;
    var res: seq<Line> := [];
    var current: Line := [];
    var i := 0;
    while i < |ms|
      invariant i <= |ms|
      invariant Greedy(ms[..i], maxPixels) == Packing(res, current)
    {
      var m := ms[i];
      assert ms[..i + 1][..i] == ms[..i];
      if ExtraLength(current, m) < maxPixels {
        current := current + [m];
        i := i + 1;
        continue;
      }
      res := res + [current];
      current := [m];
      i := i + 1;
    }
    assert ms[..|ms|] == ms;
    GreedyRoundTrip(ms, maxPixels);
    GreedyFirstLine(ms, maxPixels);
    return res + [current];
  }
}
