/**
 * sheet.go: the version of the pipeline that fails when the line bound is too
 * small.  A column is dark when more than half of its pixels are (ratio >
 * 0.5); the scan itself is module BarScan's, stitching is Canvas.Merge and
 * the file-index assembly is Files.AssembleImages.
 */
module Sheet {
  import opened Results
  import opened Score
  import opened Canvas
  import opened BarScan

  /** ratio := blacks / height; ratio > 0.5, with the division cleared. */
  predicate IsDark(blacks: int, height: int)
  {
    2 * blacks > height
  }

  /**
   * The integer test agrees with the ratio test on the reals.  For a column
   * of height 0 the Go ratio is 0/0, a NaN, which is never > 0.5.
   */
  lemma IsDarkIsRatioAboveHalf(blacks: nat, height: nat)
    requires blacks <= height
    ensures IsDark(blacks, height) <==> height > 0 && (blacks as real) / (height as real) > 0.5
  {
    if height > 0 {
      var h := height as real;
      var q := (blacks as real) / h;
      assert (q - 0.5) * h == (blacks as real) - 0.5 * h;
      PositiveScale(q - 0.5, h);
      assert IsDark(blacks, height) <==> (blacks as real) - 0.5 * h > 0.0;
    }
  }

  lemma PositiveScale(d: real, h: real)
    requires h > 0.0
    ensures d > 0.0 <==> d * h > 0.0
  {
    if d <= 0.0 {
      assert (-d) * h >= 0.0;
    }
  }

  /** The darkness verdict of every column of the canvas. */
  function DarkColumns(c: array2<Byte>): seq<bool>
    reads c
  {
    seq(c.Length0, x requires 0 <= x < c.Length0 reads c => IsDark(BlacksBelow(c, x, c.Length1), c.Length1))
  }

  // ---------------------------------------------------------------------------
  // detectBars and newMeasures

  /**
   * The column scan: counts the pixels darker than 25 in each column, and
   * runs the region rules on the verdicts; the result is the bars BarScan
   * specifies, each inside the canvas, and strictly left to right.
   */
  method DetectBars(c: array2<Byte>) returns (res: seq<Bar>)
    ensures res == BarsOf(DarkColumns(c))
    ensures forall i :: 0 <= i < |res| ==> 0 < res[i].StartPos <= res[i].EndPos < c.Length0
    ensures forall i, j :: 0 <= i < j < |res| ==> res[i].EndPos < res[j].StartPos
  {
    ghost var dark := DarkColumns(c);
    var first, last := -1, -1;
    res := [];
    var x := 0;
    while x < c.Length0
      invariant x <= c.Length0
      invariant ScanPrefix(dark, x) == ScanState(first, last, res)
    {
      var blacks := 0;
      var y := 0;
      while y < c.Length1
        invariant y <= c.Length1
        invariant blacks == BlacksBelow(c, x, y)
      {
        if c[x, y] < 25 {
          blacks := blacks + 1;
        }
        y := y + 1;
      }
      if IsDark(blacks, c.Length1) {
        if first < 0 {
          first, last := x, x;
        } else {
          last := x;
        }
      } else if first > 0 && first < x - Tol {
        res := res + [Bar(first, last)];
        first, last := -1, -1;
      }
      x := x + 1;
    }
    if first > 0 {
      res := res + [Bar(first, last)];
    }
    BarsAreGood(dark);
    BarsAreApart(dark);
  }

  /**
   * Pairs consecutive bars into measures.  Fails, reporting the count, when
   * fewer than two bars are found; otherwise measure i runs from bar i to
   * bar i + 1, the measures are laid out left to right, and the canvas size
   * is recorded.
   */
  method NewMeasures(c: array2<Byte>) returns (r: Result<Measures, MeasureError>)
    ensures var bars := BarsOf(DarkColumns(c));
      && (r.Err? <==> |bars| < 2)
      && (r.Err? ==> r.error == TooFewBars(|bars|))
      && (r.Ok? ==>
            && |r.value.measures| == |bars| - 1
            && (forall i :: 0 <= i < |bars| - 1 ==> r.value.measures[i] == Measure(bars[i], bars[i + 1]))
            && Ordered(r.value.measures)
            && r.value.width == c.Length0 && r.value.height == c.Length1)
  {
    var bars := DetectBars(c);
    if |bars| < 2 {
      return Err(TooFewBars(|bars|));
    }
    var m: seq<Measure> := [];
    var prev := bars[0];
    var i := 1;
    while i < |bars|
      invariant 1 <= i <= |bars| && prev == bars[i - 1] && |m| == i - 1
      invariant forall j :: 0 <= j < i - 1 ==> m[j] == Measure(bars[j], bars[j + 1])
    {
      m := m + [Measure(prev, bars[i])];
      prev := bars[i];
      i := i + 1;
    }
    PairedBarsOrdered(DarkColumns(c), m);
    return Ok(Measures(m, c.Length0, c.Length1));
  }

  // ---------------------------------------------------------------------------
  // computeLines with its error

  /** One iteration of computeLines: the greedy step, except that overflowing an empty-length line is an error. */
  function PackStep(p: Result<Packing, LineError>, m: Measure, maxPixels: int): Result<Packing, LineError>
  {
    if p.Err? then p
    else if ExtraLength(p.value.current, m) >= maxPixels && LineLength(p.value.current) == 0 then
      Err(LineTooShort(maxPixels))
    else Ok(Place(p.value, m, maxPixels))
  }

  /** The loop state, or the error, after the iterations over all of ms. */
  function Pack(ms: seq<Measure>, maxPixels: int): Result<Packing, LineError>
  {
    if |ms| == 0 then Ok(Packing([], []))
    else PackStep(Pack(ms[..|ms| - 1], maxPixels), ms[|ms| - 1], maxPixels)
  }

  /**
   * Greedy line packing that reports "maximum line length too small".  When
   * it succeeds its lines are those of the plain greedy packing, so they
   * concatenate back to the measures; under left-to-right measures it fails
   * exactly when the first measure alone reaches the bound.
   */
  method ComputeLines(mss: Measures, maxPixels: int) returns (r: Result<seq<Line>, LineError>)
    ensures r.Ok? <==> Pack(mss.measures, maxPixels).Ok?
    ensures r.Err? ==> r.error == LineTooShort(maxPixels)
    ensures r.Ok? ==> r.value == Lines(Greedy(mss.measures, maxPixels)) && Flatten(r.value) == mss.measures
    ensures Ordered(mss.measures) ==>
      (r.Err? <==> |mss.measures| > 0 && MeasureLength(mss.measures[0]) >= maxPixels)
  {
    var ms := mss.measures;
    var res: seq<Line> := [];
    var current: Line := [];
    var i := 0;
    while i < |ms|
      invariant i <= |ms|
      invariant Pack(ms[..i], maxPixels) == Ok(Packing(res, current))
    {
      var m := ms[i];
      assert ms[..i + 1][..i] == ms[..i];
      assert Pack(ms[..i + 1], maxPixels) == PackStep(Ok(Packing(res, current)), m, maxPixels);
      if ExtraLength(current, m) < maxPixels {
        current := current + [m];
        i := i + 1;
        continue;
      }
      if LineLength(current) == 0 {
        PackErrSticky(ms, i + 1, maxPixels);
        if Ordered(ms) {
          PackFailsOnlyAtFirst(ms, maxPixels);
        }
        return Err(LineTooShort(maxPixels));
      }
      res := res + [current];
      current := [m];
      i := i + 1;
    }
    assert ms[..|ms|] == ms;
    PackOkIsGreedy(ms, maxPixels);
    GreedyRoundTrip(ms, maxPixels);
    if Ordered(ms) {
      PackFailsOnlyAtFirst(ms, maxPixels);
    }
    return Ok(res + [current]);
  }

  /** Whatever Pack does not reject is packed exactly as the plain greedy packing does. */
  lemma {:induction false} PackOkIsGreedy(ms: seq<Measure>, maxPixels: int)
    ensures Pack(ms, maxPixels).Ok? ==> Pack(ms, maxPixels).value == Greedy(ms, maxPixels)
  {
    if |ms| > 0 {
      PackOkIsGreedy(ms[..|ms| - 1], maxPixels);
    }
  }

  /** Once the loop has failed on a prefix, the whole run fails. */
  lemma {:induction false} PackErrSticky(ms: seq<Measure>, i: nat, maxPixels: int)
    requires i <= |ms|
    ensures Pack(ms[..i], maxPixels).Err? ==> Pack(ms, maxPixels) == Pack(ms[..i], maxPixels)
  {
    if i < |ms| {
      PackErrSticky(ms[..|ms| - 1], i, maxPixels);
      assert ms[..|ms| - 1][..i] == ms[..i];
    } else {
      assert ms[..i] == ms;
    }
  }

  /**
   * For measures laid out left to right, computeLines fails only at the first
   * measure: exactly when that measure alone reaches the bound.
   */
  lemma {:induction false} PackFailsOnlyAtFirst(ms: seq<Measure>, maxPixels: int)
    requires Ordered(ms)
    ensures Pack(ms, maxPixels).Err? <==> |ms| > 0 && MeasureLength(ms[0]) >= maxPixels
  {
    if |ms| > 0 {
      var pre, m := ms[..|ms| - 1], ms[|ms| - 1];
      assert Ordered(pre);
      PackFailsOnlyAtFirst(pre, maxPixels);
      PackOkIsGreedy(pre, maxPixels);
      if |pre| > 0 {
        assert pre[0] == ms[0];
        if Pack(pre, maxPixels).Ok? {
          var c := Greedy(pre, maxPixels).current;
          GreedyNonEmptyTail(pre, maxPixels);
          var j :| 0 <= j < |pre| && c[0] == pre[j];
          assert c[|c| - 1] == ms[|ms| - 2];
          assert LineLength(c) >= 1;
        }
      }
    }
  }

  // ---------------------------------------------------------------------------
  // Finding: only the first measure is checked against the bound

  /** computeLines as evidently intended: overflowing with a measure that alone reaches the bound is an error too. */
  function PackStrictStep(p: Result<Packing, LineError>, m: Measure, maxPixels: int): Result<Packing, LineError>
  {
    if p.Err? then p
    else if ExtraLength(p.value.current, m) >= maxPixels
         && (LineLength(p.value.current) == 0 || MeasureLength(m) >= maxPixels) then
      Err(LineTooShort(maxPixels))
    else Ok(Place(p.value, m, maxPixels))
  }

  function PackStrict(ms: seq<Measure>, maxPixels: int): Result<Packing, LineError>
  {
    if |ms| == 0 then Ok(Packing([], []))
    else PackStrictStep(PackStrict(ms[..|ms| - 1], maxPixels), ms[|ms| - 1], maxPixels)
  }

  /** The strict packing also packs greedily whenever it succeeds. */
  lemma {:induction false} PackStrictOkIsGreedy(ms: seq<Measure>, maxPixels: int)
    ensures PackStrict(ms, maxPixels).Ok? ==> PackStrict(ms, maxPixels).value == Greedy(ms, maxPixels)
  {
    if |ms| > 0 {
      PackStrictOkIsGreedy(ms[..|ms| - 1], maxPixels);
    }
  }

  /**
   * The intended bound: for measures laid out left to right, the strict
   * packing fails exactly when some measure alone reaches the bound.
   */
  lemma {:induction false} PackStrictFailsIffSomeTooLong(ms: seq<Measure>, maxPixels: int)
    requires Ordered(ms)
    ensures PackStrict(ms, maxPixels).Err? <==> exists i :: 0 <= i < |ms| && MeasureLength(ms[i]) >= maxPixels
  {
    if |ms| > 0 {
      var pre := ms[..|ms| - 1];
      assert Ordered(pre);
      PackStrictFailsIffSomeTooLong(pre, maxPixels);
      if exists i :: 0 <= i < |pre| && MeasureLength(pre[i]) >= maxPixels {
        var i :| 0 <= i < |pre| && MeasureLength(pre[i]) >= maxPixels;
        assert ms[i] == pre[i];
      } else {
        StrictLastStep(ms, maxPixels);
        if PackStrict(ms, maxPixels).Ok? {
          forall i | 0 <= i < |ms| ensures MeasureLength(ms[i]) < maxPixels {
            if i < |pre| {
              assert ms[i] == pre[i];
            }
          }
        }
      }
    }
  }

  /**
   * Once the measures before the last have packed, the strict step fails
   * exactly when the last measure alone reaches the bound: the open line
   * it meets is empty, or starts no later than it does.
   */
  lemma StrictLastStep(ms: seq<Measure>, maxPixels: int)
    requires Ordered(ms) && |ms| > 0 && PackStrict(ms[..|ms| - 1], maxPixels).Ok?
    ensures PackStrict(ms, maxPixels).Err? <==> MeasureLength(ms[|ms| - 1]) >= maxPixels
  {
    var pre, m := ms[..|ms| - 1], ms[|ms| - 1];
    PackStrictOkIsGreedy(pre, maxPixels);
    var c := Greedy(pre, maxPixels).current;
    if |pre| > 0 {
      GreedyNonEmptyTail(pre, maxPixels);
      var j :| 0 <= j < |pre| && c[0] == pre[j];
      assert c[0] == ms[j] && c[|c| - 1] == ms[|ms| - 2];
      assert ExtraLength(c, m) >= MeasureLength(m);
      assert LineLength(c) >= 1;
    }
  }

  /** When the strict packing succeeds, no non-empty line reaches the bound. */
  lemma PackStrictLinesFit(ms: seq<Measure>, maxPixels: int)
    requires Ordered(ms) && PackStrict(ms, maxPixels).Ok?
    ensures forall l :: l in Lines(PackStrict(ms, maxPixels).value) && |l| > 0 ==> LineLength(l) < maxPixels
  {
    PackStrictOkIsGreedy(ms, maxPixels);
    PackStrictFailsIffSomeTooLong(ms, maxPixels);
    var ls := Lines(Greedy(ms, maxPixels));
    forall l | l in ls && |l| > 0 ensures LineLength(l) < maxPixels {
      var k :| 0 <= k < |ls| && ls[k] == l;
      GreedyLineFits(ms, maxPixels, k);
    }
  }

  /** With every measure alone below the bound, every non-empty greedy line is below it. */
  lemma GreedyLineFits(ms: seq<Measure>, maxPixels: int, k: nat)
    requires forall i :: 0 <= i < |ms| ==> MeasureLength(ms[i]) < maxPixels
    requires k < |Lines(Greedy(ms, maxPixels))| && |Lines(Greedy(ms, maxPixels))[k]| > 0
    ensures LineLength(Lines(Greedy(ms, maxPixels))[k]) < maxPixels
  {
    var l := Lines(Greedy(ms, maxPixels))[k];
    if |l| > 1 {
      GreedyFits(ms, maxPixels);
      assert AppendsFit(l, maxPixels);
      assert l[..|l|] == l;
    } else {
      LineMeasureIsInput(ms, maxPixels, k);
      var i :| 0 <= i < |ms| && l[0] == ms[i];
      assert LineLength(l) == MeasureLength(ms[i]);
    }
  }

  /** Every measure of a packed line is one of the input measures. */
  lemma LineMeasureIsInput(ms: seq<Measure>, maxPixels: int, k: nat)
    requires k < |Lines(Greedy(ms, maxPixels))| && |Lines(Greedy(ms, maxPixels))[k]| > 0
    ensures exists i :: 0 <= i < |ms| && Lines(Greedy(ms, maxPixels))[k][0] == ms[i]
  {
    var ls := Lines(Greedy(ms, maxPixels));
    GreedyRoundTrip(ms, maxPixels);
    FlattenContains(ls, k);
  }

  /** The first measure of line k appears in the concatenation. */
  lemma {:induction false} FlattenContains(ls: seq<Line>, k: nat)
    requires k < |ls| && |ls[k]| > 0
    ensures ls[k][0] in Flatten(ls)
  {
    var n := |ls| - 1;
    if k < n {
      FlattenContains(ls[..n], k);
      assert ls[..n][k] == ls[k];
    } else {
      assert Flatten(ls) == Flatten(ls[..n]) + ls[k];
      assert ls[k][0] == Flatten(ls)[|Flatten(ls[..n])|];
    }
  }

  /**
   * The source's check lets a too-long measure through once the first line
   * is open: the second measure here is 96 pixels wide against a bound of
   * 10, yet computeLines succeeds and emits it as a line of its own, while
   * the strict packing rejects it.
   */
  lemma OversizedLineAccepted()
    ensures var m1 := Measure(Bar(1, 1), Bar(5, 5));
      var m2 := Measure(Bar(5, 5), Bar(100, 100));
      && Ordered([m1, m2])
      && Pack([m1, m2], 10) == Ok(Packing([[m1]], [m2]))
      && LineLength([m2]) == 96
      && PackStrict([m1, m2], 10).Err?
  {
    var m1 := Measure(Bar(1, 1), Bar(5, 5));
    var m2 := Measure(Bar(5, 5), Bar(100, 100));
    assert [m1, m2][..1] == [m1];
    assert [m1][..0] == [];
    assert Pack([], 10) == Ok(Packing([], []));
    assert ExtraLength([], m1) == 5;
    assert [] + [m1] == [m1];
    assert Pack([m1], 10) == Ok(Packing([], [m1]));
    assert ExtraLength([m1], m2) == 100 && LineLength([m1]) == 5;
    assert [] + [[m1]] == [[m1]];
    assert PackStrict([m1], 10) == Ok(Packing([], [m1]));
  }

  // ---------------------------------------------------------------------------
  // render: the widest line

  /** render's maxLineLengthPx: the largest line length, and 0 when every line has length 0 or less. */
  method WidestLine(lls: seq<Line>) returns (r: int)
    ensures r >= 0
    ensures forall k :: 0 <= k < |lls| ==> LineLength(lls[k]) <= r
    ensures r == 0 || exists k :: 0 <= k < |lls| && LineLength(lls[k]) == r
  {
    r := 0;
    var k := 0;
    while k < |lls|
      invariant k <= |lls| && r >= 0
      invariant forall j :: 0 <= j < k ==> LineLength(lls[j]) <= r
      invariant r == 0 || exists j :: 0 <= j < k && LineLength(lls[j]) == r
    {
      if LineLength(lls[k]) > r {
        r := LineLength(lls[k]);
      }
      k := k + 1;
    }
  }
}
