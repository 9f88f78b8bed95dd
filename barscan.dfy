/**
 * The column scan that detectBars runs in both sheet.go and segment.go, over
 * the per-column darkness verdicts (the two files differ only in how a column
 * is judged dark; see modules Sheet and Segment).  A dark column opens a
 * region or extends it; a light column closes the open region only when the
 * region started at a column greater than 0 and more than Tol columns
 * before it.  A region open at the end is emitted if it started after
 * column 0.
 */
module BarScan {
  import opened Score

  /** detectBars' tol. */
  const Tol := 10

  /** The loop variables first, last and res. */
  datatype ScanState = ScanState(first: int, last: int, bars: seq<Bar>)

  /** One iteration of the column loop at column x. */
  function Step(st: ScanState, x: int, dark: bool): ScanState
  {
    if dark then
      if st.first < 0 then ScanState(x, x, st.bars) else ScanState(st.first, x, st.bars)
    else if st.first > 0 && st.first < x - Tol then
      ScanState(-1, -1, st.bars + [Bar(st.first, st.last)])
    else st
  }

  /** The loop variables after the first n columns. */
  function ScanPrefix(dark: seq<bool>, n: nat): ScanState
    requires n <= |dark|
  {
    if n == 0 then ScanState(-1, -1, []) else Step(ScanPrefix(dark, n - 1), n - 1, dark[n - 1])
  }

  /** The code after the loop: a region still open is emitted when it started after column 0. */
  function Finish(st: ScanState): seq<Bar>
  {
    if st.first > 0 then st.bars + [Bar(st.first, st.last)] else st.bars
  }

  /** The bars detectBars returns for these column verdicts. */
  function BarsOf(dark: seq<bool>): seq<Bar>
  {
    Finish(ScanPrefix(dark, |dark|))
  }

  // ---------------------------------------------------------------------------
  // What an emitted bar looks like

  /** Every column strictly between lo and hi is light. */
  ghost predicate LightBetween(dark: seq<bool>, lo: int, hi: int)
  {
    forall x :: lo < x < hi && 0 <= x < |dark| ==> !dark[x]
  }

  /**
   * A bar starts after column 0 at a dark column preceded by a light one,
   * ends at a dark column, and every column more than Tol past its start is
   * dark (light columns inside it lie within the tolerance).
   */
  ghost predicate GoodBar(dark: seq<bool>, b: Bar)
  {
    && 0 < b.StartPos <= b.EndPos < |dark|
    && dark[b.StartPos] && dark[b.EndPos] && !dark[b.StartPos - 1]
    && forall x :: b.StartPos + Tol < x <= b.EndPos ==> dark[x]
  }

  /**
   * Bar b comes after bar a with at least one column between them, all of
   * them light, and starts more than Tol + 1 columns after a starts (a was
   * closed by a light column more than Tol past its start).
   */
  ghost predicate Apart(dark: seq<bool>, a: Bar, b: Bar)
  {
    && a.EndPos + 1 < b.StartPos
    && a.StartPos + Tol + 1 < b.StartPos
    && LightBetween(dark, a.EndPos, b.StartPos)
  }

  /** Each bar is Apart from the next one. */
  ghost predicate Spaced(dark: seq<bool>, bars: seq<Bar>)
  {
    forall i, j :: 0 <= i < j < |bars| && j == i + 1 ==> Apart(dark, bars[i], bars[j])
  }

  ghost predicate Covered(bars: seq<Bar>, x: int)
  {
    exists i :: 0 <= i < |bars| && bars[i].StartPos <= x <= bars[i].EndPos
  }

  /** The open region, if any, after the first n columns. */
  ghost predicate RegionInv(dark: seq<bool>, n: nat, st: ScanState)
    requires n <= |dark|
  {
    && (st.first == -1 <==> st.last == -1) && st.first >= -1
    && (st.first >= 0 ==>
          && st.first <= st.last < n && dark[st.first] && dark[st.last]
          && (st.first > 0 ==> !dark[st.first - 1])
          && LightBetween(dark, st.last, n))
    && (st.first > 0 ==> forall x :: st.first + Tol < x < n ==> dark[x])
    && (st.first < 0 && n > 0 ==> !dark[n - 1])
    // a region opened at column 0 is never closed, so nothing is ever emitted
    && (st.first == 0 ==> st.bars == [])
    && (n > 0 && dark[0] ==> st.first == 0)
  }

  /** The emitted bars after the first n columns, and how the last one relates to what follows. */
  ghost predicate BarsInv(dark: seq<bool>, n: nat, st: ScanState)
    requires n <= |dark|
  {
    && (forall i :: 0 <= i < |st.bars| ==> GoodBar(dark, st.bars[i]) && st.bars[i].EndPos < n)
    && Spaced(dark, st.bars)
    && (|st.bars| > 0 && st.first >= 0 ==> Apart(dark, st.bars[|st.bars| - 1], Bar(st.first, st.last)))
    && (|st.bars| > 0 && st.first < 0 ==>
          var b := st.bars[|st.bars| - 1];
          b.EndPos + 1 < n && b.StartPos + Tol + 1 < n && LightBetween(dark, b.EndPos, n))
  }

  /** Every dark column seen so far is in an emitted bar or in the open region. */
  ghost predicate CoverInv(dark: seq<bool>, n: nat, st: ScanState)
    requires n <= |dark|
  {
    forall x :: 0 <= x < n && dark[x] ==> Covered(st.bars, x) || st.first <= x <= st.last
  }

  ghost predicate ScanInv(dark: seq<bool>, n: nat, st: ScanState)
    requires n <= |dark|
  {
    RegionInv(dark, n, st) && BarsInv(dark, n, st) && CoverInv(dark, n, st)
  }

  /** A dark column opens or extends the region. */
  lemma StepDark(dark: seq<bool>, x: nat, st: ScanState)
    requires x < |dark| && dark[x] && ScanInv(dark, x, st)
    ensures ScanInv(dark, x + 1, Step(st, x, true))
  {
    StepDarkRegion(dark, x, st);
    StepDarkBars(dark, x, st);
    StepDarkCover(dark, x, st);
  }

  lemma StepDarkRegion(dark: seq<bool>, x: nat, st: ScanState)
    requires x < |dark| && dark[x] && RegionInv(dark, x, st)
    requires forall i :: 0 <= i < |st.bars| ==> GoodBar(dark, st.bars[i]) && st.bars[i].EndPos < x
    ensures RegionInv(dark, x + 1, Step(st, x, true))
  {
    if |st.bars| > 0 {
      assert GoodBar(dark, st.bars[0]);
    }
  }

  lemma StepDarkBars(dark: seq<bool>, x: nat, st: ScanState)
    requires x < |dark| && dark[x] && RegionInv(dark, x, st) && BarsInv(dark, x, st)
    ensures BarsInv(dark, x + 1, Step(st, x, true))
  {
    var st' := Step(st, x, true);
    assert st'.bars == st.bars;
    if |st.bars| > 0 {
      var b := st.bars[|st.bars| - 1];
      if st.first < 0 {
        assert Apart(dark, b, Bar(x, x));
      } else {
        assert Apart(dark, b, Bar(st.first, st.last));
        assert Apart(dark, b, Bar(st.first, x));
      }
    }
  }

  lemma StepDarkCover(dark: seq<bool>, x: nat, st: ScanState)
    requires x < |dark| && dark[x] && RegionInv(dark, x, st) && CoverInv(dark, x, st)
    ensures CoverInv(dark, x + 1, Step(st, x, true))
  {
    var st' := Step(st, x, true);
    forall y | 0 <= y < x + 1 && dark[y] ensures Covered(st'.bars, y) || st'.first <= y <= st'.last {
      if y < x && !Covered(st.bars, y) {
        assert st.first <= y <= st.last;
      }
    }
  }

  /** A light column more than Tol past a region started after column 0 closes it into a bar. */
  lemma StepClose(dark: seq<bool>, x: nat, st: ScanState)
    requires x < |dark| && !dark[x] && ScanInv(dark, x, st)
    requires st.first > 0 && st.first < x - Tol
    ensures ScanInv(dark, x + 1, Step(st, x, false))
  {
    StepCloseRegion(dark, x, st);
    StepCloseBars(dark, x, st);
    StepCloseCover(dark, x, st);
  }

  lemma StepCloseRegion(dark: seq<bool>, x: nat, st: ScanState)
    requires x < |dark| && !dark[x] && RegionInv(dark, x, st)
    requires st.first > 0 && st.first < x - Tol
    ensures RegionInv(dark, x + 1, Step(st, x, false))
  {
  }

  /** The region closed at x is a good bar, Apart from the bar before it. */
  lemma ClosedBar(dark: seq<bool>, x: nat, st: ScanState)
    requires x < |dark| && !dark[x] && RegionInv(dark, x, st)
    requires st.first > 0 && st.first < x - Tol
    ensures GoodBar(dark, Bar(st.first, st.last))
    ensures st.last + 1 < x + 1 && st.first + Tol + 1 < x + 1 && LightBetween(dark, st.last, x + 1)
  {
  }

  lemma StepCloseBars(dark: seq<bool>, x: nat, st: ScanState)
    requires x < |dark| && !dark[x] && RegionInv(dark, x, st) && BarsInv(dark, x, st)
    requires st.first > 0 && st.first < x - Tol
    ensures BarsInv(dark, x + 1, Step(st, x, false))
  {
    var b := Bar(st.first, st.last);
    var bars' := st.bars + [b];
    ClosedBar(dark, x, st);
    forall i, j | 0 <= i < j < |bars'| && j == i + 1 ensures Apart(dark, bars'[i], bars'[j]) {
      if j < |st.bars| {
        assert bars'[i] == st.bars[i] && bars'[j] == st.bars[j];
      } else {
        assert bars'[i] == st.bars[|st.bars| - 1] && bars'[j] == b;
      }
    }
    forall i | 0 <= i < |bars'| ensures GoodBar(dark, bars'[i]) && bars'[i].EndPos < x + 1 {
      if i < |st.bars| {
        assert bars'[i] == st.bars[i];
      }
    }
    assert Step(st, x, false).bars == bars';
  }

  lemma StepCloseCover(dark: seq<bool>, x: nat, st: ScanState)
    requires x < |dark| && !dark[x] && RegionInv(dark, x, st) && CoverInv(dark, x, st)
    requires st.first > 0 && st.first < x - Tol
    ensures CoverInv(dark, x + 1, Step(st, x, false))
  {
    var b := Bar(st.first, st.last);
    var bars' := st.bars + [b];
    forall y | 0 <= y < x + 1 && dark[y] ensures Covered(bars', y) {
      if Covered(st.bars, y) {
        var i :| 0 <= i < |st.bars| && st.bars[i].StartPos <= y <= st.bars[i].EndPos;
        assert bars'[i] == st.bars[i];
      } else {
        assert bars'[|st.bars|] == b;
      }
    }
    assert Step(st, x, false) == ScanState(-1, -1, bars');
  }

  /** Any other light column changes nothing. */
  lemma StepKeep(dark: seq<bool>, x: nat, st: ScanState)
    requires x < |dark| && !dark[x] && ScanInv(dark, x, st)
    requires !(st.first > 0 && st.first < x - Tol)
    ensures ScanInv(dark, x + 1, Step(st, x, false))
  {
    assert Step(st, x, false) == st;
    StepKeepRegion(dark, x, st);
    StepKeepBars(dark, x, st);
  }

  lemma StepKeepRegion(dark: seq<bool>, x: nat, st: ScanState)
    requires x < |dark| && !dark[x] && RegionInv(dark, x, st)
    requires !(st.first > 0 && st.first < x - Tol)
    ensures RegionInv(dark, x + 1, st)
  {
    if st.first >= 0 {
      assert LightBetween(dark, st.last, x + 1);
    }
  }

  lemma StepKeepBars(dark: seq<bool>, x: nat, st: ScanState)
    requires x < |dark| && !dark[x] && BarsInv(dark, x, st)
    ensures BarsInv(dark, x + 1, st)
  {
    if |st.bars| > 0 && st.first < 0 {
      assert LightBetween(dark, st.bars[|st.bars| - 1].EndPos, x + 1);
    }
  }

  lemma {:induction false} ScanInvHolds(dark: seq<bool>, n: nat)
    requires n <= |dark|
    ensures ScanInv(dark, n, ScanPrefix(dark, n))
  {
    if n > 0 {
      ScanInvHolds(dark, n - 1);
      var st := ScanPrefix(dark, n - 1);
      var x := n - 1;
      if dark[x] {
        StepDark(dark, x, st);
      } else if st.first > 0 && st.first < x - Tol {
        StepClose(dark, x, st);
      } else {
        StepKeep(dark, x, st);
      }
    }
  }

  /** Later bars lie strictly to the right of earlier ones. */
  lemma {:induction false} ApartIsIncreasing(dark: seq<bool>, bars: seq<Bar>)
    requires forall i :: 0 <= i < |bars| ==> GoodBar(dark, bars[i])
    requires Spaced(dark, bars)
    ensures forall i, j :: 0 <= i < j < |bars| ==> bars[i].EndPos < bars[j].StartPos
  {
    if |bars| > 1 {
      var pre := bars[..|bars| - 1];
      ApartIsIncreasing(dark, pre);
      forall i, j | 0 <= i < j < |bars| ensures bars[i].EndPos < bars[j].StartPos {
        if j < |bars| - 1 {
          assert pre[i] == bars[i] && pre[j] == bars[j];
        } else if i < j - 1 {
          assert pre[i] == bars[i] && pre[j - 1] == bars[j - 1];
          assert Apart(dark, bars[j - 1], bars[j]);
        } else {
          assert Apart(dark, bars[j - 1], bars[j]);
        }
      }
    }
  }

  /** The scan's invariant at the end of the columns, carried through the post-loop emission. */
  lemma FinalInv(dark: seq<bool>)
    ensures var bars := BarsOf(dark);
      && (forall i :: 0 <= i < |bars| ==> GoodBar(dark, bars[i]))
      && Spaced(dark, bars)
      && ((|dark| == 0 || !dark[0]) ==> forall x :: 0 <= x < |dark| && dark[x] ==> Covered(bars, x))
      && (|bars| > 0 ==> LightBetween(dark, bars[|bars| - 1].EndPos, |dark|))
      && (|dark| > 0 && dark[0] ==> bars == [])
  {
    var st := ScanPrefix(dark, |dark|);
    assert BarsOf(dark) == Finish(st);
    ScanInvHolds(dark, |dark|);
    FinishBars(dark, st);
    if |dark| == 0 || !dark[0] {
      FinishCover(dark, st);
    }
  }

  lemma FinishBars(dark: seq<bool>, st: ScanState)
    requires RegionInv(dark, |dark|, st) && BarsInv(dark, |dark|, st)
    ensures var bars := Finish(st);
      && (forall i :: 0 <= i < |bars| ==> GoodBar(dark, bars[i]))
      && Spaced(dark, bars)
      && (|bars| > 0 ==> LightBetween(dark, bars[|bars| - 1].EndPos, |dark|))
      && (|dark| > 0 && dark[0] ==> bars == [])
  {
    if st.first > 0 {
      var b := Bar(st.first, st.last);
      var bars := st.bars + [b];
      assert GoodBar(dark, b);
      forall i, j | 0 <= i < j < |bars| && j == i + 1 ensures Apart(dark, bars[i], bars[j]) {
        if j < |st.bars| {
          assert bars[i] == st.bars[i] && bars[j] == st.bars[j];
        } else {
          assert bars[i] == st.bars[|st.bars| - 1] && bars[j] == b;
        }
      }
      forall i | 0 <= i < |bars| ensures GoodBar(dark, bars[i]) {
        if i < |st.bars| {
          assert bars[i] == st.bars[i];
        }
      }
    }
  }

  lemma FinishCover(dark: seq<bool>, st: ScanState)
    requires RegionInv(dark, |dark|, st) && CoverInv(dark, |dark|, st)
    requires st.first != 0
    ensures forall x :: 0 <= x < |dark| && dark[x] ==> Covered(Finish(st), x)
  {
    if st.first > 0 {
      var b := Bar(st.first, st.last);
      var bars := st.bars + [b];
      forall x | 0 <= x < |dark| && dark[x] ensures Covered(bars, x) {
        if Covered(st.bars, x) {
          var i :| 0 <= i < |st.bars| && st.bars[i].StartPos <= x <= st.bars[i].EndPos;
          assert bars[i] == st.bars[i];
        } else {
          assert bars[|st.bars|] == b;
        }
      }
    }
  }

  // ---------------------------------------------------------------------------
  // The properties of detectBars' result

  /**
   * Every bar lies inside the canvas, never at column 0, starts at a dark
   * column right after a light one, ends at a dark column, and is dark at
   * every column more than Tol past its start.
   */
  lemma BarsAreGood(dark: seq<bool>)
    ensures forall i :: 0 <= i < |BarsOf(dark)| ==> GoodBar(dark, BarsOf(dark)[i])
  {
    FinalInv(dark);
  }

  /**
   * Consecutive bars have a light gap between them, and each next bar starts
   * more than Tol + 1 columns after the previous one starts; bars come out
   * strictly increasing.
   */
  lemma BarsAreApart(dark: seq<bool>)
    ensures var bars := BarsOf(dark);
      && Spaced(dark, bars)
      && (forall i, j :: 0 <= i < j < |bars| ==> bars[i].EndPos < bars[j].StartPos)
  {
    FinalInv(dark);
    ApartIsIncreasing(dark, BarsOf(dark));
  }

  /** If column 0 is dark, the region it opens is never emitted and blocks every later one. */
  lemma DarkFirstColumnHidesAllBars(dark: seq<bool>)
    requires |dark| > 0 && dark[0]
    ensures BarsOf(dark) == []
  {
    FinalInv(dark);
  }

  /**
   * If column 0 is light, every dark column lies inside some bar, no dark
   * column precedes the first bar and none follows the last.
   */
  lemma BarsCoverDarkColumns(dark: seq<bool>)
    requires |dark| == 0 || !dark[0]
    ensures var bars := BarsOf(dark);
      && (forall x :: 0 <= x < |dark| && dark[x] ==> Covered(bars, x))
      && (|bars| > 0 ==> LightBetween(dark, -1, bars[0].StartPos))
      && (|bars| > 0 ==> LightBetween(dark, bars[|bars| - 1].EndPos, |dark|))
  {
    var bars := BarsOf(dark);
    FinalInv(dark);
    if |bars| > 0 {
      ApartIsIncreasing(dark, bars);
      assert GoodBar(dark, bars[0]);
      LightBeforeFirst(dark, bars);
    }
  }

  /** With every dark column covered and bars strictly increasing, nothing before the first bar is dark. */
  lemma LightBeforeFirst(dark: seq<bool>, bars: seq<Bar>)
    requires |bars| > 0 && bars[0].StartPos <= bars[0].EndPos
    requires forall x :: 0 <= x < |dark| && dark[x] ==> Covered(bars, x)
    requires forall i, j :: 0 <= i < j < |bars| ==> bars[i].EndPos < bars[j].StartPos
    ensures LightBetween(dark, -1, bars[0].StartPos)
  {
    assert forall i :: 0 <= i < |bars| ==> bars[0].StartPos <= bars[i].StartPos;
    forall x | -1 < x < bars[0].StartPos && 0 <= x < |dark| ensures !dark[x] {
      assert !Covered(bars, x);
    }
  }

  /**
   * Pairing consecutive detected bars gives measures laid out left to right,
   * each one sharing its end bar with the next one's start and wider than
   * Tol + 2 columns.
   */
  lemma PairedBarsOrdered(dark: seq<bool>, ms: seq<Measure>)
    requires var bars := BarsOf(dark);
      && |ms| + 1 == |bars|
      && forall i :: 0 <= i < |ms| ==> ms[i] == Measure(bars[i], bars[i + 1])
    ensures Ordered(ms)
    ensures forall i :: 0 <= i < |ms| ==> MeasureLength(ms[i]) > Tol + 2
  {
    var bars := BarsOf(dark);
    BarsAreGood(dark);
    BarsAreApart(dark);
    forall i | 0 <= i < |ms| ensures MeasureLength(ms[i]) > Tol + 2 && ms[i].Start.StartPos <= ms[i].End.EndPos {
      assert GoodBar(dark, bars[i + 1]);
      assert Apart(dark, bars[i], bars[i + 1]);
    }
    forall i, j | 0 <= i < j < |ms|
      ensures ms[i].Start.StartPos <= ms[j].Start.StartPos && ms[i].End.EndPos <= ms[j].End.EndPos
    {
      assert GoodBar(dark, bars[j + 1]);
      assert bars[i].EndPos < bars[j].StartPos && bars[i + 1].EndPos < bars[j + 1].StartPos;
    }
  }
}
