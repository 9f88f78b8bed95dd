/**
 * The score's structure as the pipeline sees it: bars (inclusive pixel-column
 * ranges), measures (two consecutive bars) and lines (runs of measures), with
 * the length helpers that sheet.go and segment.go share, and the greedy
 * line-packing step that both files run (segment.go emits it as is; sheet.go
 * adds an error check, modelled in module Sheet).
 */
module Score {

  /** A detected bar line: the inclusive column range [StartPos, EndPos]. */
  datatype Bar = Bar(StartPos: int, EndPos: int)

  /** The span of the canvas from one bar to the next. */
  datatype Measure = Measure(Start: Bar, End: Bar)

  /** A run of consecutive measures printed side by side. */
  type Line = seq<Measure>

  /** The measures of a canvas together with the canvas's size. */
  datatype Measures = Measures(measures: seq<Measure>, width: int, height: int)

  /** "only %d bars detected" */
  datatype MeasureError = TooFewBars(found: nat)

  /** "maximum line length too small: %d" */
  datatype LineError = LineTooShort(maxPixels: int)

  // ---------------------------------------------------------------------------
  // Lengths

  /** Width in pixels from the measure's first column to its last. */
  function MeasureLength(m: Measure): (n: int)
    ensures n == LineLength([m])
  {
    m.End.EndPos - m.Start.StartPos + 1
  }

  /**
   * Width in pixels from a line's first column to its last; 0 for an empty
   * line.  A non-empty line whose first measure starts no later than its last
   * one is at least as wide as that last measure, so never 0 wide.
   */
  function LineLength(l: Line): (n: int)
    ensures |l| > 0 && l[0].Start.StartPos <= l[|l| - 1].Start.StartPos <= l[|l| - 1].End.EndPos ==>
      n >= l[|l| - 1].End.EndPos - l[|l| - 1].Start.StartPos + 1 >= 1
  {
    if |l| == 0 then 0 else l[|l| - 1].End.EndPos - l[0].Start.StartPos + 1
  }

  /** The width the line would have with m appended. */
  function ExtraLength(l: Line, m: Measure): (n: int)
    ensures n == LineLength(l + [m])
  {
    if |l| == 0 then MeasureLength(m) else m.End.EndPos - l[0].Start.StartPos + 1
  }

  /** Measures laid out left to right, as the ones built from detected bars are. */
  predicate Ordered(ms: seq<Measure>)
  {
    && (forall i :: 0 <= i < |ms| ==> ms[i].Start.StartPos <= ms[i].End.EndPos)
    && (forall i, j :: 0 <= i < j < |ms| ==>
          ms[i].Start.StartPos <= ms[j].Start.StartPos && ms[i].End.EndPos <= ms[j].End.EndPos)
  }

  // ---------------------------------------------------------------------------
  // Concatenation of lines

  function Flatten(ls: seq<Line>): seq<Measure>
  {
    if |ls| == 0 then [] else Flatten(ls[..|ls| - 1]) + ls[|ls| - 1]
  }

  lemma FlattenSnoc(ls: seq<Line>, l: Line)
    ensures Flatten(ls + [l]) == Flatten(ls) + l
  {
    assert (ls + [l])[..|ls|] == ls;
  }

  // ---------------------------------------------------------------------------
  // Greedy packing

  /** The loop state of computeLines: the closed lines and the open one. */
  datatype Packing = Packing(done: seq<Line>, current: Line)

  /** What computeLines returns from a loop state: the open line is emitted last. */
  function Lines(p: Packing): seq<Line>
  {
    p.done + [p.current]
  }

  /** One loop iteration: extend the open line if it stays under the bound, else close it and open [m]. */
  function Place(p: Packing, m: Measure, maxPixels: int): Packing
  {
    if ExtraLength(p.current, m) < maxPixels then Packing(p.done, p.current + [m])
    else Packing(p.done + [p.current], [m])
  }

  /** The loop state after the iterations over all of ms. */
  function Greedy(ms: seq<Measure>, maxPixels: int): Packing
  {
    if |ms| == 0 then Packing([], [])
    else Place(Greedy(ms[..|ms| - 1], maxPixels), ms[|ms| - 1], maxPixels)
  }

  /** Every measure after a line's first one was appended while the line stayed under the bound. */
  ghost predicate AppendsFit(l: Line, maxPixels: int)
  {
    forall k :: 1 < k <= |l| ==> LineLength(l[..k]) < maxPixels
  }

  /** Concatenating the packed lines gives back the measures, in order. */
  lemma {:induction false} GreedyRoundTrip(ms: seq<Measure>, maxPixels: int)
    ensures Flatten(Lines(Greedy(ms, maxPixels))) == ms
  {
    if |ms| == 0 {
      FlattenSnoc([], []);
    } else {
      var pre, m := ms[..|ms| - 1], ms[|ms| - 1];
      GreedyRoundTrip(pre, maxPixels);
      var p := Greedy(pre, maxPixels);
      assert Greedy(ms, maxPixels) == Place(p, m, maxPixels);
      FlattenSnoc(p.done, p.current);
      assert Flatten(p.done) + p.current == pre;
      if ExtraLength(p.current, m) < maxPixels {
        FlattenSnoc(p.done, p.current + [m]);
        assert Flatten(Lines(Greedy(ms, maxPixels))) == Flatten(p.done) + (p.current + [m]);
      } else {
        FlattenSnoc(p.done + [p.current], [m]);
        assert Flatten(Lines(Greedy(ms, maxPixels))) == Flatten(p.done + [p.current]) + [m];
      }
      assert pre + [m] == ms;
    }
  }

  /**
   * Every append keeps the line under the bound, and the first line's first
   * measure, when there is one, was itself appended under the bound.
   */
  lemma {:induction false} GreedyFits(ms: seq<Measure>, maxPixels: int)
    ensures var ls := Lines(Greedy(ms, maxPixels));
      && (forall i :: 0 <= i < |ls| ==> AppendsFit(ls[i], maxPixels))
      && (|ls[0]| > 0 ==> MeasureLength(ls[0][0]) < maxPixels)
  {
    if |ms| > 0 {
      var pre, m := ms[..|ms| - 1], ms[|ms| - 1];
      GreedyFits(pre, maxPixels);
      var p := Greedy(pre, maxPixels);
      var ls := Lines(p);
      assert forall i :: 0 <= i < |p.done| ==> AppendsFit(p.done[i], maxPixels) by {
        forall i | 0 <= i < |p.done| ensures AppendsFit(p.done[i], maxPixels) {
          assert p.done[i] == ls[i];
        }
      }
      assert AppendsFit(p.current, maxPixels) by { assert p.current == ls[|ls| - 1]; }
      if ExtraLength(p.current, m) < maxPixels {
        var c := p.current + [m];
        forall k | 1 < k <= |c| ensures LineLength(c[..k]) < maxPixels {
          if k <= |p.current| {
            assert c[..k] == p.current[..k];
          } else {
            assert c[..k] == c;
          }
        }
        var ls' := Lines(Place(p, m, maxPixels));
        assert ls' == p.done + [c];
        forall i | 0 <= i < |ls'| ensures AppendsFit(ls'[i], maxPixels) {
          if i < |p.done| { assert ls'[i] == p.done[i]; } else { assert ls'[i] == c; }
        }
        if |p.done| == 0 && |p.current| == 0 {
          assert ls'[0] == [m];
        }
      } else {
        var ls' := Lines(Place(p, m, maxPixels));
        assert ls' == ls + [[m]];
        forall i | 0 <= i < |ls'| ensures AppendsFit(ls'[i], maxPixels) {
          if i < |ls| { assert ls'[i] == ls[i]; }
        }
      }
    }
  }

  /** Line b opens because its first measure would have pushed line a to the bound or beyond. */
  predicate Closes(a: Line, b: Line, maxPixels: int)
  {
    |b| > 0 && ExtraLength(a, b[0]) >= maxPixels
  }

  /** Every line but the last was closed by the first measure of the next one. */
  predicate ClosedWhenFull(ls: seq<Line>, maxPixels: int)
  {
    forall i :: 1 <= i < |ls| ==> Closes(ls[i - 1], ls[i], maxPixels)
  }

  /**
   * Greedy maximality: every line but the last is followed by a non-empty line
   * whose first measure would have pushed it to the bound or beyond.
   */
  lemma {:induction false} GreedyMaximal(ms: seq<Measure>, maxPixels: int)
    ensures ClosedWhenFull(Lines(Greedy(ms, maxPixels)), maxPixels)
  {
    if |ms| > 0 {
      var pre, m := ms[..|ms| - 1], ms[|ms| - 1];
      GreedyMaximal(pre, maxPixels);
      var p := Greedy(pre, maxPixels);
      var ls := Lines(p);
      var ls' := Lines(Place(p, m, maxPixels));
      if ExtraLength(p.current, m) < maxPixels {
        var c := p.current + [m];
        assert ls' == p.done + [c];
        forall i | 1 <= i < |ls'| ensures Closes(ls'[i - 1], ls'[i], maxPixels) {
          assert ls'[i - 1] == ls[i - 1];
          if i < |p.done| {
            assert ls'[i] == ls[i];
          } else {
            assert ls'[i] == c && ls[i] == p.current;
            assert Closes(ls[i - 1], ls[i], maxPixels);
            assert c[0] == p.current[0];
          }
        }
      } else {
        assert ls' == ls + [[m]];
        forall i | 1 <= i < |ls'| ensures Closes(ls'[i - 1], ls'[i], maxPixels) {
          if i < |ls| {
            assert ls'[i - 1] == ls[i - 1] && ls'[i] == ls[i];
          } else {
            assert ls'[i - 1] == p.current && ls'[i] == [m];
          }
        }
      }
    }
  }

  /**
   * The first emitted line is empty exactly when there are no measures or the
   * first measure alone already reaches the bound; otherwise it starts with
   * the first measure.
   */
  lemma {:induction false} GreedyFirstLine(ms: seq<Measure>, maxPixels: int)
    ensures var ls := Lines(Greedy(ms, maxPixels));
      && (ls[0] == [] <==> |ms| == 0 || MeasureLength(ms[0]) >= maxPixels)
      && (ls[0] != [] ==> ls[0][0] == ms[0])
  {
    if |ms| > 1 {
      var pre, m := ms[..|ms| - 1], ms[|ms| - 1];
      GreedyFirstLine(pre, maxPixels);
      var p := Greedy(pre, maxPixels);
      assert pre[0] == ms[0];
      if |p.done| == 0 {
        assert p.current != [] by {
          GreedyNonEmptyTail(pre, maxPixels);
        }
        assert Lines(Place(p, m, maxPixels))[0] == Lines(p)[0] || Lines(Place(p, m, maxPixels))[0] == p.current + [m];
      } else {
        assert Lines(Place(p, m, maxPixels))[0] == p.done[0];
      }
    }
  }

  /** After at least one measure the open line is never empty, and it ends with the last measure seen. */
  lemma {:induction false} GreedyNonEmptyTail(ms: seq<Measure>, maxPixels: int)
    requires |ms| > 0
    ensures var c := Greedy(ms, maxPixels).current;
      |c| > 0 && c[|c| - 1] == ms[|ms| - 1] && exists j :: 0 <= j < |ms| && c[0] == ms[j]
  {
    var pre, m := ms[..|ms| - 1], ms[|ms| - 1];
    var p := Greedy(pre, maxPixels);
    var c := Greedy(ms, maxPixels).current;
    if |pre| > 0 {
      GreedyNonEmptyTail(pre, maxPixels);
      var j :| 0 <= j < |pre| && p.current[0] == pre[j];
      if c == p.current + [m] {
        assert c[0] == ms[j];
      } else {
        assert c[0] == ms[|ms| - 1];
      }
    } else {
      assert c == [m];
      assert c[0] == ms[0];
    }
  }
}
